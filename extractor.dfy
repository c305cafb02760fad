/**
 * `parseCssVariables` of scripts/generate-tokens.js: every line of a CSS text is
 * searched for the regular expression `--([\w-]+):\s*([^;]+);`, and the leftmost
 * match, if any, becomes a token leaf written into the per-file tree at the path
 * given by the variable name split on `-`.
 *
 * The regular expression is stated here by the positions of its pieces: a match
 * at `start` has `--` there, a non-empty run of `[A-Za-z0-9_-]` up to the colon
 * at `colon`, at least one character after the colon, and the first semicolon
 * after the colon at `semi`.
 */
module Extractor {
  import opened Wrappers
  import opened Text
  import opened PathBuilder

  /** The character class `[\w-]` (ASCII word characters and the hyphen). */
  predicate IsNameChar(c: char) {
    ('a' <= c <= 'z') || ('A' <= c <= 'Z') || ('0' <= c <= '9') || c == '_' || c == '-'
  }

  /** Where the pieces of one match lie in the line. */
  datatype RegexMatch = RegexMatch(start: nat, colon: nat, semi: nat)

  /** The regular expression matches at `s` with its colon at `c` and its
      semicolon at `t`: `\s*([^;]+)` covers `c+1 .. t-1`, which is not empty
      and holds no semicolon. */
  ghost predicate MatchesWith(line: string, s: nat, c: nat, t: nat) {
    && s + 2 < c && c + 1 < t && t < |line|
    && line[s] == '-' && line[s + 1] == '-'
    && (forall k :: s + 2 <= k < c ==> IsNameChar(line[k]))
    && line[c] == ':'
    && (forall k :: c < k < t ==> line[k] != ';')
    && line[t] == ';'
  }

  ghost predicate MatchesAt(line: string, s: nat) {
    exists c, t :: MatchesWith(line, s, c, t)
  }

  /** A match at a given start has only one possible colon and semicolon, so
      the captured groups are determined by where the match starts. */
  lemma MatchPositionsUnique(line: string, s: nat, c1: nat, t1: nat, c2: nat, t2: nat)
    requires MatchesWith(line, s, c1, t1) && MatchesWith(line, s, c2, t2)
    ensures c1 == c2 && t1 == t2
  {
  }

  /** End of the maximal run of name characters starting at `i`. */
  function NameEnd(line: string, i: nat): (e: nat)
    requires i <= |line|
    ensures i <= e <= |line|
    ensures forall k :: i <= k < e ==> IsNameChar(line[k])
    ensures e < |line| ==> !IsNameChar(line[e])
    decreases |line| - i
  {
    if i < |line| && IsNameChar(line[i]) then NameEnd(line, i + 1) else i
  }

  /** Index of the first semicolon at or after `i`. */
  function SemicolonFrom(line: string, i: nat): (t: Option<nat>)
    requires i <= |line|
    ensures t.None? ==> forall k :: i <= k < |line| ==> line[k] != ';'
    ensures t.Some? ==> i <= t.value < |line| && line[t.value] == ';'
    ensures t.Some? ==> forall k :: i <= k < t.value ==> line[k] != ';'
    decreases |line| - i
  {
    if i == |line| then None
    else if line[i] == ';' then Some(i)
    else SemicolonFrom(line, i + 1)
  }

  /** The pieces of a match lie in order inside the line. */
  predicate WellPlaced(line: string, m: RegexMatch) {
    m.start + 2 < m.colon && m.colon + 1 < m.semi < |line|
  }

  /** The attempt of the regular expression at one start position. */
  function MatchAt(line: string, s: nat): (r: Option<RegexMatch>)
    ensures r.Some? ==> r.value.start == s && WellPlaced(line, r.value)
  {
    if s + 2 < |line| && line[s] == '-' && line[s + 1] == '-' then
      var c := NameEnd(line, s + 2);
      if c > s + 2 && c < |line| && line[c] == ':' then
        var t := SemicolonFrom(line, c + 1);
        if t.Some? && t.value > c + 1 then Some(RegexMatch(s, c, t.value))
        else None
      else None
    else None
  }

  /** The attempt at `s` succeeds exactly when the regular expression matches
      there, and then reports where its pieces lie. */
  lemma MatchAtSpec(line: string, s: nat)
    ensures MatchAt(line, s).Some? ==> MatchesWith(line, s, MatchAt(line, s).value.colon, MatchAt(line, s).value.semi)
    ensures MatchAt(line, s).None? ==> !MatchesAt(line, s)
  {
  }

  /** The search of `String.prototype.match`: the first start position, from
      `from` on, at which the regular expression matches. */
  function FirstMatch(line: string, from: nat): (r: Option<RegexMatch>)
    requires from <= |line|
    ensures r.Some? ==> from <= r.value.start && WellPlaced(line, r.value)
    decreases |line| - from
  {
    var m := MatchAt(line, from);
    if m.Some? then m
    else if from == |line| then None
    else FirstMatch(line, from + 1)
  }

  /** The search finds the first start from `from` on where the regular
      expression matches, and nothing iff there is none. */
  lemma {:induction false} FirstMatchSpec(line: string, from: nat)
    requires from <= |line|
    ensures var r := FirstMatch(line, from);
      r.Some? ==> MatchesWith(line, r.value.start, r.value.colon, r.value.semi)
    ensures var r := FirstMatch(line, from);
      r.Some? ==> forall s :: from <= s < r.value.start ==> !MatchesAt(line, s)
    ensures FirstMatch(line, from).None? ==> forall s: nat :: from <= s ==> !MatchesAt(line, s)
    decreases |line| - from
  {
    MatchAtSpec(line, from);
    if MatchAt(line, from).None? && from < |line| {
      FirstMatchSpec(line, from + 1);
    }
  }

  /** `line.match(/--([\w-]+):\s*([^;]+);/)`. */
  function Match(line: string): (r: Option<RegexMatch>)
    ensures r.Some? ==> WellPlaced(line, r.value)
  {
    FirstMatch(line, 0)
  }

  /** `line.match` returns the leftmost match, and nothing iff the regular
      expression matches nowhere in the line. */
  lemma MatchSpec(line: string)
    ensures Match(line).Some? ==>
      var m := Match(line).value;
      MatchesWith(line, m.start, m.colon, m.semi)
    ensures Match(line).Some? ==> forall s: nat :: s < Match(line).value.start ==> !MatchesAt(line, s)
    ensures Match(line).None? <==> forall s: nat :: !MatchesAt(line, s)
  {
    FirstMatchSpec(line, 0);
    if Match(line).Some? {
      var m := Match(line).value;
      assert MatchesAt(line, m.start);
    }
  }

  /** The text between the colon and the semicolon. */
  function Segment(line: string, m: RegexMatch): string
    requires m.colon < m.semi <= |line|
  {
    line[m.colon + 1..m.semi]
  }

  /** Capture group 2: `\s*` takes all leading whitespace of the segment, but
      gives one character back when `[^;]+` would otherwise be left empty. */
  function CapturedValue(line: string, m: RegexMatch): (v: string)
    requires m.colon + 1 < m.semi <= |line|
    ensures |v| >= 1 && Trim(v) == Trim(Segment(line, m))
  {
    var seg := Segment(line, m);
    var w := LeadingWhitespace(seg);
    LeadingWhitespaceSpec(seg);
    var skip := if w < |seg| then w else |seg| - 1;
    assert seg[..skip] == seg[..w][..skip];
    TrimDropLeading(seg, skip);
    assert line[m.colon + 1 + skip..m.semi] == seg[skip..];
    line[m.colon + 1 + skip..m.semi]
  }

  /** A recognised declaration: the variable name without its dashes, and the
      trimmed value. */
  datatype Declaration = Declaration(name: string, value: string)

  /** The declaration a line contributes: the name and the trimmed capture of
      the leftmost match, if there is one. */
  function ParseLine(line: string): (r: Option<Declaration>)
    ensures r.Some? ==> |r.value.name| > 0 && |r.value.name| + 5 <= |line|
  {
    match Match(line)
    case None => None
    case Some(m) => Some(DeclarationAt(line, m))
  }

  /** The declaration of a match: `match[1]`, and `match[2]` trimmed. */
  function DeclarationAt(line: string, m: RegexMatch): Declaration
    requires WellPlaced(line, m)
  {
    Declaration(line[m.start + 2..m.colon], Trim(CapturedValue(line, m)))
  }

  /** The name is the text between `--` and the colon, and the value is the
      trimmed text between the colon and the semicolon. */
  lemma DeclarationAtSpec(line: string, m: RegexMatch)
    requires WellPlaced(line, m)
    ensures DeclarationAt(line, m) == Declaration(line[m.start + 2..m.colon], Trim(line[m.colon + 1..m.semi]))
  {
    assert Segment(line, m) == line[m.colon + 1..m.semi];
  }

  /** A line yields a declaration iff the regular expression matches it; the
      name is the non-empty run of name characters of the leftmost match and
      the value its trimmed segment, which holds no semicolon. */
  lemma ParseLineSpec(line: string)
    ensures ParseLine(line).None? <==> forall s: nat :: !MatchesAt(line, s)
    ensures ParseLine(line).Some? ==>
      var m := Match(line).value;
      ParseLine(line).value == Declaration(line[m.start + 2..m.colon], Trim(Segment(line, m)))
    ensures ParseLine(line).Some? ==>
      var name := ParseLine(line).value.name;
      |name| > 0 && forall k :: 0 <= k < |name| ==> IsNameChar(name[k])
    ensures ParseLine(line).Some? ==> ';' !in ParseLine(line).value.value
  {
    MatchSpec(line);
    if Match(line).Some? {
      var m := Match(line).value;
      MatchedPieces(line, m);
      DeclarationAtSpec(line, m);
      assert Segment(line, m) == line[m.colon + 1..m.semi];
    }
  }

  /** The name of a match is a non-empty run of name characters, and its
      trimmed value holds no semicolon. */
  lemma MatchedPieces(line: string, m: RegexMatch)
    requires MatchesWith(line, m.start, m.colon, m.semi)
    ensures var name := line[m.start + 2..m.colon];
      |name| > 0 && forall k :: 0 <= k < |name| ==> IsNameChar(name[k])
    ensures ';' !in Trim(Segment(line, m))
  {
    var seg := Segment(line, m);
    assert forall k :: 0 <= k < |seg| ==> seg[k] == line[m.colon + 1 + k];
    if ';' in Trim(seg) {
      TrimChars(seg, ';');
    }
    var name := line[m.start + 2..m.colon];
    assert forall k :: 0 <= k < |name| ==> name[k] == line[m.start + 2 + k];
  }

  /** The match found is the leftmost one, with its pieces where they lie. */
  lemma LeftmostMatch(line: string, s: nat, c: nat, t: nat)
    requires MatchesWith(line, s, c, t)
    requires forall s': nat :: s' < s ==> !MatchesAt(line, s')
    ensures Match(line) == Some(RegexMatch(s, c, t))
  {
    MatchSpec(line);
    assert MatchesAt(line, s);
    var m := Match(line).value;
    assert MatchesAt(line, m.start);
    assert m.start == s;
    MatchPositionsUnique(line, s, c, t, m.colon, m.semi);
  }

  /** What a line contributes given the match `line.match` returns. */
  lemma MatchedLine(line: string, m: RegexMatch)
    requires Match(line) == Some(m)
    ensures ParseLine(line) == Some(Declaration(line[m.start + 2..m.colon], Trim(line[m.colon + 1..m.semi])))
  {
    assert ParseLine(line) == Some(DeclarationAt(line, m));
    DeclarationAtSpec(line, m);
  }

  /** The leaf record written for a declaration; its type is always `color`. */
  function TokenLeaf(d: Declaration): Tree {
    Obj(map["value" := Str(d.value), "type" := Str("color"), "originalVariable" := Str("--" + d.name)])
  }

  /** The path of a declaration: its name split on `-` (empty pieces kept). */
  function TokenPath(d: Declaration): seq<string> {
    Split(d.name, '-')
  }

  /** The tree after one line has been processed, or `None` when `setDeep`
      throws on it. */
  function AddLine(tokens: Tree, line: string): (r: Option<Tree>)
    ensures r.Some? ==> r.value.Obj? == tokens.Obj?
  {
    match ParseLine(line)
    case None => Some(tokens)
    case Some(d) => SetPath(tokens, TokenPath(d), TokenLeaf(d))
  }

  /** The tree built from a sequence of lines, folding from the first line on;
      `None` once a line throws, which ends `parseCssVariables` with the error. */
  function ParseLines(lines: seq<string>): (r: Option<Tree>)
    ensures r.Some? ==> r.value.Obj?
  {
    if |lines| == 0 then Some(Obj(map[]))
    else
      match ParseLines(lines[..|lines| - 1])
      case None => None
      case Some(tokens) => AddLine(tokens, lines[|lines| - 1])
  }

  /** `AddLine` spelled out the way the loop of `parseCssVariables` computes it. */
  lemma AddLineUnfold(tokens: Tree, line: string)
    ensures Match(line).None? ==> AddLine(tokens, line) == Some(tokens)
    ensures Match(line).Some? ==>
      var d := DeclarationAt(line, Match(line).value);
      AddLine(tokens, line) == SetPath(tokens, Split(d.name, '-'), TokenLeaf(d))
  {
  }

  /** One more line of the fold. */
  lemma ParseLinesStep(lines: seq<string>, i: nat)
    requires i < |lines| && ParseLines(lines[..i]).Some?
    ensures ParseLines(lines[..i + 1]) == AddLine(ParseLines(lines[..i]).value, lines[i])
  {
    assert lines[..i + 1][..i] == lines[..i];
  }

  /** Once a line throws, no later line is processed: the whole call throws. */
  lemma {:induction false} ParseLinesFailureSticks(lines: seq<string>, n: nat)
    requires n <= |lines| && ParseLines(lines[..n]).None?
    ensures ParseLines(lines).None?
    decreases |lines| - n
  {
    if n < |lines| {
      assert lines[..n + 1][..n] == lines[..n];
      ParseLinesFailureSticks(lines, n + 1);
    } else {
      assert lines[..n] == lines;
    }
  }

  /** The tree `parseCssVariables` returns for a CSS text, or `None` when it throws. */
  function CssTokens(css: string): Option<Tree> {
    ParseLines(Split(css, '\n'))
  }

  /** `parseCssVariables(cssContent)`; `None` stands for the TypeError `setDeep`
      throws. */
  method ParseCssVariables(cssContent: string) returns (result: Option<Tree>)
    ensures result == CssTokens(cssContent)
  {
    var tokens := Obj(map[]);
    var lines := Split(cssContent, '\n');
    for i := 0 to |lines|
      invariant ParseLines(lines[..i]) == Some(tokens)
    {
      var line := lines[i];
      var m := Match(line);
      ghost var before := tokens;
      AddLineUnfold(before, line);
      ParseLinesStep(lines, i);
      if m.Some? {
        var variableName := line[m.value.start + 2..m.value.colon];
        var value := Trim(CapturedValue(line, m.value));
        var parts := Split(variableName, '-');
        assert Declaration(variableName, value) == DeclarationAt(line, m.value);
        var written := SetDeep(tokens, parts, TokenLeaf(Declaration(variableName, value)));
        if written.None? {
          ParseLinesFailureSticks(lines, i + 1);
          return None;
        }
        tokens := written.value;
      }
    }
    assert lines[..|lines|] == lines;
    result := Some(tokens);
  }

  // ---------------------------------------------------------------- properties

  /** A line contributes exactly what its leftmost declaration says: the leaf
      holds the trimmed value, the type `color` and the name behind `--`, and
      sits at the path `name.split('-')`, provided no earlier non-empty string
      blocks that path. */
  lemma {:induction false} LastLineLeaf(lines: seq<string>, line: string)
    requires ParseLines(lines).Some? && ParseLine(line).Some?
    requires Reaches(ParseLines(lines).value, TokenPath(ParseLine(line).value))
    ensures ParseLines(lines + [line]).Some?
    ensures
      var d := ParseLine(line).value;
      && Lookup(ParseLines(lines + [line]).value, TokenPath(d)) == Some(TokenLeaf(d))
      && TokenLeaf(d).fields["originalVariable"] == Str("--" + d.name)
      && ';' !in TokenLeaf(d).fields["value"].s
  {
    var d := ParseLine(line).value;
    ParseLineSpec(line);
    assert (lines + [line])[..|lines|] == lines;
    SetPathPlaces(ParseLines(lines).value, TokenPath(d), TokenLeaf(d), []);
    assert TokenPath(d) + [] == TokenPath(d);
  }

  /** A name declared on two consecutive lines keeps the later line's leaf. */
  lemma LaterDeclarationWins(tokens: Tree, first: string, second: string)
    requires ParseLine(first).Some? && ParseLine(second).Some?
    requires ParseLine(first).value.name == ParseLine(second).value.name
    requires AddLine(tokens, first).Some?
    ensures AddLine(AddLine(tokens, first).value, second) == AddLine(tokens, second)
  {
    var d1, d2 := ParseLine(first).value, ParseLine(second).value;
    SetPathOverwrite(tokens, TokenPath(d1), TokenLeaf(d1), TokenLeaf(d2));
  }

  /** A line without a match leaves the tree as it was, whatever it holds. */
  lemma UnmatchedLineIgnored(lines: seq<string>, line: string)
    requires forall s: nat :: !MatchesAt(line, s)
    ensures ParseLines(lines + [line]) == ParseLines(lines)
  {
    ParseLineSpec(line);
    assert (lines + [line])[..|lines|] == lines;
  }

  /** A declaration with a hex colour value: the value is trimmed and the name keeps
      its digits. */
  lemma ExampleDeclaration(line: string)
    requires line == "--color-brand-500: #3b82f6;"
    ensures ParseLine(line) == Some(Declaration("color-brand-500", "#3b82f6"))
  {
    ExampleDeclarationPieces(line);
    LeftmostMatch(line, 0, 17, 26);
    MatchedLine(line, RegexMatch(0, 17, 26));
  }

  lemma ExampleDeclarationPieces(line: string)
    requires line == "--color-brand-500: #3b82f6;"
    ensures MatchesWith(line, 0, 17, 26)
    ensures line[2..17] == "color-brand-500" && Trim(line[18..26]) == "#3b82f6"
  {
    ExampleDeclarationSlices(line);
    ExampleDeclarationMatch(line);
    ExampleValueTrim();
  }

  lemma ExampleDeclarationMatch(line: string)
    requires line == "--color-brand-500: #3b82f6;"
    ensures MatchesWith(line, 0, 17, 26)
  {
    assert |line| == 27;
    assert line[0] == '-' && line[1] == '-' && line[17] == ':' && line[26] == ';';
    forall k | 2 <= k < 17
      ensures IsNameChar(line[k])
    {
    }
    forall k | 17 < k < 26
      ensures line[k] != ';'
    {
    }
  }

  lemma ExampleValueTrim()
    ensures Trim(" #3b82f6") == "#3b82f6"
  {
    assert Trimmed(" #3b82f6", 1, "#3b82f6");
    TrimUnique(" #3b82f6", 1, "#3b82f6");
  }

  lemma ExampleDeclarationSlices(line: string)
    requires line == "--color-brand-500: #3b82f6;"
    ensures line[2..17] == "color-brand-500" && line[18..26] == " #3b82f6"
  {
    assert line == "--" + "color-brand-500" + ":" + " #3b82f6" + ";";
  }

  /** A value of whitespace only still matches and gives an empty value. */
  lemma ExampleBlankValue(line: string)
    requires line == "--a: ;"
    ensures ParseLine(line) == Some(Declaration("a", ""))
  {
    ExampleBlankValuePieces(line);
    LeftmostMatch(line, 0, 3, 5);
    MatchedLine(line, RegexMatch(0, 3, 5));
  }

  lemma ExampleBlankValuePieces(line: string)
    requires line == "--a: ;"
    ensures MatchesWith(line, 0, 3, 5)
    ensures line[2..3] == "a" && Trim(line[4..5]) == ""
  {
    assert line[4..5] == " ";
    BlankTrim();
  }

  /** A lone space trims to nothing. */
  lemma BlankTrim()
    ensures Trim(" ") == ""
  {
    assert Trimmed(" ", 1, "");
    TrimUnique(" ", 1, "");
  }

  /** A doubled hyphen gives an empty path segment. */
  lemma ExampleEmptySegment()
    ensures Split("a--b", '-') == ["a", "", "b"]
  {
    SplitJoin(["a", "", "b"], '-');
    assert Join(["a", "", "b"], '-') == "a--b";
  }

  /** `--a: x;` declares `a` with the value `x`. */
  lemma ExampleLeafLine(line: string)
    requires line == "--a: x;"
    ensures ParseLine(line) == Some(Declaration("a", "x"))
  {
    assert |line| == 7 && line[2..3] == "a" && line[4..6] == " x";
    assert MatchesWith(line, 0, 3, 6);
    LeftmostMatch(line, 0, 3, 6);
    MatchedLine(line, RegexMatch(0, 3, 6));
    TrimOneSpace('x');
  }

  /** `--a-type-b-c: y;` declares `a-type-b-c` with the value `y`. */
  lemma ExampleDeepLine(line: string)
    requires line == "--a-type-b-c: y;"
    ensures ParseLine(line) == Some(Declaration("a-type-b-c", "y"))
  {
    ExampleDeepLineMatch(line);
    LeftmostMatch(line, 0, 12, 15);
    MatchedLine(line, RegexMatch(0, 12, 15));
    assert line[2..12] == "a-type-b-c" && line[13..15] == " y";
    TrimOneSpace('y');
  }

  lemma ExampleDeepLineMatch(line: string)
    requires line == "--a-type-b-c: y;"
    ensures MatchesWith(line, 0, 12, 15)
  {
    assert |line| == 16;
    forall k | 2 <= k < 12
      ensures IsNameChar(line[k])
    {
    }
  }

  /** `--a-type-b: y;` declares `a-type-b` with the value `y`. */
  lemma ExampleShallowLine(line: string)
    requires line == "--a-type-b: y;"
    ensures ParseLine(line) == Some(Declaration("a-type-b", "y"))
  {
    ExampleShallowLineMatch(line);
    LeftmostMatch(line, 0, 10, 13);
    MatchedLine(line, RegexMatch(0, 10, 13));
    assert line[2..10] == "a-type-b" && line[11..13] == " y";
    TrimOneSpace('y');
  }

  lemma ExampleShallowLineMatch(line: string)
    requires line == "--a-type-b: y;"
    ensures MatchesWith(line, 0, 10, 13)
  {
    assert |line| == 14;
    forall k | 2 <= k < 10
      ensures IsNameChar(line[k])
    {
    }
  }

  /** A space followed by one non-whitespace character trims to that character. */
  lemma TrimOneSpace(c: char)
    requires !IsWhitespace(c)
    ensures Trim([' ', c]) == [c]
  {
    assert Trimmed([' ', c], 1, [c]);
    TrimUnique([' ', c], 1, [c]);
  }

  /** The paths of the three example names. */
  lemma ExamplePaths()
    ensures Split("a", '-') == ["a"]
    ensures Split("a-type-b-c", '-') == ["a", "type", "b", "c"]
    ensures Split("a-type-b", '-') == ["a", "type", "b"]
  {
    NoSeparatorIsOnePiece("a", '-');
    SplitJoin(["a", "type", "b", "c"], '-');
    assert Join(["a", "type", "b", "c"], '-') == "a-type-b-c";
    SplitJoin(["a", "type", "b"], '-');
    assert Join(["a", "type", "b"], '-') == "a-type-b";
  }

  /** The tree after `--a: x;` alone. */
  lemma ExampleFirstTree(first: string)
    requires first == "--a: x;"
    ensures ParseLines([first]) == Some(Obj(map["a" := TokenLeaf(Declaration("a", "x"))]))
  {
    ExampleLeafLine(first);
    ExamplePaths();
    assert [first][..0] == [];
  }

  /** In that tree `a.type` holds the string `color`: a write two keys below it
      throws, and a write one key below it is dropped. */
  lemma ExampleColorBlocks(v: Tree)
    ensures var tree := Obj(map["a" := TokenLeaf(Declaration("a", "x"))]);
      SetPath(tree, ["a", "type", "b", "c"], v) == None && SetPath(tree, ["a", "type", "b"], v) == Some(tree)
  {
    var tree := Obj(map["a" := TokenLeaf(Declaration("a", "x"))]);
    assert Lookup(tree, ["a", "type"]) == Some(Str("color")) by {
      assert ["a", "type"][1..] == ["type"];
    }
    var deep := ["a", "type", "b", "c"];
    assert deep[..2] == ["a", "type"];
    ThrowsBelowString(tree, deep, v, 2);
    var shallow := ["a", "type", "b"];
    assert shallow[..2] == ["a", "type"];
    StringBeforeLastKey(tree, shallow, v);
  }

  /** After that tree, a declaration two keys below `a.type` throws. */
  lemma ExampleDeepSecond(first: string, second: string)
    requires ParseLines([first]) == Some(Obj(map["a" := TokenLeaf(Declaration("a", "x"))]))
    requires ParseLine(second) == Some(Declaration("a-type-b-c", "y"))
    ensures ParseLines([first, second]) == None
  {
    var tree := Obj(map["a" := TokenLeaf(Declaration("a", "x"))]);
    var leaf := TokenLeaf(Declaration("a-type-b-c", "y"));
    var lines := [first, second];
    assert lines[..1] == [first] && lines[..2] == lines;
    ParseLinesStep(lines, 1);
    ExamplePaths();
    assert AddLine(tree, second) == SetPath(tree, ["a", "type", "b", "c"], leaf);
    ExampleColorBlocks(leaf);
  }

  /** After that tree, a declaration one key below `a.type` changes nothing. */
  lemma ExampleShallowSecond(first: string, second: string)
    requires ParseLines([first]) == Some(Obj(map["a" := TokenLeaf(Declaration("a", "x"))]))
    requires ParseLine(second) == Some(Declaration("a-type-b", "y"))
    ensures ParseLines([first, second]) == ParseLines([first])
  {
    var tree := Obj(map["a" := TokenLeaf(Declaration("a", "x"))]);
    var leaf := TokenLeaf(Declaration("a-type-b", "y"));
    var lines := [first, second];
    assert lines[..1] == [first] && lines[..2] == lines;
    ParseLinesStep(lines, 1);
    ExamplePaths();
    assert AddLine(tree, second) == SetPath(tree, ["a", "type", "b"], leaf);
    ExampleColorBlocks(leaf);
  }

  /** A string written by an earlier declaration makes a deeper one throw. After
      `--a: x;` the key `a.type` holds the string `color`; `--a-type-b-c: y;`
      moves the cursor on to `"color".b`, which is `undefined`, and writing `c`
      into it is a TypeError. One key fewer, `--a-type-b: y;` is silently dropped. */
  lemma ExampleStringBlocksDeepPath(first: string, second: string, third: string)
    requires first == "--a: x;" && second == "--a-type-b-c: y;" && third == "--a-type-b: y;"
    ensures ParseLines([first, second]) == None
    ensures ParseLines([first, third]) == ParseLines([first])
  {
    ExampleFirstTree(first);
    ExampleDeepLine(second);
    ExampleShallowLine(third);
    ExampleDeepSecond(first, second);
    ExampleShallowSecond(first, third);
  }
}
