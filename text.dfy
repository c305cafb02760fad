/**
 * String helpers shared by the three scripts: JavaScript's `String.prototype.split`
 * with a one-character separator, `Array.prototype.join`, `trim`, `startsWith`,
 * `endsWith` and `includes`, over `string` (a sequence of Unicode scalar values).
 */
module Text {

  /** The characters matched by the regular-expression class `\s` and removed by
      `trim`: ECMAScript's WhiteSpace and LineTerminator code points. */
  predicate IsWhitespace(c: char) {
    || c == '\t' || c == '\n' || c == '\U{B}' || c == '\U{C}' || c == '\r'
    || c == ' ' || c == '\U{A0}' || c == '\U{1680}'
    || ('\U{2000}' <= c <= '\U{200A}')
    || c == '\U{2028}' || c == '\U{2029}' || c == '\U{202F}' || c == '\U{205F}'
    || c == '\U{3000}' || c == '\U{FEFF}'
  }

  predicate AllWhitespace(s: string) {
    forall k :: 0 <= k < |s| ==> IsWhitespace(s[k])
  }

  // ---------------------------------------------------------------- split / join

  /** `parts.join(sep)`: the empty list joins to the empty string. */
  function Join(parts: seq<string>, sep: char): (s: string)
    ensures |s| >= |parts| - 1
  {
    if |parts| == 0 then ""
    else if |parts| == 1 then parts[0]
    else parts[0] + [sep] + Join(parts[1..], sep)
  }

  /** `s.split(sep)`: always at least one piece, no piece holds the separator,
      and joining the pieces back gives `s`. */
  function Split(s: string, sep: char): (parts: seq<string>)
    ensures |parts| >= 1
    ensures forall i :: 0 <= i < |parts| ==> sep !in parts[i]
    ensures Join(parts, sep) == s
  {
    if |s| == 0 then [""]
    else
      var rest := Split(s[1..], sep);
      if s[0] == sep then
        assert s == [sep] + s[1..];
        [""] + rest
      else
        var parts := [[s[0]] + rest[0]] + rest[1..];
        assert parts[1..] == rest[1..];
        assert s == [s[0]] + s[1..];
        parts
  }

  /** Splitting is the inverse of joining when no piece holds the separator. */
  lemma {:induction false} SplitJoin(parts: seq<string>, sep: char)
    requires |parts| >= 1
    requires forall i :: 0 <= i < |parts| ==> sep !in parts[i]
    ensures Split(Join(parts, sep), sep) == parts
  {
    if |parts| == 1 {
      NoSeparatorIsOnePiece(parts[0], sep);
    } else {
      var tail := Join(parts[1..], sep);
      SplitJoin(parts[1..], sep);
      SplitAfterPiece(parts[0], sep, tail);
    }
  }

  lemma {:induction false} NoSeparatorIsOnePiece(s: string, sep: char)
    requires sep !in s
    ensures Split(s, sep) == [s]
  {
    if |s| > 0 {
      NoSeparatorIsOnePiece(s[1..], sep);
      assert s == [s[0]] + s[1..];
    }
  }

  lemma {:induction false} SplitAfterPiece(p: string, sep: char, tail: string)
    requires sep !in p
    ensures Split(p + [sep] + tail, sep) == [p] + Split(tail, sep)
  {
    if |p| == 0 {
      assert [] + [sep] + tail == [sep] + tail;
      assert ([sep] + tail)[1..] == tail;
    } else {
      SplitAfterPiece(p[1..], sep, tail);
      assert (p + [sep] + tail)[1..] == p[1..] + [sep] + tail;
      assert [p[0]] + p[1..] == p;
    }
  }

  // ---------------------------------------------------------------- trim

  /** Number of leading whitespace characters. */
  function LeadingWhitespace(s: string): (n: nat)
    ensures n <= |s|
  {
    if |s| > 0 && IsWhitespace(s[0]) then 1 + LeadingWhitespace(s[1..]) else 0
  }

  /** The count covers whitespace only and stops at the first other character. */
  lemma {:induction false} LeadingWhitespaceSpec(s: string)
    ensures AllWhitespace(s[..LeadingWhitespace(s)])
    ensures LeadingWhitespace(s) < |s| ==> !IsWhitespace(s[LeadingWhitespace(s)])
  {
    if |s| > 0 && IsWhitespace(s[0]) {
      LeadingWhitespaceSpec(s[1..]);
      var n := LeadingWhitespace(s[1..]);
      assert forall k :: 1 <= k < n + 1 ==> s[k] == s[1..][..n][k - 1];
    }
  }

  /** Number of trailing whitespace characters. */
  function TrailingWhitespace(s: string): (n: nat)
    ensures n <= |s|
  {
    if |s| > 0 && IsWhitespace(s[|s| - 1]) then 1 + TrailingWhitespace(s[..|s| - 1]) else 0
  }

  /** The count covers whitespace only and stops at the last other character. */
  lemma {:induction false} TrailingWhitespaceSpec(s: string)
    ensures AllWhitespace(s[|s| - TrailingWhitespace(s)..])
    ensures TrailingWhitespace(s) < |s| ==> !IsWhitespace(s[|s| - TrailingWhitespace(s) - 1])
  {
    if |s| > 0 && IsWhitespace(s[|s| - 1]) {
      var init := s[..|s| - 1];
      TrailingWhitespaceSpec(init);
      var n := TrailingWhitespace(init);
      assert TrailingWhitespace(s) == n + 1;
      assert s[|s| - (n + 1)..] == init[|init| - n..] + [s[|s| - 1]];
      AllWhitespaceAppend(init[|init| - n..], s[|s| - 1]);
      if n + 1 < |s| {
        assert s[|s| - (n + 1) - 1] == init[|init| - n - 1];
      }
    } else {
      assert TrailingWhitespace(s) == 0;
    }
  }

  /** Appending a whitespace character keeps a string all whitespace. */
  lemma AllWhitespaceAppend(w: string, c: char)
    requires AllWhitespace(w) && IsWhitespace(c)
    ensures AllWhitespace(w + [c])
  {
    assert forall k :: 0 <= k < |w| ==> (w + [c])[k] == w[k];
  }

  /** `s.trim()`: the leading and the trailing whitespace removed (a string of
      whitespace only trims to the empty string). */
  function Trim(s: string): (r: string)
    ensures |r| <= |s|
  {
    var a := LeadingWhitespace(s);
    if a == |s| then []
    else
      TrimBounds(s);
      s[a..|s| - TrailingWhitespace(s)]
  }

  /** Unless `s` is all whitespace, its leading and trailing whitespace do not
      overlap. */
  lemma TrimBounds(s: string)
    requires LeadingWhitespace(s) < |s|
    ensures LeadingWhitespace(s) < |s| - TrailingWhitespace(s)
  {
    var a, b := LeadingWhitespace(s), TrailingWhitespace(s);
    LeadingWhitespaceSpec(s);
    TrailingWhitespaceSpec(s);
  }

  /** `s` is some whitespace, then `Trim(s)`, then some whitespace, and
      `Trim(s)` neither starts nor ends with whitespace. */
  lemma TrimSpec(s: string)
    ensures exists i :: 0 <= i <= |s| - |Trim(s)| && Trimmed(s, i, Trim(s))
    ensures Trim(s) == [] || (!IsWhitespace(Trim(s)[0]) && !IsWhitespace(Trim(s)[|Trim(s)| - 1]))
  {
    var a := LeadingWhitespace(s);
    LeadingWhitespaceSpec(s);
    if a == |s| {
      assert Trim(s) == [];
      assert s[..a] == s && s[a..] == [];
      assert Trimmed(s, a, []);
    } else {
      TrimCore(s);
    }
  }

  /** The case of `TrimSpec` where `s` is not all whitespace. */
  lemma TrimCore(s: string)
    requires LeadingWhitespace(s) < |s|
    ensures Trimmed(s, LeadingWhitespace(s), Trim(s))
    ensures Trim(s) != [] && !IsWhitespace(Trim(s)[0]) && !IsWhitespace(Trim(s)[|Trim(s)| - 1])
  {
    var a, b := LeadingWhitespace(s), TrailingWhitespace(s);
    LeadingWhitespaceSpec(s);
    TrailingWhitespaceSpec(s);
    TrimBounds(s);
    var r := s[a..|s| - b];
    assert Trim(s) == r;
    assert s[a..a + |r|] == r && s[a + |r|..] == s[|s| - b..];
    assert r[0] == s[a] && r[|r| - 1] == s[|s| - b - 1];
  }

  /** `s` is `r` at offset `i`, surrounded by whitespace only. */
  ghost predicate Trimmed(s: string, i: nat, r: string) {
    && i + |r| <= |s|
    && s[i..i + |r|] == r
    && AllWhitespace(s[..i])
    && AllWhitespace(s[i + |r|..])
  }

  /** A non-whitespace character of a trimmed string lies inside its core. */
  lemma InsideCore(s: string, i: nat, r: string, p: nat)
    requires Trimmed(s, i, r) && p < |s| && !IsWhitespace(s[p])
    ensures i <= p < i + |r|
  {
  }

  /** Trim is determined by its contract: whitespace around a core that neither
      starts nor ends with whitespace trims to exactly that core. */
  lemma TrimUnique(s: string, i: nat, r: string)
    requires Trimmed(s, i, r)
    requires r == [] || (!IsWhitespace(r[0]) && !IsWhitespace(r[|r| - 1]))
    ensures Trim(s) == r
  {
    TrimSpec(s);
    var t := Trim(s);
    var j :| 0 <= j <= |s| - |t| && Trimmed(s, j, t);
    if r != [] && t != [] {
      assert s[i] == r[0] && s[i + |r| - 1] == r[|r| - 1] by {
        assert s[i..i + |r|] == r;
      }
      assert s[j] == t[0] && s[j + |t| - 1] == t[|t| - 1] by {
        assert s[j..j + |t|] == t;
      }
      InsideCore(s, j, t, i);
      InsideCore(s, j, t, i + |r| - 1);
      InsideCore(s, i, r, j);
      InsideCore(s, i, r, j + |t| - 1);
      assert i == j && |r| == |t|;
    } else if r != [] {
      assert s[i] == r[0] by {
        assert s[i..i + |r|] == r;
      }
      InsideCore(s, j, t, i);
    } else if t != [] {
      assert s[j] == t[0] by {
        assert s[j..j + |t|] == t;
      }
      InsideCore(s, i, r, j);
    }
  }

  /** Dropping some leading whitespace does not change the trimmed result. */
  lemma TrimDropLeading(s: string, w: nat)
    requires w <= |s| && AllWhitespace(s[..w])
    ensures Trim(s[w..]) == Trim(s)
  {
    var u := s[w..];
    TrimSpec(u);
    var t := Trim(u);
    var j :| 0 <= j <= |u| - |t| && Trimmed(u, j, t);
    TrimmedShift(s, w, j, t);
    TrimUnique(s, w + j, t);
  }

  /** Whitespace in front of a whitespace-framed core keeps it framed. */
  lemma TrimmedShift(s: string, w: nat, j: nat, t: string)
    requires w <= |s| && AllWhitespace(s[..w]) && Trimmed(s[w..], j, t)
    ensures Trimmed(s, w + j, t)
  {
    var u := s[w..];
    assert s[w + j..w + j + |t|] == u[j..j + |t|];
    assert s[w + j + |t|..] == u[j + |t|..];
    var front := s[..w + j];
    forall k | 0 <= k < |front|
      ensures IsWhitespace(front[k])
    {
      if k < w {
        assert front[k] == s[..w][k];
      } else {
        assert front[k] == u[..j][k - w];
      }
    }
  }

  /** Trimming keeps only characters of the original string. */
  lemma TrimChars(s: string, c: char)
    requires c in Trim(s)
    ensures c in s
  {
    TrimSpec(s);
    var t := Trim(s);
    var j :| 0 <= j <= |s| - |t| && Trimmed(s, j, t);
    var k :| 0 <= k < |t| && t[k] == c;
    assert s[j..j + |t|][k] == c;
  }

  // ---------------------------------------------------------------- searching

  predicate StartsWith(s: string, prefix: string) {
    |prefix| <= |s| && s[..|prefix|] == prefix
  }

  predicate EndsWith(s: string, suffix: string) {
    |suffix| <= |s| && s[|s| - |suffix|..] == suffix
  }

  /** `pat` occurs in `s` at index `i`. */
  predicate OccursAt(s: string, pat: string, i: nat) {
    i + |pat| <= |s| && s[i..i + |pat|] == pat
  }

  /** `s.includes(pat)`, by a left-to-right scan from `from`. */
  function IncludesFrom(s: string, pat: string, from: nat): (found: bool)
    requires from <= |s|
    ensures found ==> from + |pat| <= |s|
    decreases |s| - from
  {
    if OccursAt(s, pat, from) then true
    else if from == |s| then false
    else IncludesFrom(s, pat, from + 1)
  }

  /** `s.includes(pat)`. */
  function Includes(s: string, pat: string): (found: bool)
    ensures found ==> |pat| <= |s|
  {
    IncludesFrom(s, pat, 0)
  }

  /** The scan from `from` finds exactly the occurrences at or after `from`. */
  lemma {:induction false} IncludesFromIff(s: string, pat: string, from: nat)
    requires from <= |s|
    ensures IncludesFrom(s, pat, from) <==> exists i :: from <= i && OccursAt(s, pat, i)
    decreases |s| - from
  {
    if !OccursAt(s, pat, from) {
      if from == |s| {
        assert forall i :: from <= i && OccursAt(s, pat, i) ==> i == from;
      } else {
        IncludesFromIff(s, pat, from + 1);
        assert forall i :: from <= i && OccursAt(s, pat, i) ==> from + 1 <= i;
      }
    }
  }

  /** `s.includes(pat)` holds iff `pat` occurs somewhere in `s`. */
  lemma IncludesIff(s: string, pat: string)
    ensures Includes(s, pat) <==> exists i :: OccursAt(s, pat, i)
  {
    IncludesFromIff(s, pat, 0);
  }

  /** A pattern whose first character is absent from `s` is not included in it. */
  lemma FirstCharAbsent(s: string, pat: string)
    requires |pat| > 0 && pat[0] !in s
    ensures !Includes(s, pat)
  {
    IncludesIff(s, pat);
  }
}
