/**
 * `generateTokens` of scripts/generate-tokens.js: every directory entry whose
 * name ends in `.css` is parsed into its own tree, and that tree is merged into
 * the accumulated one by a shallow, top-level, later-file-wins assignment.
 *
 * The directory listing is a parameter (in the order the listing gives it, with
 * each file's text); `None` stands for a tokens directory that does not exist.
 */
module Generator {
  import opened Wrappers
  import opened Text
  import opened PathBuilder
  import opened Extractor

  /** One entry of the tokens directory and, for a file, its text. */
  datatype SourceEntry = SourceEntry(name: string, isDirectory: bool, content: string)

  /** Why a run stops with exit status 1 before writing anything. */
  datatype GenerateError =
    | DirectoryNotFound      // the tokens directory does not exist
    | NotAFile(name: string) // reading an entry named `*.css` that is a directory fails
    | ParseFailed(name: string) // `parseCssVariables` throws on the file's text

  datatype Result = Success(tokens: map<string, Tree>) | Failure(error: GenerateError)

  /** `file.endsWith('.css')`. */
  predicate IsCssName(name: string) {
    EndsWith(name, ".css")
  }

  /** The top-level members of the tree `parseCssVariables` builds from a
      file's text, or `None` when it throws. */
  function CssFields(content: string): Option<map<string, Tree>> {
    match CssTokens(content)
    case None => None
    case Some(tokens) => Some(tokens.fields)
  }

  /** A parser from a file's text to its top-level members, or `None` when it
      throws. The merge does not depend on how a file is parsed, so the fold and
      its properties below are stated for any parser; the script's own run uses
      `CssFields`. */
  type Parser = string -> Option<map<string, Tree>>

  /** `Object.assign(allTokens, { ...allTokens, ...fileTokens })`: each top-level
      key of the file replaces whatever the accumulator held there, subtree and
      all; keys the file lacks are kept. */
  function MergeTopLevel(allTokens: map<string, Tree>, fileTokens: map<string, Tree>): (r: map<string, Tree>)
    ensures r.Keys == allTokens.Keys + fileTokens.Keys
    ensures forall k :: k in fileTokens ==> r[k] == fileTokens[k]
    ensures forall k :: k in allTokens && k !in fileTokens ==> r[k] == allTokens[k]
  {
    allTokens + fileTokens
  }

  /** The accumulated tokens after the entries, in listing order. */
  function GenerateFrom(entries: seq<SourceEntry>, parse: Parser): (r: Result)
    ensures r.Failure? ==> !r.error.DirectoryNotFound?
  {
    if |entries| == 0 then Success(map[])
    else
      match GenerateFrom(entries[..|entries| - 1], parse)
      case Failure(err) => Failure(err)
      case Success(acc) =>
        var e := entries[|entries| - 1];
        if !IsCssName(e.name) then Success(acc)
        else if e.isDirectory then Failure(NotAFile(e.name))
        else
          match parse(e.content)
          case None => Failure(ParseFailed(e.name))
          case Some(fileTokens) => Success(MergeTopLevel(acc, fileTokens))
  }

  /** The outcome of a run for a given listing of the tokens directory. */
  function Generate(listing: Option<seq<SourceEntry>>): (r: Result)
    ensures r == Failure(DirectoryNotFound) <==> listing.None?
  {
    match listing
    case None => Failure(DirectoryNotFound)
    case Some(entries) => GenerateFrom(entries, CssFields)
  }

  /** `generateTokens()` without the configuration lookup and the output write. */
  method GenerateTokens(listing: Option<seq<SourceEntry>>) returns (result: Result)
    ensures result == Generate(listing)
  {
    if listing.None? {
      return Failure(DirectoryNotFound);
    }
    var files := listing.value;
    var allTokens: map<string, Tree> := map[];
    for i := 0 to |files|
      invariant GenerateFrom(files[..i], CssFields) == Success(allTokens)
    {
      var file := files[i];
      assert files[..i + 1][..i] == files[..i];
      if IsCssName(file.name) {
        if file.isDirectory {
          result := Failure(NotAFile(file.name));
          FailureSticks(files, CssFields, i + 1);
          assert files[..|files|] == files;
          return;
        }
        var fileTokens := ParseCssVariables(file.content);
        if fileTokens.None? {
          // the error is caught at the top of `generateTokens`, which exits
          result := Failure(ParseFailed(file.name));
          FailureSticks(files, CssFields, i + 1);
          assert files[..|files|] == files;
          return;
        }
        allTokens := MergeTopLevel(allTokens, fileTokens.value.fields);
      }
    }
    assert files[..|files|] == files;
    result := Success(allTokens);
  }

  /** Once a prefix of the listing fails, the whole run fails the same way. */
  lemma {:induction false} FailureSticks(entries: seq<SourceEntry>, parse: Parser, n: nat)
    requires n <= |entries| && GenerateFrom(entries[..n], parse).Failure?
    ensures GenerateFrom(entries, parse) == GenerateFrom(entries[..n], parse)
    decreases |entries| - n
  {
    if n < |entries| {
      assert entries[..n + 1][..n] == entries[..n];
      FailureSticks(entries, parse, n + 1);
    } else {
      assert entries[..n] == entries;
    }
  }

  // ---------------------------------------------------------------- properties

  /** Entry `e` brings the top-level key `k`. */
  predicate Brings(e: SourceEntry, parse: Parser, k: string) {
    IsCssName(e.name) && parse(e.content).Some? && k in parse(e.content).value
  }

  /** One step of the fold, for a run that succeeds. */
  lemma LastStep(entries: seq<SourceEntry>, parse: Parser)
    requires |entries| > 0 && GenerateFrom(entries, parse).Success?
    ensures GenerateFrom(entries[..|entries| - 1], parse).Success?
    ensures var e := entries[|entries| - 1];
            IsCssName(e.name) ==> !e.isDirectory && parse(e.content).Some?
    ensures var acc := GenerateFrom(entries[..|entries| - 1], parse).tokens;
            var e := entries[|entries| - 1];
            GenerateFrom(entries, parse).tokens ==
              if IsCssName(e.name) then MergeTopLevel(acc, parse(e.content).value) else acc
  {
  }

  /** An entry the run gets past: anything not named `*.css`, or a file whose
      text parses. */
  predicate Readable(e: SourceEntry, parse: Parser) {
    IsCssName(e.name) ==> !e.isDirectory && parse(e.content).Some?
  }

  /** A run succeeds iff every `.css` entry is a file whose text parses. */
  lemma {:induction false} SucceedsIff(entries: seq<SourceEntry>, parse: Parser)
    ensures GenerateFrom(entries, parse).Success? <==>
      forall i :: 0 <= i < |entries| ==> Readable(entries[i], parse)
  {
    if |entries| > 0 {
      var n := |entries| - 1;
      var init := entries[..n];
      SucceedsIff(init, parse);
      assert GenerateFrom(entries, parse).Success? <==>
        GenerateFrom(init, parse).Success? && Readable(entries[n], parse);
      assert (forall i :: 0 <= i < |entries| ==> Readable(entries[i], parse)) <==>
        (forall i :: 0 <= i < n ==> Readable(init[i], parse)) && Readable(entries[n], parse) by {
        assert forall i :: 0 <= i < n ==> entries[i] == init[i];
      }
    }
  }

  /** Top-level keys: a key is present iff some `.css` file brings it. */
  lemma {:induction false} KeysFromFiles(entries: seq<SourceEntry>, parse: Parser, k: string)
    requires GenerateFrom(entries, parse).Success?
    ensures k in GenerateFrom(entries, parse).tokens <==>
            exists i :: 0 <= i < |entries| && Brings(entries[i], parse, k)
  {
    if |entries| > 0 {
      var n := |entries| - 1;
      var init := entries[..n];
      LastStep(entries, parse);
      KeysFromFiles(init, parse, k);
      if Brings(entries[n], parse, k) {
      } else if k in GenerateFrom(entries, parse).tokens {
        var i :| 0 <= i < |init| && Brings(init[i], parse, k);
        assert entries[i] == init[i];
      } else {
        forall i | 0 <= i < n
          ensures !Brings(entries[i], parse, k)
        {
          assert entries[i] == init[i];
        }
      }
    }
  }

  /** The subtree under a top-level key is exactly the one from the last file
      that brings it, whatever earlier files held below it. */
  lemma {:induction false} LastFileWins(entries: seq<SourceEntry>, parse: Parser, k: string, i: nat)
    requires GenerateFrom(entries, parse).Success?
    requires i < |entries| && Brings(entries[i], parse, k)
    requires forall j :: i < j < |entries| ==> !Brings(entries[j], parse, k)
    ensures k in GenerateFrom(entries, parse).tokens
    ensures GenerateFrom(entries, parse).tokens[k] == parse(entries[i].content).value[k]
  {
    var init := entries[..|entries| - 1];
    var e := entries[|entries| - 1];
    LastStep(entries, parse);
    if i < |entries| - 1 {
      assert forall j :: 0 <= j < |init| ==> init[j] == entries[j];
      LastFileWins(init, parse, k, i);
      assert !Brings(e, parse, k);
    }
  }

  /** Entries whose names do not end in `.css` change nothing, wherever they
      stand in the listing. */
  lemma {:induction false} OtherEntriesIgnored(before: seq<SourceEntry>, e: SourceEntry, after: seq<SourceEntry>, parse: Parser)
    requires !IsCssName(e.name)
    ensures GenerateFrom(before + [e] + after, parse) == GenerateFrom(before + after, parse)
    decreases |after|
  {
    if |after| == 0 {
      assert (before + [e] + after)[..|before|] == before;
      assert before + after == before;
    } else {
      var last := after[|after| - 1];
      var rest := after[..|after| - 1];
      OtherEntriesIgnored(before, e, rest, parse);
      assert (before + [e] + after)[..|before + [e] + after| - 1] == before + [e] + rest;
      assert (before + after)[..|before + after| - 1] == before + rest;
    }
  }

  /** The merge is not commutative: two files that disagree at a shared top-level
      key give different results in the two listing orders. */
  lemma MergeOrderMatters(a: SourceEntry, b: SourceEntry, parse: Parser, k: string)
    requires IsCssName(a.name) && IsCssName(b.name) && !a.isDirectory && !b.isDirectory
    requires parse(a.content).Some? && parse(b.content).Some?
    requires k in parse(a.content).value && k in parse(b.content).value
    requires parse(a.content).value[k] != parse(b.content).value[k]
    ensures GenerateFrom([a, b], parse) != GenerateFrom([b, a], parse)
  {
    TwoFiles(a, b, parse);
    TwoFiles(b, a, parse);
    assert (parse(a.content).value + parse(b.content).value)[k] == parse(b.content).value[k];
  }

  /** Two `.css` files in a row: the later file's top-level keys override. */
  lemma TwoFiles(a: SourceEntry, b: SourceEntry, parse: Parser)
    requires IsCssName(a.name) && IsCssName(b.name) && !a.isDirectory && !b.isDirectory
    requires parse(a.content).Some? && parse(b.content).Some?
    ensures GenerateFrom([a, b], parse) == Success(parse(a.content).value + parse(b.content).value)
  {
    var xs := [a, b];
    assert xs[..1] == [a] && xs[..1][..0] == [];
    assert GenerateFrom(xs[..1], parse) == Success(map[] + parse(a.content).value);
    assert map[] + parse(a.content).value == parse(a.content).value;
  }

  /** An empty directory, or one without `.css` entries, yields an empty tree. */
  lemma {:induction false} NoCssFilesGivesEmpty(entries: seq<SourceEntry>, parse: Parser)
    requires forall i :: 0 <= i < |entries| ==> !IsCssName(entries[i].name)
    ensures GenerateFrom(entries, parse) == Success(map[])
  {
    if |entries| > 0 {
      var init := entries[..|entries| - 1];
      assert forall i :: 0 <= i < |init| ==> init[i] == entries[i];
      NoCssFilesGivesEmpty(init, parse);
    }
  }
}
