/**
 * scripts/lint-hardcoded.js: reports every line of a `.css` or `.scss` file in
 * the target directories that holds a hard-coded hex colour and no `var(`, and
 * fails iff it reported anything.
 *
 * The directories are a parameter: each with its path and, when it exists, its
 * entries in listing order with the text of each file.
 */
module Lint {
  import opened Wrappers
  import opened Text

  // ---------------------------------------------------------------- the line test

  /** `[0-9a-fA-F]`. */
  predicate IsHexDigit(c: char) {
    ('0' <= c <= '9') || ('a' <= c <= 'f') || ('A' <= c <= 'F')
  }

  /** `HEX_REGEX = /#[0-9a-fA-F]{3,6}/` matches `n` digits after the `#` at `i`. */
  ghost predicate HexRegexMatchAt(line: string, i: nat, n: nat) {
    && 3 <= n <= 6
    && i + 1 + n <= |line|
    && line[i] == '#'
    && forall j :: i < j <= i + n ==> IsHexDigit(line[j])
  }

  /** `HEX_REGEX.test(line)`: the pattern is unanchored, so a match anywhere counts. */
  ghost predicate HexRegexTest(line: string) {
    exists i: nat, n: nat :: HexRegexMatchAt(line, i, n)
  }

  /** A `#` at `i` followed by three hex digits. */
  predicate HexColorAt(line: string, i: nat) {
    i + 4 <= |line| && line[i] == '#' &&
    IsHexDigit(line[i + 1]) && IsHexDigit(line[i + 2]) && IsHexDigit(line[i + 3])
  }

  /** Scan for a hex colour from position `from` on. */
  function HexColorFrom(line: string, from: nat): (found: bool)
    requires from <= |line|
    ensures found ==> from + 4 <= |line|
    decreases |line| - from
  {
    if HexColorAt(line, from) then true
    else if from == |line| then false
    else HexColorFrom(line, from + 1)
  }

  lemma {:induction false} HexColorFromIff(line: string, from: nat)
    requires from <= |line|
    ensures HexColorFrom(line, from) <==> exists i :: from <= i && HexColorAt(line, i)
    decreases |line| - from
  {
    if !HexColorAt(line, from) && from < |line| {
      HexColorFromIff(line, from + 1);
      assert forall i :: from <= i && HexColorAt(line, i) ==> from + 1 <= i;
    }
  }

  /** `HEX_REGEX.test(line)`, decided by a scan. */
  function ContainsHexColor(line: string): (found: bool)
    ensures found ==> |line| >= 4
  {
    HexColorFrom(line, 0)
  }

  /** The scan decides the regular-expression test: since only the lower bound
      of `{3,6}` matters to an unanchored test, `#` plus three hex digits
      anywhere on the line is enough. */
  lemma ContainsHexColorIff(line: string)
    ensures ContainsHexColor(line) <==> HexRegexTest(line)
  {
    HexColorFromIff(line, 0);
    if i :| 0 <= i && HexColorAt(line, i) {
      assert HexRegexMatchAt(line, i, 3);
    }
    forall i: nat, n: nat | HexRegexMatchAt(line, i, n) ensures HexColorAt(line, i) {
    }
  }

  /** The per-line condition of `scanFile`. */
  predicate Flagged(line: string)
    ensures Flagged(line) ==> |line| >= 4 && !Includes(line, "var(")
  {
    ContainsHexColor(line) && !Includes(line, "var(")
  }

  // ---------------------------------------------------------------- one file

  /** One reported line: the file's path and the 1-based line number. */
  datatype LintError = LintError(file: string, line: nat)

  /** Which lines `scanFile` flags. */
  function LineFlags(lines: seq<string>): seq<bool>
  {
    seq(|lines|, k requires 0 <= k < |lines| => Flagged(lines[k]))
  }

  /** What `scanFile` appends given which lines are flagged, by recursion on the
      number of lines. */
  function Report(filePath: string, flags: seq<bool>): seq<LintError>
    decreases |flags|
  {
    if |flags| == 0 then []
    else
      Report(filePath, flags[..|flags| - 1]) +
      (if flags[|flags| - 1] then [LintError(filePath, |flags|)] else [])
  }

  /** The errors for a whole file: its text split on `\n`. */
  function FileErrors(filePath: string, content: string): seq<LintError>
  {
    Report(filePath, LineFlags(Split(content, '\n')))
  }

  /** `scanFile(filePath, errors)` with the file's text given: appends one error
      per flagged line. */
  method ScanFile(filePath: string, content: string, errors: seq<LintError>) returns (result: seq<LintError>)
    ensures result == errors + FileErrors(filePath, content)
  {
    var lines := Split(content, '\n');
    ghost var flags := LineFlags(lines);
    result := errors;
    for idx := 0 to |lines|
      invariant result == errors + Report(filePath, flags[..idx])
    {
      assert flags[..idx + 1][..idx] == flags[..idx];
      if ContainsHexColor(lines[idx]) && !Includes(lines[idx], "var(") {
        result := result + [LintError(filePath, idx + 1)];
      }
    }
    assert flags[..|lines|] == flags;
  }

  // ---------------------------------------------------------------- the directories

  /** One entry of a target directory and, for a file, its text. */
  datatype LintEntry = LintEntry(name: string, isDirectory: bool, content: string)

  /** A target directory: its path and, when it exists, its listing. */
  datatype TargetDir = TargetDir(path: string, listing: Option<seq<LintEntry>>)

  /** `/\.(css|scss)$/.test(entry)`. */
  predicate IsStylesheet(name: string) {
    EndsWith(name, ".css") || EndsWith(name, ".scss")
  }

  /** Entries `main` scans: stylesheets that are not directories. */
  predicate Scanned(e: LintEntry) {
    !e.isDirectory && IsStylesheet(e.name)
  }

  /** `path.join(dir, entry)` for a directory path without a trailing separator. */
  function FullPath(dir: string, name: string): string {
    dir + "/" + name
  }

  function EntriesErrors(dir: string, entries: seq<LintEntry>): seq<LintError>
    decreases |entries|
  {
    if |entries| == 0 then []
    else
      EntriesErrors(dir, entries[..|entries| - 1]) + EntryErrors(dir, entries[|entries| - 1])
  }

  /** One more entry of the fold. */
  lemma EntriesErrorsStep(dir: string, entries: seq<LintEntry>, j: nat)
    requires j < |entries|
    ensures EntriesErrors(dir, entries[..j + 1]) == EntriesErrors(dir, entries[..j]) + EntryErrors(dir, entries[j])
  {
    assert entries[..j + 1][..j] == entries[..j];
  }

  /** What one entry of `dir` contributes. */
  function EntryErrors(dir: string, e: LintEntry): seq<LintError> {
    if Scanned(e) then FileErrors(FullPath(dir, e.name), e.content) else []
  }

  function DirErrors(d: TargetDir): seq<LintError> {
    match d.listing
    case None => []
    case Some(entries) => EntriesErrors(d.path, entries)
  }

  /** Everything `main` reports, directory by directory, in listing order. */
  function AllErrors(dirs: seq<TargetDir>): seq<LintError>
    decreases |dirs|
  {
    if |dirs| == 0 then [] else AllErrors(dirs[..|dirs| - 1]) + DirErrors(dirs[|dirs| - 1])
  }

  /** `main` without the console: the collected errors and whether the run
      fails, which it does iff some scanned file has a flagged line. */
  method LintHardcoded(dirs: seq<TargetDir>) returns (errors: seq<LintError>, failed: bool)
    ensures errors == AllErrors(dirs)
    ensures failed <==> exists e :: ReportedBy(dirs, e)
  {
    errors := [];
    for i := 0 to |dirs|
      invariant errors == AllErrors(dirs[..i])
    {
      assert dirs[..i + 1][..i] == dirs[..i];
      errors := ScanDirectory(dirs[i], errors);
    }
    assert dirs[..|dirs|] == dirs;
    failed := |errors| > 0;
    FailsIffReported(dirs);
  }

  /** One pass of `main`'s outer loop: a missing directory is skipped, and so are
      entries that are directories or not stylesheets; every other entry is
      scanned in listing order. */
  method ScanDirectory(dir: TargetDir, errors: seq<LintError>) returns (result: seq<LintError>)
    ensures result == errors + DirErrors(dir)
  {
    result := errors;
    if dir.listing.None? {
      return;
    }
    var entries := dir.listing.value;
    for j := 0 to |entries|
      invariant result == errors + EntriesErrors(dir.path, entries[..j])
    {
      result := ScanEntry(dir.path, entries[j], result);
      EntriesErrorsStep(dir.path, entries, j);
      assert result == errors + (EntriesErrors(dir.path, entries[..j]) + EntryErrors(dir.path, entries[j]));
    }
    assert entries[..|entries|] == entries;
  }

  /** One pass of the inner loop: a directory entry is skipped, and so is a
      file that is not a stylesheet; a stylesheet is scanned. */
  method ScanEntry(dir: string, entry: LintEntry, errors: seq<LintError>) returns (result: seq<LintError>)
    ensures result == errors + EntryErrors(dir, entry)
  {
    if entry.isDirectory {
      return errors;
    }
    if EndsWith(entry.name, ".css") || EndsWith(entry.name, ".scss") {
      result := ScanFile(FullPath(dir, entry.name), entry.content, errors);
    } else {
      result := errors;
    }
  }

  // ---------------------------------------------------------------- properties

  /** Entry `entry` of directory `dir` reports `e`: it is a scanned stylesheet,
      `e.file` is its path, and line `e.line` of it is flagged. */
  ghost predicate EntryReports(dir: string, entry: LintEntry, e: LintError) {
    var lines := Split(entry.content, '\n');
    && Scanned(entry)
    && e.file == FullPath(dir, entry.name)
    && 1 <= e.line <= |lines|
    && Flagged(lines[e.line - 1])
  }

  /** Some entry of an existing target directory reports `e`. */
  ghost predicate DirReports(d: TargetDir, e: LintError) {
    d.listing.Some? && exists j :: 0 <= j < |d.listing.value| && EntryReports(d.path, d.listing.value[j], e)
  }

  /** Reference definition of the report: some target directory reports `e`. */
  ghost predicate ReportedBy(dirs: seq<TargetDir>, e: LintError) {
    exists i :: 0 <= i < |dirs| && DirReports(dirs[i], e)
  }

  /** A file reports `e` iff `e` names one of its flagged lines. */
  lemma FileErrorsIff(filePath: string, content: string, e: LintError)
    ensures e in FileErrors(filePath, content) <==>
      var lines := Split(content, '\n');
      e.file == filePath && 1 <= e.line <= |lines| && Flagged(lines[e.line - 1])
  {
    var lines := Split(content, '\n');
    var flags := LineFlags(lines);
    ReportIff(filePath, flags, e);
    if 1 <= e.line <= |lines| {
      assert flags[e.line - 1] == Flagged(lines[e.line - 1]);
    }
  }

  /** The report names exactly the flagged lines: one error per flagged line,
      carrying the file's path and the 1-based line number. */
  lemma {:induction false} ReportIff(filePath: string, flags: seq<bool>, e: LintError)
    ensures e in Report(filePath, flags) <==> e.file == filePath && 1 <= e.line <= |flags| && flags[e.line - 1]
    decreases |flags|
  {
    if |flags| > 0 {
      var init := flags[..|flags| - 1];
      ReportIff(filePath, init, e);
      if 1 <= e.line < |flags| {
        assert init[e.line - 1] == flags[e.line - 1];
      }
    }
  }

  /** The report is in line order, so each flagged line is reported once. */
  lemma {:induction false} ReportOrdered(filePath: string, flags: seq<bool>)
    ensures var r := Report(filePath, flags);
      forall i, j :: 0 <= i < j < |r| ==> r[i].line < r[j].line
    decreases |flags|
  {
    if |flags| > 0 {
      var init := flags[..|flags| - 1];
      var prev := Report(filePath, init);
      ReportOrdered(filePath, init);
      forall i | 0 <= i < |prev| ensures prev[i].line < |flags| {
        ReportIff(filePath, init, prev[i]);
      }
    }
  }

  lemma {:induction false} EntriesErrorsIff(dir: string, entries: seq<LintEntry>, e: LintError, n: nat)
    requires n <= |entries|
    ensures e in EntriesErrors(dir, entries[..n]) <==> exists j :: 0 <= j < n && EntryReports(dir, entries[j], e)
  {
    if n > 0 {
      var init := entries[..n - 1];
      var last := entries[n - 1];
      assert entries[..n][..n - 1] == init;
      assert EntriesErrors(dir, entries[..n]) == EntriesErrors(dir, init) + EntryErrors(dir, last);
      EntriesErrorsIff(dir, entries, e, n - 1);
      EntryErrorsIff(dir, last, e);
      if e in EntriesErrors(dir, init) {
        var j :| 0 <= j < n - 1 && EntryReports(dir, entries[j], e);
      }
    }
  }

  /** One entry reports `e` iff it is a scanned stylesheet with that flagged line. */
  lemma EntryErrorsIff(dir: string, entry: LintEntry, e: LintError)
    ensures e in EntryErrors(dir, entry) <==> EntryReports(dir, entry, e)
  {
    if Scanned(entry) {
      FileErrorsIff(FullPath(dir, entry.name), entry.content, e);
    }
  }

  lemma DirErrorsIff(d: TargetDir, e: LintError)
    ensures e in DirErrors(d) <==> DirReports(d, e)
  {
    if d.listing.Some? {
      EntriesErrorsIff(d.path, d.listing.value, e, |d.listing.value|);
      assert d.listing.value[..|d.listing.value|] == d.listing.value;
    }
  }

  /** Soundness and completeness of the report: an error is reported iff it
      names a flagged line of a scanned file of an existing target directory. */
  lemma {:induction false} ErrorsReported(dirs: seq<TargetDir>, e: LintError)
    ensures e in AllErrors(dirs) <==> ReportedBy(dirs, e)
    decreases |dirs|
  {
    if |dirs| > 0 {
      var init := dirs[..|dirs| - 1];
      var d := dirs[|dirs| - 1];
      ErrorsReported(init, e);
      DirErrorsIff(d, e);
      assert forall i :: 0 <= i < |init| ==> init[i] == dirs[i];
      if ReportedBy(dirs, e) && !ReportedBy(init, e) {
        var i :| 0 <= i < |dirs| && DirReports(dirs[i], e);
        assert i == |dirs| - 1;
      }
    }
  }

  /** The run fails iff some scanned file has a flagged line. */
  lemma FailsIffReported(dirs: seq<TargetDir>)
    ensures AllErrors(dirs) != [] <==> exists e :: ReportedBy(dirs, e)
  {
    if AllErrors(dirs) != [] {
      ErrorsReported(dirs, AllErrors(dirs)[0]);
    }
    forall e | ReportedBy(dirs, e) ensures e in AllErrors(dirs) {
      ErrorsReported(dirs, e);
    }
  }

  /** `var(` anywhere on the line exempts it, wherever the colour is. */
  lemma VarExemptsLine(before: string, colour: string, after: string)
    ensures !Flagged(before + "var(" + after + colour)
    ensures !Flagged(before + colour + after + "var(")
  {
    IncludesIff(before + "var(" + after + colour, "var(");
    assert OccursAt(before + "var(" + after + colour, "var(", |before|);
    var s := before + colour + after + "var(";
    IncludesIff(s, "var(");
    assert OccursAt(s, "var(", |s| - 4);
  }

  /** `#ab` is too short to be flagged. */
  lemma ShortHexNotFlagged(line: string)
    requires line == "#ab"
    ensures !Flagged(line)
  {
    HexColorFromIff(line, 0);
  }

  /** `#abcdef12` is flagged: an unanchored `{3,6}` needs only three digits. */
  lemma LongHexFlagged(line: string)
    requires line == "#abcdef12"
    ensures Flagged(line)
  {
    HexColorFromIff(line, 0);
    assert HexColorAt(line, 0);
    assert 'v' !in line;
    FirstCharAbsent(line, "var(");
  }
}
