# Substrata token scripts in Dafny

Substrata is a design-token toolkit. This project models its three build
scripts and proves properties of the model.

**Token generator** (`scripts/generate-tokens.js`). It reads every `.css` file of
the tokens directory. Each line is searched for the leftmost CSS custom property
declaration. A declaration `--a-b-c: v;` becomes a leaf record
`{value, type, originalVariable}`, written into a nested object at the path
`["a", "b", "c"]` by `setDeep`. The per-file trees are then merged by a shallow,
top-level, later-file-wins assignment. A declaration whose path runs two or more keys past
a non-empty string usually makes `setDeep` throw, and the run then exits with
status 1.

**Token validator** (`scripts/validate-tokens.js`). It walks the parsed
`tokens.json`, counts the leaves (objects holding `value`, `type` and
`originalVariable`) and checks three fields of each. It passes iff at least one
leaf was found and no error was collected.

**Hex-colour linter** (`scripts/lint-hardcoded.js`). It reports every line of a
`.css` or `.scss` file in the target directories that holds `#` plus at least
three hex digits and no `var(`. It fails iff it reported anything.

Modules:

- `Text`: JavaScript's `split` (one-character separator), `join`, `trim`,
  `startsWith`, `endsWith` and `includes`. The regex class `\s` and `trim` share
  ECMAScript's whitespace set.
- `PathBuilder`: the generated tree and `setDeep`.
  - The `for` loop is a method that walks a cursor down the path. It keeps a
    stack of frames (the objects above the cursor) and is proved equal to the
    recursive `SetPath`.
  - The scripts run in sloppy mode. An empty string is falsy and is replaced by
    `{}`. Once the cursor reaches a non-empty string it holds a primitive. Writes
    onto a primitive are silently dropped, and the cursor moves on to the
    primitive's property: a one-character string under an index key, a number
    under `length`, and `undefined` under any other key.
  - Reading or writing a property of `undefined` throws a TypeError. The model
    gives `None` for it. A string reached with one key left therefore swallows
    the write. A string reached with two or more keys left usually makes the
    call throw.
  - The error propagates out of `parseCssVariables`. `generateTokens` catches
    it and exits with status 1 (`scripts/generate-tokens.js:95-97`), which the
    model records as `ParseFailed`.
- `Extractor`: `parseCssVariables`.
  - The regular expression `--([\w-]+):\s*([^;]+);` is stated by the positions
    of its pieces (`MatchesWith`).
  - A left-to-right search is proved to find the leftmost match.
  - Capture group 2 is modelled with the one character that `\s*` gives back
    when the segment is all whitespace. Its trim is proved equal to the trim of
    the whole colon-to-semicolon segment.
- `Generator`: the `.css` filter and the merge fold of `generateTokens`.
  - The fold takes the per-file parser as a parameter. The run of the script
    passes `CssFields`, the top level of `parseCssVariables`' tree.
  - The merge does not look inside a file's tree, so the properties of the fold
    are proved for every parser.
- `Validator`: `ALLOWED_TYPES`, `isLeaf`, `validateLeaf`, `traverse` and the
  decision of `main`.
  - `traverse` mutates a shared error list and a leaf counter. Here that state
    is the class `Validation`, whose recursive methods are proved against the
    ghost specification `TreeTally`.
- `Lint`: `HEX_REGEX`, the line test and numbering of `scanFile`, and the
  directory and extension filter of `main`.

Two behaviours of the generator are worth stating plainly:

- The script hard-codes `type: 'color'` for every generated leaf
  (`scripts/generate-tokens.js:35`). It has no classifier that derives the type
  from the file name.
- The script merges the per-file trees only at the top level
  (`scripts/generate-tokens.js:81`). It has no deep merge. A later file's
  top-level key replaces the whole earlier subtree under that key.

## Model

| member | source | states |
|---|---|---|
| `Text.Split` | scripts/generate-tokens.js:21 | `split` with a one-character separator yields at least one piece, no piece holds the separator, and joining the pieces with it gives the input back |
| `Text.Join` | scripts/validate-tokens.js:38 | `join` puts one separator between consecutive pieces, so the result is at least `|parts| - 1` characters long (one separator between each pair of consecutive pieces); `SplitJoin` and `Split` state that it inverts `split` |
| `Text.SplitJoin` | scripts/generate-tokens.js:32 | splitting is the inverse of joining whenever no piece holds the separator, so a name's path is exactly its `-`-separated pieces, empty ones included |
| `Text.LeadingWhitespaceSpec` | scripts/generate-tokens.js:24 | the leading-whitespace count (what `\s*` consumes) covers whitespace only and stops at the first other character |
| `Text.TrailingWhitespaceSpec` | scripts/generate-tokens.js:27 | the trailing-whitespace count covers whitespace only and stops at the last other character |
| `Text.TrimBounds` | scripts/generate-tokens.js:27 | unless a string is all whitespace, its leading and trailing whitespace do not overlap |
| `Text.Trim` | scripts/generate-tokens.js:27 | `trim` never lengthens a string; `TrimSpec` and `TrimUnique` state what it returns |
| `Text.TrimSpec` | scripts/generate-tokens.js:27 | `trim` leaves a core surrounded only by whitespace in the input, and the core neither starts nor ends with whitespace |
| `Text.InsideCore` | scripts/generate-tokens.js:27 | a non-whitespace character of a string lies inside its trimmed core |
| `Text.TrimUnique` | scripts/generate-tokens.js:27 | any whitespace-framed core without whitespace at its ends is exactly what `trim` returns |
| `Text.TrimDropLeading` | scripts/generate-tokens.js:24-27 | whitespace consumed in front (by `\s*`) does not change the trimmed value |
| `Text.TrimChars` | scripts/generate-tokens.js:27 | trimming introduces no character that was not in the input |
| `Text.IncludesFromIff` | scripts/lint-hardcoded.js:15 | the scan from an index finds a pattern iff it occurs at or after that index |
| `Text.IncludesFrom` | scripts/lint-hardcoded.js:15 | a scan from an index finds the pattern only when the pattern fits in the rest of the string; `IncludesFromIff` states exactly when |
| `Text.Includes` | scripts/lint-hardcoded.js:15 | `includes` holds only for a pattern no longer than the string; `IncludesIff` states exactly when |
| `Text.IncludesIff` | scripts/lint-hardcoded.js:15 | `includes` holds iff the pattern occurs at some index |
| `Text.FirstCharAbsent` | scripts/lint-hardcoded.js:15 | a pattern whose first character is absent from the line is not included in it |
| `PathBuilder.SetPath` | scripts/generate-tokens.js:6-17 | the recursive model of `setDeep`: the new tree, or `None` for a thrown TypeError; an object root stays an object; the lemmas below state where the value lands, what is untouched and when the call throws |
| `PathBuilder.SetDeep` | scripts/generate-tokens.js:6-17 | the cursor loop, with its stack of frames above the cursor and its walk over a primitive, yields exactly the recursive `SetPath` outcome, including the TypeError once the cursor holds `undefined` |
| `PathBuilder.FreshReaches` | scripts/generate-tokens.js:13 | below a freshly created `{}` every path can be written to the end |
| `PathBuilder.ReachesIff` | scripts/generate-tokens.js:13-14 | `setDeep` reaches the last key iff the root is an object and no proper prefix of the path leads to a non-empty string |
| `PathBuilder.SetPathPlaces` | scripts/generate-tokens.js:6-17 | when the path is reachable, the call does not throw, and looking up the path (and anything below it) in the result gives exactly the stored value |
| `PathBuilder.SetPathBlocked` | scripts/generate-tokens.js:11-14 | when the path runs through a non-empty string, the call either throws or leaves the tree unchanged; it never changes the tree |
| `PathBuilder.SetPathAtString` | scripts/generate-tokens.js:11-14 | when the first `k` keys lead to a non-empty string, the tree is unchanged if the primitive walk over the remaining keys finishes, and the call throws otherwise |
| `PathBuilder.StringBeforeLastKey` | scripts/generate-tokens.js:11 | a non-empty string reached with one key left swallows the write: the call returns the tree unchanged |
| `PathBuilder.ThrowsBelowString` | scripts/generate-tokens.js:11-14 | a non-empty string reached with two or more keys left, where the next key is neither one of its indices nor `length`, makes the call throw |
| `PathBuilder.SetPathFrame` | scripts/generate-tokens.js:13-14 | when the call does not throw, every path that leaves the written path keeps its old lookup result: siblings along the way and keys off the path survive |
| `PathBuilder.FreshMissesDivergent` | scripts/generate-tokens.js:13 | writing below a fresh `{}` creates nothing a divergent path can reach |
| `PathBuilder.SetPathOverwrite` | scripts/generate-tokens.js:6-17 | after a first write that does not throw, a second write to the same path gives the same outcome as the second write alone |
| `PathBuilder.SetPathIdempotent` | scripts/generate-tokens.js:6-17 | after a write that does not throw, writing the same value at the same path again changes nothing |
| `PathBuilder.ContainerThenLeaf` | scripts/generate-tokens.js:11-14 | `--a-b` never throws, and `--a` written after it replaces the `a` container wholesale |
| `PathBuilder.LeafThenChild` | scripts/generate-tokens.js:11-14 | `--a` followed by `--a-b` adds `b` inside the `a` leaf, which keeps its own fields |
| `Extractor.MatchPositionsUnique` | scripts/generate-tokens.js:24 | a match at a given start has one possible colon and one possible semicolon, so the groups are fixed by the start |
| `Extractor.NameEnd` | scripts/generate-tokens.js:24 | the greedy `[\w-]+` run ends at the first non-name character |
| `Extractor.SemicolonFrom` | scripts/generate-tokens.js:24 | finds the first `;` at or after a position, or reports that there is none |
| `Extractor.MatchAt` | scripts/generate-tokens.js:24 | an attempt that succeeds at a start reports that start, with `--`, the colon and the semicolon in order inside the line; `MatchAtSpec` states exactly when it succeeds |
| `Extractor.FirstMatch` | scripts/generate-tokens.js:24 | a match found from a position on starts at or after it and lies inside the line; `FirstMatchSpec` states that it is the first |
| `Extractor.Match` | scripts/generate-tokens.js:24 | the match `line.match` returns lies inside the line; `MatchSpec` states that it is the leftmost |
| `Extractor.MatchAtSpec` | scripts/generate-tokens.js:24 | the attempt at one start position succeeds exactly when the regular expression matches there, with the positions of its pieces |
| `Extractor.FirstMatchSpec` | scripts/generate-tokens.js:24 | the search returns the first start from a position on where a match exists, and none iff there is none |
| `Extractor.MatchSpec` | scripts/generate-tokens.js:24 | `line.match` returns the leftmost match, and none iff no start position matches |
| `Extractor.CapturedValue` | scripts/generate-tokens.js:24-27 | capture group 2 is non-empty and trims to the trim of the whole colon-to-semicolon segment |
| `Extractor.ParseLine` | scripts/generate-tokens.js:24-27 | a declaration found on a line has a non-empty name, and the line holds at least the name plus `--`, `:`, one value character and `;`; `ParseLineSpec` states it in full |
| `Extractor.ParseLineSpec` | scripts/generate-tokens.js:24-27 | a line yields a declaration iff the regular expression matches it; the name is the non-empty run of name characters of the leftmost match and the value is its trimmed segment, which holds no `;` |
| `Extractor.LeftmostMatch` | scripts/generate-tokens.js:24 | when no earlier start matches, `line.match` finds the match at `s` with its colon and semicolon where they lie |
| `Extractor.MatchedPieces` | scripts/generate-tokens.js:24-27 | the name of a match is non-empty and made of name characters, and its trimmed value holds no `;` |
| `Extractor.MatchedLine` | scripts/generate-tokens.js:24-27 | given the match `line.match` returns, the declaration is the name between `--` and the colon and the trimmed text between the colon and the semicolon |
| `Extractor.DeclarationAtSpec` | scripts/generate-tokens.js:26-27 | `match[1]` is the text between `--` and the colon, and `match[2].trim()` equals the trim of the whole colon-to-semicolon text |
| `Extractor.AddLine` | scripts/generate-tokens.js:24-37 | processing one line either throws or keeps an object root an object; `LastLineLeaf` and `UnmatchedLineIgnored` state what it writes |
| `Extractor.ParseLines` | scripts/generate-tokens.js:20-39 | a tree the fold returns has an object at its root; the fold stops at the first line that throws |
| `Extractor.ParseLinesFailureSticks` | scripts/generate-tokens.js:23-39 | once a line throws, the whole call throws, whatever the later lines hold |
| `Extractor.ParseCssVariables` | scripts/generate-tokens.js:19-41 | the line loop builds exactly the fold of `AddLine` over the lines of `cssContent.split('\n')`, and ends with `None` (the thrown TypeError) as soon as `setDeep` throws |
| `Extractor.LastLineLeaf` | scripts/generate-tokens.js:23-37 | after lines that did not throw, a line with a declaration whose path no non-empty string blocks does not throw either, and the leaf `{value: trimmed value, type: 'color', originalVariable: '--' + name}` sits at `name.split('-')` |
| `Extractor.LaterDeclarationWins` | scripts/generate-tokens.js:23-37 | a name declared on two consecutive lines keeps the later line's leaf |
| `Extractor.UnmatchedLineIgnored` | scripts/generate-tokens.js:25 | a line without a match leaves the tree unchanged |
| `Extractor.ExampleDeclaration` | scripts/generate-tokens.js:24-27 | `--color-brand-500: #3b82f6;` gives the name `color-brand-500` and the value `#3b82f6` |
| `Extractor.ExampleDeclarationPieces` | scripts/generate-tokens.js:24 | that line matches with its colon at 17 and its semicolon at 26 |
| `Extractor.ExampleDeclarationSlices` | scripts/generate-tokens.js:24 | the name and segment slices of that line |
| `Extractor.ExampleBlankValue` | scripts/generate-tokens.js:24-27 | `--a: ;` still matches and gives an empty value |
| `Extractor.ExampleBlankValuePieces` | scripts/generate-tokens.js:24 | `--a: ;` matches with its colon at 3 and its semicolon at 5, and its segment trims to empty |
| `Extractor.ExampleEmptySegment` | scripts/generate-tokens.js:32 | `a--b` splits into `a`, an empty segment and `b` |
| `Extractor.ExampleLeafLine` | scripts/generate-tokens.js:24-27 | `--a: x;` declares `a` with the value `x` |
| `Extractor.ExampleDeepLine` | scripts/generate-tokens.js:24-27 | `--a-type-b-c: y;` declares `a-type-b-c` with the value `y` |
| `Extractor.ExampleShallowLine` | scripts/generate-tokens.js:24-27 | `--a-type-b: y;` declares `a-type-b` with the value `y` |
| `Extractor.ExamplePaths` | scripts/generate-tokens.js:32 | the names `a`, `a-type-b-c` and `a-type-b` split into their keys |
| `Extractor.ExampleFirstTree` | scripts/generate-tokens.js:33-37 | after `--a: x;` the tree holds the leaf `{value: 'x', type: 'color', originalVariable: '--a'}` under `a` |
| `Extractor.ExampleColorBlocks` | scripts/generate-tokens.js:11-14 | in that tree a write at `a.type.b.c` throws, since `'color'.b` is `undefined`, and a write at `a.type.b` is dropped |
| `Extractor.ExampleDeepSecond` | scripts/generate-tokens.js:23-37 | after that tree, a line declaring `a-type-b-c` makes the call throw |
| `Extractor.ExampleShallowSecond` | scripts/generate-tokens.js:23-37 | after that tree, a line declaring `a-type-b` changes nothing |
| `Extractor.ExampleStringBlocksDeepPath` | scripts/generate-tokens.js:11-14 | `--a: x;` followed by `--a-type-b-c: y;` throws, and followed by `--a-type-b: y;` gives the same tree as the first line alone |
| `Extractor.TrimOneSpace` | scripts/generate-tokens.js:27 | a space followed by one non-whitespace character trims to that character |
| `Generator.MergeTopLevel` | scripts/generate-tokens.js:81 | the merged keys are the union; each key of the later file maps to that file's subtree, and every other key keeps the earlier subtree |
| `Generator.GenerateFrom` | scripts/generate-tokens.js:72-83 | the fold over a listing fails only on one of its entries, never with a missing directory; `SucceedsIff`, `KeysFromFiles` and `LastFileWins` state its outcome |
| `Generator.Generate` | scripts/generate-tokens.js:62-83 | a run fails with a missing directory iff the tokens directory does not exist |
| `Generator.GenerateTokens` | scripts/generate-tokens.js:62-83 | the file loop gives the fold `Generate`: a missing directory fails, a `.css` entry that is a directory fails, a `.css` file on which `parseCssVariables` throws fails, and the other `.css` files are merged in listing order |
| `Generator.SucceedsIff` | scripts/generate-tokens.js:72-83 | a run succeeds iff every `.css` entry is a file whose text parses, for any per-file parser |
| `Generator.FailureSticks` | scripts/generate-tokens.js:74 | once a read fails on a prefix of the listing, the whole run fails the same way, for any per-file parser |
| `Generator.LastStep` | scripts/generate-tokens.js:72-82 | a successful run is the previous result, merged with the last entry when that entry is a `.css` file, which is then a file that parses, for any per-file parser |
| `Generator.KeysFromFiles` | scripts/generate-tokens.js:72-82 | a top-level key is in the result iff some `.css` file brings it, for any per-file parser |
| `Generator.LastFileWins` | scripts/generate-tokens.js:77-81 | the subtree under a top-level key is exactly the one from the last file that brings that key, whatever earlier files held below it, for any per-file parser |
| `Generator.OtherEntriesIgnored` | scripts/generate-tokens.js:73 | an entry whose name does not end in `.css` changes nothing, wherever it stands, for any per-file parser |
| `Generator.MergeOrderMatters` | scripts/generate-tokens.js:81 | two files that disagree at a shared top-level key give different results in the two listing orders, for any per-file parser |
| `Generator.TwoFiles` | scripts/generate-tokens.js:81 | two `.css` files in a row give the first file's keys overridden by the second's, for any per-file parser |
| `Generator.NoCssFilesGivesEmpty` | scripts/generate-tokens.js:68-83 | a directory without `.css` entries yields an empty object, for any per-file parser |
| `Validator.IsLeaf` | scripts/validate-tokens.js:18-22 | an object holding the keys `value`, `type` and `originalVariable` is a leaf; `LeafChildrenIgnored` and `GeneratedLeafErrors` use it |
| `Validator.LeafErrors` | scripts/validate-tokens.js:24-34 | each of the three errors is present iff its check fails, all carry the path joined by `.`, there are at most three, they come in the order value, type, originalVariable, and there are none iff the leaf is valid |
| `Validator.TreeTally` | scripts/validate-tokens.js:36-47 | the specification of a traversal: a leaf counts once with its errors and is not descended into, objects and arrays add up their members, other values add nothing; at most three errors per counted leaf |
| `Validator.FieldTallies` | scripts/validate-tokens.js:44-46 | one tally per member key of the object |
| `Validator.ItemTallies` | scripts/validate-tokens.js:44-46 | one tally per array item, taken under its index key |
| `Validator.SumKeys` | scripts/validate-tokens.js:44-46 | summing the members' tallies keeps the bound of three errors per leaf |
| `Validator.SumSeq` | scripts/validate-tokens.js:44-46 | summing the items' tallies keeps the bound of three errors per leaf |
| `Validator.SumKeysSplit` | scripts/validate-tokens.js:44 | the members of an object may be visited in any order: the total is any one member plus the rest |
| `Validator.Validation.constructor` | scripts/validate-tokens.js:60-61 | the run starts with no errors and no leaves |
| `Validator.Validation.ValidateLeaf` | scripts/validate-tokens.js:24-34 | appends exactly the leaf's errors and leaves the counter alone |
| `Validator.Validation.Traverse` | scripts/validate-tokens.js:36-47 | adds the subtree's leaves to the counter and appends exactly its errors (as a multiset) after the existing ones, which stay untouched |
| `Validator.Validation.TraverseFields` | scripts/validate-tokens.js:43-46 | the key loop over a non-leaf object adds the members' leaves and errors |
| `Validator.Validation.TraverseItems` | scripts/validate-tokens.js:43-46 | the same loop over an array visits the items by index key |
| `Validator.Extends` | scripts/validate-tokens.js:26 | pushing onto the error list keeps what was there and adds what was pushed |
| `Validator.ValidateTokens` | scripts/validate-tokens.js:49-80 | a missing or unparseable file fails; otherwise no leaves fails first, then any error fails with exactly the collected errors, and the file validates iff it has a leaf and every leaf reached is valid |
| `Validator.NoErrorsIff` | scripts/validate-tokens.js:24-47 | the traversal collects no error iff every leaf it reaches passes all three checks |
| `Validator.SumKeysNoErrors` | scripts/validate-tokens.js:44-46 | the members' sum is error-free iff every member's tally is |
| `Validator.SumSeqNoErrors` | scripts/validate-tokens.js:44-46 | the items' sum is error-free iff every item's tally is |
| `Validator.LeafChildrenIgnored` | scripts/validate-tokens.js:18-22 | a member added to a leaf under any other key is never visited and changes neither count nor errors |
| `Validator.GeneratedLeafErrors` | scripts/validate-tokens.js:18-34 | a leaf written by the generator is a leaf for the validator, and its only possible error is an empty value |
| `Lint.HexColorFrom` | scripts/lint-hardcoded.js:9 | a hex colour found from an index on fits in the rest of the line; `HexColorFromIff` states exactly when |
| `Lint.ContainsHexColor` | scripts/lint-hardcoded.js:9 | a line with a hex colour has at least four characters; `ContainsHexColorIff` states that it decides `HEX_REGEX.test` |
| `Lint.Flagged` | scripts/lint-hardcoded.js:15 | a flagged line has at least four characters and no `var(`; `VarExemptsLine` and `ReportIff` use it |
| `Lint.HexColorFromIff` | scripts/lint-hardcoded.js:9 | the scan from an index finds `#` plus three hex digits iff they occur at or after that index |
| `Lint.ContainsHexColorIff` | scripts/lint-hardcoded.js:9 | the scan decides `HEX_REGEX.test` exactly: the unanchored `{3,6}` needs only three digits |
| `Lint.ReportIff` | scripts/lint-hardcoded.js:14-17 | the report names exactly the flagged lines, with the file's path and the line number `idx + 1` |
| `Lint.ReportOrdered` | scripts/lint-hardcoded.js:14-17 | the errors come in strictly increasing line order, so each line is reported at most once |
| `Lint.ScanFile` | scripts/lint-hardcoded.js:11-19 | appends to the error list exactly the report for the file's lines |
| `Lint.FileErrorsIff` | scripts/lint-hardcoded.js:11-19 | a file reports an error iff it names a line of `content.split('\n')` that is flagged |
| `Lint.EntriesErrorsIff` | scripts/lint-hardcoded.js:26-33 | the entries of a directory report an error iff one of them is a scanned stylesheet that reports it |
| `Lint.DirErrorsIff` | scripts/lint-hardcoded.js:23-33 | a directory reports an error iff it exists and one of its scanned entries reports it |
| `Lint.ErrorsReported` | scripts/lint-hardcoded.js:21-34 | an error is collected iff it names a flagged line of a non-directory `.css` or `.scss` entry of an existing target directory |
| `Lint.FailsIffReported` | scripts/lint-hardcoded.js:36-42 | the error list is non-empty iff some scanned file has a flagged line |
| `Lint.LintHardcoded` | scripts/lint-hardcoded.js:21-43 | the directory loop collects exactly `AllErrors`, and the run fails iff some scanned file has a flagged line |
| `Lint.ScanDirectory` | scripts/lint-hardcoded.js:24-33 | a missing directory adds nothing; otherwise each entry's contribution is appended in listing order |
| `Lint.ScanEntry` | scripts/lint-hardcoded.js:27-32 | an entry that is a directory or not a `.css`/`.scss` file adds nothing; a stylesheet appends its file's report under `dir/entry` |
| `Lint.EntryErrorsIff` | scripts/lint-hardcoded.js:27-32 | one entry reports an error iff it is a scanned stylesheet and the error names one of its flagged lines |
| `Lint.VarExemptsLine` | scripts/lint-hardcoded.js:15 | `var(` anywhere on a line exempts it, before or after the colour |
| `Lint.ShortHexNotFlagged` | scripts/lint-hardcoded.js:9 | `#ab` is not flagged |
| `Lint.LongHexFlagged` | scripts/lint-hardcoded.js:9 | `#abcdef12` is flagged |

## Left out

- File-system access is left out: `existsSync`, `readdirSync`, `statSync`, `readFileSync`, `mkdirSync` and `writeFileSync`. A directory listing is a parameter (entry names in listing order, a directory flag, and each file's text). A missing directory is `None`. The order of a listing is whatever the parameter says.
- The generator's configuration lookup by `require` (scripts/generate-tokens.js:49-60) is left out, and so is the output step: `JSON.stringify` and the write of `tokens.json`.
- Read failures are left out except one. An entry named `*.css` that is a directory makes `readFileSync` throw, and that is modelled as `NotAFile`. Other I/O failures are not modelled: permissions, a broken link under `statSync`, an encoding error.
- `console` output, `process.exit` and the text of every message are left out. Errors are datatypes with the same content: the path, the line number, and the offending `type` value.
- Objects are maps, so key order is not modelled. This includes JavaScript's rule that integer-like keys such as `"500"` enumerate first. The validator's error list is therefore specified as a multiset across leaves, and as an exact sequence within one leaf.
- Prototype-inherited properties are left out. In a tree, keys such as `constructor` or `__proto__` behave as plain own properties. On a string or number primitive, inherited properties such as `toString` read as `undefined`.
- Strings are sequences of Unicode scalar values, not UTF-16 code units. So an index into a string primitive picks a whole character, and lone surrogates are not represented.
- `Validator.Json` numbers are integers. Floating-point values cannot be represented in the model, and JSON syntax errors are a single `Unparseable` case.
- `PathBuilder.SetDeep` works on values. It captures the effect of the in-place update, but not the sharing of objects between the tree and the caller. No shared object is mutated later in these scripts.
- `Lint.FullPath` joins with `/` and does not model `path.join`'s normalisation of `.` and `..` segments or doubled separators.
- `bin/substrata.js` is not part of this model. It holds the command-line dispatch and scaffolding.
- `src/consumption/tailwind.config.js` is not part of this model. It is static configuration with no logic.
- `src/consumption/styled-components.js` is not part of this model. It is static configuration with no logic.
- `src/consumption/vanilla-extract.css.ts` is not part of this model. It is static configuration with no logic.
