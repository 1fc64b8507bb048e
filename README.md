# batrepl, modelled in Dafny

batrepl is a batch literal find-and-replace tool. It reads a CSV table of
(find, replace) rows, detects that table's encoding (UTF-8 first, then
Shift-JIS), keeps the rows of exactly two fields with each doubled quote `""`
collapsed to `"`, then walks a directory tree. To every file whose lower-cased
name ends in `.html` or `.js` it applies each pair in table order. Each
application reads the file, replaces every occurrence of `find` with
`replace`, and writes the file back only if the text changed. Any error on a
file is caught, and the run continues.

The model is six modules, one per piece of the pipeline:

- `Wrappers` (wrappers.dfy): `Option` and `Result`.
- `Literal` (literal.dfy): Python's `str.replace` as `ReplaceAll`. Beside it sits
  an independent reference: a leftmost search `IndexOf`, a `Split` and a `Join`.
- `Encodings` (encodings.dfy): the prioritised encoding probe, as a
  specification function `Detect` and a looping method `DetectEncoding`.
- `PairLoader` (pairs.dfy): quote collapsing, the pair filter `LoadPairs` and
  the looping loader `ReadReplacePairs`.
- `Rewriter` (rewriter.dfy): one read-modify-write attempt, specified by
  `Attempt`/`Rewrite` over a map from path to text. It is performed by the class
  `FileStore`, whose `files` field is a map that the method changes in place.
- `Driver` (driver.dfy): the extension filter, the folds that specify the
  nested loops, and the method `Run`, which runs the whole pipeline on a
  `FileStore`.

Environment inputs are parameters:

- Whether the table's bytes fully decode under an encoding is the relation
  `decodes(bytes, encoding)`.
- The CSV rows the tokeniser yields under the detected encoding are `parse(encoding)`.
- The directory walk is a sequence of `WalkEntry(path, name)`.
- Which paths refuse reading or writing is an `Access` value.
- A path missing from the store fails as a non-permission error, as
  `FileNotFoundError` does.

Rows of three or more fields, such as a table with a note column, yield no
pair. The code tests for exactly two fields (batrepl.py:30), and so does
`LoadPairs`.

## Model

| member | source | states |
|---|---|---|
| `Literal.ReplaceAll` | batrepl.py:44 | the model of `str.replace`, given by its body; characterised by ReplaceIsJoinOfSplit, SplitIsLeftmost, ReplaceUnchangedIff and ReplaceEmptyIsJoin |
| `Literal.ReplaceIsJoinOfSplit` | batrepl.py:44 | for a non-empty `find`, replace-all equals `rep` joined between the pieces of the leftmost split of the text on `find` |
| `Literal.SplitIsLeftmost` | batrepl.py:44 | the split cuts at leftmost occurrences: no piece, extended into the separator after it, contains `find`, and the last piece contains none; so no occurrence is skipped or overlapped from the left |
| `Literal.SplitJoinRoundTrip` | batrepl.py:44 | joining the split pieces with `find` itself gives back the original text |
| `Literal.IndexOf` | batrepl.py:44 | the search returns an occurrence of `find` with none before it, or none when `find` occurs nowhere |
| `Literal.ReplaceUnchangedIff` | batrepl.py:44 | the result equals the input exactly when `find` does not occur in it or `rep == find`; an empty `find` always occurs |
| `Literal.NoOccurrenceUnchanged` | batrepl.py:44 | a text without `find` comes back unchanged |
| `Literal.ReplaceEmptyIsJoin` | batrepl.py:44 | with an empty `find`, `rep` is placed at the start, between every two characters and at the end |
| `Literal.LeftmostExample` | batrepl.py:44 | `"aaa"` with `"aa"` replaced by `"b"` gives `"ba"` |
| `Literal.EmptyFindExample` | batrepl.py:44 | `"ab"` with `""` replaced by `"-"` gives `"-a-b-"`, and the empty text gives `"-"` |
| `Encodings.Detect` | batrepl.py:9-18 | the chosen encoding decodes the whole input and every higher-priority candidate fails; none is chosen exactly when every candidate fails |
| `Encodings.DetectEncoding` | batrepl.py:9-18 | the loop with early return yields the first candidate, in the order UTF-8 then Shift-JIS, whose full decode succeeds, and `None` exactly when both fail |
| `Encodings.DetectOnlyShiftJis` | batrepl.py:10-18 | bytes that are not UTF-8 are detected as Shift-JIS if they decode as such, and as nothing otherwise |
| `PairLoader.CollapseQuotes` | batrepl.py:31-32 | the collapse of `""` to `"` in one field, given by its body; characterised by CollapseChangesIff and CollapseUndoesDoubling |
| `PairLoader.PairOf` | batrepl.py:31-33 | the pair a two-field row yields, both fields collapsed, given by its body; used by LoadPairsIndexed |
| `PairLoader.LoadPairs` | batrepl.py:26-33 | the pair filter, given by its body; characterised by LoadPairsIndexed, LoadPairsAppend and OtherRowContributesNothing |
| `PairLoader.LoadTable` | batrepl.py:21-34 | the whole loader as a value, given by its body; ReadReplacePairs is proved equal to it |
| `PairLoader.ReadReplacePairs` | batrepl.py:21-34 | loading fails exactly when no candidate encoding decodes the table; otherwise it yields the pairs of the rows parsed under the detected encoding |
| `PairLoader.LoadPairsIndexed` | batrepl.py:29-33 | exactly one pair per row of exactly two fields, in row order; the k-th pair is the collapsed pair of the k-th two-field row |
| `PairLoader.TwoFieldRowsExact` | batrepl.py:29-30 | the selected row indices increase strictly and are exactly the rows with two fields |
| `PairLoader.LoadPairsAppend` | batrepl.py:26-34 | loading two tables one after the other gives the first table's pairs followed by the second's (order preserved) |
| `PairLoader.OtherRowContributesNothing` | batrepl.py:29-30 | a row of any length other than two, wherever it stands, changes nothing in the loaded pairs |
| `PairLoader.CollapseChangesIff` | batrepl.py:31-32 | a field changes under the collapse exactly when it contains `""`; a field without `""` passes through |
| `PairLoader.CollapseUndoesDoubling` | batrepl.py:31-32 | doubling every quote of a text and then collapsing gives back the text |
| `PairLoader.CollapseExample` | batrepl.py:31-32 | `x""y` collapses to `x"y`, and `"""` to `""` (leftmost, non-overlapping) |
| `Rewriter.Attempt` | batrepl.py:37-59 | the outcome of one attempt, given by its body; characterised by RewriteWritesIff and NoOccurrenceNoWrite |
| `Rewriter.Rewrite` | batrepl.py:37-49 | one attempt keeps the set of paths, and every path other than the target is left unchanged |
| `Rewriter.RewriteWritesIff` | batrepl.py:40-49 | the store changes exactly when the outcome is `Replaced`, which happens exactly when the file is present, readable and writable, `find` occurs in it and `rep != find` |
| `Rewriter.NoOccurrenceNoWrite` | batrepl.py:44-54 | when `find` does not occur, nothing is written, and a readable file reports `Unchanged` |
| `Rewriter.SecondApplicationNoWrite` | batrepl.py:44-49 | applying the same pair again writes nothing once the first application left no `find` |
| `Rewriter.RewriteWhenAllowed` | batrepl.py:40-49 | a present, readable, writable file ends up holding the replaced text |
| `Rewriter.FailureLeavesStore` | batrepl.py:56-59 | a failed attempt, whether a permission error or another error, leaves every file as it was |
| `Rewriter.FileStore.FindAndReplaceInFile` | batrepl.py:37-59 | the method returns the outcome and leaves the store in the state of `Attempt`/`Rewrite`; a non-`Replaced` outcome changes nothing, and other paths never change |
| `Driver.IsTarget` | batrepl.py:133 | the extension filter, given by its body; characterised by IsTargetChars |
| `Driver.FoldReplace` | batrepl.py:137-138 | the left fold of replace-all over the pairs, given by its body; tied to the store by ApplyPairsContent and RunEntriesTarget |
| `Driver.ProcessEntry` | batrepl.py:133-138 | one walk entry: every pair for a selected name, nothing otherwise, given by its body; its effect is stated by RunEntries and RunEntriesTarget |
| `Driver.IsTargetChars` | batrepl.py:133 | a name is selected exactly when it ends in `.js` or `.html` in any mix of ASCII case |
| `Driver.IsTargetExamples` | batrepl.py:133 | `index.HTML` and `App.Js` are selected; `style.css`, `data.json` and `js` are not |
| `Driver.ApplyPairs` | batrepl.py:137-138 | applying the pairs to one path keeps the set of paths and leaves every other path unchanged |
| `Driver.ApplyPairsContent` | batrepl.py:137-138 | a present, readable, writable file ends with the left fold of replace-all over the pairs, in order |
| `Driver.ApplyPairsBlocked` | batrepl.py:137-138 | a file that cannot be read or written is tried with every pair and stays as it was |
| `Driver.RunEntries` | batrepl.py:130-138 | over the whole walk, the set of paths is kept, and a path that no selected entry names is never rewritten |
| `Driver.RunEntriesTarget` | batrepl.py:130-138 | in a walk that lists each path once, every selected file ends with the left fold of the pairs, or as it was if it cannot be read or written, whatever happens to other files |
| `Driver.SequentialExample` | batrepl.py:137-138 | the pairs `a -> b`, `b -> c` turn `a` into `c`: they compose in sequence, not simultaneously |
| `Driver.Run` | batrepl.py:122-141 | a loader failure aborts with every file untouched; otherwise the run completes, and the store equals the fold of every pair over every selected entry, in walk order |

## Left out

- Byte-level decoding and encoding are codecs. The model does not cover UTF-8
  and Shift-JIS validity, the lossy `errors='replace'` read of target files,
  or the UTF-8 write. Full-decode success is the parameter `decodes`, and file
  contents are already-decoded text. So the model does not show that
  rewriting a file also replaces its undecodable bytes with U+FFFD.
- Newline translation is not modelled. Target files are opened in text mode
  with the default newline handling (batrepl.py:40, 48). So `\r\n` and `\r`
  are read as `\n`, and a rewrite writes every line ending back in the
  platform's form. A CRLF file changed by one pair therefore gets all its line
  endings rewritten, not only the replaced text. The table, read through
  `codecs.open` (batrepl.py:27), gets no such translation. So a find field
  holding `\r\n` can never match a target's text. The model compares texts
  exactly as stored.
- CSV tokenisation (`csv.reader` with `skipinitialspace` and `doublequote`) is
  library behaviour. The model starts from the parsed rows, `parse(encoding)`.
- Directory walking and `os.path.join` are left out. The walk is a given
  sequence of entries, each carrying its joined path and bare name.
- `Driver.IsTarget`: Python's full Unicode `str.lower()` is approximated by
  ASCII lower-casing. Non-ASCII case mappings are not modelled.
- Logging setup, timestamps, log-file naming, the log events themselves,
  argparse, `print` and `exit` are I/O and configuration. The rewriter's
  `Outcome` stands for the event it would log.
- Rewriter errors other than a missing file and permission denial, such as a
  full disk or a transient I/O fault, are not modelled. Neither are crashes,
  partial writes, or the exact exception types. A failure is only a tag.
- Permissions are fixed for the whole run. A file whose permissions change
  during the run is not modelled.
- Aliasing between paths is not modelled. The store treats distinct paths as
  distinct files, so it does not cover symbolic links or hard links. Through
  a link, two walk entries (or an entry and a file outside the tree) can name
  the same file. The tool then applies the pairs to that file once per
  entry, and a rewrite through a link changes the file it points to.
- `Driver.RunEntriesTarget` assumes that the walk lists each path string once,
  as `os.walk` does. Its result holds only when distinct paths are distinct
  files, as the aliasing line above says. `Driver.Run` and `Driver.RunEntries`
  assume nothing about repeated paths.
