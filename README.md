# Batch static-analysis driver, modelled in Dafny

`static_analysis/scripts/batch_static.py` runs an external analysis tool
(`sh run.sh` in `/crypto_scout`) once for each file in the corpus directory
`/samples`. It then collects the tool's results into the newline-delimited
log `/samples/results.jsonl`. This project models its three pieces of logic:

- **Child environment** (`analyze_file`, lines 10-13). The parent
  environment is copied and three keys are set: `OPTION="p"`,
  `BYTECODE_DIR="/samples"` and `BYTECODE_FILE_NAME=<base name>`. Every other
  variable passes through unchanged.
- **Record extraction** (`analyze_file`, lines 25-35). The captured stdout is
  stripped and split on `"\n"`, and the lines are scanned from the last one
  back to the first, each one stripped. A line is a candidate when it starts
  with `{` and ends with `}`. The first candidate that `json.loads` accepts
  wins, and its `"filename"` key is set to the artifact's base name. A
  candidate that fails to parse is skipped. When nothing parses the result
  is `None`.
- **Batch loop** (`main`, lines 38-61). The directory listing is sorted, the
  log is opened for truncating write, and the entries are visited in order.
  Entries that are not regular files are skipped, and so are entries whose
  analysis is `None`. For each other entry one line `json.dumps(record) +
  "\n"` is appended to the log. The listing itself is not filtered:
  `sorted(os.listdir(...))` keeps every entry, and only the loop's
  `isfile` test skips directories and other non-regular entries.

Modules, one per concern:

| file | module | contents |
|---|---|---|
| `wrappers.dfy` | `Wrappers` | `Option` (Python's `None`-or-value) |
| `json.dfy` | `Json` | JSON values and `Record` (a decoded object) |
| `text.dfy` | `Text` | `str.isspace`, `str.strip`, `str.split` |
| `paths.dfy` | `Paths` | `os.path.basename`, `os.path.join` |
| `ordering.dfy` | `Ordering` | Python string order and `sorted` |
| `extraction.dfy` | `Extraction` | the backward scan and the `filename` tag |
| `driver.dfy` | `Driver` | the child environment, `analyze_file` |
| `batch.dfy` | `Batch` | the output log, `main` |
| `scenarios.dfy` | `Scenarios` | the extraction rule on concrete output shapes |

The foreign operations are fields of the datatype `Driver.Host`, each a
total function of its arguments:

- `run`: the subprocess call, from the child environment to its stdout text
  after newline translation.
- `parse`: `json.loads`, where `None` means it raised.
- `isFile`: `os.path.isfile`.
- `dumps`: `json.dumps`.
- `environ`: the parent's `os.environ`.

The directory listing is a parameter of `RunBatch`.

The scan is specified by the recursive function `Extraction.LastAccepted`.
The source's `for` loop over `reversed(lines)` is the `while` loop in
`Driver.ScanBack`, which `Driver.AnalyzeFile` calls; the method is proved
equal to the specification `Driver.Analysis`. The open output file is the class `Batch.OutputLog`, whose
only field is the append-only sequence of written strings. `Batch.RunBatch`
is the loop of `main`, proved equal to `Batch.Output` over the sorted listing.

## Model

| member | source | states |
|---|---|---|
| `Text.IsSpace` | static_analysis/scripts/batch_static.py:25-27 | the characters `str.strip()` removes: Python `str.isspace`, which covers space, tab, carriage return and newline and excludes `{` and `}` |
| `Text.TrimStart` | static_analysis/scripts/batch_static.py:25 | leading part of `strip()`: the result is no longer than the input and does not start with whitespace |
| `Text.TrimStartIsSuffix` | static_analysis/scripts/batch_static.py:25 | what `TrimStart` keeps is a suffix of the input, and everything it removes is whitespace |
| `Text.TrimEnd` | static_analysis/scripts/batch_static.py:25 | trailing part of `strip()`: the result is no longer than the input and does not end with whitespace |
| `Text.TrimEndIsPrefix` | static_analysis/scripts/batch_static.py:25 | what `TrimEnd` keeps is a prefix of the input, and everything it removes is whitespace |
| `Text.Strip` | static_analysis/scripts/batch_static.py:27 | `str.strip()`: the result neither starts nor ends with a Python whitespace character |
| `Text.StripIsInfix` | static_analysis/scripts/batch_static.py:27 | `strip()` keeps one contiguous piece of the input and removes only whitespace on either side |
| `Text.StripKeepsOut` | static_analysis/scripts/batch_static.py:27 | stripping introduces no character, so a stripped line still has no newline |
| `Text.StripIdempotent` | static_analysis/scripts/batch_static.py:25-27 | stripping twice equals stripping once, so stripping text that is already stripped changes nothing |
| `Text.Split` | static_analysis/scripts/batch_static.py:25 | `split("\n")` yields at least one piece and no piece contains the separator |
| `Text.SplitJoin` | static_analysis/scripts/batch_static.py:25 | joining the pieces with the separator gives back the text split |
| `Text.SplitLength` | static_analysis/scripts/batch_static.py:25 | the number of pieces is one more than the number of separators |
| `Paths.Basename` | static_analysis/scripts/batch_static.py:9 | `os.path.basename`: the result has no `/`, is a suffix of the path, and is preceded by `/` unless it is the whole path |
| `Paths.JoinPath` | static_analysis/scripts/batch_static.py:46 | `os.path.join`: an absolute name replaces the directory; the name always ends the result |
| `Paths.BasenameOfPlain` | static_analysis/scripts/batch_static.py:9 | a name without `/` is its own base name |
| `Paths.BasenameAfterSlash` | static_analysis/scripts/batch_static.py:9 | the base name of `prefix/name` is `name` |
| `Paths.BasenameOfJoin` | static_analysis/scripts/batch_static.py:46 | the base name of `join(dir, name)` is `name` for every plain entry name, so `analyze_file` recovers the entry's own name |
| `Ordering.LexLe` | static_analysis/scripts/batch_static.py:40 | Python `str` `<=`, the order `sorted` uses: a prefix is never above the longer string |
| `Ordering.LexLeReflexive` | static_analysis/scripts/batch_static.py:40 | Python string `<=` is reflexive |
| `Ordering.LexLeTotal` | static_analysis/scripts/batch_static.py:40 | Python string `<=` is total |
| `Ordering.LexLeAntisymmetric` | static_analysis/scripts/batch_static.py:40 | Python string `<=` is antisymmetric |
| `Ordering.LexLeTransitive` | static_analysis/scripts/batch_static.py:40 | Python string `<=` is transitive |
| `Ordering.Insert` | static_analysis/scripts/batch_static.py:40 | insertion into a sorted list keeps it sorted and adds exactly that element |
| `Ordering.Sort` | static_analysis/scripts/batch_static.py:40 | `sorted(os.listdir(...))` is sorted and a permutation of the listing |
| `Ordering.SortedUnique` | static_analysis/scripts/batch_static.py:40 | two sorted sequences with the same elements are equal |
| `Ordering.SortDeterministic` | static_analysis/scripts/batch_static.py:40 | the processing order depends only on the directory's contents, not on the listing order |
| `Extraction.IsCandidate` | static_analysis/scripts/batch_static.py:28 | a `{...}` line has at least two characters and no whitespace at either end |
| `Extraction.Accepted` | static_analysis/scripts/batch_static.py:28-30 | a line without the `{...}` shape is never accepted, whatever the parser says |
| `Extraction.StripEach` | static_analysis/scripts/batch_static.py:26-27 | stripping every line keeps the number of lines |
| `Extraction.StripEachAt` | static_analysis/scripts/batch_static.py:26-27 | the line the loop looks at, at index `i`, is raw line `i` stripped |
| `Extraction.Lines` | static_analysis/scripts/batch_static.py:25 | the scanned lines, one per piece of the stripped stdout; there is always at least one |
| `Extraction.LinesHaveNoNewline` | static_analysis/scripts/batch_static.py:25-27 | no scanned line holds a newline |
| `Extraction.LastAccepted` | static_analysis/scripts/batch_static.py:26-34 | the backward scan stops at the highest-index line that is a `{...}` candidate and parses; it is `None` exactly when no such line exists |
| `Extraction.LastAcceptedStep` | static_analysis/scripts/batch_static.py:26-34 | one iteration of the backward loop: an accepted line `i` ends the scan there, otherwise the scan of the lines before `i` decides |
| `Extraction.LastAcceptedUnique` | static_analysis/scripts/batch_static.py:26-34 | any accepted line with no accepted line after it is the one chosen |
| `Extraction.Tag` | static_analysis/scripts/batch_static.py:31 | `data["filename"] = filename` sets that key, overriding the tool's value, and keeps every other key and value |
| `Extraction.Pick` | static_analysis/scripts/batch_static.py:26-35 | over the stripped lines: `None` exactly when no line is an accepted candidate; a returned record's `filename` is the artifact's name |
| `Extraction.Extract` | static_analysis/scripts/batch_static.py:25-35 | the result is `None` exactly when no line is an accepted candidate; a returned record's `filename` is the artifact's name |
| `Extraction.ExtractChoosesLast` | static_analysis/scripts/batch_static.py:26-32 | the returned record is the last accepted line's object, tagged; later candidates that fail to parse are passed over |
| `Extraction.LastAcceptedOnlyAsksCandidates` | static_analysis/scripts/batch_static.py:28-30 | the scan's result depends on the parser only at candidate lines, so a line without the `{...}` shape is never parsed |
| `Extraction.ExtractOnlyAsksCandidates` | static_analysis/scripts/batch_static.py:28-30 | the extracted record depends on the parser only at candidate lines |
| `Scenarios.SplitAfterPiece` | static_analysis/scripts/batch_static.py:25 | splitting `piece + sep + rest` yields `piece` followed by the split of `rest` |
| `Scenarios.SplitWhole` | static_analysis/scripts/batch_static.py:25 | text without the separator splits into itself |
| `Scenarios.CandidateIsStripped` | static_analysis/scripts/batch_static.py:27-28 | a candidate line is unchanged by stripping |
| `Scenarios.StripFinalNewline` | static_analysis/scripts/batch_static.py:25 | stripping tool output that ends in a newline removes just that newline |
| `Scenarios.SplitThree` | static_analysis/scripts/batch_static.py:25 | three newline-free pieces joined by newlines split back into those three |
| `Scenarios.ThreeLines` | static_analysis/scripts/batch_static.py:25-27 | three newline-terminated lines are scanned as exactly those three lines, stripped |
| `Scenarios.LinesOfThree` | static_analysis/scripts/batch_static.py:25-27 | the scanned lines are the split pieces, stripped |
| `Scenarios.LastRecordWins` | static_analysis/scripts/batch_static.py:26-32 | for noise, then a record, then another record, the result is the last record, tagged |
| `Scenarios.MalformedLastSkipped` | static_analysis/scripts/batch_static.py:26-34 | for a record followed by a malformed `{...}` line, the malformed line is skipped and the earlier record is returned |
| `Scenarios.MiddleOfThreeWins` | static_analysis/scripts/batch_static.py:26-34 | of three lines, a rejected last line and an accepted middle line yield the middle line's record |
| `Driver.AnalysisKeys` | static_analysis/scripts/batch_static.py:11-13 | the driver sets three distinct keys |
| `Driver.ChildEnvironment` | static_analysis/scripts/batch_static.py:10-13 | the child environment has the parent's keys plus the three analysis keys, with `OPTION="p"`, `BYTECODE_DIR="/samples"` and `BYTECODE_FILE_NAME=filename`, and every other key keeps the parent's value |
| `Driver.Analysis` | static_analysis/scripts/batch_static.py:8-35 | a record returned by `analyze_file` has `filename` equal to the base name of the path |
| `Driver.AnalyzeFile` | static_analysis/scripts/batch_static.py:8-35 | the three in-place environment updates, the run and the backward scan compute exactly `Analysis` |
| `Driver.ScanBack` | static_analysis/scripts/batch_static.py:26-35 | the `for` loop over `reversed(lines)` with per-line strip and early return computes exactly `Pick` over the stripped lines |
| `Batch.OutputLog.Open` | static_analysis/scripts/batch_static.py:44 | opening with mode `"w"` starts the log empty |
| `Batch.OutputLog.Write` | static_analysis/scripts/batch_static.py:58 | a write appends one string and keeps everything written before |
| `Batch.EntryPath` | static_analysis/scripts/batch_static.py:46 | the joined path of a plain entry name has that name as its base name |
| `Batch.Emitted` | static_analysis/scripts/batch_static.py:46-59 | one iteration writes at most one line |
| `Batch.EmittedLine` | static_analysis/scripts/batch_static.py:48-58 | an iteration writes a line exactly when the entry is a regular file with a record, and the line is `dumps(record) + "\n"` |
| `Batch.EntryOutput` | static_analysis/scripts/batch_static.py:45-59 | every entry contributes at most one line |
| `Batch.Collect` | static_analysis/scripts/batch_static.py:45-59 | the log the loop builds, entry by entry in order; its properties are stated by `CollectSilent`, `CollectBound`, `CollectExtends` and `Sources` |
| `Batch.CollectSilent` | static_analysis/scripts/batch_static.py:45-59 | when no entry writes a line, the log the loop builds stays empty |
| `Batch.Output` | static_analysis/scripts/batch_static.py:44-59 | the log never has more lines than the listing has entries |
| `Batch.CollectBound` | static_analysis/scripts/batch_static.py:45-59 | with at most one line per entry, the log is no longer than the entry list |
| `Batch.CollectExtends` | static_analysis/scripts/batch_static.py:45-59 | each iteration keeps the log written so far and appends that entry's line, if any |
| `Batch.Sources` | static_analysis/scripts/batch_static.py:45-58 | the log's lines come from strictly increasing entry indices, one line per producing entry, and every unlisted entry wrote nothing |
| `Batch.OutputRecordsNamed` | static_analysis/scripts/batch_static.py:48-58 | every log line serialises the record of a regular-file entry whose `filename` is that entry's name |
| `Batch.RunBatch` | static_analysis/scripts/batch_static.py:38-61 | `main` leaves a fresh log equal to `Output` over the sorted listing |

## Left out

- The subprocess (lines 16-23) is the `Host.run` function. Its working
  directory, its command line and the content of its standard error are not
  modelled (though decoding standard error can abort the run, see below),
  and neither is its exit status, which the source never reads. It is assumed to
  terminate and to answer the same environment with the same output, so a
  tool that hangs or changes its answer between calls is not modelled.
- `os.listdir` (line 40) is the `listing` parameter. A directory that cannot
  be listed aborts the run in the source; the model does not capture that.
- `os.path.isfile` (line 48) is `Host.isFile`, so a filesystem that changes
  during the run is not modelled.
- `json.loads` and `json.dumps` (lines 30, 58) are `Host.parse` and
  `Host.dumps`. Their grammar is not modelled, and no parse/serialise round
  trip is claimed. A line that starts with `{` and parses is always an
  object, so the parser's result is `Option<Record>`.
- The bare `except:` (line 33) is the parser returning `None`. Setting a
  key on a `dict` cannot raise, so no other exception path exists.
- `print` progress lines, `fout.flush()` and the unused `results` list
  (lines 39, 42, 51, 55, 59, 61) are not modelled: they are console output,
  durability and dead state.
- `OUTPUT_FILE` (line 6) is not a value in the model. The open file is the
  `OutputLog` object; where the file lives is covered below.
- The specification function `Extraction.Lines` strips all lines before the
  scan. The source strips each line as the loop reaches it.
  `Driver.ScanBack` follows the source, and the two agree because
  stripping has no side effect.
- JSON numbers are kept as their literal text, because the driver never
  reads a value. Floating point is not modelled.
- The newline translation of `universal_newlines=True` is taken to have
  happened inside `run`.
- Key order of records is not modelled. `Record` is an unordered map, but a
  Python `dict` keeps insertion order and `json.dumps` (line 58) writes keys
  in that order. Setting `filename` (line 31) keeps the key's old position
  when the tool emitted one and appends it otherwise. So two tool outputs
  that decode to the same map can give different log lines in the source but
  the same line in the model.
- The model assumes `subprocess.run` (lines 16-23) never raises. It is
  outside the `try`, so a missing `/crypto_scout` or `sh` (`FileNotFoundError`)
  or stdout or stderr that the locale encoding cannot decode
  (`UnicodeDecodeError` under `universal_newlines=True`) escapes `main`. That
  aborts the run, leaving only the log lines written so far. In the model
  `Host.run` is total and `RunBatch` always visits every entry.
- The log file lives inside the corpus directory: `OUTPUT_FILE`
  (`/samples/results.jsonl`, line 6) is in `SAMPLES_DIR` (line 5). The listing
  (line 40) is taken before the log is truncated (line 44), so from the second
  run on the log is itself a listed regular file. The tool is then run on it
  while it is being rewritten, and its answer depends on the lines written so
  far. The model takes the listing as a parameter and `Host.run` as a fixed
  function, so this aliasing is not captured. A run also changes the
  directory that the next run lists.
- Opening, writing and flushing the log are assumed to succeed:
  `OutputLog.Open` and `OutputLog.Write` cannot fail, and `RunBatch` always
  visits every entry. In the source, `open(OUTPUT_FILE, "w")` (line 44) can
  raise `OSError`, for example `PermissionError` on a read-only `/samples`.
  The run then aborts before any entry is visited. `fout.write` and
  `fout.flush()` (lines 58-59) can raise `OSError`, for example on a full
  disk. The error escapes `main`, leaving only the lines already flushed.
- Strings whose characters are not Unicode scalar values are outside the
  model. A Dafny `string` holds only Unicode scalar values, so it cannot
  contain a lone surrogate (U+D800 to U+DFFF). Python's `os.listdir`
  (line 40) returns such strings for name bytes the filesystem encoding
  cannot decode: it maps each undecodable byte to a surrogate escape.
  Under an ASCII locale that covers every non-ASCII name; for example the
  UTF-8 name `é.apk` becomes `'\udcc3\udca9.apk'`. The source passes such a
  name on to the environment (line 13) and to `json.dumps` (line 58). No
  `listing` in the model can contain it, so no lemma here covers such an
  entry. The same goes for lone-surrogate strings that `json.loads` can
  return for `\ud800`-style escapes.
