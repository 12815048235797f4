# CWA-Ingest-Buddy deduplication, modelled in Dafny

CWA-Ingest-Buddy moves e-books from a source folder into a Calibre-Web
Automated ingest folder. Along the way it skips files it has seen before.
Two versions of the script are modelled:

- `main/scripts/deduplication3.py` (module `IngestV3`) is the current script.
  For each file it runs, in order:
  1. a name filter;
  2. Tier 1: a lookup by name or content hash;
  3. Tier 2: a lookup by the title and author that `ebook-meta` prints;
  4. a plain-text conversion;
  5. an advisory fuzzy comparison of a text excerpt against the stored
     excerpts;
  6. the copy, then an insert into the `books` table.

  Duplicates by metadata, conversion failures, suspected fuzzy duplicates and
  copy errors are appended to `failures.log`.
- `CWA-Ingest-Buddy/scripts/deduplication.py` (module `IngestLegacy`) is the
  older script. It has only the name filter, Tier 1, the copy and a
  three-column insert.

Both scripts change state step by step. The current script changes the
table, the log and the ingest folder, and the older one only the table and
the ingest folder, since it writes no log. Each `main` loop is therefore a
class `Library` whose methods update fields `books`, `log` and `copied` in
`IngestV3`, and `books` and `copied` in `IngestLegacy`. Each method is proved
against a pure function of the old state:
- `Step` for one file;
- `Run` for the whole list.

The properties of the scripts are lemmas about `Step` and `Run`. The pure
helpers are functions with contracts:
- the name normaliser (`Filenames`);
- the excerpt window (`SampleText`);
- the `ebook-meta` output parser (`Metadata`);
- the Python `str` built-ins they rely on (`Strings`).

The filter (`SkipFilter.ShouldSkip`), the metadata loop
(`Metadata.ExtractMetadata`) and the fuzzy scan (`FuzzyMatch.CollectMatches`,
`IngestV3.Library.FuzzyMatchText`) are loops in the source, so they are
methods here.

Each file is a `Candidate` value. It carries the results of everything done
to that file outside the process. In `IngestV3` these are:
- its content hash, or `None` when reading the file raised;
- what `ebook-meta` printed;
- whether `ebook-convert` succeeded and what text it left;
- whether the copy and the insert raised.

The older script runs no external tool, so an `IngestLegacy.Candidate`
carries only the name, the content hash, and whether the copy and the
insert raised.

Four behaviours of the scripts are easy to miss when reading them, and the
model keeps each one as written:

- **Unreadable files.** `file_sha256` (deduplication3.py:145,
  deduplication.py:72) is called outside any `try`. A file that cannot be
  read therefore raises out of `main` and ends the whole run. `Run` stops
  with `completed == false`, and `RunStaysStopped` shows that later files
  change nothing.
- **Tier 1 name check.** The query (deduplication3.py:148-153,
  deduplication.py:75-80) binds the candidate's *original* name to both the
  `original_filename` and the `truncated_filename` placeholders. Two long
  names that truncate to the same destination are therefore both ingested,
  and the second copy lands on the first
  (`IngestLegacy.TruncatedNameCollision`).
- **Long extensions.** In `truncate_filename` (deduplication3.py:35-42),
  `max_base_len` is negative once the extension has 150 or more characters.
  Python's negative slice then cuts the base from its end, and the result is
  longer than 150 characters (`Filenames.TruncateLongExtension`).
- **Conversion failures.** When `convert_to_txt` fails
  (deduplication3.py:179-182), the script logs one line and `continue`s. It
  writes no row and makes no copy (`IngestV3.ConversionFailureStep`).

## Model

| member | source | states |
|---|---|---|
| Strings.Find | main/scripts/deduplication3.py:66-68 | `str.find`: -1 exactly when the pattern occurs nowhere, otherwise an index where it occurs with no earlier occurrence |
| Strings.LastIndexOf | main/scripts/deduplication3.py:38 | the separator `rsplit('.', 1)` cuts at: a `.` with no `.` after it |
| Strings.Strip | main/scripts/deduplication3.py:73 | `strip()`: the result is a contiguous piece of the input, neither of its ends is whitespace, and everything cut off on either side is whitespace |
| Strings.Lower | main/scripts/deduplication3.py:65 | `lower()` keeps the length and maps every character on its own |
| Strings.SplitLines | main/scripts/deduplication3.py:89 | `splitlines()`: no line contains a line-break character, and only the empty text has no lines |
| Strings.LineEnds | main/scripts/deduplication3.py:89 | each line of `splitlines()` is closed by one line-break character or by `\r\n`; only the last line may instead run to the end of the text |
| Strings.NoTrailingEmptyLine | main/scripts/deduplication3.py:89 | a final line break opens no empty line: a last line with no terminator after it is never empty |
| Strings.SplitLinesRejoin | main/scripts/deduplication3.py:89 | the lines, each followed by the break that closed it, give back the text exactly: they are its consecutive pieces between breaks, in order |
| Strings.CrLfIsOneBreak | main/scripts/deduplication3.py:89 | `\r\n` counts as one break: a line closed by a lone `\r` is never followed by an empty line closed by `\n` |
| Filenames.TakePrefix | main/scripts/deduplication3.py:41 | Python's `base[:m]` is a prefix of `base` whose length follows the negative-index rule |
| Filenames.Truncate | main/scripts/deduplication3.py:35-42 | a name without a dot, or of at most 150 characters, is returned unchanged; with an extension under 150 characters the result fits in 150 |
| Filenames.SplitAtLastDot | main/scripts/deduplication3.py:38 | `rsplit('.', 1)` of `base + "." + ext` gives back `base` and `ext` when `ext` has no dot |
| Filenames.TruncateCuts | main/scripts/deduplication3.py:39-41 | a base longer than `150 - len(ext) - 1` is cut to that slice and joined back to the extension |
| Filenames.BaseDotExtension | main/scripts/deduplication3.py:38 | a name with a dot is its base, a dot and its extension, and the extension has no dot |
| Filenames.TruncateKeepsExtension | CWA-Ingest-Buddy/scripts/deduplication.py:31-38 | with an extension under 150 characters, the dot and the extension are kept, the new base is a prefix of the old one, the result fits in 150, and a name over 150 comes out exactly 150 long |
| Filenames.TruncateIdempotent | CWA-Ingest-Buddy/scripts/deduplication.py:31-38 | normalising a normalised name changes nothing (extension under 150 characters) |
| Filenames.TruncateLongExtension | main/scripts/deduplication3.py:39-41 | with an extension of 150 or more characters, the extension is kept, `len(ext) - 149` characters (or all) are cut from the end of the base, and the result is longer than 150 |
| SkipFilter.ShouldSkip | main/scripts/deduplication3.py:51-57 | true exactly when the name is an excluded name or ends with an excluded suffix |
| SampleText.Found | main/scripts/deduplication3.py:70 | the comprehension keeps exactly the positions that are not -1 |
| SampleText.Min | main/scripts/deduplication3.py:71 | `min` returns an element no greater than any other |
| SampleText.SampleStart | main/scripts/deduplication3.py:65-71 | the window starts at the first index where any marker occurs in the lower-cased text, or at 0 when no marker occurs anywhere |
| SampleText.StartIsFirstMarker | main/scripts/deduplication3.py:66-71 | the least found position is a marker occurrence with none before it; no found position means no occurrence at all |
| SampleText.WindowEnd | main/scripts/deduplication3.py:73 | the slice end `start + 1000`, clamped to the text: the window is 1000 long unless it reaches the end |
| SampleText.Sample | main/scripts/deduplication3.py:73 | the excerpt is at most 1000 characters and has no whitespace at either end |
| SampleText.SampleIsStrippedWindow | main/scripts/deduplication3.py:73 | the excerpt is a piece of the content inside the window, and only whitespace of the window lies outside it |
| SampleText.StripOfSlice | main/scripts/deduplication3.py:73 | stripping the slice `content[a:e]` yields `content[i:i + n]`, with whitespace between `a` and `i` and between `i + n` and `e` |
| SampleText.SampleBeginsAtMarker | main/scripts/deduplication3.py:65-73 | when a marker occurs, the excerpt is non-empty and begins with the marker's first character |
| SampleText.StripKeepsFirst | main/scripts/deduplication3.py:73 | a window starting with a non-space keeps that character in front after `strip()` |
| SampleText.MarkerStartsWithLetter | main/scripts/deduplication3.py:65-68 | the character where a marker occurs is a letter in the content, so not whitespace |
| Metadata.FieldValue | main/scripts/deduplication3.py:91 | the value after the first `:` has no whitespace at either end |
| Metadata.ExtractMetadata | main/scripts/deduplication3.py:80-97 | returns `("", "")` when the tool fails or a labelled line has no `:`, and otherwise the values of the last `Title` line and the last `Author(s)` line |
| Metadata.ReadStep | main/scripts/deduplication3.py:89-93 | one more line makes the output malformed exactly when that line is a labelled line without `:` |
| Metadata.LastValueStep | main/scripts/deduplication3.py:89-93 | one more line overrides a field exactly when it starts with that field's label, and otherwise leaves the field as it was |
| Metadata.MalformedSomewhere | main/scripts/deduplication3.py:91-97 | one labelled line without `:` anywhere in the output makes the result `("", "")` |
| Metadata.LabelsExclusive | main/scripts/deduplication3.py:90-93 | no line starts with both labels, so the `elif` drops nothing |
| Metadata.LastValueIsLast | main/scripts/deduplication3.py:89-93 | the later assignment wins: the field is the value of the last line with its label |
| Metadata.LastValueAbsent | main/scripts/deduplication3.py:87-88 | with no line carrying the label, the field stays `""` |
| Metadata.FieldsAreStripped | main/scripts/deduplication3.py:91-93 | both extracted fields have no whitespace at either end |
| BookStore.AppendKeepsDistinct | main/scripts/deduplication3.py:148-156 | a row that passed Tier 1 keeps the table's hashes and original names pairwise distinct |
| BookStore.StoredRowMatches | main/scripts/deduplication3.py:148-154 | a row holding the hash or the original name makes Tier 1 match |
| FuzzyMatch.Matches | main/scripts/deduplication3.py:110-118 | at most one suspect per stored row |
| FuzzyMatch.CollectMatches | main/scripts/deduplication3.py:110-118 | the scan collects the suspect pairs of the stored rows in row order |
| FuzzyMatch.MatchesAppend | main/scripts/deduplication3.py:112-118 | the pairs for two runs of rows are those for the first run followed by those for the second |
| FuzzyMatch.MatchesExactly | main/scripts/deduplication3.py:112-118 | a pair is collected exactly when a row with a non-empty sample has that name and a score of at least 85 |
| IngestV3.Classify | main/scripts/deduplication3.py:139-203 | past the name filter and the hash read, the file has a hash; a copy or insert is only reached after a successful conversion |
| IngestV3.SuspectLines | main/scripts/deduplication3.py:120-123 | one log line per collected pair, in order, the k-th carrying the file name, the k-th pair's other file and its score |
| IngestV3.Library.FuzzyMatchText | main/scripts/deduplication3.py:109-124 | appends one fuzzy line per suspect row, in row order, and changes nothing else |
| IngestV3.Library.ProcessFile | main/scripts/deduplication3.py:139-203 | the table, log and copies after one file are exactly those `Step` gives; `ok` is false only when the hash read raised |
| IngestV3.Library.Admit | main/scripts/deduplication3.py:173-203 | for a file past both tiers, the table, log and copies afterwards are exactly those `Step` gives |
| IngestV3.Library.Ingest | main/scripts/deduplication3.py:139-208 | the state after the loop is exactly what `Run` gives, and the loop stops at the first unreadable file |
| IngestV3.SkipSets | main/scripts/deduplication3.py:18-19 | `.txt` and `.bak` files and `metadata.db` are skipped; upper-case suffixes and names merely containing `metadata.db` are not |
| IngestV3.SkippedBySuffix | main/scripts/deduplication3.py:54-56 | a name ending with an excluded suffix is skipped |
| IngestV3.NotSkipped | main/scripts/deduplication3.py:51-57 | a name that is no bookkeeping name and ends in a character no excluded suffix ends in is not skipped |
| IngestV3.RunStaysStopped | main/scripts/deduplication3.py:145 | once a hash read raises, later files change nothing |
| IngestV3.StepAddsRowOnlyWhenAccepted | main/scripts/deduplication3.py:139-199 | a row is appended exactly when every stage passes, and it is `(name, truncated name, hash, sample, title, author)`; otherwise the table is unchanged |
| IngestV3.StepFailuresLogOneLine | main/scripts/deduplication3.py:167-203 | a metadata duplicate, a conversion failure and a copy or insert failure each log exactly their own line; copy and insert failures log it after the fuzzy lines; an insert failure still leaves the copy |
| IngestV3.StepPastTiers | main/scripts/deduplication3.py:173-203 | past the filter and both tiers, the outcome depends only on the conversion, the copy and the insert, as the four branches of the code give it |
| IngestV3.ConversionFailureStep | main/scripts/deduplication3.py:179-182 | a failed conversion logs one conversion line and changes nothing else |
| IngestV3.CopyFailureStep | main/scripts/deduplication3.py:188-203 | a failed copy logs the fuzzy lines, then one copy-failed line with the error, and copies nothing |
| IngestV3.InsertFailureStep | main/scripts/deduplication3.py:190-203 | a failed insert keeps the copy, logs the fuzzy lines and one copy-failed line, and adds no row |
| IngestV3.AcceptedStep | main/scripts/deduplication3.py:185-199 | a file through every stage adds its row and its copy, and logs only the fuzzy lines |
| IngestV3.ExactDuplicateSkipped | main/scripts/deduplication3.py:147-156 | a stored row with the file's name as original or truncated name, or with its hash, means no row, no copy and no log line |
| IngestV3.EmptyMetadataNeverDuplicate | main/scripts/deduplication3.py:162 | Tier 2 never fires when the title or the author is empty |
| IngestV3.SameTitleAndAuthorIsDuplicate | main/scripts/deduplication3.py:162-171 | a stored non-empty title-and-author pair makes the file a metadata duplicate, with no copy and no row |
| IngestV3.FuzzyIsAdvisory | main/scripts/deduplication3.py:187-199 | the rows, the copies and whether the loop goes on do not depend on the similarity scores |
| IngestV3.StepAppendOnly | main/scripts/deduplication3.py:139-203 | one file appends at most one row and only appends log lines and copies |
| IngestV3.RunAppendOnly | main/scripts/deduplication3.py:139-203 | rows, log lines and copies are only ever appended |
| IngestV3.RunKeepsHashesDistinct | main/scripts/deduplication3.py:148-199 | pairwise distinct hashes in the table stay so, whatever the names |
| IngestV3.RunKeepsNamesDistinct | main/scripts/deduplication3.py:148-199 | pairwise distinct original names in the table stay so, whatever the hashes |
| IngestV3.RepeatedContentAddsOnce | main/scripts/deduplication3.py:148-156 | a batch of files with the same content adds at most one row, and none if that hash is already stored |
| IngestV3.RepeatedNameAddsOnce | main/scripts/deduplication3.py:148-156 | a batch of files with the same name adds at most one row |
| IngestV3.RunCompletes | main/scripts/deduplication3.py:139-203 | duplicates and conversion, copy and insert failures never stop the loop |
| IngestLegacy.Library.ProcessFile | CWA-Ingest-Buddy/scripts/deduplication.py:66-100 | the rows and copies after one file are exactly those `Step` gives; `ok` is false only when the hash read raised |
| IngestLegacy.Library.Ingest | CWA-Ingest-Buddy/scripts/deduplication.py:66-100 | the state after the loop is exactly what `Run` gives, and the loop stops at the first unreadable file |
| IngestLegacy.Classify | CWA-Ingest-Buddy/scripts/deduplication.py:66-100 | past the name filter and the hash read, the file has a hash |
| IngestLegacy.RunStaysStopped | CWA-Ingest-Buddy/scripts/deduplication.py:72 | once a hash read raises, later files change nothing |
| IngestLegacy.TextFilesNotSkipped | CWA-Ingest-Buddy/scripts/deduplication.py:14-15 | this version does not skip `.txt` files but does skip `.part` downloads |
| IngestLegacy.ExactDuplicateSkipped | CWA-Ingest-Buddy/scripts/deduplication.py:74-83 | a stored row with the file's name as original or truncated name, or with its hash, means no row and no copy |
| IngestLegacy.StepOutcomes | CWA-Ingest-Buddy/scripts/deduplication.py:85-100 | a row `(name, truncated name, hash)` and a copy are added exactly when every stage passes; a copy failure changes nothing; an insert failure leaves the copy without a row |
| IngestLegacy.RunAppendOnly | CWA-Ingest-Buddy/scripts/deduplication.py:66-100 | rows and copies are only ever appended |
| IngestLegacy.RunKeepsHashesDistinct | CWA-Ingest-Buddy/scripts/deduplication.py:74-98 | pairwise distinct hashes in the table stay so, whatever the names |
| IngestLegacy.RunKeepsNamesDistinct | CWA-Ingest-Buddy/scripts/deduplication.py:74-98 | pairwise distinct original names in the table stay so, whatever the hashes |
| IngestLegacy.RepeatedContentAddsOnce | CWA-Ingest-Buddy/scripts/deduplication.py:74-83 | a batch of files with the same content adds at most one row |
| IngestLegacy.RepeatedNameAddsOnce | CWA-Ingest-Buddy/scripts/deduplication.py:74-83 | a batch of files with the same name adds at most one row |
| IngestLegacy.RunCompletes | CWA-Ingest-Buddy/scripts/deduplication.py:89-100 | copy and insert failures never stop the loop |
| IngestLegacy.TruncatedNameCollision | CWA-Ingest-Buddy/scripts/deduplication.py:31-98 | two 151-character `.epub` names differing only in their last base character pass the filter, both truncate to the same destination, both pass Tier 1 and are both recorded and copied there; the steps are the lemmas `CollisionNames`, `CollisionName`, `TruncatesTo`, `DropLast`, `NotExcluded`, `FirstOfTwo`, `SecondOfTwo`, `OneRowNoMatch`, `AcceptedStep` and `RunTwo` in the same module |
| IngestLegacy.SharedDestinationBothIngested | CWA-Ingest-Buddy/scripts/deduplication.py:74-98 | two files with different names and hashes, the second not named like the first one's truncated name, are both recorded and both copied |

## Left out

- Hashing: SHA-256 over the file bytes is not computed. A file's hash is an input, `None` when reading it raises.
- External tools: `ebook-meta` and `ebook-convert` are not run. Their outcome is an input: the tool's exit status and its stdout, and the converted text or a read failure.
- FuzzyMatch.Matches: `rapidfuzz`'s `partial_ratio` is not modelled. It is the abstract scoring function `score` with real values, and nothing beyond the threshold comparison is assumed of it.
- Strings.Lower: only ASCII letters are lower-cased. Python's Unicode case mapping is not modelled, including mappings that change a text's length.
- Filesystem effects: the copy (`shutil.copy2`), the temporary text files and their clean-up, and `os.makedirs` are not modelled. The copy is recorded as the destination name appended to `copied`, and its failure is an input.
- Printed progress messages are not modelled, since they change no state.
- Log line text: the wording of `failures.log` entries and the formatting of the score are not modelled. Each line is a `LogEvent` value holding its fields.
- A failure while writing `failures.log` is not modelled. In the source it would raise out of the loop.
- The directory listing and its order are the input list `files`. The early return of `main` on an empty folder is the empty list, which changes nothing.
- Reading `config.cfg` (`get_ingest_path`) is not modelled. The destination folder is given.
- Opening the database (`connect_db`) and closing it are not modelled. The table contents are the constructor's input.
- FuzzyMatch.CollectMatches: the `SELECT` in `fuzzy_match_text` has no `ORDER BY`, so SQLite does not fix the order of the rows. The model scans the rows in insertion order, which only decides the order of the fuzzy log lines.
- IngestV3.Library.ProcessFile: a failing `conn.commit()` after a successful insert is treated like a failing insert. The row is not kept, since the connection's rollback behaviour is not part of this model.
- IngestLegacy.Library.ProcessFile: likewise for the older script's commit.
