# WLASL database set-up: schema splitting and row planning

This project models the two pieces of logic in the sign-language
recognition project's database tooling that are more than plumbing.

- **Schema splitting** (`create_database.py`). The schema script is cut
  into a table-and-view section and a stored-procedure section.
  - `_parse_sql_commands` turns the table section into SQL statements. It
    drops comment, blank and `DELIMITER`/`USE `/`SHOW ` lines, keeps every
    other line verbatim, and closes a statement at each line whose stripped
    form ends in `;`.
  - The procedure section starts right after the first `DELIMITER //`.
    It ends at the next `DELIMITER ;` or the next `DELIMITER //`,
    whichever comes first, or at the end of the text. It is cut at `//`,
    each piece is stripped, and only non-empty pieces that mention
    `CREATE PROCEDURE` or `CREATE FUNCTION` are executed.
- **Row planning** (`populate_database.py`,
  `WLASLDatabaseManager.insert_words_and_videos`). The MySQL cursor is
  replaced by a log of events: word rows, video rows and commits. Given
  the parsed WLASL entries, the step:
  - skips entries without instances;
  - writes one word row per kept entry, with its sample count;
  - writes one video row per instance, carrying its video id (or a default), the
    optional duration, a train/val/test split from a random draw, and
    `downloaded = processed = false`;
  - commits every 100 words and once at the end.

  The step itself returns nothing and prints its three counters. The model
  returns them instead of printing them.

Modules:

- `Wrappers`: `Option`.
- `PyStr`: the Python string operations the script relies on. These are
  `strip` (Python's whitespace set), ASCII `upper`, `startswith`,
  `endswith`, `in`, `split(sep)` (which keeps empty pieces) and
  `sep.join`. `IndexOf` is the leftmost search that `split` makes.
- `SqlSchema`: `create_database.py`.
  - `_parse_sql_commands` is an imperative method. Its loop is proved
    against a specification function.
  - The section and procedure selection are pure functions.
- `Ingestion`: `populate_database.py`.
  - `insert_words_and_videos` is an imperative method with the source's
    two nested loops. It is proved equal to a specification function.
  - The log-shape invariants are lemmas about that function.

Inputs standing in for the outside world:

- `wordIds(k)` is the id the database reports for the `k`-th inserted
  word.
- `draws(n)` is the `n`-th value of `random.random()`.
- A parsed JSON object is a datatype whose fields distinguish a missing
  key (`Missing`), an explicit `null` (`Null`) and a value. This lets
  `.get(key, default)` be modelled exactly.

## Model

| member | source | states |
|---|---|---|
| SqlSchema.ParseSqlCommands | create_database.py:13-39 | The statements returned are the kept lines of `split('\n')`, grouped up to and including each line whose strip ends in `;`, each group joined with `\n`. A trailing group is never flushed. |
| SqlSchema.FilterMembers | create_database.py:18-31 | A line reaches a statement iff it is an input line that is not a comment, not blank and not a directive. |
| SqlSchema.GroupsPartition | create_database.py:31-37 | The closed statements' lines followed by the unfinished statement give back the kept lines in order. The unfinished one holds no `;` line. There is one statement per `;` line. Each statement's last line ends in `;` and no earlier one does. |
| SqlSchema.GroupLinesAreLines | create_database.py:31 | Every line of a statement is one of the kept lines. |
| SqlSchema.LinesHaveNoNewline | create_database.py:18 | No line cut from the text at `'\n'` contains `'\n'`. |
| SqlSchema.CommandShape | create_database.py:18-37 | Each returned statement, cut back at `'\n'`, gives input lines verbatim. None of them is a comment, blank or a directive. The last ends in `;` after strip and no earlier one does. |
| SqlSchema.CommandsNonEmpty | create_database.py:31-36 | No returned statement is the empty string. |
| SqlSchema.CommandsCoverKeptLines | create_database.py:18-39 | Joining the statements with `'\n'` gives exactly the kept lines up to the last `;` line. The kept lines after it are dropped, and none of them ends in `;`. |
| SqlSchema.CommandCount | create_database.py:33-36 | The number of statements is the number of kept lines ending in `;`. The result is empty iff there is none. |
| SqlSchema.TableCommands | create_database.py:91-99 | The table statements are one per `;` line among the kept lines of `parts[0]`, none for an empty section. None of them is empty, so the `if cmd` guard never skips one. Without a `DELIMITER //` the whole file is parsed. |
| SqlSchema.ProcedureSection | create_database.py:91-113 | A procedure section exists iff the text holds a `DELIMITER //`. It holds neither `DELIMITER //` nor `DELIMITER ;`. |
| SqlSchema.ProceduresToCreate | create_database.py:111-120 | Nothing is executed without a procedure section. Every executed text is non-empty, already stripped and defines a routine. |
| SqlSchema.StrippedPieces | create_database.py:116 | Every candidate is non-empty and is the strip of some piece. Every piece whose strip is non-empty contributes it. |
| SqlSchema.RoutineDefinitions | create_database.py:119-120 | A candidate is executed iff it is non-empty and mentions `CREATE PROCEDURE` or `CREATE FUNCTION` once upper-cased. |
| SqlSchema.SectionBetween | create_database.py:91-113 | When `DELIMITER //` occurs, `parts[1].split('DELIMITER ;')[0]` is the double cut of the text right after the first occurrence. |
| SqlSchema.CutTwice | create_database.py:113 | The double cut is a prefix of the text that contains neither marker. It ends at the end of the text, at a `DELIMITER //` or at a `DELIMITER ;`. |
| SqlSchema.SectionsLocated | create_database.py:91-113 | The table section is the text before the first `DELIMITER //` (all of it if there is none). A procedure section exists iff the marker occurs. It runs from after the marker to the next `DELIMITER //` or `DELIMITER ;`, so later sections are ignored. |
| SqlSchema.ProceduresToCreateIff | create_database.py:111-120 | A text is executed as a procedure iff a section exists and the text is the non-empty strip of one of its `//` pieces that defines a routine. |
| SqlSchema.ProcedureShape | create_database.py:113-120 | Every executed procedure is non-empty and already stripped. It contains no `//`, defines a routine, and occurs inside the procedure section. |
| PyStr.Upper | create_database.py:28 | `upper()` keeps the length, maps each ASCII lower-case letter to the letter 32 code points below, keeps every other character, and leaves no lower-case ASCII letter. |
| PyStr.UpperIdempotent | create_database.py:120 | Upper-casing twice equals upper-casing once. Text without lower-case letters is unchanged. |
| PyStr.StartsWith | create_database.py:20-28 | `s.startswith(p)` holds iff `s` is `p` followed by the rest of `s`. |
| PyStr.EndsWith | create_database.py:34 | `s.endswith(p)` holds iff `s` is some text followed by `p`. |
| PyStr.Contains | create_database.py:120 | The empty pattern is in every text. A pattern in a text is no longer than the text. |
| PyStr.AffixesOccur | create_database.py:20-34 | A prefix found by `startswith` occurs at offset 0, and a suffix found by `endswith` occurs at the end, so both are `in` the text. |
| PyStr.IndexOfContains | create_database.py:120 | `pat in s` holds exactly when the leftmost search finds `pat`. |
| PyStr.JoinShape | create_database.py:35 | `sep.join(parts)` is empty for no parts. Otherwise it starts with the first part, ends with the last, and is as long as the parts plus `len(parts) - 1` separators. |
| PyStr.Strip | create_database.py:20-34 | `strip()` leaves a substring with only whitespace cut off on either side. It neither starts nor ends with whitespace. It is empty iff the line is all whitespace. |
| PyStr.StripIdempotent | create_database.py:116 | Stripping a stripped piece changes nothing. |
| PyStr.IndexOf | create_database.py:91 | The leftmost search inside `split` finds the first occurrence of the separator, or reports that there is none. |
| PyStr.Split | create_database.py:18 | `split(sep)` gives at least one piece, and no piece contains the separator. |
| PyStr.SplitJoin | create_database.py:18 | Joining the pieces of a split with the same separator gives the text back. |
| PyStr.JoinSplitChar | create_database.py:35 | A statement joined with `'\n'` from lines without `'\n'` splits back into those lines. |
| PyStr.SplitPiecesOccur | create_database.py:116 | Every piece of a split occurs in the text. |
| PyStr.FirstPieceEnd | create_database.py:91-113 | Without the separator the split is the whole text. Otherwise the first separator follows the first piece, and the second piece is the first piece of what follows. |
| Ingestion.InsertWordsAndVideos | populate_database.py:89-188 | The log and counters are exactly what the specification `Ingest` plans. Words plus skipped equals the number of entries. Videos equals the instances of kept entries. The log holds `words / 100 + 1` commits and ends with the final commit. |
| Ingestion.Ingest | populate_database.py:103-179 | After the loop and the final commit, the log ends with that commit. Every entry is counted once, as a word or as skipped. |
| Ingestion.VisitAppends | populate_database.py:103-176 | One iteration only appends to the log. It counts its entry once. A skipped entry logs nothing. A kept entry's word row comes first, and all its instances are counted as videos. |
| Ingestion.GetOr | populate_database.py:104-133 | `dict.get(key, default)` gives the default for a missing key, `None` for a JSON null and the stored value otherwise. |
| Ingestion.VideoIdOf | populate_database.py:132 | `video_id` is the stored id, `None` for an explicit null, and `f"{gloss}_{idx}"` when the key is missing. |
| Ingestion.UrlOf | populate_database.py:133 | `url` is the stored url, `None` for an explicit null, and `''` when the key is missing. |
| Ingestion.IngestCounts | populate_database.py:98-171 | `total_words` is the number of kept entries and `total_words + skipped_words` the number of entries. `total_videos` is the sum of the kept entries' instance counts. |
| Ingestion.SkipEntry | populate_database.py:104-110 | An entry whose `instances` is missing, `null` or empty adds no event and moves only `skipped_words`. |
| Ingestion.KeepEntry | populate_database.py:112-176 | A kept entry appends a word row with `sample_count == len(instances)`, then its video rows under the reported word id, then a commit exactly when the new word count is a multiple of 100. |
| Ingestion.VideoRowsLength | populate_database.py:131 | A word has one video row per instance. |
| Ingestion.VideoRowsAt | populate_database.py:131-171 | Video row `j` carries the word id; the instance's `video_id`, or `f"{gloss}_{j}"` when the key is missing; the url, or `''` when missing; the duration, fps and signer id; the split of draw `base + j`; and `downloaded = processed = false`. |
| Ingestion.Duration | populate_database.py:139-142 | The duration is present iff fps is present and non-zero and both frame bounds are present. A `frame_start` of 0 counts. It is then the frame span divided by fps. |
| Ingestion.SplitOf | populate_database.py:144-151 | The comparisons are made against the doubles the literals denote: `T70 = 6305039478318694 / 2^53` and `T85 = 7656119366529843 / 2^53`. The split is `train` iff `r < T70`, `val` iff `T70 <= r < T85`, and `test` iff `r >= T85`. |
| Ingestion.SplitThresholds | populate_database.py:146-148 | Both threshold doubles lie within `2^-53` below `0.70` and `0.85`. A draw equal to a threshold double goes to the next split. |
| Ingestion.NatToStringInjective | populate_database.py:132 | Different indices render as different decimal strings. |
| Ingestion.DefaultVideoIdsDistinct | populate_database.py:132 | Two instances of one word that both lack `video_id` get different default ids. |
| Ingestion.VideoRowsFrom | populate_database.py:159-171 | Video rows of the latest word, as many as its word row announces and each made from the next draw, fit after the events before them. They add only to the video count and leave no row announced. |
| Ingestion.VideoRowsFit | populate_database.py:131-171 | A word's video rows keep the log fitting, add one video each and complete the word. |
| Ingestion.CommitStep | populate_database.py:173-175 | The conditional commit, made between words, keeps the commit count at `words / 100` and fits. |
| Ingestion.VisitShaped | populate_database.py:103-176 | One iteration of the entry loop keeps the invariant. The log counts `words` word rows, `videos` video rows and `words / 100` commits, no word awaits video rows, and every event fits what precedes it. |
| Ingestion.PrefixLogShape | populate_database.py:103-176 | The invariant holds after the loop over any prefix of the entries. |
| Ingestion.IngestLogShape | populate_database.py:173-179 | The final log has one word row per kept entry, one video row per kept instance, and `words / 100 + 1` commits, the last of them at the end. Every earlier event fits what precedes it. A word row has `sample_count >= 1` and comes only once the previous word's video rows are all in. A video row is one the latest word row still announces; it has that word's id, its own draw's split and both flags false. The `c+1`-th commit comes between words, exactly when `100 * (c+1)` words are in. So each word row is followed by exactly `sample_count` video rows. |

## Left out

- MySQL is not modelled. This covers the connections, `cursor.execute`, `fetchone`, commit and rollback, and the error handling.
  - The id of an inserted word, including the `lastrowid == 0` re-lookup (populate_database.py:121-126), is the input `wordIds`.
  - The `except Error` rollback path (populate_database.py:186-188) is not modelled.
  - So are the "already exists" filtering and the `commands_executed` / `proc_count` counters (create_database.py:97-108, 118-125), all of which depend on the database's answers.
- `random.random()` is the input `draws`; the random generator itself is not modelled.
- Reading the schema file, the password prompt and all console output are I/O and are not modelled.
- `parse_wlasl_json` only wraps `json.load`. The model starts from its already-parsed result, and the JSON value types are restricted to the keys the step reads.
- `get_database_statistics` and `export_connection_info` are SQL aggregation and file writing.
- database_queries.py is not part of this model. It consists of fixed SQL strings and printing.
- model.py is not part of this model. It is a Keras network computed in floating point.
- PyStr.Upper: only ASCII letters are upper-cased. Python's Unicode case mapping (`'ß'`, ligatures, other scripts) is left out.
- Ingestion.Duration: the division is exact `real` division, not IEEE floating point. `fps` and the frame numbers are taken as a real and integers; other JSON types are not modelled.
- Ingestion.Entry: `gloss` is a string or absent/`null`. A non-string gloss would render differently under `str()`.
- PyStr.Split: the separator is required to be non-empty. Python raises `ValueError` on an empty separator, and every call here uses a fixed non-empty one.
- SqlSchema.RoutineDefinitions: its contract states membership, not that input order is kept. Order is kept by its definition.
- SqlSchema.StrippedPieces: its contract states membership, not that input order is kept. Order is kept by its definition.
