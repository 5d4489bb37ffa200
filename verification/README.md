# PlayFab player collector: a Dafny model of its pure core

The collector fetches Mordhau player profiles from PlayFab and upserts them
into a MySQL table. This project models the deterministic parts of that
pipeline and proves properties about them:

- `PlayFabFetcher.format_timestamp`: a Unix timestamp becomes a
  `YYYY-MM-DD HH:MM:SS` UTC string. When `utcfromtimestamp` rejects the
  value, the result is its decimal text instead. The module `DateFormat`
  models this, on top of the proleptic Gregorian calendar in `Calendar`.
- `PlayFabFetcher.format_iso_to_sql_datetime`: an ISO 8601 account-creation
  time loses its `Z` and fraction and becomes the same SQL form. The
  function answers `None` when the input is missing or cannot be parsed.
  This is also in `DateFormat`.
- The manual-file branch of `get_playfab_ids`: one id per non-blank line of
  the file, stripped, in file order (`IdSource`).
- The normalisation inside `limited_fetch`:
  - the `stats` map leaves out the four casual-mode statistics, and the
    last value wins for a repeated name;
  - the two rank timestamps get `_formatted` copies;
  - a record is dropped when `PlayFabId` or `PlatformAccountId` is missing
    or empty, and whenever anything raises.

  `PlayerStats` and `PlayerRecords` model this.
- The `None` filter of `collect_all` (`PlayerRecords`), with the generic
  filter in `Optional`.
- `gatewayAPI.insert_into_database` (`Persistence`): a table keyed on
  `playfab_id` that receives one `INSERT ... ON DUPLICATE KEY UPDATE` per
  record, in list order. A statement that raises is skipped.

Module dependencies: `Optional`, `Text`, `Calendar` → `DateFormat` →
`PlayerStats` → `PlayerRecords` → `Persistence`; `IdSource` uses `Optional`
and `Text`.

Decisions on points the source leaves to the runtime:

- `utcfromtimestamp` is taken as CPython on Linux (glibc `gmtime_r`, 64-bit
  `time_t`), where it accepts exactly the timestamps whose UTC date falls in
  years 1 to 9999, that is -62135596800 ≤ t ≤ 253402300799. This is
  `DateFormat.InRange`. Anything else raises, and `str(t)` is returned.
- `%Y` is rendered as four digits.
- A file is read in text mode with universal newlines: `\n`, `\r\n` and a
  lone `\r` all end a line. `line.strip()` uses Python's `str.isspace`
  character set (`Text.IsSpace`).
- The stats comprehension reads `stat["StatisticName"]` of every entry to
  test the exclusion, and reads `stat["Value"]` only for kept entries. So a
  missing name always raises (the player is dropped), and a missing value
  raises only for a statistic that is not excluded.
- The identifier checks test truthiness (`if not entry["playfab_id"]`),
  so an empty identifier is rejected as well as a missing one.
- A string statistic under a timestamp key makes `utcfromtimestamp` raise
  `TypeError`, and `str` of that string is the string itself
  (`PlayerStats.FormatStat`).

## Model

| member | source | states |
|---|---|---|
| Optional.KeepSome | functions/GetPlayFabAPI.py:140 | the filtered list is no longer than the input, holds only values present in it, and keeps every present value |
| Optional.KeepSomeIsOrderedSelection | functions/GetPlayFabAPI.py:140 | the filter picks exactly the positions holding a value, strictly increasing, so it keeps all of them in their original order and nothing else |
| Optional.KeepSomeAppend | functions/GetPlayFabAPI.py:140 | filtering a concatenation filters each part independently |
| Optional.KeepSomeKeepsAll | functions/GetPlayFabAPI.py:140 | nothing is dropped exactly when every entry is present |
| Text.Strip | functions/GetPlayFabAPI.py:72 | the stripped text is a slice of the input with only whitespace cut on both sides; it starts and ends with a non-space, and it is empty exactly when the input is all whitespace |
| Text.NatToDecimal | functions/GetPlayFabAPI.py:32 | the decimal text of a natural is non-empty digits without a leading zero whose value is the number |
| Text.IntToDecimal | functions/GetPlayFabAPI.py:32 | `str` of an integer starts with `-` exactly when it is negative, and the rest is the magnitude's digits with no leading zero |
| Text.IntToDecimalRoundTrip | functions/GetPlayFabAPI.py:32 | parsing the decimal text back gives the same integer |
| Calendar.DaysBeforeYearNearMean | functions/GetPlayFabAPI.py:30 | the day count before a year stays within a few days of 146097/400 days per elapsed year |
| Calendar.YearOf | functions/GetPlayFabAPI.py:30 | the year found contains the given day ordinal |
| Calendar.FromOrdinal | functions/GetPlayFabAPI.py:30 | every ordinal of years 1 to 9999 names a valid date whose ordinal is that number |
| Calendar.FromOrdinalOfOrdinal | functions/GetPlayFabAPI.py:30 | every valid date has an in-range ordinal and is recovered from it, so ordinals number the dates without gaps or repeats |
| DateFormat.FromTimestamp | functions/GetPlayFabAPI.py:30 | an in-range timestamp becomes a valid UTC date-time whose seconds since the epoch are that timestamp |
| DateFormat.FromTimestampOfEpochSeconds | functions/GetPlayFabAPI.py:30 | every valid date-time is the conversion of its own timestamp |
| DateFormat.RenderSql | functions/GetPlayFabAPI.py:24 | the `strftime` rendering is 19 characters long, separates date and time with a space, and parses back to the same date-time |
| DateFormat.FormatTimestamp | functions/GetPlayFabAPI.py:28-32 | an in-range timestamp gives a 19-character string; any other value gives `str` of the integer, which parses back to it |
| DateFormat.FormatTimestampDenotesInstant | functions/GetPlayFabAPI.py:28-32 | an in-range result parses as `YYYY-MM-DD HH:MM:SS` with valid calendar and clock fields, and that date-time is the instant of the input timestamp |
| DateFormat.FormatTimestampOfEpochSeconds | functions/GetPlayFabAPI.py:30 | formatting a valid date-time's timestamp writes out that date-time |
| DateFormat.FormatTimestampExample | functions/GetPlayFabAPI.py:28-32 | 1700000000 gives `2023-11-14 22:13:20` |
| DateFormat.ParseIso | functions/GetPlayFabAPI.py:23 | an accepted ISO string denotes a valid date-time |
| DateFormat.ParseIsoOfRender | functions/GetPlayFabAPI.py:23-24 | rendering a valid date-time with `T` or a space and parsing it back gives the same date-time |
| DateFormat.ParseIsoOnlyRenderings | functions/GetPlayFabAPI.py:23-24 | every string the parser accepts in its full form is the rendering of what it parses to |
| DateFormat.RemoveZ | functions/GetPlayFabAPI.py:23 | `replace("Z", "")` leaves no `Z` and shortens the string by exactly the number of `Z`s it held |
| DateFormat.BeforeDot | functions/GetPlayFabAPI.py:23 | `split(".")[0]` is a prefix without `.`, followed in the input by a `.` unless it is the whole input |
| DateFormat.IsoToSql | functions/GetPlayFabAPI.py:19-26 | `None` and the empty string give `None`; any result is 19 characters long and parses as a valid date-time |
| DateFormat.IsoToSqlCharacterised | functions/GetPlayFabAPI.py:19-26 | for every input string: a result comes out exactly when the text left once every `Z` is removed and the fraction is cut is the ISO text of a date-time (full with `T` or a space, or a date alone for midnight), and the result is then that date-time in SQL form; every other string, the empty one included, gives `None` |
| DateFormat.IsoToSqlOfRfc3339 | functions/GetPlayFabAPI.py:19-26 | a timestamp `YYYY-MM-DDTHH:MM:SS` followed by an optional fraction and `Z` becomes the same date-time with a space separator |
| DateFormat.IsoToSqlExample | functions/GetPlayFabAPI.py:19-26 | `2020-01-01T12:34:56.789Z` gives `2020-01-01 12:34:56` |
| DateFormat.IsoToSqlIdempotent | functions/GetPlayFabAPI.py:19-26 | formatting an already formatted value gives it back |
| PlayerStats.BuildStats | functions/GetPlayFabAPI.py:103-108 | the comprehension succeeds exactly when every name, and every non-excluded value, is present; its map never holds an excluded name |
| PlayerStats.BuildStatsLastWins | functions/GetPlayFabAPI.py:104-108 | the keys are exactly the non-excluded names of the list, each with the value of its last occurrence |
| PlayerStats.FormatStat | functions/GetPlayFabAPI.py:112 | a string statistic is passed through unchanged; an integer outside the `utcfromtimestamp` range becomes its decimal `str`; one in range becomes a 19-character date-time, date and time separated by a space, that parses back to that UTC instant |
| PlayerStats.AddFormatted | functions/GetPlayFabAPI.py:110-112 | each rank timestamp present gains a `<key>_formatted` entry holding its formatted value; no other key is added and every other entry keeps its value |
| PlayerStats.AddFormattedTeamfightExample | functions/GetPlayFabAPI.py:110-112 | a Teamfight rank timestamp of 1700000000 gets the readable copy `2023-11-14 22:13:20` |
| PlayerStats.AddFormattedKeepsExclusion | functions/GetPlayFabAPI.py:104-112 | the `_formatted` entries never reintroduce an excluded name |
| PlayerRecords.Normalize | functions/GetPlayFabAPI.py:98-131 | a record comes out exactly when the account data decodes, the statistics are readable and both `PlayFabId` and `PlatformAccountId` are present and non-empty; it then carries the account fields and satisfies the record invariant; its creation time is the formatted `Created` value |
| PlayerRecords.NormalizeStats | functions/GetPlayFabAPI.py:103-112 | a record's stats hold exactly the list's non-excluded names plus a `_formatted` key per rank timestamp present; each name holds the value of its last occurrence unless a `_formatted` copy overwrote it, and each `_formatted` key holds its timestamp's last value, formatted |
| PlayerRecords.LimitedFetch | functions/GetPlayFabAPI.py:94-135 | a fetch gives a record exactly when the call returned and normalisation succeeded, that record is the normalised payload, and it satisfies the record invariant |
| PlayerRecords.Results | functions/GetPlayFabAPI.py:137-138 | `gather` gives one result per id, in id order |
| PlayerRecords.CollectAll | functions/GetPlayFabAPI.py:137-140 | there are never more records than ids, and every record kept satisfies the record invariant |
| PlayerRecords.CollectAllKeepsSuccessesInOrder | functions/GetPlayFabAPI.py:137-140 | the records are exactly the successful results, in id order |
| PlayerRecords.CollectAllAppend | functions/GetPlayFabAPI.py:137-140 | a failed id does not disturb the others: two batches collect to the concatenation of their records |
| PlayerRecords.CollectAllOneFailure | functions/GetPlayFabAPI.py:133-140 | with two ids, the first succeeding and the second failing, exactly the first record is collected |
| IdSource.TranslateNewlines | functions/GetPlayFabAPI.py:71-72 | text-mode reading leaves no `\r` in the text |
| IdSource.Segments | functions/GetPlayFabAPI.py:72 | cutting at newlines gives at least one piece, and no piece holds a newline |
| IdSource.Lines | functions/GetPlayFabAPI.py:71-72 | no line holds a line break |
| IdSource.TranslateNoBreaks | functions/GetPlayFabAPI.py:71-72 | text without line breaks is read unchanged |
| IdSource.TranslatePrefix | functions/GetPlayFabAPI.py:71-72 | break-free text at the front of a file is read unchanged, whatever follows it |
| IdSource.TranslateTerminated | functions/GetPlayFabAPI.py:71-72 | text-mode reading turns each line's terminator, `\n`, `\r\n` or `\r` in any mix, into `\n` and keeps every other character, for any file in which a lone `\r` is not directly followed by the `\n` of an empty line (that pair is itself one `\r\n`) |
| IdSource.JoinSegments | functions/GetPlayFabAPI.py:72 | cutting text at newlines loses nothing: the pieces joined with `\n` give the text back |
| IdSource.SegmentsJoin | functions/GetPlayFabAPI.py:72 | newline-free pieces joined with `\n` and cut again give the same pieces |
| IdSource.LinesOfFile | functions/GetPlayFabAPI.py:71-72 | a file of lines each with its own terminator, followed by a last line with or without one, reads back as exactly those lines, unless a lone `\r` is directly followed by the `\n` of an empty line, which reads as one `\r\n` |
| IdSource.LinesExample | functions/GetPlayFabAPI.py:71-72 | `a\nb`, without a final newline, gives the lines `a` and `b` |
| IdSource.MixedLinesExample | functions/GetPlayFabAPI.py:71-72 | `a\r\nb\nc\r` gives the lines `a`, `b` and `c` |
| IdSource.LoneReturnThenEmptyLineExample | functions/GetPlayFabAPI.py:71-72 | `a\r\r\n` gives the lines `a` and an empty one: a lone `\r` ends a line even when a `\r\n` follows |
| IdSource.TrimmedId | functions/GetPlayFabAPI.py:72 | a line gives no id exactly when it is blank |
| IdSource.ManualIds | functions/GetPlayFabAPI.py:72 | there are no more ids than lines, and each id is non-empty, without surrounding whitespace and without line breaks |
| IdSource.ManualIdsAreNonBlankLines | functions/GetPlayFabAPI.py:72 | the ids are the stripped non-blank lines, all of them, in file order |
| IdSource.ManualIdsSkipBlankLine | functions/GetPlayFabAPI.py:72 | two ids around a blank line give exactly those two ids, in order, whatever the newline convention |
| IdSource.ReadManualIds | functions/GetPlayFabAPI.py:71-73 | reading the lines one by one yields the id list |
| Persistence.RowOfParts | functions/gatewayAPI.py:58-67 | the write-once columns and the overwritten columns together determine the row |
| Persistence.Upsert | functions/gatewayAPI.py:56-78 | the key is added; no other row changes; the overwritten columns take the record's values; the write-once columns keep their old values, or take the record's for a new key |
| Persistence.UpsertNewRow | functions/gatewayAPI.py:58-77 | a new key gets a row with all seven values taken from the record |
| Persistence.UpsertIdempotent | functions/gatewayAPI.py:63-67 | upserting the same record twice gives the same table as upserting it once |
| Persistence.UpsertKeepsKeying | functions/gatewayAPI.py:58-70 | every row stays filed under its own `playfab_id` |
| Persistence.UpsertAll | functions/gatewayAPI.py:54-78 | after the statements of the list, the table's keys are the old ones plus the list's |
| Persistence.UpsertAllKeys | functions/gatewayAPI.py:54-78 | every row the list does not address is unchanged |
| Persistence.UpsertAllLastWins | functions/gatewayAPI.py:54-78 | records apply in list order: each key of the list ends with the overwritten columns of its last record |
| Persistence.UpsertAllWriteOnce | functions/gatewayAPI.py:54-78 | each key of the list keeps its earlier write-once columns or, for a new key, takes those of its first record |
| Persistence.UpsertAllIdempotent | functions/gatewayAPI.py:54-78 | writing the same list twice gives the same table as writing it once |
| Persistence.UpsertAllKeepsKeying | functions/gatewayAPI.py:54-78 | rows stay filed under their own key through the whole list |
| Persistence.UpsertAllNewRowsValid | functions/gatewayAPI.py:54-78 | when every record is valid, every row the list creates has a non-empty key and id and no excluded statistic |
| Persistence.Surviving | functions/gatewayAPI.py:54-81 | no more records survive than were sent, and each survivor is one of them |
| Persistence.SurvivingWithoutFailures | functions/gatewayAPI.py:54-81 | when no statement fails, every record goes through |
| Persistence.SurvivingAreTheNonFailing | functions/gatewayAPI.py:54-81 | the surviving records are exactly those whose statement did not raise, in list order |
| Persistence.InsertIntoDatabase | functions/gatewayAPI.py:51-81 | the loop that skips failing statements leaves the table as the upserts of the non-failing records, in order |
| Persistence.Run | functions/gatewayAPI.py:46-49 | a run never removes a row, and never creates one under an empty `playfab_id` |
| Persistence.RunWritesValidRows | functions/gatewayAPI.py:46-49 | a run keeps rows filed under their key, and every row it creates has a non-empty key and id and no excluded statistic |
| Persistence.WriteOneRecord | functions/gatewayAPI.py:56-78 | on an empty table, a single record that goes through gives exactly its own row |
| Persistence.RunOneFailure | functions/gatewayAPI.py:46-49 | on an empty table, two ids of which the second fails give one row, the first player's |

## Left out

- HTTP calls in `fetch_single_player` and login in `GetSessionTicket.py`.
  These are network I/O. A fetch is an input, `PlayerRecords.FetchOutcome`:
  a decoded payload, or a failure. The failure's message, including the
  "Erreur inconnue" fallback, only reaches a log line.
- JSON decoding of the response and of the double-encoded
  `AccountInfo.Value`. Library parsing is left out: the decoded account map
  is an input, `None` when the inner text is not a JSON object.
  `json.dumps` of the stats is left out too: the row stores the stats map
  itself. The text `json.dumps` writes also depends on key order, which
  is insertion order: each name at its first occurrence in
  `PlayerStatistics`, then the `_formatted` keys. The model does not track
  that order, so two records with equal maps give the same row here while
  their `stats_json` texts may differ.
- Statistic values other than integers and strings (floats, booleans,
  `null`). Upstream statistics are integers.
- `asyncio.gather` and the semaphore, together with the `semaphore_limit`
  setting. Concurrency does not change the result, because `gather`
  returns results in id order.
- The database branch of `get_playfab_ids`, the connection pool, `close`,
  and the real SQL execution. These are foreign I/O. Which statements
  raise is an input (`failed` positions), and a failed statement leaves
  the table unchanged. Other unique keys, column types, and MySQL
  collation, under which keys differing only in case collide, are not
  modelled: the table is a map keyed by the exact `playfab_id` text.
- The missing-file check of `get_playfab_ids`, which raises
  `FileNotFoundError`. The model takes the file's content as input.
- Configuration reading, `main.py`, `test.py` and all `print` logging.
  These are plumbing.
- `datetime.fromisoformat` beyond `YYYY-MM-DD` and
  `YYYY-MM-DD{T| }HH:MM:SS`. Shorter times, offsets, other separators and
  week dates are rejected by `DateFormat.ParseIso`, where Python may
  accept them.
- DateFormat.FormatTimestamp: the range of `utcfromtimestamp` on other
  platforms. On Windows a negative timestamp raises `OSError`, so
  `str(t)` would come back where the model gives a date-time.
- DateFormat.FormatTimestamp, DateFormat.IsoToSql,
  DateFormat.IsoToSqlIdempotent: years below 1000 are written with four
  zero-padded digits. glibc's `strftime` writes them without padding
  (`0999-01-01` gives `999-01-01 00:00:00`, which `fromisoformat` then
  rejects, so with glibc the idempotence fails for such years). Upstream
  timestamps are never that early.
- DateFormat.FormatTimestamp: Python 3.11 and later refuse `str` of an
  integer longer than 4300 digits (`ValueError`), so `format_timestamp`
  raises there while the model returns the digits. Decoding the upstream
  JSON enforces the same limit, so such a value never reaches it.
- PlayerRecords.Payload: the account fields are strings. A JSON number or
  `null` under `PlayFabId` or `PlatformAccountId` is not representable,
  and Python's truth test treats those differently (`0` is falsy, a
  non-zero number is truthy and would be stored).
- Text.IntToDecimal: only integer statistic values are rendered. Python's
  `str` of a float is not modelled.
