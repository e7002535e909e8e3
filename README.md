# Contest records: expiry filter and table loader

This project models the date-based lifecycle of the contest records that the
scraper of *Vagas TI* collects. Two programs run on them after scraping:

- **the cleaner** (`core/cleaner.py`) reads the stored records, drops those
  with no `start_date` and those whose start date is already past, keeps the
  rest in order, and reports how many it removed for each reason;
- **the loader** (`database.py`) upserts every record as a row of the
  `concursos` table with status `'Aberto'`, counting inserted and updated
  rows, and then marks `'Encerrado'` every row whose start date has passed,
  returning how many rows it changed.

Both parse `start_date` with `datetime.strptime(text, "%d/%m/%Y")`, modelled
once in `Dates.ParseDate`. It follows the regular expressions of
`strptime`:
- `%d` is `3[01]|[12]\d|0[1-9]|[1-9]| [1-9]`, so `05`, `5` and ` 5` are all day 5;
- `%m` is `1[0-2]|0[1-9]|[1-9]`;
- `%Y` is exactly four digits;
- the three fields must fill the whole text;
- the triple must be a real date of Python's range (years 1 to 9999, leap
  years, month lengths).

`Dates.ParseDateCharacterised` proves that the parser accepts exactly the
spellings of real dates.

Files:
- `wrappers.dfy`: `Option`.
- `json.dfy`: JSON values as decoded by Python, with their truthiness. A
  number or boolean carries the text the connector sends for it; an array or
  object is known only by its truthiness (the connector cannot send one).
- `dates.dfy`: dates, `ValidDate`, ordering and the parser.
- `cleaner.dfy`: the filter loop of `clean_data` and its properties.
- `database.dfy`: rows, the upsert, the `insert_data` loop and the expiry
  UPDATE, on a `Table` class whose `rows` field stands for the MySQL table.

Parameters instead of the environment:
- `today` stands for `datetime.today().date()` and `CURDATE()`.
- `fromIso` stands for `datetime.fromisoformat`, whose accepted syntax
  depends on the Python version.
- `fails` says whether the UPDATE statement (or its commit) raises.
- `Table.titleInKey` says whether the table's unique key is `url` or
  `(title, url)`. The schema is not part of this model, and the UPDATE clause
  of the upsert leaves `url` alone.

Modelling choices:
- A row holds what MySQL stores: NULL or the text sent for each value, so
  `"url": 5` and `"url": "5"` are one key, `5` and `7` two.
- A unique-key column holding NULL never collides, as in MySQL, so such rows
  are always inserted.
- The reported row count follows MySQL's affected-rows rule: 1 for a new row,
  2 for an updated row, 0 for a duplicate whose values are already the same.
  That rule assumes a connection without `CLIENT_FOUND_ROWS`.

## Model

| member | source | states |
|---|---|---|
| `Dates.DaysInMonth` | core/cleaner.py:7 | month lengths are 28 to 31 days, and 29 only for February of a leap year |
| `Dates.ValidDate` | core/cleaner.py:7 | a real date has a day from 1 to 31, is 29 February only in a leap year, and is a 31st only in a 31-day month |
| `Dates.Before` | core/cleaner.py:35 | an earlier date is a different date with a year no later, and a date in an earlier year is always earlier |
| `Dates.DayField` | core/cleaner.py:7 | `%d` reads one or two characters without `/` as a day from 1 to 31, and a two-digit field is the zero-padded text of that day |
| `Dates.MonthField` | core/cleaner.py:7 | `%m` reads one or two characters without `/` as a month from 1 to 12, and a two-character field is the zero-padded text of that month |
| `Dates.YearField` | core/cleaner.py:7 | `%Y` reads exactly four digits, and the field is the four-digit text of the year it yields |
| `Dates.ParseDate` | core/cleaner.py:6-7 | whatever text is given, a parsed result is a real calendar date |
| `Dates.ParseSpelling` | core/cleaner.py:6-7 | every way `%d/%m/%Y` can spell a real date (padded, bare or space-padded day; padded or bare month; four-digit year) parses back to that date |
| `Dates.ParsedIsSpelling` | core/cleaner.py:6-7 | only such spellings parse: a parsed text is a spelling of the date it yields |
| `Dates.ParseDateCharacterised` | core/cleaner.py:6-7 | `ParseDate(s) == Some(d)` if and only if `d` is a real date and `s` is one of its spellings |
| `Dates.ParseFormatDate` | core/cleaner.py:7 | the zero-padded `DD/MM/YYYY` text of a real date reads back as that date |
| `Dates.ParseRefusesInvalidTriple` | core/cleaner.py:7 | a text that is well formed but names a day past its month's end, or year 0, is refused |
| `Dates.ParseNeedsSeparators` | core/cleaner.py:7 | a text without the `/` separators is refused |
| `Dates.ParseRefusesImpossibleDates` | core/cleaner.py:7 | `31/02/2025`, `29/02/2025` and `01/01/0000` are refused |
| `Dates.ParseAcceptsExamples` | core/cleaner.py:7 | `29/02/2024` and the single-digit `5/6/2025` are accepted with the right dates |
| `Dates.StrToDate` | core/cleaner.py:6-7 | only a string can yield a date, and the date it yields is a real one |
| `Dates.BeforeIsStrictTotalOrder` | core/cleaner.py:35 | the date comparison is irreflexive, asymmetric, transitive and total |
| `Json.IsFalsy` | core/cleaner.py:29 | `not v` holds for null and, for a string, exactly when it is empty |
| `Cleaner.Classify` | core/cleaner.py:26-42 | a record is removed as empty exactly when its `start_date` is falsy or missing; removed as expired only with a parsed date before today; kept as open only with a parsed date on or after today; kept unparsed or removed as empty exactly when the parse fails |
| `Cleaner.CleanData` | core/cleaner.py:18-44 | the loop returns the kept records and both removal counters, and `original_count == removed_empty + removed_expired + len(cleaned_list)` |
| `Cleaner.Cleaned` | core/cleaner.py:21-44 | the filter never returns more records than it reads |
| `Cleaner.Count` | core/cleaner.py:22-37 | no verdict is counted more often than there are records |
| `Cleaner.ClassifyDated` | core/cleaner.py:34-37 | a record dated with a real date is removed exactly when that date is strictly before today |
| `Cleaner.DatedTodayIsKept` | core/cleaner.py:35 | a record dated today is kept |
| `Cleaner.ClassifyUnparsable` | core/cleaner.py:38-42 | a present, truthy `start_date` that spells no real date, or is not a string, is kept |
| `Cleaner.CountedUnderVerdict` | core/cleaner.py:25-37 | every record is counted under its own verdict |
| `Cleaner.EmptyStartDateIsRemoved` | core/cleaner.py:26-31 | a record with a missing, null or empty `start_date` is absent from the output and counted in `removed_empty` |
| `Cleaner.ExpiredIsRemoved` | core/cleaner.py:34-37 | a record dated strictly before today is absent from the output and counted in `removed_expired` |
| `Cleaner.CleanedIsSubsequence` | core/cleaner.py:21-44 | the output is an order-preserving subsequence of the input, made of the input's records unchanged |
| `Cleaner.CleanedMultiplicity` | core/cleaner.py:25-44 | a kept record occurs in the output as often as in the input, and a removed record does not occur at all |
| `Cleaner.CleanedMembers` | core/cleaner.py:25-44 | a record is in the output if and only if it is in the input and kept |
| `Cleaner.Conservation` | core/cleaner.py:19-55 | the number of records read equals the two removal counts plus the number kept |
| `Cleaner.CleanedIdempotent` | core/cleaner.py:25-44 | filtering the output again with the same `today` returns it unchanged and removes nothing |
| `Database.StoredColumnsEqual` | database.py:95-104 | two sendable values are stored as the same column exactly when both are null or both are non-null with the same sent text, so `"url": 5` and `"url": "5"` store one key |
| `Database.NumberAndItsTextStoreAlike` | database.py:95-104 | the number `5` and the string `"5"` are stored alike, and `5` and `7` are not |
| `Database.Convertible` | database.py:95-104 | null, strings, numbers and booleans are values the connector can send as parameters |
| `Database.ProcessedAt` | database.py:87 | `processed_at` yields a timestamp only when it is present and a string, and then it is `fromisoformat` of that string |
| `Database.StartDate` | database.py:89-93 | a stored start date comes from a present string `start_date` and is a real date |
| `Database.ToRow` | database.py:85-104 | every row built from an item has status `'Aberto'`, and its url is NULL exactly when the item's is null |
| `Database.ToRowSkips` | database.py:85-113 | an item is skipped exactly when `processed_at` is missing, not a string or not ISO text, one of `title`, `url`, `state`, `pdf_url` is missing, or a value sent is an array or object |
| `Database.DistinctUrlTextsAreDistinct` | database.py:95-104 | two items whose numeric urls send different texts write rows with different urls |
| `Database.StartDateNeverSkips` | database.py:89-93 | changing or removing `start_date` never changes whether an item is written |
| `Database.SpelledStartDateIsStored` | database.py:89-90 | a `start_date` that spells a real date is stored as that date |
| `Database.BadStartDateIsNull` | database.py:89-93 | a missing, non-string or unparsable `start_date` is stored as NULL |
| `Database.SameKey` | database.py:70-72 | two rows share the unique key only when the url is non-NULL and equal, and, when the key includes `title`, the title is non-NULL and equal too |
| `Database.FindDuplicate` | database.py:70-72 | the colliding row found shares the new row's unique key, and when none is found no row does |
| `Database.Merge` | database.py:72-79 | the duplicate-key update keeps the stored url, sets status `'Aberto'`, and on a row with the same url writes exactly the new row |
| `Database.Upsert` | database.py:69-80 | the reported row count is at most 2, and the table grows by one row exactly when it is 1 |
| `Database.UpsertEffect` | database.py:69-80 | count 1 appends the row exactly when no key collides; otherwise one colliding row is replaced, count 0 exactly when nothing changed; the written row, status `'Aberto'`, is in the table |
| `Database.UpsertKeepsKeysUnique` | database.py:72-79 | the upsert keeps the unique key unique |
| `Database.UpsertKeepsOtherRows` | database.py:72-79 | a row whose key the new row does not share survives the upsert |
| `Database.SkippedItemIsNoOp` | database.py:111-113 | a skipped item leaves table and counters exactly as if it were absent, and the loop goes on |
| `Database.Step` | database.py:85-109 | one item moves each counter by at most one |
| `Database.Run` | database.py:82-109 | the counters never decrease over a batch |
| `Database.RunCounts` | database.py:82-109 | each insert adds exactly one row and at most one counter moves per item |
| `Database.RunCountsFrom` | database.py:82-109 | `inserted_count + updated_count <= len(data)`, and the table grows by exactly `inserted_count` |
| `Database.RunShift` | database.py:82-109 | the counting of a batch does not depend on where the insert counter starts |
| `Database.RunWritesOpen` | database.py:79-103 | after the batch every row is either an untouched earlier row or one written with status `'Aberto'` |
| `Database.AcceptedItemIsStored` | database.py:85-109 | an item that is not skipped is stored as its row unless a later item collides with it on the key |
| `Database.RunKeepsKeysUnique` | database.py:85-109 | the whole batch keeps the unique key unique |
| `Database.Expirable` | database.py:129-131 | a row the WHERE clause selects really changes when closed, and a row with a past start date that it does not select is already `'Encerrado'` |
| `Database.ExpireAll` | database.py:126-132 | after the UPDATE, every row with a non-NULL start date before today is `'Encerrado'`; every other row is unchanged; no column but `status` changes |
| `Database.CountExpirable` | database.py:129-136 | the number of selected rows never exceeds the number of rows |
| `Database.Changed` | database.py:136 | at most every row changes, and equal tables differ in no row |
| `Database.ExpireAllReportsChanges` | database.py:129-136 | the count the UPDATE reports equals the number of rows it changed |
| `Database.NoneExpirable` | database.py:127-131 | a table where the WHERE clause selects no row reports 0 |
| `Database.SecondUpdateIsNoOp` | database.py:126-136 | an immediate second UPDATE selects no row and leaves the table unchanged |
| `Database.Table.Execute` | database.py:95-109 | one `cursor.execute` of the upsert changes the table as the upsert says, keeps the key unique and returns its row count |
| `Database.Table.InsertData` | database.py:66-118 | `insert_data` leaves the table and the two counters its per-item steps give, with `inserted + updated <= len(data)` and the table grown by `inserted` |
| `Database.Table.UpdateExpired` | database.py:120-148 | on success the table is the expired view of the old table and the result is the number of rows changed; on error the table is unchanged and the result is 0 |

## Left out

- Reading and writing the JSON file in `clean_data` (core/cleaner.py:11-16, 47-48), and `load_data`: file I/O. The records are a parameter, and the missing-file early return is not modelled.
- The summary lines `clean_data` prints, its error message for a date it cannot parse (core/cleaner.py:39), and all logging of `database.py`. They are output only.
- The MySQL connection, cursor, commits, `DB_CONFIG`, `.env` loading and `main` of `database.py`: these are foreign calls. The table is an in-memory sequence of rows.
- `analyze_and_update_status` only logs around `update_expired_concursos` and returns its count. `Database.Table.UpdateExpired` covers it.
- `get_status_summary`: a `GROUP BY` query whose result is only logged.
- `datetime.fromisoformat`: it is the parameter `fromIso`, because its accepted syntax differs between Python versions.
- Unicode digits: Python's `\d` in `strptime` also matches non-ASCII decimal digits, and the model accepts ASCII digits only.
- Records that are not JSON objects (a bare string in the list, say): the model's records are always objects. In `clean_data` such a record makes `entry.get` raise and ends the program. In `insert_data` the except handler's own `item.get` (database.py:112) raises, which aborts the whole batch before `conn.commit()` (database.py:115), so nothing from the batch is stored.
- MySQL's collation rules: case-, accent- and (for PAD SPACE collations) trailing-space-insensitive comparison in the unique key and in `status != 'Encerrado'`. The model compares exactly.
- SQL three-valued logic for a NULL `status`: `status` is modelled as a non-null string.
- Database-side refusals of a row (NOT NULL, type or length constraints of a schema that is not part of this model): the model accepts every row whose values the connector can send. The exact text the connector sends for a number or boolean is taken as given, not computed.
- Database.ToRowSkips: states an item's fate only up to the database accepting the row, for the same reason.
- The `processed_at` column is assumed to store the timestamp losslessly, fractional seconds included. A DATETIME column of lower precision would round it, and a duplicate whose only difference is a sub-second part would then report 0 instead of 2.
- A connection opened with `CLIENT_FOUND_ROWS`, where an unchanged duplicate reports 1 and is counted as inserted.
- `main.py` (running the scraper, cleaner and loader as child processes) and `base.py` (the keyword list): orchestration and configuration data. The scraper itself is not part of this model.
