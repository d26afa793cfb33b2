# Chemical equipment summaries: upload, bounded history, report

This project models the two endpoints of the equipment-analysis backend in
`backend/api/views.py`, then proves properties about them.

`upload_csv` receives a CSV file of equipment readings and works in four steps:

- It summarises the rows. The summary holds the row count, the three rounded column means and the per-type count of the `Type` column.
- It stores the summary as one row of the SQLite table `Instruments`, with the distribution as its JSON text.
- It deletes every row except the five most recent by `uploaded_at`.
- It returns the summary.

`generate_pdf` reads the most recent row, decodes the distribution and lays it out as a PDF. The layout is a title, six header lines and one `type: count` line per equipment type. When the table has no row, it answers 404 "No data available".

The modules follow the pipeline:

- `Wrappers`: `Option`.
- `Ranking`: a descending insertion sort with a rank function. It gives the order both `value_counts` and `ORDER BY uploaded_at DESC` produce. It also proves that the sort is a permutation and that an element's position equals the number of elements above it.
- `Decimal`: `str` of a non-negative integer and its inverse.
- `Summarizer`: rows, the per-type count (`value_counts`) and the summary.
- `DistributionJson`: `json.dumps` of the distribution (with `ensure_ascii`), and a reader shaped like `json.loads`. The reader proves the round trip.
- `History`: the `Instruments` table. It covers the AUTOINCREMENT id, the insert and the keep-five prune, plus the `ORDER BY uploaded_at DESC LIMIT 1` query.
- `Report`: the report as an ordered list of styled paragraphs, with a reader that recovers the report's content from them.
- `Api`: the two endpoints over a database value, and the end-to-end properties.

The outside world enters as parameters:

- the request's file, already parsed into rows, or absent;
- the database, passed in and handed back;
- the timestamp `CURRENT_TIMESTAMP` gives the new row, as a `nat`;
- the rounded column mean, as a function `mean`.

Choices where the code leaves something open or behaves unexpectedly:

- pandas reads a blank `Type` cell as NaN, and also one holding a default missing-value string such as `NA`, `null` or `NaN`. `value_counts` drops those cells. So the counts sum to `total_count` only when no Type cell is NaN; the model follows the code.
- The code does not check for a file with no rows before storing it. The means are NaN, the distribution is empty and the row is stored and committed. The response then fails, because the NaN averages cannot be rendered as JSON (see Left out). The model stores the row and answers with the summary.
- The code breaks no ties. Types with equal counts are listed in the order `Ranking` leaves them, since pandas does not specify that order. Rows with equal `uploaded_at` are ordered newest id first; the SQL leaves that order open.
- Before the first upload the `Instruments` table does not exist. There `generate_pdf` fails instead of answering 404 (see Findings).

## Model

| member | source | states |
|---|---|---|
| Summarizer.Summarize | backend/api/views.py:28-38 | `total_count` is the number of rows. The distribution's keys are exactly the types that occur, each with its number of rows, which is at least 1. As a mapping it equals `value_counts`. Its counts plus the blank cells add up to `total_count`. It is listed by count, highest first. The averages are the mean of each column. |
| Summarizer.Tally | backend/api/views.py:28-30 | Grouping by type gives distinct keys, exactly the types that occur, and each key's count is its number of rows. The counts plus the blank cells equal the number of rows. |
| Summarizer.Increment | backend/api/views.py:29 | Counting one more row of a type raises that type's count by one, leaves every other count alone, and raises the total by one. |
| Summarizer.IncrementKeys | backend/api/views.py:29 | Counting a row adds its type to the keys and keeps the keys distinct. |
| Summarizer.SortKeepsDict | backend/api/views.py:29 | Ordering the counts by size keeps the same keys, still distinct, with the same count for each key. |
| Summarizer.SortedDistribution | backend/api/views.py:28-30 | The sorted tally is the distribution `value_counts` describes, and its total is kept. |
| Summarizer.SingleType | backend/api/views.py:28-33 | Rows that all have one type summarise to that single type with count `total_count`. |
| Summarizer.PumpsAndValve | backend/api/views.py:28-33 | Two Pump rows and one Valve row give `total_count` 3 and the distribution Pump: 2, Valve: 1 in that order. |
| Ranking.SortDesc | backend/api/views.py:29 | The sorted sequence has the same elements and length, in descending rank order. A sequence without repeats stays without repeats. |
| Ranking.SortPermutes | backend/api/views.py:29 | Sorting is a permutation: the multiset of elements is unchanged. |
| Decimal.Show | backend/api/views.py:70 | `str(n)` is a non-empty digit string with no leading zero unless `n` is 0. |
| Decimal.ReadShow | backend/api/views.py:116 | Reading back the decimal text of `n` gives `n`. |
| DistributionJson.Encode | backend/api/views.py:70 | `json.dumps` of the distribution: an object with members `"key": count` in the dict's order, separated by `, `, and with `ensure_ascii` nothing but printable ASCII. `DecodeEncode` inverts it. |
| DistributionJson.EscapeChar | backend/api/views.py:70 | With `ensure_ascii`, every character is written as printable ASCII. |
| DistributionJson.ReadEscaped | backend/api/views.py:70 | Reading an escaped string up to its closing quote gives back the original characters, including those written as surrogate pairs. |
| DistributionJson.Decode | backend/api/views.py:116 | `json.loads` restricted to objects of non-negative integers. It accepts only text that is an object, and what it gives back is a dict: no key occurs twice. It gives back what `Encode` wrote. |
| DistributionJson.DecodeEncode | backend/api/views.py:70 | Decoding the JSON text of a distribution with distinct keys gives back the same entries in the same order. |
| DistributionJson.EncodeInjective | backend/api/views.py:70 | Two different distributions are never written as the same text. |
| History.Prune | backend/api/views.py:73-81 | Pruning only deletes rows. Exactly min(n, 5) rows survive. Nothing is deleted when at most five rows exist. The survivors stay in id order. |
| History.PruneKeepsRecent | backend/api/views.py:73-81 | A row survives exactly when fewer than five rows are more recent than it. |
| History.PruneKeepsNewest | backend/api/views.py:73-81 | Every surviving row is more recent than every deleted row. |
| History.Append | backend/api/views.py:46-81 | The new row's id is one past every id handed out before, so it exceeds every existing id. Every row after the upload is an old row unchanged or the new row. The table ends with min(n+1, 5) rows. With fewer than five rows before, nothing is deleted and the new row is added at the end. |
| History.InsertedAscending | backend/api/views.py:46 | The AUTOINCREMENT id of the new row exceeds every id in the table, so inserting keeps ids ascending. |
| History.AppendValid | backend/api/views.py:73-81 | After any upload the table holds at most five rows and is well formed. |
| History.AppendAll | backend/api/views.py:56-81 | After a series of uploads the table holds min(n+k, 5) rows. Its id counter has advanced by the number of uploads. |
| History.MostRecent | backend/api/views.py:100-109 | There is no row exactly when the table is empty. Otherwise the row returned is in the table and no row is more recent. |
| History.AppendedIsMostRecent | backend/api/views.py:100-107 | When the clock has not gone back, the row just inserted survives the prune and is the one the newest-row query returns. |
| Report.Render | backend/api/views.py:125-134 | The report has seven header paragraphs plus one per distribution entry. The title comes first and the distribution heading seventh. Every other paragraph is Normal. Paragraph 7+i is the line for entry i. |
| Report.EntryLines | backend/api/views.py:133-134 | One `key: count` paragraph per entry, in the distribution's order. |
| Report.ReadEntryLineOf | backend/api/views.py:134 | A `key: count` line gives back its key and count, whatever characters the key holds. |
| Report.ReadRender | backend/api/views.py:125-134 | Reading the rendered paragraphs gives back the timestamp, total, three averages and the whole distribution in order. |
| Report.RenderInjective | backend/api/views.py:125-134 | Different report contents never render to the same paragraphs. |
| Api.UploadCsv | backend/api/views.py:19-89 | A request without a file is answered 400 "No file uploaded" and the database is unchanged. Otherwise the summary is returned with status 200. The table is created if missing, gains one id, and holds min(n+1, 5) rows. |
| Api.UploadKeepsInv | backend/api/views.py:41-84 | An upload keeps the table well formed and within five rows. Every stored distribution is text the reader accepts. |
| Api.LatestReport | backend/api/views.py:100-137 | An empty table gives 404 "No data available". A newest row whose text does not decode gives a server error. The PDF `equipment_report.pdf` is returned exactly when the newest row decodes. It reports the newest row with its decoded distribution. |
| Api.GeneratePdfAsWritten | backend/api/views.py:96-113 | As written: when the table was never created, the request ends in a server error. Otherwise it behaves as the report on the existing table. |
| Api.GeneratePdf | backend/api/views.py:96-137 | The answer is 404 "No data available" exactly when no row is stored, whether or not the table exists. It is never an upload response. |
| Api.GeneratePdfSucceeds | backend/api/views.py:112-116 | On a database that satisfies the invariant, the corrected report (`GeneratePdf`) never fails: it answers with the report or with 404. The code as written does the same whenever the table exists. |
| Api.ReportAfterUpload | backend/api/views.py:56-134 | On any well-formed database, when the clock has not gone back, the report the code as written produces after an upload shows that upload: its time, its total, its averages and its distribution. The corrected reading gives the same report. |
| Api.ReportShowsUpload | backend/api/views.py:89-134 | The report the code as written produces after an upload reads back to exactly the summary the upload answered with. |
| Api.GeneratePdfMissingTable | backend/api/views.py:100-113 | With no table, the code as written answers 500 where the corrected reading answers 404. With a table, the two agree. |
| Api.EmptyDatabase | backend/api/views.py:97-113 | A fresh database satisfies the invariant. The corrected report (`GeneratePdf`) answers it with 404 "No data available"; the code as written answers 500. |

## Left out

- CSV parsing with `pd.read_csv` (line 26) is not modelled. The model takes the rows already parsed. A file that does not parse, or that lacks a `Type`, `Flowrate`, `Pressure` or `Temperature` column, makes pandas raise and the request fail. That path is not modelled.
- Summarizer.Summarize: the averages are the `mean` parameter applied to each column. The floating-point mean, `round(..., 3)`, NaN for an empty file, and the REAL column's round trip are not modelled. An average is carried as the text the report prints.
- Api.UploadCsv: the paths where pandas, SQLite or the response renderer fail are not modelled; the model answers 200 for every request with a file. A file with no data rows, or a numeric column whose cells are all NaN, gives a NaN average at lines 34-36. SQLite stores it as NULL, and the strict JSON rendering of `Response(summary)` at line 89 refuses NaN, so the request answers 500 after the row was committed. A non-numeric cell in Flowrate, Pressure or Temperature makes `.mean()` raise at lines 34-36, a 500 before anything is stored. The model's averages are opaque values, so neither case arises in it. A Type column that pandas reads as numbers gives int or float keys, which `json.dumps` writes as their Python text; the model takes that text as the row's type. A column read as booleans is written as `true`/`false`, which the model does not reproduce.
- The averages' storage as SQLite REAL and their printing back as Python floats are not modelled. The model stores and prints the same text.
- `uploaded_at` is a `nat` supplied by the caller and printed in decimal. SQLite's `CURRENT_TIMESTAMP` text and its one-second resolution are not modelled. Equal timestamps are ordered by id, newest first.
- SQLite I/O, connections, `commit` and concurrent uploads racing on the same database file are not modelled. The database is a value passed in and returned.
- The AUTOINCREMENT counter's upper bound (2^63 - 1) is not modelled. Ids are unbounded naturals.
- reportlab layout, fonts, pages and PDF bytes are not modelled. So are the HTTP headers other than the file name, and the interpretation of paragraph text as markup, e.g. a type name containing `<`. The report is the ordered list of paragraph texts with their styles.
- The `print` at line 87, the DRF decorators, the `AllowAny`/`IsAuthenticated` permission checks, the URL routing and the two front ends are transport and UI, and are not modelled.
- DistributionJson.Decode: the reader accepts what `json.loads` accepts for an object of non-negative integers. It rejects floats, negative numbers, nesting and lone surrogates, which `json.loads` would accept. The writer never produces them.
- Summarizer.Summarize: the order of types with equal counts is the order the model's insertion sort leaves them in; pandas leaves it unspecified.

## Findings

| source | as written | input that shows it | evidently intended | confidence | as-written member | corrected member |
|---|---|---|---|---|---|---|
| backend/api/views.py:97-113 | `generate_pdf` queries `Instruments` without creating it, so on a database where no upload has happened yet the query raises "no such table" and the request ends in a 500 | a report request on a fresh installation, before any upload | answer 404 "No data available", as for an empty table | medium; not executed | Api.GeneratePdfAsWritten | Api.GeneratePdf |

`Api.GeneratePdfMissingTable` proves that the two differ on the database without a table. It also proves that they agree on every database that has one.
