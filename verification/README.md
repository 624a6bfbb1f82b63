# CSV export endpoints: a Dafny model

This project models the CSV export core of a small FastAPI/SQLite server. The
server has two endpoints:

- `GET /api/table/{table_name}/export` downloads a whole table as `<table_name>.csv`.
- `POST /api/query/export` turns a natural-language question into SQL, runs it, and
  downloads the rows as `query_results.csv`.

The server module itself is not part of this model. Its behaviour is fixed by the
test suite `app/server/tests/test_export.py`, and the model is a functional reference
of what that suite asserts. It has four parts:

- **Table-name validator** (`table_name.dfy`). A non-empty allow-list of ASCII letters,
  digits and `_`. It is a pure check made before the store is touched.
- **CSV writer and reader** (`csv.dfy`). These follow section 2 of RFC 4180:
  - every record ends with CRLF;
  - fields are separated by commas;
  - a field holding a comma, double quote, CR or LF is quoted;
  - inner double quotes are doubled.

  `Parse` is a strict RFC 4180 reader. `Csv.ParseOfEncode` proves that it reads back
  exactly the records that `Encode` wrote.
- **Row-set serializer** (`serializer.dfy`). It writes a header record with the column
  names, then one record per row, with values placed by column name. A missing key or
  a NULL gives an empty field. Integers are written in decimal, as `str()` writes them.
- **Export decisions** (`export.dfy`). These are pure functions from the inputs to a
  `Response`, which holds a status, headers and either a CSV body or an error detail.
  - Table export: the name is validated first (400, "invalid"), then looked up (404,
    "not found"), then the table is serialized (200).
  - Query export: a reported execution error gives 400 and no CSV. Otherwise the
    result's `columns` and `results` are serialized (200).

`scenarios.dfy` holds the test suite's fixture database (`users` and `empty_table`).
It proves each test scenario against the model.

Supporting modules:

- `wrappers.dfy`: `Option`.
- `values.dfy`: the scalars `Text`, `Integer` and `Null`, decimal rendering, and its
  inverse.
- `substrings.dfy`: lower-casing and substring search, used for the `"word" in detail.lower()`
  checks.

Design choices where the tests leave room:

- The writer ends every record with CRLF, including the last one. This is what
  Python's `csv.writer` does.
- A record made of a single empty field is written as `""`. Without this it could not
  be told apart from a record with no fields (an empty line). With it, the round trip
  holds for every record list.
- The reader accepts a final record with no line break (rule 2).
- Row keys that are not in the column list are ignored (`Serializer.ExtraKeysIgnored`).
- The error detail texts are this model's own choice. The tests fix only the
  lower-cased words they must contain. A query error's detail contains the error
  message verbatim.
- Error responses carry `application/json`, because the tests read them with
  `response.json()`.

## Model

| member | source | states |
|---|---|---|
| TableName.Validate | app/server/tests/test_export.py:124-135 | the scan accepts exactly the non-empty names made of letters, digits and `_`; an accepted name holds no quote, `;`, `-`, whitespace or other SQL punctuation |
| TableName.MetacharRejected | app/server/tests/test_export.py:131-135 | a name is rejected if it contains any of: an identifier or string quote (`'`, `"`, backtick, `[`, `]`); `;`; the comment and operator characters `-`, `/`, `*`, `(`, `)`, `.`, `,`, `=`; or ASCII whitespace (space, tab, LF, VT, FF, CR) |
| Scenarios.TestNamesDecided | app/server/tests/test_export.py:85-155 | `users`, `empty_table` and `nonexistent_table` pass validation; `users'; DROP TABLE users; --` fails it |
| Values.DecimalRoundTrip | app/server/tests/test_export.py:53-56 | reading back the decimal digits written for a natural number gives that number |
| Values.IntRoundTrip | app/server/tests/test_export.py:53-56 | an integer cell is written as an optional minus sign and digits that read back as the same integer |
| Values.IntToDecimal | app/server/tests/test_export.py:53-56 | an integer is written in its one canonical spelling: a minus sign exactly when it is negative, then digits with no leading zero, and never `-0` |
| Values.Render | app/server/tests/test_export.py:188-195 | text renders unchanged and NULL renders as the empty field; an integer renders as canonical decimal text that denotes it, with a minus sign exactly when it is negative |
| Csv.Encode | app/server/tests/test_export.py:99-102 | the writer produces no text for no records; otherwise its text ends with CRLF, since every record, the last included, is terminated by a line break |
| Csv.Parse | app/server/tests/test_export.py:168-170 | a well-formed text reads as records: the empty text gives no records, a non-empty text gives at least one, and each record takes up at least one character |
| Csv.ParseBare | app/server/tests/test_export.py:168-170 | an unquoted field is the longest prefix free of comma, quote, CR and LF, and the rest of the text starts at one of them |
| Csv.ParseQuotedOfEscaped | app/server/tests/test_export.py:168-170 | a quoted field with doubled inner quotes reads back as the original field text, stopping at the closing quote |
| Csv.ParseOfEncode | app/server/tests/test_export.py:99-102 | parsing the written CSV text yields exactly the records written, field for field, for every list of records |
| Serializer.ToCsv | app/server/tests/test_export.py:104-110 | the serialized row set parses; its first record is the column list, one record follows per row in order, every record has as many fields as the header, and each field is that row's value for that column (empty when missing) |
| Serializer.DescribesExactly | app/server/tests/test_export.py:104-110 | a list of records fits that description of a row set exactly when it is the list the serializer writes, so the description determines every record |
| Serializer.CellOfScalar | app/server/tests/test_export.py:53-56 | a missing column and a NULL give the empty field; text gives itself; an integer gives canonical decimal text that denotes it |
| Serializer.EmptyRowSetIsHeaderOnly | app/server/tests/test_export.py:153-155 | zero rows parse back as exactly one record, the header |
| Serializer.ExtraKeysIgnored | app/server/tests/test_export.py:188-195 | rows that agree on the listed columns serialize to the same text; keys outside the column list do not affect the output |
| Export.ExportTable | app/server/tests/test_export.py:93-135 | an invalid name gives 400 mentioning "invalid", even when no such table exists; a valid absent name gives 404 mentioning "not found"; a present table gives 200 with `text/csv; charset=utf-8`, `attachment; filename="<name>.csv"` and a body that parses back as its columns and rows; a CSV body appears only with status 200 |
| Export.ExportQuery | app/server/tests/test_export.py:188-270 | a non-null error gives 400 with the error in the detail and no CSV; otherwise 200 with `text/csv; charset=utf-8`, `attachment; filename="query_results.csv"` and a body that parses back as the result's columns and one record per result row |
| Export.InvalidNameIgnoresDatabase | app/server/tests/test_export.py:131-135 | the answer to a rejected name is the same whatever the store holds, so the store is never consulted |
| Export.ExportReadsOnlyNamedTable | app/server/tests/test_export.py:119-122 | the answer depends only on whether the named table exists and on its contents |
| Export.QueryErrorIgnoresPayload | app/server/tests/test_export.py:257-270 | when an error is reported, the results and columns next to it do not affect the answer |
| Export.DownloadNameStaysQuoted | app/server/tests/test_export.py:97 | the filename of an accepted table contains no double quote, so it cannot break out of the quoted `filename="..."` |
| Scenarios.UserRowRecord | app/server/tests/test_export.py:53-56 | any users row, whatever its id and age, is written as its id, name, email and age in column order, with the integers as `str()` writes them |
| Scenarios.UsersRecords | app/server/tests/test_export.py:28-56 | the users table serializes to the header `id,name,email,age` and the records for Alice (id 1, age 30) and Bob (id 2, age 25) |
| Scenarios.ExportUsersTable | app/server/tests/test_export.py:85-110 | exporting `users` is a `users.csv` download that parses to the header and the Alice and Bob records |
| Scenarios.UsersExportFieldCounts | app/server/tests/test_export.py:157-175 | every record of the users export has as many fields as the header |
| Scenarios.ExportMissingTable | app/server/tests/test_export.py:112-122 | exporting `nonexistent_table` gives 404 mentioning "not found" |
| Scenarios.ExportInjectionAttempt | app/server/tests/test_export.py:124-135 | the injection name is absent from the store, yet the export gives 400 mentioning "invalid" |
| Scenarios.ExportEmptyTable | app/server/tests/test_export.py:137-155 | exporting `empty_table` gives 200 and exactly one record, `id,name` |
| Scenarios.ExportQuerySuccess | app/server/tests/test_export.py:181-217 | the two-row users result is a `query_results.csv` download with header `id,name,email` and three records |
| Scenarios.ExportQueryEmpty | app/server/tests/test_export.py:219-248 | an empty result gives 200 and exactly one record, `id,name,email` |
| Scenarios.ExportQueryError | app/server/tests/test_export.py:250-270 | the result with error "Table not found" gives 400, no CSV, and a detail containing the error |
| Scenarios.QueryExportFieldCounts | app/server/tests/test_export.py:272-304 | every record of the two-column query export has two fields |

## Left out

- The HTTP transport (FastAPI routing, `TestClient`) and JSON encoding are not modelled. A response is a `Response` value and an error body is its detail string.
- SQLite is not modelled: no connections, no patching of `connect`, no temporary files. The store is a map from table name to its columns and rows. Row order is taken as given.
- `generate_sql`, `get_database_schema` and `execute_sql_safely` are opaque collaborators. The query export takes their final `QueryExecutionResult` as its input. A failure of the translation step itself is not modelled.
- REAL values (the `products` table's `19.99`) are not modelled, because they need floating-point formatting. Booleans are not modelled either. `Value` has only text, integer and NULL, so `products` is not in the fixture database.
- Concurrency, resource acquisition and release, and 5xx propagation of store failures are outside these pure functions.
- The per-request state machine of the handlers is not modelled. It is flattened into the branches of `Export.ExportTable` and `Export.ExportQuery`, whose terminal outcomes are the 400, 404 and 200 responses.
- Csv.Parse: its own contract states only how records relate to the text's length. That it reads the writer's output back exactly is stated by `Csv.ParseOfEncode`.
- The reader is stricter than Python's `csv.reader`. It rejects a double quote inside an unquoted field (`a"b`), text after a closing quote (`"a"b`), and a bare LF as a line end. It agrees with `csv.reader` only on text that `Csv.Encode` writes, which is all the text the export produces.
- Lower-casing is ASCII-only. That is enough for the detail texts the model produces.
- The browser client (`app/client/src/api/client.ts`) is not modelled. It is `fetch` plus a download of the received blob, with no logic of its own.
