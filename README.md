# Flight service: query building, repository and handlers

A Dafny model of the core of a small FastAPI flight service backed by SQLite.
The service keeps one `flights` table and one `flight_logs` audit table. Its
repository (`app/repositories.py`) builds SQL text from request data. The
handlers (`app/routers.py`) map repository results and exceptions to HTTP
answers and record an audit entry for every replace, patch and register action.

The model has six modules:

- `Wrappers` (wrappers.dfy): `Option` and `Result`.
- `Strings` (strings.dfy): the Python string operations the core relies on.
  These are `split`, `strip`, `", ".join`, `lower`/`upper` on ASCII, and
  `str(int)` with a parser as its inverse.
- `Schema` (schema.dfy): the fourteen columns of `flights`, the NOT NULL
  columns, and the field sets of `FlightCreate` and `FlightUpdate`. SQLite
  values, rows, and Python dicts as ordered item lists with distinct keys.
- `Queries` (queries.dfy): the allow-lists and the checks of `list_flights`.
  Also the WHERE loop, the offset arithmetic, and the text of the COUNT, page,
  INSERT and UPDATE statements. Each statement is proved to hold one `?` per
  bound value. It also gives the meaning of the two list statements over a
  table.
- `Store` (store.dfy): the tables held in memory. `flights` is a map from id
  to row. `flight_logs` is a sequence of entries with an AUTOINCREMENT
  counter. What SQLite does with each statement is a function of the old
  table (`ApplyInsert`, `ApplyUpdate`). The class `FlightRepository` has one
  method per repository function, proved to change its fields exactly that
  way while keeping every stored row complete and under its own id.
- `Routers` (routers.dfy): each endpoint as a method returning a `Response`
  (status and body) and changing the repository. `FlightService` and
  `AuditService` only forward their arguments, so the handlers call the
  repository directly.

The clock (`datetime('now')`) is a parameter `now`. The order ORDER BY gives
the rows is a parameter `ordered`, the table's rows in that order (`ListsTable`).

Three behaviours of the code differ from what the schema and the field names suggest, and the model follows the code:

- Deleting a flight does not delete its log entries. The schema declares
  ON DELETE CASCADE, but foreign keys are only switched on in the connection
  that creates the schema (`app/db.py:8`, `app/db.py:40-44`). Every other
  connection comes from `get_connection` (`app/db.py:47-50`), and SQLite
  leaves foreign keys off by default.
- A flight's id can change. A PUT whose body names another `flight_id` moves
  the row.
- Ids can be reused. `flights` has no AUTOINCREMENT, so a new row gets one
  past the largest id present. After the largest row is deleted, its id is
  handed out again.

## Model

| member | source | states |
|---|---|---|
| Strings.SplitJoin | app/repositories.py:149 | `fields.split(",")` loses nothing: joining the pieces with the separator gives back the original text |
| Strings.Strip | app/repositories.py:149 | `strip()` is empty exactly when the text is all whitespace; otherwise it neither starts nor ends with whitespace |
| Strings.StripIsSlice | app/repositories.py:149 | what `strip()` keeps is one slice of the text, with only whitespace before and after it: nothing inside is changed |
| Strings.StripKeepsOut | app/repositories.py:149 | stripping adds no character, so a piece without a comma stays without one |
| Strings.UpperOfLowered | app/repositories.py:162-200 | when `sort_order.lower()` is a plain lower-case word, `sort_order.upper()` is the upper-casing of that word |
| Strings.IntToStringRoundTrip | app/routers.py:251 | `str(n)` of any integer is a numeral that parses back to `n` |
| Schema.ColumnsAreIdentifiers | app/db.py:10-25 | every column name is a bare identifier; the NOT NULL columns are among the `FlightUpdate` fields, which are strictly fewer than the `FlightCreate` fields, which are all columns |
| Schema.Get | app/repositories.py:38-45 | `d.get(k)` is None exactly when `k` is not a key, and otherwise a value paired with `k` in `d` |
| Schema.GetItem | app/repositories.py:38-40 | in a dict, looking up the key of any item gives that item's value |
| Schema.Overwrite | app/repositories.py:103-104 | writing a dict over a row adds the dict's keys and gives each key the dict's value, keeping the row's value elsewhere |
| Queries.AllowListsAreIdentifiers | app/repositories.py:14-22 | the select and sort allow-lists equal the table's columns, the filter keys are among them, and all are bare identifiers |
| Queries.StripAll | app/repositories.py:149 | the trimmed list is no longer than the split and holds no empty name |
| Queries.StripAllMembers | app/repositories.py:149 | a name is in the trimmed list exactly when it is the non-empty strip of some piece |
| Queries.StripAllAppend | app/repositories.py:149 | trimming works piece by piece and keeps the pieces' order |
| Queries.StripAllCommaFree | app/repositories.py:149 | no trimmed name contains a comma |
| Queries.FieldList | app/repositories.py:149 | each requested name is non-empty and has no comma |
| Queries.FieldListMembers | app/repositories.py:149 | the requested names are exactly the non-empty trimmed pieces between the commas |
| Queries.FirstRejected | app/repositories.py:150-152 | the first name outside the select allow-list: every name before it is allowed, and it is not (the count of names when all are allowed) |
| Queries.ProjectionAllowedIff | app/repositories.py:150-152 | the projection is accepted exactly when no requested name is rejected |
| Queries.FindRejected | app/repositories.py:150-152 | the loop over the requested names returns the first rejected name, or None when every name is allowed |
| Queries.ValidateProjection | app/repositories.py:148-155 | the first rejected name is reported as `Invalid field name`; with none rejected, the columns asked for (or `*` without `fields`) |
| Queries.IdentifierListRoundTrip | app/repositories.py:153 | a list of identifiers joined with `", "` re-parses, split and trimmed, to the same list |
| Queries.ProjectionRoundTrip | app/repositories.py:147-155 | an accepted SELECT list reads back as exactly the names requested |
| Queries.SortKeyword | app/repositories.py:162-200 | a direction that lower-cases to `asc`/`desc` upper-cases to `ASC`/`DESC` |
| Queries.CheckSort | app/repositories.py:158-200 | passes exactly for an allow-listed column and a case-insensitive `asc`/`desc`; the column is checked first; on success the keyword is `ASC` or `DESC` |
| Queries.Recognised | app/repositories.py:171-174 | the kept items are exactly the filter items whose key is a filter column, no more of them than given, with distinct keys kept distinct |
| Queries.RecognisedAppend | app/repositories.py:171-174 | filtering a concatenation filters each part |
| Queries.RecognisedStep | app/repositories.py:171-174 | one more filter item adds its key and value exactly when its key is a filter column |
| Queries.RecognisedPairs | app/repositories.py:171-174 | each kept key/value is an item of the filter with a filter-column key, and no such key is dropped |
| Queries.WhereOf | app/repositories.py:168-176 | the loop yields keys and params pairwise from the filter dict, all on filter columns, without dropping any filter-column key |
| Queries.MultipleOf | app/repositories.py:194 | a whole number of pages divides back exactly by the page size |
| Queries.Offset | app/repositories.py:194 | for positive page and size the offset is a non-negative multiple of size, `page - 1` pages in |
| Queries.BuildListQuery | app/repositories.py:134-176 | fails exactly when a field name, the sort column or the direction is rejected, in that order, naming the first rejected field name, always with a `ValueError`; on success the query uses only allow-listed names and `ASC`/`DESC`, one bound value per clause |
| Queries.PlaceholdersMatchParameters | app/repositories.py:185-206 | for an allow-listed query, the COUNT text holds one `?` per filter value and the page text one per value plus LIMIT and OFFSET |
| Queries.Matching | app/repositories.py:185-199 | the WHERE clause keeps exactly the rows where every clause's column holds the bound non-NULL value |
| Queries.MatchingAppend | app/repositories.py:185-199 | filtering works row by row and keeps the order the rows come in |
| Queries.Project | app/repositories.py:197 | `*` gives the row itself; a column list gives exactly the listed names the row has, each with the row's value |
| Queries.RunList | app/repositories.py:181-209 | an empty SELECT list is a database error; otherwise `total` counts every matching row and the items are the projections of the matching rows from `offset` on, at most `size` of them |
| Queries.TotalIgnoresPaging | app/repositories.py:185-189 | `total` does not depend on page or size |
| Queries.PageOfPosition | app/repositories.py:194 | position `k` lies on page `k / size + 1` at index `k % size` |
| Queries.EveryRowOnItsPage | app/repositories.py:194-206 | every matching row appears, projected, on the page its position determines |
| Queries.InsertPlaceholdersMatchValues | app/repositories.py:38-45 | the INSERT text holds exactly one `?` per bound value, one per key |
| Queries.InsertBindsByColumn | app/repositories.py:38-45 | the `i`-th bound value is the dict's value for the `i`-th column |
| Queries.InsertColumnsRoundTrip | app/repositories.py:38-42 | the INSERT column list reads back as the dict's keys |
| Queries.UpdatePlaceholdersMatchValues | app/repositories.py:103-114 | the UPDATE text holds one `?` per update plus one for the id, and the id is bound last |
| Queries.UpdateBindsByColumn | app/repositories.py:103-114 | the `i`-th bound value is the update's value for the `i`-th assigned column |
| Queries.EmptySetClause | app/repositories.py:103-110 | the SET list is empty exactly when there are no updates |
| Store.NewRowId | app/repositories.py:48 | a generated id is above every id present, and 1 in an empty table |
| Store.DefaultRow | app/db.py:10-25 | the row before the INSERT has every column |
| Store.ErrorText | app/repositories.py:56 | the text after "Database error: " is SQLite's message: "table flights has no column named X" for an INSERT, "no such column: X" for an UPDATE, and the NOT NULL message naming the column |
| Store.FirstUnknown | app/repositories.py:45 | None exactly when every key is a column; otherwise the first key, in dict order, that names no column |
| Store.FirstNull | app/db.py:12-14 | None exactly when no NOT NULL column holds NULL; otherwise the first NOT NULL column, in declaration order, that does |
| Store.InsertId | app/repositories.py:45-48 | the id written is the integer given under `flight_id`, or a fresh id not in the table when none or NULL is given |
| Store.InsertedRowContents | app/repositories.py:38-50 | the inserted row has every column, its id, each given value under its key, and the defaults (timestamps `now`, else NULL) elsewhere |
| Store.ApplyInsert | app/repositories.py:33-59 | no items is a syntax error; the first unknown key is reported as having no column; a taken id fails; a success stores the written row under a fresh id with its NOT NULL columns filled and changes nothing else |
| Store.InsertKeepsTable | app/repositories.py:33-52 | a successful INSERT stores a complete row and keeps every row complete under its own id |
| Store.InsertFailsOnlyOnTakenId | app/repositories.py:33-56 | for a validated create dict the INSERT fails exactly when the given id is taken, with the UNIQUE error, and otherwise stores the row |
| Store.UpdatedRowContents | app/repositories.py:103-110 | the updated row keeps its columns, takes each update's value, keeps every other value and has `updated_at = now` |
| Store.ApplyUpdate | app/repositories.py:98-127 | no updates is a syntax error; the first unknown key is reported as no such column; a missing flight changes nothing and reads back None; otherwise the row is written back |
| Store.WriteBack | app/repositories.py:114-120 | fails exactly for a non-integer id, a NULL in a NOT NULL column or a move onto a taken id; reads a row back exactly when the id is unchanged; a changed id moves the row |
| Store.UpdateKeepsTable | app/repositories.py:98-120 | a successful UPDATE keeps every row complete and under its own id |
| Store.UpdateInPlaceSucceeds | app/repositories.py:98-120 | non-empty, non-null updates of known columns that keep the id succeed in place and read back the updated row |
| Store.StoredSnapshot | app/repositories.py:249-250 | a missing or empty snapshot is stored as NULL, any other as given |
| Store.AppendKeepsLogInvariant | app/repositories.py:239-255 | appending under the next AUTOINCREMENT id keeps log ids increasing and never reuses one |
| Store.WithoutFlight | app/db.py:35 | a cascade keeps exactly the entries naming other flights |
| Store.CascadeKeepsLogInvariant | app/db.py:35 | dropping a flight's entries keeps log ids increasing and below the counter |
| Store.FlightRepository.constructor | app/db.py:40-44 | a fresh database has both tables empty |
| Store.FlightRepository.GetFlight | app/repositories.py:62-77 | None exactly when no row has the id; otherwise the stored row, complete and carrying that id |
| Store.FlightRepository.CreateFlight | app/repositories.py:33-59 | the table becomes what `ApplyInsert` gives and the answer is its read-back, or the error with nothing changed; the log is untouched |
| Store.FlightRepository.UpdateFlight | app/repositories.py:98-127 | the table becomes what `ApplyUpdate` gives and the answer is its read-back, or the error with nothing changed; the log is untouched |
| Store.FlightRepository.DeleteFlight | app/repositories.py:80-95 | answers whether the row existed, removes it, and leaves its log entries in place |
| Store.FlightRepository.DeleteFlightCascade | app/repositories.py:80-95 | as above, with the schema's cascade: afterwards no entry names the flight |
| Store.FlightRepository.InsertFlightLog | app/repositories.py:227-260 | appends one entry with the next id, above every earlier one, and returns that id; flights are unchanged |
| Store.OrphanedLog | app/db.py:47-50 | after an audited flight is deleted, its log entry still names the missing flight |
| Routers.ValidateSortBy | app/routers.py:18-23 | no answer exactly for an allow-listed column; otherwise 400 naming the column |
| Routers.SortColumnCheckedOnce | app/routers.py:56 | after the handler's check, the only sort error the repository can raise is the direction |
| Routers.Item | app/routers.py:59-64 | an optional parameter becomes one item under its key exactly when it is truthy |
| Routers.RequestFilters | app/routers.py:58-64 | the filter dict holds origin, destination and status as text, each exactly when given non-empty |
| Routers.RequestFiltersRecognised | app/routers.py:58-64 | the repository drops none of the handler's filters |
| Routers.RequestFilterSemantics | app/routers.py:58-64 | the WHERE clause keeps exactly the rows whose origin, destination and status equal those given |
| Routers.ListFlights | app/routers.py:44-88 | (also `/paginated`, app/routers.py:94-138, with the same body) over the table's rows in ORDER BY order: 422 for page/size out of range; 400 for a bad column, the first rejected field name or a bad direction, in that order; otherwise the repository's page with 200, or 500 on a database error |
| Routers.ListedPage | app/routers.py:66-81 | for accepted paging, the repository fails only for an empty SELECT list; `total` counts the table's rows matching the given filters, and the items are those rows, projected, page `page` of them |
| Routers.MatchingInTable | app/routers.py:58-81 | the rows the filters keep are exactly the table's rows with the given origin, destination and status, no more of them than the table holds |
| Routers.CreateFlight | app/routers.py:29-36 | 201 with the stored row, or 500 with the UNIQUE error text exactly when the given id is taken and then nothing changes |
| Routers.CreateThenGet | app/routers.py:144-150 | a flight created with 201 is served by GET with status 200 and the same body |
| Routers.GetFlight | app/routers.py:144-153 | as written: 200 with the stored row, and 500 (not 404) for a missing flight |
| Routers.GetFlightIntended | app/routers.py:144-150 | as intended: 200 with the stored row, 404 for a missing flight |
| Routers.MissingFlightAnswers500 | app/routers.py:146-153 | on an empty database the handler answers 500 where 404 was meant |
| Routers.DeleteFlight | app/routers.py:213-222 | as written: 204 when the row existed, else 500 (not 404); the log is kept |
| Routers.DeleteFlightIntended | app/routers.py:213-219 | as intended: 204 or 404, the row removed and its log entries cascaded |
| Routers.MissingDeleteAnswers500 | app/routers.py:215-222 | on an empty database the delete handler answers 500 where 404 was meant |
| Routers.AuditedUpdate | app/routers.py:165-180 | a store error is 500 with nothing written; otherwise the table is updated and one entry appended with the row before and after; the answer is the row read back, or the server's 500 when nothing was read back |
| Routers.ReadBackIsStored | app/repositories.py:249-250 | a row read back after an UPDATE is logged as it is, never as NULL |
| Routers.ReplaceFlight | app/routers.py:159-180 | 404 for a missing flight with nothing changed; with the same id, 200 with the row replaced in place and one "replace" entry by "system" under the next log id; a payload naming another id answers 500 |
| Routers.MovedRowIsNotReadBack | app/repositories.py:117-120 | an UPDATE that writes another id never reads a row back |
| Routers.PatchFlight | app/routers.py:186-207 | 404 for a missing flight; an empty body is 500 with nothing written; otherwise 200 with the row updated in place and one "patch" entry by "system" under the next log id |
| Routers.SeatsBase | app/routers.py:249 | `seats_available or 0` can be added to an int except exactly for a non-empty text |
| Routers.RegisterChanges | app/routers.py:241-251 | fails exactly for a delta on a non-numeric seat count; otherwise one update per truthy status and per delta, the status first, and one summary part per update, status set when truthy, seats set to base plus delta when a delta is given |
| Routers.SeatsSummaryRoundTrip | app/routers.py:251 | the seat count written in the summary parses back to the number stored |
| Routers.RegisterAction | app/routers.py:235-272 | 404 for a missing flight; 500 for a non-numeric seat count; 400 when nothing is asked; otherwise 200 with the row updated in place and one entry by the caller, under the next log id, summarising each change |

## Left out

- Connections, commits, `con.close()`, logging calls and the network are not modelled. Each repository call is one atomic step on the in-memory tables.
- The `finally: con.close()` of a call whose `get_connection` failed would raise a NameError; connection failures are not modelled.
- ORDER BY collation and SQLite's ordering of mixed types are not modelled. The list handler takes the rows already in ORDER BY order (`ordered`).
- SQLite type affinity, datetime text and response-model validation are not modelled. The one validation failure kept is a read-back of None. Timestamps are opaque text.
- Request-body validation is taken as given: the create, replace and patch handlers require a validated payload (`CreatePayload`, `UpdatePayload`). The only 422 answer modelled is page/size out of range.
- SQLite's 64-bit integer limits are not modelled; integers are unbounded.
- `lower()`/`upper()` are ASCII-only. Non-ASCII case mappings cannot change whether a direction is `asc`/`desc`, but the upper-cased keyword of such input is not modelled.
- Snapshots are kept as row values, not as the text `json.dumps` would produce.
- The `note` field of the register payload is accepted and never used, in the source and in the model.
- SQLite error texts are approximate beyond the UNIQUE and NOT NULL messages and the INSERT and UPDATE unknown-column messages, and the SQL text is kept on one line.
- The seed loader (`app/sample_data_loader.py`), `app/main.py` and the tests are not part of this model.
- Routers.ReplaceFlight: for a payload that names another `flight_id` only the status 500 is stated. Which of two 500 bodies answers (the store error, or the server's plain-text one after the row has moved) is stated by `Routers.AuditedUpdate`.

## Findings

| source | as written | input that shows it | evidently intended | confidence | as-written member | corrected member |
|---|---|---|---|---|---|---|
| app/routers.py:146-153 | the 404 raised for a missing flight is caught by `except Exception` and re-raised as 500 | `GET /flights/1` on an empty database | 404 "flight not found" | not executed | Routers.MissingFlightAnswers500 | Routers.GetFlightIntended |
| app/routers.py:215-222 | the 404 raised when nothing was deleted is caught by `except Exception` and re-raised as 500 | `DELETE /flights/1` on an empty database | 404 "flight not found" | not executed | Routers.MissingDeleteAnswers500 | Routers.DeleteFlightIntended |
| app/db.py:47-50 | connections are opened without `PRAGMA foreign_keys = ON`, so the ON DELETE CASCADE of `flight_logs` never fires | patch flight 1, then `DELETE /flights/1`: its log entry remains | deleting a flight deletes its log entries | not executed | Store.OrphanedLog | Store.FlightRepository.DeleteFlightCascade |
