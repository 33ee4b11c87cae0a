/**
 * The HTTP handlers of app/routers.py over the repository: what each endpoint
 * answers (status code and body) and what it leaves in the two tables.
 * `FlightService` and `AuditService` (app/services.py) only forward to the
 * repository, so the handlers call `Store` directly.
 *
 * Request validation by the request models is taken as given: a handler
 * `requires` what a validated request carries, and the 422 answer for a query
 * parameter out of range is the one validation step modelled.
 */
module Routers {
  import opened Wrappers
  import opened Strings
  import opened Schema
  import opened Queries
  import opened Store

  /**
   * A response body: nothing, a validation failure, a JSON error detail, the
   * plain-text body of an exception no handler caught, one flight, or a page
   * of flights.
   */
  datatype Body =
    | NoContent
    | Invalid
    | Detail(detail: string)
    | PlainText(text: string)
    | FlightBody(flight: Row)
    | PageBody(page: int, size: int, total: int, items: seq<Row>)

  datatype Response = Response(status: int, body: Body)

  const NotFound: Response := Response(404, Detail("flight not found"))
  const InternalError: Response := Response(500, Detail("Internal Server Error"))
  /** The server's answer to an exception raised outside every `try` (or by response validation). */
  const Unhandled: Response := Response(500, PlainText("Internal Server Error"))

  // ---------------------------------------------------------------------------
  // Listing
  // ---------------------------------------------------------------------------

  /** `_validate_sort_by`: the 400 answer for a column outside the sort allow-list, or None. */
  function ValidateSortBy(sortBy: string): (r: Option<Response>)
    ensures r.None? <==> sortBy in AllowedSortColumns
    ensures r.Some? ==> r.value.status == 400 && r.value.body == Detail("invalid sort column: " + sortBy)
  {
    if sortBy in AllowedSortColumns then None
    else Some(Response(400, Detail("invalid sort column: " + sortBy)))
  }

  /**
   * Once the handler has checked the sort column, the repository's own
   * "Invalid sort column" can no longer be raised: the only sort error left is
   * the direction.
   */
  lemma SortColumnCheckedOnce(sortBy: string, sortOrder: string)
    requires ValidateSortBy(sortBy).None?
    ensures CheckSort(sortBy, sortOrder).Failure? ==> CheckSort(sortBy, sortOrder).error == InvalidSortOrder
  {
  }

  /** Python truthiness of an optional query parameter: present and not empty. */
  predicate Truthy(o: Option<string>)
  {
    o.Some? && o.value != ""
  }

  /** `filters[k] = v` under `if v:`, as one item or none. */
  function Item(k: string, o: Option<string>): (r: seq<(string, Value)>)
    ensures |r| == (if Truthy(o) then 1 else 0) && forall i :: 0 <= i < |r| ==> r[i].0 == k && r[i].1.Text?
    ensures forall key :: Get(r, key) == if key == k && Truthy(o) then Some(Text(o.value)) else None
  {
    if Truthy(o) then [(k, Text(o.value))] else []
  }

  /** The filter dict the list handlers build: origin, destination and status, each only when truthy, in that order. */
  function RequestFilters(origin: Option<string>, destination: Option<string>, status: Option<string>): (d: Dict)
    ensures forall i :: 0 <= i < |d| ==> (d[i].0 == "origin" || d[i].0 == "destination" || d[i].0 == "status") && d[i].1.Text?
    ensures Get(d, "origin") == if Truthy(origin) then Some(Text(origin.value)) else None
    ensures Get(d, "destination") == if Truthy(destination) then Some(Text(destination.value)) else None
    ensures Get(d, "status") == if Truthy(status) then Some(Text(status.value)) else None
  {
    var o, d, s := Item("origin", origin), Item("destination", destination), Item("status", status);
    ThreeItems(o, d, s, "origin", "destination", "status");
    o + d + s
  }

  /** Three lists of at most one item each, under three different keys, make a dict that looks keys up in order. */
  lemma ThreeItems(a: seq<(string, Value)>, b: seq<(string, Value)>, c: seq<(string, Value)>, ka: string, kb: string, kc: string)
    requires |a| <= 1 && |b| <= 1 && |c| <= 1
    requires forall i :: 0 <= i < |a| ==> a[i].0 == ka
    requires forall i :: 0 <= i < |b| ==> b[i].0 == kb
    requires forall i :: 0 <= i < |c| ==> c[i].0 == kc
    requires ka != kb && kb != kc && ka != kc
    ensures DistinctKeys(a + b + c)
    ensures forall i :: 0 <= i < |a + b + c| ==> (a + b + c)[i] in a || (a + b + c)[i] in b || (a + b + c)[i] in c
    ensures forall k :: Get(a + b + c, k) == if Get(a, k).Some? then Get(a, k) else if Get(b, k).Some? then Get(b, k) else Get(c, k)
  {
    var abc := a + b + c;
    assert forall i :: 0 <= i < |abc| ==>
      abc[i] == if i < |a| then a[i] else if i < |a + b| then b[i - |a|] else c[i - |a + b|];
    forall k ensures Get(abc, k) == if Get(a, k).Some? then Get(a, k) else if Get(b, k).Some? then Get(b, k) else Get(c, k) {
      GetConcat(a + b, c, k);
      GetConcat(a, b, k);
    }
  }

  /** Looking a key up in two item lists one after the other: the first list wins. */
  lemma {:induction false} GetConcat(a: seq<(string, Value)>, b: seq<(string, Value)>, k: string)
    ensures Get(a + b, k) == if Get(a, k).Some? then Get(a, k) else Get(b, k)
  {
    if a != [] {
      assert (a + b)[0] == a[0];
      assert (a + b)[1..] == a[1..] + b;
      GetConcat(a[1..], b, k);
    } else {
      assert a + b == b;
    }
  }

  /** A row passes one request filter: an empty or missing filter passes every row. */
  predicate FieldMatches(row: Row, k: string, o: Option<string>)
  {
    Truthy(o) ==> k in row && row[k] == Text(o.value)
  }

  /** The reference meaning of the three filters: each one given must equal the row's column. */
  predicate MatchesRequest(row: Row, origin: Option<string>, destination: Option<string>, status: Option<string>)
  {
    FieldMatches(row, "origin", origin) && FieldMatches(row, "destination", destination) && FieldMatches(row, "status", status)
  }

  predicate AllHeld(row: Row, items: seq<(string, Value)>)
  {
    forall i :: 0 <= i < |items| ==> items[i].0 in row && row[items[i].0] == items[i].1
  }

  lemma AllHeldAppend(row: Row, a: seq<(string, Value)>, b: seq<(string, Value)>)
    ensures AllHeld(row, a + b) <==> AllHeld(row, a) && AllHeld(row, b)
  {
    if AllHeld(row, a) && AllHeld(row, b) {
      forall i | 0 <= i < |a + b| ensures (a + b)[i].0 in row && row[(a + b)[i].0] == (a + b)[i].1 {
        if i >= |a| {
          assert (a + b)[i] == b[i - |a|];
        }
      }
    }
    if AllHeld(row, a + b) {
      forall i | 0 <= i < |a| ensures a[i].0 in row && row[a[i].0] == a[i].1 {
        assert (a + b)[i] == a[i];
      }
      forall i | 0 <= i < |b| ensures b[i].0 in row && row[b[i].0] == b[i].1 {
        assert (a + b)[|a| + i] == b[i];
      }
    }
  }

  /** Every filter item the handler sends is recognised by the repository, so none is dropped. */
  lemma RequestFiltersRecognised(origin: Option<string>, destination: Option<string>, status: Option<string>)
    ensures Recognised(RequestFilters(origin, destination, status)) == RequestFilters(origin, destination, status)
  {
    var o, d, s := Item("origin", origin), Item("destination", destination), Item("status", status);
    RecognisedAppend(o + d, s);
    RecognisedAppend(o, d);
  }

  /**
   * The WHERE clause built from the request keeps exactly the rows whose
   * origin, destination and status equal the ones given (each only when given).
   */
  lemma RequestFilterSemantics(origin: Option<string>, destination: Option<string>, status: Option<string>, rows: seq<Row>)
    ensures var f := RequestFilters(origin, destination, status);
            forall r :: r in Matching(rows, KeysOf(f), ValuesOf(f)) <==> r in rows && MatchesRequest(r, origin, destination, status)
  {
    var f := RequestFilters(origin, destination, status);
    forall r | r in rows ensures Matches(r, KeysOf(f), ValuesOf(f)) <==> MatchesRequest(r, origin, destination, status) {
      RowMatchesRequest(r, origin, destination, status);
    }
  }

  lemma RowMatchesRequest(r: Row, origin: Option<string>, destination: Option<string>, status: Option<string>)
    ensures var f := RequestFilters(origin, destination, status);
            Matches(r, KeysOf(f), ValuesOf(f)) <==> MatchesRequest(r, origin, destination, status)
  {
    var f := RequestFilters(origin, destination, status);
    var o, d, s := Item("origin", origin), Item("destination", destination), Item("status", status);
    assert f == o + d + s;
    AllHeldAppend(r, o + d, s);
    AllHeldAppend(r, o, d);
    ItemHeld(r, "origin", origin);
    ItemHeld(r, "destination", destination);
    ItemHeld(r, "status", status);
    MatchesAllHeld(r, f);
  }

  lemma ItemHeld(r: Row, k: string, o: Option<string>)
    ensures AllHeld(r, Item(k, o)) <==> FieldMatches(r, k, o)
  {
    if Truthy(o) {
      assert Item(k, o)[0] == (k, Text(o.value));
    }
  }

  /** SQL equality on non-null values is plain equality. */
  lemma MatchesAllHeld(r: Row, items: seq<(string, Value)>)
    requires forall i :: 0 <= i < |items| ==> items[i].1 != Null
    ensures Matches(r, KeysOf(items), ValuesOf(items)) <==> AllHeld(r, items)
  {
    assert forall i :: 0 <= i < |items| ==> KeysOf(items)[i] == items[i].0 && ValuesOf(items)[i] == items[i].1;
  }

  /** The query parameters FastAPI accepts: `page >= 1`, `1 <= size <= 200`. */
  predicate PagingAccepted(page: int, size: int)
  {
    page >= 1 && 1 <= size <= 200
  }

  /** The request passes every check before the database is reached. */
  predicate ListAccepted(page: int, size: int, sortBy: string, sortOrder: string, fields: Option<string>)
  {
    PagingAccepted(page, size) && sortBy in AllowedSortColumns && ProjectionAllowed(fields) &&
    Lower(sortOrder) in {"asc", "desc"}
  }

  /** The query the list handler has the repository run for an accepted request. */
  function RequestQuery(page: int, size: int, origin: Option<string>, destination: Option<string>, status: Option<string>,
                        sortBy: string, sortOrder: string, fields: Option<string>): ListQuery
  {
    var f := RequestFilters(origin, destination, status);
    ListQuery(RequestedProjection(fields), KeysOf(f), ValuesOf(f), sortBy, Upper(sortOrder), size, Offset(page, size))
  }

  /**
   * `GET /flights/` (and `GET /flights/paginated`, which is the same handler):
   * the rows of the table `flights` are given in `ordered`, in the order the
   * ORDER BY puts them.
   * Checks run in order: paging, sort column, field names, sort direction; an
   * accepted request answers the page the repository returns, or 500 when the
   * SELECT list it builds is empty.
   */
  method ListFlights(page: int, size: int, origin: Option<string>, destination: Option<string>, status: Option<string>,
                     sortBy: string, sortOrder: string, fields: Option<string>,
                     flights: map<int, Row>, ordered: seq<Row>)
    returns (resp: Response)
    requires ListsTable(ordered, flights)
    ensures !PagingAccepted(page, size) ==> resp == Response(422, Invalid)
    ensures PagingAccepted(page, size) && sortBy !in AllowedSortColumns ==>
              resp == Response(400, Detail("invalid sort column: " + sortBy))
    ensures PagingAccepted(page, size) && sortBy in AllowedSortColumns && !ProjectionAllowed(fields) ==>
              var names := RequestedNames(fields);
              resp == Response(400, Detail(InvalidFieldName(names[FirstRejected(names)]).Message()))
    ensures PagingAccepted(page, size) && sortBy in AllowedSortColumns && ProjectionAllowed(fields) &&
            Lower(sortOrder) !in {"asc", "desc"} ==>
              resp == Response(400, Detail(InvalidSortOrder.Message()))
    ensures ListAccepted(page, size, sortBy, sortOrder, fields) ==>
              resp == match RunList(RequestQuery(page, size, origin, destination, status, sortBy, sortOrder, fields), ordered)
                      case Failure(_) => InternalError
                      case Success(listed) => Response(200, PageBody(page, size, listed.total, listed.items))
  {
    if !PagingAccepted(page, size) {
      return Response(422, Invalid);
    }
    var rejected := ValidateSortBy(sortBy);
    if rejected.Some? {
      return rejected.value;
    }
    var filters := RequestFilters(origin, destination, status);
    var query := BuildListQuery(page, size, filters, sortBy, sortOrder, fields);
    if query.Failure? {
      SortColumnCheckedOnce(sortBy, sortOrder);
      return Response(400, Detail(query.error.Message()));
    }
    RequestFiltersRecognised(origin, destination, status);
    var result := RunList(query.value, ordered);
    if result.Failure? {
      return InternalError;
    }
    resp := Response(200, PageBody(page, size, result.value.total, result.value.items));
  }

  /**
   * What an accepted list request answers: 500 exactly when `fields` names
   * no column at all; otherwise `total` counts the rows of the table that match
   * the given origin, destination and status, and the items are those rows'
   * projections, page `page` of them in the order `ordered` lists them.
   */
  lemma ListedPage(page: int, size: int, origin: Option<string>, destination: Option<string>, status: Option<string>,
                   sortBy: string, sortOrder: string, fields: Option<string>,
                   flights: map<int, Row>, ordered: seq<Row>)
    requires PagingAccepted(page, size)
    requires ListsTable(ordered, flights)
    ensures var r := RunList(RequestQuery(page, size, origin, destination, status, sortBy, sortOrder, fields), ordered);
            var f := RequestFilters(origin, destination, status);
            var m := Matching(ordered, KeysOf(f), ValuesOf(f));
            var offset := Offset(page, size);
            && (r.Failure? <==> RequestedProjection(fields) == Columns([]))
            && (r.Success? ==>
                  && r.value.total == |m| <= |flights|
                  && (forall row :: row in m <==> row in flights.Values && MatchesRequest(row, origin, destination, status))
                  && |r.value.items| == (if offset >= |m| then 0 else if offset + size > |m| then |m| - offset else size)
                  && forall i :: 0 <= i < |r.value.items| ==>
                       r.value.items[i] == Project(RequestedProjection(fields), m[offset + i]))
  {
    MatchingInTable(origin, destination, status, flights, ordered);
  }

  /** The rows the filters keep are the table's rows that match the request, and no more of them than the table holds. */
  lemma MatchingInTable(origin: Option<string>, destination: Option<string>, status: Option<string>,
                        flights: map<int, Row>, ordered: seq<Row>)
    requires ListsTable(ordered, flights)
    ensures var f := RequestFilters(origin, destination, status);
            var m := Matching(ordered, KeysOf(f), ValuesOf(f));
            && |m| <= |flights|
            && forall row :: row in m <==> row in flights.Values && MatchesRequest(row, origin, destination, status)
  {
    var f := RequestFilters(origin, destination, status);
    var m := Matching(ordered, KeysOf(f), ValuesOf(f));
    RequestFilterSemantics(origin, destination, status, ordered);
    assert |m| <= |ordered| == |flights|;
    forall row ensures row in m <==> row in flights.Values && MatchesRequest(row, origin, destination, status) {
      assert row in ordered <==> row in flights.Values;
    }
  }

  // ---------------------------------------------------------------------------
  // Validated payloads
  // ---------------------------------------------------------------------------

  /** `payload.dict(exclude_none=True)` of a validated `FlightCreate`. */
  predicate CreatePayload(d: Dict)
  {
    InsertableData(d) && forall i :: 0 <= i < |d| ==> d[i].0 in CreateFields
  }

  /** `payload.dict(exclude_none=True)` of a validated `FlightUpdate`: no id, no None. */
  predicate UpdatePayload(d: Dict)
  {
    forall i :: 0 <= i < |d| ==> d[i].0 in UpdateFields && d[i].1 != Null
  }

  /** A stored row has its id and its NOT NULL columns. */
  lemma StoredRowIsWhole(flights: map<int, Row>, flightId: int)
    requires TableInvariant(flights) && flightId in flights
    ensures FirstNull(flights[flightId]).None? && Col(flights[flightId], "flight_id") == Int(flightId)
    ensures flights[flightId] != map[]
  {
    FullRowHasNoNull(flights[flightId]);
  }

  /** A non-empty `FlightUpdate` dict fits any stored row in place. */
  lemma PatchFits(row: Row, flightId: int, d: Dict)
    requires FirstNull(row).None? && Col(row, "flight_id") == Int(flightId)
    requires d != [] && UpdatePayload(d)
    ensures FitsInPlace(row, flightId, d)
  {
    ColumnsAreIdentifiers();
    assert "flight_id" !in UpdateFields;
    assert Get(d, "flight_id").None?;
  }

  /** A `FlightCreate` dict that names no other id fits the stored row in place. */
  lemma ReplaceFits(row: Row, flightId: int, d: Dict)
    requires FirstNull(row).None? && Col(row, "flight_id") == Int(flightId)
    requires CreatePayload(d) && !MovesRow(d, flightId)
    ensures FitsInPlace(row, flightId, d)
  {
    InsertableReachesIdCheck(d);
  }

  /** The payload writes a `flight_id` other than the one in the path. */
  predicate MovesRow(d: Dict, flightId: int)
  {
    Get(d, "flight_id").Some? && Get(d, "flight_id").value != Int(flightId)
  }

  // ---------------------------------------------------------------------------
  // Create, read, delete
  // ---------------------------------------------------------------------------

  /** `POST /flights/`: 201 with the stored row, or 500 with the repository's error text. */
  method CreateFlight(repo: FlightRepository, payload: Dict, now: string) returns (resp: Response)
    requires repo.Valid() && CreatePayload(payload)
    modifies repo
    ensures repo.Valid()
    ensures repo.logs == old(repo.logs) && repo.lastLogId == old(repo.lastLogId)
    ensures resp.status == 500 <==> Get(payload, "flight_id").Some? && Get(payload, "flight_id").value.i in old(repo.flights)
    ensures var id := InsertId(old(repo.flights), payload);
            if id in old(repo.flights) then
              && resp == Response(500, Detail("Database error: " + ErrorText(IdTaken(id))))
              && repo.flights == old(repo.flights)
            else
              && repo.flights == old(repo.flights)[id := InsertedRow(payload, now, id)]
              && resp == Response(201, FlightBody(InsertedRow(payload, now, id)))
  {
    InsertFailsOnlyOnTakenId(repo.flights, payload, now);
    var created := repo.CreateFlight(payload, now);
    match created
    case Success(row) =>
      resp := Response(201, FlightBody(row));
    case Failure(e) =>
      resp := Response(500, Detail("Database error: " + ErrorText(e)));
  }

  /** A flight answered with 201 is then served by GET, under the id in its body, with the same row. */
  method CreateThenGet(repo: FlightRepository, payload: Dict, now: string) returns (created: Response, fetched: Option<Response>)
    requires repo.Valid() && CreatePayload(payload)
    modifies repo
    ensures created.status == 201 <==> fetched.Some?
    ensures created.status == 201 ==>
              created.body.FlightBody? && fetched == Some(Response(200, created.body))
  {
    var before := repo.flights;
    created := CreateFlight(repo, payload, now);
    if created.status != 201 {
      return created, None;
    }
    var id := InsertId(before, payload);
    assert InsertedRow(payload, now, id)["flight_id"] == Int(id);
    var answer := GetFlight(repo, id);
    fetched := Some(answer);
  }

  /**
   * `GET /flights/{flight_id}` as written: the 404 raised for a missing
   * flight is inside the blanket `except`, which turns it into a 500.
   */
  method GetFlight(repo: FlightRepository, flightId: int) returns (resp: Response)
    requires repo.Valid()
    ensures flightId in repo.flights ==> resp == Response(200, FlightBody(repo.flights[flightId]))
    ensures flightId !in repo.flights ==> resp == InternalError
  {
    var row := repo.GetFlight(flightId);
    if row.None? {
      return InternalError;
    }
    resp := Response(200, FlightBody(row.value));
  }

  /** `GET /flights/{flight_id}` as evidently intended: a missing flight is a 404. */
  method GetFlightIntended(repo: FlightRepository, flightId: int) returns (resp: Response)
    requires repo.Valid()
    ensures flightId in repo.flights ==> resp == Response(200, FlightBody(repo.flights[flightId]))
    ensures flightId !in repo.flights ==> resp == NotFound
  {
    var row := repo.GetFlight(flightId);
    if row.None? {
      return NotFound;
    }
    resp := Response(200, FlightBody(row.value));
  }

  /** On an empty database, asking for flight 1 answers 500 where 404 was meant. */
  method MissingFlightAnswers500() returns (asWritten: Response, intended: Response)
    ensures asWritten == InternalError && intended == NotFound
  {
    var repo := new FlightRepository();
    asWritten := GetFlight(repo, 1);
    intended := GetFlightIntended(repo, 1);
  }

  /**
   * `DELETE /flights/{flight_id}` as written: 204 when a row was deleted; the
   * 404 for a missing flight is turned into a 500 by the blanket `except`.
   * The flight's log entries stay.
   */
  method DeleteFlight(repo: FlightRepository, flightId: int) returns (resp: Response)
    requires repo.Valid()
    modifies repo
    ensures repo.Valid()
    ensures resp == if flightId in old(repo.flights) then Response(204, NoContent) else InternalError
    ensures repo.flights == old(repo.flights) - {flightId}
    ensures repo.logs == old(repo.logs) && repo.lastLogId == old(repo.lastLogId)
  {
    var existed := repo.DeleteFlight(flightId);
    resp := if existed then Response(204, NoContent) else InternalError;
  }

  /**
   * `DELETE /flights/{flight_id}` as evidently intended: 404 for a missing
   * flight, and the schema's ON DELETE CASCADE removes the flight's log entries.
   */
  method DeleteFlightIntended(repo: FlightRepository, flightId: int) returns (resp: Response)
    requires repo.Valid()
    modifies repo
    ensures repo.Valid()
    ensures resp == if flightId in old(repo.flights) then Response(204, NoContent) else NotFound
    ensures repo.flights == old(repo.flights) - {flightId}
    ensures repo.logs == WithoutFlight(old(repo.logs), flightId)
    ensures forall e :: e in repo.logs ==> e.flightId != flightId
  {
    var existed := repo.DeleteFlightCascade(flightId);
    resp := if existed then Response(204, NoContent) else NotFound;
  }

  /** On an empty database, deleting flight 1 answers 500 where 404 was meant. */
  method MissingDeleteAnswers500() returns (asWritten: Response, intended: Response)
    ensures asWritten == InternalError && intended == NotFound
  {
    var repo := new FlightRepository();
    asWritten := DeleteFlight(repo, 1);
    var other := new FlightRepository();
    intended := DeleteFlightIntended(other, 1);
  }

  // ---------------------------------------------------------------------------
  // Audited updates
  // ---------------------------------------------------------------------------

  /**
   * The part shared by PUT, PATCH and register once the flight is known to
   * exist: the update, then one audit entry holding the row before and the
   * row read back after, then the read-back row as the answer. A store error
   * is a 500 with nothing written; a read-back that finds nothing (the row
   * moved to another id) still logs the entry, then fails response
   * validation, which the server answers with its own 500.
   */
  method AuditedUpdate(repo: FlightRepository, flightId: int, existing: Row, updates: Dict,
                       changedBy: string, summary: string, now: string) returns (resp: Response)
    requires repo.Valid() && flightId in repo.flights && existing == repo.flights[flightId]
    modifies repo
    ensures repo.Valid()
    ensures match ApplyUpdate(old(repo.flights), flightId, updates, now)
            case Failure(_) =>
              resp == InternalError && repo.flights == old(repo.flights) &&
              repo.logs == old(repo.logs) && repo.lastLogId == old(repo.lastLogId)
            case Success((table, reread)) =>
              && repo.flights == table
              && repo.lastLogId == old(repo.lastLogId) + 1
              && repo.logs == old(repo.logs) + [LogEntry(repo.lastLogId, flightId, now, changedBy, summary,
                                                         Some(existing), reread)]
              && resp == if reread.Some? then Response(200, FlightBody(reread.value)) else Unhandled
  {
    StoredRowIsWhole(repo.flights, flightId);
    ReadBackIsStored(repo.flights, flightId, updates, now);
    var updated := repo.UpdateFlight(flightId, updates, now);
    if updated.Failure? {
      return InternalError;
    }
    var logId := repo.InsertFlightLog(flightId, changedBy, summary, Some(existing), updated.value, now);
    resp := if updated.value.Some? then Response(200, FlightBody(updated.value.value)) else Unhandled;
  }

  /** A row read back after an UPDATE holds its id, so the audit stores it rather than NULL. */
  lemma ReadBackIsStored(flights: map<int, Row>, flightId: int, updates: Dict, now: string)
    ensures var r := ApplyUpdate(flights, flightId, updates, now);
            r.Success? ==> StoredSnapshot(r.value.1) == r.value.1
  {
    var r := ApplyUpdate(flights, flightId, updates, now);
    if r.Success? && r.value.1.Some? {
      assert "flight_id" in r.value.1.value;
    }
  }

  /**
   * `PUT /flights/{flight_id}`: 404 when the flight does not exist; otherwise
   * the `FlightCreate` dict is written as an UPDATE and logged as "replace" by
   * "system". A payload that keeps the id replaces the row in place.
   */
  method ReplaceFlight(repo: FlightRepository, flightId: int, payload: Dict, now: string) returns (resp: Response)
    requires repo.Valid() && CreatePayload(payload)
    modifies repo
    ensures repo.Valid()
    ensures flightId !in old(repo.flights) ==>
              resp == NotFound && repo.flights == old(repo.flights) && repo.logs == old(repo.logs) &&
              repo.lastLogId == old(repo.lastLogId)
    ensures flightId in old(repo.flights) && !MovesRow(payload, flightId) ==>
              var before := old(repo.flights)[flightId];
              var row := UpdatedRow(before, payload, now);
              && resp == Response(200, FlightBody(row))
              && repo.flights == old(repo.flights)[flightId := row]
              && repo.lastLogId == old(repo.lastLogId) + 1
              && repo.logs == old(repo.logs) + [LogEntry(repo.lastLogId, flightId, now, "system", "replace", Some(before), Some(row))]
    ensures flightId in old(repo.flights) && MovesRow(payload, flightId) ==> resp.status == 500
  {
    var existing := repo.GetFlight(flightId);
    if existing.None? {
      return NotFound;
    }
    StoredRowIsWhole(repo.flights, flightId);
    if !MovesRow(payload, flightId) {
      ReplaceFits(existing.value, flightId, payload);
      UpdateInPlaceSucceeds(repo.flights, flightId, payload, now);
    } else {
      MovedRowIsNotReadBack(repo.flights, flightId, payload, now);
    }
    resp := AuditedUpdate(repo, flightId, existing.value, payload, "system", "replace", now);
  }

  /** An UPDATE that writes another id never reads a row back: it fails, or the row moves away. */
  lemma MovedRowIsNotReadBack(flights: map<int, Row>, flightId: int, updates: Dict, now: string)
    requires flightId in flights && MovesRow(updates, flightId)
    ensures var r := ApplyUpdate(flights, flightId, updates, now);
            r.Success? ==> r.value.1.None?
  {
    if updates != [] && FirstUnknown(updates).None? {
      var row := UpdatedRow(flights[flightId], updates, now);
      assert "flight_id" != "updated_at";
      assert Col(row, "flight_id") == Get(updates, "flight_id").value;
    }
  }

  /**
   * `PATCH /flights/{flight_id}`: 404 when the flight does not exist; an
   * empty `FlightUpdate` makes malformed SQL and a 500 with nothing written;
   * otherwise the row is updated in place and logged as "patch" by "system".
   */
  method PatchFlight(repo: FlightRepository, flightId: int, payload: Dict, now: string) returns (resp: Response)
    requires repo.Valid() && UpdatePayload(payload)
    modifies repo
    ensures repo.Valid()
    ensures flightId !in old(repo.flights) || payload == [] ==>
              resp == (if flightId in old(repo.flights) then InternalError else NotFound) &&
              repo.flights == old(repo.flights) && repo.logs == old(repo.logs) && repo.lastLogId == old(repo.lastLogId)
    ensures flightId in old(repo.flights) && payload != [] ==>
              var before := old(repo.flights)[flightId];
              var row := UpdatedRow(before, payload, now);
              && resp == Response(200, FlightBody(row))
              && repo.flights == old(repo.flights)[flightId := row]
              && repo.lastLogId == old(repo.lastLogId) + 1
              && repo.logs == old(repo.logs) + [LogEntry(repo.lastLogId, flightId, now, "system", "patch", Some(before), Some(row))]
  {
    var existing := repo.GetFlight(flightId);
    if existing.None? {
      return NotFound;
    }
    StoredRowIsWhole(repo.flights, flightId);
    if payload != [] {
      PatchFits(existing.value, flightId, payload);
      UpdateInPlaceSucceeds(repo.flights, flightId, payload, now);
    }
    resp := AuditedUpdate(repo, flightId, existing.value, payload, "system", "patch", now);
  }

  // ---------------------------------------------------------------------------
  // Register action
  // ---------------------------------------------------------------------------

  /** `RegisterPayload`; `note` is accepted and never used. */
  datatype RegisterPayload = RegisterPayload(
    changedBy: string,
    newStatus: Option<string>,
    seatsDelta: Option<int>,
    note: Option<string>)

  /**
   * `existing.get("seats_available") or 0`, ready for `+ delta`: NULL, 0 and
   * the empty text are falsy and give 0; a non-empty text cannot be added to
   * an int, which is a TypeError (None here).
   */
  function SeatsBase(v: Value): (r: Option<int>)
    ensures r.None? <==> v.Text? && v.s != ""
  {
    match v
    case Null => Some(0)
    case Int(n) => Some(n)
    case Text(t) => if t == "" then Some(0) else None
  }

  /** How the audit summary shows one update: `f"{key} -> {value}"`. */
  function Describe(item: (string, Value)): string
  {
    item.0 + " -> " + match item.1
                      case Text(t) => t
                      case Int(n) => IntToString(n)
                      case Null => "None"
  }

  /**
   * The updates and summary parts the register action derives from the
   * payload and the stored row: the status when truthy, then the seats when a
   * delta is given. None stands for the TypeError of a non-numeric stored seat count.
   */
  function RegisterChanges(existing: Row, p: RegisterPayload): (r: Option<(Dict, seq<string>)>)
    ensures r.None? <==> p.seatsDelta.Some? && SeatsBase(Col(existing, "seats_available")).None?
    ensures r.Some? ==>
      var (updates, parts) := r.value;
      && |updates| == (if Truthy(p.newStatus) then 1 else 0) + (if p.seatsDelta.Some? then 1 else 0)
      && (Truthy(p.newStatus) ==> updates[0].0 == "status")
      && |parts| == |updates|
      && (forall i :: 0 <= i < |updates| ==> parts[i] == Describe(updates[i]))
      && (forall i :: 0 <= i < |updates| ==> updates[i].0 in {"status", "seats_available"} && updates[i].1 != Null)
      && Get(updates, "status") == (if Truthy(p.newStatus) then Some(Text(p.newStatus.value)) else None)
      && Get(updates, "seats_available") ==
           (if p.seatsDelta.Some? then Some(Int(SeatsBase(Col(existing, "seats_available")).value + p.seatsDelta.value)) else None)
  {
    var statusItem := Item("status", p.newStatus);
    if p.seatsDelta.None? then
      Some((statusItem, DescribeAll(statusItem)))
    else
      match SeatsBase(Col(existing, "seats_available"))
      case None => None
      case Some(base) =>
        var updates := WithSeats(statusItem, base + p.seatsDelta.value);
        Some((updates, DescribeAll(updates)))
  }

  /** The summary parts, one per update, in order. */
  function DescribeAll(updates: seq<(string, Value)>): (parts: seq<string>)
    ensures |parts| == |updates| && forall i :: 0 <= i < |updates| ==> parts[i] == Describe(updates[i])
  {
    seq(|updates|, i requires 0 <= i < |updates| => Describe(updates[i]))
  }

  /** `updates["seats_available"] = n` after the optional status item. */
  function WithSeats(statusItem: seq<(string, Value)>, n: int): (d: Dict)
    requires |statusItem| <= 1 && forall i :: 0 <= i < |statusItem| ==> statusItem[i].0 == "status" && statusItem[i].1.Text?
    ensures |d| == |statusItem| + 1 && forall i :: 0 <= i < |statusItem| ==> d[i] == statusItem[i]
    ensures forall i :: 0 <= i < |d| ==> d[i].0 in {"status", "seats_available"} && d[i].1 != Null
    ensures Get(d, "status") == Get(statusItem, "status")
    ensures Get(d, "seats_available") == Some(Int(n))
  {
    var seats := [("seats_available", Int(n))];
    GetConcat(statusItem, seats, "status");
    GetConcat(statusItem, seats, "seats_available");
    statusItem + seats
  }

  /** The seat count in the summary reads back as the number written to the row. */
  lemma SeatsSummaryRoundTrip(n: int)
    ensures var part := Describe(("seats_available", Int(n)));
            var prefix := "seats_available -> ";
            && part[..|prefix|] == prefix
            && IsNumeral(part[|prefix|..])
            && ParseInt(part[|prefix|..]) == n
  {
    var prefix := "seats_available -> ";
    var part := Describe(("seats_available", Int(n)));
    assert part == prefix + IntToString(n);
    assert part[|prefix|..] == IntToString(n);
    IntToStringRoundTrip(n);
  }

  /** The register updates fit any stored row in place. */
  lemma RegisterFits(row: Row, flightId: int, updates: Dict)
    requires FirstNull(row).None? && Col(row, "flight_id") == Int(flightId)
    requires updates != []
    requires forall i :: 0 <= i < |updates| ==> updates[i].0 in {"status", "seats_available"} && updates[i].1 != Null
    ensures FitsInPlace(row, flightId, updates)
  {
    assert Get(updates, "flight_id").None?;
  }

  /**
   * `POST /flights/{flight_id}/register`: 404 when the flight does not exist;
   * 500 when the stored seat count is a non-empty text; 400 when the payload
   * asks for nothing; otherwise the row is updated in place and logged with
   * the caller's name and a summary listing each change.
   */
  method RegisterAction(repo: FlightRepository, flightId: int, p: RegisterPayload, now: string) returns (resp: Response)
    requires repo.Valid()
    modifies repo
    ensures repo.Valid()
    ensures flightId !in old(repo.flights) ==>
              resp == NotFound && repo.flights == old(repo.flights) && repo.logs == old(repo.logs) &&
              repo.lastLogId == old(repo.lastLogId)
    ensures flightId in old(repo.flights) ==>
              match RegisterChanges(old(repo.flights)[flightId], p)
              case None =>
                resp == Unhandled && repo.flights == old(repo.flights) && repo.logs == old(repo.logs) &&
                repo.lastLogId == old(repo.lastLogId)
              case Some((updates, parts)) =>
                if updates == [] then
                  resp == Response(400, Detail("nothing to update in register")) && repo.flights == old(repo.flights) &&
                  repo.logs == old(repo.logs) && repo.lastLogId == old(repo.lastLogId)
                else
                  var before := old(repo.flights)[flightId];
                  var row := UpdatedRow(before, updates, now);
                  && resp == Response(200, FlightBody(row))
                  && repo.flights == old(repo.flights)[flightId := row]
                  && repo.lastLogId == old(repo.lastLogId) + 1
                  && repo.logs == old(repo.logs) + [LogEntry(repo.lastLogId, flightId, now, p.changedBy,
                                                             "register: " + Join(parts, "; "), Some(before), Some(row))]
  {
    var existing := repo.GetFlight(flightId);
    if existing.None? {
      return NotFound;
    }
    var changes := RegisterChanges(existing.value, p);
    if changes.None? {
      return Unhandled;
    }
    var (updates, parts) := changes.value;
    if updates == [] {
      return Response(400, Detail("nothing to update in register"));
    }
    StoredRowIsWhole(repo.flights, flightId);
    RegisterFits(existing.value, flightId, updates);
    UpdateInPlaceSucceeds(repo.flights, flightId, updates, now);
    resp := AuditedUpdate(repo, flightId, existing.value, updates, p.changedBy, "register: " + Join(parts, "; "), now);
  }
}
