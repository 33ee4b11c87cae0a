/**
 * The repository's effect on the database (app/repositories.py), with the two
 * SQLite tables held in memory: `flights` as a map from `flight_id` to its
 * row, `flight_logs` as the sequence of its entries. The statement each
 * repository function sends is the one built in `Queries`; what SQLite does
 * with it is stated here as a function of the old table, and the class
 * methods are proved to change the tables exactly that way.
 *
 * The clock (`datetime('now')`) is a parameter `now`; every connection opens
 * with foreign keys off, which is SQLite's default and what `get_connection`
 * leaves in place, so no ON DELETE CASCADE fires and a log entry may name a
 * flight that does not exist.
 */
module Store {
  import opened Wrappers
  import opened Schema

  /** What a repository call raises as `RuntimeError("Database error: ...")`. */
  datatype StoreError =
    | Malformed          // the statement text is not valid SQL
    | NoColumnNamed(name: string)   // an INSERT names a column the table lacks
    | NoSuchColumn(name: string)    // an UPDATE sets a column the table lacks
    | IdMismatch         // a non-integer written to the INTEGER PRIMARY KEY
    | NotNull(column: string)
    | IdTaken(id: int)   // UNIQUE constraint on the primary key

  /** The text after "Database error: " in the RuntimeError: SQLite's own message for each failure. */
  function ErrorText(e: StoreError): (text: string)
    ensures e.NoColumnNamed? ==> text == "table flights has no column named " + e.name
    ensures e.NoSuchColumn? ==> text == "no such column: " + e.name
    ensures e.NotNull? ==> text == "NOT NULL constraint failed: flights." + e.column
  {
    match e
    case Malformed => "syntax error"
    case NoColumnNamed(name) => "table flights has no column named " + name
    case NoSuchColumn(name) => "no such column: " + name
    case IdMismatch => "datatype mismatch"
    case NotNull(column) => "NOT NULL constraint failed: flights." + column
    case IdTaken(_) => "UNIQUE constraint failed: flights.flight_id"
  }

  // ---------------------------------------------------------------------------
  // The flights table
  // ---------------------------------------------------------------------------

  /** Every stored row is complete, and sits under its own `flight_id`. */
  predicate TableInvariant(flights: map<int, Row>)
  {
    forall id :: id in flights ==> IsFullRow(flights[id]) && flights[id]["flight_id"] == Int(id)
  }

  lemma LargestOf(ids: set<int>) returns (m: int)
    requires ids != {}
    ensures m in ids
    ensures forall k :: k in ids ==> k <= m
  {
    assert exists y :: y in ids by {
      if forall y :: y !in ids {
        assert false;
      }
    }
    var x :| x in ids;
    if ids == {x} {
      m := x;
      assert forall k :: k in ids ==> k <= m;
    } else {
      var rest := ids - {x};
      var r := LargestOf(rest);
      assert forall k :: k in rest ==> k <= r;
      m := if x > r then x else r;
      assert forall k :: k in rest ==> k <= m;
      assert forall k :: k in ids ==> k == x || k in rest;
      assert forall k :: k in ids ==> k <= m;
    }
  }

  function MaxKey(ids: set<int>): (m: int)
    requires ids != {}
    ensures m in ids && forall k :: k in ids ==> k <= m
  {
    assert exists m :: m in ids && forall k :: k in ids ==> k <= m by {
      var m := LargestOf(ids);
    }
    var m :| m in ids && forall k :: k in ids ==> k <= m; m
  }

  /** The rowid SQLite gives a row inserted without one: one past the largest, or 1 in an empty table. */
  function NewRowId(flights: map<int, Row>): (id: int)
    ensures id !in flights && forall k :: k in flights ==> k < id
    ensures flights == map[] ==> id == 1
  {
    if flights == map[] then 1 else MaxKey(flights.Keys) + 1
  }

  /** A row before the INSERT's values are written: NULL everywhere, both timestamps at their default. */
  function DefaultRow(now: string): (r: Row)
    ensures r.Keys == ColumnNames
  {
    map c | c in ColumnNames :: if c == "created_at" || c == "updated_at" then Text(now) else Null
  }

  /** The first key, in dict order, that names no column; SQLite reports that one. */
  function FirstUnknown(d: seq<(string, Value)>): (r: Option<string>)
    ensures r.None? <==> forall i :: 0 <= i < |d| ==> d[i].0 in ColumnNames
    ensures r.Some? ==> r.value !in ColumnNames
    ensures r.Some? ==> exists i :: 0 <= i < |d| && d[i].0 == r.value && forall j :: 0 <= j < i ==> d[j].0 in ColumnNames
  {
    if d == [] then None
    else if d[0].0 !in ColumnNames then Some(d[0].0)
    else
      var r := FirstUnknown(d[1..]);
      assert forall i :: 1 <= i < |d| ==> d[i] == d[1..][i - 1];
      if r.Some? then
        var i :| 0 <= i < |d[1..]| && d[1..][i].0 == r.value && forall j :: 0 <= j < i ==> d[1..][j].0 in ColumnNames;
        assert d[i + 1].0 == r.value && forall j :: 0 <= j < i + 1 ==> d[j].0 in ColumnNames;
        r
      else r
  }

  /** What a row holds in a column; a column it lacks reads as NULL. */
  function Col(row: Row, c: string): Value
  {
    if c in row then row[c] else Null
  }

  /** The first NOT NULL column, in declaration order, that holds NULL. */
  function FirstNull(row: Row): (r: Option<string>)
    ensures r.None? <==> forall c :: c in RequiredColumns ==> Col(row, c) != Null
    ensures r.Some? ==> r.value in RequiredColumns && Col(row, r.value) == Null
    ensures r == Some("origin") ==> Col(row, "flight_number") != Null
    ensures r == Some("destination") ==> Col(row, "flight_number") != Null && Col(row, "origin") != Null
  {
    if Col(row, "flight_number") == Null then Some("flight_number")
    else if Col(row, "origin") == Null then Some("origin")
    else if Col(row, "destination") == Null then Some("destination")
    else None
  }

  /** Storing a complete row under its own id keeps the table invariant. */
  lemma StoreKeepsTable(flights: map<int, Row>, id: int, row: Row)
    requires TableInvariant(flights)
    requires IsFullRow(row) && row["flight_id"] == Int(id)
    ensures TableInvariant(flights[id := row])
  {
  }

  /** A row with every column and no NULL where one is not allowed is complete. */
  lemma CompleteRow(row: Row)
    requires row.Keys == ColumnNames && FirstNull(row).None?
    ensures IsFullRow(row)
  {
    forall c | c in RequiredColumns ensures row[c] != Null {
      assert Col(row, c) != Null;
    }
  }

  // ---------------------------------------------------------------------------
  // INSERT
  // ---------------------------------------------------------------------------

  /** The id an INSERT writes: the integer given under `flight_id`, or a new rowid when none (or NULL) is given. */
  function InsertId(flights: map<int, Row>, data: Dict): (id: int)
    ensures Get(data, "flight_id").Some? && Get(data, "flight_id").value.Int? ==> Int(id) == Get(data, "flight_id").value
    ensures Get(data, "flight_id").None? || Get(data, "flight_id") == Some(Null) ==> id == NewRowId(flights) && id !in flights
  {
    match Get(data, "flight_id")
    case Some(Int(i)) => i
    case _ => NewRowId(flights)
  }

  /** The row an INSERT of `data` writes under `id`: the dict over the column defaults. */
  function InsertedRow(data: Dict, now: string, id: int): Row
  {
    Overwrite(DefaultRow(now), data)["flight_id" := Int(id)]
  }

  /** The written row has every column, holds each value of `data` under its key, and the default everywhere else. */
  lemma InsertedRowContents(data: Dict, now: string, id: int)
    requires forall i :: 0 <= i < |data| ==> data[i].0 in ColumnNames
    ensures var row := InsertedRow(data, now, id);
            && row.Keys == ColumnNames
            && row["flight_id"] == Int(id)
            && (forall i :: 0 <= i < |data| && data[i].0 != "flight_id" ==> row[data[i].0] == data[i].1)
            && (forall c :: c in ColumnNames && c !in KeysOf(data) && c != "flight_id" ==>
                  row[c] == if c == "created_at" || c == "updated_at" then Text(now) else Null)
  {
    OverwriteExisting(DefaultRow(now), data);
  }

  /**
   * `create_flight`: the INSERT of `data`, then the read-back by the new id.
   * SQLite rejects, in this order: an empty column list, a key that names no
   * column, a text id, a NULL in a NOT NULL column, an id already taken.
   */
  function ApplyInsert(flights: map<int, Row>, data: Dict, now: string): (r: Result<(map<int, Row>, Row), StoreError>)
    ensures data == [] ==> r == Failure(Malformed)
    ensures data != [] && FirstUnknown(data).Some? ==> r == Failure(NoColumnNamed(FirstUnknown(data).value))
    ensures r.Failure? && r.error.IdTaken? ==> r.error.id in flights
    ensures r.Success? ==>
      && data != [] && FirstUnknown(data).None?
      && var id := InsertId(flights, data);
      && id !in flights
      && FirstNull(InsertedRow(data, now, id)).None?
      && r.value == (flights[id := InsertedRow(data, now, id)], InsertedRow(data, now, id))
  {
    if data == [] then Failure(Malformed)
    else if FirstUnknown(data).Some? then Failure(NoColumnNamed(FirstUnknown(data).value))
    else
      var given := Get(data, "flight_id");
      if given.Some? && given.value.Text? then Failure(IdMismatch)
      else
        var id := InsertId(flights, data);
        var row := InsertedRow(data, now, id);
        if FirstNull(row).Some? then Failure(NotNull(FirstNull(row).value))
        else if id in flights then Failure(IdTaken(id))
        else Success((flights[id := row], row))
  }

  /** A successful INSERT stores a complete row under its own new id. */
  lemma InsertKeepsTable(flights: map<int, Row>, data: Dict, now: string)
    requires TableInvariant(flights)
    ensures ApplyInsert(flights, data, now).Success? ==>
              && IsFullRow(ApplyInsert(flights, data, now).value.1)
              && TableInvariant(ApplyInsert(flights, data, now).value.0)
  {
    var r := ApplyInsert(flights, data, now);
    if r.Success? {
      var id := InsertId(flights, data);
      var row := InsertedRow(data, now, id);
      InsertedRowContents(data, now, id);
      CompleteRow(row);
      StoreKeepsTable(flights, id, row);
    }
  }

  /**
   * A dict of known columns, with no NULL value, every NOT NULL column and an
   * integer id if any: what a validated `FlightCreate` gives.
   */
  predicate InsertableData(data: Dict)
  {
    && (forall i :: 0 <= i < |data| ==> data[i].0 in ColumnNames && data[i].1 != Null)
    && (forall c :: c in RequiredColumns ==> c in KeysOf(data))
    && (Get(data, "flight_id").Some? ==> Get(data, "flight_id").value.Int?)
  }

  /**
   * The INSERT of such a dict fails exactly when the id it names is already
   * taken, and then with the UNIQUE error; otherwise it stores the row.
   */
  lemma InsertFailsOnlyOnTakenId(flights: map<int, Row>, data: Dict, now: string)
    requires InsertableData(data)
    ensures InsertId(flights, data) in flights <==>
              Get(data, "flight_id").Some? && Get(data, "flight_id").value.i in flights
    ensures var id := InsertId(flights, data);
            ApplyInsert(flights, data, now) ==
              if id in flights then Failure(IdTaken(id))
              else Success((flights[id := InsertedRow(data, now, id)], InsertedRow(data, now, id)))
  {
    var id := InsertId(flights, data);
    InsertableReachesIdCheck(data);
    InsertedRowFull(data, now, id);
  }

  /** Such a dict passes SQLite's checks that come before the NOT NULL and UNIQUE ones. */
  lemma InsertableReachesIdCheck(data: Dict)
    requires InsertableData(data)
    ensures data != [] && FirstUnknown(data).None?
    ensures Get(data, "flight_id").Some? ==> !Get(data, "flight_id").value.Text?
  {
    assert "origin" in KeysOf(data);
  }

  /** Under the same conditions the written row is complete. */
  lemma InsertedRowFull(data: Dict, now: string, id: int)
    requires InsertableData(data)
    ensures FirstNull(InsertedRow(data, now, id)).None?
  {
    var written := Overwrite(DefaultRow(now), data);
    forall c | c in RequiredColumns ensures Col(written, c) != Null {
      OverwriteCovers(DefaultRow(now), data, c);
    }
  }

  /** A key the dict has is in the overwritten row, with the dict's non-null value. */
  lemma OverwriteCovers(row: Row, d: Dict, k: string)
    requires k in KeysOf(d) && forall i :: 0 <= i < |d| ==> d[i].1 != Null
    ensures k in Overwrite(row, d) && Overwrite(row, d)[k] != Null
  {
    var i :| 0 <= i < |KeysOf(d)| && KeysOf(d)[i] == k;
    GetItem(d, i);
  }

  /** Writing a dict over a row whose keys it already has: its values win, every other entry stays. */
  lemma OverwriteExisting(row: Row, d: Dict)
    requires forall i :: 0 <= i < |d| ==> d[i].0 in row
    ensures Overwrite(row, d).Keys == row.Keys
    ensures forall i :: 0 <= i < |d| ==> Overwrite(row, d)[d[i].0] == d[i].1
    ensures forall k :: k in row && k !in KeysOf(d) ==> Overwrite(row, d)[k] == row[k]
  {
    forall i | 0 <= i < |d| ensures Overwrite(row, d)[d[i].0] == d[i].1 {
      GetItem(d, i);
    }
  }

  // ---------------------------------------------------------------------------
  // UPDATE
  // ---------------------------------------------------------------------------

  /** The row an UPDATE of `updates` leaves: their values written over the old row, `updated_at` set to now. */
  function UpdatedRow(row: Row, updates: Dict, now: string): Row
  {
    Overwrite(row, updates)["updated_at" := Text(now)]
  }

  /** An updated row keeps every column, takes each update's value, keeps the rest, and is stamped with `now`. */
  lemma UpdatedRowContents(row: Row, updates: Dict, now: string)
    requires "updated_at" in row
    requires forall i :: 0 <= i < |updates| ==> updates[i].0 in row
    ensures var r := UpdatedRow(row, updates, now);
            && r.Keys == row.Keys
            && r["updated_at"] == Text(now)
            && (forall i :: 0 <= i < |updates| && updates[i].0 != "updated_at" ==> r[updates[i].0] == updates[i].1)
            && (forall c :: c in row && c !in KeysOf(updates) && c != "updated_at" ==> r[c] == row[c])
  {
    OverwriteExisting(row, updates);
  }

  /**
   * `update_flight`: the UPDATE of `updates` on the row with `flightId`,
   * followed by the read-back under the same id. Without a row nothing is
   * changed and nothing is read back.
   */
  function ApplyUpdate(flights: map<int, Row>, flightId: int, updates: Dict, now: string)
    : (r: Result<(map<int, Row>, Option<Row>), StoreError>)
    ensures updates == [] ==> r == Failure(Malformed)
    ensures updates != [] && FirstUnknown(updates).Some? ==> r == Failure(NoSuchColumn(FirstUnknown(updates).value))
    ensures updates != [] && FirstUnknown(updates).None? && flightId !in flights ==> r == Success((flights, None))
    ensures updates != [] && FirstUnknown(updates).None? && flightId in flights ==>
              r == WriteBack(flights, flightId, UpdatedRow(flights[flightId], updates, now))
  {
    if updates == [] then Failure(Malformed)
    else if FirstUnknown(updates).Some? then Failure(NoSuchColumn(FirstUnknown(updates).value))
    else if flightId !in flights then Success((flights, None))
    else WriteBack(flights, flightId, UpdatedRow(flights[flightId], updates, now))
  }

  /**
   * The UPDATE's write of the new `row` for the flight stored under
   * `flightId`, and the read-back by that id. A `flight_id` in the row other
   * than the old one moves the row, after which the read-back finds nothing.
   */
  function WriteBack(flights: map<int, Row>, flightId: int, row: Row): (r: Result<(map<int, Row>, Option<Row>), StoreError>)
    ensures r.Failure? <==> !Col(row, "flight_id").Int? || FirstNull(row).Some? ||
                            (Col(row, "flight_id") != Int(flightId) && Col(row, "flight_id").i in flights)
    ensures r.Success? ==>
      && (r.value.1.Some? <==> Col(row, "flight_id") == Int(flightId))
      && (r.value.1.Some? ==> r.value == (flights[flightId := row], Some(row)))
      && (r.value.1.None? ==> r.value.0 == (flights - {flightId})[Col(row, "flight_id").i := row])
  {
    var newId := Col(row, "flight_id");
    if !newId.Int? then Failure(IdMismatch)
    else if FirstNull(row).Some? then Failure(NotNull(FirstNull(row).value))
    else if newId.i != flightId && newId.i in flights then Failure(IdTaken(newId.i))
    else if newId.i == flightId then Success((flights[flightId := row], Some(row)))
    else Success(((flights - {flightId})[newId.i := row], None))
  }

  /** A successful UPDATE leaves every row complete and under its own id. */
  lemma UpdateKeepsTable(flights: map<int, Row>, flightId: int, updates: Dict, now: string)
    requires TableInvariant(flights)
    ensures ApplyUpdate(flights, flightId, updates, now).Success? ==>
              TableInvariant(ApplyUpdate(flights, flightId, updates, now).value.0)
  {
    if updates != [] && FirstUnknown(updates).None? && flightId in flights {
      var old_ := flights[flightId];
      var row := UpdatedRow(old_, updates, now);
      assert row.Keys == ColumnNames by {
        UpdatedRowContents(old_, updates, now);
      }
      WriteBackKeepsTable(flights, flightId, row);
    }
  }

  lemma WriteBackKeepsTable(flights: map<int, Row>, flightId: int, row: Row)
    requires TableInvariant(flights) && row.Keys == ColumnNames
    ensures WriteBack(flights, flightId, row).Success? ==> TableInvariant(WriteBack(flights, flightId, row).value.0)
  {
    var r := WriteBack(flights, flightId, row);
    if r.Success? {
      CompleteRow(row);
      var newId := row["flight_id"].i;
      if newId == flightId {
        StoreKeepsTable(flights, flightId, row);
      } else {
        StoreKeepsTable(flights - {flightId}, newId, row);
      }
    }
  }

  /**
   * Non-empty updates of known columns, with no NULL value and no other id
   * (what a validated `FlightUpdate`, or the register action, gives), for a
   * stored row that has its id and its NOT NULL columns.
   */
  predicate FitsInPlace(row: Row, id: int, updates: Dict)
  {
    && FirstNull(row).None? && Col(row, "flight_id") == Int(id)
    && updates != []
    && (forall i :: 0 <= i < |updates| ==> updates[i].0 in ColumnNames && updates[i].1 != Null)
    && (Get(updates, "flight_id").Some? ==> Get(updates, "flight_id").value == Int(id))
  }

  /** Such an UPDATE succeeds in place and the read-back is the updated row. */
  lemma UpdateInPlaceSucceeds(flights: map<int, Row>, flightId: int, updates: Dict, now: string)
    requires flightId in flights && FitsInPlace(flights[flightId], flightId, updates)
    ensures var row := UpdatedRow(flights[flightId], updates, now);
            ApplyUpdate(flights, flightId, updates, now) == Success((flights[flightId := row], Some(row)))
  {
    assert FirstUnknown(updates).None?;
    UpdatedRowKeepsId(flights[flightId], updates, now, flightId);
    UpdatedRowNoNull(flights[flightId], updates, now);
    WriteBackInPlace(flights, flightId, UpdatedRow(flights[flightId], updates, now));
  }

  /** A row that keeps its id and has no NULL in a NOT NULL column is written in place and read back. */
  lemma WriteBackInPlace(flights: map<int, Row>, flightId: int, row: Row)
    requires Col(row, "flight_id") == Int(flightId) && FirstNull(row).None?
    ensures WriteBack(flights, flightId, row) == Success((flights[flightId := row], Some(row)))
  {
  }

  /** An update that writes no other id leaves the row's id as it was. */
  lemma UpdatedRowKeepsId(row: Row, updates: Dict, now: string, id: int)
    requires Col(row, "flight_id") == Int(id)
    requires Get(updates, "flight_id").Some? ==> Get(updates, "flight_id").value == Int(id)
    ensures Col(UpdatedRow(row, updates, now), "flight_id") == Int(id)
  {
    assert "flight_id" in Overwrite(row, updates);
  }

  /** An update that writes no NULL leaves the NOT NULL columns non-null. */
  lemma UpdatedRowNoNull(row: Row, updates: Dict, now: string)
    requires FirstNull(row).None?
    requires forall i :: 0 <= i < |updates| ==> updates[i].1 != Null
    ensures FirstNull(UpdatedRow(row, updates, now)).None?
  {
    var written := Overwrite(row, updates);
    forall c | c in RequiredColumns ensures Col(UpdatedRow(row, updates, now), c) != Null {
      assert Col(row, c) != Null;
      OverwriteNonNull(row, updates, c);
    }
  }

  /** A complete row has its NOT NULL columns non-null. */
  lemma FullRowHasNoNull(row: Row)
    requires IsFullRow(row)
    ensures FirstNull(row).None?
  {
    forall c | c in RequiredColumns ensures Col(row, c) != Null {
      assert c in ColumnNames;
    }
  }

  /** Writing non-null values over a non-null entry leaves it non-null. */
  lemma OverwriteNonNull(row: Row, d: Dict, k: string)
    requires k in row && row[k] != Null
    requires forall i :: 0 <= i < |d| ==> d[i].1 != Null
    ensures k in Overwrite(row, d) && Overwrite(row, d)[k] != Null
  {
    var g := Get(d, k);
    if g.Some? {
      var i :| 0 <= i < |d| && d[i] == (k, g.value);
    }
  }

  // ---------------------------------------------------------------------------
  // The flight_logs table
  // ---------------------------------------------------------------------------

  /** One row of `flight_logs`; a snapshot is kept as the dict itself (the JSON text is not modelled). */
  datatype LogEntry = LogEntry(
    id: int,
    flightId: int,
    changedAt: string,
    changedBy: string,
    changeSummary: string,
    oldData: Option<Row>,
    newData: Option<Row>)

  /** `json.dumps(d) if d else None`: a missing or empty dict is stored as NULL. */
  function StoredSnapshot(d: Option<Row>): (r: Option<Row>)
    ensures r.None? <==> d.None? || d.value == map[]
    ensures r.Some? ==> r.value == d.value
  {
    if d.Some? && d.value != map[] then d else None
  }

  /** AUTOINCREMENT ids: increasing, and never above the largest id ever issued. */
  predicate LogInvariant(logs: seq<LogEntry>, lastLogId: int)
  {
    && lastLogId >= 0
    && (forall i :: 0 <= i < |logs| ==> 0 < logs[i].id <= lastLogId)
    && (forall i, j :: 0 <= i < j < |logs| ==> logs[i].id < logs[j].id)
  }

  /** A log entry never reuses an id, even one whose entry is gone. */
  lemma AppendKeepsLogInvariant(logs: seq<LogEntry>, lastLogId: int, e: LogEntry)
    requires LogInvariant(logs, lastLogId)
    requires e.id == lastLogId + 1
    ensures LogInvariant(logs + [e], e.id)
    ensures forall i :: 0 <= i < |logs| ==> logs[i].id != e.id
  {
  }

  /** The entries a cascade leaves: those naming another flight, in their order. */
  function WithoutFlight(logs: seq<LogEntry>, flightId: int): (r: seq<LogEntry>)
    ensures |r| <= |logs|
    ensures forall e :: e in r <==> e in logs && e.flightId != flightId
  {
    if logs == [] then []
    else if logs[0].flightId == flightId then WithoutFlight(logs[1..], flightId)
    else [logs[0]] + WithoutFlight(logs[1..], flightId)
  }

  /** Dropping entries keeps the AUTOINCREMENT counter's invariant. */
  lemma {:induction false} CascadeKeepsLogInvariant(logs: seq<LogEntry>, lastLogId: int, flightId: int)
    requires LogInvariant(logs, lastLogId)
    ensures LogInvariant(WithoutFlight(logs, flightId), lastLogId)
  {
    if logs != [] {
      var tail := logs[1..];
      LogTail(logs, lastLogId);
      CascadeKeepsLogInvariant(tail, lastLogId, flightId);
      if logs[0].flightId != flightId {
        var rest := WithoutFlight(tail, flightId);
        forall j | 0 <= j < |rest| ensures logs[0].id < rest[j].id {
          LaterEntry(logs, rest[j]);
        }
        LogCons(logs[0], rest, lastLogId);
      }
    }
  }

  lemma LogTail(logs: seq<LogEntry>, lastLogId: int)
    requires logs != [] && LogInvariant(logs, lastLogId)
    ensures LogInvariant(logs[1..], lastLogId)
  {
    forall i | 0 <= i < |logs| - 1 ensures logs[1..][i] == logs[i + 1] { }
  }

  lemma LaterEntry(logs: seq<LogEntry>, e: LogEntry)
    requires logs != [] && (forall i, j :: 0 <= i < j < |logs| ==> logs[i].id < logs[j].id)
    requires e in logs[1..]
    ensures logs[0].id < e.id
  {
    var k :| 0 <= k < |logs[1..]| && logs[1..][k] == e;
    assert logs[k + 1] == e;
  }

  lemma LogCons(e: LogEntry, rest: seq<LogEntry>, lastLogId: int)
    requires LogInvariant(rest, lastLogId) && 0 < e.id <= lastLogId
    requires forall j :: 0 <= j < |rest| ==> e.id < rest[j].id
    ensures LogInvariant([e] + rest, lastLogId)
  {
    var r := [e] + rest;
    assert forall i :: 1 <= i < |r| ==> r[i] == rest[i - 1];
  }

  // ---------------------------------------------------------------------------
  // The repository
  // ---------------------------------------------------------------------------

  class FlightRepository {
    var flights: map<int, Row>
    var logs: seq<LogEntry>
    /** The `sqlite_sequence` entry of `flight_logs`: the largest log id ever issued. */
    var lastLogId: int

    ghost predicate Valid()
      reads this
    {
      TableInvariant(flights) && LogInvariant(logs, lastLogId)
    }

    /** A freshly initialised database: both tables empty. */
    constructor ()
      ensures Valid()
      ensures flights == map[] && logs == [] && lastLogId == 0
    {
      flights := map[];
      logs := [];
      lastLogId := 0;
    }

    /** `get_flight`: the row stored under `flightId`, or None when there is none. */
    method GetFlight(flightId: int) returns (r: Option<Row>)
      requires Valid()
      ensures r.None? <==> flightId !in flights
      ensures r.Some? ==> r.value == flights[flightId] && IsFullRow(r.value) && r.value["flight_id"] == Int(flightId)
    {
      if flightId in flights {
        r := Some(flights[flightId]);
      } else {
        r := None;
      }
    }

    /** `create_flight`: the row as read back after the INSERT. */
    method CreateFlight(data: Dict, now: string) returns (r: Result<Row, StoreError>)
      requires Valid()
      modifies this
      ensures Valid()
      ensures logs == old(logs) && lastLogId == old(lastLogId)
      ensures match ApplyInsert(old(flights), data, now)
              case Success((table, row)) => r == Success(row) && flights == table
              case Failure(e) => r == Failure(e) && flights == old(flights)
    {
      var outcome := ApplyInsert(flights, data, now);
      InsertKeepsTable(flights, data, now);
      if outcome.Success? {
        flights := outcome.value.0;
        r := Success(outcome.value.1);
      } else {
        r := Failure(outcome.error);
      }
    }

    /** `update_flight`: the row read back by the old id after the UPDATE, or None. */
    method UpdateFlight(flightId: int, updates: Dict, now: string) returns (r: Result<Option<Row>, StoreError>)
      requires Valid()
      modifies this
      ensures Valid()
      ensures logs == old(logs) && lastLogId == old(lastLogId)
      ensures match ApplyUpdate(old(flights), flightId, updates, now)
              case Success((table, reread)) => r == Success(reread) && flights == table
              case Failure(e) => r == Failure(e) && flights == old(flights)
    {
      var outcome := ApplyUpdate(flights, flightId, updates, now);
      UpdateKeepsTable(flights, flightId, updates, now);
      if outcome.Success? {
        flights := outcome.value.0;
        r := Success(outcome.value.1);
      } else {
        r := Failure(outcome.error);
      }
    }

    /**
     * `delete_flight` as the source runs it: `rowcount > 0` tells whether a
     * row existed. The connection has foreign keys off, so the flight's log
     * entries stay behind.
     */
    method DeleteFlight(flightId: int) returns (existed: bool)
      requires Valid()
      modifies this
      ensures Valid()
      ensures existed <==> flightId in old(flights)
      ensures flights == old(flights) - {flightId}
      ensures logs == old(logs) && lastLogId == old(lastLogId)
    {
      existed := flightId in flights;
      flights := flights - {flightId};
    }

    /** `delete_flight` with the schema's ON DELETE CASCADE in force: the flight's log entries go too. */
    method DeleteFlightCascade(flightId: int) returns (existed: bool)
      requires Valid()
      modifies this
      ensures Valid()
      ensures existed <==> flightId in old(flights)
      ensures flights == old(flights) - {flightId}
      ensures logs == WithoutFlight(old(logs), flightId) && lastLogId == old(lastLogId)
      ensures forall e :: e in logs ==> e.flightId != flightId
    {
      existed := flightId in flights;
      flights := flights - {flightId};
      CascadeKeepsLogInvariant(logs, lastLogId, flightId);
      logs := WithoutFlight(logs, flightId);
    }

    /** `insert_flight_log`: one entry appended under the next AUTOINCREMENT id, which is returned. */
    method InsertFlightLog(flightId: int, changedBy: string, changeSummary: string,
                           oldData: Option<Row>, newData: Option<Row>, now: string) returns (logId: int)
      requires Valid()
      modifies this
      ensures Valid()
      ensures logId == old(lastLogId) + 1 && lastLogId == logId
      ensures forall e :: e in old(logs) ==> e.id < logId
      ensures logs == old(logs) + [LogEntry(logId, flightId, now, changedBy, changeSummary,
                                            StoredSnapshot(oldData), StoredSnapshot(newData))]
      ensures flights == old(flights)
    {
      logId := lastLogId + 1;
      var entry := LogEntry(logId, flightId, now, changedBy, changeSummary, StoredSnapshot(oldData), StoredSnapshot(newData));
      AppendKeepsLogInvariant(logs, lastLogId, entry);
      logs := logs + [entry];
      lastLogId := logId;
    }
  }

  /**
   * Deleting a flight that has an audit entry, as the source runs it, leaves
   * that entry naming a flight that no longer exists.
   */
  method OrphanedLog(repo: FlightRepository, flightId: int, now: string) returns (orphan: LogEntry)
    requires repo.Valid() && flightId in repo.flights
    modifies repo
    ensures repo.Valid()
    ensures orphan in repo.logs && orphan.flightId == flightId && flightId !in repo.flights
  {
    var snapshot := repo.GetFlight(flightId);
    var logId := repo.InsertFlightLog(flightId, "system", "patch", snapshot, snapshot, now);
    orphan := repo.logs[|repo.logs| - 1];
    var existed := repo.DeleteFlight(flightId);
  }
}
