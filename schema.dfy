/**
 * The shape of the data: the columns of the `flights` table (app/db.py), the
 * field names the request models accept (app/models.py), SQLite values, rows
 * as read back from the store, and the ordered dictionaries the handlers pass
 * down to the repository.
 */
module Schema {
  import opened Wrappers
  import opened Strings

  /** A value SQLite stores or binds: NULL, an INTEGER or a TEXT. */
  datatype Value = Null | Int(i: int) | Text(s: string)

  /** The fourteen columns of the `flights` table. */
  const ColumnNames: set<string> := {
    "flight_id", "flight_number", "origin", "destination",
    "departure_time", "arrival_time", "duration_minutes",
    "aircraft_type", "seats_total", "seats_available",
    "status", "created_at", "updated_at", "process_id"
  }

  /** The columns declared `NOT NULL`. */
  const RequiredColumns: set<string> := {"flight_number", "origin", "destination"}

  /** The fields of the partial-update request model (`FlightUpdate`). */
  const UpdateFields: set<string> := {
    "flight_number", "origin", "destination", "departure_time", "arrival_time",
    "duration_minutes", "aircraft_type", "seats_total", "seats_available",
    "status", "process_id"
  }

  /** The fields of the create/replace request model (`FlightCreate`). */
  const CreateFields: set<string> := UpdateFields + {"flight_id"}

  /** Every column name is a bare lower-case identifier, so it can be written into SQL text as it is. */
  lemma ColumnsAreIdentifiers()
    ensures forall c :: c in ColumnNames ==> IsIdentifier(c)
    ensures RequiredColumns <= UpdateFields < CreateFields <= ColumnNames
  {
  }

  /** A row as `dict(row)` gives it: column name to value. */
  type Row = map<string, Value>

  /** A row as the table holds it: every column present, the `NOT NULL` ones non-null. */
  predicate IsFullRow(r: Row)
  {
    r.Keys == ColumnNames && forall c :: c in RequiredColumns ==> r[c] != Null
  }

  predicate DistinctKeys(d: seq<(string, Value)>)
  {
    forall i, j :: 0 <= i < j < |d| ==> d[i].0 != d[j].0
  }

  /** A Python dict from column names to values: its items in insertion order, no key twice. */
  type Dict = d: seq<(string, Value)> | DistinctKeys(d) witness []

  /** `list(d.keys())` */
  function KeysOf(d: seq<(string, Value)>): (ks: seq<string>)
    ensures |ks| == |d|
  {
    seq(|d|, i requires 0 <= i < |d| => d[i].0)
  }

  /** `list(d.values())` */
  function ValuesOf(d: seq<(string, Value)>): (vs: seq<Value>)
    ensures |vs| == |d|
  {
    seq(|d|, i requires 0 <= i < |d| => d[i].1)
  }

  /** `d.get(k)`: the value stored under `k`, if any. */
  function Get(d: seq<(string, Value)>, k: string): (r: Option<Value>)
    ensures r.None? <==> k !in KeysOf(d)
    ensures r.Some? ==> (k, r.value) in d
  {
    if d == [] then None
    else
      assert KeysOf(d) == [d[0].0] + KeysOf(d[1..]);
      if d[0].0 == k then Some(d[0].1) else Get(d[1..], k)
  }

  /** In a dict, the value found under a key is the one paired with it. */
  lemma GetItem(d: Dict, i: nat)
    requires i < |d|
    ensures Get(d, d[i].0) == Some(d[i].1)
  {
    if i > 0 {
      assert d[1..][i - 1] == d[i];
      GetItem(d[1..], i - 1);
    }
  }

  /** `{**row, **d}`: the row with every item of `d` written over it, in order. */
  function Overwrite(row: Row, d: Dict): (r: Row)
    ensures r.Keys == row.Keys + set k | k in KeysOf(d)
    ensures forall k :: k in r ==> r[k] == match Get(d, k) case Some(v) => v case None => row[k]
    decreases |d|
  {
    if d == [] then row
    else
      assert KeysOf(d) == [d[0].0] + KeysOf(d[1..]);
      Overwrite(row[d[0].0 := d[0].1], d[1..])
  }
}
