/**
 * The query-building half of the repository (app/repositories.py): the two
 * allow-lists, the checks `list_flights` makes on its projection and sort
 * inputs, the WHERE clauses with their bound parameters, the pagination
 * arithmetic, the SQL text of the list, count, INSERT and UPDATE statements,
 * and what the two list statements return from a table.
 *
 * The statement text is kept on one line; the source spreads the list and
 * UPDATE statements over several lines, which SQLite reads the same way.
 */
module Queries {
  import opened Wrappers
  import opened Strings
  import opened Schema

  // ---------------------------------------------------------------------------
  // Allow-lists
  // ---------------------------------------------------------------------------

  /** The columns a list may be ordered by. */
  const AllowedSortColumns: set<string> := {
    "flight_id", "flight_number", "origin", "destination",
    "departure_time", "arrival_time", "duration_minutes",
    "aircraft_type", "seats_total", "seats_available",
    "status", "created_at", "updated_at", "process_id"
  }

  /** The columns a list may project; a copy of the sort allow-list. */
  const AllowedSelectColumns: set<string> := AllowedSortColumns

  /** The only filter keys that become `k = ?` clauses. */
  const FilterColumns: set<string> := {"origin", "destination", "status", "flight_number"}

  /** Every allow-listed name is a column of the table and a bare identifier. */
  lemma AllowListsAreIdentifiers()
    ensures AllowedSelectColumns == AllowedSortColumns == ColumnNames
    ensures FilterColumns <= AllowedSortColumns
    ensures forall c :: c in AllowedSortColumns ==> IsIdentifier(c)
  {
    ColumnsAreIdentifiers();
  }

  /** What `list_flights` raises: a `ValueError` for rejected input, a `RuntimeError` for a store failure. */
  datatype ListError = InvalidFieldName(name: string) | InvalidSortColumn | InvalidSortOrder | DatabaseError
  {
    predicate IsValueError()
    {
      !DatabaseError?
    }

    /** `str(e)` of a `ValueError`. */
    function Message(): string
      requires IsValueError()
    {
      match this
      case InvalidFieldName(name) => "Invalid field name: " + name
      case InvalidSortColumn => "Invalid sort column"
      case InvalidSortOrder => "Invalid sort order"
    }
  }

  // ---------------------------------------------------------------------------
  // Projection
  // ---------------------------------------------------------------------------

  /** `[f.strip() for f in parts if f.strip()]` */
  function StripAll(parts: seq<string>): (names: seq<string>)
    ensures |names| <= |parts|
    ensures forall i :: 0 <= i < |names| ==> names[i] != ""
  {
    if parts == [] then []
    else
      var s := Strip(parts[0]);
      (if s == "" then [] else [s]) + StripAll(parts[1..])
  }

  /** `n` is what stripping one of the `parts` gives. */
  predicate IsStripOfSome(parts: seq<string>, n: string)
  {
    exists i :: 0 <= i < |parts| && Strip(parts[i]) == n
  }

  /** A name survives exactly when it is the non-empty strip of some piece. */
  lemma {:induction false} StripAllMembers(parts: seq<string>)
    ensures forall n :: n in StripAll(parts) <==> n != "" && IsStripOfSome(parts, n)
  {
    if parts != [] {
      var tail := parts[1..];
      StripAllMembers(tail);
      var s := Strip(parts[0]);
      assert StripAll(parts) == (if s == "" then [] else [s]) + StripAll(tail);
      forall n ensures n in StripAll(parts) <==> n != "" && IsStripOfSome(parts, n) {
        if n in StripAll(parts) && n != s {
          var i :| 0 <= i < |tail| && Strip(tail[i]) == n;
          assert Strip(parts[i + 1]) == n;
        }
        if n != "" && IsStripOfSome(parts, n) {
          var i :| 0 <= i < |parts| && Strip(parts[i]) == n;
          if i > 0 {
            assert Strip(tail[i - 1]) == n;
          }
        }
      }
    }
  }

  /** Stripping works piece by piece, keeping the order of the pieces. */
  lemma {:induction false} StripAllAppend(a: seq<string>, b: seq<string>)
    ensures StripAll(a + b) == StripAll(a) + StripAll(b)
  {
    if a == [] {
      assert a + b == b;
    } else {
      assert (a + b)[0] == a[0];
      assert (a + b)[1..] == a[1..] + b;
      StripAllAppend(a[1..], b);
    }
  }

  /** Trimming the pieces of a split on commas leaves no name with a comma in it. */
  lemma {:induction false} StripAllCommaFree(parts: seq<string>)
    requires forall i :: 0 <= i < |parts| ==> ',' !in parts[i]
    ensures forall i :: 0 <= i < |StripAll(parts)| ==> ',' !in StripAll(parts)[i]
  {
    if parts != [] {
      StripKeepsOut(parts[0], ',');
      StripAllCommaFree(parts[1..]);
    }
  }

  /** The names a non-empty `fields` string asks for: comma-separated, trimmed, empty pieces dropped. */
  function FieldList(fields: string): (names: seq<string>)
    ensures forall i :: 0 <= i < |names| ==> names[i] != "" && ',' !in names[i]
  {
    StripAllCommaFree(Split(fields, ','));
    StripAll(Split(fields, ','))
  }

  /** `FieldList` keeps exactly the non-empty trimmed pieces between the commas. */
  lemma FieldListMembers(fields: string)
    ensures forall n :: n in FieldList(fields) <==> n != "" && IsStripOfSome(Split(fields, ','), n)
  {
    StrippedMembers(Split(fields, ','), FieldList(fields));
  }

  /** `StripAllMembers`, for a list already known to be `StripAll(pieces)`. */
  lemma StrippedMembers(pieces: seq<string>, names: seq<string>)
    requires names == StripAll(pieces)
    ensures forall n :: n in names <==> n != "" && IsStripOfSome(pieces, n)
  {
    StripAllMembers(pieces);
  }

  /** The SELECT list: every column, or the named ones. */
  datatype Projection = Star | Columns(names: seq<string>)

  function SelectClause(p: Projection): string
  {
    match p
    case Star => "*"
    case Columns(names) => Join(names, ", ")
  }

  /** The projection `list_flights` builds from its `fields` argument when no name is rejected. */
  function RequestedProjection(fields: Option<string>): Projection
  {
    if fields.Some? && fields.value != "" then Columns(FieldList(fields.value)) else Star
  }

  /** The names the projection check looks at (none when `fields` is None or empty). */
  function RequestedNames(fields: Option<string>): seq<string>
  {
    match RequestedProjection(fields)
    case Star => []
    case Columns(names) => names
  }

  predicate ProjectionAllowed(fields: Option<string>)
  {
    forall n :: n in RequestedNames(fields) ==> n in AllowedSelectColumns
  }

  /** The position of the first name outside the select allow-list, or the number of names when every one is allowed. */
  function FirstRejected(names: seq<string>): (k: nat)
    ensures k <= |names|
    ensures forall j :: 0 <= j < k ==> names[j] in AllowedSelectColumns
    ensures k < |names| ==> names[k] !in AllowedSelectColumns
  {
    if names == [] || names[0] !in AllowedSelectColumns then 0
    else
      var k := 1 + FirstRejected(names[1..]);
      assert forall j :: 1 <= j < |names| ==> names[j] == names[1..][j - 1];
      k
  }

  /** The request's projection is allowed exactly when no name is rejected. */
  lemma ProjectionAllowedIff(fields: Option<string>)
    ensures ProjectionAllowed(fields) <==> FirstRejected(RequestedNames(fields)) == |RequestedNames(fields)|
  {
    var names := RequestedNames(fields);
    var k := FirstRejected(names);
    if k < |names| {
      assert names[k] in names;
    }
  }

  /** The loop over the requested names: the first one outside the allow-list, if any. */
  method FindRejected(names: seq<string>) returns (rejected: Option<string>)
    ensures rejected == if FirstRejected(names) < |names| then Some(names[FirstRejected(names)]) else None
  {
    for i := 0 to |names|
      invariant forall j :: 0 <= j < i ==> names[j] in AllowedSelectColumns
    {
      if names[i] !in AllowedSelectColumns {
        return Some(names[i]);
      }
    }
    return None;
  }

  /**
   * The projection step of `list_flights`: every requested name is checked in
   * order, and the first one outside the allow-list is reported.
   */
  method ValidateProjection(fields: Option<string>) returns (r: Result<Projection, ListError>)
    ensures var names := RequestedNames(fields);
            var k := FirstRejected(names);
            r == if k < |names| then Failure(InvalidFieldName(names[k])) else Success(RequestedProjection(fields))
  {
    var rejected := FindRejected(RequestedNames(fields));
    if rejected.Some? {
      return Failure(InvalidFieldName(rejected.value));
    }
    r := Success(RequestedProjection(fields));
  }

  /** `[" " + p for p in ps]` */
  function Spaced(ps: seq<string>): (r: seq<string>)
    ensures |r| == |ps| && forall i :: 0 <= i < |ps| ==> r[i] == " " + ps[i]
  {
    if ps == [] then [] else [" " + ps[0]] + Spaced(ps[1..])
  }

  lemma StripAllCons(p: string, rest: seq<string>)
    requires Strip(p) != ""
    ensures StripAll([p] + rest) == [Strip(p)] + StripAll(rest)
  {
    assert ([p] + rest)[1..] == rest;
  }

  lemma {:induction false} StripAllSpaced(ps: seq<string>)
    requires forall i :: 0 <= i < |ps| ==> IsIdentifier(ps[i])
    ensures StripAll(Spaced(ps)) == ps
  {
    if ps != [] {
      var tail := ps[1..];
      assert forall i :: 0 <= i < |tail| ==> IsIdentifier(tail[i]);
      StripAllSpaced(tail);
      assert Strip(" " + ps[0]) == ps[0] by {
        IdentifierIsPlain(ps[0]);
      }
      assert Spaced(ps) == [" " + ps[0]] + Spaced(tail);
      StripAllCons(" " + ps[0], Spaced(tail));
    }
  }

  lemma PrefixedIsSpaced(ps: seq<string>)
    requires |ps| >= 1
    ensures Prefixed(ps, " ") == [ps[0]] + Spaced(ps[1..])
  {
  }

  lemma JoinedIdentifiersSplit(names: seq<string>)
    requires |names| >= 1
    requires forall i :: 0 <= i < |names| ==> IsIdentifier(names[i])
    ensures Split(Join(names, ", "), ',') == [names[0]] + Spaced(names[1..])
  {
    forall i | 0 <= i < |names| ensures ',' !in names[i] {
      IdentifierHasNoSpace(names[i]);
    }
    assert ", " == [','] + " ";
    SplitJoined(names, ',', " ");
    PrefixedIsSpaced(names);
  }

  /**
   * A list of identifiers written out as `", ".join(names)` reads back as the
   * same list: re-parsing the SELECT list (or the INSERT column list) the
   * builder wrote gives the names it was built from.
   */
  lemma IdentifierListRoundTrip(names: seq<string>)
    requires |names| >= 1
    requires forall i :: 0 <= i < |names| ==> IsIdentifier(names[i])
    ensures FieldList(Join(names, ", ")) == names
  {
    JoinedIdentifiersSplit(names);
    SpacedTailRoundTrip(names);
    StripIdentifier(names[0]);
    Combine(names, Join(names, ", "));
  }

  lemma Combine(names: seq<string>, text: string)
    requires |names| >= 1
    requires Split(text, ',') == [names[0]] + Spaced(names[1..])
    requires StripAll(Spaced(names[1..])) == names[1..]
    requires Strip(names[0]) == names[0] != ""
    ensures FieldList(text) == names
  {
    StripAllCons(names[0], Spaced(names[1..]));
    assert names == [names[0]] + names[1..];
  }

  lemma StripIdentifier(s: string)
    requires IsIdentifier(s)
    ensures Strip(s) == s != ""
  {
    IdentifierIsPlain(s);
  }

  lemma SpacedTailRoundTrip(names: seq<string>)
    requires |names| >= 1
    requires forall i :: 0 <= i < |names| ==> IsIdentifier(names[i])
    ensures StripAll(Spaced(names[1..])) == names[1..]
  {
    var tail := names[1..];
    assert forall i :: 0 <= i < |tail| ==> IsIdentifier(tail[i]);
    StripAllSpaced(tail);
  }

  /** A projection that passed the check reads back from its SELECT list unchanged. */
  lemma ProjectionRoundTrip(fields: Option<string>)
    requires ProjectionAllowed(fields)
    requires RequestedNames(fields) != []
    ensures FieldList(SelectClause(RequestedProjection(fields))) == RequestedNames(fields)
  {
    var names := RequestedNames(fields);
    AllowListsAreIdentifiers();
    assert forall i :: 0 <= i < |names| ==> names[i] in AllowedSelectColumns;
    IdentifierListRoundTrip(names);
  }

  // ---------------------------------------------------------------------------
  // Sort
  // ---------------------------------------------------------------------------

  /** A sort order that lower-cases to `asc` or `desc` upper-cases to `ASC` or `DESC`. */
  lemma SortKeyword(sortOrder: string)
    requires Lower(sortOrder) in {"asc", "desc"}
    ensures Upper(sortOrder) in {"ASC", "DESC"}
  {
    var l := Lower(sortOrder);
    assert IsLowerWord(l);
    UpperOfLowered(sortOrder);
    if l == "asc" {
      assert Upper("asc") == "ASC";
    } else {
      assert Upper("desc") == "DESC";
    }
  }

  /**
   * The sort step of `list_flights`: the column is checked against the
   * allow-list first, then the direction case-insensitively; on success the
   * direction keyword written into the ORDER BY clause.
   */
  function CheckSort(sortBy: string, sortOrder: string): (r: Result<string, ListError>)
    ensures r.Success? <==> sortBy in AllowedSortColumns && Lower(sortOrder) in {"asc", "desc"}
    ensures r.Failure? ==> r.error == if sortBy !in AllowedSortColumns then InvalidSortColumn else InvalidSortOrder
    ensures r.Success? ==> r.value in {"ASC", "DESC"}
  {
    if sortBy !in AllowedSortColumns then Failure(InvalidSortColumn)
    else if Lower(sortOrder) !in {"asc", "desc"} then Failure(InvalidSortOrder)
    else
      SortKeyword(sortOrder);
      Success(Upper(sortOrder))
  }

  // ---------------------------------------------------------------------------
  // WHERE
  // ---------------------------------------------------------------------------

  /** The filter items that become clauses: those whose key is a filter column, in filter order. */
  function Recognised(d: seq<(string, Value)>): (kept: seq<(string, Value)>)
    ensures |kept| <= |d|
    ensures forall p :: p in kept <==> p in d && p.0 in FilterColumns
    ensures DistinctKeys(d) ==> DistinctKeys(kept)
  {
    if d == [] then []
    else (if d[0].0 in FilterColumns then [d[0]] else []) + Recognised(d[1..])
  }

  /** Filtering item by item: the clauses of a longer filter extend those of its prefix. */
  lemma {:induction false} RecognisedAppend(a: seq<(string, Value)>, b: seq<(string, Value)>)
    ensures Recognised(a + b) == Recognised(a) + Recognised(b)
  {
    if a == [] {
      assert a + b == b;
    } else {
      assert (a + b)[0] == a[0];
      assert (a + b)[1..] == a[1..] + b;
      RecognisedAppend(a[1..], b);
    }
  }

  /** One more filter item adds its key and value exactly when the key is a filter column. */
  lemma RecognisedStep(f: seq<(string, Value)>, i: nat)
    requires i < |f|
    ensures KeysOf(Recognised(f[..i + 1])) ==
            KeysOf(Recognised(f[..i])) + (if f[i].0 in FilterColumns then [f[i].0] else [])
    ensures ValuesOf(Recognised(f[..i + 1])) ==
            ValuesOf(Recognised(f[..i])) + (if f[i].0 in FilterColumns then [f[i].1] else [])
  {
    assert f[..i + 1] == f[..i] + [f[i]];
    RecognisedAppend(f[..i], [f[i]]);
    assert Recognised([f[i]]) == if f[i].0 in FilterColumns then [f[i]] else [];
  }

  /** The kept keys and values pair up as the filter's items, and no recognised key is dropped. */
  lemma RecognisedPairs(filters: Dict)
    ensures var kept := Recognised(filters);
            && (forall i :: 0 <= i < |kept| ==>
                  KeysOf(kept)[i] in FilterColumns && (KeysOf(kept)[i], ValuesOf(kept)[i]) in filters)
            && forall k, v :: (k, v) in filters && k in FilterColumns ==> k in KeysOf(kept)
  {
    var kept := Recognised(filters);
    assert forall i :: 0 <= i < |kept| ==> kept[i] == (KeysOf(kept)[i], ValuesOf(kept)[i]);
    forall k, v | (k, v) in filters && k in FilterColumns ensures k in KeysOf(kept) {
      var i :| 0 <= i < |kept| && kept[i] == (k, v);
      assert KeysOf(kept)[i] == k;
    }
  }

  /**
   * The WHERE loop of `list_flights`: for each filter item in order, a
   * recognised key adds its clause and its value to the parameters; any other
   * key is skipped without an error.
   */
  method WhereOf(filters: Dict) returns (keys: seq<string>, params: seq<Value>)
    ensures keys == KeysOf(Recognised(filters)) && params == ValuesOf(Recognised(filters))
    ensures |keys| == |params|
    ensures forall i :: 0 <= i < |keys| ==> keys[i] in FilterColumns && (keys[i], params[i]) in filters
    ensures forall k, v :: (k, v) in filters && k in FilterColumns ==> k in keys
  {
    keys, params := [], [];
    for i := 0 to |filters|
      invariant keys == KeysOf(Recognised(filters[..i]))
      invariant params == ValuesOf(Recognised(filters[..i]))
    {
      var (k, v) := filters[i];
      RecognisedStep(filters, i);
      if k in FilterColumns {
        keys := keys + [k];
        params := params + [v];
      }
    }
    assert filters[..|filters|] == filters;
    RecognisedPairs(filters);
  }

  /** One equality clause; the value is always the placeholder. */
  function Clause(k: string): string
  {
    k + " = ?"
  }

  /** `where_sql`: empty without clauses, else `WHERE` and the clauses joined with ` AND `. */
  function WhereSql(keys: seq<string>): string
  {
    if keys == [] then ""
    else "WHERE " + Join(seq(|keys|, i requires 0 <= i < |keys| => Clause(keys[i])), " AND ")
  }

  // ---------------------------------------------------------------------------
  // Pagination
  // ---------------------------------------------------------------------------

  lemma MulAtLeast(x: int, b: int)
    requires x >= 1 && b >= 1
    ensures x * b >= b
  {
  }

  /** A whole number of pages divides back exactly: `(a * b) / b == a` with no remainder. */
  lemma MultipleOf(a: nat, b: int)
    requires b >= 1
    ensures a * b >= 0 && (a * b) % b == 0 && (a * b) / b == a
  {
    var q, r := (a * b) / b, (a * b) % b;
    assert a * b == q * b + r && 0 <= r < b;
    assert (a - q) * b == r;
    if a - q >= 1 {
      MulAtLeast(a - q, b);
    } else if q - a >= 1 {
      MulAtLeast(q - a, b);
    }
  }

  /** `offset = (page - 1) * size`: for a positive page and size, the start of page `page` counted in whole pages. */
  function Offset(page: int, size: int): (offset: int)
    ensures page >= 1 && size >= 1 ==> offset >= 0 && offset % size == 0 && offset / size == page - 1
  {
    if page >= 1 && size >= 1 then MultipleOf(page - 1, size); (page - 1) * size
    else (page - 1) * size
  }

  // ---------------------------------------------------------------------------
  // The list and count statements
  // ---------------------------------------------------------------------------

  /** Everything `list_flights` has decided before it opens a connection. */
  datatype ListQuery = ListQuery(
    projection: Projection,
    filterKeys: seq<string>,
    params: seq<Value>,
    sortBy: string,
    direction: string,
    size: int,
    offset: int)

  /** The COUNT statement; it shares `where_sql` and `params` with the page statement. */
  function CountSql(q: ListQuery): string
  {
    "SELECT COUNT(*) AS cnt FROM flights " + WhereSql(q.filterKeys)
  }

  function PageSql(q: ListQuery): string
  {
    "SELECT " + SelectClause(q.projection) + " FROM flights " + WhereSql(q.filterKeys) +
    " ORDER BY " + q.sortBy + " " + q.direction + " LIMIT ? OFFSET ?"
  }

  /** `params + [size, offset]` */
  function PageParams(q: ListQuery): seq<Value>
  {
    q.params + [Int(q.size), Int(q.offset)]
  }

  /**
   * The injection-safety invariant: the only identifiers written into the
   * statement text are allow-listed, the direction is one of two keywords, and
   * each clause has its own bound value.
   */
  predicate OnlyAllowListed(q: ListQuery)
  {
    && (q.projection.Columns? ==> forall n :: n in q.projection.names ==> n in AllowedSelectColumns)
    && q.sortBy in AllowedSortColumns
    && (forall k :: k in q.filterKeys ==> k in FilterColumns)
    && q.direction in {"ASC", "DESC"}
    && |q.filterKeys| == |q.params|
  }

  /**
   * `list_flights` up to the point where it opens a connection: projection
   * check, sort checks, WHERE construction, offset. The first failing check
   * decides the error, in that order.
   */
  method BuildListQuery(page: int, size: int, filters: Dict, sortBy: string, sortOrder: string, fields: Option<string>)
    returns (r: Result<ListQuery, ListError>)
    ensures r.Failure? <==> !ProjectionAllowed(fields) || CheckSort(sortBy, sortOrder).Failure?
    ensures r.Failure? ==> r.error.IsValueError()
    ensures r.Failure? && ProjectionAllowed(fields) ==> r.error == CheckSort(sortBy, sortOrder).error
    ensures !ProjectionAllowed(fields) ==>
              r == Failure(InvalidFieldName(RequestedNames(fields)[FirstRejected(RequestedNames(fields))]))
    ensures r.Success? ==> OnlyAllowListed(r.value)
    ensures r.Success? ==> r.value == ListQuery(RequestedProjection(fields), KeysOf(Recognised(filters)),
                                                ValuesOf(Recognised(filters)), sortBy, Upper(sortOrder),
                                                size, Offset(page, size))
  {
    var projection := ValidateProjection(fields);
    ProjectionAllowedIff(fields);
    if projection.Failure? {
      return Failure(projection.error);
    }
    var direction := CheckSort(sortBy, sortOrder);
    if direction.Failure? {
      return Failure(direction.error);
    }
    var keys, params := WhereOf(filters);
    var offset := Offset(page, size);
    r := Success(ListQuery(projection.value, keys, params, sortBy, direction.value, size, offset));
    assert forall n :: n in RequestedNames(fields) ==> n in AllowedSelectColumns;
  }

  lemma IdentifierHasNoPlaceholder(s: string)
    requires IsIdentifier(s)
    ensures CountChar(s, '?') == 0
  {
    IdentifierHasNoSpace(s);
    CountCharAbsent(s, '?');
  }

  lemma OnePlaceholder(s: string)
    ensures CountChar(s + "?", '?') == CountChar(s, '?') + 1
  {
    assert CountChar("?", '?') == 1;
    CountCharConcat(s, "?", '?');
  }

  lemma WherePlaceholders(keys: seq<string>)
    requires forall i :: 0 <= i < |keys| ==> IsIdentifier(keys[i])
    ensures CountChar(WhereSql(keys), '?') == |keys|
  {
    if keys != [] {
      var clauses := seq(|keys|, i requires 0 <= i < |keys| => Clause(keys[i]));
      forall i | 0 <= i < |keys| ensures CountChar(clauses[i], '?') == 1 {
        IdentifierHasNoPlaceholder(keys[i]);
        CountCharConcat(keys[i], " = ?", '?');
      }
      CountCharJoin(clauses, " AND ", '?', 1);
      CountCharConcat("WHERE ", Join(clauses, " AND "), '?');
    }
  }

  lemma SelectPlaceholders(p: Projection)
    requires p.Columns? ==> forall i :: 0 <= i < |p.names| ==> IsIdentifier(p.names[i])
    ensures CountChar(SelectClause(p), '?') == 0
  {
    if p.Columns? {
      forall i | 0 <= i < |p.names| ensures CountChar(p.names[i], '?') == 0 {
        IdentifierHasNoPlaceholder(p.names[i]);
      }
      CountCharJoin(p.names, ", ", '?', 0);
    }
  }

  lemma CountPageText(select: string, where: string, sortBy: string, direction: string)
    requires CountChar(select, '?') == 0 && CountChar(sortBy, '?') == 0 && CountChar(direction, '?') == 0
    ensures CountChar("SELECT " + select + " FROM flights " + where + " ORDER BY " + sortBy + " " + direction +
                      " LIMIT ? OFFSET ?", '?') == CountChar(where, '?') + 2
  {
    var a := "SELECT " + select;
    var b := a + " FROM flights ";
    var c := b + where;
    var d := c + " ORDER BY ";
    var e := d + sortBy;
    var f := e + " ";
    var g := f + direction;
    CountCharPlainHead("SELECT ", select, '?');
    CountCharPlainTail(a, " FROM flights ", '?');
    CountCharConcat(b, where, '?');
    CountCharPlainTail(c, " ORDER BY ", '?');
    CountCharConcat(d, sortBy, '?');
    CountCharPlainTail(e, " ", '?');
    CountCharConcat(f, direction, '?');
    assert g + " LIMIT ? OFFSET ?" == (((g + " LIMIT ") + "?") + " OFFSET ") + "?";
    CountCharPlainTail(g, " LIMIT ", '?');
    OnePlaceholder(g + " LIMIT ");
    CountCharPlainTail(g + " LIMIT " + "?", " OFFSET ", '?');
    OnePlaceholder(g + " LIMIT " + "?" + " OFFSET ");
  }

  lemma CountCountText(where: string)
    ensures CountChar("SELECT COUNT(*) AS cnt FROM flights " + where, '?') == CountChar(where, '?')
  {
    CountCharPlainHead("SELECT COUNT(*) AS cnt FROM flights ", where, '?');
  }

  lemma DirectionHasNoPlaceholder(direction: string)
    requires direction in {"ASC", "DESC"}
    ensures CountChar(direction, '?') == 0
  {
    CountCharAbsent(direction, '?');
  }

  /**
   * Every value is a bound parameter: in both statements the text holds
   * exactly one placeholder per bound value, the page statement's last two
   * being LIMIT and OFFSET.
   */
  lemma PlaceholdersMatchParameters(q: ListQuery)
    requires OnlyAllowListed(q)
    ensures CountChar(CountSql(q), '?') == |q.params|
    ensures CountChar(PageSql(q), '?') == |PageParams(q)|
  {
    AllowListsAreIdentifiers();
    WherePlaceholders(q.filterKeys);
    SelectPlaceholders(q.projection);
    IdentifierHasNoPlaceholder(q.sortBy);
    DirectionHasNoPlaceholder(q.direction);
    CountCountText(WhereSql(q.filterKeys));
    CountPageText(SelectClause(q.projection), WhereSql(q.filterKeys), q.sortBy, q.direction);
  }

  // ---------------------------------------------------------------------------
  // What the two list statements return
  // ---------------------------------------------------------------------------

  /** SQL `k = ?` for every clause: a NULL column never compares equal. */
  predicate Matches(row: Row, keys: seq<string>, params: seq<Value>)
  {
    forall i :: 0 <= i < |keys| && i < |params| ==> keys[i] in row && row[keys[i]] != Null && row[keys[i]] == params[i]
  }

  /** The rows the WHERE clause keeps, in the order the rows come in. */
  function Matching(rows: seq<Row>, keys: seq<string>, params: seq<Value>): (m: seq<Row>)
    ensures |m| <= |rows|
    ensures forall r :: r in m <==> r in rows && Matches(r, keys, params)
  {
    if rows == [] then []
    else (if Matches(rows[0], keys, params) then [rows[0]] else []) + Matching(rows[1..], keys, params)
  }

  /** Filtering works row by row, keeping the order the rows come in. */
  lemma {:induction false} MatchingAppend(a: seq<Row>, b: seq<Row>, keys: seq<string>, params: seq<Value>)
    ensures Matching(a + b, keys, params) == Matching(a, keys, params) + Matching(b, keys, params)
  {
    if a == [] {
      assert a + b == b;
    } else {
      assert (a + b)[0] == a[0];
      assert (a + b)[1..] == a[1..] + b;
      MatchingAppend(a[1..], b, keys, params);
    }
  }

  /** A row as the SELECT list returns it (a name listed twice yields one key of the dict). */
  function Project(p: Projection, row: Row): (r: Row)
    ensures r.Keys <= row.Keys
    ensures forall k :: k in r ==> r[k] == row[k]
    ensures p.Star? ==> r == row
    ensures p.Columns? ==> forall k :: k in r <==> k in p.names && k in row
  {
    match p
    case Star => row
    case Columns(names) => map k | k in names && k in row :: row[k]
  }

  /** SQLite's `LIMIT size OFFSET offset`: a negative offset counts as 0, a negative limit as no limit. */
  function Window(rows: seq<Row>, size: int, offset: int): (w: seq<Row>)
  {
    var start := if offset < 0 then 0 else if offset > |rows| then |rows| else offset;
    var end := if size < 0 || start + size > |rows| then |rows| else start + size;
    rows[start..end]
  }

  /** The result of `list_flights`: the page of rows and the total count. */
  datatype ListPage = ListPage(items: seq<Row>, total: int)

  /** `ordered` holds the rows of the table `flights`, each once, in whatever order ORDER BY gives them. */
  predicate ListsTable(ordered: seq<Row>, flights: map<int, Row>)
  {
    && |ordered| == |flights|
    && (forall row :: row in ordered ==> row in flights.Values)
    && (forall row :: row in flights.Values ==> row in ordered)
  }

  /**
   * Running the count and page statements of `q` over the table, whose rows
   * `ordered` lists in the order ORDER BY gives them. An empty SELECT list
   * (from `fields` such as "," or " ") makes the page statement malformed.
   */
  function RunList(q: ListQuery, ordered: seq<Row>): (r: Result<ListPage, ListError>)
    ensures r.Failure? <==> q.projection == Columns([])
    ensures r.Failure? ==> r.error == DatabaseError
    ensures r.Success? ==>
      var m := Matching(ordered, q.filterKeys, q.params);
      && r.value.total == |m|
      && |r.value.items| <= r.value.total
      && (q.size >= 0 ==> |r.value.items| <= q.size)
      && (q.offset >= 0 ==>
            && |r.value.items| == (if q.offset >= |m| then 0
                                   else if q.size < 0 || q.offset + q.size > |m| then |m| - q.offset
                                   else q.size)
            && forall i :: 0 <= i < |r.value.items| ==> r.value.items[i] == Project(q.projection, m[q.offset + i]))
  {
    if q.projection == Columns([]) then Failure(DatabaseError)
    else
      var m := Matching(ordered, q.filterKeys, q.params);
      var w := Window(m, q.size, q.offset);
      Success(ListPage(seq(|w|, i requires 0 <= i < |w| => Project(q.projection, w[i])), |m|))
  }

  /** `total` counts every matching row, whatever page and size are asked for. */
  lemma TotalIgnoresPaging(q: ListQuery, ordered: seq<Row>, size: int, offset: int)
    requires q.projection != Columns([])
    ensures RunList(q, ordered).Success? && RunList(q.(size := size, offset := offset), ordered).Success?
    ensures RunList(q, ordered).value.total == RunList(q.(size := size, offset := offset), ordered).value.total
  {
  }

  /** Position `k` falls on page `k / size + 1`, at index `k % size` of it. */
  lemma PageOfPosition(k: nat, size: int)
    requires size >= 1
    ensures 0 <= Offset(k / size + 1, size) <= k < Offset(k / size + 1, size) + size
    ensures k - Offset(k / size + 1, size) == k % size
  {
    MultipleOf(k / size, size);
    assert Offset(k / size + 1, size) == (k / size) * size;
  }

  /**
   * Every matching row is on exactly one page: with a positive size, the row
   * at position `k` of the filtered order is item `k % size` of page
   * `k / size + 1`.
   */
  lemma EveryRowOnItsPage(q: ListQuery, ordered: seq<Row>, k: nat)
    requires q.projection != Columns([])
    requires q.size >= 1
    requires k < |Matching(ordered, q.filterKeys, q.params)|
    ensures var page := RunList(q.(offset := Offset(k / q.size + 1, q.size)), ordered);
            page.Success? && k % q.size < |page.value.items| &&
            page.value.items[k % q.size] == Project(q.projection, Matching(ordered, q.filterKeys, q.params)[k])
  {
    PageOfPosition(k, q.size);
  }

  // ---------------------------------------------------------------------------
  // INSERT and UPDATE
  // ---------------------------------------------------------------------------

  /** `", ".join("?" for _ in data)`, before joining. */
  function Placeholders(n: nat): (ps: seq<string>)
    ensures |ps| == n
  {
    seq(n, _ => "?")
  }

  /** The INSERT statement of `create_flight`: the data's keys as columns, one placeholder each. */
  function InsertSql(data: Dict): string
  {
    "INSERT INTO flights (" + Join(KeysOf(data), ", ") + ") VALUES (" + Join(Placeholders(|data|), ", ") + ")"
  }

  /** `list(data.values())`, bound in key order. */
  function InsertParams(data: Dict): seq<Value>
  {
    ValuesOf(data)
  }

  /** Every key can be written into statement text as it is. */
  predicate IdentifierKeys(d: Dict)
  {
    forall i :: 0 <= i < |d| ==> IsIdentifier(d[i].0)
  }

  lemma CountInsertText(cols: string, marks: string)
    ensures CountChar("INSERT INTO flights (" + cols + ") VALUES (" + marks + ")", '?') ==
            CountChar(cols, '?') + CountChar(marks, '?')
  {
    var a := "INSERT INTO flights (" + cols;
    var b := a + ") VALUES (";
    CountCharPlainHead("INSERT INTO flights (", cols, '?');
    CountCharPlainTail(a, ") VALUES (", '?');
    CountCharConcat(b, marks, '?');
    CountCharPlainTail(b + marks, ")", '?');
  }

  /** When the keys are identifiers, the INSERT holds exactly one placeholder per bound value. */
  lemma InsertPlaceholdersMatchValues(data: Dict)
    requires IdentifierKeys(data)
    ensures CountChar(InsertSql(data), '?') == |InsertParams(data)| == |data|
  {
    var keys := KeysOf(data);
    forall i | 0 <= i < |keys| ensures CountChar(keys[i], '?') == 0 {
      IdentifierHasNoPlaceholder(keys[i]);
    }
    CountCharJoin(keys, ", ", '?', 0);
    var marks := Placeholders(|data|);
    forall i | 0 <= i < |marks| ensures CountChar(marks[i], '?') == 1 {
      OnePlaceholder("");
      assert "" + "?" == marks[i];
    }
    CountCharJoin(marks, ", ", '?', 1);
    CountInsertText(Join(keys, ", "), Join(marks, ", "));
  }

  /** The value bound to the `i`-th placeholder of the INSERT is the one the data holds for the `i`-th column. */
  lemma InsertBindsByColumn(data: Dict)
    ensures forall i :: 0 <= i < |data| ==> Get(data, KeysOf(data)[i]) == Some(InsertParams(data)[i])
  {
    forall i | 0 <= i < |data| ensures Get(data, KeysOf(data)[i]) == Some(InsertParams(data)[i]) {
      GetItem(data, i);
    }
  }

  /** The INSERT's column list reads back as the data's keys. */
  lemma InsertColumnsRoundTrip(data: Dict)
    requires IdentifierKeys(data) && data != []
    ensures FieldList(Join(KeysOf(data), ", ")) == KeysOf(data)
  {
    var keys := KeysOf(data);
    assert forall i :: 0 <= i < |keys| ==> IsIdentifier(keys[i]);
    IdentifierListRoundTrip(keys);
  }

  /** `k=?` for one update key. */
  function Assignment(k: string): string
  {
    k + "=?"
  }

  /** `set_clause`: one assignment per update key, in the dict's order. */
  function SetClause(updates: Dict): string
  {
    Join(seq(|updates|, i requires 0 <= i < |updates| => Assignment(updates[i].0)), ", ")
  }

  /** The UPDATE statement of `update_flight`; it always refreshes `updated_at`. */
  function UpdateSql(updates: Dict): string
  {
    "UPDATE flights SET " + SetClause(updates) + ", updated_at = datetime('now')" + " WHERE flight_id = ?"
  }

  /** `list(updates.values()) + [flight_id]` */
  function UpdateParams(flightId: int, updates: Dict): seq<Value>
  {
    ValuesOf(updates) + [Int(flightId)]
  }

  lemma CountUpdateText(assignments: string)
    ensures CountChar("UPDATE flights SET " + assignments + ", updated_at = datetime('now')" + " WHERE flight_id = ?", '?') ==
            CountChar(assignments, '?') + 1
  {
    var a := "UPDATE flights SET " + assignments;
    var b := a + ", updated_at = datetime('now')";
    assert b + " WHERE flight_id = ?" == (b + " WHERE flight_id = ") + "?";
    CountCharPlainHead("UPDATE flights SET ", assignments, '?');
    CountCharPlainTail(a, ", updated_at = datetime('now')", '?');
    CountCharPlainTail(b, " WHERE flight_id = ", '?');
    OnePlaceholder(b + " WHERE flight_id = ");
  }

  lemma SetClausePlaceholders(updates: Dict)
    requires IdentifierKeys(updates)
    ensures CountChar(SetClause(updates), '?') == |updates|
  {
    var assigns := seq(|updates|, i requires 0 <= i < |updates| => Assignment(updates[i].0));
    forall i | 0 <= i < |updates| ensures CountChar(assigns[i], '?') == 1 {
      IdentifierHasNoPlaceholder(updates[i].0);
      CountCharConcat(updates[i].0, "=?", '?');
    }
    CountCharJoin(assigns, ", ", '?', 1);
  }

  /**
   * When the keys are identifiers the UPDATE holds exactly one placeholder per
   * bound value: the update values in key order, then the flight id for the
   * WHERE.
   */
  lemma UpdatePlaceholdersMatchValues(flightId: int, updates: Dict)
    requires IdentifierKeys(updates)
    ensures CountChar(UpdateSql(updates), '?') == |UpdateParams(flightId, updates)| == |updates| + 1
    ensures UpdateParams(flightId, updates)[|updates|] == Int(flightId)
  {
    SetClausePlaceholders(updates);
    CountUpdateText(SetClause(updates));
  }

  /** The value bound to the `i`-th assignment is the one the updates hold for its column. */
  lemma UpdateBindsByColumn(flightId: int, updates: Dict)
    ensures forall i :: 0 <= i < |updates| ==> Get(updates, updates[i].0) == Some(UpdateParams(flightId, updates)[i])
  {
    forall i | 0 <= i < |updates| ensures Get(updates, updates[i].0) == Some(UpdateParams(flightId, updates)[i]) {
      GetItem(updates, i);
    }
  }

  /**
   * The SET list is empty exactly when there are no updates; the statement
   * then reads `SET , updated_at = ...`, which SQLite rejects.
   */
  lemma EmptySetClause(updates: Dict)
    requires IdentifierKeys(updates)
    ensures SetClause(updates) == "" <==> updates == []
  {
    SetClausePlaceholders(updates);
  }
}
