/**
 * The `Database` helper of db.py and the PostgreSQL tables behind it.
 *
 * Each method logs the statement it executes (as a `Call`, whose `Sent`
 * form is the composed statement of `Queries`) and then changes the tables
 * as PostgreSQL would execute that statement. What a statement selects, updates or deletes is given by the
 * specification functions of this module, which the lemmas below describe.
 */
module Store {

  import opened Outcomes
  import opened Sql
  import opened Queries
  import opened Conditions

  /** The database errors the core can meet; each one aborts the request with a server error. */
  datatype DbError =
    | UndefinedTable    // the table does not exist
    | BadStatement      // an empty or repeated column list, or more columns than values
    | NegativeLimit     // `limit` with a negative count
    | UniqueViolation   // an insert repeats the id or a value of a unique column
    | NotNullViolation  // an insert gives the id as NULL

  /** A statement one of the `Database` methods executed, by the arguments it was composed from. */
  datatype Call =
    | GetCall(table: string, columns: seq<string>, limit: Option<int>,
              where: seq<Pair>, orWhere: seq<Pair>, contains: seq<(string, string)>)
    | ContainsCall(table: string, columns: seq<string>, search: string, limit: Option<int>)
    | WriteCall(table: string, columns: seq<string>, values: seq<Value>)
    | UpdateCall(table: string, columns: seq<string>, values: seq<Value>, where: seq<Pair>)
    | DeleteCall(table: string, where: seq<Pair>)

  /** The composed statement each call sends to PostgreSQL. */
  function Sent(c: Call): Query
  {
    match c
    case GetCall(t, columns, limit, where, orWhere, contains) => Select(t, columns, limit, where, orWhere, contains)
    case ContainsCall(t, columns, search, limit) => SelectContaining(t, columns, search, limit)
    case WriteCall(t, columns, values) => Insert(t, columns, values)
    case UpdateCall(t, columns, values, where) => UpdateStmt(t, columns, values, where)
    case DeleteCall(t, where) => DeleteStmt(t, where)
  }

  /** The rows a filter admits, in table order. */
  function Selected(rows: seq<Row>, cond: Option<Cond>): (r: seq<Row>)
    ensures forall x :: x in r ==> x in rows && Admits(cond, x)
    ensures forall x :: x in rows && Admits(cond, x) ==> x in r
  {
    if rows == [] then []
    else
      assert rows == [rows[0]] + rows[1..];
      (if Admits(cond, rows[0]) then [rows[0]] else []) + Selected(rows[1..], cond)
  }

  /** A row as `select columns` returns it: the selected columns and no others. */
  function Project(row: Row, columns: seq<string>): Row
  {
    map c | c in columns :: Lookup(row, c)
  }

  function ProjectAll(rows: seq<Row>, columns: seq<string>): (r: seq<Row>)
    ensures |r| == |rows| && forall i :: 0 <= i < |r| ==> r[i] == Project(rows[i], columns)
  {
    if rows == [] then [] else [Project(rows[0], columns)] + ProjectAll(rows[1..], columns)
  }

  /** `limit`: a truthy count keeps that many leading rows; a negative one is an error. */
  function Capped(rows: seq<Row>, limit: Option<int>): (r: Result<seq<Row>, DbError>)
    ensures r.Failure? <==> LimitApplies(limit) && limit.value < 0
    ensures r.Failure? ==> r.error == NegativeLimit
    ensures r.Success? && !LimitApplies(limit) ==> r.value == rows
    ensures r.Success? && LimitApplies(limit) ==>
              |r.value| == (if limit.value < |rows| then limit.value else |rows|) && r.value == rows[..|r.value|]
  {
    if !LimitApplies(limit) then Success(rows)
    else if limit.value < 0 then Failure(NegativeLimit)
    else if limit.value < |rows| then Success(rows[..limit.value])
    else Success(rows)
  }

  /** What `get` returns from a table's rows. */
  function Fetch(rows: seq<Row>, columns: seq<string>, limit: Option<int>,
                 where: seq<Pair>, orWhere: seq<Pair>, contains: seq<(string, string)>): (r: Result<seq<Row>, DbError>)
    ensures r.Failure? ==> r.error == NegativeLimit
    ensures r.Success? ==> forall i :: 0 <= i < |r.value| ==> r.value[i].Keys == set c | c in columns
  {
    match Capped(Selected(rows, SelectCond(where, orWhere, contains)), limit)
    case Failure(e) => Failure(e)
    case Success(kept) => Success(ProjectAll(kept, columns))
  }

  /** `out` is the selected columns of a row of `rows` the filter admits. */
  predicate FromAdmitted(out: Row, rows: seq<Row>, cond: Option<Cond>, columns: seq<string>)
  {
    exists x :: x in rows && Admits(cond, x) && out == Project(x, columns)
  }

  /**
   * `get` fails only on a negative limit; otherwise it returns at most
   * `limit` rows (when truthy), each the selected columns of a row the
   * filter admits. Without a limit, or when fewer rows than the limit come
   * back, every admitted row is among them.
   */
  lemma FetchMeaning(rows: seq<Row>, columns: seq<string>, limit: Option<int>,
                     where: seq<Pair>, orWhere: seq<Pair>, contains: seq<(string, string)>)
    ensures var r := Fetch(rows, columns, limit, where, orWhere, contains);
            var cond := SelectCond(where, orWhere, contains);
            && (r.Failure? <==> LimitApplies(limit) && limit.value < 0)
            && (r.Success? ==> forall i :: 0 <= i < |r.value| ==> FromAdmitted(r.value[i], rows, cond, columns))
            && (r.Success? && LimitApplies(limit) ==> |r.value| <= limit.value)
            && (r.Success? && (!LimitApplies(limit) || |r.value| < limit.value) ==>
                  forall x :: x in rows && Admits(cond, x) ==> Project(x, columns) in r.value)
  {
    var cond := SelectCond(where, orWhere, contains);
    var admitted := Selected(rows, cond);
    var capped := Capped(admitted, limit);
    if capped.Success? {
      var out := ProjectAll(capped.value, columns);
      forall i | 0 <= i < |out|
        ensures FromAdmitted(out[i], rows, cond, columns)
      {
        assert capped.value[i] in admitted;
      }
      if !LimitApplies(limit) || |out| < limit.value {
        assert capped.value == admitted;
        forall x | x in rows && Admits(cond, x)
          ensures Project(x, columns) in out
        {
          var k :| 0 <= k < |admitted| && admitted[k] == x;
          assert out[k] == Project(x, columns);
        }
      }
    }
  }

  /** What `get_one` returns: the selected columns of the first row the where dict admits. */
  function FirstMatch(rows: seq<Row>, columns: seq<string>, where: seq<Pair>): Option<Row>
  {
    var admitted := Selected(rows, SelectCond(where, [], []));
    if admitted == [] then None else Some(Project(admitted[0], columns))
  }

  /** Every equality of the where dict holds; an empty dict admits every row. */
  lemma WhereOnly(where: seq<Pair>, row: Row)
    ensures Admits(SelectCond(where, [], []), row) <==> AllEqual(where, row)
  {
    SelectCondMeaning(where, [], [], row);
  }

  /**
   * `get_one` finds a row exactly when some row satisfies every equality of
   * the where dict, and what it returns is the selected columns of such a row.
   */
  lemma FirstMatchMeaning(rows: seq<Row>, columns: seq<string>, where: seq<Pair>)
    ensures FirstMatch(rows, columns, where).Some? <==> exists x :: x in rows && AllEqual(where, x)
    ensures FirstMatch(rows, columns, where).Some? ==>
              exists x :: x in rows && AllEqual(where, x) && FirstMatch(rows, columns, where).value == Project(x, columns)
  {
    var cond := SelectCond(where, [], []);
    var admitted := Selected(rows, cond);
    forall x | x in rows
      ensures Admits(cond, x) <==> AllEqual(where, x)
    {
      WhereOnly(where, x);
    }
    if admitted != [] {
      assert admitted[0] in admitted;
    }
  }

  /** The pairs as a dict: column to value. */
  function AsMap(pairs: seq<Pair>): (m: map<string, Value>)
    ensures forall c :: c in m <==> c in Keys(pairs)
  {
    if pairs == [] then map[]
    else AsMap(pairs[1..])[pairs[0].0 := pairs[0].1]
  }

  /** No column is named twice. */
  predicate Distinct(names: seq<string>)
  {
    forall i, j :: 0 <= i < j < |names| ==> names[i] != names[j]
  }

  /** PostgreSQL accepts the column and value lists: non-empty, as many values as columns, no column twice. */
  predicate Insertable(columns: seq<string>, values: seq<Value>)
  {
    columns != [] && |columns| == |values| && Distinct(columns)
  }

  /** The row `insert` adds: the table's defaults, the new id, then the given values. */
  function NewRow(defaults: Row, columns: seq<string>, values: seq<Value>, id: nat): Row
  {
    defaults["id" := Int(id)] + AsMap(Zip(columns, values))
  }

  /** The new row repeats a non-null value of a unique column. */
  predicate Clash(rows: seq<Row>, row: Row, unique: set<string>)
  {
    exists c, i :: c in unique && c in row && row[c] != Null && 0 <= i < |rows| && Lookup(rows[i], c) == row[c]
  }

  /** No two rows share a non-null value in a unique column. */
  predicate UniqueHolds(rows: seq<Row>, unique: set<string>)
  {
    forall c, i, j :: c in unique && 0 <= i < j < |rows| && Lookup(rows[i], c) != Null ==> Lookup(rows[j], c) != Lookup(rows[i], c)
  }

  /** Appending a row that does not clash keeps the unique columns unique. */
  lemma AppendKeepsUnique(rows: seq<Row>, row: Row, unique: set<string>)
    requires UniqueHolds(rows, unique) && !Clash(rows, row, unique)
    ensures UniqueHolds(rows + [row], unique)
  {
    var all := rows + [row];
    assert forall i :: 0 <= i < |rows| ==> all[i] == rows[i];
  }

  /** Every row carries an integer id between 1 and the sequence's last value. */
  predicate IdsBelow(rows: seq<Row>, last: nat)
  {
    forall x: Row :: x in rows ==> "id" in x && x["id"].Int? && 1 <= x["id"].i <= last
  }

  /**
   * One table's invariant: ids in range, and no two rows share an id or a
   * non-null value of a unique column (the id is the primary key).
   */
  predicate TableValid(rows: seq<Row>, last: nat, unique: set<string>)
  {
    IdsBelow(rows, last) && UniqueHolds(rows, unique + {"id"})
  }

  /** Inserting a row that repeats no id or unique value and carries the next id keeps the table valid. */
  lemma InsertKeepsValid(rows: seq<Row>, last: nat, row: Row, unique: set<string>)
    requires TableValid(rows, last, unique)
    requires "id" in row && row["id"] == Int(last + 1) && !Clash(rows, row, unique + {"id"})
    ensures TableValid(rows + [row], last + 1, unique)
  {
    AppendKeepsUnique(rows, row, unique + {"id"});
  }

  /** The rows `update` leaves: each row the where dict admits takes the assignments. */
  function Updated(rows: seq<Row>, where: seq<Pair>, assignments: map<string, Value>): (r: seq<Row>)
    ensures |r| == |rows|
    ensures forall i :: 0 <= i < |rows| ==> r[i] == if AllEqual(where, rows[i]) then rows[i] + assignments else rows[i]
  {
    if rows == [] then []
    else [if AllEqual(where, rows[0]) then rows[0] + assignments else rows[0]] + Updated(rows[1..], where, assignments)
  }

  /** The number of rows the where dict admits: `cursor.rowcount` of `update` and `delete`. */
  function CountMatching(rows: seq<Row>, where: seq<Pair>): nat
  {
    if rows == [] then 0
    else (if AllEqual(where, rows[0]) then 1 else 0) + CountMatching(rows[1..], where)
  }

  /** The rows `delete` leaves: those the where dict does not admit, in order. */
  function Kept(rows: seq<Row>, where: seq<Pair>): (r: seq<Row>)
    ensures forall x :: x in r ==> x in rows && !AllEqual(where, x)
    ensures forall x :: x in rows && !AllEqual(where, x) ==> x in r
    ensures |r| + CountMatching(rows, where) == |rows|
  {
    if rows == [] then []
    else
      assert rows == [rows[0]] + rows[1..];
      (if AllEqual(where, rows[0]) then [] else [rows[0]]) + Kept(rows[1..], where)
  }

  /** `delete` with an empty where dict deletes every row; `update` likewise updates every row. */
  lemma EmptyWhereMatchesAll(rows: seq<Row>)
    ensures CountMatching(rows, []) == |rows| && Kept(rows, []) == []
  {
    assert forall x :: AllEqual([], x);
  }

  /** Update leaves a column it does not assign as it was in every row. */
  lemma UpdatedKeeps(rows: seq<Row>, where: seq<Pair>, assignments: map<string, Value>, c: string)
    requires c !in assignments
    ensures forall i :: 0 <= i < |rows| ==> Lookup(Updated(rows, where, assignments)[i], c) == Lookup(rows[i], c)
  {
  }

  /** What an insert into one table yields: the result, the rows after, the sequence's last value after. */
  datatype Insertion = Insertion(result: Result<Value, DbError>, rows: seq<Row>, last: nat)

  /** The row an insert naming `id` adds: the table's defaults, then the given values, the id among them. */
  function GivenRow(defaults: Row, columns: seq<string>, values: seq<Value>): Row
  {
    defaults + AsMap(Zip(columns, values))
  }

  /**
   * `insert ... returning id` on a table: a malformed column or value list
   * is rejected and changes nothing. When the columns do not name `id`, the
   * sequence hands out the next id, which is spent whether or not the row
   * is added, as a PostgreSQL sequence's value is. When they do, the
   * column's default is not evaluated: the sequence stays where it was, the
   * given id is stored and returned, and a NULL id is refused. Either way
   * the row is refused when it repeats an id (the primary key) or a
   * non-null value of a unique column.
   */
  function Inserting(rows: seq<Row>, last: nat, defaults: Row, unique: set<string>,
                     columns: seq<string>, values: seq<Value>): (r: Insertion)
    ensures r.result.Failure? ==> r.rows == rows
    ensures r.result.Success? ==> |r.rows| == |rows| + 1 && r.rows[..|rows|] == rows
    ensures r.last == last || r.last == last + 1
  {
    if !Insertable(columns, values) then Insertion(Failure(BadStatement), rows, last)
    else if "id" in columns then
      var row := GivenRow(defaults, columns, values);
      if Lookup(row, "id") == Null then Insertion(Failure(NotNullViolation), rows, last)
      else if Clash(rows, row, unique + {"id"}) then Insertion(Failure(UniqueViolation), rows, last)
      else Insertion(Success(Lookup(row, "id")), rows + [row], last)
    else
      var row := NewRow(defaults, columns, values, last + 1);
      if Clash(rows, row, unique + {"id"}) then Insertion(Failure(UniqueViolation), rows, last + 1)
      else Insertion(Success(Int(last + 1)), rows + [row], last + 1)
  }

  /** An insert whose columns do not name `id` keeps the table's invariant. */
  lemma InsertingKeepsValid(rows: seq<Row>, last: nat, defaults: Row, unique: set<string>,
                            columns: seq<string>, values: seq<Value>)
    requires TableValid(rows, last, unique) && "id" !in columns
    ensures var o := Inserting(rows, last, defaults, unique, columns, values);
            TableValid(o.rows, o.last, unique)
  {
    if Insertable(columns, values) {
      var row := NewRow(defaults, columns, values, last + 1);
      if Clash(rows, row, unique + {"id"}) {
        AdvanceKeepsValid(rows, last, unique);
      } else {
        NewRowId(defaults, columns, values, last + 1);
        InsertKeepsValid(rows, last, row, unique);
      }
    }
  }

  /** No row of `rest` shares a non-null unique value with `x`. */
  predicate DistinctFrom(x: Row, rest: seq<Row>, unique: set<string>)
  {
    forall c, y :: c in unique && y in rest && Lookup(x, c) != Null ==> Lookup(y, c) != Lookup(x, c)
  }

  /** The first row of a table holds no unique value again, and the rest of the table keeps the unique columns unique. */
  lemma UniqueFirst(rows: seq<Row>, unique: set<string>)
    requires rows != [] && UniqueHolds(rows, unique)
    ensures DistinctFrom(rows[0], rows[1..], unique) && UniqueHolds(rows[1..], unique)
  {
    var rest := rows[1..];
    assert forall i :: 0 <= i < |rest| ==> rest[i] == rows[i + 1];
    forall c, y | c in unique && y in rest && Lookup(rows[0], c) != Null
      ensures Lookup(y, c) != Lookup(rows[0], c)
    {
      var k :| 0 <= k < |rest| && rest[k] == y;
      assert Lookup(rows[k + 1], c) != Lookup(rows[0], c);
    }
  }

  /** Putting a row that holds no unique value again in front of a table keeps the unique columns unique. */
  lemma PrependKeepsUnique(x: Row, rest: seq<Row>, unique: set<string>)
    requires DistinctFrom(x, rest, unique) && UniqueHolds(rest, unique)
    ensures UniqueHolds([x] + rest, unique)
  {
    var rows := [x] + rest;
    forall c, i, j | c in unique && 0 <= i < j < |rows| && Lookup(rows[i], c) != Null
      ensures Lookup(rows[j], c) != Lookup(rows[i], c)
    {
      assert rows[j] == rest[j - 1];
      if i == 0 {
        assert rows[j] in rest;
      } else {
        assert rows[i] == rest[i - 1];
        assert Lookup(rest[j - 1], c) != Lookup(rest[i - 1], c);
      }
    }
  }

  /** A row distinct from every row of a table is distinct from every row of a part of it. */
  lemma DistinctFromFewer(x: Row, rows: seq<Row>, fewer: seq<Row>, unique: set<string>)
    requires DistinctFrom(x, rows, unique) && forall y :: y in fewer ==> y in rows
    ensures DistinctFrom(x, fewer, unique)
  {
  }

  /** Deleting rows keeps the unique columns unique. */
  lemma {:induction false} KeptKeepsUnique(rows: seq<Row>, where: seq<Pair>, unique: set<string>)
    requires UniqueHolds(rows, unique)
    ensures UniqueHolds(Kept(rows, where), unique)
  {
    if rows != [] {
      var rest := Kept(rows[1..], where);
      UniqueFirst(rows, unique);
      KeptKeepsUnique(rows[1..], where, unique);
      if !AllEqual(where, rows[0]) {
        KeptStep(rows[0], rows[1..], rest, unique);
        assert Kept(rows, where) == [rows[0]] + rest;
      } else {
        assert Kept(rows, where) == rest;
      }
    }
  }

  /** One step of KeptKeepsUnique: a kept first row in front of what is kept of the rest. */
  lemma KeptStep(x: Row, tail: seq<Row>, rest: seq<Row>, unique: set<string>)
    requires DistinctFrom(x, tail, unique) && UniqueHolds(rest, unique)
    requires forall y :: y in rest ==> y in tail
    ensures UniqueHolds([x] + rest, unique)
  {
    DistinctFromFewer(x, tail, rest, unique);
    PrependKeepsUnique(x, rest, unique);
  }

  /** The unique columns a table declares. */
  function UniqueIn(unique: map<string, set<string>>, table: string): set<string>
  {
    if table in unique then unique[table] else {}
  }

  /** Every table has a sequence, and every table keeps its invariant. */
  predicate StoreValid(tables: map<string, seq<Row>>, serial: map<string, nat>, unique: map<string, set<string>>)
  {
    tables.Keys == serial.Keys && forall t :: t in tables ==> TableValid(tables[t], serial[t], UniqueIn(unique, t))
  }

  /** Replacing one table by rows that keep its invariant keeps the store valid. */
  lemma ReplaceTable(tables: map<string, seq<Row>>, serial: map<string, nat>, unique: map<string, set<string>>,
                     t: string, rows: seq<Row>, last: nat)
    requires StoreValid(tables, serial, unique) && t in tables
    requires TableValid(rows, last, UniqueIn(unique, t))
    ensures StoreValid(tables[t := rows], serial[t := last], unique)
  {
  }

  /** An update that assigns neither `id` nor a unique column keeps the store valid. */
  lemma UpdateKeepsStore(tables: map<string, seq<Row>>, serial: map<string, nat>, unique: map<string, set<string>>,
                         t: string, where: seq<Pair>, assignments: map<string, Value>)
    requires StoreValid(tables, serial, unique) && t in tables
    requires "id" !in assignments && UniqueIn(unique, t) !! assignments.Keys
    ensures StoreValid(tables[t := Updated(tables[t], where, assignments)], serial, unique)
  {
    UpdatedKeepsValid(tables[t], where, assignments, UniqueIn(unique, t), serial[t]);
    ReplaceTable(tables, serial, unique, t, Updated(tables[t], where, assignments), serial[t]);
    assert serial[t := serial[t]] == serial;
  }

  /** A `write` whose columns do not name `id` keeps the store valid. */
  lemma InsertingKeepsStore(tables: map<string, seq<Row>>, serial: map<string, nat>, unique: map<string, set<string>>,
                            t: string, defaults: Row, columns: seq<string>, values: seq<Value>)
    requires StoreValid(tables, serial, unique) && t in tables && "id" !in columns
    ensures var o := Inserting(tables[t], serial[t], defaults, UniqueIn(unique, t), columns, values);
            StoreValid(tables[t := o.rows], serial[t := o.last], unique)
  {
    var o := Inserting(tables[t], serial[t], defaults, UniqueIn(unique, t), columns, values);
    InsertingKeepsValid(tables[t], serial[t], defaults, UniqueIn(unique, t), columns, values);
    ReplaceTable(tables, serial, unique, t, o.rows, o.last);
  }

  /** A delete keeps the store valid. */
  lemma DeleteKeepsStore(tables: map<string, seq<Row>>, serial: map<string, nat>, unique: map<string, set<string>>,
                         t: string, where: seq<Pair>)
    requires StoreValid(tables, serial, unique) && t in tables
    ensures StoreValid(tables[t := Kept(tables[t], where)], serial, unique)
  {
    KeptKeepsValid(tables[t], where, UniqueIn(unique, t), serial[t]);
    ReplaceTable(tables, serial, unique, t, Kept(tables[t], where), serial[t]);
    assert serial[t := serial[t]] == serial;
  }

  /** A sequence that moves past a value no row took keeps the table valid. */
  lemma AdvanceKeepsValid(rows: seq<Row>, last: nat, unique: set<string>)
    requires TableValid(rows, last, unique)
    ensures TableValid(rows, last + 1, unique)
  {
  }

  lemma {:induction false} KeysIndex(pairs: seq<Pair>)
    ensures forall i :: 0 <= i < |pairs| ==> Keys(pairs)[i] == pairs[i].0
  {
    if pairs != [] {
      KeysIndex(pairs[1..]);
    }
  }

  /** The row `write` inserts carries the new id unless the columns name `id` themselves. */
  lemma NewRowId(defaults: Row, columns: seq<string>, values: seq<Value>, id: nat)
    requires "id" !in columns
    ensures "id" in NewRow(defaults, columns, values, id) && NewRow(defaults, columns, values, id)["id"] == Int(id)
  {
    var zipped := Zip(columns, values);
    KeysIndex(zipped);
    assert "id" !in Keys(zipped);
  }

  /** An update that assigns neither `id` nor a unique column keeps the table's invariant. */
  lemma UpdatedKeepsValid(rows: seq<Row>, where: seq<Pair>, assignments: map<string, Value>, unique: set<string>, last: nat)
    requires TableValid(rows, last, unique)
    requires "id" !in assignments && unique !! assignments.Keys
    ensures TableValid(Updated(rows, where, assignments), last, unique)
  {
    var out := Updated(rows, where, assignments);
    forall c | c in unique + {"id"}
      ensures forall i :: 0 <= i < |rows| ==> Lookup(out[i], c) == Lookup(rows[i], c)
    {
      UpdatedKeeps(rows, where, assignments, c);
    }
    forall x: Row | x in out
      ensures "id" in x && x["id"].Int? && 1 <= x["id"].i <= last
    {
      var i :| 0 <= i < |out| && out[i] == x;
      assert rows[i] in rows;
    }
  }

  /** An update assigning none of the unique columns keeps them unique. */
  lemma UpdatedKeepsUnique(rows: seq<Row>, where: seq<Pair>, assignments: map<string, Value>, unique: set<string>)
    requires UniqueHolds(rows, unique) && unique !! assignments.Keys
    ensures UniqueHolds(Updated(rows, where, assignments), unique)
  {
    forall c | c in unique
      ensures forall i :: 0 <= i < |rows| ==> Lookup(Updated(rows, where, assignments)[i], c) == Lookup(rows[i], c)
    {
      UpdatedKeeps(rows, where, assignments, c);
    }
  }

  /** A row the where dict admits is, after the update, the row with the assignments laid over it. */
  lemma UpdatedRowIn(rows: seq<Row>, where: seq<Pair>, assignments: map<string, Value>, x: Row)
    requires x in rows && AllEqual(where, x)
    ensures x + assignments in Updated(rows, where, assignments)
  {
    var i :| 0 <= i < |rows| && rows[i] == x;
    assert Updated(rows, where, assignments)[i] == x + assignments;
  }

  /** Deleting rows keeps the table's invariant. */
  lemma KeptKeepsValid(rows: seq<Row>, where: seq<Pair>, unique: set<string>, last: nat)
    requires TableValid(rows, last, unique)
    ensures TableValid(Kept(rows, where), last, unique)
  {
    KeptKeepsUnique(rows, where, unique + {"id"});
  }

  /** Two rows of a table sharing a non-null value of a unique column are the same row. */
  lemma UniqueRow(rows: seq<Row>, unique: set<string>, c: string, x: Row, y: Row)
    requires UniqueHolds(rows, unique) && c in unique
    requires x in rows && y in rows && Lookup(x, c) != Null && Lookup(y, c) == Lookup(x, c)
    ensures x == y
  {
    var i :| 0 <= i < |rows| && rows[i] == x;
    var j :| 0 <= j < |rows| && rows[j] == y;
    UniqueIndex(rows, unique, c, i, j);
  }

  /** Two positions of a table holding the same non-null value of a unique column are one position. */
  lemma UniqueIndex(rows: seq<Row>, unique: set<string>, c: string, i: nat, j: nat)
    requires UniqueHolds(rows, unique) && c in unique && i < |rows| && j < |rows|
    requires Lookup(rows[i], c) != Null && Lookup(rows[j], c) == Lookup(rows[i], c)
    ensures i == j
  {
  }

  /** `get_one` by a unique column finds the one row holding that value. */
  lemma FirstMatchUnique(rows: seq<Row>, columns: seq<string>, unique: set<string>, c: string, x: Row)
    requires UniqueHolds(rows, unique) && c in unique
    requires x in rows && Lookup(x, c) != Null
    ensures FirstMatch(rows, columns, [(c, Lookup(x, c))]) == Some(Project(x, columns))
  {
    var where := [(c, Lookup(x, c))];
    FirstMatchMeaning(rows, columns, where);
    assert AllEqual(where, x) by {
      assert Equal(where[0], x);
    }
    var y :| y in rows && AllEqual(where, y) && FirstMatch(rows, columns, where).value == Project(y, columns);
    assert Equal(where[0], y);
    UniqueRow(rows, unique, c, x, y);
  }

  lemma {:induction false} AsMapAt(pairs: seq<Pair>)
    requires Distinct(Keys(pairs))
    ensures forall i :: 0 <= i < |pairs| ==> pairs[i].0 in AsMap(pairs) && AsMap(pairs)[pairs[i].0] == pairs[i].1
  {
    if pairs != [] {
      var rest := pairs[1..];
      KeysIndex(pairs);
      KeysIndex(rest);
      assert Distinct(Keys(rest)) by {
        forall i, j | 0 <= i < j < |rest|
          ensures Keys(rest)[i] != Keys(rest)[j]
        {
          assert Keys(pairs)[i + 1] != Keys(pairs)[j + 1];
        }
      }
      AsMapAt(rest);
      forall i | 1 <= i < |pairs|
        ensures pairs[i].0 != pairs[0].0 && pairs[i] == rest[i - 1]
      {
        assert Keys(pairs)[0] != Keys(pairs)[i];
      }
    }
  }

  /** The columns of `zip(columns, values)` are the columns, when there are as many values. */
  lemma KeysZip(columns: seq<string>, values: seq<Value>)
    requires |columns| == |values|
    ensures Keys(Zip(columns, values)) == columns
  {
    KeysIndex(Zip(columns, values));
  }

  /**
   * The row `write` inserts holds each given value in its column, the new
   * id unless the columns name `id`, and the table default in every other
   * column.
   */
  lemma NewRowHolds(defaults: Row, columns: seq<string>, values: seq<Value>, id: nat)
    requires Insertable(columns, values)
    ensures var row := NewRow(defaults, columns, values, id);
            && (forall i :: 0 <= i < |columns| ==> Lookup(row, columns[i]) == values[i])
            && ("id" !in columns ==> Lookup(row, "id") == Int(id))
            && (forall c :: c !in columns && c != "id" ==> Lookup(row, c) == Lookup(defaults, c))
  {
    var zipped := Zip(columns, values);
    KeysZip(columns, values);
    AsMapAt(zipped);
    if "id" !in columns {
      NewRowId(defaults, columns, values, id);
    }
  }

  /**
   * Write, then read back: after a successful insert, `get_one` by the
   * returned id finds the new row, and each written column holds the value
   * written to it.
   */
  lemma InsertThenFind(rows: seq<Row>, last: nat, defaults: Row, unique: set<string>,
                       columns: seq<string>, values: seq<Value>, wanted: seq<string>)
    requires TableValid(rows, last, unique) && "id" !in columns
    ensures var o := Inserting(rows, last, defaults, unique, columns, values);
            o.result.Success? ==>
              && FirstMatch(o.rows, wanted, [("id", o.result.value)]) == Some(Project(NewRow(defaults, columns, values, last + 1), wanted))
              && forall i :: 0 <= i < |columns| && columns[i] in wanted ==>
                   FirstMatch(o.rows, wanted, [("id", o.result.value)]).value[columns[i]] == values[i]
  {
    var o := Inserting(rows, last, defaults, unique, columns, values);
    if o.result.Success? {
      var row := NewRow(defaults, columns, values, last + 1);
      InsertingKeepsValid(rows, last, defaults, unique, columns, values);
      NewRowHolds(defaults, columns, values, last + 1);
      assert row in o.rows;
      FirstMatchUnique(o.rows, wanted, unique + {"id"}, "id", row);
    }
  }

  /**
   * After a successful insert the table still keeps its unique columns and
   * ids unique, and holds the new row under the new id.
   */
  lemma InsertedRow(rows: seq<Row>, last: nat, defaults: Row, unique: set<string>,
                    columns: seq<string>, values: seq<Value>)
    requires TableValid(rows, last, unique) && "id" !in columns
    ensures var o := Inserting(rows, last, defaults, unique, columns, values);
            o.result.Success? ==>
              && UniqueHolds(o.rows, unique + {"id"})
              && NewRow(defaults, columns, values, last + 1) in o.rows
              && Lookup(NewRow(defaults, columns, values, last + 1), "id") == Int(last + 1)
              && o.result.value == Int(last + 1)
  {
    var o := Inserting(rows, last, defaults, unique, columns, values);
    if o.result.Success? {
      InsertingKeepsValid(rows, last, defaults, unique, columns, values);
      NewRowId(defaults, columns, values, last + 1);
    }
  }

  /** A refused insert leaves the rows as they were. */
  lemma InsertingFailureKeeps(rows: seq<Row>, last: nat, defaults: Row, unique: set<string>,
                              columns: seq<string>, values: seq<Value>)
    ensures var o := Inserting(rows, last, defaults, unique, columns, values);
            o.result.Failure? ==> o.rows == rows
  {
  }

  /** Two assignments to different columns. */
  lemma ZipTwo(a: string, b: string, va: Value, vb: Value)
    requires a != b
    ensures var zipped := Zip([a, b], [va, vb]);
            && zipped == [(a, va), (b, vb)] && Keys(zipped) == [a, b] && Distinct(Keys(zipped))
            && AsMap(zipped) == map[a := va, b := vb]
  {
    var zipped := Zip([a, b], [va, vb]);
    assert zipped == [(a, va), (b, vb)];
    assert zipped[1..] == [(b, vb)];
    assert Keys(zipped) == [a, b];
  }

  /** The row an insert naming `id` adds holds each given value, the given id among them, and the default elsewhere. */
  lemma GivenRowHolds(defaults: Row, columns: seq<string>, values: seq<Value>)
    requires Insertable(columns, values)
    ensures var row := GivenRow(defaults, columns, values);
            && (forall i :: 0 <= i < |columns| ==> Lookup(row, columns[i]) == values[i])
            && (forall c :: c !in columns ==> Lookup(row, c) == Lookup(defaults, c))
  {
    KeysZip(columns, values);
    AsMapAt(Zip(columns, values));
  }

  /**
   * An insert repeating a non-null value some row holds in a unique column,
   * or in the id, is refused and adds nothing; only a NULL given id is
   * refused first, for that reason instead.
   */
  lemma DuplicateRefused(rows: seq<Row>, last: nat, defaults: Row, unique: set<string>,
                         columns: seq<string>, values: seq<Value>, k: nat, x: Row)
    requires Insertable(columns, values) && k < |columns| && columns[k] in unique + {"id"}
    requires values[k] != Null && x in rows && Lookup(x, columns[k]) == values[k]
    ensures var o := Inserting(rows, last, defaults, unique, columns, values);
            && o.rows == rows
            && o.last == (if "id" in columns then last else last + 1)
            && o.result == Failure(if "id" in columns && Lookup(GivenRow(defaults, columns, values), "id") == Null
                                   then NotNullViolation else UniqueViolation)
  {
    var i :| 0 <= i < |rows| && rows[i] == x;
    if "id" in columns {
      var row := GivenRow(defaults, columns, values);
      GivenRowHolds(defaults, columns, values);
      assert Lookup(row, columns[k]) == values[k];
      assert Lookup(row, "id") != Null ==> Clash(rows, row, unique + {"id"});
    } else {
      var row := NewRow(defaults, columns, values, last + 1);
      NewRowHolds(defaults, columns, values, last + 1);
      assert Lookup(row, columns[k]) == values[k];
      assert Clash(rows, row, unique + {"id"});
    }
  }

  /**
   * An insert naming `id` leaves the sequence alone; it is refused when the
   * id is NULL, and otherwise it returns exactly the given id and keeps the
   * ids and the unique columns unique.
   */
  lemma ExplicitIdInsert(rows: seq<Row>, last: nat, defaults: Row, unique: set<string>,
                         columns: seq<string>, values: seq<Value>, k: nat)
    requires Insertable(columns, values) && k < |columns| && columns[k] == "id"
    requires UniqueHolds(rows, unique + {"id"})
    ensures var o := Inserting(rows, last, defaults, unique, columns, values);
            && o.last == last
            && (values[k] == Null ==> o == Insertion(Failure(NotNullViolation), rows, last))
            && (o.result.Success? ==> o.result.value == values[k] && o.rows == rows + [GivenRow(defaults, columns, values)])
            && (o.result.Failure? ==> o.rows == rows)
            && UniqueHolds(o.rows, unique + {"id"})
  {
    var row := GivenRow(defaults, columns, values);
    GivenRowHolds(defaults, columns, values);
    assert Lookup(row, "id") == values[k];
    if values[k] != Null && !Clash(rows, row, unique + {"id"}) {
      AppendKeepsUnique(rows, row, unique + {"id"});
    }
  }

  /** An update or delete whose where dict admits no row changes nothing. */
  lemma {:induction false} NoneMatchKeepsAll(rows: seq<Row>, where: seq<Pair>, assignments: map<string, Value>)
    requires CountMatching(rows, where) == 0
    ensures Kept(rows, where) == rows && Updated(rows, where, assignments) == rows
  {
    if rows != [] {
      NoneMatchKeepsAll(rows[1..], where, assignments);
      assert rows == [rows[0]] + rows[1..];
    }
  }

  /** An update or delete that counts a row has a row its where dict admits. */
  lemma {:induction false} CountPositive(rows: seq<Row>, where: seq<Pair>)
    requires CountMatching(rows, where) > 0
    ensures exists x :: x in rows && AllEqual(where, x)
  {
    if !AllEqual(where, rows[0]) {
      CountPositive(rows[1..], where);
      var x :| x in rows[1..] && AllEqual(where, x);
      assert x in rows;
    }
  }

  class Database {

    /** The rows of each table, in insertion order. */
    var tables: map<string, seq<Row>>
    /** The last value each table's `id` sequence handed out. */
    var serial: map<string, nat>
    /** The statements executed so far, in order; `Sent` gives each one's composed SQL. */
    var log: seq<Call>
    /** The columns of each table under a UNIQUE constraint. */
    const unique: map<string, set<string>>
    /** The column defaults of each table (for instance `active` false for users). */
    const defaults: map<string, Row>

    /** Every table has a sequence, its ids are valid and its unique columns unique. */
    predicate Valid()
      reads this
    {
      StoreValid(tables, serial, unique)
    }

    function UniqueOf(table: string): set<string>
    {
      UniqueIn(unique, table)
    }

    function DefaultsOf(table: string): Row
    {
      if table in defaults then defaults[table] else map[]
    }

    /** The rows of a table, or none when it does not exist. */
    function Rows(table: string): seq<Row>
      reads this
    {
      if table in tables then tables[table] else []
    }

    /** A fresh database holding the given empty tables. */
    constructor (names: set<string>, unique: map<string, set<string>>, defaults: map<string, Row>)
      ensures tables == (map t | t in names :: []) && serial == (map t | t in names :: 0) && log == []
      ensures this.unique == unique && this.defaults == defaults
      ensures Valid()
    {
      tables := map t | t in names :: [];
      serial := map t | t in names :: 0;
      log := [];
      this.unique := unique;
      this.defaults := defaults;
    }

    /** `Database.get`. */
    method Get(table: string, columns: seq<string>, limit: Option<int>,
               where: seq<Pair>, orWhere: seq<Pair>, contains: seq<(string, string)>)
      returns (r: Result<seq<Row>, DbError>)
      modifies this
      ensures log == old(log) + [GetCall(table, columns, limit, where, orWhere, contains)]
      ensures tables == old(tables) && serial == old(serial)
      ensures r == if table in tables then Fetch(tables[table], columns, limit, where, orWhere, contains)
                   else Failure(UndefinedTable)
    {
      log := log + [GetCall(table, columns, limit, where, orWhere, contains)];
      if table !in tables {
        return Failure(UndefinedTable);
      }
      r := Fetch(tables[table], columns, limit, where, orWhere, contains);
    }

    /** `Database.get_one`: `get` with `limit=1`, then the first row or None. */
    method GetOne(table: string, columns: seq<string>, where: seq<Pair>)
      returns (r: Result<Option<Row>, DbError>)
      modifies this
      ensures log == old(log) + [GetCall(table, columns, Some(1), where, [], [])]
      ensures tables == old(tables) && serial == old(serial)
      ensures r == if table in tables then Success(FirstMatch(tables[table], columns, where))
                   else Failure(UndefinedTable)
    {
      var rows := Get(table, columns, Some(1), where, [], []);
      match rows
      case Failure(e) =>
        r := Failure(e);
      case Success(found) =>
        r := Success(if |found| > 0 then Some(found[0]) else None);
    }

    /**
     * `Database.get_contains`. With no columns the statement ends in a bare
     * ` where ` and PostgreSQL rejects it.
     */
    method GetContains(table: string, columns: seq<string>, search: string, limit: Option<int>)
      returns (r: Result<seq<Row>, DbError>)
      modifies this
      ensures log == old(log) + [ContainsCall(table, columns, search, limit)]
      ensures tables == old(tables) && serial == old(serial)
      ensures r == if table !in tables then Failure(UndefinedTable)
                   else if columns == [] then Failure(BadStatement)
                   else Fetch(tables[table], columns, limit, [], [], SearchDict(columns, search))
    {
      log := log + [ContainsCall(table, columns, search, limit)];
      if table !in tables {
        return Failure(UndefinedTable);
      }
      if columns == [] {
        return Failure(BadStatement);
      }
      r := Fetch(tables[table], columns, limit, [], [], SearchDict(columns, search));
    }

    /** The last value the table's `id` sequence handed out. */
    function LastId(table: string): nat
      reads this
    {
      if table in serial then serial[table] else 0
    }

    /**
     * `Database.write`: insert one row and return its id, as `Inserting`
     * says.
     */
    method Write(table: string, columns: seq<string>, values: seq<Value>)
      returns (r: Result<Value, DbError>)
      modifies this
      ensures log == old(log) + [WriteCall(table, columns, values)]
      ensures old(table !in tables) ==> r == Failure(UndefinedTable) && tables == old(tables) && serial == old(serial)
      ensures old(table in tables) ==>
                var o := Inserting(old(tables[table]), old(LastId(table)), DefaultsOf(table), UniqueOf(table), columns, values);
                r == o.result && tables == old(tables)[table := o.rows] && serial == old(serial)[table := o.last]
      ensures old(Valid()) && "id" !in columns ==> Valid()
    {
      log := log + [WriteCall(table, columns, values)];
      if table !in tables {
        return Failure(UndefinedTable);
      }
      var o := Inserting(tables[table], LastId(table), DefaultsOf(table), UniqueOf(table), columns, values);
      if Valid() && "id" !in columns {
        InsertingKeepsStore(tables, serial, unique, table, DefaultsOf(table), columns, values);
      }
      tables := tables[table := o.rows];
      serial := serial[table := o.last];
      r := o.result;
    }

    /**
     * `Database.update`: assign `zip(columns, values)` in every row the
     * where dict admits and return how many there were. An empty SET list
     * or a column assigned twice is rejected.
     */
    method Update(table: string, columns: seq<string>, values: seq<Value>, where: seq<Pair>)
      returns (r: Result<nat, DbError>)
      modifies this
      ensures log == old(log) + [UpdateCall(table, columns, values, where)]
      ensures serial == old(serial)
      ensures var zipped := Zip(columns, values);
              if old(table !in tables) then r == Failure(UndefinedTable) && tables == old(tables)
              else if zipped == [] || !Distinct(Keys(zipped)) then r == Failure(BadStatement) && tables == old(tables)
              else r == Success(CountMatching(old(tables[table]), where))
                   && tables == old(tables)[table := Updated(old(tables[table]), where, AsMap(zipped))]
      ensures old(Valid()) && "id" !in Keys(Zip(columns, values)) && UniqueOf(table) !! AsMap(Zip(columns, values)).Keys ==> Valid()
    {
      log := log + [UpdateCall(table, columns, values, where)];
      var zipped := Zip(columns, values);
      if table !in tables {
        return Failure(UndefinedTable);
      }
      if zipped == [] || !Distinct(Keys(zipped)) {
        return Failure(BadStatement);
      }
      var assignments := AsMap(zipped);
      var rows := tables[table];
      if Valid() && "id" !in Keys(zipped) && UniqueOf(table) !! assignments.Keys {
        UpdateKeepsStore(tables, serial, unique, table, where, assignments);
      }
      tables := tables[table := Updated(rows, where, assignments)];
      r := Success(CountMatching(rows, where));
    }

    /** `Database.delete`: delete every row the where dict admits and return how many. */
    method Delete(table: string, where: seq<Pair>)
      returns (r: Result<nat, DbError>)
      modifies this
      ensures log == old(log) + [DeleteCall(table, where)]
      ensures serial == old(serial)
      ensures if old(table !in tables) then r == Failure(UndefinedTable) && tables == old(tables)
              else r == Success(CountMatching(old(tables[table]), where))
                   && tables == old(tables)[table := Kept(old(tables[table]), where)]
      ensures old(Valid()) ==> Valid()
    {
      log := log + [DeleteCall(table, where)];
      if table !in tables {
        return Failure(UndefinedTable);
      }
      var rows := tables[table];
      if Valid() {
        DeleteKeepsStore(tables, serial, unique, table, where);
      }
      tables := tables[table := Kept(rows, where)];
      r := Success(CountMatching(rows, where));
    }
  }
}
