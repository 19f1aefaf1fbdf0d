/**
 * The values, rows and composed statements of db.py.
 *
 * psycopg2 builds a statement as a tree of composables: `sql.SQL` text
 * fragments, `sql.Identifier` names (quoted when rendered) and `sql.Literal`
 * values (adapted by the driver, never spliced into the template text);
 * `format` and `+` glue pieces together into a `sql.Composed`. A `Query` is
 * that tree, with `Cat` for the glue.
 */
module Sql {

  import opened Outcomes

  /** A value passed to `sql.Literal` or read back from a row. */
  datatype Value = Null | Int(i: int) | Str(s: string) | Bool(b: bool)

  /** Python truthiness of a value (`if v:`). */
  predicate Truthy(v: Value)
  {
    match v
    case Null => false
    case Int(i) => i != 0
    case Str(s) => s != ""
    case Bool(b) => b
  }

  /** A row as RealDictCursor returns it: column name to value. */
  type Row = map<string, Value>

  /** `row.get(column)`: a column that is not there reads as None (SQL NULL). */
  function Lookup(row: Row, column: string): Value
  {
    if column in row then row[column] else Null
  }

  /**
   * The fixed SQL text fragments db.py's templates are made of. A raw piece
   * can only hold one of these, so no caller-supplied value can ever become
   * SQL text.
   */
  datatype Fragment =
    | SelectKw | FromKw | WhereKw | AndKw | OrKw | LimitKw
    | AndSep | Comma | EqOp | LikeOp | Open | Close
    | InsertInto | Space | ValuesKw | ReturningId
    | UpdateKw | SetKw | SetEnd | DeleteFrom

  /** The exact text of each fragment, whitespace included. */
  function Text(f: Fragment): string
  {
    match f
    case SelectKw => "select "
    case FromKw => " from "
    case WhereKw => " where "
    case AndKw => " and "
    case OrKw => " or "
    case LimitKw => " limit "
    case AndSep => " AND "
    case Comma => ","
    case EqOp => " = "
    case LikeOp => " like "
    case Open => "("
    case Close => ")"
    case InsertInto => "\n            insert into "
    case Space => " "
    case ValuesKw => "\n            values "
    case ReturningId => " returning id;\n        "
    case UpdateKw => "\n            update "
    case SetKw => "\n            set "
    case SetEnd => "            \n        "
    case DeleteFrom => "delete from "
  }

  /** A composed statement: a tree of text fragments, identifiers and literals. */
  datatype Query =
    | Empty
    | Raw(fragment: Fragment)
    | Ident(name: string)
    | Lit(value: Value)
    | Cat(left: Query, right: Query)

  /** The pieces of a statement in the order `as_string` renders them. */
  function Leaves(q: Query): seq<Query>
  {
    match q
    case Empty => []
    case Cat(a, b) => Leaves(a) + Leaves(b)
    case _ => [q]
  }

  /** Regrouping the glue does not change what is rendered. */
  lemma LeavesAssoc(a: Query, b: Query, c: Query)
    ensures Leaves(Cat(Cat(a, b), c)) == Leaves(Cat(a, Cat(b, c)))
  {
  }

  /** Gluing on nothing does not change what is rendered. */
  lemma LeavesEmpty(a: Query)
    ensures Leaves(Cat(a, Empty)) == Leaves(a)
  {
  }

  lemma LeavesEmptyLeft(a: Query)
    ensures Leaves(Cat(Empty, a)) == Leaves(a)
  {
  }

  /** Whatever follows a piece, the rendering still begins with the piece's own leading pieces. */
  lemma StartsWith(a: Query, b: Query, k: nat)
    requires k < |Leaves(a)|
    ensures k < |Leaves(Cat(a, b))| && Leaves(Cat(a, b))[k] == Leaves(a)[k]
  {
  }

  /** Whatever precedes a piece that renders something, the rendering ends where the piece ends. */
  lemma EndsWith(a: Query, b: Query, last: Query)
    requires Leaves(b) != [] && Leaves(b)[|Leaves(b)| - 1] == last
    ensures Leaves(Cat(a, b)) != [] && Leaves(Cat(a, b))[|Leaves(Cat(a, b))| - 1] == last
  {
  }

  /** Pieces that render alike keep rendering alike when glued to the same neighbour. */
  lemma LeavesCongruent(a: Query, a2: Query, b: Query)
    requires Leaves(a) == Leaves(a2)
    ensures Leaves(Cat(a, b)) == Leaves(Cat(a2, b)) && Leaves(Cat(b, a)) == Leaves(Cat(b, a2))
  {
  }

  /** The values a statement binds as literals, in order. */
  function Params(q: Query): seq<Value>
  {
    match q
    case Lit(v) => [v]
    case Cat(a, b) => Params(a) + Params(b)
    case _ => []
  }

  /** The identifiers a statement names, in order. */
  function Idents(q: Query): seq<string>
  {
    match q
    case Ident(n) => [n]
    case Cat(a, b) => Idents(a) + Idents(b)
    case _ => []
  }

  /** One (column, value) entry of a `where`, `or_where` or `contains` dict, in dict order. */
  type Pair = (string, Value)

  /** The columns of a list of pairs, in order. */
  function Keys(pairs: seq<Pair>): (r: seq<string>)
    ensures |r| == |pairs|
  {
    if pairs == [] then [] else [pairs[0].0] + Keys(pairs[1..])
  }

  /** The values of a list of pairs, in order. */
  function Values(pairs: seq<Pair>): (r: seq<Value>)
    ensures |r| == |pairs|
  {
    if pairs == [] then [] else [pairs[0].1] + Values(pairs[1..])
  }

  lemma {:induction false} KeysAppend(a: seq<Pair>, b: seq<Pair>)
    ensures Keys(a + b) == Keys(a) + Keys(b)
    ensures Values(a + b) == Values(a) + Values(b)
  {
    if a != [] {
      assert (a + b)[1..] == a[1..] + b;
      KeysAppend(a[1..], b);
    } else {
      assert a + b == b;
    }
  }

  /** One `{} <joiner> {}` item of `_compose_kv_and`: identifier, joiner, literal. */
  function Item(column: string, joiner: Fragment, value: Value): (r: Query)
    ensures Params(r) == [value] && Idents(r) == [column]
    ensures Leaves(r) == [Ident(column), Raw(joiner), Lit(value)]
    ensures NoParens(r) == !IsParen(joiner)
  {
    var head := Cat(Ident(column), Raw(joiner));
    assert Params(head) == [] && Idents(head) == [column] && Leaves(head) == [Ident(column), Raw(joiner)] && NoParens(head) == !IsParen(joiner);
    assert Params(Cat(head, Lit(value))) == [] + [value] == [value];
    assert Idents(Cat(head, Lit(value))) == [column] + [] == [column];
    Cat(head, Lit(value))
  }

  /** `Database._compose_kv_and`: `k1 <joiner> v1 <separator> k2 <joiner> v2 ...`. */
  function ComposeKv(separator: Fragment, joiner: Fragment, pairs: seq<Pair>): (r: Query)
    ensures (Leaves(r) == []) == (pairs == [])
  {
    if pairs == [] then Empty
    else if |pairs| == 1 then Item(pairs[0].0, joiner, pairs[0].1)
    else Cat(Cat(Item(pairs[0].0, joiner, pairs[0].1), Raw(separator)), ComposeKv(separator, joiner, pairs[1..]))
  }

  /**
   * A composed list binds exactly the pairs' values and names exactly their
   * columns, both in input order: one literal per pair.
   */
  lemma {:induction false} ComposeKvFacts(separator: Fragment, joiner: Fragment, pairs: seq<Pair>)
    ensures Params(ComposeKv(separator, joiner, pairs)) == Values(pairs)
    ensures Idents(ComposeKv(separator, joiner, pairs)) == Keys(pairs)
  {
    if |pairs| >= 2 {
      var sep := Cat(Item(pairs[0].0, joiner, pairs[0].1), Raw(separator));
      assert Params(sep) == [pairs[0].1] && Idents(sep) == [pairs[0].0];
      ComposeKvFacts(separator, joiner, pairs[1..]);
    }
  }

  /**
   * The rendered layout of a composed list: pair i is the identifier, the
   * joiner and the literal at pieces 4i to 4i+2, and a separator follows
   * every pair but the last; nothing else is rendered.
   */
  lemma {:induction false} ComposeKvLayout(separator: Fragment, joiner: Fragment, pairs: seq<Pair>)
    ensures var pieces := Leaves(ComposeKv(separator, joiner, pairs));
            && |pieces| == (if pairs == [] then 0 else 4 * |pairs| - 1)
            && (forall i :: 0 <= i < |pairs| ==>
                  pieces[4 * i] == Ident(pairs[i].0) && pieces[4 * i + 1] == Raw(joiner) && pieces[4 * i + 2] == Lit(pairs[i].1))
            && (forall i :: 0 <= i < |pairs| - 1 ==> pieces[4 * i + 3] == Raw(separator))
  {
    if |pairs| >= 2 {
      var item := Item(pairs[0].0, joiner, pairs[0].1);
      var head := Leaves(Cat(item, Raw(separator)));
      assert Leaves(Raw(separator)) == [Raw(separator)];
      assert head == [Ident(pairs[0].0), Raw(joiner), Lit(pairs[0].1), Raw(separator)];
      var rest := Leaves(ComposeKv(separator, joiner, pairs[1..]));
      ComposeKvLayout(separator, joiner, pairs[1..]);
      assert forall i :: 0 <= i < |pairs| - 1 ==> pairs[1..][i] == pairs[i + 1];
      LayoutItems(joiner, pairs, head, rest);
      LayoutSeparators(separator, |pairs|, head, rest);
    }
  }

  /** One step of ComposeKvLayout for the pairs: the first pair's pieces put in front of the layout of the rest. */
  lemma LayoutItems(joiner: Fragment, pairs: seq<Pair>, head: seq<Query>, rest: seq<Query>)
    requires |pairs| >= 2 && |head| == 4
    requires head[0] == Ident(pairs[0].0) && head[1] == Raw(joiner) && head[2] == Lit(pairs[0].1)
    requires |rest| == 4 * (|pairs| - 1) - 1
    requires forall i :: 0 <= i < |pairs| - 1 ==>
               rest[4 * i] == Ident(pairs[i + 1].0) && rest[4 * i + 1] == Raw(joiner) && rest[4 * i + 2] == Lit(pairs[i + 1].1)
    ensures forall i :: 0 <= i < |pairs| ==>
              (head + rest)[4 * i] == Ident(pairs[i].0) && (head + rest)[4 * i + 1] == Raw(joiner) && (head + rest)[4 * i + 2] == Lit(pairs[i].1)
  {
    forall i | 1 <= i < |pairs|
      ensures (head + rest)[4 * i] == Ident(pairs[i].0) && (head + rest)[4 * i + 1] == Raw(joiner) && (head + rest)[4 * i + 2] == Lit(pairs[i].1)
    {
      var j := i - 1;
      assert (head + rest)[4 * i] == rest[4 * j] && (head + rest)[4 * i + 1] == rest[4 * j + 1] && (head + rest)[4 * i + 2] == rest[4 * j + 2];
    }
  }

  /** One step of ComposeKvLayout for the separators. */
  lemma LayoutSeparators(separator: Fragment, count: nat, head: seq<Query>, rest: seq<Query>)
    requires count >= 2 && |head| == 4 && head[3] == Raw(separator)
    requires |rest| == 4 * (count - 1) - 1
    requires forall i :: 0 <= i < count - 2 ==> rest[4 * i + 3] == Raw(separator)
    ensures forall i :: 0 <= i < count - 1 ==> (head + rest)[4 * i + 3] == Raw(separator)
  {
    forall i | 1 <= i < count - 1
      ensures (head + rest)[4 * i + 3] == Raw(separator)
    {
      assert (head + rest)[4 * i + 3] == rest[4 * (i - 1) + 3];
    }
  }

  /** With neither separator nor joiner a parenthesis, a composed list holds no parenthesis. */
  lemma {:induction false} ComposeKvNoParens(separator: Fragment, joiner: Fragment, pairs: seq<Pair>)
    requires !IsParen(separator) && !IsParen(joiner)
    ensures NoParens(ComposeKv(separator, joiner, pairs))
  {
    if |pairs| >= 2 {
      var sep := Cat(Item(pairs[0].0, joiner, pairs[0].1), Raw(separator));
      assert NoParens(sep);
      ComposeKvNoParens(separator, joiner, pairs[1..]);
    }
  }

  /** `sql.SQL(',').join(map(sql.Identifier, names))`. */
  function IdentList(names: seq<string>): (r: Query)
    ensures Idents(r) == names && Params(r) == [] && NoParens(r)
  {
    if names == [] then Empty
    else if |names| == 1 then Ident(names[0])
    else
      var head := Cat(Ident(names[0]), Raw(Comma));
      assert NoParens(Raw(Comma));
      assert Idents(head) == [names[0]] && Params(head) == [] && NoParens(head);
      assert names == [names[0]] + names[1..];
      Cat(head, IdentList(names[1..]))
  }

  /** `sql.SQL(',').join(map(sql.Literal, values))`. */
  function LitList(values: seq<Value>): (r: Query)
    ensures Params(r) == values && Idents(r) == [] && NoParens(r)
  {
    if values == [] then Empty
    else if |values| == 1 then Lit(values[0])
    else
      var head := Cat(Lit(values[0]), Raw(Comma));
      assert NoParens(Raw(Comma));
      assert Params(head) == [values[0]] && Idents(head) == [] && NoParens(head);
      assert values == [values[0]] + values[1..];
      Cat(head, LitList(values[1..]))
  }

  predicate IsParen(f: Fragment)
  {
    f == Open || f == Close
  }

  /** The statement holds no parenthesis. */
  predicate NoParens(q: Query)
  {
    match q
    case Raw(f) => !IsParen(f)
    case Cat(a, b) => NoParens(a) && NoParens(b)
    case _ => true
  }

  /**
   * Parenthesis depth after rendering `q` from depth `depth`, or None when a
   * closing parenthesis has nothing to close.
   */
  function Walk(q: Query, depth: nat): Option<nat>
  {
    match q
    case Raw(f) =>
      if f == Open then Some(depth + 1)
      else if f == Close then (if depth == 0 then None else Some(depth - 1))
      else Some(depth)
    case Cat(a, b) => (match Walk(a, depth) case None => None case Some(e) => Walk(b, e))
    case _ => Some(depth)
  }

  /** Every parenthesis is matched. */
  predicate Balanced(q: Query)
  {
    Walk(q, 0) == Some(0)
  }

  lemma {:induction false} WalkNoParens(q: Query, depth: nat)
    requires NoParens(q)
    ensures Walk(q, depth) == Some(depth)
  {
    if q.Cat? {
      WalkNoParens(q.left, depth);
      WalkNoParens(q.right, depth);
    }
  }

  /** Rendering from a deeper starting depth only shifts the depth reached. */
  lemma {:induction false} WalkShift(q: Query, depth: nat, extra: nat)
    requires Walk(q, depth).Some?
    ensures Walk(q, depth + extra) == Some(Walk(q, depth).value + extra)
  {
    if q.Cat? {
      WalkShift(q.left, depth, extra);
      WalkShift(q.right, Walk(q.left, depth).value, extra);
    }
  }

  /** `({})`: a piece between a pair of parentheses. */
  function Parens(q: Query): Query
  {
    Cat(Cat(Raw(Open), q), Raw(Close))
  }

  /** Parentheses bind and name nothing, and wrapping a balanced statement keeps it balanced. */
  lemma ParensFacts(q: Query)
    ensures Params(Parens(q)) == Params(q) && Idents(Parens(q)) == Idents(q)
    ensures Balanced(q) ==> Balanced(Parens(q))
  {
    assert Params(Raw(Open)) == [] && Idents(Raw(Open)) == [];
    assert Params(Cat(Raw(Open), q)) == Params(q) && Idents(Cat(Raw(Open), q)) == Idents(q);
    if Balanced(q) {
      WalkShift(q, 0, 1);
      assert Walk(Cat(Raw(Open), q), 0) == Some(1);
    }
  }
}
