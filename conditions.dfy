/**
 * What the WHERE clause `Database.get` emits means.
 *
 * A `Cond` is the parse tree SQL gives the emitted text: AND binds tighter
 * than OR, and parentheses group. `Print` renders a tree back into the
 * pieces `get` emits, and `SelectCond` is the tree whose rendering is
 * exactly `get`'s filter (lemma `WhereClauseMeaning`). `Eval` says which
 * rows the filter admits. Comparisons with NULL are false and no filter
 * negates, so the two-valued `Eval` admits exactly the rows SQL's
 * three-valued logic admits.
 */
module Conditions {

  import opened Outcomes
  import opened Sql
  import opened Queries
  import opened Like

  /** The two comparisons db.py emits: ` = ` and ` like `. */
  datatype Test = Equals | Like

  datatype Cond =
    | Cmp(column: string, test: Test, operand: Value)
    | Group(inner: Cond)
    | And(left: Cond, right: Cond, upper: bool)   // ` AND ` when upper, ` and ` otherwise
    | Or(left: Cond, right: Cond)

  function TestFragment(t: Test): Fragment
  {
    match t
    case Equals => EqOp
    case Like => LikeOp
  }

  /** The pieces a condition renders to. */
  function Print(c: Cond): Query
  {
    match c
    case Cmp(col, t, v) => Item(col, TestFragment(t), v)
    case Group(inner) => Parens(Print(inner))
    case And(l, r, upper) => Cat(Cat(Print(l), Raw(if upper then AndSep else AndKw)), Print(r))
    case Or(l, r) => Cat(Cat(Print(l), Raw(OrKw)), Print(r))
  }

  /** `k1 = v1 AND k2 = v2 ...`, as SQL groups it (AND is associative, so the nesting is immaterial). */
  function AndChain(pairs: seq<Pair>): Cond
    requires pairs != []
  {
    if |pairs| == 1 then Cmp(pairs[0].0, Equals, pairs[0].1)
    else And(Cmp(pairs[0].0, Equals, pairs[0].1), AndChain(pairs[1..]), true)
  }

  /** `k1 like p1 or k2 like p2 ...`. */
  function LikeChain(pairs: seq<Pair>): Cond
    requires pairs != []
  {
    if |pairs| == 1 then Cmp(pairs[0].0, Like, pairs[0].1)
    else Or(Cmp(pairs[0].0, Like, pairs[0].1), LikeChain(pairs[1..]))
  }

  /** The equality chain renders as `_compose_kv_and` with its default separator and joiner. */
  lemma {:induction false} AndChainPrints(pairs: seq<Pair>)
    requires pairs != []
    ensures Print(AndChain(pairs)) == ComposeKv(AndSep, EqOp, pairs)
  {
    if |pairs| > 1 {
      AndChainPrints(pairs[1..]);
    }
  }

  /** The LIKE chain renders as `_compose_kv_and(separator=' or ', joiner=' like ')`. */
  lemma {:induction false} LikeChainPrints(pairs: seq<Pair>)
    requires pairs != []
    ensures Print(LikeChain(pairs)) == ComposeKv(OrKw, LikeOp, pairs)
  {
    if |pairs| > 1 {
      LikeChainPrints(pairs[1..]);
    }
  }

  /**
   * Appending ` and X` to an OR chain: AND binds tighter, so X joins the
   * last operand of the chain, not the chain as a whole.
   */
  function AttachAnd(c: Cond, x: Cond): Cond
  {
    if c.Or? then Or(c.left, AttachAnd(c.right, x)) else And(c, x, false)
  }

  /** One step of `AttachAndPrints`, over abstract pieces. */
  lemma OrAttach(l: Query, r: Query, attached: Query, x: Query)
    requires Leaves(attached) == Leaves(Cat(Cat(r, Raw(AndKw)), x))
    ensures Leaves(Cat(Cat(l, Raw(OrKw)), attached)) == Leaves(Cat(Cat(Cat(Cat(l, Raw(OrKw)), r), Raw(AndKw)), x))
  {
    var a := Cat(l, Raw(OrKw));
    LeavesCongruent(attached, Cat(Cat(r, Raw(AndKw)), x), a);
    LeavesAssoc(a, Cat(r, Raw(AndKw)), x);
    LeavesAssoc(a, r, Raw(AndKw));
    LeavesCongruent(Cat(Cat(a, r), Raw(AndKw)), Cat(a, Cat(r, Raw(AndKw))), x);
  }

  /** Attaching renders as the condition, ` and `, then the attached operand. */
  lemma {:induction false} AttachAndPrints(c: Cond, x: Cond)
    ensures Leaves(Print(AttachAnd(c, x))) == Leaves(Cat(Cat(Print(c), Raw(AndKw)), Print(x)))
  {
    if c.Or? {
      AttachAndPrints(c.right, x);
      assert Print(AttachAnd(c, x)) == Cat(Cat(Print(c.left), Raw(OrKw)), Print(AttachAnd(c.right, x)));
      assert Print(c) == Cat(Cat(Print(c.left), Raw(OrKw)), Print(c.right));
      OrAttach(Print(c.left), Print(c.right), Print(AttachAnd(c.right, x)), Print(x));
    }
  }

  /** SQL precedence: an OR never sits directly under an AND (it would need parentheses). */
  predicate Parsed(c: Cond)
  {
    match c
    case Cmp(_, _, _) => true
    case Group(inner) => Parsed(inner)
    case And(l, r, _) => !l.Or? && !r.Or? && Parsed(l) && Parsed(r)
    case Or(l, r) => Parsed(l) && Parsed(r)
  }

  lemma {:induction false} AndChainParsed(pairs: seq<Pair>)
    requires pairs != []
    ensures Parsed(AndChain(pairs)) && !AndChain(pairs).Or?
  {
    if |pairs| > 1 {
      AndChainParsed(pairs[1..]);
    }
  }

  lemma {:induction false} LikeChainParsed(pairs: seq<Pair>)
    requires pairs != []
    ensures Parsed(LikeChain(pairs))
  {
    if |pairs| > 1 {
      LikeChainParsed(pairs[1..]);
    }
  }

  lemma {:induction false} AttachAndParsed(c: Cond, x: Cond)
    requires Parsed(c) && Parsed(x) && !x.Or?
    ensures Parsed(AttachAnd(c, x)) && (!c.Or? ==> !AttachAnd(c, x).Or?)
  {
    if c.Or? {
      AttachAndParsed(c.right, x);
    }
  }

  /** The where group `(W)`, or `(W) or (O)` when or_where is present too. */
  function Filter(where: seq<Pair>, orWhere: seq<Pair>): Cond
    requires where != []
  {
    if orWhere == [] then Group(AndChain(where))
    else Or(Group(AndChain(where)), Group(AndChain(orWhere)))
  }

  /**
   * The tree of `get`'s WHERE clause, or None when it emits none. The
   * contains group comes first and is not parenthesised; the where group is
   * attached to it with ` and `, parenthesised as a whole when or_where is
   * present; or_where without where is dropped.
   */
  function SelectCond(where: seq<Pair>, orWhere: seq<Pair>, contains: seq<(string, string)>): (r: Option<Cond>)
    ensures r.None? <==> where == [] && contains == []
  {
    if contains == [] then
      if where == [] then None else Some(Filter(where, orWhere))
    else
      var c := LikeChain(Patterns(contains));
      if where == [] then Some(c)
      else if orWhere == [] then Some(AttachAnd(c, Filter(where, orWhere)))
      else Some(AttachAnd(c, Group(Filter(where, orWhere))))
  }

  /** The tree respects SQL's precedence, so it is the parse of the emitted text. */
  lemma SelectCondParsed(where: seq<Pair>, orWhere: seq<Pair>, contains: seq<(string, string)>)
    ensures SelectCond(where, orWhere, contains).Some? ==> Parsed(SelectCond(where, orWhere, contains).value)
  {
    if where != [] {
      AndChainParsed(where);
      if orWhere != [] {
        AndChainParsed(orWhere);
      }
    }
    if contains != [] {
      LikeChainParsed(Patterns(contains));
      if where != [] {
        AttachAndParsed(LikeChain(Patterns(contains)), if orWhere == [] then Filter(where, orWhere) else Group(Filter(where, orWhere)));
      }
    }
  }

  /** `((x y) z) t` renders as `x ((y z) t)`. */
  lemma Regroup3(x: Query, y: Query, z: Query, t: Query)
    ensures Leaves(Cat(Cat(Cat(x, y), z), t)) == Leaves(Cat(x, Cat(Cat(y, z), t)))
  {
    LeavesAssoc(x, y, z);
    LeavesCongruent(Cat(Cat(x, y), z), Cat(x, Cat(y, z)), t);
    LeavesAssoc(x, Cat(y, z), t);
  }

  /** The five shapes of the filter, over abstract pieces: each renders as ` where ` and a condition. */
  lemma ShapeContains(c: Query)
    ensures Leaves(Cat(Cat(Cat(Raw(WhereKw), c), Empty), Empty)) == Leaves(Cat(Raw(WhereKw), c))
  {
    LeavesEmpty(Cat(Cat(Raw(WhereKw), c), Empty));
    LeavesEmpty(Cat(Raw(WhereKw), c));
  }

  lemma ShapeWhere(w: Query)
    ensures Leaves(Cat(Cat(Empty, Cat(Cat(Cat(Raw(WhereKw), Raw(Open)), w), Raw(Close))), Empty))
         == Leaves(Cat(Raw(WhereKw), Parens(w)))
  {
    var p := Cat(Cat(Cat(Raw(WhereKw), Raw(Open)), w), Raw(Close));
    LeavesEmpty(Cat(Empty, p));
    LeavesEmptyLeft(p);
    Regroup3(Raw(WhereKw), Raw(Open), w, Raw(Close));
  }

  lemma ShapeWhereOr(w: Query, o: Query)
    ensures Leaves(Cat(Cat(Empty, Cat(Cat(Cat(Raw(WhereKw), Raw(Open)), w), Raw(Close))), Cat(Cat(Cat(Raw(OrKw), Raw(Open)), o), Raw(Close))))
         == Leaves(Cat(Raw(WhereKw), Cat(Cat(Parens(w), Raw(OrKw)), Parens(o))))
  {
    var p := Cat(Cat(Cat(Raw(WhereKw), Raw(Open)), w), Raw(Close));
    var q := Cat(Cat(Cat(Raw(OrKw), Raw(Open)), o), Raw(Close));
    LeavesEmptyLeft(p);
    LeavesCongruent(Cat(Empty, p), p, q);
    Regroup3(Raw(WhereKw), Raw(Open), w, Raw(Close));
    Regroup3(Raw(OrKw), Raw(Open), o, Raw(Close));
    LeavesCongruent(p, Cat(Raw(WhereKw), Parens(w)), q);
    LeavesCongruent(q, Cat(Raw(OrKw), Parens(o)), Cat(Raw(WhereKw), Parens(w)));
    LeavesAssoc(Raw(WhereKw), Parens(w), Cat(Raw(OrKw), Parens(o)));
    LeavesAssoc(Parens(w), Raw(OrKw), Parens(o));
    LeavesCongruent(Cat(Cat(Parens(w), Raw(OrKw)), Parens(o)), Cat(Parens(w), Cat(Raw(OrKw), Parens(o))), Raw(WhereKw));
  }

  lemma ShapeContainsWhere(c: Query, w: Query)
    ensures Leaves(Cat(Cat(Cat(Raw(WhereKw), c), Cat(Cat(Cat(Raw(AndKw), Raw(Open)), w), Raw(Close))), Empty))
         == Leaves(Cat(Raw(WhereKw), Cat(Cat(c, Raw(AndKw)), Parens(w))))
  {
    var s := Cat(Cat(Cat(Raw(AndKw), Raw(Open)), w), Raw(Close));
    var head := Cat(Raw(WhereKw), c);
    LeavesEmpty(Cat(head, s));
    Regroup3(Raw(AndKw), Raw(Open), w, Raw(Close));
    LeavesCongruent(s, Cat(Raw(AndKw), Parens(w)), head);
    LeavesAssoc(Raw(WhereKw), c, Cat(Raw(AndKw), Parens(w)));
    LeavesAssoc(c, Raw(AndKw), Parens(w));
    LeavesCongruent(Cat(Cat(c, Raw(AndKw)), Parens(w)), Cat(c, Cat(Raw(AndKw), Parens(w))), Raw(WhereKw));
  }

  /** `a (x b y) c` in either grouping. */
  lemma Middle(x: Query, b: Query, y: Query, a: Query, c: Query)
    ensures Leaves(Cat(Cat(a, x), Cat(Cat(b, y), c))) == Leaves(Cat(Cat(a, Cat(Cat(x, b), y)), c))
  {
    LeavesAssoc(Cat(a, x), Cat(b, y), c);
    LeavesAssoc(a, x, Cat(b, y));
    LeavesAssoc(x, b, y);
    LeavesCongruent(Cat(Cat(x, b), y), Cat(x, Cat(b, y)), a);
    LeavesCongruent(Cat(a, Cat(Cat(x, b), y)), Cat(a, Cat(x, Cat(b, y))), c);
    LeavesCongruent(Cat(Cat(a, x), Cat(b, y)), Cat(a, Cat(x, Cat(b, y))), c);
  }

  /** ` and ((` w `)` and ` or (` o `))`: the where group and the or_where group after a contains group. */
  lemma ShapeGroups(w: Query, o: Query)
    ensures Leaves(Cat(Cat(Cat(Cat(Cat(Raw(AndKw), Raw(Open)), Raw(Open)), w), Raw(Close)),
                       Cat(Cat(Cat(Cat(Raw(OrKw), Raw(Open)), o), Raw(Close)), Raw(Close))))
         == Leaves(Cat(Raw(AndKw), Parens(Cat(Cat(Parens(w), Raw(OrKw)), Parens(o)))))
  {
    var s := Cat(Cat(Cat(Cat(Raw(AndKw), Raw(Open)), Raw(Open)), w), Raw(Close));
    var q := Cat(Cat(Cat(Raw(OrKw), Raw(Open)), o), Raw(Close));
    Regroup3(Cat(Raw(AndKw), Raw(Open)), Raw(Open), w, Raw(Close));
    Regroup3(Raw(OrKw), Raw(Open), o, Raw(Close));
    LeavesCongruent(q, Cat(Raw(OrKw), Parens(o)), Raw(Close));
    var t2 := Cat(Cat(Raw(OrKw), Parens(o)), Raw(Close));
    LeavesCongruent(s, Cat(Cat(Raw(AndKw), Raw(Open)), Parens(w)), Cat(q, Raw(Close)));
    LeavesCongruent(Cat(q, Raw(Close)), t2, Cat(Cat(Raw(AndKw), Raw(Open)), Parens(w)));
    Middle(Parens(w), Raw(OrKw), Parens(o), Cat(Raw(AndKw), Raw(Open)), Raw(Close));
    Regroup3(Raw(AndKw), Raw(Open), Cat(Cat(Parens(w), Raw(OrKw)), Parens(o)), Raw(Close));
  }

  lemma ShapeAll(c: Query, w: Query, o: Query)
    ensures Leaves(Cat(Cat(Cat(Raw(WhereKw), c), Cat(Cat(Cat(Cat(Raw(AndKw), Raw(Open)), Raw(Open)), w), Raw(Close))),
                       Cat(Cat(Cat(Cat(Raw(OrKw), Raw(Open)), o), Raw(Close)), Raw(Close))))
         == Leaves(Cat(Raw(WhereKw), Cat(Cat(c, Raw(AndKw)), Parens(Cat(Cat(Parens(w), Raw(OrKw)), Parens(o))))))
  {
    var s := Cat(Cat(Cat(Cat(Raw(AndKw), Raw(Open)), Raw(Open)), w), Raw(Close));
    var t := Cat(Cat(Cat(Cat(Raw(OrKw), Raw(Open)), o), Raw(Close)), Raw(Close));
    var g := Parens(Cat(Cat(Parens(w), Raw(OrKw)), Parens(o)));
    ShapeGroups(w, o);
    LeavesAssoc(Cat(Raw(WhereKw), c), s, t);
    LeavesCongruent(Cat(s, t), Cat(Raw(AndKw), g), Cat(Raw(WhereKw), c));
    LeavesAssoc(Raw(WhereKw), c, Cat(Raw(AndKw), g));
    LeavesAssoc(c, Raw(AndKw), g);
    LeavesCongruent(Cat(Cat(c, Raw(AndKw)), g), Cat(c, Cat(Raw(AndKw), g)), Raw(WhereKw));
  }
  /**
   * The filter `get` emits is ` where ` followed by the rendering of
   * `SelectCond`, or nothing when `SelectCond` is None.
   */
  lemma WhereClauseMeaning(where: seq<Pair>, orWhere: seq<Pair>, contains: seq<(string, string)>)
    ensures Leaves(WhereClause(where, orWhere, contains))
         == match SelectCond(where, orWhere, contains)
            case None => []
            case Some(cond) => Leaves(Cat(Raw(WhereKw), Print(cond)))
  {
    if contains == [] && where != [] {
      MeaningFilter(where, orWhere);
    } else if contains != [] && where == [] {
      MeaningContains(orWhere, contains);
    } else if contains != [] {
      MeaningBoth(where, orWhere, contains);
    }
  }

  lemma MeaningFilter(where: seq<Pair>, orWhere: seq<Pair>)
    requires where != []
    ensures Leaves(WhereClause(where, orWhere, [])) == Leaves(Cat(Raw(WhereKw), Print(Filter(where, orWhere))))
  {
    var w := ComposeKv(AndSep, EqOp, where);
    AndChainPrints(where);
    assert Print(Group(AndChain(where))) == Parens(w);
    if orWhere == [] {
      assert WhereClause(where, orWhere, []) == Cat(Cat(Empty, Cat(Cat(Cat(Raw(WhereKw), Raw(Open)), w), Raw(Close))), Empty);
      ShapeWhere(w);
    } else {
      var o := ComposeKv(AndSep, EqOp, orWhere);
      AndChainPrints(orWhere);
      assert WhereClause(where, orWhere, [])
          == Cat(Cat(Empty, Cat(Cat(Cat(Raw(WhereKw), Raw(Open)), w), Raw(Close))), Cat(Cat(Cat(Raw(OrKw), Raw(Open)), o), Raw(Close)));
      assert Print(Filter(where, orWhere)) == Cat(Cat(Parens(w), Raw(OrKw)), Parens(o));
      ShapeWhereOr(w, o);
    }
  }

  lemma MeaningContains(orWhere: seq<Pair>, contains: seq<(string, string)>)
    requires contains != []
    ensures Leaves(WhereClause([], orWhere, contains)) == Leaves(Cat(Raw(WhereKw), Print(LikeChain(Patterns(contains)))))
  {
    var c := ComposeKv(OrKw, LikeOp, Patterns(contains));
    LikeChainPrints(Patterns(contains));
    assert WhereClause([], orWhere, contains) == Cat(Cat(Cat(Raw(WhereKw), c), Empty), Empty);
    ShapeContains(c);
  }

  lemma MeaningBoth(where: seq<Pair>, orWhere: seq<Pair>, contains: seq<(string, string)>)
    requires where != [] && contains != []
    ensures Leaves(WhereClause(where, orWhere, contains)) == Leaves(Cat(Raw(WhereKw), Print(SelectCond(where, orWhere, contains).value)))
  {
    var lc := LikeChain(Patterns(contains));
    var x := if orWhere == [] then Filter(where, orWhere) else Group(Filter(where, orWhere));
    assert SelectCond(where, orWhere, contains) == Some(AttachAnd(lc, x));
    AttachAndPrints(lc, x);
    LikeChainPrints(Patterns(contains));
    if orWhere == [] {
      MeaningContainsWhere(where, contains);
    } else {
      MeaningAll(where, orWhere, contains);
    }
    Attached(WhereClause(where, orWhere, contains), Print(AttachAnd(lc, x)), Print(lc), Print(x));
  }

  /** Generic last step of `MeaningBoth`. */
  lemma Attached(clause: Query, attached: Query, c: Query, x: Query)
    requires Leaves(attached) == Leaves(Cat(Cat(c, Raw(AndKw)), x))
    requires Leaves(clause) == Leaves(Cat(Raw(WhereKw), Cat(Cat(c, Raw(AndKw)), x)))
    ensures Leaves(clause) == Leaves(Cat(Raw(WhereKw), attached))
  {
    LeavesCongruent(attached, Cat(Cat(c, Raw(AndKw)), x), Raw(WhereKw));
  }

  lemma MeaningContainsWhere(where: seq<Pair>, contains: seq<(string, string)>)
    requires where != [] && contains != []
    ensures Leaves(WhereClause(where, [], contains))
         == Leaves(Cat(Raw(WhereKw), Cat(Cat(ComposeKv(OrKw, LikeOp, Patterns(contains)), Raw(AndKw)), Print(Filter(where, [])))))
  {
    var c := ComposeKv(OrKw, LikeOp, Patterns(contains));
    var w := ComposeKv(AndSep, EqOp, where);
    AndChainPrints(where);
    assert Print(Filter(where, [])) == Parens(w);
    assert WhereClause(where, [], contains)
        == Cat(Cat(Cat(Raw(WhereKw), c), Cat(Cat(Cat(Raw(AndKw), Raw(Open)), w), Raw(Close))), Empty);
    ShapeContainsWhere(c, w);
  }

  lemma MeaningAll(where: seq<Pair>, orWhere: seq<Pair>, contains: seq<(string, string)>)
    requires where != [] && orWhere != [] && contains != []
    ensures Leaves(WhereClause(where, orWhere, contains))
         == Leaves(Cat(Raw(WhereKw), Cat(Cat(ComposeKv(OrKw, LikeOp, Patterns(contains)), Raw(AndKw)), Print(Group(Filter(where, orWhere))))))
  {
    var c := ComposeKv(OrKw, LikeOp, Patterns(contains));
    var w := ComposeKv(AndSep, EqOp, where);
    var o := ComposeKv(AndSep, EqOp, orWhere);
    AndChainPrints(where);
    AndChainPrints(orWhere);
    assert Print(Filter(where, orWhere)) == Cat(Cat(Parens(w), Raw(OrKw)), Parens(o));
    assert WhereClause(where, orWhere, contains)
        == Cat(Cat(Cat(Raw(WhereKw), c), Cat(Cat(Cat(Cat(Raw(AndKw), Raw(Open)), Raw(Open)), w), Raw(Close))),
               Cat(Cat(Cat(Cat(Raw(OrKw), Raw(Open)), o), Raw(Close)), Raw(Close)));
    ShapeAll(c, w, o);
  }

  /** No filter is emitted exactly when neither where nor contains is given. */
  lemma NoFilterWhenAbsent(where: seq<Pair>, orWhere: seq<Pair>, contains: seq<(string, string)>)
    ensures SelectCond(where, orWhere, contains).None? <==> where == [] && contains == []
    ensures where == [] && contains == [] ==> Leaves(WhereClause(where, orWhere, contains)) == []
  {
  }

  /** or_where has no effect without where, in the emitted text and hence in its meaning. */
  lemma OrWhereNeedsWhere(orWhere: seq<Pair>, contains: seq<(string, string)>)
    ensures WhereClause([], orWhere, contains) == WhereClause([], [], contains)
    ensures SelectCond([], orWhere, contains) == SelectCond([], [], contains)
  {
  }

  /**
   * Whether a row satisfies a condition. `=` is false when either side is
   * NULL; `like` holds only between strings.
   */
  predicate Eval(c: Cond, row: Row)
  {
    match c
    case Cmp(col, Equals, v) => Lookup(row, col) != Null && v != Null && Lookup(row, col) == v
    case Cmp(col, Like, v) => Lookup(row, col).Str? && v.Str? && LikeMatch(Lookup(row, col).s, v.s)
    case Group(inner) => Eval(inner, row)
    case And(l, r, _) => Eval(l, row) && Eval(r, row)
    case Or(l, r) => Eval(l, row) || Eval(r, row)
  }

  /** A row passes a statement's filter; no filter passes every row. */
  predicate Admits(cond: Option<Cond>, row: Row)
  {
    cond.None? || Eval(cond.value, row)
  }

  /** `column = value` holds in the row. */
  predicate Equal(p: Pair, row: Row)
  {
    Lookup(row, p.0) != Null && Lookup(row, p.0) == p.1
  }

  /** `column like pattern` holds in the row. */
  predicate Matches(p: Pair, row: Row)
  {
    Lookup(row, p.0).Str? && p.1.Str? && LikeMatch(Lookup(row, p.0).s, p.1.s)
  }

  /** Every equality of a where dict holds. */
  predicate AllEqual(pairs: seq<Pair>, row: Row)
  {
    forall i :: 0 <= i < |pairs| ==> Equal(pairs[i], row)
  }

  lemma {:induction false} EvalAndChain(pairs: seq<Pair>, row: Row)
    requires pairs != []
    ensures Eval(AndChain(pairs), row) <==> AllEqual(pairs, row)
  {
    if |pairs| > 1 {
      EvalAndChain(pairs[1..], row);
      assert forall i :: 1 <= i < |pairs| ==> pairs[1..][i - 1] == pairs[i];
    }
  }

  /** Some pattern among the first `n` pairs matches. */
  predicate SomeMatch(pairs: seq<Pair>, n: nat, row: Row)
    requires n <= |pairs|
  {
    exists i :: 0 <= i < n && Matches(pairs[i], row)
  }

  lemma {:induction false} EvalLikeChain(pairs: seq<Pair>, row: Row)
    requires pairs != []
    ensures Eval(LikeChain(pairs), row) <==> SomeMatch(pairs, |pairs|, row)
  {
    if |pairs| > 1 {
      EvalLikeChain(pairs[1..], row);
      assert forall i :: 1 <= i < |pairs| ==> pairs[1..][i - 1] == pairs[i];
      if SomeMatch(pairs, |pairs|, row) && !Matches(pairs[0], row) {
        var i :| 0 <= i < |pairs| && Matches(pairs[i], row);
        assert Matches(pairs[1..][i - 1], row);
      }
    }
  }

  /**
   * ` and x` after a LIKE chain binds to its last pattern only: the row
   * passes when one of the other patterns matches, or the last one matches
   * and x holds.
   */
  lemma {:induction false} EvalAttachLike(pairs: seq<Pair>, x: Cond, row: Row)
    requires pairs != []
    ensures Eval(AttachAnd(LikeChain(pairs), x), row)
        <==> SomeMatch(pairs, |pairs| - 1, row) || (Matches(pairs[|pairs| - 1], row) && Eval(x, row))
  {
    if |pairs| > 1 {
      EvalAttachLike(pairs[1..], x, row);
      assert forall i :: 1 <= i < |pairs| ==> pairs[1..][i - 1] == pairs[i];
      if SomeMatch(pairs, |pairs| - 1, row) && !Matches(pairs[0], row) {
        var i :| 0 <= i < |pairs| - 1 && Matches(pairs[i], row);
        assert Matches(pairs[1..][i - 1], row);
      }
    }
  }

  /** The where/or_where part of the filter: where holds, or or_where does (when both are given). */
  predicate FilterHolds(where: seq<Pair>, orWhere: seq<Pair>, row: Row)
  {
    AllEqual(where, row) || (where != [] && orWhere != [] && AllEqual(orWhere, row))
  }

  lemma FilterMeaning(where: seq<Pair>, orWhere: seq<Pair>, row: Row)
    requires where != []
    ensures Eval(Filter(where, orWhere), row) <==> FilterHolds(where, orWhere, row)
  {
    EvalAndChain(where, row);
    if orWhere != [] {
      EvalAndChain(orWhere, row);
    }
  }

  /**
   * The rows `get` selects, as SQL reads the emitted filter: without
   * contains, the rows where holds or or_where does; with contains, the
   * rows one of the first patterns matches, plus the rows the last pattern
   * matches and the where/or_where part admits. Without where, or_where
   * is ignored.
   */
  lemma SelectCondMeaning(where: seq<Pair>, orWhere: seq<Pair>, contains: seq<(string, string)>, row: Row)
    ensures Admits(SelectCond(where, orWhere, contains), row)
        <==> var pats := Patterns(contains);
             if contains == [] then FilterHolds(where, orWhere, row)
             else SomeMatch(pats, |pats| - 1, row)
                  || (Matches(pats[|pats| - 1], row) && FilterHolds(where, orWhere, row))
  {
    var pats := Patterns(contains);
    if where != [] {
      FilterMeaning(where, orWhere, row);
    }
    if contains != [] {
      if where == [] {
        EvalLikeChain(pats, row);
        assert SomeMatch(pats, |pats|, row) <==> SomeMatch(pats, |pats| - 1, row) || Matches(pats[|pats| - 1], row);
      } else if orWhere == [] {
        EvalAttachLike(pats, Filter(where, orWhere), row);
      } else {
        EvalAttachLike(pats, Group(Filter(where, orWhere)), row);
      }
    }
  }

  /**
   * With a single contains key, as `search_for_messages_by_keyword` passes,
   * the filter is the intended intersection: the pattern matches and the
   * where/or_where part holds.
   */
  lemma SingleKeyIntersects(where: seq<Pair>, orWhere: seq<Pair>, column: string, term: string, row: Row)
    requires where != []
    ensures Admits(SelectCond(where, orWhere, [(column, term)]), row)
        <==> Matches((column, Str(Surround(term))), row) && FilterHolds(where, orWhere, row)
  {
    SelectCondMeaning(where, orWhere, [(column, term)], row);
    assert Patterns([(column, term)]) == [(column, Str(Surround(term)))];
  }

  /**
   * With two or more contains keys the where part binds only to the last
   * pattern: a row the first pattern matches passes whatever where and
   * or_where say.
   */
  lemma MultiKeyBypassesWhere(where: seq<Pair>, orWhere: seq<Pair>, contains: seq<(string, string)>, row: Row)
    requires |contains| >= 2
    requires Matches(Patterns(contains)[0], row)
    ensures Admits(SelectCond(where, orWhere, contains), row)
  {
    var pats := Patterns(contains);
    assert SomeMatch(pats, |pats| - 1, row) by {
      assert 0 < |pats| - 1 && Matches(pats[0], row);
    }
    if where == [] {
      EvalLikeChain(pats, row);
    } else if orWhere == [] {
      EvalAttachLike(pats, Filter(where, orWhere), row);
    } else {
      EvalAttachLike(pats, Group(Filter(where, orWhere)), row);
    }
  }
}
