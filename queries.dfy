/**
 * The statement builders of db.py: `Database.get`, `get_contains`, `write`,
 * `update` and `delete`, each as the composed statement it hands to
 * `cursor.execute`.
 *
 * Each `sql.SQL` template is cut at its placeholders and at its
 * parentheses, so that every parenthesis is a piece of its own; the text
 * fragments of a template, in order, spell the template text exactly.
 * A conditional `+=` of the source contributes `Empty` when its condition
 * is false.
 */
module Queries {

  import opened Outcomes
  import opened Sql
  import opened Like

  /** The `transformed_contains` dict of `get`: each value wrapped by Surround. */
  function Patterns(contains: seq<(string, string)>): (r: seq<Pair>)
    ensures |r| == |contains|
  {
    if contains == [] then []
    else [(contains[0].0, Str(Surround(contains[0].1)))] + Patterns(contains[1..])
  }

  /** Python's `zip(columns, values)`: pairs up to the shorter of the two lists. */
  function Zip(columns: seq<string>, values: seq<Value>): (r: seq<Pair>)
    ensures |r| == if |columns| <= |values| then |columns| else |values|
    ensures forall i :: 0 <= i < |r| ==> r[i] == (columns[i], values[i])
  {
    if columns == [] || values == [] then []
    else [(columns[0], values[0])] + Zip(columns[1..], values[1..])
  }

  /** `select {columns} from {table}`. */
  function SelectHead(table: string, columns: seq<string>): Query
  {
    Cat(Cat(Cat(Raw(SelectKw), IdentList(columns)), Raw(FromKw)), Ident(table))
  }

  /** The head of a select begins with `select`. */
  lemma HeadStarts(table: string, columns: seq<string>)
    ensures Leaves(SelectHead(table, columns)) != [] && Leaves(SelectHead(table, columns))[0] == Raw(SelectKw)
  {
    var a := Cat(Raw(SelectKw), IdentList(columns));
    StartsWith(Raw(SelectKw), IdentList(columns), 0);
    StartsWith(a, Raw(FromKw), 0);
    StartsWith(Cat(a, Raw(FromKw)), Ident(table), 0);
  }

  lemma HeadFacts(table: string, columns: seq<string>)
    ensures Params(SelectHead(table, columns)) == []
    ensures Idents(SelectHead(table, columns)) == columns + [table]
    ensures NoParens(SelectHead(table, columns))
  {
    var a := Cat(Raw(SelectKw), IdentList(columns));
    assert Params(a) == [] && Idents(a) == columns && NoParens(a);
    assert Params(Cat(a, Raw(FromKw))) == [] && Idents(Cat(a, Raw(FromKw))) == columns;
  }

  /** `if contains:` -- ` where c1 like p1 or c2 like p2 ...` (db.py:44-49). */
  function ContainsPart(contains: seq<(string, string)>): Query
  {
    if contains != [] then Cat(Raw(WhereKw), ComposeKv(OrKw, LikeOp, Patterns(contains))) else Empty
  }

  /** The opening of the `starter` template chosen at db.py:52-58. */
  function Starter(orWhere: seq<Pair>, contains: seq<(string, string)>): Query
  {
    if contains == [] then Cat(Raw(WhereKw), Raw(Open))
    else if orWhere != [] then Cat(Cat(Raw(AndKw), Raw(Open)), Raw(Open))
    else Cat(Raw(AndKw), Raw(Open))
  }

  /** `if where:` -- the starter, the AND-joined equalities, `)` (db.py:51-62). */
  function WherePart(where: seq<Pair>, orWhere: seq<Pair>, contains: seq<(string, string)>): Query
  {
    if where != [] then Cat(Cat(Starter(orWhere, contains), ComposeKv(AndSep, EqOp, where)), Raw(Close))
    else Empty
  }

  /** `if where and or_where:` -- ` or (...)`, one more `)` when contains is present (db.py:64-69). */
  function OrWherePart(where: seq<Pair>, orWhere: seq<Pair>, contains: seq<(string, string)>): Query
  {
    if where != [] && orWhere != [] then
      var group := Cat(Cat(Cat(Raw(OrKw), Raw(Open)), ComposeKv(AndSep, EqOp, orWhere)), Raw(Close));
      if contains != [] then Cat(group, Raw(Close)) else group
    else Empty
  }

  /** `if limit:` -- None and 0 both mean "no row cap". */
  predicate LimitApplies(limit: Option<int>)
  {
    limit.Some? && limit.value != 0
  }

  /** ` limit {}` (db.py:71-72). */
  function LimitPart(limit: Option<int>): Query
  {
    if LimitApplies(limit) then Cat(Raw(LimitKw), Lit(Int(limit.value))) else Empty
  }

  /** The filter the three conditional `+=` steps of `get` append, in the source's order. */
  function WhereClause(where: seq<Pair>, orWhere: seq<Pair>, contains: seq<(string, string)>): Query
  {
    Cat(Cat(ContainsPart(contains), WherePart(where, orWhere, contains)), OrWherePart(where, orWhere, contains))
  }

  /**
   * A select head, a filter and a limit: the statement begins with `select`,
   * and a truthy limit is its last piece.
   */
  lemma SelectShape(head: Query, filter: Query, limit: Option<int>)
    requires Leaves(head) != [] && Leaves(head)[0] == Raw(SelectKw)
    ensures var q := Cat(Cat(head, filter), LimitPart(limit));
            && Leaves(q) != [] && Leaves(q)[0] == Raw(SelectKw)
            && (LimitApplies(limit) ==> Leaves(q)[|Leaves(q)| - 1] == Lit(Int(limit.value)))
  {
    StartsWith(head, filter, 0);
    StartsWith(Cat(head, filter), LimitPart(limit), 0);
    if LimitApplies(limit) {
      EndsWith(Cat(head, filter), LimitPart(limit), Lit(Int(limit.value)));
    }
  }

  /** `Database.get`'s statement: head, filter, limit. */
  function Select(table: string, columns: seq<string>, limit: Option<int>,
                  where: seq<Pair>, orWhere: seq<Pair>, contains: seq<(string, string)>): (r: Query)
    ensures Leaves(r) != [] && Leaves(r)[0] == Raw(SelectKw)
    ensures LimitApplies(limit) ==> Leaves(r)[|Leaves(r)| - 1] == Lit(Int(limit.value))
  {
    HeadStarts(table, columns);
    SelectShape(SelectHead(table, columns), WhereClause(where, orWhere, contains), limit);
    Cat(Cat(SelectHead(table, columns), WhereClause(where, orWhere, contains)), LimitPart(limit))
  }

  lemma ContainsFacts(contains: seq<(string, string)>)
    ensures Params(ContainsPart(contains)) == Values(Patterns(contains))
    ensures Idents(ContainsPart(contains)) == Keys(Patterns(contains))
    ensures NoParens(ContainsPart(contains))
  {
    ComposeKvFacts(OrKw, LikeOp, Patterns(contains));
    ComposeKvNoParens(OrKw, LikeOp, Patterns(contains));
  }

  /** A piece between a prefix and a suffix that bind and name nothing binds and names what the piece does. */
  lemma Framed(pre: Query, body: Query, post: Query)
    requires Params(pre) == [] && Idents(pre) == [] && Params(post) == [] && Idents(post) == []
    ensures Params(Cat(Cat(pre, body), post)) == Params(body)
    ensures Idents(Cat(Cat(pre, body), post)) == Idents(body)
  {
  }

  lemma StarterFacts(orWhere: seq<Pair>, contains: seq<(string, string)>)
    ensures Params(Starter(orWhere, contains)) == [] && Idents(Starter(orWhere, contains)) == []
  {
  }

  lemma WhereFacts(where: seq<Pair>, orWhere: seq<Pair>, contains: seq<(string, string)>)
    ensures Params(WherePart(where, orWhere, contains)) == Values(where)
    ensures Idents(WherePart(where, orWhere, contains)) == Keys(where)
  {
    if where != [] {
      ComposeKvFacts(AndSep, EqOp, where);
      StarterFacts(orWhere, contains);
      Framed(Starter(orWhere, contains), ComposeKv(AndSep, EqOp, where), Raw(Close));
    }
  }

  lemma OrWhereFacts(where: seq<Pair>, orWhere: seq<Pair>, contains: seq<(string, string)>)
    ensures Params(OrWherePart(where, orWhere, contains)) == if where != [] then Values(orWhere) else []
    ensures Idents(OrWherePart(where, orWhere, contains)) == if where != [] then Keys(orWhere) else []
  {
    if where != [] && orWhere != [] {
      ComposeKvFacts(AndSep, EqOp, orWhere);
      var group := Cat(Cat(Cat(Raw(OrKw), Raw(Open)), ComposeKv(AndSep, EqOp, orWhere)), Raw(Close));
      Framed(Cat(Raw(OrKw), Raw(Open)), ComposeKv(AndSep, EqOp, orWhere), Raw(Close));
      assert Params(Cat(group, Raw(Close))) == Params(group);
      assert Idents(Cat(group, Raw(Close))) == Idents(group);
    }
  }

  lemma LimitFacts(limit: Option<int>)
    ensures Params(LimitPart(limit)) == if LimitApplies(limit) then [Int(limit.value)] else []
    ensures Idents(LimitPart(limit)) == [] && NoParens(LimitPart(limit))
  {
  }

  /**
   * Every value the caller passes to `get` is bound as a literal, in the
   * order contains, where, or_where, limit; or_where is bound only when
   * where is non-empty; the identifiers are the columns, the table and the
   * filter's columns, in that order.
   */
  /** What a `select` statement binds, from what its five parts bind. */
  lemma Assemble(head: Query, c: Query, w: Query, o: Query, l: Query,
                 pc: seq<Value>, pw: seq<Value>, po: seq<Value>, pl: seq<Value>)
    requires Params(head) == [] && Params(c) == pc && Params(w) == pw && Params(o) == po && Params(l) == pl
    ensures Params(Cat(Cat(head, Cat(Cat(c, w), o)), l)) == pc + pw + po + pl
  {
    assert Params(Cat(Cat(c, w), o)) == pc + pw + po;
  }

  /**
   * Every value the caller passes to `get` is bound as a literal, in the
   * order contains, where, or_where, limit; or_where is bound only when
   * where is non-empty.
   */
  lemma SelectParams(table: string, columns: seq<string>, limit: Option<int>,
                     where: seq<Pair>, orWhere: seq<Pair>, contains: seq<(string, string)>)
    ensures Params(Select(table, columns, limit, where, orWhere, contains))
         == Values(Patterns(contains)) + Values(where)
            + (if where != [] then Values(orWhere) else [])
            + (if LimitApplies(limit) then [Int(limit.value)] else [])
  {
    HeadFacts(table, columns);
    ContainsFacts(contains);
    WhereFacts(where, orWhere, contains);
    OrWhereFacts(where, orWhere, contains);
    LimitFacts(limit);
    Assemble(SelectHead(table, columns), ContainsPart(contains), WherePart(where, orWhere, contains),
             OrWherePart(where, orWhere, contains), LimitPart(limit),
             Values(Patterns(contains)), Values(where),
             if where != [] then Values(orWhere) else [],
             if LimitApplies(limit) then [Int(limit.value)] else []);
  }

  lemma AssembleIdents(head: Query, c: Query, w: Query, o: Query, l: Query,
                       ih: seq<string>, ic: seq<string>, iw: seq<string>, io: seq<string>)
    requires Idents(head) == ih && Idents(c) == ic && Idents(w) == iw && Idents(o) == io && Idents(l) == []
    ensures Idents(Cat(Cat(head, Cat(Cat(c, w), o)), l)) == ih + (ic + iw + io)
  {
    assert Idents(Cat(Cat(c, w), o)) == ic + iw + io;
  }

  /** The identifiers of `get`'s statement: the columns, the table, then the filter's columns. */
  lemma SelectIdents(table: string, columns: seq<string>, limit: Option<int>,
                     where: seq<Pair>, orWhere: seq<Pair>, contains: seq<(string, string)>)
    ensures Idents(Select(table, columns, limit, where, orWhere, contains))
         == columns + [table] + (Keys(Patterns(contains)) + Keys(where)
            + (if where != [] then Keys(orWhere) else []))
  {
    HeadFacts(table, columns);
    ContainsFacts(contains);
    WhereFacts(where, orWhere, contains);
    OrWhereFacts(where, orWhere, contains);
    LimitFacts(limit);
    AssembleIdents(SelectHead(table, columns), ContainsPart(contains), WherePart(where, orWhere, contains),
                   OrWherePart(where, orWhere, contains), LimitPart(limit),
                   columns + [table], Keys(Patterns(contains)), Keys(where),
                   if where != [] then Keys(orWhere) else []);
  }

  /** The depth left open after the where group: one exactly when contains and or_where are both present. */
  function GroupDepth(where: seq<Pair>, orWhere: seq<Pair>, contains: seq<(string, string)>): nat
  {
    if where != [] && orWhere != [] && contains != [] then 1 else 0
  }

  lemma WhereWalk(where: seq<Pair>, orWhere: seq<Pair>, contains: seq<(string, string)>)
    ensures Walk(WherePart(where, orWhere, contains), 0) == Some(GroupDepth(where, orWhere, contains))
  {
    if where != [] {
      var depth := GroupDepth(where, orWhere, contains);
      var st := Starter(orWhere, contains);
      if contains != [] && orWhere != [] {
        assert Walk(Cat(Raw(AndKw), Raw(Open)), 0) == Some(1);
      }
      assert Walk(st, 0) == Some(depth + 1);
      var body := ComposeKv(AndSep, EqOp, where);
      ComposeKvNoParens(AndSep, EqOp, where);
      WalkNoParens(body, depth + 1);
      assert Walk(Cat(st, body), 0) == Some(depth + 1);
    }
  }

  lemma OrWhereWalk(where: seq<Pair>, orWhere: seq<Pair>, contains: seq<(string, string)>)
    ensures Walk(OrWherePart(where, orWhere, contains), GroupDepth(where, orWhere, contains)) == Some(0)
  {
    if where != [] && orWhere != [] {
      var depth := GroupDepth(where, orWhere, contains);
      var other := ComposeKv(AndSep, EqOp, orWhere);
      ComposeKvNoParens(AndSep, EqOp, orWhere);
      WalkNoParens(other, depth + 1);
      var open := Cat(Cat(Raw(OrKw), Raw(Open)), other);
      assert Walk(Cat(Raw(OrKw), Raw(Open)), depth) == Some(depth + 1);
      assert Walk(open, depth) == Some(depth + 1);
      assert Walk(Cat(open, Raw(Close)), depth) == Some(depth);
    }
  }

  lemma AssembleWalk(head: Query, c: Query, w: Query, o: Query, l: Query, depth: nat)
    requires Walk(head, 0) == Some(0) && Walk(c, 0) == Some(0) && Walk(w, 0) == Some(depth)
    requires Walk(o, depth) == Some(0) && Walk(l, 0) == Some(0)
    ensures Walk(Cat(Cat(head, Cat(Cat(c, w), o)), l), 0) == Some(0)
  {
    assert Walk(Cat(c, w), 0) == Some(depth);
    assert Walk(Cat(Cat(c, w), o), 0) == Some(0);
  }

  /** Every statement `get` builds has matched parentheses. */
  lemma SelectBalanced(table: string, columns: seq<string>, limit: Option<int>,
                       where: seq<Pair>, orWhere: seq<Pair>, contains: seq<(string, string)>)
    ensures Balanced(Select(table, columns, limit, where, orWhere, contains))
  {
    HeadFacts(table, columns);
    ContainsFacts(contains);
    LimitFacts(limit);
    WalkNoParens(SelectHead(table, columns), 0);
    WalkNoParens(ContainsPart(contains), 0);
    WalkNoParens(LimitPart(limit), 0);
    WhereWalk(where, orWhere, contains);
    OrWhereWalk(where, orWhere, contains);
    AssembleWalk(SelectHead(table, columns), ContainsPart(contains), WherePart(where, orWhere, contains),
                 OrWherePart(where, orWhere, contains), LimitPart(limit), GroupDepth(where, orWhere, contains));
  }

  /** `get_contains`' OR-joined list: every column paired with the same `%search%` pattern. */
  function SearchPairs(columns: seq<string>, search: string): (r: seq<Pair>)
    ensures |r| == |columns|
  {
    if columns == [] then [] else [(columns[0], Str(Surround(search)))] + SearchPairs(columns[1..], search)
  }

  /** `Database.get_contains`: `select {columns} from {table} where {c1 like p or c2 like p ...}[ limit {}]`. */
  function SelectContaining(table: string, columns: seq<string>, search: string, limit: Option<int>): (r: Query)
    ensures Leaves(r) != [] && Leaves(r)[0] == Raw(SelectKw)
    ensures LimitApplies(limit) ==> Leaves(r)[|Leaves(r)| - 1] == Lit(Int(limit.value))
  {
    var head := Cat(SelectHead(table, columns), Raw(WhereKw));
    HeadStarts(table, columns);
    StartsWith(SelectHead(table, columns), Raw(WhereKw), 0);
    SelectShape(head, ComposeKv(OrKw, LikeOp, SearchPairs(columns, search)), limit);
    Cat(Cat(head, ComposeKv(OrKw, LikeOp, SearchPairs(columns, search))), LimitPart(limit))
  }

  /** The search pairs name the selected columns in order, each with the one `%search%` pattern. */
  lemma {:induction false} SearchPairsFacts(columns: seq<string>, search: string)
    ensures Keys(SearchPairs(columns, search)) == columns
    ensures forall i :: 0 <= i < |columns| ==> Values(SearchPairs(columns, search))[i] == Str(Surround(search))
  {
    if columns != [] {
      SearchPairsFacts(columns[1..], search);
      assert columns == [columns[0]] + columns[1..];
    }
  }

  /**
   * `get_contains` binds the `%search%` pattern once per selected column and
   * then the limit when it is truthy; it names the columns, the table and
   * the columns again.
   */
  lemma SelectContainingFacts(table: string, columns: seq<string>, search: string, limit: Option<int>)
    ensures Params(SelectContaining(table, columns, search, limit))
         == Values(SearchPairs(columns, search)) + (if LimitApplies(limit) then [Int(limit.value)] else [])
    ensures forall i :: 0 <= i < |columns| ==> Params(SelectContaining(table, columns, search, limit))[i] == Str(Surround(search))
    ensures Idents(SelectContaining(table, columns, search, limit)) == columns + [table] + columns
    ensures Balanced(SelectContaining(table, columns, search, limit))
  {
    var pairs := SearchPairs(columns, search);
    var head := SelectHead(table, columns);
    var cond := ComposeKv(OrKw, LikeOp, pairs);
    assert Params(head) == [] && Idents(head) == columns + [table] && NoParens(head) by {
      HeadFacts(table, columns);
    }
    assert Params(cond) == Values(pairs) && Idents(cond) == columns && NoParens(cond)
           && forall i :: 0 <= i < |columns| ==> Values(pairs)[i] == Str(Surround(search)) by {
      SearchPairsFacts(columns, search);
      ComposeKvFacts(OrKw, LikeOp, pairs);
      ComposeKvNoParens(OrKw, LikeOp, pairs);
    }
    LimitFacts(limit);
    ContainingParams(head, cond, LimitPart(limit));
    ContainingIdents(head, cond, LimitPart(limit));
    ContainingBalanced(head, cond, LimitPart(limit));
    LeadingValues(Values(pairs), Params(LimitPart(limit)), Str(Surround(search)));
  }

  /** Values all equal to `v` stay so at the front of a longer list. */
  lemma LeadingValues(front: seq<Value>, back: seq<Value>, v: Value)
    requires forall i :: 0 <= i < |front| ==> front[i] == v
    ensures forall i :: 0 <= i < |front| ==> (front + back)[i] == v
  {
  }

  /** The values `get_contains` binds: none in the head or the WHERE keyword, the condition's, then the limit's. */
  lemma ContainingParams(head: Query, cond: Query, limit: Query)
    requires Params(head) == []
    ensures Params(Cat(Cat(Cat(head, Raw(WhereKw)), cond), limit)) == Params(cond) + Params(limit)
  {
    var none: seq<Value> := [];
    var pre := Cat(head, Raw(WhereKw));
    assert Params(Raw(WhereKw)) == none;
    assert Params(pre) == Params(head) + none == none;
    assert Params(Cat(pre, cond)) == none + Params(cond) == Params(cond);
  }

  /** The identifiers `get_contains` names: the head's, then the condition's; the limit names none. */
  lemma ContainingIdents(head: Query, cond: Query, limit: Query)
    requires Idents(limit) == []
    ensures Idents(Cat(Cat(Cat(head, Raw(WhereKw)), cond), limit)) == Idents(head) + Idents(cond)
  {
    var nameless: seq<string> := [];
    var pre := Cat(head, Raw(WhereKw));
    assert Idents(Raw(WhereKw)) == nameless;
    assert Idents(pre) == Idents(head) + nameless == Idents(head);
    assert Idents(Cat(pre, cond)) == Idents(head) + Idents(cond);
    assert Idents(Cat(Cat(pre, cond), limit)) == Idents(Cat(pre, cond)) + nameless;
  }

  /** No piece of `get_contains` holds a parenthesis, so the statement is balanced. */
  lemma ContainingBalanced(head: Query, cond: Query, limit: Query)
    requires NoParens(head) && NoParens(cond) && NoParens(limit)
    ensures Balanced(Cat(Cat(Cat(head, Raw(WhereKw)), cond), limit))
  {
    assert NoParens(Raw(WhereKw));
    WalkNoParens(Cat(Cat(Cat(head, Raw(WhereKw)), cond), limit), 0);
  }

  /** `{k: search for k in columns}`: the contains dict `get_contains` amounts to. */
  function SearchDict(columns: seq<string>, search: string): (r: seq<(string, string)>)
    ensures |r| == |columns|
  {
    if columns == [] then [] else [(columns[0], search)] + SearchDict(columns[1..], search)
  }

  lemma {:induction false} SearchDictPatterns(columns: seq<string>, search: string)
    ensures Patterns(SearchDict(columns, search)) == SearchPairs(columns, search)
  {
    if columns != [] {
      SearchDictPatterns(columns[1..], search);
    }
  }

  /**
   * `get_contains` renders exactly what `get` renders for a `contains` dict
   * that maps every selected column to the search term, with no `where`.
   */
  lemma SelectContainingIsGet(table: string, columns: seq<string>, search: string, limit: Option<int>)
    requires columns != []
    ensures Leaves(SelectContaining(table, columns, search, limit))
         == Leaves(Select(table, columns, limit, [], [], SearchDict(columns, search)))
  {
    SearchDictPatterns(columns, search);
    LeavesRegroup(SelectHead(table, columns), ComposeKv(OrKw, LikeOp, SearchPairs(columns, search)), LimitPart(limit));
  }

  lemma LeavesRegroup(head: Query, cond: Query, limit: Query)
    ensures Leaves(Cat(Cat(Cat(head, Raw(WhereKw)), cond), limit))
         == Leaves(Cat(Cat(head, Cat(Cat(Cat(Raw(WhereKw), cond), Empty), Empty)), limit))
  {
    var clause := Cat(Raw(WhereKw), cond);
    LeavesEmpty(clause);
    LeavesEmpty(Cat(clause, Empty));
    LeavesCongruent(Cat(Cat(clause, Empty), Empty), clause, head);
    LeavesAssoc(head, Raw(WhereKw), cond);
    LeavesCongruent(Cat(head, Cat(Cat(clause, Empty), Empty)), Cat(Cat(head, Raw(WhereKw)), cond), limit);
  }

  /** `Database.write`: `insert into {table} ({columns}) values ({values}) returning id;`. */
  function Insert(table: string, columns: seq<string>, values: seq<Value>): (r: Query)
    ensures |Leaves(r)| >= 2 && Leaves(r)[0] == Raw(InsertInto) && Leaves(r)[1] == Ident(table)
    ensures Leaves(r)[|Leaves(r)| - 1] == Raw(ReturningId)
  {
    var into := Cat(Raw(InsertInto), Ident(table));
    var a := Cat(into, Raw(Space));
    var b := Cat(a, Parens(IdentList(columns)));
    var head := Cat(b, Raw(ValuesKw));
    var tail := Cat(Parens(LitList(values)), Raw(ReturningId));
    assert Leaves(into) == [Raw(InsertInto), Ident(table)];
    StartsWith(into, Raw(Space), 0);
    StartsWith(into, Raw(Space), 1);
    StartsWith(a, Parens(IdentList(columns)), 0);
    StartsWith(a, Parens(IdentList(columns)), 1);
    StartsWith(b, Raw(ValuesKw), 0);
    StartsWith(b, Raw(ValuesKw), 1);
    StartsWith(head, tail, 0);
    StartsWith(head, tail, 1);
    EndsWith(Parens(LitList(values)), Raw(ReturningId), Raw(ReturningId));
    EndsWith(head, tail, Raw(ReturningId));
    Cat(head, tail)
  }

  /** Gluing two balanced pieces: their parameters and names add up, and the whole stays balanced. */
  lemma Glue(a: Query, b: Query)
    requires Balanced(a) && Balanced(b)
    ensures Params(Cat(a, b)) == Params(a) + Params(b) && Idents(Cat(a, b)) == Idents(a) + Idents(b)
    ensures Balanced(Cat(a, b))
  {
  }

  /** A keyword, an identifier and a keyword: names just the identifier, binds nothing, no parenthesis. */
  lemma Named(f: Fragment, table: string, g: Fragment)
    requires !IsParen(f) && !IsParen(g)
    ensures Params(Cat(Cat(Raw(f), Ident(table)), Raw(g))) == []
    ensures Idents(Cat(Cat(Raw(f), Ident(table)), Raw(g))) == [table]
    ensures NoParens(Cat(Cat(Raw(f), Ident(table)), Raw(g)))
  {
    var none: seq<Value> := [];
    var named: seq<string> := [];
    assert Params(Raw(f)) == none && Params(Ident(table)) == none;
    assert Idents(Raw(f)) == named && Idents(Ident(table)) == [table];
    assert Params(Cat(Raw(f), Ident(table))) == none + none == none;
    assert Idents(Cat(Raw(f), Ident(table))) == named + [table] == [table];
  }

  /** `insert into {table} ({columns}) values `. */
  lemma InsertHead(table: string, columns: seq<string>)
    ensures var head := Cat(Cat(Cat(Cat(Raw(InsertInto), Ident(table)), Raw(Space)), Parens(IdentList(columns))), Raw(ValuesKw));
            Params(head) == [] && Idents(head) == [table] + columns && Balanced(head)
  {
    var cols := IdentList(columns);
    var into := Cat(Cat(Raw(InsertInto), Ident(table)), Raw(Space));
    Named(InsertInto, table, Space);
    WalkNoParens(into, 0);
    ParensFacts(cols);
    WalkNoParens(cols, 0);
    Glue(into, Parens(cols));
    Glue(Cat(into, Parens(cols)), Raw(ValuesKw));
  }

  /** `({values}) returning id;`. */
  lemma InsertTail(values: seq<Value>)
    ensures var tail := Cat(Parens(LitList(values)), Raw(ReturningId));
            Params(tail) == values && Idents(tail) == [] && Balanced(tail)
  {
    var vals := LitList(values);
    ParensFacts(vals);
    WalkNoParens(vals, 0);
    Glue(Parens(vals), Raw(ReturningId));
  }

  /** `write` binds exactly the values, in order, and names the table and then the columns. */
  lemma InsertFacts(table: string, columns: seq<string>, values: seq<Value>)
    ensures Params(Insert(table, columns, values)) == values
    ensures Idents(Insert(table, columns, values)) == [table] + columns
    ensures Balanced(Insert(table, columns, values))
  {
    InsertHead(table, columns);
    InsertTail(values);
    Glue(Cat(Cat(Cat(Cat(Raw(InsertInto), Ident(table)), Raw(Space)), Parens(IdentList(columns))), Raw(ValuesKw)),
         Cat(Parens(LitList(values)), Raw(ReturningId)));
  }

  /** ` where {}` with the AND-joined equalities, or nothing when `where` is empty. */
  function WhereSuffix(where: seq<Pair>): Query
  {
    if where != [] then Cat(Raw(WhereKw), ComposeKv(AndSep, EqOp, where)) else Empty
  }

  lemma WhereSuffixFacts(where: seq<Pair>)
    ensures Params(WhereSuffix(where)) == Values(where) && Idents(WhereSuffix(where)) == Keys(where)
    ensures NoParens(WhereSuffix(where))
  {
    ComposeKvFacts(AndSep, EqOp, where);
    ComposeKvNoParens(AndSep, EqOp, where);
  }

  /**
   * `Database.update`: `update {table} set c1 = v1,c2 = v2 ... [ where ...]`,
   * the SET list taken from `zip(columns, values)`.
   */
  function UpdateStmt(table: string, columns: seq<string>, values: seq<Value>, where: seq<Pair>): (r: Query)
    ensures |Leaves(r)| >= 3 && Leaves(r)[0] == Raw(UpdateKw) && Leaves(r)[1] == Ident(table) && Leaves(r)[2] == Raw(SetKw)
  {
    var head := Cat(Cat(Raw(UpdateKw), Ident(table)), Raw(SetKw));
    var list := ComposeKv(Comma, EqOp, Zip(columns, values));
    assert Leaves(Cat(Raw(UpdateKw), Ident(table))) == [Raw(UpdateKw), Ident(table)];
    assert Leaves(head) == [Raw(UpdateKw), Ident(table), Raw(SetKw)];
    var withList := Cat(head, list);
    var closed := Cat(withList, Raw(SetEnd));
    StartsWith(head, list, 0);
    StartsWith(head, list, 1);
    StartsWith(head, list, 2);
    StartsWith(withList, Raw(SetEnd), 0);
    StartsWith(withList, Raw(SetEnd), 1);
    StartsWith(withList, Raw(SetEnd), 2);
    StartsWith(closed, WhereSuffix(where), 0);
    StartsWith(closed, WhereSuffix(where), 1);
    StartsWith(closed, WhereSuffix(where), 2);
    Cat(closed, WhereSuffix(where))
  }

  /**
   * `update` binds the zipped SET values and then the WHERE values; it
   * names the table, the zipped columns and the WHERE columns.
   */
  lemma UpdateFacts(table: string, columns: seq<string>, values: seq<Value>, where: seq<Pair>)
    ensures Params(UpdateStmt(table, columns, values, where)) == Values(Zip(columns, values)) + Values(where)
    ensures Idents(UpdateStmt(table, columns, values, where)) == [table] + Keys(Zip(columns, values)) + Keys(where)
    ensures Balanced(UpdateStmt(table, columns, values, where))
  {
    var zipped := Zip(columns, values);
    ComposeKvFacts(Comma, EqOp, zipped);
    ComposeKvNoParens(Comma, EqOp, zipped);
    WhereSuffixFacts(where);
    UpdateAssemble(table, ComposeKv(Comma, EqOp, zipped), WhereSuffix(where));
  }

  lemma UpdateAssemble(table: string, assignments: Query, suffix: Query)
    requires NoParens(assignments) && NoParens(suffix)
    ensures var q := Cat(Cat(Cat(Cat(Cat(Raw(UpdateKw), Ident(table)), Raw(SetKw)), assignments), Raw(SetEnd)), suffix);
      && Params(q) == Params(assignments) + Params(suffix)
      && Idents(q) == [table] + Idents(assignments) + Idents(suffix)
      && Balanced(q)
  {
    Named(UpdateKw, table, SetKw);
    Sandwich(Cat(Cat(Raw(UpdateKw), Ident(table)), Raw(SetKw)), assignments, Raw(SetEnd), suffix, [table]);
  }

  /** A prefix naming `names`, a body, a bare fragment and a suffix, none with parentheses. */
  lemma Sandwich(pre: Query, body: Query, post: Query, suffix: Query, names: seq<string>)
    requires Params(pre) == [] && Idents(pre) == names && Params(post) == [] && Idents(post) == []
    requires NoParens(pre) && NoParens(body) && NoParens(post) && NoParens(suffix)
    ensures Params(Cat(Cat(Cat(pre, body), post), suffix)) == Params(body) + Params(suffix)
    ensures Idents(Cat(Cat(Cat(pre, body), post), suffix)) == names + Idents(body) + Idents(suffix)
    ensures Balanced(Cat(Cat(Cat(pre, body), post), suffix))
  {
    assert Params(Cat(pre, body)) == Params(body);
    assert Params(Cat(Cat(pre, body), post)) == Params(body);
    assert Idents(Cat(Cat(pre, body), post)) == names + Idents(body);
    WalkNoParens(Cat(Cat(Cat(pre, body), post), suffix), 0);
  }

  /** `Database.delete`: `delete from {table}[ where ...]`. */
  function DeleteStmt(table: string, where: seq<Pair>): (r: Query)
    ensures |Leaves(r)| >= 2 && Leaves(r)[0] == Raw(DeleteFrom) && Leaves(r)[1] == Ident(table)
  {
    assert Leaves(Cat(Raw(DeleteFrom), Ident(table))) == [Raw(DeleteFrom), Ident(table)];
    Cat(Cat(Raw(DeleteFrom), Ident(table)), WhereSuffix(where))
  }

  /** `delete` binds the WHERE values and names the table then the WHERE columns; no WHERE means no filter. */
  lemma DeleteFacts(table: string, where: seq<Pair>)
    ensures Params(DeleteStmt(table, where)) == Values(where)
    ensures Idents(DeleteStmt(table, where)) == [table] + Keys(where)
    ensures where == [] ==> Leaves(DeleteStmt(table, where)) == [Raw(DeleteFrom), Ident(table)]
  {
    WhereSuffixFacts(where);
    var pre := Cat(Raw(DeleteFrom), Ident(table));
    assert Params(pre) == [] && Idents(pre) == [table] && Leaves(pre) == [Raw(DeleteFrom), Ident(table)];
  }
}
