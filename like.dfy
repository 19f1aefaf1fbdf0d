/**
 * PostgreSQL's LIKE, which `get`'s contains filter and `get_contains` use
 * with the pattern `%term%`.
 */
module Like {

  /**
   * `s LIKE p` with the default escape character `\`: `%` matches any run
   * of characters, `_` exactly one, `\c` the character c itself, and every
   * other character itself.
   */
  function LikeMatch(s: string, p: string): bool
    decreases |p|, |s|
  {
    if p == [] then s == []
    else if p[0] == '%' then LikeMatch(s, p[1..]) || (s != [] && LikeMatch(s[1..], p))
    else if p[0] == '_' then s != [] && LikeMatch(s[1..], p[1..])
    else if p[0] == '\\' && |p| > 1 then s != [] && s[0] == p[1] && LikeMatch(s[1..], p[2..])
    else s != [] && s[0] == p[0] && LikeMatch(s[1..], p[1..])
  }

  /** `f"%{v}%"`: the LIKE pattern db.py binds for a substring search. */
  function Surround(v: string): string
  {
    "%" + v + "%"
  }

  /** A term with no character LIKE treats specially. */
  predicate Plain(v: string)
  {
    forall i :: 0 <= i < |v| ==> v[i] != '%' && v[i] != '_' && v[i] != '\\'
  }

  /** `v` occurs in `s` starting at position `k`. */
  predicate OccursAt(v: string, s: string, k: nat)
  {
    k + |v| <= |s| && s[k..k + |v|] == v
  }

  /** `v` occurs in `s` at some position. */
  predicate Occurs(v: string, s: string)
  {
    exists k: nat :: k <= |s| && OccursAt(v, s, k)
  }

  /** `%` alone matches every string. */
  lemma {:induction false} PercentMatchesAll(s: string)
    ensures LikeMatch(s, "%")
  {
    if s != [] {
      PercentMatchesAll(s[1..]);
    }
  }

  /** A leading `%` lets the rest of the pattern match any suffix. */
  lemma {:induction false} PercentLead(s: string, q: string)
    ensures LikeMatch(s, "%" + q) <==> exists k :: 0 <= k <= |s| && LikeMatch(s[k..], q)
  {
    var p := "%" + q;
    assert p[1..] == q;
    if s == [] {
      assert s[0..] == s;
    } else {
      PercentLead(s[1..], q);
      if LikeMatch(s, p) {
        if !LikeMatch(s, q) {
          var k :| 0 <= k <= |s[1..]| && LikeMatch(s[1..][k..], q);
          assert s[k + 1..] == s[1..][k..];
        } else {
          assert s[0..] == s;
        }
      }
      if exists k :: 0 <= k <= |s| && LikeMatch(s[k..], q) {
        var k :| 0 <= k <= |s| && LikeMatch(s[k..], q);
        if k == 0 {
          assert s[0..] == s;
        } else {
          assert s[1..][k - 1..] == s[k..];
        }
      }
    }
  }

  /** A plain term followed by `%` matches exactly the strings the term begins. */
  lemma {:induction false} PlainPrefix(t: string, v: string)
    requires Plain(v)
    ensures LikeMatch(t, v + "%") <==> |v| <= |t| && t[..|v|] == v
  {
    if v == [] {
      assert v + "%" == "%";
      PercentMatchesAll(t);
    } else {
      var p := v + "%";
      assert p[0] == v[0] && p[1..] == v[1..] + "%";
      assert Plain(v[1..]) by {
        forall i | 0 <= i < |v[1..]|
          ensures v[1..][i] != '%' && v[1..][i] != '_' && v[1..][i] != '\\'
        {
          assert v[1..][i] == v[i + 1];
        }
      }
      if t != [] {
        PlainPrefix(t[1..], v[1..]);
        if |v| <= |t| && t[..|v|] == v {
          assert t[1..][..|v| - 1] == v[1..];
        }
        if |v| - 1 <= |t[1..]| && t[1..][..|v| - 1] == v[1..] && t[0] == v[0] {
          assert t[..|v|] == [t[0]] + t[1..][..|v| - 1];
          assert v == [v[0]] + v[1..];
        }
      }
    }
  }

  /**
   * `x like '%term%'` holds exactly when the term occurs in x, provided the
   * term holds no `%`, `_` or `\`.
   */
  lemma SurroundMeansOccurs(s: string, v: string)
    requires Plain(v)
    ensures LikeMatch(s, Surround(v)) <==> Occurs(v, s)
  {
    assert Surround(v) == "%" + (v + "%");
    PercentLead(s, v + "%");
    if LikeMatch(s, Surround(v)) {
      var k :| 0 <= k <= |s| && LikeMatch(s[k..], v + "%");
      PlainPrefix(s[k..], v);
      assert s[k..k + |v|] == s[k..][..|v|];
      assert OccursAt(v, s, k);
    }
    if Occurs(v, s) {
      var k: nat :| k <= |s| && OccursAt(v, s, k);
      PlainPrefix(s[k..], v);
      assert s[k..k + |v|] == s[k..][..|v|];
    }
  }

  /** The term is not escaped: `%` as a search term matches every string. */
  lemma PercentTermMatchesAll(s: string)
    ensures LikeMatch(s, Surround("%"))
  {
    assert Surround("%") == "%" + "%%";
    PercentMatchesAll(s);
    assert s[|s|..] == [];
    assert LikeMatch(s[|s|..], "%%");
    PercentLead(s, "%%");
  }

  /**
   * ... and `_` as a search term matches every non-empty string, whether
   * or not `_` occurs in it, and only the empty string fails.
   */
  lemma UnderscoreTermIsWildcard(s: string)
    ensures LikeMatch(s, Surround("_")) <==> s != []
  {
    assert Surround("_") == "%" + "_%";
    PercentLead(s, "_%");
    if s != [] {
      assert "_%"[1..] == "%";
      PercentMatchesAll(s[1..]);
      assert s[0..] == s;
    } else {
      assert forall k :: 0 <= k <= |s| ==> s[k..] == [];
    }
  }
}
