/** The finite-domain search the toolkit delegates to a constraint solver.

    Every search in the toolkit declares `n` integer variables with domain
    `[0, m]`, labels them first-unbound-variable-first, smallest-value-first,
    and reads solutions one after the other. With that strategy the solutions
    arrive in lexicographic order of the variable vector, whatever propagation
    prunes on the way. `All` is that order made explicit: a depth-first
    enumeration of the vectors extending a prefix that satisfy a predicate. It
    is proved sound and complete against the predicate and strictly
    lexicographically sorted; `Solutions` keeps the first `limit` of them.
 */
module Enumerate {

  /** `r` extends `p` by `k` entries, each in `[0, m]`. */
  predicate Extends(p: seq<nat>, k: nat, m: nat, r: seq<nat>)
  {
    |r| == |p| + k && r[..|p|] == p && forall i :: |p| <= i < |r| ==> r[i] <= m
  }

  /** A vector in the search box `[0, m]^n`. */
  predicate InBox(v: seq<nat>, n: nat, m: nat)
  {
    |v| == n && forall i :: 0 <= i < |v| ==> v[i] <= m
  }

  /** Strict lexicographic order on vectors. */
  ghost predicate LexLess(a: seq<nat>, b: seq<nat>)
  {
    exists i :: 0 <= i < |a| && i < |b| && a[..i] == b[..i] && a[i] < b[i]
  }

  ghost predicate StrictlySorted(s: seq<seq<nat>>)
  {
    forall i, j :: 0 <= i < j < |s| ==> LexLess(s[i], s[j])
  }

  /** All vectors extending `p` by `k` entries in `[0, m]` that satisfy `P`,
      in the order the solver produces them. */
  function All(p: seq<nat>, k: nat, m: nat, P: seq<nat> -> bool): (res: seq<seq<nat>>)
    ensures forall r :: r in res ==> Extends(p, k, m, r) && P(r)
    decreases k, 1, 0
  {
    if k == 0 then (if P(p) then [p] else [])
    else From(p, k, 0, m, P)
  }

  /** The vectors of `All(p, k, m, P)` whose next entry is at least `v`. */
  function From(p: seq<nat>, k: nat, v: nat, m: nat, P: seq<nat> -> bool): (res: seq<seq<nat>>)
    requires k > 0
    ensures forall r :: r in res ==> Extends(p, k, m, r) && r[|p|] >= v && P(r)
    decreases k, 0, m + 1 - v
  {
    if v > m then []
    else
      var block := All(p + [v], k - 1, m, P);
      var rest := From(p, k, v + 1, m, P);
      forall r | r in block ensures Extends(p, k, m, r) && r[|p|] >= v {
        assert r[..|p|] == (p + [v])[..|p|];
      }
      block + rest
  }

  /** Completeness: every vector the predicate accepts is enumerated. */
  lemma {:induction false} AllComplete(p: seq<nat>, k: nat, m: nat, P: seq<nat> -> bool, c: seq<nat>)
    requires Extends(p, k, m, c) && P(c)
    ensures c in All(p, k, m, P)
    decreases k, 1, 0
  {
    if k == 0 {
      assert c == c[..|p|];
    } else {
      FromComplete(p, k, 0, m, P, c);
    }
  }

  lemma {:induction false} FromComplete(p: seq<nat>, k: nat, v: nat, m: nat, P: seq<nat> -> bool, c: seq<nat>)
    requires k > 0 && Extends(p, k, m, c) && P(c) && v <= c[|p|]
    ensures c in From(p, k, v, m, P)
    decreases k, 0, m + 1 - v
  {
    assert c[|p|] <= m;
    var block := All(p + [v], k - 1, m, P);
    var rest := From(p, k, v + 1, m, P);
    assert From(p, k, v, m, P) == block + rest;
    if v == c[|p|] {
      assert c[..|p| + 1] == c[..|p|] + [c[|p|]] == p + [v];
      assert Extends(p + [v], k - 1, m, c);
      AllComplete(p + [v], k - 1, m, P, c);
    } else {
      FromComplete(p, k, v + 1, m, P, c);
    }
  }

  /** The enumeration is strictly increasing in lexicographic order, so in
      particular it has no repetitions. */
  lemma {:induction false} AllSorted(p: seq<nat>, k: nat, m: nat, P: seq<nat> -> bool)
    ensures StrictlySorted(All(p, k, m, P))
    decreases k, 1, 0
  {
    if k > 0 {
      FromSorted(p, k, 0, m, P);
    }
  }

  lemma {:induction false} FromSorted(p: seq<nat>, k: nat, v: nat, m: nat, P: seq<nat> -> bool)
    requires k > 0
    ensures StrictlySorted(From(p, k, v, m, P))
    decreases k, 0, m + 1 - v
  {
    if v <= m {
      var block := All(p + [v], k - 1, m, P);
      var rest := From(p, k, v + 1, m, P);
      AllSorted(p + [v], k - 1, m, P);
      FromSorted(p, k, v + 1, m, P);
      forall a, b | a in block && b in rest ensures LexLess(a, b) {
        assert a[..|p|] == (p + [v])[..|p|] == p;
        assert a[|p|] == (p + [v])[|p|] == v;
        assert a[..|p|] == b[..|p|];
      }
      SortedConcat(block, rest);
    }
  }

  lemma SortedConcat(a: seq<seq<nat>>, b: seq<seq<nat>>)
    requires StrictlySorted(a) && StrictlySorted(b)
    requires forall x, y :: x in a && y in b ==> LexLess(x, y)
    ensures StrictlySorted(a + b)
  {
    var s := a + b;
    forall i, j | 0 <= i < j < |s| ensures LexLess(s[i], s[j]) {
      if j < |a| {
        assert s[i] == a[i] && s[j] == a[j];
      } else if i >= |a| {
        assert s[i] == b[i - |a|] && s[j] == b[j - |a|];
      } else {
        assert s[i] in a && s[j] in b;
      }
    }
  }

  /** The lexicographic order is asymmetric. */
  lemma LexAsymmetric(a: seq<nat>, b: seq<nat>)
    requires LexLess(a, b)
    ensures !LexLess(b, a) && a != b
  {
    var i :| 0 <= i < |a| && i < |b| && a[..i] == b[..i] && a[i] < b[i];
    forall j | 0 <= j <= i && j < |a| && j < |b| ensures b[j] >= a[j] {
      if j < i {
        assert a[j] == a[..i][j] && b[j] == b[..i][j];
      }
    }
    forall j | i < j <= |a| && j <= |b| ensures b[..j] != a[..j] {
      assert b[..j][i] == b[i] && a[..j][i] == a[i];
    }
  }

  /** Smallest-value-first labelling reaches the all-zero completion first
      whenever the predicate accepts it. */
  lemma {:induction false} AllStartsAtZero(p: seq<nat>, k: nat, m: nat, P: seq<nat> -> bool)
    requires P(p + seq(k, _ => 0))
    ensures |All(p, k, m, P)| > 0 && All(p, k, m, P)[0] == p + seq(k, _ => 0)
    decreases k
  {
    if k == 0 {
      assert p + seq(0, _ => 0) == p;
    } else {
      assert (p + [0]) + seq(k - 1, _ => 0) == p + seq(k, _ => 0);
      AllStartsAtZero(p + [0], k - 1, m, P);
      var block := All(p + [0], k - 1, m, P);
      assert From(p, k, 0, m, P) == block + From(p, k, 1, m, P);
    }
  }

  /** The first `limit` solutions of the search over `[0, m]^n`. */
  function Solutions(n: nat, m: nat, P: seq<nat> -> bool, limit: nat): (res: seq<seq<nat>>)
    ensures |res| <= limit
    ensures forall r :: r in res ==> InBox(r, n, m) && P(r)
  {
    var all := All([], n, m, P);
    var res := if |all| <= limit then all else all[..limit];
    forall r | r in res ensures InBox(r, n, m) && P(r) {
      assert r in all;
    }
    res
  }

  /** The search stops only at the limit: below it every accepted vector is
      returned, and whatever is returned is preceded by every accepted vector
      lexicographically below it. Together with `Solutions`' own contract this
      pins the result down as the lexicographically first `limit` solutions. */
  lemma SolutionsFirst(n: nat, m: nat, P: seq<nat> -> bool, limit: nat, c: seq<nat>)
    requires InBox(c, n, m) && P(c)
    ensures var res := Solutions(n, m, P, limit);
            (|res| < limit ==> c in res)
            && (forall r :: r in res && LexLess(c, r) ==> c in res)
    ensures StrictlySorted(Solutions(n, m, P, limit))
  {
    var all := All([], n, m, P);
    var res := Solutions(n, m, P, limit);
    assert Extends([], n, m, c) by {
      assert c[..0] == [];
    }
    AllComplete([], n, m, P, c);
    AllSorted([], n, m, P);
    assert res == all[..|res|];
    var ci :| 0 <= ci < |all| && all[ci] == c;
    forall r | r in res && LexLess(c, r) ensures c in res {
      var ri :| 0 <= ri < |res| && res[ri] == r;
      if ci >= ri {
        if ci > ri {
          assert LexLess(all[ri], all[ci]);
        }
        LexAsymmetric(c, r);
      }
      assert res[ci] == c;
    }
    if |res| < limit {
      assert res == all;
    }
    forall i, j | 0 <= i < j < |res| ensures LexLess(res[i], res[j]) {
      assert res[i] == all[i] && res[j] == all[j];
    }
  }

  /** The search has a solution exactly when some vector in the box satisfies
      the predicate. */
  lemma SolutionExists(n: nat, m: nat, P: seq<nat> -> bool, limit: nat)
    requires limit > 0
    ensures |Solutions(n, m, P, limit)| > 0 <==> exists v :: InBox(v, n, m) && P(v)
  {
    var res := Solutions(n, m, P, limit);
    if v :| InBox(v, n, m) && P(v) {
      SolutionsFirst(n, m, P, limit, v);
    }
    if |res| > 0 {
      assert res[0] in res;
    }
  }
}
