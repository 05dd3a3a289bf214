/** Growing a path tree: growtree, smallest_pt, keeptreegrow and seq2pt.

    `GrowTree` asks the finite-domain search for settings of the solver
    vector `x = loops ++ lweights ++ weights` (lengths `N + 1`, `N + 1` and
    `N` for a tree of `N` weights, every entry in `[0, maxloop]`) under which
    the tree, grown by exactly one extra loop, generates the element. It
    augments the tree for each of the first `cutoff` such settings, keeps the
    grown trees that stay inside the reference list, and returns one with the
    fewest nodes.
 */
module Grow {
  import opened PathTree
  import opened Reshape
  import opened Evaluate
  import opened Enumerate
  import opened Gating
  import opened Membership
  import opened Augmentation

  /* ------------------------------------------------------------------ */
  /* The solver vector                                                   */
  /* ------------------------------------------------------------------ */

  /** Number of entries of the solver vector for `pt`. */
  function Width(pt: PT): nat
  {
    3 * LoopNum(pt) + 2
  }

  /** The `(length, weight)` candidate pairs: loop `i` pairs with lweight `i`. */
  function Tuples(x: seq<nat>, n: nat): (t: seq<ELoop>)
    requires |x| >= 2 * n + 2
    ensures |t| == n + 1
    ensures forall i :: 0 <= i < n + 1 ==> t[i] == ELoop(x[i], x[n + 1 + i])
  {
    seq(n + 1, i requires 0 <= i < n + 1 => ELoop(x[i], x[n + 1 + i]))
  }

  /** The candidates laid out on the tree (extraloops_pt). */
  function ExOf(pt: PT, x: seq<nat>): (ex: Extra)
    requires |x| == Width(pt)
    ensures ExFits(pt, ex)
  {
    ExtraloopsPt(pt, Tuples(x, LoopNum(pt)))
  }

  /** The tree's own weights, read from the last `N` entries (weights_pt). */
  function WsOf(pt: PT, x: seq<nat>): (ws: seq<Weight>)
    requires |x| == Width(pt)
    ensures Fits(pt, ws)
  {
    WeightsPt(pt, x[2 * LoopNum(pt) + 2..])
  }

  function CountZero(s: seq<nat>): (n: nat)
    ensures n <= |s|
  {
    if |s| == 0 then 0 else (if s[0] == 0 then 1 else 0) + CountZero(s[1..])
  }

  /** The constraints of growtree: the extra-loop element is the target and
      lies in the reference list, exactly one length and exactly one lweight
      are non-zero, a zero lweight forces a zero length, and no candidate sits
      under a switched-off loop. The last is the rule loops_and_weights
      intends (`GateIntended`); its code pairs weights and candidates wrongly
      inside nested trees (`GateAsWritten`), and `AcceptedAsWritten` keeps
      that version. The two agree on trees without nested loops
      (`FlatTreesAccept`). */
  predicate Accepted(pt: PT, element: nat, ref: seq<nat>, x: seq<nat>)
  {
    var n := LoopNum(pt);
    |x| == Width(pt)
    && ElementExtra(pt, WsOf(pt, x), ExOf(pt, x)) in ref
    && ElementExtra(pt, WsOf(pt, x), ExOf(pt, x)) == element
    && CountZero(x[..n + 1]) == n
    && CountZero(x[n + 1..2 * n + 2]) == n
    && (forall i :: 0 <= i < n + 1 ==> x[n + 1 + i] == 0 ==> x[i] == 0)
    && GateIntended(pt, WsOf(pt, x), ExOf(pt, x))
  }

  /** growtree's constraints with loops_and_weights as the code writes it. */
  predicate AcceptedAsWritten(pt: PT, element: nat, ref: seq<nat>, x: seq<nat>)
  {
    var n := LoopNum(pt);
    |x| == Width(pt)
    && ElementExtra(pt, WsOf(pt, x), ExOf(pt, x)) in ref
    && ElementExtra(pt, WsOf(pt, x), ExOf(pt, x)) == element
    && CountZero(x[..n + 1]) == n
    && CountZero(x[n + 1..2 * n + 2]) == n
    && (forall i :: 0 <= i < n + 1 ==> x[n + 1 + i] == 0 ==> x[i] == 0)
    && GateAsWritten(pt, WsOf(pt, x), ExOf(pt, x))
  }

  /** Without nested loops the search accepts exactly the vectors the code's
      search accepts. */
  lemma FlatTreesAccept(pt: PT, element: nat, ref: seq<nat>, x: seq<nat>)
    requires forall j :: 0 <= j < |pt.loops| ==> pt.loops[j].Scalar?
    ensures Accepted(pt, element, ref, x) <==> AcceptedAsWritten(pt, element, ref, x)
  {
    if |x| == Width(pt) {
      FlatTreesAgree(pt, WsOf(pt, x), ExOf(pt, x));
    }
  }

  function AcceptP(pt: PT, element: nat, ref: seq<nat>): seq<nat> -> bool
  {
    x => Accepted(pt, element, ref, x)
  }

  /** The search stops after the first `cutoff` solutions, and always after
      the first one, since the count is checked after each solution. */
  function Limit(cutoff: nat): nat
  {
    if cutoff == 0 then 1 else cutoff
  }

  /** The solutions growtree reads from the search. */
  function Search(pt: PT, element: nat, ref: seq<nat>, maxloop: nat, cutoff: nat): (xs: seq<seq<nat>>)
    ensures |xs| <= Limit(cutoff)
    ensures forall x :: x in xs ==> InBox(x, Width(pt), maxloop) && Accepted(pt, element, ref, x)
  {
    Solutions(Width(pt), maxloop, AcceptP(pt, element, ref), Limit(cutoff))
  }

  /** The tree grown by the candidates of one solution (ptaugmented applied
      to eloops_simplify). */
  function GrowBy(pt: PT, x: seq<nat>): (t: PT)
    requires |x| == Width(pt)
    ensures t.preset == pt.preset
  {
    SimplifyFits(pt, ExOf(pt, x));
    Augment(pt, Simplify(ExOf(pt, x)))
  }

  /** The tree the code grows from one solution: ptaugmented as written,
      merging a new loop into an equal scalar loop of its level. */
  function GrowByAsWritten(pt: PT, x: seq<nat>): (t: PT)
    requires |x| == Width(pt)
    ensures t.preset == pt.preset
  {
    SimplifyFits(pt, ExOf(pt, x));
    AugmentMerged(pt, Simplify(ExOf(pt, x)))
  }

  /** A grown tree is kept when every element it generates below the last
      reference entry is a reference entry. A solution puts its element in
      the reference list, so the list is never empty when this is asked. */
  predicate Keep(t: PT, ref: seq<nat>)
  {
    |ref| > 0 && PtSubset(t, ref)
  }

  /** The grown tree of each solution, in solution order. */
  function Candidates(pt: PT, xs: seq<seq<nat>>): (cs: seq<PT>)
    requires forall x :: x in xs ==> |x| == Width(pt)
    ensures |cs| == |xs|
    ensures forall k :: 0 <= k < |xs| ==> cs[k] == GrowBy(pt, xs[k])
  {
    seq(|xs|, k requires 0 <= k < |xs| => GrowBy(pt, xs[k]))
  }

  /** The entries of `cs` that `keep` accepts, in order. */
  function Filter(keep: PT -> bool, cs: seq<PT>): (r: seq<PT>)
    ensures forall t :: t in r <==> t in cs && keep(t)
  {
    if |cs| == 0 then []
    else
      var rest := Filter(keep, cs[1..]);
      assert cs == [cs[0]] + cs[1..];
      if keep(cs[0]) then [cs[0]] + rest else rest
  }

  /** The grown trees of the solutions that are kept, in solution order. */
  function Retained(pt: PT, ref: seq<nat>, xs: seq<seq<nat>>): (r: seq<PT>)
    requires forall x :: x in xs ==> |x| == Width(pt)
    ensures forall t :: t in r ==> Keep(t, ref) && t.preset == pt.preset
  {
    Filter((t: PT) => Keep(t, ref), Candidates(pt, xs))
  }

  /** The retained trees are exactly the kept trees grown from the solutions. */
  lemma RetainedMembers(pt: PT, ref: seq<nat>, xs: seq<seq<nat>>)
    requires forall x :: x in xs ==> |x| == Width(pt)
    ensures forall t :: t in Retained(pt, ref, xs) ==> exists x :: x in xs && GrowBy(pt, x) == t
    ensures forall x :: x in xs && Keep(GrowBy(pt, x), ref) ==> GrowBy(pt, x) in Retained(pt, ref, xs)
  {
    var cs := Candidates(pt, xs);
    forall t | t in Retained(pt, ref, xs) ensures exists x :: x in xs && GrowBy(pt, x) == t {
      var k :| 0 <= k < |cs| && cs[k] == t;
      assert xs[k] in xs;
    }
    forall x | x in xs && Keep(GrowBy(pt, x), ref) ensures GrowBy(pt, x) in Retained(pt, ref, xs) {
      var k :| 0 <= k < |xs| && xs[k] == x;
      assert cs[k] in cs;
    }
  }

  /* ------------------------------------------------------------------ */
  /* smallest_pt                                                         */
  /* ------------------------------------------------------------------ */

  /** A tree of the list with the fewest nodes. The source sorts with an
      unstable argsort, so which of several equally small trees it picks is
      left open here. */
  function SmallestPt(list: seq<PT>): (r: Option<PT>)
    ensures r.Some? <==> |list| > 0
    ensures r.Some? ==> r.value in list && forall t :: t in list ==> NodeNum(r.value) <= NodeNum(t)
  {
    if |list| == 0 then None
    else if |list| == 1 then Some(list[0])
    else
      var rest := SmallestPt(list[1..]);
      assert forall t :: t in list ==> t == list[0] || t in list[1..];
      if NodeNum(list[0]) <= NodeNum(rest.value) then Some(list[0]) else rest
  }

  /* ------------------------------------------------------------------ */
  /* growtree                                                            */
  /* ------------------------------------------------------------------ */

  function GrowTree(pt: PT, element: nat, ref: seq<nat>, maxloop: nat, cutoff: nat): (r: Option<PT>)
    ensures IsPtElement(pt, element, DefaultMaxLoop) ==> r == Some(pt)
    ensures r.Some? ==> r.value.preset == pt.preset
    ensures r.Some? && !IsPtElement(pt, element, DefaultMaxLoop) ==> Keep(r.value, ref)
  {
    if IsPtElement(pt, element, DefaultMaxLoop) then Some(pt)
    else SmallestPt(Retained(pt, ref, Search(pt, element, ref, maxloop, cutoff)))
  }

  /** When the tree does not yet generate the element, growtree fails exactly
      when no solution read from the search grows a tree that is kept, and
      otherwise returns such a tree with the fewest nodes. */
  lemma GrowTreeChoice(pt: PT, element: nat, ref: seq<nat>, maxloop: nat, cutoff: nat)
    requires !IsPtElement(pt, element, DefaultMaxLoop)
    ensures var r := GrowTree(pt, element, ref, maxloop, cutoff);
            var xs := Search(pt, element, ref, maxloop, cutoff);
            (r.None? <==> forall x :: x in xs ==> !Keep(GrowBy(pt, x), ref))
            && (r.Some? ==>
                  (exists x :: x in xs && GrowBy(pt, x) == r.value)
                  && forall x :: x in xs && Keep(GrowBy(pt, x), ref) ==> NodeNum(r.value) <= NodeNum(GrowBy(pt, x)))
  {
    RetainedMembers(pt, ref, Search(pt, element, ref, maxloop, cutoff));
  }

  /** A solution generates its element on the grown tree, with weights inside
      the search box. */
  lemma GrowByGenerates(pt: PT, x: seq<nat>, maxloop: nat)
    requires InBox(x, Width(pt), maxloop)
    ensures IsPtElement(GrowBy(pt, x), ElementExtra(pt, WsOf(pt, x), ExOf(pt, x)), maxloop)
  {
    var n := LoopNum(pt);
    var ws := WsOf(pt, x);
    var ex := ExOf(pt, x);
    var f := Flatten(pt, ws);
    assert f == x[2 * n + 2..][..n];
    assert Bounded(f, maxloop) by {
      forall k | 0 <= k < |f| ensures f[k] <= maxloop {
        assert f[k] == x[2 * n + 2 + k];
      }
    }
    var tu := Tuples(x, n);
    var e := ExFlatten(pt, ex);
    assert e == tu[..n + 1] == tu;
    assert ExBounded(e, maxloop) by {
      forall k | 0 <= k < |e| ensures e[k].weight <= maxloop {
        assert e[k].weight == x[n + 1 + k];
      }
    }
    AugmentGenerates(pt, ws, ex, maxloop);
    SimplifyFits(pt, ex);
    WeightsWitness(Augment(pt, Simplify(ex)), AugWeights(pt, ws, ex), maxloop);
  }

  /** Whatever growtree returns generates the element it was asked for, as
      long as the search box is within the one isptelement uses. */
  lemma GrowReachesTarget(pt: PT, element: nat, ref: seq<nat>, maxloop: nat, cutoff: nat)
    requires maxloop <= DefaultMaxLoop
    ensures var r := GrowTree(pt, element, ref, maxloop, cutoff);
            r.Some? ==> IsPtElement(r.value, element, DefaultMaxLoop)
  {
    var r := GrowTree(pt, element, ref, maxloop, cutoff);
    if r.Some? && !IsPtElement(pt, element, DefaultMaxLoop) {
      GrowTreeChoice(pt, element, ref, maxloop, cutoff);
      var x :| x in Search(pt, element, ref, maxloop, cutoff) && GrowBy(pt, x) == r.value;
      GrowByGenerates(pt, x, maxloop);
      IsPtElementMonotone(r.value, element, maxloop, DefaultMaxLoop);
    }
  }

  /** Growing never loses an element the tree already generated. */
  lemma GrowKeepsElements(pt: PT, element: nat, ref: seq<nat>, maxloop: nat, cutoff: nat, y: nat, m: nat)
    requires IsPtElement(pt, y, m)
    ensures var r := GrowTree(pt, element, ref, maxloop, cutoff);
            r.Some? ==> IsPtElement(r.value, y, m)
  {
    var r := GrowTree(pt, element, ref, maxloop, cutoff);
    if r.Some? && !IsPtElement(pt, element, DefaultMaxLoop) {
      GrowTreeChoice(pt, element, ref, maxloop, cutoff);
      var x :| x in Search(pt, element, ref, maxloop, cutoff) && GrowBy(pt, x) == r.value;
      SimplifyFits(pt, ExOf(pt, x));
      AugmentKeepsElements(pt, Simplify(ExOf(pt, x)), y, m);
    }
  }

  /* The input on which the code as written and the model part ways: the tree
     with the single loop 5, grown toward 505. No weight up to 100 reaches 505
     on one loop of period 5, so growtree runs its search; the setting with
     level candidate (5, 1) and weight 100 satisfies every constraint, and the
     code's set merges the new loop 5 into the old one. */
  const FiveTree := PT(0, [Scalar(5)])
  const FiveSetting: seq<nat> := [5, 0, 1, 0, 100]

  lemma FiveSettingFacts()
    ensures LoopNum(FiveTree) == 1 && Width(FiveTree) == 5
    ensures WsOf(FiveTree, FiveSetting) == [Leaf(100)]
    ensures ExOf(FiveTree, FiveSetting) == ExTree(ELoop(5, 1), [ExLoop(ELoop(0, 0))])
  {
    var pt := FiveTree;
    assert LoopNumFrom(pt, 1) == 0;
    assert LoopNum(pt) == 1;
    var ws := [Leaf(100)];
    assert FitsFrom(pt, 1, ws[1..]);
    assert Fits(pt, ws);
    assert FlattenFrom(pt, 1, ws[1..]) == [];
    assert Flatten(pt, ws) == [100];
    WeightsRoundTrip(pt, ws, []);
    assert FiveSetting[2 * 1 + 2..] == [100];
    var ex := ExTree(ELoop(5, 1), [ExLoop(ELoop(0, 0))]);
    assert ExFitsFrom(pt, 1, ex.items[1..]);
    assert ExFits(pt, ex);
    assert ExFlattenFrom(pt, 1, ex.items[1..]) == [];
    assert ExFlatten(pt, ex) == [ELoop(5, 1), ELoop(0, 0)];
    ExtraloopsRoundTrip(pt, ex, []);
    assert Tuples(FiveSetting, 1) == [ELoop(5, 1), ELoop(0, 0)];
  }

  /** One loop of period 5 with weight at most 100 stays at or below 500. */
  lemma FiveTreeMisses()
    ensures !IsPtElement(FiveTree, 505, DefaultMaxLoop)
  {
    FiveSettingFacts();
    forall v | InBox(v, LoopNum(FiveTree), DefaultMaxLoop) ensures !HitsElement(FiveTree, 505, v) {
      var ws := [Leaf(v[0])];
      assert FitsFrom(FiveTree, 1, ws[1..]);
      assert Fits(FiveTree, ws);
      assert FlattenFrom(FiveTree, 1, ws[1..]) == [];
      assert Flatten(FiveTree, ws) == v;
      WeightsRoundTrip(FiveTree, ws, v);
      assert LoopSumFrom(FiveTree, 1, ws[1..]) == 0;
      assert Element(FiveTree, ws) == v[0] * 5;
    }
  }

  /** Both versions of growtree's constraints accept the setting. */
  lemma FiveSettingAccepted()
    ensures InBox(FiveSetting, Width(FiveTree), DefaultMaxLoop)
    ensures Accepted(FiveTree, 505, [505], FiveSetting)
    ensures AcceptedAsWritten(FiveTree, 505, [505], FiveSetting)
  {
    FiveSettingFacts();
    var pt := FiveTree;
    var x := FiveSetting;
    var ws := WsOf(pt, x);
    var ex := ExOf(pt, x);
    assert GrownFrom(pt, 1, ws[1..], ex.items[1..]) == 0;
    assert ElementExtra(pt, ws, ex) == 505;
    assert x[..2] == [5, 0] && x[2..4] == [1, 0];
    assert [1, 0][1..] == [0] && [5, 0][1..] == [0] && [0][1..] == [];
    assert CountZero([0]) == 1;
    assert CountZero(x[..2]) == 1 && CountZero(x[2..4]) == 1;
    assert GateFrom(pt, 1, ws[1..], ex.items[1..]);
    assert GateIntended(pt, ws, ex);
    FlatTreesAccept(pt, 505, [505], x);
  }

  /** One loop of period 5 and one more of period 5 reach 505 within the box. */
  lemma TwoFivesHit()
    ensures IsPtElement(PT(0, [Scalar(5), Scalar(5)]), 505, DefaultMaxLoop)
  {
    var two := PT(0, [Scalar(5), Scalar(5)]);
    var tw := [Leaf(100), Leaf(1)];
    assert FitsFrom(two, 2, tw[2..]) && FitsFrom(two, 1, tw[1..]);
    assert Fits(two, tw);
    assert FlattenFrom(two, 2, tw[2..]) == [];
    assert Flatten(two, tw) == [100, 1];
    assert Bounded(Flatten(two, tw), DefaultMaxLoop);
    assert LoopSumFrom(two, 2, tw[2..]) == 0;
    assert Element(two, tw) == 505;
    WeightsWitness(two, tw, DefaultMaxLoop);
  }

  /** Given that accepted solution, the code's growth step hands back the tree
      it started from, which does not generate the target; the model's growth
      step keeps both loops and does. */
  lemma MergedGrowthMissesTarget()
    ensures InBox(FiveSetting, Width(FiveTree), DefaultMaxLoop)
    ensures Accepted(FiveTree, 505, [505], FiveSetting)
    ensures AcceptedAsWritten(FiveTree, 505, [505], FiveSetting)
    ensures GrowByAsWritten(FiveTree, FiveSetting) == FiveTree
    ensures !IsPtElement(GrowByAsWritten(FiveTree, FiveSetting), 505, DefaultMaxLoop)
    ensures GrowBy(FiveTree, FiveSetting) == PT(0, [Scalar(5), Scalar(5)])
    ensures IsPtElement(GrowBy(FiveTree, FiveSetting), 505, DefaultMaxLoop)
  {
    FiveSettingAccepted();
    FiveSettingFacts();
    assert Simplify(ExOf(FiveTree, FiveSetting)) == LenTree(5, [LenLoop(0)]);
    MergeDropsDuplicate(0, 5);
    FiveTreeMisses();
    TwoFivesHit();
  }

  /** An element outside the reference list that the tree does not generate
      cannot be grown into it. */
  lemma GrowOutsideReference(pt: PT, element: nat, ref: seq<nat>, maxloop: nat, cutoff: nat)
    requires element !in ref && !IsPtElement(pt, element, DefaultMaxLoop)
    ensures GrowTree(pt, element, ref, maxloop, cutoff).None?
  {
  }

  /** When the search ends before the cutoff it has seen every solution, so
      growtree finds a tree whenever some solution's grown tree is kept, and
      one no larger than it. */
  lemma GrowComplete(pt: PT, element: nat, ref: seq<nat>, maxloop: nat, cutoff: nat, x: seq<nat>)
    requires !IsPtElement(pt, element, DefaultMaxLoop)
    requires InBox(x, Width(pt), maxloop) && Accepted(pt, element, ref, x) && Keep(GrowBy(pt, x), ref)
    requires |Search(pt, element, ref, maxloop, cutoff)| < Limit(cutoff)
    ensures var r := GrowTree(pt, element, ref, maxloop, cutoff);
            r.Some? && NodeNum(r.value) <= NodeNum(GrowBy(pt, x))
  {
    SolutionsFirst(Width(pt), maxloop, AcceptP(pt, element, ref), Limit(cutoff), x);
    GrowTreeChoice(pt, element, ref, maxloop, cutoff);
  }

  /* ------------------------------------------------------------------ */
  /* keeptreegrow and seq2pt                                             */
  /* ------------------------------------------------------------------ */

  /** The cutoff of attempt `k`: each failed attempt raises it by ten. */
  function Cutoff(cutoff: nat, k: nat): nat
  {
    cutoff + 10 * k
  }

  /** The retry loop of keeptreegrow, for any growth step `grow` taking the
      cutoff: try, and on failure try again with the cutoff raised by ten.
      The source retries without bound; here at most `attempts` times. */
  function Retry(grow: nat -> Option<PT>, cutoff: nat, attempts: nat): Option<PT>
    decreases attempts
  {
    if attempts == 0 then None
    else if grow(cutoff).Some? then grow(cutoff)
    else Retry(grow, cutoff + 10, attempts - 1)
  }

  /** A tree the retry loop returns is the result of one of its attempts. */
  lemma {:induction false} RetryFound(grow: nat -> Option<PT>, cutoff: nat, attempts: nat)
    ensures var r := Retry(grow, cutoff, attempts);
            r.Some? ==> exists k :: 0 <= k < attempts && grow(Cutoff(cutoff, k)) == r
    decreases attempts
  {
    var r := Retry(grow, cutoff, attempts);
    if r.Some? {
      if grow(cutoff).Some? {
        assert grow(Cutoff(cutoff, 0)) == r;
      } else {
        RetryFound(grow, cutoff + 10, attempts - 1);
        var k :| 0 <= k < attempts - 1 && grow(Cutoff(cutoff + 10, k)) == r;
        assert Cutoff(cutoff + 10, k) == Cutoff(cutoff, k + 1);
      }
    }
  }

  /** The retry loop fails only when every attempt fails. */
  lemma {:induction false} RetryExhausted(grow: nat -> Option<PT>, cutoff: nat, attempts: nat)
    ensures Retry(grow, cutoff, attempts).None? ==>
              forall k :: 0 <= k < attempts ==> grow(Cutoff(cutoff, k)).None?
    decreases attempts
  {
    if attempts > 0 && Retry(grow, cutoff, attempts).None? {
      RetryExhausted(grow, cutoff + 10, attempts - 1);
      forall k | 0 <= k < attempts ensures grow(Cutoff(cutoff, k)).None? {
        if k > 0 {
          assert Cutoff(cutoff, k) == Cutoff(cutoff + 10, k - 1);
        }
      }
    }
  }

  /** keeptreegrow: growtree with the default search box, retried. */
  function KeepTreeGrow(pt: PT, e: nat, ref: seq<nat>, cutoff: nat, attempts: nat): Option<PT>
  {
    Retry((c: nat) => GrowTree(pt, e, ref, DefaultMaxLoop, c), cutoff, attempts)
  }

  /** One growtree call that returns a tree keeps the preset, keeps every
      element, adds the target, and stays inside the reference list. */
  lemma GrowStep(pt: PT, e: nat, ref: seq<nat>, cutoff: nat)
    requires |ref| > 0 && PtSubset(pt, ref)
    ensures var r := GrowTree(pt, e, ref, DefaultMaxLoop, cutoff);
            r.Some? ==>
              r.value.preset == pt.preset
              && IsPtElement(r.value, e, DefaultMaxLoop)
              && PtSubset(r.value, ref)
              && forall y :: IsPtElement(pt, y, DefaultMaxLoop) ==> IsPtElement(r.value, y, DefaultMaxLoop)
  {
    var r := GrowTree(pt, e, ref, DefaultMaxLoop, cutoff);
    GrowReachesTarget(pt, e, ref, DefaultMaxLoop, cutoff);
    forall y | IsPtElement(pt, y, DefaultMaxLoop) ensures r.Some? ==> IsPtElement(r.value, y, DefaultMaxLoop) {
      GrowKeepsElements(pt, e, ref, DefaultMaxLoop, cutoff, y, DefaultMaxLoop);
    }
  }

  /** The same for keeptreegrow, whichever attempt succeeds. */
  lemma KeepTreeGrowStep(pt: PT, e: nat, ref: seq<nat>, cutoff: nat, attempts: nat)
    requires |ref| > 0 && PtSubset(pt, ref)
    ensures var r := KeepTreeGrow(pt, e, ref, cutoff, attempts);
            r.Some? ==>
              r.value.preset == pt.preset
              && IsPtElement(r.value, e, DefaultMaxLoop)
              && PtSubset(r.value, ref)
              && forall y :: IsPtElement(pt, y, DefaultMaxLoop) ==> IsPtElement(r.value, y, DefaultMaxLoop)
  {
    var grow := (c: nat) => GrowTree(pt, e, ref, DefaultMaxLoop, c);
    var r := Retry(grow, cutoff, attempts);
    RetryFound(grow, cutoff, attempts);
    if r.Some? {
      var k :| 0 <= k < attempts && grow(Cutoff(cutoff, k)) == r;
      GrowStep(pt, e, ref, Cutoff(cutoff, k));
    }
  }

  datatype Outcome = Grown(tree: PT) | EmptySequence | GrowthFailed(element: nat)

  /** seq2pt: start from the loop-free tree of the first entry and grow it by
      every later entry in turn, the whole sequence serving as reference. The
      source returns nothing for an empty sequence and never returns when an
      entry cannot be grown; here each entry gets `attempts` attempts. */
  function Seq2Pt(s: seq<nat>, cutoff: nat, attempts: nat): (r: Outcome)
    ensures r.EmptySequence? <==> |s| == 0
    ensures r.GrowthFailed? ==> r.element in s
    ensures r.Grown? ==> r.tree.preset == s[0] && PtSubset(r.tree, s)
    ensures r.Grown? ==> forall x :: x in s ==> IsPtElement(r.tree, x, DefaultMaxLoop)
  {
    if |s| == 0 then EmptySequence
    else
      var start := PT(s[0], []);
      assert LoopNum(start) == 0;
      GrowAll(start, s, 1, cutoff, attempts)
  }

  function GrowAll(pt: PT, s: seq<nat>, i: nat, cutoff: nat, attempts: nat): (r: Outcome)
    requires 1 <= i <= |s| && pt.preset == s[0] && PtSubset(pt, s)
    requires forall j :: 0 <= j < i ==> IsPtElement(pt, s[j], DefaultMaxLoop)
    ensures !r.EmptySequence?
    ensures r.GrowthFailed? ==> r.element in s
    ensures r.Grown? ==> r.tree.preset == s[0] && PtSubset(r.tree, s)
    ensures r.Grown? ==> forall x :: x in s ==> IsPtElement(r.tree, x, DefaultMaxLoop)
    decreases |s| - i
  {
    if i == |s| then Grown(pt)
    else
      var t := KeepTreeGrow(pt, s[i], s, cutoff, attempts);
      if t.None? then GrowthFailed(s[i])
      else
        KeepTreeGrowStep(pt, s[i], s, cutoff, attempts);
        GrowAll(t.value, s, i + 1, cutoff, attempts)
  }
}
