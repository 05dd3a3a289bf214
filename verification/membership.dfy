/** Membership: isptelement, ptelements, ptsubset and the two checks that
    evaluate a fixed extra-loop setting, isptsubset_el and isrightpt.

    isptelement searches the weight vectors in `[0, maxloop]^N`, `N` the loop
    count, for one that generates the element; `Generates` states the same as
    a bounded existential and `IsPtElement` is proved equivalent to it.
 */
module Membership {
  import opened PathTree
  import opened Reshape
  import opened Evaluate
  import opened Enumerate

  /** The default search bound of isptelement, used by ptsubset and growtree. */
  const DefaultMaxLoop: nat := 100

  /** The flat vector `v`, reshaped like `pt`, generates `element`. */
  predicate HitsElement(pt: PT, element: nat, v: seq<nat>)
  {
    LoopNum(pt) <= |v| && Element(pt, WeightsPt(pt, v)) == element
  }

  /** Some weight vector in the search box generates `element`. */
  ghost predicate Generates(pt: PT, element: nat, maxloop: nat)
  {
    exists v :: InBox(v, LoopNum(pt), maxloop) && HitsElement(pt, element, v)
  }

  /** isptelement: a tree without loops holds only its preset; otherwise the
      search looks for one weight vector that generates the element. */
  function IsPtElement(pt: PT, element: nat, maxloop: nat): (b: bool)
    ensures LoopNum(pt) == 0 ==> (b <==> element == pt.preset)
    ensures b <==> Generates(pt, element, maxloop)
  {
    if LoopNum(pt) == 0 then
      LoopFreeGenerates(pt, element, maxloop);
      element == pt.preset
    else
      var P := v => HitsElement(pt, element, v);
      SolutionExists(LoopNum(pt), maxloop, P, 1);
      |Solutions(LoopNum(pt), maxloop, P, 1)| > 0
  }

  lemma LoopFreeGenerates(pt: PT, element: nat, maxloop: nat)
    requires LoopNum(pt) == 0
    ensures Generates(pt, element, maxloop) <==> element == pt.preset
  {
    var v: seq<nat> := [];
    assert |pt.loops| == 0;
    assert InBox(v, 0, maxloop);
    assert WeightsPt(pt, v) == [];
    assert LoopSumFrom(pt, 0, []) == 0;
    assert HitsElement(pt, pt.preset, v);
    forall u | InBox(u, 0, maxloop) && HitsElement(pt, element, u) ensures element == pt.preset {
      assert WeightsPt(pt, u) == [];
    }
  }

  /** Every weight in a nested weight assignment is at most `m`. */
  predicate Bounded(flat: seq<nat>, m: nat)
  {
    forall i :: 0 <= i < |flat| ==> flat[i] <= m
  }

  /** The search over flat vectors is the search over nested weights bounded
      by `maxloop`. */
  lemma GeneratesByWeights(pt: PT, element: nat, maxloop: nat)
    ensures Generates(pt, element, maxloop)
        <==> exists ws :: Fits(pt, ws) && Bounded(Flatten(pt, ws), maxloop) && Element(pt, ws) == element
  {
    if Generates(pt, element, maxloop) {
      var v :| InBox(v, LoopNum(pt), maxloop) && HitsElement(pt, element, v);
      var ws := WeightsPt(pt, v);
      WeightsRoundTrip(pt, ws, v);
      assert Bounded(Flatten(pt, ws), maxloop);
    }
    if ws :| Fits(pt, ws) && Bounded(Flatten(pt, ws), maxloop) && Element(pt, ws) == element {
      var v := Flatten(pt, ws);
      WeightsRoundTrip(pt, ws, v);
      assert InBox(v, LoopNum(pt), maxloop) && HitsElement(pt, element, v);
    }
  }

  /** A witness in the form the rest of the model produces: nested weights. */
  lemma WeightsWitness(pt: PT, ws: seq<Weight>, maxloop: nat)
    requires Fits(pt, ws) && Bounded(Flatten(pt, ws), maxloop)
    ensures IsPtElement(pt, Element(pt, ws), maxloop)
  {
    GeneratesByWeights(pt, Element(pt, ws), maxloop);
  }

  /** A larger search box finds at least as much. */
  lemma IsPtElementMonotone(pt: PT, element: nat, m1: nat, m2: nat)
    requires m1 <= m2 && IsPtElement(pt, element, m1)
    ensures IsPtElement(pt, element, m2)
  {
    var v :| InBox(v, LoopNum(pt), m1) && HitsElement(pt, element, v);
    assert InBox(v, LoopNum(pt), m2);
  }

  /** The preset is always generated: all weights zero. */
  lemma PresetIsElement(pt: PT, maxloop: nat)
    ensures IsPtElement(pt, pt.preset, maxloop)
  {
    var v := seq(LoopNum(pt), _ => 0);
    ZeroVectorGivesPreset(pt, v);
    assert InBox(v, LoopNum(pt), maxloop) && HitsElement(pt, pt.preset, v);
  }

  /* ------------------------------------------------------------------ */
  /* isptelement as posted to the solver                                 */
  /* ------------------------------------------------------------------ */

  /** Some weight vector in the search box satisfies the constraint
      isptelement posts, where `min(1, w)` is `w` (`PostedElement`). */
  ghost predicate PostedGenerates(pt: PT, element: nat, maxloop: nat)
  {
    exists v :: InBox(v, LoopNum(pt), maxloop) && PostedHits(pt, element, v)
  }

  predicate PostedHits(pt: PT, element: nat, v: seq<nat>)
  {
    LoopNum(pt) <= |v| && PostedElement(pt, WeightsPt(pt, v)) == element
  }

  /** isptelement as the code runs it: the search solves the posted
      constraint. */
  function IsPtElementAsPosted(pt: PT, element: nat, maxloop: nat): (b: bool)
    ensures LoopNum(pt) == 0 ==> (b <==> element == pt.preset)
    ensures b <==> PostedGenerates(pt, element, maxloop)
  {
    if LoopNum(pt) == 0 then
      LoopFreeGenerates(pt, element, maxloop);
      assert forall v :: InBox(v, 0, maxloop) ==> (PostedHits(pt, element, v) <==> HitsElement(pt, element, v)) by {
        assert |pt.loops| == 0 && FlatTree(pt);
        forall v | InBox(v, 0, maxloop) ensures PostedHits(pt, element, v) <==> HitsElement(pt, element, v) {
          PostedFlat(pt, WeightsPt(pt, v));
        }
      }
      element == pt.preset
    else
      var P := v => PostedHits(pt, element, v);
      SolutionExists(LoopNum(pt), maxloop, P, 1);
      |Solutions(LoopNum(pt), maxloop, P, 1)| > 0
  }

  /** The gated and the posted searches agree whenever the posted constraint
      cannot tell `min(1, w)` from `w`: on trees without nested loops, and
      when the search box is `[0, 1]`. */
  lemma PostedAgrees(pt: PT, element: nat, maxloop: nat)
    requires FlatTree(pt) || maxloop <= 1
    ensures IsPtElementAsPosted(pt, element, maxloop) <==> IsPtElement(pt, element, maxloop)
  {
    forall v | InBox(v, LoopNum(pt), maxloop)
      ensures PostedHits(pt, element, v) <==> HitsElement(pt, element, v)
    {
      var ws := WeightsPt(pt, v);
      if FlatTree(pt) {
        PostedFlat(pt, ws);
      } else {
        assert Flatten(pt, ws) == v[..LoopNum(pt)] == v;
        PostedElementOnBits(pt, ws);
      }
    }
  }

  /** A tree whose one loop is nested: preset 3 with a loop of period 2. */
  const NestedThree: PT := PT(0, [Nested(PT(3, [Scalar(2)]))])

  /** Under any weights the posted element of `NestedThree` is
      `w * (3 + 2 * v)`, which is never 8. */
  lemma NestedThreePosted(ws: seq<Weight>)
    requires Fits(NestedThree, ws)
    ensures PostedElement(NestedThree, ws) != 8
  {
    var t := PT(3, [Scalar(2)]);
    assert FitsFrom(NestedThree, 1, ws[1..]);
    assert ws[1..] == [];
    var a := ws[0].w;
    assert FitsFrom(t, 1, ws[0].inner[1..]);
    var b := ws[0].inner[0].w;
    assert PostedSum(t, ws[0].inner) == b * 2;
    assert PostedElement(NestedThree, ws) == a * 3 + a * (b * 2);
    OddProductNotEight(a, b);
  }

  lemma OddProductNotEight(a: nat, b: nat)
    ensures a * 3 + a * (b * 2) != 8
  {
    if a >= 3 {
      assert a * 3 >= 9;
    } else if a == 2 && b >= 1 {
      assert 2 * (b * 2) >= 4;
    }
  }

  /** `NestedThree` generates 8: weight 2 on its nested loop and 1 inside
      give 2 * 3 + 1 * 2. */
  lemma NestedThreeGenerates()
    ensures IsPtElement(NestedThree, 8, DefaultMaxLoop)
  {
    var ws := [Node(2, [Leaf(1)])];
    var t := PT(3, [Scalar(2)]);
    assert [Leaf(1)][1..] == [] && ws[1..] == [];
    assert Fits(t, [Leaf(1)]) && Fits(NestedThree, ws);
    assert Flatten(t, [Leaf(1)]) == [1];
    assert Flatten(NestedThree, ws) == [2, 1];
    assert LoopSum(t, [Leaf(1)]) == 2;
    assert Element(NestedThree, ws) == 8;
    WeightsWitness(NestedThree, ws, DefaultMaxLoop);
  }

  /** min(1, w) on a solver variable: `NestedThree` generates 8, but the
      constraint isptelement posts, `8 == w * 3 + w * 2 * v`, has no
      solution. */
  lemma PostedMissesElement()
    ensures IsPtElement(NestedThree, 8, DefaultMaxLoop)
    ensures !IsPtElementAsPosted(NestedThree, 8, DefaultMaxLoop)
  {
    NestedThreeGenerates();
    NestedThreeNeverPosted(DefaultMaxLoop);
  }

  lemma NestedThreeNeverPosted(maxloop: nat)
    ensures !PostedGenerates(NestedThree, 8, maxloop)
  {
    forall v | InBox(v, LoopNum(NestedThree), maxloop)
      ensures !PostedHits(NestedThree, 8, v)
    {
      if LoopNum(NestedThree) <= |v| {
        NestedThreePosted(WeightsPt(NestedThree, v));
      }
    }
  }

  /* ------------------------------------------------------------------ */
  /* ptelements                                                          */
  /* ------------------------------------------------------------------ */

  /** The elements the vectors of `vs` generate. */
  function Values(pt: PT, vs: seq<seq<nat>>): set<nat>
    requires forall v :: v in vs ==> LoopNum(pt) <= |v|
  {
    if |vs| == 0 then {} else {Element(pt, WeightsPt(pt, vs[0]))} + Values(pt, vs[1..])
  }

  lemma {:induction false} ValuesMembers(pt: PT, vs: seq<seq<nat>>, x: nat)
    requires forall v :: v in vs ==> LoopNum(pt) <= |v|
    ensures x in Values(pt, vs) <==> exists v :: v in vs && Element(pt, WeightsPt(pt, v)) == x
  {
    if |vs| > 0 {
      ValuesMembers(pt, vs[1..], x);
      if v :| v in vs && Element(pt, WeightsPt(pt, v)) == x {
        if v != vs[0] {
          assert v in vs[1..];
        }
      }
    }
  }

  /** The collecting loop: add each solution's element to the set and stop as
      soon as the set has exactly `seqlen` members. */
  function Collect(pt: PT, vs: seq<seq<nat>>, acc: set<nat>, seqlen: nat): (r: set<nat>)
    requires forall v :: v in vs ==> LoopNum(pt) <= |v|
    ensures acc <= r <= acc + Values(pt, vs)
    ensures r == acc + Values(pt, vs) || (|r| == seqlen && |r| > 0)
    ensures seqlen > 0 && |acc| < seqlen ==> |r| <= seqlen
  {
    if |vs| == 0 then acc
    else
      var acc' := acc + {Element(pt, WeightsPt(pt, vs[0]))};
      assert |acc'| <= |acc| + 1;
      if |acc'| == seqlen then acc'
      else Collect(pt, vs[1..], acc', seqlen)
  }

  /** ptelements with the weights reshaped for the tree: the distinct elements
      of the search's solutions, stopping at `seqlen` of them (never, when
      `seqlen` is 0). A set, since the source returns `list(set)` unsorted. */
  function Elements(pt: PT, seqlen: nat, maxloop: nat): (r: set<nat>)
    ensures forall x :: x in r ==> IsPtElement(pt, x, maxloop)
    ensures seqlen > 0 ==> |r| <= seqlen
    ensures seqlen == 0 || |r| < seqlen ==> forall x :: IsPtElement(pt, x, maxloop) ==> x in r
  {
    var vs := All([], LoopNum(pt), maxloop, _ => true);
    var r := Collect(pt, vs, {}, seqlen);
    ElementsComplete(pt, maxloop, vs, seqlen, r);
    r
  }

  /** The values of the full enumeration are exactly the generated elements,
      and the collected set lies between nothing and all of them. */
  lemma ElementsComplete(pt: PT, maxloop: nat, vs: seq<seq<nat>>, seqlen: nat, r: set<nat>)
    requires vs == All([], LoopNum(pt), maxloop, _ => true)
    requires forall v :: v in vs ==> LoopNum(pt) <= |v|
    requires r <= Values(pt, vs)
    requires r == Values(pt, vs) || (|r| == seqlen && |r| > 0)
    ensures forall x :: x in r ==> IsPtElement(pt, x, maxloop)
    ensures seqlen == 0 || |r| < seqlen ==> forall x :: IsPtElement(pt, x, maxloop) ==> x in r
  {
    forall x | x in Values(pt, vs) ensures IsPtElement(pt, x, maxloop) {
      ValuesMembers(pt, vs, x);
      var v :| v in vs && Element(pt, WeightsPt(pt, v)) == x;
      assert Extends([], LoopNum(pt), maxloop, v);
      assert InBox(v, LoopNum(pt), maxloop) && HitsElement(pt, x, v);
    }
    forall x | IsPtElement(pt, x, maxloop) ensures x in Values(pt, vs) {
      var v :| InBox(v, LoopNum(pt), maxloop) && HitsElement(pt, x, v);
      assert v[..0] == [];
      AllComplete([], LoopNum(pt), maxloop, _ => true, v);
      ValuesMembers(pt, vs, x);
    }
  }

  /** The first solution is the zero vector, whose element is the preset, so
      the preset is collected whatever `seqlen` is. */
  lemma ElementsHoldPreset(pt: PT, seqlen: nat, maxloop: nat)
    ensures pt.preset in Elements(pt, seqlen, maxloop)
  {
    var vs := All([], LoopNum(pt), maxloop, _ => true);
    var z := seq(LoopNum(pt), _ => 0);
    assert [] + z == z;
    AllStartsAtZero([], LoopNum(pt), maxloop, _ => true);
    ZeroVectorGivesPreset(pt, z);
    var acc' := {} + {Element(pt, WeightsPt(pt, vs[0]))};
    assert pt.preset in acc';
  }

  /* ------------------------------------------------------------------ */
  /* ptelements as written                                               */
  /* ------------------------------------------------------------------ */

  /** ptelement applied to the solver's flat vector, as the source does: a
      scalar loop reads `w[i]`, a nested loop reads `w[i][0]` of an integer
      and fails. */
  function ElementOnFlat(pt: PT, w: seq<nat>): (r: Option<nat>)
    requires |pt.loops| <= |w|
    ensures r.Some? <==> forall i :: 0 <= i < |pt.loops| ==> pt.loops[i].Scalar?
  {
    var s := SumOnFlat(pt, 0, w);
    if s.Some? then Some(pt.preset + s.value) else None
  }

  function SumOnFlat(pt: PT, i: nat, w: seq<nat>): (r: Option<nat>)
    requires i <= |pt.loops| <= |w|
    ensures r.Some? <==> forall j :: i <= j < |pt.loops| ==> pt.loops[j].Scalar?
    decreases |pt.loops| - i
  {
    if i == |pt.loops| then Some(0)
    else if pt.loops[i].Nested? then None
    else
      var rest := SumOnFlat(pt, i + 1, w);
      if rest.Some? then Some(w[i] * pt.loops[i].period + rest.value) else None
  }

  /** On a tree of scalar loops the flat vector is the weight vector, and the
      as-written evaluation agrees with `Element`. */
  lemma {:induction false} FlatEvaluationAgrees(pt: PT, w: seq<nat>)
    requires LoopNum(pt) <= |w|
    requires forall i :: 0 <= i < |pt.loops| ==> pt.loops[i].Scalar?
    ensures ElementOnFlat(pt, w) == Some(Element(pt, WeightsPt(pt, w)))
  {
    var ws := WeightsPt(pt, w);
    ScalarLoopNum(pt, 0);
    assert w[0..|pt.loops|] == w[..LoopNum(pt)];
    FlatSumAgrees(pt, 0, ws, w);
  }

  lemma {:induction false} ScalarLoopNum(pt: PT, i: nat)
    requires i <= |pt.loops|
    requires forall j :: 0 <= j < |pt.loops| ==> pt.loops[j].Scalar?
    ensures LoopNumFrom(pt, i) == |pt.loops| - i
    decreases |pt.loops| - i
  {
    if i < |pt.loops| {
      assert pt.loops[i].Scalar?;
      ScalarLoopNum(pt, i + 1);
    }
  }

  lemma {:induction false} FlatSumAgrees(pt: PT, i: nat, ws: seq<Weight>, w: seq<nat>)
    requires i <= |pt.loops| <= |w| && FitsFrom(pt, i, ws)
    requires forall j :: 0 <= j < |pt.loops| ==> pt.loops[j].Scalar?
    requires FlattenFrom(pt, i, ws) == w[i..|pt.loops|]
    ensures SumOnFlat(pt, i, w) == Some(LoopSumFrom(pt, i, ws))
    decreases |pt.loops| - i
  {
    if i < |pt.loops| {
      assert pt.loops[i].Scalar?;
      var tail := FlattenFrom(pt, i + 1, ws[1..]);
      assert FlattenFrom(pt, i, ws) == [ws[0].w] + tail;
      assert ws[0].w == w[i] by {
        assert w[i] == w[i..|pt.loops|][0];
      }
      assert tail == w[i + 1..|pt.loops|] by {
        assert w[i + 1..|pt.loops|] == w[i..|pt.loops|][1..];
      }
      FlatSumAgrees(pt, i + 1, ws[1..], w);
    }
  }

  /** ptelements as the source writes it: every solution goes through
      `ElementOnFlat`, and the first failure aborts the whole call. */
  function ElementsAsWritten(pt: PT, seqlen: nat, maxloop: nat): (r: Option<set<nat>>)
  {
    CollectOnFlat(pt, All([], LoopNum(pt), maxloop, _ => true), {}, seqlen)
  }

  function CollectOnFlat(pt: PT, vs: seq<seq<nat>>, acc: set<nat>, seqlen: nat): (r: Option<set<nat>>)
    requires forall v :: v in vs ==> LoopNum(pt) <= |v|
    ensures |vs| > 0 && (exists i :: 0 <= i < |pt.loops| && pt.loops[i].Nested?) ==> r.None?
  {
    if |vs| == 0 then Some(acc)
    else
      assert vs[0] in vs && LoopNum(pt) >= |pt.loops|;
      var e := ElementOnFlat(pt, vs[0]);
      if e.None? then None
      else if |acc + {e.value}| == seqlen then Some(acc + {e.value})
      else CollectOnFlat(pt, vs[1..], acc + {e.value}, seqlen)
  }

  /** The source's ptelements fails on every tree with a nested loop, while
      the reshaped evaluation returns the elements, the preset among them. */
  lemma ElementsAsWrittenFails(pt: PT, seqlen: nat, maxloop: nat)
    requires exists i :: 0 <= i < |pt.loops| && pt.loops[i].Nested?
    ensures ElementsAsWritten(pt, seqlen, maxloop).None?
    ensures pt.preset in Elements(pt, seqlen, maxloop)
  {
    var z := seq(LoopNum(pt), _ => 0);
    assert [] + z == z;
    AllStartsAtZero([], LoopNum(pt), maxloop, _ => true);
    ElementsHoldPreset(pt, seqlen, maxloop);
  }

  /* ------------------------------------------------------------------ */
  /* ptsubset                                                            */
  /* ------------------------------------------------------------------ */

  function Last(elist: seq<nat>): nat
    requires |elist| > 0
  {
    elist[|elist| - 1]
  }

  /** ptsubset: every number below the list's last entry that the tree
      generates (default search bound) is in the list. The last entry itself is
      not checked. */
  function PtSubset(pt: PT, elist: seq<nat>): (b: bool)
    requires |elist| > 0
    ensures b <==> forall i :: 0 <= i < Last(elist) && IsPtElement(pt, i, DefaultMaxLoop) ==> i in elist
  {
    SubsetFrom(pt, elist, 0)
  }

  function SubsetFrom(pt: PT, elist: seq<nat>, i: nat): (b: bool)
    requires |elist| > 0
    ensures b <==> forall j :: i <= j < Last(elist) && IsPtElement(pt, j, DefaultMaxLoop) ==> j in elist
    decreases Last(elist) - i
  {
    if i >= Last(elist) then true
    else if IsPtElement(pt, i, DefaultMaxLoop) && i !in elist then false
    else SubsetFrom(pt, elist, i + 1)
  }

  /* ------------------------------------------------------------------ */
  /* isptsubset_el and isrightpt                                         */
  /* ------------------------------------------------------------------ */

  /** isptsubset_el: the one element a fixed setting generates is, when below
      the list's last entry, in the list. */
  method IsSubsetEl(elist: seq<nat>, pt: PT, ws: seq<Weight>, ex: Extra) returns (b: bool)
    requires |elist| > 0 && Fits(pt, ws) && ExFits(pt, ex)
    ensures b <==> (ElementExtra(pt, ws, ex) < Last(elist) ==> ElementExtra(pt, ws, ex) in elist)
  {
    var v := ElementExtra(pt, ws, ex);
    var i := 0;
    while i < Last(elist)
      invariant i <= Last(elist)
      invariant v < i ==> v in elist
    {
      if v == i && i !in elist {
        return false;
      }
      i := i + 1;
    }
    return true;
  }

  /** isrightpt: as isptsubset_el, and moreover `el`, when below the last
      entry, is the element the setting generates. */
  method IsRightPt(el: nat, elist: seq<nat>, pt: PT, ws: seq<Weight>, ex: Extra) returns (b: bool)
    requires |elist| > 0 && Fits(pt, ws) && ExFits(pt, ex)
    ensures b <==> (ElementExtra(pt, ws, ex) < Last(elist) ==> ElementExtra(pt, ws, ex) in elist)
                   && (el < Last(elist) ==> el == ElementExtra(pt, ws, ex))
  {
    var v := ElementExtra(pt, ws, ex);
    var i := 0;
    while i < Last(elist)
      invariant i <= Last(elist)
      invariant v < i ==> v in elist
      invariant el < i ==> el == v
    {
      if v == i && i !in elist {
        return false;
      }
      if i == el && v != i {
        return false;
      }
      i := i + 1;
    }
    return true;
  }
}
