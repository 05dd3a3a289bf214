/** loops_and_weights: the constraint that keeps candidate extra loops out of
    subtrees switched off by a zero weight.

    `GateIntended` is the rule the docstring describes: whenever a loop has
    weight zero, every candidate at or beneath that loop is zero. Under it the
    extra loops count in full (`GatedExtrasAllCount`).

    `GateAsWritten` is the recursion the code performs. After gating a nested
    loop's candidates by its own weight, it recurses on the one-element
    wrappers `ll[1:]` and `ww[1:]` rather than on the inner lists, so inside a
    nested tree the FIRST inner weight gates every candidate of that subtree,
    and the first inner loop, when it is itself nested, is never gated on its
    own. The lemmas at the end exhibit both effects on concrete inputs.
 */
module Gating {
  import opened PathTree
  import opened Reshape
  import opened Evaluate

  /* ------------------------------------------------------------------ */
  /* The intended rule                                                   */
  /* ------------------------------------------------------------------ */

  predicate GateIntended(pt: PT, ws: seq<Weight>, ex: Extra)
    requires Fits(pt, ws) && ExFits(pt, ex)
    decreases pt, 1
  {
    GateFrom(pt, 0, ws, ex.items)
  }

  predicate GateFrom(pt: PT, i: nat, ws: seq<Weight>, items: seq<Extra>)
    requires i <= |pt.loops| && FitsFrom(pt, i, ws) && ExFitsFrom(pt, i, items)
    decreases pt, 0, |pt.loops| - i
  {
    if i == |pt.loops| then true
    else GateLoop(pt.loops[i], ws[0], items[0]) && GateFrom(pt, i + 1, ws[1..], items[1..])
  }

  /** A zero weight zeroes every candidate of the loop, and a nested tree is
      gated level by level inside. */
  predicate GateLoop(l: Loop, w: Weight, x: Extra)
    requires LoopFits(l, w) && ExLoopFits(l, x)
    decreases l
  {
    (w.w == 0 ==> AllZero(ExFlattenLoop(l, x)))
    && (l.Nested? ==> GateIntended(l.tree, w.inner, x))
  }

  /** Under the intended gating every candidate extra loop is reached by an
      active path, so the grown element is the plain element plus the total of
      all candidates. */
  lemma {:induction false} GatedExtrasAllCount(pt: PT, ws: seq<Weight>, ex: Extra)
    requires Fits(pt, ws) && ExFits(pt, ex) && GateIntended(pt, ws, ex)
    ensures Grown(pt, ws, ex) == LoopSum(pt, ws) + Total(ExFlatten(pt, ex))
    ensures ElementExtra(pt, ws, ex) == Element(pt, ws) + Total(ExFlatten(pt, ex))
    decreases pt, 1
  {
    GatedFromAllCount(pt, 0, ws, ex.items);
    assert Total(ExFlatten(pt, ex)) == ex.first.len * ex.first.weight + Total(ExFlattenFrom(pt, 0, ex.items)) by {
      TotalConcat([ex.first], ExFlattenFrom(pt, 0, ex.items));
    }
  }

  lemma {:induction false} GatedFromAllCount(pt: PT, i: nat, ws: seq<Weight>, items: seq<Extra>)
    requires i <= |pt.loops| && FitsFrom(pt, i, ws) && ExFitsFrom(pt, i, items)
    requires GateFrom(pt, i, ws, items)
    ensures GrownFrom(pt, i, ws, items) == LoopSumFrom(pt, i, ws) + Total(ExFlattenFrom(pt, i, items))
    decreases pt, 0, |pt.loops| - i
  {
    if i < |pt.loops| {
      GatedLoopAllCount(pt.loops[i], ws[0], items[0]);
      GatedFromAllCount(pt, i + 1, ws[1..], items[1..]);
      TotalConcat(ExFlattenLoop(pt.loops[i], items[0]), ExFlattenFrom(pt, i + 1, items[1..]));
    }
  }

  lemma {:induction false} GatedLoopAllCount(l: Loop, w: Weight, x: Extra)
    requires LoopFits(l, w) && ExLoopFits(l, x) && GateLoop(l, w, x)
    ensures GrownLoop(l, w, x) == Contribution(l, w) + Total(ExFlattenLoop(l, x))
    decreases l
  {
    if w.w == 0 {
      AllZeroTotal(ExFlattenLoop(l, x));
    }
    if l.Scalar? {
      assert Total(ExFlattenLoop(l, x)) == x.e.len * x.e.weight by {
        assert ExFlattenLoop(l, x) == [x.e];
      }
    } else if w.w != 0 {
      GatedExtrasAllCount(l.tree, w.inner, x);
    }
  }

  /** With all candidates zero the gate holds trivially. */
  lemma {:induction false} ZeroExtrasPassGate(pt: PT, ws: seq<Weight>, ex: Extra)
    requires Fits(pt, ws) && ExFits(pt, ex) && AllZero(ExFlatten(pt, ex))
    ensures GateIntended(pt, ws, ex)
    decreases pt, 1
  {
    assert ExFlattenFrom(pt, 0, ex.items) == ExFlatten(pt, ex)[1..];
    ZeroExtrasPassGateFrom(pt, 0, ws, ex.items);
  }

  lemma {:induction false} ZeroExtrasPassGateFrom(pt: PT, i: nat, ws: seq<Weight>, items: seq<Extra>)
    requires i <= |pt.loops| && FitsFrom(pt, i, ws) && ExFitsFrom(pt, i, items)
    requires AllZero(ExFlattenFrom(pt, i, items))
    ensures GateFrom(pt, i, ws, items)
    decreases pt, 0, |pt.loops| - i
  {
    if i < |pt.loops| {
      var head := ExFlattenLoop(pt.loops[i], items[0]);
      var tail := ExFlattenFrom(pt, i + 1, items[1..]);
      AllZeroConcat(head, tail);
      if pt.loops[i].Nested? {
        ZeroExtrasPassGate(pt.loops[i].tree, ws[0].inner, items[0]);
      }
      ZeroExtrasPassGateFrom(pt, i + 1, ws[1..], items[1..]);
    }
  }

  lemma AllZeroConcat(a: seq<ELoop>, b: seq<ELoop>)
    requires AllZero(a + b)
    ensures AllZero(a) && AllZero(b)
  {
    forall k | 0 <= k < |a| ensures a[k] == ELoop(0, 0) {
      assert a[k] == (a + b)[k];
    }
    forall k | 0 <= k < |b| ensures b[k] == ELoop(0, 0) {
      assert b[k] == (a + b)[|a| + k];
    }
  }

  /* ------------------------------------------------------------------ */
  /* The rule as the code writes it                                      */
  /* ------------------------------------------------------------------ */

  predicate GateAsWritten(pt: PT, ws: seq<Weight>, ex: Extra)
    requires Fits(pt, ws) && ExFits(pt, ex)
    decreases pt, 1
  {
    AsWrittenFrom(pt, 0, ws, ex.items)
  }

  /** The loop over `zip(w, l)` from position `i` on, pairs correctly aligned. */
  predicate AsWrittenFrom(pt: PT, i: nat, ws: seq<Weight>, items: seq<Extra>)
    requires i <= |pt.loops| && FitsFrom(pt, i, ws) && ExFitsFrom(pt, i, items)
    decreases pt, 0, |pt.loops| - i, 1
  {
    if i == |pt.loops| then true
    else AsWrittenLoop(pt.loops[i], ws[0], items[0]) && AsWrittenFrom(pt, i + 1, ws[1..], items[1..])
  }

  /** A pair: its own weight gates all of its candidates; a nested loop then
      continues with the misaligned recursion. */
  predicate AsWrittenLoop(l: Loop, w: Weight, x: Extra)
    requires LoopFits(l, w) && ExLoopFits(l, x)
    decreases l, 2
  {
    (w.w == 0 ==> AllZero(ExFlattenLoop(l, x)))
    && match l
       case Scalar(_) => true
       case Nested(t) => Misaligned(t, w.inner, x)
  }

  /** `recurse(s, ll[1:], ww[1:])` pairs the inner weight list with the inner
      candidate list as one unit: the first inner weight, when it is a scalar
      weight, gates every inner candidate (when it is a nested weight the
      comparison with 0 is false and the constraint vacuous); the inner loops
      after the first are then handled in alignment. */
  predicate Misaligned(t: PT, inner: seq<Weight>, x: Extra)
    requires Fits(t, inner) && ExFits(t, x)
    decreases t, 1
  {
    if |t.loops| == 0 then true
    else
      assert FitsFrom(t, 0, inner) && ExFitsFrom(t, 0, x.items);
      (inner[0].Leaf? && inner[0].w == 0 ==> AllZero(ExFlattenFrom(t, 0, x.items)))
      && AsWrittenFrom(t, 1, inner[1..], x.items[1..])
  }

  /** On a tree without nested loops the code's recursion never reaches the
      misaligned step, and the two rules coincide. */
  lemma {:induction false} FlatTreesAgree(pt: PT, ws: seq<Weight>, ex: Extra)
    requires Fits(pt, ws) && ExFits(pt, ex)
    requires forall j :: 0 <= j < |pt.loops| ==> pt.loops[j].Scalar?
    ensures GateAsWritten(pt, ws, ex) <==> GateIntended(pt, ws, ex)
  {
    FlatTreesAgreeFrom(pt, 0, ws, ex.items);
  }

  lemma {:induction false} FlatTreesAgreeFrom(pt: PT, i: nat, ws: seq<Weight>, items: seq<Extra>)
    requires i <= |pt.loops| && FitsFrom(pt, i, ws) && ExFitsFrom(pt, i, items)
    requires forall j :: 0 <= j < |pt.loops| ==> pt.loops[j].Scalar?
    ensures AsWrittenFrom(pt, i, ws, items) <==> GateFrom(pt, i, ws, items)
    decreases |pt.loops| - i
  {
    if i < |pt.loops| {
      assert pt.loops[i].Scalar?;
      FlatTreesAgreeFrom(pt, i + 1, ws[1..], items[1..]);
    }
  }

  /* The over-restricting input: one nested loop, active, over a tree whose
     first loop is off and whose second loop carries a candidate of length 5. */
  const OverInner := PT(1, [Scalar(2), Scalar(3)])
  const OverInnerWeights := [Leaf(0), Leaf(1)]
  const OverInnerExtra := ExTree(ELoop(0, 0), [ExLoop(ELoop(0, 0)), ExLoop(ELoop(5, 1))])

  lemma OverInnerFacts()
    ensures Fits(OverInner, OverInnerWeights) && ExFits(OverInner, OverInnerExtra)
    ensures ExFlattenFrom(OverInner, 0, OverInnerExtra.items) == [ELoop(0, 0), ELoop(5, 1)]
    ensures GateIntended(OverInner, OverInnerWeights, OverInnerExtra)
    ensures !Misaligned(OverInner, OverInnerWeights, OverInnerExtra)
    ensures Grown(OverInner, OverInnerWeights, OverInnerExtra) == 8
  {
    var t, ws, items := OverInner, OverInnerWeights, OverInnerExtra.items;
    assert ws[1..] == [Leaf(1)] && ws[1..][1..] == [];
    assert items[1..] == [ExLoop(ELoop(5, 1))] && items[1..][1..] == [];
    assert FitsFrom(t, 2, ws[1..][1..]);
    assert ExFitsFrom(t, 2, items[1..][1..]);
    assert ExFlattenFrom(t, 1, items[1..]) == [ELoop(5, 1)];
    var f := ExFlattenFrom(t, 0, items);
    assert f == [ELoop(0, 0), ELoop(5, 1)];
    assert f[1] != ELoop(0, 0);
    assert GateFrom(t, 1, ws[1..], items[1..]);
    assert GrownFrom(t, 1, ws[1..], items[1..]) == 8;
  }

  const OverTree := PT(0, [Nested(OverInner)])
  const OverWeights := [Node(1, OverInnerWeights)]
  const OverExtra := ExTree(ELoop(0, 0), [OverInnerExtra])

  /** Over-restriction: a zero weight on the first loop of a nested tree
      forbids a candidate on the second loop, which is active. The intended
      rule accepts the assignment, and under it the candidate of length 5
      counts: the element is 9. */
  lemma AsWrittenOverRestricts()
    ensures Fits(OverTree, OverWeights) && ExFits(OverTree, OverExtra)
    ensures GateIntended(OverTree, OverWeights, OverExtra)
    ensures !GateAsWritten(OverTree, OverWeights, OverExtra)
    ensures ElementExtra(OverTree, OverWeights, OverExtra) == 9
  {
    OverInnerFacts();
    var pt, ws, items := OverTree, OverWeights, OverExtra.items;
    assert ws[1..] == [] && items[1..] == [];
    assert FitsFrom(pt, 1, ws[1..]);
    assert ExFitsFrom(pt, 1, items[1..]);
    assert !AsWrittenLoop(Nested(OverInner), ws[0], items[0]);
    assert GateLoop(Nested(OverInner), ws[0], items[0]);
    assert GateFrom(pt, 1, ws[1..], items[1..]);
    assert GrownLoop(Nested(OverInner), ws[0], items[0]) == 9;
    assert GrownFrom(pt, 1, ws[1..], items[1..]) == 0;
    assert GrownFrom(pt, 0, ws, items) == 9;
    assert Grown(pt, ws, OverExtra) == 9;
  }

  /* The under-restricting input: an active nested loop over a tree whose only
     loop is nested, switched off, and carries a candidate of length 4. */
  const UnderDeep := PT(1, [Scalar(2)])
  const UnderDeepWeights := [Leaf(0)]
  const UnderDeepExtra := ExTree(ELoop(4, 1), [ExLoop(ELoop(0, 0))])
  const UnderMid := PT(0, [Nested(UnderDeep)])
  const UnderMidWeights := [Node(0, UnderDeepWeights)]
  const UnderMidExtra := ExTree(ELoop(0, 0), [UnderDeepExtra])

  lemma UnderDeepFacts()
    ensures Fits(UnderDeep, UnderDeepWeights) && ExFits(UnderDeep, UnderDeepExtra)
    ensures Total(ExFlatten(UnderDeep, UnderDeepExtra)) == 4
  {
    var t, ws, items := UnderDeep, UnderDeepWeights, UnderDeepExtra.items;
    assert ws[1..] == [] && items[1..] == [];
    assert FitsFrom(t, 1, ws[1..]);
    assert ExFitsFrom(t, 1, items[1..]);
    var f := ExFlatten(UnderDeep, UnderDeepExtra);
    assert ExFlattenFrom(t, 0, items) == [ELoop(0, 0)];
    assert f == [ELoop(4, 1), ELoop(0, 0)];
    assert f[1..] == [ELoop(0, 0)] && f[1..][1..] == [];
    assert Total(f[1..][1..]) == 0;
    assert Total(f[1..]) == 0;
  }

  /** Over a tree with a single loop the shapes reduce to that loop. */
  lemma SingleLoopFits(pt: PT, w: Weight, x: Extra)
    requires |pt.loops| == 1 && LoopFits(pt.loops[0], w) && ExLoopFits(pt.loops[0], x)
    ensures Fits(pt, [w]) && ExFits(pt, ExTree(ELoop(0, 0), [x]))
  {
    assert [w][1..] == [] && [x][1..] == [];
    assert FitsFrom(pt, 1, [w][1..]) && ExFitsFrom(pt, 1, [x][1..]);
  }

  lemma SingleLoopFlatten(pt: PT, x: Extra)
    requires |pt.loops| == 1 && ExLoopFits(pt.loops[0], x)
    requires ExFitsFrom(pt, 0, [x])
    ensures ExFlattenFrom(pt, 0, [x]) == ExFlattenLoop(pt.loops[0], x)
  {
    assert [x][1..] == [];
    assert ExFlattenFrom(pt, 0, [x]) == ExFlattenLoop(pt.loops[0], x) + [];
  }

  lemma SingleLoopGrown(pt: PT, w: Weight, x: Extra)
    requires |pt.loops| == 1 && LoopFits(pt.loops[0], w) && ExLoopFits(pt.loops[0], x)
    requires FitsFrom(pt, 0, [w]) && ExFitsFrom(pt, 0, [x])
    ensures GrownFrom(pt, 0, [w], [x]) == GrownLoop(pt.loops[0], w, x)
  {
    assert [w][1..] == [] && [x][1..] == [];
  }

  lemma SingleLoopGate(pt: PT, w: Weight, x: Extra)
    requires |pt.loops| == 1 && LoopFits(pt.loops[0], w) && ExLoopFits(pt.loops[0], x)
    requires FitsFrom(pt, 0, [w]) && ExFitsFrom(pt, 0, [x])
    ensures GateFrom(pt, 0, [w], [x]) == GateLoop(pt.loops[0], w, x)
  {
    assert [w][1..] == [] && [x][1..] == [];
  }

  lemma UnderMidShape()
    ensures Fits(UnderMid, UnderMidWeights) && ExFits(UnderMid, UnderMidExtra)
  {
    UnderDeepFacts();
    SingleLoopFits(UnderMid, Node(0, UnderDeepWeights), UnderDeepExtra);
  }

  lemma UnderMidTotal()
    ensures Fits(UnderMid, UnderMidWeights) && ExFits(UnderMid, UnderMidExtra)
    ensures Total(ExFlatten(UnderMid, UnderMidExtra)) == 4
  {
    UnderMidShape();
    UnderDeepFacts();
    var f2 := ExFlatten(UnderDeep, UnderDeepExtra);
    SingleLoopFlatten(UnderMid, UnderDeepExtra);
    assert ExFlatten(UnderMid, UnderMidExtra) == [ELoop(0, 0)] + f2;
    TotalConcat([ELoop(0, 0)], f2);
    assert Total([ELoop(0, 0)]) == 0 by {
      assert [ELoop(0, 0)][1..] == [];
    }
  }

  lemma UnderMidGrown()
    ensures Fits(UnderMid, UnderMidWeights) && ExFits(UnderMid, UnderMidExtra)
    ensures Grown(UnderMid, UnderMidWeights, UnderMidExtra) == 0
  {
    UnderMidShape();
    UnderDeepFacts();
    var w := Node(0, UnderDeepWeights);
    SingleLoopGrown(UnderMid, w, UnderDeepExtra);
    assert GrownLoop(Nested(UnderDeep), w, UnderDeepExtra) == 0;
  }

  lemma UnderMidGate()
    ensures Fits(UnderMid, UnderMidWeights) && ExFits(UnderMid, UnderMidExtra)
    ensures Misaligned(UnderMid, UnderMidWeights, UnderMidExtra)
    ensures !GateIntended(UnderMid, UnderMidWeights, UnderMidExtra)
  {
    UnderMidShape();
    UnderDeepFacts();
    var w := Node(0, UnderDeepWeights);
    SingleLoopGate(UnderMid, w, UnderDeepExtra);
    assert ExFlatten(UnderDeep, UnderDeepExtra)[0] == ELoop(4, 1);
    assert !GateLoop(Nested(UnderDeep), w, UnderDeepExtra);
    assert [w][1..] == [] && [UnderDeepExtra][1..] == [];
    assert AsWrittenFrom(UnderMid, 1, [w][1..], [UnderDeepExtra][1..]);
  }

  const UnderTree := PT(0, [Nested(UnderMid)])
  const UnderWeights := [Node(1, UnderMidWeights)]
  const UnderExtra := ExTree(ELoop(0, 0), [UnderMidExtra])

  /** Under-restriction: the first loop of a nested tree is itself nested and
      has weight zero, yet the candidate of length 4 beneath it is let through.
      It does not count in the element, which the intended rule rules out. */
  lemma AsWrittenUnderRestricts()
    ensures Fits(UnderTree, UnderWeights) && ExFits(UnderTree, UnderExtra)
    ensures GateAsWritten(UnderTree, UnderWeights, UnderExtra)
    ensures !GateIntended(UnderTree, UnderWeights, UnderExtra)
    ensures ElementExtra(UnderTree, UnderWeights, UnderExtra)
            != Element(UnderTree, UnderWeights) + Total(ExFlatten(UnderTree, UnderExtra))
  {
    UnderMidShape();
    UnderMidTotal();
    UnderMidGrown();
    UnderMidGate();
    var pt, ws, items := UnderTree, UnderWeights, UnderExtra.items;
    assert ws[1..] == [] && items[1..] == [];
    assert FitsFrom(pt, 1, ws[1..]);
    assert ExFitsFrom(pt, 1, items[1..]);
    assert AsWrittenLoop(Nested(UnderMid), ws[0], items[0]);
    assert AsWrittenFrom(pt, 1, ws[1..], items[1..]);
    assert AsWrittenFrom(pt, 0, ws, items);
    assert !GateLoop(Nested(UnderMid), ws[0], items[0]);
    assert !GateFrom(pt, 0, ws, items);
    assert GrownLoop(Nested(UnderMid), ws[0], items[0]) == 0;
    assert GrownFrom(pt, 1, ws[1..], items[1..]) == 0;
    assert GrownFrom(pt, 0, ws, items) == 0;
    assert ElementExtra(pt, ws, UnderExtra) == 0;
    var f1 := ExFlatten(UnderMid, UnderMidExtra);
    var f := ExFlatten(pt, UnderExtra);
    assert ExFlattenFrom(pt, 0, items) == f1 + [];
    assert f == [ELoop(0, 0)] + f1;
    TotalConcat([ELoop(0, 0)], f1);
    assert Total(f) >= 4;
  }
}
