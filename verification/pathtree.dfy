/** The PathTree data model and its structural metrics.

    A PathTree stands for a set of non-negative integers: a `preset` offset plus
    a sequence of loops, each either a scalar period or a nested PathTree. The
    loops are kept in a sequence so that every traversal (counting, reshaping,
    evaluation, augmentation) visits them in one fixed order.

    Every recursive definition over a tree walks "loops i.. of pt" together with
    the matching suffix of whatever runs alongside (weights, extra loops), so all
    of them unfold in lock step.
 */
module PathTree {

  datatype Option<+T> = None | Some(value: T)

  datatype Loop = Scalar(period: nat) | Nested(tree: PT)

  datatype PT = PT(preset: nat, loops: seq<Loop>)

  /** One weight per loop: a scalar loop has a single weight, a nested loop has
      its own weight plus the weights of the loops inside it. */
  datatype Weight = Leaf(w: nat) | Node(w: nat, inner: seq<Weight>)

  /** A candidate extra loop: its length and how often it is taken. */
  datatype ELoop = ELoop(len: nat, weight: nat)

  /** Candidate extra loops in the shape of a tree: `first` is the candidate
      attached to the tree level itself, `items` has one entry per loop (an
      `ExLoop` for a scalar loop, an `ExTree` for a nested one). */
  datatype Extra = ExLoop(e: ELoop) | ExTree(first: ELoop, items: seq<Extra>)

  /** The extra-loop lengths alone, in the same shape as `Extra`. */
  datatype Lens = LenLoop(len: nat) | LenTree(first: nat, items: seq<Lens>)

  /* ------------------------------------------------------------------ */
  /* Shapes                                                              */
  /* ------------------------------------------------------------------ */

  /** `ws` has one weight per loop of `pt`, nested exactly like `pt`. */
  predicate Fits(pt: PT, ws: seq<Weight>)
    decreases pt, 1
  {
    FitsFrom(pt, 0, ws)
  }

  /** `ws` fits loops `i..` of `pt`. */
  predicate FitsFrom(pt: PT, i: nat, ws: seq<Weight>)
    requires i <= |pt.loops|
    decreases pt, 0, |pt.loops| - i
  {
    if i == |pt.loops| then ws == []
    else |ws| > 0 && LoopFits(pt.loops[i], ws[0]) && FitsFrom(pt, i + 1, ws[1..])
  }

  predicate LoopFits(l: Loop, w: Weight)
    decreases l
  {
    match l
    case Scalar(_) => w.Leaf?
    case Nested(t) => w.Node? && Fits(t, w.inner)
  }

  /** `ex` holds one candidate for the level of `pt` and one per loop, nested
      like `pt`. */
  predicate ExFits(pt: PT, ex: Extra)
    decreases pt, 1
  {
    ex.ExTree? && ExFitsFrom(pt, 0, ex.items)
  }

  predicate ExFitsFrom(pt: PT, i: nat, items: seq<Extra>)
    requires i <= |pt.loops|
    decreases pt, 0, |pt.loops| - i
  {
    if i == |pt.loops| then items == []
    else |items| > 0 && ExLoopFits(pt.loops[i], items[0]) && ExFitsFrom(pt, i + 1, items[1..])
  }

  predicate ExLoopFits(l: Loop, x: Extra)
    decreases l
  {
    match l
    case Scalar(_) => x.ExLoop?
    case Nested(t) => ExFits(t, x)
  }

  /** `ls` holds one extra-loop length for the level of `pt` and one per loop. */
  predicate LensFit(pt: PT, ls: Lens)
    decreases pt, 1
  {
    ls.LenTree? && LensFitFrom(pt, 0, ls.items)
  }

  predicate LensFitFrom(pt: PT, i: nat, items: seq<Lens>)
    requires i <= |pt.loops|
    decreases pt, 0, |pt.loops| - i
  {
    if i == |pt.loops| then items == []
    else |items| > 0 && LensLoopFit(pt.loops[i], items[0]) && LensFitFrom(pt, i + 1, items[1..])
  }

  predicate LensLoopFit(l: Loop, x: Lens)
    decreases l
  {
    match l
    case Scalar(_) => x.LenLoop?
    case Nested(t) => LensFit(t, x)
  }

  /* ------------------------------------------------------------------ */
  /* Loop count (ptloopnum)                                              */
  /* ------------------------------------------------------------------ */

  /** Number of weights a tree needs: one per scalar loop, and one plus the
      inner count per nested tree. */
  function LoopNum(pt: PT): (n: nat)
    ensures n >= |pt.loops|
    ensures n == 0 <==> |pt.loops| == 0
    decreases pt, 1
  {
    LoopNumFrom(pt, 0)
  }

  function LoopNumFrom(pt: PT, i: nat): (n: nat)
    requires i <= |pt.loops|
    ensures n >= |pt.loops| - i
    decreases pt, 0, |pt.loops| - i
  {
    if i == |pt.loops| then 0
    else LoopNumOf(pt.loops[i]) + LoopNumFrom(pt, i + 1)
  }

  function LoopNumOf(l: Loop): (n: nat)
    ensures n >= 1
    decreases l
  {
    match l
    case Scalar(_) => 1
    case Nested(t) => 1 + LoopNum(t)
  }

  /* ------------------------------------------------------------------ */
  /* Node count (ptnodenum)                                              */
  /* ------------------------------------------------------------------ */

  /** The simplicity rank used to choose among grown trees: `preset - 1`, plus
      `period - 1` per scalar loop, plus `1 + (inner sum)` per nested tree. The
      preset of a nested tree is not counted. It can be -1 (preset 0, no loops). */
  function NodeNum(pt: PT): int
  {
    pt.preset - 1 + NodeSum(pt)
  }

  function NodeSum(pt: PT): int
    decreases pt, 1
  {
    NodeSumFrom(pt, 0)
  }

  function NodeSumFrom(pt: PT, i: nat): int
    requires i <= |pt.loops|
    decreases pt, 0, |pt.loops| - i
  {
    if i == |pt.loops| then 0
    else NodeSumOf(pt.loops[i]) + NodeSumFrom(pt, i + 1)
  }

  function NodeSumOf(l: Loop): int
    decreases l
  {
    match l
    case Scalar(p) => p - 1
    case Nested(t) => 1 + NodeSum(t)
  }

  /** Every scalar period in the tree is positive (the data model's intent). */
  predicate PositivePeriods(pt: PT)
    decreases pt
  {
    forall i :: 0 <= i < |pt.loops| ==>
      match pt.loops[i]
      case Scalar(p) => p > 0
      case Nested(t) => PositivePeriods(t)
  }

  /** With positive periods every loop adds at least zero, so the rank is never
      below `preset - 1`; it grows by at least one per nested tree. */
  lemma {:induction false} NodeNumLowerBound(pt: PT)
    requires PositivePeriods(pt)
    ensures NodeSum(pt) >= 0
    ensures NodeNum(pt) >= pt.preset - 1
    decreases pt, 1
  {
    NodeSumFromLowerBound(pt, 0);
  }

  lemma {:induction false} NodeSumFromLowerBound(pt: PT, i: nat)
    requires i <= |pt.loops|
    requires PositivePeriods(pt)
    ensures NodeSumFrom(pt, i) >= 0
    decreases pt, 0, |pt.loops| - i
  {
    if i < |pt.loops| {
      if pt.loops[i].Nested? {
        NodeNumLowerBound(pt.loops[i].tree);
      }
      NodeSumFromLowerBound(pt, i + 1);
    }
  }

  /** The preset of a nested tree does not enter the rank: replacing it leaves
      `NodeNum` unchanged. */
  lemma {:induction false} NestedPresetIgnored(pt: PT, i: nat, q: nat)
    requires i < |pt.loops| && pt.loops[i].Nested?
    ensures NodeNum(PT(pt.preset, pt.loops[i := Nested(PT(q, pt.loops[i].tree.loops))])) == NodeNum(pt)
  {
    var pt' := PT(pt.preset, pt.loops[i := Nested(PT(q, pt.loops[i].tree.loops))]);
    var t := pt.loops[i].tree;
    assert NodeSum(PT(q, t.loops)) == NodeSum(t) by {
      SameLoopsSameNodeSum(PT(q, t.loops), t, 0);
    }
    NodeSumFromPointwise(pt', pt, 0);
  }

  lemma {:induction false} SameLoopsSameNodeSum(a: PT, b: PT, i: nat)
    requires a.loops == b.loops && i <= |a.loops|
    ensures NodeSumFrom(a, i) == NodeSumFrom(b, i)
    decreases |a.loops| - i
  {
    if i < |a.loops| {
      SameLoopsSameNodeSum(a, b, i + 1);
    }
  }

  lemma {:induction false} NodeSumFromPointwise(a: PT, b: PT, i: nat)
    requires |a.loops| == |b.loops| && i <= |a.loops|
    requires forall j :: i <= j < |a.loops| ==> NodeSumOf(a.loops[j]) == NodeSumOf(b.loops[j])
    ensures NodeSumFrom(a, i) == NodeSumFrom(b, i)
    decreases |a.loops| - i
  {
    if i < |a.loops| {
      NodeSumFromPointwise(a, b, i + 1);
    }
  }
}
