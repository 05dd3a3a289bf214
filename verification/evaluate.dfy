/** Evaluating a PathTree under a weight assignment (ptelement), and under a
    weight assignment plus one candidate extra loop per tree level
    (ptelement_extraloop).
 */
module Evaluate {
  import opened PathTree
  import opened Reshape

  /** The gate `min(1, w)` means on a concrete weight: a loop taken zero times
      switches off everything nested in it. This is what ptelement computes
      when it is given numbers; the solver constraints of isptelement and
      growtree hand it solver variables instead, and there the same
      expression yields `w` (`PostedElement`). */
  function Gate(w: nat): nat
  {
    if w == 0 then 0 else 1
  }

  /* ------------------------------------------------------------------ */
  /* ptelement                                                           */
  /* ------------------------------------------------------------------ */

  /** The element `pt` generates under `ws`: the preset plus every loop's
      contribution. */
  function Element(pt: PT, ws: seq<Weight>): nat
    requires Fits(pt, ws)
  {
    pt.preset + LoopSum(pt, ws)
  }

  function LoopSum(pt: PT, ws: seq<Weight>): nat
    requires Fits(pt, ws)
    decreases pt, 1
  {
    LoopSumFrom(pt, 0, ws)
  }

  function LoopSumFrom(pt: PT, i: nat, ws: seq<Weight>): nat
    requires i <= |pt.loops| && FitsFrom(pt, i, ws)
    decreases pt, 0, |pt.loops| - i
  {
    if i == |pt.loops| then 0
    else Contribution(pt.loops[i], ws[0]) + LoopSumFrom(pt, i + 1, ws[1..])
  }

  /** A scalar loop adds `w * period`; a nested tree adds `w` times its preset
      and, only when `w > 0`, the sum of its own loops. */
  function Contribution(l: Loop, w: Weight): nat
    requires LoopFits(l, w)
    decreases l
  {
    match l
    case Scalar(p) => w.w * p
    case Nested(t) => w.w * t.preset + Gate(w.w) * LoopSum(t, w.inner)
  }

  /** Weights that agree except beneath loops both assignments switch off, at
      any depth: an active nested loop needs the same weight and inner weights
      that agree in the same sense. */
  ghost predicate AgreeWhereActive(a: seq<Weight>, b: seq<Weight>)
    decreases a
  {
    |a| == |b| && forall j :: 0 <= j < |a| ==> WeightAgrees(a[j], b[j])
  }

  ghost predicate WeightAgrees(x: Weight, y: Weight)
    decreases x
  {
    (x.w == 0 && y.w == 0)
    || x == y
    || (x.Node? && y.Node? && x.w == y.w && AgreeWhereActive(x.inner, y.inner))
  }

  /** A loop with weight zero contributes nothing, whatever the weights of the
      loops nested under it, at any depth: only the weights of active loops
      matter. */
  lemma {:induction false} ZeroWeightHidesSubtree(pt: PT, a: seq<Weight>, b: seq<Weight>)
    requires Fits(pt, a) && Fits(pt, b) && AgreeWhereActive(a, b)
    ensures Element(pt, a) == Element(pt, b)
    decreases pt, 1
  {
    ZeroWeightHidesSubtreeFrom(pt, 0, a, b);
  }

  lemma {:induction false} ZeroWeightHidesSubtreeFrom(pt: PT, i: nat, a: seq<Weight>, b: seq<Weight>)
    requires i <= |pt.loops| && FitsFrom(pt, i, a) && FitsFrom(pt, i, b) && AgreeWhereActive(a, b)
    ensures LoopSumFrom(pt, i, a) == LoopSumFrom(pt, i, b)
    decreases pt, 0, |pt.loops| - i
  {
    if i < |pt.loops| {
      assert WeightAgrees(a[0], b[0]);
      ZeroWeightHidesLoop(pt.loops[i], a[0], b[0]);
      assert AgreeWhereActive(a[1..], b[1..]) by {
        forall j | 0 <= j < |a[1..]| ensures WeightAgrees(a[1..][j], b[1..][j]) {
          assert a[1..][j] == a[j + 1] && b[1..][j] == b[j + 1];
        }
      }
      ZeroWeightHidesSubtreeFrom(pt, i + 1, a[1..], b[1..]);
    }
  }

  lemma {:induction false} ZeroWeightHidesLoop(l: Loop, x: Weight, y: Weight)
    requires LoopFits(l, x) && LoopFits(l, y) && WeightAgrees(x, y)
    ensures Contribution(l, x) == Contribution(l, y)
    decreases l
  {
    if l.Nested? && x.w != 0 && x != y {
      ZeroWeightHidesSubtree(l.tree, x.inner, y.inner);
    }
  }

  /** Every top-level weight is zero. */
  predicate TopZero(ws: seq<Weight>)
  {
    forall j :: 0 <= j < |ws| ==> ws[j].w == 0
  }

  /** With every top-level weight zero the tree generates its preset, whatever
      the weights nested below. */
  lemma {:induction false} TopZeroGivesPreset(pt: PT, ws: seq<Weight>)
    requires Fits(pt, ws) && TopZero(ws)
    ensures Element(pt, ws) == pt.preset
  {
    TopZeroFrom(pt, 0, ws);
  }

  lemma {:induction false} TopZeroFrom(pt: PT, i: nat, ws: seq<Weight>)
    requires i <= |pt.loops| && FitsFrom(pt, i, ws) && TopZero(ws)
    ensures LoopSumFrom(pt, i, ws) == 0
    decreases |pt.loops| - i
  {
    if i < |pt.loops| {
      assert ws[0].w == 0;
      assert TopZero(ws[1..]) by {
        forall j | 0 <= j < |ws[1..]| ensures ws[1..][j].w == 0 {
          assert ws[1..][j] == ws[j + 1];
        }
      }
      TopZeroFrom(pt, i + 1, ws[1..]);
    }
  }

  /** The all-zero search vector, reshaped, generates the preset. */
  lemma ZeroVectorGivesPreset(pt: PT, flat: seq<nat>)
    requires |flat| == LoopNum(pt)
    requires forall k :: 0 <= k < |flat| ==> flat[k] == 0
    ensures Element(pt, WeightsPt(pt, flat)) == pt.preset
  {
    var ws := WeightsPt(pt, flat);
    assert Flatten(pt, ws) == flat;
    FlattenFirsts(pt, ws);
    TopZeroGivesPreset(pt, ws);
  }

  /** Each top-level weight appears in the flattening. */
  lemma FlattenFirsts(pt: PT, ws: seq<Weight>)
    requires Fits(pt, ws)
    ensures forall j :: 0 <= j < |ws| ==> ws[j].w in Flatten(pt, ws)
  {
    FlattenFromFirsts(pt, 0, ws);
  }

  lemma {:induction false} FlattenFromFirsts(pt: PT, i: nat, ws: seq<Weight>)
    requires i <= |pt.loops| && FitsFrom(pt, i, ws)
    ensures forall j :: 0 <= j < |ws| ==> ws[j].w in FlattenFrom(pt, i, ws)
    decreases |pt.loops| - i
  {
    if i < |pt.loops| {
      FlattenFromFirsts(pt, i + 1, ws[1..]);
      var f := FlattenFrom(pt, i, ws);
      var head := FlattenLoop(pt.loops[i], ws[0]);
      assert f == head + FlattenFrom(pt, i + 1, ws[1..]);
      assert head[0] == ws[0].w;
      forall j | 0 <= j < |ws| ensures ws[j].w in f {
        if j == 0 {
          assert f[0] == head[0];
        } else {
          assert ws[j] == ws[1..][j - 1];
        }
      }
    }
  }

  /* ------------------------------------------------------------------ */
  /* ptelement_extraloop                                                 */
  /* ------------------------------------------------------------------ */

  /** The element generated under `ws` when, in addition, every candidate extra
      loop of `ex` is taken `weight` times: the level's own candidate always
      counts, a loop's candidate only when that loop is active. */
  function ElementExtra(pt: PT, ws: seq<Weight>, ex: Extra): nat
    requires Fits(pt, ws) && ExFits(pt, ex)
  {
    pt.preset + Grown(pt, ws, ex)
  }

  function Grown(pt: PT, ws: seq<Weight>, ex: Extra): nat
    requires Fits(pt, ws) && ExFits(pt, ex)
    decreases pt, 1
  {
    ex.first.len * ex.first.weight + GrownFrom(pt, 0, ws, ex.items)
  }

  function GrownFrom(pt: PT, i: nat, ws: seq<Weight>, items: seq<Extra>): nat
    requires i <= |pt.loops| && FitsFrom(pt, i, ws) && ExFitsFrom(pt, i, items)
    decreases pt, 0, |pt.loops| - i
  {
    if i == |pt.loops| then 0
    else GrownLoop(pt.loops[i], ws[0], items[0]) + GrownFrom(pt, i + 1, ws[1..], items[1..])
  }

  function GrownLoop(l: Loop, w: Weight, x: Extra): nat
    requires LoopFits(l, w) && ExLoopFits(l, x)
    decreases l
  {
    match l
    case Scalar(p) => w.w * p + Gate(w.w) * (x.e.len * x.e.weight)
    case Nested(t) => w.w * t.preset + Gate(w.w) * Grown(t, w.inner, x)
  }

  /** Every candidate in the list adds nothing: its length or its weight is 0. */
  predicate AllInert(s: seq<ELoop>)
  {
    forall k :: 0 <= k < |s| ==> s[k].len == 0 || s[k].weight == 0
  }

  lemma AllInertConcat(a: seq<ELoop>, b: seq<ELoop>)
    ensures AllInert(a + b) <==> AllInert(a) && AllInert(b)
  {
    if AllInert(a + b) {
      forall k | 0 <= k < |a| ensures a[k].len == 0 || a[k].weight == 0 {
        assert (a + b)[k] == a[k];
      }
      forall k | 0 <= k < |b| ensures b[k].len == 0 || b[k].weight == 0 {
        assert (a + b)[|a| + k] == b[k];
      }
    }
    if AllInert(a) && AllInert(b) {
      forall k | 0 <= k < |a + b| ensures (a + b)[k].len == 0 || (a + b)[k].weight == 0 {
        if k < |a| {
          assert (a + b)[k] == a[k];
        } else {
          assert (a + b)[k] == b[k - |a|];
        }
      }
    }
  }

  /** Extra loops of length zero (or weight zero) change nothing: the element is
      the plain `ptelement` under the same weights. */
  lemma InertExtrasKeepElement(pt: PT, ws: seq<Weight>, ex: Extra)
    requires Fits(pt, ws) && ExFits(pt, ex) && AllInert(ExFlatten(pt, ex))
    ensures ElementExtra(pt, ws, ex) == Element(pt, ws)
  {
    InertGrown(pt, ws, ex);
  }

  lemma {:induction false} InertGrown(pt: PT, ws: seq<Weight>, ex: Extra)
    requires Fits(pt, ws) && ExFits(pt, ex) && AllInert(ExFlatten(pt, ex))
    ensures Grown(pt, ws, ex) == LoopSum(pt, ws)
    decreases pt, 1
  {
    AllInertConcat([ex.first], ExFlattenFrom(pt, 0, ex.items));
    assert ex.first == [ex.first][0];
    InertGrownFrom(pt, 0, ws, ex.items);
  }

  lemma {:induction false} InertGrownFrom(pt: PT, i: nat, ws: seq<Weight>, items: seq<Extra>)
    requires i <= |pt.loops| && FitsFrom(pt, i, ws) && ExFitsFrom(pt, i, items)
    requires AllInert(ExFlattenFrom(pt, i, items))
    ensures GrownFrom(pt, i, ws, items) == LoopSumFrom(pt, i, ws)
    decreases pt, 0, |pt.loops| - i
  {
    if i < |pt.loops| {
      AllInertConcat(ExFlattenLoop(pt.loops[i], items[0]), ExFlattenFrom(pt, i + 1, items[1..]));
      if pt.loops[i].Scalar? {
        assert items[0].e == ExFlattenLoop(pt.loops[i], items[0])[0];
      } else {
        InertGrown(pt.loops[i].tree, ws[0].inner, items[0]);
      }
      InertGrownFrom(pt, i + 1, ws[1..], items[1..]);
    }
  }

  /* ------------------------------------------------------------------ */
  /* Total of the extra loops                                            */
  /* ------------------------------------------------------------------ */

  /** What the candidates would add if every one of them counted. */
  function Total(s: seq<ELoop>): nat
  {
    if |s| == 0 then 0 else s[0].len * s[0].weight + Total(s[1..])
  }

  lemma {:induction false} TotalConcat(a: seq<ELoop>, b: seq<ELoop>)
    ensures Total(a + b) == Total(a) + Total(b)
  {
    if |a| > 0 {
      assert (a + b)[1..] == a[1..] + b;
      TotalConcat(a[1..], b);
    } else {
      assert a + b == b;
    }
  }

  /** Every candidate in the list is (0, 0). */
  predicate AllZero(s: seq<ELoop>)
  {
    forall k :: 0 <= k < |s| ==> s[k] == ELoop(0, 0)
  }

  lemma {:induction false} AllZeroTotal(s: seq<ELoop>)
    requires AllZero(s)
    ensures Total(s) == 0
  {
    if |s| > 0 {
      assert AllZero(s[1..]) by {
        forall k | 0 <= k < |s[1..]| ensures s[1..][k] == ELoop(0, 0) {
          assert s[1..][k] == s[k + 1];
        }
      }
      AllZeroTotal(s[1..]);
    }
  }

  /* ------------------------------------------------------------------ */
  /* The expressions posted to the solver                                */
  /* ------------------------------------------------------------------ */

  /** isptelement and growtree call ptelement and ptelement_extraloop on
      solver variables. Python's `min(1, w)` then evaluates `w < 1`, which is
      a constraint object and counts as true, so it returns `w` itself: the
      posted constraint multiplies a subtree by its loop's weight instead of
      gating it. `PostedElement` and `PostedElementExtra` are the posted
      expressions; with every weight 0 or 1 they agree with the gated ones
      (`PostedElementOnBits`, `PostedExtraOnBits`), and on trees without
      nested loops `PostedElement` always does (`PostedFlat`). */
  function PostedElement(pt: PT, ws: seq<Weight>): nat
    requires Fits(pt, ws)
  {
    pt.preset + PostedSum(pt, ws)
  }

  function PostedSum(pt: PT, ws: seq<Weight>): nat
    requires Fits(pt, ws)
    decreases pt, 1
  {
    PostedSumFrom(pt, 0, ws)
  }

  function PostedSumFrom(pt: PT, i: nat, ws: seq<Weight>): nat
    requires i <= |pt.loops| && FitsFrom(pt, i, ws)
    decreases pt, 0, |pt.loops| - i
  {
    if i == |pt.loops| then 0
    else PostedContribution(pt.loops[i], ws[0]) + PostedSumFrom(pt, i + 1, ws[1..])
  }

  function PostedContribution(l: Loop, w: Weight): nat
    requires LoopFits(l, w)
    decreases l
  {
    match l
    case Scalar(p) => w.w * p
    case Nested(t) => w.w * t.preset + w.w * PostedSum(t, w.inner)
  }

  function PostedElementExtra(pt: PT, ws: seq<Weight>, ex: Extra): nat
    requires Fits(pt, ws) && ExFits(pt, ex)
  {
    pt.preset + PostedGrown(pt, ws, ex)
  }

  function PostedGrown(pt: PT, ws: seq<Weight>, ex: Extra): nat
    requires Fits(pt, ws) && ExFits(pt, ex)
    decreases pt, 1
  {
    ex.first.len * ex.first.weight + PostedGrownFrom(pt, 0, ws, ex.items)
  }

  function PostedGrownFrom(pt: PT, i: nat, ws: seq<Weight>, items: seq<Extra>): nat
    requires i <= |pt.loops| && FitsFrom(pt, i, ws) && ExFitsFrom(pt, i, items)
    decreases pt, 0, |pt.loops| - i
  {
    if i == |pt.loops| then 0
    else PostedGrownLoop(pt.loops[i], ws[0], items[0]) + PostedGrownFrom(pt, i + 1, ws[1..], items[1..])
  }

  function PostedGrownLoop(l: Loop, w: Weight, x: Extra): nat
    requires LoopFits(l, w) && ExLoopFits(l, x)
    decreases l
  {
    match l
    case Scalar(p) => w.w * p + w.w * (x.e.len * x.e.weight)
    case Nested(t) => w.w * t.preset + w.w * PostedGrown(t, w.inner, x)
  }

  /** Every entry is 0 or 1. */
  predicate Bits(flat: seq<nat>)
  {
    forall k :: 0 <= k < |flat| ==> flat[k] <= 1
  }

  lemma BitsConcat(a: seq<nat>, b: seq<nat>)
    requires Bits(a + b)
    ensures Bits(a) && Bits(b)
  {
    forall k | 0 <= k < |a| ensures a[k] <= 1 {
      assert (a + b)[k] == a[k];
    }
    forall k | 0 <= k < |b| ensures b[k] <= 1 {
      assert (a + b)[|a| + k] == b[k];
    }
  }

  /** When no weight exceeds 1, `min(1, w)` is `w`, so the posted element is
      the gated one. */
  lemma {:induction false} PostedElementOnBits(pt: PT, ws: seq<Weight>)
    requires Fits(pt, ws) && Bits(Flatten(pt, ws))
    ensures PostedElement(pt, ws) == Element(pt, ws)
    decreases pt, 1
  {
    PostedSumOnBits(pt, 0, ws);
  }

  lemma {:induction false} PostedSumOnBits(pt: PT, i: nat, ws: seq<Weight>)
    requires i <= |pt.loops| && FitsFrom(pt, i, ws) && Bits(FlattenFrom(pt, i, ws))
    ensures PostedSumFrom(pt, i, ws) == LoopSumFrom(pt, i, ws)
    decreases pt, 0, |pt.loops| - i
  {
    if i < |pt.loops| {
      var l := pt.loops[i];
      BitsConcat(FlattenLoop(l, ws[0]), FlattenFrom(pt, i + 1, ws[1..]));
      assert FlattenLoop(l, ws[0])[0] == ws[0].w;
      if l.Nested? {
        BitsConcat([ws[0].w], Flatten(l.tree, ws[0].inner));
        PostedElementOnBits(l.tree, ws[0].inner);
      }
      PostedSumOnBits(pt, i + 1, ws[1..]);
    }
  }

  /** The same for the extra-loop element of growtree. */
  lemma {:induction false} PostedExtraOnBits(pt: PT, ws: seq<Weight>, ex: Extra)
    requires Fits(pt, ws) && ExFits(pt, ex) && Bits(Flatten(pt, ws))
    ensures PostedElementExtra(pt, ws, ex) == ElementExtra(pt, ws, ex)
    decreases pt, 1
  {
    PostedGrownOnBits(pt, 0, ws, ex.items);
  }

  lemma {:induction false} PostedGrownOnBits(pt: PT, i: nat, ws: seq<Weight>, items: seq<Extra>)
    requires i <= |pt.loops| && FitsFrom(pt, i, ws) && ExFitsFrom(pt, i, items)
    requires Bits(FlattenFrom(pt, i, ws))
    ensures PostedGrownFrom(pt, i, ws, items) == GrownFrom(pt, i, ws, items)
    decreases pt, 0, |pt.loops| - i
  {
    if i < |pt.loops| {
      var l := pt.loops[i];
      BitsConcat(FlattenLoop(l, ws[0]), FlattenFrom(pt, i + 1, ws[1..]));
      assert FlattenLoop(l, ws[0])[0] == ws[0].w;
      if l.Nested? {
        BitsConcat([ws[0].w], Flatten(l.tree, ws[0].inner));
        PostedExtraOnBits(l.tree, ws[0].inner, items[0]);
      }
      PostedGrownOnBits(pt, i + 1, ws[1..], items[1..]);
    }
  }

  /** Every loop of the tree is a scalar loop. */
  predicate FlatTree(pt: PT)
  {
    forall j :: 0 <= j < |pt.loops| ==> pt.loops[j].Scalar?
  }

  /** Without nested loops ptelement never reaches `min`, so the posted
      element is the gated one under every weight assignment. */
  lemma PostedFlat(pt: PT, ws: seq<Weight>)
    requires Fits(pt, ws) && FlatTree(pt)
    ensures PostedElement(pt, ws) == Element(pt, ws)
  {
    PostedFlatFrom(pt, 0, ws);
  }

  lemma {:induction false} PostedFlatFrom(pt: PT, i: nat, ws: seq<Weight>)
    requires i <= |pt.loops| && FitsFrom(pt, i, ws) && FlatTree(pt)
    ensures PostedSumFrom(pt, i, ws) == LoopSumFrom(pt, i, ws)
    decreases |pt.loops| - i
  {
    if i < |pt.loops| {
      PostedFlatFrom(pt, i + 1, ws[1..]);
    }
  }

  /** On a scalar loop of period 1 taken twice, a candidate of length 1 and
      weight 1 adds 1 to the gated element and 2 to the posted one. */
  lemma PostedGrowthDiffers()
    ensures var pt := PT(0, [Scalar(1)]);
            var ex := ExTree(ELoop(0, 0), [ExLoop(ELoop(1, 1))]);
            Fits(pt, [Leaf(2)]) && ExFits(pt, ex)
            && ElementExtra(pt, [Leaf(2)], ex) == 3
            && PostedElementExtra(pt, [Leaf(2)], ex) == 4
  {
  }
}
