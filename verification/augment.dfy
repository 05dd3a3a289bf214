/** Augmentation: eloops_simplify and ptaugmented.

    A solution of the growth search fixes, for each level of the tree, one
    candidate extra loop. `Simplify` keeps only the candidates' lengths, and
    `Augment` builds the grown tree from them: a non-zero level candidate
    becomes a new scalar loop of the level, and a non-zero candidate on a
    scalar loop `l` turns that loop into a nested tree with preset `l` and the
    one loop of the candidate's length.

    The source collects a level's loops in a set; `Augment` keeps a sequence,
    the new loop placed first, so a new scalar loop equal to an existing one is
    kept twice. That is not harmless: every search bounds the weights by
    `maxloop`, and two equal loops reach elements that one loop cannot (period
    5 and target 505 need weight 101 on one loop, but 100 and 1 on two).
    `AugmentMerged` is the set-building code as written, and
    `MergeDropsDuplicate` shows the two part ways; the rest of the model grows
    trees with `Augment`, under which the grown tree always generates its
    target (`AugmentGenerates`).
 */
module Augmentation {
  import opened PathTree
  import opened Reshape
  import opened Evaluate
  import opened Membership

  /* ------------------------------------------------------------------ */
  /* eloops_simplify                                                     */
  /* ------------------------------------------------------------------ */

  function Simplify(ex: Extra): Lens
    decreases ex
  {
    match ex
    case ExLoop(e) => LenLoop(e.len)
    case ExTree(first, items) => LenTree(first.len, SimplifyItems(items))
  }

  function SimplifyItems(items: seq<Extra>): (r: seq<Lens>)
    ensures |r| == |items|
    ensures forall k :: 0 <= k < |items| ==> r[k] == Simplify(items[k])
    decreases items
  {
    if |items| == 0 then [] else [Simplify(items[0])] + SimplifyItems(items[1..])
  }

  /** Simplifying keeps the shape of the candidates. */
  lemma {:induction false} SimplifyFits(pt: PT, ex: Extra)
    requires ExFits(pt, ex)
    ensures LensFit(pt, Simplify(ex))
    decreases pt, 1
  {
    SimplifyFitsFrom(pt, 0, ex.items);
  }

  lemma {:induction false} SimplifyFitsFrom(pt: PT, i: nat, items: seq<Extra>)
    requires i <= |pt.loops| && ExFitsFrom(pt, i, items)
    ensures LensFitFrom(pt, i, SimplifyItems(items))
    decreases pt, 0, |pt.loops| - i
  {
    if i < |pt.loops| {
      var s := SimplifyItems(items);
      assert s[1..] == SimplifyItems(items[1..]);
      if pt.loops[i].Nested? {
        SimplifyFits(pt.loops[i].tree, items[0]);
      }
      SimplifyFitsFrom(pt, i + 1, items[1..]);
    }
  }

  /** Candidates with the given lengths and weight zero everywhere. */
  function Unweighted(ls: Lens): (ex: Extra)
    decreases ls
  {
    match ls
    case LenLoop(l) => ExLoop(ELoop(l, 0))
    case LenTree(first, items) => ExTree(ELoop(first, 0), UnweightedItems(items))
  }

  function UnweightedItems(items: seq<Lens>): (r: seq<Extra>)
    ensures |r| == |items|
    ensures forall k :: 0 <= k < |items| ==> r[k] == Unweighted(items[k])
    decreases items
  {
    if |items| == 0 then [] else [Unweighted(items[0])] + UnweightedItems(items[1..])
  }

  /** `Simplify` forgets exactly the weights: giving the lengths back weight
      zero and simplifying again returns the lengths. */
  lemma {:induction false} SimplifyUnweighted(ls: Lens)
    ensures Simplify(Unweighted(ls)) == ls
    decreases ls
  {
    if ls.LenTree? {
      var u := UnweightedItems(ls.items);
      forall k | 0 <= k < |ls.items| ensures SimplifyItems(u)[k] == ls.items[k] {
        SimplifyUnweighted(ls.items[k]);
      }
    }
  }

  lemma {:induction false} UnweightedFits(pt: PT, ls: Lens)
    requires LensFit(pt, ls)
    ensures ExFits(pt, Unweighted(ls)) && AllInert(ExFlatten(pt, Unweighted(ls)))
    decreases pt, 1
  {
    var u := Unweighted(ls);
    UnweightedFitsFrom(pt, 0, ls.items);
    AllInertConcat([u.first], ExFlattenFrom(pt, 0, u.items));
  }

  lemma {:induction false} UnweightedFitsFrom(pt: PT, i: nat, items: seq<Lens>)
    requires i <= |pt.loops| && LensFitFrom(pt, i, items)
    ensures ExFitsFrom(pt, i, UnweightedItems(items))
    ensures AllInert(ExFlattenFrom(pt, i, UnweightedItems(items)))
    decreases pt, 0, |pt.loops| - i
  {
    if i < |pt.loops| {
      var u := UnweightedItems(items);
      assert u[1..] == UnweightedItems(items[1..]);
      UnweightedFitsFrom(pt, i + 1, items[1..]);
      if pt.loops[i].Nested? {
        UnweightedFits(pt.loops[i].tree, items[0]);
      } else {
        assert ExFlattenLoop(pt.loops[i], u[0]) == [u[0].e];
      }
      AllInertConcat(ExFlattenLoop(pt.loops[i], u[0]), ExFlattenFrom(pt, i + 1, u[1..]));
    }
  }

  /* ------------------------------------------------------------------ */
  /* ptaugmented                                                         */
  /* ------------------------------------------------------------------ */

  /** The new loop the level's own candidate adds, if any. */
  function NewLoops(len: nat): seq<Loop>
  {
    if len != 0 then [Scalar(len)] else []
  }

  function Augment(pt: PT, ls: Lens): (r: PT)
    requires LensFit(pt, ls)
    ensures r.preset == pt.preset
    ensures |r.loops| == |NewLoops(ls.first)| + |pt.loops|
    decreases pt, 1
  {
    PT(pt.preset, NewLoops(ls.first) + AugmentFrom(pt, 0, ls.items))
  }

  function AugmentFrom(pt: PT, i: nat, items: seq<Lens>): (r: seq<Loop>)
    requires i <= |pt.loops| && LensFitFrom(pt, i, items)
    ensures |r| == |pt.loops| - i
    decreases pt, 0, |pt.loops| - i
  {
    if i == |pt.loops| then []
    else [AugmentLoop(pt.loops[i], items[0])] + AugmentFrom(pt, i + 1, items[1..])
  }

  function AugmentLoop(l: Loop, x: Lens): Loop
    requires LensLoopFit(l, x)
    decreases l
  {
    match l
    case Scalar(p) => if x.len == 0 then Scalar(p) else Nested(PT(p, [Scalar(x.len)]))
    case Nested(t) => Nested(Augment(t, x))
  }

  /** Lengths that are all zero. */
  predicate ZeroLens(ls: Lens)
    decreases ls
  {
    match ls
    case LenLoop(l) => l == 0
    case LenTree(first, items) => first == 0 && forall k :: 0 <= k < |items| ==> ZeroLens(items[k])
  }

  /** With every extra length zero the tree is rebuilt unchanged. */
  lemma {:induction false} AugmentZero(pt: PT, ls: Lens)
    requires LensFit(pt, ls) && ZeroLens(ls)
    ensures Augment(pt, ls) == pt
    decreases pt, 1
  {
    AugmentFromZero(pt, 0, ls.items);
    assert pt.loops[0..] == pt.loops;
  }

  lemma {:induction false} AugmentFromZero(pt: PT, i: nat, items: seq<Lens>)
    requires i <= |pt.loops| && LensFitFrom(pt, i, items)
    requires forall k :: 0 <= k < |items| ==> ZeroLens(items[k])
    ensures AugmentFrom(pt, i, items) == pt.loops[i..]
    decreases pt, 0, |pt.loops| - i
  {
    if i < |pt.loops| {
      assert ZeroLens(items[0]);
      if pt.loops[i].Nested? {
        AugmentZero(pt.loops[i].tree, items[0]);
      }
      assert forall k :: 0 <= k < |items[1..]| ==> ZeroLens(items[1..][k]) by {
        forall k | 0 <= k < |items[1..]| ensures ZeroLens(items[1..][k]) {
          assert items[1..][k] == items[k + 1];
        }
      }
      AugmentFromZero(pt, i + 1, items[1..]);
      assert pt.loops[i..] == [pt.loops[i]] + pt.loops[i + 1..];
    }
  }

  /** Where each old loop goes. The level's new loop, if any, comes first;
      old loop `i` follows at position `|NewLoops(ls.first)| + i`. A scalar
      loop `l` stays as it is when its candidate length is zero and otherwise
      becomes a nested tree with preset `l` and the single loop of that
      length; a nested tree is augmented by its own candidates. */
  lemma AugmentShape(pt: PT, ls: Lens, i: nat)
    requires LensFit(pt, ls) && i < |pt.loops|
    ensures |ls.items| == |pt.loops|
    ensures Augment(pt, ls).loops[..|NewLoops(ls.first)|] == NewLoops(ls.first)
    ensures pt.loops[i].Scalar? ==> ls.items[i].LenLoop?
    ensures pt.loops[i].Scalar? && ls.items[i].len == 0 ==>
              Augment(pt, ls).loops[|NewLoops(ls.first)| + i] == Scalar(pt.loops[i].period)
    ensures pt.loops[i].Scalar? && ls.items[i].len != 0 ==>
              Augment(pt, ls).loops[|NewLoops(ls.first)| + i]
                == Nested(PT(pt.loops[i].period, [Scalar(ls.items[i].len)]))
    ensures pt.loops[i].Nested? ==>
              LensFit(pt.loops[i].tree, ls.items[i])
              && Augment(pt, ls).loops[|NewLoops(ls.first)| + i] == Nested(Augment(pt.loops[i].tree, ls.items[i]))
  {
    AugmentFromAt(pt, 0, ls.items, i);
    var n := NewLoops(ls.first);
    var r := Augment(pt, ls).loops;
    assert r == n + AugmentFrom(pt, 0, ls.items);
    assert r[|n| + i] == AugmentFrom(pt, 0, ls.items)[i];
  }

  /** Entry `k` of `AugmentFrom(pt, i, items)` is loop `i + k` augmented by
      candidate `k`. */
  lemma {:induction false} AugmentFromAt(pt: PT, i: nat, items: seq<Lens>, k: nat)
    requires i <= |pt.loops| && LensFitFrom(pt, i, items) && i + k < |pt.loops|
    ensures |items| == |pt.loops| - i
    ensures LensLoopFit(pt.loops[i + k], items[k])
    ensures AugmentFrom(pt, i, items)[k] == AugmentLoop(pt.loops[i + k], items[k])
    decreases |pt.loops| - i
  {
    if i + 1 < |pt.loops| {
      AugmentFromAt(pt, i + 1, items[1..], if k == 0 then 0 else k - 1);
    } else {
      assert items[1..] == [];
    }
  }

  /* ------------------------------------------------------------------ */
  /* ptaugmented as written: each level's loops form a set               */
  /* ------------------------------------------------------------------ */

  /** `s.add(l)` on a level's loop set. Two scalar loops are the same set
      member exactly when their periods are equal. Equality of nested trees is
      defined by the PathTree class, which is not part of this model, so a
      nested loop is always added. */
  function SetAdd(s: seq<Loop>, l: Loop): (r: seq<Loop>)
    ensures forall k :: k in r <==> k in s || k == l
    ensures l.Scalar? && l in s ==> r == s
  {
    if l.Scalar? && l in s then s else s + [l]
  }

  /** The set built by adding the loops of `s` in order. */
  function SetOf(s: seq<Loop>): (r: seq<Loop>)
    ensures forall k :: k in r <==> k in s
    ensures |r| <= |s|
  {
    if |s| == 0 then [] else SetAdd(SetOf(s[..|s| - 1]), s[|s| - 1])
  }

  /** No scalar loop occurs twice. */
  predicate ScalarsDistinct(s: seq<Loop>)
  {
    forall j, k :: 0 <= j < k < |s| && s[j].Scalar? ==> s[j] != s[k]
  }

  /** Building the set changes nothing when no scalar loop repeats: the
      sequence and the set then differ only in representation. */
  lemma {:induction false} SetOfDistinct(s: seq<Loop>)
    requires ScalarsDistinct(s)
    ensures SetOf(s) == s
  {
    if |s| > 0 {
      var init := s[..|s| - 1];
      assert ScalarsDistinct(init) by {
        forall j, k | 0 <= j < k < |init| && init[j].Scalar? ensures init[j] != init[k] {
          assert init[j] == s[j] && init[k] == s[k];
        }
      }
      SetOfDistinct(init);
      var last := s[|s| - 1];
      assert init + [last] == s;
    }
  }

  /** ptaugmented as written: each level's loops are collected in a set, so
      a new loop equal to an existing scalar loop of the level is merged into
      it. */
  function AugmentMerged(pt: PT, ls: Lens): (r: PT)
    requires LensFit(pt, ls)
    ensures r.preset == pt.preset
    ensures |r.loops| <= |NewLoops(ls.first)| + |pt.loops|
    decreases pt, 1
  {
    PT(pt.preset, SetOf(NewLoops(ls.first) + AugmentMergedFrom(pt, 0, ls.items)))
  }

  function AugmentMergedFrom(pt: PT, i: nat, items: seq<Lens>): (r: seq<Loop>)
    requires i <= |pt.loops| && LensFitFrom(pt, i, items)
    ensures |r| == |pt.loops| - i
    decreases pt, 0, |pt.loops| - i
  {
    if i == |pt.loops| then []
    else [AugmentMergedLoop(pt.loops[i], items[0])] + AugmentMergedFrom(pt, i + 1, items[1..])
  }

  function AugmentMergedLoop(l: Loop, x: Lens): Loop
    requires LensLoopFit(l, x)
    decreases l
  {
    match l
    case Scalar(p) => if x.len == 0 then Scalar(p) else Nested(PT(p, [Scalar(x.len)]))
    case Nested(t) => Nested(AugmentMerged(t, x))
  }

  /** A repeated scalar loop is merged, so the set is strictly smaller. */
  lemma {:induction false} SetOfShrinks(s: seq<Loop>)
    requires !ScalarsDistinct(s)
    ensures |SetOf(s)| < |s|
  {
    var init := s[..|s| - 1];
    var last := s[|s| - 1];
    var j, k :| 0 <= j < k < |s| && s[j].Scalar? && s[j] == s[k];
    if k < |s| - 1 {
      assert init[j] == s[j] && init[k] == s[k];
      SetOfShrinks(init);
    } else {
      assert init[j] == last;
    }
  }

  /** Building the set leaves the loops as they are exactly when no scalar
      loop repeats. */
  lemma SetOfIdentity(s: seq<Loop>)
    ensures SetOf(s) == s <==> ScalarsDistinct(s)
  {
    if ScalarsDistinct(s) {
      SetOfDistinct(s);
    } else {
      SetOfShrinks(s);
    }
  }

  /** Without nested loops, the merged and the plain rebuilding of loops `i..`
      coincide: both turn a scalar loop into the same scalar or nested loop. */
  lemma {:induction false} FlatMergedFrom(pt: PT, i: nat, items: seq<Lens>)
    requires i <= |pt.loops| && LensFitFrom(pt, i, items)
    requires forall j :: 0 <= j < |pt.loops| ==> pt.loops[j].Scalar?
    ensures AugmentMergedFrom(pt, i, items) == AugmentFrom(pt, i, items)
    decreases |pt.loops| - i
  {
    if i < |pt.loops| {
      assert pt.loops[i].Scalar?;
      FlatMergedFrom(pt, i + 1, items[1..]);
    }
  }

  /** On a tree of scalar loops, the set-building code gives the same tree as
      `Augment` exactly when `Augment`'s result repeats no scalar loop. */
  lemma FlatAugmentAgrees(pt: PT, ls: Lens)
    requires LensFit(pt, ls)
    requires forall j :: 0 <= j < |pt.loops| ==> pt.loops[j].Scalar?
    ensures AugmentMerged(pt, ls) == Augment(pt, ls) <==> ScalarsDistinct(Augment(pt, ls).loops)
  {
    FlatMergedFrom(pt, 0, ls.items);
    SetOfIdentity(Augment(pt, ls).loops);
  }

  /** The two part ways on the smallest input: a scalar loop grown by a new
      loop of its own period. `Augment` keeps both loops; the set keeps one,
      so the tree comes back unchanged. */
  lemma MergeDropsDuplicate(q: nat, p: nat)
    requires p != 0
    ensures Augment(PT(q, [Scalar(p)]), LenTree(p, [LenLoop(0)])) == PT(q, [Scalar(p), Scalar(p)])
    ensures AugmentMerged(PT(q, [Scalar(p)]), LenTree(p, [LenLoop(0)])) == PT(q, [Scalar(p)])
  {
    var pt := PT(q, [Scalar(p)]);
    var ls := LenTree(p, [LenLoop(0)]);
    assert LensFitFrom(pt, 1, []);
    assert LensFit(pt, ls);
    assert AugmentMergedFrom(pt, 0, ls.items) == [Scalar(p)];
    assert AugmentFrom(pt, 0, ls.items) == [Scalar(p)];
    var all := [Scalar(p), Scalar(p)];
    assert SetOf(all[..1]) == [Scalar(p)];
  }

  /* ------------------------------------------------------------------ */
  /* Weights for the grown tree                                          */
  /* ------------------------------------------------------------------ */

  /** The weights under which the grown tree generates what the extra-loop
      evaluation counted: a new loop is taken as often as its candidate says. */
  function AugWeights(pt: PT, ws: seq<Weight>, ex: Extra): seq<Weight>
    requires Fits(pt, ws) && ExFits(pt, ex)
    decreases pt, 1
  {
    (if ex.first.len != 0 then [Leaf(ex.first.weight)] else []) + AugWeightsFrom(pt, 0, ws, ex.items)
  }

  function AugWeightsFrom(pt: PT, i: nat, ws: seq<Weight>, items: seq<Extra>): (r: seq<Weight>)
    requires i <= |pt.loops| && FitsFrom(pt, i, ws) && ExFitsFrom(pt, i, items)
    ensures |r| == |pt.loops| - i
    decreases pt, 0, |pt.loops| - i
  {
    if i == |pt.loops| then []
    else [AugWeightLoop(pt.loops[i], ws[0], items[0])] + AugWeightsFrom(pt, i + 1, ws[1..], items[1..])
  }

  function AugWeightLoop(l: Loop, w: Weight, x: Extra): Weight
    requires LoopFits(l, w) && ExLoopFits(l, x)
    decreases l
  {
    match l
    case Scalar(_) => if x.e.len == 0 then w else Node(w.w, [Leaf(x.e.weight)])
    case Nested(t) => Node(w.w, AugWeights(t, w.inner, x))
  }

  /** Every candidate weight is at most `m`. */
  predicate ExBounded(s: seq<ELoop>, m: nat)
  {
    forall k :: 0 <= k < |s| ==> s[k].weight <= m
  }

  /** The grown tree generates the extra-loop element of the same setting,
      with weights no larger than those of the setting. */
  lemma {:induction false} AugmentGenerates(pt: PT, ws: seq<Weight>, ex: Extra, m: nat)
    requires Fits(pt, ws) && ExFits(pt, ex)
    ensures LensFit(pt, Simplify(ex))
    ensures Fits(Augment(pt, Simplify(ex)), AugWeights(pt, ws, ex))
    ensures Element(Augment(pt, Simplify(ex)), AugWeights(pt, ws, ex)) == ElementExtra(pt, ws, ex)
    ensures Bounded(Flatten(pt, ws), m) && ExBounded(ExFlatten(pt, ex), m)
            ==> Bounded(Flatten(Augment(pt, Simplify(ex)), AugWeights(pt, ws, ex)), m)
    decreases pt, 1
  {
    SimplifyFits(pt, ex);
    var ls := Simplify(ex);
    var a := Augment(pt, ls);
    var body := AugmentFrom(pt, 0, ls.items);
    var bw := AugWeightsFrom(pt, 0, ws, ex.items);
    var head := NewLoops(ls.first);
    var hw: seq<Weight> := if ex.first.len != 0 then [Leaf(ex.first.weight)] else [];
    assert a.loops == head + body;
    AugmentFromGenerates(pt, 0, ws, ex.items, m);
    assert |ExFlatten(pt, ex)| > 0 && ExFlatten(pt, ex)[0] == ex.first;
    var b := PT(pt.preset, body);
    assert b.loops[0..] == a.loops[|head|..];
    assert LoopSumFrom(b, 0, bw) == GrownFrom(pt, 0, ws, ex.items);
    ShiftFrom(b, 0, a, |head|, bw, m);
    if Bounded(Flatten(pt, ws), m) && ExBounded(ExFlatten(pt, ex), m) {
      ExFlattenTail(pt, ex, m);
    }
    if ex.first.len != 0 {
      assert a.loops[0] == Scalar(ex.first.len);
      assert hw + bw == [Leaf(ex.first.weight)] + bw;
      assert ([Leaf(ex.first.weight)] + bw)[1..] == bw;
      assert FitsFrom(a, 0, hw + bw);
      assert LoopSumFrom(a, 0, hw + bw) == ex.first.weight * ex.first.len + LoopSumFrom(a, 1, bw);
      assert ex.first.weight * ex.first.len == ex.first.len * ex.first.weight;
      if Bounded(Flatten(pt, ws), m) && ExBounded(ExFlatten(pt, ex), m) {
        assert ex.first.weight <= m;
        assert FlattenFrom(a, 0, hw + bw) == [ex.first.weight] + FlattenFrom(a, 1, bw);
      }
    } else {
      assert hw + bw == bw;
    }
  }

  /** The part of the extra candidates after the level's own. */
  lemma ExFlattenTail(pt: PT, ex: Extra, m: nat)
    requires ExFits(pt, ex) && ExBounded(ExFlatten(pt, ex), m)
    ensures ExBounded(ExFlattenFrom(pt, 0, ex.items), m)
  {
    var f := ExFlatten(pt, ex);
    assert ExFlattenFrom(pt, 0, ex.items) == f[1..];
  }

  lemma {:induction false} AugmentFromGenerates(pt: PT, i: nat, ws: seq<Weight>, items: seq<Extra>, m: nat)
    requires i <= |pt.loops| && FitsFrom(pt, i, ws) && ExFitsFrom(pt, i, items)
    ensures LensFitFrom(pt, i, SimplifyItems(items))
    ensures var b := PT(pt.preset, AugmentFrom(pt, i, SimplifyItems(items)));
            var bw := AugWeightsFrom(pt, i, ws, items);
            FitsFrom(b, 0, bw) && LoopSumFrom(b, 0, bw) == GrownFrom(pt, i, ws, items)
            && (Bounded(FlattenFrom(pt, i, ws), m) && ExBounded(ExFlattenFrom(pt, i, items), m)
                ==> Bounded(FlattenFrom(b, 0, bw), m))
    decreases pt, 0, |pt.loops| - i
  {
    SimplifyFitsFrom(pt, i, items);
    if i < |pt.loops| {
      var ls := SimplifyItems(items);
      assert ls[1..] == SimplifyItems(items[1..]);
      var l := pt.loops[i];
      var al := AugmentLoop(l, ls[0]);
      var aw := AugWeightLoop(l, ws[0], items[0]);
      AugmentFromGenerates(pt, i + 1, ws[1..], items[1..], m);
      AugmentLoopGenerates(l, ws[0], items[0], m);
      var rest := AugmentFrom(pt, i + 1, ls[1..]);
      var rw := AugWeightsFrom(pt, i + 1, ws[1..], items[1..]);
      var b := PT(pt.preset, [al] + rest);
      var c := PT(pt.preset, rest);
      assert b.loops[1..] == c.loops[0..];
      ShiftFrom(c, 0, b, 1, rw, m);
      assert ([aw] + rw)[0] == aw && ([aw] + rw)[1..] == rw;
      assert FitsFrom(b, 0, [aw] + rw);
      assert LoopSumFrom(b, 0, [aw] + rw) == Contribution(al, aw) + LoopSumFrom(b, 1, rw);
      if Bounded(FlattenFrom(pt, i, ws), m) && ExBounded(ExFlattenFrom(pt, i, items), m) {
        var fl := FlattenLoop(l, ws[0]);
        var fr := FlattenFrom(pt, i + 1, ws[1..]);
        assert FlattenFrom(pt, i, ws) == fl + fr;
        BoundedConcat(fl, fr, m);
        var el := ExFlattenLoop(l, items[0]);
        var er := ExFlattenFrom(pt, i + 1, items[1..]);
        assert ExFlattenFrom(pt, i, items) == el + er;
        ExBoundedConcat(el, er, m);
        assert FlattenFrom(b, 0, [aw] + rw) == FlattenLoop(al, aw) + FlattenFrom(b, 1, rw);
        BoundedJoin(FlattenLoop(al, aw), FlattenFrom(b, 1, rw), m);
      }
    }
  }

  lemma {:induction false} AugmentLoopGenerates(l: Loop, w: Weight, x: Extra, m: nat)
    requires LoopFits(l, w) && ExLoopFits(l, x)
    ensures LensLoopFit(l, Simplify(x))
    ensures LoopFits(AugmentLoop(l, Simplify(x)), AugWeightLoop(l, w, x))
    ensures Contribution(AugmentLoop(l, Simplify(x)), AugWeightLoop(l, w, x)) == GrownLoop(l, w, x)
    ensures Bounded(FlattenLoop(l, w), m) && ExBounded(ExFlattenLoop(l, x), m)
            ==> Bounded(FlattenLoop(AugmentLoop(l, Simplify(x)), AugWeightLoop(l, w, x)), m)
    decreases l
  {
    match l
    case Scalar(p) =>
      if x.e.len != 0 {
        var t := PT(p, [Scalar(x.e.len)]);
        var iw := [Leaf(x.e.weight)];
        assert iw[1..] == [];
        assert FitsFrom(t, 1, iw[1..]);
        assert Fits(t, iw);
        assert LoopSumFrom(t, 1, iw[1..]) == 0;
        assert LoopSum(t, iw) == Contribution(Scalar(x.e.len), iw[0]) + LoopSumFrom(t, 1, iw[1..]);
        assert LoopSum(t, iw) == x.e.weight * x.e.len;
        assert x.e.weight * x.e.len == x.e.len * x.e.weight;
        if Bounded(FlattenLoop(l, w), m) && ExBounded(ExFlattenLoop(l, x), m) {
          assert FlattenLoop(l, w) == [w.w] && FlattenLoop(l, w)[0] == w.w;
          assert ExFlattenLoop(l, x) == [x.e] && ExFlattenLoop(l, x)[0] == x.e;
          assert w.w <= m && x.e.weight <= m;
          assert FlattenFrom(t, 1, iw[1..]) == [];
          assert Flatten(t, iw) == FlattenLoop(Scalar(x.e.len), iw[0]) + FlattenFrom(t, 1, iw[1..]);
          assert FlattenLoop(Nested(t), Node(w.w, iw)) == [w.w] + [x.e.weight];
        }
      }
    case Nested(t) =>
      AugmentGenerates(t, w.inner, x, m);
      if Bounded(FlattenLoop(l, w), m) && ExBounded(ExFlattenLoop(l, x), m) {
        assert FlattenLoop(l, w) == [w.w] + Flatten(t, w.inner);
        BoundedConcat([w.w], Flatten(t, w.inner), m);
      }
  }

  /** The evaluation of loops `i..` depends on those loops alone. */
  lemma {:induction false} ShiftFrom(a: PT, i: nat, b: PT, k: nat, ws: seq<Weight>, m: nat)
    requires i <= |a.loops| && k <= |b.loops| && a.loops[i..] == b.loops[k..]
    requires FitsFrom(a, i, ws)
    ensures FitsFrom(b, k, ws) && LoopSumFrom(b, k, ws) == LoopSumFrom(a, i, ws)
    ensures FlattenFrom(b, k, ws) == FlattenFrom(a, i, ws)
    decreases |a.loops| - i
  {
    if i < |a.loops| {
      assert a.loops[i] == a.loops[i..][0] == b.loops[k..][0] == b.loops[k];
      assert a.loops[i + 1..] == a.loops[i..][1..] == b.loops[k..][1..] == b.loops[k + 1..];
      ShiftFrom(a, i + 1, b, k + 1, ws[1..], m);
    } else {
      assert |b.loops[k..]| == 0;
    }
  }

  lemma BoundedConcat(a: seq<nat>, b: seq<nat>, m: nat)
    requires Bounded(a + b, m)
    ensures Bounded(a, m) && Bounded(b, m)
  {
    forall k | 0 <= k < |a| ensures a[k] <= m {
      assert a[k] == (a + b)[k];
    }
    forall k | 0 <= k < |b| ensures b[k] <= m {
      assert b[k] == (a + b)[|a| + k];
    }
  }

  lemma BoundedJoin(a: seq<nat>, b: seq<nat>, m: nat)
    requires Bounded(a, m) && Bounded(b, m)
    ensures Bounded(a + b, m)
  {
  }

  lemma ExBoundedConcat(a: seq<ELoop>, b: seq<ELoop>, m: nat)
    requires ExBounded(a + b, m)
    ensures ExBounded(a, m) && ExBounded(b, m)
  {
    forall k | 0 <= k < |a| ensures a[k].weight <= m {
      assert a[k] == (a + b)[k];
    }
    forall k | 0 <= k < |b| ensures b[k].weight <= m {
      assert b[k] == (a + b)[|a| + k];
    }
  }

  /* ------------------------------------------------------------------ */
  /* Growth keeps every element                                          */
  /* ------------------------------------------------------------------ */

  /** Augmenting never loses an element: the new loops can be left at weight
      zero. */
  lemma AugmentKeepsElements(pt: PT, ls: Lens, x: nat, maxloop: nat)
    requires LensFit(pt, ls) && IsPtElement(pt, x, maxloop)
    ensures IsPtElement(Augment(pt, ls), x, maxloop)
  {
    GeneratesByWeights(pt, x, maxloop);
    var ws :| Fits(pt, ws) && Bounded(Flatten(pt, ws), maxloop) && Element(pt, ws) == x;
    var ex := Unweighted(ls);
    UnweightedFits(pt, ls);
    SimplifyUnweighted(ls);
    InertExtrasKeepElement(pt, ws, ex);
    var f := ExFlatten(pt, ex);
    assert ExBounded(f, maxloop) by {
      forall k | 0 <= k < |f| ensures f[k].weight <= maxloop {
        assert f[k].len == 0 || f[k].weight == 0;
        UnweightedZero(pt, ls, k);
      }
    }
    AugmentGenerates(pt, ws, ex, maxloop);
    WeightsWitness(Augment(pt, ls), AugWeights(pt, ws, ex), maxloop);
  }

  lemma UnweightedZero(pt: PT, ls: Lens, k: nat)
    requires LensFit(pt, ls) && ExFits(pt, Unweighted(ls)) && k < |ExFlatten(pt, Unweighted(ls))|
    ensures ExFlatten(pt, Unweighted(ls))[k].weight == 0
  {
    UnweightedWeightsZero(pt, ls);
  }

  lemma {:induction false} UnweightedWeightsZero(pt: PT, ls: Lens)
    requires LensFit(pt, ls) && ExFits(pt, Unweighted(ls))
    ensures forall k :: 0 <= k < |ExFlatten(pt, Unweighted(ls))| ==> ExFlatten(pt, Unweighted(ls))[k].weight == 0
    decreases pt, 1
  {
    var u := Unweighted(ls);
    UnweightedWeightsZeroFrom(pt, 0, ls.items);
    assert ExFlatten(pt, u) == [u.first] + ExFlattenFrom(pt, 0, u.items);
  }

  lemma {:induction false} UnweightedWeightsZeroFrom(pt: PT, i: nat, items: seq<Lens>)
    requires i <= |pt.loops| && LensFitFrom(pt, i, items) && ExFitsFrom(pt, i, UnweightedItems(items))
    ensures forall k :: 0 <= k < |ExFlattenFrom(pt, i, UnweightedItems(items))|
              ==> ExFlattenFrom(pt, i, UnweightedItems(items))[k].weight == 0
    decreases pt, 0, |pt.loops| - i
  {
    if i < |pt.loops| {
      var u := UnweightedItems(items);
      assert u[1..] == UnweightedItems(items[1..]);
      UnweightedWeightsZeroFrom(pt, i + 1, items[1..]);
      var hd := ExFlattenLoop(pt.loops[i], u[0]);
      var tl := ExFlattenFrom(pt, i + 1, u[1..]);
      if pt.loops[i].Nested? {
        UnweightedWeightsZero(pt.loops[i].tree, items[0]);
        assert hd == ExFlatten(pt.loops[i].tree, Unweighted(items[0]));
      } else {
        assert items[0].LenLoop?;
        assert u[0] == ExLoop(ELoop(items[0].len, 0));
        assert hd == [u[0].e];
      }
      assert forall k :: 0 <= k < |hd| ==> hd[k].weight == 0;
      assert forall k :: 0 <= k < |tl| ==> tl[k].weight == 0;
      assert ExFlattenFrom(pt, i, u) == hd + tl;
      var both: seq<ELoop> := hd + tl;
      forall k | 0 <= k < |both| ensures both[k].weight == 0 {
        if k < |hd| {
          assert (hd + tl)[k] == hd[k];
        } else {
          assert (hd + tl)[k] == tl[k - |hd|];
        }
      }
    }
  }
}
