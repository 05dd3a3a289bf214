/** Reshaping flat search vectors into the nested shape of a tree
    (weights_pt, extraloops_pt), and the inverse flattening.

    The source shares a one-element list as a mutable cursor between recursive
    calls; here the cursor is an explicit index that every call takes and
    returns. Loops are visited in pre-order: a nested loop's own entry comes
    before the entries of the loops inside it.
 */
module Reshape {
  import opened PathTree

  /** Weights read from a flat vector, with the cursor after them. */
  datatype WeightsRead = WeightsRead(ws: seq<Weight>, next: nat)

  /** Candidates of one level, with the cursor on the last one read. */
  datatype ExtraRead = ExtraRead(ex: Extra, lastRead: nat)

  /** Candidates of loops `i..` of a level, with the cursor on the last one read. */
  datatype ItemsRead = ItemsRead(xs: seq<Extra>, lastItem: nat)

  /* ------------------------------------------------------------------ */
  /* Weights                                                             */
  /* ------------------------------------------------------------------ */

  /** Pre-order flattening of nested weights: the inverse of `WeightsPt`. */
  function Flatten(pt: PT, ws: seq<Weight>): (flat: seq<nat>)
    requires Fits(pt, ws)
    ensures |flat| == LoopNum(pt)
    decreases pt, 1
  {
    FlattenFrom(pt, 0, ws)
  }

  function FlattenFrom(pt: PT, i: nat, ws: seq<Weight>): (flat: seq<nat>)
    requires i <= |pt.loops| && FitsFrom(pt, i, ws)
    ensures |flat| == LoopNumFrom(pt, i)
    decreases pt, 0, |pt.loops| - i
  {
    if i == |pt.loops| then []
    else FlattenLoop(pt.loops[i], ws[0]) + FlattenFrom(pt, i + 1, ws[1..])
  }

  function FlattenLoop(l: Loop, w: Weight): (flat: seq<nat>)
    requires LoopFits(l, w)
    ensures |flat| == LoopNumOf(l)
    decreases l
  {
    match l
    case Scalar(_) => [w.w]
    case Nested(t) => [w.w] + Flatten(t, w.inner)
  }

  /** weights_pt: reads `LoopNum(pt)` entries of `flat` starting at cursor `c`
      and returns them in the shape of `pt`, with the advanced cursor. */
  function Crawl(pt: PT, flat: seq<nat>, c: nat): (res: WeightsRead)
    requires c + LoopNum(pt) <= |flat|
    ensures res.next == c + LoopNum(pt)
    ensures Fits(pt, res.ws)
    ensures Flatten(pt, res.ws) == flat[c..c + LoopNum(pt)]
    decreases pt, 1
  {
    CrawlFrom(pt, 0, flat, c)
  }

  function CrawlFrom(pt: PT, i: nat, flat: seq<nat>, c: nat): (res: WeightsRead)
    requires i <= |pt.loops| && c + LoopNumFrom(pt, i) <= |flat|
    ensures res.next == c + LoopNumFrom(pt, i)
    ensures FitsFrom(pt, i, res.ws)
    ensures FlattenFrom(pt, i, res.ws) == flat[c..c + LoopNumFrom(pt, i)]
    decreases pt, 0, |pt.loops| - i, 1
  {
    if i == |pt.loops| then WeightsRead([], c)
    else if pt.loops[i].Scalar? then CrawlScalar(pt, i, flat, c)
    else CrawlNested(pt, i, flat, c)
  }

  /** A scalar loop takes the weight under the cursor. */
  function CrawlScalar(pt: PT, i: nat, flat: seq<nat>, c: nat): (res: WeightsRead)
    requires i < |pt.loops| && pt.loops[i].Scalar? && c + LoopNumFrom(pt, i) <= |flat|
    ensures res.next == c + LoopNumFrom(pt, i)
    ensures FitsFrom(pt, i, res.ws)
    ensures FlattenFrom(pt, i, res.ws) == flat[c..c + LoopNumFrom(pt, i)]
    decreases pt, 0, |pt.loops| - i, 0
  {
    var rest := CrawlFrom(pt, i + 1, flat, c + 1);
    ConsFlatten(pt, i, Leaf(flat[c]), rest.ws);
    assert flat[c..rest.next] == flat[c..c + 1] + flat[c + 1..rest.next];
    WeightsRead([Leaf(flat[c])] + rest.ws, rest.next)
  }

  /** A nested loop takes the weight under the cursor and then reads its tree. */
  function CrawlNested(pt: PT, i: nat, flat: seq<nat>, c: nat): (res: WeightsRead)
    requires i < |pt.loops| && pt.loops[i].Nested? && c + LoopNumFrom(pt, i) <= |flat|
    ensures res.next == c + LoopNumFrom(pt, i)
    ensures FitsFrom(pt, i, res.ws)
    ensures FlattenFrom(pt, i, res.ws) == flat[c..c + LoopNumFrom(pt, i)]
    decreases pt, 0, |pt.loops| - i, 0
  {
    var t := pt.loops[i].tree;
    assert LoopNumFrom(pt, i) == 1 + LoopNum(t) + LoopNumFrom(pt, i + 1);
    var sub := Crawl(t, flat, c + 1);
    var rest := CrawlFrom(pt, i + 1, flat, sub.next);
    ConsFlatten(pt, i, Node(flat[c], sub.ws), rest.ws);
    assert flat[c + 1..rest.next] == flat[c + 1..sub.next] + flat[sub.next..rest.next];
    assert flat[c..rest.next] == flat[c..c + 1] + flat[c + 1..rest.next];
    WeightsRead([Node(flat[c], sub.ws)] + rest.ws, rest.next)
  }

  /** Unfolds `FitsFrom` and `FlattenFrom` one loop. */
  lemma ConsFlatten(pt: PT, i: nat, w: Weight, rest: seq<Weight>)
    requires i < |pt.loops| && LoopFits(pt.loops[i], w) && FitsFrom(pt, i + 1, rest)
    ensures FitsFrom(pt, i, [w] + rest)
    ensures FlattenFrom(pt, i, [w] + rest) == FlattenLoop(pt.loops[i], w) + FlattenFrom(pt, i + 1, rest)
  {
    assert ([w] + rest)[0] == w && ([w] + rest)[1..] == rest;
  }

  /** weights_pt(pt, weights): the whole vector read from position 0. */
  function WeightsPt(pt: PT, flat: seq<nat>): (ws: seq<Weight>)
    requires LoopNum(pt) <= |flat|
    ensures Fits(pt, ws)
    ensures Flatten(pt, ws) == flat[..LoopNum(pt)]
  {
    Crawl(pt, flat, 0).ws
  }

  /** Reading back a flattened weight vector gives the weights again, wherever
      it sits in the input. */
  lemma CrawlFlatten(pt: PT, ws: seq<Weight>, flat: seq<nat>, c: nat)
    requires Fits(pt, ws)
    requires c + LoopNum(pt) <= |flat| && flat[c..c + LoopNum(pt)] == Flatten(pt, ws)
    ensures Crawl(pt, flat, c).ws == ws
  {
    FlattenInjective(pt, Crawl(pt, flat, c).ws, ws);
  }

  /** Weights shaped like `pt` are determined by their flattening. */
  lemma {:induction false} FlattenInjective(pt: PT, a: seq<Weight>, b: seq<Weight>)
    requires Fits(pt, a) && Fits(pt, b) && Flatten(pt, a) == Flatten(pt, b)
    ensures a == b
    decreases pt, 1
  {
    FlattenFromInjective(pt, 0, a, b);
  }

  lemma {:induction false} FlattenFromInjective(pt: PT, i: nat, a: seq<Weight>, b: seq<Weight>)
    requires i <= |pt.loops| && FitsFrom(pt, i, a) && FitsFrom(pt, i, b)
    requires FlattenFrom(pt, i, a) == FlattenFrom(pt, i, b)
    ensures a == b
    decreases pt, 0, |pt.loops| - i
  {
    if i < |pt.loops| {
      var l := pt.loops[i];
      var fa, fb := FlattenLoop(l, a[0]), FlattenLoop(l, b[0]);
      var ra, rb := FlattenFrom(pt, i + 1, a[1..]), FlattenFrom(pt, i + 1, b[1..]);
      assert fa + ra == fb + rb && |fa| == |fb|;
      assert fa == (fa + ra)[..|fa|] && fb == (fb + rb)[..|fb|];
      assert ra == (fa + ra)[|fa|..] && rb == (fb + rb)[|fb|..];
      if l.Nested? {
        assert a[0].w == fa[0] && b[0].w == fb[0];
        assert Flatten(l.tree, a[0].inner) == fa[1..] && Flatten(l.tree, b[0].inner) == fb[1..];
        FlattenInjective(l.tree, a[0].inner, b[0].inner);
      } else {
        assert [a[0].w] == [b[0].w];
      }
      FlattenFromInjective(pt, i + 1, a[1..], b[1..]);
      assert a == [a[0]] + a[1..] && b == [b[0]] + b[1..];
    }
  }

  /** The two round trips between flat vectors of length `LoopNum(pt)` and
      weights shaped like `pt`. */
  lemma WeightsRoundTrip(pt: PT, ws: seq<Weight>, flat: seq<nat>)
    ensures Fits(pt, ws) ==> WeightsPt(pt, Flatten(pt, ws)) == ws
    ensures |flat| == LoopNum(pt) ==> Flatten(pt, WeightsPt(pt, flat)) == flat
  {
    if Fits(pt, ws) {
      var f := Flatten(pt, ws);
      assert f[0..LoopNum(pt)] == f;
      CrawlFlatten(pt, ws, f, 0);
    }
    if |flat| == LoopNum(pt) {
      assert flat[..LoopNum(pt)] == flat;
    }
  }

  /* ------------------------------------------------------------------ */
  /* Extra loops                                                         */
  /* ------------------------------------------------------------------ */

  /** Pre-order flattening of extra-loop candidates: the level's own candidate
      first, then one entry per scalar loop and a sub-flattening per nested
      loop. The inverse of `ExtraloopsPt`. */
  function ExFlatten(pt: PT, ex: Extra): (flat: seq<ELoop>)
    requires ExFits(pt, ex)
    ensures |flat| == LoopNum(pt) + 1
    decreases pt, 1
  {
    [ex.first] + ExFlattenFrom(pt, 0, ex.items)
  }

  function ExFlattenFrom(pt: PT, i: nat, items: seq<Extra>): (flat: seq<ELoop>)
    requires i <= |pt.loops| && ExFitsFrom(pt, i, items)
    ensures |flat| == LoopNumFrom(pt, i)
    decreases pt, 0, |pt.loops| - i
  {
    if i == |pt.loops| then []
    else ExFlattenLoop(pt.loops[i], items[0]) + ExFlattenFrom(pt, i + 1, items[1..])
  }

  function ExFlattenLoop(l: Loop, x: Extra): (flat: seq<ELoop>)
    requires ExLoopFits(l, x)
    ensures |flat| == LoopNumOf(l)
    decreases l
  {
    match l
    case Scalar(_) => [x.e]
    case Nested(t) => ExFlatten(t, x)
  }

  /** extraloops_pt: the candidate at cursor `c` belongs to the level of `pt`;
      each loop then advances the cursor by one and takes the candidate there,
      a nested loop's being the first candidate of its own level. Reads
      `LoopNum(pt) + 1` candidates and returns the cursor of the last one read. */
  function ExCrawl(pt: PT, l: seq<ELoop>, c: nat): (res: ExtraRead)
    requires c + LoopNum(pt) + 1 <= |l|
    ensures res.lastRead == c + LoopNum(pt)
    ensures ExFits(pt, res.ex)
    ensures ExFlatten(pt, res.ex) == l[c..c + LoopNum(pt) + 1]
    decreases pt, 1
  {
    var rest := ExCrawlFrom(pt, 0, l, c);
    assert l[c..rest.lastItem + 1] == [l[c]] + l[c + 1..rest.lastItem + 1];
    ExtraRead(ExTree(l[c], rest.xs), rest.lastItem)
  }

  /** Loops `i..` of `pt`, with cursor `c` on the candidate read last. */
  function ExCrawlFrom(pt: PT, i: nat, l: seq<ELoop>, c: nat): (res: ItemsRead)
    requires i <= |pt.loops| && c + LoopNumFrom(pt, i) + 1 <= |l|
    ensures res.lastItem == c + LoopNumFrom(pt, i)
    ensures ExFitsFrom(pt, i, res.xs)
    ensures ExFlattenFrom(pt, i, res.xs) == l[c + 1..c + LoopNumFrom(pt, i) + 1]
    decreases pt, 0, |pt.loops| - i, 1
  {
    if i == |pt.loops| then ItemsRead([], c)
    else if pt.loops[i].Scalar? then ExCrawlScalar(pt, i, l, c)
    else ExCrawlNested(pt, i, l, c)
  }

  /** A scalar loop takes the next candidate. */
  function ExCrawlScalar(pt: PT, i: nat, l: seq<ELoop>, c: nat): (res: ItemsRead)
    requires i < |pt.loops| && pt.loops[i].Scalar? && c + LoopNumFrom(pt, i) + 1 <= |l|
    ensures res.lastItem == c + LoopNumFrom(pt, i)
    ensures ExFitsFrom(pt, i, res.xs)
    ensures ExFlattenFrom(pt, i, res.xs) == l[c + 1..c + LoopNumFrom(pt, i) + 1]
    decreases pt, 0, |pt.loops| - i, 0
  {
    var rest := ExCrawlFrom(pt, i + 1, l, c + 1);
    ExConsFlatten(pt, i, ExLoop(l[c + 1]), rest.xs);
    assert l[c + 1..rest.lastItem + 1] == l[c + 1..c + 2] + l[c + 2..rest.lastItem + 1];
    ItemsRead([ExLoop(l[c + 1])] + rest.xs, rest.lastItem)
  }

  /** A nested loop reads its whole tree, starting with the next candidate. */
  function ExCrawlNested(pt: PT, i: nat, l: seq<ELoop>, c: nat): (res: ItemsRead)
    requires i < |pt.loops| && pt.loops[i].Nested? && c + LoopNumFrom(pt, i) + 1 <= |l|
    ensures res.lastItem == c + LoopNumFrom(pt, i)
    ensures ExFitsFrom(pt, i, res.xs)
    ensures ExFlattenFrom(pt, i, res.xs) == l[c + 1..c + LoopNumFrom(pt, i) + 1]
    decreases pt, 0, |pt.loops| - i, 0
  {
    var t := pt.loops[i].tree;
    assert LoopNumFrom(pt, i) == 1 + LoopNum(t) + LoopNumFrom(pt, i + 1);
    var sub := ExCrawl(t, l, c + 1);
    var rest := ExCrawlFrom(pt, i + 1, l, sub.lastRead);
    ExConsFlatten(pt, i, sub.ex, rest.xs);
    assert l[c + 1..rest.lastItem + 1] == l[c + 1..sub.lastRead + 1] + l[sub.lastRead + 1..rest.lastItem + 1];
    ItemsRead([sub.ex] + rest.xs, rest.lastItem)
  }

  /** Unfolds `ExFitsFrom` and `ExFlattenFrom` one loop. */
  lemma ExConsFlatten(pt: PT, i: nat, x: Extra, rest: seq<Extra>)
    requires i < |pt.loops| && ExLoopFits(pt.loops[i], x) && ExFitsFrom(pt, i + 1, rest)
    ensures ExFitsFrom(pt, i, [x] + rest)
    ensures ExFlattenFrom(pt, i, [x] + rest) == ExFlattenLoop(pt.loops[i], x) + ExFlattenFrom(pt, i + 1, rest)
  {
    assert ([x] + rest)[0] == x && ([x] + rest)[1..] == rest;
  }

  /** extraloops_pt(pt, loops): all candidates read from position 0. */
  function ExtraloopsPt(pt: PT, l: seq<ELoop>): (ex: Extra)
    requires LoopNum(pt) + 1 <= |l|
    ensures ExFits(pt, ex)
    ensures ExFlatten(pt, ex) == l[..LoopNum(pt) + 1]
  {
    ExCrawl(pt, l, 0).ex
  }

  lemma ExCrawlFlatten(pt: PT, ex: Extra, l: seq<ELoop>, c: nat)
    requires ExFits(pt, ex)
    requires c + LoopNum(pt) + 1 <= |l| && l[c..c + LoopNum(pt) + 1] == ExFlatten(pt, ex)
    ensures ExCrawl(pt, l, c).ex == ex
  {
    ExFlattenInjective(pt, ExCrawl(pt, l, c).ex, ex);
  }

  /** Candidates shaped like `pt` are determined by their flattening. */
  lemma {:induction false} ExFlattenInjective(pt: PT, a: Extra, b: Extra)
    requires ExFits(pt, a) && ExFits(pt, b) && ExFlatten(pt, a) == ExFlatten(pt, b)
    ensures a == b
    decreases pt, 1
  {
    var fa, fb := ExFlatten(pt, a), ExFlatten(pt, b);
    assert a.first == fa[0] && b.first == fb[0];
    assert ExFlattenFrom(pt, 0, a.items) == fa[1..] && ExFlattenFrom(pt, 0, b.items) == fb[1..];
    ExFlattenFromInjective(pt, 0, a.items, b.items);
  }

  lemma {:induction false} ExFlattenFromInjective(pt: PT, i: nat, a: seq<Extra>, b: seq<Extra>)
    requires i <= |pt.loops| && ExFitsFrom(pt, i, a) && ExFitsFrom(pt, i, b)
    requires ExFlattenFrom(pt, i, a) == ExFlattenFrom(pt, i, b)
    ensures a == b
    decreases pt, 0, |pt.loops| - i
  {
    if i < |pt.loops| {
      var l := pt.loops[i];
      var fa, fb := ExFlattenLoop(l, a[0]), ExFlattenLoop(l, b[0]);
      var ra, rb := ExFlattenFrom(pt, i + 1, a[1..]), ExFlattenFrom(pt, i + 1, b[1..]);
      assert fa + ra == fb + rb && |fa| == |fb|;
      assert fa == (fa + ra)[..|fa|] && fb == (fb + rb)[..|fb|];
      assert ra == (fa + ra)[|fa|..] && rb == (fb + rb)[|fb|..];
      if l.Nested? {
        ExFlattenInjective(l.tree, a[0], b[0]);
      } else {
        assert [a[0].e] == [b[0].e];
      }
      ExFlattenFromInjective(pt, i + 1, a[1..], b[1..]);
      assert a == [a[0]] + a[1..] && b == [b[0]] + b[1..];
    }
  }

  /** The two round trips between candidate lists of length `LoopNum(pt) + 1`
      and candidates shaped like `pt`. */
  lemma ExtraloopsRoundTrip(pt: PT, ex: Extra, l: seq<ELoop>)
    ensures ExFits(pt, ex) ==> ExtraloopsPt(pt, ExFlatten(pt, ex)) == ex
    ensures |l| == LoopNum(pt) + 1 ==> ExFlatten(pt, ExtraloopsPt(pt, l)) == l
  {
    if ExFits(pt, ex) {
      var f := ExFlatten(pt, ex);
      assert f[0..LoopNum(pt) + 1] == f;
      ExCrawlFlatten(pt, ex, f, 0);
    }
    if |l| == LoopNum(pt) + 1 {
      assert l[..LoopNum(pt) + 1] == l;
    }
  }
}
