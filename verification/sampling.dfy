/** Sampling the elements of a tree or of a set of trees: pt2seq, s2spt,
    issptelement and spt_elements.

    The source scans `0, 1, 2, ...` until it has found `num` elements, which
    never ends when fewer than `num` exist. Here the scan stops at `fuel`
    and then reports that it did not find enough.
 */
module Sampling {
  import opened PathTree
  import opened Reshape
  import opened Evaluate
  import opened Membership

  /* ------------------------------------------------------------------ */
  /* The upward scan                                                     */
  /* ------------------------------------------------------------------ */

  predicate Increasing(s: seq<nat>)
  {
    forall i, j :: 0 <= i < j < |s| ==> s[i] < s[j]
  }

  /** The numbers below `n` that satisfy `pred`, ascending. */
  function Hits(pred: nat -> bool, n: nat): (s: seq<nat>)
    ensures Increasing(s)
    ensures forall k :: 0 <= k < |s| ==> s[k] < n && pred(s[k])
    ensures forall x: nat :: x < n && pred(x) ==> x in s
  {
    if n == 0 then []
    else
      var s := Hits(pred, n - 1);
      if pred(n - 1) then s + [n - 1] else s
  }

  /** Scan upward from 0 and collect the first `num` numbers satisfying
      `pred`, giving up once `fuel` numbers have been tried. */
  method ScanUp(pred: nat -> bool, num: nat, fuel: nat) returns (r: Option<seq<nat>>)
    ensures r.Some? ==> |r.value| == num && Increasing(r.value)
    ensures r.Some? ==> forall k :: 0 <= k < |r.value| ==> pred(r.value[k])
    ensures r.Some? && num > 0 ==> forall x :: x <= r.value[num - 1] && pred(x) ==> x in r.value
    ensures r.None? <==> |Hits(pred, fuel)| < num
  {
    var s: seq<nat> := [];
    var i: nat := 0;
    while |s| < num && i < fuel
      invariant i <= fuel && |s| <= num
      invariant s == Hits(pred, i)
      decreases fuel - i
    {
      if pred(i) {
        s := s + [i];
      }
      i := i + 1;
    }
    if |s| < num {
      HitsGrow(pred, i, fuel);
      r := None;
    } else {
      HitsGrow(pred, i, fuel);
      r := Some(s);
    }
  }

  /** Scanning further never finds fewer numbers. */
  lemma {:induction false} HitsGrow(pred: nat -> bool, a: nat, b: nat)
    requires a <= b
    ensures |Hits(pred, a)| <= |Hits(pred, b)|
    ensures Hits(pred, a) == Hits(pred, b)[..|Hits(pred, a)|]
    decreases b - a
  {
    if a < b {
      HitsGrow(pred, a, b - 1);
    }
  }

  /* ------------------------------------------------------------------ */
  /* pt2seq                                                              */
  /* ------------------------------------------------------------------ */

  /** pt2seq: a loop-free tree gives its preset alone; otherwise the `num`
      smallest elements, searching weights up to `10 * num`. */
  method Pt2Seq(pt: PT, num: nat, fuel: nat) returns (r: Option<seq<nat>>)
    ensures |pt.loops| == 0 ==> r.Some? && forall x :: x in r.value <==> IsPtElement(pt, x, 10 * num)
    ensures r.Some? ==> Increasing(r.value) && forall k :: 0 <= k < |r.value| ==> IsPtElement(pt, r.value[k], 10 * num)
    ensures |pt.loops| > 0 && r.Some? ==> |r.value| == num
    ensures |pt.loops| > 0 && r.Some? && num > 0 ==>
              forall x :: x <= r.value[num - 1] && IsPtElement(pt, x, 10 * num) ==> x in r.value
  {
    if |pt.loops| == 0 {
      assert LoopNum(pt) == 0;
      r := Some([pt.preset]);
    } else {
      r := ScanUp((i: nat) => IsPtElement(pt, i, 10 * num), num, fuel);
    }
  }

  /* ------------------------------------------------------------------ */
  /* Sets of trees                                                       */
  /* ------------------------------------------------------------------ */

  /** An entry of a tree set: a bare number or a tree. */
  datatype Entry = Bare(n: nat) | Tree(t: PT)

  /** s2spt turns a bare number into a tree with one loop of period 0. The
      source writes the preset as the one-element set of the number; how the
      PathTree class reads such a preset is not part of this model, which
      takes the number itself as the preset, so the tree generates the number
      alone. */
  function ToTree(e: Entry): PT
  {
    match e
    case Bare(n) => PT(n, [Scalar(0)])
    case Tree(t) => t
  }

  function S2spt(spt: set<Entry>): (ts: set<PT>)
    ensures forall e :: e in spt ==> ToTree(e) in ts
    ensures forall t :: t in ts ==> exists e :: e in spt && ToTree(e) == t
  {
    set e | e in spt :: ToTree(e)
  }

  /** A tree with one period-0 loop generates exactly its preset. */
  lemma BareGeneratesPreset(n: nat, x: nat, maxloop: nat)
    ensures IsPtElement(PT(n, [Scalar(0)]), x, maxloop) <==> x == n
  {
    var pt := PT(n, [Scalar(0)]);
    PresetIsElement(pt, maxloop);
    if IsPtElement(pt, x, maxloop) {
      GeneratesByWeights(pt, x, maxloop);
      var ws :| Fits(pt, ws) && Bounded(Flatten(pt, ws), maxloop) && Element(pt, ws) == x;
      assert Fits(pt, ws) == FitsFrom(pt, 0, ws);
      assert |ws| > 0 && FitsFrom(pt, 1, ws[1..]);
      assert ws[1..] == [];
      assert LoopSumFrom(pt, 1, ws[1..]) == 0;
      assert LoopSum(pt, ws) == LoopSumFrom(pt, 0, ws) == Contribution(Scalar(0), ws[0]) + LoopSumFrom(pt, 1, ws[1..]);
      assert Element(pt, ws) == n + LoopSum(pt, ws);
    }
  }

  /** issptelement: some tree of the set generates the number. */
  function IsSptElement(spt: set<Entry>, x: nat): (b: bool)
  {
    exists t :: t in S2spt(spt) && IsPtElement(t, x, DefaultMaxLoop)
  }

  /** A number belongs to a tree set exactly when it is one of its bare
      numbers or an element of one of its trees. */
  lemma SptElementCases(spt: set<Entry>, x: nat)
    ensures IsSptElement(spt, x) <==>
              Bare(x) in spt || exists t :: Tree(t) in spt && IsPtElement(t, x, DefaultMaxLoop)
  {
    if IsSptElement(spt, x) {
      SptElementSource(spt, x);
    }
    if Bare(x) in spt {
      SptHasEntry(spt, Bare(x), x);
    }
    if t :| Tree(t) in spt && IsPtElement(t, x, DefaultMaxLoop) {
      SptHasEntry(spt, Tree(t), x);
    }
  }

  lemma SptElementSource(spt: set<Entry>, x: nat)
    requires IsSptElement(spt, x)
    ensures Bare(x) in spt || exists t :: Tree(t) in spt && IsPtElement(t, x, DefaultMaxLoop)
  {
    var t :| t in S2spt(spt) && IsPtElement(t, x, DefaultMaxLoop);
    var e :| e in spt && ToTree(e) == t;
    if e.Bare? {
      BareGeneratesPreset(e.n, x, DefaultMaxLoop);
    } else {
      assert Tree(t) in spt;
    }
  }

  lemma SptHasEntry(spt: set<Entry>, e: Entry, x: nat)
    requires e in spt
    requires e.Bare? ==> e.n == x
    requires e.Tree? ==> IsPtElement(e.t, x, DefaultMaxLoop)
    ensures IsSptElement(spt, x)
  {
    var t := ToTree(e);
    assert t in S2spt(spt);
    if e.Bare? {
      BareGeneratesPreset(x, x, DefaultMaxLoop);
    }
  }

  /** spt_elements: the first `num` numbers that belong to the tree set, as
      a set. */
  method SptElements(spt: set<Entry>, num: nat, fuel: nat) returns (r: Option<set<nat>>)
    ensures r.Some? ==> |r.value| == num
    ensures r.Some? ==> forall x :: x in r.value ==> IsSptElement(spt, x)
    ensures r.Some? ==> forall x, y :: x in r.value && y <= x && IsSptElement(spt, y) ==> y in r.value
    ensures r.None? <==> |Hits((x: nat) => IsSptElement(spt, x), fuel)| < num
  {
    var s := ScanUp((x: nat) => IsSptElement(spt, x), num, fuel);
    if s.None? {
      r := None;
    } else {
      ScanSet(s.value, (x: nat) => IsSptElement(spt, x));
      r := Some(ToSet(s.value));
    }
  }

  /** The entries of a sequence, as a set. */
  function ToSet(s: seq<nat>): (r: set<nat>)
    ensures forall x :: x in r <==> x in s
  {
    if |s| == 0 then {} else {s[0]} + ToSet(s[1..])
  }

  /** An increasing sequence has as many distinct entries as it is long. */
  lemma {:induction false} DistinctCard(s: seq<nat>)
    requires Increasing(s)
    ensures |ToSet(s)| == |s|
  {
    if |s| > 0 {
      var rest := s[1..];
      assert Increasing(rest);
      DistinctCard(rest);
      var a := ToSet(rest);
      assert s[0] !in a by {
        forall k | 0 <= k < |rest| ensures rest[k] != s[0] {
          assert rest[k] == s[k + 1];
        }
      }
      assert {s[0]} * a == {};
    }
  }

  /** The entries of a scan, as a set, are as many as the scan is long and
      miss nothing below any of them. */
  lemma ScanSet(v: seq<nat>, pred: nat -> bool)
    requires Increasing(v) && forall k :: 0 <= k < |v| ==> pred(v[k])
    requires |v| > 0 ==> forall x :: x <= v[|v| - 1] && pred(x) ==> x in v
    ensures |ToSet(v)| == |v|
    ensures forall x :: x in ToSet(v) ==> pred(x)
    ensures forall x, y :: x in ToSet(v) && y <= x && pred(y) ==> y in ToSet(v)
  {
    DistinctCard(v);
    if |v| > 0 {
      FirstOnes(v, pred);
    }
  }

  /** The first entries of an increasing scan that misses nothing below its
      last entry miss nothing below any of its entries. */
  lemma FirstOnes(v: seq<nat>, pred: nat -> bool)
    requires Increasing(v) && |v| > 0
    requires forall x :: x <= v[|v| - 1] && pred(x) ==> x in v
    ensures forall x, y :: x in v && y <= x && pred(y) ==> y in v
  {
    forall x, y | x in v && y <= x && pred(y) ensures y in v {
      var k :| 0 <= k < |v| && v[k] == x;
      if k < |v| - 1 {
        assert v[k] < v[|v| - 1];
      }
    }
  }
}
