/** Exactly when the list of paths can come out in a wrong order. */
module PolarOrder {
  import opened Bits
  import opened PolarTransform
  import opened PolarSc
  import opened PolarScl
  import opened PolarList
  import opened PolarCodec

  predicate SomeFree(frozen: Word) {
    exists i :: 0 <= i < |frozen| && !frozen[i]
  }

  // ---- how many paths survive ------------------------------------------------------------------------

  lemma {:induction false} NothingForks(es: seq<Entry>, frozen: Word, list: nat)
    requires Pow2(|frozen|) && Width(es, |frozen|) && !SomeFree(frozen)
    ensures |Scl(es, frozen, list)| == |es|
    decreases |frozen|
  {
    if |frozen| > 1 {
      var f1, f2, left, right := Unfold(es, frozen, list);
      forall i | 0 <= i < |f1| ensures f1[i] && f2[i] { assert frozen[i] && frozen[|f1| + i]; }
      NothingForks(FEntries(es, |f1|), f1, list);
      NothingForks(GEntries(es, left, |f1|), f2, list);
    } else {
      assert frozen[0];
    }
  }

  /** Pruning never takes the list below its size or its present length. */
  lemma {:induction false} SurvivorsStay(es: seq<Entry>, frozen: Word, list: nat, m: nat)
    requires Pow2(|frozen|) && Width(es, |frozen|) && m <= |es| && m <= list
    ensures |Scl(es, frozen, list)| >= m
    decreases |frozen|
  {
    if |frozen| > 1 {
      var f1, f2, left, right := Unfold(es, frozen, list);
      SurvivorsStay(FEntries(es, |f1|), f1, list, m);
      SurvivorsStay(GEntries(es, left, |f1|), f2, list, m);
    }
  }

  lemma FreeHalves(f1: Word, f2: Word)
    ensures SomeFree(f1 + f2) <==> SomeFree(f1) || SomeFree(f2)
  {
    var f := f1 + f2;
    forall i | 0 <= i < |f1| ensures f[i] == f1[i] {}
    forall i | 0 <= i < |f2| ensures f[|f1| + i] == f2[i] {}
    forall i | 0 <= i < |f| ensures f[i] == if i < |f1| then f1[i] else f2[i - |f1|] {}
  }

  /** One free leaf and room for two make two paths. */
  lemma {:induction false} TwoSurvive(es: seq<Entry>, frozen: Word, list: nat)
    requires Pow2(|frozen|) && Width(es, |frozen|) && |es| > 0 && list >= 2 && SomeFree(frozen)
    ensures |Scl(es, frozen, list)| >= 2
    decreases |frozen|
  {
    if |frozen| > 1 {
      var f1, f2, left, right := Unfold(es, frozen, list);
      var h := |f1|;
      FreeHalves(f1, f2);
      if SomeFree(f1) {
        TwoSurvive(FEntries(es, h), f1, list);
        SurvivorsStay(GEntries(es, left, h), f2, list, 2);
      } else {
        SurvivorsStay(FEntries(es, h), f1, list, 1);
        TwoSurvive(GEntries(es, left, h), f2, list);
      }
    }
  }

  // ---- a channel on which the first path ends as the worst ----------------------------------------------

  /** Entry 0 sees the LLR -c everywhere and has paid nothing; nobody has a credit. */
  ghost predicate Sinking(es: seq<Entry>, n: nat, c: real) {
    && |es| > 0 && es[0].llr == seq(n, _ => -c) && es[0].metric == 0.0
    && forall i {:trigger es[i]} :: 0 <= i < |es| ==> es[i].metric >= 0.0
  }

  lemma {:induction false} TransformOfZeros(n: nat)
    requires Pow2(n)
    ensures T(Zeros(n)) == Zeros(n)
    decreases n
  {
    if n > 1 {
      var h := n / 2;
      TransformOfZeros(h);
      assert Zeros(n) == Zeros(h) + Zeros(h);
      CombineIsTransform(Zeros(h), Zeros(h));
      XorCancel(Zeros(h), Zeros(h));
    }
  }

  /** The left child of a sinking entry sees c everywhere: the all-zero word leads there. */
  lemma LeftOfSinking(es: seq<Entry>, h: nat, c: real)
    requires Width(es, 2 * h) && Sinking(es, 2 * h, c) && c > 0.0 && Pow2(h)
    ensures Leads(FEntries(es, h), Zeros(h))
  {
    hide T;
    TransformOfZeros(h);
    var a, b := es[0].llr[..h], es[0].llr[h..];
    assert a == b == seq(h, _ => -c);
    forall i | 0 <= i < h ensures F(a, b)[i] == c {}
  }

  /** The right child sees -2c everywhere. */
  lemma RightOfSinking(es: seq<Entry>, left: seq<Survivor>, h: nat, c: real)
    requires Width(es, 2 * h) && Sinking(es, 2 * h, c) && Pow2(h)
    requires Sound(left, |es|, h) && Leading(left, Zeros(h))
    ensures Sinking(GEntries(es, left, h), h, 2.0 * c)
  {
    hide T;
    TransformOfZeros(h);
    var e := es[left[0].parent];
    var a, b := e.llr[..h], e.llr[h..];
    assert a == b == seq(h, _ => -c);
    Doubled(a, h, c);
  }

  lemma Doubled(a: Llrs, h: nat, c: real)
    requires a == seq(h, _ => -c)
    ensures G(a, a, Zeros(h)) == seq(h, _ => -(2.0 * c))
  {
  }

  /** The first survivor continues the first entry and decided zeros. */
  predicate ZerosFirst(r: seq<Survivor>, n: nat) {
    |r| > 0 && r[0].parent == 0 && r[0].beta == Zeros(n)
  }

  lemma ZerosFirstAbove(left: seq<Survivor>, right: seq<Survivor>, h: nat, parents: nat)
    requires Sound(left, parents, h) && Sound(right, |left|, h) && Pow2(h)
    requires Leading(left, Zeros(h)) && ZerosFirst(right, h)
    ensures ZerosFirst(Combined(left, right, h, parents), 2 * h)
  {
    hide T;
    TransformOfZeros(h);
    XorCancel(Zeros(h), Zeros(h));
    assert Zeros(h) + Zeros(h) == Zeros(2 * h);
  }

  lemma ZerosFirstAtLeaf(es: seq<Entry>, frozen: Word, list: nat)
    requires |frozen| == 1 && Width(es, 1) && frozen[0] && |es| > 0
    ensures Pow2(1) && ZerosFirst(Scl(es, frozen, list), 1)
  {
    assert Zeros(1) == [false];
  }

  /** With the last leaf frozen a sinking entry stays first and decides zeros, though it pays for it. */
  lemma {:induction false} ZerosStayFirst(es: seq<Entry>, frozen: Word, list: nat, c: real)
    requires Pow2(|frozen|) && Width(es, |frozen|) && frozen[|frozen| - 1] && list > 0
    requires Sinking(es, |frozen|, c) && c > 0.0
    ensures ZerosFirst(Scl(es, frozen, list), |frozen|)
    decreases |frozen|
  {
    hide *;
    if |frozen| == 1 {
      SinkingSome(es, 1, c);
      ZerosFirstAtLeaf(es, frozen, list);
    } else {
      var f1, f2, left, right := Unfold(es, frozen, list);
      var h := |f1|;
      LeftOfSinking(es, h, c);
      RespectsZeros(f1);
      TruePathLeads(FEntries(es, h), f1, list, Zeros(h));
      RightOfSinking(es, left, h, c);
      ZerosStayFirst(GEntries(es, left, h), f2, list, 2.0 * c);
      ZerosFirstAbove(left, right, h, |es|);
    }
  }

  lemma SinkingSome(es: seq<Entry>, n: nat, c: real)
    requires Sinking(es, n, c)
    ensures |es| > 0
  {
  }

  lemma RespectsZeros(f: Word)
    ensures Respects(Zeros(|f|), f)
  {
  }

  /** Against LLRs of -1 a word costs one for each zero. */
  lemma {:induction false} CostOfZeros(n: nat, x: Word)
    requires |x| == n
    ensures Dis(seq(n, _ => -1.0), x) <= n as real
    ensures Dis(seq(n, _ => -1.0), x) == n as real <==> x == Zeros(n)
    decreases n
  {
    var llr: Llrs := seq(n, _ => -1.0);
    if n > 0 {
      assert llr[1..] == seq(n - 1, _ => -1.0);
      CostOfZeros(n - 1, x[1..]);
      DisHead(llr, x);
      if x == Zeros(n) { assert x[1..] == Zeros(n - 1); }
      if !x[0] && x[1..] == Zeros(n - 1) { assert x == [x[0]] + x[1..]; }
    }
  }

  lemma DisHead(llr: Llrs, x: Word)
    requires |llr| == |x| > 0
    ensures Dis(llr, x) == Pen(llr[0], x[0]) + Dis(llr[1..], x[1..])
  {
  }

  lemma OutOfOrder(frozen: Word, list: nat)
    requires Pow2(|frozen|) && frozen[|frozen| - 1] && SomeFree(frozen) && list >= 2
    ensures !Ascending(Scl(Root(seq(|frozen|, _ => -1.0)), frozen, list))
  {
    hide Scl, Dis;
    var n := |frozen|;
    var llr: Llrs := seq(n, _ => -1.0);
    var es := Root(llr);
    var ss := Scl(es, frozen, list);
    ZerosStayFirst(es, frozen, list, 1.0);
    TwoSurvive(es, frozen, list);
    MetricIsDisagreement(es, frozen, list, 0);
    MetricIsDisagreement(es, frozen, list, 1);
    SurvivorsDiffer(es, frozen, list, 0, 1);
    CostOfZeros(n, ss[0].beta);
    CostOfZeros(n, ss[1].beta);
    assert ss[0].metric > ss[1].metric;
  }

  /** Whatever the LLRs, the final list is in metric order. */
  ghost predicate AlwaysOrdered(frozen: Word, list: nat)
    requires Pow2(|frozen|)
  {
    forall llr: Llrs :: |llr| == |frozen| ==> Ascending(Scl(Root(llr), frozen, list))
  }

  /** It always is unless the last leaf is frozen, some leaf is free, and there is room for two paths. */
  lemma OrderedIff(frozen: Word, list: nat)
    requires Pow2(|frozen|)
    ensures AlwaysOrdered(frozen, list) <==> !frozen[|frozen| - 1] || !SomeFree(frozen) || list < 2
  {
    hide Scl, Ascending;
    if frozen[|frozen| - 1] && SomeFree(frozen) && list >= 2 {
      OutOfOrder(frozen, list);
    } else {
      forall llr: Llrs | |llr| == |frozen| ensures Ascending(Scl(Root(llr), frozen, list)) {
        if !frozen[|frozen| - 1] {
          SortedIfLastLeafIsFree(Root(llr), frozen, list);
        } else {
          AtMostOne(llr, frozen, list);
        }
      }
    }
  }

  lemma AtMostOne(llr: Llrs, frozen: Word, list: nat)
    requires Pow2(|frozen|) && |llr| == |frozen| && (!SomeFree(frozen) || list < 2)
    ensures Ascending(Scl(Root(llr), frozen, list))
  {
    hide Scl;
    if !SomeFree(frozen) {
      NothingForks(Root(llr), frozen, list);
    } else if list == 1 {
      SclBounded(Root(llr), frozen, list);
    } else {
      NoRoom(Root(llr), frozen);
    }
  }

  /** A list size of zero keeps nothing at the first fork. */
  lemma {:induction false} NoRoom(es: seq<Entry>, frozen: Word)
    requires Pow2(|frozen|) && Width(es, |frozen|)
    ensures |Scl(es, frozen, 0)| <= |es|
    decreases |frozen|
  {
    if |frozen| > 1 {
      var f1, f2, left, right := Unfold(es, frozen, 0);
      NoRoom(FEntries(es, |f1|), f1);
      NoRoom(GEntries(es, left, |f1|), f2);
    }
  }
}
