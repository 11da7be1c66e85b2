/** Theorems about the list decoder. */
module PolarList {
  import opened Bits
  import opened PolarTransform
  import opened PolarSc
  import opened PolarScl
  import opened StableSort

  // ---- the path metric is the distance to the channel -----------------------------------------

  /** Weighted disagreement of a word with the LLRs. */
  function Dis(llr: Llrs, x: Word): (d: real)
    requires |llr| == |x|
    ensures d >= 0.0
  {
    if |x| == 0 then 0.0 else Pen(llr[0], x[0]) + Dis(llr[1..], x[1..])
  }

  lemma {:induction false} DisAppend(a: Llrs, b: Llrs, x: Word, y: Word)
    requires |a| == |x| && |b| == |y|
    ensures Dis(a + b, x + y) == Dis(a, x) + Dis(b, y)
    decreases |a|
  {
    if |a| == 0 {
      assert a + b == b && x + y == y;
    } else {
      assert (a + b)[1..] == a[1..] + b && (x + y)[1..] == x[1..] + y;
      DisAppend(a[1..], b, x[1..], y);
    }
  }

  /** The min-sum kernels lose nothing: the penalties paid by the two children add up to the penalty
      of the combined decisions at the parent. */
  lemma {:induction false} KernelIdentity(a: Llrs, b: Llrs, y: Word, x2: Word)
    requires |a| == |b| == |y| == |x2|
    ensures Dis(F(a, b), y) + Dis(G(a, b, y), x2) == Dis(a, Xor(y, x2)) + Dis(b, x2)
    decreases |a|
  {
    if |a| > 0 {
      assert F(a, b)[1..] == F(a[1..], b[1..]);
      assert G(a, b, y)[1..] == G(a[1..], b[1..], y[1..]);
      assert Xor(y, x2)[1..] == Xor(y[1..], x2[1..]);
      assert Pen(F(a, b)[0], y[0]) + Pen(G(a, b, y)[0], x2[0]) == Pen(a[0], y[0] != x2[0]) + Pen(b[0], x2[0]);
      KernelIdentity(a[1..], b[1..], y[1..], x2[1..]);
    }
  }

  lemma NodeDisagreement(llr: Llrs, h: nat, y: Word, x2: Word)
    requires |llr| == 2 * h && |y| == |x2| == h
    ensures Dis(F(llr[..h], llr[h..]), y) + Dis(G(llr[..h], llr[h..], y), x2) == Dis(llr, Xor(y, x2) + x2)
  {
    KernelIdentity(llr[..h], llr[h..], y, x2);
    DisAppend(llr[..h], llr[h..], Xor(y, x2), x2);
    assert llr == llr[..h] + llr[h..];
  }

  /** The two halves of a combined word decode to the two halves of the message. */
  lemma CombinedMessage(y: Word, x2: Word)
    requires |y| == |x2| && Pow2(|y|)
    ensures Pow2(2 * |y|) && T(Xor(y, x2) + x2) == T(y) + T(x2)
  {
    var h := |y|;
    var u := Xor(y, x2) + x2;
    assert |u| / 2 == h && |u| % 2 == 0 && u[..h] == Xor(y, x2) && u[h..] == x2;
    XorCancel(y, x2);
  }

  /** The lists after the left and after the right branch of a node. */
  lemma Unfold(es: seq<Entry>, frozen: Word, list: nat)
    returns (f1: Word, f2: Word, left: seq<Survivor>, right: seq<Survivor>)
    requires Pow2(|frozen|) && |frozen| != 1 && Width(es, |frozen|)
    ensures |f1| == |f2| && Pow2(|f1|) && frozen == f1 + f2 && |frozen| == 2 * |f1|
    ensures left == Scl(FEntries(es, |f1|), f1, list) && Sound(left, |es|, |f1|)
    ensures right == Scl(GEntries(es, left, |f1|), f2, list) && Sound(right, |left|, |f1|)
    ensures Scl(es, frozen, list) == Combined(left, right, |f1|, |es|)
  {
    var h := |frozen| / 2;
    f1, f2 := frozen[..h], frozen[h..];
    left := Scl(FEntries(es, h), f1, list);
    right := Scl(GEntries(es, left, h), f2, list);
  }

  /** Whatever is pruned on the way, a survivor has paid exactly the disagreement between the node's
      LLRs and its own codeword, and that codeword's message obeys the frozen mask. */
  lemma {:induction false} MetricIsDisagreement(es: seq<Entry>, frozen: Word, list: nat, j: nat)
    requires Pow2(|frozen|) && Width(es, |frozen|) && j < |Scl(es, frozen, list)|
    ensures var s := Scl(es, frozen, list)[j];
            && s.metric == es[s.parent].metric + Dis(es[s.parent].llr, s.beta)
            && Respects(T(s.beta), frozen)
    decreases |frozen|
  {
    if |frozen| == 1 {
      LeafMetric(es, frozen, list, j);
    } else {
      var f1, f2, left, right := Unfold(es, frozen, list);
      var h := |f1|;
      var k := right[j].parent;
      MetricIsDisagreement(FEntries(es, h), f1, list, k);
      MetricIsDisagreement(GEntries(es, left, h), f2, list, j);
      NodeDisagreement(es[left[k].parent].llr, h, left[k].beta, right[j].beta);
      NodeObeysMask(left[k].beta, right[j].beta, f1, f2);
    }
  }

  lemma NodeObeysMask(y: Word, x2: Word, f1: Word, f2: Word)
    requires |y| == |x2| && Pow2(|y|) && Respects(T(y), f1) && Respects(T(x2), f2)
    ensures Pow2(2 * |y|) && Respects(T(Xor(y, x2) + x2), f1 + f2)
  {
    CombinedMessage(y, x2);
  }

  lemma LeafMetric(es: seq<Entry>, frozen: Word, list: nat, j: nat)
    requires |frozen| == 1 && Width(es, 1) && j < |Scl(es, frozen, list)|
    ensures var s := Scl(es, frozen, list)[j];
            && s.metric == es[s.parent].metric + Dis(es[s.parent].llr, s.beta)
            && Respects(T(s.beta), frozen)
  {
    var s := Scl(es, frozen, list)[j];
    var bit := s.beta[0];
    assert s == Decided(es, s.parent, bit) && (frozen[0] ==> !bit);
    var llr := es[s.parent].llr;
    assert Dis(llr, s.beta) == Pen(llr[0], bit) + Dis(llr[1..], s.beta[1..]);
  }

  // ---- order of the list ------------------------------------------------------------------------

  ghost predicate Ascending(ss: seq<Survivor>) {
    forall i, j :: 0 <= i < j < |ss| ==> ss[i].metric <= ss[j].metric
  }

  /** When the last leaf carries information the list comes out in metric order. */
  lemma {:induction false} SortedIfLastLeafIsFree(es: seq<Entry>, frozen: Word, list: nat)
    requires Pow2(|frozen|) && Width(es, |frozen|) && !frozen[|frozen| - 1]
    ensures Ascending(Scl(es, frozen, list))
    decreases |frozen|
  {
    if |frozen| == 1 {
      BestAreBest(Metrics(Fork(es)), list);
    } else {
      var f1, f2, left, right := Unfold(es, frozen, list);
      SortedIfLastLeafIsFree(GEntries(es, left, |f1|), f2, list);
    }
  }

  // ---- a list that never overflows loses nothing ------------------------------------------------

  /** Paths that `m` paths become over these leaves when none is pruned. */
  function Grow(m: nat, frozen: Word): (g: nat)
    ensures g >= m
    decreases |frozen|
  {
    if |frozen| == 0 then m else Grow(if frozen[0] then m else 2 * m, frozen[1..])
  }

  lemma {:induction false} GrowAppend(m: nat, a: Word, b: Word)
    ensures Grow(m, a + b) == Grow(Grow(m, a), b)
    decreases |a|
  {
    if |a| == 0 {
      assert a + b == b;
    } else {
      assert (a + b)[1..] == a[1..] + b;
      GrowAppend(if a[0] then m else 2 * m, a[1..], b);
    }
  }

  lemma {:induction false} NoOverflow(es: seq<Entry>, frozen: Word, list: nat)
    requires Pow2(|frozen|) && Width(es, |frozen|) && Grow(|es|, frozen) <= list
    ensures |Scl(es, frozen, list)| == Grow(|es|, frozen)
    decreases |frozen|
  {
    if |frozen| == 1 {
      assert Grow(if frozen[0] then |es| else 2 * |es|, frozen[1..]) == if frozen[0] then |es| else 2 * |es|;
    } else {
      var f1, f2, left, right := Unfold(es, frozen, list);
      GrowAppend(|es|, f1, f2);
      NoOverflow(FEntries(es, |f1|), f1, list);
      NoOverflow(GEntries(es, left, |f1|), f2, list);
    }
  }

  /** With room for every fork, every word that obeys the mask survives from every entry. */
  lemma {:induction false} Reaches(es: seq<Entry>, frozen: Word, list: nat, i: nat, u: Word) returns (j: nat)
    requires Pow2(|frozen|) && Width(es, |frozen|) && Grow(|es|, frozen) <= list
    requires i < |es| && Respects(u, frozen)
    ensures j < |Scl(es, frozen, list)|
    ensures Scl(es, frozen, list)[j].parent == i && T(Scl(es, frozen, list)[j].beta) == u
    decreases |frozen|
  {
    if |frozen| == 1 {
      j := ReachesLeaf(es, frozen, list, i, u);
    } else {
      var f1, f2, left, right := Unfold(es, frozen, list);
      GrowAppend(|es|, f1, f2);
      NoOverflow(FEntries(es, |f1|), f1, list);
      var u1, u2 := SplitRespects(u, f1, f2);
      var k := Reaches(FEntries(es, |f1|), f1, list, i, u1);
      j := Reaches(GEntries(es, left, |f1|), f2, list, k, u2);
      CombinedMessage(left[k].beta, right[j].beta);
    }
  }

  lemma ReachesLeaf(es: seq<Entry>, frozen: Word, list: nat, i: nat, u: Word) returns (j: nat)
    requires |frozen| == 1 && Width(es, 1) && Grow(|es|, frozen) <= list && i < |es| && Respects(u, frozen)
    ensures j < |Scl(es, frozen, list)|
    ensures Scl(es, frozen, list)[j].parent == i && T(Scl(es, frozen, list)[j].beta) == u
  {
    assert [u[0]] == u && T(u) == u;
    if frozen[0] {
      j := i;
    } else {
      assert Grow(2 * |es|, frozen[1..]) == 2 * |es|;
      j := ForkKept(es, list, i, u[0]);
    }
  }

  lemma ForkKept(es: seq<Entry>, list: nat, i: nat, bit: bool) returns (j: nat)
    requires Width(es, 1) && 2 * |es| <= list && i < |es|
    ensures j < |Prune(Fork(es), list)| && Prune(Fork(es), list)[j] == Decided(es, i, bit)
  {
    hide Best;
    var k := 2 * i + if bit then 1 else 0;
    assert k / 2 == i && (k % 2 == 1) == bit;
    j := BestCovers(Metrics(Fork(es)), list, k);
  }

  lemma SplitRespects(u: Word, f1: Word, f2: Word) returns (u1: Word, u2: Word)
    requires Respects(u, f1 + f2)
    ensures u == u1 + u2 && Respects(u1, f1) && Respects(u2, f2)
  {
    u1, u2 := u[..|f1|], u[|f1|..];
    assert forall i :: 0 <= i < |f2| ==> (f1 + f2)[|f1| + i] == f2[i];
  }

  /** No two survivors are the same continuation of the same entry. */
  lemma {:induction false} SurvivorsDiffer(es: seq<Entry>, frozen: Word, list: nat, i: nat, j: nat)
    requires Pow2(|frozen|) && Width(es, |frozen|) && i < j < |Scl(es, frozen, list)|
    ensures var r := Scl(es, frozen, list); r[i].parent == r[j].parent ==> r[i].beta != r[j].beta
    decreases |frozen|
  {
    hide *;
    if |frozen| == 1 {
      LeafSurvivorsDiffer(es, frozen, list, i, j);
    } else {
      var f1, f2, left, right := Unfold(es, frozen, list);
      var h := |f1|;
      SurvivorsDiffer(GEntries(es, left, h), f2, list, i, j);
      var a, b := right[i].parent, right[j].parent;
      if a < b { SurvivorsDiffer(FEntries(es, h), f1, list, a, b); }
      if b < a { SurvivorsDiffer(FEntries(es, h), f1, list, b, a); }
      CombinedDiffer(left, right, h, |es|, i, j);
    }
  }

  lemma LeafSurvivorsDiffer(es: seq<Entry>, frozen: Word, list: nat, i: nat, j: nat)
    requires |frozen| == 1 && Width(es, 1) && i < j < |Scl(es, frozen, list)|
    ensures var r := Scl(es, frozen, list); r[i].parent == r[j].parent ==> r[i].beta != r[j].beta
  {
    hide Best, Order;
    if !frozen[0] {
      var o := Best(Metrics(Fork(es)), list);
      BestAreBest(Metrics(Fork(es)), list);
      assert o[i] != o[j];
      ForksDiffer(es, o[i], o[j]);
    }
  }

  lemma ForksDiffer(es: seq<Entry>, k: nat, l: nat)
    requires Width(es, 1) && k < 2 * |es| && l < 2 * |es| && k != l
    ensures Fork(es)[k].parent == Fork(es)[l].parent ==> Fork(es)[k].beta != Fork(es)[l].beta
  {
    assert Fork(es)[k].beta[0] == (k % 2 == 1) && Fork(es)[l].beta[0] == (l % 2 == 1);
  }

  lemma CombinedDiffer(left: seq<Survivor>, right: seq<Survivor>, h: nat, parents: nat, i: nat, j: nat)
    requires Sound(left, parents, h) && Sound(right, |left|, h) && i < j < |right|
    requires right[i].parent == right[j].parent ==> right[i].beta != right[j].beta
    requires var a, b := right[i].parent, right[j].parent;
             a != b && left[a].parent == left[b].parent ==> left[a].beta != left[b].beta
    ensures var r := Combined(left, right, h, parents); r[i].parent == r[j].parent ==> r[i].beta != r[j].beta
  {
    HalvesDetermine(left[right[i].parent].beta, right[i].beta, left[right[j].parent].beta, right[j].beta);
  }

  lemma HalvesDetermine(y: Word, x: Word, y': Word, x': Word)
    requires |y| == |x| == |y'| == |x'|
    ensures Xor(y, x) + x == Xor(y', x') + x' ==> y == y' && x == x'
  {
    if Xor(y, x) + x == Xor(y', x') + x' {
      assert (Xor(y, x) + x)[|x|..] == x && (Xor(y', x') + x')[|x|..] == x';
      assert (Xor(y, x) + x)[..|x|] == Xor(y, x) && (Xor(y', x') + x')[..|x|] == Xor(y', x');
      XorCancel(y, x);
      XorCancel(y', x');
    }
  }

  // ---- a list of one ------------------------------------------------------------------------------

  /** With room for one path the list recursion makes the decisions of plain successive cancellation,
      zero LLRs included. */
  lemma {:induction false} ListOfOneIsSc(es: seq<Entry>, frozen: Word)
    requires Pow2(|frozen|) && |es| == 1 && Width(es, |frozen|)
    ensures |Scl(es, frozen, 1)| == 1
    ensures Scl(es, frozen, 1)[0].beta == T(Sc(es[0].llr, frozen))
    decreases |frozen|
  {
    if |frozen| == 1 {
      ListOfOneLeaf(es, frozen);
    } else {
      var f1, f2, left, right := Unfold(es, frozen, 1);
      var h := |f1|;
      ListOfOneIsSc(FEntries(es, h), f1);
      ListOfOneIsSc(GEntries(es, left, h), f2);
      ListOfOneNode(es[0].llr, frozen, h, f1, f2, left[0].beta, right[0].beta);
    }
  }

  lemma ListOfOneNode(llr: Llrs, frozen: Word, h: nat, f1: Word, f2: Word, y: Word, x2: Word)
    requires Pow2(h) && |llr| == 2 * h && |f1| == |f2| == |y| == |x2| == h && frozen == f1 + f2
    requires y == T(Sc(F(llr[..h], llr[h..]), f1)) && x2 == T(Sc(G(llr[..h], llr[h..], y), f2))
    ensures Pow2(2 * h) && Xor(y, x2) + x2 == T(Sc(llr, frozen))
  {
    NodeResult(llr, frozen, llr[..h], llr[h..], f1, f2);
  }

  lemma ListOfOneLeaf(es: seq<Entry>, frozen: Word)
    requires |es| == 1 && |frozen| == 1 && Width(es, 1)
    ensures |Scl(es, frozen, 1)| == 1
    ensures Scl(es, frozen, 1)[0].beta == T(Sc(es[0].llr, frozen))
  {
    var l := es[0].llr[0];
    if !frozen[0] {
      var ms := Metrics(Fork(es));
      assert ms == [es[0].metric + Pen(l, false), es[0].metric + Pen(l, true)];
      BestOfTwo(ms[0], ms[1]);
    }
  }
}
