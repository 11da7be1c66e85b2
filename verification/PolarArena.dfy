/** The list decoder as it runs: paths in two buffers that take turns, their arrays shared between
    paths and copied only when written. */
module PolarArena {
  import opened Bits
  import opened PolarTransform
  import opened PolarSc
  import opened PolarScl
  import opened PolarRows
  import opened StableSort
  import opened CopyOnWrite

  class LazySclArena {
    const n: nat      // block length
    const depth: nat  // levels, the root's included
    const cap: nat    // slots of each buffer
    // slots 0..cap are buf_a, slots cap..2 * cap are buf_b
    var llr: Store<Llrs>
    var beta: Store<Word>
    var metric: seq<real>
    var activeIsA: bool
    var len: nat

    /** One live path; every slot of both buffers starts as another owner of the same arrays. */
    constructor (llr0: Llrs, depth: nat, list: nat)
      requires depth > 0
      ensures n == |llr0| && this.depth == depth && cap == 2 * list
      ensures list > 0 ==> Valid() && len == 1 && Active()[0].llr[0] == llr0 && Active()[0].metric == 0.0
    {
      n, this.depth, cap := |llr0|, depth, 2 * list;
      llr := Store(seq(depth, l requires 0 <= l < depth =>
                   if l == 0 then llr0 else seq(LevelWidth(|llr0|, l), _ => 0.0)),
                   seq(4 * list, _ => seq(depth, l => l)));
      beta := Store(seq(depth, l requires 0 <= l < depth => Zeros(LevelWidth(|llr0|, l))),
                    seq(4 * list, _ => seq(depth, l => l)));
      metric := seq(4 * list, _ => 0.0);
      activeIsA := true;
      len := 1;
    }

    ghost predicate Memory()
      reads this`llr, this`beta, this`metric
    {
      && StoreOk(llr, 2 * cap, depth)
      && StoreOk(beta, 2 * cap, depth)
      && |metric| == 2 * cap
    }

    /** What every slot sees. */
    ghost function Slots(): (rs: seq<Row>)
      requires Memory()
      reads this`llr, this`beta, this`metric
      ensures |rs| == 2 * cap
    {
      Zip(View(llr, 2 * cap, depth), View(beta, 2 * cap, depth), metric)
    }

    ghost predicate Valid()
      reads this
    {
      Memory() && len <= cap && RowsOk(Slots(), n, depth)
    }

    function Base(): (b: nat)
      reads this`activeIsA
      ensures b == 0 || b == cap
    {
      if activeIsA then 0 else cap
    }

    /** The live paths. */
    ghost function Active(): (rs: seq<Row>)
      requires Valid()
      reads this
      ensures |rs| == len && RowsOk(rs, n, depth)
    {
      Slots()[Base()..Base() + len]
    }

    // ---- one slot at a time -------------------------------------------------------------------

    method WriteLlr(i: nat, level: nat, x: Llrs)
      requires Memory() && i < 2 * cap && level < depth
      modifies this`llr
      ensures Memory()
      ensures Slots() == old(Slots())[i := old(Slots())[i].(llr := old(Slots())[i].llr[level := x])]
    {
      WriteIsPrivate(llr, 2 * cap, depth, i, level, x);
      llr := MakeMut(llr, i, level, x);
    }

    method WriteBeta(i: nat, level: nat, x: Word)
      requires Memory() && i < 2 * cap && level < depth
      modifies this`beta
      ensures Memory()
      ensures Slots() == old(Slots())[i := old(Slots())[i].(beta := old(Slots())[i].beta[level := x])]
    {
      WriteIsPrivate(beta, 2 * cap, depth, i, level, x);
      beta := MakeMut(beta, i, level, x);
    }

    method AddMetric(i: nat, m: real)
      requires Memory() && i < 2 * cap
      modifies this`metric
      ensures Memory()
      ensures Slots() == old(Slots())[i := old(Slots())[i].(metric := old(Slots())[i].metric + m)]
    {
      metric := metric[i := metric[i] + m];
    }

    /** `clone_from`: pointers and metric, no array. */
    method CloneFrom(dst: nat, src: nat)
      requires Memory() && dst < 2 * cap && src < 2 * cap
      modifies this`llr, this`beta, this`metric
      ensures Memory()
      ensures Slots() == old(Slots())[dst := old(Slots())[src]]
    {
      CloneIsCopy(llr, 2 * cap, depth, dst, src);
      CloneIsCopy(beta, 2 * cap, depth, dst, src);
      llr := Clone(llr, dst, src);
      beta := Clone(beta, dst, src);
      metric := metric[dst := metric[src]];
    }

    function LlrAt(i: nat, level: nat): (x: Llrs)
      requires Memory() && i < 2 * cap && level < depth
      reads this
      ensures x == Slots()[i].llr[level]
    {
      assert View(llr, 2 * cap, depth)[i][level] == llr.cells[llr.ptrs[i][level]];
      Get(llr, i, level)
    }

    function BetaAt(i: nat, level: nat): (x: Word)
      requires Memory() && i < 2 * cap && level < depth
      reads this
      ensures x == Slots()[i].beta[level]
    {
      assert View(beta, 2 * cap, depth)[i][level] == beta.cells[beta.ptrs[i][level]];
      Get(beta, i, level)
    }

    // ---- one pass over the live paths -----------------------------------------------------------

    ghost predicate Live()
      reads this`llr, this`beta, this`metric
    {
      Memory() && RowsOk(Slots(), n, depth)
    }

    method FSlot(i: nat, level: nat, h: nat)
      requires Live() && i < 2 * cap && Inner(n, level, depth, h)
      modifies this`llr
      ensures Live() && Slots() == old(Slots())[i := FRow(old(Slots())[i], n, level, depth, h)]
    {
      hide F, Slots, Memory;
      ghost var q := FRow(Slots()[i], n, level, depth, h);
      RowsOkUpdate(Slots(), i, q, n, depth);
      var x := LlrAt(i, level);
      WriteLlr(i, level + 1, F(x[..h], x[h..]));
    }

    /** f-branch of every live path. */
    method FBranchAll(level: nat, h: nat)
      requires Valid() && Inner(n, level, depth, h)
      modifies this`llr
      ensures Valid()
      ensures forall i :: 0 <= i < len ==> Active()[i] == FRow(old(Active())[i], n, level, depth, h)
    {
      hide Slots, Memory, RowOk, Inner, Leaf, FRow;
      ghost var s0 := Slots();
      var b := Base();
      for i := 0 to len
        invariant Live()
        invariant forall k :: b <= k < b + i ==> Slots()[k] == FRow(s0[k], n, level, depth, h)
        invariant forall k :: b + i <= k < b + len ==> Slots()[k] == s0[k]
      {
        FSlot(b + i, level, h);
      }
    }

    method SaveSlot(i: nat, level: nat, h: nat)
      requires Live() && i < 2 * cap && Inner(n, level, depth, h)
      modifies this`beta
      ensures Live() && Slots() == old(Slots())[i := SaveRow(old(Slots())[i], n, level, depth, h)]
    {
      hide Slots, Memory;
      ghost var q := SaveRow(Slots()[i], n, level, depth, h);
      RowsOkUpdate(Slots(), i, q, n, depth);
      WriteBeta(i, level, BetaAt(i, level + 1) + BetaAt(i, level)[h..]);
    }

    /** Keep the left child's partial sum in this level's first half. */
    method SaveAll(level: nat, h: nat)
      requires Valid() && Inner(n, level, depth, h)
      modifies this`beta
      ensures Valid()
      ensures forall i :: 0 <= i < len ==> Active()[i] == SaveRow(old(Active())[i], n, level, depth, h)
    {
      hide Slots, Memory, RowOk, Inner, Leaf, SaveRow, FRow;
      ghost var s0 := Slots();
      var b := Base();
      for i := 0 to len
        invariant Live()
        invariant forall k :: b <= k < b + i ==> Slots()[k] == SaveRow(s0[k], n, level, depth, h)
        invariant forall k :: b + i <= k < b + len ==> Slots()[k] == s0[k]
      {
        SaveSlot(b + i, level, h);
      }
    }

    method GSlot(i: nat, level: nat, h: nat)
      requires Live() && i < 2 * cap && Inner(n, level, depth, h)
      modifies this`llr
      ensures Live() && Slots() == old(Slots())[i := GRow(old(Slots())[i], n, level, depth, h)]
    {
      hide G, Slots, Memory;
      ghost var q := GRow(Slots()[i], n, level, depth, h);
      RowsOkUpdate(Slots(), i, q, n, depth);
      var x := LlrAt(i, level);
      WriteLlr(i, level + 1, G(x[..h], x[h..], BetaAt(i, level)[..h]));
    }

    /** g-branch of every live path, with the half just saved as the partial sum. */
    method GBranchAll(level: nat, h: nat)
      requires Valid() && Inner(n, level, depth, h)
      modifies this`llr
      ensures Valid()
      ensures forall i :: 0 <= i < len ==> Active()[i] == GRow(old(Active())[i], n, level, depth, h)
    {
      hide Slots, Memory, RowOk, Inner, Leaf, GRow, FRow;
      ghost var s0 := Slots();
      var b := Base();
      for i := 0 to len
        invariant Live()
        invariant forall k :: b <= k < b + i ==> Slots()[k] == GRow(s0[k], n, level, depth, h)
        invariant forall k :: b + i <= k < b + len ==> Slots()[k] == s0[k]
      {
        GSlot(b + i, level, h);
      }
    }

    method CombineSlot(i: nat, level: nat, h: nat)
      requires Live() && i < 2 * cap && Inner(n, level, depth, h)
      modifies this`beta
      ensures Live() && Slots() == old(Slots())[i := CombineRow(old(Slots())[i], n, level, depth, h)]
    {
      hide Xor, Slots, Memory;
      ghost var q := CombineRow(Slots()[i], n, level, depth, h);
      RowsOkUpdate(Slots(), i, q, n, depth);
      var right := BetaAt(i, level + 1);
      WriteBeta(i, level, Xor(BetaAt(i, level)[..h], right) + right);
    }

    /** Keep the right child's partial sum in the second half and combine. */
    method CombineAll(level: nat, h: nat)
      requires Valid() && Inner(n, level, depth, h)
      modifies this`beta
      ensures Valid()
      ensures forall i :: 0 <= i < len ==> Active()[i] == CombineRow(old(Active())[i], n, level, depth, h)
    {
      hide Slots, Memory, RowOk, Inner, Leaf, CombineRow, FRow;
      ghost var s0 := Slots();
      var b := Base();
      for i := 0 to len
        invariant Live()
        invariant forall k :: b <= k < b + i ==> Slots()[k] == CombineRow(s0[k], n, level, depth, h)
        invariant forall k :: b + i <= k < b + len ==> Slots()[k] == s0[k]
      {
        CombineSlot(b + i, level, h);
      }
    }

    method FreezeSlot(i: nat, level: nat)
      requires Live() && i < 2 * cap && Leaf(n, level, depth)
      modifies this`beta, this`metric
      ensures Live() && Slots() == old(Slots())[i := DecideRow(old(Slots())[i], n, level, depth, false)]
    {
      hide Pen, Slots, Memory;
      ghost var q := DecideRow(Slots()[i], n, level, depth, false);
      RowsOkUpdate(Slots(), i, q, n, depth);
      AddMetric(i, Pen(LlrAt(i, level)[0], false));
      WriteBeta(i, level, [false]);
    }

    /** A frozen leaf: every live path decides 0 and pays for it. */
    method FreezeAll(level: nat)
      requires Valid() && Leaf(n, level, depth)
      modifies this`beta, this`metric
      ensures Valid()
      ensures forall i :: 0 <= i < len ==> Active()[i] == DecideRow(old(Active())[i], n, level, depth, false)
    {
      hide Slots, Memory, RowOk, Inner, Leaf, DecideRow, FRow;
      ghost var s0 := Slots();
      var b := Base();
      for i := 0 to len
        invariant Live()
        invariant forall k :: b <= k < b + i ==> Slots()[k] == DecideRow(s0[k], n, level, depth, false)
        invariant forall k :: b + i <= k < b + len ==> Slots()[k] == s0[k]
      {
        FreezeSlot(b + i, level);
      }
    }

    /** Decide slot `src` as `bit` in slot `dst`. */
    method ForkSlot(dst: nat, src: nat, level: nat, bit: bool)
      requires Live() && Leaf(n, level, depth)
      requires dst < 2 * cap && src < 2 * cap && dst != src
      modifies this`llr, this`beta, this`metric
      ensures Live() && Slots() == old(Slots())[dst := DecideRow(old(Slots())[src], n, level, depth, bit)]
    {
      hide Pen, Slots, Memory;
      ghost var q := DecideRow(Slots()[src], n, level, depth, bit);
      RowsOkUpdate(Slots(), dst, q, n, depth);
      CloneFrom(dst, src);
      WriteBeta(dst, level, [bit]);
      AddMetric(dst, Pen(LlrAt(src, level)[0], bit));
    }

    method ForkPair(dst: nat, src: nat, level: nat)
      requires Live() && Leaf(n, level, depth)
      requires dst + 1 < 2 * cap && src < 2 * cap && src != dst && src != dst + 1
      modifies this`llr, this`beta, this`metric
      ensures Live()
      ensures Slots() == old(Slots())[dst := DecideRow(old(Slots())[src], n, level, depth, false)]
                                     [dst + 1 := DecideRow(old(Slots())[src], n, level, depth, true)]
    {
      hide *;
      ForkSlot(dst, src, level, false);
      ForkSlot(dst + 1, src, level, true);
    }

    /** Fork every live path into both decisions, written to the other buffer. */
    method ForkInto(level: nat)
      requires Valid() && Leaf(n, level, depth) && 2 * len <= cap
      modifies this`llr, this`beta, this`metric
      ensures Valid()
      ensures Slots()[cap - Base()..cap - Base() + 2 * len] == ForkRows(old(Active()), n, level, depth)
    {
      ghost var rs := Active();
      var b := Base();
      var ob := cap - b;
      ForkLoop(level, b, ob, rs);
    }

    method ForkLoop(level: nat, b: nat, ob: nat, ghost rs: seq<Row>)
      requires Live() && Leaf(n, level, depth) && ob + 2 * len <= 2 * cap && b + len <= 2 * cap
      requires |rs| == len && (ob + 2 * len <= b || b + len <= ob) && Slots()[b..b + len] == rs && RowsOk(rs, n, depth)
      modifies this`llr, this`beta, this`metric
      ensures Live()
      ensures Slots()[ob..ob + 2 * len] == ForkRows(rs, n, level, depth) && Slots()[b..b + len] == rs
    {
      hide Slots, Memory, HalfForked, ForkRows, DecideRow, RowsOk, RowOk, Leaf;
      HalfForkedStarts(Slots(), rs, ForkRows(rs, n, level, depth), ob, b);
      for i := 0 to len
        invariant Live() && HalfForked(Slots(), rs, ForkRows(rs, n, level, depth), ob, b, i)
      {
        ForkRowsAt(rs, n, level, depth, i);
        PairWritten(Slots(), rs, ForkRows(rs, n, level, depth), ob, b, i);
        ForkPair(ob + 2 * i, b + i, level);
      }
      HalfForkedEnds(Slots(), rs, ForkRows(rs, n, level, depth), ob, b);
    }

    /** Sort the slots `base .. base + |o|` into the order `o`. */
    method SortSlots(base: nat, o: seq<nat>)
      requires Memory() && base + |o| <= 2 * cap && Below(o, |o|)
      modifies this`llr, this`beta, this`metric
      ensures Memory() && Slots() == Reorder(old(Slots()), base, o)
    {
      SortingMovesViews(llr, 2 * cap, depth, base, o);
      SortingMovesViews(beta, 2 * cap, depth, base, o);
      ZipReorder(View(llr, 2 * cap, depth), View(beta, 2 * cap, depth), metric, base, o);
      hide View, Reorder, Sorted, Zip;
      llr := Sorted(llr, base, o);
      beta := Sorted(beta, base, o);
      metric := Reorder(metric, base, o);
    }

    function MetricsOf(base: nat, m: nat): (ms: seq<real>)
      requires Memory() && base + m <= 2 * cap
      reads this
      ensures |ms| == m && ms == RowMetrics(Slots()[base..base + m])
    {
      metric[base..base + m]
    }

    /** An information leaf: fork, sort by metric, keep the best `list`, and change buffers. */
    method ForkAtLeaf(level: nat, list: nat)
      requires Valid() && Leaf(n, level, depth) && cap == 2 * list && len <= list
      modifies this
      ensures Valid() && len <= list
      ensures Active() == Gather(ForkRows(old(Active()), n, level, depth),
                                 Best(RowMetrics(ForkRows(old(Active()), n, level, depth)), list))
    {
      hide Slots, Memory, RowOk, Leaf, ForkRows, Order, Reorder, Best;
      ghost var forked := ForkRows(Active(), n, level, depth);
      ForkInto(level);
      var ob := cap - Base();
      ghost var s1 := Slots();
      var ms := MetricsOf(ob, 2 * len);
      var o := Order(ms, |ms|);
      SortSlots(ob, o);
      PickBest(s1, ob, forked, list, n, depth);
      len := if 2 * len <= list then 2 * len else list;
      activeIsA := !activeIsA;
    }

    // ---- the decode tree --------------------------------------------------------------------------

    /** One node for the whole list. The live paths afterwards are the survivors of the recursion. */
    method DecodeRecursive(frozen: Word, s: nat, length: nat, level: nat, list: nat, ghost fz: Word)
      requires Valid() && Pow2(length) && LevelWidth(n, level) == length && depth == level + 1 + Levels(length)
      requires cap == 2 * list && len <= list
      requires s + length <= |frozen| && fz == frozen[s..s + length]
      modifies this
      ensures Valid() && len <= list
      ensures Survived(old(Active()), Active(), Scl(Entries(old(Active()), n, level, depth), fz, list), level, depth)
      decreases length, 1
    {
      hide *;
      if length == 1 {
        DecodeLeaf(frozen[s], level, list, fz);
      } else {
        ChildNode(n, level, depth, length);
        DecodeInner(frozen, s, length / 2, level, list, fz);
      }
    }

    method DecodeLeaf(isFrozen: bool, level: nat, list: nat, ghost fz: Word)
      requires Valid() && LevelWidth(n, level) == 1 && depth == level + 1 + Levels(1) && cap == 2 * list && len <= list
      requires fz == [isFrozen]
      modifies this
      ensures Valid() && len <= list
      ensures Pow2(1) && Survived(old(Active()), Active(), Scl(Entries(old(Active()), n, level, depth), fz, list),
                                  level, depth)
    {
      hide Slots, Memory, RowOk, RowsOk, Scl, Survived, Fork, Freeze, Prune, Entries, Best, ForkRows, DecideRow, Leaf,
           Order;
      ghost var rs := Active();
      LeafNode(rs, fz, list, n, level, depth);
      if isFrozen {
        FreezeAll(level);
        FrozenLeaf(rs, Active(), n, level, depth);
      } else {
        ForkAtLeaf(level, list);
        InformationLeaf(rs, n, level, depth, list);
      }
    }

    method DecodeInner(frozen: Word, s: nat, h: nat, level: nat, list: nat, ghost fz: Word)
      requires Valid() && Pow2(h) && Inner(n, level, depth, h) && LevelWidth(n, level + 1) == h
               && depth == level + 2 + Levels(h)
      requires cap == 2 * list && len <= list
      requires s + 2 * h <= |frozen| && fz == frozen[s..s + 2 * h]
      modifies this
      ensures Valid() && len <= list && Pow2(|fz|) && LevelWidth(n, level) == |fz|
      ensures Survived(old(Active()), Active(), Scl(Entries(old(Active()), n, level, depth), fz, list), level, depth)
      decreases h, 2
    {
      hide Slots, Memory, RowOk, RowsOk, Scl, Survived, Entries, FRow, SaveRow, GRow, CombineRow, Inner, LevelWidth,
           Pow2, Levels;
      ghost var r0, f1, f2 := Active(), frozen[s..s + h], frozen[s + h..s + 2 * h];
      FBranchAll(level, h);
      ghost var r1 := Active();
      DecodeRecursive(frozen, s, h, level + 1, list, f1);
      ghost var r2 := Active();
      SaveAll(level, h);
      GBranchAll(level, h);
      ghost var r3 := Active();
      DecodeRecursive(frozen, s + h, h, level + 1, list, f2);
      ghost var r4 := Active();
      CombineAll(level, h);
      assert fz == f1 + f2;
      NodeRows(r0, r1, r2, r3, r4, Active(), f1, f2, list, n, level, depth, h);
    }
  }

  /** The first `i` live paths, in the buffer at `b`, have their forks in the buffer at `ob`. */
  ghost predicate HalfForked(s: seq<Row>, rs: seq<Row>, forked: seq<Row>, ob: nat, b: nat, i: nat) {
    && |forked| == 2 * |rs| && i <= |rs| && ob + |forked| <= |s| && b + |rs| <= |s|
    && (ob + |forked| <= b || b + |rs| <= ob)
    && s[ob..ob + 2 * i] == forked[..2 * i] && s[b..b + |rs|] == rs
  }

  lemma PairWritten(s: seq<Row>, rs: seq<Row>, forked: seq<Row>, ob: nat, b: nat, i: nat)
    requires HalfForked(s, rs, forked, ob, b, i) && i < |rs|
    ensures b + i < |s| && s[b + i] == rs[i] && ob + 2 * i + 1 < |s| && b + i != ob + 2 * i && b + i != ob + 2 * i + 1
    ensures HalfForked(s[ob + 2 * i := forked[2 * i]][ob + 2 * i + 1 := forked[2 * i + 1]], rs, forked, ob, b, i + 1)
  {
    assert s[b..b + |rs|][i] == s[b + i];
    var t := s[ob + 2 * i := forked[2 * i]][ob + 2 * i + 1 := forked[2 * i + 1]];
    assert t[b..b + |rs|] == s[b..b + |rs|];
    forall k | 0 <= k < 2 * i + 2 ensures t[ob + k] == forked[k] {
      if k < 2 * i { assert s[ob..ob + 2 * i][k] == forked[..2 * i][k]; }
    }
    assert t[ob..ob + 2 * (i + 1)] == forked[..2 * (i + 1)];
  }

  lemma HalfForkedStarts(s: seq<Row>, rs: seq<Row>, forked: seq<Row>, ob: nat, b: nat)
    requires |forked| == 2 * |rs| && ob + |forked| <= |s| && b + |rs| <= |s| && s[b..b + |rs|] == rs
    requires ob + |forked| <= b || b + |rs| <= ob
    ensures HalfForked(s, rs, forked, ob, b, 0)
  {
  }

  lemma HalfForkedEnds(s: seq<Row>, rs: seq<Row>, forked: seq<Row>, ob: nat, b: nat)
    requires HalfForked(s, rs, forked, ob, b, |rs|)
    ensures s[ob..ob + |forked|] == forked && s[b..b + |rs|] == rs
  {
  }

  lemma ZipReorder(lv: seq<seq<Llrs>>, bv: seq<seq<Word>>, ms: seq<real>, base: nat, o: seq<nat>)
    requires |lv| == |bv| == |ms| && base + |o| <= |lv| && Below(o, |o|)
    ensures Zip(Reorder(lv, base, o), Reorder(bv, base, o), Reorder(ms, base, o)) == Reorder(Zip(lv, bv, ms), base, o)
  {
  }

  /** After sorting, the first slots of the buffer are the best forks in order. */
  lemma PickBest(s1: seq<Row>, ob: nat, forked: seq<Row>, list: nat, n: nat, depth: nat)
    requires RowsOk(s1, n, depth) && ob + |forked| <= |s1| && s1[ob..ob + |forked|] == forked
    ensures var ms := RowMetrics(forked);
            var s2 := Reorder(s1, ob, Order(ms, |ms|));
            var m := if |forked| <= list then |forked| else list;
            RowsOk(s2, n, depth) && s2[ob..ob + m] == Gather(forked, Best(ms, list))
  {
    hide Order, RowOk;
    var ms := RowMetrics(forked);
    var o := Order(ms, |ms|);
    var s2 := Reorder(s1, ob, o);
    forall j | 0 <= j < |Best(ms, list)| ensures s2[ob + j] == forked[Best(ms, list)[j]] {
      assert Best(ms, list)[j] == o[j];
      assert s2[ob + j] == s1[ob + o[j]] == s1[ob..ob + |forked|][o[j]];
    }
  }
}
