/** The paths of the list decoder with their per-level arrays, as values, and how each step of the
    decode tree changes them. */
module PolarRows {
  import opened Bits
  import opened PolarTransform
  import opened PolarSc
  import opened PolarScl
  import opened StableSort

  /** What one path sees: an LLR array and a partial-sum array for every level, and its metric. */
  datatype Row = Row(llr: seq<Llrs>, beta: seq<Word>, metric: real)

  function Zip(lv: seq<seq<Llrs>>, bv: seq<seq<Word>>, ms: seq<real>): (rs: seq<Row>)
    requires |lv| == |bv| == |ms|
    ensures |rs| == |ms|
  {
    seq(|ms|, i requires 0 <= i < |ms| => Row(lv[i], bv[i], ms[i]))
  }

  /** Length of the arrays of a level: n, n / 2, n / 4, ... */
  function LevelWidth(n: nat, level: nat): nat {
    if level == 0 then n else LevelWidth(n, level - 1) / 2
  }

  predicate RowOk(r: Row, n: nat, depth: nat) {
    && |r.llr| == |r.beta| == depth
    && forall l {:trigger r.llr[l]} {:trigger r.beta[l]} :: 0 <= l < depth ==>
          |r.llr[l]| == |r.beta[l]| == LevelWidth(n, l)
  }

  predicate RowsOk(rs: seq<Row>, n: nat, depth: nat) {
    forall i {:trigger rs[i]} :: 0 <= i < |rs| ==> RowOk(rs[i], n, depth)
  }

  lemma RowsOkUpdate(rs: seq<Row>, i: nat, q: Row, n: nat, depth: nat)
    requires RowsOk(rs, n, depth) && i < |rs| && RowOk(q, n, depth)
    ensures RowsOk(rs[i := q], n, depth)
  {
  }

  /** The node of `level` has two children of width `h`. */
  predicate Inner(n: nat, level: nat, depth: nat, h: nat) {
    level + 1 < depth && LevelWidth(n, level) == 2 * h && LevelWidth(n, level + 1) == h
  }

  predicate Leaf(n: nat, level: nat, depth: nat) {
    level < depth && LevelWidth(n, level) == 1
  }

  function FRow(r: Row, n: nat, level: nat, depth: nat, h: nat): (q: Row)
    requires RowOk(r, n, depth) && Inner(n, level, depth, h)
    ensures RowOk(q, n, depth)
  {
    r.(llr := r.llr[level + 1 := F(r.llr[level][..h], r.llr[level][h..])])
  }

  /** Keep the left child's partial sum. */
  function SaveRow(r: Row, n: nat, level: nat, depth: nat, h: nat): (q: Row)
    requires RowOk(r, n, depth) && Inner(n, level, depth, h)
    ensures RowOk(q, n, depth)
  {
    r.(beta := r.beta[level := r.beta[level + 1] + r.beta[level][h..]])
  }

  function GRow(r: Row, n: nat, level: nat, depth: nat, h: nat): (q: Row)
    requires RowOk(r, n, depth) && Inner(n, level, depth, h)
    ensures RowOk(q, n, depth)
  {
    r.(llr := r.llr[level + 1 := G(r.llr[level][..h], r.llr[level][h..], r.beta[level][..h])])
  }

  /** Keep the right child's partial sum and fold it into the left one. */
  function CombineRow(r: Row, n: nat, level: nat, depth: nat, h: nat): (q: Row)
    requires RowOk(r, n, depth) && Inner(n, level, depth, h)
    ensures RowOk(q, n, depth)
  {
    r.(beta := r.beta[level := Xor(r.beta[level][..h], r.beta[level + 1]) + r.beta[level + 1]])
  }

  function DecideRow(r: Row, n: nat, level: nat, depth: nat, bit: bool): (q: Row)
    requires RowOk(r, n, depth) && Leaf(n, level, depth)
    ensures RowOk(q, n, depth)
  {
    r.(beta := r.beta[level := [bit]], metric := r.metric + Pen(r.llr[level][0], bit))
  }

  function Entries(rs: seq<Row>, n: nat, level: nat, depth: nat): (es: seq<Entry>)
    requires RowsOk(rs, n, depth) && level < depth
    ensures |es| == |rs| && Width(es, LevelWidth(n, level))
  {
    seq(|rs|, i requires 0 <= i < |rs| => Entry(rs[i].llr[level], rs[i].metric))
  }

  /** Row `q` continues row `r` as survivor `s`: the levels above the node are untouched, its own
      partial sum and the metric are the survivor's. */
  ghost predicate Continues(r: Row, q: Row, s: Survivor, level: nat, depth: nat) {
    && level < depth == |r.llr| == |r.beta| == |q.llr| == |q.beta|
    && q.llr[..level + 1] == r.llr[..level + 1] && q.beta[..level] == r.beta[..level]
    && q.beta[level] == s.beta && q.metric == s.metric
  }

  /** The rows `after` a subtree are those of the survivors `ss`. */
  ghost predicate Survived(before: seq<Row>, after: seq<Row>, ss: seq<Survivor>, level: nat, depth: nat) {
    |after| == |ss| && forall j {:trigger ss[j]} {:trigger after[j]} :: 0 <= j < |ss| ==>
      ss[j].parent < |before| && Continues(before[ss[j].parent], after[j], ss[j], level, depth)
  }

  // ---- leaves -------------------------------------------------------------------------------

  lemma DecideContinues(rs: seq<Row>, n: nat, level: nat, depth: nat, i: nat, bit: bool)
    requires RowsOk(rs, n, depth) && Leaf(n, level, depth) && i < |rs|
    ensures Continues(rs[i], DecideRow(rs[i], n, level, depth, bit), Decided(Entries(rs, n, level, depth), i, bit),
                      level, depth)
  {
  }

  lemma FrozenLeaf(rs: seq<Row>, after: seq<Row>, n: nat, level: nat, depth: nat)
    requires RowsOk(rs, n, depth) && Leaf(n, level, depth) && |after| == |rs|
    requires forall i :: 0 <= i < |rs| ==> after[i] == DecideRow(rs[i], n, level, depth, false)
    ensures Survived(rs, after, Freeze(Entries(rs, n, level, depth)), level, depth)
  {
    forall i | 0 <= i < |rs|
      ensures Continues(rs[i], after[i], Freeze(Entries(rs, n, level, depth))[i], level, depth)
    {
      DecideContinues(rs, n, level, depth, i, false);
    }
  }

  function RowMetrics(rs: seq<Row>): (ms: seq<real>)
    ensures |ms| == |rs|
  {
    seq(|rs|, i requires 0 <= i < |rs| => rs[i].metric)
  }

  function ForkRows(rs: seq<Row>, n: nat, level: nat, depth: nat): (r: seq<Row>)
    requires RowsOk(rs, n, depth) && Leaf(n, level, depth)
    ensures |r| == 2 * |rs|
  {
    seq(2 * |rs|, i requires 0 <= i < 2 * |rs| => DecideRow(rs[i / 2], n, level, depth, i % 2 == 1))
  }

  lemma ForkRowsAt(rs: seq<Row>, n: nat, level: nat, depth: nat, i: nat)
    requires RowsOk(rs, n, depth) && Leaf(n, level, depth) && i < |rs|
    ensures ForkRows(rs, n, level, depth)[2 * i] == DecideRow(rs[i], n, level, depth, false)
    ensures ForkRows(rs, n, level, depth)[2 * i + 1] == DecideRow(rs[i], n, level, depth, true)
  {
    assert (2 * i) / 2 == i && (2 * i + 1) / 2 == i && (2 * i) % 2 == 0 && (2 * i + 1) % 2 == 1;
  }

  lemma InformationLeaf(rs: seq<Row>, n: nat, level: nat, depth: nat, list: nat)
    requires RowsOk(rs, n, depth) && Leaf(n, level, depth)
    ensures var forked := ForkRows(rs, n, level, depth);
            Survived(rs, Gather(forked, Best(RowMetrics(forked), list)),
                     Prune(Fork(Entries(rs, n, level, depth)), list), level, depth)
  {
    hide Best, Order, Pen;
    var forked := ForkRows(rs, n, level, depth);
    var es := Entries(rs, n, level, depth);
    assert RowMetrics(forked) == Metrics(Fork(es));
    var o := Best(RowMetrics(forked), list);
    forall j | 0 <= j < |o|
      ensures Continues(rs[o[j] / 2], forked[o[j]], Fork(es)[o[j]], level, depth)
    {
      DecideContinues(rs, n, level, depth, o[j] / 2, o[j] % 2 == 1);
    }
  }

  // ---- inner nodes ----------------------------------------------------------------------------

  lemma FBranch(r0: seq<Row>, r1: seq<Row>, n: nat, level: nat, depth: nat, h: nat)
    requires RowsOk(r0, n, depth) && Inner(n, level, depth, h) && |r1| == |r0|
    requires forall i :: 0 <= i < |r0| ==> r1[i] == FRow(r0[i], n, level, depth, h)
    ensures RowsOk(r1, n, depth)
    ensures Entries(r1, n, level + 1, depth) == FEntries(Entries(r0, n, level, depth), h)
  {
    hide F;
    assert forall i {:trigger r1[i]} :: 0 <= i < |r0| ==> r1[i] == FRow(r0[i], n, level, depth, h);
  }

  lemma LeftContinues(p: Row, q: Row, s: Survivor, n: nat, level: nat, depth: nat, h: nat)
    requires RowOk(p, n, depth) && RowOk(q, n, depth) && Inner(n, level, depth, h)
    requires Continues(FRow(p, n, level, depth, h), q, s, level + 1, depth)
    ensures q.llr[..level + 1] == p.llr[..level + 1] && q.beta[..level + 1] == p.beta[..level + 1]
    ensures q.llr[level] == p.llr[level] && q.beta[level + 1] == s.beta && q.metric == s.metric
  {
    assert q.llr[..level + 1] == q.llr[..level + 2][..level + 1] == p.llr[..level + 1];
    assert q.llr[level] == q.llr[..level + 1][level];
  }

  lemma GBranch(r0: seq<Row>, r1: seq<Row>, r2: seq<Row>, r3: seq<Row>, left: seq<Survivor>, n: nat, level: nat,
                depth: nat, h: nat)
    requires RowsOk(r0, n, depth) && RowsOk(r2, n, depth) && Inner(n, level, depth, h) && |r1| == |r0| && |r3| == |r2|
    requires forall i :: 0 <= i < |r0| ==> r1[i] == FRow(r0[i], n, level, depth, h)
    requires Survived(r1, r2, left, level + 1, depth) && Sound(left, |r0|, h)
    requires forall i :: 0 <= i < |r2| ==> r3[i] == GRow(SaveRow(r2[i], n, level, depth, h), n, level, depth, h)
    ensures RowsOk(r3, n, depth)
    ensures Entries(r3, n, level + 1, depth) == GEntries(Entries(r0, n, level, depth), left, h)
  {
    hide G, F;
    forall k | 0 <= k < |r2|
      ensures RowOk(r3[k], n, depth)
      ensures r3[k].llr[level + 1]
              == G(r0[left[k].parent].llr[level][..h], r0[left[k].parent].llr[level][h..], left[k].beta)
      ensures r3[k].metric == left[k].metric
    {
      LeftContinues(r0[left[k].parent], r2[k], left[k], n, level, depth, h);
      assert SaveRow(r2[k], n, level, depth, h).beta[level][..h] == left[k].beta;
    }
    EntriesFromParts(r0, r3, left, n, level, depth, h);
  }

  lemma EntriesFromParts(r0: seq<Row>, r3: seq<Row>, left: seq<Survivor>, n: nat, level: nat, depth: nat, h: nat)
    requires RowsOk(r0, n, depth) && RowsOk(r3, n, depth) && Inner(n, level, depth, h) && |r3| == |left|
             && Sound(left, |r0|, h)
    requires forall k {:trigger r3[k]} :: 0 <= k < |r3| ==>
      && r3[k].llr[level + 1] == G(r0[left[k].parent].llr[level][..h], r0[left[k].parent].llr[level][h..], left[k].beta)
      && r3[k].metric == left[k].metric
    ensures Entries(r3, n, level + 1, depth) == GEntries(Entries(r0, n, level, depth), left, h)
  {
    hide G;
  }

  /** One path down both branches. */
  lemma NodeContinues(p: Row, q2: Row, q4: Row, s: Survivor, t: Survivor, n: nat, level: nat, depth: nat, h: nat)
    requires RowOk(p, n, depth) && RowOk(q2, n, depth) && RowOk(q4, n, depth) && Inner(n, level, depth, h)
    requires |s.beta| == |t.beta| == h
    requires Continues(FRow(p, n, level, depth, h), q2, s, level + 1, depth)
    requires Continues(GRow(SaveRow(q2, n, level, depth, h), n, level, depth, h), q4, t, level + 1, depth)
    ensures Continues(p, CombineRow(q4, n, level, depth, h),
                      Survivor(s.parent, Xor(s.beta, t.beta) + t.beta, t.metric), level, depth)
  {
    hide F, G;
    LeftContinues(p, q2, s, n, level, depth, h);
    var q3 := GRow(SaveRow(q2, n, level, depth, h), n, level, depth, h);
    assert q4.llr[..level + 1] == q4.llr[..level + 2][..level + 1] == q3.llr[..level + 1] == q2.llr[..level + 1];
    assert q4.beta[level] == q4.beta[..level + 1][level] == q3.beta[level];
    assert q3.beta[level][..h] == s.beta;
    assert q4.beta[..level] == q4.beta[..level + 1][..level] == q3.beta[..level] == q2.beta[..level];
    assert q2.beta[..level] == q2.beta[..level + 1][..level] == p.beta[..level];
  }

  lemma NodeSurvived(r0: seq<Row>, r1: seq<Row>, r2: seq<Row>, r3: seq<Row>, r4: seq<Row>, r5: seq<Row>,
                     left: seq<Survivor>, right: seq<Survivor>, n: nat, level: nat, depth: nat, h: nat)
    requires RowsOk(r0, n, depth) && RowsOk(r2, n, depth) && RowsOk(r4, n, depth) && Inner(n, level, depth, h)
    requires |r1| == |r0| && |r3| == |r2| && |r5| == |r4|
    requires forall i :: 0 <= i < |r0| ==> r1[i] == FRow(r0[i], n, level, depth, h)
    requires Survived(r1, r2, left, level + 1, depth) && Sound(left, |r0|, h)
    requires forall i :: 0 <= i < |r2| ==> r3[i] == GRow(SaveRow(r2[i], n, level, depth, h), n, level, depth, h)
    requires Survived(r3, r4, right, level + 1, depth) && Sound(right, |left|, h)
    requires forall i :: 0 <= i < |r4| ==> r5[i] == CombineRow(r4[i], n, level, depth, h)
    ensures Survived(r0, r5, Combined(left, right, h, |r0|), level, depth)
  {
    hide F, G, Xor, FRow, GRow, SaveRow, CombineRow, LevelWidth, RowOk, Continues, Inner;
    var ss := Combined(left, right, h, |r0|);
    forall j | 0 <= j < |ss|
      ensures ss[j].parent < |r0| && Continues(r0[ss[j].parent], r5[j], ss[j], level, depth)
    {
      var k := right[j].parent;
      assert right[j].parent < |r3| && Continues(r3[k], r4[j], right[j], level + 1, depth);
      assert left[k].parent < |r1| && Continues(r1[left[k].parent], r2[k], left[k], level + 1, depth);
      NodeContinues(r0[left[k].parent], r2[k], r4[j], left[k], right[j], n, level, depth, h);
    }
  }

  /** Levels below a node of `length` leaves. */
  function Levels(length: nat): nat {
    if length <= 1 then 0 else 1 + Levels(length / 2)
  }

  lemma ChildNode(n: nat, level: nat, depth: nat, length: nat)
    requires Pow2(length) && length != 1 && LevelWidth(n, level) == length && depth == level + 1 + Levels(length)
    ensures length == 2 * (length / 2) && Pow2(length / 2) && Inner(n, level, depth, length / 2)
    ensures LevelWidth(n, level + 1) == length / 2 && depth == level + 2 + Levels(length / 2)
  {
  }

  /** An inner node of the decode tree: what its six steps leave is what the recursion says. */
  lemma NodeRows(r0: seq<Row>, r1: seq<Row>, r2: seq<Row>, r3: seq<Row>, r4: seq<Row>, r5: seq<Row>,
                 f1: Word, f2: Word, list: nat, n: nat, level: nat, depth: nat, h: nat)
    requires RowsOk(r0, n, depth) && RowsOk(r1, n, depth) && RowsOk(r2, n, depth) && RowsOk(r3, n, depth)
             && RowsOk(r4, n, depth)
    requires Inner(n, level, depth, h) && Pow2(h) && |f1| == |f2| == h
    requires |r1| == |r0| && |r3| == |r2| && |r5| == |r4|
    requires forall i :: 0 <= i < |r0| ==> r1[i] == FRow(r0[i], n, level, depth, h)
    requires Survived(r1, r2, Scl(Entries(r1, n, level + 1, depth), f1, list), level + 1, depth)
    requires forall i :: 0 <= i < |r2| ==> r3[i] == GRow(SaveRow(r2[i], n, level, depth, h), n, level, depth, h)
    requires Survived(r3, r4, Scl(Entries(r3, n, level + 1, depth), f2, list), level + 1, depth)
    requires forall i :: 0 <= i < |r4| ==> r5[i] == CombineRow(r4[i], n, level, depth, h)
    ensures Pow2(|f1 + f2|) && LevelWidth(n, level) == |f1 + f2|
    ensures Survived(r0, r5, Scl(Entries(r0, n, level, depth), f1 + f2, list), level, depth)
  {
    hide FRow, SaveRow, GRow, CombineRow, RowOk, RowsOk, Survived, Entries, Scl, FEntries, GEntries, Sound, Combined;
    var es := Entries(r0, n, level, depth);
    FBranch(r0, r1, n, level, depth, h);
    var left := Scl(FEntries(es, h), f1, list);
    GBranch(r0, r1, r2, r3, left, n, level, depth, h);
    var right := Scl(GEntries(es, left, h), f2, list);
    NodeSurvived(r0, r1, r2, r3, r4, r5, left, right, n, level, depth, h);
    SclUnfold(es, f1, f2, list);
  }

  lemma SclUnfold(es: seq<Entry>, f1: Word, f2: Word, list: nat)
    requires Pow2(|f1|) && |f1| == |f2| && Width(es, 2 * |f1|)
    ensures Pow2(|f1 + f2|) && Sound(Scl(FEntries(es, |f1|), f1, list), |es|, |f1|)
    ensures var left := Scl(FEntries(es, |f1|), f1, list);
            Scl(es, f1 + f2, list) == Combined(left, Scl(GEntries(es, left, |f1|), f2, list), |f1|, |es|)
  {
    var frozen := f1 + f2;
    assert |frozen| / 2 == |f1| && frozen[..|f1|] == f1 && frozen[|f1|..] == f2;
  }

  lemma LeafNode(rs: seq<Row>, fz: Word, list: nat, n: nat, level: nat, depth: nat)
    requires RowsOk(rs, n, depth) && |fz| == 1 && LevelWidth(n, level) == 1 && depth == level + 1 + Levels(1)
    ensures Pow2(1) && Leaf(n, level, depth)
    ensures Scl(Entries(rs, n, level, depth), fz, list)
         == if fz[0] then Freeze(Entries(rs, n, level, depth)) else Prune(Fork(Entries(rs, n, level, depth)), list)
  {
  }
}
