/** What the list decoder computes, told without its arrays: a list of paths enters a subtree with
    their LLRs, and a list of survivors leaves it, each naming the path it continues. */
module PolarScl {
  import opened Bits
  import opened PolarTransform
  import opened PolarSc
  import opened StableSort

  /** A path as it enters a node: the LLRs of the node and the metric so far. */
  datatype Entry = Entry(llr: Llrs, metric: real)

  /** A survivor: the entry it continues, the re-encoded decisions of the node, the metric now. */
  datatype Survivor = Survivor(parent: nat, beta: Word, metric: real)

  /** Cost of deciding `bit` against the LLR `l`. */
  function Pen(l: real, bit: bool): real {
    if bit then (if l > 0.0 then l else 0.0) else (if l < 0.0 then -l else 0.0)
  }

  // ---- pruning ----------------------------------------------------------------------------

  function Metrics(ss: seq<Survivor>): (ms: seq<real>)
    ensures |ms| == |ss|
  {
    seq(|ss|, i requires 0 <= i < |ss| => ss[i].metric)
  }

  /** Sort by metric and keep the best `list`. */
  function Prune(ss: seq<Survivor>, list: nat): (r: seq<Survivor>) {
    Gather(ss, Best(Metrics(ss), list))
  }

  // ---- the recursion ------------------------------------------------------------------------

  predicate Width(es: seq<Entry>, n: nat) {
    forall i {:trigger es[i]} :: 0 <= i < |es| ==> |es[i].llr| == n
  }

  function FEntries(es: seq<Entry>, h: nat): (r: seq<Entry>)
    requires Width(es, 2 * h)
    ensures |r| == |es| && Width(r, h)
  {
    seq(|es|, i requires 0 <= i < |es| => Entry(F(es[i].llr[..h], es[i].llr[h..]), es[i].metric))
  }

  /** The survivors of the left child enter the right one, each with its own partial sum. */
  function GEntries(es: seq<Entry>, left: seq<Survivor>, h: nat): (r: seq<Entry>)
    requires Width(es, 2 * h) && Sound(left, |es|, h)
    ensures |r| == |left| && Width(r, h)
  {
    seq(|left|, k requires 0 <= k < |left| =>
      var e := es[left[k].parent];
      Entry(G(e.llr[..h], e.llr[h..], left[k].beta), left[k].metric))
  }

  predicate Sound(ss: seq<Survivor>, parents: nat, n: nat) {
    forall j {:trigger ss[j]} :: 0 <= j < |ss| ==> ss[j].parent < parents && |ss[j].beta| == n
  }

  function Combined(left: seq<Survivor>, right: seq<Survivor>, h: nat, parents: nat): (r: seq<Survivor>)
    requires Sound(left, parents, h) && Sound(right, |left|, h)
    ensures |r| == |right| && Sound(r, parents, 2 * h)
  {
    seq(|right|, j requires 0 <= j < |right| =>
      var s := left[right[j].parent];
      Survivor(s.parent, Xor(s.beta, right[j].beta) + right[j].beta, right[j].metric))
  }

  function Fork(es: seq<Entry>): (r: seq<Survivor>)
    requires Width(es, 1)
    ensures |r| == 2 * |es| && Sound(r, |es|, 1)
  {
    seq(2 * |es|, i requires 0 <= i < 2 * |es| => Decided(es, i / 2, i % 2 == 1))
  }

  function Freeze(es: seq<Entry>): (r: seq<Survivor>)
    requires Width(es, 1)
    ensures |r| == |es| && Sound(r, |es|, 1)
  {
    seq(|es|, i requires 0 <= i < |es| => Decided(es, i, false))
  }

  /** Entry `i` at a leaf, decided as `bit`. */
  function Decided(es: seq<Entry>, i: nat, bit: bool): (s: Survivor)
    requires i < |es| && |es[i].llr| == 1
  {
    Survivor(i, [bit], es[i].metric + Pen(es[i].llr[0], bit))
  }

  /** The whole list through the subtree whose leaves `frozen` masks. */
  function Scl(es: seq<Entry>, frozen: Word, list: nat): (r: seq<Survivor>)
    requires Pow2(|frozen|) && Width(es, |frozen|)
    ensures Sound(r, |es|, |frozen|)
    decreases |frozen|
  {
    if |frozen| == 1 then
      if frozen[0] then Freeze(es) else Prune(Fork(es), list)
    else
      var h := |frozen| / 2;
      var left := Scl(FEntries(es, h), frozen[..h], list);
      var right := Scl(GEntries(es, left, h), frozen[h..], list);
      Combined(left, right, h, |es|)
  }
}
