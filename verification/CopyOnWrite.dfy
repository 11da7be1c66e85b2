/** Shared per-level arrays with copy-on-write, as reference-counted slices behave: cloning a slot
    copies its pointers, and a write lands in place only when no other pointer leads to the array. */
module CopyOnWrite {

  /** `cells` is the storage; slot `i` reaches its array of level `l` through `ptrs[i][l]`. */
  datatype Store<X> = Store(cells: seq<X>, ptrs: seq<seq<nat>>)

  ghost predicate StoreOk<X>(st: Store<X>, slots: nat, depth: nat) {
    && |st.ptrs| == slots
    && (forall i {:trigger st.ptrs[i]} :: 0 <= i < slots ==> |st.ptrs[i]| == depth)
    && (forall i, l :: 0 <= i < slots && 0 <= l < depth ==> st.ptrs[i][l] < |st.cells|)
  }

  /** What slot `i` sees at level `l`. */
  function Get<X>(st: Store<X>, i: nat, l: nat): X
    requires i < |st.ptrs| && l < |st.ptrs[i]| && st.ptrs[i][l] < |st.cells|
  {
    st.cells[st.ptrs[i][l]]
  }

  /** What every slot sees. */
  ghost function View<X>(st: Store<X>, slots: nat, depth: nat): (v: seq<seq<X>>)
    requires StoreOk(st, slots, depth)
    ensures |v| == slots
    ensures forall i {:trigger v[i]} :: 0 <= i < slots ==> |v[i]| == depth
    ensures forall i, l :: 0 <= i < slots && 0 <= l < depth ==> v[i][l] == st.cells[st.ptrs[i][l]]
  {
    seq(slots, i requires 0 <= i < slots => seq(depth, l requires 0 <= l < depth => st.cells[st.ptrs[i][l]]))
  }

  /** No other pointer leads to the array of slot `i`, level `l`: its reference count is 1. */
  predicate Sole<X>(st: Store<X>, i: nat, l: nat)
    requires i < |st.ptrs| && l < |st.ptrs[i]|
  {
    forall j, m :: 0 <= j < |st.ptrs| && 0 <= m < |st.ptrs[j]| && st.ptrs[j][m] == st.ptrs[i][l] ==> j == i && m == l
  }

  /** Write `x` as the array of slot `i`, level `l`. */
  function MakeMut<X>(st: Store<X>, i: nat, l: nat, x: X): (r: Store<X>)
    requires i < |st.ptrs| && l < |st.ptrs[i]| && st.ptrs[i][l] < |st.cells|
  {
    if Sole(st, i, l) then st.(cells := st.cells[st.ptrs[i][l] := x])
    else
      var row: seq<nat> := st.ptrs[i][l := |st.cells|];
      Store(st.cells + [x], st.ptrs[i := row])
  }

  /** Slot `dst` becomes another owner of everything slot `src` owns. */
  function Clone<X>(st: Store<X>, dst: nat, src: nat): (r: Store<X>)
    requires dst < |st.ptrs| && src < |st.ptrs|
  {
    st.(ptrs := st.ptrs[dst := st.ptrs[src]])
  }

  /** The `|o|` elements from `base` on, taken in the order `o`. */
  function Reorder<Y>(xs: seq<Y>, base: nat, o: seq<nat>): (r: seq<Y>)
    requires base + |o| <= |xs| && forall i :: 0 <= i < |o| ==> o[i] < |o|
    ensures |r| == |xs|
  {
    seq(|xs|, k requires 0 <= k < |xs| => if base <= k < base + |o| then xs[base + o[k - base]] else xs[k])
  }

  /** Slots sorted in place: only pointers move. */
  function Sorted<X>(st: Store<X>, base: nat, o: seq<nat>): (r: Store<X>)
    requires base + |o| <= |st.ptrs| && forall i :: 0 <= i < |o| ==> o[i] < |o|
  {
    st.(ptrs := Reorder(st.ptrs, base, o))
  }

  /** A write through one slot is seen by that slot, at that level, and by nobody else. */
  lemma WriteIsPrivate<X>(st: Store<X>, slots: nat, depth: nat, i: nat, l: nat, x: X)
    requires StoreOk(st, slots, depth) && i < slots && l < depth
    ensures StoreOk(MakeMut(st, i, l, x), slots, depth)
    ensures View(MakeMut(st, i, l, x), slots, depth)
         == View(st, slots, depth)[i := View(st, slots, depth)[i][l := x]]
  {
    var r := MakeMut(st, i, l, x);
    var v, w := View(st, slots, depth), View(r, slots, depth);
    forall j, m | 0 <= j < slots && 0 <= m < depth
      ensures w[j][m] == if j == i && m == l then x else v[j][m]
    {
      assert st.ptrs[j][m] < |st.cells|;
    }
    assert w[i] == v[i][l := x];
    assert forall j :: 0 <= j < slots && j != i ==> w[j] == v[j];
  }

  lemma CloneIsCopy<X>(st: Store<X>, slots: nat, depth: nat, dst: nat, src: nat)
    requires StoreOk(st, slots, depth) && dst < slots && src < slots
    ensures StoreOk(Clone(st, dst, src), slots, depth)
    ensures View(Clone(st, dst, src), slots, depth) == View(st, slots, depth)[dst := View(st, slots, depth)[src]]
  {
    var v, w := View(st, slots, depth), View(Clone(st, dst, src), slots, depth);
    assert forall j :: 0 <= j < slots ==> w[j] == if j == dst then v[src] else v[j];
  }

  lemma SortingMovesViews<X>(st: Store<X>, slots: nat, depth: nat, base: nat, o: seq<nat>)
    requires StoreOk(st, slots, depth) && base + |o| <= slots && forall i :: 0 <= i < |o| ==> o[i] < |o|
    ensures StoreOk(Sorted(st, base, o), slots, depth)
    ensures View(Sorted(st, base, o), slots, depth) == Reorder(View(st, slots, depth), base, o)
  {
    var r := Sorted(st, base, o);
    forall j, l | 0 <= j < slots && 0 <= l < depth
      ensures |r.ptrs[j]| == depth && r.ptrs[j][l] < |r.cells|
    {
      var k := if base <= j < base + |o| then base + o[j - base] else j;
      assert r.ptrs[j] == st.ptrs[k] && st.ptrs[k][l] < |st.cells|;
    }
    var v, w := View(st, slots, depth), View(r, slots, depth);
    forall j | 0 <= j < slots ensures w[j] == Reorder(v, base, o)[j] {
      var k := if base <= j < base + |o| then base + o[j - base] else j;
      assert r.ptrs[j] == st.ptrs[k];
      assert w[j] == v[k];
    }
  }
}
