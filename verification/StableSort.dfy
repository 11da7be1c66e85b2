/** The stable sort by metric that list pruning relies on, as an order of indices. */
module StableSort {

  /** The first `k` indices in order of metric, equal metrics in index order. */
  function Order(ms: seq<real>, k: nat): (o: seq<nat>)
    requires k <= |ms|
    ensures |o| == k && Below(o, k)
  {
    if k == 0 then [] else
      var o := Order(ms, k - 1);
      Insert(o, Slot(ms, o, ms[k - 1], |o|), k - 1)
  }

  predicate Below(o: seq<nat>, k: nat) {
    forall i :: 0 <= i < |o| ==> o[i] < k
  }

  function Insert(o: seq<nat>, at: nat, x: nat): (r: seq<nat>)
    requires at <= |o|
    ensures |r| == |o| + 1
  {
    o[..at] + [x] + o[at..]
  }

  /** Where a new element goes among the first `n` of `o`: after every metric that is not larger. */
  function Slot(ms: seq<real>, o: seq<nat>, m: real, n: nat): (at: nat)
    requires n <= |o| && Below(o, |ms|)
    ensures at <= n && (at > 0 ==> ms[o[at - 1]] <= m)
    ensures forall i :: at <= i < n ==> ms[o[i]] > m
  {
    if n == 0 || ms[o[n - 1]] <= m then n else Slot(ms, o, m, n - 1)
  }

  /** The `list` best. */
  function Best(ms: seq<real>, list: nat): (o: seq<nat>)
    ensures |o| == (if |ms| <= list then |ms| else list) && Below(o, |ms|)
  {
    if |ms| <= list then Order(ms, |ms|) else Order(ms, |ms|)[..list]
  }

  function Gather<X>(xs: seq<X>, o: seq<nat>): (r: seq<X>)
    requires Below(o, |xs|)
    ensures |r| == |o|
  {
    seq(|o|, i requires 0 <= i < |o| => xs[o[i]])
  }

  ghost predicate Distinct(o: seq<nat>) {
    forall i, j :: 0 <= i < j < |o| ==> o[i] != o[j]
  }

  ghost predicate NonDecreasing(ms: seq<real>, o: seq<nat>) {
    Below(o, |ms|) && forall i, j :: 0 <= i < j < |o| ==> ms[o[i]] <= ms[o[j]]
  }

  lemma InsertIndex(o: seq<nat>, at: nat, x: nat)
    requires at <= |o|
    ensures Insert(o, at, x)[at] == x
    ensures forall i :: 0 <= i < at ==> Insert(o, at, x)[i] == o[i]
    ensures forall i :: at < i <= |o| ==> Insert(o, at, x)[i] == o[i - 1]
  {
  }

  lemma InsertDistinct(o: seq<nat>, at: nat, x: nat)
    requires Distinct(o) && at <= |o| && Below(o, x)
    ensures Distinct(Insert(o, at, x))
  {
    InsertIndex(o, at, x);
  }

  lemma InsertAscends(ms: seq<real>, o: seq<nat>, at: nat, x: nat)
    requires NonDecreasing(ms, o) && x < |ms| && at <= |o|
    requires at > 0 ==> ms[o[at - 1]] <= ms[x]
    requires forall i :: at <= i < |o| ==> ms[o[i]] > ms[x]
    ensures NonDecreasing(ms, Insert(o, at, x))
  {
    InsertIndex(o, at, x);
    assert forall i :: 0 <= i < at ==> ms[o[i]] <= ms[x];
  }

  lemma OrderOfNone(ms: seq<real>)
    ensures Order(ms, 0) == [] && NonDecreasing(ms, []) && Distinct([])
  {
  }

  lemma OrderStep(ms: seq<real>, k: nat) returns (o: seq<nat>, at: nat)
    requires 0 < k <= |ms|
    ensures o == Order(ms, k - 1) && at < k && Order(ms, k) == Insert(o, at, k - 1)
    ensures at > 0 ==> ms[o[at - 1]] <= ms[k - 1]
    ensures forall i :: at <= i < |o| ==> ms[o[i]] > ms[k - 1]
  {
    o := Order(ms, k - 1);
    at := Slot(ms, o, ms[k - 1], |o|);
  }

  lemma {:induction false} OrderAscends(ms: seq<real>, k: nat)
    requires k <= |ms|
    ensures NonDecreasing(ms, Order(ms, k))
  {
    hide *;
    if k == 0 {
      OrderOfNone(ms);
    } else {
      var o, at := OrderStep(ms, k);
      OrderAscends(ms, k - 1);
      InsertAscends(ms, o, at, k - 1);
    }
  }

  lemma {:induction false} OrderDistinct(ms: seq<real>, k: nat)
    requires k <= |ms|
    ensures Distinct(Order(ms, k))
  {
    hide *;
    if k == 0 {
      OrderOfNone(ms);
    } else {
      var o, at := OrderStep(ms, k);
      OrderDistinct(ms, k - 1);
      InsertDistinct(o, at, k - 1);
    }
  }

  /** Every index is somewhere in the order. */
  lemma {:induction false} OrderCovers(ms: seq<real>, k: nat, x: nat) returns (j: nat)
    requires x < k <= |ms|
    ensures j < k && Order(ms, k)[j] == x
  {
    hide *;
    var o, at := OrderStep(ms, k);
    InsertIndex(o, at, k - 1);
    if x == k - 1 {
      j := at;
    } else {
      j := OrderCovers(ms, k - 1, x);
      if j >= at { j := j + 1; }
    }
  }

  /** The kept ones come in order, are kept once, and an index that is dropped is no better than any kept one. */
  lemma BestAreBest(ms: seq<real>, list: nat)
    ensures NonDecreasing(ms, Best(ms, list)) && Distinct(Best(ms, list))
    ensures forall x, j :: 0 <= x < |ms| && x !in Best(ms, list) && 0 <= j < |Best(ms, list)| ==>
              ms[Best(ms, list)[j]] <= ms[x]
  {
    hide Order;
    OrderAscends(ms, |ms|);
    OrderDistinct(ms, |ms|);
    forall x, j | 0 <= x < |ms| && x !in Best(ms, list) && 0 <= j < |Best(ms, list)|
      ensures ms[Best(ms, list)[j]] <= ms[x]
    {
      DroppedIsNoBetter(ms, list, x, j);
    }
  }

  lemma DroppedIsNoBetter(ms: seq<real>, list: nat, x: nat, j: nat)
    requires x < |ms| && x !in Best(ms, list) && j < |Best(ms, list)| && NonDecreasing(ms, Order(ms, |ms|))
    ensures ms[Best(ms, list)[j]] <= ms[x]
  {
    var at := OrderCovers(ms, |ms|, x);
    assert forall i :: 0 <= i < |Best(ms, list)| ==> Best(ms, list)[i] == Order(ms, |ms|)[i];
  }

  // ---- stability -----------------------------------------------------------------------------------------------

  /** x comes before y: smaller metric, or the same one and a lower index. */
  predicate Before(ms: seq<real>, x: nat, y: nat)
    requires x < |ms| && y < |ms|
  {
    ms[x] < ms[y] || (ms[x] == ms[y] && x < y)
  }

  ghost predicate Stable(ms: seq<real>, o: seq<nat>) {
    Below(o, |ms|) && forall i, j :: 0 <= i < j < |o| ==> Before(ms, o[i], o[j])
  }

  lemma InsertStable(ms: seq<real>, o: seq<nat>, at: nat, x: nat)
    requires Stable(ms, o) && Below(o, x) && x < |ms| && at <= |o|
    requires at > 0 ==> ms[o[at - 1]] <= ms[x]
    requires forall i :: at <= i < |o| ==> ms[o[i]] > ms[x]
    ensures Stable(ms, Insert(o, at, x))
  {
    InsertIndex(o, at, x);
    forall i | 0 <= i < at ensures Before(ms, o[i], x) {
      assert i < at - 1 ==> Before(ms, o[i], o[at - 1]);
    }
  }

  /** Equal metrics keep the order of their indices. */
  lemma {:induction false} OrderIsStable(ms: seq<real>, k: nat)
    requires k <= |ms|
    ensures Stable(ms, Order(ms, k))
  {
    hide Order, Insert, Slot;
    if k == 0 {
      OrderOfNone(ms);
    } else {
      var o, at := OrderStep(ms, k);
      OrderIsStable(ms, k - 1);
      InsertStable(ms, o, at, k - 1);
    }
  }

  /** The first k of the order come before every other index. */
  lemma FirstComeBefore(ms: seq<real>, k: nat, x: nat, y: nat)
    requires k <= |ms| && x in Order(ms, |ms|)[..k] && y < |ms| && y !in Order(ms, |ms|)[..k]
    ensures x < |ms| && Before(ms, x, y)
  {
    hide Order;
    OrderIsStable(ms, |ms|);
    var o := Order(ms, |ms|);
    forall n | 0 <= n < k ensures o[n] != y { assert o[n] == o[..k][n]; }
    var j := OrderCovers(ms, |ms|, y);
    var i :| 0 <= i < k && o[..k][i] == x;
  }

  /** When all fit, every index is kept. */
  lemma BestCovers(ms: seq<real>, list: nat, x: nat) returns (j: nat)
    requires x < |ms| <= list
    ensures j < |ms| && Best(ms, list)[j] == x
  {
    j := OrderCovers(ms, |ms|, x);
  }

  /** The better of two, the first one on a tie. */
  lemma BestOfTwo(a: real, b: real)
    ensures Best([a, b], 1) == [if a <= b then 0 else 1]
  {
    var ms := [a, b];
    assert Order(ms, 0) == [] && Order(ms, 1) == [0];
    assert Slot(ms, [0], b, 0) == 0;
    assert Order(ms, 2) == if a <= b then [0, 1] else [1, 0];
  }

  lemma OrderOfTwo(a: real, b: real)
    ensures Best([a, b], 2) == if a <= b then [0, 1] else [1, 0]
  {
    var ms := [a, b];
    assert Order(ms, 0) == [] && Order(ms, 1) == [0];
    assert Slot(ms, [0], b, 0) == 0;
    assert Order(ms, 2) == if a <= b then [0, 1] else [1, 0];
  }

  /** An index that is no worse than any other, and better than all before it, comes first. */
  lemma FirstOfBest(ms: seq<real>, list: nat, x: nat)
    requires x < |ms| && list > 0
    requires forall y :: 0 <= y < |ms| ==> ms[x] <= ms[y] && (y < x ==> ms[x] < ms[y])
    ensures |Best(ms, list)| > 0 && Best(ms, list)[0] == x
  {
    FirstOfOrder(ms, |ms|, x);
  }

  lemma {:induction false} FirstOfOrder(ms: seq<real>, k: nat, x: nat)
    requires x < k <= |ms|
    requires forall y :: 0 <= y < k ==> ms[x] <= ms[y] && (y < x ==> ms[x] < ms[y])
    ensures Order(ms, k)[0] == x
  {
    hide Order, Insert;
    var o, at := OrderStep(ms, k);
    InsertIndex(o, at, k - 1);
    if x < k - 1 {
      FirstOfOrder(ms, k - 1, x);
      assert at > 0;
    }
  }
}
