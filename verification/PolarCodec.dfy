/** What the polar encoder and decoders promise, message in and message out. */
module PolarCodec {
  import opened Bits
  import opened PolarTransform
  import opened PolarSc
  import opened PolarScl
  import opened PolarList
  import opened StableSort
  import opened Options

  // ---- message and frozen positions -----------------------------------------------------------

  /** K, the number of information positions. */
  function Free(frozen: Word): (k: nat)
    ensures k <= |frozen|
  {
    if |frozen| == 0 then 0 else (if frozen[0] then 0 else 1) + Free(frozen[1..])
  }

  /** The message at the information positions, zeros at the frozen ones. */
  function Expand(info: Word, frozen: Word): (u: Word)
    requires |info| == Free(frozen)
    ensures |u| == |frozen|
    decreases |frozen|
  {
    if |frozen| == 0 then []
    else if frozen[0] then [false] + Expand(info, frozen[1..])
    else [info[0]] + Expand(info[1..], frozen[1..])
  }

  function Extract(u: Word, frozen: Word): (info: Word)
    requires |u| == |frozen|
    ensures |info| == Free(frozen)
    decreases |frozen|
  {
    if |frozen| == 0 then []
    else if frozen[0] then Extract(u[1..], frozen[1..])
    else [u[0]] + Extract(u[1..], frozen[1..])
  }

  lemma {:induction false} ExpandExtract(info: Word, frozen: Word)
    requires |info| == Free(frozen)
    ensures Extract(Expand(info, frozen), frozen) == info && Respects(Expand(info, frozen), frozen)
    decreases |frozen|
  {
    if |frozen| > 0 {
      var u := Expand(info, frozen);
      var rest := if frozen[0] then info else info[1..];
      ExpandExtract(rest, frozen[1..]);
      assert u[1..] == Expand(rest, frozen[1..]);
      forall i | 0 <= i < |u| && frozen[i] ensures !u[i] {
        if i > 0 { assert u[i] == u[1..][i - 1] && frozen[1..][i - 1]; }
      }
    }
  }

  lemma {:induction false} ExtractExpand(u: Word, frozen: Word)
    requires Respects(u, frozen)
    ensures Expand(Extract(u, frozen), frozen) == u
    decreases |frozen|
  {
    if |frozen| > 0 {
      assert forall i :: 0 <= i < |u| - 1 ==> u[1..][i] == u[i + 1] && frozen[1..][i] == frozen[i + 1];
      ExtractExpand(u[1..], frozen[1..]);
      if !frozen[0] { assert Extract(u, frozen)[1..] == Extract(u[1..], frozen[1..]); }
      assert u == [u[0]] + u[1..];
    }
  }

  function Codeword(info: Word, frozen: Word): (x: Word)
    requires |info| == Free(frozen) && Pow2(|frozen|)
    ensures |x| == |frozen|
  {
    T(Expand(info, frozen))
  }

  /** 2^K messages. */
  function Power(k: nat): (p: nat)
    ensures p > 0
  {
    if k == 0 then 1 else 2 * Power(k - 1)
  }

  lemma {:induction false} GrowIsPower(m: nat, frozen: Word)
    ensures Grow(m, frozen) == m * Power(Free(frozen))
    decreases |frozen|
  {
    if |frozen| > 0 {
      GrowIsPower(if frozen[0] then m else 2 * m, frozen[1..]);
    }
  }

  // ---- what the decoders choose from, and what they choose -----------------------------------

  function Root(llr: Llrs): (es: seq<Entry>)
    ensures Width(es, |llr|)
  {
    [Entry(llr, 0.0)]
  }

  /** The decided words in the order in which the decoder tries them. With a list of one the decoder
      runs plain successive cancellation. */
  function Candidates(llr: Llrs, frozen: Word, list: nat): (us: seq<Word>)
    requires Pow2(|frozen|) && |llr| == |frozen|
    ensures forall i {:trigger us[i]} :: 0 <= i < |us| ==> |us[i]| == |frozen|
  {
    if list == 1 then [Sc(llr, frozen)]
    else
      var ss := Scl(Root(llr), frozen, list);
      seq(|ss|, i requires 0 <= i < |ss| => T(ss[i].beta))
  }

  /** The index of the first candidate that passes, or the number of candidates. */
  function FirstPass(us: seq<Word>, frozen: Word, check: Word -> bool, from: nat): (i: nat)
    requires from <= |us| && forall i {:trigger us[i]} :: 0 <= i < |us| ==> |us[i]| == |frozen|
    ensures from <= i <= |us| && (i < |us| ==> check(Extract(us[i], frozen)))
    ensures forall j {:trigger us[j]} :: from <= j < i ==> !check(Extract(us[j], frozen))
    decreases |us| - from
  {
    if from == |us| || check(Extract(us[from], frozen)) then from else FirstPass(us, frozen, check, from + 1)
  }

  /** The message returned, and whether it satisfies the CRC. */
  function Answer(us: seq<Word>, frozen: Word, crc: Option<Word -> bool>): (r: (Word, bool))
    requires |us| > 0 && forall i {:trigger us[i]} :: 0 <= i < |us| ==> |us[i]| == |frozen|
    ensures |r.0| == Free(frozen)
  {
    match crc
    case None => (Extract(us[0], frozen), false)
    case Some(check) =>
      var i := FirstPass(us, frozen, check, 0);
      if i < |us| then (Extract(us[i], frozen), true) else (Extract(us[0], frozen), false)
  }

  /** Weighted disagreement of a message's codeword with the channel. */
  function Cost(info: Word, frozen: Word, llr: Llrs): (d: real)
    requires |info| == Free(frozen) && Pow2(|frozen|) && |llr| == |frozen|
  {
    Dis(llr, Codeword(info, frozen))
  }

  /** A list is never empty. */
  lemma {:induction false} SclNonEmpty(es: seq<Entry>, frozen: Word, list: nat)
    requires Pow2(|frozen|) && Width(es, |frozen|) && |es| > 0 && list > 0
    ensures |Scl(es, frozen, list)| > 0
    decreases |frozen|
  {
    if |frozen| > 1 {
      var f1, f2, left, right := Unfold(es, frozen, list);
      SclNonEmpty(FEntries(es, |f1|), f1, list);
      SclNonEmpty(GEntries(es, left, |f1|), f2, list);
    }
  }

  /** The list never outgrows its size. */
  lemma {:induction false} SclBounded(es: seq<Entry>, frozen: Word, list: nat)
    requires Pow2(|frozen|) && Width(es, |frozen|) && |es| <= list
    ensures |Scl(es, frozen, list)| <= list
    decreases |frozen|
  {
    if |frozen| > 1 {
      var f1, f2, left, right := Unfold(es, frozen, list);
      SclBounded(FEntries(es, |f1|), f1, list);
      SclBounded(GEntries(es, left, |f1|), f2, list);
    }
  }

  lemma CandidatesNonEmpty(llr: Llrs, frozen: Word, list: nat)
    requires Pow2(|frozen|) && |llr| == |frozen| && list > 0
    ensures |Candidates(llr, frozen, list)| > 0
  {
    SclNonEmpty(Root(llr), frozen, list);
  }

  /** A candidate of the list is a message, and its path metric is that message's cost. */
  lemma CandidateCost(llr: Llrs, frozen: Word, list: nat, i: nat)
    requires Pow2(|frozen|) && |llr| == |frozen| && list != 1 && i < |Scl(Root(llr), frozen, list)|
    ensures var u := Candidates(llr, frozen, list)[i];
            Respects(u, frozen) && Expand(Extract(u, frozen), frozen) == u &&
            Scl(Root(llr), frozen, list)[i].metric == Cost(Extract(u, frozen), frozen, llr)
  {
    hide Scl, T;
    MetricIsDisagreement(Root(llr), frozen, list, i);
    var s := Scl(Root(llr), frozen, list)[i];
    TransformInvolution(s.beta);
    ExtractExpand(T(s.beta), frozen);
  }

  // ---- a list with room for every message decodes by maximum likelihood -----------------------

  lemma EveryMessageIsACandidate(llr: Llrs, frozen: Word, list: nat, info: Word) returns (j: nat)
    requires Pow2(|frozen|) && |llr| == |frozen| && Power(Free(frozen)) <= list && list != 1
    requires |info| == Free(frozen)
    ensures j < |Scl(Root(llr), frozen, list)| && Extract(Candidates(llr, frozen, list)[j], frozen) == info
  {
    hide Scl, T, Sc;
    ExpandExtract(info, frozen);
    GrowIsPower(1, frozen);
    j := Reaches(Root(llr), frozen, list, 0, Expand(info, frozen));
  }

  predicate Accepts(crc: Option<Word -> bool>, info: Word) {
    crc.Some? ==> crc.value(info)
  }

  /** With room for all 2^K messages and an information bit at the last leaf, list decoding returns a
      message of least cost. With a CRC it returns one of least cost among the messages that pass, and
      reports a pass exactly when there is one. */
  lemma FullListIsMaximumLikelihood(llr: Llrs, frozen: Word, list: nat, crc: Option<Word -> bool>, other: Word)
    requires Pow2(|frozen|) && |llr| == |frozen| && !frozen[|frozen| - 1] && Power(Free(frozen)) <= list && list > 1
    requires |other| == Free(frozen) && Accepts(crc, other)
    ensures |Candidates(llr, frozen, list)| > 0
    ensures var (info, ok) := Answer(Candidates(llr, frozen, list), frozen, crc);
            Accepts(crc, info) && ok == crc.Some? && Cost(info, frozen, llr) <= Cost(other, frozen, llr)
  {
    hide Scl, Cost, Extract, Sc, Pow2, T, Expand;
    var us := Candidates(llr, frozen, list);
    var j := EveryMessageIsACandidate(llr, frozen, list, other);
    var i := if crc.None? then 0 else FirstPass(us, frozen, crc.value, 0);
    assert i <= j;
    CandidatesCompare(llr, frozen, list, i, j);
  }

  lemma CandidatesCompare(llr: Llrs, frozen: Word, list: nat, i: nat, j: nat)
    requires Pow2(|frozen|) && |llr| == |frozen| && !frozen[|frozen| - 1] && list != 1
    requires i <= j < |Scl(Root(llr), frozen, list)|
    ensures var us := Candidates(llr, frozen, list);
            Cost(Extract(us[i], frozen), frozen, llr) <= Cost(Extract(us[j], frozen), frozen, llr)
  {
    hide Scl, Cost, Extract, Sc, Pow2, T, Expand;
    SortedIfLastLeafIsFree(Root(llr), frozen, list);
    CandidateCost(llr, frozen, list, i);
    CandidateCost(llr, frozen, list, j);
  }

  // ---- noiseless channels ------------------------------------------------------------------------

  /** Entry 0 carries the signs of the word's codeword and has paid nothing; nobody has a credit. */
  ghost predicate Leads(es: seq<Entry>, u: Word) {
    && |es| > 0 && Pow2(|u|) && Spells(es[0].llr, T(u)) && es[0].metric == 0.0
    && forall i {:trigger es[i]} :: 0 <= i < |es| ==> es[i].metric >= 0.0
  }

  ghost predicate Leading(ss: seq<Survivor>, u: Word) {
    && |ss| > 0 && ss[0].parent == 0 && Pow2(|u|) && ss[0].beta == T(u) && ss[0].metric == 0.0
    && forall i {:trigger ss[i]} :: 0 <= i < |ss| ==> ss[i].metric >= 0.0
  }

  /** The true path leads the list from the first leaf to the last, for every list size. */
  lemma {:induction false} TruePathLeads(es: seq<Entry>, frozen: Word, list: nat, u: Word)
    requires Pow2(|frozen|) && Width(es, |frozen|) && Respects(u, frozen) && Leads(es, u) && list > 0
    ensures Leading(Scl(es, frozen, list), u)
    decreases |frozen|
  {
    hide *;
    if |frozen| == 1 {
      TrueLeafLeads(es, frozen, list, u);
    } else {
      var f1, f2, left, right := Unfold(es, frozen, list);
      var h := |f1|;
      var u1, u2 := SplitRespects(u, f1, f2);
      LeadsBelow(es, left, u, u1, u2, h);
      TruePathLeads(FEntries(es, h), f1, list, u1);
      LeadsBeside(es, left, u, u1, u2, h);
      TruePathLeads(GEntries(es, left, h), f2, list, u2);
      LeadsAbove(es, left, right, u, u1, u2, h);
    }
  }

  lemma LeadsBelow(es: seq<Entry>, left: seq<Survivor>, u: Word, u1: Word, u2: Word, h: nat)
    requires Width(es, 2 * h) && Leads(es, u) && |u1| == |u2| == h && u == u1 + u2 && Pow2(h)
    ensures Leads(FEntries(es, h), u1)
  {
    HalvesSpell(es[0].llr, u, es[0].llr[..h], es[0].llr[h..], u1, u2);
  }

  lemma LeadsBeside(es: seq<Entry>, left: seq<Survivor>, u: Word, u1: Word, u2: Word, h: nat)
    requires Width(es, 2 * h) && Leads(es, u) && |u1| == |u2| == h && u == u1 + u2 && Pow2(h)
    requires Leading(left, u1) && Sound(left, |es|, h)
    ensures Leads(GEntries(es, left, h), u2)
  {
    HalvesSpell(es[0].llr, u, es[0].llr[..h], es[0].llr[h..], u1, u2);
  }

  lemma LeadsAbove(es: seq<Entry>, left: seq<Survivor>, right: seq<Survivor>, u: Word, u1: Word, u2: Word, h: nat)
    requires Sound(left, |es|, h) && Sound(right, |left|, h) && |u1| == |u2| == h && u == u1 + u2 && Pow2(h)
    requires Leading(left, u1) && Leading(right, u2)
    ensures Leading(Combined(left, right, h, |es|), u)
  {
    CombineIsTransform(u1, u2);
  }

  lemma TrueLeafLeads(es: seq<Entry>, frozen: Word, list: nat, u: Word)
    requires |frozen| == 1 && Width(es, 1) && Respects(u, frozen) && Leads(es, u) && list > 0
    ensures Pow2(1) && Leading(Scl(es, frozen, list), u)
  {
    hide Best;
    assert T(u) == u && u == [u[0]];
    if !frozen[0] {
      var ss := Fork(es);
      var x := if u[0] then 1 else 0;
      forall y | 0 <= y < |ss| ensures ss[y].metric >= 0.0 && (y < x ==> ss[y].metric > 0.0) {}
      FirstOfBest(Metrics(ss), list, x);
    }
  }

  /** Over a channel that only changes magnitudes, the encoder's message comes back: by successive
      cancellation and by every list size, without a CRC or with one the message passes. */
  lemma NoiselessRoundTrip(info: Word, frozen: Word, llr: Llrs, list: nat, crc: Option<Word -> bool>)
    requires |info| == Free(frozen) && Pow2(|frozen|) && Spells(llr, Codeword(info, frozen)) && list > 0
    requires Accepts(crc, info)
    ensures |Candidates(llr, frozen, list)| > 0
    ensures Answer(Candidates(llr, frozen, list), frozen, crc) == (info, crc.Some?)
  {
    hide Scl, Sc, T, Pow2, Extract, Expand;
    var u := Expand(info, frozen);
    ExpandExtract(info, frozen);
    if list == 1 {
      ScNoiseless(llr, u, frozen);
    } else {
      TruePathLeads(Root(llr), frozen, list, u);
      TransformInvolution(u);
    }
    assert Candidates(llr, frozen, list)[0] == u;
  }

  // ---- where the claim "ordered by path metric" stops ------------------------------------------

  /** The mask the reliability table gives: all positions frozen but the last `k` entries below `n`. */
  function FrozenMask(table: seq<nat>, n: nat, k: nat): (frozen: Word)
    ensures |frozen| == n
  {
    Mask(n, MostReliable(table, n, k))
  }

  /** The last k entries below n, or all of them if there are fewer. */
  function MostReliable(table: seq<nat>, n: nat, k: nat): (free: seq<nat>) {
    var c := Filtered(table, n);
    if k <= |c| then c[|c| - k..] else c
  }

  function Mask(n: nat, free: seq<nat>): (frozen: Word)
    ensures |frozen| == n
  {
    seq(n, i => i !in free)
  }

  lemma {:induction false} FreeSplits(a: Word, b: Word)
    ensures Free(a + b) == Free(a) + Free(b)
  {
    if |a| == 0 {
      assert a + b == b;
    } else {
      assert (a + b)[1..] == a[1..] + b;
      FreeSplits(a[1..], b);
    }
  }

  lemma {:induction false} AllFrozen(w: Word)
    requires forall i :: 0 <= i < |w| ==> w[i]
    ensures Free(w) == 0
  {
    if |w| > 0 { AllFrozen(w[1..]); }
  }

  lemma FreeOneMore(w: Word, p: nat)
    requires p < |w| && w[p]
    ensures Free(w[p := false]) == Free(w) + 1
  {
    var a, b := w[..p], w[p + 1..];
    assert w == a + ([true] + b) && w[p := false] == a + ([false] + b);
    FreeSplits(a, [true] + b);
    FreeSplits(a, [false] + b);
    assert ([true] + b)[1..] == b && ([false] + b)[1..] == b;
  }

  /** Distinct positions below n free exactly that many leaves. */
  lemma {:induction false} MaskFrees(n: nat, free: seq<nat>)
    requires Distinct(free) && forall i :: 0 <= i < |free| ==> free[i] < n
    ensures Free(Mask(n, free)) == |free|
    decreases |free|
  {
    if |free| == 0 {
      AllFrozen(Mask(n, free));
    } else {
      var rest, p := free[..|free| - 1], free[|free| - 1];
      MaskFrees(n, rest);
      FreeOneMore(Mask(n, rest), p);
      assert Mask(n, free) == Mask(n, rest)[p := false];
    }
  }

  lemma {:induction false} FilteredBelow(table: seq<nat>, n: nat)
    ensures forall i :: 0 <= i < |Filtered(table, n)| ==> Filtered(table, n)[i] < n
  {
    if |table| > 0 { FilteredBelow(table[1..], n); }
  }

  lemma {:induction false} FilteredFrom(table: seq<nat>, n: nat, x: nat)
    requires x in Filtered(table, n)
    ensures x in table
  {
    if |table| > 0 && x in Filtered(table[1..], n) { FilteredFrom(table[1..], n, x); }
  }

  lemma {:induction false} FilteredDistinct(table: seq<nat>, n: nat)
    requires Distinct(table)
    ensures Distinct(Filtered(table, n))
  {
    if |table| > 0 {
      var c := Filtered(table[1..], n);
      FilteredDistinct(table[1..], n);
      forall i | 0 <= i < |c| ensures c[i] != table[0] { FilteredFrom(table[1..], n, c[i]); }
    }
  }

  /** A table without repetitions frees exactly k leaves when it lists that many positions below n. */
  lemma MaskHasK(table: seq<nat>, n: nat, k: nat)
    requires Distinct(table) && k <= |Filtered(table, n)|
    ensures Free(FrozenMask(table, n, k)) == k
  {
    hide Filtered, Mask, Free;
    FilteredBelow(table, n);
    FilteredDistinct(table, n);
    MaskFrees(n, MostReliable(table, n, k));
  }

  function Filtered(table: seq<nat>, n: nat): (c: seq<nat>) {
    if |table| == 0 then []
    else (if table[0] < n then [table[0]] else []) + Filtered(table[1..], n)
  }

  lemma {:induction false} FilteredSplits(a: seq<nat>, b: seq<nat>, n: nat)
    ensures Filtered(a + b, n) == Filtered(a, n) + Filtered(b, n)
    decreases |a|
  {
    if |a| == 0 {
      assert a + b == b;
    } else {
      assert (a + b)[1..] == a[1..] + b;
      FilteredSplits(a[1..], b, n);
    }
  }

  lemma {:induction false} FilteredHas(table: seq<nat>, n: nat, j: nat)
    requires j < |table| && table[j] < n
    ensures table[j] in Filtered(table, n)
  {
    if j > 0 { FilteredHas(table[1..], n, j - 1); }
  }

  /** The freed positions are the most reliable ones: whatever comes after a freed position in the order, below
      n, is freed too. */
  lemma NothingBetterIsFrozen(table: seq<nat>, n: nat, k: nat, i: nat, j: nat)
    requires Distinct(table) && i < j < |table| && table[i] < n && table[j] < n
    requires !FrozenMask(table, n, k)[table[i]]
    ensures !FrozenMask(table, n, k)[table[j]]
  {
    hide Filtered, Distinct;
    var c := Filtered(table, n);
    var x, y := OrderKept(table, n, i, j);
    FilteredDistinct(table, n);
    var m: nat := if k <= |c| then |c| - k else 0;
    assert MostReliable(table, n, k) == c[m..];
    SuffixHasRest(c, m, x, y);
  }

  /** Filtering keeps the order. */
  lemma OrderKept(table: seq<nat>, n: nat, i: nat, j: nat) returns (x: nat, y: nat)
    requires i < j < |table| && table[i] < n && table[j] < n
    ensures x < y < |Filtered(table, n)| && Filtered(table, n)[x] == table[i] && Filtered(table, n)[y] == table[j]
  {
    hide Filtered;
    var a, b := table[..i], table[i + 1..];
    assert table == a + ([table[i]] + b);
    FilteredSplits(a, [table[i]] + b, n);
    FilteredSplits([table[i]], b, n);
    SingleFiltered(table[i], n);
    assert b[j - i - 1] == table[j];
    FilteredHas(b, n, j - i - 1);
    var fa, fb := Filtered(a, n), Filtered(b, n);
    var p :| 0 <= p < |fb| && fb[p] == table[j];
    x, y := |fa|, |fa| + 1 + p;
  }

  lemma SingleFiltered(x: nat, n: nat)
    requires x < n
    ensures Filtered([x], n) == [x]
  {
    assert [x][1..] == [] && Filtered([], n) == [];
  }

  /** A suffix of distinct entries that has one of them has all behind it. */
  lemma SuffixHasRest(c: seq<nat>, m: nat, x: nat, y: nat)
    requires Distinct(c) && m <= |c| && x < y < |c| && c[x] in c[m..]
    ensures c[y] in c[m..]
  {
    var at :| 0 <= at < |c[m..]| && c[m..][at] == c[x];
    assert c[m + at] == c[x];
    assert c[m..][y - m] == c[y];
  }

  /** A table that calls the last position the most reliable one, as the 5G table does at every power
      of two, leaves the last leaf free whenever there is a message at all. */
  lemma TableFreesTheLastLeaf(table: seq<nat>, n: nat, k: nat)
    requires n > 0 && k > 0 && |Filtered(table, n)| > 0 && Filtered(table, n)[|Filtered(table, n)| - 1] == n - 1
    ensures !FrozenMask(table, n, k)[n - 1]
  {
    hide Filtered;
    var free := MostReliable(table, n, k);
    assert free[|free| - 1] == n - 1;
  }

  /** With a frozen last leaf the list can come out of order, and the first path is then not the best
      one: LLRs (1, -1), leaf 0 free, leaf 1 frozen, list of two. */
  lemma FrozenLastLeafBreaksTheOrder()
    ensures Pow2(2) && !Ascending(Scl(Root([1.0, -1.0]), [false, true], 2))
    ensures var ss := Scl(Root([1.0, -1.0]), [false, true], 2);
            |ss| == 2 && ss[0].metric == 2.0 && ss[1].metric == 1.0
  {
    hide Scl, Order, Best, Fork;
    var es, frozen := Root([1.0, -1.0]), [false, true];
    var left := Scl(FEntries(es, 1), [false], 2);
    RootLeft();
    LeftLeaf();
    var right := Scl(GEntries(es, left, 1), [true], 2);
    RightLeaf();
    RootUnfolds();
    var ss := Combined(left, right, 1, 1);
    assert ss[0].metric == right[0].metric && ss[1].metric == right[1].metric;
  }

  lemma RootLeft()
    ensures FEntries(Root([1.0, -1.0]), 1) == [Entry([-1.0], 0.0)]
  {
    var llr := [1.0, -1.0];
    assert llr[..1] == [1.0] && llr[1..] == [-1.0];
    assert F([1.0], [-1.0]) == [-1.0];
  }

  lemma RootUnfolds()
    ensures var es := Root([1.0, -1.0]);
            var left := Scl(FEntries(es, 1), [false], 2);
            Pow2(1) && Pow2(2) && Sound(left, 1, 1) &&
            Scl(es, [false, true], 2) == Combined(left, Scl(GEntries(es, left, 1), [true], 2), 1, 1)
  {
    hide Fork, Freeze, Prune, FEntries, GEntries, Combined;
    var frozen := [false, true];
    assert frozen[..1] == [false] && frozen[1..] == [true];
  }

  lemma RightLeaf()
    ensures var left := [Survivor(0, [true], 0.0), Survivor(0, [false], 1.0)];
            var right := Scl(GEntries(Root([1.0, -1.0]), left, 1), [true], 2);
            Pow2(1) && |right| == 2 && right[0].metric == 2.0 && right[1].metric == 1.0
  {
    hide Order, Best, Fork, Prune;
    var llr := [1.0, -1.0];
    assert llr[..1] == [1.0] && llr[1..] == [-1.0];
    assert G([1.0], [-1.0], [true]) == [-2.0] && G([1.0], [-1.0], [false]) == [0.0];
  }

  lemma LeftLeaf()
    ensures Scl([Entry([-1.0], 0.0)], [false], 2) == [Survivor(0, [true], 0.0), Survivor(0, [false], 1.0)]
  {
    hide Best;
    var es := [Entry([-1.0], 0.0)];
    assert Metrics(Fork(es)) == [1.0, 0.0];
    OrderOfTwo(1.0, 0.0);
    assert Fork(es) == [Survivor(0, [false], 1.0), Survivor(0, [true], 0.0)];
  }
}
