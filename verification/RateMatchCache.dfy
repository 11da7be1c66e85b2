/** The memoized rate matcher and the HARQ buffer that accumulates through it. */
module RateMatchCache {
  import opened DoubleSums
  import opened SelectionWalk
  import opened RateMatching
  import opened Options

  /** Everything the index tables depend on. */
  datatype Key = Key(bg: BaseGraph, z: nat, rv: nat, qm: nat, nFiller: nat, eBits: nat)

  predicate KeyOk(k: Key) {
    k.rv < 4 && k.qm > 0 && k.z > 0 && k.eBits == (k.eBits / k.qm) * k.qm
  }

  /** The walk's positions padded with zeros to E entries, as `selection_walk` returns them. */
  function Padded(r: Ring, eBits: nat): (s: seq<nat>)
    requires RingOk(r)
    ensures |s| == eBits
  {
    Picked(r, eBits) + seq(eBits - |Picked(r, eBits)|, _ => 0)
  }

  lemma WalkIsPadded(r: Ring, eBits: nat, pos: seq<nat>, picks: nat, steps: nat)
    requires RingOk(r) && Walked(r, eBits, pos, picks, steps)
    ensures pos == Padded(r, eBits)
  {
    hide Selected, Picked;
    WalkedPicks(r, eBits, steps);
    assert pos == pos[..picks] + pos[picks..];
    assert pos[picks..] == seq(eBits - picks, _ => 0);
  }

  /** Entry x of the scatter table: the position of the selection slot wire position x came from. */
  function Table(k: Key): (t: seq<nat>)
    requires KeyOk(k)
    ensures |t| == k.eBits
  {
    Interleaved(Padded(RingFor(k.bg, k.z, k.rv, k.nFiller), k.eBits), k.qm, k.eBits / k.qm)
  }

  /** The tables a cache holds are always those of its key. */
  class RateMatchCache {
    var key: Option<Key>
    var encIdx: seq<nat>
    var decIdx: seq<nat>

    ghost predicate Valid()
      reads this
    {
      key.Some? ==>
        (KeyOk(key.value) && decIdx == Table(key.value) && |encIdx| == |decIdx|
         && forall x :: 0 <= x < |decIdx| ==> encIdx[x] == decIdx[x] + 2 * key.value.z)
    }

    constructor ()
      ensures Valid() && key.None?
    {
      key := None;
      encIdx := [];
      decIdx := [];
    }

    /** Rebuild the tables unless they are already those of `k`. */
    method Ensure(k: Key)
      requires Valid() && KeyOk(k)
      modifies this
      ensures Valid() && key == Some(k)
    {
      hide RingFor, Padded, Source;
      if key == Some(k) {
        return;
      }
      var r := RingFor(k.bg, k.z, k.rv, k.nFiller);
      var selPos := Walk(r, k.eBits);
      ghost var picks: nat, steps: nat :| Walked(r, k.eBits, selPos, picks, steps);
      WalkIsPadded(r, k.eBits, selPos, picks, steps);
      var rows := k.eBits / k.qm;
      encIdx := [];
      var p := 0;
      while p < k.eBits
        invariant 0 <= p <= k.eBits && |encIdx| == p
        invariant forall x :: 0 <= x < p ==> encIdx[x] == Table(k)[x] + 2 * k.z
      {
        SourceInRange(p, k.qm, rows);
        encIdx := encIdx + [selPos[Source(p, k.qm, rows)] + 2 * k.z];
        p := p + 1;
      }
      decIdx := [];
      var q := 0;
      while q < k.eBits
        invariant 0 <= q <= k.eBits && |decIdx| == q
        invariant |encIdx| == k.eBits && forall x :: 0 <= x < k.eBits ==> encIdx[x] == Table(k)[x] + 2 * k.z
        invariant forall x :: 0 <= x < q ==> decIdx[x] == Table(k)[x]
      {
        SourceInRange(q, k.qm, rows);
        decIdx := decIdx + [selPos[Source(q, k.qm, rows)]];
        q := q + 1;
      }
      assert decIdx == Table(k);
      key := Some(k);
    }

    /** Cached rate matching: one gather through the table. */
    method RateMatchInto(codeword: seq<bool>, eOut: array<bool>, rv: nat, qm: nat, bg: BaseGraph, z: nat, nFiller: nat)
      returns (res: Result)
      requires Valid()
      modifies this, eOut
      ensures Valid()
      ensures res == if BadParams(rv, qm, z, eOut.Length) then InvalidParam else Ok
      ensures res.InvalidParam? ==> eOut[..] == old(eOut[..])
      ensures res.Ok? ==> KeyOk(Key(bg, z, rv, qm, nFiller, eOut.Length))
      ensures res.Ok? ==> eOut[..] == Gathered(codeword, Key(bg, z, rv, qm, nFiller, eOut.Length))
    {
      hide Table;
      if rv >= 4 || qm == 0 || z == 0 || eOut.Length % qm != 0 {
        return InvalidParam;
      }
      Divides(eOut.Length, qm);
      var k := Key(bg, z, rv, qm, nFiller, eOut.Length);
      Ensure(k);
      var i := 0;
      while i < eOut.Length
        invariant 0 <= i <= eOut.Length && Valid() && key == Some(k)
        invariant forall x :: 0 <= x < i ==> eOut[x] == Read(codeword, Table(k)[x] + 2 * z)
      {
        eOut[i] := Read(codeword, encIdx[i]);
        i := i + 1;
      }
      assert eOut[..] == Gathered(codeword, k);
      return Ok;
    }

    /** Cached dematching: one scatter-add through the table. */
    method RateDematchInto(eLlr: seq<real>, cb: array<real>, rv: nat, qm: nat, bg: BaseGraph, z: nat, nFiller: nat)
      returns (res: Result)
      requires Valid()
      modifies this, cb
      ensures Valid()
      ensures res == if BadParams(rv, qm, z, |eLlr|) then InvalidParam else Ok
      ensures res.InvalidParam? ==> cb[..] == old(cb[..])
      ensures res.Ok? ==> KeyOk(Key(bg, z, rv, qm, nFiller, |eLlr|))
      ensures res.Ok? ==>
                forall p :: 0 <= p < cb.Length ==>
                  cb[p] == old(cb[p]) + Received(Table(Key(bg, z, rv, qm, nFiller, |eLlr|)), eLlr, p, |eLlr|)
    {
      hide Table, Received;
      if rv >= 4 || qm == 0 || z == 0 || |eLlr| % qm != 0 {
        return InvalidParam;
      }
      Divides(|eLlr|, qm);
      var k := Key(bg, z, rv, qm, nFiller, |eLlr|);
      Ensure(k);
      ScatterAdd(decIdx, eLlr, cb);
      return Ok;
    }
  }

  method ScatterAdd(idx: seq<nat>, vals: seq<real>, cb: array<real>)
    requires |idx| == |vals|
    modifies cb
    ensures forall p :: 0 <= p < cb.Length ==> cb[p] == old(cb[p]) + Received(idx, vals, p, |vals|)
  {
    hide Received;
    ghost var c0 := cb[..];
    var i := 0;
    forall p | 0 <= p < cb.Length ensures Received(idx, vals, p, 0) == 0.0 { ReceivedNext(idx, vals, p, 0); }
    while i < |vals|
      invariant 0 <= i <= |vals|
      invariant forall p :: 0 <= p < cb.Length ==> cb[p] == c0[p] + Received(idx, vals, p, i)
    {
      forall p | 0 <= p < cb.Length
        ensures Received(idx, vals, p, i + 1) == Received(idx, vals, p, i) + (if p == idx[i] then vals[i] else 0.0)
      {
        ReceivedNext(idx, vals, p, i);
      }
      if idx[i] < cb.Length {
        cb[idx[i]] := cb[idx[i]] + vals[i];
      }
      i := i + 1;
    }
  }

  /** What the cached gather produces. */
  function Gathered(codeword: seq<bool>, k: Key): (s: seq<bool>)
    requires KeyOk(k)
    ensures |s| == k.eBits
  {
    seq(k.eBits, x requires 0 <= x < k.eBits => Read(codeword, Table(k)[x] + 2 * k.z))
  }

  // ---- the cache agrees with the walk -----------------------------------------------------------

  /** The cached result is the direct one, except that slots the guard cut off read the first buffer
      position instead of keeping the caller's old contents. */
  lemma GatheredIsChosen(codeword: seq<bool>, k: Key)
    requires KeyOk(k)
    ensures Gathered(codeword, k)
         == Interleaved(Chosen(codeword, RingFor(k.bg, k.z, k.rv, k.nFiller), 2 * k.z,
                               seq(k.eBits, _ => Read(codeword, 2 * k.z))), k.qm, k.eBits / k.qm)
  {
    hide RingFor, Picked, Source, Read;
    var r := RingFor(k.bg, k.z, k.rv, k.nFiller);
    var rows := k.eBits / k.qm;
    var c := Chosen(codeword, r, 2 * k.z, seq(k.eBits, _ => Read(codeword, 2 * k.z)));
    forall x | 0 <= x < k.eBits ensures Gathered(codeword, k)[x] == Pick(c, x, k.qm, rows) {
      SourceInRange(x, k.qm, rows);
      var i := Source(x, k.qm, rows);
      assert Table(k)[x] == Padded(r, k.eBits)[i];
    }
  }

  lemma InterleaveInjective<T>(a: seq<T>, b: seq<T>, qm: nat, rows: nat)
    requires |a| == |b| == rows * qm
    ensures Interleaved(a, qm, rows) == Interleaved(b, qm, rows) <==> a == b
  {
    InterleaveInverts(a, qm, rows);
    InterleaveInverts(b, qm, rows);
  }

  /** Cached and direct rate matching agree exactly when the guard does not cut the walk short, or the
      output buffer happened to hold the first buffer bit in every slot that was cut off. */
  lemma CacheAgreesIff(codeword: seq<bool>, k: Key, before: seq<bool>)
    requires KeyOk(k) && |before| == k.eBits
    ensures var r := RingFor(k.bg, k.z, k.rv, k.nFiller);
            Gathered(codeword, k) == Interleaved(Chosen(codeword, r, 2 * k.z, before), k.qm, k.eBits / k.qm)
            <==> k.eBits <= Cap(r) || forall i :: Cap(r) <= i < k.eBits ==> before[i] == Read(codeword, 2 * k.z)
  {
    hide RingFor, Picked, Read, Interleaved, Cap;
    var r := RingFor(k.bg, k.z, k.rv, k.nFiller);
    GatheredIsChosen(codeword, k);
    var tail := seq(k.eBits, _ => Read(codeword, 2 * k.z));
    var a, b := Chosen(codeword, r, 2 * k.z, tail), Chosen(codeword, r, 2 * k.z, before);
    InterleaveInjective(a, b, k.qm, k.eBits / k.qm);
    if a == b && k.eBits > Cap(r) {
      forall i | Cap(r) <= i < k.eBits ensures before[i] == Read(codeword, 2 * k.z) {
        assert a[i] == b[i];
      }
    }
    if k.eBits <= Cap(r) || forall i :: Cap(r) <= i < k.eBits ==> before[i] == Read(codeword, 2 * k.z) {
      forall i | 0 <= i < k.eBits ensures a[i] == b[i] {}
      assert a == b;
    }
  }

  /** What `rate_match` leaves in a buffer that held `before`. */
  function Direct(codeword: seq<bool>, k: Key, before: seq<bool>): (s: seq<bool>)
    requires KeyOk(k) && |before| == k.eBits
  {
    Interleaved(Chosen(codeword, RingFor(k.bg, k.z, k.rv, k.nFiller), 2 * k.z, before), k.qm, k.eBits / k.qm)
  }

  ghost predicate MatchAgrees(k: Key)
    requires KeyOk(k)
  {
    forall codeword, before :: |before| == k.eBits ==> Gathered(codeword, k) == Direct(codeword, k, before)
  }

  /** For all codewords and buffers they agree exactly when the guard does not cut the walk short. */
  lemma MatchAgreesIff(k: Key)
    requires KeyOk(k)
    ensures MatchAgrees(k) <==> k.eBits <= Cap(RingFor(k.bg, k.z, k.rv, k.nFiller))
  {
    hide RingFor, Picked, Interleaved, Cap, Gathered, Chosen;
    var cap := Cap(RingFor(k.bg, k.z, k.rv, k.nFiller));
    if k.eBits <= cap {
      forall codeword, before | |before| == k.eBits ensures Gathered(codeword, k) == Direct(codeword, k, before) {
        CacheAgreesIff(codeword, k, before);
      }
    } else {
      var codeword, before := seq(2 * k.z + 1, _ => true), seq(k.eBits, _ => false);
      CacheAgreesIff(codeword, k, before);
      assert before[cap] != Read(codeword, 2 * k.z);
      assert Gathered(codeword, k) != Direct(codeword, k, before);
    }
  }

  // ---- the scatter order does not matter --------------------------------------------------------

  /** Scattering in wire order through the table is scattering the deinterleaved values in walk order. */
  lemma WireOrderIsWalkOrder(pos: seq<nat>, e: seq<real>, qm: nat, rows: nat, p: nat)
    requires |pos| == |e| == rows * qm
    ensures Received(Interleaved(pos, qm, rows), e, p, |e|) == Received(pos, Interleaved(e, rows, qm), p, |e|)
  {
    hide Source, Sum, GridSum, Pick, Term, Interleaved;
    var d := Interleaved(e, rows, qm);
    var t := Interleaved(pos, qm, rows);
    var f := (k: nat) => Term(pos, d, p, k);
    var h := (k: nat) => Term(t, e, p, k);
    var g := (row: nat, col: nat) => Term(pos, d, p, row * qm + col);
    var gT := (col: nat, row: nat) => Term(pos, d, p, row * qm + col);
    Flatten(f, g, rows, qm);
    forall col: nat, row: nat | col < qm && row < rows ensures h(col * rows + row) == gT(col, row) {
      WireTerm(pos, e, qm, rows, p, row, col);
    }
    assert |e| == qm * rows;
    Flatten(h, gT, qm, rows);
    Transpose(g, gT, rows, qm);
  }

  lemma WireTerm(pos: seq<nat>, e: seq<real>, qm: nat, rows: nat, p: nat, row: nat, col: nat)
    requires |pos| == |e| == rows * qm && row < rows && col < qm
    ensures Term(Interleaved(pos, qm, rows), e, p, col * rows + row)
         == Term(pos, Interleaved(e, rows, qm), p, row * qm + col)
  {
    hide Source;
    CellRange(row, rows, col, qm);
    PickAt(pos, qm, rows, row, col);
    assert |e| == qm * rows;
    PickAt(e, rows, qm, col, row);
  }

  /** The sum of vals[from] .. vals[n - 1]. */
  function TailSum(vals: seq<real>, from: nat, n: nat): real
    requires n <= |vals|
  {
    if n <= from then 0.0 else TailSum(vals, from, n - 1) + vals[n - 1]
  }

  /** Beyond the picks the padded walk stands at position 0. */
  lemma {:induction false} PaddedTail(r: Ring, vals: seq<real>, p: nat, n: nat)
    requires RingOk(r) && |Picked(r, |vals|)| <= n <= |vals|
    ensures Received(Padded(r, |vals|), vals, p, n)
         == Received(Picked(r, |vals|), vals, p, |Picked(r, |vals|)|)
            + (if p == 0 then TailSum(vals, |Picked(r, |vals|)|, n) else 0.0)
    decreases n
  {
    hide Picked, Received;
    var s := Picked(r, |vals|);
    if n == |s| {
      ReceivedPrefix(Padded(r, |vals|), s, vals, p, n);
    } else {
      PaddedTail(r, vals, p, n - 1);
      ReceivedNext(Padded(r, |vals|), vals, p, n - 1);
      assert Padded(r, |vals|)[n - 1] == 0;
    }
  }

  /** What position p receives through the table. */
  function CachedSum(k: Key, e: seq<real>, p: nat): real
    requires KeyOk(k) && |e| == k.eBits
  {
    Received(Table(k), e, p, k.eBits)
  }

  /** What position p receives from the direct walk. */
  function DirectSum(k: Key, e: seq<real>, p: nat): real
    requires KeyOk(k) && |e| == k.eBits
  {
    var picked := Picked(RingFor(k.bg, k.z, k.rv, k.nFiller), k.eBits);
    Received(picked, Interleaved(e, k.eBits / k.qm, k.qm), p, |picked|)
  }

  /** The deinterleaved values of the slots that the guard cuts off. */
  ghost function CutOff(k: Key, e: seq<real>): real
    requires KeyOk(k) && |e| == k.eBits
  {
    TailSum(Interleaved(e, k.eBits / k.qm, k.qm), Cap(RingFor(k.bg, k.z, k.rv, k.nFiller)), k.eBits)
  }

  lemma NoTail(vals: seq<real>, from: nat, n: nat)
    requires n <= |vals| && n <= from
    ensures TailSum(vals, from, n) == 0.0
  {
  }

  /** Through the table every position receives what the direct walk gives it, and position 0 receives the
      cut-off values as well. */
  lemma CachedDifference(k: Key, e: seq<real>, p: nat)
    requires KeyOk(k) && |e| == k.eBits
    ensures CachedSum(k, e, p) == DirectSum(k, e, p) + (if p == 0 then CutOff(k, e) else 0.0)
  {
    hide RingFor, Picked, Received, Interleaved, Cap, TailSum;
    var r := RingFor(k.bg, k.z, k.rv, k.nFiller);
    var d := Interleaved(e, k.eBits / k.qm, k.qm);
    WireOrderIsWalkOrder(Padded(r, k.eBits), e, k.qm, k.eBits / k.qm, p);
    PaddedTail(r, d, p, k.eBits);
    if k.eBits <= Cap(r) {
      NoTail(d, k.eBits, k.eBits);
      NoTail(d, Cap(r), k.eBits);
    }
  }

  /** Cached dematching adds what the direct walk adds at every position but the first, and there too when
      the guard does not cut the walk short. */
  lemma CachedDematchAgrees(k: Key, e: seq<real>, p: nat)
    requires KeyOk(k) && |e| == k.eBits
    requires p > 0 || k.eBits <= Cap(RingFor(k.bg, k.z, k.rv, k.nFiller))
    ensures CachedSum(k, e, p) == DirectSum(k, e, p)
  {
    hide RingFor, CachedSum, DirectSum, Cap, Interleaved;
    CachedDifference(k, e, p);
    if p == 0 { NoTail(Interleaved(e, k.eBits / k.qm, k.qm), Cap(RingFor(k.bg, k.z, k.rv, k.nFiller)), k.eBits); }
  }

  function OnesOf(n: nat): (e: seq<real>)
    ensures |e| == n
  {
    seq(n, _ => 1.0)
  }

  lemma {:induction false} TailOfOnes(n: nat, from: nat, m: nat)
    requires from <= m <= n
    ensures TailSum(OnesOf(n), from, m) == (m - from) as real
    decreases m
  {
    if m > from { TailOfOnes(n, from, m - 1); }
  }

  /** With every received value one, position 0 gets one for each slot past the guard. */
  lemma CutOffOfOnes(k: Key)
    requires KeyOk(k)
    ensures var cap := Cap(RingFor(k.bg, k.z, k.rv, k.nFiller));
            CutOff(k, OnesOf(k.eBits)) == if k.eBits <= cap then 0.0 else (k.eBits - cap) as real
  {
    hide RingFor, Cap, TailSum;
    var cap := Cap(RingFor(k.bg, k.z, k.rv, k.nFiller));
    InterleavedOnes(k.eBits / k.qm, k.qm);
    if k.eBits <= cap { NoTail(OnesOf(k.eBits), cap, k.eBits); } else { TailOfOnes(k.eBits, cap, k.eBits); }
  }

  lemma InterleavedOnes(rows: nat, qm: nat)
    ensures Interleaved(OnesOf(rows * qm), rows, qm) == OnesOf(rows * qm)
  {
    hide Source;
    var n := rows * qm;
    forall x | 0 <= x < n ensures Interleaved(OnesOf(n), rows, qm)[x] == 1.0 { SourceInRange(x, rows, qm); }
  }

  /** Cached and direct accumulation agree for all received values. */
  ghost predicate DematchAgrees(k: Key)
    requires KeyOk(k)
  {
    forall e: seq<real>, p: nat :: |e| == k.eBits ==> CachedSum(k, e, p) == DirectSum(k, e, p)
  }

  /** They do exactly when the guard does not cut the walk short. */
  lemma CachedDematchAgreesIff(k: Key)
    requires KeyOk(k)
    ensures DematchAgrees(k) <==> k.eBits <= Cap(RingFor(k.bg, k.z, k.rv, k.nFiller))
  {
    hide RingFor, CachedSum, DirectSum, CutOff, Cap;
    if k.eBits <= Cap(RingFor(k.bg, k.z, k.rv, k.nFiller)) {
      forall e: seq<real>, p: nat | |e| == k.eBits ensures CachedSum(k, e, p) == DirectSum(k, e, p) {
        CachedDematchAgrees(k, e, p);
      }
    } else {
      CutOffOfOnes(k);
      CachedDifference(k, OnesOf(k.eBits), 0);
    }
  }

  /** BG2, z = 1, rv = 0, one bit per symbol, no filler, 102 bits: one more than the guard allows. */
  function OnePastTheGuard(): (k: Key)
    ensures KeyOk(k)
  {
    Key(Bg2, 1, 0, 1, 0, 102)
  }

  /** At that key the cache adds the last value to position 0 a second time round, and sends the first
      buffer bit where the direct form leaves the caller's old content. */
  lemma CacheDiffersPastTheGuard()
    ensures var k, e := OnePastTheGuard(), OnesOf(102);
            CachedSum(k, e, 0) == DirectSum(k, e, 0) + 1.0
    ensures var k, codeword, before := OnePastTheGuard(), seq(52, _ => true), seq(102, _ => false);
            Gathered(codeword, k)
            != Interleaved(Chosen(codeword, RingFor(k.bg, k.z, k.rv, k.nFiller), 2 * k.z, before), k.qm, k.eBits / k.qm)
  {
    hide CachedSum, DirectSum, CutOff, Gathered, Chosen, Interleaved;
    var k := OnePastTheGuard();
    GuardOfExample();
    CutOffOfOnes(k);
    CachedDifference(k, OnesOf(102), 0);
    var codeword, before := seq(52, _ => true), seq(102, _ => false);
    CacheAgreesIff(codeword, k, before);
    assert before[101] != Read(codeword, 2);
  }

  lemma GuardOfExample()
    ensures var k := OnePastTheGuard(); Cap(RingFor(k.bg, k.z, k.rv, k.nFiller)) == 101
  {
  }

  // ---- the HARQ buffer --------------------------------------------------------------------------

  /** One accepted transmission. */
  datatype Transmission = Sent(key: Key, llr: seq<real>)

  ghost predicate SentOk(t: Transmission) {
    KeyOk(t.key) && |t.llr| == t.key.eBits
  }

  /** What position p has received from a history of transmissions. */
  ghost function Accumulated(history: seq<Transmission>, p: nat): real
    requires forall i :: 0 <= i < |history| ==> SentOk(history[i])
  {
    if |history| == 0 then 0.0
    else
      var n := |history| - 1;
      assert SentOk(history[n]);
      Accumulated(history[..n], p) + CachedSum(history[n].key, history[n].llr, p)
  }

  lemma AccumulatedNext(history: seq<Transmission>, t: Transmission, p: nat)
    requires SentOk(t) && forall i :: 0 <= i < |history| ==> SentOk(history[i])
    ensures Accumulated(history + [t], p) == Accumulated(history, p) + CachedSum(t.key, t.llr, p)
  {
    assert (history + [t])[..|history|] == history;
  }

  datatype CopyResult = Copied | BufferTooSmall(required: nat, provided: nat)

  /** The accumulator holds, at every position, the sum of everything received since the last flush. */
  class HarqBuffer {
    const bg: BaseGraph
    const z: nat
    const nFiller: nat
    const acc: array<real>
    const rmCache: RateMatchCache
    var txCount: nat
    ghost var history: seq<Transmission>

    ghost predicate Valid()
      reads this, acc, rmCache
    {
      && rmCache.Valid() && acc.Length == Blocks(bg) * z && txCount == |history|
      && (forall i :: 0 <= i < |history| ==> SentOk(history[i]))
      && forall p :: 0 <= p < acc.Length ==> acc[p] == Accumulated(history, p)
    }

    constructor (bg0: BaseGraph, z0: nat, nFiller0: nat)
      ensures Valid() && history == [] && bg == bg0 && z == z0 && nFiller == nFiller0 && fresh(acc) && fresh(rmCache)
    {
      bg, z, nFiller := bg0, z0, nFiller0;
      acc := new real[Blocks(bg0) * z0](_ => 0.0);
      rmCache := new RateMatchCache();
      txCount := 0;
      history := [];
    }

    /** Adds one transmission, or refuses it and changes nothing. */
    method Combine(eLlr: seq<real>, rv: nat, qm: nat, nFillerOverride: nat) returns (res: Result)
      requires Valid()
      modifies this, acc, rmCache
      ensures Valid()
      ensures res == if BadParams(rv, qm, z, |eLlr|) then InvalidParam else Ok
      ensures res.InvalidParam? ==> history == old(history) && acc[..] == old(acc[..])
      ensures res.Ok? ==>
                history == old(history)
                           + [Sent(Key(bg, z, rv, qm, if nFillerOverride > 0 then nFillerOverride else nFiller,
                                      |eLlr|), eLlr)]
    {
      hide KeyOk, Received, Table, CachedSum, Accumulated;
      var nf := if nFillerOverride > 0 then nFillerOverride else nFiller;
      res := rmCache.RateDematchInto(eLlr, acc, rv, qm, bg, z, nf);
      if res.InvalidParam? {
        SameContents(acc, old(acc[..]), history);
        return res;
      }
      ghost var t := Sent(Key(bg, z, rv, qm, nf, |eLlr|), eLlr);
      forall p | 0 <= p < acc.Length
        ensures Accumulated(history + [t], p) == Accumulated(history, p) + Received(Table(t.key), eLlr, p, |eLlr|)
      {
        AccumulatedNext(history, t, p);
        SumIs(t.key, eLlr, p);
      }
      txCount := txCount + 1;
      history := history + [t];
    }

    /** Back to zero. */
    method Flush()
      requires Valid()
      modifies this, acc
      ensures Valid() && history == [] && txCount == 0 && forall p :: 0 <= p < acc.Length ==> acc[p] == 0.0
    {
      var i := 0;
      while i < acc.Length
        invariant 0 <= i <= acc.Length && rmCache.Valid()
        invariant forall p :: 0 <= p < i ==> acc[p] == 0.0
      {
        acc[i] := 0.0;
        i := i + 1;
      }
      txCount := 0;
      history := [];
    }

    /** A copy for the decoder, or an error when the destination is too short. */
    method CopyLlrInto(dst: array<real>) returns (r: CopyResult)
      requires Valid() && dst != acc
      modifies dst
      ensures dst.Length < acc.Length ==> r == BufferTooSmall(acc.Length, dst.Length) && dst[..] == old(dst[..])
      ensures dst.Length >= acc.Length ==> r == Copied
      ensures r.Copied? ==> dst[..acc.Length] == acc[..] && dst[acc.Length..] == old(dst[acc.Length..])
    {
      if dst.Length < acc.Length {
        return BufferTooSmall(acc.Length, dst.Length);
      }
      ghost var d0 := dst[..];
      var i := 0;
      while i < acc.Length
        invariant 0 <= i <= acc.Length && dst[..i] == acc[..i] && dst[i..] == d0[i..]
      {
        dst[i] := acc[i];
        i := i + 1;
      }
      return Copied;
    }
  }

  lemma SumIs(k: Key, e: seq<real>, p: nat)
    requires KeyOk(k) && |e| == k.eBits
    ensures CachedSum(k, e, p) == Received(Table(k), e, p, |e|)
  {
  }

  lemma SameContents(acc: array<real>, before: seq<real>, history: seq<Transmission>)
    requires acc[..] == before && forall i :: 0 <= i < |history| ==> SentOk(history[i])
    ensures (forall p :: 0 <= p < acc.Length ==> acc[p] == Accumulated(history, p))
       <==> (forall p :: 0 <= p < |before| ==> before[p] == Accumulated(history, p))
  {
    hide Accumulated;
    forall p | 0 <= p < acc.Length ensures acc[p] == before[p] {}
  }

  /** While no guard cuts a walk short, the buffer is the sum of the direct walks. */
  lemma {:induction false} BufferIsDirectSum(history: seq<Transmission>, p: nat)
    requires forall i :: 0 <= i < |history| ==> SentOk(history[i]) && Unguarded(history[i].key)
    ensures Accumulated(history, p) == AccumulatedDirect(history, p)
  {
    hide CachedSum, DirectSum;
    if |history| > 0 {
      var n := |history| - 1;
      assert SentOk(history[n]);
      BufferIsDirectSum(history[..n], p);
      CachedDematchAgrees(history[n].key, history[n].llr, p);
    }
  }

  ghost predicate Unguarded(k: Key)
    requires KeyOk(k)
  {
    k.eBits <= Cap(RingFor(k.bg, k.z, k.rv, k.nFiller))
  }

  ghost function AccumulatedDirect(history: seq<Transmission>, p: nat): real
    requires forall i :: 0 <= i < |history| ==> SentOk(history[i])
  {
    if |history| == 0 then 0.0
    else
      var n := |history| - 1;
      assert SentOk(history[n]);
      AccumulatedDirect(history[..n], p) + DirectSum(history[n].key, history[n].llr, p)
  }

  /** The cut-off values of a history. */
  ghost function CutOffs(history: seq<Transmission>): real
    requires forall i :: 0 <= i < |history| ==> SentOk(history[i])
  {
    if |history| == 0 then 0.0
    else
      var n := |history| - 1;
      assert SentOk(history[n]);
      CutOffs(history[..n]) + CutOff(history[n].key, history[n].llr)
  }

  /** The buffer is the sum of the direct walks, and position 0 holds the cut-off values as well. */
  lemma {:induction false} BufferDifference(history: seq<Transmission>, p: nat)
    requires forall i :: 0 <= i < |history| ==> SentOk(history[i])
    ensures Accumulated(history, p) == AccumulatedDirect(history, p) + (if p == 0 then CutOffs(history) else 0.0)
  {
    hide CachedSum, DirectSum, CutOff;
    if |history| > 0 {
      var n := |history| - 1;
      assert SentOk(history[n]);
      BufferDifference(history[..n], p);
      CachedDifference(history[n].key, history[n].llr, p);
    }
  }

  /** Transmissions under these keys whose values are all one. */
  function AllOnes(keys: seq<Key>): (h: seq<Transmission>)
    ensures |h| == |keys| && forall i :: 0 <= i < |keys| ==> h[i] == Sent(keys[i], OnesOf(keys[i].eBits))
  {
    seq(|keys|, i requires 0 <= i < |keys| => Sent(keys[i], OnesOf(keys[i].eBits)))
  }

  ghost predicate KeysOk(keys: seq<Key>) {
    forall i :: 0 <= i < |keys| ==> KeyOk(keys[i])
  }

  lemma {:induction false} CutOffsOfOnes(keys: seq<Key>)
    requires KeysOk(keys)
    ensures CutOffs(AllOnes(keys)) >= 0.0
    ensures CutOffs(AllOnes(keys)) == 0.0 <==> forall i :: 0 <= i < |keys| ==> Unguarded(keys[i])
  {
    hide CutOff, Unguarded, KeyOk, OnesOf;
    if |keys| > 0 {
      var n := |keys| - 1;
      var h := AllOnes(keys);
      CutOffsOfOnes(keys[..n]);
      assert h[..n] == AllOnes(keys[..n]) && h[n] == Sent(keys[n], OnesOf(keys[n].eBits));
      GuardedOnes(keys[n]);
      forall i | 0 <= i < n ensures keys[..n][i] == keys[i] {}
    }
  }

  lemma GuardedOnes(k: Key)
    requires KeyOk(k)
    ensures CutOff(k, OnesOf(k.eBits)) >= 0.0 && (CutOff(k, OnesOf(k.eBits)) == 0.0 <==> Unguarded(k))
  {
    hide RingFor, Cap, CutOff;
    CutOffOfOnes(k);
  }

  /** Transmissions under these keys. */
  ghost predicate SentUnder(history: seq<Transmission>, keys: seq<Key>) {
    |history| == |keys| && forall i :: 0 <= i < |history| ==> SentOk(history[i]) && history[i].key == keys[i]
  }

  /** Whatever is received under these keys, the buffer is the sum of the direct walks. */
  ghost predicate BufferAgrees(keys: seq<Key>) {
    forall history: seq<Transmission>, p: nat :: SentUnder(history, keys) ==>
          Accumulated(history, p) == AccumulatedDirect(history, p)
  }

  /** It is exactly when no key takes its walk past the guard. */
  lemma BufferAgreesIff(keys: seq<Key>)
    requires KeysOk(keys)
    ensures BufferAgrees(keys) <==> forall i :: 0 <= i < |keys| ==> Unguarded(keys[i])
  {
    hide Accumulated, AccumulatedDirect, CutOffs, Unguarded;
    if forall i :: 0 <= i < |keys| ==> Unguarded(keys[i]) {
      forall history: seq<Transmission>, p: nat | SentUnder(history, keys)
        ensures Accumulated(history, p) == AccumulatedDirect(history, p)
      {
        forall i | 0 <= i < |history|
          ensures SentOk(history[i]) && Unguarded(history[i].key)
        {
          assert Unguarded(keys[i]);
        }
        BufferIsDirectSum(history, p);
      }
    } else {
      var h := AllOnes(keys);
      assert SentUnder(h, keys);
      CutOffsOfOnes(keys);
      BufferDifference(h, 0);
    }
  }

  /** A position the walk never picks receives nothing. */
  lemma {:induction false} NothingReceived(pos: seq<nat>, vals: seq<real>, p: nat, n: nat)
    requires p !in pos
    ensures Received(pos, vals, p, n) == 0.0
  {
    ReceivedNext(pos, vals, p, n);
    if n > 0 {
      NothingReceived(pos, vals, p, n - 1);
      ReceivedNext(pos, vals, p, n - 1);
    }
  }

  /** The direct walk never adds to a filler position. */
  lemma FillerReceivesNothing(k: Key, e: seq<real>, p: nat)
    requires KeyOk(k) && |e| == k.eBits && IsFiller(RingFor(k.bg, k.z, k.rv, k.nFiller), p)
    ensures DirectSum(k, e, p) == 0.0
  {
    hide RingFor, Received, Interleaved, IsFiller, Selected;
    var r := RingFor(k.bg, k.z, k.rv, k.nFiller);
    NeverFiller(r, 3 * r.ncb);
    var s := Picked(r, k.eBits);
    assert forall q :: q in s ==> q in Selected(r, 3 * r.ncb);
    NothingReceived(s, Interleaved(e, k.eBits / k.qm, k.qm), p, |s|);
  }

  /** Through the cache a filler position receives nothing either, except position 0, which receives the
      cut-off values whether it is filler or not. */
  lemma CachedFillerReceives(k: Key, e: seq<real>, p: nat)
    requires KeyOk(k) && |e| == k.eBits && IsFiller(RingFor(k.bg, k.z, k.rv, k.nFiller), p)
    ensures CachedSum(k, e, p) == if p == 0 then CutOff(k, e) else 0.0
    ensures k.eBits <= Cap(RingFor(k.bg, k.z, k.rv, k.nFiller)) ==> CachedSum(k, e, p) == 0.0
  {
    hide RingFor, CachedSum, DirectSum, CutOff, Cap, IsFiller;
    FillerReceivesNothing(k, e, p);
    CachedDifference(k, e, p);
    if k.eBits <= Cap(RingFor(k.bg, k.z, k.rv, k.nFiller)) { CachedDematchAgrees(k, e, p); }
  }
}
