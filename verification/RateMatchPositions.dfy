/** Rate matching told by codeword index: which bits are sent, where each redundancy version starts, that
    nothing is sent twice before everything was sent once, and that dematching puts every value back. */
module RateMatchPositions {
  import opened Modulo
  import opened SelectionWalk
  import opened RateMatching

  // ---- the circular buffer in the codeword ---------------------------------------------------------------------

  /** Codeword indices that may be sent: past the two punctured blocks, inside the codeword, not filler. */
  predicate Sendable(bg: BaseGraph, z: nat, nFiller: nat, i: nat) {
    2 * z <= i < CodewordBlocks(bg) * z && !(MessageBlocks(bg) * z - nFiller <= i < MessageBlocks(bg) * z)
  }

  /** Columns of the base graph less its rows. */
  function MessageBlocks(bg: BaseGraph): nat {
    if bg.Bg1? then 68 - 46 else 52 - 42
  }

  function CodewordBlocks(bg: BaseGraph): nat {
    if bg.Bg1? then 68 else 52
  }

  /** Buffer position p is codeword index p + 2 z. */
  lemma RingInCodeword(bg: BaseGraph, z: nat, rv: nat, nFiller: nat, p: nat)
    requires rv < 4 && z > 0
    ensures var r := RingFor(bg, z, rv, nFiller);
            (p < r.ncb && !IsFiller(r, p)) <==> Sendable(bg, z, nFiller, p + 2 * z)
  {
  }

  /** The codeword index that selection slot k is read from. */
  function SlotIndex(bg: BaseGraph, z: nat, rv: nat, nFiller: nat, eBits: nat, k: nat): nat
    requires rv < 4 && z > 0 && k < |Picked(RingFor(bg, z, rv, nFiller), eBits)|
  {
    Picked(RingFor(bg, z, rv, nFiller), eBits)[k] + 2 * z
  }

  lemma SlotIsSendable(bg: BaseGraph, z: nat, rv: nat, nFiller: nat, eBits: nat, k: nat)
    requires rv < 4 && z > 0 && k < |Picked(RingFor(bg, z, rv, nFiller), eBits)|
    ensures Sendable(bg, z, nFiller, SlotIndex(bg, z, rv, nFiller, eBits, k))
  {
    hide RingFor, Selected, Sendable, IsFiller;
    var r := RingFor(bg, z, rv, nFiller);
    NeverFiller(r, 3 * r.ncb);
    ThreeTurns(r);
    RingInCodeword(bg, z, rv, nFiller, Picked(r, eBits)[k]);
  }

  // ---- where a redundancy version starts -------------------------------------------------------------------------

  /** First block of each redundancy version, in the codeword. */
  function FirstBlock(bg: BaseGraph, rv: nat): nat
    requires rv < 4
  {
    match bg
    case Bg1 => if rv == 0 then 2 else if rv == 1 then 19 else if rv == 2 then 35 else 58
    case Bg2 => if rv == 0 then 2 else if rv == 1 then 15 else if rv == 2 then 27 else 45
  }

  lemma {:induction false} FillerRun(r: Ring, m: nat)
    requires RingOk(r) && r.fillerStart <= r.k0 && r.k0 + m <= r.fillerEnd
    ensures Selected(r, m) == []
  {
    if m > 0 {
      FillerRun(r, m - 1);
      SmallMod(r.k0 + m - 1, r.ncb);
    }
  }

  /** The first bit sent is the first of the version's block, or the first behind the filler bits if that one
      is filler. */
  lemma FirstSent(bg: BaseGraph, z: nat, rv: nat, nFiller: nat, eBits: nat)
    requires rv < 4 && z > 0 && eBits > 0
    ensures |Picked(RingFor(bg, z, rv, nFiller), eBits)| > 0
    ensures var start := FirstBlock(bg, rv) * z;
            SlotIndex(bg, z, rv, nFiller, eBits, 0)
            == if Sendable(bg, z, nFiller, start) then start else MessageBlocks(bg) * z
  {
    hide Picked, Selected, Sendable, RingFor, FirstBlock, IsFiller, At;
    RingStarts(bg, z, rv, nFiller);
    var r := RingFor(bg, z, rv, nFiller);
    var m := if IsFiller(r, r.k0) then r.fillerEnd - r.k0 else 0;
    RingInCodeword(bg, z, rv, nFiller, r.k0);
    FirstStep(r, m);
    FillerRunOrNone(r, m);
    PickedStarts(r, eBits, m + 1);
  }

  lemma RingStarts(bg: BaseGraph, z: nat, rv: nat, nFiller: nat)
    requires rv < 4 && z > 0
    ensures var r := RingFor(bg, z, rv, nFiller);
            && r.k0 + 2 * z == FirstBlock(bg, rv) * z && r.fillerEnd + 2 * z == MessageBlocks(bg) * z
            && (IsFiller(r, r.k0) ==> r.fillerStart <= r.k0 < r.fillerEnd) && !IsFiller(r, r.fillerEnd)
  {
  }

  lemma FirstStep(r: Ring, m: nat)
    requires RingOk(r) && r.k0 + m < r.ncb
    ensures At(r, m) == r.k0 + m
  {
    SmallMod(r.k0 + m, r.ncb);
  }

  lemma FillerRunOrNone(r: Ring, m: nat)
    requires RingOk(r) && (m == 0 || (r.fillerStart <= r.k0 && r.k0 + m == r.fillerEnd)) && !IsFiller(r, At(r, m))
    ensures Selected(r, m + 1) == [At(r, m)]
  {
    hide At, IsFiller;
    if m > 0 { FillerRun(r, m); }
  }

  lemma PickedStarts(r: Ring, eBits: nat, m: nat)
    requires RingOk(r) && eBits > 0 && |Selected(r, m)| == 1
    ensures |Picked(r, eBits)| > 0 && Picked(r, eBits)[0] == Selected(r, m)[0]
  {
    hide Selected;
    ThreeTurns(r);
    if m <= 3 * r.ncb { SelectedGrows(r, m, 3 * r.ncb); } else { SelectedGrows(r, 3 * r.ncb, m); }
  }

  // ---- nothing twice before everything once ------------------------------------------------------------------------

  lemma {:induction false} SelectedFrom(r: Ring, m: nat, i: nat) returns (j: nat)
    requires RingOk(r) && i < |Selected(r, m)|
    ensures j < m && Selected(r, m)[i] == At(r, j)
  {
    hide At, IsFiller;
    if i < |Selected(r, m - 1)| { j := SelectedFrom(r, m - 1, i); } else { j := m - 1; }
  }

  /** Within a turn no two steps stand at one position. */
  lemma TurnIsInjective(r: Ring, i: nat, j: nat)
    requires RingOk(r) && i < j < r.ncb
    ensures At(r, i) != At(r, j)
  {
    AtStep(r, i);
    AtStep(r, j);
  }

  lemma AtStep(r: Ring, j: nat)
    requires RingOk(r) && j < r.ncb
    ensures At(r, j) == if r.k0 + j < r.ncb then r.k0 + j else r.k0 + j - r.ncb
  {
    if r.k0 + j < r.ncb {
      SmallMod(r.k0 + j, r.ncb);
    } else {
      ModTurn(r.k0 + j - r.ncb, r.ncb);
      SmallMod(r.k0 + j - r.ncb, r.ncb);
    }
  }

  lemma {:induction false} TurnIsDistinct(r: Ring, m: nat, a: nat, b: nat)
    requires RingOk(r) && m <= r.ncb && a < b < |Selected(r, m)|
    ensures Selected(r, m)[a] != Selected(r, m)[b]
  {
    hide At, IsFiller;
    var s := Selected(r, m - 1);
    if b < |s| {
      TurnIsDistinct(r, m - 1, a, b);
    } else {
      var j := SelectedFrom(r, m - 1, a);
      TurnIsInjective(r, j, m - 1);
    }
  }

  lemma OneTurn(r: Ring)
    requires RingOk(r)
    ensures |Selected(r, r.ncb)| == Usable(r)
  {
    SelectedCount(r, r.ncb);
    CountTurn(r, r.k0);
  }

  /** As long as no more bits are asked for than there are, no codeword index is sent twice. */
  lemma SlotsDiffer(bg: BaseGraph, z: nat, rv: nat, nFiller: nat, eBits: nat, a: nat, b: nat)
    requires rv < 4 && z > 0 && a < b < eBits <= Usable(RingFor(bg, z, rv, nFiller))
    ensures b < |Picked(RingFor(bg, z, rv, nFiller), eBits)|
    ensures SlotIndex(bg, z, rv, nFiller, eBits, a) != SlotIndex(bg, z, rv, nFiller, eBits, b)
  {
    hide RingFor, Selected;
    var r := RingFor(bg, z, rv, nFiller);
    PickedInTurn(r, eBits);
    TurnIsDistinct(r, r.ncb, a, b);
  }

  lemma PickedInTurn(r: Ring, eBits: nat)
    requires RingOk(r) && eBits <= Usable(r)
    ensures |Selected(r, r.ncb)| == Usable(r) && Picked(r, eBits) == Selected(r, r.ncb)[..eBits]
  {
    hide Selected;
    OneTurn(r);
    ThreeTurns(r);
    SelectedGrows(r, r.ncb, 3 * r.ncb);
  }

  /** Once as many bits are asked for as there are, every sendable index has been sent. */
  lemma EverythingIsSent(bg: BaseGraph, z: nat, rv: nat, nFiller: nat, eBits: nat, i: nat) returns (k: nat)
    requires rv < 4 && z > 0 && Usable(RingFor(bg, z, rv, nFiller)) <= eBits && Sendable(bg, z, nFiller, i)
    ensures k < |Picked(RingFor(bg, z, rv, nFiller), eBits)| && SlotIndex(bg, z, rv, nFiller, eBits, k) == i
  {
    hide RingFor, Selected, Sendable, IsFiller;
    assert i >= 2 * z by { SendableStarts(bg, z, nFiller, i); }
    var r, p := RingFor(bg, z, rv, nFiller), i - 2 * z;
    RingInCodeword(bg, z, rv, nFiller, p);
    VisitsAreStands(r, p, r.ncb);
    FirstTurnStands(r, p, r.ncb);
    k := Visited(Selected(r, r.ncb), p);
    OneTurn(r);
    ThreeTurns(r);
    SelectedGrows(r, r.ncb, 3 * r.ncb);
  }

  lemma SendableStarts(bg: BaseGraph, z: nat, nFiller: nat, i: nat)
    requires Sendable(bg, z, nFiller, i)
    ensures i >= 2 * z
  {
  }

  lemma {:induction false} Visited(s: seq<nat>, p: nat) returns (k: nat)
    requires Visits(s, p) > 0
    ensures k < |s| && s[k] == p
    decreases |s|
  {
    if s[|s| - 1] == p { k := |s| - 1; } else { k := Visited(s[..|s| - 1], p); }
  }

  // ---- the bits on the wire ----------------------------------------------------------------------------------------

  /** Entry (i, j) of a matrix of the given width, row by row. */
  function Cell(i: nat, width: nat, j: nat): nat {
    i * width + j
  }

  /** Within the guard every output bit is a sendable codeword bit: position col * rows + row carries slot
      row * qm + col. */
  lemma SentBit(codeword: seq<bool>, before: seq<bool>, bg: BaseGraph, z: nat, rv: nat, qm: nat, nFiller: nat,
                row: nat, col: nat)
    requires !BadParams(rv, qm, z, |before|) && |before| == (|before| / qm) * qm
    requires row < |before| / qm && col < qm && |before| <= Cap(RingFor(bg, z, rv, nFiller))
    ensures var rows := |before| / qm;
            && Cell(row, qm, col) < |before| && Cell(col, rows, row) < |before|
            && Cell(row, qm, col) < |Picked(RingFor(bg, z, rv, nFiller), |before|)|
            && var i := SlotIndex(bg, z, rv, nFiller, |before|, Cell(row, qm, col));
               && Sendable(bg, z, nFiller, i)
               && (|codeword| == CodewordBlocks(bg) * z ==> i < |codeword|)
               && Interleaved(Chosen(codeword, RingFor(bg, z, rv, nFiller), 2 * z, before), qm,
                              rows)[Cell(col, rows, row)]
                  == (i < |codeword| && codeword[i])
  {
    hide Pick, Source, Picked, RingFor, Selected;
    var rows := |before| / qm;
    CellRange(row, rows, col, qm);
    PickAt(Chosen(codeword, RingFor(bg, z, rv, nFiller), 2 * z, before), qm, rows, row, col);
    SlotIsSendable(bg, z, rv, nFiller, |before|, Cell(row, qm, col));
  }

  // ---- there and back ----------------------------------------------------------------------------------------------

  /** Soft values of received bits. */
  function Heard(bits: seq<bool>, soft: bool -> real): (e: seq<real>)
    ensures |e| == |bits|
  {
    seq(|bits|, x requires 0 <= x < |bits| => soft(bits[x]))
  }

  /** Deinterleaving the soft values of interleaved bits gives the soft values of the bits. */
  lemma HeardInOrder(bits: seq<bool>, soft: bool -> real, qm: nat, rows: nat)
    requires |bits| == rows * qm
    ensures Interleaved(Heard(Interleaved(bits, qm, rows), soft), rows, qm) == Heard(bits, soft)
  {
    hide Pick, Source;
    InterleaveInverts(bits, qm, rows);
    var e := Heard(Interleaved(bits, qm, rows), soft);
    assert |e| == qm * rows;
    forall y | 0 <= y < |e| ensures Pick(e, y, rows, qm) == soft(bits[y]) {
      HeardPick(Interleaved(bits, qm, rows), soft, y, rows, qm);
      assert Interleaved(Interleaved(bits, qm, rows), rows, qm)[y] == bits[y];
    }
  }

  lemma HeardPick(bits: seq<bool>, soft: bool -> real, y: nat, rows: nat, qm: nat)
    requires |bits| == qm * rows && y < |bits|
    ensures Pick(Heard(bits, soft), y, rows, qm) == soft(Pick(bits, y, rows, qm))
  {
    SourceInRange(y, rows, qm);
  }

  /** What position p receives when every slot standing there holds the same value. */
  lemma {:induction false} ReceivedCounts(pos: seq<nat>, vals: seq<real>, p: nat, n: nat, v: real)
    requires n <= |pos| && n <= |vals| && forall k :: 0 <= k < n && pos[k] == p ==> vals[k] == v
    ensures Received(pos, vals, p, n) == Visits(pos[..n], p) as real * v
    decreases n
  {
    hide Received;
    if n == 0 {
      ReceivedNext(pos, vals, p, 0);
    } else {
      ReceivedCounts(pos, vals, p, n - 1, v);
      ReceivedNext(pos, vals, p, n - 1);
      assert pos[..n][..n - 1] == pos[..n - 1];
      var c := Visits(pos[..n - 1], p);
      assert (c + 1) as real * v == c as real * v + v;
    }
  }

  /** Dematching the soft values of what was matched: within the guard the position of codeword index i
      receives the soft value of codeword bit i once for every time it was sent, and nothing else. */
  lemma MatchThenDematch(codeword: seq<bool>, before: seq<bool>, bg: BaseGraph, z: nat, rv: nat, qm: nat, nFiller: nat,
                         soft: bool -> real, p: nat)
    requires !BadParams(rv, qm, z, |before|) && |before| == (|before| / qm) * qm
    requires |before| <= Cap(RingFor(bg, z, rv, nFiller))
    ensures var r, rows := RingFor(bg, z, rv, nFiller), |before| / qm;
            var e := Heard(Interleaved(Chosen(codeword, r, 2 * z, before), qm, rows), soft);
            Received(Picked(r, |e|), Interleaved(e, rows, qm), p, |Picked(r, |e|)|)
            == Visits(Picked(r, |e|), p) as real * soft(p + 2 * z < |codeword| && codeword[p + 2 * z])
    ensures var r := RingFor(bg, z, rv, nFiller);
            && (!Sendable(bg, z, nFiller, p + 2 * z) ==> Visits(Picked(r, |before|), p) == 0)
            && (|before| <= Usable(r) ==> Visits(Picked(r, |before|), p) <= 1)
            && (Usable(r) <= |before| && Sendable(bg, z, nFiller, p + 2 * z) ==> Visits(Picked(r, |before|), p) >= 1)
  {
    hide Picked, RingFor, Selected, Received, Interleaved, Sendable, IsFiller;
    var r, rows := RingFor(bg, z, rv, nFiller), |before| / qm;
    var bits := Chosen(codeword, r, 2 * z, before);
    var pos, vals := Picked(r, |before|), Heard(bits, soft);
    HeardInOrder(bits, soft, qm, rows);
    forall k | 0 <= k < |pos| && pos[k] == p ensures vals[k] == soft(Read(codeword, p + 2 * z)) {}
    ReceivedCounts(pos, vals, p, |pos|, soft(Read(codeword, p + 2 * z)));
    assert pos[..|pos|] == pos;
    VisitBounds(bg, z, rv, nFiller, |before|, p);
  }

  lemma VisitBounds(bg: BaseGraph, z: nat, rv: nat, nFiller: nat, eBits: nat, p: nat)
    requires rv < 4 && z > 0
    ensures var pos := Picked(RingFor(bg, z, rv, nFiller), eBits);
            && (!Sendable(bg, z, nFiller, p + 2 * z) ==> Visits(pos, p) == 0)
            && (eBits <= Usable(RingFor(bg, z, rv, nFiller)) ==> Visits(pos, p) <= 1)
            && (Usable(RingFor(bg, z, rv, nFiller)) <= eBits && Sendable(bg, z, nFiller, p + 2 * z) ==>
                  Visits(pos, p) >= 1)
  {
    hide Picked, RingFor, Selected, Sendable, Visits;
    var r := RingFor(bg, z, rv, nFiller);
    var pos := Picked(r, eBits);
    forall k: nat | k < |pos| ensures Sendable(bg, z, nFiller, pos[k] + 2 * z) {
      SlotIsSendable(bg, z, rv, nFiller, eBits, k);
    }
    if !Sendable(bg, z, nFiller, p + 2 * z) { NeverVisited(pos, p); }
    if eBits <= Usable(r) {
      forall a, b | 0 <= a < b < |pos| ensures pos[a] != pos[b] { SlotsDiffer(bg, z, rv, nFiller, eBits, a, b); }
      VisitedOnce(pos, p);
    }
    if Usable(r) <= eBits && Sendable(bg, z, nFiller, p + 2 * z) {
      var k := EverythingIsSent(bg, z, rv, nFiller, eBits, p + 2 * z);
      VisitedAt(pos, p, k);
    }
  }

  lemma {:induction false} NeverVisited(s: seq<nat>, p: nat)
    requires p !in s
    ensures Visits(s, p) == 0
    decreases |s|
  {
    if |s| > 0 { NeverVisited(s[..|s| - 1], p); }
  }

  lemma {:induction false} VisitedOnce(s: seq<nat>, p: nat)
    requires forall a, b :: 0 <= a < b < |s| ==> s[a] != s[b]
    ensures Visits(s, p) <= 1
    decreases |s|
  {
    if |s| > 0 {
      var t := s[..|s| - 1];
      if s[|s| - 1] == p { NeverVisited(t, p); } else { VisitedOnce(t, p); }
    }
  }

  lemma {:induction false} VisitedAt(s: seq<nat>, p: nat, k: nat)
    requires k < |s| && s[k] == p
    ensures Visits(s, p) >= 1
    decreases |s|
  {
    if k < |s| - 1 { VisitedAt(s[..|s| - 1], p, k); }
  }

  // ---- any received values -----------------------------------------------------------------------------------------

  lemma {:induction false} ReceivedSingle(pos: seq<nat>, vals: seq<real>, k: nat, n: nat)
    requires k < |pos| && n <= |pos| && n <= |vals| && k < |vals|
    requires forall a :: 0 <= a < |pos| && a != k ==> pos[a] != pos[k]
    ensures Received(pos, vals, pos[k], n) == if k < n then vals[k] else 0.0
    decreases n
  {
    hide Received;
    if n == 0 {
      ReceivedNext(pos, vals, pos[k], 0);
    } else {
      ReceivedSingle(pos, vals, k, n - 1);
      ReceivedNext(pos, vals, pos[k], n - 1);
    }
  }

  /** As long as no index is sent twice, the value received at wire position col * rows + row goes to the
      position of the codeword index that slot row * qm + col was read from, and is all that it receives. */
  lemma EachValueReturns(e: seq<real>, bg: BaseGraph, z: nat, rv: nat, qm: nat, rows: nat, nFiller: nat,
                         row: nat, col: nat)
    requires rv < 4 && z > 0 && |e| == rows * qm == qm * rows && row < rows && col < qm
    requires |e| <= Usable(RingFor(bg, z, rv, nFiller))
    ensures Returns(e, Interleaved(e, rows, qm), bg, z, rv, nFiller, Cell(row, qm, col), Cell(col, rows, row))
  {
    hide RingFor, Selected, Received, Pick, Sendable;
    CellRange(row, rows, col, qm);
    PickAt(e, rows, qm, col, row);
    SlotReturns(e, Interleaved(e, rows, qm), bg, z, rv, nFiller, Cell(row, qm, col), Cell(col, rows, row));
  }

  /** Of the values `vals` in slot order, the position of the codeword index of slot k receives what arrived at
      wire position x, and nothing else. */
  ghost predicate Returns(e: seq<real>, vals: seq<real>, bg: BaseGraph, z: nat, rv: nat, nFiller: nat, k: nat, x: nat)
    requires rv < 4 && z > 0
  {
    var pos := Picked(RingFor(bg, z, rv, nFiller), |e|);
    && x < |e| && k < |pos|
    && var i := SlotIndex(bg, z, rv, nFiller, |e|, k);
       i >= 2 * z && Received(pos, vals, i - 2 * z, |pos|) == e[x]
  }

  lemma SlotReturns(e: seq<real>, vals: seq<real>, bg: BaseGraph, z: nat, rv: nat, nFiller: nat, k: nat, x: nat)
    requires rv < 4 && z > 0 && |vals| == |e| <= Usable(RingFor(bg, z, rv, nFiller))
    requires k < |e| && x < |e| && vals[k] == e[x]
    ensures Returns(e, vals, bg, z, rv, nFiller, k, x)
  {
    hide RingFor, Selected, Received, Sendable;
    var pos := Picked(RingFor(bg, z, rv, nFiller), |e|);
    forall a | 0 <= a < |pos| && a != k ensures pos[a] != pos[k] {
      if a < k { SlotsDiffer(bg, z, rv, nFiller, |e|, a, k); } else { SlotsDiffer(bg, z, rv, nFiller, |e|, k, a); }
    }
    ReceivedSingle(pos, vals, k, |pos|);
  }

  // ---- the interleaver and the standard ----------------------------------------------------------

  /** Section 5.4.2.2 of TS 38.212: output i + j Qm is input i E/Qm + j. */
  ghost predicate StandardOrder<T(!new)>(e: seq<T>, f: seq<T>, qm: nat, rows: nat)
    requires |e| == |f| == rows * qm
  {
    forall i, j :: 0 <= i < qm && 0 <= j < rows ==> StandardCell(e, f, qm, rows, i, j)
  }

  ghost predicate StandardCell<T(!new)>(e: seq<T>, f: seq<T>, qm: nat, rows: nat, i: nat, j: nat)
    requires |e| == |f| == rows * qm && i < qm && j < rows
  {
    CellRange(j, rows, i, qm);
    f[j * qm + i] == e[i * rows + j]
  }

  /** The standard's order is what deinterleaving does. */
  lemma DeinterleavingIsStandard<T(!new)>(e: seq<T>, qm: nat, rows: nat)
    requires |e| == rows * qm
    ensures StandardOrder(e, Interleaved(e, rows, qm), qm, rows)
  {
    hide Pick;
    forall i, j | 0 <= i < qm && 0 <= j < rows ensures StandardCell(e, Interleaved(e, rows, qm), qm, rows, i, j) {
      CellRange(j, rows, i, qm);
      PickAt(e, rows, qm, i, j);
    }
  }

  /** Interleaving is in the standard's order for every input only for a square or a single row or column. */
  lemma InterleavingIsStandardIff(qm: nat, rows: nat)
    ensures (forall e: seq<nat> :: |e| == rows * qm ==> StandardOrder(e, Interleaved(e, qm, rows), qm, rows))
       <==> qm <= 1 || rows <= 1 || qm == rows
  {
    hide Interleaved, StandardOrder;
    if qm <= 1 || rows <= 1 || qm == rows {
      forall e: seq<nat> | |e| == rows * qm ensures StandardOrder(e, Interleaved(e, qm, rows), qm, rows) {
        SameOrder(e, qm, rows);
        DeinterleavingIsStandard(e, qm, rows);
      }
    } else {
      var e: seq<nat> := seq(rows * qm, x => x);
      SecondOutput(e, qm, rows);
    }
  }

  lemma SameOrder(e: seq<nat>, qm: nat, rows: nat)
    requires |e| == rows * qm && (qm <= 1 || rows <= 1 || qm == rows)
    ensures Interleaved(e, qm, rows) == Interleaved(e, rows, qm)
  {
    forall x | 0 <= x < |e| ensures Pick(e, x, qm, rows) == Pick(e, x, rows, qm) {
      CellOf(x, rows, qm);
      SourceInRange(x, qm, rows);
      assert |e| == qm * rows;
      SourceInRange(x, rows, qm);
      if qm == 1 { OneColumn(x, rows); }
      if rows == 1 { OneColumn(x, qm); }
    }
  }

  lemma OneColumn(x: nat, n: nat)
    requires x < n
    ensures Source(x, 1, n) == x == Source(x, n, 1)
  {
    assert x % 1 == 0 && x / 1 == x;
    SmallMod(x, n);
  }

  /** Output 1 is input E/Qm in the standard, and input Qm here. */
  lemma SecondOutput(e: seq<nat>, qm: nat, rows: nat)
    requires qm > 1 && rows > 1 && qm != rows && |e| == rows * qm && forall x :: 0 <= x < |e| ==> e[x] == x
    ensures !StandardOrder(e, Interleaved(e, qm, rows), qm, rows)
  {
    hide Pick;
    CellRange(1, rows, 0, qm);
    CellRange(0, rows, 1, qm);
    PickAt(e, qm, rows, 1, 0);
    assert Interleaved(e, qm, rows)[1] == e[qm];
    assert StandardCell(e, Interleaved(e, qm, rows), qm, rows, 1, 0) <==> e[qm] == e[rows];
  }
}
