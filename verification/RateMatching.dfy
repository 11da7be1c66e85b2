/** Rate matching: the bit interleaver and its inverse, and the direct walk in both directions. */
module RateMatching {
  import opened DoubleSums
  import opened Modulo
  import opened SelectionWalk

  // ---- the interleaver -----------------------------------------------------------------------------------------

  /** Where wire position x was read from: `interleaved_to_selection_index`. */
  function Source(x: nat, qm: nat, rows: nat): nat
    requires rows > 0
  {
    (x % rows) * qm + x / rows
  }

  lemma RowColumn(row: nat, col: nat, n: nat)
    requires row < n
    ensures (col * n + row) % n == row && (col * n + row) / n == col
  {
    assert col * n + row == n * col + row;
    ModUnique(col * n + row, n, col, row);
  }

  lemma Fits(a: nat, n: nat, b: nat, m: nat)
    requires a < n && b < m
    ensures a * m + b < n * m && a * m + m <= n * m
  {
    assert n * m == a * m + m + (n - a - 1) * m;
    assert (n - a - 1) * m >= 0;
  }

  lemma CellRange(row: nat, rows: nat, col: nat, qm: nat)
    requires row < rows && col < qm
    ensures row * qm + col < rows * qm && col * rows + row < rows * qm
  {
    Fits(row, rows, col, qm);
    Fits(col, qm, row, rows);
  }

  lemma BothPositive(rows: nat, qm: nat)
    requires rows * qm > 0
    ensures rows > 0 && qm > 0
  {
  }

  /** Every position of a rows x qm block is row * qm + col and col * rows + row for one cell. */
  lemma CellOf(x: nat, rows: nat, qm: nat)
    requires x < rows * qm
    ensures rows > 0 && qm > 0 && x % rows < rows && x / rows < qm && x % qm < qm && x / qm < rows
    ensures x == (x / rows) * rows + x % rows == (x / qm) * qm + x % qm
  {
    BothPositive(rows, qm);
    var c, r := x / rows, x / qm;
    assert x == rows * c + x % rows && x == qm * r + x % qm;
    Bound(rows, c, qm);
    Bound(qm, r, rows);
  }

  lemma Bound(n: nat, q: nat, m: nat)
    ensures q >= m ==> n * q >= n * m
  {
    if q >= m { assert n * (q - m) >= 0; }
  }

  lemma SourceInRange(x: nat, qm: nat, rows: nat)
    requires x < rows * qm
    ensures rows > 0 && Source(x, qm, rows) < rows * qm
  {
    CellOf(x, rows, qm);
    CellRange(x % rows, rows, x / rows, qm);
  }

  /** Writing by rows and reading by columns, then the same with the roles exchanged, is the identity. */
  lemma SourceInverts(x: nat, qm: nat, rows: nat)
    requires x < rows * qm
    ensures rows > 0 && qm > 0
    ensures Source(Source(x, qm, rows), rows, qm) == x
  {
    CellOf(x, rows, qm);
    var row, col := x % rows, x / rows;
    RowColumn(col, row, qm);
  }

  function Interleaved<T>(e: seq<T>, qm: nat, rows: nat): (out: seq<T>)
    requires |e| == rows * qm
    ensures |out| == |e|
  {
    seq(|e|, x requires 0 <= x < |e| => Pick(e, x, qm, rows))
  }

  function Pick<T>(e: seq<T>, x: nat, qm: nat, rows: nat): T
    requires |e| == rows * qm && x < |e|
  {
    SourceInRange(x, qm, rows);
    e[Source(x, qm, rows)]
  }

  /** Deinterleaving is interleaving with rows and columns exchanged. */
  lemma InterleaveInverts<T>(e: seq<T>, qm: nat, rows: nat)
    requires |e| == rows * qm
    ensures Interleaved(Interleaved(e, qm, rows), rows, qm) == e
  {
    var f := Interleaved(e, qm, rows);
    forall x | 0 <= x < |e| ensures Pick(f, x, rows, qm) == e[x] {
      assert |e| == qm * rows;
      SourceInRange(x, rows, qm);
      SourceInverts(x, rows, qm);
      assert f[Source(x, rows, qm)] == Pick(e, Source(x, rows, qm), qm, rows);
    }
  }

  lemma NextColumn(col: nat, qm: nat, rows: nat)
    requires col < qm
    ensures col * rows + rows == (col + 1) * rows <= rows * qm
  {
    assert (col + 1) * rows == col * rows + rows;
    assert rows * qm == (col + 1) * rows + (qm - col - 1) * rows;
    assert (qm - col - 1) * rows >= 0;
  }

  lemma PickAt<T>(e: seq<T>, qm: nat, rows: nat, row: nat, col: nat)
    requires |e| == rows * qm && row < rows && col < qm
    ensures row * qm + col < |e| && col * rows + row < |e|
    ensures Pick(e, col * rows + row, qm, rows) == e[row * qm + col]
  {
    CellRange(row, rows, col, qm);
    RowColumn(row, col, rows);
  }

  /** `interleave`: write row by row, read column by column. */
  method Interleave(e: array<bool>, qm: nat, rows: nat)
    requires e.Length == rows * qm
    modifies e
    ensures e[..] == Interleaved(old(e[..]), qm, rows)
  {
    hide Pick;
    ghost var e0 := e[..];
    var out := new bool[e.Length];
    var col := 0;
    while col < qm
      invariant 0 <= col <= qm && col * rows <= e.Length && e[..] == e0
      invariant forall x :: 0 <= x < col * rows ==> out[x] == Pick(e0, x, qm, rows)
    {
      NextColumn(col, qm, rows);
      InterleaveColumn(e, out, qm, rows, col);
      col := col + 1;
    }
    CopyBack(e, out);
    assert e[..] == Interleaved(e0, qm, rows);
  }

  method InterleaveColumn(e: array<bool>, out: array<bool>, qm: nat, rows: nat, col: nat)
    requires e.Length == out.Length == rows * qm && e != out && col < qm && col * rows + rows <= e.Length
    requires forall x :: 0 <= x < col * rows ==> out[x] == Pick(e[..], x, qm, rows)
    modifies out
    ensures forall x :: 0 <= x < col * rows + rows ==> out[x] == Pick(e[..], x, qm, rows)
  {
    hide Pick;
    var row := 0;
    while row < rows
      invariant 0 <= row <= rows
      invariant forall x :: 0 <= x < col * rows + row ==> out[x] == Pick(e[..], x, qm, rows)
    {
      PickAt(e[..], qm, rows, row, col);
      out[col * rows + row] := e[row * qm + col];
      row := row + 1;
    }
  }

  method CopyBack<T>(e: array<T>, out: array<T>)
    requires e.Length == out.Length && e != out
    modifies e
    ensures e[..] == old(out[..]) == out[..]
  {
    var i := 0;
    while i < e.Length
      invariant 0 <= i <= e.Length && e[..i] == out[..i] && out[..] == old(out[..])
    {
      e[i] := out[i];
      i := i + 1;
    }
    assert e[..] == out[..];
  }

  /** `deinterleave_f32`: the same cells, read by columns and written by rows. */
  method Deinterleave(e: array<real>, qm: nat, rows: nat)
    requires e.Length == rows * qm
    modifies e
    ensures e[..] == Interleaved(old(e[..]), rows, qm)
  {
    hide Written, Source;
    ghost var e0 := e[..];
    var out := new real[e.Length];
    var col := 0;
    while col < qm
      invariant 0 <= col <= qm && col * rows <= e.Length && e[..] == e0
      invariant forall x :: 0 <= x < col * rows ==> Written(out, e0, x, qm, rows)
    {
      NextColumn(col, qm, rows);
      DeinterleaveColumn(e, out, qm, rows, col);
      col := col + 1;
    }
    AllWritten(out, e0, qm, rows);
    CopyBack(e, out);
  }

  method DeinterleaveColumn(e: array<real>, out: array<real>, qm: nat, rows: nat, col: nat)
    requires e.Length == out.Length == rows * qm && e != out && col < qm && col * rows + rows <= e.Length
    requires forall x :: 0 <= x < col * rows ==> Written(out, e[..], x, qm, rows)
    modifies out
    ensures forall x :: 0 <= x < col * rows + rows ==> Written(out, e[..], x, qm, rows)
  {
    hide Written, Source;
    ghost var e0 := e[..];
    var row := 0;
    while row < rows
      invariant 0 <= row <= rows && e[..] == e0
      invariant forall x :: 0 <= x < col * rows + row ==> Written(out, e0, x, qm, rows)
    {
      NewCell(qm, rows, row, col);
      WriteCell(out, e[col * rows + row], e0, qm, rows, row, col);
      row := row + 1;
    }
  }

  /** Distinct wire positions come from distinct slots. */
  lemma NewCell(qm: nat, rows: nat, row: nat, col: nat)
    requires row < rows && col < qm
    ensures col * rows + row < rows * qm && row * qm + col < rows * qm
    ensures Source(col * rows + row, qm, rows) == row * qm + col
    ensures forall x :: 0 <= x < col * rows + row ==> Source(x, qm, rows) != row * qm + col
  {
    hide Source;
    CellRange(row, rows, col, qm);
    SourceAt(qm, rows, row, col);
    SourceInverts(col * rows + row, qm, rows);
    forall x | 0 <= x < col * rows + row ensures Source(x, qm, rows) != row * qm + col { SourceInverts(x, qm, rows); }
  }

  lemma SourceAt(qm: nat, rows: nat, row: nat, col: nat)
    requires row < rows
    ensures Source(col * rows + row, qm, rows) == row * qm + col
  {
    RowColumn(row, col, rows);
  }

  /** Wire position x has been put where it came from. */
  ghost predicate Written(out: array<real>, e0: seq<real>, x: nat, qm: nat, rows: nat)
    requires |e0| == out.Length == rows * qm && x < |e0|
    reads out
  {
    SourceInRange(x, qm, rows);
    out[Source(x, qm, rows)] == e0[x]
  }

  method WriteCell(out: array<real>, value: real, ghost e0: seq<real>, qm: nat, rows: nat, row: nat, col: nat)
    requires |e0| == out.Length == rows * qm && row < rows && col < qm
    requires col * rows + row < |e0| && row * qm + col < |e0| && value == e0[col * rows + row]
    requires Source(col * rows + row, qm, rows) == row * qm + col
    requires forall x :: 0 <= x < col * rows + row ==> Written(out, e0, x, qm, rows)
    requires forall x :: 0 <= x < col * rows + row ==> Source(x, qm, rows) != row * qm + col
    modifies out
    ensures forall x :: 0 <= x < col * rows + row + 1 ==> Written(out, e0, x, qm, rows)
  {
    hide Source;
    out[row * qm + col] := value;
    forall x | 0 <= x < col * rows + row ensures Written(out, e0, x, qm, rows) {
      assert old(Written(out, e0, x, qm, rows));
    }
  }

  lemma AllWritten(out: array<real>, e0: seq<real>, qm: nat, rows: nat)
    requires |e0| == out.Length == rows * qm
    requires forall x :: 0 <= x < |e0| ==> Written(out, e0, x, qm, rows)
    ensures out[..] == Interleaved(e0, rows, qm)
  {
    forall y | 0 <= y < |e0| ensures out[y] == Pick(e0, y, rows, qm) {
      assert |e0| == qm * rows;
      SourceInRange(y, rows, qm);
      SourceInverts(y, rows, qm);
      assert Written(out, e0, Source(y, rows, qm), qm, rows);
    }
  }

  // ---- what the walk contributes -----------------------------------------------------------------------------------

  /** The positions the guarded walk picks for E bits: all E of them, or as many as the cap allows. */
  function Picked(r: Ring, eBits: nat): (s: seq<nat>)
    requires RingOk(r)
    ensures |s| == if eBits <= Cap(r) then eBits else Cap(r)
  {
    ThreeTurns(r);
    Selected(r, 3 * r.ncb)[..if eBits <= Cap(r) then eBits else Cap(r)]
  }

  lemma ThreeTurns(r: Ring)
    requires RingOk(r)
    ensures |Selected(r, 3 * r.ncb)| >= Cap(r)
  {
    SelectedCount(r, 3 * r.ncb);
    CountTurn(r, r.k0);
    CountTurn(r, r.k0 + r.ncb);
    CountTurn(r, r.k0 + 2 * r.ncb);
  }

  lemma WalkedPicks(r: Ring, eBits: nat, steps: nat)
    requires RingOk(r) && |Selected(r, steps)| == if eBits <= Cap(r) then eBits else Cap(r)
    ensures Selected(r, steps) == Picked(r, eBits)
  {
    hide Selected;
    ThreeTurns(r);
    if steps <= 3 * r.ncb {
      SelectedGrows(r, steps, 3 * r.ncb);
    } else {
      SelectedGrows(r, 3 * r.ncb, steps);
    }
  }

  /** Codeword bits beyond the buffer read as zero. */
  function Read(codeword: seq<bool>, idx: nat): bool {
    if idx < |codeword| then codeword[idx] else false
  }

  /** The selected bits, in walk order; slots the walk never reached keep `tail`. */
  function Chosen(codeword: seq<bool>, r: Ring, twoZ: nat, tail: seq<bool>): (s: seq<bool>)
    requires RingOk(r)
    ensures |s| == |tail|
  {
    seq(|tail|, i requires 0 <= i < |tail| =>
      if i < |Picked(r, |tail|)| then Read(codeword, Picked(r, |tail|)[i] + twoZ) else tail[i])
  }

  datatype Result = Ok | InvalidParam

  /** The checks both directions and both variants share. */
  predicate BadParams(rv: nat, qm: nat, z: nat, eBits: nat) {
    rv >= 4 || qm == 0 || z == 0 || eBits % qm != 0
  }

  lemma Divides(e: nat, qm: nat)
    requires qm > 0 && e % qm == 0
    ensures e == (e / qm) * qm
  {
  }

  /** `rate_match`: walk, gather, interleave. */
  method RateMatch(codeword: seq<bool>, eOut: array<bool>, rv: nat, qm: nat, bg: BaseGraph, z: nat, nFiller: nat)
    returns (res: Result)
    modifies eOut
    ensures res == if BadParams(rv, qm, z, eOut.Length) then InvalidParam else Ok
    ensures res.InvalidParam? ==> eOut[..] == old(eOut[..])
    ensures res.Ok? ==>
              (eOut.Length == (eOut.Length / qm) * qm
               && eOut[..] == Interleaved(Chosen(codeword, RingFor(bg, z, rv, nFiller), 2 * z, old(eOut[..])), qm,
                                          eOut.Length / qm))
  {
    if rv >= 4 || qm == 0 || z == 0 || eOut.Length % qm != 0 {
      return InvalidParam;
    }
    Divides(eOut.Length, qm);
    var r := RingFor(bg, z, rv, nFiller);
    GatherBits(codeword, eOut, r, 2 * z);
    Interleave(eOut, qm, eOut.Length / qm);
    return Ok;
  }

  method GatherBits(codeword: seq<bool>, eOut: array<bool>, r: Ring, twoZ: nat)
    requires RingOk(r)
    modifies eOut
    ensures eOut[..] == Chosen(codeword, r, twoZ, old(eOut[..]))
  {
    hide IsFiller, Gap, Selected, At, OnTheWay, Picked;
    ghost var e0 := eOut[..];
    var eBits := eOut.Length;
    var kSel, j := 0, 0;
    StartOfWalk(r);
    while kSel < eBits
      invariant 0 <= kSel <= eBits && OnTheWay(r, j, kSel) && kSel == |Selected(r, j)|
      invariant forall i :: 0 <= i < kSel ==> eOut[i] == Read(codeword, Selected(r, j)[i] + twoZ)
      invariant forall i :: kSel <= i < eBits ==> eOut[i] == e0[i]
      decreases eBits - kSel, Gap(r, j)
    {
      var pos := At(r, j);
      if IsFiller(r, pos) {
        GapShrinks(r, j);
        SkipStep(r, j, kSel);
        j := j + 1;
        continue;
      }
      PickStep(r, j, kSel);
      eOut[kSel] := Read(codeword, pos + twoZ);
      kSel := kSel + 1;
      j := j + 1;
      if j > 2 * r.ncb {
        break;
      }
      WayCounts(r, j, kSel);
    }
    WayCounts(r, j, kSel);
    WalkedPicks(r, eBits, j);
    assert eOut[..] == Chosen(codeword, r, twoZ, e0);
  }

  // ---- dematching --------------------------------------------------------------------------------------------------

  /** The k-th term of what position p receives. */
  function Term(pos: seq<nat>, vals: seq<real>, p: nat, k: nat): real {
    if k < |pos| && k < |vals| && pos[k] == p then vals[k] else 0.0
  }

  /** What position p receives from the first n values. */
  function Received(pos: seq<nat>, vals: seq<real>, p: nat, n: nat): real {
    Sum((k: nat) => Term(pos, vals, p, k), n)
  }

  lemma ReceivedNext(pos: seq<nat>, vals: seq<real>, p: nat, n: nat)
    ensures Received(pos, vals, p, n + 1) == Received(pos, vals, p, n) + Term(pos, vals, p, n)
    ensures Received(pos, vals, p, 0) == 0.0
  {
  }

  lemma {:induction false} ReceivedPrefix(pos: seq<nat>, pos': seq<nat>, vals: seq<real>, p: nat, n: nat)
    requires n <= |pos| && n <= |pos'| && pos[..n] == pos'[..n]
    ensures Received(pos, vals, p, n) == Received(pos', vals, p, n)
  {
    hide Term;
    forall k: nat | k < n
      ensures Term(pos, vals, p, k) == Term(pos', vals, p, k)
    {
      SameTerm(pos, pos', vals, p, k, n);
    }
    SumSame((k: nat) => Term(pos, vals, p, k), (k: nat) => Term(pos', vals, p, k), n);
  }

  lemma SameTerm(pos: seq<nat>, pos': seq<nat>, vals: seq<real>, p: nat, k: nat, n: nat)
    requires k < n <= |pos| && n <= |pos'| && pos[..n] == pos'[..n]
    ensures Term(pos, vals, p, k) == Term(pos', vals, p, k)
  {
    assert pos[..n][k] == pos'[..n][k];
  }

  /** `rate_dematch_llr`: deinterleave, walk, add each value at its position. */
  method RateDematch(eLlr: seq<real>, cb: array<real>, rv: nat, qm: nat, bg: BaseGraph, z: nat, nFiller: nat)
    returns (res: Result)
    modifies cb
    ensures res == if BadParams(rv, qm, z, |eLlr|) then InvalidParam else Ok
    ensures res.InvalidParam? ==> cb[..] == old(cb[..])
    ensures res.Ok? ==> |eLlr| == (|eLlr| / qm) * qm
    ensures res.Ok? ==>
              forall p :: 0 <= p < cb.Length ==>
                cb[p] == old(cb[p])
                         + Received(Picked(RingFor(bg, z, rv, nFiller), |eLlr|), Interleaved(eLlr, |eLlr| / qm, qm), p,
                                    |Picked(RingFor(bg, z, rv, nFiller), |eLlr|)|)
  {
    hide Interleaved, RingFor, Picked, Received;
    if rv >= 4 || qm == 0 || z == 0 || |eLlr| % qm != 0 {
      return InvalidParam;
    }
    Divides(|eLlr|, qm);
    var eDeint := new real[|eLlr|](i requires 0 <= i < |eLlr| => eLlr[i]);
    assert eDeint[..] == eLlr;
    Deinterleave(eDeint, qm, |eLlr| / qm);
    var r := RingFor(bg, z, rv, nFiller);
    ScatterWalk(eDeint[..], cb, r);
    return Ok;
  }

  method ScatterWalk(vals: seq<real>, cb: array<real>, r: Ring)
    requires RingOk(r)
    modifies cb
    ensures forall p :: 0 <= p < cb.Length ==>
              cb[p] == old(cb[p]) + Received(Picked(r, |vals|), vals, p, |Picked(r, |vals|)|)
  {
    hide IsFiller, Gap, Selected, At, OnTheWay, Picked, Received;
    ghost var c0 := cb[..];
    var kSel, j := 0, 0;
    StartOfWalk(r);
    forall p | 0 <= p < cb.Length ensures Received(Selected(r, 0), vals, p, 0) == 0.0 {
      ReceivedNext(Selected(r, 0), vals, p, 0);
    }
    while kSel < |vals|
      invariant 0 <= kSel <= |vals| && OnTheWay(r, j, kSel) && kSel == |Selected(r, j)|
      invariant forall p :: 0 <= p < cb.Length ==> cb[p] == c0[p] + Received(Selected(r, j), vals, p, kSel)
      decreases |vals| - kSel, Gap(r, j)
    {
      var pos := At(r, j);
      if IsFiller(r, pos) {
        GapShrinks(r, j);
        SkipStep(r, j, kSel);
        j := j + 1;
        continue;
      }
      PickStep(r, j, kSel);
      ghost var s, s' := Selected(r, j), Selected(r, j + 1);
      forall p | 0 <= p < cb.Length
        ensures Received(s', vals, p, kSel + 1) == Received(s, vals, p, kSel) + (if p == pos then vals[kSel] else 0.0)
      {
        ReceivedNext(s', vals, p, kSel);
        ReceivedPrefix(s, s', vals, p, kSel);
      }
      if pos < cb.Length {
        cb[pos] := cb[pos] + vals[kSel];
      }
      kSel := kSel + 1;
      j := j + 1;
      if j > 2 * r.ncb {
        break;
      }
      WayCounts(r, j, kSel);
    }
    WayCounts(r, j, kSel);
    WalkedPicks(r, |vals|, j);
  }
}
