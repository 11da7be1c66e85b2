/** The polar encoder and decoder as objects. */
module PolarDecoder {
  import opened Bits
  import opened PolarTransform
  import opened PolarSc
  import opened PolarScl
  import opened PolarRows
  import opened PolarCodec
  import opened PolarBest
  import opened PolarArena
  import opened StableSort
  import opened Options

  datatype Outcome<T> = Ok(value: T) | BufferTooSmall(required: nat, provided: nat) | InvalidParam

  /** What the adaptive decoder did. */
  datatype Report = Report(listSizeUsed: nat, crcOk: bool, attempts: nat)

  /** `PolarEncoder::new`: the mask, from the reliability order of the positions. */
  method NewEncoder(table: seq<nat>, n: nat, k: nat) returns (r: Outcome<Word>)
    ensures r.Ok? <==> Pow2(n) && k < n
    ensures r.Ok? ==> Pow2(|r.value|) && r.value == FrozenMask(table, n, k)
    ensures r.Ok? && Distinct(table) && k <= |Filtered(table, n)| ==> Free(r.value) == k
    ensures !r.Ok? ==> r == InvalidParam
  {
    if !Pow2(n) || k >= n {
      return InvalidParam;
    }
    if Distinct(table) && k <= |Filtered(table, n)| { MaskHasK(table, n, k); }
    return Ok(FrozenMask(table, n, k));
  }

  /** `PolarDecoder::new`. */
  method NewDecoder(table: seq<nat>, n: nat, k: nat, listSize: nat, crc: Option<Word -> bool>)
    returns (r: Outcome<PolarDecoder>)
    ensures r.Ok? <==> Pow2(n) && k < n && listSize > 0
    ensures r.Ok? ==> r.value.Valid() && fresh(r.value) && r.value.frozen == FrozenMask(table, n, k)
                      && r.value.listSize == listSize && r.value.crc == crc
    ensures r.Ok? ==> fresh(r.value.scratch) && fresh(r.value.beta) && fresh(r.value.decoded)
    ensures !r.Ok? ==> r == InvalidParam
  {
    if !Pow2(n) || k >= n || listSize == 0 {
      return InvalidParam;
    }
    var d := new PolarDecoder(FrozenMask(table, n, k), listSize, crc);
    return Ok(d);
  }

  method Encode(info: Word, frozen: Word, codeword: array<bool>) returns (r: Outcome<()>)
    requires Pow2(|frozen|)
    modifies codeword
    ensures |info| != Free(frozen) ==> r == BufferTooSmall(Free(frozen), |info|)
    ensures |info| == Free(frozen) && codeword.Length != |frozen| ==> r == BufferTooSmall(|frozen|, codeword.Length)
    ensures r.Ok? ==> |info| == Free(frozen) && codeword[..] == Codeword(info, frozen)
    ensures !r.Ok? ==> codeword[..] == old(codeword[..])
    ensures r.Ok? <==> |info| == Free(frozen) && codeword.Length == |frozen|
  {
    var n := |frozen|;
    if |info| != Free(frozen) { return BufferTooSmall(Free(frozen), |info|); }
    if codeword.Length != n { return BufferTooSmall(n, codeword.Length); }
    var u := new bool[n];
    Fill(info, frozen, u);
    TransformInPlace(u);
    forall i | 0 <= i < n { codeword[i] := u[i]; }
    assert codeword[..] == u[..];
    return Ok(());
  }

  /** The first i positions are filled, with the first `used` message bits. */
  ghost predicate FilledTo(u: Word, info: Word, frozen: Word, i: nat, used: nat)
    requires |info| == Free(frozen)
  {
    && i <= |u| == |frozen| && used <= |info| && |info| - used == Free(frozen[i..])
    && u[..i] + Expand(info[used..], frozen[i..]) == Expand(info, frozen)
  }

  lemma FillNext(u: Word, u': Word, info: Word, frozen: Word, i: nat, used: nat)
    requires |info| == Free(frozen) && FilledTo(u, info, frozen, i, used) && i < |u|
    requires !frozen[i] ==> used < |info|
    requires u' == u[i := !frozen[i] && info[used]]
    ensures FilledTo(u', info, frozen, i + 1, if frozen[i] then used else used + 1)
  {
    var used' := if frozen[i] then used else used + 1;
    var a, e, e' := u[..i], Expand(info[used..], frozen[i..]), Expand(info[used'..], frozen[i + 1..]);
    assert frozen[i..][1..] == frozen[i + 1..];
    if !frozen[i] { assert info[used..][1..] == info[used + 1..]; }
    assert u'[..i + 1] == a + [u'[i]];
    assert e == [u'[i]] + e';
    assert (a + [u'[i]]) + e' == a + ([u'[i]] + e');
  }

  /** Message bits to the information positions, zeros elsewhere. */
  method Fill(info: Word, frozen: Word, u: array<bool>)
    requires |info| == Free(frozen) && u.Length == |frozen|
    modifies u
    ensures u[..] == Expand(info, frozen)
  {
    hide FilledTo;
    var infoIdx: nat := 0;
    var i := 0;
    FillStarts(u[..], info, frozen);
    while i < u.Length
      invariant 0 <= i <= u.Length && FilledTo(u[..], info, frozen, i, infoIdx)
    {
      ghost var was: Word := u[..];
      FillLeft(was, info, frozen, i, infoIdx);
      if frozen[i] {
        u[i] := false;
        assert u[..] == was[i := false];
        FillNext(was, u[..], info, frozen, i, infoIdx);
      } else {
        u[i] := info[infoIdx];
        assert u[..] == was[i := info[infoIdx]];
        FillNext(was, u[..], info, frozen, i, infoIdx);
        infoIdx := infoIdx + 1;
      }
      i := i + 1;
    }
    FillEnds(u[..], info, frozen, infoIdx);
  }

  lemma FillStarts(u: Word, info: Word, frozen: Word)
    requires |info| == Free(frozen) && |u| == |frozen|
    ensures FilledTo(u, info, frozen, 0, 0)
  {
    assert frozen[0..] == frozen && info[0..] == info;
  }

  lemma FillLeft(u: Word, info: Word, frozen: Word, i: nat, used: nat)
    requires |info| == Free(frozen) && FilledTo(u, info, frozen, i, used) && i < |frozen|
    ensures !frozen[i] ==> used < |info|
  {
  }

  lemma FillEnds(u: Word, info: Word, frozen: Word, used: nat)
    requires |info| == Free(frozen) && FilledTo(u, info, frozen, |frozen|, used)
    ensures u == Expand(info, frozen)
  {
    assert u[..|frozen|] == u;
  }

  /** The information bits of a decided word. */
  method Collect(u: Word, frozen: Word) returns (info: Word)
    requires |u| == |frozen|
    ensures info == Extract(u, frozen)
  {
    info := [];
    assert u[0..] == u && frozen[0..] == frozen;
    for i := 0 to |u|
      invariant info + Extract(u[i..], frozen[i..]) == Extract(u, frozen)
    {
      assert u[i..][1..] == u[i + 1..] && frozen[i..][1..] == frozen[i + 1..];
      if !frozen[i] { info := info + [u[i]]; }
    }
  }

  method CopyTo(info: Word, out: array<bool>)
    requires out.Length == |info|
    modifies out
    ensures out[..] == info
  {
    forall i | 0 <= i < out.Length { out[i] := info[i]; }
  }

  class PolarDecoder {
    const frozen: Word
    const listSize: nat
    const crc: Option<Word -> bool>
    // scratch of decode_sc, kept between calls
    const scratch: array<real>
    const beta: array<bool>
    const decoded: array<bool>

    ghost predicate Valid() {
      && Pow2(|frozen|) && listSize > 0
      && beta.Length == decoded.Length == |frozen| && beta != decoded
      && scratch.Length == Need(|frozen|, |frozen|)
    }

    constructor (frozen: Word, listSize: nat, crc: Option<Word -> bool>)
      requires Pow2(|frozen|) && listSize > 0
      ensures Valid() && this.frozen == frozen && this.listSize == listSize && this.crc == crc
      ensures fresh(scratch) && fresh(beta) && fresh(decoded)
    {
      this.frozen, this.listSize, this.crc := frozen, listSize, crc;
      scratch := new real[Need(|frozen|, |frozen|)];
      beta := new bool[|frozen|];
      decoded := new bool[|frozen|];
    }

    /** The length checks every entry point makes, in this order. */
    ghost predicate Refused(llr: array<real>, out: array<bool>, r: Outcome<()>) {
      if llr.Length != |frozen| then r == BufferTooSmall(|frozen|, llr.Length)
      else out.Length != Free(frozen) && r == BufferTooSmall(Free(frozen), out.Length)
    }

    /** Successive cancellation. The answer does not depend on what the scratch held before. */
    method DecodeSc(llr: array<real>, out: array<bool>) returns (r: Outcome<()>)
      requires Valid() && llr != scratch && out != beta && out != decoded
      modifies scratch, beta, decoded, out
      ensures r.Ok? <==> llr.Length == |frozen| && out.Length == Free(frozen)
      ensures !r.Ok? ==> Refused(llr, out, r) && out[..] == old(out[..])
      ensures r.Ok? ==> out[..] == Extract(Sc(llr[..], frozen), frozen)
    {
      hide Sc, Extract, T, Need;
      if llr.Length != |frozen| { return BufferTooSmall(|frozen|, llr.Length); }
      if out.Length != Free(frozen) { return BufferTooSmall(Free(frozen), out.Length); }
      var n := |frozen|;
      assert llr[0..n] == llr[..] && frozen[0..n] == frozen;
      ScDecodeRecursive(llr, 0, decoded, beta, frozen, 0, n, scratch, 0, n, llr[..], frozen);
      assert decoded[..] == decoded[0..n];
      var info := Collect(decoded[..], frozen);
      CopyTo(info, out);
      return Ok(());
    }

    /** One decode at an explicit list size: the message, and whether it satisfies the CRC. */
    method DecodeSclAt(llr: array<real>, out: array<bool>, list: nat) returns (ok: bool)
      requires Valid() && llr != scratch && out != beta && out != decoded
      requires llr.Length == |frozen| && out.Length == Free(frozen) && list > 0
      modifies scratch, beta, decoded, out
      ensures |Candidates(llr[..], frozen, list)| > 0
      ensures (out[..], ok) == Answer(Candidates(llr[..], frozen, list), frozen, crc)
      ensures ok <==> SomePasses(Candidates(llr[..], frozen, list), frozen, crc)
      ensures !frozen[|frozen| - 1] ==> Cheapest(llr[..], frozen, list, crc, out[..])
    {
      hide Cheapest, SomePasses;
      AnswerIsCheapest(llr[..], frozen, list, crc);
      if list == 1 {
        var r := DecodeSc(llr, out);
        ok := crc.Some? && crc.value(out[..]);
      } else {
        var info;
        info, ok := DecodeList(llr, list);
        CopyTo(info, out);
      }
    }

    method DecodeList(llr: array<real>, list: nat) returns (info: Word, ok: bool)
      requires Valid() && llr.Length == |frozen| && list > 1
      ensures |Candidates(llr[..], frozen, list)| > 0
      ensures (info, ok) == Answer(Candidates(llr[..], frozen, list), frozen, crc)
    {
      hide Scl, T, Extract, Sc, Candidates, LazySclArena.Valid, LazySclArena.Active;
      CandidatesNonEmpty(llr[..], frozen, list);
      ghost var us := Candidates(llr[..], frozen, list);
      var arena := RunArena(llr, list);
      if crc.Some? {
        var i := 0;
        while i < arena.len
          invariant arena.Valid() && arena.len == |us| && arena.n == |frozen| && arena.depth > 0
          invariant forall j :: 0 <= j < |us| ==> us[j] == T(arena.Active()[j].beta[0])
          invariant 0 <= i <= |us| && FirstPass(us, frozen, crc.value, 0) == FirstPass(us, frozen, crc.value, i)
        {
          info := DecodedOf(arena, i);
          if crc.value(info) { return info, true; }
          i := i + 1;
        }
      }
      info := DecodedOf(arena, 0);
      ok := false;
    }

    /** The message of live path `i`: one transform of its root partial sum recovers the decided word. */
    method DecodedOf(arena: LazySclArena, i: nat) returns (info: Word)
      requires Pow2(|frozen|) && arena.Valid() && i < arena.len && arena.n == |frozen| && arena.depth > 0
      ensures |arena.Active()[i].beta[0]| == |frozen|
      ensures info == Extract(T(arena.Active()[i].beta[0]), frozen)
    {
      var x := arena.BetaAt(arena.Base() + i, 0);
      assert x == arena.Active()[i].beta[0];
      var u := new bool[|x|](j requires 0 <= j < |x| => x[j]);
      assert u[..] == x;
      TransformInPlace(u);
      info := Collect(u[..], frozen);
    }

    method RunArena(llr: array<real>, list: nat) returns (arena: LazySclArena)
      requires Valid() && llr.Length == |frozen| && list > 1
      ensures arena.Valid() && arena.n == |frozen| && arena.depth > 0
      ensures var us := Candidates(llr[..], frozen, list);
              arena.len == |us| && forall j :: 0 <= j < |us| ==>
                |arena.Active()[j].beta[0]| == |frozen| && us[j] == T(arena.Active()[j].beta[0])
    {
      var depth := 1 + Levels(|frozen|);
      arena := new LazySclArena(llr[..], depth, list);
      ghost var rs := arena.Active();
      assert Entries(rs, |frozen|, 0, depth) == Root(llr[..]);
      assert frozen[0..|frozen|] == frozen;
      arena.DecodeRecursive(frozen, 0, |frozen|, 0, list, frozen);
    }

    /** List decoding at the configured size. */
    method DecodeScl(llr: array<real>, out: array<bool>) returns (r: Outcome<()>)
      requires Valid() && llr != scratch && out != beta && out != decoded
      modifies scratch, beta, decoded, out
      ensures r.Ok? <==> llr.Length == |frozen| && out.Length == Free(frozen)
      ensures !r.Ok? ==> Refused(llr, out, r) && out[..] == old(out[..])
      ensures r.Ok? ==>
                (|Candidates(llr[..], frozen, listSize)| > 0
                && out[..] == Answer(Candidates(llr[..], frozen, listSize), frozen, crc).0)
      ensures r.Ok? && !frozen[|frozen| - 1] ==> Cheapest(llr[..], frozen, listSize, crc, out[..])
    {
      hide Cheapest, SomePasses;
      if llr.Length != |frozen| { return BufferTooSmall(|frozen|, llr.Length); }
      if out.Length != Free(frozen) { return BufferTooSmall(Free(frozen), out.Length); }
      var ok := DecodeSclAt(llr, out, listSize);
      return Ok(());
    }

    /** Escalate the list size 1, 2, 4, ... up to the configured one until the CRC passes. */
    method DecodeSclAdaptive(llr: array<real>, out: array<bool>) returns (r: Outcome<Report>)
      requires Valid() && llr != scratch && out != beta && out != decoded
      modifies scratch, beta, decoded, out
      ensures crc.None? ==> r == InvalidParam
      ensures r.Ok? <==> crc.Some? && llr.Length == |frozen| && out.Length == Free(frozen)
      ensures crc.Some? && !r.Ok? ==> r.BufferTooSmall? && Refused(llr, out, BufferTooSmall(r.required, r.provided))
      ensures !r.Ok? ==> out[..] == old(out[..])
      ensures r.Ok? ==> Climbed(llr[..], frozen, crc, listSize, out[..], r.value)
      ensures r.Ok? && !frozen[|frozen| - 1] ==> Cheapest(llr[..], frozen, r.value.listSizeUsed, crc, out[..])
    {
      hide Candidates, Answer, Free, Cheapest, SomePasses;
      if crc.None? { return InvalidParam; }
      // the first rung is plain SC, whose length checks these are
      if llr.Length != |frozen| { return BufferTooSmall(|frozen|, llr.Length); }
      if out.Length != Free(frozen) { return BufferTooSmall(Free(frozen), out.Length); }
      ghost var v := llr[..];
      var attempts, list := 0, 1;
      while true
        invariant llr[..] == v && list == Rung(attempts, listSize) && 1 <= list <= listSize
        invariant forall i :: 0 <= i < attempts ==>
                    Fails(v, frozen, crc, Rung(i, listSize)) && Rung(i, listSize) < listSize
        decreases listSize - list
      {
        var ok := DecodeSclAt(llr, out, list);
        attempts := attempts + 1;
        if ok || list >= listSize {
          return Ok(Report(list, ok, attempts));
        }
        list := if list * 2 <= listSize then list * 2 else listSize;
      }
    }
  }

  /** The list sizes of the ladder. */
  function Rung(i: nat, top: nat): (list: nat)
    requires top > 0
    ensures 1 <= list <= top
  {
    if i == 0 then 1 else if Rung(i - 1, top) * 2 <= top then Rung(i - 1, top) * 2 else top
  }

  ghost predicate Fails(llr: Llrs, frozen: Word, crc: Option<Word -> bool>, list: nat) {
    Pow2(|frozen|) && |llr| == |frozen| && |Candidates(llr, frozen, list)| > 0
    && !SomePasses(Candidates(llr, frozen, list), frozen, crc)
  }

  /** The answer is the one of the first rung that passes, or of the configured list size if none does. */
  ghost predicate Climbed(llr: Llrs, frozen: Word, crc: Option<Word -> bool>, top: nat, info: Word, rep: Report) {
    && Pow2(|frozen|) && |llr| == |frozen| && top > 0 && rep.attempts > 0
    && rep.listSizeUsed == Rung(rep.attempts - 1, top)
    && |Candidates(llr, frozen, rep.listSizeUsed)| > 0
    && (info, rep.crcOk) == Answer(Candidates(llr, frozen, rep.listSizeUsed), frozen, crc)
    && (forall i :: 0 <= i < rep.attempts - 1 ==> Fails(llr, frozen, crc, Rung(i, top)) && Rung(i, top) < top)
    && (rep.crcOk <==> SomePasses(Candidates(llr, frozen, rep.listSizeUsed), frozen, crc))
    && (!rep.crcOk ==> rep.listSizeUsed == top)
  }

  /** List units spent on the first `a` rungs. */
  function Work(a: nat, top: nat): (w: nat)
    requires top > 0
  {
    if a == 0 then 0 else Work(a - 1, top) + Rung(a - 1, top)
  }

  /** Below the top the ladder doubles, and has cost one unit less than the next power of two. */
  lemma {:induction false} LowerRungs(a: nat, top: nat)
    requires top > 0 && Rung(a, top) < top
    ensures Pow2(Rung(a, top)) && Work(a + 1, top) == 2 * Rung(a, top) - 1
  {
    if a > 0 {
      LowerRungs(a - 1, top);
    }
  }

  lemma {:induction false} PowersAreApart(a: nat, b: nat)
    requires Pow2(a) && Pow2(b) && a < b
    ensures 2 * a <= b
  {
    if a > 1 { PowersAreApart(a / 2, b / 2); }
  }

  /** Climbing to the top costs less than three full-size decodes; it costs less than two, as promised,
      exactly when the configured list size is a power of two. */
  lemma LadderCost(a: nat, top: nat)
    requires a > 0 && top > 0 && Rung(a - 1, top) == top
    requires forall i :: 0 <= i < a - 1 ==> Rung(i, top) < top
    ensures Work(a, top) < 3 * top
    ensures Work(a, top) < 2 * top <==> Pow2(top)
  {
    if a == 1 {
      assert Work(1, top) == 1;
    } else {
      var r := Rung(a - 2, top);
      LowerRungs(a - 2, top);
      if Pow2(top) { PowersAreApart(r, top); }
      if top == 2 * r { assert Pow2(top); }
    }
  }
}
