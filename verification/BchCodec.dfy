/** The BCH(255) code object: construction, systematic encoding, shortening, and the round trip through
    any error pattern of weight at most t. */
module BchCodec {
  import opened Bits
  import opened Gf256
  import opened GfOrbit
  import opened GfTables
  import opened GfPoly
  import opened BerlekampMassey
  import opened BchWord
  import opened BchDecoder
  import opened BchGenerator
  import opened Lfsr

  // ---- the division register computes the remainder of x^nk i(x) by g(x) ---------------------------------

  /** The polynomial below its leading term, highest coefficient first. */
  function Lower(g: Word, nk: nat): (p: Word)
    requires nk <= |g|
    ensures |p| == nk
  {
    seq(nk, i requires 0 <= i < nk => g[nk - 1 - i])
  }

  /** Reading a low-first polynomial from the top gives the same value. */
  lemma {:induction false} LowerValue(q: E, g: Word, n: nat, x: E)
    requires n <= |g|
    ensures PolyAt(q, Lower(g, n), x) == ValueAt(q, g[..n], x)
    decreases n
  {
    hide Mul, Add, ValueAt, Pow;
    if n == 0 {
      NoneAtAll(q, g, x);
    } else {
      LowerValue(q, g, n - 1, x);
      assert Lower(g, n)[1..] == Lower(g, n - 1);
      ValuePrefix(q, g[..n], n - 1, x);
      assert g[..n][..n - 1] == g[..n - 1] && g[..n][..n] == g[..n];
      AddBasics(If(g[n - 1], Pow(q, x, n - 1)), PolyAt(q, Lower(g, n - 1), x));
    }
  }

  lemma NoneAtAll(q: E, g: Word, x: E)
    ensures ValueAt(q, g[..0], x) == Zero
  {
  }

  /** At a root of g, the part below the leading term is worth x^nk. */
  lemma LowerAtRoot(q: E, g: Word, nk: nat, x: E)
    requires HasDegree(g, nk) && ValueAt(q, g, x) == Zero
    ensures PolyAt(q, Lower(g, nk), x) == Pow(q, x, nk)
  {
    hide Mul, Add, Pow, Eval;
    LowerValue(q, g, nk, x);
    ValuePrefix(q, g, nk, x);
    var c := Lift2(g);
    CutValue(q, g, nk + 1, x);
    AddBasics(ValueAt(q, g[..nk], x), Pow(q, x, nk));
  }

  lemma {:induction false} CutValue(q: E, g: Word, k: nat, x: E)
    requires k <= |g| && forall i :: k <= i < |g| ==> !g[i]
    ensures ValueAt(q, g[..k], x) == ValueAt(q, g, x)
    decreases |g|
  {
    hide Mul, Add, Pow, ValueAt;
    if k == |g| {
      assert g[..k] == g;
    } else {
      var h := g[..|g| - 1];
      CutValue(q, h, k, x);
      assert h[..k] == g[..k];
      ValuePrefix(q, g, |g| - 1, x);
      assert g[..|g|] == g;
      AddBasics(ValueAt(q, h, x), Zero);
    }
  }

  /** A step multiplies the register's value by x and adds the input times x^L, at any root. */
  lemma StepValue(q: E, p: Word, reg: Word, bit: bool, x: E)
    requires |reg| == |p| > 0 && PolyAt(q, p, x) == Pow(q, x, |p|)
    ensures PolyAt(q, Step(p, reg, bit), x) == Add(Mul(q, x, PolyAt(q, reg, x)), If(bit, Pow(q, x, |p|)))
  {
    hide Mul, Add, If;
    var tail := PolyAt(q, reg[1..], x);
    var lead := Pow(q, x, |p|);
    Horner(q, reg[1..], false, x);
    assert If(false, One) == Zero by { Off(One); }
    var shifted := reg[1..] + [false];
    AddBasics(Mul(q, x, tail), Zero);
    assert PolyAt(q, shifted, x) == Mul(q, x, tail);
    IfTimes(q, x, reg[0], Pow(q, x, |p| - 1));
    MulDistrib(q, If(reg[0], Pow(q, x, |p| - 1)), tail, x);
    assert Mul(q, x, PolyAt(q, reg, x)) == Add(If(reg[0], lead), Mul(q, x, tail));
    FeedbackValue(q, p, shifted, reg[0] != bit, x);
    IfAdds(reg[0], bit, lead);
    AddBasics(If(reg[0], lead), Mul(q, x, tail));
    AddAssoc(Mul(q, x, tail), If(reg[0], lead), If(bit, lead));
  }

  lemma Off(a: E)
    ensures If(false, a) == Zero && If(true, a) == a
  {
  }

  lemma FeedbackValue(q: E, p: Word, shifted: Word, fb: bool, x: E)
    requires |shifted| == |p| > 0 && PolyAt(q, p, x) == Pow(q, x, |p|)
    ensures PolyAt(q, if fb then Xor(shifted, p) else shifted, x)
         == Add(PolyAt(q, shifted, x), If(fb, Pow(q, x, |p|)))
  {
    hide Mul, Add, Pow, Xor;
    PolyAtXor(q, shifted, p, x);
    AddBasics(PolyAt(q, shifted, x), Zero);
  }

  lemma {:induction false} RunValue(q: E, p: Word, bits: Word, x: E)
    requires |p| > 0 && PolyAt(q, p, x) == Pow(q, x, |p|)
    ensures PolyAt(q, Run(p, Zeros(|p|), bits), x) == Mul(q, Pow(q, x, |p|), PolyAt(q, bits, x))
    decreases |bits|
  {
    hide Mul, Add, Pow, Step, Run, PolyAt;
    var z, lead := Zeros(|p|), Pow(q, x, |p|);
    if |bits| == 0 {
      RunNothing(p, z);
      assert bits == [];
      EmptyValues(q, |p|, x);
      MulOne(q, lead);
    } else {
      var a, b := bits[..|bits| - 1], bits[|bits| - 1];
      assert bits == a + [b];
      RunValue(q, p, a, x);
      RunAppend(p, z, a, [b]);
      RunOne(p, Run(p, z, a), b);
      StepValue(q, p, Run(p, z, a), b, x);
      Horner(q, a, b, x);
      Triple(q, x, lead, PolyAt(q, a, x));
      IfTimes(q, lead, b, One);
      MulOne(q, lead);
      MulDistrib(q, Mul(q, x, PolyAt(q, a, x)), If(b, One), lead);
    }
  }

  lemma EmptyValues(q: E, n: nat, x: E)
    ensures PolyAt(q, [], x) == Zero && PolyAt(q, Zeros(n), x) == Zero
  {
    LeadingZeros(q, n, [], x);
    assert Zeros(n) + [] == Zeros(n);
  }

  lemma {:induction false} ConcatValue(q: E, a: Word, b: Word, x: E)
    ensures PolyAt(q, a + b, x) == Add(Mul(q, Pow(q, x, |b|), PolyAt(q, a, x)), PolyAt(q, b, x))
    decreases |b|
  {
    hide Mul, Add, PolyAt;
    if |b| == 0 {
      assert a + b == a && b == [];
      EmptyValues(q, 0, x);
      MulOne(q, PolyAt(q, a, x));
      AddBasics(PolyAt(q, a, x), Zero);
    } else {
      var c, d := b[..|b| - 1], b[|b| - 1];
      assert a + b == (a + c) + [d] && b == c + [d];
      ConcatValue(q, a, c, x);
      Horner(q, a + c, d, x);
      Horner(q, c, d, x);
      var u, v := Mul(q, Pow(q, x, |c|), PolyAt(q, a, x)), PolyAt(q, c, x);
      MulDistrib(q, u, v, x);
      MulAssoc(q, x, Pow(q, x, |c|), PolyAt(q, a, x));
      AddAssoc(Mul(q, x, u), Mul(q, x, v), If(d, One));
    }
  }

  /** The information bits followed by their remainder vanish at every root of g. */
  lemma SystematicVanishes(q: E, g: Word, nk: nat, info: Word, x: E)
    requires 0 < nk && HasDegree(g, nk) && ValueAt(q, g, x) == Zero
    ensures PolyAt(q, info + Run(Lower(g, nk), Zeros(nk), info), x) == Zero
  {
    hide Mul, Add, Pow, PolyAt, Run, ValueAt;
    var p := Lower(g, nk);
    LowerAtRoot(q, g, nk, x);
    RunValue(q, p, info, x);
    var rem := Run(p, Zeros(nk), info);
    ConcatValue(q, info, rem, x);
    AddBasics(PolyAt(q, rem, x), PolyAt(q, rem, x));
  }

  // ---- the code object -------------------------------------------------------------------------------------

  /** Everything `BchCode::new` precomputes; nothing changes afterwards. */
  datatype Code = Code(k: nat, nk: nat, g: Word, dec: DecoderTables, byteTable: seq<Word>)

  ghost predicate CodeOk(c: Code) {
    && Valid(c.dec) && GeneratorOk(FIELD, c.dec.t, c.g, c.nk) && c.k + c.nk == N
    && TableOk(Lower(c.g, c.nk), c.byteTable, 8)
  }

  datatype NewResult = Built(code: Code) | BadT

  method New(t: nat) returns (r: NewResult)
    ensures r.Built? <==> 1 <= t <= 10
    ensures r.Built? ==> CodeOk(r.code) && r.code.dec.t == t && LeastDegree(FIELD, t, r.code.nk)
  {
    hide LeastDegree, TablesOk, SynPowOk, MulBetaOk, GeneratorOk, TableOk, Primitive, Exp, POLY_1D, POLY_87, Poly;
    if t == 0 || t > MAX_T {
      return BadT;
    }
    BothPrimitive(true);
    var gf := BuildTables(FIELD);
    var g, degG := BuildGenerator(FIELD, gf, t);
    DegreeRange(FIELD, t, g, degG);
    var synPow := BuildSynPow(gf);
    var mulBeta := BuildMulBeta(gf);
    var byteTable := BuildTable(Lower(g, degG), 8);
    return Built(Code(N - degG, degG, g, DecoderTables(t, gf, synPow, mulBeta), byteTable));
  }

  lemma DegreeRange(q: E, t: nat, g: Word, nk: nat)
    requires GeneratorOk(q, t, g, nk)
    ensures 8 <= nk <= 80 && |g| == WORD && HasDegree(g, nk)
  {
  }

  /** x^nk i(x) mod g(x), highest coefficient first. */
  ghost function Remainder(c: Code, info: Word): (r: Word)
    requires CodeOk(c)
    ensures |r| == c.nk
  {
    Run(Lower(c.g, c.nk), Zeros(c.nk), info)
  }

  /** `lfsr_remainder`: the leading |info| mod 8 bits one at a time, then whole bytes by table. */
  method LfsrRemainder(c: Code, info: Word) returns (reg: Word)
    requires CodeOk(c)
    ensures reg == Remainder(c, info)
  {
    hide Valid, GeneratorOk, TableOk, Run, Step, Lower;
    DegreeRange(FIELD, c.dec.t, c.g, c.nk);
    var p := Lower(c.g, c.nk);
    reg := Zeros(c.nk);
    RunNothing(p, reg);
    var lead := |info| % 8;
    var i := 0;
    while i < lead
      invariant 0 <= i <= lead <= |info| && |reg| == |p| && reg == Run(p, Zeros(|p|), info[..i])
    {
      RunNext(p, Zeros(|p|), info, i);
      reg := Step(p, reg, info[i]);
      i := i + 1;
    }
    while i + 8 <= |info|
      invariant lead <= i <= |info| && (|info| - i) % 8 == 0
      invariant |reg| == |p| && reg == Run(p, Zeros(|p|), info[..i])
    {
      RunAppend(p, Zeros(|p|), info[..i], info[i..i + 8]);
      assert info[..i] + info[i..i + 8] == info[..i + 8];
      reg := TableStep(p, c.byteTable, 8, reg, info, i);
      i := i + 8;
    }
    assert info[..i] == info;
  }

  /** The systematic word is a codeword once leading zeros bring it to full length. */
  lemma SystematicIsCodeword(c: Code, pad: nat, info: Word)
    requires CodeOk(c) && pad + |info| == c.k
    ensures IsCodeword(FIELD, c.dec.t, Zeros(pad) + (info + Remainder(c, info)))
  {
    hide Valid, ValueAt, PolyAt, Run, Exp, Lower, TableOk, HasDegree;
    var w := info + Remainder(c, info);
    var v := Zeros(pad) + w;
    forall j | 1 <= j <= 2 * c.dec.t ensures PolyAt(FIELD, v, Exp(FIELD, j)) == Zero {
      SystematicVanishes(FIELD, c.g, c.nk, info, Exp(FIELD, j));
      LeadingZeros(FIELD, pad, w, Exp(FIELD, j));
    }
  }

  /** The bytes of a caller's message, each of which should be 0 or 1. */
  predicate Binary(info: seq<nat>) {
    forall i :: 0 <= i < |info| ==> info[i] <= 1
  }

  function BitsOf(info: seq<nat>): (w: Word)
    ensures |w| == |info|
  {
    seq(|info|, i requires 0 <= i < |info| => info[i] != 0)
  }

  /** Copy the information bits, then the remainder. */
  method WriteWord(info: Word, remainder: Word, out: array<bool>)
    requires out.Length == |info| + |remainder|
    modifies out
    ensures out[..] == info + remainder
  {
    var i := 0;
    while i < |info|
      invariant 0 <= i <= |info| && out[..i] == info[..i]
    {
      out[i] := info[i];
      i := i + 1;
    }
    var offset := 0;
    while offset < |remainder|
      invariant 0 <= offset <= |remainder| && out[..|info| + offset] == info + remainder[..offset]
    {
      out[|info| + offset] := remainder[offset];
      offset := offset + 1;
    }
    assert out[..] == out[..out.Length];
  }

  method Encode(c: Code, info: seq<nat>, out: array<bool>) returns (r: Outcome)
    requires CodeOk(c)
    modifies out
    ensures |info| != c.k ==> r == InvalidParam
    ensures |info| == c.k && out.Length != N ==> r == BufferTooSmall(N, out.Length)
    ensures |info| == c.k && out.Length == N && !Binary(info) ==> r == InvalidParam
    ensures !r.Ok? ==> out[..] == old(out[..])
    ensures r.Ok? <==> |info| == c.k && out.Length == N && forall i :: 0 <= i < |info| ==> info[i] == 0 || info[i] == 1
    ensures r.Ok? ==> out.Length >= |info| && forall i :: 0 <= i < |info| ==> info[i] == if out[i] then 1 else 0
    ensures |info| == c.k && out.Length == N && Binary(info) ==>
              (r == Ok(0) && out[..] == BitsOf(info) + Remainder(c, BitsOf(info))
                  && IsCodeword(FIELD, c.dec.t, out[..]))
  {
    hide Valid, GeneratorOk, TableOk, Run, Lower, IsCodeword;
    if |info| != c.k {
      return InvalidParam;
    }
    if out.Length != N {
      return BufferTooSmall(N, out.Length);
    }
    if !Binary(info) {
      return InvalidParam;
    }
    var bits := BitsOf(info);
    var remainder := LfsrRemainder(c, bits);
    WriteWord(bits, remainder, out);
    SystematicIsCodeword(c, 0, bits);
    assert Zeros(0) + (bits + remainder) == bits + remainder;
    return Ok(0);
  }

  /** The information part is shortened; the missing leading bits count as zeros. */
  method ShortenedEncode(c: Code, kShort: nat, info: seq<nat>, out: array<bool>) returns (r: Outcome)
    requires CodeOk(c)
    modifies out
    ensures !r.Ok? ==> out[..] == old(out[..])
    ensures r.Ok? <==> kShort <= c.k && |info| == kShort && out.Length == kShort + c.nk
                       && forall i :: 0 <= i < |info| ==> info[i] == 0 || info[i] == 1
    ensures r.Ok? ==> out.Length >= |info| && forall i :: 0 <= i < |info| ==> info[i] == if out[i] then 1 else 0
    ensures kShort > c.k || |info| != kShort ==> r == InvalidParam
    ensures kShort <= c.k && |info| == kShort && out.Length != kShort + c.nk ==>
              r == BufferTooSmall(kShort + c.nk, out.Length)
    ensures kShort <= c.k && |info| == kShort && out.Length == kShort + c.nk && !Binary(info) ==> r == InvalidParam
    ensures kShort <= c.k && |info| == kShort && out.Length == kShort + c.nk && Binary(info) ==>
              (r == Ok(0) && out[..] == BitsOf(info) + Remainder(c, BitsOf(info))
               && IsCodeword(FIELD, c.dec.t, Zeros(c.k - kShort) + out[..]))
  {
    hide Valid, GeneratorOk, TableOk, Run, Lower, IsCodeword;
    if kShort > c.k {
      return InvalidParam;
    }
    if |info| != kShort {
      return InvalidParam;
    }
    if out.Length != kShort + c.nk {
      return BufferTooSmall(kShort + c.nk, out.Length);
    }
    if !Binary(info) {
      return InvalidParam;
    }
    var bits := BitsOf(info);
    var remainder := LfsrRemainder(c, bits);
    WriteWord(bits, remainder, out);
    SystematicIsCodeword(c, c.k - kShort, bits);
    return Ok(0);
  }

  // ---- the theorems ------------------------------------------------------------------------------------------

  /** Bounded-distance decoding: every error word of weight at most t is removed exactly. */
  lemma CorrectsUpToT(t: nat, v: Word, e: Word, after: Word, r: Outcome)
    requires IsCodeword(FIELD, t, v) && |e| == N && Weight(e) <= t
    requires Decodes(t, Xor(v, e), after, r)
    ensures r == Ok(Weight(e)) && after == v
  {
    hide PolyAt, Weight;
    XorCancel(v, e);
    XorCancel(e, v);
    assert Near(t, Xor(v, e), v, Weight(e));
  }

  /** The decoder accepts exactly the words within distance t of some codeword. */
  lemma AcceptsIffNear(t: nat, v: Word, after: Word, r: Outcome)
    requires Decodes(t, v, after, r)
    ensures r.Ok? <==> exists c, w: nat :: Near(t, v, c, w) && w <= t
  {
    hide Near;
  }

  // ---- shortening --------------------------------------------------------------------------------------------

  /** The shortened word c, at distance w from v. */
  ghost predicate NearShort(t: nat, pad: nat, v: Word, c: Word, w: nat) {
    |v| == |c| == N - pad && pad <= N && IsCodeword(FIELD, t, Zeros(pad) + c) && Weight(Xor(v, c)) == w
  }

  lemma {:induction false} PadWeight(pad: nat, w: Word)
    ensures Weight(Zeros(pad) + w) == Weight(w)
  {
    WeightSplit(Zeros(pad), w);
    NoWeight(Zeros(pad));
  }

  lemma PadNear(t: nat, pad: nat, v: Word, c: Word, w: nat)
    requires pad <= N && |v| == |c| == N - pad
    ensures NearShort(t, pad, v, c, w) <==> Near(t, Zeros(pad) + v, Zeros(pad) + c, w)
  {
    hide PolyAt, Weight, IsCodeword;
    var z := Zeros(pad);
    assert Xor(z + v, z + c) == z + Xor(v, c);
    PadWeight(pad, Xor(v, c));
  }

  /** The shortened decoder's contract: a word within distance t of a shortened codeword is restored
      exactly; a success always leaves such a codeword; a failure, including a flip inside the implied
      zeros, changes nothing. */
  ghost predicate DecodesShort(t: nat, pad: nat, v: Word, v': Word, r: Outcome) {
    && (forall c, w: nat :: NearShort(t, pad, v, c, w) && w <= t ==> r == Ok(w) && v' == c)
    && (r.Ok? ==> r.value <= t && NearShort(t, pad, v, v', r.value))
    && (!r.Ok? ==> r.DecoderNotConverged? && v' == v)
  }

  method ShortenedDecode(c: Code, kShort: nat, word: array<bool>) returns (r: Outcome)
    requires CodeOk(c)
    modifies word
    ensures kShort > c.k ==> r == InvalidParam && word[..] == old(word[..])
    ensures kShort <= c.k && word.Length != kShort + c.nk ==>
              r == BufferTooSmall(kShort + c.nk, word.Length) && word[..] == old(word[..])
    ensures kShort <= c.k && word.Length == kShort + c.nk ==>
              DecodesShort(c.dec.t, c.k - kShort, old(word[..]), word[..], r)
  {
    hide Valid, GeneratorOk, TableOk, Near, NearShort, DecodesShort, Decodes;
    if kShort > c.k {
      return InvalidParam;
    }
    if word.Length != kShort + c.nk {
      return BufferTooSmall(kShort + c.nk, word.Length);
    }
    var pad := c.k - kShort;
    ghost var v0: Word := word[..];
    var full := new bool[N](_ => false);
    var i := 0;
    while i < word.Length
      invariant 0 <= i <= word.Length && word[..] == v0
      invariant forall j :: 0 <= j < pad ==> !full[j]
      invariant forall j :: 0 <= j < i ==> full[pad + j] == v0[j]
    {
      full[pad + i] := word[i];
      i := i + 1;
    }
    ghost var f0: Word := full[..];
    assert f0 == Zeros(pad) + v0;
    var corrected := DecodeFull(c.dec, full);
    ghost var f1: Word := full[..];
    ShortWords(c.dec.t, pad, v0, f1, corrected);
    if !corrected.Ok? {
      return corrected;
    }
    var prefix := true;
    i := 0;
    while i < pad
      invariant 0 <= i <= pad && word[..] == v0 && full[..] == f1
      invariant prefix <==> forall j :: 0 <= j < i ==> !f1[j]
    {
      prefix := prefix && !full[i];
      i := i + 1;
    }
    if !prefix {
      return DecoderNotConverged;
    }
    i := 0;
    while i < word.Length
      invariant 0 <= i <= word.Length && full[..] == f1
      invariant forall j :: 0 <= j < i ==> word[j] == f1[pad + j]
    {
      word[i] := full[pad + i];
      i := i + 1;
    }
    assert word[..] == f1[pad..];
    return corrected;
  }

  /** What the full-length decoder's contract says about a padded word. */
  lemma ShortWords(t: nat, pad: nat, v: Word, f: Word, r: Outcome)
    requires pad <= N && |v| == N - pad && |f| == N && Decodes(t, Zeros(pad) + v, f, r)
    ensures r.Ok? && (forall j :: 0 <= j < pad ==> !f[j]) ==> DecodesShort(t, pad, v, f[pad..], r)
    ensures !r.Ok? || (exists j :: 0 <= j < pad && f[j]) ==> DecodesShort(t, pad, v, v, DecoderNotConverged)
    ensures r.Ok? || r.DecoderNotConverged?
  {
    hide Near, NearShort;
    forall c, w: nat | NearShort(t, pad, v, c, w) && w <= t
      ensures r == Ok(w) && f[pad..] == c && forall j :: 0 <= j < pad ==> !f[j]
    {
      ShortLength(t, pad, v, c, w);
      PadNear(t, pad, v, c, w);
      assert f == Zeros(pad) + c;
    }
    if r.Ok? && forall j :: 0 <= j < pad ==> !f[j] {
      assert f == Zeros(pad) + f[pad..];
      PadNear(t, pad, v, f[pad..], r.value);
    }
  }

  lemma ShortLength(t: nat, pad: nat, v: Word, c: Word, w: nat)
    requires NearShort(t, pad, v, c, w)
    ensures |c| == |v| == N - pad
  {
  }
}
