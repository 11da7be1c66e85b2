/** The 3GPP CRCs: the table-driven register equals the bit-serial one at every length, checking is
    divisibility of the whole word, and what errors are certain to be seen. */
module Crc {
  import opened Bits
  import opened Lfsr

  datatype Kind = Crc24A | Crc24B | Crc24C | Crc16 | Crc11 | Crc6

  function Constant(kind: Kind): nat {
    match kind
    case Crc24A => 0x864CFB
    case Crc24B => 0x800063
    case Crc24C => 0xB2B117
    case Crc16 => 0x11021
    case Crc11 => 0xE21
    case Crc6 => 0x61
  }

  function Length(kind: Kind): (l: nat)
    ensures 6 <= l <= 24
  {
    match kind
    case Crc24A => 24
    case Crc24B => 24
    case Crc24C => 24
    case Crc16 => 16
    case Crc11 => 11
    case Crc6 => 6
  }

  /** The polynomial below its leading term: `kind.poly() & mask`. */
  function Low(kind: Kind): (p: Word)
    ensures |p| == Length(kind)
  {
    BitsOf(Constant(kind), Length(kind))
  }

  /** The remainder of a bit string, one bit at a time. */
  function Remainder(kind: Kind, bits: Word): (r: Word)
    ensures |r| == Length(kind)
  {
    Run(Low(kind), Zeros(Length(kind)), bits)
  }

  /** Every polynomial has constant term 1. */
  lemma ConstantTerm(kind: Kind)
    ensures Low(kind)[Length(kind) - 1]
  {
    hide BitsOf;
    LastBit(Constant(kind), Length(kind));
  }

  lemma LastBit(n: nat, w: nat)
    requires w > 0
    ensures BitsOf(n, w)[w - 1] == (n % 2 == 1)
  {
  }

  // ---- the polynomials, by exponent ---------------------------------------------------------------------------------

  /** The exponents in each polynomial of section 5.1 of TS 38.212. */
  function Exponents(kind: Kind): set<nat> {
    match kind
    case Crc24A => {24, 23, 18, 17, 14, 11, 10, 7, 6, 5, 4, 3, 1, 0}
    case Crc24B => {24, 23, 6, 5, 1, 0}
    case Crc24C => {24, 23, 21, 20, 17, 15, 13, 12, 8, 4, 2, 1, 0}
    case Crc16 => {16, 12, 5, 0}
    case Crc11 => {11, 10, 9, 5, 0}
    case Crc6 => {6, 5, 0}
  }

  /** Bit k of a hexadecimal digit. */
  function DigitBit(d: nat, k: nat): bool {
    if k == 0 then d % 2 == 1 else if k == 1 then d / 2 % 2 == 1 else if k == 2 then d / 4 % 2 == 1 else d / 8 % 2 == 1
  }

  lemma LowDigit(m: nat, d: nat, e: nat)
    requires d < 16
    ensures BitAt(16 * m + d, e) == if e < 4 then DigitBit(d, e) else BitAt(m, e - 4)
  {
    var n := 16 * m + d;
    assert n / 2 == 8 * m + d / 2 && n / 2 / 2 == 4 * m + d / 4 && n / 2 / 2 / 2 == 2 * m + d / 8;
    assert n / 2 / 2 / 2 / 2 == m;
    if e > 0 { assert BitAt(n, e) == BitAt(n / 2, e - 1); }
    if e > 1 { assert BitAt(n / 2, e - 1) == BitAt(n / 2 / 2, e - 2); }
    if e > 2 { assert BitAt(n / 2 / 2, e - 2) == BitAt(n / 2 / 2 / 2, e - 3); }
    if e > 3 { assert BitAt(n / 2 / 2 / 2, e - 3) == BitAt(n / 2 / 2 / 2 / 2, e - 4); }
  }

  /** The number with hexadecimal digits d, and a bit of it. */
  function FromHex(d: seq<nat>): nat {
    if |d| == 0 then 0 else 16 * FromHex(d[..|d| - 1]) + d[|d| - 1]
  }

  lemma {:induction false} HexBit(d: seq<nat>, e: nat)
    requires e < 4 * |d| && forall i :: 0 <= i < |d| ==> d[i] < 16
    ensures BitAt(FromHex(d), e) == DigitBit(d[|d| - 1 - e / 4], e % 4)
    decreases |d|
  {
    hide BitAt, DigitBit;
    LowDigit(FromHex(d[..|d| - 1]), d[|d| - 1], e);
    if e >= 4 { HexBit(d[..|d| - 1], e - 4); }
  }

  function HexDigits(kind: Kind): (d: seq<nat>)
    ensures 4 * |d| >= Length(kind) && forall i :: 0 <= i < |d| ==> d[i] < 16
  {
    match kind
    case Crc24A => [0x8, 0x6, 0x4, 0xC, 0xF, 0xB]
    case Crc24B => [0x8, 0x0, 0x0, 0x0, 0x6, 0x3]
    case Crc24C => [0xB, 0x2, 0xB, 0x1, 0x1, 0x7]
    case Crc16 => [0x1, 0x1, 0x0, 0x2, 0x1]
    case Crc11 => [0xE, 0x2, 0x1]
    case Crc6 => [0x6, 0x1]
  }

  lemma ConstantInHex(kind: Kind)
    ensures FromHex(HexDigits(kind)) == Constant(kind)
  {
    var d := HexDigits(kind);
    assert FromHex(d[..0]) == 0;
    assert forall k :: 0 < k <= |d| ==> d[..k][..k - 1] == d[..k - 1];
    assert FromHex(d[..1]) == d[0];
    assert FromHex(d[..2]) == 16 * FromHex(d[..1]) + d[1];
    if |d| > 2 { assert FromHex(d[..3]) == 16 * FromHex(d[..2]) + d[2]; }
    if |d| > 3 { assert FromHex(d[..4]) == 16 * FromHex(d[..3]) + d[3]; }
    if |d| > 4 { assert FromHex(d[..5]) == 16 * FromHex(d[..4]) + d[4]; }
    if |d| > 5 { assert FromHex(d[..6]) == 16 * FromHex(d[..5]) + d[5]; }
    assert d[..|d|] == d;
  }

  lemma ExponentDigits(kind: Kind, e: nat)
    requires e < Length(kind)
    ensures DigitBit(HexDigits(kind)[|HexDigits(kind)| - 1 - e / 4], e % 4) <==> e in Exponents(kind)
  {
  }

  lemma LeadingExponent(kind: Kind, e: nat)
    requires e >= Length(kind)
    ensures e in Exponents(kind) <==> e == Length(kind)
  {
  }

  /** A single one, a string of length 1, leaves x^L reduced: the polynomial consists of x^L and of the terms left,
      for each kind those that the standard lists. */
  lemma RemainderOfOne(kind: Kind, e: nat)
    ensures var r := Remainder(kind, [true]);
            e in Exponents(kind) <==> e == |r| || (e < |r| && r[|r| - 1 - e])
  {
    hide BitsOf, Run, DigitBit, FromHex, Constant, HexDigits, Exponents, BitAt, Length;
    var l := Length(kind);
    if e >= l {
      LeadingExponent(kind, e);
    } else {
      RunOne(Low(kind), Zeros(l), true);
      assert Remainder(kind, [true]) == Low(kind);
      BitsAt(Constant(kind), l, l - 1 - e);
      ConstantInHex(kind);
      HexBit(HexDigits(kind), e);
      ExponentDigits(kind, e);
    }
  }

  // ---- the object ------------------------------------------------------------------------------------

  /** Which chunk width the tables are built for. */
  function Width(kind: Kind): (w: nat)
    ensures 0 < w <= Length(kind)
  {
    if Length(kind) >= 8 then 8 else 4
  }

  class Crc {
    const kind: Kind
    const table: seq<Word>

    ghost predicate Valid() {
      TableOk(Low(kind), table, Width(kind))
    }

    constructor (k: Kind)
      ensures Valid() && kind == k
    {
      kind := k;
      var t := BuildTable(Low(k), Width(k));
      table := t;
    }

    /** Whole chunks through the table, then the tail bit by bit. */
    method Compute(bits: Word) returns (reg: Word)
      requires Valid()
      ensures reg == Remainder(kind, bits)
    {
      hide Run, Step, BitsOf, TableOk, Low, Length;
      var p, w := Low(kind), Width(kind);
      reg := Zeros(Length(kind));
      RunNothing(p, reg);
      var chunks := |bits| / w;
      var processed := chunks * w;
      assert processed <= |bits| by { Chunks(|bits|, w); }
      var c := 0;
      while c < chunks
        invariant 0 <= c <= chunks && c * w <= processed
        invariant |reg| == |p| && reg == Run(p, Zeros(|p|), bits[..c * w])
      {
        var base := c * w;
        NextChunk(c, chunks, w);
        RunAppend(p, Zeros(|p|), bits[..base], bits[base..base + w]);
        assert bits[..base] + bits[base..base + w] == bits[..base + w];
        reg := TableStep(p, table, w, reg, bits, base);
        c := c + 1;
      }
      var i := processed;
      while i < |bits|
        invariant processed <= i <= |bits|
        invariant |reg| == |p| && reg == Run(p, Zeros(|p|), bits[..i])
      {
        RunNext(p, Zeros(|p|), bits, i);
        reg := Step(p, reg, bits[i]);
        i := i + 1;
      }
      assert bits[..i] == bits;
    }

    /** Append the remainder, highest bit first. */
    method Attach(bits: Word) returns (word: Word)
      requires Valid()
      ensures word == bits + Remainder(kind, bits)
    {
      hide Run, BitsOf, Low;
      var remainder := Compute(bits);
      word := bits;
      var k := 0;
      while k < Length(kind)
        invariant 0 <= k <= Length(kind) && word == bits + remainder[..k]
      {
        word := word + [remainder[k]];
        k := k + 1;
      }
      assert remainder[..k] == remainder;
    }

    /** True exactly when the string is long enough and the register over all of it ends empty. */
    method Check(bits: Word) returns (ok: bool)
      requires Valid()
      ensures ok <==> |bits| >= Length(kind) && IsZero(Remainder(kind, bits))
    {
      hide Run, BitsOf, Low;
      var l := Length(kind);
      if |bits| < l {
        return false;
      }
      var payload, received := bits[..|bits| - l], bits[|bits| - l..];
      var computed := Compute(payload);
      assert bits == payload + received;
      CheckIsDivisibility(kind, payload, received);
      return computed == received;
    }
  }

  lemma Chunks(n: nat, w: nat)
    requires w > 0
    ensures (n / w) * w <= n
  {
  }

  lemma NextChunk(c: nat, chunks: nat, w: nat)
    requires c < chunks
    ensures c * w + w == (c + 1) * w <= chunks * w
  {
    assert (chunks - c - 1) * w >= 0;
  }

  // ---- what a check means ----------------------------------------------------------------------------

  /** Comparing the remainder with the received bits is testing the whole string for remainder zero. */
  lemma CheckIsDivisibility(kind: Kind, payload: Word, received: Word)
    requires |received| == Length(kind)
    ensures Remainder(kind, payload) == received <==> IsZero(Remainder(kind, payload + received))
  {
    hide Run, BitsOf, Low, Length;
    var p, l := Low(kind), Length(kind);
    var r := Remainder(kind, payload);
    RunAppend(p, Zeros(l), payload, received);
    ChunkStep(p, r, received);
    assert r[..l] == r && r[l..] + Zeros(l) == Zeros(l);
    var d := Xor(r, received);
    var s := Run(p, Zeros(l), d);
    XorCancel(s, Zeros(l));
    assert Remainder(kind, payload + received) == s;
    XorCancel(r, received);
    if IsZero(s) {
      ConstantTerm(kind);
      ZeroIs(s);
      ShortWordShows(p, d);
      ZeroIs(d);
      XorCancel(received, d);
      XorCancel(received, received);
      SameIfZero(r, received);
    }
    if r == received {
      ZeroRun(p, l);
    }
  }

  lemma ZeroIs(w: Word)
    requires IsZero(w)
    ensures w == Zeros(|w|)
  {
  }

  lemma SameIfZero(a: Word, b: Word)
    requires |a| == |b| && Xor(a, b) == Zeros(|a|)
    ensures a == b
  {
    forall i | 0 <= i < |a| ensures a[i] == b[i] {
      assert !Xor(a, b)[i];
    }
  }

  /** Whatever was attached passes the check. */
  lemma AttachedPasses(kind: Kind, payload: Word)
    ensures IsZero(Remainder(kind, payload + Remainder(kind, payload)))
  {
    hide Run, BitsOf, Low;
    CheckIsDivisibility(kind, payload, Remainder(kind, payload));
  }

  /** The remainder of a string with errors is that of the errors alone, if the string had none. */
  lemma ErrorsShow(kind: Kind, word: Word, e: Word)
    requires |word| == |e| && IsZero(Remainder(kind, word))
    ensures Remainder(kind, Xor(word, e)) == Remainder(kind, e)
  {
    hide Run, BitsOf, Low;
    var z := Zeros(Length(kind));
    XorCancel(z, z);
    RunLinear(Low(kind), z, z, word, e);
    ZeroIs(Remainder(kind, word));
    XorCancel(z, Remainder(kind, e));
  }

  /** Error bits confined to a window of L positions. */
  predicate Burst(e: Word, from: nat, l: nat) {
    from + l <= |e| && forall i :: 0 <= i < |e| && (i < from || from + l <= i) ==> !e[i]
  }

  /** Any non-zero burst within L consecutive bits is caught, at every length and position. */
  lemma BurstIsCaught(kind: Kind, word: Word, e: Word, from: nat, l: nat)
    requires |word| == |e| && IsZero(Remainder(kind, word)) && Burst(e, from, l) && l <= Length(kind) && !IsZero(e)
    ensures !IsZero(Remainder(kind, Xor(word, e)))
  {
    hide Run, BitsOf, Low, Remainder;
    ErrorsShow(kind, word, e);
    if IsZero(Remainder(kind, e)) {
      BurstRemainder(kind, e, from, l);
      forall i | 0 <= i < |e| ensures !e[i] {
        if from <= i < from + l { assert e[from..from + l][i - from] == e[i]; }
      }
    }
  }

  lemma BurstRemainder(kind: Kind, e: Word, from: nat, l: nat)
    requires Burst(e, from, l) && l <= Length(kind) && IsZero(Remainder(kind, e))
    ensures IsZero(e[from..from + l])
  {
    hide Run, BitsOf, Low;
    var p, z := Low(kind), Zeros(Length(kind));
    var b, n := e[from..from + l], |e| - from - l;
    assert e == Zeros(from) + (b + Zeros(n));
    RunAppend(p, z, Zeros(from), b + Zeros(n));
    ZeroRun(p, from);
    RunAppend(p, z, b, Zeros(n));
    ConstantTerm(kind);
    ZeroIs(Remainder(kind, e));
    ZeroInputInjective(p, Run(p, z, b), n);
    ShortWordShows(p, b);
  }

  // ---- odd weights -------------------------------------------------------------------------------------

  function Parity(w: Word): bool {
    if |w| == 0 then false else w[0] != Parity(w[1..])
  }

  lemma {:induction false} ParityXor(a: Word, b: Word)
    requires |a| == |b|
    ensures Parity(Xor(a, b)) == (Parity(a) != Parity(b))
  {
    if |a| > 0 {
      assert Xor(a, b)[1..] == Xor(a[1..], b[1..]);
      ParityXor(a[1..], b[1..]);
    }
  }

  lemma {:induction false} ParityAppend(a: Word, bit: bool)
    ensures Parity(a + [bit]) == (Parity(a) != bit)
  {
    if |a| == 0 {
      assert (a + [bit])[1..] == [];
    } else {
      assert (a + [bit])[1..] == a[1..] + [bit];
      ParityAppend(a[1..], bit);
    }
  }

  lemma {:induction false} RunParity(p: Word, reg: Word, bits: Word)
    requires |reg| == |p| > 0 && Parity(p)
    ensures Parity(Run(p, reg, bits)) == (Parity(reg) != Parity(bits))
    decreases |bits|
  {
    hide Step;
    if |bits| > 0 {
      StepParity(p, reg, bits[0]);
      RunParity(p, Step(p, reg, bits[0]), bits[1..]);
    }
  }

  lemma StepParity(p: Word, reg: Word, bit: bool)
    requires |reg| == |p| > 0 && Parity(p)
    ensures Parity(Step(p, reg, bit)) == (Parity(reg) != bit)
  {
    ParityAppend(reg[1..], false);
    ParityXor(reg[1..] + [false], p);
  }

  lemma {:induction false} ParityOfZero(w: Word)
    requires IsZero(w)
    ensures !Parity(w)
  {
    if |w| > 0 { ParityOfZero(w[1..]); }
  }

  /** The polynomials of an even number of terms catch every error of odd weight. */
  lemma OddErrorIsCaught(kind: Kind, word: Word, e: Word)
    requires |word| == |e| && IsZero(Remainder(kind, word)) && Parity(Low(kind)) && Parity(e)
    ensures !IsZero(Remainder(kind, Xor(word, e)))
  {
    hide Run, BitsOf, Low, Remainder, Parity;
    ErrorsShow(kind, word, e);
    RemainderParity(kind, e);
    if IsZero(Remainder(kind, e)) { ParityOfZero(Remainder(kind, e)); }
  }

  lemma RemainderParity(kind: Kind, e: Word)
    requires Parity(Low(kind))
    ensures Parity(Remainder(kind, e)) == Parity(e)
  {
    hide Run, BitsOf, Low;
    RunParity(Low(kind), Zeros(Length(kind)), e);
    ParityOfZero(Zeros(Length(kind)));
  }

  function OddBits(n: nat, w: nat): bool {
    if w == 0 then false else OddBits(n / 2, w - 1) != (n % 2 == 1)
  }

  lemma {:induction false} OddBitsIsParity(n: nat, w: nat)
    ensures Parity(BitsOf(n, w)) == OddBits(n, w)
  {
    if w > 0 {
      OddBitsIsParity(n / 2, w - 1);
      ParityAppend(BitsOf(n / 2, w - 1), n % 2 == 1);
    }
  }

  lemma {:induction false} NextDigit(m: nat, w: nat, d: nat, k: nat)
    requires d < Size(k)
    ensures OddBits(Size(k) * m + d, k + w) == (OddBits(m, w) != OddBits(d, k))
    decreases k
  {
    if k > 0 {
      var n := Size(k) * m + d;
      assert n == 2 * (Size(k - 1) * m + d / 2) + d % 2;
      assert n / 2 == Size(k - 1) * m + d / 2 && n % 2 == d % 2;
      NextDigit(m, w, d / 2, k - 1);
    }
  }

  lemma Digit(m: nat, w: nat, d: nat)
    requires d < 16
    ensures OddBits(16 * m + d, w + 4) == (OddBits(m, w) != OddDigit(d))
  {
    hide OddBits;
    SixteenDigits(d);
    NextDigit(m, w, d, 4);
  }

  predicate OddDigit(d: nat) {
    d in {1, 2, 4, 7, 8, 11, 13, 14}
  }

  lemma SixteenDigits(d: nat)
    requires d < 16
    ensures Size(4) == 16 && OddBits(d, 4) == OddDigit(d)
  {
    Top(d / 2, 3);
    assert d / 2 / 4 == d / 8 && d / 2 / 2 == d / 4;
  }

  /** Which of the six those are. */
  lemma EvenPolynomials(kind: Kind)
    ensures Parity(Low(kind)) <==> kind in {Crc24A, Crc24B, Crc16}
  {
    hide BitsOf, Parity, OddBits;
    OddBitsIsParity(Constant(kind), Length(kind));
    Digits(kind);
  }

  lemma Digits(kind: Kind)
    ensures OddBits(Constant(kind), Length(kind)) <==> kind in {Crc24A, Crc24B, Crc16}
  {
    hide OddBits;
    match kind
    case Crc24A =>
      Top(0x0, 0);
      Digit(0x0, 0, 0x8);
      Digit(0x8, 4, 0x6);
      Digit(0x86, 8, 0x4);
      Digit(0x864, 12, 0xC);
      Digit(0x864C, 16, 0xF);
      Digit(0x864CF, 20, 0xB);
    case Crc24B =>
      Top(0x0, 0);
      Digit(0x0, 0, 0x8);
      Digit(0x8, 4, 0x0);
      Digit(0x80, 8, 0x0);
      Digit(0x800, 12, 0x0);
      Digit(0x8000, 16, 0x6);
      Digit(0x80006, 20, 0x3);
    case Crc24C =>
      Top(0x0, 0);
      Digit(0x0, 0, 0xB);
      Digit(0xB, 4, 0x2);
      Digit(0xB2, 8, 0xB);
      Digit(0xB2B, 12, 0x1);
      Digit(0xB2B1, 16, 0x1);
      Digit(0xB2B11, 20, 0x7);
    case Crc16 =>
      Top(0x1, 0);
      Digit(0x1, 0, 0x1);
      Digit(0x11, 4, 0x0);
      Digit(0x110, 8, 0x2);
      Digit(0x1102, 12, 0x1);
    case Crc11 =>
      Top(0xE, 3);
      Digit(0xE, 3, 0x2);
      Digit(0xE2, 7, 0x1);
    case Crc6 =>
      Top(0x6, 2);
      Digit(0x6, 2, 0x1);
  }

  lemma Top(m: nat, w: nat)
    requires w < 4
    ensures w == 0 ==> !OddBits(m, w)
    ensures w == 2 ==> OddBits(m, w) == ((m / 2 % 2 == 1) != (m % 2 == 1))
    ensures w == 3 ==> OddBits(m, w) == (((m / 4 % 2 == 1) != (m / 2 % 2 == 1)) != (m % 2 == 1))
  {
    assert m / 2 / 2 == m / 4;
    if w == 2 { assert !OddBits(m / 4, 0); assert OddBits(m / 2, 1) == (m / 2 % 2 == 1); }
    if w == 3 { assert !OddBits(m / 4 / 2, 0); assert OddBits(m / 4, 1) == (m / 4 % 2 == 1); }
  }
}
