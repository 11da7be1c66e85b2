/** The powers of alpha run through every non-zero byte exactly once, for both field polynomials in
    use: x^8+x^4+x^3+x^2+1 (the BCH codes) and x^8+x^7+x^2+x+1 (the CCSDS Reed-Solomon code). Hence
    non-zero bytes have logarithms and inverses, and the field has no zero divisors. */
module GfOrbit {
  import opened Bits
  import opened Gf256

  // ---- 255 is the order of alpha ------------------------------------------------------------------

  /** alpha^255 = 1, and no maximal proper divisor of 255 is already a period. */
  ghost predicate Primitive(q: E) {
    && q[0]
    && Exp(q, 255) == One
    && Exp(q, 15) != One && Exp(q, 51) != One && Exp(q, 85) != One
  }

  /** x^4 + x^3 + x^2 + 1, the low byte of the BCH field polynomial. */
  const POLY_1D: E := Add(Add(Unit(0), Unit(2)), Add(Unit(3), Unit(4)))
  /** x^7 + x^2 + x + 1, the low byte of the CCSDS field polynomial. */
  const POLY_87: E := Add(Add(Unit(0), Unit(1)), Add(Unit(2), Unit(7)))

  /** The element `e` is the machine byte `b`. */
  predicate Is(e: E, b: bv8) {
    && e[0] == (b & 1 != 0) && e[1] == (b & 2 != 0) && e[2] == (b & 4 != 0) && e[3] == (b & 8 != 0)
    && e[4] == (b & 16 != 0) && e[5] == (b & 32 != 0) && e[6] == (b & 64 != 0) && e[7] == (b & 128 != 0)
  }

  /** One step of the source's table loop: shift left, and xor the low byte of the polynomial when the
      top bit fell out. */
  function XByte(q: bv8, a: bv8): bv8 {
    if a & 0x80 != 0 then (a << 1) ^ q else a << 1
  }

  lemma XByteBits(q: bv8, a: bv8)
    ensures (XByte(q, a) & 1 != 0) == (a & 128 != 0 && q & 1 != 0)
    ensures (XByte(q, a) & 2 != 0) == ((a & 1 != 0) != (a & 128 != 0 && q & 2 != 0))
    ensures (XByte(q, a) & 4 != 0) == ((a & 2 != 0) != (a & 128 != 0 && q & 4 != 0))
    ensures (XByte(q, a) & 8 != 0) == ((a & 4 != 0) != (a & 128 != 0 && q & 8 != 0))
    ensures (XByte(q, a) & 16 != 0) == ((a & 8 != 0) != (a & 128 != 0 && q & 16 != 0))
    ensures (XByte(q, a) & 32 != 0) == ((a & 16 != 0) != (a & 128 != 0 && q & 32 != 0))
    ensures (XByte(q, a) & 64 != 0) == ((a & 32 != 0) != (a & 128 != 0 && q & 64 != 0))
    ensures (XByte(q, a) & 128 != 0) == ((a & 64 != 0) != (a & 128 != 0 && q & 128 != 0))
  {
  }

  lemma XBits(q: E, a: E)
    ensures X(q, a)[0] == (a[7] && q[0])
    ensures forall i :: 1 <= i < 8 ==> X(q, a)[i] == (a[i - 1] != (a[7] && q[i]))
  {
  }

  lemma XOfByte(q: E, a: E, r: bv8, b: bv8)
    requires Is(q, r) && Is(a, b)
    ensures Is(X(q, a), XByte(r, b))
  {
    hide XByte, X;
    XByteBits(r, b);
    XBits(q, a);
    assert X(q, a)[0] == (a[7] && q[0]);
  }

  function XByte4(r: bv8, b: bv8): bv8 {
    XByte(r, XByte(r, XByte(r, XByte(r, b))))
  }

  function XByte17(r: bv8, b: bv8): bv8 {
    XByte(r, XByte4(r, XByte4(r, XByte4(r, XByte4(r, b)))))
  }

  lemma FourOn(q: E, k: nat, r: bv8, b: bv8)
    requires Is(q, r) && Is(Exp(q, k), b)
    ensures Is(Exp(q, k + 4), XByte4(r, b))
  {
    hide XByte, X, Is;
    XOfByte(q, Exp(q, k), r, b);
    XOfByte(q, Exp(q, k + 1), r, XByte(r, b));
    XOfByte(q, Exp(q, k + 2), r, XByte(r, XByte(r, b)));
    XOfByte(q, Exp(q, k + 3), r, XByte(r, XByte(r, XByte(r, b))));
  }

  lemma SeventeenOn(q: E, k: nat, r: bv8, b: bv8)
    requires Is(q, r) && Is(Exp(q, k), b)
    ensures Is(Exp(q, k + 17), XByte17(r, b))
  {
    hide XByte, XByte4, X, Is;
    FourOn(q, k, r, b);
    FourOn(q, k + 4, r, XByte4(r, b));
    FourOn(q, k + 8, r, XByte4(r, XByte4(r, b)));
    FourOn(q, k + 12, r, XByte4(r, XByte4(r, XByte4(r, b))));
    XOfByte(q, Exp(q, k + 16), r, XByte4(r, XByte4(r, XByte4(r, XByte4(r, b)))));
  }

  /** The machine bytes of alpha^0, alpha^17, .., alpha^255 for one of the two polynomials. */
  function Stop(first: bool, i: nat): bv8 {
    if first then Stop1D(i) else Stop87(i)
  }

  function Stop1D(i: nat): bv8 {
    match i
    case 0 => 0x01
    case 1 => 0x98
    case 2 => 0x4E
    case 3 => 0x0A
    case 4 => 0x99
    case 5 => 0xD6
    case 6 => 0x44
    case 7 => 0x93
    case 8 => 0x4F
    case 9 => 0x92
    case 10 => 0xD7
    case 11 => 0xDC
    case 12 => 0xDD
    case 13 => 0x45
    case 14 => 0x0B
    case _ => 0x01
  }

  function Stop87(i: nat): bv8 {
    match i
    case 0 => 0x01
    case 1 => 0xDE
    case 2 => 0x74
    case 3 => 0x6C
    case 4 => 0xDF
    case 5 => 0xAA
    case 6 => 0x18
    case 7 => 0xB3
    case 8 => 0x75
    case 9 => 0xB2
    case 10 => 0xAB
    case 11 => 0xC6
    case 12 => 0xC7
    case 13 => 0x19
    case 14 => 0x6D
    case _ => 0x01
  }

  function Low(first: bool): bv8 {
    if first then 0x1D else 0x87
  }

  function Poly(first: bool): E {
    if first then POLY_1D else POLY_87
  }

  lemma PolyIsLow(first: bool)
    ensures Is(Poly(first), Low(first)) && Is(One, 1) && Exp(Poly(first), 0) == One && Stop(first, 0) == 1
    ensures Poly(first)[0]
  {
  }

  lemma Hops1D(i: nat)
    requires i < 15
    ensures XByte17(0x1D, Stop1D(i)) == Stop1D(i + 1)
  {
    match i
    case 0 => assert XByte17(0x1D, 0x01) == 0x98;
    case 1 => assert XByte17(0x1D, 0x98) == 0x4E;
    case 2 => assert XByte17(0x1D, 0x4E) == 0x0A;
    case 3 => assert XByte17(0x1D, 0x0A) == 0x99;
    case 4 => assert XByte17(0x1D, 0x99) == 0xD6;
    case 5 => assert XByte17(0x1D, 0xD6) == 0x44;
    case 6 => assert XByte17(0x1D, 0x44) == 0x93;
    case 7 => assert XByte17(0x1D, 0x93) == 0x4F;
    case 8 => assert XByte17(0x1D, 0x4F) == 0x92;
    case 9 => assert XByte17(0x1D, 0x92) == 0xD7;
    case 10 => assert XByte17(0x1D, 0xD7) == 0xDC;
    case 11 => assert XByte17(0x1D, 0xDC) == 0xDD;
    case 12 => assert XByte17(0x1D, 0xDD) == 0x45;
    case 13 => assert XByte17(0x1D, 0x45) == 0x0B;
    case _ => assert XByte17(0x1D, 0x0B) == 0x01;
  }

  lemma Hops87(i: nat)
    requires i < 15
    ensures XByte17(0x87, Stop87(i)) == Stop87(i + 1)
  {
    match i
    case 0 => assert XByte17(0x87, 0x01) == 0xDE;
    case 1 => assert XByte17(0x87, 0xDE) == 0x74;
    case 2 => assert XByte17(0x87, 0x74) == 0x6C;
    case 3 => assert XByte17(0x87, 0x6C) == 0xDF;
    case 4 => assert XByte17(0x87, 0xDF) == 0xAA;
    case 5 => assert XByte17(0x87, 0xAA) == 0x18;
    case 6 => assert XByte17(0x87, 0x18) == 0xB3;
    case 7 => assert XByte17(0x87, 0xB3) == 0x75;
    case 8 => assert XByte17(0x87, 0x75) == 0xB2;
    case 9 => assert XByte17(0x87, 0xB2) == 0xAB;
    case 10 => assert XByte17(0x87, 0xAB) == 0xC6;
    case 11 => assert XByte17(0x87, 0xC6) == 0xC7;
    case 12 => assert XByte17(0x87, 0xC7) == 0x19;
    case 13 => assert XByte17(0x87, 0x19) == 0x6D;
    case _ => assert XByte17(0x87, 0x6D) == 0x01;
  }

  lemma {:induction false} StopsOnTheWay(first: bool, i: nat)
    requires i <= 15
    ensures Is(Exp(Poly(first), 17 * i), Stop(first, i))
  {
    hide Is, X, Poly, XByte17, Exp, Stop1D, Stop87;
    PolyIsLow(first);
    if i > 0 {
      StopsOnTheWay(first, i - 1);
      SeventeenOn(Poly(first), 17 * (i - 1), Low(first), Stop(first, i - 1));
      if first { Hops1D(i - 1); } else { Hops87(i - 1); }
    }
  }

  lemma FifteenthPower(first: bool)
    ensures !Exp(Poly(first), 15)[0]
  {
    hide Exp, X, Poly, Is, XByte, XByte4;
    var q, r := Poly(first), Low(first);
    PolyIsLow(first);
    FourOn(q, 0, r, 1);
    FourOn(q, 4, r, XByte4(r, 1));
    FourOn(q, 8, r, XByte4(r, XByte4(r, 1)));
    LastThree(q, r, XByte4(r, XByte4(r, XByte4(r, 1))));
    Fifteen(first);
  }

  lemma LastThree(q: E, r: bv8, b: bv8)
    requires Is(q, r) && Is(Exp(q, 12), b)
    ensures Is(Exp(q, 15), XByte(r, XByte(r, XByte(r, b))))
    ensures Exp(q, 15)[0] == (XByte(r, XByte(r, XByte(r, b))) & 1 != 0)
  {
    hide XByte, X;
    XOfByte(q, Exp(q, 12), r, b);
    XOfByte(q, Exp(q, 13), r, XByte(r, b));
    XOfByte(q, Exp(q, 14), r, XByte(r, XByte(r, b)));
  }

  lemma Fifteen(first: bool)
    ensures XByte(Low(first), XByte(Low(first), XByte(Low(first),
              XByte4(Low(first), XByte4(Low(first), XByte4(Low(first), 1)))))) & 1 == 0
  {
    if first {
      assert XByte(0x1D, XByte(0x1D, XByte(0x1D, XByte4(0x1D, XByte4(0x1D, XByte4(0x1D, 1)))))) == 0x26;
    } else {
      assert XByte(0x87, XByte(0x87, XByte(0x87, XByte4(0x87, XByte4(0x87, XByte4(0x87, 1)))))) == 0xF4;
    }
  }

  lemma StopBits(first: bool)
    ensures Stop(first, 15) == 1 && Stop(first, 3) & 1 == 0 && Stop(first, 5) & 1 == 0
  {
  }

  lemma ByteIsUnique(e: E, f: E, b: bv8)
    requires Is(e, b) && Is(f, b)
    ensures e == f
  {
  }

  lemma IsLowBit(e: E, b: bv8)
    requires Is(e, b)
    ensures e[0] == (b & 1 != 0)
  {
  }

  lemma OneIsOdd()
    ensures One[0]
  {
  }

  /** Both field polynomials are primitive. */
  lemma BothPrimitive(first: bool)
    ensures Primitive(Poly(first))
  {
    hide Exp, X, Poly, Is, Stop;
    var q := Poly(first);
    PolyIsLow(first);
    FifteenthPower(first);
    StopsOnTheWay(first, 3);
    StopsOnTheWay(first, 5);
    StopsOnTheWay(first, 15);
    StopBits(first);
    IsLowBit(Exp(q, 51), Stop(first, 3));
    IsLowBit(Exp(q, 85), Stop(first, 5));
    ByteIsUnique(Exp(q, 255), One, 1);
    OneIsOdd();
  }

  // ---- alpha^0 .. alpha^254 are distinct ----------------------------------------------------------

  lemma XCancels(q: E, a: E, b: E)
    requires q[0] && X(q, a) == X(q, b)
    ensures a == b
  {
    hide X;
    XBits(q, a);
    XBits(q, b);
    assert X(q, a)[0] == X(q, b)[0];
    forall i | 0 <= i < 7 ensures a[i] == b[i] {
      assert X(q, a)[i + 1] == X(q, b)[i + 1];
    }
    assert forall i :: 0 <= i < 8 ==> a[i] == b[i];
  }

  lemma {:induction false} ExpNotZero(q: E, k: nat)
    requires q[0]
    ensures Exp(q, k) != Zero
  {
    hide X;
    if k == 0 {
      OneIsOdd();
    } else {
      ExpNotZero(q, k - 1);
      XZero(q);
      if Exp(q, k) == Zero { XCancels(q, Exp(q, k - 1), Zero); }
    }
  }

  lemma {:induction false} ExpCancels(q: E, i: nat, j: nat)
    requires q[0] && i <= j && Exp(q, i) == Exp(q, j)
    ensures Exp(q, j - i) == One
  {
    hide X;
    if i > 0 {
      XCancels(q, Exp(q, i - 1), Exp(q, j - 1));
      ExpCancels(q, i - 1, j - 1);
    }
  }

  /** A period of alpha passes to a common divisor of two periods. */
  lemma {:induction false} CommonPeriod(q: E, m: nat, n: nat) returns (g: nat, a: nat, b: nat)
    requires q[0] && 0 < m <= n && Exp(q, m) == One && Exp(q, n) == One
    ensures 0 < g <= m && m == g * a && n == g * b && Exp(q, g) == One
    decreases m + n
  {
    hide Exp, X;
    if m == n {
      g, a, b := m, 1, 1;
    } else {
      ExpCancels(q, m, n);
      if m <= n - m {
        g, a, b := CommonPeriod(q, m, n - m);
        assert n == g * a + g * b == g * (a + b);
        b := a + b;
      } else {
        g, a, b := CommonPeriod(q, n - m, m);
        assert n == g * a + g * b == g * (a + b);
        a, b := b, a + b;
      }
    }
  }

  lemma {:induction false} PeriodTimes(q: E, g: nat, k: nat)
    requires Exp(q, g) == One
    ensures Exp(q, g * k) == One
  {
    hide Mul;
    if k > 0 {
      PeriodTimes(q, g, k - 1);
      ExpAdd(q, g, g * (k - 1));
      MulOne(q, One);
      assert g * k == g + g * (k - 1);
    }
  }

  /** A proper divisor of 255 divides 15, 51 or 85. */
  lemma ProperDivisor(g: nat, h: nat) returns (k: nat)
    requires 0 < g < 255 && g * h == 255
    ensures g * k == 15 || g * k == 51 || g * k == 85
  {
    if g <= 15 {
      SmallDivisor(g, h);
      k := 15 / g;
    } else {
      if h >= 16 { AtLeast256(g, h); }
      SmallDivisor(h, g);
      k := if h == 15 then 3 else 1;
    }
  }

  lemma SmallDivisor(d: nat, e: nat)
    requires d <= 15 && d * e == 255
    ensures d == 1 || d == 3 || d == 5 || d == 15
  {
    if d == 2 || d == 4 || d == 6 || d == 7 || d == 8 || d == 9 || d == 10 || d == 11 || d == 12 || d == 13 || d == 14 {
      assert false;
    }
  }

  lemma AtLeast256(g: nat, h: nat)
    requires g >= 16 && h >= 16
    ensures g * h >= 256
  {
    assert (g - 16) * (h - 16) >= 0;
  }

  lemma ExpInjective(q: E, i: nat, j: nat)
    requires Primitive(q) && i < j < 255
    ensures Exp(q, i) != Exp(q, j)
  {
    hide Exp, X;
    if Exp(q, i) == Exp(q, j) {
      ExpCancels(q, i, j);
      var g, a, b := CommonPeriod(q, j - i, 255);
      var k := ProperDivisor(g, b);
      PeriodTimes(q, g, k);
    }
  }

  lemma ExpWraps(q: E, k: nat)
    requires Primitive(q)
    ensures Exp(q, k + 255) == Exp(q, k) && Exp(q, k) == Exp(q, k % 255)
    decreases k
  {
    hide Mul, X, Exp;
    ExpAdd(q, k, 255);
    MulOne(q, Exp(q, k));
    if k >= 255 { ExpWraps(q, k - 255); }
  }

  // ---- .. and reach every non-zero byte -----------------------------------------------------------

  /** The number a byte spells, its bits read from the lowest up. */
  function Number(w: Word): nat {
    if |w| == 0 then 0 else (if w[0] then 1 else 0) + 2 * Number(w[1..])
  }

  function TwoTo(n: nat): nat {
    if n == 0 then 1 else 2 * TwoTo(n - 1)
  }

  lemma {:induction false} NumberBound(w: Word)
    ensures Number(w) < TwoTo(|w|)
    ensures IsZero(w) || Number(w) > 0
  {
    if |w| > 0 { NumberBound(w[1..]); }
  }

  lemma {:induction false} NumberInjective(a: Word, b: Word)
    requires |a| == |b| && Number(a) == Number(b)
    ensures a == b
  {
    if |a| > 0 {
      NumberInjective(a[1..], b[1..]);
      assert a == [a[0]] + a[1..] && b == [b[0]] + b[1..];
    }
  }

  lemma ByteNumber(a: E)
    ensures Number(a) < 256 && (a != Zero ==> Number(a) > 0)
  {
    NumberBound(a);
    assert TwoTo(8) == 256 by {
      assert TwoTo(4) == 16;
    }
    if IsZero(a) { assert a == Zero; }
  }

  /** The numbers of alpha^0 .. alpha^(n-1). */
  ghost function Reached(q: E, n: nat): set<nat> {
    if n == 0 then {} else Reached(q, n - 1) + {Number(Exp(q, n - 1))}
  }

  lemma {:induction false} InReached(q: E, n: nat, v: nat) returns (k: nat)
    requires v in Reached(q, n)
    ensures k < n && Number(Exp(q, k)) == v
  {
    hide Exp, Number;
    if v in Reached(q, n - 1) { k := InReached(q, n - 1, v); } else { k := n - 1; }
  }

  lemma {:induction false} ReachedSize(q: E, n: nat)
    requires Primitive(q) && n <= 255
    ensures |Reached(q, n)| == n
    ensures forall v :: v in Reached(q, n) ==> 0 < v < 256
  {
    hide Exp, Number, Primitive;
    if n > 0 {
      ReachedSize(q, n - 1);
      var v := Number(Exp(q, n - 1));
      ExpNotZeroP(q, n - 1);
      ByteNumber(Exp(q, n - 1));
      if v in Reached(q, n - 1) {
        var k := InReached(q, n - 1, v);
        NumberInjective(Exp(q, k), Exp(q, n - 1));
        ExpInjective(q, k, n - 1);
      }
    }
  }

  lemma ExpNotZeroP(q: E, k: nat)
    requires Primitive(q)
    ensures Exp(q, k) != Zero
  {
    ExpNotZero(q, k);
  }

  lemma {:induction false} FullSet(s: set<nat>, n: nat)
    requires |s| == n && forall v :: v in s ==> 0 < v <= n
    ensures forall v: nat :: 0 < v <= n ==> v in s
  {
    if n > 0 {
      if n in s {
        FullSet(s - {n}, n - 1);
      } else {
        Crowded(s, n - 1);
      }
    }
  }

  lemma {:induction false} Crowded(s: set<nat>, n: nat)
    requires forall v :: v in s ==> 0 < v <= n
    ensures |s| <= n
  {
    if n == 0 {
      assert s == {};
    } else {
      Crowded(s - {n}, n - 1);
    }
  }

  /** Every non-zero byte is a power of alpha. */
  lemma ExpSurjective(q: E, a: E)
    requires Primitive(q) && a != Zero
    ensures exists k: nat :: k < 255 && Exp(q, k) == a
  {
    hide Exp, Number, Primitive;
    ReachedSize(q, 255);
    FullSet(Reached(q, 255), 255);
    ByteNumber(a);
    var k := InReached(q, 255, Number(a));
    NumberInjective(Exp(q, k), a);
  }

  /** The logarithm of a non-zero element. */
  ghost function Log(q: E, a: E): (k: nat)
    requires Primitive(q) && a != Zero
    ensures k < 255 && Exp(q, k) == a
  {
    ExpSurjective(q, a);
    var k: nat :| k < 255 && Exp(q, k) == a;
    k
  }

  // ---- what the field laws add up to --------------------------------------------------------------

  /** The inverse of a non-zero element. */
  ghost function Inv(q: E, a: E): E
    requires Primitive(q) && a != Zero
  {
    Exp(q, 255 - Log(q, a))
  }

  lemma InvWorks(q: E, a: E)
    requires Primitive(q) && a != Zero
    ensures Mul(q, a, Inv(q, a)) == One && Inv(q, a) != Zero
  {
    hide Exp, Mul, Primitive, X;
    var k := Log(q, a);
    ExpAdd(q, k, 255 - k);
    FullTurn(q);
    ExpNotZeroP(q, 255 - k);
  }

  lemma FullTurn(q: E)
    requires Primitive(q)
    ensures Exp(q, 255) == One
  {
  }

  lemma NoZeroDivisors(q: E, a: E, b: E)
    requires Primitive(q)
    ensures Mul(q, a, b) == Zero <==> a == Zero || b == Zero
  {
    hide Exp, Mul, Primitive, X;
    MulOne(q, a);
    MulOne(q, b);
    if a != Zero && b != Zero {
      ExpAdd(q, Log(q, a), Log(q, b));
      ExpNotZeroP(q, Log(q, a) + Log(q, b));
    }
  }
}
