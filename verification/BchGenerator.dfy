/** The BCH generator polynomial: cyclotomic cosets, their minimal polynomials, and the product, the
    polynomial of least degree that has alpha^1 .. alpha^(2t) among its roots. */
module BchGenerator {
  import opened Bits
  import opened Gf256
  import opened GfOrbit
  import opened GfTables
  import opened GfPoly
  import opened BerlekampMassey
  import opened BchWord
  import opened BchSound
  import BchDecoder

  // ---- products of linear factors -------------------------------------------------------------------

  /** Coefficients of p(x) (x + a), lowest first. */
  function Times(q: E, p: seq<E>, a: E): (r: seq<E>)
    ensures |r| == |p| + 1
  {
    seq(|p| + 1, j requires 0 <= j => TimesAt(q, p, a, j))
  }

  function TimesAt(q: E, p: seq<E>, a: E, j: int): E {
    Add(At(p, j - 1), Mul(q, At(p, j), a))
  }

  lemma TimesAgrees(q: E, p: seq<E>, a: E, j: int)
    ensures At(Times(q, p, a), j) == TimesAt(q, p, a, j)
  {
    hide Mul, Add;
    MulOne(q, a);
    AddBasics(Zero, Zero);
  }

  /** (x + a[0]) (x + a[1]) .. */
  function Product(q: E, a: seq<E>): (p: seq<E>)
    ensures |p| == |a| + 1
  {
    if |a| == 0 then [One] else Times(q, Product(q, a[..|a| - 1]), a[|a| - 1])
  }

  lemma {:induction false} EvalAppend(q: E, c: seq<E>, d: E, x: E)
    ensures Eval(q, c + [d], x) == Add(Eval(q, c, x), Mul(q, d, Pow(q, x, |c|)))
    decreases |c|
  {
    hide Mul, Add;
    var e := c + [d];
    if |c| == 0 {
      assert e[1..] == [];
      MulOne(q, x);
      MulOne(q, d);
      AddBasics(d, Zero);
    } else {
      assert e[1..] == c[1..] + [d];
      EvalAppend(q, c[1..], d, x);
      MulDistrib(q, Eval(q, c[1..], x), Mul(q, d, Pow(q, x, |c| - 1)), x);
      Triple(q, x, d, Pow(q, x, |c| - 1));
      AddAssoc(c[0], Mul(q, x, Eval(q, c[1..], x)), Mul(q, d, Pow(q, x, |c|)));
    }
  }

  lemma FactorTerm(q: E, x: E, a: E, u: E, e: E)
    ensures Add(Mul(q, u, a), Mul(q, x, Add(u, Mul(q, Add(x, a), e)))) == Mul(q, Add(x, a), Add(u, Mul(q, x, e)))
  {
    hide Mul, Add;
    MulComm(q, u, a);
    MulDistrib(q, u, Mul(q, Add(x, a), e), x);
    Triple(q, x, Add(x, a), e);
    MulDistrib(q, u, Mul(q, x, e), Add(x, a));
    MulDistrib(q, x, a, u);
    var xu, au, r := Mul(q, x, u), Mul(q, a, u), Mul(q, Add(x, a), Mul(q, x, e));
    AddBasics(xu, au);
    AddAssoc(au, xu, r);
  }

  /** Times multiplies values by x + a. */
  lemma {:induction false} EvalTimes(q: E, p: seq<E>, a: E, x: E)
    ensures Eval(q, Times(q, p, a), x) == Mul(q, Add(x, a), Eval(q, p, x))
    decreases |p|
  {
    hide Mul, Add;
    var r := Times(q, p, a);
    if |p| == 0 {
      assert r[1..] == [];
      MulOne(q, a);
      MulOne(q, x);
      MulOne(q, Add(x, a));
      AddBasics(Zero, Zero);
    } else {
      // r = [p0 a] + ([p0] plus the shifted tail)
      EvalTimes(q, p[1..], a, x);
      TailOfTimes(q, p, a, x);
      FactorTerm(q, x, a, p[0], Eval(q, p[1..], x));
    }
  }

  /** Taking one coefficient off both sides. */
  lemma TailOfTimes(q: E, p: seq<E>, a: E, x: E)
    requires |p| > 0
    ensures Eval(q, Times(q, p, a), x)
         == Add(Mul(q, p[0], a), Mul(q, x, Add(p[0], Eval(q, Times(q, p[1..], a), x))))
  {
    hide Mul, Add;
    var r, s := Times(q, p, a), Times(q, p[1..], a);
    AddBasics(Mul(q, p[0], a), Zero);
    assert r[0] == Mul(q, p[0], a);
    // r[1] = p0 + s[0], the rest agree
    AddBasics(Mul(q, At(p, 1), a), Zero);
    assert s[0] == Mul(q, At(p, 1), a);
    assert r[1] == Add(p[0], s[0]);
    assert r[1..][0] == r[1];
    assert r[1..][1..] == s[1..];
    AddAssoc(p[0], s[0], Mul(q, x, Eval(q, s[1..], x)));
  }

  lemma {:induction false} RootOfProduct(q: E, a: seq<E>, x: E)
    requires x in a
    ensures Eval(q, Product(q, a), x) == Zero
    decreases |a|
  {
    hide Mul, Add, Times, Eval;
    var b, l := a[..|a| - 1], a[|a| - 1];
    EvalTimes(q, Product(q, b), l, x);
    AddBasics(x, x);
    MulOne(q, Eval(q, Product(q, b), x));
    if x != l {
      assert a == b + [l];
      RootOfProduct(q, b, x);
      MulOne(q, Add(x, l));
    }
  }

  lemma {:induction false} ProductIsMonic(q: E, a: seq<E>)
    ensures Product(q, a)[|a|] == One
    decreases |a|
  {
    hide Mul, Add;
    if |a| > 0 {
      ProductIsMonic(q, a[..|a| - 1]);
      MulOne(q, a[|a| - 1]);
      AddBasics(One, Zero);
    }
  }

  // ---- the order of the factors does not matter ------------------------------------------------------

  lemma SwapTerm(q: E, u: E, v: E, w: E, a: E, b: E)
    ensures Add(Add(u, Mul(q, v, a)), Mul(q, Add(v, Mul(q, w, a)), b))
         == Add(Add(u, Mul(q, v, b)), Mul(q, Add(v, Mul(q, w, b)), a))
  {
    hide Mul, Add;
    MulDistrib(q, v, Mul(q, w, a), b);
    MulDistrib(q, v, Mul(q, w, b), a);
    MulSwap(q, w, a, b);
    var va, vb, z := Mul(q, v, a), Mul(q, v, b), Mul(q, Mul(q, w, a), b);
    AddAssoc(Add(u, va), vb, z);
    AddAssoc(Add(u, vb), va, z);
    AddAssoc(u, va, vb);
    AddAssoc(u, vb, va);
    AddBasics(va, vb);
  }

  lemma TimesSwap(q: E, p: seq<E>, a: E, b: E)
    ensures Times(q, Times(q, p, a), b) == Times(q, Times(q, p, b), a)
  {
    hide Mul, Add, At, TimesAt;
    forall j | 0 <= j <= |p| + 1
      ensures TimesAt(q, Times(q, p, a), b, j) == TimesAt(q, Times(q, p, b), a, j)
    {
      TwiceAt(q, p, a, b, j);
      TwiceAt(q, p, b, a, j);
      SwapTerm(q, At(p, j - 2), At(p, j - 1), At(p, j), a, b);
    }
  }

  lemma TwiceAt(q: E, p: seq<E>, a: E, b: E, j: int)
    ensures TimesAt(q, Times(q, p, a), b, j)
         == Add(Add(At(p, j - 2), Mul(q, At(p, j - 1), a)), Mul(q, Add(At(p, j - 1), Mul(q, At(p, j), a)), b))
  {
    hide Mul, Add, At, Times;
    TimesAgrees(q, p, a, j - 1);
    TimesAgrees(q, p, a, j);
  }

  lemma {:induction false} ProductRotates(q: E, h: E, t: seq<E>)
    ensures Product(q, t + [h]) == Product(q, [h] + t)
    decreases |t|
  {
    hide Times;
    if |t| == 0 {
      assert t + [h] == [h] + t;
    } else {
      var s, l := t[..|t| - 1], t[|t| - 1];
      assert (t + [h])[..|t|] == t && ([h] + t)[..|t|] == [h] + s;
      ProductRotates(q, h, s);
      assert (s + [h])[..|s|] == s;
      TimesSwap(q, Product(q, s), l, h);
    }
  }

  // ---- a set of factors closed under squaring has coefficients 0 and 1 -------------------------------

  lemma SquaresOfTimes(q: E, p: seq<E>, a: E)
    ensures Squares(q, Times(q, p, a)) == Times(q, Squares(q, p), Sq(q, a))
  {
    hide Mul, Add, Sq;
    forall j | 0 <= j <= |p| ensures Sq(q, TimesAt(q, p, a, j)) == TimesAt(q, Squares(q, p), Sq(q, a), j) {
      SquareOfNothing(q);
      SquareOfSum(q, At(p, j - 1), Mul(q, At(p, j), a));
      SquareOfProduct(q, At(p, j), a);
    }
  }

  lemma {:induction false} SquaresOfProduct(q: E, a: seq<E>)
    ensures Squares(q, Product(q, a)) == Product(q, Squares(q, a))
    decreases |a|
  {
    hide Times, Sq;
    if |a| == 0 {
      SquareOfNothing(q);
    } else {
      var b, l := a[..|a| - 1], a[|a| - 1];
      assert Squares(q, a)[..|a| - 1] == Squares(q, b);
      SquaresOfProduct(q, b);
      SquaresOfTimes(q, Product(q, b), l);
    }
  }

  /** Squaring every factor rotates the list. */
  ghost predicate SquareCycle(q: E, a: seq<E>) {
    |a| > 0 && Squares(q, a) == a[1..] + [a[0]]
  }

  lemma CycleIsBinary(q: E, a: seq<E>)
    requires Primitive(q) && SquareCycle(q, a)
    ensures forall j :: 0 <= j <= |a| ==> Product(q, a)[j] == Zero || Product(q, a)[j] == One
  {
    hide Mul, Add, Product, Sq, Primitive;
    SquaresOfProduct(q, a);
    ProductRotates(q, a[0], a[1..]);
    assert [a[0]] + a[1..] == a;
    var p := Product(q, a);
    forall j | 0 <= j <= |a| ensures p[j] == Zero || p[j] == One {
      assert Squares(q, p)[j] == p[j];
      AddBasics(p[j], p[j]);
      IdempotentIsBit(q, p[j]);
    }
  }

  // ---- cyclotomic cosets ------------------------------------------------------------------------------

  /** A list that doubles modulo 255 until it first comes back to i. */
  ghost predicate Coset(c: seq<nat>, i: nat) {
    && 0 < |c| <= 8 && c[0] == i && (forall k :: 1 <= k < |c| ==> c[k] != i)
    && (forall k :: 0 <= k < |c| ==> c[k] < 255)
    && (forall k :: 0 <= k < |c| - 1 ==> c[k + 1] == (2 * c[k]) % 255)
    && (2 * c[|c| - 1]) % 255 == i
  }

  function TwoTimes(k: nat): nat {
    if k == 0 then 1 else 2 * TwoTimes(k - 1)
  }

  lemma DoubleMod(a: nat)
    ensures (2 * (a % 255)) % 255 == (2 * a) % 255
  {
    var r := a % 255;
    assert a == 255 * (a / 255) + r;
    assert 2 * a == 255 * (2 * (a / 255)) + 2 * r;
  }

  /** i after k doublings. */
  function Doubled(i: nat, k: nat): (x: nat)
    ensures x < 255
  {
    (i * TwoTimes(k)) % 255
  }

  lemma DoubledNext(i: nat, k: nat)
    ensures Doubled(i, k + 1) == (2 * Doubled(i, k)) % 255
  {
    DoubleMod(i * TwoTimes(k));
    NextPower(i, k);
  }

  lemma DoubledEnds(i: nat)
    requires i < 255
    ensures Doubled(i, 0) == i == Doubled(i, 8)
    ensures forall k: nat :: 0 < k < 8 ==> Doubled(1, k) != 1
  {
    EightDoublings(i);
    assert i * 1 == i;
    forall k: nat | 0 < k < 8 ensures Doubled(1, k) != 1 { EarlyPowers(k); }
  }

  /** `cyclotomic_coset_mod255`: double until the start comes back, which takes at most eight steps. */
  method CyclotomicCoset(i: nat) returns (coset: seq<nat>)
    requires i < 255
    ensures Coset(coset, i)
    ensures i == 1 ==> |coset| == 8
  {
    hide Doubled;
    DoubledEnds(i);
    coset := [];
    var x := i;
    while true
      invariant |coset| < 8 && x == Doubled(i, |coset|)
      invariant |coset| == 0 ==> x == i
      invariant (|coset| > 0 ==> x != i) && forall k :: 1 <= k < |coset| ==> coset[k] != i
      invariant |coset| > 0 ==> coset[0] == i && x == (2 * coset[|coset| - 1]) % 255
      invariant forall k :: 0 <= k < |coset| ==> coset[k] < 255
      invariant forall k :: 0 <= k < |coset| - 1 ==> coset[k + 1] == (2 * coset[k]) % 255
      decreases 8 - |coset|
    {
      DoubledNext(i, |coset|);
      coset := coset + [x];
      x := (x * 2) % 255;
      if x == i || |coset| == 8 {
        break;
      }
    }
  }

  lemma NextPower(i: nat, k: nat)
    ensures 2 * (i * TwoTimes(k)) == i * TwoTimes(k + 1)
  {
  }

  lemma EightDoublings(i: nat)
    requires i < 255
    ensures (i * TwoTimes(8)) % 255 == i
  {
    assert TwoTimes(4) == 16 && TwoTimes(8) == 256;
    assert i * 256 == 255 * i + i;
  }

  lemma EarlyPowers(k: nat)
    requires 0 < k <= 8
    ensures k < 8 ==> (1 * TwoTimes(k)) % 255 != 1
  {
    assert TwoTimes(1) == 2 && TwoTimes(2) == 4 && TwoTimes(3) == 8 && TwoTimes(4) == 16;
    assert TwoTimes(5) == 32 && TwoTimes(6) == 64 && TwoTimes(7) == 128;
  }

  /** The powers of alpha over a coset. */
  function Powers(q: E, c: seq<nat>): (a: seq<E>)
    ensures |a| == |c|
  {
    seq(|c|, k requires 0 <= k < |c| => Exp(q, c[k]))
  }

  lemma CosetCycles(q: E, c: seq<nat>, i: nat)
    requires Primitive(q) && Coset(c, i)
    ensures SquareCycle(q, Powers(q, c))
  {
    hide Exp, Mul, Primitive;
    var a := Powers(q, c);
    forall k | 0 <= k < |c| ensures Squares(q, a)[k] == (a[1..] + [a[0]])[k] {
      ExpAdd(q, c[k], c[k]);
      ExpWraps(q, 2 * c[k]);
      if k < |c| - 1 { assert a[1..][k] == a[k + 1]; }
    }
  }

  // ---- minimal polynomials ------------------------------------------------------------------------------

  /** A bit polynomial, lowest coefficient first, as coefficients in the field. */
  function Lift2(m: Word): (c: seq<E>)
    ensures |c| == |m|
  {
    seq(|m|, i requires 0 <= i < |m| => If(m[i], One))
  }

  /** `minimal_poly_bits`: the product of (x + alpha^j) over the coset, read as bits. */
  method MinimalPoly(q: E, tables: Tables, coset: seq<nat>, ghost i: nat) returns (bits: Word)
    requires TablesOk(q, tables) && Coset(coset, i)
    ensures |bits| == |coset| + 1 && bits[|coset|]
    ensures Lift2(bits) == Product(q, Powers(q, coset))
  {
    hide Exp, Mul, Add, Primitive, Product, Powers;
    PrimitiveTables(q, tables);
    var poly: seq<E> := seq(9, _ => Zero);
    poly := poly[0 := One];
    var deg := 0;
    ProductOfNone(q, coset, poly);
    while deg < |coset|
      invariant 0 <= deg <= |coset| && |poly| == 9
      invariant poly[..deg + 1] == Product(q, Powers(q, coset[..deg]))
    {
      var alphaE := tables.exp[coset[deg]];
      var newDeg := deg + 1;
      var newPoly: seq<E> := seq(9, _ => Zero);
      var j := 0;
      ghost var p := poly[..deg + 1];
      while j <= newDeg
        invariant 0 <= j <= newDeg + 1 && |newPoly| == 9
        invariant forall k :: 0 <= k < j ==> newPoly[k] == Times(q, p, Exp(q, coset[deg]))[k]
      {
        var shiftTerm := if j >= 1 then poly[j - 1] else Zero;
        MulOne(q, alphaE);
        var constTerm := if j <= deg then GfMul(q, tables, poly[j], alphaE) else Zero;
        newPoly := newPoly[j := Add(shiftTerm, constTerm)];
        j := j + 1;
      }
      ProductGrows(q, coset, deg);
      assert newPoly[..newDeg + 1] == Times(q, p, Exp(q, coset[deg]));
      poly := newPoly;
      deg := newDeg;
    }
    assert coset[..deg] == coset;
    CosetCycles(q, coset, i);
    CycleIsBinary(q, Powers(q, coset));
    ProductIsMonic(q, Powers(q, coset));
    bits := ReadBits(poly, deg);
    OneIsOdd();
    assert poly[..deg + 1][deg] == One;
    forall k | 0 <= k <= deg ensures Lift2(bits)[k] == Product(q, Powers(q, coset))[k] {
      assert poly[..deg + 1][k] == poly[k];
    }
  }

  lemma ProductOfNone(q: E, coset: seq<nat>, poly: seq<E>)
    requires |poly| == 9 && poly[0] == One
    ensures poly[..1] == Product(q, Powers(q, coset[..0]))
  {
  }

  lemma ProductGrows(q: E, coset: seq<nat>, deg: nat)
    requires deg < |coset|
    ensures Product(q, Powers(q, coset[..deg + 1]))
         == Times(q, Product(q, Powers(q, coset[..deg])), Exp(q, coset[deg]))
  {
    hide Times, Exp;
    var a := Powers(q, coset[..deg + 1]);
    assert a[..deg] == Powers(q, coset[..deg]);
  }

  method ReadBits(poly: seq<E>, deg: nat) returns (bits: Word)
    requires deg < |poly|
    ensures |bits| == deg + 1 && forall k :: 0 <= k <= deg ==> bits[k] == (poly[k] == One)
  {
    bits := [];
    var j := 0;
    while j <= deg
      invariant 0 <= j <= deg + 1 && |bits| == j
      invariant forall k :: 0 <= k < j ==> bits[k] == (poly[k] == One)
    {
      bits := bits + [poly[j] == One];
      j := j + 1;
    }
  }

  // ---- products of bit polynomials in a 128-bit word ------------------------------------------------------

  const WORD: nat := 128

  /** g << b, dropping what leaves the word. */
  function Shl(g: Word, b: nat): (r: Word)
    ensures |r| == |g|
  {
    seq(|g|, i requires 0 <= i < |g| => i >= b && g[i - b])
  }

  /** The carry-less product: one shifted copy of g for every one among the first b bits of m. */
  function MulBits(g: Word, m: Word, b: nat): (r: Word)
    requires b <= |m|
    ensures |r| == |g|
  {
    if b == 0 then Zeros(|g|)
    else if m[b - 1] then Xor(MulBits(g, m, b - 1), Shl(g, b - 1)) else MulBits(g, m, b - 1)
  }

  /** Degree exactly d. */
  predicate HasDegree(g: Word, d: nat) {
    d < |g| && g[d] && forall i :: d < i < |g| ==> !g[i]
  }

  lemma {:induction false} MulBitsBound(g: Word, m: Word, b: nat, d: nat)
    requires b <= |m| && HasDegree(g, d)
    ensures forall i :: d + b <= i < |g| ==> !MulBits(g, m, b)[i]
  {
    if b > 0 { MulBitsBound(g, m, b - 1, d); }
  }

  lemma MulBitsDegree(g: Word, m: Word, d: nat, e: nat)
    requires HasDegree(g, d) && |m| == e + 1 && m[e] && d + e < |g|
    ensures HasDegree(MulBits(g, m, e + 1), d + e)
  {
    MulBitsBound(g, m, e, d);
    MulBitsBound(g, m, e + 1, d);
    assert m[(e + 1) - 1];
    assert Shl(g, e)[d + e] == g[d];
    assert !MulBits(g, m, e)[d + e];
  }

  /** The value of a bit polynomial, lowest coefficient first. */
  function ValueAt(q: E, w: Word, x: E): E {
    Eval(q, Lift2(w), x)
  }

  lemma {:induction false} EvalAdd(q: E, a: seq<E>, b: seq<E>, x: E)
    requires |a| == |b|
    ensures Eval(q, AddAll(a, b), x) == Add(Eval(q, a, x), Eval(q, b, x))
    decreases |a|
  {
    hide Mul, Add;
    AddBasics(Zero, Zero);
    if |a| > 0 {
      assert AddAll(a, b)[1..] == AddAll(a[1..], b[1..]);
      EvalAdd(q, a[1..], b[1..], x);
      MulDistrib(q, Eval(q, a[1..], x), Eval(q, b[1..], x), x);
      AddFour(a[0], b[0], Mul(q, x, Eval(q, a[1..], x)), Mul(q, x, Eval(q, b[1..], x)));
    }
  }

  lemma ValueXor(q: E, a: Word, b: Word, x: E)
    requires |a| == |b|
    ensures ValueAt(q, Xor(a, b), x) == Add(ValueAt(q, a, x), ValueAt(q, b, x))
  {
    hide Add, Eval;
    forall i | 0 <= i < |a| ensures Lift2(Xor(a, b))[i] == Add(Lift2(a)[i], Lift2(b)[i]) { IfAdds(a[i], b[i], One); }
    assert Lift2(Xor(a, b)) == AddAll(Lift2(a), Lift2(b));
    EvalAdd(q, Lift2(a), Lift2(b), x);
  }

  lemma {:induction false} EvalZeros(q: E, c: seq<E>, x: E)
    requires AllZero(c)
    ensures Eval(q, c, x) == Zero
    decreases |c|
  {
    hide Mul, Add;
    if |c| > 0 {
      EvalZeros(q, c[1..], x);
      MulOne(q, x);
      AddBasics(Zero, Zero);
    }
  }

  /** A shift by b multiplies the value by x^b when no one is lost. */
  lemma {:induction false} ValueShl(q: E, g: Word, b: nat, x: E)
    requires forall i :: 0 <= i < |g| && |g| - b <= i ==> !g[i]
    ensures ValueAt(q, Shl(g, b), x) == Mul(q, Pow(q, x, b), ValueAt(q, g, x))
    decreases b
  {
    hide Mul, Add, Eval;
    if b == 0 {
      assert Shl(g, 0) == g;
      MulOne(q, ValueAt(q, g, x));
      assert Pow(q, x, 0) == One;
    } else {
      ValueShl(q, g, b - 1, x);
      var h := Shl(g, b - 1);
      assert Shl(g, b) == Shl(h, 1);
      ShlOnce(q, h, x);
      MulAssoc(q, x, Pow(q, x, b - 1), ValueAt(q, g, x));
    }
  }

  lemma ShlOnce(q: E, h: Word, x: E)
    requires |h| > 0 ==> !h[|h| - 1]
    ensures ValueAt(q, Shl(h, 1), x) == Mul(q, x, ValueAt(q, h, x))
  {
    hide Mul, Add;
    MulOne(q, x);
    if |h| > 0 {
      var c, d := Lift2(h), Lift2(Shl(h, 1));
      assert d[1..] == c[..|c| - 1];
      assert c == c[..|c| - 1] + [Zero];
      EvalAppend(q, c[..|c| - 1], Zero, x);
      MulOne(q, Pow(q, x, |c| - 1));
      AddBasics(Eval(q, c[..|c| - 1], x), Zero);
      AddBasics(Mul(q, x, Eval(q, d[1..], x)), Zero);
    }
  }

  lemma ValuePrefix(q: E, m: Word, b: nat, x: E)
    requires b < |m|
    ensures ValueAt(q, m[..b + 1], x) == Add(ValueAt(q, m[..b], x), If(m[b], Pow(q, x, b)))
  {
    hide Mul, Add, Eval, Pow;
    assert Lift2(m[..b + 1]) == Lift2(m[..b]) + [If(m[b], One)];
    EvalAppend(q, Lift2(m[..b]), If(m[b], One), x);
    MulOne(q, Pow(q, x, b));
  }

  /** The product's value is the product of the values. */
  lemma {:induction false} ValueMulBits(q: E, g: Word, m: Word, b: nat, d: nat, x: E)
    requires b <= |m| && HasDegree(g, d) && d + b <= |g|
    ensures ValueAt(q, MulBits(g, m, b), x) == Mul(q, ValueAt(q, m[..b], x), ValueAt(q, g, x))
    decreases b
  {
    hide Mul, Add, ValueAt, Pow, Shl;
    var v := ValueAt(q, g, x);
    if b == 0 {
      NoValue(q, g, m, x);
      MulOne(q, v);
    } else {
      ValueMulBits(q, g, m, b - 1, d, x);
      ValuePrefix(q, m, b - 1, x);
      MulDistrib(q, ValueAt(q, m[..b - 1], x), If(m[b - 1], Pow(q, x, b - 1)), v);
      if m[b - 1] {
        ValueXor(q, MulBits(g, m, b - 1), Shl(g, b - 1), x);
        ValueShl(q, g, b - 1, x);
      } else {
        MulOne(q, v);
        AddBasics(Mul(q, ValueAt(q, m[..b - 1], x), v), Zero);
      }
    }
  }

  lemma NoValue(q: E, g: Word, m: Word, x: E)
    ensures ValueAt(q, Zeros(|g|), x) == Zero && ValueAt(q, m[..0], x) == Zero
  {
    EvalZeros(q, Lift2(Zeros(|g|)), x);
    EvalZeros(q, Lift2(m[..0]), x);
  }

  /** `new_g ^= g_full << b` for every bit of the minimal polynomial. */
  method MultiplyIn(g: Word, m: Word) returns (r: Word)
    ensures |r| == |g| && r == MulBits(g, m, |m|)
  {
    hide Xor, Shl;
    r := Zeros(|g|);
    var b := 0;
    while b < |m|
      invariant 0 <= b <= |m| && |r| == |g| && r == MulBits(g, m, b)
    {
      if m[b] {
        r := Xor(r, Shl(g, b));
      }
      b := b + 1;
    }
  }

  // ---- the generator ------------------------------------------------------------------------------------

  /** g is monic of degree nk and alpha^1 .. alpha^(2t) are roots of it. */
  ghost predicate GeneratorOk(q: E, t: nat, g: Word, nk: nat) {
    && |g| == WORD && 8 <= nk <= 80 && HasDegree(g, nk)
    && forall j :: 1 <= j <= 2 * t ==> ValueAt(q, g, Exp(q, j)) == Zero
  }

  /** Every exponent marked seen is the exponent of a root, and marking is closed under doubling. */
  ghost predicate SeenOk(q: E, g: Word, seen: seq<bool>) {
    && |seen| == 255
    && (forall e :: 0 <= e < 255 && seen[e] ==> ValueAt(q, g, Exp(q, e)) == Zero)
    && (forall e :: 0 <= e < 255 && seen[e] ==> seen[(2 * e) % 255])
  }

  /** Mark the members of a coset. */
  function Marked(seen: seq<bool>, coset: seq<nat>): (r: seq<bool>)
    requires |seen| == 255
    ensures |r| == 255 && forall e :: 0 <= e < 255 ==> r[e] == (seen[e] || e in coset)
  {
    seq(255, e requires 0 <= e < 255 => seen[e] || e in coset)
  }

  method Mark(seen: seq<bool>, coset: seq<nat>) returns (r: seq<bool>)
    requires |seen| == 255 && forall k :: 0 <= k < |coset| ==> coset[k] < 255
    ensures r == Marked(seen, coset)
  {
    r := seen;
    var k := 0;
    while k < |coset|
      invariant 0 <= k <= |coset| && |r| == 255
      invariant forall e :: 0 <= e < 255 ==> r[e] == (seen[e] || e in coset[..k])
    {
      r := r[coset[k] := true];
      k := k + 1;
    }
    assert coset[..k] == coset;
  }

  lemma NewRoots(q: E, g: Word, dg: nat, m: Word, coset: seq<nat>, i: nat, seen: seq<bool>)
    requires SeenOk(q, g, seen) && Coset(coset, i) && HasDegree(g, dg)
    requires |m| == |coset| + 1 && Lift2(m) == Product(q, Powers(q, coset)) && dg + |m| <= |g|
    ensures SeenOk(q, MulBits(g, m, |m|), Marked(seen, coset))
  {
    hide Mul, Add, Exp, MulBits, ValueAt, Product, HasDegree;
    var r, s := MulBits(g, m, |m|), Marked(seen, coset);
    forall e | 0 <= e < 255 && s[e] ensures ValueAt(q, r, Exp(q, e)) == Zero {
      ValueOfProduct(q, g, dg, m, coset, e);
      MulOne(q, ValueAt(q, m, Exp(q, e)));
      MulOne(q, ValueAt(q, g, Exp(q, e)));
    }
    forall e | 0 <= e < 255 && s[e] ensures s[(2 * e) % 255] {
      if e in coset { CosetDoubles(coset, i, e); }
    }
  }

  lemma CosetDoubles(coset: seq<nat>, i: nat, e: nat)
    requires Coset(coset, i) && e in coset
    ensures (2 * e) % 255 in coset
  {
    var k :| 0 <= k < |coset| && coset[k] == e;
    if k < |coset| - 1 { assert coset[k + 1] == (2 * e) % 255; }
  }

  lemma ValueOfProduct(q: E, g: Word, dg: nat, m: Word, coset: seq<nat>, e: nat)
    requires HasDegree(g, dg) && |m| == |coset| + 1 && Lift2(m) == Product(q, Powers(q, coset)) && dg + |m| <= |g|
    ensures ValueAt(q, MulBits(g, m, |m|), Exp(q, e)) == Mul(q, ValueAt(q, m, Exp(q, e)), ValueAt(q, g, Exp(q, e)))
    ensures e in coset ==> ValueAt(q, m, Exp(q, e)) == Zero
  {
    hide Mul, Add, Exp, MulBits, Product, HasDegree, Eval;
    ValueMulBits(q, g, m, |m|, dg, Exp(q, e));
    assert m[..|m|] == m;
    if e in coset {
      var k :| 0 <= k < |coset| && coset[k] == e;
      assert Powers(q, coset)[k] == Exp(q, e);
      RootOfProduct(q, Powers(q, coset), Exp(q, e));
    }
  }

  /** Even exponents up to 2t are reached from odd ones below 2t by doubling. */
  lemma {:induction false} EvenOnesToo(seen: seq<bool>, t: nat, j: nat)
    requires |seen| == 255 && 1 <= j <= 2 * t <= 20
    requires forall e :: 0 <= e < 255 && seen[e] ==> seen[(2 * e) % 255]
    requires forall i :: 0 < i < 2 * t && i % 2 == 1 ==> seen[i]
    ensures seen[j]
  {
    if j % 2 == 0 {
      EvenOnesToo(seen, t, j / 2);
      assert seen[(2 * (j / 2)) % 255];
    }
  }

  lemma OneWord(q: E, g: Word, seen: seq<bool>)
    requires g == Zeros(WORD)[0 := true] && seen == seq(255, _ => false)
    ensures HasDegree(g, 0) && SeenOk(q, g, seen)
  {
  }

  lemma AllRoots(q: E, g: Word, t: nat, nk: nat, seen: seq<bool>)
    requires |g| == WORD && 8 <= nk <= 80 && HasDegree(g, nk) && SeenOk(q, g, seen) && t <= MAX_T
    requires forall i :: 0 < i < 2 * t && i % 2 == 1 ==> seen[i]
    ensures GeneratorOk(q, t, g, nk)
  {
    hide ValueAt, Exp;
    forall j | 1 <= j <= 2 * t ensures ValueAt(q, g, Exp(q, j)) == Zero { EvenOnesToo(seen, t, j); }
  }

  // ---- no smaller polynomial would do -----------------------------------------------------------------

  /** Coefficients that are zero or one. */
  predicate Bits01(c: seq<E>) {
    forall i :: 0 <= i < |c| ==> c[i] == Zero || c[i] == One
  }

  /** A bit polynomial's value at x^2 is the square of its value at x. */
  lemma {:induction false} SquareOfValue(q: E, c: seq<E>, x: E)
    requires Bits01(c)
    ensures Eval(q, c, Sq(q, x)) == Sq(q, Eval(q, c, x))
    decreases |c|
  {
    hide Mul, Add;
    MulOne(q, Zero);
    if |c| > 0 {
      SquareOfValue(q, c[1..], x);
      SquareOfSum(q, c[0], Mul(q, x, Eval(q, c[1..], x)));
      SquareOfProduct(q, x, Eval(q, c[1..], x));
      MulOne(q, c[0]);
    }
  }

  /** Roots of a bit polynomial come in cosets. */
  lemma RootDoubles(q: E, h: Word, e: nat)
    requires Primitive(q) && ValueAt(q, h, Exp(q, e)) == Zero
    ensures ValueAt(q, h, Exp(q, (2 * e) % 255)) == Zero
  {
    hide Mul, Exp, Eval, Primitive;
    SquareOfValue(q, Lift2(h), Exp(q, e));
    ExpAdd(q, e, e);
    ExpWraps(q, 2 * e);
    MulOne(q, Zero);
  }

  ghost predicate VanishesUpTo(q: E, h: Word, n: nat) {
    forall j :: 1 <= j <= n ==> ValueAt(q, h, Exp(q, j)) == Zero
  }

  ghost predicate VanishesOn(q: E, h: Word, seen: seq<bool>) {
    forall e :: 0 <= e < |seen| && seen[e] ==> ValueAt(q, h, Exp(q, e)) == Zero
  }

  lemma {:induction false} VanishesOnCoset(q: E, h: Word, c: seq<nat>, i: nat, k: nat)
    requires Primitive(q) && Coset(c, i) && ValueAt(q, h, Exp(q, i)) == Zero && k < |c|
    ensures ValueAt(q, h, Exp(q, c[k])) == Zero
    decreases k
  {
    hide Exp, ValueAt, Primitive;
    if k > 0 {
      VanishesOnCoset(q, h, c, i, k - 1);
      RootDoubles(q, h, c[k - 1]);
      assert c[k - 1 + 1] == (2 * c[k - 1]) % 255;
    }
  }

  /** The marked exponents are forced: every bit polynomial that vanishes at alpha^1 .. alpha^n vanishes there. */
  ghost predicate Forced(q: E, seen: seq<bool>, n: nat) {
    forall h :: VanishesUpTo(q, h, n) ==> VanishesOn(q, h, seen)
  }

  lemma ForcedNext(q: E, seen: seq<bool>, n: nat, c: seq<nat>, i: nat)
    requires Primitive(q) && |seen| == 255 && Forced(q, seen, n) && Coset(c, i) && 1 <= i <= n
    ensures Forced(q, Marked(seen, c), n)
  {
    hide Exp, ValueAt, Primitive;
    forall h | VanishesUpTo(q, h, n) ensures VanishesOn(q, h, Marked(seen, c)) {
      forall e | 0 <= e < 255 && Marked(seen, c)[e] ensures ValueAt(q, h, Exp(q, e)) == Zero {
        if e in c {
          var k :| 0 <= k < |c| && c[k] == e;
          VanishesOnCoset(q, h, c, i, k);
        }
      }
    }
  }

  /** From c[k] on, doubling reaches i. */
  lemma {:induction false} EndsMarked(seen: seq<bool>, c: seq<nat>, i: nat, k: nat)
    requires |seen| == 255 && Coset(c, i) && k < |c| && seen[c[k]]
    requires forall e :: 0 <= e < 255 && seen[e] ==> seen[(2 * e) % 255]
    ensures seen[i]
    decreases |c| - k
  {
    if k < |c| - 1 {
      assert c[k + 1] == (2 * c[k]) % 255;
      EndsMarked(seen, c, i, k + 1);
    }
  }

  /** Equal entries would bring the list back to i early. */
  lemma {:induction false} CosetDistinct(c: seq<nat>, i: nat, a: nat, b: nat)
    requires Coset(c, i) && a < b < |c|
    ensures c[a] != c[b]
    decreases |c| - b
  {
    assert c[a + 1] == (2 * c[a]) % 255;
    if b < |c| - 1 {
      assert c[b + 1] == (2 * c[b]) % 255;
      CosetDistinct(c, i, a + 1, b + 1);
    }
  }

  /** Marking distinct new members raises the count by their number. */
  lemma {:induction false} MarkCounts(seen: seq<bool>, c: seq<nat>)
    requires |seen| == 255 && forall k :: 0 <= k < |c| ==> c[k] < 255 && !seen[c[k]]
    requires forall a, b :: 0 <= a < b < |c| ==> c[a] != c[b]
    ensures Weight(Marked(seen, c)) == Weight(seen) + |c|
    decreases |c|
  {
    hide Weight;
    if |c| == 0 {
      assert Marked(seen, c) == seen;
    } else {
      var d, e := c[..|c| - 1], c[|c| - 1];
      MarkCounts(seen, d);
      assert Marked(seen, c) == Marked(seen, d)[e := true];
      BchDecoder.WeightSet(Marked(seen, d), e);
    }
  }

  lemma CosetCounts(seen: seq<bool>, c: seq<nat>, i: nat)
    requires |seen| == 255 && Coset(c, i) && i < 255 && !seen[i]
    requires forall e :: 0 <= e < 255 && seen[e] ==> seen[(2 * e) % 255]
    ensures Weight(Marked(seen, c)) == Weight(seen) + |c|
  {
    hide Weight;
    forall k | 0 <= k < |c| ensures !seen[c[k]] { if seen[c[k]] { EndsMarked(seen, c, i, k); } }
    forall a, b | 0 <= a < b < |c| ensures c[a] != c[b] { CosetDistinct(c, i, a, b); }
    MarkCounts(seen, c);
  }

  /** alpha^e for the marked exponents from k on. */
  function MarkedPowers(q: E, seen: seq<bool>, k: nat): seq<E>
    requires k <= |seen|
    decreases |seen| - k
  {
    if k == |seen| then [] else (if seen[k] then [Exp(q, k)] else []) + MarkedPowers(q, seen, k + 1)
  }

  /** x is a power of alpha with exponent from k to below n. */
  ghost predicate IsPower(q: E, x: E, k: nat, n: nat) {
    exists e: nat :: k <= e < n && x == Exp(q, e)
  }

  ghost predicate PowersFrom(q: E, x: seq<E>, k: nat, n: nat) {
    forall i :: 0 <= i < |x| ==> IsPower(q, x[i], k, n)
  }

  lemma LaterPower(q: E, x: E, k: nat, n: nat)
    requires Primitive(q) && n <= 255 && IsPower(q, x, k + 1, n)
    ensures x != Exp(q, k) && IsPower(q, x, k, n)
  {
    hide Exp, Primitive;
    var e: nat :| k + 1 <= e < n && x == Exp(q, e);
    ExpInjective(q, k, e);
  }

  lemma NewPower(q: E, y: seq<E>, k: nat, n: nat)
    requires Primitive(q) && k < n <= 255 && PowersFrom(q, y, k + 1, n) && Distinct(y) && NonZero(y)
    ensures PowersFrom(q, [Exp(q, k)] + y, k, n) && Distinct([Exp(q, k)] + y) && NonZero([Exp(q, k)] + y)
    ensures PowersFrom(q, y, k, n)
  {
    hide Exp, Primitive, IsPower;
    ExpNotZeroP(q, k);
    forall i | 0 <= i < |y| ensures y[i] != Exp(q, k) && IsPower(q, y[i], k, n) { LaterPower(q, y[i], k, n); }
    OwnPower(q, k, n);
  }

  lemma OwnPower(q: E, k: nat, n: nat)
    requires k < n
    ensures IsPower(q, Exp(q, k), k, n)
  {
    hide Exp;
  }

  /** Distinct powers, as many as there are marks. */
  lemma {:induction false} MarkedPowersAre(q: E, seen: seq<bool>, k: nat)
    requires Primitive(q) && k <= |seen| <= 255
    ensures |MarkedPowers(q, seen, k)| == Weight(seen[k..])
    ensures Distinct(MarkedPowers(q, seen, k)) && NonZero(MarkedPowers(q, seen, k))
    ensures PowersFrom(q, MarkedPowers(q, seen, k), k, |seen|)
    decreases |seen| - k
  {
    hide Exp, Primitive, PowersFrom, Distinct, NonZero;
    if k < |seen| {
      MarkedPowersAre(q, seen, k + 1);
      var y := MarkedPowers(q, seen, k + 1);
      assert seen[k..][1..] == seen[k + 1..];
      NewPower(q, y, k, |seen|);
      if !seen[k] { assert MarkedPowers(q, seen, k) == y; }
    } else {
      NoPowers(q, k, |seen|);
    }
  }

  lemma NoPowers(q: E, k: nat, n: nat)
    ensures PowersFrom(q, [], k, n) && Distinct([]) && NonZero([])
  {
  }

  lemma {:induction false} MarkedPowersVanish(q: E, seen: seq<bool>, k: nat, h: Word)
    requires k <= |seen| && VanishesOn(q, h, seen)
    ensures Vanishes(q, Lift2(h), MarkedPowers(q, seen, k))
    decreases |seen| - k
  {
    hide Exp, Eval, Lift2;
    if k < |seen| {
      MarkedPowersVanish(q, seen, k + 1, h);
      if seen[k] { assert ValueAt(q, h, Exp(q, k)) == Zero; }
    }
  }

  /** Only the zero polynomial has as many distinct non-zero roots as coefficients. */
  lemma {:induction false} ManyRootsMeansZero(q: E, c: seq<E>, x: seq<E>)
    requires Primitive(q) && Distinct(x) && NonZero(x) && Vanishes(q, c, x) && |x| >= |c|
    ensures AllZero(c)
    decreases |c|
  {
    hide Mul, Add, Primitive, Eval;
    if |c| > 0 {
      RootBound(q, c, x, Zero);
      EvalAtZero(q, c);
      forall i | 0 <= i < |x| ensures Eval(q, c[1..], x[i]) == Zero {
        BchDecoder.EvalHead(q, c, x[i]);
        AddBasics(Mul(q, x[i], Eval(q, c[1..], x[i])), Zero);
        NoZeroDivisors(q, x[i], Eval(q, c[1..], x[i]));
      }
      ManyRootsMeansZero(q, c[1..], x);
      forall i | 0 <= i < |c| ensures c[i] == Zero { if i > 0 { assert c[i] == c[1..][i - 1]; } }
    }
  }

  /** Two polynomials with |x| coefficients that agree at |x| distinct points are equal. */
  lemma AgreeingPolynomials(q: E, a: seq<E>, b: seq<E>, x: seq<E>)
    requires Primitive(q) && |a| == |b| == |x| && Distinct(x) && NonZero(x)
    requires forall k :: 0 <= k < |x| ==> Eval(q, a, x[k]) == Eval(q, b, x[k])
    ensures a == b
  {
    hide Primitive, Mul, Add, Eval;
    forall k | 0 <= k < |x| ensures Eval(q, AddAll(a, b), x[k]) == Zero {
      EvalAdd(q, a, b, x[k]);
      AddBasics(Eval(q, a, x[k]), Eval(q, b, x[k]));
    }
    ManyRootsMeansZero(q, AddAll(a, b), x);
    forall i | 0 <= i < |a| ensures a[i] == b[i] {
      assert AddAll(a, b)[i] == Zero;
      AddBasics(a[i], b[i]);
    }
  }

  /** No non-zero bit polynomial of degree below nk vanishes at alpha^1 .. alpha^(2t). */
  ghost predicate LeastDegree(q: E, t: nat, nk: nat) {
    forall h :: |h| <= nk && VanishesUpTo(q, h, 2 * t) ==> IsZero(h)
  }

  lemma NothingSmaller(q: E, t: nat, nk: nat, seen: seq<bool>)
    requires Primitive(q) && |seen| == 255 && Forced(q, seen, 2 * t) && Weight(seen) == nk
    ensures LeastDegree(q, t, nk)
  {
    hide Exp, Primitive, Weight, MarkedPowers, ValueAt;
    forall h | |h| <= nk && VanishesUpTo(q, h, 2 * t) ensures IsZero(h) {
      MarkedPowersAre(q, seen, 0);
      MarkedPowersVanish(q, seen, 0, h);
      assert seen[0..] == seen;
      ManyRootsMeansZero(q, Lift2(h), MarkedPowers(q, seen, 0));
      OneIsOdd();
      forall i | 0 <= i < |h| ensures !h[i] { assert Lift2(h)[i] == Zero; }
    }
  }

  lemma NoMarks(q: E, seen: seq<bool>, n: nat)
    requires seen == seq(255, _ => false)
    ensures Weight(seen) == 0 && Forced(q, seen, n)
  {
    hide ValueAt, Exp;
    BchDecoder.NoWeight(seen);
  }

  /** Where the generator loop stands at odd exponent i. */
  ghost predicate Building(q: E, t: nat, g: Word, degG: nat, seen: seq<bool>, i: nat) {
    && 1 <= i <= 2 * t + 1 && i % 2 == 1
    && |g| == WORD && HasDegree(g, degG) && SeenOk(q, g, seen)
    && degG <= 4 * (i - 1) && (i > 1 ==> degG >= 8) && (i == 1 ==> seen == seq(255, _ => false))
    && (forall k :: 0 < k < i && k < |seen| && k % 2 == 1 ==> seen[k])
    && Weight(seen) == degG && Forced(q, seen, 2 * t)
  }

  lemma BuildingStarts(q: E, t: nat, g: Word, seen: seq<bool>)
    requires g == Zeros(WORD)[0 := true] && seen == seq(255, _ => false)
    ensures Building(q, t, g, 0, seen, 1)
  {
    hide ValueAt, Exp, Weight, Forced;
    OneWord(q, g, seen);
    NoMarks(q, seen, 2 * t);
  }

  /** Exponent i already covered. */
  lemma BuildingSkips(q: E, t: nat, g: Word, degG: nat, seen: seq<bool>, i: nat)
    requires t <= MAX_T && |seen| == 255 && Building(q, t, g, degG, seen, i) && i < 2 * t && seen[i]
    ensures Building(q, t, g, degG, seen, i + 2)
  {
    hide ValueAt, Exp, Weight, Forced, HasDegree;
  }

  /** Exponent i multiplies its minimal polynomial in. */
  lemma BuildingGrows(q: E, t: nat, g: Word, degG: nat, seen: seq<bool>, i: nat, coset: seq<nat>, m: Word)
    requires Primitive(q) && t <= MAX_T && |seen| == 255 && Building(q, t, g, degG, seen, i) && i < 2 * t && !seen[i]
    requires Coset(coset, i) && (i == 1 ==> |coset| == 8)
    requires |m| == |coset| + 1 && m[|coset|] && Lift2(m) == Product(q, Powers(q, coset))
    ensures Building(q, t, MulBits(g, m, |m|), degG + |coset|, Marked(seen, coset), i + 2)
  {
    hide ValueAt, Exp, Weight, Forced, HasDegree, Product, MulBits, Primitive, Lift2;
    NewRoots(q, g, degG, m, coset, i, seen);
    MulBitsDegree(g, m, degG, |coset|);
    CosetCounts(seen, coset, i);
    ForcedNext(q, seen, 2 * t, coset, i);
  }

  lemma BuildingEnds(q: E, t: nat, g: Word, degG: nat, seen: seq<bool>, i: nat)
    requires Primitive(q) && 1 <= t <= MAX_T && Building(q, t, g, degG, seen, i) && i >= 2 * t
    ensures GeneratorOk(q, t, g, degG) && LeastDegree(q, t, degG)
  {
    hide ValueAt, Exp, Weight, Forced, HasDegree, Primitive, LeastDegree, GeneratorOk;
    AllRoots(q, g, t, degG, seen);
    NothingSmaller(q, t, degG, seen);
  }

  lemma BuildingRange(q: E, t: nat, g: Word, degG: nat, seen: seq<bool>, i: nat)
    requires Building(q, t, g, degG, seen, i)
    ensures |seen| == 255
  {
    hide ValueAt, Exp, Weight, Forced, HasDegree;
  }

  lemma CosetInRange(c: seq<nat>, i: nat)
    requires Coset(c, i)
    ensures 0 < |c| <= 8 && forall k :: 0 <= k < |c| ==> c[k] < 255
  {
  }

  /** The generator loop of `BchCode::new`: every odd exponent below 2t not yet covered multiplies its
      minimal polynomial in. The degree that results is the least possible. */
  method BuildGenerator(q: E, tables: Tables, t: nat) returns (g: Word, degG: nat)
    requires TablesOk(q, tables) && 1 <= t <= MAX_T
    ensures GeneratorOk(q, t, g, degG) && LeastDegree(q, t, degG)
  {
    hide TablesOk, Building, GeneratorOk, LeastDegree, Coset, MulBits, Product, Lift2, Powers, Primitive, Marked;
    PrimitiveTables(q, tables);
    g := Zeros(WORD)[0 := true];
    degG := 0;
    var seen: seq<bool> := seq(255, _ => false);
    BuildingStarts(q, t, g, seen);
    var i := 1;
    while i < 2 * t
      invariant 1 <= i <= 2 * t + 1 && Building(q, t, g, degG, seen, i)
    {
      BuildingRange(q, t, g, degG, seen, i);
      if seen[i] {
        BuildingSkips(q, t, g, degG, seen, i);
      } else {
        var coset := CyclotomicCoset(i);
        CosetInRange(coset, i);
        var minpoly := MinimalPoly(q, tables, coset, i);
        BuildingGrows(q, t, g, degG, seen, i, coset, minpoly);
        seen := Mark(seen, coset);
        g := MultiplyIn(g, minpoly);
        degG := degG + |coset|;
      }
      i := i + 2;
    }
    BuildingEnds(q, t, g, degG, seen, i);
  }
}
