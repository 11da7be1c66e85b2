/** What the CCSDS generator is: there is only one polynomial that meets its contract, it reads the same
    backwards, and its first coefficient below the leading one is alpha^249, the one of the standard. */
module CcsdsGenerator {
  import opened Gf256
  import opened GfOrbit
  import opened GfPoly
  import opened BchGenerator
  import opened CcsdsCode
  import opened CcsdsErrors

  // ---- only one generator ------------------------------------------------------------------------------------

  lemma RootsDiffer()
    requires Primitive(Q)
    ensures Distinct(Roots(NROOTS)) && NonZero(Roots(NROOTS))
  {
    hide Primitive, Poly, Exp;
    forall i, j | 0 <= i < j < NROOTS ensures Roots(NROOTS)[i] != Roots(NROOTS)[j] { PlacesDiffer(FCR + i, FCR + j); }
    forall i | 0 <= i < NROOTS ensures Roots(NROOTS)[i] != Zero { ExpNotZeroP(Q, PRIM * (FCR + i)); }
  }

  /** Polynomials of degree 32 with one leading coefficient and the 32 roots are the same. */
  lemma SameTopSameGenerator(g: seq<E>, h: seq<E>)
    requires Primitive(Q) && |g| == |h| == NROOTS + 1 && g[NROOTS] == h[NROOTS]
    requires forall i :: 0 <= i < NROOTS ==> Eval(Q, g, Root(i)) == Zero && Eval(Q, h, Root(i)) == Zero
    ensures g == h
  {
    hide Primitive, Poly, Mul, Add, Eval, Root, Pow;
    var x, a, b := Roots(NROOTS), g[..NROOTS], h[..NROOTS];
    assert g == a + [g[NROOTS]] && h == b + [g[NROOTS]];
    RootsDiffer();
    forall k | 0 <= k < NROOTS ensures Eval(Q, a, x[k]) == Eval(Q, b, x[k]) {
      var top := Mul(Q, g[NROOTS], Pow(Q, x[k], NROOTS));
      EvalAppend(Q, a, g[NROOTS], x[k]);
      EvalAppend(Q, b, g[NROOTS], x[k]);
      assert x[k] == Root(k);
      AddBasics(Eval(Q, a, x[k]), top);
      AddBasics(Eval(Q, b, x[k]), top);
    }
    AgreeingPolynomials(Q, a, b, x);
  }

  lemma OneGenerator(g: seq<E>, h: seq<E>)
    requires CcsdsCode.GeneratorOk(g) && CcsdsCode.GeneratorOk(h)
    ensures g == h
  {
    hide Poly, Eval, Root;
    BothPrimitive(false);
    SameTopSameGenerator(g, h);
  }

  // ---- backwards ---------------------------------------------------------------------------------------------

  lemma {:induction false} EvalScale(q: E, f: E, c: seq<E>, x: E)
    ensures Eval(q, ScaleBy(q, f, c), x) == Mul(q, f, Eval(q, c, x))
    decreases |c|
  {
    hide Mul, Add;
    MulOne(q, f);
    if |c| > 0 {
      assert ScaleBy(q, f, c)[1..] == ScaleBy(q, f, c[1..]);
      EvalScale(q, f, c[1..], x);
      Triple(q, f, x, Eval(q, c[1..], x));
      MulDistrib(q, c[0], Mul(q, x, Eval(q, c[1..], x)), f);
    }
  }

  /** The inverse of a root is a root. */
  lemma RootsInvert(i: nat)
    requires Primitive(Q) && i < NROOTS
    ensures Mul(Q, Root(i), Root(NROOTS - 1 - i)) == One
  {
    hide Primitive, Poly, Exp, Mul;
    ExpAdd(Q, PRIM * (FCR + i), PRIM * (FCR + NROOTS - 1 - i));
    assert PRIM * (FCR + i) + PRIM * (FCR + NROOTS - 1 - i) == 11 * 255;
    ExpWraps(Q, 11 * 255);
    NothingToPower();
  }

  lemma NothingToPower()
    ensures Exp(Q, 0) == One && (11 * 255) % 255 == 0
  {
  }

  /** The coefficients in reverse order have the inverse roots, and these are the roots. */
  lemma BackwardsVanishes(g: seq<E>, i: nat)
    requires Primitive(Q) && CcsdsCode.GeneratorOk(g) && i < NROOTS
    ensures Eval(Q, Falling(g, |g|), Root(i)) == Zero
  {
    hide Primitive, Poly, Mul, Eval, Root, Reverse, Pow;
    var f, x, y := Falling(g, |g|), Root(NROOTS - 1 - i), Root(i);
    RootsInvert(i);
    MulComm(Q, x, y);
    FallingValue(Q, g, |g|, x);
    assert g[..|g|] == g;
    ReverseIsEval(Q, f, x, y);
    RootNotZero(NROOTS - 1 - i);
    PowNonZero(Q, x, |f| - 1);
    NoZeroDivisors(Q, Pow(Q, x, |f| - 1), Eval(Q, f, y));
  }

  lemma RootNotZero(i: nat)
    requires Primitive(Q)
    ensures Root(i) != Zero
  {
    hide Primitive, Poly, Exp;
    ExpNotZeroP(Q, PRIM * (FCR + i));
  }

  /** The generator is its own reversal. Among starting exponents below 255 only 112 makes it so. */
  lemma GeneratorIsPalindrome(g: seq<E>)
    requires CcsdsCode.GeneratorOk(g)
    ensures forall j :: 0 <= j <= NROOTS ==> g[j] == g[NROOTS - j]
  {
    hide Poly, Mul, Add, Eval, Root, Reverse, Pow;
    BothPrimitive(false);
    var f := Falling(g, |g|);
    var h := ScaleBy(Q, g[0], g);
    forall i | 0 <= i < NROOTS ensures Eval(Q, f, Root(i)) == Zero && Eval(Q, h, Root(i)) == Zero {
      BackwardsVanishes(g, i);
      EvalScale(Q, g[0], g, Root(i));
      MulOne(Q, g[0]);
    }
    MulOne(Q, g[0]);
    SameTopSameGenerator(f, h);
    assert f[0] == One && f[0] == Mul(Q, g[0], g[0]);
    SquareRootOfOne(Q, g[0]);
    forall j | 0 <= j <= NROOTS ensures g[j] == g[NROOTS - j] {
      MulOne(Q, g[j]);
      assert f[j] == h[j];
    }
  }

  lemma SquareRootOfOne(q: E, a: E)
    requires Primitive(q) && Mul(q, a, a) == One
    ensures a == One
  {
    hide Primitive, Mul, Add;
    MulDistrib(q, a, One, Add(a, One));
    MulDistrib(q, a, One, a);
    MulOne(q, a);
    MulOne(q, Add(a, One));
    MulComm(q, a, Add(a, One));
    AddBasics(One, a);
    AddBasics(Add(a, One), Add(a, One));
    AddBasics(a, One);
    NoZeroDivisors(q, Add(a, One), Add(a, One));
  }

  // ---- the coefficient below the leading one -------------------------------------------------------------------

  function Total(a: seq<E>): E {
    if |a| == 0 then Zero else Add(Total(a[..|a| - 1]), a[|a| - 1])
  }

  /** In a product of linear factors it is the sum of the roots. */
  lemma {:induction false} SecondIsTotal(q: E, a: seq<E>)
    requires |a| > 0
    ensures Product(q, a)[|a| - 1] == Total(a)
    decreases |a|
  {
    hide Mul, Add;
    var rest, last, n := a[..|a| - 1], a[|a| - 1], |a| - 1;
    var p := Product(q, rest);
    ProductIsMonic(q, rest);
    MulOne(q, last);
    assert Product(q, a)[n] == TimesAt(q, p, last, n) == Add(At(p, n - 1), last);
    if n > 0 {
      SecondIsTotal(q, rest);
    }
  }

  /** A geometric sum. */
  lemma {:induction false} TotalTimes(n: nat)
    requires Primitive(Q)
    ensures Mul(Q, Total(Roots(n)), Add(Exp(Q, PRIM), One)) == Add(Root(0), Root(n))
    decreases n
  {
    hide Primitive, Poly, Mul, Add, Exp, Total;
    var b := Add(Exp(Q, PRIM), One);
    if n == 0 {
      NoTotal();
      MulOne(Q, b);
      AddBasics(Root(0), Root(0));
    } else {
      TotalTimes(n - 1);
      NextTotal(n);
      var s, r := Total(Roots(n - 1)), Root(n - 1);
      MulDistrib(Q, s, r, b);
      MulComm(Q, r, b);
      MulDistrib(Q, Exp(Q, PRIM), One, r);
      ExpAdd(Q, PRIM, PRIM * (FCR + n - 1));
      MulOne(Q, r);
      AddBasics(Root(n), r);
      AddAssoc(Root(0), r, Add(r, Root(n)));
      AddAssoc(r, r, Root(n));
      AddBasics(r, Root(n));
      AddBasics(Root(n), Zero);
    }
  }

  lemma NoTotal()
    ensures Total(Roots(0)) == Zero
  {
  }

  lemma NextTotal(n: nat)
    requires n > 0
    ensures Total(Roots(n)) == Add(Total(Roots(n - 1)), Root(n - 1))
  {
    hide Exp, Poly;
    assert Roots(n)[..n - 1] == Roots(n - 1);
  }

  // ---- four powers of alpha --------------------------------------------------------------------------------------

  lemma Powers()
    ensures Is(Exp(Q, 5), 0x20) && Is(Exp(Q, 54), 0x6E) && Is(Exp(Q, 212), 0x15) && Is(Exp(Q, 249), 0x5B)
  {
    hide Exp, X, Poly, Is, XByte, XByte4, Stop;
    PolyIsLow(false);
    SomeStops();
    SomeSteps();
    OneStep(5);
    OneStep(52);
    OneStep(53);
    OneStep(54);
    OneStep(247);
    OneStep(248);
    OneStep(249);
    StopsOnTheWay(false, 3);
    StopsOnTheWay(false, 12);
    StopsOnTheWay(false, 14);
    FourOn(Q, 0, 0x87, 0x01);
    XOfByte(Q, Exp(Q, 4), 0x87, 0x10);
    XOfByte(Q, Exp(Q, 51), 0x87, 0x6C);
    XOfByte(Q, Exp(Q, 52), 0x87, 0xD8);
    XOfByte(Q, Exp(Q, 53), 0x87, 0x37);
    FourOn(Q, 204, 0x87, 0xC7);
    FourOn(Q, 208, 0x87, 0x48);
    FourOn(Q, 238, 0x87, 0x6D);
    FourOn(Q, 242, 0x87, 0xCC);
    XOfByte(Q, Exp(Q, 246), 0x87, 0xF8);
    XOfByte(Q, Exp(Q, 247), 0x87, 0x77);
    XOfByte(Q, Exp(Q, 248), 0x87, 0xEE);
  }

  lemma OneStep(k: nat)
    requires k > 0
    ensures Exp(Q, k) == X(Q, Exp(Q, k - 1))
  {
  }

  lemma SomeStops()
    ensures Low(false) == 0x87
    ensures Stop(false, 3) == 0x6C && Stop(false, 12) == 0xC7 && Stop(false, 14) == 0x6D
  {
  }

  lemma SomeSteps()
    ensures XByte4(0x87, 0x01) == 0x10 && XByte(0x87, 0x10) == 0x20
    ensures XByte(0x87, 0x6C) == 0xD8 && XByte(0x87, 0xD8) == 0x37 && XByte(0x87, 0x37) == 0x6E
    ensures XByte4(0x87, 0xC7) == 0x48 && XByte4(0x87, 0x48) == 0x15
    ensures XByte4(0x87, 0x6D) == 0xCC && XByte4(0x87, 0xCC) == 0xF8
    ensures XByte(0x87, 0xF8) == 0x77 && XByte(0x87, 0x77) == 0xEE && XByte(0x87, 0xEE) == 0x5B
  {
  }

  lemma BytesAdd(a: E, b: E, c: E, d: E)
    requires Is(a, 0x20) && Is(b, 0x5B) && Is(c, 0x15) && Is(d, 0x6E)
    ensures Add(a, b) == Add(c, d)
  {
    assert forall i :: 0 <= i < 8 ==> Add(a, b)[i] == Add(c, d)[i];
  }

  /** The generator's coefficient of x^31, and so that of x, is alpha^249. */
  lemma SecondCoefficient(g: seq<E>)
    requires CcsdsCode.GeneratorOk(g)
    ensures g[NROOTS - 1] == g[1] == Exp(Q, 249)
  {
    hide Poly, Mul, Add, Eval, Exp, Product, Total, Root, Is;
    BothPrimitive(false);
    GeneratorIsPalindrome(g);
    var p := Product(Q, Roots(NROOTS));
    ProductVanishes(p, NROOTS);
    OneGenerator(g, p);
    SecondIsTotal(Q, Roots(NROOTS));
    TotalIs();
  }

  lemma TotalIs()
    requires Primitive(Q)
    ensures Total(Roots(NROOTS)) == Exp(Q, 249)
  {
    hide Primitive, Poly, Mul, Add, Exp, Total, Is;
    var s, t, b := Total(Roots(NROOTS)), Exp(Q, 249), Add(Exp(Q, PRIM), One);
    TotalTimes(NROOTS);
    ExpWraps(Q, 1232);
    ExpWraps(Q, 1584);
    ExpWraps(Q, 260);
    Powers();
    BytesAdd(Exp(Q, 5), Exp(Q, 249), Exp(Q, 212), Exp(Q, 54));
    MulComm(Q, t, b);
    MulDistrib(Q, Exp(Q, PRIM), One, t);
    ExpAdd(Q, PRIM, 249);
    MulOne(Q, t);
    MulComm(Q, s, b);
    MulDistrib(Q, s, t, b);
    AddBasics(Mul(Q, s, b), Mul(Q, t, b));
    MulComm(Q, Add(s, t), b);
    BetaIsNotOne();
    AddBasics(Exp(Q, PRIM), One);
    NoZeroDivisors(Q, Add(s, t), b);
    AddBasics(s, t);
  }

  lemma BetaIsNotOne()
    requires Primitive(Q)
    ensures Exp(Q, PRIM) != One
  {
    hide Primitive, Poly, Exp;
    PlacesDiffer(0, 1);
    NothingToPower();
  }
}
