/** The generator for one error is the field polynomial: it has exactly the terms of x^8 + x^4 + x^3 + x^2 + 1. */
module BchSingle {
  import opened Bits
  import opened Gf256
  import opened GfOrbit
  import opened GfPoly
  import opened BchGenerator
  import opened BchDecoder

  lemma AlphaTimes(q: E, a: E)
    ensures Mul(q, Exp(q, 1), a) == X(q, a)
  {
    hide X, Mul;
    assert Exp(q, 0) == One && Exp(q, 1) == X(q, Exp(q, 0));
    MulLinear(q, One, Zero, a);
    MulOne(q, a);
  }

  lemma ValueHead(q: E, w: Word, x: E)
    requires |w| > 0
    ensures ValueAt(q, w, x) == Add(If(w[0], One), Mul(q, x, ValueAt(q, w[1..], x)))
  {
    hide Mul, Add;
    assert Lift2(w)[1..] == Lift2(w[1..]);
  }

  /** A bit polynomial of at most eight terms has its own bits as its value at alpha. */
  lemma {:induction false} ShortValue(q: E, w: Word)
    requires |w| <= 8
    ensures forall i :: 0 <= i < 8 ==> ValueAt(q, w, Exp(q, 1))[i] == (i < |w| && w[i])
    decreases |w|
  {
    hide Mul, Eval, Exp, ValueAt;
    if |w| == 0 {
      EmptyValue(q, w);
    } else {
      var v := ValueAt(q, w[1..], Exp(q, 1));
      ShortValue(q, w[1..]);
      ValueHead(q, w, Exp(q, 1));
      AlphaTimes(q, v);
      assert !v[7];
    }
  }

  lemma EmptyValue(q: E, w: Word)
    requires |w| == 0
    ensures ValueAt(q, w, Exp(q, 1)) == Zero
  {
  }

  /** One of degree eight vanishes at alpha exactly when its lower bits are those of the field polynomial. */
  lemma NineBits(q: E, w: Word)
    requires |w| == 9 && w[8]
    ensures ValueAt(q, w, Exp(q, 1)) == Zero <==> w[..8] == q
  {
    hide Mul, Eval, Exp, ValueAt;
    var v := ValueAt(q, w[1..], Exp(q, 1));
    ShortValue(q, w[1..]);
    ValueHead(q, w, Exp(q, 1));
    AlphaTimes(q, v);
    assert forall i :: 0 <= i < 8 ==> v[i] == w[i + 1];
    var u := ValueAt(q, w, Exp(q, 1));
    assert forall i :: 0 <= i < 8 ==> u[i] == (w[i] != q[i]);
    if w[..8] == q { assert forall i :: 0 <= i < 8 ==> w[i] == w[..8][i]; }
    if u == Zero { assert forall i :: 0 <= i < 8 ==> !u[i]; }
  }

  lemma ValueTrims(q: E, g: Word, n: nat, x: E)
    requires n <= |g| && forall i :: n <= i < |g| ==> !g[i]
    ensures ValueAt(q, g, x) == ValueAt(q, g[..n], x)
    decreases |g|
  {
    hide Mul, Add, Eval;
    if n == |g| {
      assert g[..n] == g;
    } else {
      var m := |g| - 1;
      assert g[..m][..n] == g[..n];
      ValueTrims(q, g[..m], n, x);
      ValuePrefix(q, g, m, x);
      assert g[..m + 1] == g;
      AddBasics(ValueAt(q, g[..m], x), Zero);
    }
  }

  /** The field polynomial vanishes at alpha and at its square. */
  lemma FieldVanishes(h: Word)
    requires h == FIELD + [true]
    ensures |h| == 9 && VanishesUpTo(FIELD, h, 2) && !IsZero(h)
  {
    hide Poly, ValueAt, Exp, Primitive;
    BothPrimitive(true);
    assert h[8] && h[..8] == FIELD;
    NineBits(FIELD, h);
    RootDoubles(FIELD, h, 1);
  }

  /** Whatever meets the generator's contract for t = 1 is the field polynomial. */
  lemma GeneratorForOne(g: Word, nk: nat)
    requires GeneratorOk(FIELD, 1, g, nk) && LeastDegree(FIELD, 1, nk)
    ensures nk == 8 && forall i: nat :: i < |g| ==> (g[i] <==> i in {0, 2, 3, 4, 8})
  {
    hide Poly, ValueAt, Exp, VanishesUpTo;
    FieldVanishes(FIELD + [true]);
    assert nk == 8;
    var w := g[..9];
    ValueTrims(FIELD, g, 9, Exp(FIELD, 1));
    NineBits(FIELD, w);
    NineFieldBits(w);
  }

  lemma NineFieldBits(w: Word)
    requires |w| == 9 && w[8] && w[..8] == FIELD
    ensures forall i: nat :: i < 9 ==> (w[i] <==> i in {0, 2, 3, 4, 8})
  {
    hide Poly;
    FieldBits();
    assert forall i :: 0 <= i < 8 ==> w[i] == w[..8][i];
  }

  lemma FieldBits()
    ensures forall i :: 0 <= i < 8 ==> (FIELD[i] <==> i in {0, 2, 3, 4})
  {
  }
}
