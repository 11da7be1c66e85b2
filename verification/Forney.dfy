/** Forney's formula: with the locator polynomial known, each error value is the error evaluator over the
    derivative of the locator, at the inverse locator. */
module Forney {
  import opened Gf256
  import opened GfOrbit
  import opened GfPoly
  import opened BerlekampMassey
  import opened BchGenerator
  import opened CcsdsCode

  // ---- dividing the locator polynomial by one of its factors ---------------------------------------------------

  /** Coefficient i of c(z) / (1 + x z): the reversed polynomial of the first i + 1 coefficients. */
  function Cofactor(q: E, c: seq<E>, x: E): (r: seq<E>)
    requires |c| > 0
    ensures |r| == |c| - 1
  {
    seq(|c| - 1, i requires 0 <= i < |c| - 1 => Reverse(q, c[..i + 1], x))
  }

  /** c = (1 + x z) times its cofactor, when x's inverse is a root. */
  lemma CofactorDivides(q: E, c: seq<E>, x: E)
    requires |c| > 0 && Reverse(q, c, x) == Zero
    ensures c == AddAll(Cofactor(q, c, x) + [Zero], ScaleBy(q, x, [Zero] + Cofactor(q, c, x)))
  {
    hide Mul, Add, Reverse;
    var f := Cofactor(q, c, x);
    var r := AddAll(f + [Zero], ScaleBy(q, x, [Zero] + f));
    forall i | 0 <= i < |c| ensures c[i] == r[i] {
      assert c[..i + 1] == c[..i] + [c[i]];
      ReverseAppend(q, c[..i], c[i], x);
      var a := Reverse(q, c[..i], x);
      assert (f + [Zero])[i] == if i < |c| - 1 then Reverse(q, c[..i + 1], x) else Zero;
      assert ([Zero] + f)[i] == if i == 0 then Zero else a;
      if i == 0 {
        NoSymbols(q, x);
        assert c[..0] == [];
      }
      if i == |c| - 1 { assert c[..i + 1] == c; }
      // Reverse(c[..i+1]) = x a + c[i]
      AddBasics(Mul(q, x, a), c[i]);
      AddBasics(c[i], Mul(q, x, a));
      MulOne(q, x);
    }
  }

  lemma {:induction false} EvalScale(q: E, f: E, c: seq<E>, z: E)
    ensures Eval(q, ScaleBy(q, f, c), z) == Mul(q, f, Eval(q, c, z))
    decreases |c|
  {
    hide Mul, Add;
    MulOne(q, f);
    if |c| > 0 {
      assert ScaleBy(q, f, c)[1..] == ScaleBy(q, f, c[1..]);
      EvalScale(q, f, c[1..], z);
      Triple(q, z, f, Eval(q, c[1..], z));
      MulDistrib(q, c[0], Mul(q, z, Eval(q, c[1..], z)), f);
    }
  }

  lemma EvalPadded(q: E, c: seq<E>, z: E)
    ensures Eval(q, c + [Zero], z) == Eval(q, c, z) && Eval(q, [Zero] + c, z) == Mul(q, z, Eval(q, c, z))
  {
    hide Mul, Add, Pow;
    EvalAppend(q, c, Zero, z);
    MulOne(q, Pow(q, z, |c|));
    AddBasics(Eval(q, c, z), Zero);
    assert ([Zero] + c)[1..] == c;
    AddBasics(Mul(q, z, Eval(q, c, z)), Zero);
  }

  /** c(z) = (1 + x z) f(z). */
  lemma CofactorValue(q: E, c: seq<E>, x: E, z: E)
    requires |c| > 0 && Reverse(q, c, x) == Zero
    ensures Eval(q, c, z) == Mul(q, Add(One, Mul(q, x, z)), Eval(q, Cofactor(q, c, x), z))
  {
    hide Mul, Add, Eval, Reverse, Cofactor;
    var f := Cofactor(q, c, x);
    CofactorDivides(q, c, x);
    EvalAdd(q, f + [Zero], ScaleBy(q, x, [Zero] + f), z);
    EvalPadded(q, f, z);
    EvalScale(q, x, [Zero] + f, z);
    var v := Eval(q, f, z);
    MulDistrib(q, One, Mul(q, x, z), v);
    MulOne(q, v);
    MulAssoc(q, x, z, v);
  }

  // ---- the formal derivative --------------------------------------------------------------------------------------

  /** The derivative of c at z. */
  function Derivative(q: E, c: seq<E>, z: E): E {
    if |c| == 0 then Zero else Add(Eval(q, c[1..], z), Mul(q, z, Derivative(q, c[1..], z)))
  }

  lemma {:induction false} DerivativeAdd(q: E, a: seq<E>, b: seq<E>, z: E)
    requires |a| == |b|
    ensures Derivative(q, AddAll(a, b), z) == Add(Derivative(q, a, z), Derivative(q, b, z))
    decreases |a|
  {
    hide Mul, Add, Eval;
    AddBasics(Zero, Zero);
    if |a| > 0 {
      assert AddAll(a, b)[1..] == AddAll(a[1..], b[1..]);
      DerivativeAdd(q, a[1..], b[1..], z);
      EvalAdd(q, a[1..], b[1..], z);
      MulDistrib(q, Derivative(q, a[1..], z), Derivative(q, b[1..], z), z);
      AddFour(Eval(q, a[1..], z), Eval(q, b[1..], z),
              Mul(q, z, Derivative(q, a[1..], z)), Mul(q, z, Derivative(q, b[1..], z)));
    }
  }

  lemma {:induction false} DerivativeScale(q: E, f: E, c: seq<E>, z: E)
    ensures Derivative(q, ScaleBy(q, f, c), z) == Mul(q, f, Derivative(q, c, z))
    decreases |c|
  {
    hide Mul, Add, Eval;
    MulOne(q, f);
    if |c| > 0 {
      assert ScaleBy(q, f, c)[1..] == ScaleBy(q, f, c[1..]);
      DerivativeScale(q, f, c[1..], z);
      EvalScale(q, f, c[1..], z);
      Triple(q, z, f, Derivative(q, c[1..], z));
      MulDistrib(q, Eval(q, c[1..], z), Mul(q, z, Derivative(q, c[1..], z)), f);
    }
  }

  lemma {:induction false} DerivativePadded(q: E, c: seq<E>, z: E)
    ensures Derivative(q, c + [Zero], z) == Derivative(q, c, z)
    decreases |c|
  {
    hide Mul, Add, Eval;
    var d := c + [Zero];
    if |c| == 0 {
      assert d[1..] == [];
      NoTerms(q, z);
    } else {
      assert d[1..] == c[1..] + [Zero];
      DerivativePadded(q, c[1..], z);
      EvalPadded(q, c[1..], z);
    }
  }

  lemma NoTerms(q: E, z: E)
    ensures Derivative(q, [Zero], z) == Zero && Derivative(q, [], z) == Zero
  {
    hide Mul, Add;
    assert [Zero][1..] == [];
    MulOne(q, z);
    AddBasics(Zero, Zero);
  }

  /** At the inverse of x the derivative of (1 + x z) f(z) is x f(z). */
  lemma DerivativeAtRoot(q: E, c: seq<E>, x: E, z: E)
    requires |c| > 0 && Reverse(q, c, x) == Zero && Mul(q, x, z) == One
    ensures Derivative(q, c, z) == Mul(q, x, Eval(q, Cofactor(q, c, x), z))
  {
    hide Mul, Add, Eval, Reverse, Cofactor;
    var f := Cofactor(q, c, x);
    CofactorDivides(q, c, x);
    DerivativeAdd(q, f + [Zero], ScaleBy(q, x, [Zero] + f), z);
    DerivativePadded(q, f, z);
    DerivativeScale(q, x, [Zero] + f, z);
    var d, v := Derivative(q, f, z), Eval(q, f, z);
    assert ([Zero] + f)[1..] == f;
    // d + x (v + z d) = d + x v + d
    MulDistrib(q, v, Mul(q, z, d), x);
    MulAssoc(q, x, z, d);
    MulOne(q, d);
    var xv := Mul(q, x, v);
    AddBasics(xv, d);
    AddBasics(d, xv);
    AddAssoc(d, d, xv);
    AddBasics(d, d);
    AddBasics(xv, Zero);
    assert Derivative(q, c, z) == Add(d, Add(xv, d));
  }

  /** The odd coefficients only: what the derivative is in characteristic two. */
  function OddTerms(q: E, c: seq<E>, z: E): E
    decreases |c|
  {
    if |c| < 2 then Zero else Add(c[1], Mul(q, Mul(q, z, z), OddTerms(q, c[2..], z)))
  }

  lemma {:induction false} DerivativeIsOdd(q: E, c: seq<E>, z: E)
    ensures Derivative(q, c, z) == OddTerms(q, c, z)
    decreases |c|
  {
    hide Mul, Add;
    if |c| < 2 {
      if |c| == 1 {
        assert c[1..] == [];
        MulOne(q, z);
        AddBasics(Zero, Zero);
      }
    } else {
      DerivativeIsOdd(q, c[2..], z);
      assert c[1..][1..] == c[2..];
      var e, d := Eval(q, c[2..], z), Derivative(q, c[2..], z);
      assert Eval(q, c[1..], z) == Add(c[1], Mul(q, z, e));
      assert Derivative(q, c[1..], z) == Add(e, Mul(q, z, d));
      MulDistrib(q, e, Mul(q, z, d), z);
      MulAssoc(q, z, z, d);
      var ze, zzd := Mul(q, z, e), Mul(q, z, Mul(q, z, d));
      AddAssoc(c[1], ze, Add(ze, zzd));
      AddAssoc(ze, ze, zzd);
      AddBasics(ze, ze);
      AddBasics(zzd, Zero);
    }
  }

  // ---- the evaluator ------------------------------------------------------------------------------------------------

  /** The evaluator's coefficients: what the recurrence leaves over at the first |x| places. */
  function Evaluator(q: E, c: seq<E>, s: seq<E>, w: nat): (o: seq<E>)
    ensures |o| == w
  {
    seq(w, i requires 0 <= i < w => Discrepancy(q, c, s, i))
  }

  /** Only the coefficients up to i matter at i. */
  lemma {:induction false} DiscrepancyStart(q: E, c: seq<E>, s: seq<E>, n: int, k: nat)
    requires k <= |c| && n < k
    ensures Discrepancy(q, c, s, n) == Discrepancy(q, c[..k], s, n)
    decreases |c|
  {
    hide Mul, Add;
    if |c| > 0 {
      if k == 0 {
        PastTheStart(q, c, s, n);
      } else {
        assert c[..k][1..] == c[1..][..k - 1];
        DiscrepancyStart(q, c[1..], s, n - 1, k - 1);
      }
    }
  }

  lemma {:induction false} PastTheStart(q: E, c: seq<E>, s: seq<E>, n: int)
    requires n < 0
    ensures Discrepancy(q, c, s, n) == Zero
    decreases |c|
  {
    hide Mul, Add;
    if |c| > 0 {
      PastTheStart(q, c[1..], s, n - 1);
      MulOne(q, c[0]);
      AddBasics(Zero, Zero);
    }
  }

  /** Sum over k of y[k] x[k] times the k-th cofactor at z. */
  function Spread(q: E, c: seq<E>, y: seq<E>, x: seq<E>, z: E, n: nat): E
    requires |c| > 0 && |y| == |x| && n < |c|
  {
    if |x| == 0 then Zero
    else Add(Mul(q, Mul(q, y[0], x[0]), Eval(q, Cofactor(q, c, x[0])[..n], z)), Spread(q, c, y[1..], x[1..], z, n))
  }

  /** One more coefficient of every cofactor is one more power sum. */
  lemma {:induction false} SpreadNext(q: E, c: seq<E>, y: seq<E>, x: seq<E>, z: E, n: nat)
    requires |y| == |x| && n + 1 < |c|
    ensures Spread(q, c, y, x, z, n + 1)
         == Add(Spread(q, c, y, x, z, n), Mul(q, PowerSum(q, Residues(q, c[..n + 1], y, x), x, 1), Pow(q, z, n)))
    decreases |x|
  {
    hide Mul, Add, Pow, Eval, Reverse;
    MulOne(q, Pow(q, z, n));
    AddBasics(Zero, Zero);
    if |x| > 0 {
      var f := Cofactor(q, c, x[0]);
      var r := Reverse(q, c[..n + 1], x[0]);
      assert f[..n + 1] == f[..n] + [r];
      EvalAppend(q, f[..n], r, z);
      SpreadNext(q, c, y[1..], x[1..], z, n);
      assert Residues(q, c[..n + 1], y, x)[1..] == Residues(q, c[..n + 1], y[1..], x[1..]);
      PowOne(q, x[0]);
      SpreadHead(q, y[0], x[0], r, Pow(q, z, n), Eval(q, f[..n], z));
      var u, v := Mul(q, Mul(q, y[0], x[0]), Eval(q, f[..n], z)), Mul(q, Mul(q, Mul(q, y[0], r), x[0]), Pow(q, z, n));
      var a := Spread(q, c, y[1..], x[1..], z, n);
      var b := PowerSum(q, Residues(q, c[..n + 1], y[1..], x[1..]), x[1..], 1);
      AddFour(u, v, a, Mul(q, b, Pow(q, z, n)));
      MulDistrib(q, Mul(q, Mul(q, y[0], r), x[0]), b, Pow(q, z, n));
    }
  }

  lemma SpreadHead(q: E, y: E, x: E, r: E, p: E, e: E)
    ensures Mul(q, Mul(q, y, x), Add(e, Mul(q, r, p)))
         == Add(Mul(q, Mul(q, y, x), e), Mul(q, Mul(q, Mul(q, y, r), x), p))
  {
    hide Mul, Add;
    MulDistrib(q, e, Mul(q, r, p), Mul(q, y, x));
    MulAssoc(q, Mul(q, y, x), r, p);
    MulSwap(q, y, x, r);
  }

  lemma {:induction false} SpreadNothing(q: E, c: seq<E>, y: seq<E>, x: seq<E>, z: E)
    requires |c| > 0 && |y| == |x|
    ensures Spread(q, c, y, x, z, 0) == Zero
    decreases |x|
  {
    hide Mul, Add, Cofactor;
    AddBasics(Zero, Zero);
    if |x| > 0 {
      SpreadNothing(q, c, y[1..], x[1..], z);
      assert Cofactor(q, c, x[0])[..0] == [];
      MulOne(q, Mul(q, y[0], x[0]));
    }
  }

  /** The evaluator at z is the spread of the cofactors. */
  lemma {:induction false} EvaluatorSpreads(q: E, c: seq<E>, s: seq<E>, y: seq<E>, x: seq<E>, z: E, n: nat)
    requires |y| == |x| && n < |c| && n <= |s| && forall i :: 0 <= i < n ==> s[i] == PowerSum(q, y, x, i + 1)
    ensures Eval(q, Evaluator(q, c, s, n), z) == Spread(q, c, y, x, z, n)
    decreases n
  {
    hide Mul, Add, Pow, Eval, Discrepancy, PowerSum, Spread, Residues;
    if n == 0 {
      SpreadNothing(q, c, y, x, z);
      EmptyEvaluator(q, c, s, z);
    } else {
      EvaluatorSpreads(q, c, s, y, x, z, n - 1);
      var d := Discrepancy(q, c, s, n - 1);
      assert Evaluator(q, c, s, n) == Evaluator(q, c, s, n - 1) + [d];
      EvalAppend(q, Evaluator(q, c, s, n - 1), d, z);
      DiscrepancyStart(q, c, s, n - 1, n);
      DiscrepancyIsPowerSum(q, c[..n], s, y, x, n - 1);
      SpreadNext(q, c, y, x, z, n - 1);
    }
  }

  lemma EmptyEvaluator(q: E, c: seq<E>, s: seq<E>, z: E)
    ensures Eval(q, Evaluator(q, c, s, 0), z) == Zero
  {
  }

  /** Every cofactor but the m-th vanishes at the m-th inverse locator. */
  lemma OtherCofactorVanishes(q: E, c: seq<E>, x: E, xm: E, z: E)
    requires Primitive(q) && |c| > 0 && Reverse(q, c, x) == Zero && x != xm && Mul(q, xm, z) == One
             && Eval(q, c, z) == Zero
    ensures Eval(q, Cofactor(q, c, x), z) == Zero
  {
    hide Mul, Add, Eval, Reverse, Cofactor, Primitive;
    CofactorValue(q, c, x, z);
    AddBasics(One, Mul(q, x, z));
    if Mul(q, x, z) == One { InverseOfInverse(q, x, xm, z); }
    NoZeroDivisors(q, Add(One, Mul(q, x, z)), Eval(q, Cofactor(q, c, x), z));
  }

  lemma {:induction false} SpreadVanishes(q: E, c: seq<E>, y: seq<E>, x: seq<E>, xm: E, z: E)
    requires Primitive(q) && |c| > 0 && |y| == |x| && Mul(q, xm, z) == One && Eval(q, c, z) == Zero
    requires forall k :: 0 <= k < |x| ==> x[k] != xm && Reverse(q, c, x[k]) == Zero
    ensures Spread(q, c, y, x, z, |c| - 1) == Zero
    decreases |x|
  {
    hide Mul, Add, Eval, Reverse, Cofactor, Primitive;
    AddBasics(Zero, Zero);
    if |x| > 0 {
      OtherCofactorVanishes(q, c, x[0], xm, z);
      var f := Cofactor(q, c, x[0]);
      assert f[..|c| - 1] == f;
      MulOne(q, Mul(q, y[0], x[0]));
      SpreadVanishes(q, c, y[1..], x[1..], xm, z);
    }
  }

  /** Only the m-th term of the spread survives at its inverse locator. */
  lemma {:induction false} SpreadPicks(q: E, c: seq<E>, y: seq<E>, x: seq<E>, m: nat, z: E)
    requires Primitive(q) && |c| > 0 && |y| == |x| && m < |x| && Distinct(x)
    requires Mul(q, x[m], z) == One && Eval(q, c, z) == Zero
    requires forall k :: 0 <= k < |x| ==> Reverse(q, c, x[k]) == Zero
    ensures Spread(q, c, y, x, z, |c| - 1) == Mul(q, Mul(q, y[m], x[m]), Eval(q, Cofactor(q, c, x[m]), z))
    decreases |x|
  {
    hide Mul, Add, Eval, Reverse, Cofactor, Primitive;
    var f := Cofactor(q, c, x[0]);
    assert f[..|c| - 1] == f;
    var head := Mul(q, Mul(q, y[0], x[0]), Eval(q, f, z));
    if m == 0 {
      SpreadVanishes(q, c, y[1..], x[1..], x[0], z);
      AddBasics(head, Zero);
    } else {
      OtherCofactorVanishes(q, c, x[0], x[m], z);
      MulOne(q, Mul(q, y[0], x[0]));
      SpreadPicks(q, c, y[1..], x[1..], m - 1, z);
      AddBasics(Spread(q, c, y[1..], x[1..], z, |c| - 1), Zero);
    }
  }

  /** Forney's formula: the evaluator at the m-th inverse locator is the m-th weight times the derivative
      there. */
  lemma ForneyFormula(q: E, c: seq<E>, s: seq<E>, y: seq<E>, x: seq<E>, m: nat, z: E)
    requires Primitive(q) && |c| == |x| + 1 && |y| == |x| && m < |x| && Distinct(x) && |x| <= |s|
    requires Mul(q, x[m], z) == One && Eval(q, c, z) == Zero
    requires forall k :: 0 <= k < |x| ==> Reverse(q, c, x[k]) == Zero
    requires forall i :: 0 <= i < |x| ==> s[i] == PowerSum(q, y, x, i + 1)
    ensures Eval(q, Evaluator(q, c, s, |x|), z) == Mul(q, y[m], Derivative(q, c, z))
  {
    hide Mul, Add, Eval, Reverse, Cofactor, Primitive, Spread, Evaluator, Derivative, PowerSum;
    EvaluatorSpreads(q, c, s, y, x, z, |x|);
    SpreadPicks(q, c, y, x, m, z);
    DerivativeAtRoot(q, c, x[m], z);
    MulAssoc(q, y[m], x[m], Eval(q, Cofactor(q, c, x[m]), z));
  }

  /** The derivative does not vanish at an inverse locator: the roots are simple. */
  lemma SimpleRoots(q: E, c: seq<E>, x: seq<E>, zs: seq<E>, m: nat)
    requires Primitive(q) && |c| == |x| + 1 == |zs| + 1 && m < |x| && Distinct(x) && Distinct(zs) && c[0] == One
    requires forall k :: 0 <= k < |x| ==> Mul(q, x[k], zs[k]) == One && Eval(q, c, zs[k]) == Zero
    requires Reverse(q, c, x[m]) == Zero && x[m] != Zero
    ensures Derivative(q, c, zs[m]) != Zero
  {
    hide Mul, Add, Eval, Reverse, Primitive, Derivative;
    var f := Cofactor(q, c, x[m]);
    DerivativeAtRoot(q, c, x[m], zs[m]);
    NoZeroDivisors(q, x[m], Eval(q, f, zs[m]));
    if Eval(q, f, zs[m]) == Zero {
      forall k | 0 <= k < |zs| ensures Eval(q, f, zs[k]) == Zero {
        if k != m { OtherCofactorVanishes(q, c, x[m], x[k], zs[k]); }
      }
      CofactorStarts(q, c, x[m]);
      RootsAtMost(q, f, zs);
    }
  }

  lemma CofactorStarts(q: E, c: seq<E>, x: E)
    requires |c| > 1
    ensures Cofactor(q, c, x)[0] == c[0]
  {
    hide Mul, Add;
    var d := c[..1];
    assert d[0] == c[0] && d[1..] == [] && Pow(q, x, 0) == One;
    assert Reverse(q, d, x) == Add(Mul(q, d[0], Pow(q, x, 0)), Reverse(q, d[1..], x));
    MulOne(q, c[0]);
    AddBasics(c[0], Zero);
  }
}
