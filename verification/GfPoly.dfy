/** Polynomials and power sums over GF(2^8): evaluation, the root bound, and the independence of
    power sums at distinct points. Everything the algebraic decoders rest on. */
module GfPoly {
  import opened Gf256
  import opened GfOrbit

  function Pow(q: E, x: E, e: nat): E {
    if e == 0 then One else Mul(q, x, Pow(q, x, e - 1))
  }

  /** c[0] + c[1] x + c[2] x^2 + .. */
  function Eval(q: E, c: seq<E>, x: E): E {
    if |c| == 0 then Zero else Add(c[0], Mul(q, x, Eval(q, c[1..], x)))
  }

  /** The same coefficients read from the other end: c[0] x^d + c[1] x^(d-1) + .. + c[d]. */
  function Reverse(q: E, c: seq<E>, x: E): E {
    if |c| == 0 then Zero else Add(Mul(q, c[0], Pow(q, x, |c| - 1)), Reverse(q, c[1..], x))
  }

  /** r[0] x[0]^e + r[1] x[1]^e + .. */
  function PowerSum(q: E, r: seq<E>, x: seq<E>, e: nat): E
    requires |r| == |x|
  {
    if |r| == 0 then Zero else Add(Mul(q, r[0], Pow(q, x[0], e)), PowerSum(q, r[1..], x[1..], e))
  }

  predicate Distinct(x: seq<E>) {
    forall i, j :: 0 <= i < j < |x| ==> x[i] != x[j]
  }

  predicate NonZero(x: seq<E>) {
    forall i :: 0 <= i < |x| ==> x[i] != Zero
  }

  predicate AllZero(x: seq<E>) {
    forall i :: 0 <= i < |x| ==> x[i] == Zero
  }

  // ---- identities between a few products ----------------------------------------------------------

  lemma Triple(q: E, a: E, b: E, c: E)
    ensures Mul(q, a, Mul(q, b, c)) == Mul(q, b, Mul(q, a, c)) == Mul(q, Mul(q, a, b), c)
  {
    hide Mul;
    MulAssoc(q, a, b, c);
    MulAssoc(q, b, a, c);
    MulComm(q, a, b);
  }

  lemma ScaleTerm(q: E, r: E, x: E, c: E, p: E)
    ensures Mul(q, Mul(q, r, Add(x, c)), p) == Add(Mul(q, r, Mul(q, x, p)), Mul(q, c, Mul(q, r, p)))
  {
    hide Mul, Add;
    MulAssoc(q, r, Add(x, c), p);
    MulDistrib(q, x, c, p);
    MulDistrib(q, Mul(q, x, p), Mul(q, c, p), r);
    Triple(q, r, c, p);
  }

  lemma AddFour(a: E, b: E, c: E, d: E)
    ensures Add(Add(a, b), Add(c, d)) == Add(Add(a, c), Add(b, d))
  {
    AddMiddle(a, b, c, d);
  }

  lemma {:induction false} PowAdd(q: E, x: E, i: nat, j: nat)
    ensures Pow(q, x, i + j) == Mul(q, Pow(q, x, i), Pow(q, x, j))
    decreases i
  {
    hide Mul;
    MulOne(q, Pow(q, x, j));
    if i > 0 {
      PowAdd(q, x, i - 1, j);
      MulAssoc(q, x, Pow(q, x, i - 1), Pow(q, x, j));
    }
  }

  lemma PowOne(q: E, x: E)
    ensures Pow(q, x, 1) == x
  {
    hide Mul;
    assert Pow(q, x, 0) == One;
    MulOne(q, x);
  }

  lemma {:induction false} PowNonZero(q: E, x: E, e: nat)
    requires Primitive(q) && x != Zero
    ensures Pow(q, x, e) != Zero
  {
    hide Mul, Primitive;
    if e == 0 { OneIsOdd(); } else {
      PowNonZero(q, x, e - 1);
      NoZeroDivisors(q, x, Pow(q, x, e - 1));
    }
  }

  // ---- power sums are linear in their weights ---------------------------------------------------

  /** Every weight times (its point + c). */
  function Scale(q: E, r: seq<E>, x: seq<E>, c: E): (s: seq<E>)
    requires |r| == |x|
    ensures |s| == |r|
  {
    seq(|r|, k requires 0 <= k < |r| => Mul(q, r[k], Add(x[k], c)))
  }

  lemma {:induction false} PowerSumScale(q: E, r: seq<E>, x: seq<E>, c: E, e: nat)
    requires |r| == |x|
    ensures PowerSum(q, Scale(q, r, x, c), x, e) == Add(PowerSum(q, r, x, e + 1), Mul(q, c, PowerSum(q, r, x, e)))
    decreases |r|
  {
    hide Mul, Add;
    if |r| == 0 {
      MulOne(q, c);
      AddBasics(Zero, Zero);
    } else {
      assert Scale(q, r, x, c)[1..] == Scale(q, r[1..], x[1..], c);
      PowerSumScale(q, r[1..], x[1..], c, e);
      ScaleTerm(q, r[0], x[0], c, Pow(q, x[0], e));
      var p, s := PowerSum(q, r[1..], x[1..], e + 1), PowerSum(q, r[1..], x[1..], e);
      AddFour(Mul(q, r[0], Pow(q, x[0], e + 1)), Mul(q, c, Mul(q, r[0], Pow(q, x[0], e))), p, Mul(q, c, s));
      MulDistrib(q, Mul(q, r[0], Pow(q, x[0], e)), s, c);
    }
  }

  /** Independence: weights whose power sums vanish for |x| consecutive exponents are all zero. */
  lemma {:induction false} Independent(q: E, r: seq<E>, x: seq<E>, e: nat)
    requires Primitive(q) && |r| == |x| && Distinct(x) && NonZero(x)
    requires forall i :: e <= i < e + |x| ==> PowerSum(q, r, x, i) == Zero
    ensures AllZero(r)
    decreases |r|
  {
    hide Mul, Add, Primitive, PowerSum;
    if |r| > 0 {
      var c := x[0];
      var s := Scale(q, r, x, c);
      AddBasics(c, c);
      MulOne(q, r[0]);
      forall i | e <= i < e + |x| - 1 ensures PowerSum(q, s[1..], x[1..], i) == Zero {
        PowerSumScale(q, r, x, c, i);
        MulOne(q, c);
        AddBasics(Zero, Zero);
        DropZeroHead(q, s, x, i);
      }
      Independent(q, s[1..], x[1..], e);
      forall k | 1 <= k < |r| ensures r[k] == Zero {
        assert s[1..][k - 1] == Mul(q, r[k], Add(x[k], c));
        NoZeroDivisors(q, r[k], Add(x[k], c));
        AddBasics(x[k], c);
      }
      LastWeight(q, r, x, e);
    }
  }

  lemma DropZeroHead(q: E, r: seq<E>, x: seq<E>, e: nat)
    requires |r| == |x| > 0 && r[0] == Zero
    ensures PowerSum(q, r, x, e) == PowerSum(q, r[1..], x[1..], e)
  {
    hide Mul, Add;
    MulOne(q, Pow(q, x[0], e));
    AddBasics(PowerSum(q, r[1..], x[1..], e), Zero);
  }

  lemma {:induction false} ZeroWeights(q: E, r: seq<E>, x: seq<E>, e: nat)
    requires |r| == |x| && AllZero(r)
    ensures PowerSum(q, r, x, e) == Zero
    decreases |r|
  {
    if |r| > 0 {
      DropZeroHead(q, r, x, e);
      ZeroWeights(q, r[1..], x[1..], e);
    }
  }

  lemma LastWeight(q: E, r: seq<E>, x: seq<E>, e: nat)
    requires Primitive(q) && |r| == |x| > 0 && AllZero(r[1..]) && x[0] != Zero
    requires PowerSum(q, r, x, e) == Zero
    ensures r[0] == Zero
  {
    hide Mul, Add, Primitive;
    ZeroWeights(q, r[1..], x[1..], e);
    AddBasics(Mul(q, r[0], Pow(q, x[0], e)), Zero);
    PowNonZero(q, x[0], e);
    NoZeroDivisors(q, r[0], Pow(q, x[0], e));
  }

  function AddAll(a: seq<E>, b: seq<E>): (s: seq<E>)
    requires |a| == |b|
    ensures |s| == |a|
  {
    seq(|a|, k requires 0 <= k < |a| => Add(a[k], b[k]))
  }

  lemma {:induction false} PowerSumAdd(q: E, a: seq<E>, b: seq<E>, x: seq<E>, e: nat)
    requires |a| == |b| == |x|
    ensures PowerSum(q, AddAll(a, b), x, e) == Add(PowerSum(q, a, x, e), PowerSum(q, b, x, e))
    decreases |a|
  {
    hide Mul, Add;
    AddBasics(Zero, Zero);
    if |a| > 0 {
      assert AddAll(a, b)[1..] == AddAll(a[1..], b[1..]);
      PowerSumAdd(q, a[1..], b[1..], x[1..], e);
      MulDistrib(q, a[0], b[0], Pow(q, x[0], e));
      AddFour(Mul(q, a[0], Pow(q, x[0], e)), Mul(q, b[0], Pow(q, x[0], e)),
              PowerSum(q, a[1..], x[1..], e), PowerSum(q, b[1..], x[1..], e));
    }
  }

  /** Every weight times c times (its point)^d. */
  function Lift(q: E, y: seq<E>, x: seq<E>, c: E, d: nat): (s: seq<E>)
    requires |y| == |x|
    ensures |s| == |y|
  {
    seq(|y|, k requires 0 <= k < |y| => Mul(q, y[k], Mul(q, c, Pow(q, x[k], d))))
  }

  lemma LiftTerm(q: E, y: E, x: E, c: E, d: nat, e: nat)
    ensures Mul(q, Mul(q, y, Mul(q, c, Pow(q, x, d))), Pow(q, x, e)) == Mul(q, c, Mul(q, y, Pow(q, x, d + e)))
  {
    hide Mul, Pow;
    PowAdd(q, x, d, e);
    Triple(q, y, c, Pow(q, x, d));
    MulAssoc(q, c, Mul(q, y, Pow(q, x, d)), Pow(q, x, e));
    MulAssoc(q, y, Pow(q, x, d), Pow(q, x, e));
  }

  lemma {:induction false} PowerSumLift(q: E, y: seq<E>, x: seq<E>, c: E, d: nat, e: nat)
    requires |y| == |x|
    ensures PowerSum(q, Lift(q, y, x, c, d), x, e) == Mul(q, c, PowerSum(q, y, x, d + e))
    decreases |y|
  {
    hide Mul, Add, Pow;
    MulOne(q, c);
    if |y| > 0 {
      assert Lift(q, y, x, c, d)[1..] == Lift(q, y[1..], x[1..], c, d);
      PowerSumLift(q, y[1..], x[1..], c, d, e);
      LiftTerm(q, y[0], x[0], c, d, e);
      MulDistrib(q, Mul(q, y[0], Pow(q, x[0], d + e)), PowerSum(q, y[1..], x[1..], d + e), c);
    }
  }

  // ---- a linear recurrence applied to a power-sum sequence ----------------------------------------

  function At(s: seq<E>, n: int): E {
    if 0 <= n < |s| then s[n] else Zero
  }

  /** c[0] s[n] + c[1] s[n-1] + .. : what the recurrence with coefficients c leaves over at n. */
  function Discrepancy(q: E, c: seq<E>, s: seq<E>, n: int): E {
    if |c| == 0 then Zero else Add(Mul(q, c[0], At(s, n)), Discrepancy(q, c[1..], s, n - 1))
  }

  /** s[n] is the power sum with exponent n + 1. */
  predicate SumsUpTo(q: E, s: seq<E>, y: seq<E>, x: seq<E>, n: int)
    requires |y| == |x|
  {
    n < |s| && forall i :: 0 <= i <= n ==> s[i] == PowerSum(q, y, x, i + 1)
  }

  /** The weights of the left-over sequence: y[k] times the reversed polynomial at x[k]. */
  function Residues(q: E, c: seq<E>, y: seq<E>, x: seq<E>): (r: seq<E>)
    requires |y| == |x|
    ensures |r| == |y|
  {
    seq(|y|, k requires 0 <= k < |y| => Mul(q, y[k], Reverse(q, c, x[k])))
  }

  lemma ResiduesStep(q: E, c: seq<E>, y: seq<E>, x: seq<E>)
    requires |y| == |x| && |c| > 0
    ensures Residues(q, c, y, x) == AddAll(Lift(q, y, x, c[0], |c| - 1), Residues(q, c[1..], y, x))
  {
    hide Mul, Add, Pow;
    forall k | 0 <= k < |y|
      ensures Residues(q, c, y, x)[k] == Add(Lift(q, y, x, c[0], |c| - 1)[k], Residues(q, c[1..], y, x)[k])
    {
      MulDistrib(q, Mul(q, c[0], Pow(q, x[k], |c| - 1)), Reverse(q, c[1..], x[k]), y[k]);
    }
  }

  lemma {:induction false} DiscrepancyIsPowerSum(q: E, c: seq<E>, s: seq<E>, y: seq<E>, x: seq<E>, n: int)
    requires |y| == |x| && 0 < |c| <= n + 1 && SumsUpTo(q, s, y, x, n)
    ensures Discrepancy(q, c, s, n) == PowerSum(q, Residues(q, c, y, x), x, n + 2 - |c|)
    decreases |c|
  {
    hide Mul, Add, Pow, PowerSum, Lift, Residues, Reverse;
    var e := n + 2 - |c|;
    ResiduesStep(q, c, y, x);
    PowerSumAdd(q, Lift(q, y, x, c[0], |c| - 1), Residues(q, c[1..], y, x), x, e);
    PowerSumLift(q, y, x, c[0], |c| - 1, e);
    if |c| == 1 {
      EmptyResidues(q, c[1..], y, x, e);
    } else {
      DiscrepancyIsPowerSum(q, c[1..], s, y, x, n - 1);
    }
  }

  lemma EmptyResidues(q: E, c: seq<E>, y: seq<E>, x: seq<E>, e: nat)
    requires |y| == |x| && |c| == 0
    ensures PowerSum(q, Residues(q, c, y, x), x, e) == Zero
  {
    hide Mul, PowerSum;
    forall k | 0 <= k < |y| ensures Residues(q, c, y, x)[k] == Zero { MulOne(q, y[k]); }
    ZeroWeights(q, Residues(q, c, y, x), x, e);
  }

  // ---- roots --------------------------------------------------------------------------------------

  /** Coefficients of (c(x) - c(b)) / (x - b). */
  function Quotient(q: E, c: seq<E>, b: E): (r: seq<E>)
    requires |c| > 0
    ensures |r| == |c| - 1
  {
    if |c| == 1 then [] else [Eval(q, c[1..], b)] + Quotient(q, c[1..], b)
  }

  lemma DivideTerm(q: E, x: E, b: E, c: E, e: E, t: E)
    ensures Add(c, Mul(q, x, Add(e, Mul(q, Add(x, b), t))))
         == Add(Add(c, Mul(q, b, e)), Mul(q, Add(x, b), Add(e, Mul(q, x, t))))
  {
    hide Mul, Add;
    var d := Add(x, b);
    MulDistrib(q, e, Mul(q, d, t), x);
    Triple(q, x, d, t);
    MulDistrib(q, e, Mul(q, x, t), d);
    MulDistrib(q, x, b, e);
    // x e = b e + d e
    var be, xe, dt := Mul(q, b, e), Mul(q, x, e), Mul(q, d, Mul(q, x, t));
    AddBasics(xe, be);
    AddBasics(be, xe);
    AddAssoc(be, xe, be);
    assert Add(be, Mul(q, d, e)) == xe;
    AddAssoc(be, Mul(q, d, e), dt);
    AddAssoc(c, be, Add(Mul(q, d, e), dt));
  }

  lemma {:induction false} Divide(q: E, c: seq<E>, b: E, x: E)
    requires |c| > 0
    ensures Eval(q, c, x) == Add(Eval(q, c, b), Mul(q, Add(x, b), Eval(q, Quotient(q, c, b), x)))
    decreases |c|
  {
    hide Mul, Add;
    if |c| == 1 {
      MulOne(q, x);
      MulOne(q, b);
      MulOne(q, Add(x, b));
      AddBasics(c[0], Zero);
    } else {
      Divide(q, c[1..], b, x);
      var r := Quotient(q, c[1..], b);
      assert Quotient(q, c, b)[1..] == r;
      DivideTerm(q, x, b, c[0], Eval(q, c[1..], b), Eval(q, r, x));
    }
  }

  predicate Vanishes(q: E, c: seq<E>, x: seq<E>) {
    forall i :: 0 <= i < |x| ==> Eval(q, c, x[i]) == Zero
  }

  /** A polynomial with as many distinct roots as coefficients vanishes everywhere. */
  lemma {:induction false} RootBound(q: E, c: seq<E>, x: seq<E>, p: E)
    requires Primitive(q) && Distinct(x) && Vanishes(q, c, x) && |x| >= |c|
    ensures Eval(q, c, p) == Zero
    decreases |c|
  {
    hide Mul, Add, Primitive, Quotient;
    if |c| > 0 {
      var b, r := x[0], Quotient(q, c, x[0]);
      forall i | 0 <= i < |x[1..]| ensures Eval(q, r, x[1..][i]) == Zero {
        Divide(q, c, b, x[i + 1]);
        AddBasics(Mul(q, Add(x[i + 1], b), Eval(q, r, x[i + 1])), Zero);
        NoZeroDivisors(q, Add(x[i + 1], b), Eval(q, r, x[i + 1]));
        AddBasics(x[i + 1], b);
      }
      RootBound(q, r, x[1..], p);
      Divide(q, c, b, p);
      MulOne(q, Add(p, b));
      AddBasics(Zero, Zero);
    }
  }

  /** Reading the coefficients backwards is evaluating at the inverse, up to a power. */
  lemma {:induction false} ReverseIsEval(q: E, c: seq<E>, x: E, y: E)
    requires |c| > 0 && Mul(q, x, y) == One
    ensures Reverse(q, c, x) == Mul(q, Pow(q, x, |c| - 1), Eval(q, c, y))
    decreases |c|
  {
    hide Mul, Add;
    if |c| == 1 {
      MulOne(q, c[0]);
      MulOne(q, y);
      AddBasics(c[0], Zero);
      MulOne(q, Add(c[0], Zero));
    } else {
      ReverseIsEval(q, c[1..], x, y);
      var e, p := Eval(q, c[1..], y), Pow(q, x, |c| - 2);
      MulDistrib(q, c[0], Mul(q, y, e), Pow(q, x, |c| - 1));
      MulComm(q, c[0], Pow(q, x, |c| - 1));
      // (x p)(y e) = p e
      MulComm(q, x, p);
      MulAssoc(q, p, x, Mul(q, y, e));
      MulAssoc(q, x, y, e);
      MulOne(q, e);
    }
  }
}
