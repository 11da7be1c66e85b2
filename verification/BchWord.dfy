/** Bit words as polynomials over GF(2^8), highest coefficient first, and as sets of positions. */
module BchWord {
  import opened Bits
  import opened Gf256
  import opened GfOrbit
  import opened GfPoly
  import opened BerlekampMassey

  const N: nat := 255

  /** The value at x of the polynomial whose coefficients, highest first, are the bits of v. */
  function PolyAt(q: E, v: Word, x: E): E {
    if |v| == 0 then Zero else Add(If(v[0], Pow(q, x, |v| - 1)), PolyAt(q, v[1..], x))
  }

  /** The number of ones. */
  function Weight(v: Word): nat {
    if |v| == 0 then 0 else (if v[0] then 1 else 0) + Weight(v[1..])
  }

  /** alpha^(|v|-1-i) for every position i that holds a one. */
  function Locators(q: E, v: Word): seq<E> {
    if |v| == 0 then [] else (if v[0] then [Exp(q, |v| - 1)] else []) + Locators(q, v[1..])
  }

  /** All parity conditions: alpha^1 .. alpha^(2t) are roots. */
  ghost predicate IsCodeword(q: E, t: nat, v: Word) {
    |v| == N && forall j :: 1 <= j <= 2 * t ==> PolyAt(q, v, Exp(q, j)) == Zero
  }

  // ---- PolyAt is linear, and grows by Horner's rule ------------------------------------------------

  lemma IfAdds(b: bool, c: bool, a: E)
    ensures If(b != c, a) == Add(If(b, a), If(c, a))
  {
    AddBasics(a, a);
    AddBasics(Zero, Zero);
  }

  lemma {:induction false} PolyAtXor(q: E, a: Word, b: Word, x: E)
    requires |a| == |b|
    ensures PolyAt(q, Xor(a, b), x) == Add(PolyAt(q, a, x), PolyAt(q, b, x))
    decreases |a|
  {
    hide Add, Pow, If;
    AddBasics(Zero, Zero);
    if |a| > 0 {
      assert Xor(a, b)[1..] == Xor(a[1..], b[1..]);
      PolyAtXor(q, a[1..], b[1..], x);
      var p := Pow(q, x, |a| - 1);
      IfAdds(a[0], b[0], p);
      AddFour(If(a[0], p), If(b[0], p), PolyAt(q, a[1..], x), PolyAt(q, b[1..], x));
    }
  }

  lemma IfTimes(q: E, x: E, b: bool, p: E)
    ensures Mul(q, x, If(b, p)) == If(b, Mul(q, x, p))
  {
    hide Mul;
    MulOne(q, x);
  }

  /** Appending a bit multiplies by x and adds the bit. */
  lemma {:induction false} Horner(q: E, v: Word, b: bool, x: E)
    ensures PolyAt(q, v + [b], x) == Add(Mul(q, x, PolyAt(q, v, x)), If(b, One))
    decreases |v|
  {
    hide Mul, Add, If;
    var w := v + [b];
    if |v| == 0 {
      assert w[1..] == [];
      MulOne(q, x);
      AddBasics(If(b, One), Zero);
    } else {
      assert w[1..] == v[1..] + [b];
      Horner(q, v[1..], b, x);
      var p, r := If(v[0], Pow(q, x, |v| - 1)), PolyAt(q, v[1..], x);
      IfTimes(q, x, v[0], Pow(q, x, |v| - 1));
      MulDistrib(q, p, r, x);
      AddAssoc(Mul(q, x, p), Mul(q, x, r), If(b, One));
    }
  }

  /** Leading zeros do not count. */
  lemma {:induction false} LeadingZeros(q: E, n: nat, v: Word, x: E)
    ensures PolyAt(q, Zeros(n) + v, x) == PolyAt(q, v, x)
  {
    hide Add, Pow;
    var w := Zeros(n) + v;
    if n == 0 {
      assert w == v;
    } else {
      assert w[1..] == Zeros(n - 1) + v;
      LeadingZeros(q, n - 1, v, x);
      AddBasics(PolyAt(q, v, x), Zero);
    }
  }

  // ---- the error word's syndromes are the power sums of its locators -------------------------------

  lemma {:induction false} PowExp(q: E, j: nat, d: nat)
    ensures Pow(q, Exp(q, j), d) == Exp(q, j * d)
    decreases d
  {
    hide Mul, X;
    if d > 0 {
      PowExp(q, j, d - 1);
      ExpAdd(q, j, j * (d - 1));
      assert j * d == j + j * (d - 1);
    }
  }

  lemma PowSwaps(q: E, j: nat, d: nat)
    ensures Pow(q, Exp(q, j), d) == Pow(q, Exp(q, d), j)
  {
    hide Pow, Exp;
    PowExp(q, j, d);
    PowExp(q, d, j);
    assert j * d == d * j;
  }

  lemma {:induction false} LocatorCount(q: E, v: Word)
    ensures |Locators(q, v)| == Weight(v)
  {
    if |v| > 0 { LocatorCount(q, v[1..]); }
  }

  lemma PowerSumHead(q: E, a: E, x: seq<E>, e: nat)
    ensures PowerSum(q, Ones(1 + |x|), [a] + x, e) == Add(Pow(q, a, e), PowerSum(q, Ones(|x|), x, e))
  {
    hide Mul, Add, Pow;
    assert Ones(1 + |x|)[1..] == Ones(|x|);
    assert ([a] + x)[1..] == x;
    MulOne(q, Pow(q, a, e));
  }

  lemma {:induction false} SyndromeIsPowerSum(q: E, v: Word, j: nat)
    ensures PolyAt(q, v, Exp(q, j)) == PowerSum(q, Ones(|Locators(q, v)|), Locators(q, v), j)
    decreases |v|
  {
    hide Mul, Add, Pow, PowerSum, X, Exp;
    if |v| == 0 {
      EmptySum(q, j);
    } else {
      SyndromeIsPowerSum(q, v[1..], j);
      var x := Locators(q, v[1..]);
      if v[0] {
        PowerSumHead(q, Exp(q, |v| - 1), x, j);
        PowSwaps(q, j, |v| - 1);
      } else {
        assert Locators(q, v) == x;
        AddBasics(PolyAt(q, v[1..], Exp(q, j)), Zero);
      }
    }
  }

  lemma EmptySum(q: E, e: nat)
    ensures PowerSum(q, Ones(0), [], e) == Zero
  {
  }

  /** Every locator is alpha^(|v|-1-i) for a position i that holds a one. */
  lemma {:induction false} LocatorAt(q: E, v: Word, x: E) returns (i: nat)
    requires x in Locators(q, v)
    ensures i < |v| && v[i] && x == Exp(q, |v| - 1 - i)
    decreases |v|
  {
    hide Exp;
    if v[0] && x == Exp(q, |v| - 1) {
      i := 0;
    } else {
      i := LocatorAt(q, v[1..], x);
      i := i + 1;
    }
  }

  lemma {:induction false} LocatorOf(q: E, v: Word, i: nat)
    requires i < |v| && v[i]
    ensures Exp(q, |v| - 1 - i) in Locators(q, v)
    decreases |v|
  {
    hide Exp;
    if i > 0 { LocatorOf(q, v[1..], i - 1); }
  }

  lemma {:induction false} LocatorsDistinct(q: E, v: Word)
    requires Primitive(q) && |v| <= N
    ensures Distinct(Locators(q, v)) && NonZero(Locators(q, v))
    decreases |v|
  {
    hide Exp, Primitive;
    if |v| > 0 {
      LocatorsDistinct(q, v[1..]);
      var x := Locators(q, v[1..]);
      if v[0] {
        ExpNotZeroP(q, |v| - 1);
        forall k | 0 <= k < |x| ensures x[k] != Exp(q, |v| - 1) {
          var i := LocatorAt(q, v[1..], x[k]);
          ExpInjective(q, |v| - 2 - i, |v| - 1);
        }
        DistinctCons(Exp(q, |v| - 1), x);
      } else {
        assert Locators(q, v) == x;
      }
    }
  }

  lemma DistinctCons(a: E, x: seq<E>)
    requires Distinct(x) && forall k :: 0 <= k < |x| ==> x[k] != a
    ensures Distinct([a] + x)
  {
    var y := [a] + x;
    forall i, j | 0 <= i < j < |y| ensures y[i] != y[j] {
      assert y[j] == x[j - 1];
      if i > 0 { assert y[i] == x[i - 1]; }
    }
  }
}
