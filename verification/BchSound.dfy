/** The converse half of bounded-distance decoding: when the locator polynomial has as many roots as
    its length, flipping them always lands on a codeword. */
module BchSound {
  import opened Bits
  import opened Gf256
  import opened GfOrbit
  import opened GfPoly
  import opened BerlekampMassey
  import opened BchWord
  import opened BchTheory

  // ---- squaring is linear -------------------------------------------------------------------------

  function Sq(q: E, a: E): E {
    Mul(q, a, a)
  }

  lemma SquareOfSum(q: E, a: E, b: E)
    ensures Sq(q, Add(a, b)) == Add(Sq(q, a), Sq(q, b))
  {
    hide Mul, Add;
    MulDistrib(q, a, b, Add(a, b));
    MulDistrib(q, a, b, a);
    MulDistrib(q, a, b, b);
    MulComm(q, a, b);
    var aa, ab, bb := Mul(q, a, a), Mul(q, a, b), Mul(q, b, b);
    AddAssoc(aa, ab, Add(ab, bb));
    AddAssoc(ab, ab, bb);
    AddBasics(ab, ab);
    AddBasics(bb, Zero);
  }

  lemma SquareOfProduct(q: E, a: E, b: E)
    ensures Sq(q, Mul(q, a, b)) == Mul(q, Sq(q, a), Sq(q, b))
  {
    hide Mul;
    MulAssoc(q, a, b, Mul(q, a, b));
    Triple(q, b, a, b);
    MulAssoc(q, a, a, Mul(q, b, b));
  }

  lemma SquareInjective(q: E, a: E, b: E)
    requires Primitive(q) && Sq(q, a) == Sq(q, b)
    ensures a == b
  {
    hide Mul, Add, Primitive;
    SquareOfSum(q, a, b);
    AddBasics(Sq(q, a), Sq(q, b));
    NoZeroDivisors(q, Add(a, b), Add(a, b));
    AddBasics(a, b);
  }

  lemma {:induction false} SquareOfPow(q: E, x: E, e: nat)
    ensures Sq(q, Pow(q, x, e)) == Pow(q, x, 2 * e) == Pow(q, Sq(q, x), e)
    decreases e
  {
    hide Mul;
    MulOne(q, One);
    if e > 0 {
      SquareOfPow(q, x, e - 1);
      SquareOfProduct(q, x, Pow(q, x, e - 1));
      MulAssoc(q, x, x, Pow(q, x, 2 * e - 2));
      assert Pow(q, x, 2 * e) == Mul(q, x, Pow(q, x, 2 * e - 1));
      assert Pow(q, x, 2 * e - 1) == Mul(q, x, Pow(q, x, 2 * e - 2));
    }
  }

  function Squares(q: E, y: seq<E>): (r: seq<E>)
    ensures |r| == |y|
  {
    seq(|y|, k requires 0 <= k < |y| => Sq(q, y[k]))
  }

  lemma {:induction false} SquareOfPowerSum(q: E, y: seq<E>, x: seq<E>, e: nat)
    requires |y| == |x|
    ensures PowerSum(q, Squares(q, y), x, 2 * e) == Sq(q, PowerSum(q, y, x, e))
    decreases |y|
  {
    hide Mul, Add, Pow, Sq;
    if |y| == 0 {
      SquareOfNothing(q);
    } else {
      assert Squares(q, y)[1..] == Squares(q, y[1..]);
      SquareOfPowerSum(q, y[1..], x[1..], e);
      SquareOfPow(q, x[0], e);
      SquareOfProduct(q, y[0], Pow(q, x[0], e));
      SquareOfSum(q, Mul(q, y[0], Pow(q, x[0], e)), PowerSum(q, y[1..], x[1..], e));
    }
  }

  lemma SquareOfNothing(q: E)
    ensures Sq(q, Zero) == Zero && Sq(q, One) == One
  {
    hide Mul;
    MulOne(q, Zero);
    MulOne(q, One);
  }

  lemma {:induction false} PowerSumOfSquares(q: E, y: seq<E>, x: seq<E>, e: nat)
    requires |y| == |x|
    ensures PowerSum(q, y, Squares(q, x), e) == PowerSum(q, y, x, 2 * e)
    decreases |y|
  {
    hide Mul, Add, Pow, Sq;
    if |y| > 0 {
      assert Squares(q, x)[1..] == Squares(q, x[1..]);
      PowerSumOfSquares(q, y[1..], x[1..], e);
      SquareOfPow(q, x[0], e);
    }
  }

  /** S(2j) = S(j)^2 for the syndromes of a bit word. */
  lemma SyndromeSquares(q: E, v: Word, j: nat)
    ensures PolyAt(q, v, Exp(q, 2 * j)) == Sq(q, PolyAt(q, v, Exp(q, j)))
  {
    hide Exp, PolyAt, Sq, Locators, PowerSum;
    var x := Locators(q, v);
    SyndromeIsPowerSum(q, v, j);
    SyndromeIsPowerSum(q, v, 2 * j);
    SquareOfPowerSum(q, Ones(|x|), x, j);
    SquareOfNothing(q);
    assert Squares(q, Ones(|x|)) == Ones(|x|);
  }

  // ---- a recurrence and its first terms determine a sequence ---------------------------------------

  lemma {:induction false} DiscrepancyAgrees(q: E, c: seq<E>, s: seq<E>, s': seq<E>, n: int)
    requires forall i :: i <= n ==> At(s, i) == At(s', i)
    ensures Discrepancy(q, c, s, n) == Discrepancy(q, c, s', n)
    decreases |c|
  {
    hide Mul, Add, At;
    if |c| > 0 { DiscrepancyAgrees(q, c[1..], s, s', n - 1); }
  }

  lemma {:induction false} SameSequence(q: E, c: seq<E>, s: seq<E>, s': seq<E>, n: nat)
    requires |c| > 0 && c[0] == One && n <= |s| && n <= |s'|
    requires Generates(q, c, |c| - 1, s, n) && Generates(q, c, |c| - 1, s', n)
    requires forall i :: 0 <= i < |c| - 1 && i < n ==> s[i] == s'[i]
    ensures s[..n] == s'[..n]
    decreases n
  {
    hide Mul, Add, Discrepancy;
    if n > 0 {
      SameSequence(q, c, s, s', n - 1);
      if n >= |c| {
        forall i | i <= n - 2 ensures At(s, i) == At(s', i) {
          if i >= 0 { assert s[..n - 1][i] == s'[..n - 1][i]; }
        }
        NextTerm(q, c, s, s', n - 1);
      }
      assert s[..n] == s[..n - 1] + [s[n - 1]] && s'[..n] == s'[..n - 1] + [s'[n - 1]];
    }
  }

  lemma NextTerm(q: E, c: seq<E>, s: seq<E>, s': seq<E>, n: nat)
    requires |c| > 0 && c[0] == One && n < |s| && n < |s'|
    requires Discrepancy(q, c, s, n) == Zero && Discrepancy(q, c, s', n) == Zero
    requires forall i :: i <= n - 1 ==> At(s, i) == At(s', i)
    ensures s[n] == s'[n]
  {
    hide Mul, Add;
    DiscrepancyAgrees(q, c[1..], s, s', n - 1);
    MulOne(q, s[n]);
    MulOne(q, s'[n]);
    AddBasics(s[n], Discrepancy(q, c[1..], s, n - 1));
    AddBasics(s'[n], Discrepancy(q, c[1..], s', n - 1));
  }

  // ---- weights that are their own squares are bits -------------------------------------------------

  lemma SquaresDistinct(q: E, x: seq<E>)
    requires Primitive(q) && Distinct(x) && NonZero(x)
    ensures Distinct(Squares(q, x)) && NonZero(Squares(q, x))
  {
    hide Mul, Primitive, Sq;
    var z := Squares(q, x);
    forall i, j | 0 <= i < j < |z| ensures z[i] != z[j] {
      if z[i] == z[j] { SquareInjective(q, x[i], x[j]); }
    }
    SquareOfNothing(q);
    forall i | 0 <= i < |z| ensures z[i] != Zero {
      if z[i] == Zero { SquareInjective(q, x[i], Zero); }
    }
  }

  lemma IdempotentIsBit(q: E, y: E)
    requires Primitive(q) && Add(y, Sq(q, y)) == Zero
    ensures y == Zero || y == One
  {
    hide Mul, Add, Primitive;
    AddBasics(y, Sq(q, y));
    MulDistrib(q, y, One, y);
    MulOne(q, y);
    AddBasics(Sq(q, y), y);
    NoZeroDivisors(q, Add(y, One), y);
    AddBasics(y, One);
  }

  /** If the sequence squares like the syndromes of a bit word, the weights are 0 or 1. */
  lemma WeightsAreBits(q: E, y: seq<E>, x: seq<E>, t: nat)
    requires Primitive(q) && |y| == |x| <= t && Distinct(x) && NonZero(x)
    requires forall j :: 1 <= j <= t ==> PowerSum(q, y, x, 2 * j) == Sq(q, PowerSum(q, y, x, j))
    ensures forall k :: 0 <= k < |y| ==> y[k] == Zero || y[k] == One
  {
    hide Mul, Add, Primitive, PowerSum, Sq;
    var r := AddAll(y, Squares(q, y));
    SquaresDistinct(q, x);
    forall j | 1 <= j < 1 + |x| ensures PowerSum(q, r, Squares(q, x), j) == Zero {
      PowerSumOfSquares(q, r, x, j);
      PowerSumAdd(q, y, Squares(q, y), x, 2 * j);
      SquareOfPowerSum(q, y, x, j);
      AddBasics(PowerSum(q, y, x, 2 * j), PowerSum(q, y, x, 2 * j));
    }
    Independent(q, r, Squares(q, x), 1);
    forall k | 0 <= k < |y| ensures y[k] == Zero || y[k] == One {
      assert r[k] == Add(y[k], Sq(q, y[k]));
      IdempotentIsBit(q, y[k]);
    }
  }

  /** The points of weight one. */
  function Chosen(y: seq<E>, x: seq<E>): (r: seq<E>)
    requires |y| == |x|
    ensures |r| <= |x|
  {
    if |y| == 0 then [] else (if y[0] == One then [x[0]] else []) + Chosen(y[1..], x[1..])
  }

  lemma {:induction false} ChosenFrom(y: seq<E>, x: seq<E>)
    requires |y| == |x|
    ensures forall a :: a in Chosen(y, x) ==> a in x
    ensures |Chosen(y, x)| == |x| ==> Chosen(y, x) == x && forall k :: 0 <= k < |y| ==> y[k] == One
  {
    if |y| > 0 {
      ChosenFrom(y[1..], x[1..]);
      assert x == [x[0]] + x[1..];
    }
  }

  lemma {:induction false} ChosenDistinct(y: seq<E>, x: seq<E>)
    requires |y| == |x| && Distinct(x) && NonZero(x)
    ensures Distinct(Chosen(y, x)) && NonZero(Chosen(y, x))
  {
    if |y| > 0 {
      ChosenDistinct(y[1..], x[1..]);
      ChosenFrom(y[1..], x[1..]);
      if y[0] == One {
        var r := Chosen(y[1..], x[1..]);
        forall k | 0 <= k < |r| ensures r[k] != x[0] {
          assert r[k] in x[1..];
        }
        DistinctCons(x[0], r);
      } else {
        assert Chosen(y, x) == Chosen(y[1..], x[1..]);
      }
    }
  }

  lemma {:induction false} ChosenSum(q: E, y: seq<E>, x: seq<E>, e: nat)
    requires |y| == |x| && forall k :: 0 <= k < |y| ==> y[k] == Zero || y[k] == One
    ensures PowerSum(q, Ones(|Chosen(y, x)|), Chosen(y, x), e) == PowerSum(q, y, x, e)
    decreases |y|
  {
    hide Mul, Add, Pow, PowerSum;
    if |y| == 0 {
      NoSum(q, y, x, e);
      NoSum(q, Ones(0), Chosen(y, x), e);
    } else {
      ChosenSum(q, y[1..], x[1..], e);
      var r := Chosen(y[1..], x[1..]);
      if y[0] == One {
        PowerSumHead(q, x[0], r, e);
        OneHead(q, y, x, e);
      } else {
        assert Chosen(y, x) == r;
        DropZeroHead(q, y, x, e);
      }
    }
  }

  lemma NoSum(q: E, y: seq<E>, x: seq<E>, e: nat)
    requires |y| == |x| == 0
    ensures PowerSum(q, y, x, e) == Zero
  {
  }

  lemma OneHead(q: E, y: seq<E>, x: seq<E>, e: nat)
    requires |y| == |x| > 0 && y[0] == One
    ensures PowerSum(q, y, x, e) == Add(Pow(q, x[0], e), PowerSum(q, y[1..], x[1..], e))
  {
    hide Mul, Add, Pow;
    MulOne(q, Pow(q, x[0], e));
  }

  // ---- the accepted word -------------------------------------------------------------------------

  /** s[j] is the power sum of y over x with exponent j + 1. */
  ghost predicate Sums(q: E, s: seq<E>, y: seq<E>, x: seq<E>, n: nat)
    requires |y| == |x|
  {
    n <= |s| && forall i :: 0 <= i < n ==> s[i] == PowerSum(q, y, x, i + 1)
  }

  function SumsOf(q: E, y: seq<E>, x: seq<E>, n: nat): (s: seq<E>)
    requires |y| == |x|
    ensures |s| == n
  {
    seq(n, i requires 0 <= i < n => PowerSum(q, y, x, i + 1))
  }

  lemma SumsOfSums(q: E, y: seq<E>, x: seq<E>, n: nat)
    requires |y| == |x|
    ensures Sums(q, SumsOf(q, y, x, n), y, x, n)
  {
    hide PowerSum;
  }

  /** When every point's inverse is a root of c, the recurrence c produces their power sums. */
  lemma RootsGenerate(q: E, c: seq<E>, s: seq<E>, y: seq<E>, x: seq<E>, n: nat)
    requires Primitive(q) && |y| == |x| == |c| - 1 && NonZero(x) && Sums(q, s, y, x, n) && n == |s|
    requires Vanishes(q, c, Inverses(q, x))
    ensures Generates(q, c, |c| - 1, s, n)
  {
    hide Mul, Add, Primitive, PowerSum, Inv, Eval, Reverse, Discrepancy;
    forall k | 0 <= k < |x| ensures Residues(q, c, y, x)[k] == Zero {
      InvWorks(q, x[k]);
      assert Eval(q, c, Inverses(q, x)[k]) == Zero;
      ReverseIsEval(q, c, x[k], Inv(q, x[k]));
      MulOne(q, Pow(q, x[k], |c| - 1));
      MulOne(q, y[k]);
    }
    forall i | |c| - 1 <= i < n ensures Discrepancy(q, c, s, i) == Zero {
      DiscrepancyIsPowerSum(q, c, s, y, x, i);
      ZeroWeights(q, Residues(q, c, y, x), x, i + 2 - |c|);
    }
  }

  /** The syndromes are power sums over the points whose inverses are the roots. */
  lemma RootsExplain(q: E, c: seq<E>, s: seq<E>, x: seq<E>, n: nat) returns (y: seq<E>)
    requires Primitive(q) && |x| == |c| - 1 && Distinct(x) && NonZero(x) && c[0] == One
    requires |x| <= n <= |s| && Generates(q, c, |c| - 1, s, n)
    requires Vanishes(q, c, Inverses(q, x))
    ensures |y| == |x| && Sums(q, s, y, x, n)
  {
    hide Mul, Add, Primitive, PowerSum, Inv, Eval, Discrepancy, Weights, SumsOf, Vanishes;
    y := Weights(q, x, s);
    WeightsSolve(q, x, s);
    var s' := SumsOf(q, y, x, n);
    SumsOfSums(q, y, x, n);
    RootsGenerate(q, c, s', y, x, n);
    SameSequence(q, c, s, s', n);
    forall i | 0 <= i < n ensures s[i] == PowerSum(q, y, x, i + 1) {
      assert s[..n][i] == s'[..n][i];
    }
  }

  /** The search's positions name their own roots. */
  lemma MaskRoots(q: E, c: seq<E>, l: nat)
    requires Primitive(q) && l < |c|
    ensures NonZero(Locators(q, RootMask(q, c, l))) && Distinct(Locators(q, RootMask(q, c, l)))
    ensures Vanishes(q, c[..l + 1], Inverses(q, Locators(q, RootMask(q, c, l))))
  {
    hide Exp, Mul, Primitive, Inv, Eval, Locators;
    var m := RootMask(q, c, l);
    var x := Locators(q, m);
    LocatorsDistinct(q, m);
    forall k | 0 <= k < |x| ensures Eval(q, c[..l + 1], Inverses(q, x)[k]) == Zero {
      var i := LocatorAt(q, m, x[k]);
      RootInverts(q, i);
      assert RootAt(q, c, l, i);
    }
  }

  lemma SyndromeSquaresHere(q: E, t: nat, v: Word, s: seq<E>, y: seq<E>, x: seq<E>, j: nat)
    requires SyndromesOf(q, t, v, s) && |y| == |x| && Sums(q, s, y, x, 2 * t) && 1 <= j <= t
    ensures PowerSum(q, y, x, 2 * j) == Sq(q, PowerSum(q, y, x, j))
  {
    hide Exp, PolyAt, Sq, PowerSum;
    SyndromeSquares(q, v, j);
    assert s[2 * j - 1] == PowerSum(q, y, x, 2 * j) && s[j - 1] == PowerSum(q, y, x, j);
    assert s[2 * j - 1] == PolyAt(q, v, Exp(q, 2 * j)) && s[j - 1] == PolyAt(q, v, Exp(q, j));
  }

  /** If the locator polynomial is as short as possible and has l roots, the flipped positions have
      exactly the received word's syndromes. */
  lemma MaskExplains(q: E, t: nat, v: Word, s: seq<E>, c: seq<E>, l: nat)
    requires Primitive(q) && SyndromesOf(q, t, v, s) && l < |c| && l <= t
    requires c[0] == One && Degree(c, l) && Generates(q, c, l, s, 2 * t)
    requires forall x :: Located(q, s, x, t) ==> l <= |x|
    requires Weight(RootMask(q, c, l)) == l
    ensures SyndromesOf(q, t, RootMask(q, c, l), s)
  {
    hide Exp, Mul, Add, Primitive, PowerSum, Inverses, Eval, Discrepancy, PolyAt, Sq, Locators, RootMask, Distinct,
         NonZero, Vanishes, Chosen;
    var m := RootMask(q, c, l);
    var x, d := Locators(q, m), c[..l + 1];
    LocatorCount(q, m);
    MaskRoots(q, c, l);
    CutGenerates(q, c, l, s, 2 * t);
    var y := RootsExplain(q, d, s, x, 2 * t);
    forall j | 1 <= j <= t ensures PowerSum(q, y, x, 2 * j) == Sq(q, PowerSum(q, y, x, j)) {
      SyndromeSquaresHere(q, t, v, s, y, x, j);
    }
    WeightsAreBits(q, y, x, t);
    ChosenDistinct(y, x);
    var z := Chosen(y, x);
    forall i | 0 <= i < 2 * t ensures s[i] == PowerSum(q, Ones(|z|), z, i + 1) { ChosenSum(q, y, x, i + 1); }
    assert Located(q, s, z, t);
    ChosenFrom(y, x);
    forall i | 0 <= i < 2 * t ensures s[i] == PolyAt(q, m, Exp(q, i + 1)) { SyndromeIsPowerSum(q, m, i + 1); }
  }

  lemma CutGenerates(q: E, c: seq<E>, l: nat, s: seq<E>, n: int)
    requires l < |c| && Degree(c, l) && Generates(q, c, l, s, n)
    ensures Generates(q, c[..l + 1], l, s, n)
  {
    hide Discrepancy;
    var d := c[..l + 1];
    forall i | l <= i < n ensures Discrepancy(q, d, s, i) == Zero { DiscrepancyCut(q, c, l + 1, s, i); }
  }

  /** Flipping a word with the same syndromes leaves a codeword. */
  lemma SameSyndromesCancel(q: E, t: nat, v: Word, m: Word, s: seq<E>)
    requires SyndromesOf(q, t, v, s) && SyndromesOf(q, t, m, s)
    ensures IsCodeword(q, t, Xor(v, m))
  {
    hide Exp, PolyAt, Add;
    forall j | 1 <= j <= 2 * t ensures PolyAt(q, Xor(v, m), Exp(q, j)) == Zero {
      PolyAtXor(q, v, m, Exp(q, j));
      assert s[j - 1] == PolyAt(q, v, Exp(q, j)) && s[j - 1] == PolyAt(q, m, Exp(q, j));
      AddBasics(s[j - 1], s[j - 1]);
    }
  }
}
