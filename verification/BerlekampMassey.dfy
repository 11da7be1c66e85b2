/** Berlekamp-Massey: from the syndromes of an error pattern to the polynomial whose roots give its
    positions. */
module BerlekampMassey {
  import opened Gf256
  import opened GfOrbit
  import opened GfTables
  import opened GfPoly

  const MAX_T: nat := 10

  /** A polynomial in a buffer of MAX_T + 1 coefficients. */
  type Poly11 = c: seq<E> | |c| == MAX_T + 1 witness seq(MAX_T + 1, _ => Zero)

  datatype Locator = Found(c: Poly11, l: nat) | NotConverged

  /** No coefficient above degree l. */
  predicate Degree(c: seq<E>, l: nat) {
    forall i :: l < i < |c| ==> c[i] == Zero
  }

  /** The recurrence with coefficients c and length l produces s[l] .. s[n-1]. */
  predicate Generates(q: E, c: seq<E>, l: nat, s: seq<E>, n: int) {
    forall i :: l <= i < n ==> Discrepancy(q, c, s, i) == Zero
  }

  function Ones(n: nat): (s: seq<E>)
    ensures |s| == n
  {
    seq(n, _ => One)
  }

  /** The first 2t syndromes are the power sums of at most t distinct non-zero locators x under non-zero
      weights y. */
  ghost predicate Weighed(q: E, s: seq<E>, y: seq<E>, x: seq<E>, t: nat) {
    && |y| == |x| <= t && 2 * t <= |s| && Distinct(x) && NonZero(x) && NonZero(y)
    && forall i :: 0 <= i < 2 * t ==> s[i] == PowerSum(q, y, x, i + 1)
  }

  /** The same with every weight one: the errors of a binary code. */
  ghost predicate Located(q: E, s: seq<E>, x: seq<E>, t: nat) {
    && |x| <= t && 2 * t <= |s| && Distinct(x) && NonZero(x)
    && forall i :: 0 <= i < 2 * t ==> s[i] == PowerSum(q, Ones(|x|), x, i + 1)
  }

  lemma LocatedIsWeighed(q: E, s: seq<E>, x: seq<E>, t: nat)
    requires Located(q, s, x, t)
    ensures Weighed(q, s, Ones(|x|), x, t)
  {
    hide PowerSum;
    OneIsOdd();
  }

  // ---- the discrepancy is linear in the coefficients ---------------------------------------------

  lemma {:induction false} DiscrepancyAppend(q: E, c: seq<E>, a: E, s: seq<E>, n: int)
    ensures Discrepancy(q, c + [a], s, n) == Add(Discrepancy(q, c, s, n), Mul(q, a, At(s, n - |c|)))
    decreases |c|
  {
    hide Mul, Add, At;
    var d := c + [a];
    if |c| == 0 {
      assert d[1..] == [];
      AddBasics(Zero, Mul(q, a, At(s, n)));
    } else {
      assert d[1..] == c[1..] + [a];
      DiscrepancyAppend(q, c[1..], a, s, n - 1);
      AddAssoc(Mul(q, c[0], At(s, n)), Discrepancy(q, c[1..], s, n - 1), Mul(q, a, At(s, n - |c|)));
    }
  }

  lemma {:induction false} DiscrepancyZeros(q: E, c: seq<E>, s: seq<E>, n: int)
    requires AllZero(c)
    ensures Discrepancy(q, c, s, n) == Zero
    decreases |c|
  {
    hide Mul, Add, At;
    if |c| > 0 {
      DiscrepancyZeros(q, c[1..], s, n - 1);
      MulOne(q, At(s, n));
      AddBasics(Zero, Zero);
    }
  }

  /** Coefficients above the degree do not matter. */
  lemma {:induction false} DiscrepancyCut(q: E, c: seq<E>, k: nat, s: seq<E>, n: int)
    requires k <= |c| && forall i :: k <= i < |c| ==> c[i] == Zero
    ensures Discrepancy(q, c[..k], s, n) == Discrepancy(q, c, s, n)
    decreases k
  {
    hide Mul, Add, At;
    if k == 0 {
      DiscrepancyZeros(q, c, s, n);
    } else {
      assert c[..k][1..] == c[1..][..k - 1];
      DiscrepancyCut(q, c[1..], k - 1, s, n - 1);
    }
  }

  function MulAdd(q: E, a: E, coef: E, b: E): E {
    Add(a, Mul(q, coef, b))
  }

  /** c + coef * x^m * b, keeping |c| coefficients. */
  function Combine(q: E, c: seq<E>, b: seq<E>, coef: E, m: nat): (r: seq<E>)
    requires |c| == |b|
    ensures |r| == |c|
  {
    seq(|c|, i requires 0 <= i < |c| => if i >= m then MulAdd(q, c[i], coef, b[i - m]) else c[i])
  }

  lemma {:induction false} CombineUnshifted(q: E, c: seq<E>, b: seq<E>, coef: E, s: seq<E>, n: int)
    requires |c| == |b|
    ensures Discrepancy(q, Combine(q, c, b, coef, 0), s, n)
         == Add(Discrepancy(q, c, s, n), Mul(q, coef, Discrepancy(q, b, s, n)))
    decreases |c|
  {
    hide Mul, Add, At;
    MulOne(q, coef);
    AddBasics(Zero, Zero);
    if |c| > 0 {
      assert Combine(q, c, b, coef, 0)[1..] == Combine(q, c[1..], b[1..], coef, 0);
      CombineUnshifted(q, c[1..], b[1..], coef, s, n - 1);
      var a := At(s, n);
      var dc, db := Discrepancy(q, c[1..], s, n - 1), Discrepancy(q, b[1..], s, n - 1);
      MulDistrib(q, c[0], Mul(q, coef, b[0]), a);
      MulAssoc(q, coef, b[0], a);
      MulDistrib(q, Mul(q, b[0], a), db, coef);
      AddFour(Mul(q, c[0], a), Mul(q, coef, Mul(q, b[0], a)), dc, Mul(q, coef, db));
    }
  }

  /** Adding a shifted multiple adds a multiple of the shifted discrepancy, as long as the buffer
      drops nothing but zeros. */
  lemma {:induction false} CombineShifts(q: E, c: seq<E>, b: seq<E>, coef: E, m: nat, s: seq<E>, n: int)
    requires |c| == |b| && m <= |c| && forall i :: |c| - m <= i < |b| ==> b[i] == Zero
    ensures Discrepancy(q, Combine(q, c, b, coef, m), s, n)
         == Add(Discrepancy(q, c, s, n), Mul(q, coef, Discrepancy(q, b, s, n - m)))
    decreases |c|
  {
    hide Mul, Add, At;
    if m == 0 {
      CombineUnshifted(q, c, b, coef, s, n);
    } else {
      var k := |c| - 1;
      assert Combine(q, c, b, coef, m)[1..] == Combine(q, c[1..], b[..k], coef, m - 1);
      CombineShifts(q, c[1..], b[..k], coef, m - 1, s, n - 1);
      DiscrepancyCut(q, b, k, s, n - m);
      AddAssoc(Mul(q, c[0], At(s, n)), Discrepancy(q, c[1..], s, n - 1), Mul(q, coef, Discrepancy(q, b, s, n - m)));
    }
  }

  // ---- what the locators force ---------------------------------------------------------------------

  /** Enough zero discrepancies in a row make the reversed polynomial vanish at every locator. */
  lemma ResiduesVanish(q: E, c: seq<E>, l: nat, s: seq<E>, y: seq<E>, x: seq<E>, t: nat, n: nat)
    requires Primitive(q) && Weighed(q, s, y, x, t) && l < |c| && Degree(c, l)
    requires Generates(q, c, l, s, n) && n <= 2 * t && l + |x| <= n
    ensures AllZero(Residues(q, c[..l + 1], y, x))
  {
    hide Mul, Add, Primitive, Discrepancy, PowerSum, Residues;
    var d := c[..l + 1];
    var r := Residues(q, d, y, x);
    forall e | 1 <= e < 1 + |x| ensures PowerSum(q, r, x, e) == Zero {
      DiscrepancyCut(q, c, l + 1, s, l + e - 1);
      DiscrepancyIsPowerSum(q, d, s, y, x, l + e - 1);
    }
    Independent(q, r, x, 1);
  }

  /** A length change never takes the length past the number of locators. */
  lemma LengthStaysBelow(q: E, c: seq<E>, l: nat, s: seq<E>, y: seq<E>, x: seq<E>, t: nat, n: nat)
    requires Primitive(q) && Weighed(q, s, y, x, t) && l < |c| && Degree(c, l)
    requires Generates(q, c, l, s, n) && l <= n < 2 * t
    requires Discrepancy(q, c, s, n) != Zero
    ensures n + 1 - l <= |x|
  {
    hide Mul, Add, Primitive, Discrepancy, PowerSum, Residues;
    if l + |x| <= n {
      ResiduesVanish(q, c, l, s, y, x, t, n);
      var d := c[..l + 1];
      DiscrepancyCut(q, c, l + 1, s, n);
      DiscrepancyIsPowerSum(q, d, s, y, x, n);
      ZeroWeights(q, Residues(q, d, y, x), x, n + 1 - l);
    }
  }

  /** The inverses of the locators. */
  ghost function Inverses(q: E, x: seq<E>): (y: seq<E>)
    requires Primitive(q) && NonZero(x)
    ensures |y| == |x|
  {
    seq(|x|, k requires 0 <= k < |x| => Inv(q, x[k]))
  }

  lemma InversesDistinct(q: E, x: seq<E>)
    requires Primitive(q) && NonZero(x) && Distinct(x)
    ensures Distinct(Inverses(q, x))
  {
    hide Mul, Primitive, Inv;
    var y := Inverses(q, x);
    forall i, j | 0 <= i < j < |x| ensures y[i] != y[j] {
      InvWorks(q, x[i]);
      InvWorks(q, x[j]);
      if y[i] == y[j] { InverseOfInverse(q, x[i], x[j], y[i]); }
    }
  }

  lemma InverseOfInverse(q: E, a: E, b: E, y: E)
    requires Mul(q, a, y) == One && Mul(q, b, y) == One
    ensures a == b
  {
    hide Mul;
    MulOne(q, a);
    MulOne(q, b);
    MulComm(q, b, y);
    MulAssoc(q, a, y, b);
  }

  lemma EvalAtZero(q: E, c: seq<E>)
    requires |c| > 0
    ensures Eval(q, c, Zero) == c[0]
  {
    hide Mul, Add;
    MulOne(q, Eval(q, c[1..], Zero));
    AddBasics(c[0], Zero);
  }

  /** A polynomial with constant term 1 has at most l roots. */
  lemma RootsAtMost(q: E, c: seq<E>, x: seq<E>)
    requires Primitive(q) && |c| > 0 && c[0] == One && Distinct(x) && Vanishes(q, c, x)
    ensures |x| < |c|
  {
    hide Mul, Add, Primitive, Eval;
    if |x| >= |c| {
      RootBound(q, c, x, Zero);
      EvalAtZero(q, c);
      OneIsOdd();
    }
  }

  lemma InversesAreRoots(q: E, c: seq<E>, l: nat, s: seq<E>, y: seq<E>, x: seq<E>, t: nat)
    requires Primitive(q) && Weighed(q, s, y, x, t) && l < |c| && Degree(c, l)
    requires Generates(q, c, l, s, 2 * t) && l <= |x|
    ensures Vanishes(q, c[..l + 1], Inverses(q, x))
  {
    hide Mul, Add, Primitive, Discrepancy, PowerSum, Inv, Eval, Reverse;
    ResiduesVanish(q, c, l, s, y, x, t, 2 * t);
    var d, z := c[..l + 1], Inverses(q, x);
    forall k | 0 <= k < |x| ensures Eval(q, d, z[k]) == Zero {
      assert Residues(q, d, y, x)[k] == Mul(q, y[k], Reverse(q, d, x[k]));
      NoZeroDivisors(q, y[k], Reverse(q, d, x[k]));
      InvWorks(q, x[k]);
      ReverseIsEval(q, d, x[k], z[k]);
      PowNonZero(q, x[k], l);
      NoZeroDivisors(q, Pow(q, x[k], l), Eval(q, d, z[k]));
    }
  }

  /** The locator polynomial of |x| <= t errors has degree |x|, and its roots are exactly the inverses
      of the locators. */
  lemma LocatorRoots(q: E, c: seq<E>, l: nat, s: seq<E>, y: seq<E>, x: seq<E>, t: nat, p: E)
    requires Primitive(q) && Weighed(q, s, y, x, t) && l < |c| && Degree(c, l) && c[0] == One
    requires Generates(q, c, l, s, 2 * t) && l <= |x|
    ensures l == |x|
    ensures Eval(q, c[..l + 1], p) == Zero <==> p in Inverses(q, x)
  {
    hide Mul, Add, Primitive, Discrepancy, PowerSum, Inv, Eval, Weighed, Inverses;
    WeighedDistinct(q, s, y, x, t);
    InversesAreRoots(q, c, l, s, y, x, t);
    InversesDistinct(q, x);
    var d, z := c[..l + 1], Inverses(q, x);
    RootsAtMost(q, d, z);
    if Eval(q, d, p) == Zero && p !in z {
      assert Vanishes(q, d, z + [p]) by {
        forall i | 0 <= i < |z + [p]| ensures Eval(q, d, (z + [p])[i]) == Zero {}
      }
      RootsAtMost(q, d, z + [p]);
    }
  }

  lemma WeighedDistinct(q: E, s: seq<E>, y: seq<E>, x: seq<E>, t: nat)
    requires Weighed(q, s, y, x, t)
    ensures Distinct(x) && NonZero(x) && |y| == |x| <= t
  {
  }

  lemma LocatedDistinct(q: E, s: seq<E>, x: seq<E>, t: nat)
    requires Located(q, s, x, t)
    ensures Distinct(x) && NonZero(x) && |x| <= t
  {
  }

  // ---- Massey's lemma: no shorter recurrence fits ---------------------------------------------------

  /** A recurrence with constant term 1, of length |d| - 1, that produces s[|d|-1] .. s[n-1]. */
  ghost predicate Generator(q: E, d: seq<E>, s: seq<E>, n: int) {
    |d| > 0 && d[0] == One && Generates(q, d, |d| - 1, s, n)
  }

  /** c applied to the sequence of discrepancies of d. */
  function Twice(q: E, c: seq<E>, d: seq<E>, s: seq<E>, n: int): E {
    if |c| == 0 then Zero else Add(Mul(q, c[0], Discrepancy(q, d, s, n)), Twice(q, c[1..], d, s, n - 1))
  }

  lemma {:induction false} TwiceRight(q: E, c: seq<E>, d: seq<E>, s: seq<E>, n: int)
    requires |d| > 0
    ensures Twice(q, c, d, s, n) == Add(Mul(q, d[0], Discrepancy(q, c, s, n)), Twice(q, c, d[1..], s, n - 1))
    decreases |c|
  {
    hide Mul, Add, At;
    MulOne(q, d[0]);
    AddBasics(Zero, Zero);
    if |c| > 0 {
      TwiceRight(q, c[1..], d, s, n - 1);
      var a, u, v := At(s, n), Discrepancy(q, d[1..], s, n - 1), Discrepancy(q, c[1..], s, n - 1);
      MulDistrib(q, Mul(q, d[0], a), u, c[0]);
      Triple(q, c[0], d[0], a);
      MulDistrib(q, Mul(q, c[0], a), v, d[0]);
      AddFour(Mul(q, d[0], Mul(q, c[0], a)), Mul(q, c[0], u), Mul(q, d[0], v), Twice(q, c[1..], d[1..], s, n - 2));
    }
  }

  lemma {:induction false} TwiceZero(q: E, c: seq<E>, d: seq<E>, s: seq<E>, n: int)
    requires forall i :: n - |c| < i <= n ==> Discrepancy(q, d, s, i) == Zero
    ensures Twice(q, c, d, s, n) == Zero
    decreases |c|
  {
    hide Mul, Add, Discrepancy;
    if |c| > 0 {
      TwiceZero(q, c[1..], d, s, n - 1);
      MulOne(q, c[0]);
      AddBasics(Zero, Zero);
    }
  }

  lemma {:induction false} TwiceSwap(q: E, c: seq<E>, d: seq<E>, s: seq<E>, n: int)
    ensures Twice(q, c, d, s, n) == Twice(q, d, c, s, n)
    decreases |d|
  {
    hide Mul, Add, Discrepancy;
    if |d| > 0 {
      TwiceRight(q, c, d, s, n);
      TwiceSwap(q, c, d[1..], s, n - 1);
    } else {
      TwiceNothing(q, c, d, s, n);
    }
  }

  lemma TwiceNothing(q: E, c: seq<E>, d: seq<E>, s: seq<E>, n: int)
    requires |d| == 0
    ensures Twice(q, c, d, s, n) == Twice(q, d, c, s, n)
  {
    hide Mul, Add, Twice;
    TwiceZero(q, c, d, s, n);
    TwiceZero(q, d, c, s, n);
  }

  /** A recurrence of length l that first fails at n forces length n + 1 - l on every one that does not. */
  lemma MasseyStep(q: E, c: seq<E>, l: nat, d: seq<E>, s: seq<E>, n: nat)
    requires l < |c| && Degree(c, l) && Generates(q, c, l, s, n) && l <= n
    requires Discrepancy(q, c, s, n) != Zero
    requires Generator(q, d, s, n + 1)
    ensures n + 1 - l < |d|
  {
    hide Mul, Add, Discrepancy, Twice;
    if |d| <= n + 1 - l {
      var e := c[..l + 1];
      TwiceZero(q, e, d, s, n);
      TwiceSwap(q, e, d, s, n);
      TwiceHead(q, d, e, s, n);
      DiscrepancyCut(q, c, l + 1, s, n);
      forall i | n - |d| < i <= n - 1 ensures Discrepancy(q, e, s, i) == Zero {
        DiscrepancyCut(q, c, l + 1, s, i);
      }
      TwiceZero(q, d[1..], e, s, n - 1);
      MulOne(q, Discrepancy(q, e, s, n));
      AddBasics(Discrepancy(q, e, s, n), Zero);
    }
  }

  lemma TwiceHead(q: E, c: seq<E>, d: seq<E>, s: seq<E>, n: int)
    requires |c| > 0
    ensures Twice(q, c, d, s, n) == Add(Mul(q, c[0], Discrepancy(q, d, s, n)), Twice(q, c[1..], d, s, n - 1))
  {
  }

  // ---- the algorithm ------------------------------------------------------------------------------

  /** The candidate c of length l has no discrepancy so far; b_poly is the candidate before the last
      length change, whose first discrepancy was b, m steps ago. */
  ghost predicate Progress(q: E, s: seq<E>, c: Poly11, l: nat, bPoly: Poly11, m: nat, b: E, n: nat) {
    && 1 <= m && l <= n && l + m <= n + 1 && l <= MAX_T
    && c[0] == One && Degree(c, l) && Generates(q, c, l, s, n)
    && b != Zero && Degree(bPoly, n + 1 - m - l)
    && (l > 0 ==>
          (m <= n && Generates(q, bPoly, n + 1 - m - l, s, n - m) && Discrepancy(q, bPoly, s, n - m) == b))
  }

  lemma UpdateDegree(q: E, c: Poly11, l: nat, bPoly: Poly11, coef: E, m: nat, n: nat, l': nat)
    requires 1 <= m && l + m <= n + 1 && Degree(c, l) && Degree(bPoly, n + 1 - m - l) && c[0] == One
    requires l <= l' && n + 1 - l <= l'
    ensures Degree(Combine(q, c, bPoly, coef, m), l') && Combine(q, c, bPoly, coef, m)[0] == One
  {
    hide Mul, Add;
    MulOne(q, coef);
    AddBasics(Zero, Zero);
  }

  lemma UpdateGenerates(q: E, s: seq<E>, c: Poly11, l: nat, bPoly: Poly11, m: nat, b: E, n: nat, coef: E, l': nat)
    requires Progress(q, s, c, l, bPoly, m, b, n)
    requires Mul(q, coef, b) == Discrepancy(q, c, s, n)
    requires l <= l' <= MAX_T && n + 1 - l <= l'
    ensures Generates(q, Combine(q, c, bPoly, coef, m), l', s, n + 1)
  {
    hide Mul, Add, Discrepancy, Combine;
    forall i | l' <= i < n + 1 ensures Discrepancy(q, Combine(q, c, bPoly, coef, m), s, i) == Zero {
      CombineShifts(q, c, bPoly, coef, m, s, i);
      MulOne(q, coef);
      AddBasics(Zero, Zero);
      AddBasics(Discrepancy(q, c, s, n), Zero);
    }
  }

  lemma Coefficient(q: E, delta: E, b: E)
    requires Primitive(q) && b != Zero
    ensures Mul(q, Mul(q, delta, Inv(q, b)), b) == delta
  {
    hide Mul, Primitive, Inv;
    InvWorks(q, b);
    MulComm(q, Inv(q, b), b);
    MulAssoc(q, delta, Inv(q, b), b);
    MulOne(q, delta);
  }

  /** The discrepancy loop. The source's guard `i > MAX_T` never fires: l <= MAX_T throughout. */
  method ComputeDelta(q: E, tables: Tables, c: Poly11, l: nat, s: seq<E>, n: nat) returns (delta: E)
    requires TablesOk(q, tables) && l <= n < |s| && l <= MAX_T && c[0] == One && Degree(c, l)
    ensures delta == Discrepancy(q, c, s, n)
  {
    hide Mul, Add, TablesOk;
    delta := s[n];
    FirstTerm(q, c, s, n);
    var i := 1;
    while i <= l
      invariant 1 <= i <= l + 1
      invariant delta == Discrepancy(q, c[..i], s, n)
    {
      DiscrepancyAppend(q, c[..i], c[i], s, n);
      assert c[..i] + [c[i]] == c[..i + 1];
      delta := Add(delta, GfMul(q, tables, c[i], s[n - i]));
      i := i + 1;
    }
    DiscrepancyCut(q, c, l + 1, s, n);
  }

  lemma FirstTerm(q: E, c: Poly11, s: seq<E>, n: nat)
    requires n < |s| && c[0] == One
    ensures Discrepancy(q, c[..1], s, n) == s[n]
  {
    hide Mul, Add;
    assert c[..1][1..] == [];
    MulOne(q, s[n]);
    AddBasics(s[n], Zero);
  }

  /** `for idx in 0..=MAX_T { if idx >= m { c[idx] ^= coef * b_poly[idx - m] } }` */
  method Update(q: E, tables: Tables, c0: Poly11, coef: E, bPoly: Poly11, m: nat) returns (c: Poly11)
    requires TablesOk(q, tables)
    ensures c == Combine(q, c0, bPoly, coef, m)
  {
    hide Mul, Add, TablesOk;
    c := c0;
    var i := 0;
    while i <= MAX_T
      invariant 0 <= i <= MAX_T + 1
      invariant forall j :: 0 <= j < i ==> c[j] == Combine(q, c0, bPoly, coef, m)[j]
      invariant forall j :: i <= j <= MAX_T ==> c[j] == c0[j]
    {
      if i >= m {
        c := c[i := Add(c[i], GfMul(q, tables, coef, bPoly[i - m]))];
      }
      i := i + 1;
    }
  }

  /** l is a lower bound for the length of every recurrence that fits, and for the number of errors. */
  ghost predicate Minimal(q: E, s: seq<E>, l: nat, t: nat, n: nat) {
    && (forall x :: Located(q, s, x, t) ==> l <= |x|)
    && (forall d :: Generator(q, d, s, n) ==> l < |d|)
  }

  lemma Begin(q: E, s: seq<E>, t: nat, c: Poly11)
    requires c == seq(MAX_T + 1, _ => Zero)[0 := One]
    ensures Progress(q, s, c, 0, c, 1, One, 0) && Minimal(q, s, 0, t, 0)
  {
    hide Generates, Discrepancy, Located;
    OneIsOdd();
    NothingYet(q, c, s);
  }

  lemma NothingYet(q: E, c: seq<E>, s: seq<E>)
    ensures Generates(q, c, 0, s, 0)
  {
  }

  lemma Narrower(q: E, s: seq<E>, l: nat, t: nat, n: nat)
    requires Minimal(q, s, l, t, n)
    ensures Minimal(q, s, l, t, n + 1)
  {
    hide Located, Discrepancy;
    forall d | Generator(q, d, s, n + 1) ensures l < |d| {
      assert Generator(q, d, s, n);
    }
  }

  /** No discrepancy: the candidate stays. */
  lemma KeepStep(q: E, s: seq<E>, c: Poly11, l: nat, bPoly: Poly11, m: nat, b: E, n: nat, t: nat)
    requires Progress(q, s, c, l, bPoly, m, b, n) && Discrepancy(q, c, s, n) == Zero && Minimal(q, s, l, t, n)
    ensures Progress(q, s, c, l, bPoly, m + 1, b, n + 1) && Minimal(q, s, l, t, n + 1)
  {
    hide Discrepancy, Minimal;
    Narrower(q, s, l, t, n);
  }

  /** A discrepancy with 2l > n: correct the candidate without growing it. */
  lemma CorrectStep(q: E, s: seq<E>, c: Poly11, l: nat, bPoly: Poly11, m: nat, b: E, n: nat, coef: E, t: nat)
    requires Progress(q, s, c, l, bPoly, m, b, n) && Mul(q, coef, b) == Discrepancy(q, c, s, n)
    requires 2 * l > n && Minimal(q, s, l, t, n)
    ensures Progress(q, s, Combine(q, c, bPoly, coef, m), l, bPoly, m + 1, b, n + 1)
    ensures Minimal(q, s, l, t, n + 1)
  {
    hide Discrepancy, Minimal, Mul, Combine, Generates, Degree;
    Narrower(q, s, l, t, n);
    UpdateDegree(q, c, l, bPoly, coef, m, n, l);
    UpdateGenerates(q, s, c, l, bPoly, m, b, n, coef, l);
  }

  lemma GrowMinimal(q: E, s: seq<E>, c: Poly11, l: nat, n: nat, t: nat)
    requires Primitive(q) && l < |c| && Degree(c, l) && Generates(q, c, l, s, n) && l <= n < 2 * t
    requires Discrepancy(q, c, s, n) != Zero
    ensures Minimal(q, s, n + 1 - l, t, n + 1)
  {
    hide Discrepancy, Primitive, Generates, Degree, Located, Generator;
    forall x | Located(q, s, x, t) ensures n + 1 - l <= |x| {
      LocatedIsWeighed(q, s, x, t);
      LengthStaysBelow(q, c, l, s, Ones(|x|), x, t, n);
    }
    forall d | Generator(q, d, s, n + 1) ensures n + 1 - l < |d| { MasseyStep(q, c, l, d, s, n); }
  }

  /** A discrepancy with 2l <= n: correct the candidate, grow it, and remember the one that failed. */
  lemma GrowStep(q: E, s: seq<E>, c: Poly11, l: nat, bPoly: Poly11, m: nat, b: E, n: nat, coef: E, delta: E)
    requires Progress(q, s, c, l, bPoly, m, b, n) && Mul(q, coef, b) == Discrepancy(q, c, s, n) == delta
    requires 2 * l <= n && n + 1 - l <= MAX_T && delta != Zero
    ensures Progress(q, s, Combine(q, c, bPoly, coef, m), n + 1 - l, c, 1, delta, n + 1)
  {
    hide Discrepancy, Mul, Combine, Generates, Degree;
    UpdateDegree(q, c, l, bPoly, coef, m, n, n + 1 - l);
    UpdateGenerates(q, s, c, l, bPoly, m, b, n, coef, n + 1 - l);
  }

  /** A length past the buffer rules out every pattern of at most t errors. */
  lemma TooLong(q: E, s: seq<E>, l: nat, t: nat, n: nat)
    requires Minimal(q, s, l, t, n) && t < l
    ensures forall x :: !Located(q, s, x, t)
  {
  }

  /** Decoding fails only when no non-empty pattern of at most t errors explains the syndromes, and a
      locator found is the shortest recurrence for all 2t of them. */
  method FindLocator(q: E, tables: Tables, s: seq<E>, t: nat) returns (r: Locator)
    requires TablesOk(q, tables) && t <= MAX_T && |s| == 2 * MAX_T
    ensures r.NotConverged? ==> forall x :: Located(q, s, x, t) ==> |x| == 0
    ensures r.Found? ==> 1 <= r.l <= t && r.c[0] == One && Degree(r.c, r.l) && Generates(q, r.c, r.l, s, 2 * t)
    ensures r.Found? ==> forall x :: Located(q, s, x, t) ==> r.l <= |x|
    ensures r.Found? ==> forall d :: Generator(q, d, s, 2 * t) ==> r.l < |d|
  {
    hide Mul, Add, TablesOk, Minimal, Located, Generates, Discrepancy, Combine, Degree, Generator, Primitive, Inv;
    PrimitiveTables(q, tables);
    var c: Poly11 := seq(MAX_T + 1, _ => Zero)[0 := One];
    var bPoly: Poly11, l: nat, m: nat, b: E, n: nat := c, 0, 1, One, 0;
    Begin(q, s, t, c);
    while n < 2 * t
      invariant 0 <= n <= 2 * t
      invariant Progress(q, s, c, l, bPoly, m, b, n) && Minimal(q, s, l, t, n)
    {
      var delta := ComputeDelta(q, tables, c, l, s, n);
      if delta == Zero {
        KeepStep(q, s, c, l, bPoly, m, b, n, t);
        m := m + 1;
      } else if 2 * l <= n {
        var tPoly := c;
        var coef := GfMul(q, tables, delta, GfInv(q, tables, b));
        Coefficient(q, delta, b);
        c := Update(q, tables, c, coef, bPoly, m);
        GrowMinimal(q, s, tPoly, l, n, t);
        var newL := n + 1 - l;
        if newL > MAX_T {
          TooLong(q, s, newL, t, n + 1);
          return NotConverged;
        }
        GrowStep(q, s, tPoly, l, bPoly, m, b, n, coef, delta);
        l := newL;
        bPoly := tPoly;
        b := delta;
        m := 1;
      } else {
        var coef := GfMul(q, tables, delta, GfInv(q, tables, b));
        Coefficient(q, delta, b);
        CorrectStep(q, s, c, l, bPoly, m, b, n, coef, t);
        c := Update(q, tables, c, coef, bPoly, m);
        m := m + 1;
      }
      n := n + 1;
    }
    if l == 0 || l > t {
      NoneLeft(q, s, c, l, t);
      return NotConverged;
    }
    MinimalMeans(q, s, l, t, n);
    return Found(c, l);
  }

  lemma PrimitiveTables(q: E, tables: Tables)
    requires TablesOk(q, tables)
    ensures Primitive(q)
  {
  }

  lemma MinimalMeans(q: E, s: seq<E>, l: nat, t: nat, n: nat)
    requires Minimal(q, s, l, t, n)
    ensures forall x :: Located(q, s, x, t) ==> l <= |x|
    ensures forall d :: Generator(q, d, s, n) ==> l < |d|
  {
  }

  /** Length zero means every syndrome is zero, which only the empty pattern explains. */
  lemma NoneLeft(q: E, s: seq<E>, c: Poly11, l: nat, t: nat)
    requires Primitive(q) && Minimal(q, s, l, t, 2 * t) && (l == 0 || l > t)
    requires c[0] == One && Degree(c, l) && Generates(q, c, l, s, 2 * t)
    ensures forall x :: Located(q, s, x, t) ==> |x| == 0
  {
    hide Located, Minimal, Generates, Degree, Primitive;
    if l > t {
      TooLong(q, s, l, t, 2 * t);
    } else {
      forall x | Located(q, s, x, t) ensures |x| == 0 {
        LocatedIsWeighed(q, s, x, t);
        LocatorRoots(q, c, 0, s, Ones(|x|), x, t, Zero);
      }
    }
  }
}
