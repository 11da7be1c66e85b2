/** Why the CCSDS block decoder restores every word with at most 16 wrong symbols. */
module CcsdsTheory {
  import opened Gf256
  import opened GfOrbit
  import opened GfPoly
  import opened BerlekampMassey
  import opened BchWord
  import opened CcsdsCode
  import opened CcsdsErrors
  import opened CcsdsLocator
  import opened CcsdsSearch
  import opened CcsdsDecoder
  import Forney

  /** v differs from the codeword c in w symbols. */
  ghost predicate RsNear(v: seq<E>, c: seq<E>, w: nat) {
    RsCodeword(c) && |v| == |c| && ErrorCount(AddAll(v, c)) == w
  }

  /** What the locator search promises. */
  ghost predicate LocatorOk(syn: seq<E>, lambda: Poly33, l: nat) {
    && l <= NROOTS && lambda[0] == One && Degree(lambda, l)
    && BerlekampMassey.Generates(Q, lambda, l, syn, NROOTS) && Shortest(syn, l)
  }

  ghost predicate DegreeOk(lambda: Poly33, deg: nat) {
    deg <= NROOTS && Degree(lambda, deg) && (deg > 0 ==> lambda[deg] != Zero)
  }

  lemma AddBack(v: seq<E>, c: seq<E>)
    requires |v| == |c|
    ensures AddAll(c, AddAll(v, c)) == v && AddAll(v, AddAll(v, c)) == c
  {
    hide Add;
    forall i | 0 <= i < |v| ensures Add(c[i], Add(v[i], c[i])) == v[i] && Add(v[i], Add(v[i], c[i])) == c[i] {
      AddBasics(v[i], c[i]);
      AddBasics(c[i], v[i]);
      AddBasics(c[i], Add(v[i], c[i]));
      AddBasics(v[i], Add(v[i], c[i]));
    }
  }

  /** The syndromes of a word near a codeword are weighted power sums of its error locators. */
  lemma NearIsWeighed(v: seq<E>, c: seq<E>, w: nat, syn: seq<E>)
    requires Primitive(Q) && SyndromesOf(v, syn) && RsNear(v, c, w) && w <= T
    ensures var e := AddAll(v, c);
            Weighed(Q, syn, Values(e), Places(e), T) && |Places(e)| == w
  {
    hide Reverse, Root, Primitive, Poly, Weighed, Places, Values, AddAll, ErrorCount;
    var e := AddAll(v, c);
    AddBack(v, c);
    SyndromesOfError(c, e, syn);
    ErrorIsWeighed(e, syn);
    CcsdsErrors.Lengths(e);
  }

  /** With w weighted locators behind the syndromes, length and degree of the locator polynomial are w. */
  lemma DegreeIsCount(syn: seq<E>, lambda: Poly33, l: nat, deg: nat, y: seq<E>, x: seq<E>)
    requires Primitive(Q) && LocatorOk(syn, lambda, l) && DegreeOk(lambda, deg) && Weighed(Q, syn, y, x, T)
    ensures deg == |x| && BerlekampMassey.Generates(Q, lambda, deg, syn, NROOTS)
  {
    hide Primitive, Poly, Weighed, Eval, Discrepancy, Inverses;
    WeighedDistinct(Q, syn, y, x, T);
    LocatorRoots(Q, lambda, l, syn, y, x, T, Zero);
    InversesAreRoots(Q, lambda, l, syn, y, x, T);
    InversesDistinct(Q, x);
    var z := Inverses(Q, x);
    forall k | 0 <= k < |z| ensures Eval(Q, lambda[..deg + 1], z[k]) == Zero {
      EvalCut(Q, lambda, deg + 1, z[k]);
      EvalCut(Q, lambda, l + 1, z[k]);
    }
    RootsAtMost(Q, lambda[..deg + 1], z);
  }

  /** The locator polynomial of exactly these errors, cut to its degree. */
  ghost predicate RsLocator(syn: seq<E>, lambda: Poly33, d: seq<E>, e: seq<E>) {
    var x := Places(e);
    && |x| <= T && d == lambda[..|x| + 1] && Degree(lambda, |x|) && lambda[0] == One
    && BerlekampMassey.Generates(Q, lambda, |x|, syn, NROOTS) && Weighed(Q, syn, Values(e), x, T)
    && |e| == N
  }

  lemma InverseIs(q: E, a: E, z: E)
    requires Primitive(q) && a != Zero && Mul(q, a, z) == One
    ensures Inv(q, a) == z
  {
    hide Primitive, Mul, Inv;
    InvWorks(q, a);
    MulComm(q, a, z);
    MulComm(q, a, Inv(q, a));
    InverseOfInverse(q, Inv(q, a), z, a);
  }

  /** Entry m of the locators belongs to position pos; its inverse is alpha^RootExp(pos). */
  lemma InverseAt(e: seq<E>, m: nat, pos: nat)
    requires Primitive(Q) && |e| == N && m < |Places(e)| && NonZero(Places(e)) && pos < N
    requires Places(e)[m] == Exp(Q, PRIM * (N - 1 - pos))
    ensures Inverses(Q, Places(e))[m] == Exp(Q, RootExp(pos)) && Mul(Q, Places(e)[m], Exp(Q, RootExp(pos))) == One
  {
    hide Primitive, Mul, Inv, Exp, RootExp, Places, Poly;
    RootExpInverts(pos);
    InverseIs(Q, Places(e)[m], Exp(Q, RootExp(pos)));
  }

  lemma WrongIsRoot(syn: seq<E>, lambda: Poly33, d: seq<E>, e: seq<E>, pos: nat)
    requires Primitive(Q) && RsLocator(syn, lambda, d, e) && pos < N && e[pos] != Zero
    ensures IsRoot(d, RootExp(pos))
  {
    hide Mul, Pow, Inv, WeightOf, Primitive, Exp, RootExp, Places, Poly, Weighed, Values, Inverses, Eval, Degree,
         BerlekampMassey.Generates;
    var x, z := Places(e), Exp(Q, RootExp(pos));
    var m := EntryOf(e, pos);
    WeighedDistinct(Q, syn, Values(e), x, T);
    InverseAt(e, m, pos);
    assert Inverses(Q, x)[m] == z;
    LocatorRoots(Q, lambda, |x|, syn, Values(e), x, T, z);
  }

  lemma RootIsWrong(syn: seq<E>, lambda: Poly33, d: seq<E>, e: seq<E>, i: nat) returns (pos: nat)
    requires Primitive(Q) && RsLocator(syn, lambda, d, e) && 1 <= i <= 255 && IsRoot(d, i)
    ensures pos < N && e[pos] != Zero && RootExp(pos) == i
  {
    hide Primitive, Exp, RootExp, Places, Poly, Weighed, Values, Inverses, Eval, Degree, BerlekampMassey.Generates;
    var x := Places(e);
    WeighedDistinct(Q, syn, Values(e), x, T);
    LocatorRoots(Q, lambda, |x|, syn, Values(e), x, T, Exp(Q, i));
    var m :| 0 <= m < |x| && Inverses(Q, x)[m] == Exp(Q, i);
    pos := EntryAt(e, m);
    InverseAt(e, m, pos);
    SameExponent(i, RootExp(pos));
  }

  lemma SameExponent(i: nat, j: nat)
    requires Primitive(Q) && 1 <= i <= 255 && 1 <= j <= 255 && Exp(Q, i) == Exp(Q, j)
    ensures i == j
  {
    hide Primitive, Exp, Poly;
    ExpWraps(Q, i);
    ExpWraps(Q, j);
    var a, b := i % 255, j % 255;
    if a < b { ExpInjective(Q, a, b); }
    if b < a { ExpInjective(Q, b, a); }
  }

  // ---- the search finds exactly the wrong positions -----------------------------------------------------------------

  function RootPowers(root: seq<nat>): (z: seq<E>)
    ensures |z| == |root|
  {
    seq(|root|, k requires 0 <= k < |root| => Exp(Q, root[k]))
  }

  lemma PowersDistinct(d: seq<E>, root: seq<nat>, bound: nat)
    requires Primitive(Q) && RootsBelow(d, root, bound) && bound <= N + 1
    ensures Distinct(RootPowers(root)) && Vanishes(Q, d, RootPowers(root))
  {
    hide Primitive, Exp, Poly, Eval;
    forall a, b | 0 <= a < b < |root| ensures RootPowers(root)[a] != RootPowers(root)[b] {
      if Exp(Q, root[a]) == Exp(Q, root[b]) { SameExponent(root[a], root[b]); }
    }
    forall k | 0 <= k < |root| ensures Eval(Q, d, RootPowers(root)[k]) == Zero { assert IsRoot(d, root[k]); }
  }

  /** A full list of roots leaves none out. */
  lemma FullList(d: seq<E>, root: seq<nat>, bound: nat, i: nat)
    requires Primitive(Q) && RootsBelow(d, root, bound) && bound <= N + 1 && |root| + 1 == |d| && d[0] == One
    requires 1 <= i <= 255 && IsRoot(d, i)
    ensures i in root
  {
    hide Primitive, Exp, Poly, Eval;
    if i !in root {
      PowersDistinct(d, root, bound);
      var z := RootPowers(root) + [Exp(Q, i)];
      forall a, b | 0 <= a < b < |z| ensures z[a] != z[b] {
        if b == |root| && Exp(Q, root[a]) == Exp(Q, i) { SameExponent(root[a], i); }
      }
      RootsAtMost(Q, d, z);
    }
  }

  lemma WrongIsListed(syn: seq<E>, lambda: Poly33, d: seq<E>, e: seq<E>, root: seq<nat>, bound: nat, pos: nat)
    requires Primitive(Q) && RsLocator(syn, lambda, d, e) && RootsBelow(d, root, bound) && bound <= N + 1
    requires |root| <= |d| - 1 && (bound == N + 1 || |root| == |d| - 1) && pos < N && e[pos] != Zero
    ensures RootExp(pos) in root
  {
    hide Primitive, Exp, Poly, Eval, IsRoot, RootExp, Places, Values, Weighed, Degree, BerlekampMassey.Generates;
    WrongIsRoot(syn, lambda, d, e, pos);
    if |root| == |d| - 1 { FullList(d, root, bound, RootExp(pos)); }
  }

  lemma AllListed(syn: seq<E>, lambda: Poly33, d: seq<E>, e: seq<E>, root: seq<nat>, bound: nat)
    requires Primitive(Q) && RsLocator(syn, lambda, d, e) && RootsBelow(d, root, bound) && bound <= N + 1
    requires |root| <= |d| - 1 && (bound == N + 1 || |root| == |d| - 1)
    ensures |root| == |Places(e)|
  {
    hide Primitive, Exp, Poly, Eval, IsRoot, RootExp, Places, Values, Weighed, Degree, Inverses,
         BerlekampMassey.Generates, RootsBelow;
    var x := Places(e);
    WeighedDistinct(Q, syn, Values(e), x, T);
    InversesDistinct(Q, x);
    forall m | 0 <= m < |x| ensures Inverses(Q, x)[m] in RootPowers(root) {
      var pos := EntryAt(e, m);
      WrongIsListed(syn, lambda, d, e, root, bound, pos);
      InverseAt(e, m, pos);
      var k :| 0 <= k < |root| && root[k] == RootExp(pos);
      assert RootPowers(root)[k] == Inverses(Q, x)[m];
    }
    Crowd(Inverses(Q, x), RootPowers(root));
  }

  // ---- the values are right ---------------------------------------------------------------------

  lemma {:induction false} PowInverse(q: E, x: E, z: E, n: nat)
    requires Mul(q, x, z) == One
    ensures Mul(q, Pow(q, x, n), Pow(q, z, n)) == One
  {
    hide Mul;
    MulOne(q, One);
    if n > 0 {
      PowInverse(q, x, z, n - 1);
      var p, r := Pow(q, x, n - 1), Pow(q, z, n - 1);
      MulAssoc(q, x, p, Mul(q, z, r));
      Triple(q, p, z, r);
      MulOne(q, z);
    }
  }

  /** (v P D) R == v D when P R == 1. */
  lemma WeightCancels(q: E, v: E, p: E, d: E, r: E)
    requires Mul(q, p, r) == One
    ensures Mul(q, v, d) == Mul(q, Mul(q, Mul(q, v, p), d), r)
  {
    hide Mul;
    MulSwap(q, Mul(q, v, p), d, r);
    MulAssoc(q, v, p, r);
    MulOne(q, v);
  }

  /** At every locator the reversed locator polynomial vanishes. */
  lemma ReverseVanishes(q: E, d: seq<E>, x: seq<E>)
    requires Primitive(q) && NonZero(x) && |d| > 0 && Vanishes(q, d, Inverses(q, x))
    ensures forall k :: 0 <= k < |x| ==> Reverse(q, d, x[k]) == Zero
  {
    hide Primitive, Mul, Inv, Eval, Reverse;
    forall k | 0 <= k < |x| ensures Reverse(q, d, x[k]) == Zero {
      var z := Inverses(q, x)[k];
      InvWorks(q, x[k]);
      ReverseIsEval(q, d, x[k], z);
      MulOne(q, Pow(q, x[k], |d| - 1));
    }
  }

  /** Forney at entry m, in terms of the cut polynomial: the derivative does not vanish, and the
      evaluator is the weight times it. */
  lemma ForneyAt(q: E, d: seq<E>, syn: seq<E>, y: seq<E>, x: seq<E>, m: nat, z: E)
    requires Primitive(q) && Weighed(q, syn, y, x, T) && |d| == |x| + 1 && d[0] == One && m < |x|
    requires Vanishes(q, d, Inverses(q, x)) && z == Inverses(q, x)[m]
    ensures Forney.OddTerms(q, d, z) != Zero
    ensures Eval(q, Forney.Evaluator(q, d, syn, |x|), z) == Mul(q, y[m], Forney.OddTerms(q, d, z))
  {
    hide Primitive, Mul, Inv, Eval, Reverse, Forney.OddTerms, Forney.Derivative, Forney.Evaluator, PowerSum;
    var zs := Inverses(q, x);
    InversesDistinct(q, x);
    ReverseVanishes(q, d, x);
    forall k | 0 <= k < |x| ensures Mul(q, x[k], zs[k]) == One && Eval(q, d, zs[k]) == Zero { InvWorks(q, x[k]); }
    Forney.SimpleRoots(q, d, x, zs, m);
    Forney.ForneyFormula(q, d, syn, y, x, m, z);
    Forney.DerivativeIsOdd(q, d, z);
  }

  lemma EvaluatorIs(lambda: Poly33, syn: seq<E>, omega: seq<E>, w: nat, z: E)
    requires omega == OmegaOf(lambda, syn) && w <= T && Degree(lambda, w)
    requires BerlekampMassey.Generates(Q, lambda, w, syn, NROOTS)
    ensures Eval(Q, omega, z) == Eval(Q, Forney.Evaluator(Q, lambda[..w + 1], syn, w), z)
  {
    hide Eval, Discrepancy, Poly;
    EvalCut(Q, omega, w, z);
    var o := Forney.Evaluator(Q, lambda[..w + 1], syn, w);
    forall i | 0 <= i < w ensures o[i] == omega[i] { DiscrepancyCut(Q, lambda, w + 1, syn, i); }
    assert o == omega[..w];
  }

  /** The magnitude computed for a wrong position is its error value. */
  lemma MagnitudeIsError(syn: seq<E>, lambda: Poly33, d: seq<E>, e: seq<E>, omega: seq<E>, pos: nat)
    requires Primitive(Q) && RsLocator(syn, lambda, d, e) && omega == OmegaOf(lambda, syn)
    requires pos < N && e[pos] != Zero
    ensures Forney.OddTerms(Q, lambda, Exp(Q, RootExp(pos))) != Zero
    ensures Magnitude(lambda, omega, RootExp(pos)) == e[pos]
  {
    hide Primitive, Mul, Exp, Pow, Inv, Poly, Eval, Places, Values, Weighed, Inverses, RootExp,
         Forney.OddTerms, Forney.Evaluator, BerlekampMassey.Generates, Discrepancy;
    var x, y := Places(e), Values(e);
    var m := EntryOf(e, pos);
    var z := Exp(Q, RootExp(pos));
    WeighedDistinct(Q, syn, y, x, T);
    InverseAt(e, m, pos);
    InversesAreRoots(Q, lambda, |x|, syn, y, x, T);
    ForneyAt(Q, d, syn, y, x, m, z);
    OddCut(Q, lambda, |x| + 1, z);
    EvaluatorIs(lambda, syn, omega, |x|, z);
    PowInverse(Q, x[m], z, FCR - 1);
    PowExp(Q, RootExp(pos), FCR - 1);
    var den := Forney.OddTerms(Q, lambda, z);
    WeightCancels(Q, e[pos], Pow(Q, x[m], FCR - 1), den, Pow(Q, z, FCR - 1));
    QuotientIs(Q, Mul(Q, y[m], den), Pow(Q, z, FCR - 1), den, e[pos]);
  }

  /** All magnitudes together restore the codeword. */
  lemma Restores(v: seq<E>, c: seq<E>, syn: seq<E>, lambda: Poly33, d: seq<E>, omega: seq<E>,
                 root: seq<nat>, bound: nat)
    requires Primitive(Q) && |v| == |c| == N && RsLocator(syn, lambda, d, AddAll(v, c))
    requires omega == OmegaOf(lambda, syn) && RootsBelow(d, root, bound) && bound <= N + 1
    requires |root| <= |d| - 1 && (bound == N + 1 || |root| == |d| - 1)
    ensures Divides(lambda, root) && Corrected(v, lambda, omega, root) == c
  {
    hide Primitive, Exp, Poly, Add, RootExp, Magnitude, OmegaOf, RsLocator, IsRoot, Forney.OddTerms;
    var e := AddAll(v, c);
    AddBack(v, c);
    forall k | 0 <= k < |root| ensures Forney.OddTerms(Q, lambda, Exp(Q, root[k])) != Zero {
      var pos := RootIsWrong(syn, lambda, d, e, root[k]);
      MagnitudeIsError(syn, lambda, d, e, omega, pos);
    }
    forall p | 0 <= p < N ensures Corrected(v, lambda, omega, root)[p] == c[p] {
      assert c[p] == AddAll(v, e)[p] == Add(v[p], e[p]);
      if e[p] != Zero {
        WrongIsListed(syn, lambda, d, e, root, bound, p);
        MagnitudeIsError(syn, lambda, d, e, omega, p);
      } else {
        AddBasics(v[p], Zero);
        if RootExp(p) in root {
          var pos := RootIsWrong(syn, lambda, d, e, RootExp(p));
          LocOfRootExp(p);
          LocOfRootExp(pos);
        }
      }
    }
  }
}
