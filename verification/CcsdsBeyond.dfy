/** What the answer of the CCSDS block decoder is worth on any word, however many symbols are wrong: the
    corrected word is a codeword exactly when the locator polynomial's degree is the recurrence's length. */
module CcsdsBeyond {
  import opened Gf256
  import opened GfOrbit
  import opened GfPoly
  import opened BerlekampMassey
  import opened BchWord
  import opened CcsdsCode
  import opened CcsdsErrors
  import opened CcsdsLocator
  import opened CcsdsSearch
  import opened CcsdsDecoder
  import opened CcsdsTheory
  import BchGenerator
  import Forney
  import BchSound

  // ---- a recurrence with constant term 1 loses nothing ----------------------------------------------------------

  lemma {:induction false} SameDiscrepancies(q: E, d: seq<E>, s: seq<E>, s': seq<E>, n: nat)
    requires |d| > 0 && d[0] == One && n <= |s| && n <= |s'|
    requires forall i :: 0 <= i < n ==> Discrepancy(q, d, s, i) == Discrepancy(q, d, s', i)
    ensures forall i :: 0 <= i < n ==> s[i] == s'[i]
    decreases n
  {
    hide Mul, Add, Discrepancy;
    if n > 0 {
      SameDiscrepancies(q, d, s, s', n - 1);
      BchSound.DiscrepancyAgrees(q, d[1..], s, s', n - 2);
      LeadingTerm(q, d, s, n - 1);
      LeadingTerm(q, d, s', n - 1);
      var rest := Discrepancy(q, d[1..], s, n - 2);
      AddBasics(s[n - 1], rest);
      AddBasics(s'[n - 1], rest);
    }
  }

  lemma LeadingTerm(q: E, d: seq<E>, s: seq<E>, n: nat)
    requires |d| > 0 && d[0] == One && n < |s|
    ensures Discrepancy(q, d, s, n) == Add(s[n], Discrepancy(q, d[1..], s, n - 1))
  {
    hide Mul, Add;
    MulOne(q, s[n]);
  }

  // ---- what correcting one symbol does to the syndromes ------------------------------------------------------------

  /** Adding m to the symbol at pos adds m x^(|v|-1-pos) to the value at x. */
  lemma {:induction false} ReverseChange(q: E, v: seq<E>, pos: nat, m: E, x: E)
    requires pos < |v|
    ensures Reverse(q, v[pos := Add(v[pos], m)], x) == Add(Reverse(q, v, x), Mul(q, m, Pow(q, x, |v| - 1 - pos)))
    decreases |v|
  {
    hide Mul, Add, Pow;
    var u := v[pos := Add(v[pos], m)];
    var head, rest, t := Mul(q, v[0], Pow(q, x, |v| - 1)), Reverse(q, v[1..], x), Mul(q, m, Pow(q, x, |v| - 1 - pos));
    if pos == 0 {
      assert u[1..] == v[1..];
      MulDistrib(q, v[0], m, Pow(q, x, |v| - 1));
      AddAssoc(head, t, rest);
      AddAssoc(head, rest, t);
      AddBasics(t, rest);
    } else {
      assert u[1..] == v[1..][pos - 1 := Add(v[1..][pos - 1], m)];
      ReverseChange(q, v[1..], pos - 1, m, x);
      AddAssoc(head, rest, t);
    }
  }

  /** The locator of the position that root exponent i names. */
  function PlaceOf(i: nat): E
    requires i >= 1
  {
    Exp(Q, PRIM * (N - 1 - LocOf(i)))
  }

  function PlacesOf(root: seq<nat>): (x: seq<E>)
    requires forall k :: 0 <= k < |root| ==> root[k] >= 1
    ensures |x| == |root|
  {
    seq(|root|, k requires 0 <= k < |root| => PlaceOf(root[k]))
  }

  /** The weights the corrections give the syndromes. */
  ghost function CorrectionWeights(lambda: seq<E>, omega: seq<E>, root: seq<nat>): (y: seq<E>)
    requires Primitive(Q) && forall k :: 0 <= k < |root| ==> root[k] >= 1
    ensures |y| == |root|
  {
    seq(|root|, k requires 0 <= k < |root| => WeightOf(Magnitude(lambda, omega, root[k]), PlaceOf(root[k])))
  }

  lemma {:induction false} PowerSumAppend(q: E, y: seq<E>, x: seq<E>, b: E, a: E, e: nat)
    requires |y| == |x|
    ensures PowerSum(q, y + [b], x + [a], e) == Add(PowerSum(q, y, x, e), Mul(q, b, Pow(q, a, e)))
    decreases |y|
  {
    hide Mul, Add, Pow;
    var t := Mul(q, b, Pow(q, a, e));
    if |y| == 0 {
      assert (y + [b])[1..] == [] && (x + [a])[1..] == [];
      AddBasics(t, Zero);
    } else {
      assert (y + [b])[1..] == y[1..] + [b] && (x + [a])[1..] == x[1..] + [a];
      PowerSumAppend(q, y[1..], x[1..], b, a, e);
      AddAssoc(Mul(q, y[0], Pow(q, x[0], e)), PowerSum(q, y[1..], x[1..], e), t);
    }
  }

  /** What the corrections named by root add to syndrome i. */
  ghost function Shift(lambda: seq<E>, omega: seq<E>, root: seq<nat>, i: nat): E
    requires Primitive(Q) && forall k :: 0 <= k < |root| ==> root[k] >= 1
  {
    PowerSum(Q, CorrectionWeights(lambda, omega, root), PlacesOf(root), i + 1)
  }

  /** Correcting moves syndrome i by the weighted power sum of the corrections. */
  lemma {:induction false} SyndromeShifts(v: seq<E>, lambda: seq<E>, omega: seq<E>, root: seq<nat>, i: nat)
    requires Primitive(Q) && |v| == N && Rising(root) && forall k :: 0 <= k < |root| ==> 1 <= root[k] <= 255
    ensures Reverse(Q, Corrected(v, lambda, omega, root), Root(i))
         == Add(Reverse(Q, v, Root(i)), Shift(lambda, omega, root, i))
    decreases |root|
  {
    hide Primitive, Poly, Mul, Add, Pow, Exp, Reverse, Magnitude, Corrected, RootExp, LocOf, Root, WeightOf, PowerSum,
         PlaceOf;
    if |root| == 0 {
      assert root == [];
      NoneCorrected(v, lambda, omega);
      NoShift(lambda, omega, i);
      AddBasics(Reverse(Q, v, Root(i)), Zero);
    } else {
      var k := |root| - 1;
      var rest, r := root[..k], root[k];
      assert root == rest + [r];
      SyndromeShifts(v, lambda, omega, rest, i);
      CorrectedNext(v, lambda, omega, rest, r);
      var u, m := Corrected(v, lambda, omega, rest), Magnitude(lambda, omega, r);
      ReverseChange(Q, u, LocOf(r), m, Root(i));
      ShiftTerm(m, r, i);
      var y, x := CorrectionWeights(lambda, omega, rest), PlacesOf(rest);
      assert CorrectionWeights(lambda, omega, root) == y + [WeightOf(m, PlaceOf(r))];
      assert PlacesOf(root) == x + [PlaceOf(r)];
      PowerSumAppend(Q, y, x, WeightOf(m, PlaceOf(r)), PlaceOf(r), i + 1);
      AddAssoc(Reverse(Q, v, Root(i)), Shift(lambda, omega, rest, i),
               Mul(Q, WeightOf(m, PlaceOf(r)), Pow(Q, PlaceOf(r), i + 1)));
    }
  }

  lemma NoShift(lambda: seq<E>, omega: seq<E>, i: nat)
    requires Primitive(Q)
    ensures Shift(lambda, omega, [], i) == Zero
  {
    hide Primitive, Poly, Magnitude;
  }

  lemma ShiftTerm(m: E, r: nat, i: nat)
    requires r >= 1
    ensures Mul(Q, m, Pow(Q, Root(i), N - 1 - LocOf(r))) == Mul(Q, WeightOf(m, PlaceOf(r)), Pow(Q, PlaceOf(r), i + 1))
  {
    hide Poly, Mul, Pow, Exp, LocOf, WeightOf, Root;
    RootPower(i, N - 1 - LocOf(r));
    HeadTerm(m, PlaceOf(r), i);
  }

  // ---- the places belong to the roots -----------------------------------------------------------

  lemma PlaceInverts(i: nat)
    requires Primitive(Q) && 1 <= i <= 255
    ensures Mul(Q, PlaceOf(i), Exp(Q, i)) == One && PlaceOf(i) != Zero
  {
    hide Primitive, Poly, Mul, Exp, RootExp, LocOf;
    RootExpOfLoc(i);
    RootExpInverts(LocOf(i));
    ExpNotZeroP(Q, PRIM * (N - 1 - LocOf(i)));
  }

  lemma PlacesAreInverse(root: seq<nat>)
    requires Primitive(Q) && Rising(root) && forall k :: 0 <= k < |root| ==> 1 <= root[k] <= 255
    ensures Distinct(PlacesOf(root)) && NonZero(PlacesOf(root))
    ensures forall k :: 0 <= k < |root| ==> Mul(Q, PlacesOf(root)[k], RootPowers(root)[k]) == One
    ensures Distinct(RootPowers(root)) && NonZero(RootPowers(root))
  {
    hide Primitive, Poly, Mul, Exp, PlaceOf;
    forall k | 0 <= k < |root|
      ensures Mul(Q, PlacesOf(root)[k], RootPowers(root)[k]) == One && PlacesOf(root)[k] != Zero
              && RootPowers(root)[k] != Zero
    {
      PlaceInverts(root[k]);
      ExpNotZeroP(Q, root[k]);
    }
    forall a, b | 0 <= a < b < |root|
      ensures PlacesOf(root)[a] != PlacesOf(root)[b] && RootPowers(root)[a] != RootPowers(root)[b]
    {
      if Exp(Q, root[a]) == Exp(Q, root[b]) { SameExponent(root[a], root[b]); }
      PlaceInverts(root[a]);
      PlaceInverts(root[b]);
      MulComm(Q, PlaceOf(root[a]), Exp(Q, root[a]));
      MulComm(Q, PlaceOf(root[b]), Exp(Q, root[b]));
      if PlaceOf(root[a]) == PlaceOf(root[b]) {
        InverseOfInverse(Q, Exp(Q, root[a]), Exp(Q, root[b]), PlaceOf(root[a]));
      }
    }
  }

  // ---- the corrections solve the evaluator equations at every root ------------------------------

  lemma ReverseZeroAt(q: E, d: seq<E>, x: E, z: E)
    requires |d| > 0 && Mul(q, x, z) == One && Eval(q, d, z) == Zero
    ensures Reverse(q, d, x) == Zero
  {
    hide Mul, Eval, Reverse;
    ReverseIsEval(q, d, x, z);
    MulOne(q, Pow(q, x, |d| - 1));
  }

  /** ((w r) / d) p d == w when p r == 1. */
  lemma WeightUndoes(q: E, w: E, r: E, d: E, p: E)
    requires Primitive(q) && d != Zero && Mul(q, p, r) == One
    ensures Mul(q, Mul(q, Mul(q, Mul(q, w, r), Inv(q, d)), p), d) == w
  {
    hide Mul, Primitive, Inv;
    var m := Mul(q, Mul(q, w, r), Inv(q, d));
    InvWorks(q, d);
    MulComm(q, Inv(q, d), d);
    MulAssoc(q, Mul(q, w, r), Inv(q, d), d);
    MulOne(q, Mul(q, w, r));
    MulSwap(q, m, p, d);
    MulAssoc(q, w, r, p);
    MulComm(q, r, p);
    MulOne(q, w);
  }

  /** The correction's weight times the derivative is the evaluator. */
  lemma CorrectionSolves(lambda: seq<E>, omega: seq<E>, i: nat)
    requires Primitive(Q) && 1 <= i <= 255 && Forney.OddTerms(Q, lambda, Exp(Q, i)) != Zero
    ensures Mul(Q, WeightOf(Magnitude(lambda, omega, i), PlaceOf(i)), Forney.OddTerms(Q, lambda, Exp(Q, i)))
         == Eval(Q, omega, Exp(Q, i))
  {
    hide Primitive, Poly, Mul, Pow, Exp, Eval, Inv, PlaceOf, Forney.OddTerms;
    var z, x := Exp(Q, i), PlaceOf(i);
    PlaceInverts(i);
    PowInverse(Q, x, z, FCR - 1);
    PowExp(Q, i, FCR - 1);
    WeightUndoes(Q, Eval(Q, omega, z), Pow(Q, z, FCR - 1), Forney.OddTerms(Q, lambda, z), Pow(Q, x, FCR - 1));
  }

  /** The syndromes of the corrections. */
  ghost function Moved(lambda: seq<E>, omega: seq<E>, root: seq<nat>): (s: seq<E>)
    requires Primitive(Q) && forall k :: 0 <= k < |root| ==> root[k] >= 1
    ensures |s| == NROOTS
  {
    seq(NROOTS, i requires 0 <= i < NROOTS => Shift(lambda, omega, root, i))
  }

  /** The locator polynomial has as many roots as its degree, and root lists them. */
  ghost predicate Split(lambda: Poly33, d: seq<E>, root: seq<nat>) {
    && |root| <= NROOTS && d == lambda[..|root| + 1] && Degree(lambda, |root|) && lambda[0] == One
    && Rising(root) && (forall k :: 0 <= k < |root| ==> 1 <= root[k] <= 255 && IsRoot(d, root[k]))
  }

  lemma RootsOf(lambda: Poly33, d: seq<E>, root: seq<nat>)
    requires Primitive(Q) && Split(lambda, d, root)
    ensures Vanishes(Q, d, RootPowers(root))
    ensures forall k :: 0 <= k < |root| ==> Reverse(Q, d, PlacesOf(root)[k]) == Zero
  {
    hide Primitive, Poly, Mul, Eval, Reverse, Exp, PlaceOf;
    PlacesAreInverse(root);
    forall k | 0 <= k < |root|
      ensures Eval(Q, d, RootPowers(root)[k]) == Zero && Reverse(Q, d, PlacesOf(root)[k]) == Zero
    {
      assert IsRoot(d, root[k]);
      ReverseZeroAt(Q, d, PlacesOf(root)[k], RootPowers(root)[k]);
    }
  }

  /** Then no derivative vanishes: the decoder's division never fails. */
  lemma SplitDivides(lambda: Poly33, d: seq<E>, root: seq<nat>)
    requires Primitive(Q) && Split(lambda, d, root)
    ensures Divides(lambda, root)
  {
    hide Primitive, Poly, Mul, Eval, Reverse, Exp, PlaceOf, IsRoot, Forney.OddTerms, Forney.Derivative;
    RootsOf(lambda, d, root);
    PlacesAreInverse(root);
    forall k | 0 <= k < |root| ensures Forney.OddTerms(Q, lambda, Exp(Q, root[k])) != Zero {
      var z := RootPowers(root)[k];
      Forney.SimpleRoots(Q, d, PlacesOf(root), RootPowers(root), k);
      Forney.DerivativeIsOdd(Q, d, z);
      OddCut(Q, lambda, |root| + 1, z);
    }
  }

  /** The recurrence leaves nothing over on the corrections' syndromes from place |root| on. */
  lemma MovedIsGenerated(lambda: Poly33, d: seq<E>, root: seq<nat>, omega: seq<E>, i: nat)
    requires Primitive(Q) && Split(lambda, d, root) && |root| <= i < NROOTS
    ensures Discrepancy(Q, d, Moved(lambda, omega, root), i) == Zero
  {
    hide Primitive, Poly, Mul, Eval, Reverse, Exp, PlaceOf, PowerSum, Discrepancy, Magnitude;
    var s, y, x := Moved(lambda, omega, root), CorrectionWeights(lambda, omega, root), PlacesOf(root);
    RootsOf(lambda, d, root);
    DiscrepancyIsPowerSum(Q, d, s, y, x, i);
    forall k | 0 <= k < |x| ensures Residues(Q, d, y, x)[k] == Zero { MulOne(Q, y[k]); }
    ZeroWeights(Q, Residues(Q, d, y, x), x, i + 2 - |d|);
  }

  /** At every root the corrections' evaluator and the computed one agree. */
  lemma EvaluatorsAgree(lambda: Poly33, d: seq<E>, root: seq<nat>, omega: seq<E>, m: nat)
    requires Primitive(Q) && Split(lambda, d, root) && m < |root|
    ensures Eval(Q, Forney.Evaluator(Q, d, Moved(lambda, omega, root), |root|), RootPowers(root)[m])
         == Eval(Q, omega, RootPowers(root)[m])
  {
    hide Primitive, Poly, Mul, Eval, Reverse, Exp, PlaceOf, PowerSum, Discrepancy, Magnitude,
         Forney.OddTerms, Forney.Derivative, Forney.Evaluator, WeightOf;
    var s, y, x := Moved(lambda, omega, root), CorrectionWeights(lambda, omega, root), PlacesOf(root);
    var z := RootPowers(root)[m];
    RootsOf(lambda, d, root);
    PlacesAreInverse(root);
    SplitDivides(lambda, d, root);
    Forney.ForneyFormula(Q, d, s, y, x, m, z);
    Forney.DerivativeIsOdd(Q, d, z);
    OddCut(Q, lambda, |root| + 1, z);
    CorrectionSolves(lambda, omega, root[m]);
  }

  // ---- the theorem ------------------------------------------------------------------------------

  /** Every syndrome from place |root| on is produced by the polynomial of the roots. */
  ghost predicate Balanced(lambda: seq<E>, syn: seq<E>, w: nat) {
    forall i :: w <= i < NROOTS ==> Discrepancy(Q, lambda, syn, i) == Zero
  }

  /** If so, the corrections explain every syndrome. */
  lemma BalancedExplains(syn: seq<E>, lambda: Poly33, d: seq<E>, root: seq<nat>, omega: seq<E>)
    requires Primitive(Q) && |syn| == NROOTS && Split(lambda, d, root) && omega == OmegaOf(lambda, syn)
    requires Balanced(lambda, syn, |root|)
    ensures Moved(lambda, omega, root) == syn
  {
    hide Primitive, Poly, Mul, Eval, Exp, PlaceOf, Discrepancy, IsRoot, Moved;
    var w, s := |root|, Moved(lambda, omega, root);
    var o := Forney.Evaluator(Q, d, s, w);
    PlacesAreInverse(root);
    forall k | 0 <= k < w ensures Eval(Q, o, RootPowers(root)[k]) == Eval(Q, omega[..w], RootPowers(root)[k]) {
      EvaluatorsAgree(lambda, d, root, omega, k);
      EvalCut(Q, omega, w, RootPowers(root)[k]);
    }
    BchGenerator.AgreeingPolynomials(Q, o, omega[..w], RootPowers(root));
    forall i | 0 <= i < NROOTS ensures Discrepancy(Q, d, syn, i) == Discrepancy(Q, d, s, i) {
      DiscrepancyCut(Q, lambda, w + 1, syn, i);
      if i < w { assert o[i] == omega[..w][i]; } else { MovedIsGenerated(lambda, d, root, omega, i); }
    }
    SameDiscrepancies(Q, d, syn, s, NROOTS);
    assert syn == s;
  }

  /** And only then. */
  lemma ExplainedIsBalanced(syn: seq<E>, lambda: Poly33, d: seq<E>, root: seq<nat>, omega: seq<E>)
    requires Primitive(Q) && |syn| == NROOTS && Split(lambda, d, root) && Moved(lambda, omega, root) == syn
    ensures Balanced(lambda, syn, |root|)
  {
    hide Primitive, Poly, Mul, Exp, PlaceOf, Discrepancy, IsRoot, Shift;
    forall i | |root| <= i < NROOTS ensures Discrepancy(Q, lambda, syn, i) == Zero {
      MovedIsGenerated(lambda, d, root, omega, i);
      DiscrepancyCut(Q, lambda, |root| + 1, syn, i);
    }
  }

  /** Whatever was received, however far from every codeword: a word with as many roots as the degree is
      corrected to a codeword exactly when the polynomial of the roots produces every later syndrome. */
  lemma CodewordIffBalanced(v: seq<E>, syn: seq<E>, lambda: Poly33, d: seq<E>, root: seq<nat>, omega: seq<E>)
    requires Primitive(Q) && SyndromesOf(v, syn) && Split(lambda, d, root) && omega == OmegaOf(lambda, syn)
    ensures RsCodeword(Corrected(v, lambda, omega, root)) <==> Balanced(lambda, syn, |root|)
  {
    hide Primitive, Poly, Add, Reverse, Root, OmegaOf, IsRoot, Corrected, Shift, Balanced;
    var s, v' := Moved(lambda, omega, root), Corrected(v, lambda, omega, root);
    forall i | 0 <= i < NROOTS ensures Reverse(Q, v', Root(i)) == Zero <==> syn[i] == s[i] {
      SyndromeShifts(v, lambda, omega, root, i);
      AddBasics(syn[i], s[i]);
    }
    if Balanced(lambda, syn, |root|) { BalancedExplains(syn, lambda, d, root, omega); }
    if RsCodeword(v') {
      forall i | 0 <= i < NROOTS ensures syn[i] == s[i] { assert Reverse(Q, v', Root(i)) == Zero; }
      assert syn == s;
      ExplainedIsBalanced(syn, lambda, d, root, omega);
    }
  }

  // ---- two ways to say balanced -----------------------------------------------------------------

  lemma StartZero(q: E, d: seq<E>, s: seq<E>)
    requires |d| > 0 && |s| > 0 && d[0] == One && forall i :: 0 <= i < |s| ==> Discrepancy(q, d, s, i) == Zero
    ensures AllZero(s)
  {
    hide Mul, Add, Discrepancy;
    var z: seq<E> := seq(|s|, _ => Zero);
    forall i | 0 <= i < |s| ensures Discrepancy(q, d, z, i) == Zero { ZeroSequence(q, d, z, i); }
    SameDiscrepancies(q, d, s, z, |s|);
  }

  lemma {:induction false} ZeroSequence(q: E, d: seq<E>, z: seq<E>, n: int)
    requires AllZero(z)
    ensures Discrepancy(q, d, z, n) == Zero
    decreases |d|
  {
    hide Mul, Add;
    if |d| > 0 {
      ZeroSequence(q, d[1..], z, n - 1);
      MulOne(q, d[0]);
      AddBasics(Zero, Zero);
    }
  }

  /** The evaluator's degree is below the number of roots. */
  lemma BalancedIffLowDegree(syn: seq<E>, lambda: Poly33, w: nat)
    requires |syn| == NROOTS && !AllZero(syn) && w <= NROOTS && lambda[0] == One
    ensures Balanced(lambda, syn, w) <==> TopDegree(OmegaOf(lambda, syn)) < w
  {
    hide Discrepancy, Poly;
    var omega := OmegaOf(lambda, syn);
    var t := TopDegree(omega);
    TopDegreeBounds(omega);
    if t < w {
      forall i | w <= i < NROOTS ensures Discrepancy(Q, lambda, syn, i) == Zero { assert omega[i] == Zero; }
    } else if Balanced(lambda, syn, w) {
      assert omega[t] == Discrepancy(Q, lambda, syn, t) == Zero;
      assert t == 0;
      StartZero(Q, lambda, syn);
    }
  }

  /** The locator polynomial's degree is the length that Berlekamp-Massey arrived at. */
  lemma BalancedIffFullLength(syn: seq<E>, lambda: Poly33, l: nat, w: nat)
    requires |syn| == NROOTS && w <= l <= NROOTS && lambda[0] == One && Degree(lambda, w)
    requires BerlekampMassey.Generates(Q, lambda, l, syn, NROOTS) && ShortestSoFar(syn, l, NROOTS)
    ensures Balanced(lambda, syn, w) <==> w == l
  {
    hide Discrepancy, Poly;
    if Balanced(lambda, syn, w) {
      var d := lambda[..w + 1];
      forall i | w <= i < NROOTS ensures Discrepancy(Q, d, syn, i) == Zero { DiscrepancyCut(Q, lambda, w + 1, syn, i); }
      assert Generator(Q, d, syn, NROOTS);
    }
  }

  /** Correcting changes at most as many symbols as there are roots. */
  lemma FewChanges(v: seq<E>, lambda: seq<E>, omega: seq<E>, root: seq<nat>)
    requires Primitive(Q) && |v| == N
    ensures ErrorCount(AddAll(v, Corrected(v, lambda, omega, root))) <= |root|
  {
    hide Primitive, Poly, Add, Exp, Magnitude, RootExp, Places, Values, ErrorCount, Inverses;
    var e := AddAll(v, Corrected(v, lambda, omega, root));
    Lengths(e);
    PlacesDistinct(e);
    InversesDistinct(Q, Places(e));
    forall m | 0 <= m < |Places(e)| ensures Inverses(Q, Places(e))[m] in RootPowers(root) {
      var pos := EntryAt(e, m);
      InverseAt(e, m, pos);
      AddBasics(v[pos], v[pos]);
      assert RootExp(pos) in root;
      var k :| 0 <= k < |root| && root[k] == RootExp(pos);
      assert RootPowers(root)[k] == Exp(Q, RootExp(pos));
    }
    Crowd(Inverses(Q, Places(e)), RootPowers(root));
  }
}
