/** Words that the CCSDS decoder accepts without correcting anything although they are no codewords: those
    with a single non-zero syndrome among the first sixteen. */
module CcsdsFalseAccept {
  import opened Gf256
  import opened GfOrbit
  import opened GfPoly
  import opened BerlekampMassey
  import opened BchWord
  import opened CcsdsCode
  import opened CcsdsErrors
  import opened CcsdsLocator
  import opened CcsdsSearch
  import opened CcsdsDecoder
  import opened CcsdsCodec
  import BchDecoder
  import BchTheory

  // ---- the locator polynomial of a single syndrome -----------------------------------------------------------------

  /** Syndrome k alone is not zero. */
  predicate Only(s: seq<E>, k: nat) {
    k < |s| && s[k] != Zero && forall i :: 0 <= i < |s| && i != k ==> s[i] == Zero
  }

  lemma {:induction false} DiscrepancyOfOnly(q: E, c: seq<E>, s: seq<E>, k: nat, n: int)
    requires Only(s, k)
    ensures Discrepancy(q, c, s, n) == if k <= n < k + |c| then Mul(q, c[n - k], s[k]) else Zero
    decreases |c|
  {
    hide Mul, Add;
    if |c| > 0 {
      DiscrepancyOfOnly(q, c[1..], s, k, n - 1);
      if n == k {
        AddBasics(Mul(q, c[0], s[k]), Zero);
      } else {
        assert At(s, n) == Zero;
        MulOne(q, c[0]);
        AddBasics(Discrepancy(q, c[1..], s, n - 1), Zero);
        assert k < n < k + |c| ==> c[1..][n - 1 - k] == c[n - k];
      }
    }
  }

  function Delay(n: nat): (d: seq<E>)
    ensures |d| == n + 1 && d[0] == One && forall i :: 1 <= i <= n ==> d[i] == Zero
  {
    [One] + seq(n, _ => Zero)
  }

  /** The length is k + 1, and the polynomial is the constant one. */
  lemma OnlyIsLocatedNowhere(s: seq<E>, k: nat, lambda: Poly33, l: nat)
    requires Primitive(Q) && |s| == NROOTS && Only(s, k) && k < T
    requires lambda[0] == One && Degree(lambda, l) && BerlekampMassey.Generates(Q, lambda, l, s, NROOTS)
    requires ShortestSoFar(s, l, NROOTS)
    ensures l == k + 1 && Degree(lambda, 0)
  {
    hide Primitive, Poly, Mul, Discrepancy;
    var d := Delay(k + 1);
    forall i | k + 1 <= i < NROOTS ensures Discrepancy(Q, d, s, i) == Zero {
      DiscrepancyOfOnly(Q, d, s, k, i);
      MulOne(Q, s[k]);
    }
    assert Generator(Q, d, s, NROOTS);
    DiscrepancyOfOnly(Q, lambda, s, k, k);
    MulOne(Q, s[k]);
    assert l > k;
    forall j | 1 <= j <= NROOTS ensures lambda[j] == Zero {
      if j <= l {
        DiscrepancyOfOnly(Q, lambda, s, k, k + j);
        assert Discrepancy(Q, lambda, s, k + j) == Zero;
        NoZeroDivisors(Q, lambda[j], s[k]);
      }
    }
  }

  /** Whatever the non-zero syndrome is: the decoder answers that it corrected nothing, and leaves a word
      that is no codeword. */
  lemma SingleSyndromeIsAccepted(v: seq<E>, k: nat)
    requires |v| == N && k < T && Only(SyndromesIn(v), k)
    ensures RsOutcome(v) == BchDecoder.Ok(0) && RsResult(v) == v && !RsCodeword(v)
    ensures LocatorDegree(v) == 0 && LocatorState(v).l == k + 1
  {
    hide Primitive, Poly, LocatorState, SyndromesIn, RsCodeword, Only, AllZero, Corrected, OmegaOf, LocatorDegree,
         LocatorZeros;
    CodewordIsClean(v);
    OnlyIsNotClean(SyndromesIn(v), k);
    NoLocator(v, k);
    BothPrimitive(false);
    NoneCorrected(v, LocatorState(v).lambda, OmegaOf(LocatorState(v).lambda, SyndromesIn(v)));
  }

  lemma OnlyIsNotClean(s: seq<E>, k: nat)
    requires Only(s, k)
    ensures !AllZero(s)
  {
  }

  lemma NoLocator(v: seq<E>, k: nat)
    requires |v| == N && k < T && Only(SyndromesIn(v), k)
    ensures LocatorDegree(v) == 0 && LocatorState(v).l == k + 1 && LocatorZeros(v) == []
  {
    hide Primitive, Poly, LocatorState, SyndromesIn, Only, LocatorZeros, Shortest, ShortestSoFar,
         BerlekampMassey.Generates, RootsBelow;
    LocatedFacts(v);
    OnlyIsLocatedNowhere(SyndromesIn(v), k, LocatorState(v).lambda, LocatorState(v).l);
    TopDegreeIs(LocatorState(v).lambda, 0);
    ZerosFacts(v);
  }

  // ---- every set of syndromes belongs to some word ----------------------------------------------

  /** beta^(n-1) .. beta^0. */
  function Locators(n: nat): (x: seq<E>)
    ensures |x| == n
  {
    seq(n, k requires 0 <= k < n => Exp(Q, PRIM * (n - 1 - k)))
  }

  function WeightsOf(t: seq<E>): (y: seq<E>)
    ensures |y| == |t|
  {
    seq(|t|, k requires 0 <= k < |t| => WeightOf(t[k], Locators(|t|)[k]))
  }

  /** A word's value at root i is the power sum of its weighted symbols, zeros included. */
  lemma {:induction false} ValueIsWeighted(t: seq<E>, i: nat)
    ensures Reverse(Q, t, Root(i)) == PowerSum(Q, WeightsOf(t), Locators(|t|), i + 1)
    decreases |t|
  {
    hide Mul, Add, Pow, Exp, WeightOf, Root, Poly;
    if |t| > 0 {
      ValueIsWeighted(t[1..], i);
      assert Locators(|t|)[1..] == Locators(|t| - 1);
      assert WeightsOf(t)[1..] == WeightsOf(t[1..]);
      RootPower(i, |t| - 1);
      HeadTerm(t[0], Exp(Q, PRIM * (|t| - 1)), i);
    }
  }

  lemma LocatorsDistinct(n: nat)
    requires Primitive(Q) && n <= N
    ensures Distinct(Locators(n)) && NonZero(Locators(n))
  {
    hide Primitive, Poly, Exp;
    forall i, j | 0 <= i < j < n ensures Locators(n)[i] != Locators(n)[j] { PlacesDiffer(n - 1 - i, n - 1 - j); }
    forall i | 0 <= i < n ensures Locators(n)[i] != Zero { ExpNotZeroP(Q, PRIM * (n - 1 - i)); }
  }

  /** The symbol whose weight at x is y. */
  ghost function SymbolFor(y: E, x: E): E
    requires Primitive(Q) && Pow(Q, x, FCR - 1) != Zero
  {
    Mul(Q, y, Inv(Q, Pow(Q, x, FCR - 1)))
  }

  lemma SymbolHasWeight(y: E, x: E)
    requires Primitive(Q) && x != Zero
    ensures Pow(Q, x, FCR - 1) != Zero && WeightOf(SymbolFor(y, x), x) == y
  {
    hide Primitive, Poly, Pow, Mul, Inv;
    PowNonZero(Q, x, FCR - 1);
    var p := Pow(Q, x, FCR - 1);
    InvWorks(Q, p);
    MulComm(Q, p, Inv(Q, p));
    MulAssoc(Q, y, Inv(Q, p), p);
    MulOne(Q, y);
  }

  lemma WordWith(s: seq<E>) returns (v: seq<E>)
    requires |s| == NROOTS
    ensures |v| == N && SyndromesIn(v) == s
  {
    hide Primitive, Poly, Pow, Mul, Add, Inv, Exp, Reverse, Root, WeightOf, PowerSum, BchTheory.Weights, SymbolFor;
    BothPrimitive(false);
    var n: nat := NROOTS;
    var x := Locators(n);
    LocatorsDistinct(n);
    BchTheory.WeightsSolve(Q, x, s);
    var y := BchTheory.Weights(Q, x, s);
    forall k | 0 <= k < n ensures Pow(Q, x[k], FCR - 1) != Zero { SymbolHasWeight(y[k], x[k]); }
    var t: seq<E> := seq(n, k requires 0 <= k < n => SymbolFor(y[k], x[k]));
    forall k | 0 <= k < n ensures WeightsOf(t)[k] == y[k] { SymbolHasWeight(y[k], x[k]); }
    assert WeightsOf(t) == y;
    var zeros: seq<E> := seq(N - n, _ => Zero);
    v := zeros + t;
    forall i | 0 <= i < n ensures SyndromesIn(v)[i] == s[i] {
      ReverseConcat(Q, zeros, t, Root(i));
      ReverseZeros(Q, zeros, Root(i));
      MulOne(Q, Pow(Q, Root(i), |t|));
      AddBasics(Reverse(Q, t, Root(i)), Zero);
      ValueIsWeighted(t, i);
    }
  }

  /** For every symbol a != 0 and k < 16 there is such a word. */
  lemma FalseAcceptance(a: E, k: nat) returns (v: seq<E>)
    requires a != Zero && k < T
    ensures |v| == N && Only(SyndromesIn(v), k) && SyndromesIn(v)[k] == a
    ensures RsOutcome(v) == BchDecoder.Ok(0) && RsResult(v) == v && !RsCodeword(v)
  {
    hide Poly, RsOutcome, RsResult, RsCodeword, SyndromesIn;
    var s: seq<E> := seq(NROOTS, _ => Zero)[k := a];
    v := WordWith(s);
    SingleSyndromeIsAccepted(v, k);
  }
}
