/** The CCSDS RS(255,223) block decoder: every word with at most 16 wrong symbols is restored. */
module CcsdsCodec {
  import opened Gf256
  import opened GfOrbit
  import opened GfTables
  import opened GfPoly
  import opened BerlekampMassey
  import opened BchWord
  import opened CcsdsCode
  import opened CcsdsErrors
  import opened CcsdsLocator
  import opened CcsdsSearch
  import opened CcsdsDecoder
  import opened CcsdsTheory
  import opened CcsdsBeyond
  import BchDecoder

  type Outcome = BchDecoder.Outcome

  // ---- one block ------------------------------------------------------------------------------------------------

  /** Every word with at most 16 wrong symbols comes back restored, with the number of corrections. */
  ghost predicate RsDecodes(v: seq<E>, v': seq<E>, r: Outcome) {
    && |v'| == |v|
    && (forall c, w: nat :: RsNear(v, c, w) && w <= T ==> r == BchDecoder.Ok(w) && v' == c)
    && (r.Ok? || r.DecoderNotConverged?)
  }

  lemma {:induction false} NoErrors(e: seq<E>)
    ensures ErrorCount(e) == 0 <==> AllZero(e)
  {
    if |e| > 0 {
      NoErrors(e[1..]);
      assert AllZero(e) ==> e[0] == Zero;
      assert e[0] == Zero && AllZero(e[1..]) ==> AllZero(e) by {
        if e[0] == Zero && AllZero(e[1..]) {
          forall i | 0 <= i < |e| ensures e[i] == Zero { if i > 0 { assert e[i] == e[1..][i - 1]; } }
        }
      }
    }
  }

  /** No wrong symbol means the words agree. */
  lemma NearItself(v: seq<E>, c: seq<E>)
    requires |v| == |c|
    ensures ErrorCount(AddAll(v, c)) == 0 <==> v == c
  {
    hide Add;
    NoErrors(AddAll(v, c));
    forall i | 0 <= i < |v| ensures Add(v[i], c[i]) == Zero <==> v[i] == c[i] { AddBasics(v[i], c[i]); }
    if AllZero(AddAll(v, c)) {
      forall i | 0 <= i < |v| ensures v[i] == c[i] { assert AddAll(v, c)[i] == Zero; }
    }
  }

  lemma FirstOf(y: seq<E>)
    ensures |y| > 0 ==> (AllZero(y) ==> y[0] == Zero) && (NonZero(y) ==> y[0] != Zero)
  {
  }

  /** Zero syndromes: the word is a codeword, and no other codeword is within 16 symbols. */
  lemma CleanMeans(v: seq<E>, syn: seq<E>, c: seq<E>, w: nat)
    requires Primitive(Q) && SyndromesOf(v, syn) && AllZero(syn) && RsNear(v, c, w) && w <= T
    ensures w == 0 && v == c
  {
    hide Primitive, Poly, PowerSum, Places, Values, RsCodeword, Reverse, AddAll, ErrorCount;
    var e := AddAll(v, c);
    NearIsWeighed(v, c, w, syn);
    var y, x := Values(e), Places(e);
    forall i | 1 <= i < 1 + |x| ensures PowerSum(Q, y, x, i) == Zero { assert syn[i - 1] == Zero; }
    Independent(Q, y, x, 1);
    FirstOf(y);
    NearItself(v, c);
  }

  // ---- the decoder as a function of the received word ------------------------------------------------------------

  ghost function SyndromesIn(v: seq<E>): (s: seq<E>)
    ensures |s| == NROOTS
  {
    seq(NROOTS, i requires 0 <= i < NROOTS => Reverse(Q, v, Root(i)))
  }

  /** What Berlekamp-Massey arrives at. */
  ghost function LocatorState(v: seq<E>): RsState {
    BothPrimitive(false);
    RsRun(SyndromesIn(v), |SyndromesIn(v)|)
  }

  /** The degree of the locator polynomial. */
  ghost function LocatorDegree(v: seq<E>): nat {
    TopDegree(LocatorState(v).lambda)
  }

  /** Every exponent in 1 .. 255 at which the locator polynomial vanishes, in order. */
  ghost function LocatorZeros(v: seq<E>): seq<nat> {
    RootList(LocatorState(v).lambda[..LocatorDegree(v) + 1], |v| + 1)
  }

  /** The decoder's answer. */
  ghost function RsOutcome(v: seq<E>): Outcome {
    if AllZero(SyndromesIn(v)) then BchDecoder.Ok(0)
    else if |LocatorZeros(v)| == LocatorDegree(v) then BchDecoder.Ok(LocatorDegree(v))
    else BchDecoder.DecoderNotConverged
  }

  /** The word it leaves. */
  ghost function RsResult(v: seq<E>): (v': seq<E>)
    ensures |v'| == |v|
  {
    BothPrimitive(false);
    if AllZero(SyndromesIn(v)) || !RsOutcome(v).Ok? then v
    else Corrected(v, LocatorState(v).lambda, OmegaOf(LocatorState(v).lambda, SyndromesIn(v)), LocatorZeros(v))
  }

  /** The evaluator polynomial's degree. */
  ghost function EvaluatorDegree(v: seq<E>): nat {
    TopDegree(OmegaOf(LocatorState(v).lambda, SyndromesIn(v)))
  }

  lemma CodewordIsClean(v: seq<E>)
    requires |v| == N
    ensures RsCodeword(v) <==> AllZero(SyndromesIn(v))
    ensures SyndromesOf(v, SyndromesIn(v))
  {
    hide Poly, Reverse, Root;
    var s := SyndromesIn(v);
    if AllZero(s) {
      forall i | 0 <= i < NROOTS ensures Reverse(Q, v, Root(i)) == Zero { assert s[i] == Zero; }
    }
  }

  /** The facts about the locator polynomial that everything else uses. */
  lemma LocatedFacts(v: seq<E>)
    ensures Primitive(Q) && LocatorOk(SyndromesIn(v), LocatorState(v).lambda, LocatorState(v).l)
    ensures LocatorState(v) == RsRun(SyndromesIn(v), |SyndromesIn(v)|)
    ensures ShortestSoFar(SyndromesIn(v), LocatorState(v).l, NROOTS)
            && DegreeOk(LocatorState(v).lambda, LocatorDegree(v))
    ensures LocatorDegree(v) <= LocatorState(v).l
  {
    hide Primitive, Poly, RsRun, Shortest, ShortestSoFar, BerlekampMassey.Generates, SyndromesIn;
    BothPrimitive(false);
    RsRunFacts(SyndromesIn(v), |SyndromesIn(v)|);
  }

  lemma ZerosFacts(v: seq<E>)
    requires |v| == N
    ensures RootsBelow(LocatorState(v).lambda[..LocatorDegree(v) + 1], LocatorZeros(v), N + 1)
    ensures |LocatorZeros(v)| <= LocatorDegree(v)
  {
    hide Primitive, Poly, Eval, LocatorState, LocatorDegree, IsRoot, RootList, LocatorOk, ShortestSoFar;
    LocatedFacts(v);
    LocatorStarts(v);
    var d, root := LocatorState(v).lambda[..LocatorDegree(v) + 1], LocatorZeros(v);
    RootListLists(d, |v| + 1);
    PowersDistinct(d, root, |v| + 1);
    RootsAtMost(Q, d, RootPowers(root));
  }

  lemma LocatorStarts(v: seq<E>)
    ensures LocatorState(v).lambda[0] == One && LocatorDegree(v) <= NROOTS
  {
    hide Poly, Primitive, LocatorState, Shortest, BerlekampMassey.Generates, ShortestSoFar;
    LocatedFacts(v);
  }

  /** A search that stops at the degree has found every root. */
  lemma SearchIsComplete(v: seq<E>, root: seq<nat>, bound: nat)
    requires |v| == N && root == RootList(LocatorState(v).lambda[..LocatorDegree(v) + 1], bound)
    requires bound <= N + 1 && (bound == N + 1 || |root| == LocatorDegree(v))
    ensures root == LocatorZeros(v)
  {
    hide LocatorState, LocatorDegree, RootList, Poly;
    ZerosFacts(v);
    LocatorStarts(v);
    RootListGrows(LocatorState(v).lambda[..LocatorDegree(v) + 1], bound, |v| + 1);
  }

  /** An answer reached through the search splits the locator polynomial. */
  lemma OkIsSplit(v: seq<E>)
    requires |v| == N && |LocatorZeros(v)| == LocatorDegree(v)
    ensures Split(LocatorState(v).lambda, LocatorState(v).lambda[..LocatorDegree(v) + 1], LocatorZeros(v))
  {
    hide LocatorState, LocatorDegree, LocatorZeros, Poly, IsRoot, Primitive, Shortest, ShortestSoFar,
         BerlekampMassey.Generates;
    LocatedFacts(v);
    ZerosFacts(v);
  }

  // ---- words near a codeword --------------------------------------------------------------------

  lemma NearIsLocated(v: seq<E>, c: seq<E>, w: nat)
    requires |v| == N && RsNear(v, c, w) && w <= T
    ensures |c| == N && LocatorDegree(v) == w == |LocatorZeros(v)|
    ensures RsLocator(SyndromesIn(v), LocatorState(v).lambda, LocatorState(v).lambda[..LocatorDegree(v) + 1],
                      AddAll(v, c))
  {
    hide Primitive, Poly, Places, Values, Weighed, RsCodeword, Reverse, AddAll, RootsBelow, Shortest, ShortestSoFar,
         BerlekampMassey.Generates, ErrorCount, LocatorState, LocatorDegree, LocatorZeros, SyndromesIn, SyndromesOf,
         Degree, Vanishes;
    var e, s := AddAll(v, c), SyndromesIn(v);
    LocatedFacts(v);
    CodewordIsClean(v);
    NearIsWeighed(v, c, w, s);
    DegreeIsCount(s, LocatorState(v).lambda, LocatorState(v).l, LocatorDegree(v), Values(e), Places(e));
    SameLengths(v, c);
    ZerosFacts(v);
    AllListed(s, LocatorState(v).lambda, LocatorState(v).lambda[..LocatorDegree(v) + 1], e, LocatorZeros(v), N + 1);
  }

  lemma SameLengths(v: seq<E>, c: seq<E>)
    requires |v| == |c|
    ensures |AddAll(v, c)| == |v|
  {
  }

  /** Every word with at most 16 wrong symbols is restored, and they are counted. */
  lemma NearIsRestored(v: seq<E>, c: seq<E>, w: nat)
    requires |v| == N && RsNear(v, c, w) && w <= T
    ensures RsOutcome(v) == BchDecoder.Ok(w) && RsResult(v) == c
  {
    hide Primitive, Poly, RsNear, RsLocator, Corrected, RootsBelow, SyndromesIn, LocatorState, LocatorDegree,
         LocatorZeros, OmegaOf, AllZero, SyndromesOf;
    CodewordIsClean(v);
    if AllZero(SyndromesIn(v)) {
      BothPrimitive(false);
      CleanMeans(v, SyndromesIn(v), c, w);
    } else {
      NearIsLocated(v, c, w);
      ZerosFacts(v);
      LocatedFacts(v);
      Restores(v, c, SyndromesIn(v), LocatorState(v).lambda, LocatorState(v).lambda[..LocatorDegree(v) + 1],
               OmegaOf(LocatorState(v).lambda, SyndromesIn(v)), LocatorZeros(v), N + 1);
    }
  }

  lemma OutcomeDecodes(v: seq<E>)
    requires |v| == N
    ensures RsDecodes(v, RsResult(v), RsOutcome(v))
  {
    hide RsNear, RsResult, LocatorState, LocatorDegree, LocatorZeros, SyndromesIn, AllZero, Poly;
    forall c, w: nat | RsNear(v, c, w) && w <= T ensures RsOutcome(v) == BchDecoder.Ok(w) && RsResult(v) == c {
      NearIsRestored(v, c, w);
    }
  }

  // ---- any word ---------------------------------------------------------------------------------

  /** No more symbols change than the answer says, and a refusal changes none. */
  lemma ChangesAtMost(v: seq<E>)
    requires |v| == N
    ensures RsOutcome(v).Ok? ==> ErrorCount(AddAll(v, RsResult(v))) <= RsOutcome(v).value
    ensures !RsOutcome(v).Ok? || RsCodeword(v) ==> RsResult(v) == v
  {
    hide Primitive, Poly, RsCodeword, AllZero, Corrected, OmegaOf, LocatorState, LocatorDegree, LocatorZeros,
         SyndromesIn, AddAll, ErrorCount;
    CodewordIsClean(v);
    NearItself(v, v);
    LocatedFacts(v);
    FewChanges(v, LocatorState(v).lambda, OmegaOf(LocatorState(v).lambda, SyndromesIn(v)), LocatorZeros(v));
  }

  /** Whatever was received: unless it was a codeword, an accepted word becomes one exactly when the locator
      polynomial's degree is the length of the shortest recurrence, which the decoder does not compare, and
      equally when the evaluator's degree is below the locator's. */
  lemma AcceptedIffFullLength(v: seq<E>)
    requires |v| == N && RsOutcome(v).Ok? && !RsCodeword(v)
    ensures RsOutcome(v).value == LocatorDegree(v)
    ensures RsCodeword(RsResult(v)) <==> LocatorDegree(v) == LocatorState(v).l
    ensures RsCodeword(RsResult(v)) <==> EvaluatorDegree(v) < LocatorDegree(v)
  {
    hide Primitive, Poly, RsCodeword, AllZero, Corrected, OmegaOf, LocatorState, LocatorDegree, LocatorZeros,
         SyndromesIn, Balanced, Shortest, ShortestSoFar, Degree, BerlekampMassey.Generates, Split, SyndromesOf;
    var s, lambda, w := SyndromesIn(v), LocatorState(v).lambda, LocatorDegree(v);
    CodewordIsClean(v);
    LocatedFacts(v);
    OkIsSplit(v);
    CodewordIffBalanced(v, s, lambda, lambda[..w + 1], LocatorZeros(v), OmegaOf(lambda, s));
    BalancedIffFullLength(s, lambda, LocatorState(v).l, w);
    BalancedIffLowDegree(s, lambda, w);
  }

  /** The exponents at which the locator polynomial vanishes. */
  ghost function ZeroSet(v: seq<E>): set<nat> {
    set i: nat | 1 <= i <= 255 && Eval(Q, LocatorState(v).lambda, Exp(Q, i)) == Zero
  }

  lemma {:induction false} RisingSize(root: seq<nat>, s: set<nat>)
    requires Rising(root) && forall i :: i in s <==> i in root
    ensures |s| == |root|
    decreases |root|
  {
    if |root| == 0 {
      assert s == {};
    } else {
      var n := |root| - 1;
      assert root == root[..n] + [root[n]];
      RisingSize(root[..n], s - {root[n]});
    }
  }

  /** Exactly these words are accepted: the codewords, and those whose locator polynomial has as many distinct
      zeros as its degree, however many that is. */
  lemma AcceptedIffSplits(v: seq<E>)
    requires |v| == N
    ensures RsOutcome(v).Ok? <==> RsCodeword(v) || |ZeroSet(v)| == LocatorDegree(v)
    ensures RsOutcome(v).Ok? && !RsCodeword(v) ==> RsOutcome(v).value == LocatorDegree(v)
  {
    hide Primitive, Poly, RsCodeword, AllZero, LocatorState, LocatorDegree, SyndromesIn, LocatorZeros, RsResult, Eval,
         Exp, ShortestSoFar, Shortest, BerlekampMassey.Generates;
    CodewordIsClean(v);
    LocatedFacts(v);
    LocatorStarts(v);
    ZerosFacts(v);
    var lambda, w := LocatorState(v).lambda, LocatorDegree(v);
    forall i: nat ensures i in ZeroSet(v) <==> i in LocatorZeros(v) {
      EvalCut(Q, lambda, w + 1, Exp(Q, i));
      assert IsRoot(lambda[..w + 1], i) <==> Eval(Q, lambda, Exp(Q, i)) == Zero;
    }
    RisingSize(LocatorZeros(v), ZeroSet(v));
  }

  /** An answer of at most 16 corrections is a codeword exactly when the received word was within 16 symbols
      of one. */
  lemma AcceptedIffNear(v: seq<E>)
    requires |v| == N && RsOutcome(v).Ok? && RsOutcome(v).value <= T
    ensures RsCodeword(RsResult(v)) <==> exists c, w: nat :: RsNear(v, c, w) && w <= T
  {
    hide RsCodeword, AddAll, ErrorCount, RsOutcome, RsResult;
    ChangesAtMost(v);
    if RsCodeword(RsResult(v)) { assert RsNear(v, RsResult(v), ErrorCount(AddAll(v, RsResult(v)))); }
    if exists c, w: nat :: RsNear(v, c, w) && w <= T {
      var c, w: nat :| RsNear(v, c, w) && w <= T;
      NearIsRestored(v, c, w);
    }
  }

  // ---- the method -------------------------------------------------------------------------------

  lemma SearchedNames(v: seq<E>, root: seq<nat>, loc: seq<nat>)
    requires |v| == N && root == LocatorZeros(v) && LocsOf(root, loc)
    ensures Named(root, loc)
  {
    hide IsRoot, Poly, LocatorState, LocatorDegree, LocatorZeros;
    ZerosFacts(v);
  }

  lemma SyndromesAre(v: seq<E>, syn: seq<E>)
    requires SyndromesOf(v, syn)
    ensures syn == SyndromesIn(v)
  {
    hide Poly, Reverse, Root;
  }

  /** `decode_block`: answer and word are the functions above. Dividing by the derivative never fails. */
  method DecodeBlock(tables: Tables, block: array<E>) returns (r: Outcome)
    requires TablesOk(Q, tables) && block.Length == N
    modifies block
    ensures r == RsOutcome(old(block[..])) && block[..] == RsResult(old(block[..]))
    ensures RsDecodes(old(block[..]), block[..], r)
  {
    hide RsDecodes, TablesOk, Primitive, Poly, AllZero, SyndromesOf, LocsOf, OmegaOf, Corrected, Divides,
         Named, RsRun, BerlekampMassey.Generates, Shortest, ShortestSoFar, RootList, SyndromesIn, TopDegree, Degree,
         Split;
    PrimitiveTables(Q, tables);
    ghost var v: seq<E> := block[..];
    OutcomeDecodes(v);
    var syn, clean := Syndromes(tables, block[..]);
    SyndromesAre(v, syn);
    if clean {
      return BchDecoder.Ok(0);
    }
    var lambda, l := FindRsLocator(tables, syn);
    LocatedFacts(v);
    var deg := DegreeOf(lambda);
    var root, loc, bound := Search(tables, lambda, deg);
    SearchIsComplete(v, root, bound);
    if deg != |root| {
      return BchDecoder.DecoderNotConverged;
    }
    TopDegreeBounds(lambda);
    var omega, degOmega := Omega(tables, lambda, deg, syn);
    TopDegreeBounds(omega);
    SearchedNames(v, root, loc);
    OkIsSplit(v);
    SplitDivides(lambda, lambda[..deg + 1], root);
    var ok := CorrectAll(tables, lambda, deg, omega, degOmega, root, loc, block);
    return if ok then BchDecoder.Ok(|root|) else BchDecoder.DecoderNotConverged;
  }
}
