/** Why bounded-distance decoding works: what the roots of the locator polynomial say about the error
    word, for words within distance t of a codeword. */
module BchTheory {
  import opened Bits
  import opened Gf256
  import opened GfOrbit
  import opened GfPoly
  import opened BerlekampMassey
  import opened BchWord

  /** s holds the first 2t syndromes of the word v: its values at alpha^1 .. alpha^(2t). */
  ghost predicate SyndromesOf(q: E, t: nat, v: Word, s: seq<E>) {
    |v| == N && 2 * t <= |s| && forall i :: 0 <= i < 2 * t ==> s[i] == PolyAt(q, v, Exp(q, i + 1))
  }

  lemma ErrorIsLocated(q: E, t: nat, e: Word, s: seq<E>)
    requires Primitive(q) && SyndromesOf(q, t, e, s) && Weight(e) <= t
    ensures Located(q, s, Locators(q, e), t) && |Locators(q, e)| == Weight(e)
  {
    hide Exp, PowerSum, PolyAt, Primitive, Distinct, NonZero, Locators;
    LocatorCount(q, e);
    LocatorsDistinct(q, e);
    forall i | 0 <= i < 2 * t ensures s[i] == PowerSum(q, Ones(Weight(e)), Locators(q, e), i + 1) {
      SyndromeIsPowerSum(q, e, i + 1);
    }
  }

  /** Syndromes of a received word are those of its error word. */
  lemma SyndromesOfError(q: E, t: nat, v: Word, e: Word, s: seq<E>)
    requires IsCodeword(q, t, v) && |e| == N && SyndromesOf(q, t, Xor(v, e), s)
    ensures SyndromesOf(q, t, e, s)
  {
    hide Exp, PolyAt, Add;
    forall i | 0 <= i < 2 * t ensures s[i] == PolyAt(q, e, Exp(q, i + 1)) {
      PolyAtXor(q, v, e, Exp(q, i + 1));
      assert PolyAt(q, v, Exp(q, i + 1)) == Zero;
      AddBasics(PolyAt(q, e, Exp(q, i + 1)), Zero);
    }
  }

  // ---- which positions the root search flips -------------------------------------------------------

  /** The root exponent tried for position i. */
  function RootExponent(i: nat): (u: nat)
    ensures u < N
  {
    (i + 1) % 255
  }

  ghost predicate RootAt(q: E, c: seq<E>, l: nat, i: nat)
    requires l < |c|
  {
    Eval(q, c[..l + 1], Exp(q, RootExponent(i))) == Zero
  }

  /** The positions the search flips. */
  ghost function RootMask(q: E, c: seq<E>, l: nat): (m: Word)
    requires l < |c|
    ensures |m| == N && forall i :: 0 <= i < N ==> m[i] == RootAt(q, c, l, i)
  {
    seq(N, i requires 0 <= i => RootAt(q, c, l, i))
  }

  /** alpha^((i+1) mod 255) is the inverse of the locator of position i. */
  lemma RootInverts(q: E, i: nat)
    requires Primitive(q) && i < N
    ensures Mul(q, Exp(q, N - 1 - i), Exp(q, RootExponent(i))) == One
    ensures Exp(q, N - 1 - i) != Zero && Inv(q, Exp(q, N - 1 - i)) == Exp(q, RootExponent(i))
  {
    hide Exp, Mul, Primitive, Inv;
    ExpWraps(q, i + 1);
    ExpAdd(q, N - 1 - i, i + 1);
    FullTurn(q);
    var a := Exp(q, N - 1 - i);
    ExpNotZeroP(q, N - 1 - i);
    InvWorks(q, a);
    MulComm(q, a, Inv(q, a));
    MulComm(q, a, Exp(q, RootExponent(i)));
    InverseOfInverse(q, Inv(q, a), Exp(q, RootExponent(i)), a);
  }

  lemma RootNamesPosition(q: E, e: Word, i: nat)
    requires Primitive(q) && |e| == N && i < N && NonZero(Locators(q, e))
    ensures Exp(q, RootExponent(i)) in Inverses(q, Locators(q, e)) <==> e[i]
  {
    hide Exp, Mul, Primitive, Inv, Locators;
    var x := Locators(q, e);
    var p := Exp(q, RootExponent(i));
    RootInverts(q, i);
    if e[i] {
      LocatorOf(q, e, i);
      var k :| 0 <= k < |x| && x[k] == Exp(q, N - 1 - i);
      assert Inverses(q, x)[k] == p;
    }
    if p in Inverses(q, x) {
      var k :| 0 <= k < |x| && Inverses(q, x)[k] == p;
      var i' := LocatorAt(q, e, x[k]);
      InvWorks(q, x[k]);
      InverseOfInverse(q, x[k], Exp(q, N - 1 - i), p);
      if i < i' { ExpInjective(q, N - 1 - i', N - 1 - i); }
      if i' < i { ExpInjective(q, N - 1 - i, N - 1 - i'); }
    }
  }

  /** For at most t errors the search flips exactly the error positions. */
  lemma MaskIsError(q: E, t: nat, e: Word, s: seq<E>, c: seq<E>, l: nat)
    requires Primitive(q) && SyndromesOf(q, t, e, s) && Weight(e) <= t
    requires l < |c| && Degree(c, l) && c[0] == One && Generates(q, c, l, s, 2 * t) && l <= Weight(e)
    ensures RootMask(q, c, l) == e && l == Weight(e)
  {
    hide Exp, Primitive, Locators, PolyAt, Generates, Degree, Located, Inverses, Eval;
    ErrorIsLocated(q, t, e, s);
    var x := Locators(q, e);
    LocatedDistinct(q, s, x, t);
    LocatedIsWeighed(q, s, x, t);
    LocatorRoots(q, c, l, s, Ones(|x|), x, t, Zero);
    forall i | 0 <= i < N ensures RootMask(q, c, l)[i] == e[i] {
      LocatorRoots(q, c, l, s, Ones(|x|), x, t, Exp(q, RootExponent(i)));
      RootNamesPosition(q, e, i);
    }
  }

  /** With all syndromes zero there is no error of weight 1 .. t. */
  lemma {:induction false} ZeroWeight(e: Word)
    requires Weight(e) == 0
    ensures IsZero(e)
  {
    if |e| > 0 {
      ZeroWeight(e[1..]);
      forall i | 0 <= i < |e| ensures !e[i] {
        if i > 0 { assert e[1..][i - 1] == e[i]; }
      }
    }
  }

  // ---- weights with prescribed power sums ------------------------------------------------

  /** Weights with prescribed power sums: weights y with sum of y[k] x[k]^(j+1) equal to s[j] for
      j < |x|. Solved by eliminating the first point. */
  ghost function Weights(q: E, x: seq<E>, s: seq<E>): (y: seq<E>)
    requires Primitive(q) && Distinct(x) && NonZero(x) && |x| <= |s|
    ensures |y| == |x|
    decreases |x|
  {
    if |x| == 0 then [] else
      var rest := Unscale(q, Weights(q, x[1..], Eliminated(q, s, x[0])), x[1..], x[0]);
      [Mul(q, Add(s[0], PowerSum(q, rest, x[1..], 1)), Inv(q, x[0]))] + rest
  }

  /** s[j+1] + c s[j]. */
  function Eliminated(q: E, s: seq<E>, c: E): (r: seq<E>)
    requires |s| > 0
    ensures |r| == |s| - 1
  {
    seq(|s| - 1, j requires 0 <= j < |s| - 1 => MulAdd(q, s[j + 1], c, s[j]))
  }

  /** Every weight divided by (its point + c). */
  ghost function Unscale(q: E, y: seq<E>, x: seq<E>, c: E): (r: seq<E>)
    requires Primitive(q) && |y| == |x| && forall k :: 0 <= k < |x| ==> x[k] != c
    ensures |r| == |y|
  {
    seq(|y|, k requires 0 <= k < |y| => Quo(q, y[k], x[k], c))
  }

  ghost function Quo(q: E, y: E, x: E, c: E): E
    requires Primitive(q) && x != c
  {
    AddBasics(x, c);
    Mul(q, y, Inv(q, Add(x, c)))
  }

  lemma UnscaleScales(q: E, y: seq<E>, x: seq<E>, c: E)
    requires Primitive(q) && |y| == |x| && forall k :: 0 <= k < |x| ==> x[k] != c
    ensures Scale(q, Unscale(q, y, x, c), x, c) == y
  {
    hide Mul, Add, Primitive, Inv;
    forall k | 0 <= k < |y| ensures Scale(q, Unscale(q, y, x, c), x, c)[k] == y[k] {
      AddBasics(x[k], c);
      Coefficient(q, y[k], Add(x[k], c));
    }
  }

  lemma {:induction false} WeightsSolve(q: E, x: seq<E>, s: seq<E>)
    requires Primitive(q) && Distinct(x) && NonZero(x) && |x| <= |s|
    ensures forall j :: 0 <= j < |x| ==> PowerSum(q, Weights(q, x, s), x, j + 1) == s[j]
    decreases |x|
  {
    hide Mul, Add, Primitive, Inv, PowerSum, Unscale, Eliminated;
    if |x| > 0 {
      var z, c := x[1..], x[0];
      var t := Eliminated(q, s, c);
      var y := Weights(q, z, t);
      var rest := Unscale(q, y, z, c);
      WeightsSolve(q, z, t);
      UnscaleScales(q, y, z, c);
      var w := Weights(q, x, s);
      FirstEquation(q, rest, x, s[0]);
      NextEquations(q, w, x, s, y, |x|);
    }
  }

  lemma FirstEquation(q: E, rest: seq<E>, x: seq<E>, a: E)
    requires Primitive(q) && |x| > 0 && x[0] != Zero && |rest| == |x| - 1
    ensures PowerSum(q, [Mul(q, Add(a, PowerSum(q, rest, x[1..], 1)), Inv(q, x[0]))] + rest, x, 1) == a
  {
    hide Mul, Add, Primitive, Inv;
    var p := PowerSum(q, rest, x[1..], 1);
    var y := Mul(q, Add(a, p), Inv(q, x[0]));
    assert ([y] + rest)[1..] == rest;
    PowOne(q, x[0]);
    Coefficient(q, Add(a, p), x[0]);
    AddBasics(a, p);
  }

  lemma EliminatedAt(q: E, s: seq<E>, c: E, j: nat)
    requires j < |s| - 1
    ensures Eliminated(q, s, c)[j] == Add(s[j + 1], Mul(q, c, s[j]))
  {
  }

  lemma {:induction false} NextEquations(q: E, w: seq<E>, x: seq<E>, s: seq<E>, y: seq<E>, n: nat)
    requires |w| == |x| > 0 && n <= |x| <= |s| && |y| == |x| - 1
    requires Scale(q, w[1..], x[1..], x[0]) == y
    requires PowerSum(q, w, x, 1) == s[0]
    requires forall j :: 0 <= j < |x| - 1 ==> PowerSum(q, y, x[1..], j + 1) == Eliminated(q, s, x[0])[j]
    ensures forall j :: 0 <= j < n ==> PowerSum(q, w, x, j + 1) == s[j]
  {
    hide Mul, Add, PowerSum, Eliminated, Scale;
    if n > 1 {
      NextEquations(q, w, x, s, y, n - 1);
      var j, c := n - 2, x[0];
      PowerSumScale(q, w, x, c, j + 1);
      ScaledTail(q, w, x, j + 1);
      EliminatedAt(q, s, c, j);
      AddBasics(s[j + 1], Mul(q, c, s[j]));
      AddBasics(PowerSum(q, w, x, j + 2), Mul(q, c, s[j]));
    }
  }

  /** Scaling by the first point's own value kills its weight. */
  lemma ScaledTail(q: E, w: seq<E>, x: seq<E>, e: nat)
    requires |w| == |x| > 0
    ensures PowerSum(q, Scale(q, w, x, x[0]), x, e) == PowerSum(q, Scale(q, w[1..], x[1..], x[0]), x[1..], e)
  {
    hide Mul, Add, PowerSum;
    AddBasics(x[0], x[0]);
    MulOne(q, w[0]);
    DropZeroHead(q, Scale(q, w, x, x[0]), x, e);
    assert Scale(q, w, x, x[0])[1..] == Scale(q, w[1..], x[1..], x[0]);
  }
}
