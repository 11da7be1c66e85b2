/** Symbol errors as weighted locators: positions, values, and the arithmetic between positions and root
    exponents that the code's step of 11 brings in. */
module CcsdsErrors {
  import opened Gf256
  import opened GfOrbit
  import opened GfPoly
  import opened BerlekampMassey
  import opened BchWord
  import opened CcsdsCode

  /** How many symbols are wrong. */
  function ErrorCount(e: seq<E>): nat {
    if |e| == 0 then 0 else (if e[0] != Zero then 1 else 0) + ErrorCount(e[1..])
  }

  /** beta^(|e|-1-pos) for every wrong position. */
  function Places(e: seq<E>): seq<E> {
    if |e| == 0 then [] else (if e[0] != Zero then [Exp(Q, PRIM * (|e| - 1))] else []) + Places(e[1..])
  }

  /** The weight the syndromes give an error of value v at locator x. */
  function WeightOf(v: E, x: E): E {
    Mul(Q, v, Pow(Q, x, FCR - 1))
  }

  function Values(e: seq<E>): seq<E> {
    if |e| == 0 then []
    else (if e[0] != Zero then [WeightOf(e[0], Exp(Q, PRIM * (|e| - 1)))] else []) + Values(e[1..])
  }

  lemma {:induction false} Lengths(e: seq<E>)
    ensures |Places(e)| == |Values(e)| == ErrorCount(e)
  {
    hide Exp, WeightOf, Poly;
    if |e| > 0 { Lengths(e[1..]); }
  }

  /** Entry m of the lists belongs to a wrong position. */
  lemma {:induction false} EntryAt(e: seq<E>, m: nat) returns (pos: nat)
    requires m < |Places(e)|
    ensures |Values(e)| == |Places(e)|
    ensures pos < |e| && e[pos] != Zero
    ensures Places(e)[m] == Exp(Q, PRIM * (|e| - 1 - pos)) && Values(e)[m] == WeightOf(e[pos], Places(e)[m])
    decreases |e|
  {
    hide Exp, WeightOf, Poly;
    Lengths(e);
    if e[0] != Zero {
      if m == 0 {
        pos := 0;
      } else {
        var p := EntryAt(e[1..], m - 1);
        pos := p + 1;
      }
    } else {
      var p := EntryAt(e[1..], m);
      pos := p + 1;
    }
  }

  lemma {:induction false} EntryOf(e: seq<E>, pos: nat) returns (m: nat)
    requires pos < |e| && e[pos] != Zero
    ensures m < |Places(e)| == |Values(e)|
    ensures Places(e)[m] == Exp(Q, PRIM * (|e| - 1 - pos)) && Values(e)[m] == WeightOf(e[pos], Places(e)[m])
    decreases |e|
  {
    hide Exp, WeightOf, Poly;
    Lengths(e);
    if pos == 0 {
      m := 0;
    } else {
      var k := EntryOf(e[1..], pos - 1);
      m := if e[0] != Zero then k + 1 else k;
    }
  }

  // ---- beta^0 .. beta^254 are distinct -----------------------------------------------------------------------------

  lemma StepEleven(a: nat, b: nat)
    requires a < b < N
    ensures (PRIM * a) % 255 != (PRIM * b) % 255
  {
    NotATurn(b - a, (11 * b) / 255 - (11 * a) / 255);
  }

  /** 11 d is no multiple of 255 for 0 < d < 255. */
  lemma NotATurn(d: int, m: int)
    requires 0 < d < 255
    ensures 11 * d != 255 * m
  {
  }

  lemma ModIs(x: nat, k: int, w: nat)
    requires x == 255 * k + w && w < 255
    ensures x % 255 == w
  {
  }

  lemma PlacesDiffer(a: nat, b: nat)
    requires Primitive(Q) && a < N && b < N && a != b
    ensures Exp(Q, PRIM * a) != Exp(Q, PRIM * b)
  {
    hide Exp, Primitive, Poly;
    ExpWraps(Q, PRIM * a);
    ExpWraps(Q, PRIM * b);
    if a < b { StepEleven(a, b); } else { StepEleven(b, a); }
    var i, j := (PRIM * a) % 255, (PRIM * b) % 255;
    if i < j { ExpInjective(Q, i, j); } else { ExpInjective(Q, j, i); }
  }

  lemma {:induction false} PlacesDistinct(e: seq<E>)
    requires Primitive(Q) && |e| <= N
    ensures Distinct(Places(e)) && NonZero(Places(e))
    decreases |e|
  {
    hide Exp, Primitive, Poly, Values, WeightOf, Distinct, NonZero;
    if |e| == 0 { NothingDistinct(Places(e)); }
    if |e| > 0 {
      PlacesDistinct(e[1..]);
      var x := Places(e[1..]);
      if e[0] != Zero {
        ExpNotZeroP(Q, PRIM * (|e| - 1));
        forall k | 0 <= k < |x| ensures x[k] != Exp(Q, PRIM * (|e| - 1)) {
          var p := EntryAt(e[1..], k);
          PlacesDiffer(|e| - 2 - p, |e| - 1);
        }
        DistinctCons(Exp(Q, PRIM * (|e| - 1)), x);
        NonZeroCons(Exp(Q, PRIM * (|e| - 1)), x);
      } else {
        assert Places(e) == x;
      }
    }
  }

  lemma NothingDistinct(x: seq<E>)
    requires |x| == 0
    ensures Distinct(x) && NonZero(x)
  {
  }

  lemma NonZeroCons(a: E, x: seq<E>)
    requires a != Zero && NonZero(x)
    ensures NonZero([a] + x)
  {
  }

  lemma {:induction false} ValuesNonZero(e: seq<E>)
    requires Primitive(Q)
    ensures NonZero(Values(e))
  {
    hide Exp, Mul, Pow, Primitive, Poly;
    if |e| > 0 {
      ValuesNonZero(e[1..]);
      if e[0] != Zero {
        var x := Exp(Q, PRIM * (|e| - 1));
        ExpNotZeroP(Q, PRIM * (|e| - 1));
        PowNonZero(Q, x, FCR - 1);
        NoZeroDivisors(Q, e[0], Pow(Q, x, FCR - 1));
      }
    }
  }

  // ---- syndromes are weighted power sums ----------------------------------------------------------------------------

  lemma RootPower(i: nat, d: nat)
    ensures Pow(Q, Root(i), d) == Pow(Q, Exp(Q, PRIM * d), FCR + i)
  {
    hide Exp, Pow, Poly;
    PowExp(Q, PRIM * (FCR + i), d);
    PowExp(Q, PRIM * d, FCR + i);
    assert (PRIM * (FCR + i)) * d == (PRIM * d) * (FCR + i);
  }

  lemma HeadTerm(v: E, x: E, i: nat)
    ensures Mul(Q, v, Pow(Q, x, FCR + i)) == Mul(Q, WeightOf(v, x), Pow(Q, x, i + 1))
  {
    hide Mul, Pow, Poly;
    PowAdd(Q, x, FCR - 1, i + 1);
    MulAssoc(Q, v, Pow(Q, x, FCR - 1), Pow(Q, x, i + 1));
  }

  lemma {:induction false} SyndromeIsWeighted(e: seq<E>, i: nat)
    ensures |Places(e)| == |Values(e)|
    ensures Reverse(Q, e, Root(i)) == PowerSum(Q, Values(e), Places(e), i + 1)
    decreases |e|
  {
    hide Mul, Add, Pow, Exp, WeightOf, Root, Poly;
    Lengths(e);
    if |e| > 0 {
      SyndromeIsWeighted(e[1..], i);
      Lengths(e[1..]);
      RootPower(i, |e| - 1);
      var x := Exp(Q, PRIM * (|e| - 1));
      if e[0] != Zero {
        HeadTerm(e[0], x, i);
        assert Places(e)[1..] == Places(e[1..]) && Values(e)[1..] == Values(e[1..]);
      } else {
        assert Places(e) == Places(e[1..]) && Values(e) == Values(e[1..]);
        MulOne(Q, Pow(Q, Root(i), |e| - 1));
        AddBasics(Reverse(Q, e[1..], Root(i)), Zero);
      }
    }
  }

  /** s holds the 32 syndromes of a word. */
  ghost predicate SyndromesOf(v: seq<E>, s: seq<E>) {
    |v| == N && |s| == NROOTS && forall i :: 0 <= i < NROOTS ==> s[i] == Reverse(Q, v, Root(i))
  }

  lemma ErrorIsWeighed(e: seq<E>, s: seq<E>)
    requires Primitive(Q) && SyndromesOf(e, s) && 2 * ErrorCount(e) <= NROOTS
    ensures Weighed(Q, s, Values(e), Places(e), NROOTS / 2)
  {
    hide PowerSum, Reverse, Root, Places, Values, Primitive, Distinct, NonZero, Poly;
    Lengths(e);
    PlacesDistinct(e);
    ValuesNonZero(e);
    forall i | 0 <= i < NROOTS ensures s[i] == PowerSum(Q, Values(e), Places(e), i + 1) { SyndromeIsWeighted(e, i); }
  }

  /** Syndromes of a received word are those of its errors. */
  lemma SyndromesOfError(v: seq<E>, e: seq<E>, s: seq<E>)
    requires RsCodeword(v) && |e| == N && SyndromesOf(AddAll(v, e), s)
    ensures SyndromesOf(e, s)
  {
    hide Reverse, Root, Add, Poly;
    forall i | 0 <= i < NROOTS ensures s[i] == Reverse(Q, e, Root(i)) {
      ReverseAdd(Q, v, e, Root(i));
      assert Reverse(Q, v, Root(i)) == Zero;
      AddBasics(Reverse(Q, e, Root(i)), Zero);
    }
  }

  // ---- positions and root exponents -------------------------------------------------------------

  const IPRIM: nat := 116

  /** The position the search reports for root exponent i. */
  function LocOf(i: nat): (pos: nat)
    requires i >= 1
    ensures pos < N
  {
    (IPRIM - 1 + IPRIM * (i - 1)) % 255
  }

  /** The exponent in 1 .. 255 of the inverse locator of a position. */
  function RootExp(pos: nat): (i: nat)
    ensures 1 <= i <= 255
  {
    (PRIM * (pos + 1) + 254) % 255 + 1
  }

  lemma LocOfRootExp(pos: nat)
    requires pos < N
    ensures LocOf(RootExp(pos)) == pos
  {
    var i := RootExp(pos);
    var m := (11 * (pos + 1) + 254) / 255;
    assert i == 11 * (pos + 1) + 255 - 255 * m;
    ModIs(115 + 116 * (i - 1), 5 * (pos + 1) + 116 - 116 * m, pos);
  }

  lemma RootExpOfLoc(i: nat)
    requires 1 <= i <= 255
    ensures RootExp(LocOf(i)) == i
  {
    var pos := LocOf(i);
    var m := (115 + 116 * (i - 1)) / 255;
    assert pos == 115 + 116 * (i - 1) - 255 * m;
    ModIs(11 * (pos + 1) + 254, 5 * i - 11 * m + 1, i - 1);
  }

  /** alpha^RootExp(pos) inverts the locator of pos. */
  lemma RootExpInverts(pos: nat)
    requires Primitive(Q) && pos < N
    ensures Mul(Q, Exp(Q, PRIM * (N - 1 - pos)), Exp(Q, RootExp(pos))) == One
  {
    hide Exp, Mul, Primitive, Poly;
    var a, i := PRIM * (N - 1 - pos), RootExp(pos);
    ExpAdd(Q, a, i);
    ExpWraps(Q, a + i);
    WholeTurns(pos);
    ZeroPower();
  }

  lemma WholeTurns(pos: nat)
    requires pos < N
    ensures (PRIM * (N - 1 - pos) + RootExp(pos)) % 255 == 0
  {
    var m := (11 * (pos + 1) + 254) / 255;
    assert PRIM * (N - 1 - pos) + RootExp(pos) == 255 * (12 - m);
  }

  lemma ZeroPower()
    ensures Exp(Q, 0) == One
  {
  }
}
