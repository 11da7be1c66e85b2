/** Syndromes and Berlekamp-Massey of the CCSDS decoder. The source keeps its arrays in
    index form with a sentinel for zero; here they hold the elements themselves. */
module CcsdsLocator {
  import opened Gf256
  import opened GfOrbit
  import opened GfTables
  import opened GfPoly
  import opened BerlekampMassey
  import opened BchWord
  import opened CcsdsCode
  import opened CcsdsErrors
  import Forney

  const T: nat := NROOTS / 2

  type Poly33 = c: seq<E> | |c| == NROOTS + 1 witness seq(NROOTS + 1, _ => Zero)

  // ---- syndromes ---------------------------------------------------------------------------------------------------

  /** x alpha^e through the logarithm of x. */
  function TimesPower(tables: Tables, x: E, e: nat): (r: E)
    requires TablesOk(Q, tables)
    ensures r == Mul(Q, x, Exp(Q, e))
  {
    hide ExpOk, LogOk, Primitive, Mul, Number, Poly;
    PowerLooksUp(tables, x, e);
    if x == Zero then Zero else tables.exp[(tables.log[Number(x)] + e) % 255]
  }

  lemma PowerLooksUp(tables: Tables, x: E, e: nat)
    requires TablesOk(Q, tables)
    ensures x == Zero ==> Mul(Q, x, Exp(Q, e)) == Zero
    ensures x != Zero ==> (Number(x) < 256 && tables.log[Number(x)] < 255
                           && tables.exp[(tables.log[Number(x)] + e) % 255] == Mul(Q, x, Exp(Q, e)))
  {
    hide Exp, Mul, Primitive, Number, Poly, ExpOk, LogOk;
    MulOne(Q, Exp(Q, e));
    if x != Zero {
      LogLooksUp(Q, tables, x);
      var k := tables.log[Number(x)];
      ExpAdd(Q, k, e);
      ExpWraps(Q, k + e);
      ExpLooksUp(tables, (k + e) % 255);
    }
  }

  lemma ExpLooksUp(tables: Tables, i: nat)
    requires TablesOk(Q, tables) && i < 255
    ensures tables.exp[i] == Exp(Q, i)
  {
    hide Exp, Primitive, LogOk, Poly;
  }

  /** One Horner step of all 32 syndromes. */
  method HornerStep(tables: Tables, syn0: seq<E>, symbol: E, ghost prefix: seq<E>) returns (syn: seq<E>)
    requires TablesOk(Q, tables) && |syn0| == NROOTS
    requires forall i :: 0 <= i < NROOTS ==> syn0[i] == Reverse(Q, prefix, Root(i))
    ensures |syn| == NROOTS && forall i :: 0 <= i < NROOTS ==> syn[i] == Reverse(Q, prefix + [symbol], Root(i))
  {
    hide Mul, Add, Exp, Reverse, ExpOk, LogOk, Primitive, Poly;
    syn := syn0;
    var i := 0;
    while i < NROOTS
      invariant 0 <= i <= NROOTS && |syn| == NROOTS
      invariant forall k :: 0 <= k < i ==> syn[k] == Reverse(Q, prefix + [symbol], Root(k))
      invariant forall k :: i <= k < NROOTS ==> syn[k] == syn0[k]
    {
      ReverseAppend(Q, prefix, symbol, Root(i));
      MulComm(Q, Root(i), syn0[i]);
      MulOne(Q, Root(i));
      AddBasics(symbol, Zero);
      AddBasics(symbol, Mul(Q, syn0[i], Root(i)));
      if syn[i] == Zero {
        syn := syn[i := symbol];
      } else {
        var rootExp := ((FCR + i) * PRIM) % 255;
        ExpWraps(Q, PRIM * (FCR + i));
        syn := syn[i := Add(symbol, TimesPower(tables, syn[i], rootExp))];
      }
      i := i + 1;
    }
  }

  method Syndromes(tables: Tables, block: seq<E>) returns (syn: seq<E>, clean: bool)
    requires TablesOk(Q, tables) && |block| == N
    ensures SyndromesOf(block, syn) && (clean <==> AllZero(syn))
  {
    hide TablesOk, Reverse, Root, AllZero;
    syn := seq(NROOTS, _ => block[0]);
    forall i | 0 <= i < NROOTS
      ensures syn[i] == Reverse(Q, block[..1], Root(i))
    {
      OneSymbol(block[0], Root(i));
      assert block[..1] == [block[0]];
    }
    var j := 1;
    while j < N
      invariant 1 <= j <= N && |syn| == NROOTS
      invariant forall i :: 0 <= i < NROOTS ==> syn[i] == Reverse(Q, block[..j], Root(i))
    {
      assert block[..j + 1] == block[..j] + [block[j]];
      syn := HornerStep(tables, syn, block[j], block[..j]);
      j := j + 1;
    }
    assert block[..j] == block;
    clean := AllZeroTest(syn);
  }

  lemma OneSymbol(b: E, x: E)
    ensures Reverse(Q, [b], x) == b
  {
    hide Mul, Add, Poly;
    var v := [b];
    assert v[1..] == [] && Pow(Q, x, 0) == One;
    assert Reverse(Q, v, x) == Add(Mul(Q, v[0], Pow(Q, x, 0)), Reverse(Q, v[1..], x));
    MulOne(Q, b);
    AddBasics(b, Zero);
  }

  method AllZeroTest(s: seq<E>) returns (clean: bool)
    ensures clean <==> AllZero(s)
  {
    clean := true;
    var i := 0;
    while i < |s|
      invariant 0 <= i <= |s| && (clean <==> AllZero(s[..i]))
    {
      assert s[..i + 1] == s[..i] + [s[i]];
      clean := clean && s[i] == Zero;
      i := i + 1;
    }
    assert s[..i] == s;
  }

  // ---- Berlekamp-Massey with the correction polynomial kept normalized and shifted --------------

  /** lambda has produced s so far; x b is the earlier candidate, scaled to discrepancy 1 and shifted to now. */
  ghost predicate RsProgress(s: seq<E>, lambda: Poly33, l: nat, b: Poly33, r: nat) {
    && l <= r && lambda[0] == One && Degree(lambda, l) && BerlekampMassey.Generates(Q, lambda, l, s, r)
    && Degree(b, r - l)
    && (l > 0 ==> (BerlekampMassey.Generates(Q, b, r - l, s, r - 1) && Discrepancy(Q, b, s, r - 1) == One))
  }

  ghost predicate Shortest(s: seq<E>, l: nat) {
    forall y, x :: Weighed(Q, s, y, x, T) ==> l <= |x|
  }

  /** b shifted up by one place, dropping the top coefficient. */
  function ShiftUp(b: Poly33): Poly33 {
    [Zero] + b[..NROOTS]
  }

  lemma ShiftUpDiscrepancy(b: Poly33, s: seq<E>, n: int)
    requires b[NROOTS] == Zero
    ensures Discrepancy(Q, ShiftUp(b), s, n) == Discrepancy(Q, b, s, n - 1)
  {
    hide Mul, Add, At, Poly;
    var d := ShiftUp(b);
    assert d[1..] == b[..NROOTS];
    MulOne(Q, At(s, n));
    DiscrepancyCut(Q, b, NROOTS, s, n - 1);
    AddBasics(Discrepancy(Q, b[..NROOTS], s, n - 1), Zero);
  }

  lemma {:induction false} DiscrepancyScale(q: E, f: E, c: seq<E>, s: seq<E>, n: int)
    ensures Discrepancy(q, ScaleBy(q, f, c), s, n) == Mul(q, f, Discrepancy(q, c, s, n))
    decreases |c|
  {
    hide Mul, Add, At;
    MulOne(q, f);
    if |c| > 0 {
      assert ScaleBy(q, f, c)[1..] == ScaleBy(q, f, c[1..]);
      DiscrepancyScale(q, f, c[1..], s, n - 1);
      MulAssoc(q, f, c[0], At(s, n));
      MulDistrib(q, Mul(q, c[0], At(s, n)), Discrepancy(q, c[1..], s, n - 1), f);
    }
  }

  lemma RsBegin(s: seq<E>, one: Poly33)
    requires one == seq(NROOTS + 1, _ => Zero)[0 := One]
    ensures RsProgress(s, one, 0, one, 0) && Shortest(s, 0)
  {
    hide Discrepancy, Weighed, Poly;
  }

  /** No discrepancy: keep the candidate, shift the correction. */
  lemma RsKeep(s: seq<E>, lambda: Poly33, l: nat, b: Poly33, r: nat)
    requires RsProgress(s, lambda, l, b, r) && r < NROOTS && Discrepancy(Q, lambda, s, r) == Zero
    ensures RsProgress(s, lambda, l, ShiftUp(b), r + 1)
  {
    hide Discrepancy, Poly;
    forall i | r + 1 - l <= i < r ensures l > 0 ==> Discrepancy(Q, ShiftUp(b), s, i) == Zero {
      ShiftUpDiscrepancy(b, s, i);
    }
    ShiftUpDiscrepancy(b, s, r);
  }

  /** The corrected candidate fits one place further. */
  lemma RsCorrected(s: seq<E>, lambda: Poly33, l: nat, b: Poly33, r: nat, delta: E, l': nat)
    requires RsProgress(s, lambda, l, b, r) && r < NROOTS && Discrepancy(Q, lambda, s, r) == delta
    requires l <= l' && r + 1 - l <= l'
    ensures Combine(Q, lambda, b, delta, 1)[0] == One && Degree(Combine(Q, lambda, b, delta, 1), l')
    ensures BerlekampMassey.Generates(Q, Combine(Q, lambda, b, delta, 1), l', s, r + 1)
  {
    hide Mul, Add, Discrepancy, Poly;
    MulOne(Q, delta);
    AddBasics(Zero, Zero);
    AddBasics(delta, Zero);
    forall i | l' <= i < r + 1 ensures Discrepancy(Q, Combine(Q, lambda, b, delta, 1), s, i) == Zero {
      CombineShifts(Q, lambda, b, delta, 1, s, i);
    }
  }

  /** 2 l > r: correct, and shift the correction along. */
  lemma RsCorrect(s: seq<E>, lambda: Poly33, l: nat, b: Poly33, r: nat, delta: E)
    requires RsProgress(s, lambda, l, b, r) && r < NROOTS && Discrepancy(Q, lambda, s, r) == delta && 2 * l > r
    ensures RsProgress(s, Combine(Q, lambda, b, delta, 1), l, ShiftUp(b), r + 1)
  {
    hide Discrepancy, Combine, Poly;
    RsCorrected(s, lambda, l, b, r, delta, l);
    forall i | r + 1 - l <= i < r ensures Discrepancy(Q, ShiftUp(b), s, i) == Zero { ShiftUpDiscrepancy(b, s, i); }
    ShiftUpDiscrepancy(b, s, r);
  }

  /** 2 l <= r: correct, grow, and make the failed candidate, scaled to discrepancy 1, the correction. */
  lemma RsGrow(s: seq<E>, lambda: Poly33, l: nat, b: Poly33, r: nat, delta: E, inverse: E)
    requires Primitive(Q) && RsProgress(s, lambda, l, b, r) && r < NROOTS && Discrepancy(Q, lambda, s, r) == delta
    requires 2 * l <= r && Mul(Q, delta, inverse) == One
    ensures RsProgress(s, Combine(Q, lambda, b, delta, 1), r + 1 - l, ScaleBy(Q, inverse, lambda), r + 1)
  {
    hide Discrepancy, Combine, Mul, Primitive, Poly;
    RsCorrected(s, lambda, l, b, r, delta, r + 1 - l);
    var scaled: Poly33 := ScaleBy(Q, inverse, lambda);
    forall i | l <= i < r ensures Discrepancy(Q, scaled, s, i) == Zero {
      DiscrepancyScale(Q, inverse, lambda, s, i);
      MulOne(Q, inverse);
    }
    DiscrepancyScale(Q, inverse, lambda, s, r);
    MulComm(Q, delta, inverse);
    MulOne(Q, inverse);
  }

  lemma RsGrowShortest(s: seq<E>, lambda: Poly33, l: nat, r: nat)
    requires Primitive(Q) && l <= r < NROOTS && Degree(lambda, l) && BerlekampMassey.Generates(Q, lambda, l, s, r)
    requires Discrepancy(Q, lambda, s, r) != Zero
    ensures Shortest(s, r + 1 - l)
  {
    hide Discrepancy, Weighed, Primitive, Poly;
    forall y, x | Weighed(Q, s, y, x, T) ensures r + 1 - l <= |x| {
      LengthStaysBelow(Q, lambda, l, s, y, x, T, r);
    }
  }

  /** The discrepancy at r, over the places up to r. */
  method RsDelta(tables: Tables, lambda: Poly33, syn: seq<E>, r: nat) returns (delta: E)
    requires TablesOk(Q, tables) && r < |syn| == NROOTS
    ensures delta == Discrepancy(Q, lambda, syn, r)
  {
    hide Mul, Add, ExpOk, LogOk, Primitive, Poly;
    delta := Zero;
    var i := 0;
    while i <= r
      invariant 0 <= i <= r + 1 && delta == Discrepancy(Q, lambda[..i], syn, r)
    {
      DiscrepancyAppend(Q, lambda[..i], lambda[i], syn, r);
      assert lambda[..i] + [lambda[i]] == lambda[..i + 1];
      MulOne(Q, lambda[i]);
      MulOne(Q, syn[r - i]);
      AddBasics(delta, Zero);
      if lambda[i] != Zero && syn[r - i] != Zero {
        delta := Add(delta, GfMul(Q, tables, lambda[i], syn[r - i]));
      }
      i := i + 1;
    }
    Forney.DiscrepancyStart(Q, lambda, syn, r, r + 1);
  }

  /** `t_poly`: lambda plus the discrepancy times the shifted correction. */
  method RsUpdate(tables: Tables, lambda: Poly33, b: Poly33, delta: E) returns (t: Poly33)
    requires TablesOk(Q, tables)
    ensures t == Combine(Q, lambda, b, delta, 1)
  {
    hide Mul, Add, ExpOk, LogOk, Primitive, Poly;
    t := lambda;
    var i := 0;
    while i < NROOTS
      invariant 0 <= i <= NROOTS
      invariant forall k :: 0 <= k <= i ==> t[k] == Combine(Q, lambda, b, delta, 1)[k]
      invariant forall k :: i < k <= NROOTS ==> t[k] == lambda[k]
    {
      MulOne(Q, delta);
      AddBasics(lambda[i + 1], Zero);
      if b[i] != Zero {
        t := t[i + 1 := Add(lambda[i + 1], GfMul(Q, tables, delta, b[i]))];
      }
      i := i + 1;
    }
  }

  method RsScale(tables: Tables, f: E, lambda: Poly33) returns (b: Poly33)
    requires TablesOk(Q, tables)
    ensures b == ScaleBy(Q, f, lambda)
  {
    hide Mul, ExpOk, LogOk, Primitive, Poly;
    b := lambda;
    var i := 0;
    while i <= NROOTS
      invariant 0 <= i <= NROOTS + 1
      invariant forall k :: 0 <= k < i ==> b[k] == ScaleBy(Q, f, lambda)[k]
      invariant forall k :: i <= k <= NROOTS ==> b[k] == lambda[k]
    {
      b := b[i := GfMul(Q, tables, f, lambda[i])];
      i := i + 1;
    }
  }

  // ---- the algorithm as a function of the syndromes -----------------------------------------------------------------

  /** Candidate, length and correction polynomial. */
  datatype RsState = RsState(lambda: Poly33, l: nat, b: Poly33)

  function OnePoly(): (c: Poly33) {
    seq(NROOTS + 1, _ => Zero)[0 := One]
  }

  ghost function RsStep(s: seq<E>, st: RsState, r: nat): RsState
    requires Primitive(Q)
  {
    var delta := Discrepancy(Q, st.lambda, s, r);
    if delta == Zero then RsState(st.lambda, st.l, ShiftUp(st.b))
    else if 2 * st.l <= r then
      RsState(Combine(Q, st.lambda, st.b, delta, 1), r + 1 - st.l, ScaleBy(Q, Inv(Q, delta), st.lambda))
    else RsState(Combine(Q, st.lambda, st.b, delta, 1), st.l, ShiftUp(st.b))
  }

  /** The state after r syndromes. */
  ghost function RsRun(s: seq<E>, r: nat): RsState
    requires Primitive(Q)
  {
    if r == 0 then RsState(OnePoly(), 0, OnePoly()) else RsStep(s, RsRun(s, r - 1), r - 1)
  }

  lemma RsRunNext(s: seq<E>, r: nat)
    requires Primitive(Q)
    ensures RsRun(s, r + 1) == RsStep(s, RsRun(s, r), r) && RsRun(s, 0) == RsState(OnePoly(), 0, OnePoly())
  {
    hide RsStep, Primitive, Poly;
  }

  /** No recurrence shorter than l produces the first r syndromes. */
  ghost predicate ShortestSoFar(s: seq<E>, l: nat, r: nat) {
    forall d :: Generator(Q, d, s, r) ==> l < |d|
  }

  lemma RsStepKeeps(s: seq<E>, st: RsState, r: nat)
    requires Primitive(Q) && r < NROOTS
    requires RsProgress(s, st.lambda, st.l, st.b, r) && Shortest(s, st.l) && ShortestSoFar(s, st.l, r)
    ensures var t := RsStep(s, st, r);
            RsProgress(s, t.lambda, t.l, t.b, r + 1) && Shortest(s, t.l) && ShortestSoFar(s, t.l, r + 1)
  {
    hide Mul, RsProgress, Shortest, ShortestSoFar, Discrepancy, Combine, Degree, BerlekampMassey.Generates,
         Primitive, Inv, Poly;
    var delta := Discrepancy(Q, st.lambda, s, r);
    ProgressFacts(s, st.lambda, st.l, st.b, r);
    StillShortest(s, st.l, r);
    if delta == Zero {
      RsKeep(s, st.lambda, st.l, st.b, r);
    } else if 2 * st.l <= r {
      InvWorks(Q, delta);
      RsGrow(s, st.lambda, st.l, st.b, r, delta, Inv(Q, delta));
      RsGrowShortest(s, st.lambda, st.l, r);
      RsGrowOutright(s, st.lambda, st.l, r);
    } else {
      RsCorrect(s, st.lambda, st.l, st.b, r, delta);
    }
  }

  /** A recurrence for more syndromes is one for fewer. */
  lemma StillShortest(s: seq<E>, l: nat, r: nat)
    requires ShortestSoFar(s, l, r)
    ensures ShortestSoFar(s, l, r + 1)
  {
    hide Discrepancy, Poly;
    forall d | Generator(Q, d, s, r + 1) ensures l < |d| { assert Generator(Q, d, s, r); }
  }

  lemma RsGrowOutright(s: seq<E>, lambda: Poly33, l: nat, r: nat)
    requires l <= r < NROOTS && Degree(lambda, l) && BerlekampMassey.Generates(Q, lambda, l, s, r)
    requires Discrepancy(Q, lambda, s, r) != Zero
    ensures ShortestSoFar(s, r + 1 - l, r + 1)
  {
    hide Discrepancy, Poly, Generator, BerlekampMassey.Generates, Degree;
    forall d | Generator(Q, d, s, r + 1) ensures r + 1 - l < |d| { MasseyStep(Q, lambda, l, d, s, r); }
  }

  lemma {:induction false} RsRunKeeps(s: seq<E>, r: nat)
    requires Primitive(Q) && r <= NROOTS
    ensures var st := RsRun(s, r);
            RsProgress(s, st.lambda, st.l, st.b, r) && Shortest(s, st.l) && ShortestSoFar(s, st.l, r)
    decreases r
  {
    hide RsStep, RsProgress, Shortest, ShortestSoFar, Primitive, Poly;
    if r == 0 {
      RsBegin(s, OnePoly());
      NothingShorter(s);
    } else {
      RsRunKeeps(s, r - 1);
      RsStepKeeps(s, RsRun(s, r - 1), r - 1);
    }
  }

  lemma NothingShorter(s: seq<E>)
    ensures ShortestSoFar(s, 0, 0)
  {
    hide BerlekampMassey.Generates, Poly;
  }

  /** What the locator polynomial and its length are: constant term 1, the degree within the length, every
      syndrome from the length on produced, and no shorter recurrence or pattern of at most 16 places. */
  lemma RsRunFacts(s: seq<E>, r: nat)
    requires Primitive(Q) && r == NROOTS
    ensures var st := RsRun(s, r);
            && st.l <= r && st.lambda[0] == One && Degree(st.lambda, st.l)
            && BerlekampMassey.Generates(Q, st.lambda, st.l, s, r) && Shortest(s, st.l) && ShortestSoFar(s, st.l, r)
  {
    hide RsRun, RsProgress, Shortest, ShortestSoFar, Primitive, Poly, Degree, BerlekampMassey.Generates;
    RsRunKeeps(s, r);
    var st := RsRun(s, r);
    ProgressFacts(s, st.lambda, st.l, st.b, r);
  }

  /** The locator polynomial and its length, shortest among everything the syndromes allow. */
  method FindRsLocator(tables: Tables, syn: seq<E>) returns (lambda: Poly33, ghost l: nat)
    requires TablesOk(Q, tables) && |syn| == NROOTS
    ensures Primitive(Q) && lambda == RsRun(syn, |syn|).lambda && l == RsRun(syn, |syn|).l
    ensures l <= NROOTS && lambda[0] == One && Degree(lambda, l)
    ensures BerlekampMassey.Generates(Q, lambda, l, syn, |syn|) && Shortest(syn, l) && ShortestSoFar(syn, l, |syn|)
  {
    hide Mul, TablesOk, RsRun, Shortest, ShortestSoFar, Discrepancy, Combine, Degree, BerlekampMassey.Generates,
         Primitive, Inv, Poly;
    PrimitiveTables(Q, tables);
    lambda := OnePoly();
    var b: Poly33 := lambda;
    var el: nat := 0;
    RsRunNext(syn, 0);
    var r: nat := 0;
    while r < NROOTS
      invariant 0 <= r <= NROOTS && RsRun(syn, r) == RsState(lambda, el, b)
    {
      RsRunNext(syn, r);
      RsRunKeeps(syn, r);
      ProgressFacts(syn, lambda, el, b, r);
      var delta := RsDelta(tables, lambda, syn, r);
      if delta == Zero {
        b := ShiftUp(b);
      } else {
        var t := RsUpdate(tables, lambda, b, delta);
        if 2 * el <= r {
          var inverse := GfInv(Q, tables, delta);
          b := RsScale(tables, inverse, lambda);
          el := r + 1 - el;
        } else {
          b := ShiftUp(b);
        }
        lambda := t;
      }
      r := r + 1;
    }
    RsRunFacts(syn, r);
    l := el;
  }

  lemma ProgressFacts(s: seq<E>, lambda: Poly33, l: nat, b: Poly33, r: nat)
    requires RsProgress(s, lambda, l, b, r)
    ensures l <= r && lambda[0] == One && Degree(lambda, l) && BerlekampMassey.Generates(Q, lambda, l, s, r)
  {
  }
}
