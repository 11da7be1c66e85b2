/** The error values of the CCSDS decoder: evaluator, derivative, their quotient, and the correction loop. */
module CcsdsDecoder {
  import opened Gf256
  import opened GfOrbit
  import opened GfTables
  import opened GfPoly
  import opened BerlekampMassey
  import opened BchWord
  import opened CcsdsCode
  import opened CcsdsErrors
  import opened CcsdsLocator
  import opened CcsdsSearch
  import Forney

  // ---- the evaluator ---------------------------------------------------------------------------------------------

  /** Coefficient i of the evaluator. */
  method OmegaAt(tables: Tables, lambda: Poly33, deg: nat, syn: seq<E>, i: nat) returns (sum: E)
    requires TablesOk(Q, tables) && i < |syn| == NROOTS && deg <= NROOTS && Degree(lambda, deg)
    ensures sum == Discrepancy(Q, lambda, syn, i)
  {
    hide Mul, Add, ExpOk, LogOk, Primitive, Poly;
    sum := Zero;
    var jmax := if deg < i then deg else i;
    var j := 0;
    while j <= jmax
      invariant 0 <= j <= jmax + 1 && sum == Discrepancy(Q, lambda[..j], syn, i)
    {
      DiscrepancyAppend(Q, lambda[..j], lambda[j], syn, i);
      assert lambda[..j] + [lambda[j]] == lambda[..j + 1];
      MulOne(Q, lambda[j]);
      MulOne(Q, syn[i - j]);
      AddBasics(sum, Zero);
      if syn[i - j] != Zero && lambda[j] != Zero {
        sum := Add(sum, GfMul(Q, tables, syn[i - j], lambda[j]));
        MulComm(Q, syn[i - j], lambda[j]);
      }
      j := j + 1;
    }
    if deg < i {
      DiscrepancyCut(Q, lambda, deg + 1, syn, i);
    } else {
      Forney.DiscrepancyStart(Q, lambda, syn, i, i + 1);
    }
  }

  /** The first 32 coefficients of syndromes times locator. */
  function OmegaOf(lambda: seq<E>, syn: seq<E>): (omega: seq<E>)
    ensures |omega| == NROOTS
  {
    seq(NROOTS, i requires 0 <= i < NROOTS => Discrepancy(Q, lambda, syn, i))
  }

  method Omega(tables: Tables, lambda: Poly33, deg: nat, syn: seq<E>) returns (omega: seq<E>, degOmega: nat)
    requires TablesOk(Q, tables) && |syn| == NROOTS && deg <= NROOTS && Degree(lambda, deg)
    ensures omega == OmegaOf(lambda, syn) && degOmega == TopDegree(omega)
  {
    hide TablesOk, Discrepancy, Poly;
    omega := seq(NROOTS, _ => Zero);
    degOmega := 0;
    var i := 0;
    while i < NROOTS
      invariant 0 <= i <= NROOTS && |omega| == NROOTS && degOmega < NROOTS && degOmega <= i
      invariant forall k :: 0 <= k < i ==> omega[k] == Discrepancy(Q, lambda, syn, k)
      invariant forall k :: degOmega < k < NROOTS ==> omega[k] == Zero
      invariant degOmega > 0 ==> degOmega < i && omega[degOmega] != Zero
    {
      var sum := OmegaAt(tables, lambda, deg, syn, i);
      if sum != Zero {
        degOmega := i;
      }
      omega := omega[i := sum];
      i := i + 1;
    }
    assert omega == OmegaOf(lambda, syn);
    TopDegreeIs(omega, degOmega);
  }

  /** `num1`: the evaluator at alpha^root. */
  method Numerator(tables: Tables, omega: seq<E>, degOmega: nat, root: nat) returns (num: E)
    requires TablesOk(Q, tables) && degOmega < |omega| && Degree(omega, degOmega)
    ensures num == Eval(Q, omega, Exp(Q, root))
  {
    hide Mul, Add, Exp, Pow, Eval, TablesOk, Top, Poly;
    ghost var d, z := omega[..degOmega + 1], Exp(Q, root);
    num := Zero;
    TopEnds(Q, d, z);
    EvalCut(Q, omega, degOmega + 1, z);
    var i: nat := degOmega + 1;
    while i > 0
      invariant 0 <= i <= degOmega + 1 && num == Top(Q, d, z, i)
    {
      i := i - 1;
      TopStep(Q, d, z, i);
      TermAt(omega[i], root, i);
      AddBasics(num, Zero);
      if omega[i] != Zero {
        num := Add(num, TimesPower(tables, omega[i], i * root));
      }
    }
  }

  lemma TermAt(a: E, root: nat, i: nat)
    ensures Mul(Q, a, Exp(Q, i * root)) == Mul(Q, a, Pow(Q, Exp(Q, root), i))
    ensures a == Zero ==> Mul(Q, a, Pow(Q, Exp(Q, root), i)) == Zero
  {
    hide Mul, Exp, Pow, Poly;
    PowExp(Q, root, i);
    MulOne(Q, Exp(Q, i * root));
  }

  /** The odd terms of c from z^i up, for even i. */
  function OddTop(q: E, c: seq<E>, z: E, i: nat): E
    requires i <= |c|
  {
    Mul(q, Pow(q, z, i), Forney.OddTerms(q, c[i..], z))
  }

  lemma OddTopStep(q: E, c: seq<E>, z: E, i: nat)
    requires i + 2 <= |c|
    ensures OddTop(q, c, z, i) == Add(OddTop(q, c, z, i + 2), Mul(q, c[i + 1], Pow(q, z, i)))
  {
    hide Mul, Add;
    assert c[i..][2..] == c[i + 2..];
    var p, e := Pow(q, z, i), Forney.OddTerms(q, c[i + 2..], z);
    MulDistrib(q, c[i + 1], Mul(q, Mul(q, z, z), e), p);
    MulComm(q, c[i + 1], p);
    assert Pow(q, z, i + 2) == Mul(q, z, Pow(q, z, i + 1)) && Pow(q, z, i + 1) == Mul(q, z, p);
    MulAssoc(q, z, z, p);
    MulComm(q, Mul(q, z, z), p);
    MulAssoc(q, p, Mul(q, z, z), e);
    AddBasics(Mul(q, p, c[i + 1]), Mul(q, p, Mul(q, Mul(q, z, z), e)));
  }

  lemma {:induction false} OddNone(q: E, c: seq<E>, z: E)
    requires forall i :: 0 <= i < |c| && |c| >= 2 ==> c[i] == Zero
    ensures Forney.OddTerms(q, c, z) == Zero
    decreases |c|
  {
    hide Mul, Add;
    if |c| >= 2 {
      OddNone(q, c[2..], z);
      MulOne(q, Mul(q, z, z));
      AddBasics(Zero, Zero);
    }
  }

  lemma {:induction false} OddCut(q: E, c: seq<E>, k: nat, z: E)
    requires k <= |c| && forall i :: k <= i < |c| ==> c[i] == Zero
    ensures Forney.OddTerms(q, c[..k], z) == Forney.OddTerms(q, c, z)
    decreases |c|
  {
    hide Mul, Add;
    if k < 2 {
      if |c| >= 2 {
        OddNone(q, c[2..], z);
        MulOne(q, Mul(q, z, z));
        AddBasics(Zero, Zero);
      }
    } else {
      assert c[..k][2..] == c[2..][..k - 2];
      OddCut(q, c[2..], k - 2, z);
    }
  }

  lemma OddTopStarts(q: E, c: seq<E>, z: E, i: nat)
    requires i <= |c| && (|c| - i < 2 || forall k :: i <= k < |c| ==> c[k] == Zero)
    ensures OddTop(q, c, z, i) == Zero
  {
    hide Mul;
    OddNone(q, c[i..], z);
    MulOne(q, Pow(q, z, i));
  }

  lemma OddTopEnds(q: E, c: seq<E>, z: E)
    ensures OddTop(q, c, z, 0) == Forney.OddTerms(q, c, z)
  {
    hide Mul;
    assert c[0..] == c;
    MulOne(q, Forney.OddTerms(q, c, z));
  }

  /** `den`: every second coefficient of the locator, from the highest odd one down. */
  method Denominator(tables: Tables, lambda: Poly33, deg: nat, root: nat) returns (den: E)
    requires TablesOk(Q, tables) && deg <= NROOTS && Degree(lambda, deg)
    ensures den == Forney.OddTerms(Q, lambda, Exp(Q, root))
  {
    hide Mul, Add, Exp, Pow, TablesOk, OddTop, Poly;
    ghost var z := Exp(Q, root);
    var top := if deg < NROOTS - 1 then deg else NROOTS - 1;
    var start: nat := top - top % 2;
    den := Zero;
    OddTopStarts(Q, lambda, z, start + 2);
    var i: int := start;
    while i >= 0
      invariant -2 <= i <= start && i % 2 == 0 && den == OddTop(Q, lambda, z, i + 2)
    {
      OddTopStep(Q, lambda, z, i);
      TermAt(lambda[i + 1], root, i);
      AddBasics(den, Zero);
      if lambda[i + 1] != Zero {
        den := Add(den, TimesPower(tables, lambda[i + 1], i * root));
      }
      i := i - 2;
    }
    OddTopEnds(Q, lambda, z);
  }

  // ---- correcting -------------------------------------------------------------------------------

  /** Forney's value at root exponent i: evaluator times alpha^(111 i) over derivative. */
  ghost function Magnitude(lambda: seq<E>, omega: seq<E>, i: nat): E
    requires Primitive(Q)
  {
    var den := Forney.OddTerms(Q, lambda, Exp(Q, i));
    if den == Zero then Zero
    else Mul(Q, Mul(Q, Eval(Q, omega, Exp(Q, i)), Exp(Q, i * (FCR - 1))), Inv(Q, den))
  }

  lemma QuotientIs(q: E, a: E, b: E, d: E, r: E)
    requires Primitive(q) && d != Zero && Mul(q, r, d) == Mul(q, a, b)
    ensures r == Mul(q, Mul(q, a, b), Inv(q, d))
  {
    hide Mul, Primitive, Inv;
    InvWorks(q, d);
    MulAssoc(q, r, d, Inv(q, d));
    MulOne(q, r);
  }

  lemma ExpEntry(q: E, tables: Tables, i: nat)
    requires TablesOk(q, tables) && i < 255
    ensures tables.exp[i] == Exp(q, i)
  {
    hide Exp, Primitive, LogOk;
  }

  function QuotientExponent(a: nat, b: nat, d: nat): (e: nat)
    ensures e < 255
  {
    (a + b + 255 - d) % 255
  }

  /** The exponent arithmetic of the correction: log a + log b + 255 - log d. */
  lemma QuotientLooksUp(q: E, tables: Tables, a: E, b: E, d: E)
    requires TablesOk(q, tables) && a != Zero && b != Zero && d != Zero
    ensures Number(a) < 256 && Number(b) < 256 && Number(d) < 256 && tables.log[Number(d)] < 255
    ensures tables.exp[QuotientExponent(tables.log[Number(a)], tables.log[Number(b)], tables.log[Number(d)])]
         == Mul(q, Mul(q, a, b), Inv(q, d))
  {
    hide Exp, Mul, Primitive, Number, ExpOk, LogOk, Inv;
    LogLooksUp(q, tables, a);
    LogLooksUp(q, tables, b);
    LogLooksUp(q, tables, d);
    var i, j, k := tables.log[Number(a)], tables.log[Number(b)], tables.log[Number(d)];
    var e := i + j + 255 - k;
    assert QuotientExponent(i, j, k) == e % 255;
    ExpWraps(q, e);
    ExpEntry(q, tables, e % 255);
    ExpAdd(q, e, k);
    ExpWraps(q, i + j);
    ExpAdd(q, i, j);
    QuotientIs(q, a, b, d, Exp(q, e));
  }

  function Divided(ghost q: E, tables: Tables, a: E, b: E, d: E): (r: E)
    requires TablesOk(q, tables) && a != Zero && b != Zero && d != Zero
    ensures r == Mul(q, Mul(q, a, b), Inv(q, d))
  {
    hide Exp, Mul, Primitive, Number, ExpOk, LogOk, Inv;
    QuotientLooksUp(q, tables, a, b, d);
    tables.exp[QuotientExponent(tables.log[Number(a)], tables.log[Number(b)], tables.log[Number(d)])]
  }

  lemma PowerEntry(tables: Tables, root: nat)
    requires TablesOk(Q, tables)
    ensures tables.exp[(root * (FCR - 1)) % 255] == Exp(Q, root * (FCR - 1)) != Zero
  {
    hide Exp, Primitive, LogOk, ExpOk, Poly;
    ExpWraps(Q, root * (FCR - 1));
    ExpEntry(Q, tables, (root * (FCR - 1)) % 255);
    ExpNotZeroP(Q, root * (FCR - 1));
  }

  lemma MagnitudeIs(lambda: seq<E>, omega: seq<E>, i: nat, num1: E, num2: E, den: E)
    requires Primitive(Q) && den == Forney.OddTerms(Q, lambda, Exp(Q, i)) && num1 == Eval(Q, omega, Exp(Q, i))
    requires num2 == Exp(Q, i * (FCR - 1)) && den != Zero
    ensures num1 == Zero ==> Magnitude(lambda, omega, i) == Zero
    ensures Magnitude(lambda, omega, i) == Mul(Q, Mul(Q, num1, num2), Inv(Q, den))
  {
    hide Exp, Mul, Primitive, Inv, Eval, Poly;
    MulOne(Q, num2);
    MulOne(Q, Inv(Q, den));
  }

  /** Correct one located symbol. */
  method CorrectOne(tables: Tables, lambda: Poly33, deg: nat, omega: seq<E>, degOmega: nat, root: nat, loc: nat,
                    block: array<E>) returns (ok: bool)
    requires TablesOk(Q, tables) && deg <= NROOTS && Degree(lambda, deg)
    requires degOmega < |omega| && Degree(omega, degOmega) && loc < block.Length
    modifies block
    ensures ok <==> Forney.OddTerms(Q, lambda, Exp(Q, root)) != Zero
    ensures !ok ==> block[..] == old(block[..])
    ensures ok ==> Primitive(Q)
                   && block[..] == old(block[..])[loc := Add(old(block[loc]), Magnitude(lambda, omega, root))]
  {
    hide Exp, Mul, Add, TablesOk, Primitive, Inv, Eval, Magnitude, Poly;
    PrimitiveTables(Q, tables);
    TableSizes(tables);
    var num1 := Numerator(tables, omega, degOmega, root);
    PowerEntry(tables, root);
    var num2 := tables.exp[(root * (FCR - 1)) % 255];
    var den := Denominator(tables, lambda, deg, root);
    if den == Zero {
      return false;
    }
    MagnitudeIs(lambda, omega, root, num1, num2, den);
    AddBasics(block[loc], Zero);
    if num1 != Zero {
      block[loc] := Add(block[loc], Divided(Q, tables, num1, num2, den));
    }
    return true;
  }

  lemma TableSizes(tables: Tables)
    requires TablesOk(Q, tables)
    ensures |tables.exp| == 512
  {
  }

  /** v with the positions named by the root exponents corrected. */
  ghost function Corrected(v: seq<E>, lambda: seq<E>, omega: seq<E>, root: seq<nat>): (r: seq<E>)
    requires Primitive(Q)
    ensures |r| == |v|
  {
    seq(|v|, p requires 0 <= p < |v| =>
      if RootExp(p) in root then Add(v[p], Magnitude(lambda, omega, RootExp(p))) else v[p])
  }

  lemma CorrectedNext(v: seq<E>, lambda: seq<E>, omega: seq<E>, root: seq<nat>, i: nat)
    requires Primitive(Q) && |v| == N && 1 <= i <= 255 && i !in root
    ensures Corrected(v, lambda, omega, root + [i])
         == Corrected(v, lambda, omega, root)[LocOf(i) := Add(Corrected(v, lambda, omega, root)[LocOf(i)],
                                                              Magnitude(lambda, omega, i))]
  {
    hide Add, Magnitude, RootExp, LocOf, Primitive, Poly;
    RootExpOfLoc(i);
    forall p: nat | p < N && p != LocOf(i) ensures RootExp(p) != i { LocOfRootExp(p); }
  }

  ghost predicate Divides(lambda: seq<E>, root: seq<nat>) {
    forall k :: 0 <= k < |root| ==> Forney.OddTerms(Q, lambda, Exp(Q, root[k])) != Zero
  }

  lemma DividesNothing(lambda: seq<E>, root: seq<nat>)
    ensures Divides(lambda, root[..0])
  {
  }

  /** Rising root exponents in 1 .. 255 with their positions. */
  ghost predicate Named(root: seq<nat>, loc: seq<nat>) {
    Rising(root) && LocsOf(root, loc) && forall k :: 0 <= k < |root| ==> 1 <= root[k] <= N
  }

  /** One more root: what is corrected, and when division works. */
  lemma CorrectedPrefix(v: seq<E>, lambda: seq<E>, omega: seq<E>, root: seq<nat>, loc: seq<nat>, j: nat)
    requires Primitive(Q) && |v| == N && Named(root, loc) && j < |root|
    ensures |loc| == |root| && loc[j] < N
    ensures Corrected(v, lambda, omega, root[..j + 1])
         == Corrected(v, lambda, omega, root[..j])[loc[j] :=
              Add(Corrected(v, lambda, omega, root[..j])[loc[j]], Magnitude(lambda, omega, root[j]))]
    ensures Divides(lambda, root[..j + 1])
        <==> Divides(lambda, root[..j]) && Forney.OddTerms(Q, lambda, Exp(Q, root[j])) != Zero
    ensures Divides(lambda, root) ==> Divides(lambda, root[..j + 1])
  {
    hide Exp, Add, Primitive, Magnitude, RootExp, LocOf, Corrected, Poly, Forney.OddTerms;
    assert root[..j + 1] == root[..j] + [root[j]];
    CorrectedNext(v, lambda, omega, root[..j], root[j]);
    forall k | 0 <= k < j ensures root[..j + 1][k] == root[..j][k] == root[k] {}
    assert root[..j + 1][j] == root[j];
  }

  /** Correct every located symbol, or stop at a vanishing derivative. */
  method CorrectAll(tables: Tables, lambda: Poly33, deg: nat, omega: seq<E>, degOmega: nat, root: seq<nat>,
                    loc: seq<nat>, block: array<E>) returns (ok: bool)
    requires TablesOk(Q, tables) && deg <= NROOTS && Degree(lambda, deg)
    requires degOmega < |omega| && Degree(omega, degOmega) && block.Length == N
    requires Named(root, loc)
    modifies block
    ensures ok <==> Divides(lambda, root)
    ensures ok ==> Primitive(Q) && block[..] == Corrected(old(block[..]), lambda, omega, root)
  {
    hide Exp, Add, TablesOk, Primitive, Magnitude, RootExp, LocOf, Corrected, Degree, Poly, Divides, Named,
         Forney.OddTerms;
    PrimitiveTables(Q, tables);
    ghost var v: seq<E> := block[..];
    assert root[..0] == [];
    DividesNothing(lambda, root);
    NoneCorrected(v, lambda, omega);
    var j := 0;
    while j < |root|
      invariant 0 <= j <= |root| && Divides(lambda, root[..j])
      invariant block[..] == Corrected(v, lambda, omega, root[..j])
    {
      CorrectedPrefix(v, lambda, omega, root, loc, j);
      var one := CorrectOne(tables, lambda, deg, omega, degOmega, root[j], loc[j], block);
      if !one {
        return false;
      }
      j := j + 1;
    }
    assert root[..j] == root;
    return true;
  }

  lemma NoneCorrected(v: seq<E>, lambda: seq<E>, omega: seq<E>)
    requires Primitive(Q)
    ensures Corrected(v, lambda, omega, []) == v
  {
    hide Magnitude, Primitive, Poly;
  }
}
