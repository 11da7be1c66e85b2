/** The root search of the CCSDS decoder: the degree of the locator polynomial, the registers that step
    its terms from one power of alpha to the next, and the roots they find. */
module CcsdsSearch {
  import opened Gf256
  import opened GfOrbit
  import opened GfTables
  import opened GfPoly
  import opened BerlekampMassey
  import opened BchWord
  import opened CcsdsCode
  import opened CcsdsErrors
  import opened CcsdsLocator

  // ---- evaluating from the top term down ---------------------------------------------------------------------------

  /** The terms of d from z^j up. */
  function Top(q: E, d: seq<E>, z: E, j: nat): E
    requires j <= |d|
  {
    Mul(q, Pow(q, z, j), Eval(q, d[j..], z))
  }

  lemma TopStep(q: E, d: seq<E>, z: E, j: nat)
    requires j < |d|
    ensures Top(q, d, z, j) == Add(Top(q, d, z, j + 1), Mul(q, d[j], Pow(q, z, j)))
  {
    hide Mul, Add;
    assert d[j..][1..] == d[j + 1..];
    var p, e := Pow(q, z, j), Eval(q, d[j + 1..], z);
    MulDistrib(q, d[j], Mul(q, z, e), p);
    MulComm(q, d[j], p);
    MulAssoc(q, p, z, e);
    MulComm(q, p, z);
    AddBasics(Mul(q, p, d[j]), Mul(q, p, Mul(q, z, e)));
  }

  lemma TopEnds(q: E, d: seq<E>, z: E)
    ensures Top(q, d, z, |d|) == Zero && Top(q, d, z, 0) == Eval(q, d, z)
  {
    hide Mul, Add;
    assert d[0..] == d && d[|d|..] == [];
    MulOne(q, Pow(q, z, |d|));
    MulOne(q, Eval(q, d, z));
  }

  /** Zero coefficients above k do not matter. */
  lemma {:induction false} EvalCut(q: E, c: seq<E>, k: nat, z: E)
    requires k <= |c| && forall i :: k <= i < |c| ==> c[i] == Zero
    ensures Eval(q, c[..k], z) == Eval(q, c, z)
    decreases |c|
  {
    hide Mul, Add;
    if |c| > 0 {
      if k == 0 {
        EvalCut(q, c[1..], 0, z);
        assert c[1..][..0] == c[..0];
        MulOne(q, z);
        AddBasics(Zero, Zero);
      } else {
        assert c[..k][1..] == c[1..][..k - 1];
        EvalCut(q, c[1..], k - 1, z);
      }
    }
  }

  // ---- the degree -------------------------------------------------------------------------------

  /** The highest place with a non-zero coefficient, 0 if there is none. */
  function TopDegree(c: seq<E>): (d: nat)
    ensures Degree(c, d) && (d > 0 ==> d < |c| && c[d] != Zero)
  {
    if |c| <= 1 then 0
    else if c[|c| - 1] != Zero then |c| - 1
    else
      var rest := c[..|c| - 1];
      assert forall i :: 0 <= i < |rest| ==> c[i] == rest[i];
      TopDegree(rest)
  }

  lemma TopDegreeIs(c: seq<E>, d: nat)
    requires Degree(c, d) && (d > 0 ==> d < |c| && c[d] != Zero)
    ensures TopDegree(c) == d
  {
  }

  lemma TopDegreeBounds(c: seq<E>)
    requires |c| > 0
    ensures TopDegree(c) < |c| && Degree(c, TopDegree(c))
  {
  }

  /** The highest non-zero coefficient. */
  method DegreeOf(lambda: Poly33) returns (deg: nat)
    requires lambda[0] == One
    ensures deg <= NROOTS && deg == TopDegree(lambda)
  {
    deg := NROOTS;
    while deg > 0 && lambda[deg] == Zero
      invariant 0 <= deg <= NROOTS && Degree(lambda, deg)
    {
      deg := deg - 1;
    }
    TopDegreeIs(lambda, deg);
  }

  // ---- the registers ----------------------------------------------------------------------------

  /** Register j holds the term of degree j at alpha^i. */
  ghost predicate RegOk(lambda: Poly33, deg: nat, reg: seq<E>, i: nat) {
    && |reg| == NROOTS + 1 && deg <= NROOTS
    && forall j :: 1 <= j <= deg ==> reg[j] == Mul(Q, lambda[j], Pow(Q, Exp(Q, i), j))
  }

  lemma RegStarts(lambda: Poly33, deg: nat, reg: seq<E>)
    requires |reg| == NROOTS + 1 && deg <= NROOTS && reg[1..] == lambda[1..]
    ensures RegOk(lambda, deg, reg, 0)
  {
    hide Mul, Exp, Pow, Poly;
    forall j | 1 <= j <= deg ensures reg[j] == Mul(Q, lambda[j], Pow(Q, Exp(Q, 0), j)) {
      assert reg[j] == reg[1..][j - 1] == lambda[1..][j - 1];
      PowExp(Q, 0, j);
      ZeroPower();
      MulOne(Q, lambda[j]);
    }
  }

  /** Multiplying the term of degree j by alpha^j takes it to the next power. */
  lemma NextTerm(a: E, i: nat, j: nat)
    ensures Mul(Q, Mul(Q, a, Pow(Q, Exp(Q, i), j)), Exp(Q, j)) == Mul(Q, a, Pow(Q, Exp(Q, i + 1), j))
    ensures Mul(Q, a, Pow(Q, Exp(Q, i), j)) == Zero ==> Mul(Q, a, Pow(Q, Exp(Q, i + 1), j)) == Zero
  {
    hide Mul, Exp, Pow, Poly;
    PowExp(Q, i, j);
    PowExp(Q, i + 1, j);
    assert (i + 1) * j == i * j + j;
    ExpAdd(Q, i * j, j);
    MulAssoc(Q, a, Exp(Q, i * j), Exp(Q, j));
    MulOne(Q, Exp(Q, j));
  }

  /** Step every register once and add them up: the value of the locator at the next power of alpha. */
  method ChienStep(tables: Tables, lambda: Poly33, deg: nat, reg0: seq<E>, ghost i: nat) returns (reg: seq<E>, val: E)
    requires TablesOk(Q, tables) && lambda[0] == One && RegOk(lambda, deg, reg0, i)
    ensures RegOk(lambda, deg, reg, i + 1) && val == Eval(Q, lambda[..deg + 1], Exp(Q, i + 1))
  {
    hide Mul, Add, Exp, Pow, Eval, TablesOk, Top, Poly;
    ghost var d := lambda[..deg + 1];
    ghost var z := Exp(Q, i + 1);
    reg := reg0;
    val := One;
    var j := deg;
    TopEnds(Q, d, z);
    AddBasics(One, Zero);
    while j >= 1
      invariant 0 <= j <= deg && |reg| == NROOTS + 1
      invariant forall k :: 1 <= k <= j ==> reg[k] == reg0[k]
      invariant forall k :: j < k <= deg ==> reg[k] == Mul(Q, lambda[k], Pow(Q, z, k))
      invariant val == Add(One, Top(Q, d, z, j + 1))
    {
      NextTerm(lambda[j], i, j);
      TopStep(Q, d, z, j);
      ghost var term := Mul(Q, lambda[j], Pow(Q, z, j));
      AddAssoc(One, Top(Q, d, z, j + 1), term);
      AddBasics(val, Zero);
      if reg[j] != Zero {
        reg := reg[j := TimesPower(tables, reg[j], j)];
        val := Add(val, reg[j]);
      }
      j := j - 1;
    }
    TopStep(Q, d, z, 0);
    ConstantTerm(z);
    AddBasics(One, Top(Q, d, z, 1));
  }

  lemma ConstantTerm(z: E)
    ensures Mul(Q, One, Pow(Q, z, 0)) == One
  {
    hide Mul, Poly;
    MulOne(Q, One);
  }

  // ---- the search -------------------------------------------------------------------------------

  ghost predicate IsRoot(d: seq<E>, i: nat) {
    Eval(Q, d, Exp(Q, i)) == Zero
  }

  predicate Rising(root: seq<nat>) {
    forall a, b :: 0 <= a < b < |root| ==> root[a] < root[b]
  }

  /** root lists, in order, the exponents from 1 up to below `bound` at which d vanishes. */
  ghost predicate RootsBelow(d: seq<E>, root: seq<nat>, bound: nat) {
    && Rising(root)
    && (forall k :: 0 <= k < |root| ==> 1 <= root[k] < bound && IsRoot(d, root[k]))
    && (forall i: nat :: 1 <= i < bound && IsRoot(d, i) ==> i in root)
  }

  /** Those exponents. */
  ghost function RootList(d: seq<E>, bound: nat): (root: seq<nat>) {
    if bound <= 1 then []
    else RootList(d, bound - 1) + (if IsRoot(d, bound - 1) then [bound - 1] else [])
  }

  lemma {:induction false} RootListLists(d: seq<E>, bound: nat)
    requires bound >= 1
    ensures RootsBelow(d, RootList(d, bound), bound)
    decreases bound
  {
    hide IsRoot, RootsBelow;
    if bound == 1 {
      NoRootsYet(d);
    } else {
      RootListLists(d, bound - 1);
      var below := RootList(d, bound - 1);
      RootFound(d, below, bound - 1);
      assert below + [] == below;
    }
  }

  lemma {:induction false} RootListGrows(d: seq<E>, a: nat, b: nat)
    requires a <= b
    ensures |RootList(d, a)| <= |RootList(d, b)| && RootList(d, b)[..|RootList(d, a)|] == RootList(d, a)
    decreases b
  {
    hide IsRoot;
    if a < b { RootListGrows(d, a, b - 1); }
  }

  lemma RootFound(d: seq<E>, root: seq<nat>, i: nat)
    requires RootsBelow(d, root, i) && 1 <= i
    ensures RootsBelow(d, if IsRoot(d, i) then root + [i] else root, i + 1)
  {
    hide IsRoot;
    var next := root + [i];
    assert next[|root|] == i;
    forall a: nat | a in root ensures a in next {}
  }

  lemma NoRootsYet(d: seq<E>)
    ensures RootsBelow(d, [], 1)
  {
  }

  lemma NextLoc(i: nat)
    requires i >= 1
    ensures LocOf(i + 1) == (LocOf(i) + IPRIM) % 255
  {
    ModAdd(IPRIM - 1 + IPRIM * (i - 1), IPRIM);
  }

  lemma ModAdd(a: nat, b: nat)
    ensures (a + b) % 255 == (a % 255 + b) % 255
  {
  }

  ghost predicate LocsOf(root: seq<nat>, loc: seq<nat>) {
    |loc| == |root| && forall k :: 0 <= k < |root| ==> root[k] >= 1 && loc[k] == LocOf(root[k])
  }

  /** Chien search over alpha^1 .. alpha^255, stopping once there are as many roots as the degree. */
  method Search(tables: Tables, lambda: Poly33, deg: nat) returns (root: seq<nat>, loc: seq<nat>, ghost bound: nat)
    requires TablesOk(Q, tables) && lambda[0] == One && deg <= NROOTS
    ensures root == RootList(lambda[..deg + 1], bound) && 1 <= bound && LocsOf(root, loc)
    ensures |root| <= deg && bound <= N + 1 && (bound == N + 1 || |root| == deg)
  {
    hide TablesOk, RegOk, Eval, Exp, LocOf, Poly;
    ghost var d := lambda[..deg + 1];
    var reg: seq<E> := [Zero] + lambda[1..];
    RegStarts(lambda, deg, reg);
    root, loc := [], [];
    FirstLoc();
    var k: nat := IPRIM - 1;
    var i: nat := 1;
    while i <= N && |root| < deg
      invariant 1 <= i <= N + 1 && |root| <= deg && root == RootList(d, i) && LocsOf(root, loc)
      invariant k == LocOf(i) && k < 255 && RegOk(lambda, deg, reg, i - 1)
    {
      var val;
      reg, val := ChienStep(tables, lambda, deg, reg, i - 1);
      RootListLists(d, i);
      if val == Zero {
        root := root + [i];
        loc := loc + [((k % 255) + 255) % 255];
      }
      NextLoc(i);
      i := i + 1;
      k := (k + IPRIM) % 255;
    }
    bound := i;
  }

  lemma FirstLoc()
    ensures LocOf(1) == IPRIM - 1
  {
  }

  // ---- what the search finds when the word is near a codeword -----------------------------------

  lemma {:induction false} Crowd(x: seq<E>, y: seq<E>)
    requires Distinct(x) && forall i :: 0 <= i < |x| ==> x[i] in y
    ensures |x| <= |y|
    decreases |x|
  {
    if |x| > 0 {
      var j :| 0 <= j < |y| && y[j] == x[0];
      var rest := y[..j] + y[j + 1..];
      forall i | 0 <= i < |x[1..]| ensures x[1..][i] in rest {
        var k :| 0 <= k < |y| && y[k] == x[i + 1];
        assert k != j;
        assert rest[if k < j then k else k - 1] == y[k];
      }
      Crowd(x[1..], rest);
    }
  }
}
