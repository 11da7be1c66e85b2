/** The CCSDS RS(255,223) code: generator, shift-register encoder, and why its words vanish at all 32
    roots. A word is a sequence of symbols, highest power first, so its value at x is `Reverse`. */
module CcsdsCode {
  import opened Gf256
  import opened GfOrbit
  import opened GfTables
  import opened GfPoly
  import opened BchGenerator
  import opened BchWord

  const NROOTS: nat := 32
  const K: nat := N - NROOTS
  /** First root, as an exponent of beta = alpha^PRIM. */
  const FCR: nat := 112
  const PRIM: nat := 11

  const Q: E := Poly(false)

  /** The i-th root of the generator, beta^(FCR + i). */
  function Root(i: nat): E {
    Exp(Q, PRIM * (FCR + i))
  }

  /** A word of 255 symbols that vanishes at all 32 roots. */
  ghost predicate RsCodeword(v: seq<E>) {
    |v| == N && forall i :: 0 <= i < NROOTS ==> Reverse(Q, v, Root(i)) == Zero
  }

  // ---- words as polynomials ------------------------------------------------------------------------------------

  lemma {:induction false} ReverseAppend(q: E, v: seq<E>, b: E, x: E)
    ensures Reverse(q, v + [b], x) == Add(Mul(q, x, Reverse(q, v, x)), b)
    decreases |v|
  {
    hide Mul, Add;
    var w := v + [b];
    if |v| == 0 {
      assert w[1..] == [];
      MulOne(q, x);
      MulOne(q, b);
      AddBasics(b, Zero);
    } else {
      assert w[1..] == v[1..] + [b];
      ReverseAppend(q, v[1..], b, x);
      Triple(q, x, v[0], Pow(q, x, |v| - 1));
      MulDistrib(q, Mul(q, v[0], Pow(q, x, |v| - 1)), Reverse(q, v[1..], x), x);
      AddAssoc(Mul(q, v[0], Pow(q, x, |v|)), Mul(q, x, Reverse(q, v[1..], x)), b);
    }
  }

  lemma {:induction false} ReverseAdd(q: E, a: seq<E>, b: seq<E>, x: E)
    requires |a| == |b|
    ensures Reverse(q, AddAll(a, b), x) == Add(Reverse(q, a, x), Reverse(q, b, x))
    decreases |a|
  {
    hide Mul, Add, Pow;
    AddBasics(Zero, Zero);
    if |a| > 0 {
      assert AddAll(a, b)[1..] == AddAll(a[1..], b[1..]);
      ReverseAdd(q, a[1..], b[1..], x);
      MulDistrib(q, a[0], b[0], Pow(q, x, |a| - 1));
      AddFour(Mul(q, a[0], Pow(q, x, |a| - 1)), Mul(q, b[0], Pow(q, x, |a| - 1)),
              Reverse(q, a[1..], x), Reverse(q, b[1..], x));
    }
  }

  lemma {:induction false} ReverseConcat(q: E, a: seq<E>, b: seq<E>, x: E)
    ensures Reverse(q, a + b, x) == Add(Mul(q, Pow(q, x, |b|), Reverse(q, a, x)), Reverse(q, b, x))
    decreases |b|
  {
    hide Mul, Add, Reverse;
    if |b| == 0 {
      assert a + b == a && b == [];
      NoSymbols(q, x);
      MulOne(q, Reverse(q, a, x));
      AddBasics(Reverse(q, a, x), Zero);
    } else {
      var c, d := b[..|b| - 1], b[|b| - 1];
      assert a + b == (a + c) + [d] && b == c + [d];
      ReverseConcat(q, a, c, x);
      ReverseAppend(q, a + c, d, x);
      ReverseAppend(q, c, d, x);
      var u, v := Mul(q, Pow(q, x, |c|), Reverse(q, a, x)), Reverse(q, c, x);
      MulDistrib(q, u, v, x);
      MulAssoc(q, x, Pow(q, x, |c|), Reverse(q, a, x));
      AddAssoc(Mul(q, x, u), Mul(q, x, v), d);
    }
  }

  lemma NoSymbols(q: E, x: E)
    ensures Reverse(q, [], x) == Zero
  {
  }

  /** Every symbol times f. */
  function ScaleBy(q: E, f: E, v: seq<E>): (r: seq<E>)
    ensures |r| == |v|
  {
    seq(|v|, i requires 0 <= i < |v| => Mul(q, f, v[i]))
  }

  lemma {:induction false} ReverseScale(q: E, f: E, v: seq<E>, x: E)
    ensures Reverse(q, ScaleBy(q, f, v), x) == Mul(q, f, Reverse(q, v, x))
    decreases |v|
  {
    hide Mul, Add, Pow;
    MulOne(q, f);
    if |v| > 0 {
      assert ScaleBy(q, f, v)[1..] == ScaleBy(q, f, v[1..]);
      ReverseScale(q, f, v[1..], x);
      MulAssoc(q, f, v[0], Pow(q, x, |v| - 1));
      MulDistrib(q, Mul(q, v[0], Pow(q, x, |v| - 1)), Reverse(q, v[1..], x), f);
    }
  }

  /** The low coefficients of a low-first polynomial, highest first. */
  function Falling(g: seq<E>, n: nat): (r: seq<E>)
    requires n <= |g|
    ensures |r| == n
  {
    seq(n, i requires 0 <= i < n => g[n - 1 - i])
  }

  lemma {:induction false} FallingValue(q: E, g: seq<E>, n: nat, x: E)
    requires n <= |g|
    ensures Reverse(q, Falling(g, n), x) == Eval(q, g[..n], x)
    decreases n
  {
    hide Mul, Add, Pow, Eval;
    if n == 0 {
      EvalNothing(q, g, x);
    } else {
      assert Falling(g, n)[1..] == Falling(g, n - 1);
      FallingValue(q, g, n - 1, x);
      assert g[..n] == g[..n - 1] + [g[n - 1]];
      EvalAppend(q, g[..n - 1], g[n - 1], x);
      AddBasics(Mul(q, g[n - 1], Pow(q, x, n - 1)), Eval(q, g[..n - 1], x));
    }
  }

  lemma EvalNothing(q: E, g: seq<E>, x: E)
    ensures Eval(q, g[..0], x) == Zero
  {
  }

  // ---- the generator -----------------------------------------------------------------------------------------------

  function Roots(n: nat): (r: seq<E>)
    ensures |r| == n && forall i :: 0 <= i < n ==> r[i] == Root(i)
  {
    seq(n, i requires 0 <= i => Root(i))
  }

  /** g, lowest coefficient first, is monic of degree 32 and vanishes at beta^112 .. beta^143. */
  ghost predicate GeneratorOk(g: seq<E>) {
    |g| == NROOTS + 1 && g[NROOTS] == One && forall i :: 0 <= i < NROOTS ==> Eval(Q, g, Root(i)) == Zero
  }

  lemma ProductVanishes(g: seq<E>, n: nat)
    requires n == NROOTS && |g| == n + 1 && g == Product(Q, Roots(n))
    ensures GeneratorOk(g)
  {
    hide Eval, Product, Root, Poly;
    ProductIsMonic(Q, Roots(n));
    forall i | 0 <= i < n ensures Eval(Q, g, Root(i)) == Zero {
      assert Roots(n)[i] == Root(i);
      RootOfProduct(Q, Roots(n), Root(i));
    }
  }

  /** One factor multiplied in: `new_g[j] = g[j - 1] ^ g[j] * root`. */
  method MultiplyFactor(tables: Tables, g: seq<E>, deg: nat, root: E) returns (newG: seq<E>)
    requires TablesOk(Q, tables) && |g| == NROOTS + 1 && deg < NROOTS
    ensures |newG| == NROOTS + 1 && newG[..deg + 2] == Times(Q, g[..deg + 1], root)
  {
    hide Mul, Add, ExpOk, LogOk, Primitive;
    newG := seq(NROOTS + 1, _ => Zero);
    var j := 0;
    ghost var p := g[..deg + 1];
    while j <= deg + 1
      invariant 0 <= j <= deg + 2 && |newG| == NROOTS + 1
      invariant forall k :: 0 <= k < j ==> newG[k] == Times(Q, p, root)[k]
    {
      var shiftTerm := if j >= 1 then g[j - 1] else Zero;
      MulOne(Q, root);
      var constTerm := if j <= deg then GfMul(Q, tables, g[j], root) else Zero;
      newG := newG[j := Add(shiftTerm, constTerm)];
      j := j + 1;
    }
  }

  /** `build_generator`. */
  method BuildRsGenerator(tables: Tables) returns (g: seq<E>)
    requires TablesOk(Q, tables)
    ensures GeneratorOk(g)
  {
    hide Product, Times, Exp, LogOk, Primitive, Poly;
    PrimitiveRoots(tables);
    g := seq(NROOTS + 1, _ => Zero);
    g := g[0 := One];
    var deg := 0;
    EmptyProduct(g);
    while deg < NROOTS
      invariant 0 <= deg <= NROOTS && |g| == NROOTS + 1 && g[..deg + 1] == Product(Q, Roots(deg))
    {
      var rootExp := (PRIM * (FCR + deg)) % 255;
      ExpWraps(Q, PRIM * (FCR + deg));
      g := MultiplyFactor(tables, g, deg, tables.exp[rootExp]);
      ProductNext(deg);
      deg := deg + 1;
    }
    assert g[..NROOTS + 1] == g;
    ProductVanishes(g, deg);
  }

  lemma PrimitiveRoots(tables: Tables)
    requires TablesOk(Q, tables)
    ensures Primitive(Q)
  {
  }

  lemma EmptyProduct(g: seq<E>)
    requires |g| == NROOTS + 1 && g[0] == One
    ensures g[..1] == Product(Q, Roots(0))
  {
  }

  lemma ProductNext(deg: nat)
    ensures Product(Q, Roots(deg + 1)) == Times(Q, Product(Q, Roots(deg)), Root(deg))
  {
    hide Times, Root;
    assert Roots(deg + 1)[..deg] == Roots(deg);
  }

  /** At every root the part of g below the leading term is worth x^32. */
  lemma LowAtRoot(g: seq<E>, i: nat)
    requires GeneratorOk(g) && i < NROOTS
    ensures Reverse(Q, Falling(g, NROOTS), Root(i)) == Pow(Q, Root(i), NROOTS)
  {
    hide Mul, Add, Pow, Eval, Root, Poly;
    var x := Root(i);
    FallingValue(Q, g, NROOTS, x);
    assert g == g[..NROOTS] + [g[NROOTS]];
    EvalAppend(Q, g[..NROOTS], g[NROOTS], x);
    MulOne(Q, Pow(Q, x, NROOTS));
    AddBasics(Eval(Q, g[..NROOTS], x), Pow(Q, x, NROOTS));
  }

  // ---- the encoder --------------------------------------------------------------------------------------------------

  /** One data symbol enters the parity register. */
  function Feed(parity: seq<E>, low: seq<E>, symbol: E): (r: seq<E>)
    requires |parity| == |low| == NROOTS
    ensures |r| == NROOTS
  {
    AddAll(parity[1..] + [Zero], ScaleBy(Q, Add(symbol, parity[0]), low))
  }

  /** A step multiplies the register's value by x and adds the symbol times x^32, at every root. */
  lemma FeedValue(parity: seq<E>, low: seq<E>, symbol: E, x: E)
    requires |parity| == |low| == NROOTS && Reverse(Q, low, x) == Pow(Q, x, NROOTS)
    ensures Reverse(Q, Feed(parity, low, symbol), x)
         == Add(Mul(Q, x, Reverse(Q, parity, x)), Mul(Q, symbol, Pow(Q, x, NROOTS)))
  {
    hide Mul, Add, Poly;
    var f := Add(symbol, parity[0]);
    var lead := Pow(Q, x, NROOTS);
    ReverseAdd(Q, parity[1..] + [Zero], ScaleBy(Q, f, low), x);
    ReverseAppend(Q, parity[1..], Zero, x);
    ReverseScale(Q, f, low, x);
    var tail := Mul(Q, x, Reverse(Q, parity[1..], x));
    AddBasics(tail, Zero);
    Triple(Q, x, parity[0], Pow(Q, x, NROOTS - 1));
    MulDistrib(Q, Mul(Q, parity[0], Pow(Q, x, NROOTS - 1)), Reverse(Q, parity[1..], x), x);
    var a, b := Mul(Q, symbol, lead), Mul(Q, parity[0], lead);
    MulDistrib(Q, symbol, parity[0], lead);
    assert Reverse(Q, Feed(parity, low, symbol), x) == Add(tail, Add(a, b));
    assert Mul(Q, x, Reverse(Q, parity, x)) == Add(b, tail);
    AddBasics(a, b);
    AddAssoc(tail, b, a);
    AddBasics(tail, b);
  }

  /** The register after some data symbols. */
  function Register(low: seq<E>, data: seq<E>): (r: seq<E>)
    requires |low| == NROOTS
    ensures |r| == NROOTS
  {
    if |data| == 0 then seq(NROOTS, _ => Zero)
    else Feed(Register(low, data[..|data| - 1]), low, data[|data| - 1])
  }

  lemma {:induction false} ReverseZeros(q: E, v: seq<E>, x: E)
    requires AllZero(v)
    ensures Reverse(q, v, x) == Zero
    decreases |v|
  {
    hide Mul, Add, Pow;
    if |v| > 0 {
      ReverseZeros(q, v[1..], x);
      MulOne(q, Pow(q, x, |v| - 1));
      AddBasics(Zero, Zero);
    }
  }

  lemma {:induction false} RegisterValue(low: seq<E>, data: seq<E>, x: E)
    requires |low| == NROOTS && Reverse(Q, low, x) == Pow(Q, x, NROOTS)
    ensures Reverse(Q, Register(low, data), x) == Mul(Q, Pow(Q, x, NROOTS), Reverse(Q, data, x))
    decreases |data|
  {
    hide Mul, Add, Pow, Reverse, Feed, Poly;
    var lead := Pow(Q, x, NROOTS);
    if |data| == 0 {
      assert data == [];
      NoSymbols(Q, x);
      ReverseZeros(Q, Register(low, data), x);
      MulOne(Q, lead);
    } else {
      var a, b := data[..|data| - 1], data[|data| - 1];
      assert data == a + [b];
      RegisterValue(low, a, x);
      FeedValue(Register(low, a), low, b, x);
      ReverseAppend(Q, a, b, x);
      Triple(Q, x, lead, Reverse(Q, a, x));
      MulDistrib(Q, Mul(Q, x, Reverse(Q, a, x)), b, lead);
      MulComm(Q, b, lead);
    }
  }

  /** Data followed by its parity is a codeword. */
  lemma SystematicIsCodeword(g: seq<E>, data: seq<E>)
    requires GeneratorOk(g) && |data| == K
    ensures RsCodeword(data + Register(Falling(g, NROOTS), data))
  {
    hide Mul, Add, Pow, Reverse, Register, Root, Poly, GeneratorOk;
    ShapeOfGenerator(g);
    var parity := Register(Falling(g, NROOTS), data);
    forall i | 0 <= i < NROOTS ensures Reverse(Q, data + parity, Root(i)) == Zero {
      var x := Root(i);
      LowAtRoot(g, i);
      RegisterValue(Falling(g, NROOTS), data, x);
      ReverseConcat(Q, data, parity, x);
      AddBasics(Reverse(Q, parity, x), Reverse(Q, parity, x));
    }
  }

  lemma ShapeOfGenerator(g: seq<E>)
    requires GeneratorOk(g)
    ensures |g| == NROOTS + 1
  {
  }

  /** One pass of the register loop: both branches of the feedback test. */
  method FeedSymbol(tables: Tables, g: seq<E>, parity: array<E>, symbol: E)
    requires TablesOk(Q, tables) && |g| == NROOTS + 1 && parity.Length == NROOTS
    modifies parity
    ensures parity[..] == Feed(old(parity[..]), Falling(g, NROOTS), symbol)
  {
    hide Mul, Add, ExpOk, LogOk, Primitive, Poly;
    ghost var p0: seq<E> := parity[..];
    ghost var low := Falling(g, NROOTS);
    ghost var goal := Feed(p0, low, symbol);
    var feedback := Add(symbol, parity[0]);
    if feedback != Zero {
      var j := 1;
      while j < NROOTS
        invariant 1 <= j <= NROOTS
        invariant forall k :: 0 <= k < j - 1 ==> parity[k] == goal[k]
        invariant forall k :: j - 1 <= k < NROOTS ==> parity[k] == p0[k]
      {
        assert goal[j - 1] == Add(p0[j], Mul(Q, feedback, low[j - 1]));
        assert low[j - 1] == g[NROOTS - j];
        parity[j - 1] := Add(parity[j], GfMul(Q, tables, feedback, g[NROOTS - j]));
        j := j + 1;
      }
      assert low[NROOTS - 1] == g[0];
      AddBasics(Mul(Q, feedback, g[0]), Zero);
      parity[NROOTS - 1] := GfMul(Q, tables, feedback, g[0]);
    } else {
      var j := 1;
      while j < NROOTS
        invariant 1 <= j <= NROOTS
        invariant forall k :: 0 <= k < j - 1 ==> parity[k] == p0[k + 1]
        invariant forall k :: j - 1 <= k < NROOTS ==> parity[k] == p0[k]
      {
        parity[j - 1] := parity[j];
        j := j + 1;
      }
      parity[NROOTS - 1] := Zero;
      forall k | 0 <= k < NROOTS ensures goal[k] == parity[k] {
        MulOne(Q, low[k]);
        AddBasics((p0[1..] + [Zero])[k], Zero);
      }
    }
    assert parity[..] == goal;
  }

  /** `encode_block`. */
  method EncodeBlock(tables: Tables, g: seq<E>, data: seq<E>) returns (block: seq<E>)
    requires TablesOk(Q, tables) && GeneratorOk(g) && |data| == K
    ensures RsCodeword(block) && block[..K] == data
  {
    hide TablesOk, Feed, Poly, GeneratorOk, RsCodeword;
    ShapeOfGenerator(g);
    var low := Falling(g, NROOTS);
    var parity := new E[NROOTS](_ => Zero);
    assert parity[..] == Register(low, data[..0]);
    var i := 0;
    while i < K
      invariant 0 <= i <= K && parity[..] == Register(low, data[..i])
    {
      FeedSymbol(tables, g, parity, data[i]);
      assert data[..i + 1][..i] == data[..i];
      i := i + 1;
    }
    assert data[..K] == data;
    block := data + parity[..];
    SystematicIsCodeword(g, data);
    assert |block| == N;
  }
}
