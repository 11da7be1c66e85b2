/** The `exp`/`log` tables: how they are built and why looking products up in them is multiplication. */
module GfTables {
  import opened Gf256
  import opened GfOrbit

  /** `exp` is doubled so that a sum of two logarithms needs no reduction; `log` is indexed by the
      number of a byte. */
  datatype Tables = Tables(exp: seq<E>, log: seq<nat>)

  ghost predicate ExpOk(q: E, exp: seq<E>, n: nat)
    requires n <= |exp|
  {
    forall i :: 0 <= i < n ==> exp[i] == Exp(q, i)
  }

  ghost predicate LogOk(q: E, log: seq<nat>, n: nat)
    requires |log| == 256
  {
    forall i :: 0 <= i < n ==> Number(Exp(q, i)) < 256 && log[Number(Exp(q, i))] == i
  }

  ghost predicate TablesOk(q: E, t: Tables) {
    && Primitive(q)
    && |t.exp| == 512 && |t.log| == 256
    && ExpOk(q, t.exp, 512) && LogOk(q, t.log, 255)
  }

  lemma ExpStep(q: E, exp: seq<E>, exp': seq<E>, n: nat)
    requires n < |exp| == |exp'| && ExpOk(q, exp, n)
    requires exp' == exp[n := Exp(q, n)]
    ensures ExpOk(q, exp', n + 1)
  {
    hide Exp;
  }

  lemma LogStep(q: E, log: seq<nat>, n: nat)
    requires Primitive(q) && |log| == 256 && LogOk(q, log, n) && n < 255
    ensures Number(Exp(q, n)) < 256 && LogOk(q, log[Number(Exp(q, n)) := n], n + 1)
  {
    hide Exp, Number, Primitive;
    ByteNumber(Exp(q, n));
    forall i | 0 <= i < n ensures Number(Exp(q, i)) != Number(Exp(q, n)) {
      ExpInjective(q, i, n);
      if Number(Exp(q, i)) == Number(Exp(q, n)) { NumberInjective(Exp(q, i), Exp(q, n)); }
    }
  }

  method BuildTables(q: E) returns (t: Tables)
    requires Primitive(q)
    ensures TablesOk(q, t)
  {
    hide Exp, Number, X, Primitive;
    var exp: seq<E> := seq(512, _ => Zero);
    var log: seq<nat> := seq(256, _ => 0);
    var x: E := One;
    ExpZero(q);
    var i := 0;
    while i < 255
      invariant 0 <= i <= 255 && |exp| == 512 && |log| == 256
      invariant x == Exp(q, i) && ExpOk(q, exp, i) && LogOk(q, log, i)
    {
      ByteNumber(x);
      LogStep(q, log, i);
      ExpStep(q, exp, exp[i := x], i);
      exp := exp[i := x];
      log := log[Number(x) := i];
      ExpNext(q, i);
      x := X(q, x);
      i := i + 1;
    }
    while i < 512
      invariant 255 <= i <= 512 && |exp| == 512 && ExpOk(q, exp, i)
    {
      ExpWraps(q, i - 255);
      ExpStep(q, exp, exp[i := exp[i - 255]], i);
      exp := exp[i := exp[i - 255]];
      i := i + 1;
    }
    t := Tables(exp, log);
  }

  lemma ExpZero(q: E)
    ensures Exp(q, 0) == One
  {
  }

  lemma ExpNext(q: E, i: nat)
    ensures Exp(q, i + 1) == X(q, Exp(q, i))
  {
  }

  lemma LogLooksUp(q: E, t: Tables, a: E)
    requires TablesOk(q, t) && a != Zero
    ensures Number(a) < 256 && t.log[Number(a)] < 255 && Exp(q, t.log[Number(a)]) == a
  {
    hide Exp, Number, Primitive;
    var k := Log(q, a);
    assert t.log[Number(Exp(q, k))] == k;
  }

  lemma ProductLooksUp(q: E, t: Tables, a: E, b: E)
    requires TablesOk(q, t)
    ensures a == Zero || b == Zero ==> Mul(q, a, b) == Zero
    ensures a != Zero && b != Zero ==>
              (Number(a) < 256 && t.log[Number(a)] < 255 && Number(b) < 256 && t.log[Number(b)] < 255
               && t.exp[t.log[Number(a)] + t.log[Number(b)]] == Mul(q, a, b))
  {
    hide Exp, Number, Primitive, Mul;
    MulOne(q, a);
    MulOne(q, b);
    if a != Zero && b != Zero {
      LogLooksUp(q, t, a);
      LogLooksUp(q, t, b);
      ExpAdd(q, t.log[Number(a)], t.log[Number(b)]);
    }
  }

  lemma InverseLooksUp(q: E, t: Tables, a: E)
    requires TablesOk(q, t) && a != Zero
    ensures Number(a) < 256 && t.log[Number(a)] < 255
    ensures Mul(q, a, t.exp[255 - t.log[Number(a)]]) == One && t.exp[255 - t.log[Number(a)]] == Inv(q, a)
  {
    hide Exp, Number, Primitive, Mul;
    LogLooksUp(q, t, a);
    LogIs(q, a, t.log[Number(a)]);
    InvWorks(q, a);
  }

  lemma LogIs(q: E, a: E, k: nat)
    requires Primitive(q) && a != Zero && k < 255 && Exp(q, k) == a
    ensures Log(q, a) == k
  {
    hide Exp, Primitive;
    if Log(q, a) < k { ExpInjective(q, Log(q, a), k); }
    if k < Log(q, a) { ExpInjective(q, k, Log(q, a)); }
  }

  /** `gf_mul`: the product of two non-zero bytes is the power at the sum of their logarithms. */
  function GfMul(ghost q: E, t: Tables, a: E, b: E): (r: E)
    requires TablesOk(q, t)
    ensures r == Mul(q, a, b)
  {
    hide ExpOk, LogOk, Primitive, Mul, Number;
    ProductLooksUp(q, t, a, b);
    if a == Zero || b == Zero then Zero else t.exp[t.log[Number(a)] + t.log[Number(b)]]
  }

  /** `gf_inv`, which the source calls on non-zero bytes only. */
  function GfInv(ghost q: E, t: Tables, a: E): (r: E)
    requires TablesOk(q, t) && a != Zero
    ensures Mul(q, a, r) == One && r == Inv(q, a)
  {
    InverseLooksUp(q, t, a);
    t.exp[255 - t.log[Number(a)]]
  }
}
