/** The BCH(255) decoder: syndromes from the position-power table, Berlekamp-Massey, root search, and
    the bounded-distance theorem in both directions. */
module BchDecoder {
  import opened Bits
  import opened Gf256
  import opened GfOrbit
  import opened GfTables
  import opened GfPoly
  import opened BerlekampMassey
  import opened BchWord
  import opened BchTheory
  import opened BchSound

  const FIELD: E := Poly(true)

  datatype Outcome = Ok(value: nat) | BufferTooSmall(required: nat, provided: nat) | InvalidParam | DecoderNotConverged

  // ---- tables of the root and syndrome loops -------------------------------------------------------

  /** The weight of position i in syndrome 2r+1: alpha^((2r+1)(254-i)). */
  function Cell(r: nat, i: nat): E
    requires i < N
  {
    Pow(FIELD, Exp(FIELD, 2 * r + 1), N - 1 - i)
  }

  ghost predicate RowOk(row: seq<E>, r: nat) {
    |row| <= N && forall i :: 0 <= i < |row| ==> row[i] == Cell(r, i)
  }

  ghost predicate SynPowOk(synPow: seq<seq<E>>) {
    |synPow| == MAX_T && forall r :: 0 <= r < |synPow| ==> |synPow[r]| == N && RowOk(synPow[r], r)
  }

  lemma CellEntry(r: nat, i: nat)
    requires i < N && Primitive(FIELD)
    ensures Exp(FIELD, ((2 * r + 1) * (N - 1 - i)) % 255) == Cell(r, i)
  {
    hide Exp, Pow, Primitive;
    PowExp(FIELD, 2 * r + 1, N - 1 - i);
    ExpWraps(FIELD, (2 * r + 1) * (N - 1 - i));
  }

  method BuildSynPow(tables: Tables) returns (synPow: seq<seq<E>>)
    requires TablesOk(FIELD, tables)
    ensures SynPowOk(synPow)
  {
    hide Exp, Cell, Primitive;
    synPow := [];
    var r := 0;
    while r < MAX_T
      invariant 0 <= r <= MAX_T && |synPow| == r
      invariant forall r' :: 0 <= r' < r ==> |synPow[r']| == N && RowOk(synPow[r'], r')
    {
      var row: seq<E> := [];
      var i := 0;
      while i < N
        invariant 0 <= i <= N && |row| == i && RowOk(row, r)
      {
        var e := ((2 * r + 1) * (N - 1 - i)) % 255;
        CellEntry(r, i);
        row := row + [tables.exp[e]];
        i := i + 1;
      }
      synPow := synPow + [row];
      r := r + 1;
    }
  }

  // ---- syndromes ------------------------------------------------------------------------------------

  function Total(acc: seq<E>): E
    requires |acc| == 4
  {
    Add(Add(acc[0], acc[1]), Add(acc[2], acc[3]))
  }

  lemma TotalGrows(acc: seq<E>, lane: nat, e: E)
    requires |acc| == 4 && lane < 4
    ensures Total(acc[lane := Add(acc[lane], e)]) == Add(Total(acc), e)
  {
    hide Add;
    var a, b, c, d := acc[0], acc[1], acc[2], acc[3];
    AddAssoc(a, b, e);
    AddAssoc(a, e, b);
    AddBasics(b, e);
    AddAssoc(c, d, e);
    AddAssoc(c, e, d);
    AddBasics(d, e);
    AddAssoc(Add(a, b), Add(c, d), e);
    AddAssoc(Add(a, b), e, Add(c, d));
    AddBasics(e, Add(c, d));
  }

  /** What position i contributes, and what is left to add from position i on. */
  lemma Suffix(q: E, v: Word, x: E, i: nat)
    requires i < |v|
    ensures PolyAt(q, v[i..], x) == Add(If(v[i], Pow(q, x, |v| - 1 - i)), PolyAt(q, v[i + 1..], x))
  {
    hide *;
    assert v[i..][1..] == v[i + 1..];
    Unfold(q, v[i..], x);
  }

  lemma Unfold(q: E, v: Word, x: E)
    requires |v| > 0
    ensures PolyAt(q, v, x) == Add(If(v[0], Pow(q, x, |v| - 1)), PolyAt(q, v[1..], x))
  {
  }

  lemma Absorb(total: E, e: E, rest: E)
    ensures Add(total, Add(e, rest)) == Add(Add(total, e), rest)
  {
    hide Add;
    AddAssoc(total, e, rest);
  }

  /** What is still to come after the first i positions, given the sum so far. */
  ghost predicate SoFar(total: E, v: Word, r: nat, i: nat) {
    i <= |v| && Add(total, PolyAt(FIELD, v[i..], Exp(FIELD, 2 * r + 1))) == PolyAt(FIELD, v, Exp(FIELD, 2 * r + 1))
  }

  lemma TakePosition(total: E, v: Word, r: nat, i: nat)
    requires i < |v| == N && SoFar(total, v, r, i)
    ensures SoFar(Add(total, If(v[i], Cell(r, i))), v, r, i + 1)
  {
    hide Add, Pow, PolyAt, Exp, If;
    var x := Exp(FIELD, 2 * r + 1);
    Suffix(FIELD, v, x, i);
    Absorb(total, If(v[i], Cell(r, i)), PolyAt(FIELD, v[i + 1..], x));
  }

  lemma SumDone(total: E, v: Word, r: nat)
    requires SoFar(total, v, r, |v|)
    ensures total == PolyAt(FIELD, v, Exp(FIELD, 2 * r + 1))
  {
    hide Add, Pow, Exp;
    AddBasics(total, Zero);
  }

  lemma SumStarts(v: Word, r: nat)
    ensures SoFar(Total([Zero, Zero, Zero, Zero]), v, r, 0)
  {
    hide Add, PolyAt, Exp;
    AddBasics(Zero, Zero);
    AddBasics(PolyAt(FIELD, v, Exp(FIELD, 2 * r + 1)), Zero);
    assert v[0..] == v;
  }

  /** One odd syndrome: four accumulators over the table row, then the last three positions. */
  method OddSyndrome(synPow: seq<seq<E>>, r: nat, word: array<bool>) returns (val: E)
    requires SynPowOk(synPow) && r < MAX_T && word.Length == N
    ensures val == PolyAt(FIELD, word[..], Exp(FIELD, 2 * r + 1))
  {
    hide Add, PolyAt, Exp, Total, If, SoFar, Cell;
    var row := synPow[r];
    var acc: seq<E> := [Zero, Zero, Zero, Zero];
    SumStarts(word[..], r);
    var i := 0;
    while i + 4 <= N
      invariant 0 <= i <= N && i % 4 == 0 && |acc| == 4 && SoFar(Total(acc), word[..], r, i)
    {
      var lane := 0;
      while lane < 4
        invariant 0 <= lane <= 4 && |acc| == 4 && SoFar(Total(acc), word[..], r, i + lane)
      {
        var e := If(word[i + lane], row[i + lane]);
        TakePosition(Total(acc), word[..], r, i + lane);
        TotalGrows(acc, lane, e);
        acc := acc[lane := Add(acc[lane], e)];
        lane := lane + 1;
      }
      i := i + 4;
    }
    val := Total(acc);
    while i < N
      invariant 0 <= i <= N && SoFar(val, word[..], r, i)
    {
      TakePosition(val, word[..], r, i);
      val := Add(val, If(word[i], row[i]));
      i := i + 1;
    }
    SumDone(val, word[..], r);
  }

  /** The odd part of a positive number: which odd syndrome it is derived from. */
  function OddPart(i: nat): (j: nat)
    requires i > 0
    ensures j % 2 == 1 && 0 < j <= i
  {
    if i % 2 == 1 then i else OddPart(i / 2)
  }

  /** Doubling from j reaches the numbers with odd part j one by one. */
  lemma {:induction false} NextDouble(i: nat, idx: nat)
    requires 0 < idx < i <= 2 * idx && OddPart(i) == OddPart(idx)
    ensures i == 2 * idx
    decreases idx
  {
    if idx % 2 == 0 { NextDouble(i / 2, idx / 2); }
  }

  /** The syndromes computed so far: those with odd part below j, and those with odd part j up to idx. */
  predicate Ready(i: nat, j: nat, idx: nat)
    requires i > 0
  {
    OddPart(i) < j || (OddPart(i) == j && i <= idx)
  }

  /** Entry k of the syndrome buffer, syndrome number k + 1, at this stage. */
  ghost function Entry(v: Word, t: nat, j: nat, idx: nat, k: nat): E {
    if k < 2 * t && Ready(k + 1, j, idx) then PolyAt(FIELD, v, Exp(FIELD, k + 1)) else Zero
  }

  ghost predicate Filled(s: seq<E>, v: Word, t: nat, j: nat, idx: nat, anyNonzero: bool) {
    && |s| == 2 * MAX_T
    && (forall k :: 0 <= k < |s| ==> s[k] == Entry(v, t, j, idx, k))
    && (anyNonzero <==> !AllZero(s))
  }

  lemma NonzeroGrows(s: seq<E>, k: nat, val: E)
    requires k < |s| && s[k] == Zero
    ensures AllZero(s[k := val]) <==> AllZero(s) && val == Zero
  {
    var s' := s[k := val];
    assert s'[k] == val;
    if AllZero(s') {
      forall i | 0 <= i < |s| ensures s[i] == Zero { assert s'[i] == Zero; }
    }
  }

  lemma FillOne(s: seq<E>, v: Word, t: nat, j: nat, idx: nat, anyNonzero: bool, next: nat, val: E)
    requires Filled(s, v, t, j, idx, anyNonzero) && 1 <= next <= 2 * t <= 2 * MAX_T && !Ready(next, j, idx)
    requires OddPart(next) == j && (next == j || next == 2 * idx) && (next == 2 * idx ==> idx > 0 && OddPart(idx) == j)
    requires next == j ==> idx == 0
    requires val == PolyAt(FIELD, v, Exp(FIELD, next))
    ensures Filled(s[next - 1 := val], v, t, j, next, anyNonzero || val != Zero)
  {
    hide PolyAt, Exp, OddPart, AllZero, Entry, Ready;
    ReadyNext(next, j, idx, next);
    EntryIs(v, t, j, idx, next - 1);
    assert s[next - 1] == Entry(v, t, j, idx, next - 1);
    NonzeroGrows(s, next - 1, val);
    EntryIs(v, t, j, next, next - 1);
    forall k | 0 <= k < |s| ensures s[next - 1 := val][k] == Entry(v, t, j, next, k) {
      EntryIs(v, t, j, idx, k);
      EntryIs(v, t, j, next, k);
      ReadyNext(k + 1, j, idx, next);
    }
  }

  lemma EntryIs(v: Word, t: nat, j: nat, idx: nat, k: nat)
    ensures Entry(v, t, j, idx, k) ==
              if k < 2 * t && Ready(k + 1, j, idx) then PolyAt(FIELD, v, Exp(FIELD, k + 1)) else Zero
  {
  }

  lemma ReadyNext(i: nat, j: nat, idx: nat, next: nat)
    requires 0 < i && 0 < next && OddPart(next) == j && (next == j || next == 2 * idx)
    requires (next == 2 * idx ==> idx > 0 && OddPart(idx) == j) && (next == j ==> idx == 0)
    ensures Ready(i, j, next) <==> i == next || Ready(i, j, idx)
  {
    hide OddPart;
    if OddPart(i) == j && idx < i <= next && next == 2 * idx { NextDouble(i, idx); }
  }

  lemma SameFill(s: seq<E>, v: Word, t: nat, j: nat, idx: nat, anyNonzero: bool)
    requires Filled(s, v, t, j, idx, anyNonzero) && j % 2 == 1 && 2 * idx > 2 * t && idx > 0 && OddPart(idx) == j
    ensures Filled(s, v, t, j + 2, 0, anyNonzero)
  {
    hide PolyAt, Exp, OddPart, AllZero;
    forall k | 0 <= k < |s| ensures Entry(v, t, j, idx, k) == Entry(v, t, j + 2, 0, k) {
      if k < 2 * t && OddPart(k + 1) == j && k + 1 > idx { NextDouble(k + 1, idx); }
    }
  }

  lemma FillStart(v: Word, t: nat, s: seq<E>)
    requires s == seq(2 * MAX_T, _ => Zero)
    ensures Filled(s, v, t, 1, 0, false)
  {
    hide PolyAt, Exp;
  }

  lemma FillEnd(s: seq<E>, v: Word, t: nat, j: nat, anyNonzero: bool)
    requires Filled(s, v, t, j, 0, anyNonzero) && j > 2 * t && |v| == N && t <= MAX_T
    ensures SyndromesOf(FIELD, t, v, s) && (anyNonzero <==> !AllZero(s))
    ensures forall i :: 2 * t <= i < |s| ==> s[i] == Zero
  {
    hide PolyAt, Exp;
    forall i | 0 <= i < 2 * t ensures s[i] == PolyAt(FIELD, v, Exp(FIELD, i + 1)) {
      assert s[i] == Entry(v, t, j, 0, i);
    }
  }

  /** All 2t syndromes: the odd ones from the table, the even ones by repeated squaring. */
  method Syndromes(tables: Tables, synPow: seq<seq<E>>, t: nat, word: array<bool>) returns (s: seq<E>, anyNonzero: bool)
    requires TablesOk(FIELD, tables) && SynPowOk(synPow) && 1 <= t <= MAX_T && word.Length == N
    ensures |s| == 2 * MAX_T && SyndromesOf(FIELD, t, word[..], s)
    ensures anyNonzero <==> !AllZero(s)
    ensures forall i :: 2 * t <= i < |s| ==> s[i] == Zero
  {
    hide TablesOk, SynPowOk, PolyAt, Exp, Mul, Filled, Ready, AllZero, Entry;
    var twoT := 2 * t;
    s := seq(2 * MAX_T, _ => Zero);
    anyNonzero := false;
    FillStart(word[..], t, s);
    var r, j := 0, 1;
    while j <= twoT
      invariant j == 2 * r + 1 && |s| == 2 * MAX_T
      invariant Filled(s, word[..], t, j, 0, anyNonzero)
      decreases twoT + 2 - j
    {
      var val := OddSyndrome(synPow, r, word);
      OddItself(j);
      FillOne(s, word[..], t, j, 0, anyNonzero, j, val);
      s := s[j - 1 := val];
      anyNonzero := anyNonzero || val != Zero;
      var idx, v := j, val;
      while 2 * idx <= twoT
        invariant 0 < idx <= twoT && OddPart(idx) == j && v == PolyAt(FIELD, word[..], Exp(FIELD, idx))
        invariant |s| == 2 * MAX_T && Filled(s, word[..], t, j, idx, anyNonzero)
        decreases twoT - idx
      {
        SyndromeSquares(FIELD, word[..], idx);
        DoubleIsNext(idx, j);
        v := GfMul(FIELD, tables, v, v);
        FillOne(s, word[..], t, j, idx, anyNonzero, 2 * idx, v);
        idx := 2 * idx;
        s := s[idx - 1 := v];
        anyNonzero := anyNonzero || v != Zero;
      }
      SameFill(s, word[..], t, j, idx, anyNonzero);
      r, j := r + 1, j + 2;
    }
    FillEnd(s, word[..], t, j, anyNonzero);
  }

  lemma OddItself(j: nat)
    requires j % 2 == 1
    ensures OddPart(j) == j && !Ready(j, j, 0)
  {
  }

  lemma DoubleIsNext(idx: nat, j: nat)
    requires idx > 0 && OddPart(idx) == j
    ensures OddPart(2 * idx) == j && !Ready(2 * idx, j, idx)
  {
    assert (2 * idx) / 2 == idx && (2 * idx) % 2 == 0;
  }

  // ---- the root search -------------------------------------------------------------------------------

  /** The byte with a given number. */
  function FromNumber(n: nat, bits: nat): (w: Word)
    ensures |w| == bits
  {
    if bits == 0 then [] else [n % 2 == 1] + FromNumber(n / 2, bits - 1)
  }

  lemma {:induction false} FromNumberInverts(w: Word)
    ensures FromNumber(Number(w), |w|) == w
  {
    if |w| > 0 {
      FromNumberInverts(w[1..]);
      assert Number(w) / 2 == Number(w[1..]) && (Number(w) % 2 == 1) == w[0];
      assert w == [w[0]] + w[1..];
    }
  }

  /** Row u holds x alpha^u for every byte x. */
  ghost predicate MulRowOk(row: seq<E>, u: nat) {
    |row| <= 256 && forall n :: 0 <= n < |row| ==> row[n] == Mul(FIELD, FromNumber(n, 8), Exp(FIELD, u))
  }

  ghost predicate MulBetaOk(mulBeta: seq<seq<E>>) {
    |mulBeta| == N && forall u :: 0 <= u < |mulBeta| ==> |mulBeta[u]| == 256 && MulRowOk(mulBeta[u], u)
  }

  method BuildMulBeta(tables: Tables) returns (mulBeta: seq<seq<E>>)
    requires TablesOk(FIELD, tables)
    ensures MulBetaOk(mulBeta)
  {
    hide Exp, Mul, FromNumber, Primitive;
    mulBeta := [];
    var u := 0;
    while u < N
      invariant 0 <= u <= N && |mulBeta| == u
      invariant forall u' :: 0 <= u' < u ==> |mulBeta[u']| == 256 && MulRowOk(mulBeta[u'], u')
    {
      var beta := tables.exp[u];
      var row: seq<E> := [];
      var x := 0;
      while x < 256
        invariant 0 <= x <= 256 && |row| == x && MulRowOk(row, u)
      {
        row := row + [GfMul(FIELD, tables, FromNumber(x, 8), beta)];
        x := x + 1;
      }
      mulBeta := mulBeta + [row];
      u := u + 1;
    }
  }

  lemma MulBetaLooksUp(mulBeta: seq<seq<E>>, u: nat, a: E)
    requires MulBetaOk(mulBeta) && u < N
    ensures Number(a) < 256 && |mulBeta| == N && |mulBeta[u]| == 256
            && mulBeta[u][Number(a)] == Mul(FIELD, Exp(FIELD, u), a)
  {
    hide Exp, Mul, FromNumber, Number;
    ByteNumber(a);
    FromNumberInverts(a);
    MulComm(FIELD, a, Exp(FIELD, u));
  }

  /** Horner evaluation of the locator polynomial at alpha^u with the row for alpha^u. */
  method EvaluateAt(mulBeta: seq<seq<E>>, u: nat, c: Poly11, l: nat) returns (val: E)
    requires MulBetaOk(mulBeta) && u < N && l <= MAX_T
    ensures val == Eval(FIELD, c[..l + 1], Exp(FIELD, u))
  {
    hide Exp, Mul, Number, MulBetaOk, Add, Eval;
    val := c[l];
    ghost var d := c[..l + 1];
    LastCoefficient(FIELD, d, Exp(FIELD, u));
    var j := l;
    while j > 0
      invariant 0 <= j <= l && val == Eval(FIELD, d[j..], Exp(FIELD, u))
    {
      j := j - 1;
      MulBetaLooksUp(mulBeta, u, val);
      assert d[j..][1..] == d[j + 1..];
      EvalHead(FIELD, d[j..], Exp(FIELD, u));
      val := Add(mulBeta[u][Number(val)], c[j]);
      AddBasics(mulBeta[u][Number(Eval(FIELD, d[j + 1..], Exp(FIELD, u)))], c[j]);
    }
    assert d[0..] == d;
  }

  lemma EvalHead(q: E, c: seq<E>, x: E)
    requires |c| > 0
    ensures Eval(q, c, x) == Add(c[0], Mul(q, x, Eval(q, c[1..], x)))
  {
  }

  lemma LastCoefficient(q: E, c: seq<E>, x: E)
    requires |c| > 0
    ensures Eval(q, c[|c| - 1..], x) == c[|c| - 1]
  {
    hide Mul, Add;
    var d := c[|c| - 1..];
    assert d[1..] == [];
    MulOne(q, x);
    AddBasics(d[0], Zero);
  }

  lemma {:induction false} WeightSplit(a: Word, b: Word)
    ensures Weight(a + b) == Weight(a) + Weight(b)
  {
    if |a| == 0 {
      assert a + b == b;
    } else {
      assert (a + b)[1..] == a[1..] + b;
      WeightSplit(a[1..], b);
    }
  }

  lemma WeightSet(w: Word, i: nat)
    requires i < |w| && !w[i]
    ensures Weight(w[i := true]) == Weight(w) + 1
  {
    var a, b := w[..i], w[i + 1..];
    assert w == a + ([false] + b) && w[i := true] == a + ([true] + b);
    WeightSplit(a, [false] + b);
    WeightSplit(a, [true] + b);
    assert ([false] + b)[1..] == b && ([true] + b)[1..] == b;
  }

  /** The part of the mask whose root exponents are below u. */
  ghost function Tried(m: Word, u: nat): (r: Word)
    requires |m| == N
    ensures |r| == N && forall i :: 0 <= i < N ==> r[i] == (RootExponent(i) < u && m[i])
  {
    seq(N, i requires 0 <= i < N => RootExponent(i) < u && m[i])
  }

  lemma TryNext(m: Word, u: nat)
    requires |m| == N && u < N
    ensures RootExponent((u + 254) % 255) == u && !Tried(m, u)[(u + 254) % 255]
    ensures Tried(m, u + 1) == if m[(u + 254) % 255] then Tried(m, u)[(u + 254) % 255 := true] else Tried(m, u)
  {
    var idx := (u + 254) % 255;
    forall i | 0 <= i < N && i != idx ensures Tried(m, u + 1)[i] == Tried(m, u)[i] {}
  }

  lemma TryAll(m: Word)
    requires |m| == N
    ensures Tried(m, N) == m && Weight(Tried(m, 0)) == 0
  {
    var z := Tried(m, 0);
    assert forall i :: 0 <= i < N ==> !z[i];
    NoWeight(z);
  }

  lemma {:induction false} NoWeight(w: Word)
    requires IsZero(w)
    ensures Weight(w) == 0
  {
    if |w| > 0 { NoWeight(w[1..]); }
  }

  lemma FlipOne(v: Word, m: Word, m': Word, i: nat)
    requires |v| == |m| && i < |m| && !m[i] && m' == m[i := true]
    ensures Xor(v, m') == Xor(v, m)[i := !Xor(v, m)[i]]
  {
  }

  /** Chien search: try alpha^0 .. alpha^254, flip the position each root names, count the flips. */
  method ChienSearch(mulBeta: seq<seq<E>>, c: Poly11, l: nat, word: array<bool>) returns (corrected: nat)
    requires MulBetaOk(mulBeta) && l <= MAX_T && word.Length == N
    modifies word
    ensures word[..] == Xor(old(word[..]), RootMask(FIELD, c, l))
    ensures corrected == Weight(RootMask(FIELD, c, l))
  {
    hide Exp, MulBetaOk, Eval, Xor, Tried, Weight;
    ghost var v: Word := word[..];
    ghost var m := RootMask(FIELD, c, l);
    corrected := 0;
    TryAll(m);
    NothingFlipped(v, Tried(m, 0));
    var u := 0;
    while u < N
      invariant 0 <= u <= N
      invariant word[..] == Xor(v, Tried(m, u))
      invariant corrected == Weight(Tried(m, u))
    {
      var val := EvaluateAt(mulBeta, u, c, l);
      TryNext(m, u);
      if val == Zero {
        var idx := (u + 254) % 255;
        FlipOne(v, Tried(m, u), Tried(m, u + 1), idx);
        WeightSet(Tried(m, u), idx);
        word[idx] := !word[idx];
        corrected := corrected + 1;
      }
      u := u + 1;
    }
  }

  lemma NothingFlipped(v: Word, z: Word)
    requires |v| == |z| && Weight(z) == 0
    ensures Xor(v, z) == v
  {
    ZeroWeight(z);
  }

  // ---- the decoder -----------------------------------------------------------------------------------

  /** The immutable tables a code object carries. */
  datatype DecoderTables = DecoderTables(t: nat, gf: Tables, synPow: seq<seq<E>>, mulBeta: seq<seq<E>>)

  ghost predicate Valid(d: DecoderTables) {
    1 <= d.t <= MAX_T && TablesOk(FIELD, d.gf) && SynPowOk(d.synPow) && MulBetaOk(d.mulBeta)
  }

  /** r is at distance w from the codeword v. */
  ghost predicate Near(t: nat, r: Word, v: Word, w: nat) {
    IsCodeword(FIELD, t, v) && |r| == N && Weight(Xor(r, v)) == w
  }

  lemma FirstIsZero(s: seq<E>)
    ensures |s| > 0 && AllZero(s) ==> s[0] == Zero
  {
  }

  lemma OnesNotZero(n: nat)
    requires AllZero(Ones(n))
    ensures n == 0
  {
    hide AllZero;
    OneIsOdd();
    FirstIsZero(Ones(n));
  }

  lemma AllZeroMeans(t: nat, v: Word, s: seq<E>, v': Word, w: nat)
    requires Primitive(FIELD) && SyndromesOf(FIELD, t, v, s) && AllZero(s) && Near(t, v, v', w) && w <= t
    ensures v' == v && w == 0
  {
    hide Exp, PolyAt, Primitive, PowerSum, Locators;
    var e := Xor(v, v');
    XorCancel(v, v');
    XorCancel(v', v);
    assert Xor(v', e) == v;
    SyndromesOfError(FIELD, t, v', e, s);
    ErrorIsLocated(FIELD, t, e, s);
    var x := Locators(FIELD, e);
    LocatedDistinct(FIELD, s, x, t);
    forall i | 1 <= i < 1 + |x| ensures PowerSum(FIELD, Ones(|x|), x, i) == Zero { assert s[i - 1] == Zero; }
    Independent(FIELD, Ones(|x|), x, 1);
    OnesNotZero(|x|);
    ZeroWeight(e);
    XorCancel(v', e);
    assert Xor(v', e) == v;
  }

  lemma CleanIsCodeword(t: nat, v: Word, s: seq<E>)
    requires SyndromesOf(FIELD, t, v, s) && AllZero(s)
    ensures IsCodeword(FIELD, t, v)
  {
    hide Exp, PolyAt;
    forall j | 1 <= j <= 2 * t ensures PolyAt(FIELD, v, Exp(FIELD, j)) == Zero {
      assert s[j - 1] == Zero;
    }
  }

  /** The locator found for v flips exactly the difference to v', which has weight w. */
  ghost predicate Pinpoints(r: Locator, v: Word, v': Word, w: nat) {
    && r.Found? && r.l == w <= MAX_T
    && |v| == |v'| == N
    && Weight(RootMask(FIELD, r.c, r.l)) == w && Xor(v, RootMask(FIELD, r.c, r.l)) == v'
  }

  /** What `BerlekampMassey.FindLocator` promises. */
  ghost predicate Answers(t: nat, s: seq<E>, r: Locator) {
    && (r.NotConverged? ==> forall x :: Located(FIELD, s, x, t) ==> |x| == 0)
    && (r.Found? ==> r.l <= t && r.c[0] == One && Degree(r.c, r.l) && Generates(FIELD, r.c, r.l, s, 2 * t))
    && (r.Found? ==> forall x :: Located(FIELD, s, x, t) ==> r.l <= |x|)
  }

  /** Berlekamp-Massey's answer on a word near a codeword. */
  lemma NearIsFound(t: nat, v: Word, s: seq<E>, v': Word, w: nat, r: Locator)
    requires Primitive(FIELD) && SyndromesOf(FIELD, t, v, s) && !AllZero(s) && Near(t, v, v', w) && w <= t <= MAX_T
    requires forall i :: 2 * t <= i < |s| ==> s[i] == Zero
    requires Answers(t, s, r)
    ensures Pinpoints(r, v, v', w)
  {
    hide Exp, PolyAt, Primitive, Located, Locators, RootMask, Generates, Degree;
    var e := Xor(v, v');
    XorCancel(v, v');
    XorCancel(v', v);
    assert Xor(v', e) == v;
    SyndromesOfError(FIELD, t, v', e, s);
    ErrorIsLocated(FIELD, t, e, s);
    var x := Locators(FIELD, e);
    if |x| == 0 { NoLocators(t, s, x); }
    if r.Found? {
      MaskIsError(FIELD, t, e, s, r.c, r.l);
      XorCancel(v', v);
      assert Xor(v, e) == v';
    }
  }

  lemma NoLocators(t: nat, s: seq<E>, x: seq<E>)
    requires Located(FIELD, s, x, t) && |x| == 0 && forall i :: 2 * t <= i < |s| ==> s[i] == Zero
    ensures AllZero(s)
  {
    hide PowerSum;
    forall i | 0 <= i < 2 * t ensures s[i] == Zero {
      EmptySum(FIELD, i + 1);
      assert x == [] && Ones(0) == Ones(|x|);
    }
  }

  lemma Accepted(t: nat, v: Word, s: seq<E>, c: Poly11, l: nat)
    requires Primitive(FIELD) && SyndromesOf(FIELD, t, v, s) && l <= t <= MAX_T
    requires Answers(t, s, Found(c, l))
    requires Weight(RootMask(FIELD, c, l)) == l
    ensures Near(t, v, Xor(v, RootMask(FIELD, c, l)), l)
  {
    hide PolyAt, Exp, Located, Generates, Degree, RootMask, Weight, SyndromesOf, IsCodeword;
    var m := RootMask(FIELD, c, l);
    MaskExplains(FIELD, t, v, s, c, l);
    Lengths(t, v, s);
    SameSyndromesCancel(FIELD, t, v, m, s);
    XorCancel(v, m);
    XorCancel(m, v);
    assert Xor(v, Xor(v, m)) == m;
  }

  lemma Lengths(t: nat, v: Word, s: seq<E>)
    requires SyndromesOf(FIELD, t, v, s)
    ensures |v| == N
  {
  }

  lemma ItselfNear(t: nat, v: Word)
    requires IsCodeword(FIELD, t, v)
    ensures Near(t, v, v, 0)
  {
    hide PolyAt;
    NoWeight(Xor(v, v));
  }

  /** The decoder's contract: it accepts exactly the words within distance t of a codeword, and then
      leaves that codeword and returns the distance. Otherwise the buffer may hold partial flips. */
  ghost predicate Decodes(t: nat, v: Word, v': Word, r: Outcome) {
    && (forall c, w: nat :: Near(t, v, c, w) && w <= t ==> r == Ok(w) && v' == c)
    && (r.Ok? ==> r.value <= t && Near(t, v, v', r.value))
    && (r.Ok? || r.DecoderNotConverged?)
  }

  lemma DecodesClean(t: nat, v: Word, s: seq<E>)
    requires Primitive(FIELD) && SyndromesOf(FIELD, t, v, s) && AllZero(s)
    ensures Decodes(t, v, v, Ok(0))
  {
    hide AllZero, SyndromesOf, Near, Primitive;
    CleanIsCodeword(t, v, s);
    ItselfNear(t, v);
    forall c, w: nat | Near(t, v, c, w) && w <= t ensures c == v && w == 0 { AllZeroMeans(t, v, s, c, w); }
  }

  lemma DecodesNot(t: nat, v: Word, s: seq<E>, r: Locator, v': Word)
    requires Primitive(FIELD) && SyndromesOf(FIELD, t, v, s) && !AllZero(s) && t <= MAX_T && |v| == N
    requires forall i :: 2 * t <= i < |s| ==> s[i] == Zero
    requires Answers(t, s, r)
    requires r.Found? ==> Weight(RootMask(FIELD, r.c, r.l)) != r.l
    ensures Decodes(t, v, v', DecoderNotConverged)
  {
    hide AllZero, SyndromesOf, Near, Primitive, RootMask, Weight, Answers;
    forall c, w: nat | Near(t, v, c, w) && w <= t ensures false { NearIsFound(t, v, s, c, w, r); }
  }

  lemma DecodesFlipped(t: nat, v: Word, s: seq<E>, r: Locator)
    requires Primitive(FIELD) && SyndromesOf(FIELD, t, v, s) && !AllZero(s) && t <= MAX_T && |v| == N
    requires forall i :: 2 * t <= i < |s| ==> s[i] == Zero
    requires Answers(t, s, r) && r.Found? && r.l <= t && Weight(RootMask(FIELD, r.c, r.l)) == r.l
    ensures Decodes(t, v, Xor(v, RootMask(FIELD, r.c, r.l)), Ok(r.l))
  {
    hide AllZero, SyndromesOf, Near, Primitive, RootMask, Weight, Answers, Xor;
    forall c, w: nat | Near(t, v, c, w) && w <= t ensures w == r.l && c == Xor(v, RootMask(FIELD, r.c, r.l)) {
      NearIsFound(t, v, s, c, w, r);
    }
    Accepted(t, v, s, r.c, r.l);
  }

  method DecodeFull(d: DecoderTables, word: array<bool>) returns (r: Outcome)
    requires Valid(d)
    modifies word
    ensures word.Length != N ==> r == BufferTooSmall(N, word.Length) && word[..] == old(word[..])
    ensures word.Length == N ==> Decodes(d.t, old(word[..]), word[..], r)
  {
    hide TablesOk, SynPowOk, MulBetaOk, Located, Generates, Degree, RootMask, Weight, Xor, AllZero,
         SyndromesOf, Discrepancy, Generator, Decodes;
    if word.Length != N {
      return BufferTooSmall(N, word.Length);
    }
    ghost var v: Word := word[..];
    PrimitiveTables(FIELD, d.gf);
    var s, anyNonzero := Syndromes(d.gf, d.synPow, d.t, word);
    if !anyNonzero {
      DecodesClean(d.t, v, s);
      return Ok(0);
    }
    var found := FindLocator(FIELD, d.gf, s, d.t);
    assert Answers(d.t, s, found);
    if found.NotConverged? {
      DecodesNot(d.t, v, s, found, v);
      return DecoderNotConverged;
    }
    var corrected := ChienSearch(d.mulBeta, found.c, found.l, word);
    if corrected != found.l {
      DecodesNot(d.t, v, s, found, word[..]);
      return DecoderNotConverged;
    }
    DecodesFlipped(d.t, v, s, found);
    return Ok(corrected);
  }
}
