/** The division register behind the CRC codes and the systematic BCH encoder, bit by bit and through
    a table that takes several bits at once. A register of L bits is a word, highest power first; the
    polynomial x^L + p is given by the L bits p. */
module Lfsr {
  import opened Bits

  /** Shift up, and add the polynomial when the bit that leaves differs from the one that enters. */
  function Step(p: Word, reg: Word, bit: bool): (r: Word)
    requires |reg| == |p| > 0
    ensures |r| == |p|
  {
    var shifted := reg[1..] + [false];
    if reg[0] != bit then Xor(shifted, p) else shifted
  }

  function Run(p: Word, reg: Word, bits: Word): (r: Word)
    requires |reg| == |p| > 0
    ensures |r| == |p|
    decreases |bits|
  {
    if |bits| == 0 then reg else Run(p, Step(p, reg, bits[0]), bits[1..])
  }

  lemma {:induction false} RunAppend(p: Word, reg: Word, a: Word, b: Word)
    requires |reg| == |p| > 0
    ensures Run(p, reg, a + b) == Run(p, Run(p, reg, a), b)
    decreases |a|
  {
    hide Step;
    if |a| == 0 {
      assert a + b == b;
    } else {
      assert (a + b)[1..] == a[1..] + b;
      RunAppend(p, Step(p, reg, a[0]), a[1..], b);
    }
  }

  lemma RunOne(p: Word, reg: Word, bit: bool)
    requires |reg| == |p| > 0
    ensures Run(p, reg, [bit]) == Step(p, reg, bit)
  {
    hide Step;
    assert [bit][1..] == [];
  }

  lemma StepLinear(p: Word, r: Word, s: Word, b: bool, c: bool)
    requires |r| == |s| == |p| > 0
    ensures Step(p, Xor(r, s), b != c) == Xor(Step(p, r, b), Step(p, s, c))
  {
    var l, m := Step(p, Xor(r, s), b != c), Xor(Step(p, r, b), Step(p, s, c));
    assert |l| == |m| == |p|;
    forall i | 0 <= i < |p| ensures l[i] == m[i] {}
  }

  /** The register is linear in its start value and its input together. */
  lemma {:induction false} RunLinear(p: Word, r: Word, s: Word, a: Word, b: Word)
    requires |r| == |s| == |p| > 0 && |a| == |b|
    ensures Run(p, Xor(r, s), Xor(a, b)) == Xor(Run(p, r, a), Run(p, s, b))
    decreases |a|
  {
    hide Step;
    if |a| > 0 {
      StepLinear(p, r, s, a[0], b[0]);
      assert Xor(a, b)[1..] == Xor(a[1..], b[1..]);
      RunLinear(p, Step(p, r, a[0]), Step(p, s, b[0]), a[1..], b[1..]);
    }
  }

  /** Feeding the register its own leading bits shifts them out. */
  lemma {:induction false} ShiftOut(p: Word, reg: Word, k: nat)
    requires |reg| == |p| && k <= |p| && |p| > 0
    ensures Run(p, reg, reg[..k]) == reg[k..] + Zeros(k)
    decreases k
  {
    hide Step;
    if k == 0 {
      assert reg[..0] == [] && reg[0..] + Zeros(0) == reg;
    } else {
      ShiftOut(p, reg, k - 1);
      var r := reg[k - 1..] + Zeros(k - 1);
      RunAppend(p, reg, reg[..k - 1], [reg[k - 1]]);
      assert reg[..k] == reg[..k - 1] + [reg[k - 1]];
      RunOne(p, r, reg[k - 1]);
      QuietStep(p, r);
      assert r[1..] + [false] == reg[k..] + Zeros(k);
    }
  }

  lemma QuietStep(p: Word, r: Word)
    requires |r| == |p| > 0
    ensures Step(p, r, r[0]) == r[1..] + [false]
  {
  }

  lemma {:induction false} ZeroRun(p: Word, n: nat)
    requires |p| > 0
    ensures Run(p, Zeros(|p|), Zeros(n)) == Zeros(|p|)
    decreases n
  {
    if n > 0 {
      var z := Zeros(|p|);
      QuietStep(p, z);
      assert z[1..] + [false] == z && Zeros(n)[1..] == Zeros(n - 1);
      ZeroRun(p, n - 1);
    }
  }

  /** Taking |chunk| bits at once: shift, and add the effect of the top bits plus the chunk on an
      empty register. */
  lemma ChunkStep(p: Word, reg: Word, chunk: Word)
    requires |reg| == |p| > 0 && |chunk| <= |p|
    ensures Run(p, reg, chunk)
         == Xor(reg[|chunk|..] + Zeros(|chunk|), Run(p, Zeros(|p|), Xor(reg[..|chunk|], chunk)))
  {
    hide *;
    var w := |chunk|;
    var head := reg[..w];
    var top := Xor(head, chunk);
    ShiftOut(p, reg, w);
    RunLinear(p, reg, Zeros(|p|), head, top);
    XorCancel(reg, reg);
    XorCancel(chunk, head);
    XorCancel(head, chunk);
    XorCancel(head, top);
    assert Xor(head, top) == chunk;
  }

  // ---- the zero word is the only one a good register forgets ---------------------------------------

  /** With constant term 1 a step loses nothing. */
  lemma StepInjective(p: Word, r: Word, bit: bool)
    requires |r| == |p| > 0 && p[|p| - 1] && Step(p, r, false) == Zeros(|p|)
    ensures r == Zeros(|p|)
  {
    var s, z := Step(p, r, false), Zeros(|p|);
    assert s[|p| - 1] == r[0];
    assert !r[0];
    forall i | 1 <= i < |p| ensures !r[i] { assert s[i - 1] == r[i]; }
  }

  lemma {:induction false} ZeroInputInjective(p: Word, r: Word, n: nat)
    requires |r| == |p| > 0 && p[|p| - 1] && Run(p, r, Zeros(n)) == Zeros(|p|)
    ensures r == Zeros(|p|)
    decreases n
  {
    hide Step;
    if n > 0 {
      assert Zeros(n)[1..] == Zeros(n - 1);
      ZeroInputInjective(p, Step(p, r, false), n - 1);
      StepInjective(p, r, false);
    }
  }

  /** No non-zero word of at most L bits leaves an empty register empty. */
  lemma ShortWordShows(p: Word, e: Word)
    requires |p| > 0 && p[|p| - 1] && |e| <= |p| && Run(p, Zeros(|p|), e) == Zeros(|p|)
    ensures IsZero(e)
  {
    hide Run;
    var k := |p| - |e|;
    var f := e + Zeros(k);
    RunAppend(p, Zeros(|p|), e, Zeros(k));
    ZeroRun(p, k);
    RunLinear(p, f, f, f, Zeros(|p|));
    ShiftOut(p, f, |p|);
    assert f[..|p|] == f;
    assert f[|p|..] + Zeros(|p|) == Zeros(|p|);
    XorCancel(f, f);
    var g := Run(p, f, Zeros(|p|));
    XorCancel(Zeros(|p|), g);
    XorCancel(g, Zeros(|p|));
    ZeroInputInjective(p, f, |p|);
    forall i | 0 <= i < |e| ensures !e[i] { assert f[i] == e[i]; }
  }

  // ---- tables ----------------------------------------------------------------------------------------

  /** The number a word spells, highest bit first. */
  function Value(w: Word): nat {
    if |w| == 0 then 0 else 2 * Value(w[..|w| - 1]) + (if w[|w| - 1] then 1 else 0)
  }

  /** The w lowest bits of n, highest first: bit k is (n >> (w-1-k)) & 1. */
  function BitsOf(n: nat, w: nat): (b: Word)
    ensures |b| == w
  {
    if w == 0 then [] else BitsOf(n / 2, w - 1) + [n % 2 == 1]
  }

  function Size(w: nat): nat {
    if w == 0 then 1 else 2 * Size(w - 1)
  }

  lemma {:induction false} ValueSpells(w: Word)
    ensures Value(w) < Size(|w|) && BitsOf(Value(w), |w|) == w
  {
    if |w| > 0 {
      var v := w[..|w| - 1];
      ValueSpells(v);
      assert Value(w) / 2 == Value(v);
      assert w == v + [w[|w| - 1]];
    }
  }

  /** Entry n is what the bits of n do to an empty register. */
  ghost predicate TableOk(p: Word, table: seq<Word>, w: nat)
    requires |p| > 0
  {
    && |table| == Size(w)
    && forall n :: 0 <= n < |table| ==> table[n] == Run(p, Zeros(|p|), BitsOf(n, w))
  }

  /** Bit `shift` of i. */
  function BitAt(i: nat, shift: nat): bool {
    if shift == 0 then i % 2 == 1 else BitAt(i / 2, shift - 1)
  }

  lemma {:induction false} BitsAt(i: nat, w: nat, k: nat)
    requires k < w
    ensures BitsOf(i, w)[k] == BitAt(i, w - 1 - k)
    decreases w
  {
    if k < w - 1 { BitsAt(i / 2, w - 1, k); }
  }

  /** The table loop: every index's bits, highest first, through the bit-serial step. */
  method BuildTable(p: Word, w: nat) returns (table: seq<Word>)
    requires |p| > 0
    ensures TableOk(p, table, w)
  {
    hide Run, Step, BitsOf;
    table := [];
    var i := 0;
    while i < Size(w)
      invariant 0 <= i <= Size(w) && |table| == i
      invariant forall n :: 0 <= n < i ==> table[n] == Run(p, Zeros(|p|), BitsOf(n, w))
    {
      var reg := Zeros(|p|);
      RunNothing(p, reg);
      var shift := w;
      while shift > 0
        invariant 0 <= shift <= w && |reg| == |p|
        invariant reg == Run(p, Zeros(|p|), BitsOf(i, w)[..w - shift])
      {
        shift := shift - 1;
        BitsAt(i, w, w - 1 - shift);
        RunNext(p, Zeros(|p|), BitsOf(i, w), w - 1 - shift);
        reg := Step(p, reg, BitAt(i, shift));
      }
      assert BitsOf(i, w)[..w] == BitsOf(i, w);
      table := table + [reg];
      i := i + 1;
    }
  }

  lemma RunNothing(p: Word, reg: Word)
    requires |reg| == |p| > 0
    ensures Run(p, reg, []) == reg
  {
  }

  lemma RunNext(p: Word, reg: Word, bits: Word, i: nat)
    requires |reg| == |p| > 0 && i < |bits|
    ensures Run(p, reg, bits[..i + 1]) == Step(p, Run(p, reg, bits[..i]), bits[i])
  {
    hide Run, Step;
    assert bits[..i + 1] == bits[..i] + [bits[i]];
    RunAppend(p, reg, bits[..i], [bits[i]]);
    RunOne(p, Run(p, reg, bits[..i]), bits[i]);
  }

  /** One table step: pack w bits, add the register's top w bits, shift, look up. */
  method TableStep(p: Word, table: seq<Word>, w: nat, reg: Word, bits: Word, i: nat) returns (r: Word)
    requires |reg| == |p| && 0 < w <= |p| && TableOk(p, table, w) && i + w <= |bits|
    ensures |r| == |p| && r == Run(p, reg, bits[i..i + w])
  {
    hide Run, Step, BitsOf;
    var packed: Word := [];
    var k := 0;
    while k < w
      invariant 0 <= k <= w && packed == bits[i..i + k]
    {
      packed := packed + [bits[i + k]];
      k := k + 1;
    }
    var top := Xor(reg[..w], packed);
    ValueSpells(top);
    ChunkStep(p, reg, packed);
    r := Xor(reg[w..] + Zeros(w), table[Value(top)]);
  }
}
