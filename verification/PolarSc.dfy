/** Successive cancellation decoding, with the LLRs as exact reals. A positive LLR means bit 0. */
module PolarSc {
  import opened Bits
  import opened PolarTransform
  import opened Reals

  type Llrs = seq<real>

  function Min(x: real, y: real): real {
    if x < y then x else y
  }

  /** sgn(a) sgn(b) min(|a|, |b|) */
  function FBit(a: real, b: real): real {
    var m := Min(Abs(a), Abs(b));
    if (a < 0.0) != (b < 0.0) then -m else m
  }

  /** b + (1 - 2u) a */
  function GBit(a: real, b: real, u: bool): real {
    if u then b - a else b + a
  }

  function F(a: Llrs, b: Llrs): (r: Llrs)
    requires |a| == |b|
    ensures |r| == |a|
  {
    seq(|a|, i requires 0 <= i < |a| => FBit(a[i], b[i]))
  }

  function G(a: Llrs, b: Llrs, s: Word): (r: Llrs)
    requires |a| == |b| == |s|
    ensures |r| == |a|
  {
    seq(|a|, i requires 0 <= i < |a| => GBit(a[i], b[i], s[i]))
  }

  /** A frozen leaf is 0; an information leaf follows the sign of its LLR, a zero LLR giving 0. */
  function Sc(llr: Llrs, frozen: Word): (u: Word)
    requires Pow2(|llr|) && |frozen| == |llr|
    ensures |u| == |llr|
    decreases |llr|
  {
    if |llr| == 1 then [!frozen[0] && llr[0] < 0.0]
    else
      var h := |llr| / 2;
      var u1 := Sc(F(llr[..h], llr[h..]), frozen[..h]);
      u1 + Sc(G(llr[..h], llr[h..], T(u1)), frozen[h..])
  }

  /** `u` is 0 wherever the mask freezes it. */
  predicate Respects(u: Word, frozen: Word) {
    |u| == |frozen| && forall i :: 0 <= i < |u| ==> frozen[i] ==> !u[i]
  }

  /** The signs of `llr` spell the word `x`, and no LLR is zero. */
  predicate Spells(llr: Llrs, x: Word) {
    |llr| == |x| && forall i :: 0 <= i < |x| ==> if x[i] then llr[i] < 0.0 else llr[i] > 0.0
  }

  lemma {:induction false} ScRespectsMask(llr: Llrs, frozen: Word)
    requires Pow2(|llr|) && |frozen| == |llr|
    ensures Respects(Sc(llr, frozen), frozen)
    decreases |llr|
  {
    if |llr| > 1 {
      var h := |llr| / 2;
      var u1 := Sc(F(llr[..h], llr[h..]), frozen[..h]);
      ScRespectsMask(F(llr[..h], llr[h..]), frozen[..h]);
      ScRespectsMask(G(llr[..h], llr[h..], T(u1)), frozen[h..]);
    }
  }

  /** The kernels pass sign words down the tree: f to the re-encoded left half, g to the right half. */
  lemma KernelsSpell(a: Llrs, b: Llrs, y: Word, x2: Word)
    requires |a| == |b| == |y| == |x2|
    requires Spells(a, Xor(y, x2)) && Spells(b, x2)
    ensures Spells(F(a, b), y) && Spells(G(a, b, y), x2)
  {
    forall i | 0 <= i < |y|
      ensures if y[i] then FBit(a[i], b[i]) < 0.0 else FBit(a[i], b[i]) > 0.0
      ensures if x2[i] then GBit(a[i], b[i], y[i]) < 0.0 else GBit(a[i], b[i], y[i]) > 0.0
    {
      assert Xor(y, x2)[i] == (y[i] != x2[i]);
    }
  }

  /** Whatever the magnitudes, LLRs that carry a codeword's signs decode to that codeword's message. */
  lemma {:induction false} ScNoiseless(llr: Llrs, u: Word, frozen: Word)
    requires Pow2(|u|) && Respects(u, frozen) && Spells(llr, T(u))
    ensures Sc(llr, frozen) == u
    decreases |u|
  {
    if |u| == 1 {
      assert T(u) == u;
    } else {
      var h := |u| / 2;
      var a, b, u1, u2, f1, f2 := llr[..h], llr[h..], u[..h], u[h..], frozen[..h], frozen[h..];
      HalvesSpell(llr, u, a, b, u1, u2);
      ScNoiseless(F(a, b), u1, f1);
      ScNoiseless(G(a, b, T(u1)), u2, f2);
      ScUnfold(llr, frozen, a, b, f1, f2);
    }
  }

  lemma HalvesSpell(llr: Llrs, u: Word, a: Llrs, b: Llrs, u1: Word, u2: Word)
    requires |a| == |b| == |u1| == |u2| && Pow2(|u1|) && llr == a + b && u == u1 + u2
    requires Pow2(|u|) && Spells(llr, T(u))
    ensures Spells(F(a, b), T(u1)) && Spells(G(a, b, T(u1)), T(u2))
  {
    CombineIsTransform(u1, u2);
    SpellsSplit(llr, Xor(T(u1), T(u2)), T(u2));
    KernelsSpell(a, b, T(u1), T(u2));
  }

  /** The recursion in terms of the two halves. */
  lemma ScUnfold(llr: Llrs, frozen: Word, a: Llrs, b: Llrs, f1: Word, f2: Word)
    requires Pow2(|a|) && |a| == |b| == |f1| == |f2| && llr == a + b && frozen == f1 + f2
    ensures Pow2(|llr|) && Sc(llr, frozen) == Sc(F(a, b), f1) + Sc(G(a, b, T(Sc(F(a, b), f1))), f2)
  {
    var h := |llr| / 2;
    assert h == |a| && llr[..h] == a && llr[h..] == b && frozen[..h] == f1 && frozen[h..] == f2;
  }

  lemma SpellsSplit(llr: Llrs, x1: Word, x2: Word)
    requires Spells(llr, x1 + x2)
    ensures Spells(llr[..|x1|], x1) && Spells(llr[|x1|..], x2)
  {
    assert forall i :: 0 <= i < |x2| ==> (x1 + x2)[|x1| + i] == x2[i];
  }

  // ---- the in-place recursion over shared scratch ------------------------------------------

  /** Outside the `m` cells at `k`, the sequence is as it was. */
  predicate SameOutside<X(==)>(now: seq<X>, was: seq<X>, k: nat, m: nat) {
    |now| == |was| && forall i :: 0 <= i < |now| && !(k <= i < k + m) ==> now[i] == was[i]
  }

  /** Two adjacent halves written one after the other. */
  lemma BothHalves<X>(t0: seq<X>, t1: seq<X>, t2: seq<X>, s: nat, h: nat, x: seq<X>, y: seq<X>)
    requires SameOutside(t1, t0, s, h) && SameOutside(t2, t1, s + h, h) && s + 2 * h <= |t2|
    requires t1[s..s + h] == x && t2[s + h..s + 2 * h] == y
    ensures t2[s..s + h] == x && t2[s..s + 2 * h] == x + y && SameOutside(t2, t0, s, 2 * h)
  {
    assert t2[s..s + h] == t1[s..s + h];
    assert t2[s..s + 2 * h] == t2[s..s + h] + t2[s + h..s + 2 * h];
  }

  /** Scratch a node of `length` leaves needs: one block of `n` for each level below it. */
  function Need(length: nat, n: nat): nat {
    if length <= 1 then 0 else n + Need(length / 2, n)
  }

  method FKernel(src: array<real>, off: nat, m: nat, dst: array<real>, d: nat, ghost a: Llrs, ghost b: Llrs)
    requires off + 2 * m <= src.Length && d + m <= dst.Length
    requires src != dst || off + 2 * m <= d
    requires a == src[off..off + m] && b == src[off + m..off + 2 * m]
    modifies dst
    ensures dst[d..d + m] == F(a, b)
    ensures forall k :: 0 <= k < dst.Length && !(d <= k < d + m) ==> dst[k] == old(dst[k])
  {
    for i := 0 to m
      invariant forall k :: d <= k < d + i ==> dst[k] == F(a, b)[k - d]
      invariant forall k :: 0 <= k < dst.Length && !(d <= k < d + i) ==> dst[k] == old(dst[k])
    {
      assert src[off + i] == a[i] && src[off + m + i] == b[i];
      dst[d + i] := FBit(src[off + i], src[off + m + i]);
    }
  }

  method GKernel(src: array<real>, off: nat, m: nat, beta: array<bool>, s: nat, dst: array<real>, d: nat,
                 ghost a: Llrs, ghost b: Llrs, ghost y: Word)
    requires off + 2 * m <= src.Length && d + m <= dst.Length && s + m <= beta.Length
    requires src != dst || off + 2 * m <= d
    requires a == src[off..off + m] && b == src[off + m..off + 2 * m] && y == beta[s..s + m]
    modifies dst
    ensures dst[d..d + m] == G(a, b, y)
    ensures forall k :: 0 <= k < dst.Length && !(d <= k < d + m) ==> dst[k] == old(dst[k])
  {
    for i := 0 to m
      invariant forall k :: d <= k < d + i ==> dst[k] == G(a, b, y)[k - d]
      invariant forall k :: 0 <= k < dst.Length && !(d <= k < d + i) ==> dst[k] == old(dst[k])
    {
      assert src[off + i] == a[i] && src[off + m + i] == b[i] && beta[s + i] == y[i];
      dst[d + i] := GBit(src[off + i], src[off + m + i], beta[s + i]);
    }
  }

  /** Fold the second half of the block at `s` into its first half. */
  method BetaCombine(beta: array<bool>, s: nat, m: nat, ghost x: Word, ghost y: Word)
    requires s + 2 * m <= beta.Length && x == beta[s..s + m] && y == beta[s + m..s + 2 * m]
    modifies beta
    ensures beta[s..s + 2 * m] == Xor(x, y) + y && SameOutside(beta[..], old(beta[..]), s, 2 * m)
  {
    for i := 0 to m
      invariant forall k :: s <= k < s + i ==> beta[k] == Xor(x, y)[k - s]
      invariant forall k :: 0 <= k < beta.Length && !(s <= k < s + i) ==> beta[k] == old(beta[k])
    {
      assert beta[s + i] == x[i] && beta[s + m + i] == y[i];
      beta[s + i] := beta[s + i] != beta[s + m + i];
    }
    assert beta[s..s + m] == Xor(x, y) && beta[s + m..s + 2 * m] == y;
    assert beta[s..s + 2 * m] == beta[s..s + m] + beta[s + m..s + 2 * m];
  }

  /** What the combine leaves behind is the node's decision and its re-encoding. */
  lemma NodeResult(v: Llrs, fz: Word, a: Llrs, b: Llrs, f1: Word, f2: Word)
    requires Pow2(|a|) && |a| == |b| == |f1| == |f2| && v == a + b && fz == f1 + f2
    ensures Pow2(|v|)
    ensures var u1 := Sc(F(a, b), f1); var u2 := Sc(G(a, b, T(u1)), f2);
            Sc(v, fz) == u1 + u2 && T(Sc(v, fz)) == Xor(T(u1), T(u2)) + T(u2)
  {
    var u1 := Sc(F(a, b), f1);
    ScUnfold(v, fz, a, b, f1, f2);
    CombineIsTransform(u1, Sc(G(a, b, T(u1)), f2));
  }

  lemma HalveNode(length: nat, n: nat)
    requires Pow2(length) && length != 1
    ensures Pow2(length / 2) && length == 2 * (length / 2) && Need(length, n) == n + Need(length / 2, n)
  {
  }

  /** One node of the decode tree. Its LLRs are `llr[off..off + length]`; its children's go into the
      block of `n` values that starts at `base`. */
  method ScDecodeRecursive(llr: array<real>, off: nat, decoded: array<bool>, beta: array<bool>, frozen: Word,
                           s: nat, length: nat, scratch: array<real>, base: nat, n: nat,
                           ghost v: Llrs, ghost fz: Word)
    requires Pow2(length) && s + length <= n == decoded.Length == beta.Length == |frozen|
    requires off + length <= llr.Length && base + Need(length, n) <= scratch.Length
    requires llr != scratch || off + length <= base
    requires decoded != beta
    requires v == llr[off..off + length] && fz == frozen[s..s + length]
    modifies decoded, beta, scratch
    ensures decoded[s..s + length] == Sc(v, fz) && SameOutside(decoded[..], old(decoded[..]), s, length)
    ensures beta[s..s + length] == T(Sc(v, fz)) && SameOutside(beta[..], old(beta[..]), s, length)
    ensures forall i :: 0 <= i < base && i < scratch.Length ==> scratch[i] == old(scratch[i])
    decreases length, 0
  {
    hide *;
    if length == 1 {
      ScDecodeLeaf(llr[off], decoded, beta, frozen, s, v, fz);
    } else {
      HalveNode(length, n);
      ScDecodeInner(llr, off, decoded, beta, frozen, s, length / 2, scratch, base, n, v, fz);
    }
  }

  method ScDecodeLeaf(l: real, decoded: array<bool>, beta: array<bool>, frozen: Word, s: nat, ghost v: Llrs,
                      ghost fz: Word)
    requires s < decoded.Length == beta.Length == |frozen| && decoded != beta
    requires v == [l] && fz == [frozen[s]]
    modifies decoded, beta
    ensures decoded[s..s + 1] == Sc(v, fz) && SameOutside(decoded[..], old(decoded[..]), s, 1)
    ensures beta[s..s + 1] == T(Sc(v, fz)) && SameOutside(beta[..], old(beta[..]), s, 1)
  {
    var bit := !frozen[s] && l < 0.0;
    decoded[s] := bit;
    beta[s] := bit; // G_1 is the identity
  }

  /** An inner node: the two branches, then the combine. */
  method ScDecodeInner(llr: array<real>, off: nat, decoded: array<bool>, beta: array<bool>, frozen: Word,
                       s: nat, half: nat, scratch: array<real>, base: nat, n: nat, ghost v: Llrs, ghost fz: Word)
    requires Pow2(half) && s + 2 * half <= n == decoded.Length == beta.Length == |frozen|
    requires off + 2 * half <= llr.Length && base + n + Need(half, n) <= scratch.Length
    requires llr != scratch || off + 2 * half <= base
    requires decoded != beta
    requires v == llr[off..off + 2 * half] && fz == frozen[s..s + 2 * half]
    modifies decoded, beta, scratch
    ensures Pow2(|v|) && |v| == |fz|
    ensures decoded[s..s + 2 * half] == Sc(v, fz) && SameOutside(decoded[..], old(decoded[..]), s, 2 * half)
    ensures beta[s..s + 2 * half] == T(Sc(v, fz)) && SameOutside(beta[..], old(beta[..]), s, 2 * half)
    ensures forall i :: 0 <= i < base && i < scratch.Length ==> scratch[i] == old(scratch[i])
    decreases half, 2
  {
    hide *;
    ghost var a, b, f1, f2 := v[..half], v[half..], fz[..half], fz[half..];
    ghost var u1 := Sc(F(a, b), f1);
    ghost var u2 := Sc(G(a, b, T(u1)), f2);
    ghost var dec0, beta0 := decoded[..], beta[..];
    LeftBranch(llr, off, decoded, beta, frozen, s, half, scratch, base, n, a, b, f1);
    ghost var dec1, beta1 := decoded[..], beta[..];
    RightBranch(llr, off, decoded, beta, frozen, s, half, scratch, base, n, a, b, T(u1), f2);
    BothHalves(dec0, dec1, decoded[..], s, half, u1, u2);
    BothHalves(beta0, beta1, beta[..], s, half, T(u1), T(u2));
    ghost var beta2 := beta[..];
    BetaCombine(beta, s, half, T(u1), T(u2));
    OutsideTwice(beta0, beta2, beta[..], s, 2 * half);
    NodeResult(v, fz, a, b, f1, f2);
  }

  /** f-branch: the left child's LLRs, then the left child. */
  method LeftBranch(llr: array<real>, off: nat, decoded: array<bool>, beta: array<bool>, frozen: Word,
                    s: nat, half: nat, scratch: array<real>, base: nat, n: nat,
                    ghost a: Llrs, ghost b: Llrs, ghost f1: Word)
    requires Pow2(half) && s + 2 * half <= n == decoded.Length == beta.Length == |frozen|
    requires off + 2 * half <= llr.Length && base + n + Need(half, n) <= scratch.Length
    requires llr != scratch || off + 2 * half <= base
    requires decoded != beta
    requires a == llr[off..off + half] && b == llr[off + half..off + 2 * half] && f1 == frozen[s..s + half]
    modifies decoded, beta, scratch
    ensures decoded[s..s + half] == Sc(F(a, b), f1) && SameOutside(decoded[..], old(decoded[..]), s, half)
    ensures beta[s..s + half] == T(Sc(F(a, b), f1)) && SameOutside(beta[..], old(beta[..]), s, half)
    ensures forall i :: 0 <= i < base ==> scratch[i] == old(scratch[i])
    ensures a == llr[off..off + half] && b == llr[off + half..off + 2 * half]
    decreases half, 1
  {
    hide *;
    FKernel(llr, off, half, scratch, base + s, a, b);
    ScDecodeRecursive(scratch, base + s, decoded, beta, frozen, s, half, scratch, base + n, n, F(a, b), f1);
  }

  /** g-branch: the right child's LLRs from the left half's partial sum `y`, then the right child. */
  method RightBranch(llr: array<real>, off: nat, decoded: array<bool>, beta: array<bool>, frozen: Word,
                     s: nat, half: nat, scratch: array<real>, base: nat, n: nat,
                     ghost a: Llrs, ghost b: Llrs, ghost y: Word, ghost f2: Word)
    requires Pow2(half) && s + 2 * half <= n == decoded.Length == beta.Length == |frozen|
    requires off + 2 * half <= llr.Length && base + n + Need(half, n) <= scratch.Length
    requires llr != scratch || off + 2 * half <= base
    requires decoded != beta
    requires a == llr[off..off + half] && b == llr[off + half..off + 2 * half]
    requires f2 == frozen[s + half..s + 2 * half] && y == beta[s..s + half]
    modifies decoded, beta, scratch
    ensures var u2 := Sc(G(a, b, y), f2);
            decoded[s + half..s + 2 * half] == u2 && beta[s + half..s + 2 * half] == T(u2)
    ensures SameOutside(decoded[..], old(decoded[..]), s + half, half)
    ensures SameOutside(beta[..], old(beta[..]), s + half, half)
    ensures forall i :: 0 <= i < base ==> scratch[i] == old(scratch[i])
    decreases half, 1
  {
    hide *;
    GKernel(llr, off, half, beta, s, scratch, base + s + half, a, b, y);
    ScDecodeRecursive(scratch, base + s + half, decoded, beta, frozen, s + half, half,
                      scratch, base + n, n, G(a, b, y), f2);
  }

  lemma OutsideTwice<X>(t0: seq<X>, t1: seq<X>, t2: seq<X>, s: nat, m: nat)
    requires SameOutside(t1, t0, s, m) && SameOutside(t2, t1, s, m)
    ensures SameOutside(t2, t0, s, m)
  {
  }
}
