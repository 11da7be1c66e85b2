/** Bit strings. The codecs keep one bit per byte, holding 0 or 1; here a bit is a `bool` and the
    byte operator `^` on two bits is disequality. */
module Bits {
  type Word = seq<bool>

  function Zeros(n: nat): (w: Word)
    ensures |w| == n && forall i :: 0 <= i < n ==> !w[i]
  {
    seq(n, _ => false)
  }

  /** Bitwise exclusive or of two equally long strings. */
  function Xor(a: Word, b: Word): (w: Word)
    requires |a| == |b|
    ensures |w| == |a| && forall i :: 0 <= i < |a| ==> w[i] == (a[i] != b[i])
  {
    seq(|a|, i requires 0 <= i < |a| => a[i] != b[i])
  }

  predicate IsZero(w: Word) {
    forall i :: 0 <= i < |w| ==> !w[i]
  }

  lemma XorAssoc(a: Word, b: Word, c: Word)
    requires |a| == |b| == |c|
    ensures Xor(Xor(a, b), c) == Xor(a, Xor(b, c))
  {
  }

  lemma XorMiddle(a: Word, b: Word, c: Word, d: Word)
    requires |a| == |b| == |c| == |d|
    ensures Xor(Xor(a, b), Xor(c, d)) == Xor(Xor(a, c), Xor(b, d))
  {
  }

  lemma XorCancel(a: Word, b: Word)
    requires |a| == |b|
    ensures Xor(Xor(a, b), b) == a && Xor(a, a) == Zeros(|a|) && Xor(a, Zeros(|a|)) == a
    ensures Xor(Xor(a, b), a) == b
    ensures Xor(Zeros(|a|), a) == a && Xor(a, b) == Xor(b, a)
  {
  }

  lemma XorSplit(a: Word, b: Word, k: nat)
    requires |a| == |b| && k <= |a|
    ensures Xor(a, b)[..k] == Xor(a[..k], b[..k]) && Xor(a, b)[k..] == Xor(a[k..], b[k..])
    ensures Xor(a, b) == Xor(a[..k], b[..k]) + Xor(a[k..], b[k..])
  {
  }
}
