/** The check-node update of the fixed-point decoder on one check's messages: two running minima and a
    sign, against the exact minimum and sign over the other messages. */
module LdpcMinSum {

  const MSG_MAX: int := 127

  function Abs(x: int): (a: int)
    ensures a >= 0 && (a == 0 <==> x == 0)
  {
    if x < 0 then -x else x
  }

  function Min(a: int, b: int): int {
    if a <= b then a else b
  }

  function Max(a: int, b: int): int {
    if a >= b then a else b
  }

  function Clamp(x: int, m: int): int {
    if x < -m then -m else if x > m then m else x
  }

  // ---- the running minima and sign ------------------------------------------------------------------------

  function Min1(q: seq<int>, n: nat): int
    requires n <= |q|
  {
    if n == 0 then MSG_MAX else Min(Min1(q, n - 1), Abs(q[n - 1]))
  }

  function Min2(q: seq<int>, n: nat): int
    requires n <= |q|
  {
    if n == 0 then MSG_MAX else Min(Min2(q, n - 1), Max(Min1(q, n - 1), Abs(q[n - 1])))
  }

  function SignXor(q: seq<int>, n: nat): bool
    requires n <= |q|
  {
    if n == 0 then false else SignXor(q, n - 1) != (q[n - 1] < 0)
  }

  /** The minima after the fix-up for layers of fewer than two edges. */
  function Smallest(q: seq<int>): int {
    if |q| == 0 then 0 else Min1(q, |q|)
  }

  function Second(q: seq<int>): int {
    if |q| < 2 then Smallest(q) else Min2(q, |q|)
  }

  /** The new check-to-variable message of edge e. */
  function NewR(q: seq<int>, e: nat, beta: int): int
    requires e < |q|
  {
    var minExcl := if Abs(q[e]) == Smallest(q) then Second(q) else Smallest(q);
    var mag := Max(minExcl - beta, 0);
    if SignXor(q, |q|) != (q[e] < 0) then -mag else mag
  }

  // ---- the reference: minimum and sign over the other edges --------------------------------------------------

  function OthersMin(q: seq<int>, e: nat, n: nat): int
    requires n <= |q|
  {
    if n == 0 then MSG_MAX
    else if n - 1 == e then OthersMin(q, e, n - 1)
    else Min(OthersMin(q, e, n - 1), Abs(q[n - 1]))
  }

  function OthersSign(q: seq<int>, e: nat, n: nat): bool
    requires n <= |q|
  {
    if n == 0 then false
    else if n - 1 == e then OthersSign(q, e, n - 1)
    else OthersSign(q, e, n - 1) != (q[n - 1] < 0)
  }

  predicate InRange(q: seq<int>) {
    forall k :: 0 <= k < |q| ==> -MSG_MAX <= q[k] <= MSG_MAX
  }

  lemma {:induction false} MinimaOrdered(q: seq<int>, n: nat)
    requires n <= |q|
    ensures Min1(q, n) <= Min2(q, n) <= MSG_MAX
    ensures forall k :: 0 <= k < n ==> Min1(q, n) <= Abs(q[k])
  {
    hide Abs;
    if n > 0 { MinimaOrdered(q, n - 1); }
  }

  lemma {:induction false} AllOthers(q: seq<int>, e: nat, n: nat)
    requires n <= |q| && n <= e
    ensures OthersMin(q, e, n) == Min1(q, n) && OthersSign(q, e, n) == SignXor(q, n)
  {
    if n > 0 { AllOthers(q, e, n - 1); }
  }

  /** Two minima suffice: dropping one message leaves the second minimum if it was the smallest, and
      the smallest otherwise. */
  lemma {:induction false} TwoMinimaSuffice(q: seq<int>, e: nat, n: nat)
    requires e < n <= |q|
    ensures (if Abs(q[e]) == Min1(q, n) then Min2(q, n) else Min1(q, n)) == OthersMin(q, e, n)
  {
    hide Abs;
    MinimaOrdered(q, n - 1);
    if n - 1 == e {
      AllOthers(q, e, e);
    } else {
      TwoMinimaSuffice(q, e, n - 1);
    }
  }

  lemma {:induction false} SignWithout(q: seq<int>, e: nat, n: nat)
    requires e < n <= |q|
    ensures OthersSign(q, e, n) == (SignXor(q, n) != (q[e] < 0))
  {
    if n - 1 == e {
      AllOthers(q, e, e);
    } else {
      SignWithout(q, e, n - 1);
    }
  }

  /** With at least two edges the new message is the offset minimum over the other edges, under their
      combined sign; with one edge its own magnitude stands in and the sign is positive. */
  lemma ExcludeSelf(q: seq<int>, e: nat, beta: int)
    requires e < |q|
    ensures |q| >= 2 ==>
              NewR(q, e, beta) == (var mag := Max(OthersMin(q, e, |q|) - beta, 0);
                                   if OthersSign(q, e, |q|) then -mag else mag)
    ensures |q| == 1 && InRange(q) ==> NewR(q, e, beta) == Max(Abs(q[e]) - beta, 0)
  {
    hide Abs;
    SignWithout(q, e, |q|);
    if |q| >= 2 { TwoMinimaSuffice(q, e, |q|); }
    if |q| == 1 && InRange(q) {
      SingleMin(q);
      assert OthersSign(q, e, 0) == false;
    }
  }

  lemma SingleMin(q: seq<int>)
    requires |q| == 1 && InRange(q)
    ensures Min1(q, 1) == Abs(q[0])
  {
    assert Min1(q, 0) == MSG_MAX;
  }

  lemma {:induction false} OthersMinBound(q: seq<int>, e: nat, n: nat)
    requires n <= |q|
    ensures 0 <= OthersMin(q, e, n) <= MSG_MAX
    ensures forall k :: 0 <= k < n && k != e ==> OthersMin(q, e, n) <= Abs(q[k])
  {
    hide Abs;
    if n > 0 { OthersMinBound(q, e, n - 1); }
  }

  /** Every message stays within the 8-bit range, so no step of the update overflows. */
  lemma NewRBound(q: seq<int>, e: nat, beta: int)
    requires e < |q| && InRange(q) && 0 <= beta <= MSG_MAX
    ensures -MSG_MAX <= NewR(q, e, beta) <= MSG_MAX
    ensures -MSG_MAX <= (if Abs(q[e]) == Smallest(q) then Second(q) else Smallest(q)) - beta <= MSG_MAX
  {
    MinimaOrdered(q, |q|);
    OthersMinBound(q, e, |q|);
    if |q| >= 2 { TwoMinimaSuffice(q, e, |q|); } else { SingleMin(q); }
  }

  // ---- flipping signs along a codeword -------------------------------------------------------------------------

  function Parity(x: seq<bool>, n: nat): bool
    requires n <= |x|
  {
    if n == 0 then false else Parity(x, n - 1) != x[n - 1]
  }

  function Signed(b: bool, v: int): int {
    if b then -v else v
  }

  /** q with the sign of every message flipped where x holds. */
  predicate FlippedBy(q: seq<int>, q': seq<int>, x: seq<bool>) {
    |q| == |q'| == |x| && forall k :: 0 <= k < |q| ==> q'[k] == Signed(x[k], q[k])
  }

  /** Where no other message is zero, flipping signs flips the combined sign by the parity of the rest. */
  lemma {:induction false} FlipSign(q: seq<int>, q': seq<int>, x: seq<bool>, e: nat, n: nat)
    requires FlippedBy(q, q', x) && n <= |q| && forall k :: 0 <= k < n && k != e ==> q[k] != 0
    ensures OthersSign(q', e, n) == (OthersSign(q, e, n) != ParityWithout(x, e, n))
  {
    if n > 0 {
      FlipSign(q, q', x, e, n - 1);
      assert q'[n - 1] == Signed(x[n - 1], q[n - 1]);
    }
  }

  function ParityWithout(x: seq<bool>, e: nat, n: nat): bool
    requires n <= |x|
  {
    if n == 0 then false
    else if n - 1 == e then ParityWithout(x, e, n - 1)
    else ParityWithout(x, e, n - 1) != x[n - 1]
  }

  lemma {:induction false} ParitySplit(x: seq<bool>, e: nat, n: nat)
    requires n <= |x|
    ensures Parity(x, n) == (ParityWithout(x, e, n) != (e < n && x[e]))
  {
    if n > 0 { ParitySplit(x, e, n - 1); }
  }

  /** Flipping a check's inputs along an even-parity pattern flips each output along it: zeros included,
      because a zero among the others silences the output. */
  lemma NewRFlips(q: seq<int>, q': seq<int>, x: seq<bool>, e: nat, beta: int)
    requires FlippedBy(q, q', x) && e < |q| && !Parity(x, |x|) && InRange(q) && 0 <= beta
    ensures NewR(q', e, beta) == Signed(x[e], NewR(q, e, beta))
  {
    hide Abs;
    assert InRange(q');
    ExcludeSelf(q, e, beta);
    ExcludeSelf(q', e, beta);
    FlipKeepsOthers(q, q', x, e, |q|);
    ParitySplit(x, e, |x|);
    if |q| == 1 {
      assert ParityWithout(x, e, 0) == false;
      assert !x[0];
    } else {
      OthersMinBound(q, e, |q|);
      if OthersMin(q, e, |q|) - beta > 0 {
        FlipSign(q, q', x, e, |q|);
      }
    }
  }

  lemma {:induction false} FlipKeepsOthers(q: seq<int>, q': seq<int>, x: seq<bool>, e: nat, n: nat)
    requires FlippedBy(q, q', x) && n <= |q|
    ensures OthersMin(q', e, n) == OthersMin(q, e, n)
  {
    if n > 0 {
      FlipKeepsOthers(q, q', x, e, n - 1);
      assert Abs(q'[n - 1]) == Abs(q[n - 1]);
    }
  }

  /** v does not point away from bit b. */
  predicate Leans(v: int, b: bool) {
    if b then v <= 0 else v >= 0
  }

  /** v points strictly at bit b. */
  predicate Points(v: int, b: bool) {
    if b then v < 0 else v > 0
  }

  lemma {:induction false} AgreeingSign(q: seq<int>, x: seq<bool>, e: nat, n: nat)
    requires |q| == |x| && n <= |q| && forall k :: 0 <= k < |q| ==> Points(q[k], x[k])
    ensures OthersSign(q, e, n) == ParityWithout(x, e, n)
  {
    if n > 0 { AgreeingSign(q, x, e, n - 1); }
  }

  /** If every input points at the bits of a satisfied check, so does every output, or it is zero. */
  lemma NewRAgrees(q: seq<int>, x: seq<bool>, e: nat, beta: int)
    requires |q| == |x| && e < |q| && InRange(q) && !Parity(x, |x|)
    requires forall k :: 0 <= k < |q| ==> Points(q[k], x[k])
    ensures Leans(NewR(q, e, beta), x[e])
  {
    hide Abs;
    ExcludeSelf(q, e, beta);
    AgreeingSign(q, x, e, |q|);
    ParitySplit(x, e, |x|);
    if |q| == 1 { assert ParityWithout(x, e, 0) == false; }
  }
}
