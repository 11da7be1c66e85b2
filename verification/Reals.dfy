/** Magnitudes of exact LLRs, and what LLRs say for a word. */
module Reals {
  import opened Bits

  function Abs(x: real): real {
    if x < 0.0 then -x else x
  }

  /** Each value counted positive under a zero and negative under a one: the larger the sum, the likelier
      the word. */
  function Correlation(llr: seq<real>, x: Word): (c: real)
    requires |llr| == |x|
  {
    if |x| == 0 then 0.0 else (if x[0] then -llr[0] else llr[0]) + Correlation(llr[1..], x[1..])
  }

  lemma {:induction false} CorrelationLast(llr: seq<real>, x: Word)
    requires |llr| == |x| > 0
    ensures var n := |x| - 1;
            Correlation(llr, x) == Correlation(llr[..n], x[..n]) + (if x[n] then -llr[n] else llr[n])
    decreases |x|
  {
    var n := |x| - 1;
    if n > 0 {
      CorrelationLast(llr[1..], x[1..]);
      assert llr[1..][..n - 1] == llr[..n][1..] && x[1..][..n - 1] == x[..n][1..];
    }
  }
}
