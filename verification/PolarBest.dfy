/** What the list decoder's choice is worth at every list size: the cheapest of the candidates that may be
    returned, cost being what the channel values say against a message. */
module PolarBest {
  import opened Bits
  import opened PolarTransform
  import opened PolarSc
  import opened PolarScl
  import opened PolarList
  import opened PolarCodec
  import opened Options
  import opened Reals

  /** A candidate that satisfies the CRC. */
  ghost predicate Passes(us: seq<Word>, frozen: Word, crc: Option<Word -> bool>, i: nat) {
    i < |us| && |us[i]| == |frozen| && crc.Some? && crc.value(Extract(us[i], frozen))
  }

  ghost predicate SomePasses(us: seq<Word>, frozen: Word, crc: Option<Word -> bool>) {
    exists i: nat :: Passes(us, frozen, crc, i)
  }

  /** A candidate that may be returned: it passes, or none does. */
  ghost predicate Eligible(us: seq<Word>, frozen: Word, crc: Option<Word -> bool>, i: nat) {
    i < |us| && |us[i]| == |frozen| && (SomePasses(us, frozen, crc) ==> Passes(us, frozen, crc, i))
  }

  /** The message belongs to an eligible candidate and costs no more than any other of them. */
  ghost predicate Cheapest(llr: Llrs, frozen: Word, list: nat, crc: Option<Word -> bool>, info: Word) {
    && Pow2(|frozen|) && |llr| == |frozen| && |info| == Free(frozen)
    && var us := Candidates(llr, frozen, list);
       && (exists i: nat :: Eligible(us, frozen, crc, i) && info == Extract(us[i], frozen))
       && forall i: nat :: Eligible(us, frozen, crc, i) ==>
            Cost(info, frozen, llr) <= Cost(Extract(us[i], frozen), frozen, llr)
  }

  lemma CostsAscend(llr: Llrs, frozen: Word, list: nat, i: nat, j: nat)
    requires Pow2(|frozen|) && |llr| == |frozen| && !frozen[|frozen| - 1]
    requires i <= j < |Candidates(llr, frozen, list)|
    ensures var us := Candidates(llr, frozen, list);
            Cost(Extract(us[i], frozen), frozen, llr) <= Cost(Extract(us[j], frozen), frozen, llr)
  {
    hide Scl, Cost, Extract, Sc, Pow2, T;
    if list != 1 { CandidatesCompare(llr, frozen, list, i, j); }
  }

  /** Every list size, with a CRC or without: the flag says whether some candidate passes, and with an
      information bit at the last leaf the message is the cheapest of those that pass, or of all if none does. */
  lemma AnswerIsCheapest(llr: Llrs, frozen: Word, list: nat, crc: Option<Word -> bool>)
    requires Pow2(|frozen|) && |llr| == |frozen| && list > 0
    ensures |Candidates(llr, frozen, list)| > 0
    ensures var us := Candidates(llr, frozen, list);
            Answer(us, frozen, crc).1 <==> SomePasses(us, frozen, crc)
    ensures !frozen[|frozen| - 1] ==>
              Cheapest(llr, frozen, list, crc, Answer(Candidates(llr, frozen, list), frozen, crc).0)
  {
    hide Scl, Cost, Extract, Sc, T, Candidates;
    CandidatesNonEmpty(llr, frozen, list);
    var us := Candidates(llr, frozen, list);
    var first := if crc.None? then |us| else FirstPass(us, frozen, crc.value, 0);
    var at := if first < |us| then first else 0;
    assert Answer(us, frozen, crc).0 == Extract(us[at], frozen);
    forall i: nat | Passes(us, frozen, crc, i) ensures first <= i {}
    assert first < |us| ==> Passes(us, frozen, crc, first);
    assert Eligible(us, frozen, crc, at);
    if !frozen[|frozen| - 1] {
      forall i: nat | Eligible(us, frozen, crc, i)
        ensures Cost(Extract(us[at], frozen), frozen, llr) <= Cost(Extract(us[i], frozen), frozen, llr)
      {
        CostsAscend(llr, frozen, list, at, i);
      }
    }
  }

  // ---- cost and correlation --------------------------------------------------------------------------------------

  lemma {:induction false} DisagreementsDiffer(llr: Llrs, x: Word, y: Word)
    requires |llr| == |x| == |y|
    ensures 2.0 * (Dis(llr, x) - Dis(llr, y)) == Correlation(llr, y) - Correlation(llr, x)
    decreases |x|
  {
    if |x| > 0 { DisagreementsDiffer(llr[1..], x[1..], y[1..]); }
  }

  /** Costing less is correlating more: the cheapest message is the most likely one. */
  lemma CheaperIsLikelier(info: Word, other: Word, frozen: Word, llr: Llrs)
    requires Pow2(|frozen|) && |llr| == |frozen| && |info| == |other| == Free(frozen)
    ensures Cost(info, frozen, llr) <= Cost(other, frozen, llr)
       <==> Correlation(llr, Codeword(info, frozen)) >= Correlation(llr, Codeword(other, frozen))
  {
    DisagreementsDiffer(llr, Codeword(info, frozen), Codeword(other, frozen));
  }
}
