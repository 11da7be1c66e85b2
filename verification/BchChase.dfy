/** Chase-II: the algebraic decoder on every flip pattern of the least reliable positions, keeping the
    codeword of least analog weight. */
module BchChase {
  import opened Bits
  import opened BchWord
  import opened BchDecoder
  import opened BchCodec
  import opened Lfsr
  import opened Reals
  import StableSort

  /** The bits a demodulator would decide: a negative LLR is a one. */
  function Hard(llr: seq<real>): (h: Word)
    ensures |h| == |llr|
  {
    seq(|llr|, i requires 0 <= i < |llr| => llr[i] < 0.0)
  }

  function Magnitudes(llr: seq<real>): (m: seq<real>)
    ensures |m| == |llr|
  {
    seq(|llr|, i requires 0 <= i < |llr| => Abs(llr[i]))
  }

  function Min(a: nat, b: nat): nat {
    if a <= b then a else b
  }

  /** The p least reliable positions, ties by position. */
  function Weak(llr: seq<real>, p: nat): (w: seq<nat>)
    ensures |w| == Min(p, |llr|) && forall k :: 0 <= k < |w| ==> w[k] < |llr|
  {
    StableSort.Order(Magnitudes(llr), |llr|)[..Min(p, |llr|)]
  }

  /** The hard decision with the weak positions selected by the first n bits of `mask` flipped. */
  function Trial(h: Word, weak: seq<nat>, mask: nat, n: nat): (r: Word)
    requires n <= |weak| && forall k :: 0 <= k < |weak| ==> weak[k] < |h|
    ensures |r| == |h|
  {
    if n == 0 then h else
      var w := Trial(h, weak, mask, n - 1);
      if BitAt(mask, n - 1) then w[weak[n - 1] := !w[weak[n - 1]]] else w
  }

  /** The reliability that has to be disbelieved to accept c. */
  function Analog(c: Word, h: Word, llr: seq<real>): (a: real)
    requires |c| == |h| == |llr|
    ensures a >= 0.0
  {
    if |c| == 0 then 0.0
    else Analog(c[..|c| - 1], h[..|c| - 1], llr[..|c| - 1])
         + (if c[|c| - 1] != h[|c| - 1] then Abs(llr[|c| - 1]) else 0.0)
  }

  /** The decoder turns pattern `mask` into c. */
  ghost predicate Reaches(t: nat, h: Word, weak: seq<nat>, mask: nat, c: Word)
    requires forall k :: 0 <= k < |weak| ==> weak[k] < |h|
  {
    exists w: nat :: Near(t, Trial(h, weak, mask, |weak|), c, w) && w <= t
  }

  datatype Report = Report(analogWeight: real, candidates: nat, flippedFromHard: nat)
  datatype ChaseOutcome = Chosen(report: Report) | ChaseFailed | BadParam | BadLength(required: nat, provided: nat)

  datatype BestSoFar = None | Some(weight: real, word: Word)

  /** Pattern m reaches the best word, and everything reached by an earlier pattern is heavier. */
  ghost predicate FirstAt(t: nat, llr: seq<real>, weak: seq<nat>, m: nat, best: BestSoFar)
    requires (forall k :: 0 <= k < |weak| ==> weak[k] < |llr|) && best.Some?
  {
    && Reaches(t, Hard(llr), weak, m, best.word)
    && forall m': nat, c :: m' < m && Reaches(t, Hard(llr), weak, m', c) ==>
         |c| == |llr| && best.weight < Analog(c, Hard(llr), llr)
  }

  /** `best` is the lightest codeword reached by a pattern below `n`, the first one on a tie. */
  ghost predicate Lightest(t: nat, llr: seq<real>, weak: seq<nat>, n: nat, best: BestSoFar)
    requires forall k :: 0 <= k < |weak| ==> weak[k] < |llr|
  {
    && (best.None? ==> forall m: nat, c :: m < n ==> !Reaches(t, Hard(llr), weak, m, c))
    && (best.Some? ==>
          (&& |best.word| == |llr| == N && IsCodeword(FIELD, t, best.word)
           && best.weight == Analog(best.word, Hard(llr), llr)
           && (exists m: nat :: m < n && FirstAt(t, llr, weak, m, best))
           && (forall m: nat, c :: m < n && Reaches(t, Hard(llr), weak, m, c) ==>
                 |c| == N && best.weight <= Analog(c, Hard(llr), llr))))
  }

  ghost predicate Succeeds(t: nat, h: Word, weak: seq<nat>, mask: nat)
    requires forall k :: 0 <= k < |weak| ==> weak[k] < |h|
  {
    exists c :: Reaches(t, h, weak, mask, c)
  }

  /** How many of the first n patterns the decoder accepts. */
  ghost function Accepted(t: nat, h: Word, weak: seq<nat>, n: nat): nat
    requires forall k :: 0 <= k < |weak| ==> weak[k] < |h|
  {
    if n == 0 then 0
    else Accepted(t, h, weak, n - 1) + (if Succeeds(t, h, weak, n - 1) then 1 else 0)
  }

  lemma LightestStart(t: nat, llr: seq<real>, weak: seq<nat>)
    requires forall k :: 0 <= k < |weak| ==> weak[k] < |llr|
    ensures Lightest(t, llr, weak, 0, None)
  {
  }

  lemma ReachesLength(t: nat, h: Word, weak: seq<nat>, m: nat, c: Word)
    requires (forall k :: 0 <= k < |weak| ==> weak[k] < |h|) && Reaches(t, h, weak, m, c)
    ensures |c| == N && IsCodeword(FIELD, t, c)
  {
    hide PolyAt, Trial;
  }

  /** A rejected pattern reaches nothing. */
  lemma Rejected(t: nat, llr: seq<real>, weak: seq<nat>, n: nat, best: BestSoFar, v': Word, r: Outcome)
    requires (forall k :: 0 <= k < |weak| ==> weak[k] < |llr|) && Lightest(t, llr, weak, n, best)
    requires Decodes(t, Trial(Hard(llr), weak, n, |weak|), v', r) && !r.Ok?
    ensures Lightest(t, llr, weak, n + 1, best)
    ensures Accepted(t, Hard(llr), weak, n + 1) == Accepted(t, Hard(llr), weak, n)
  {
    hide Near, Trial, Hard, Analog, IsCodeword;
    forall c ensures !Reaches(t, Hard(llr), weak, n, c) {}
  }

  /** An accepted pattern reaches exactly the word left in the buffer. */
  lemma AcceptedOne(t: nat, llr: seq<real>, weak: seq<nat>, n: nat, best: BestSoFar, v': Word, r: Outcome,
                    best': BestSoFar)
    requires (forall k :: 0 <= k < |weak| ==> weak[k] < |llr|) && Lightest(t, llr, weak, n, best)
    requires Decodes(t, Trial(Hard(llr), weak, n, |weak|), v', r) && r.Ok? && |llr| == |v'| == N
    requires var weight := Analog(v', Hard(llr), llr);
             best' == if best.Some? && best.weight <= weight then best else Some(weight, v')
    ensures Lightest(t, llr, weak, n + 1, best')
    ensures Accepted(t, Hard(llr), weak, n + 1) == Accepted(t, Hard(llr), weak, n) + 1
  {
    hide Near, Trial, Hard, Analog, IsCodeword;
    assert Reaches(t, Hard(llr), weak, n, v');
    ReachesLength(t, Hard(llr), weak, n, v');
    assert best' != best ==> FirstAt(t, llr, weak, n, best');
    forall c | Reaches(t, Hard(llr), weak, n, c) ensures c == v' {}
    if best'.Some? {
      forall m: nat, c | m < n + 1 && Reaches(t, Hard(llr), weak, m, c)
        ensures |c| == N && best'.weight <= Analog(c, Hard(llr), llr)
      {
        ReachesLength(t, Hard(llr), weak, m, c);
      }
    }
  }

  method LoadTrial(h: Word, weak: seq<nat>, mask: nat, trial: array<bool>)
    requires trial.Length == |h| && forall k :: 0 <= k < |weak| ==> weak[k] < |h|
    modifies trial
    ensures trial[..] == Trial(h, weak, mask, |weak|)
  {
    var i := 0;
    while i < |h|
      invariant 0 <= i <= |h| && trial[..i] == h[..i]
    {
      trial[i] := h[i];
      i := i + 1;
    }
    assert trial[..] == h;
    var k := 0;
    while k < |weak|
      invariant 0 <= k <= |weak| && trial[..] == Trial(h, weak, mask, k)
    {
      if BitAt(mask, k) {
        trial[weak[k]] := !trial[weak[k]];
      }
      k := k + 1;
    }
  }

  method AnalogWeight(c: array<bool>, h: Word, llr: seq<real>) returns (w: real)
    requires c.Length == |h| == |llr|
    ensures w == Analog(c[..], h, llr)
  {
    w := 0.0;
    var i := 0;
    while i < |h|
      invariant 0 <= i <= |h| && w == Analog(c[..i], h[..i], llr[..i])
    {
      assert c[..i + 1][..i] == c[..i] && h[..i + 1][..i] == h[..i] && llr[..i + 1][..i] == llr[..i];
      if c[i] != h[i] {
        w := w + Abs(llr[i]);
      }
      i := i + 1;
    }
    assert c[..i] == c[..] && h[..i] == h && llr[..i] == llr;
  }

  /** The number whose bits are the given ones, lowest first. */
  function MaskOf(bits: Word): nat {
    if |bits| == 0 then 0 else (if bits[0] then 1 else 0) + 2 * MaskOf(bits[1..])
  }

  lemma {:induction false} MaskBits(bits: Word, k: nat)
    requires k < |bits|
    ensures BitAt(MaskOf(bits), k) == bits[k]
  {
    var m := MaskOf(bits[1..]);
    assert MaskOf(bits) / 2 == m && (MaskOf(bits) % 2 == 1) == bits[0];
    if k > 0 { MaskBits(bits[1..], k - 1); }
  }

  lemma {:induction false} MaskBound(bits: Word)
    ensures MaskOf(bits) < Size(|bits|)
  {
    if |bits| > 0 { MaskBound(bits[1..]); }
  }

  method Chase2(c: Code, llr: seq<real>, out: array<bool>, p: nat) returns (r: ChaseOutcome)
    requires CodeOk(c)
    modifies out
    ensures |llr| != N || out.Length != N ==> r == BadLength(N, Min(|llr|, out.Length))
    ensures r.BadLength? ==> |llr| != N || out.Length != N
    ensures r.BadParam? <==> |llr| == N == out.Length && p > 16
    ensures r.BadLength? || r.BadParam? ==> out[..] == old(out[..])
    ensures r.ChaseFailed? ==> out[..] == Hard(llr) && Lightest(c.dec.t, llr, Weak(llr, p), Size(Min(p, N)), None)
    ensures r.Chosen? ==>
              (&& Lightest(c.dec.t, llr, Weak(llr, p), Size(Min(p, N)), Some(r.report.analogWeight, out[..]))
               && r.report.candidates == Accepted(c.dec.t, Hard(llr), Weak(llr, p), Size(Min(p, N)))
               && |Hard(llr)| == |out[..]| && r.report.flippedFromHard == Weight(Xor(out[..], Hard(llr))))
    ensures r.Chosen? ==> MostLikely(c.dec.t, llr, p, out[..])
    ensures r.ChaseFailed? ==> forall d :: !Candidate(c.dec.t, llr, p, d)
    ensures |llr| == N == out.Length && p <= 16 ==> forall v :: Clean(c.dec.t, llr, v) ==>
              r.Chosen? && out[..] == v && r.report.analogWeight == 0.0 && r.report.flippedFromHard == 0
  {
    hide Valid, TableOk, Lightest, Accepted, Decodes, Trial, Weak, Hard, Analog, Weight, MostLikely, Candidate, Clean,
         Reaches;
    if |llr| != N || out.Length != N {
      return BadLength(N, Min(|llr|, out.Length));
    }
    if p > 16 {
      return BadParam;
    }
    var hard := Hard(llr);
    var i := 0;
    while i < N
      invariant 0 <= i <= N && out[..i] == hard[..i]
    {
      out[i] := hard[i];
      i := i + 1;
    }
    assert out[..] == hard;
    var weak := Weak(llr, p);
    var trial := new bool[N](_ => false);
    var best := None;
    var candidates := 0;
    var mask := 0;
    LightestStart(c.dec.t, llr, weak);
    NoneAccepted(c.dec.t, hard, weak);
    while mask < Size(|weak|)
      invariant 0 <= mask <= Size(|weak|) && out[..] == hard
      invariant Lightest(c.dec.t, llr, weak, mask, best)
      invariant candidates == Accepted(c.dec.t, hard, weak, mask)
    {
      LoadTrial(hard, weak, mask, trial);
      var decoded := DecodeFull(c.dec, trial);
      if decoded.Ok? {
        candidates := candidates + 1;
        var weight := AnalogWeight(trial, hard, llr);
        ghost var was := best;
        if !(best.Some? && best.weight <= weight) {
          best := Some(weight, trial[..]);
        }
        AcceptedOne(c.dec.t, llr, weak, mask, was, trial[..], decoded, best);
      } else {
        Rejected(c.dec.t, llr, weak, mask, best, trial[..], decoded);
      }
      mask := mask + 1;
    }
    LightestIsLikeliest(c.dec.t, llr, p, best);
    CleanAreChosen(c.dec.t, llr, p, best);
    if best.None? {
      return ChaseFailed;
    }
    LightestLength(c.dec.t, llr, weak, mask, best);
    var flipped := CountDiffering(best.word, hard);
    i := 0;
    while i < N
      invariant 0 <= i <= N && out[..i] == best.word[..i]
    {
      out[i] := best.word[i];
      i := i + 1;
    }
    assert out[..] == best.word;
    return Chosen(Report(best.weight, candidates, flipped));
  }

  lemma NoneAccepted(t: nat, h: Word, weak: seq<nat>)
    requires forall k :: 0 <= k < |weak| ==> weak[k] < |h|
    ensures Accepted(t, h, weak, 0) == 0
  {
  }

  lemma LightestLength(t: nat, llr: seq<real>, weak: seq<nat>, n: nat, best: BestSoFar)
    requires (forall k :: 0 <= k < |weak| ==> weak[k] < |llr|) && Lightest(t, llr, weak, n, best) && best.Some?
    ensures |best.word| == N
  {
  }

  method CountDiffering(a: Word, b: Word) returns (n: nat)
    requires |a| == |b|
    ensures n == Weight(Xor(a, b))
  {
    hide Weight;
    n := 0;
    var i := |a|;
    EmptyWeight();
    assert Xor(a, b)[i..] == [];
    while i > 0
      invariant 0 <= i <= |a| && n == Weight(Xor(a, b)[i..])
    {
      i := i - 1;
      WeightHead(Xor(a, b)[i..]);
      assert Xor(a, b)[i..][1..] == Xor(a, b)[i + 1..];
      if a[i] != b[i] {
        n := n + 1;
      }
    }
    assert Xor(a, b)[0..] == Xor(a, b);
  }

  lemma EmptyWeight()
    ensures Weight([]) == 0
  {
  }

  lemma WeightHead(w: Word)
    requires |w| > 0
    ensures Weight(w) == (if w[0] then 1 else 0) + Weight(w[1..])
  {
  }

  // ---- when the sent codeword is among the candidates ------------------------------------------------------

  /** The part of e outside the weak positions. */
  function Outside(e: Word, weak: seq<nat>): (r: Word)
    ensures |r| == |e| && forall i :: 0 <= i < |e| ==> r[i] == (e[i] && i !in weak)
  {
    seq(|e|, i requires 0 <= i < |e| => e[i] && i !in weak)
  }

  lemma {:induction false} TrialFlips(h: Word, weak: seq<nat>, mask: nat, n: nat, e: Word)
    requires n <= |weak| && |e| == |h| && (forall k :: 0 <= k < |weak| ==> weak[k] < |h|) && StableSort.Distinct(weak)
    requires forall k :: 0 <= k < |weak| ==> BitAt(mask, k) == e[weak[k]]
    ensures forall i :: 0 <= i < |h| ==> Trial(h, weak, mask, n)[i] == (h[i] != (e[i] && i in weak[..n]))
  {
    hide BitAt;
    if n > 0 {
      TrialFlips(h, weak, mask, n - 1, e);
      assert weak[..n] == weak[..n - 1] + [weak[n - 1]];
      assert weak[n - 1] !in weak[..n - 1];
    }
  }

  /** Errors of weight at most t outside the p weak positions put the sent codeword among the
      candidates, so the answer is at least as close to the channel values. */
  lemma SentIsCandidate(t: nat, llr: seq<real>, p: nat, v: Word, best: BestSoFar)
    requires |llr| == N && IsCodeword(FIELD, t, v)
    requires Weight(Outside(Xor(Hard(llr), v), Weak(llr, p))) <= t
    requires Lightest(t, llr, Weak(llr, p), Size(Min(p, N)), best)
    ensures best.Some? && best.weight <= Analog(v, Hard(llr), llr)
  {
    hide Reaches, Analog, Weight, Weak, Hard, IsCodeword, Outside;
    var mask := SentIsReached(t, llr, p, v);
  }

  /** The pattern that flips the wrong ones among the weak positions leads to the sent codeword. */
  lemma SentIsReached(t: nat, llr: seq<real>, p: nat, v: Word) returns (mask: nat)
    requires |llr| == N && IsCodeword(FIELD, t, v)
    requires Weight(Outside(Xor(Hard(llr), v), Weak(llr, p))) <= t
    ensures mask < Size(Min(p, N)) && Reaches(t, Hard(llr), Weak(llr, p), mask, v)
  {
    hide PolyAt, Trial, Analog, Weight, Weak, Hard;
    var h, weak := Hard(llr), Weak(llr, p);
    var e := Xor(h, v);
    var bits := seq(|weak|, k requires 0 <= k < |weak| => e[weak[k]]);
    mask := MaskOf(bits);
    forall k | 0 <= k < |weak| ensures BitAt(mask, k) == e[weak[k]] { MaskBits(bits, k); }
    MaskBound(bits);
    WeakDistinct(llr, p);
    TrialFlips(h, weak, mask, |weak|, e);
    assert weak[..|weak|] == weak;
    assert Xor(Trial(h, weak, mask, |weak|), v) == Outside(e, weak);
    assert Near(t, Trial(h, weak, mask, |weak|), v, Weight(Outside(e, weak)));
    assert Reaches(t, h, weak, mask, v);
  }

  lemma {:induction false} TrialKeepsStrong(h: Word, weak: seq<nat>, mask: nat, n: nat)
    requires n <= |weak| && forall k :: 0 <= k < |weak| ==> weak[k] < |h|
    ensures forall i :: 0 <= i < |h| && i !in weak ==> Trial(h, weak, mask, n)[i] == h[i]
  {
    hide BitAt;
    if n > 0 { TrialKeepsStrong(h, weak, mask, n - 1); }
  }

  /** And only codewords with at most t errors outside the weak positions are reached. */
  lemma ReachedIsNear(t: nat, llr: seq<real>, p: nat, mask: nat, c: Word)
    requires |llr| == N && Reaches(t, Hard(llr), Weak(llr, p), mask, c)
    ensures IsCodeword(FIELD, t, c) && Weight(Outside(Xor(Hard(llr), c), Weak(llr, p))) <= t
  {
    hide PolyAt, Trial, Weight, Weak, Hard, BitAt;
    var h, weak := Hard(llr), Weak(llr, p);
    TrialKeepsStrong(h, weak, mask, |weak|);
    var e, e' := Outside(Xor(h, c), weak), Xor(Trial(h, weak, mask, |weak|), c);
    forall i | 0 <= i < |e| && e[i] ensures e'[i] {}
    WeightGrows(e, e');
  }

  lemma {:induction false} WeightGrows(a: Word, b: Word)
    requires |a| == |b| && forall i :: 0 <= i < |a| && a[i] ==> b[i]
    ensures Weight(a) <= Weight(b)
  {
    if |a| > 0 { WeightGrows(a[1..], b[1..]); }
  }

  lemma WeakDistinct(llr: seq<real>, p: nat)
    ensures StableSort.Distinct(Weak(llr, p))
  {
    StableSort.OrderDistinct(Magnitudes(llr), |llr|);
  }

  // ---- the result in terms of the channel values alone -----------------------------------------------------

  /** The p weak positions are the p least reliable ones: nothing outside is weaker, and of two equally
      reliable positions the lower one counts as the weaker. */
  lemma WeakAreWeakest(llr: seq<real>, p: nat, i: nat, j: nat)
    requires i in Weak(llr, p) && j < |llr| && j !in Weak(llr, p)
    ensures i < |llr| && llr[i] * llr[i] <= llr[j] * llr[j]
    ensures llr[i] == llr[j] || llr[i] == -llr[j] ==> i < j
  {
    hide StableSort.Order;
    var ms := Magnitudes(llr);
    StableSort.FirstComeBefore(ms, Min(p, |llr|), i, j);
    Squares(ms[i], ms[j]);
  }

  lemma Squares(a: real, b: real)
    requires 0.0 <= a <= b
    ensures a * a <= b * b
  {
    assert b * b == a * a + (b - a) * (b + a);
  }

  /** Bit b is not what the value l suggests: a one under a value that is not negative, or a zero under a
      negative one. */
  predicate Against(b: bool, l: real) {
    if b then l >= 0.0 else l < 0.0
  }

  /** Where c goes against the channel values outside the given positions. */
  function Strays(c: Word, llr: seq<real>, weak: seq<nat>): (s: set<nat>)
    requires |c| == |llr|
  {
    set i: nat | i < |c| && i !in weak && Against(c[i], llr[i])
  }

  function Ones(w: Word): (s: set<nat>) {
    set i: nat | i < |w| && w[i]
  }

  lemma {:induction false} WeightIsSize(w: Word)
    ensures Weight(w) == |Ones(w)|
    decreases |w|
  {
    if |w| > 0 {
      var n := |w| - 1;
      var a, b := w[..n], [w[n]];
      assert w == a + b;
      WeightSplit(a, b);
      assert Weight(b) == if w[n] then 1 else 0;
      WeightIsSize(a);
      assert Ones(w) == if w[n] then Ones(a) + {n} else Ones(a);
    } else {
      assert Ones(w) == {};
    }
  }

  /** A codeword that goes against at most t of the channel values outside the p least reliable ones. */
  ghost predicate Candidate(t: nat, llr: seq<real>, p: nat, c: Word) {
    |llr| == N && IsCodeword(FIELD, t, c) && |Strays(c, llr, Weak(llr, p))| <= t
  }

  /** No candidate correlates better with the channel values. */
  ghost predicate MostLikely(t: nat, llr: seq<real>, p: nat, c: Word) {
    Candidate(t, llr, p, c) && forall d :: Candidate(t, llr, p, d) ==> Correlation(llr, d) <= Correlation(llr, c)
  }

  lemma StraysAreWeight(c: Word, llr: seq<real>, weak: seq<nat>)
    requires |c| == |llr|
    ensures |Strays(c, llr, weak)| == Weight(Outside(Xor(Hard(llr), c), weak))
  {
    hide Weight;
    WeightIsSize(Outside(Xor(Hard(llr), c), weak));
    assert Strays(c, llr, weak) == Ones(Outside(Xor(Hard(llr), c), weak));
  }

  /** The candidates are exactly the codewords that some pattern reaches. */
  lemma CandidateIffReached(t: nat, llr: seq<real>, p: nat, c: Word)
    requires |llr| == N
    ensures Candidate(t, llr, p, c) <==>
              exists mask: nat :: mask < Size(Min(p, N)) && Reaches(t, Hard(llr), Weak(llr, p), mask, c)
  {
    hide Weak, Hard, Weight, Outside, Strays, Reaches, PolyAt;
    if |c| == N { StraysAreWeight(c, llr, Weak(llr, p)); }
    if Candidate(t, llr, p, c) { var mask := SentIsReached(t, llr, p, c); }
    if exists mask: nat :: mask < Size(Min(p, N)) && Reaches(t, Hard(llr), Weak(llr, p), mask, c) {
      var mask: nat :| mask < Size(Min(p, N)) && Reaches(t, Hard(llr), Weak(llr, p), mask, c);
      ReachedIsNear(t, llr, p, mask, c);
      ReachesLength(t, Hard(llr), Weak(llr, p), mask, c);
    }
  }

  /** Analog weight is the correlation lost against the hard decision, counted half. */
  lemma {:induction false} AnalogIsLoss(c: Word, llr: seq<real>)
    requires |c| == |llr|
    ensures Correlation(llr, c) == Correlation(llr, Hard(llr)) - 2.0 * Analog(c, Hard(llr), llr)
    decreases |c|
  {
    hide Correlation;
    if |c| == 0 {
      assert c == Hard(llr);
    } else {
      var n := |c| - 1;
      assert Hard(llr)[..n] == Hard(llr[..n]);
      AnalogIsLoss(c[..n], llr[..n]);
      CorrelationLast(llr, c);
      CorrelationLast(llr, Hard(llr));
    }
  }

  /** Chase-II chooses the likeliest candidate, and gives up exactly when there is none. */
  lemma LightestIsLikeliest(t: nat, llr: seq<real>, p: nat, best: BestSoFar)
    requires |llr| == N && Lightest(t, llr, Weak(llr, p), Size(Min(p, N)), best)
    ensures best.Some? ==> MostLikely(t, llr, p, best.word)
    ensures best.None? ==> forall c :: !Candidate(t, llr, p, c)
  {
    hide Weak, Hard, Analog, Correlation, Reaches, PolyAt, Strays;
    forall c ensures best.None? ==> !Candidate(t, llr, p, c) { CandidateIffReached(t, llr, p, c); }
    if best.Some? {
      CandidateIffReached(t, llr, p, best.word);
      AnalogIsLoss(best.word, llr);
      forall d | Candidate(t, llr, p, d) ensures Correlation(llr, d) <= Correlation(llr, best.word) {
        CandidateIffReached(t, llr, p, d);
        assert |d| == N;
        AnalogIsLoss(d, llr);
      }
    }
  }

  /** v is a codeword, and every channel value has the sign v gives it. */
  ghost predicate Clean(t: nat, llr: seq<real>, v: Word) {
    && |llr| == N && IsCodeword(FIELD, t, v)
    && forall i :: 0 <= i < N ==> if v[i] then llr[i] < 0.0 else llr[i] > 0.0
  }

  lemma {:induction false} NothingToDisbelieve(c: Word, h: Word, llr: seq<real>)
    requires |c| == |h| == |llr| && forall i :: 0 <= i < |llr| ==> llr[i] != 0.0
    ensures Analog(c, h, llr) == 0.0 <==> c == h
    decreases |c|
  {
    if |c| > 0 {
      var n := |c| - 1;
      NothingToDisbelieve(c[..n], h[..n], llr[..n]);
      assert c == c[..n] + [c[n]] && h == h[..n] + [h[n]];
    }
  }

  /** Over a channel that only changes magnitudes the sent codeword is chosen, at no cost. */
  lemma CleanIsChosen(t: nat, llr: seq<real>, p: nat, v: Word, best: BestSoFar)
    requires Clean(t, llr, v) && Lightest(t, llr, Weak(llr, p), Size(Min(p, N)), best)
    ensures best == Some(0.0, v) && v == Hard(llr)
  {
    hide Weak, Analog, Reaches, PolyAt, Weight;
    var e := Outside(Xor(Hard(llr), v), Weak(llr, p));
    assert v == Hard(llr);
    NoWeight(e);
    SentIsCandidate(t, llr, p, v, best);
    NothingToDisbelieve(v, Hard(llr), llr);
    NothingToDisbelieve(best.word, Hard(llr), llr);
  }

  lemma CleanAreChosen(t: nat, llr: seq<real>, p: nat, best: BestSoFar)
    requires |llr| == N && Lightest(t, llr, Weak(llr, p), Size(Min(p, N)), best)
    ensures forall v :: Clean(t, llr, v) ==> best == Some(0.0, v) && v == Hard(llr) && Weight(Xor(v, Hard(llr))) == 0
  {
    hide Weak, Analog, Reaches, Lightest, Hard, Clean, Weight;
    forall v | Clean(t, llr, v)
      ensures best == Some(0.0, v) && v == Hard(llr) && Weight(Xor(v, Hard(llr))) == 0
    {
      CleanIsChosen(t, llr, p, v, best);
      NoWeight(Xor(v, v));
    }
  }
}
