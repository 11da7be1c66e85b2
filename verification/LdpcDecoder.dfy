/** The fixed-point layered offset min-sum decoder (scalar kernel). Posteriors and messages live in
    two-dimensional arrays: the flat position c z + j is cell (c, j). */
module LdpcDecoder {
  import opened Bits
  import opened Modulo
  import opened LdpcGraph
  import opened LdpcEncoder
  import opened LdpcMinSum
  import opened LdpcLayers
  import opened LdpcSymmetry

  /** The first rows of the array hold the grid. */
  ghost predicate Shows(a: array2<int>, g: seq<seq<int>>)
    reads a
  {
    && |g| <= a.Length0
    && forall i :: 0 <= i < |g| ==> |g[i]| == a.Length1 && forall j :: 0 <= j < |g[i]| ==> a[i, j] == g[i][j]
  }

  /** The first rows of the scratch array hold layer l's messages. */
  ghost predicate HoldsMessages(q: array2<int>, st: State, p: Params, l: nat)
    requires ParamsOk(p) && l < p.mb && Grid(st.app, p.nb, p.z) && Grid(st.r, |p.edges|, p.z)
    reads q
  {
    && q.Length0 >= p.offsets[l + 1] - p.offsets[l] && q.Length1 == p.z
    && forall k, lane :: 0 <= k < p.offsets[l + 1] - p.offsets[l] && 0 <= lane < p.z ==>
         q[k, lane] == Messages(st, p, l, lane)[k]
  }

  /** Q-build: the variable-to-check messages of a layer. */
  method BuildMessages(p: Params, l: nat, app: array2<int>, edgeR: array2<int>, q: array2<int>, ghost st: State)
    requires ParamsOk(p) && l < p.mb && Grid(st.app, p.nb, p.z) && Grid(st.r, |p.edges|, p.z)
    requires Shows(app, st.app) && Shows(edgeR, st.r) && app.Length1 == p.z == edgeR.Length1
    requires q != app && q != edgeR && q.Length0 >= p.offsets[l + 1] - p.offsets[l] && q.Length1 == p.z
    modifies q
    ensures HoldsMessages(q, st, p, l)
  {
    hide Messages;
    LayerBounds(p, l);
    var layerBegin := p.offsets[l];
    var rowDegree := p.offsets[l + 1] - layerBegin;
    var edge := 0;
    while edge < rowDegree
      invariant 0 <= edge <= rowDegree
      invariant forall k, lane :: 0 <= k < edge && 0 <= lane < p.z ==> q[k, lane] == Messages(st, p, l, lane)[k]
    {
      var colBlock, shift := p.edges[layerBegin + edge].col, p.edges[layerBegin + edge].shift;
      var zIdx := 0;
      while zIdx < p.z
        invariant 0 <= zIdx <= p.z
        invariant forall k, lane :: 0 <= k < edge && 0 <= lane < p.z ==> q[k, lane] == Messages(st, p, l, lane)[k]
        invariant forall lane :: 0 <= lane < zIdx ==> q[edge, lane] == Messages(st, p, l, lane)[edge]
      {
        var s := zIdx + shift;
        var d := app[colBlock, if s >= p.z then s - p.z else s] - edgeR[layerBegin + edge, zIdx];
        MessageAt(st, p, l, zIdx, edge);
        q[edge, zIdx] := Clamp(d, MSG_MAX);
        zIdx := zIdx + 1;
      }
      edge := edge + 1;
    }
  }

  lemma NextSummary(q: seq<int>, n: nat)
    requires n < |q|
    ensures Min1(q, n + 1) == Min(Min1(q, n), Abs(q[n])) && SignXor(q, n + 1) == (SignXor(q, n) != (q[n] < 0))
    ensures Min2(q, n + 1) == Min(Min2(q, n), Max(Min1(q, n), Abs(q[n])))
    ensures Min1(q, 0) == Min2(q, 0) == MSG_MAX && !SignXor(q, 0)
  {
  }

  lemma FirstSummary(q: seq<int>)
    ensures Min1(q, 0) == Min2(q, 0) == MSG_MAX && !SignXor(q, 0)
  {
  }

  /** Pass 1: minima and sign across the layer's edges, with the fix-up for fewer than two edges. */
  method PassOne(p: Params, l: nat, q: array2<int>, min1: array<int>, min2: array<int>, sxor: array<bool>,
                 ghost st: State)
    requires ParamsOk(p) && l < p.mb && Grid(st.app, p.nb, p.z) && Grid(st.r, |p.edges|, p.z)
    requires HoldsMessages(q, st, p, l) && min1.Length == min2.Length == sxor.Length == p.z && min1 != min2
    modifies min1, min2, sxor
    ensures forall lane :: 0 <= lane < p.z ==>
              min1[lane] == Smallest(Messages(st, p, l, lane)) && min2[lane] == Second(Messages(st, p, l, lane))
              && sxor[lane] == SignXor(Messages(st, p, l, lane), p.offsets[l + 1] - p.offsets[l])
  {
    hide Messages, Min1, Min2, SignXor, Abs;
    LayerBounds(p, l);
    var rowDegree := p.offsets[l + 1] - p.offsets[l];
    forall i | 0 <= i < p.z { min1[i] := MSG_MAX; }
    forall i | 0 <= i < p.z { min2[i] := MSG_MAX; }
    forall i | 0 <= i < p.z { sxor[i] := false; }
    var edge := 0;
    forall lane | 0 <= lane < p.z
      ensures min1[lane] == Min1(Messages(st, p, l, lane), 0) && min2[lane] == Min2(Messages(st, p, l, lane), 0)
      ensures sxor[lane] == SignXor(Messages(st, p, l, lane), 0)
    {
      FirstSummary(Messages(st, p, l, lane));
    }
    while edge < rowDegree
      invariant 0 <= edge <= rowDegree
      invariant forall lane :: 0 <= lane < p.z ==>
                  min1[lane] == Min1(Messages(st, p, l, lane), edge)
                      && min2[lane] == Min2(Messages(st, p, l, lane), edge)
                  && sxor[lane] == SignXor(Messages(st, p, l, lane), edge)
    {
      var zIdx := 0;
      while zIdx < p.z
        invariant 0 <= zIdx <= p.z
        invariant forall lane :: 0 <= lane < zIdx ==>
                    min1[lane] == Min1(Messages(st, p, l, lane), edge + 1)
                    && min2[lane] == Min2(Messages(st, p, l, lane), edge + 1)
                    && sxor[lane] == SignXor(Messages(st, p, l, lane), edge + 1)
        invariant forall lane :: zIdx <= lane < p.z ==>
                    min1[lane] == Min1(Messages(st, p, l, lane), edge)
                        && min2[lane] == Min2(Messages(st, p, l, lane), edge)
                    && sxor[lane] == SignXor(Messages(st, p, l, lane), edge)
      {
        NextSummary(Messages(st, p, l, zIdx), edge);
        var a := Abs(q[edge, zIdx]);
        sxor[zIdx] := sxor[zIdx] != (q[edge, zIdx] < 0);
        var m1 := min1[zIdx];
        min1[zIdx] := Min(m1, a);
        min2[zIdx] := Min(min2[zIdx], Max(m1, a));
        zIdx := zIdx + 1;
      }
      edge := edge + 1;
    }
    FixUp(p, l, min1, min2, st);
  }

  /** A layer of fewer than two edges has no second smallest: the smallest stands in, zero for none. */
  method FixUp(p: Params, l: nat, min1: array<int>, min2: array<int>, ghost st: State)
    requires ParamsOk(p) && l < p.mb && Grid(st.app, p.nb, p.z) && Grid(st.r, |p.edges|, p.z)
    requires min1.Length == min2.Length == p.z && min1 != min2
    requires forall lane :: 0 <= lane < p.z ==>
               min1[lane] == Min1(Messages(st, p, l, lane), p.offsets[l + 1] - p.offsets[l])
               && min2[lane] == Min2(Messages(st, p, l, lane), p.offsets[l + 1] - p.offsets[l])
    modifies min1, min2
    ensures forall lane :: 0 <= lane < p.z ==>
              min1[lane] == Smallest(Messages(st, p, l, lane)) && min2[lane] == Second(Messages(st, p, l, lane))
  {
    hide Messages, Min1, Min2;
    var rowDegree := p.offsets[l + 1] - p.offsets[l];
    if rowDegree < 2 {
      var zIdx := 0;
      while zIdx < p.z
        invariant 0 <= zIdx <= p.z
        invariant forall lane :: 0 <= lane < zIdx ==>
                    min1[lane] == Smallest(Messages(st, p, l, lane)) && min2[lane] == Second(Messages(st, p, l, lane))
        invariant forall lane :: zIdx <= lane < p.z ==> min1[lane] == Min1(Messages(st, p, l, lane), rowDegree)
      {
        if rowDegree == 0 {
          min1[zIdx] := 0;
        }
        min2[zIdx] := min1[zIdx];
        zIdx := zIdx + 1;
      }
    }
  }

  /** One edge of pass 2: new messages in every lane, each posterior moved by the difference. */
  method PassTwoEdge(p: Params, l: nat, edge: nat, q: array2<int>, min1: array<int>, min2: array<int>,
                     sxor: array<bool>, app: array2<int>, edgeR: array2<int>, beta: int, clamp: int,
                     ghost st: State, ghost now: State)
    requires ParamsOk(p) && l < p.mb && edge < p.offsets[l + 1] - p.offsets[l]
    requires Grid(st.app, p.nb, p.z) && Grid(st.r, |p.edges|, p.z) && Grid(now.app, p.nb, p.z)
             && Grid(now.r, |p.edges|, p.z)
    requires HoldsMessages(q, st, p, l) && min1.Length == min2.Length == sxor.Length == p.z
    requires forall lane :: 0 <= lane < p.z ==>
               min1[lane] == Smallest(Messages(st, p, l, lane)) && min2[lane] == Second(Messages(st, p, l, lane))
               && sxor[lane] == SignXor(Messages(st, p, l, lane), p.offsets[l + 1] - p.offsets[l])
    requires Shows(app, now.app) && Shows(edgeR, now.r) && app.Length1 == p.z == edgeR.Length1
    requires app != edgeR && q != app && q != edgeR
    modifies app, edgeR
    ensures p.offsets[l] + edge < |p.edges|
    ensures Shows(app, EdgeStep(now, p, p.offsets[l] + edge, NewRow(st, p, l, edge, beta), clamp).app)
    ensures Shows(edgeR, EdgeStep(now, p, p.offsets[l] + edge, NewRow(st, p, l, edge, beta), clamp).r)
  {
    hide Messages, Smallest, Second, SignXor, Abs, Update, SaturatingAdd;
    LayerBounds(p, l);
    var e := p.offsets[l] + edge;
    var colBlock, shift := p.edges[e].col, p.edges[e].shift;
    ghost var row := NewRow(st, p, l, edge, beta);
    var zIdx := 0;
    while zIdx < p.z
      invariant 0 <= zIdx <= p.z
      invariant forall i, j :: 0 <= i < p.nb && 0 <= j < p.z && i != colBlock ==> app[i, j] == now.app[i][j]
      invariant forall j :: 0 <= j < p.z && LaneOf(j, shift, p.z) < zIdx ==>
                  app[colBlock, j] == MovedCell(now.app[colBlock][j], row, now.r[e], LaneOf(j, shift, p.z), clamp)
      invariant forall j :: 0 <= j < p.z && LaneOf(j, shift, p.z) >= zIdx ==> app[colBlock, j] == now.app[colBlock][j]
      invariant forall i, j :: 0 <= i < |p.edges| && 0 <= j < p.z && i != e ==> edgeR[i, j] == now.r[i][j]
      invariant forall j :: 0 <= j < zIdx ==> edgeR[e, j] == row[j]
      invariant forall j :: zIdx <= j < p.z ==> edgeR[e, j] == now.r[e][j]
    {
      var m := q[edge, zIdx];
      assert m == Messages(st, p, l, zIdx)[edge];
      var a := Abs(m);
      var signExcl := sxor[zIdx] != (m < 0);
      var minExcl := if a == min1[zIdx] then min2[zIdx] else min1[zIdx];
      var mag := Max(minExcl - beta, 0);
      var newR := if signExcl then -mag else mag;
      RowAt(st, p, l, edge, beta, zIdx);
      assert newR == row[zIdx];
      var oldR := edgeR[e, zIdx];
      edgeR[e, zIdx] := newR;
      var delta := newR - oldR;
      var s := zIdx + shift;
      var j := if s >= p.z then s - p.z else s;
      assert LaneOf(j, shift, p.z) == zIdx;
      app[colBlock, j] := Update(app[colBlock, j], delta, clamp);
      zIdx := zIdx + 1;
    }
  }

  lemma RowAt(st: State, p: Params, l: nat, k: nat, beta: int, lane: nat)
    requires ParamsOk(p) && l < p.mb && Grid(st.app, p.nb, p.z) && Grid(st.r, |p.edges|, p.z) && lane < p.z
    requires k < p.offsets[l + 1] - p.offsets[l]
    ensures var q := Messages(st, p, l, lane);
            NewRow(st, p, l, k, beta)[lane]
            == (var mag := Max((if Abs(q[k]) == Smallest(q) then Second(q) else Smallest(q)) - beta, 0);
                if SignXor(q, p.offsets[l + 1] - p.offsets[l]) != (q[k] < 0) then -mag else mag)
  {
    hide Messages, Smallest, Second, SignXor, Abs;
  }

  /** Pass 2 over all edges of the layer. */
  method PassTwo(p: Params, l: nat, q: array2<int>, min1: array<int>, min2: array<int>, sxor: array<bool>,
                 app: array2<int>, edgeR: array2<int>, beta: int, clamp: int, ghost st: State)
    requires ParamsOk(p) && l < p.mb && Grid(st.app, p.nb, p.z) && Grid(st.r, |p.edges|, p.z)
    requires HoldsMessages(q, st, p, l) && min1.Length == min2.Length == sxor.Length == p.z
    requires forall lane :: 0 <= lane < p.z ==>
               min1[lane] == Smallest(Messages(st, p, l, lane)) && min2[lane] == Second(Messages(st, p, l, lane))
               && sxor[lane] == SignXor(Messages(st, p, l, lane), p.offsets[l + 1] - p.offsets[l])
    requires Shows(app, st.app) && Shows(edgeR, st.r) && app.Length1 == p.z == edgeR.Length1
    requires app != edgeR && q != app && q != edgeR
    modifies app, edgeR
    ensures Shows(app, LayerStep(st, p, l, beta, clamp).app) && Shows(edgeR, LayerStep(st, p, l, beta, clamp).r)
  {
    hide Messages, Smallest, Second, SignXor, EdgeStep, NewRow, Shows;
    LayerBounds(p, l);
    var edge := 0;
    ghost var now := st;
    while edge < p.offsets[l + 1] - p.offsets[l]
      invariant 0 <= edge <= p.offsets[l + 1] - p.offsets[l]
      invariant Grid(now.app, p.nb, p.z) && Grid(now.r, |p.edges|, p.z)
      invariant now == LayerEdges(st, p, l, edge, beta, clamp) && Shows(app, now.app) && Shows(edgeR, now.r)
      invariant HoldsMessages(q, st, p, l)
    {
      PassTwoEdge(p, l, edge, q, min1, min2, sxor, app, edgeR, beta, clamp, st, now);
      now := EdgeStep(now, p, p.offsets[l] + edge, NewRow(st, p, l, edge, beta), clamp);
      edge := edge + 1;
    }
  }

  /** The syndrome test on hard decisions: the parity of every check, stopping at the first odd one. */
  method CheckSyndrome(p: Params, app: array2<int>, ghost g: seq<seq<int>>) returns (ok: bool)
    requires ParamsOk(p) && Grid(g, p.nb, p.z) && Shows(app, g) && app.Length1 == p.z
    ensures ok <==> Codeword(p, Hard(g))
  {
    hide Touched, Parity, Check;
    ghost var x := Hard(g);
    HardGrid(p, g);
    var layer := 0;
    while layer < p.mb
      invariant 0 <= layer <= p.mb
      invariant forall l, lane :: 0 <= l < layer && 0 <= lane < p.z ==>
                  !Parity(Touched(p, x, l, lane), |Touched(p, x, l, lane)|)
    {
      LayerBounds(p, layer);
      var zIdx := 0;
      while zIdx < p.z
        invariant 0 <= zIdx <= p.z
        invariant forall l, lane :: 0 <= l < layer && 0 <= lane < p.z ==>
                    !Parity(Touched(p, x, l, lane), |Touched(p, x, l, lane)|)
        invariant forall lane :: 0 <= lane < zIdx ==>
                    !Parity(Touched(p, x, layer, lane), |Touched(p, x, layer, lane)|)
      {
        var parity := false;
        var edge := 0;
        ParityStarts(Touched(p, x, layer, zIdx));
        while edge < p.offsets[layer + 1] - p.offsets[layer]
          invariant 0 <= edge <= p.offsets[layer + 1] - p.offsets[layer]
          invariant parity == Parity(Touched(p, x, layer, zIdx), edge)
        {
          var col, shift := p.edges[p.offsets[layer] + edge].col, p.edges[p.offsets[layer] + edge].shift;
          var s := zIdx + shift;
          TouchedAt(p, x, layer, zIdx, edge);
          ParityGrows(Touched(p, x, layer, zIdx), edge);
          parity := parity != (app[col, if s >= p.z then s - p.z else s] < 0);
          edge := edge + 1;
        }
        if parity {
          OddCheckFails(p, x, layer, zIdx);
          return false;
        }
        zIdx := zIdx + 1;
      }
      layer := layer + 1;
    }
    EvenEverywhere(p, x);
    return true;
  }

  lemma HardGrid(p: Params, g: seq<seq<int>>)
    requires Grid(g, p.nb, p.z)
    ensures BlocksOk(Hard(g), p.z, p.nb)
  {
  }

  lemma TouchedAt(p: Params, x: seq<Word>, l: nat, lane: nat, k: nat)
    requires ParamsOk(p) && BlocksOk(x, p.z, p.nb) && l < p.mb && lane < p.z && k < p.offsets[l + 1] - p.offsets[l]
    ensures p.offsets[l] + k < |p.edges| && Touched(p, x, l, lane)[k] == BitOf(p, x, p.offsets[l] + k, lane)
  {
    LayerBounds(p, l);
  }

  lemma ParityStarts(x: seq<bool>)
    ensures !Parity(x, 0)
  {
  }

  lemma ParityGrows(x: seq<bool>, n: nat)
    requires n < |x|
    ensures Parity(x, n + 1) == (Parity(x, n) != x[n])
  {
  }

  lemma OddCheckFails(p: Params, x: seq<Word>, l: nat, lane: nat)
    requires ParamsOk(p) && BlocksOk(x, p.z, p.nb) && l < p.mb && lane < p.z
    requires Parity(Touched(p, x, l, lane), |Touched(p, x, l, lane)|)
    ensures !Codeword(p, x)
  {
    hide Check, Touched, Parity;
    if Codeword(p, x) { EvenChecks(p, x, l, lane); }
  }

  lemma EvenEverywhere(p: Params, x: seq<Word>)
    requires ParamsOk(p) && BlocksOk(x, p.z, p.nb)
    requires forall l, lane :: 0 <= l < p.mb && 0 <= lane < p.z ==>
               !Parity(Touched(p, x, l, lane), |Touched(p, x, l, lane)|)
    ensures Codeword(p, x)
  {
    hide Check, Touched, Parity;
    forall l | 0 <= l < p.mb ensures Check(x, p, l) == Zeros(p.z) {
      forall lane | 0 <= lane < p.z ensures Check(x, p, l)[lane] == Zeros(p.z)[lane] {
        CheckIsParity(p, x, l, lane);
      }
    }
  }

  /** The bits that check `lane` of row block l looks at: lane + shift, modulo z, in the column block of each of
      its edges. */
  function LookedAt(p: Params, x: seq<Word>, l: nat, lane: nat): (w: Word)
    requires ParamsOk(p) && BlocksOk(x, p.z, p.nb) && l < p.mb && lane < p.z
  {
    LayerBounds(p, l);
    seq(p.offsets[l + 1] - p.offsets[l], k requires 0 <= k < p.offsets[l + 1] - p.offsets[l] =>
          x[p.edges[p.offsets[l] + k].col][(lane + p.edges[p.offsets[l] + k].shift) % p.z])
  }

  lemma LookedAtIsTouched(p: Params, x: seq<Word>, l: nat, lane: nat)
    requires ParamsOk(p) && BlocksOk(x, p.z, p.nb) && l < p.mb && lane < p.z
    ensures LookedAt(p, x, l, lane) == Touched(p, x, l, lane)
  {
    LayerBounds(p, l);
    var w, t := LookedAt(p, x, l, lane), Touched(p, x, l, lane);
    forall k | 0 <= k < |w| ensures w[k] == t[k] {
      var shift := p.edges[p.offsets[l] + k].shift;
      assert t[k] == BitOf(p, x, p.offsets[l] + k, lane);
      if lane + shift < p.z { SmallMod(lane + shift, p.z); } else { WrapMod(lane + shift, p.z); }
    }
  }

  lemma WrapMod(a: nat, n: nat)
    requires n <= a < 2 * n
    ensures a % n == a - n
  {
    ModTurn(a - n, n);
    SmallMod(a - n, n);
  }

  /** A codeword is a word whose every check looks at an even number of ones. */
  lemma CodewordIffChecksEven(p: Params, x: seq<Word>)
    requires ParamsOk(p) && BlocksOk(x, p.z, p.nb)
    ensures Codeword(p, x) <==> forall l, lane :: 0 <= l < p.mb && 0 <= lane < p.z ==>
                                  !Parity(LookedAt(p, x, l, lane), |LookedAt(p, x, l, lane)|)
  {
    hide Check, Touched, Parity, LookedAt;
    forall l, lane | 0 <= l < p.mb && 0 <= lane < p.z ensures LookedAt(p, x, l, lane) == Touched(p, x, l, lane) {
      LookedAtIsTouched(p, x, l, lane);
    }
    if Codeword(p, x) {
      forall l, lane | 0 <= l < p.mb && 0 <= lane < p.z
        ensures !Parity(LookedAt(p, x, l, lane), |LookedAt(p, x, l, lane)|)
      {
        EvenChecks(p, x, l, lane);
      }
    }
    if forall l, lane :: 0 <= l < p.mb && 0 <= lane < p.z ==>
         !Parity(LookedAt(p, x, l, lane), |LookedAt(p, x, l, lane)|) {
      forall l, lane | 0 <= l < p.mb && 0 <= lane < p.z
        ensures !Parity(Touched(p, x, l, lane), |Touched(p, x, l, lane)|)
      {
        assert !Parity(LookedAt(p, x, l, lane), |LookedAt(p, x, l, lane)|);
      }
      EvenEverywhere(p, x);
    }
  }

  // ---- the decoder --------------------------------------------------------------------------------------------------

  datatype Outcome = Ok(iterations: nat) | InvalidParam | BufferTooSmall(required: nat, provided: nat)

  /** What a decode leaves behind: the state after the iterations used, of which only the last can have
      spelled a codeword, and stopping early means it did. */
  ghost predicate Decoded(p: Params, channel: seq<seq<int>>, iterations: nat, beta: int, clamp: int, used: nat,
                          app: seq<seq<int>>, hard: seq<Word>)
    requires ParamsOk(p) && Grid(channel, p.nb, p.z) && clamp >= 0
  {
    && used <= iterations && (iterations > 0 ==> used > 0)
    && app == Iterations(Start(p, channel, clamp), p, used, beta, clamp).app
    && hard == Hard(app)
    && (used < iterations ==> Codeword(p, hard))
    && forall n :: 1 <= n < used ==> !Codeword(p, Hard(Iterations(Start(p, channel, clamp), p, n, beta, clamp).app))
  }

  /** The message buffer holds the messages after the iterations used. */
  ghost predicate MessagesLeft(p: Params, channel: seq<seq<int>>, beta: int, clamp: int, used: nat, edgeR: array2<int>)
    requires ParamsOk(p) && Grid(channel, p.nb, p.z) && clamp >= 0
    reads edgeR
  {
    Shows(edgeR, Iterations(Start(p, channel, clamp), p, used, beta, clamp).r)
  }

  method ClampChannel(app: array2<int>, clamp: int, ghost p: Params, ghost channel: seq<seq<int>>)
    requires Grid(channel, p.nb, p.z) && Shows(app, channel) && app.Length0 == p.nb && app.Length1 == p.z && clamp >= 0
    modifies app
    ensures Shows(app, Start(p, channel, clamp).app)
  {
    var i := 0;
    while i < app.Length0
      invariant 0 <= i <= app.Length0
      invariant forall c, j :: 0 <= c < i && 0 <= j < app.Length1 ==> app[c, j] == Clamp(channel[c][j], clamp)
      invariant forall c, j :: i <= c < app.Length0 && 0 <= j < app.Length1 ==> app[c, j] == channel[c][j]
    {
      forall j | 0 <= j < app.Length1 { app[i, j] := Clamp(app[i, j], clamp); }
      i := i + 1;
    }
  }

  /** The posteriors as a grid value. */
  ghost function Contents(a: array2<int>): (g: seq<seq<int>>)
    reads a
    ensures Grid(g, a.Length0, a.Length1) && Shows(a, g)
  {
    seq(a.Length0, i requires 0 <= i < a.Length0 reads a => RowOf(a, i))
  }

  ghost function RowOf(a: array2<int>, i: nat): (r: seq<int>)
    requires i < a.Length0
    reads a
    ensures |r| == a.Length1 && forall j :: 0 <= j < |r| ==> r[j] == a[i, j]
  {
    seq(a.Length1, j requires 0 <= j < a.Length1 reads a => a[i, j])
  }

  lemma ShowsSame(a: array2<int>, g: seq<seq<int>>)
    requires Shows(a, g) && Grid(g, a.Length0, a.Length1)
    ensures Contents(a) == g
  {
    forall i | 0 <= i < |g| ensures Contents(a)[i] == g[i] {}
  }

  /** Edges in the largest of the first n layers: `max_layer_degree` at n = mb. */
  function LargestLayer(p: Params, n: nat): (d: nat)
    requires ParamsOk(p) && n <= p.mb
    ensures forall l :: 0 <= l < n ==> p.offsets[l + 1] - p.offsets[l] <= d
    ensures n == 0 ==> d == 0
    ensures n > 0 ==> exists l :: 0 <= l < n && p.offsets[l + 1] - p.offsets[l] == d
  {
    if n == 0 then 0 else
      LayerBounds(p, n - 1);
      var here: nat := p.offsets[n] - p.offsets[n - 1];
      var below := LargestLayer(p, n - 1);
      if here > below then (assert p.offsets[n - 1 + 1] - p.offsets[n - 1] == here; here)
      else (assert n == 1 ==> p.offsets[0 + 1] - p.offsets[0] == below; below)
  }

  function Cells(rows: nat, z: nat): nat {
    rows * z
  }

  /** What the length checks answer, in the order in which they are made. */
  ghost predicate Checked(p: Params, app: array2<int>, hard: array2<bool>, edgeR: array2<int>, scratch: array2<int>,
                          r: Outcome)
    requires ParamsOk(p)
  {
    if app.Length0 != p.nb || hard.Length0 != p.nb || hard.Length1 != p.z then r == Outcome.InvalidParam
    else if edgeR.Length0 < |p.edges| then r == BufferTooSmall(Cells(|p.edges|, p.z), Cells(edgeR.Length0, p.z))
    else if scratch.Length0 < LargestLayer(p, p.mb) then
      r == BufferTooSmall(Cells(LargestLayer(p, p.mb), p.z), Cells(scratch.Length0, p.z))
    else r.Ok?
  }

  method DecodeLayered(p: Params, app: array2<int>, edgeR: array2<int>, scratch: array2<int>, hard: array2<bool>,
                       iterations: nat, beta: int, appClamp: int) returns (r: Outcome)
    requires ParamsOk(p) && 0 <= beta <= MSG_MAX && appClamp <= I16_MAX
    requires app.Length1 == edgeR.Length1 == scratch.Length1 == p.z
    requires app != edgeR && app != scratch && edgeR != scratch
    modifies app, edgeR, scratch, hard
    ensures Checked(p, app, hard, edgeR, scratch, r)
    ensures !r.Ok? ==> Contents(app) == old(Contents(app)) && HardOf(hard) == old(HardOf(hard))
    ensures r.Ok? ==> app.Length0 == p.nb
                      && Decoded(p, old(Contents(app)), iterations, beta, Max(appClamp, 0), r.iterations,
                                 Contents(app), HardOf(hard))
                      && MessagesLeft(p, old(Contents(app)), beta, Max(appClamp, 0), r.iterations, edgeR)
  {
    hide ParamsOk, Decoded, MessagesLeft, Contents;
    if app.Length0 != p.nb || hard.Length0 != p.nb || hard.Length1 != p.z {
      return Outcome.InvalidParam;
    }
    if edgeR.Length0 < |p.edges| {
      return BufferTooSmall(Cells(|p.edges|, p.z), Cells(edgeR.Length0, p.z));
    }
    var layerRows := LargestLayer(p, p.mb);
    if scratch.Length0 < layerRows {
      return BufferTooSmall(Cells(layerRows, p.z), Cells(scratch.Length0, p.z));
    }
    var used := RunIterations(p, app, edgeR, scratch, hard, iterations, beta, Max(appClamp, 0));
    return Outcome.Ok(used);
  }

  /** The iteration loop, on buffers of sufficient length. */
  method RunIterations(p: Params, app: array2<int>, edgeR: array2<int>, scratch: array2<int>, hard: array2<bool>,
                       iterations: nat, beta: int, clamp: int) returns (used: nat)
    requires ParamsOk(p) && 0 <= beta <= MSG_MAX && 0 <= clamp <= I16_MAX
    requires app.Length1 == edgeR.Length1 == scratch.Length1 == p.z
    requires app != edgeR && app != scratch && edgeR != scratch
    requires app.Length0 == p.nb && hard.Length0 == p.nb && hard.Length1 == p.z
    requires forall l :: 0 <= l < p.mb ==> p.offsets[l + 1] - p.offsets[l] <= scratch.Length0
    requires edgeR.Length0 >= |p.edges|
    modifies app, edgeR, scratch, hard
    ensures Decoded(p, old(Contents(app)), iterations, beta, clamp, used, Contents(app), HardOf(hard))
    ensures MessagesLeft(p, old(Contents(app)), beta, clamp, used, edgeR)
  {
    hide Shows, Layers, Iterations, LayerStep, Start, Codeword, Hard, Messages, Smallest, Second, SignXor, Contents;
    ghost var channel := Contents(app);
    forall i, j | 0 <= i < |p.edges| && 0 <= j < edgeR.Length1 { edgeR[i, j] := 0; }
    ClampChannel(app, clamp, p, channel);
    ghost var s0 := Start(p, channel, clamp);
    StartShown(p, channel, clamp, edgeR);
    var min1, min2, sxor := new int[p.z](_ => MSG_MAX), new int[p.z](_ => MSG_MAX), new bool[p.z](_ => false);
    used := 0;
    ghost var now := s0;
    NoIterations(s0, p, beta, clamp);
    while used < iterations
      invariant 0 <= used <= iterations && Grid(now.app, p.nb, p.z) && Grid(now.r, |p.edges|, p.z)
      invariant now == Iterations(s0, p, used, beta, clamp) && Shows(app, now.app) && Shows(edgeR, now.r)
      invariant forall n :: 1 <= n <= used ==> !Codeword(p, Hard(Iterations(s0, p, n, beta, clamp).app))
    {
      used := used + 1;
      ghost var st := now;
      NoLayers(st, p, beta, clamp);
      var layer := 0;
      while layer < p.mb
        invariant 0 <= layer <= p.mb && Grid(now.app, p.nb, p.z) && Grid(now.r, |p.edges|, p.z)
        invariant now == Layers(st, p, layer, beta, clamp) && Shows(app, now.app) && Shows(edgeR, now.r)
      {
        BuildMessages(p, layer, app, edgeR, scratch, now);
        PassOne(p, layer, scratch, min1, min2, sxor, now);
        PassTwo(p, layer, scratch, min1, min2, sxor, app, edgeR, beta, clamp, now);
        NextLayer(st, p, layer, beta, clamp);
        now := LayerStep(now, p, layer, beta, clamp);
        layer := layer + 1;
      }
      NextIteration(s0, p, used - 1, beta, clamp);
      var ok := CheckSyndrome(p, app, now.app);
      if ok {
        break;
      }
    }
    WriteHard(app, hard, now.app);
    ShowsSame(app, now.app);
  }

  ghost function HardOf(hard: array2<bool>): (x: seq<Word>)
    reads hard
    ensures |x| == hard.Length0 && forall c :: 0 <= c < |x| ==> |x[c]| == hard.Length1
    ensures forall c, j :: 0 <= c < hard.Length0 && 0 <= j < hard.Length1 ==> x[c][j] == hard[c, j]
  {
    seq(hard.Length0, i requires 0 <= i < hard.Length0 reads hard => HardLane(hard, i))
  }

  ghost function HardLane(hard: array2<bool>, i: nat): (w: Word)
    requires i < hard.Length0
    reads hard
    ensures |w| == hard.Length1 && forall j :: 0 <= j < |w| ==> w[j] == hard[i, j]
  {
    seq(hard.Length1, j requires 0 <= j < hard.Length1 reads hard => hard[i, j])
  }

  method WriteHard(app: array2<int>, hard: array2<bool>, ghost g: seq<seq<int>>)
    requires Shows(app, g) && Grid(g, app.Length0, app.Length1)
    requires hard.Length0 == app.Length0 && hard.Length1 == app.Length1
    modifies hard
    ensures HardOf(hard) == Hard(g)
  {
    forall i, j | 0 <= i < hard.Length0 && 0 <= j < hard.Length1 { hard[i, j] := app[i, j] < 0; }
    forall c | 0 <= c < |g| ensures HardOf(hard)[c] == Hard(g)[c] {
      forall j | 0 <= j < |g[c]| ensures HardOf(hard)[c][j] == Hard(g)[c][j] {}
    }
  }

  lemma StartShown(p: Params, channel: seq<seq<int>>, clamp: int, edgeR: array2<int>)
    requires Grid(channel, p.nb, p.z) && clamp >= 0 && edgeR.Length0 >= |p.edges| && edgeR.Length1 == p.z
    requires forall i, j :: 0 <= i < |p.edges| && 0 <= j < edgeR.Length1 ==> edgeR[i, j] == 0
    ensures Shows(edgeR, Start(p, channel, clamp).r)
  {
  }

  lemma NoIterations(st: State, p: Params, beta: int, clamp: int)
    requires ParamsOk(p) && Grid(st.app, p.nb, p.z) && Grid(st.r, |p.edges|, p.z)
    ensures Iterations(st, p, 0, beta, clamp) == st
  {
  }

  lemma NoLayers(st: State, p: Params, beta: int, clamp: int)
    requires ParamsOk(p) && Grid(st.app, p.nb, p.z) && Grid(st.r, |p.edges|, p.z)
    ensures Layers(st, p, 0, beta, clamp) == st
  {
  }

  lemma NextLayer(st: State, p: Params, n: nat, beta: int, clamp: int)
    requires ParamsOk(p) && Grid(st.app, p.nb, p.z) && Grid(st.r, |p.edges|, p.z) && n < p.mb
    ensures Layers(st, p, n + 1, beta, clamp) == LayerStep(Layers(st, p, n, beta, clamp), p, n, beta, clamp)
  {
  }

  lemma NextIteration(st: State, p: Params, n: nat, beta: int, clamp: int)
    requires ParamsOk(p) && Grid(st.app, p.nb, p.z) && Grid(st.r, |p.edges|, p.z)
    ensures Iterations(st, p, n + 1, beta, clamp) == Layers(Iterations(st, p, n, beta, clamp), p, p.mb, beta, clamp)
  {
  }

  // ---- what a decode guarantees -----------------------------------------------------------------

  /** Input that already spells a codeword, with no zero posterior, stops after one iteration with exactly
      that codeword. */
  lemma CleanCodewordStops(p: Params, x: seq<Word>, channel: seq<seq<int>>, iterations: nat, beta: int, clamp: int,
                           used: nat, app: seq<seq<int>>, hard: seq<Word>)
    requires Codeword(p, x) && Spells(p, x, channel) && 1 <= clamp <= I16_MAX && iterations >= 1
    requires Decoded(p, channel, iterations, beta, clamp, used, app, hard)
    ensures used == 1 && hard == x
  {
    hide Iterations, Codeword, Start;
    CleanCodewordStays(p, x, channel, beta, clamp);
  }

  /** A filler bit decodes to zero whenever its messages cannot take away more than the clamp. */
  lemma FillerDecodesToZero(p: Params, channel: seq<seq<int>>, c: nat, j: nat, iterations: nat, beta: int, clamp: int,
                            used: nat, app: seq<seq<int>>, hard: seq<Word>)
    requires ParamsOk(p) && p.mb > 0 && Grid(channel, p.nb, p.z) && 0 <= clamp <= I16_MAX && 0 <= beta <= MSG_MAX
    requires c < p.nb && j < p.z && channel[c][j] == clamp >= 2 * MSG_MAX * Degree(p, c, |p.edges|)
    requires Decoded(p, channel, iterations, beta, clamp, used, app, hard)
    ensures app[c][j] >= 0 && !hard[c][j] && (clamp > 2 * MSG_MAX * Degree(p, c, |p.edges|) ==> app[c][j] > 0)
  {
    hide Iterations, Codeword, Start, Moment, Degree;
    FillerIsNeverOverturned(p, channel, c, j, used, 0, 0, beta, clamp);
    MomentIsIteration(p, channel, used, beta, clamp);
  }

  lemma MomentIsIteration(p: Params, channel: seq<seq<int>>, n: nat, beta: int, clamp: int)
    requires ParamsOk(p) && p.mb > 0 && Grid(channel, p.nb, p.z) && clamp >= 0
    ensures Moment(Start(p, channel, clamp), p, n, 0, 0, beta, clamp)
         == Iterations(Start(p, channel, clamp), p, n, beta, clamp)
  {
    hide Iterations, Start;
    NoLayers(Iterations(Start(p, channel, clamp), p, n, beta, clamp), p, beta, clamp);
  }

  // ---- the 5G wrapper ---------------------------------------------------------------------------

  /** Filler positions pinned at the clamp, then the two punctured column blocks erased. */
  function Prepared(p: Params, kb: nat, channel: seq<seq<int>>, nFiller: nat, clamp: int): (g: seq<seq<int>>)
    requires Grid(channel, p.nb, p.z) && kb <= p.nb
    ensures Grid(g, p.nb, p.z)
  {
    seq(p.nb, c requires 0 <= c < p.nb => PreparedRow(p, kb, channel, nFiller, clamp, c))
  }

  function PreparedRow(p: Params, kb: nat, channel: seq<seq<int>>, nFiller: nat, clamp: int, c: nat): (r: seq<int>)
    requires Grid(channel, p.nb, p.z) && c < p.nb
    ensures |r| == p.z
  {
    seq(p.z, j requires 0 <= j < p.z =>
          if c < 2 then 0 else if IsFiller(p, kb, nFiller, c, j) then clamp else channel[c][j])
  }

  /** Position c z + j lies in [K', K). */
  predicate IsFiller(p: Params, kb: nat, nFiller: nat, c: nat, j: nat) {
    c < kb && c * p.z + j >= kb * p.z - nFiller
  }

  method Decode5g(p: Params, kb: nat, app: array2<int>, nFiller: nat, edgeR: array2<int>, scratch: array2<int>,
                  hard: array2<bool>, iterations: nat, beta: int, appClamp: int) returns (r: Outcome)
    requires ParamsOk(p) && p.nb == kb + p.mb && 2 <= p.nb && 0 <= beta <= MSG_MAX && appClamp <= I16_MAX
    requires app.Length1 == edgeR.Length1 == scratch.Length1 == p.z
    requires app != edgeR && app != scratch && edgeR != scratch
    modifies app, edgeR, scratch, hard
    ensures Checked(p, app, hard, edgeR, scratch, r)
    ensures app.Length0 != p.nb ==> Contents(app) == old(Contents(app))
    ensures app.Length0 == p.nb && !r.Ok? ==>
              Contents(app) == Prepared(p, kb, old(Contents(app)), nFiller, Max(appClamp, 0))
    ensures !r.Ok? ==> HardOf(hard) == old(HardOf(hard))
    ensures r.Ok? ==> app.Length0 == p.nb
                      && Decoded(p, Prepared(p, kb, old(Contents(app)), nFiller, Max(appClamp, 0)), iterations, beta,
                                 Max(appClamp, 0), r.iterations, Contents(app), HardOf(hard))
                      && MessagesLeft(p, Prepared(p, kb, old(Contents(app)), nFiller, Max(appClamp, 0)), beta,
                                      Max(appClamp, 0), r.iterations, edgeR)
  {
    hide Decoded, Codeword, Shows, MessagesLeft;
    if app.Length0 != p.nb {
      return Outcome.InvalidParam;
    }
    ghost var channel := Contents(app);
    var fillerApp := Max(appClamp, 0);
    Prepare(p, kb, app, nFiller, fillerApp, channel);
    r := DecodeLayered(p, app, edgeR, scratch, hard, iterations, beta, appClamp);
  }

  method Prepare(p: Params, kb: nat, app: array2<int>, nFiller: nat, clamp: int, ghost channel: seq<seq<int>>)
    requires kb <= p.nb && 2 <= p.nb && app.Length0 == p.nb && app.Length1 == p.z && Grid(channel, p.nb, p.z)
    requires Shows(app, channel)
    modifies app
    ensures Contents(app) == Prepared(p, kb, channel, nFiller, clamp)
  {
    forall c, j | 0 <= c < app.Length0 && 0 <= j < app.Length1 && IsFiller(p, kb, nFiller, c, j) { app[c, j] := clamp; }
    forall c, j | 0 <= c < 2 && 0 <= j < app.Length1 { app[c, j] := 0; }
    ghost var g := Prepared(p, kb, channel, nFiller, clamp);
    forall c | 0 <= c < p.nb ensures Contents(app)[c] == g[c] {
      forall j | 0 <= j < p.z ensures Contents(app)[c][j] == g[c][j] {}
    }
  }

  /** Through the wrapper, every filler bit outside the punctured blocks decodes to zero. */
  lemma WrapperKeepsFillers(p: Params, kb: nat, channel: seq<seq<int>>, nFiller: nat, c: nat, j: nat,
                            iterations: nat, beta: int, clamp: int, used: nat, app: seq<seq<int>>, hard: seq<Word>)
    requires ParamsOk(p) && p.mb > 0 && p.nb == kb + p.mb && Grid(channel, p.nb, p.z)
    requires 0 <= clamp <= I16_MAX && 0 <= beta <= MSG_MAX
    requires 2 <= c < p.nb && j < p.z && IsFiller(p, kb, nFiller, c, j)
    requires clamp >= 2 * MSG_MAX * Degree(p, c, |p.edges|)
    requires Decoded(p, Prepared(p, kb, channel, nFiller, clamp), iterations, beta, clamp, used, app, hard)
    ensures !hard[c][j]
  {
    hide Decoded, Codeword, Degree;
    assert Prepared(p, kb, channel, nFiller, clamp)[c][j] == clamp;
    FillerDecodesToZero(p, Prepared(p, kb, channel, nFiller, clamp), c, j, iterations, beta, clamp, used, app, hard);
  }

  // ---- encoder and decoder together -------------------------------------------------------------

  /** Whatever the sparse encoder produces under its hypotheses, sent without error at any non-zero
      confidences, is returned after one iteration. */
  lemma EncodeThenDecode(p: Params, kb: nat, l: CoreLayout, b: seq<Word>, channel: seq<seq<int>>, iterations: nat,
                         beta: int, clamp: int, used: nat, app: seq<seq<int>>, hard: seq<Word>)
    requires ParamsOk(p) && p.nb == kb + p.mb && Derived(p, kb, l) && Encoded(p, kb, l, b)
    requires PairedShifts(l) && CoreRowsStayInside(p, kb)
    requires Spells(p, b, channel) && 1 <= clamp <= I16_MAX && iterations >= 1
    requires Decoded(p, channel, iterations, beta, clamp, used, app, hard)
    ensures used == 1 && hard == b
  {
    hide Decoded, Solves, SumWhere, Check, Derived;
    EncodedIsCodeword(p, kb, l, b);
    CleanCodewordStops(p, b, channel, iterations, beta, clamp, used, app, hard);
  }
}
