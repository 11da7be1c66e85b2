/** The 5G wrapper around the fixed-point decoder: which positions it overwrites, what it cannot depend on,
    and that over a channel that only erases and weakens, no posterior ever contradicts the sent codeword. */
module LdpcWrapper {
  import opened Bits
  import opened LdpcGraph
  import opened LdpcEncoder
  import opened LdpcMinSum
  import opened LdpcLayers
  import opened LdpcSymmetry
  import opened LdpcDecoder

  // ---- by position in the codeword ---------------------------------------------------------------------------

  /** Position c z + j lies before block b exactly when c does. */
  lemma BeforeBlock(c: nat, j: nat, z: nat, b: nat)
    requires j < z
    ensures c * z + j < b * z <==> c < b
  {
    if c < b { BlocksInOrder(c + 1, b, z); } else { BlocksInOrder(b, c, z); }
    assert (c + 1) * z == c * z + z;
  }

  lemma BlocksInOrder(a: nat, b: nat, z: nat)
    requires a <= b
    ensures a * z <= b * z
  {
    assert (b - a) * z >= 0;
    assert (b - a) * z == b * z - a * z;
  }

  /** A position that carries a received value: neither punctured nor filler. */
  predicate Carries(z: nat, kb: nat, nFiller: nat, i: nat) {
    2 * z <= i && !(kb * z - nFiller <= i < kb * z)
  }

  /** The first 2 z positions are erased, positions kb z - nFiller to kb z - 1 beyond them pinned at the clamp,
      and every other position keeps its channel value. */
  lemma PreparedByPosition(p: Params, kb: nat, channel: seq<seq<int>>, nFiller: nat, clamp: int, c: nat, j: nat)
    requires Grid(channel, p.nb, p.z) && kb <= p.nb && c < p.nb && j < p.z
    ensures var i, v := c * p.z + j, Prepared(p, kb, channel, nFiller, clamp)[c][j];
            && (i < 2 * p.z ==> v == 0)
            && (2 * p.z <= i && kb * p.z - nFiller <= i < kb * p.z ==> v == clamp)
            && (Carries(p.z, kb, nFiller, i) ==> v == channel[c][j])
  {
    BeforeBlock(c, j, p.z, 2);
    BeforeBlock(c, j, p.z, kb);
  }

  /** What the decoder leaves is fixed by its input. */
  lemma DecodedOnce(p: Params, channel: seq<seq<int>>, iterations: nat, beta: int, clamp: int,
                    used: nat, app: seq<seq<int>>, hard: seq<Word>, used': nat, app': seq<seq<int>>, hard': seq<Word>)
    requires ParamsOk(p) && Grid(channel, p.nb, p.z) && clamp >= 0
    requires Decoded(p, channel, iterations, beta, clamp, used, app, hard)
    requires Decoded(p, channel, iterations, beta, clamp, used', app', hard')
    ensures used == used' && app == app' && hard == hard'
  {
    hide Iterations, Start, Codeword;
  }

  /** Values received for punctured and filler positions change nothing. */
  lemma WrapperIgnores(p: Params, kb: nat, channel: seq<seq<int>>, channel': seq<seq<int>>, nFiller: nat,
                       iterations: nat, beta: int, clamp: int,
                       used: nat, app: seq<seq<int>>, hard: seq<Word>,
                       used': nat, app': seq<seq<int>>, hard': seq<Word>)
    requires ParamsOk(p) && Grid(channel, p.nb, p.z) && Grid(channel', p.nb, p.z) && kb <= p.nb && clamp >= 0
    requires forall c, j :: 0 <= c < p.nb && 0 <= j < p.z && Carries(p.z, kb, nFiller, c * p.z + j) ==>
               channel[c][j] == channel'[c][j]
    requires Decoded(p, Prepared(p, kb, channel, nFiller, clamp), iterations, beta, clamp, used, app, hard)
    requires Decoded(p, Prepared(p, kb, channel', nFiller, clamp), iterations, beta, clamp, used', app', hard')
    ensures used == used' && app == app' && hard == hard'
  {
    hide Decoded, PreparedRow;
    var g, g' := Prepared(p, kb, channel, nFiller, clamp), Prepared(p, kb, channel', nFiller, clamp);
    forall c | 0 <= c < p.nb ensures g[c] == g'[c] {
      forall j | 0 <= j < p.z ensures g[c][j] == g'[c][j] {
        PreparedByPosition(p, kb, channel, nFiller, clamp, c, j);
        PreparedByPosition(p, kb, channel', nFiller, clamp, c, j);
      }
    }
    assert g == g';
    DecodedOnce(p, g, iterations, beta, clamp, used, app, hard, used', app', hard');
  }

  // ---- erasures and weak values never mislead ------------------------------------------------------------------

  /** No value points away from the bit of x. */
  ghost predicate AllLean(p: Params, x: seq<Word>, app: seq<seq<int>>)
    requires BlocksOk(x, p.z, p.nb)
  {
    Grid(app, p.nb, p.z) && forall c, j :: 0 <= c < p.nb && 0 <= j < p.z ==> Leans(app[c][j], x[c][j])
  }

  /** No message points away from the bit it goes to. */
  ghost predicate MessagesLean(p: Params, x: seq<Word>, r: seq<seq<int>>)
    requires ParamsOk(p) && BlocksOk(x, p.z, p.nb)
  {
    Grid(r, |p.edges|, p.z)
    && forall e, k :: 0 <= e < |p.edges| && 0 <= k < p.z ==> Leans(r[e][k], BitOf(p, x, e, k))
  }

  /** Check-node update with erasures: if no input points away from the bits of a satisfied check, no output
      does. */
  lemma NewRLeans(q: seq<int>, x: seq<bool>, e: nat, beta: int)
    requires |q| == |x| && e < |q| && InRange(q) && !Parity(x, |x|) && 0 <= beta
    requires forall k :: 0 <= k < |q| ==> Leans(q[k], x[k])
    ensures Leans(NewR(q, e, beta), x[e])
  {
    hide Abs;
    ExcludeSelf(q, e, beta);
    ParitySplit(x, e, |x|);
    if |q| == 1 {
      assert ParityWithout(x, e, 0) == false;
    } else if forall k :: 0 <= k < |q| && k != e ==> q[k] != 0 {
      LeaningSign(q, x, e, |q|);
    } else {
      var k :| 0 <= k < |q| && k != e && q[k] == 0;
      OthersMinBound(q, e, |q|);
      ZeroMagnitude(q[k]);
    }
  }

  lemma ZeroMagnitude(v: int)
    ensures v == 0 <==> Abs(v) == 0
  {
  }

  lemma {:induction false} LeaningSign(q: seq<int>, x: seq<bool>, e: nat, n: nat)
    requires |q| == |x| && n <= |q| && forall k :: 0 <= k < |q| ==> Leans(q[k], x[k]) && (k != e ==> q[k] != 0)
    ensures OthersSign(q, e, n) == ParityWithout(x, e, n)
  {
    if n > 0 { LeaningSign(q, x, e, n - 1); }
  }

  /** The sum of leaning messages into a cell leans. */
  lemma {:induction false} IncidentLeans(p: Params, x: seq<Word>, r: seq<seq<int>>, c: nat, j: nat, n: nat)
    requires ParamsOk(p) && BlocksOk(x, p.z, p.nb) && MessagesLean(p, x, r) && c < p.nb && j < p.z && n <= |p.edges|
    ensures Leans(Incident(p, r, c, j, n), x[c][j])
  {
    hide LaneOf, VarLane;
    if n > 0 {
      IncidentLeans(p, x, r, c, j, n - 1);
      if p.edges[n - 1].col == c {
        var k := LaneOf(j, p.edges[n - 1].shift, p.z);
        assert BitOf(p, x, n - 1, k) == x[c][j];
        assert Leans(r[n - 1][k], BitOf(p, x, n - 1, k));
      }
    }
  }

  /** Every cell is either pinned at a clamp that covers its degree, or a quantized value with room above it. */
  ghost predicate CellRoom(p: Params, channel: seq<seq<int>>, clamp: int, c: nat, j: nat)
    requires Grid(channel, p.nb, p.z) && c < p.nb && j < p.z
  {
    if channel[c][j] == clamp then MSG_MAX * Degree(p, c, |p.edges|) <= clamp
    else -MSG_MAX <= channel[c][j] <= MSG_MAX && MSG_MAX * (1 + Degree(p, c, |p.edges|)) <= clamp
  }

  ghost predicate Roomy(p: Params, channel: seq<seq<int>>, clamp: int) {
    && Grid(channel, p.nb, p.z) && 1 <= clamp <= I16_MAX
    && forall c, j :: 0 <= c < p.nb && 0 <= j < p.z ==> CellRoom(p, channel, clamp, c, j)
  }

  /** A pinned cell has lost no more than its messages account for; any other is an exact sum. */
  ghost predicate CellFollows(p: Params, channel: seq<seq<int>>, clamp: int, c: nat, j: nat, st: State)
    requires ParamsOk(p) && Grid(channel, p.nb, p.z) && c < p.nb && j < p.z
    requires Grid(st.app, p.nb, p.z) && Grid(st.r, |p.edges|, p.z)
  {
    var sum := Incident(p, st.r, c, j, |p.edges|);
    if channel[c][j] == clamp then st.app[c][j] >= clamp - MSG_MAX * Degree(p, c, |p.edges|) + sum
    else st.app[c][j] == channel[c][j] + sum
  }

  ghost predicate Follows(p: Params, channel: seq<seq<int>>, clamp: int, st: State)
    requires ParamsOk(p) && Grid(channel, p.nb, p.z)
  {
    && Grid(st.app, p.nb, p.z) && Grid(st.r, |p.edges|, p.z)
    && forall c, j :: 0 <= c < p.nb && 0 <= j < p.z ==> CellFollows(p, channel, clamp, c, j, st)
  }

  lemma CellKeepsFollowing(p: Params, channel: seq<seq<int>>, clamp: int, st: State, e: nat, row: seq<int>,
                           c: nat, j: nat)
    requires ParamsOk(p) && Roomy(p, channel, clamp) && StateOk(p, clamp, st) && Follows(p, channel, clamp, st)
    requires e < |p.edges| && RowBounded(row, p.z) && c < p.nb && j < p.z
    ensures CellFollows(p, channel, clamp, c, j, EdgeStep(st, p, e, row, clamp))
  {
    hide LaneOf, Degree, Incident, SaturatingAdd, Kept;
    assert CellRoom(p, channel, clamp, c, j) && CellFollows(p, channel, clamp, c, j, st);
    var st' := EdgeStep(st, p, e, row, clamp);
    IncidentStep(p, st.r, e, row, c, j, |p.edges|);
    BoundedStep(p, st.r, e, row);
    IncidentBound(p, st'.r, c, j, |p.edges|);
    if c == p.edges[e].col {
      var k := LaneOf(j, p.edges[e].shift, p.z);
      UpdateIsClamp(st.app[c][j], row[k] - st.r[e][k], clamp);
    } else {
      assert st'.app[c] == st.app[c];
    }
  }

  lemma FollowingIsKept(p: Params, channel: seq<seq<int>>, clamp: int)
    requires ParamsOk(p) && Roomy(p, channel, clamp)
    ensures Kept(st => Follows(p, channel, clamp, st), p, clamp)
  {
    hide EdgeStep, RowBounded, CellFollows, Bounded, CellRoom;
    forall st, e: nat, row | e < |p.edges| && |row| == p.z && RowBounded(row, p.z) && StateOk(p, clamp, st)
        && Follows(p, channel, clamp, st)
      ensures Follows(p, channel, clamp, EdgeStep(st, p, e, row, clamp))
    {
      forall c, j | 0 <= c < p.nb && 0 <= j < p.z
        ensures CellFollows(p, channel, clamp, c, j, EdgeStep(st, p, e, row, clamp))
      {
        CellKeepsFollowing(p, channel, clamp, st, e, row, c, j);
      }
    }
  }

  /** Everything the induction carries. */
  ghost predicate Honest(p: Params, x: seq<Word>, channel: seq<seq<int>>, clamp: int, st: State)
    requires ParamsOk(p) && BlocksOk(x, p.z, p.nb) && Grid(channel, p.nb, p.z)
  {
    StateOk(p, clamp, st) && Follows(p, channel, clamp, st) && MessagesLean(p, x, st.r)
  }

  lemma HonestCell(p: Params, x: seq<Word>, channel: seq<seq<int>>, clamp: int, st: State, c: nat, j: nat,
                   r: seq<seq<int>>)
    requires ParamsOk(p) && BlocksOk(x, p.z, p.nb) && Roomy(p, channel, clamp) && AllLean(p, x, channel)
    requires Honest(p, x, channel, clamp, st) && MessagesLean(p, x, r) && c < p.nb && j < p.z
    ensures Leans(st.app[c][j] - Incident(p, st.r, c, j, |p.edges|) + Incident(p, r, c, j, |p.edges|), x[c][j])
  {
    hide Incident, Degree, BitOf, Bounded;
    IncidentLeans(p, x, r, c, j, |p.edges|);
    assert CellRoom(p, channel, clamp, c, j) && CellFollows(p, channel, clamp, c, j, st);
    assert Leans(channel[c][j], x[c][j]);
  }

  /** Leaving out one message is setting its row to zero. */
  lemma MessageLeans(p: Params, x: seq<Word>, channel: seq<seq<int>>, clamp: int, st: State, e: nat, k: nat)
    requires ParamsOk(p) && BlocksOk(x, p.z, p.nb) && Roomy(p, channel, clamp) && AllLean(p, x, channel)
    requires Honest(p, x, channel, clamp, st) && e < |p.edges| && k < p.z
    ensures Leans(Message(st, p, e, k), BitOf(p, x, e, k))
  {
    hide Incident, Degree, Bounded, Roomy, Follows;
    var zero: seq<int> := seq(p.z, _ => 0);
    var r := st.r[e := zero];
    var c, j := p.edges[e].col, VarLane(k, p.edges[e].shift, p.z);
    assert LaneOf(j, p.edges[e].shift, p.z) == k;
    IncidentStep(p, st.r, e, zero, c, j, |p.edges|);
    assert MessagesLean(p, x, r) by {
      forall f, i | 0 <= f < |p.edges| && 0 <= i < p.z ensures Leans(r[f][i], BitOf(p, x, f, i)) {
        assert Leans(st.r[f][i], BitOf(p, x, f, i));
      }
    }
    HonestCell(p, x, channel, clamp, st, c, j, r);
  }

  lemma RowLeansToo(p: Params, x: seq<Word>, channel: seq<seq<int>>, clamp: int, st: State, l: nat, k: nat, beta: int)
    requires Codeword(p, x) && Roomy(p, channel, clamp) && AllLean(p, x, channel) && Honest(p, x, channel, clamp, st)
    requires l < p.mb && k < p.offsets[l + 1] - p.offsets[l] && 0 <= beta
    ensures p.offsets[l] + k < |p.edges|
    ensures forall lane :: 0 <= lane < p.z ==>
              Leans(NewRow(st, p, l, k, beta)[lane], BitOf(p, x, p.offsets[l] + k, lane))
  {
    hide NewR, Messages, Check, Parity, Message, BitOf, Follows, Bounded, Roomy, MessagesLean, AllLean;
    LayerBounds(p, l);
    forall lane | 0 <= lane < p.z ensures Leans(NewRow(st, p, l, k, beta)[lane], BitOf(p, x, p.offsets[l] + k, lane)) {
      var q, w := Messages(st, p, l, lane), Touched(p, x, l, lane);
      forall i | 0 <= i < |q| ensures Leans(q[i], w[i]) {
        MessageAt(st, p, l, lane, i);
        MessageLeans(p, x, channel, clamp, st, p.offsets[l] + i, lane);
      }
      MessagesInRange(st, p, l, lane);
      EvenChecks(p, x, l, lane);
      NewRLeans(q, w, k, beta);
    }
  }

  lemma {:induction false} EdgesStayHonest(p: Params, x: seq<Word>, channel: seq<seq<int>>, clamp: int, st: State,
                                           l: nat, n: nat, beta: int)
    requires Codeword(p, x) && Roomy(p, channel, clamp) && AllLean(p, x, channel) && Honest(p, x, channel, clamp, st)
    requires l < p.mb && n <= p.offsets[l + 1] - p.offsets[l] && 0 <= beta <= MSG_MAX
    ensures Honest(p, x, channel, clamp, LayerEdges(st, p, l, n, beta, clamp))
    decreases n
  {
    hide NewRow, Check, BitOf, Follows, StateOk, Roomy, AllLean, Kept, Codeword;
    CodewordShape(p, x);
    HonestGrids(p, x, channel, clamp, st);
    FollowingIsKept(p, channel, clamp);
    EdgesKeep(s => Follows(p, channel, clamp, s), st, p, l, n, beta, clamp);
    if n > 0 {
      EdgesStayHonest(p, x, channel, clamp, st, l, n - 1, beta);
      RowLeansToo(p, x, channel, clamp, st, l, n - 1, beta);
    }
  }

  lemma CodewordShape(p: Params, x: seq<Word>)
    requires Codeword(p, x)
    ensures ParamsOk(p) && BlocksOk(x, p.z, p.nb)
  {
  }

  lemma HonestGrids(p: Params, x: seq<Word>, channel: seq<seq<int>>, clamp: int, st: State)
    requires ParamsOk(p) && BlocksOk(x, p.z, p.nb) && Roomy(p, channel, clamp) && Honest(p, x, channel, clamp, st)
    ensures Grid(channel, p.nb, p.z) && Grid(st.app, p.nb, p.z) && Grid(st.r, |p.edges|, p.z) && 1 <= clamp <= I16_MAX
  {
  }

  lemma {:induction false} LayersStayHonest(p: Params, x: seq<Word>, channel: seq<seq<int>>, clamp: int, st: State,
                                            n: nat, beta: int)
    requires Codeword(p, x) && Roomy(p, channel, clamp) && AllLean(p, x, channel) && Honest(p, x, channel, clamp, st)
    requires n <= p.mb && 0 <= beta <= MSG_MAX
    ensures Grid(st.app, p.nb, p.z) && Grid(st.r, |p.edges|, p.z)
    ensures Honest(p, x, channel, clamp, Layers(st, p, n, beta, clamp))
    decreases n
  {
    hide LayerEdges, Check, Honest, Roomy, AllLean;
    HonestGrids(p, x, channel, clamp, st);
    if n > 0 {
      LayersStayHonest(p, x, channel, clamp, st, n - 1, beta);
      EdgesStayHonest(p, x, channel, clamp, Layers(st, p, n - 1, beta, clamp), n - 1,
                      p.offsets[n] - p.offsets[n - 1], beta);
    }
  }

  lemma {:induction false} IterationsStayHonest(p: Params, x: seq<Word>, channel: seq<seq<int>>, clamp: int, st: State,
                                                n: nat, beta: int)
    requires Codeword(p, x) && Roomy(p, channel, clamp) && AllLean(p, x, channel) && Honest(p, x, channel, clamp, st)
    requires 0 <= beta <= MSG_MAX
    ensures Grid(st.app, p.nb, p.z) && Grid(st.r, |p.edges|, p.z)
    ensures Honest(p, x, channel, clamp, Iterations(st, p, n, beta, clamp))
    decreases n
  {
    hide Layers, Check, Honest, Roomy, AllLean;
    HonestGrids(p, x, channel, clamp, st);
    if n > 0 {
      IterationsStayHonest(p, x, channel, clamp, st, n - 1, beta);
      LayersStayHonest(p, x, channel, clamp, Iterations(st, p, n - 1, beta, clamp), p.mb, beta);
    }
  }

  lemma StartIsHonest(p: Params, x: seq<Word>, channel: seq<seq<int>>, clamp: int)
    requires ParamsOk(p) && BlocksOk(x, p.z, p.nb) && Roomy(p, channel, clamp)
    ensures Honest(p, x, channel, clamp, Start(p, channel, clamp))
  {
    hide Incident, Degree, BitOf;
    var s := Start(p, channel, clamp);
    StartOk(p, channel, clamp);
    forall c, j | 0 <= c < p.nb && 0 <= j < p.z ensures CellFollows(p, channel, clamp, c, j, s) {
      IncidentStart(p, s.r, c, j, |p.edges|);
      assert CellRoom(p, channel, clamp, c, j);
    }
  }

  /** Erased, weakened and pinned inputs that nowhere point away from a codeword: after any number of
      iterations no message and no posterior does. */
  lemma NeverMisled(p: Params, x: seq<Word>, channel: seq<seq<int>>, n: nat, beta: int, clamp: int)
    requires Codeword(p, x) && Roomy(p, channel, clamp) && AllLean(p, x, channel) && 0 <= beta <= MSG_MAX
    ensures AllLean(p, x, Iterations(Start(p, channel, clamp), p, n, beta, clamp).app)
    ensures MessagesLean(p, x, Iterations(Start(p, channel, clamp), p, n, beta, clamp).r)
  {
    hide Iterations, Start, Incident, Check, CellRoom, Follows, Bounded;
    var s := Start(p, channel, clamp);
    StartIsHonest(p, x, channel, clamp);
    IterationsStayHonest(p, x, channel, clamp, s, n, beta);
    var t := Iterations(s, p, n, beta, clamp);
    forall c, j | 0 <= c < p.nb && 0 <= j < p.z ensures Leans(t.app[c][j], x[c][j]) {
      HonestCell(p, x, channel, clamp, t, c, j, t.r);
    }
  }

  // ---- through the wrapper ----------------------------------------------------------------------------------------

  /** Bits kb z - nFiller to kb z - 1 of x are zero. */
  ghost predicate FillersAreZero(p: Params, kb: nat, x: seq<Word>, nFiller: nat)
    requires BlocksOk(x, p.z, p.nb)
  {
    forall c, j :: 0 <= c < p.nb && 0 <= j < p.z && kb * p.z - nFiller <= c * p.z + j < kb * p.z ==> !x[c][j]
  }

  /** Where a value is received it does not point away from x, and fits a quantized message. */
  ghost predicate ReceivedLeans(p: Params, kb: nat, x: seq<Word>, channel: seq<seq<int>>, nFiller: nat)
    requires BlocksOk(x, p.z, p.nb)
  {
    Grid(channel, p.nb, p.z)
    && forall c, j :: 0 <= c < p.nb && 0 <= j < p.z && Carries(p.z, kb, nFiller, c * p.z + j) ==>
         Leans(channel[c][j], x[c][j]) && -MSG_MAX <= channel[c][j] <= MSG_MAX
  }

  ghost predicate ClampCovers(p: Params, clamp: int) {
    clamp <= I16_MAX && forall c :: 0 <= c < p.nb ==> MSG_MAX * (1 + Degree(p, c, |p.edges|)) <= clamp
  }

  /** No prepared cell contradicts a codeword whose filler bits are zero. */
  lemma PreparedLeans(p: Params, kb: nat, x: seq<Word>, channel: seq<seq<int>>, nFiller: nat, clamp: int)
    requires ParamsOk(p) && BlocksOk(x, p.z, p.nb) && kb <= p.nb && 0 < p.nb && ClampCovers(p, clamp)
    requires FillersAreZero(p, kb, x, nFiller) && ReceivedLeans(p, kb, x, channel, nFiller)
    ensures AllLean(p, x, Prepared(p, kb, channel, nFiller, clamp))
    ensures Roomy(p, Prepared(p, kb, channel, nFiller, clamp), clamp)
  {
    hide Prepared, Degree;
    var g := Prepared(p, kb, channel, nFiller, clamp);
    assert MSG_MAX * (1 + Degree(p, 0, |p.edges|)) <= clamp;
    forall c, j | 0 <= c < p.nb && 0 <= j < p.z
      ensures Leans(g[c][j], x[c][j]) && CellRoom(p, g, clamp, c, j)
    {
      assert MSG_MAX * (1 + Degree(p, c, |p.edges|)) <= clamp;
      PreparedByPosition(p, kb, channel, nFiller, clamp, c, j);
      assert Carries(p.z, kb, nFiller, c * p.z + j) ==> Leans(channel[c][j], x[c][j]);
    }
  }

  /** Over a channel that erases and weakens but never turns a bit, the wrapper decides no zero as a one, and
      every position with a non-zero posterior, every filler included, is decided as it was sent. */
  lemma WrapperIsNeverMisled(p: Params, kb: nat, x: seq<Word>, channel: seq<seq<int>>, nFiller: nat, iterations: nat,
                             beta: int, clamp: int, used: nat, app: seq<seq<int>>, hard: seq<Word>)
    requires Codeword(p, x) && kb <= p.nb && 0 < p.nb && ClampCovers(p, clamp) && 0 <= beta <= MSG_MAX
    requires FillersAreZero(p, kb, x, nFiller) && ReceivedLeans(p, kb, x, channel, nFiller) && clamp >= 0
    requires Decoded(p, Prepared(p, kb, channel, nFiller, clamp), iterations, beta, clamp, used, app, hard)
    ensures Grid(app, p.nb, p.z) && Grid(hard, p.nb, p.z)
    ensures forall c, j :: 0 <= c < p.nb && 0 <= j < p.z ==>
              (hard[c][j] ==> x[c][j]) && (app[c][j] != 0 ==> hard[c][j] == x[c][j])
    ensures forall c, j :: 0 <= c < p.nb && 0 <= j < p.z && kb * p.z - nFiller <= c * p.z + j < kb * p.z ==> !hard[c][j]
  {
    hide Iterations, Start, Check, Prepared, Degree;
    PreparedLeans(p, kb, x, channel, nFiller, clamp);
    NeverMisled(p, x, Prepared(p, kb, channel, nFiller, clamp), used, beta, clamp);
    forall c, j | 0 <= c < p.nb && 0 <= j < p.z
      ensures (hard[c][j] ==> x[c][j]) && (app[c][j] != 0 ==> hard[c][j] == x[c][j])
    {
      assert Leans(app[c][j], x[c][j]);
    }
  }
}
