/** Two facts about codewords and the fixed-point decoder: sign flips along a codeword commute with
    every step, and input that already spells a codeword is a fixed point. */
module LdpcSymmetry {
  import opened Bits
  import opened LdpcGraph
  import opened LdpcEncoder
  import opened LdpcMinSum
  import opened LdpcLayers

  /** Every parity check of the expanded matrix is satisfied. */
  ghost predicate Codeword(p: Params, x: seq<Word>) {
    ParamsOk(p) && BlocksOk(x, p.z, p.nb) && forall l :: 0 <= l < p.mb ==> Check(x, p, l) == Zeros(p.z)
  }

  /** The bit that lane `lane` of edge e touches. */
  function BitOf(p: Params, x: seq<Word>, e: nat, lane: nat): bool
    requires ParamsOk(p) && BlocksOk(x, p.z, p.nb) && e < |p.edges| && lane < p.z
  {
    x[p.edges[e].col][VarLane(lane, p.edges[e].shift, p.z)]
  }

  /** The bits of one check of layer l. */
  function Touched(p: Params, x: seq<Word>, l: nat, lane: nat): (w: Word)
    requires ParamsOk(p) && BlocksOk(x, p.z, p.nb) && l < p.mb && lane < p.z
    ensures |w| == p.offsets[l + 1] - p.offsets[l]
  {
    LayerBounds(p, l);
    seq(p.offsets[l + 1] - p.offsets[l],
        k requires 0 <= k < p.offsets[l + 1] - p.offsets[l] => BitOf(p, x, p.offsets[l] + k, lane))
  }

  lemma {:induction false} SumIsParity(p: Params, x: seq<Word>, l: nat, lane: nat, n: nat)
    requires ParamsOk(p) && BlocksOk(x, p.z, p.nb) && l < p.mb && lane < p.z
    requires n <= p.offsets[l + 1] - p.offsets[l] && |Layer(p, l)| == p.offsets[l + 1] - p.offsets[l]
    ensures SumWhere(x, p.z, Layer(p, l)[..n], 0, p.nb)[lane] == Parity(Touched(p, x, l, lane), n)
  {
    hide Rot;
    if n > 0 {
      SumIsParity(p, x, l, lane, n - 1);
      LayerBounds(p, l);
      var edges := Layer(p, l)[..n];
      assert edges[..n - 1] == Layer(p, l)[..n - 1];
      var e := p.offsets[l] + n - 1;
      assert edges[n - 1] == p.edges[e];
      RotAt(x[p.edges[e].col], p.edges[e].shift, lane);
      assert Touched(p, x, l, lane)[n - 1] == BitOf(p, x, e, lane);
    }
  }

  lemma CheckIsParity(p: Params, x: seq<Word>, l: nat, lane: nat)
    requires ParamsOk(p) && BlocksOk(x, p.z, p.nb) && l < p.mb && lane < p.z
    ensures Check(x, p, l)[lane] == Parity(Touched(p, x, l, lane), |Touched(p, x, l, lane)|)
  {
    hide SumWhere, Parity, Touched;
    LayerBounds(p, l);
    var n := p.offsets[l + 1] - p.offsets[l];
    SumIsParity(p, x, l, lane, n);
    assert Layer(p, l)[..n] == Layer(p, l);
  }

  lemma EvenChecks(p: Params, x: seq<Word>, l: nat, lane: nat)
    requires Codeword(p, x) && l < p.mb && lane < p.z
    ensures !Parity(Touched(p, x, l, lane), |Touched(p, x, l, lane)|)
  {
    hide Parity, Touched, Check;
    CheckIsParity(p, x, l, lane);
  }

  // ---- codeword symmetry ---------------------------------------------------------------------------------------

  /** st' is st with every posterior and message negated where the codeword x has a one. */
  ghost predicate Mirrors(p: Params, x: seq<Word>, st: State, st': State)
    requires ParamsOk(p) && BlocksOk(x, p.z, p.nb)
  {
    && Grid(st.app, p.nb, p.z) && Grid(st'.app, p.nb, p.z) && Grid(st.r, |p.edges|, p.z) && Grid(st'.r, |p.edges|, p.z)
    && (forall c, j :: 0 <= c < p.nb && 0 <= j < p.z ==> st'.app[c][j] == Signed(x[c][j], st.app[c][j]))
    && (forall e, k :: 0 <= e < |p.edges| && 0 <= k < p.z ==> st'.r[e][k] == Signed(BitOf(p, x, e, k), st.r[e][k]))
  }

  lemma MessagesMirror(p: Params, x: seq<Word>, st: State, st': State, l: nat, lane: nat)
    requires ParamsOk(p) && BlocksOk(x, p.z, p.nb) && Mirrors(p, x, st, st') && l < p.mb && lane < p.z
    ensures FlippedBy(Messages(st, p, l, lane), Messages(st', p, l, lane), Touched(p, x, l, lane))
  {
    hide VarLane;
    LayerBounds(p, l);
    var q, q', t := Messages(st, p, l, lane), Messages(st', p, l, lane), Touched(p, x, l, lane);
    forall k | 0 <= k < |q| ensures q'[k] == Signed(t[k], q[k]) {
      var e := p.offsets[l] + k;
      MessageAt(st, p, l, lane, k);
      MessageAt(st', p, l, lane, k);
      assert t[k] == BitOf(p, x, e, lane);
      assert st'.r[e][lane] == Signed(t[k], st.r[e][lane]);
    }
  }

  lemma RowMirrors(p: Params, x: seq<Word>, st: State, st': State, l: nat, k: nat, beta: int)
    requires Codeword(p, x) && Mirrors(p, x, st, st') && l < p.mb && k < p.offsets[l + 1] - p.offsets[l] && 0 <= beta
    ensures p.offsets[l] + k < |p.edges|
    ensures forall lane :: 0 <= lane < p.z ==>
              NewRow(st', p, l, k, beta)[lane]
              == Signed(BitOf(p, x, p.offsets[l] + k, lane), NewRow(st, p, l, k, beta)[lane])
  {
    hide NewR, Messages, Check, Parity;
    LayerBounds(p, l);
    forall lane | 0 <= lane < p.z
      ensures NewRow(st', p, l, k, beta)[lane]
           == Signed(BitOf(p, x, p.offsets[l] + k, lane), NewRow(st, p, l, k, beta)[lane])
    {
      MessagesMirror(p, x, st, st', l, lane);
      MessagesInRange(st, p, l, lane);
      EvenChecks(p, x, l, lane);
      NewRFlips(Messages(st, p, l, lane), Messages(st', p, l, lane), Touched(p, x, l, lane), k, beta);
    }
  }

  lemma CellMirrors(a: int, row: int, r: int, b: bool, clamp: int)
    requires 0 <= clamp <= I16_MAX
    ensures Update(Signed(b, a), Signed(b, row) - Signed(b, r), clamp) == Signed(b, Update(a, row - r, clamp))
  {
    UpdateIsClamp(a, row - r, clamp);
    UpdateIsClamp(-a, r - row, clamp);
  }

  lemma EdgeMirrors(p: Params, x: seq<Word>, st: State, st': State, e: nat, row: seq<int>, row': seq<int>, clamp: int)
    requires ParamsOk(p) && BlocksOk(x, p.z, p.nb) && Mirrors(p, x, st, st') && e < |p.edges|
    requires |row| == |row'| == p.z && 0 <= clamp <= I16_MAX
    requires forall k :: 0 <= k < p.z ==> row'[k] == Signed(BitOf(p, x, e, k), row[k])
    ensures Mirrors(p, x, EdgeStep(st, p, e, row, clamp), EdgeStep(st', p, e, row', clamp))
  {
    hide Update;
    var s, s' := EdgeStep(st, p, e, row, clamp), EdgeStep(st', p, e, row', clamp);
    var col, shift := p.edges[e].col, p.edges[e].shift;
    forall c, j | 0 <= c < p.nb && 0 <= j < p.z ensures s'.app[c][j] == Signed(x[c][j], s.app[c][j]) {
      if c == col {
        var k := LaneOf(j, shift, p.z);
        assert BitOf(p, x, e, k) == x[c][j];
        CellMirrors(st.app[c][j], row[k], st.r[e][k], x[c][j], clamp);
        assert s.app[c][j] == Update(st.app[c][j], row[k] - st.r[e][k], clamp);
        assert s'.app[c][j] == Update(st'.app[c][j], row'[k] - st'.r[e][k], clamp);
      } else {
        assert s.app[c] == st.app[c] && s'.app[c] == st'.app[c];
      }
    }
    forall f, k | 0 <= f < |p.edges| && 0 <= k < p.z ensures s'.r[f][k] == Signed(BitOf(p, x, f, k), s.r[f][k]) {
      if f != e { assert s.r[f] == st.r[f] && s'.r[f] == st'.r[f]; }
    }
  }

  lemma {:induction false} LayerEdgesMirror(p: Params, x: seq<Word>, st: State, st': State, l: nat, n: nat, beta: int,
                                            clamp: int)
    requires Codeword(p, x) && Mirrors(p, x, st, st') && l < p.mb && n <= p.offsets[l + 1] - p.offsets[l]
    requires 0 <= beta && 0 <= clamp <= I16_MAX
    ensures Mirrors(p, x, LayerEdges(st, p, l, n, beta, clamp), LayerEdges(st', p, l, n, beta, clamp))
    decreases n
  {
    hide EdgeStep, NewRow, Mirrors, Check, BitOf;
    MirrorGrids(p, x, st, st');
    if n > 0 {
      LayerEdgesMirror(p, x, st, st', l, n - 1, beta, clamp);
      RowMirrors(p, x, st, st', l, n - 1, beta);
      EdgeMirrors(p, x, LayerEdges(st, p, l, n - 1, beta, clamp), LayerEdges(st', p, l, n - 1, beta, clamp),
                  p.offsets[l] + n - 1, NewRow(st, p, l, n - 1, beta), NewRow(st', p, l, n - 1, beta), clamp);
    }
  }

  lemma MirrorGrids(p: Params, x: seq<Word>, st: State, st': State)
    requires ParamsOk(p) && BlocksOk(x, p.z, p.nb) && Mirrors(p, x, st, st')
    ensures Grid(st.app, p.nb, p.z) && Grid(st'.app, p.nb, p.z) && Grid(st.r, |p.edges|, p.z)
            && Grid(st'.r, |p.edges|, p.z)
  {
  }

  lemma {:induction false} LayersMirror(p: Params, x: seq<Word>, st: State, st': State, n: nat, beta: int, clamp: int)
    requires Codeword(p, x) && Mirrors(p, x, st, st') && n <= p.mb && 0 <= beta && 0 <= clamp <= I16_MAX
    ensures Mirrors(p, x, Layers(st, p, n, beta, clamp), Layers(st', p, n, beta, clamp))
    decreases n
  {
    hide LayerEdges, Mirrors, Check;
    MirrorGrids(p, x, st, st');
    if n > 0 {
      LayersMirror(p, x, st, st', n - 1, beta, clamp);
      LayerEdgesMirror(p, x, Layers(st, p, n - 1, beta, clamp), Layers(st', p, n - 1, beta, clamp), n - 1,
                       p.offsets[n] - p.offsets[n - 1], beta, clamp);
    }
  }

  lemma {:induction false} IterationsMirror(p: Params, x: seq<Word>, st: State, st': State, n: nat, beta: int,
                                            clamp: int)
    requires Codeword(p, x) && Mirrors(p, x, st, st') && 0 <= beta && 0 <= clamp <= I16_MAX
    ensures Mirrors(p, x, Iterations(st, p, n, beta, clamp), Iterations(st', p, n, beta, clamp))
    decreases n
  {
    hide Layers, Mirrors, Check;
    MirrorGrids(p, x, st, st');
    if n > 0 {
      IterationsMirror(p, x, st, st', n - 1, beta, clamp);
      LayersMirror(p, x, Iterations(st, p, n - 1, beta, clamp), Iterations(st', p, n - 1, beta, clamp), p.mb, beta,
                   clamp);
    }
  }

  /** channel' is channel with signs flipped along x. */
  ghost predicate ChannelMirrors(p: Params, x: seq<Word>, channel: seq<seq<int>>, channel': seq<seq<int>>)
    requires BlocksOk(x, p.z, p.nb)
  {
    && Grid(channel, p.nb, p.z) && Grid(channel', p.nb, p.z)
    && forall c, j :: 0 <= c < p.nb && 0 <= j < p.z ==> channel'[c][j] == Signed(x[c][j], channel[c][j])
  }

  lemma StartMirrors(p: Params, x: seq<Word>, channel: seq<seq<int>>, channel': seq<seq<int>>, clamp: int)
    requires ParamsOk(p) && BlocksOk(x, p.z, p.nb) && ChannelMirrors(p, x, channel, channel') && clamp >= 0
    ensures Mirrors(p, x, Start(p, channel, clamp), Start(p, channel', clamp))
  {
    hide BitOf;
    var s, s' := Start(p, channel, clamp), Start(p, channel', clamp);
    forall c, j | 0 <= c < p.nb && 0 <= j < p.z ensures s'.app[c][j] == Signed(x[c][j], s.app[c][j]) {
      assert channel'[c][j] == Signed(x[c][j], channel[c][j]);
    }
  }

  /** Codeword symmetry: flipping the input signs along any codeword flips every posterior and every
      message along it, at every moment of every run, zeros and clamps included. */
  lemma CodewordSymmetry(p: Params, x: seq<Word>, channel: seq<seq<int>>, channel': seq<seq<int>>,
                         n: nat, m: nat, k: nat, beta: int, clamp: int)
    requires Codeword(p, x) && ChannelMirrors(p, x, channel, channel')
    requires 0 <= beta <= MSG_MAX && 0 <= clamp <= I16_MAX && m < p.mb && k <= p.offsets[m + 1] - p.offsets[m]
    ensures Mirrors(p, x, Moment(Start(p, channel, clamp), p, n, m, k, beta, clamp),
                    Moment(Start(p, channel', clamp), p, n, m, k, beta, clamp))
  {
    hide LayerEdges, Layers, Iterations, Mirrors, Check, Start;
    var s, s' := Start(p, channel, clamp), Start(p, channel', clamp);
    StartMirrors(p, x, channel, channel', clamp);
    IterationsMirror(p, x, s, s', n, beta, clamp);
    LayersMirror(p, x, Iterations(s, p, n, beta, clamp), Iterations(s', p, n, beta, clamp), m, beta, clamp);
    LayerEdgesMirror(p, x, Layers(Iterations(s, p, n, beta, clamp), p, m, beta, clamp),
                     Layers(Iterations(s', p, n, beta, clamp), p, m, beta, clamp), m, k, beta, clamp);
  }

  // ---- a clean codeword is a fixed point ---------------------------------------------------------------------------

  /** Every posterior points strictly at the bit of x. */
  ghost predicate Spells(p: Params, x: seq<Word>, app: seq<seq<int>>)
    requires BlocksOk(x, p.z, p.nb)
  {
    Grid(app, p.nb, p.z) && forall c, j :: 0 <= c < p.nb && 0 <= j < p.z ==> Points(app[c][j], x[c][j])
  }

  /** In the first iteration the edges from number n on still hold zero. */
  ghost predicate Untouched(p: Params, st: State, n: nat) {
    Grid(st.r, |p.edges|, p.z) && forall e, k :: n <= e < |p.edges| && 0 <= k < p.z ==> st.r[e][k] == 0
  }

  lemma MessagesPoint(p: Params, x: seq<Word>, st: State, l: nat, lane: nat)
    requires ParamsOk(p) && BlocksOk(x, p.z, p.nb) && Spells(p, x, st.app) && l < p.mb && lane < p.z
    requires Untouched(p, st, p.offsets[l])
    ensures forall k :: 0 <= k < |Messages(st, p, l, lane)| ==>
              Points(Messages(st, p, l, lane)[k], Touched(p, x, l, lane)[k])
  {
    hide VarLane;
    LayerBounds(p, l);
    var q, t := Messages(st, p, l, lane), Touched(p, x, l, lane);
    forall k | 0 <= k < |q| ensures Points(q[k], t[k]) {
      var e := p.offsets[l] + k;
      assert t[k] == BitOf(p, x, e, lane) && st.r[e][lane] == 0;
      var a := st.app[p.edges[e].col][VarLane(lane, p.edges[e].shift, p.z)];
      assert Points(a, t[k]);
      MessageAt(st, p, l, lane, k);
    }
  }

  lemma RowLeans(p: Params, x: seq<Word>, st: State, l: nat, k: nat, beta: int)
    requires Codeword(p, x) && Spells(p, x, st.app) && l < p.mb && k < p.offsets[l + 1] - p.offsets[l]
    requires Untouched(p, st, p.offsets[l]) && p.offsets[l] + k < |p.edges|
    ensures forall lane :: 0 <= lane < p.z ==>
              Leans(NewRow(st, p, l, k, beta)[lane], BitOf(p, x, p.offsets[l] + k, lane))
  {
    hide NewR, Messages, Check, Parity;
    forall lane | 0 <= lane < p.z ensures Leans(NewRow(st, p, l, k, beta)[lane], BitOf(p, x, p.offsets[l] + k, lane)) {
      MessagesPoint(p, x, st, l, lane);
      MessagesInRange(st, p, l, lane);
      EvenChecks(p, x, l, lane);
      NewRAgrees(Messages(st, p, l, lane), Touched(p, x, l, lane), k, beta);
    }
  }

  lemma CellKeepsPointing(a: int, delta: int, b: bool, clamp: int)
    requires Points(a, b) && Leans(delta, b) && 1 <= clamp <= I16_MAX
    ensures Points(Update(a, delta, clamp), b)
  {
    UpdateIsClamp(a, delta, clamp);
  }

  lemma EdgeKeepsSpelling(p: Params, x: seq<Word>, st: State, e: nat, row: seq<int>, clamp: int)
    requires ParamsOk(p) && BlocksOk(x, p.z, p.nb) && Spells(p, x, st.app) && e < |p.edges| && Untouched(p, st, e)
    requires |row| == p.z && 1 <= clamp <= I16_MAX && forall k :: 0 <= k < p.z ==> Leans(row[k], BitOf(p, x, e, k))
    ensures Spells(p, x, EdgeStep(st, p, e, row, clamp).app) && Untouched(p, EdgeStep(st, p, e, row, clamp), e + 1)
  {
    hide Update;
    var s := EdgeStep(st, p, e, row, clamp);
    var col, shift := p.edges[e].col, p.edges[e].shift;
    forall c, j | 0 <= c < p.nb && 0 <= j < p.z ensures Points(s.app[c][j], x[c][j]) {
      if c == col {
        var k := LaneOf(j, shift, p.z);
        assert BitOf(p, x, e, k) == x[c][j];
        CellKeepsPointing(st.app[c][j], row[k] - st.r[e][k], x[c][j], clamp);
        assert s.app[c][j] == Update(st.app[c][j], row[k] - st.r[e][k], clamp);
      } else {
        assert s.app[c] == st.app[c];
      }
    }
    forall f, k | e + 1 <= f < |p.edges| && 0 <= k < p.z ensures s.r[f][k] == 0 { assert s.r[f] == st.r[f]; }
  }

  lemma {:induction false} LayerKeepsSpelling(p: Params, x: seq<Word>, st: State, l: nat, n: nat, beta: int, clamp: int)
    requires Codeword(p, x) && Spells(p, x, st.app) && l < p.mb && n <= p.offsets[l + 1] - p.offsets[l]
    requires Untouched(p, st, p.offsets[l]) && 1 <= clamp <= I16_MAX
    ensures Spells(p, x, LayerEdges(st, p, l, n, beta, clamp).app)
    ensures Untouched(p, LayerEdges(st, p, l, n, beta, clamp), p.offsets[l] + n)
    decreases n
  {
    hide EdgeStep, NewRow, Spells, Check, BitOf, Untouched;
    SpellGrids(p, x, st, p.offsets[l]);
    if n > 0 {
      LayerBounds(p, l);
      LayerKeepsSpelling(p, x, st, l, n - 1, beta, clamp);
      RowLeans(p, x, st, l, n - 1, beta);
      EdgeKeepsSpelling(p, x, LayerEdges(st, p, l, n - 1, beta, clamp), p.offsets[l] + n - 1,
                        NewRow(st, p, l, n - 1, beta), clamp);
    }
  }

  lemma SpellGrids(p: Params, x: seq<Word>, st: State, n: nat)
    requires ParamsOk(p) && BlocksOk(x, p.z, p.nb) && Spells(p, x, st.app) && Untouched(p, st, n)
    ensures Grid(st.app, p.nb, p.z) && Grid(st.r, |p.edges|, p.z)
  {
  }

  lemma {:induction false} IterationKeepsSpelling(p: Params, x: seq<Word>, st: State, n: nat, beta: int, clamp: int)
    requires Codeword(p, x) && Spells(p, x, st.app) && n <= p.mb && Untouched(p, st, 0) && 1 <= clamp <= I16_MAX
    ensures Grid(st.app, p.nb, p.z) && Grid(st.r, |p.edges|, p.z)
    ensures Spells(p, x, Layers(st, p, n, beta, clamp).app)
    ensures Untouched(p, Layers(st, p, n, beta, clamp), p.offsets[n])
    decreases n
  {
    hide LayerEdges, Spells, Check, Untouched;
    SpellGrids(p, x, st, 0);
    if n > 0 {
      IterationKeepsSpelling(p, x, st, n - 1, beta, clamp);
      LayerKeepsSpelling(p, x, Layers(st, p, n - 1, beta, clamp), n - 1, p.offsets[n] - p.offsets[n - 1], beta, clamp);
    }
  }

  /** The hard decisions of a posterior grid. */
  function Hard(app: seq<seq<int>>): (x: seq<Word>)
    ensures |x| == |app|
  {
    seq(|app|, c requires 0 <= c < |app| => HardRow(app[c]))
  }

  function HardRow(row: seq<int>): (w: Word)
    ensures |w| == |row| && forall j :: 0 <= j < |row| ==> w[j] == (row[j] < 0)
  {
    seq(|row|, j requires 0 <= j < |row| => row[j] < 0)
  }

  lemma SpellsMeansHard(p: Params, x: seq<Word>, app: seq<seq<int>>)
    requires BlocksOk(x, p.z, p.nb) && Spells(p, x, app)
    ensures Hard(app) == x
  {
    forall c | 0 <= c < p.nb ensures Hard(app)[c] == x[c] {
      forall j | 0 <= j < p.z ensures HardRow(app[c])[j] == x[c][j] { assert Points(app[c][j], x[c][j]); }
    }
  }

  /** If the clamped channel values spell a codeword with no zero among them, they still do after one
      iteration. */
  lemma CleanCodewordStays(p: Params, x: seq<Word>, channel: seq<seq<int>>, beta: int, clamp: int)
    requires Codeword(p, x) && Spells(p, x, channel) && 1 <= clamp <= I16_MAX
    ensures Hard(Iterations(Start(p, channel, clamp), p, 1, beta, clamp).app) == x
  {
    hide Layers, Check;
    var s := Start(p, channel, clamp);
    forall c, j | 0 <= c < p.nb && 0 <= j < p.z ensures Points(s.app[c][j], x[c][j]) {
      assert Points(channel[c][j], x[c][j]);
    }
    IterationKeepsSpelling(p, x, s, p.mb, beta, clamp);
    assert Iterations(s, p, 0, beta, clamp) == s;
    SpellsMeansHard(p, x, Layers(s, p, p.mb, beta, clamp).app);
  }
}
