/** The layered schedule on values: one edge at a time within a layer, layers within an iteration, and
    what every one of those steps keeps. The cell (c, j) of the posterior is position c z + j. */
module LdpcLayers {
  import opened LdpcGraph
  import opened LdpcMinSum

  /** Posteriors by column block and lane; check-to-variable messages by edge and lane. */
  datatype State = State(app: seq<seq<int>>, r: seq<seq<int>>)

  ghost predicate Grid<T>(g: seq<seq<T>>, rows: nat, cols: nat) {
    |g| == rows && forall i :: 0 <= i < rows ==> |g[i]| == cols
  }

  ghost predicate Bounded(g: seq<seq<int>>, m: int) {
    forall i, j :: 0 <= i < |g| && 0 <= j < |g[i]| ==> -m <= g[i][j] <= m
  }

  ghost predicate StateOk(p: Params, clamp: int, st: State) {
    && Grid(st.app, p.nb, p.z) && Grid(st.r, |p.edges|, p.z)
    && Bounded(st.r, MSG_MAX) && Bounded(st.app, clamp)
  }

  const I16_MIN: int := -32768
  const I16_MAX: int := 32767

  function SaturatingAdd(a: int, b: int): int {
    if a + b < I16_MIN then I16_MIN else if a + b > I16_MAX then I16_MAX else a + b
  }

  /** The posterior update: 16-bit saturating add, then the symmetric clamp. */
  function Update(a: int, delta: int, clamp: int): int {
    Clamp(SaturatingAdd(a, delta), clamp)
  }

  /** Saturation never shows through the clamp. */
  lemma UpdateIsClamp(a: int, delta: int, clamp: int)
    requires 0 <= clamp <= I16_MAX
    ensures Update(a, delta, clamp) == Clamp(a + delta, clamp)
  {
  }

  /** The variable lane that lane k of a circulant touches, and back. */
  function VarLane(k: nat, shift: nat, z: nat): nat
    requires k < z && shift < z
    ensures VarLane(k, shift, z) < z
  {
    if k + shift >= z then k + shift - z else k + shift
  }

  function LaneOf(j: nat, shift: nat, z: nat): (k: nat)
    requires j < z && shift < z
    ensures k < z && VarLane(k, shift, z) == j
    ensures forall i :: 0 <= i < z && VarLane(i, shift, z) == j ==> i == k
  {
    if j >= shift then j - shift else j + z - shift
  }

  // ---- one edge, one layer, one iteration -----------------------------------------------------------------------

  function Message(st: State, p: Params, e: nat, lane: nat): (m: int)
    requires ParamsOk(p) && e < |p.edges| && lane < p.z && Grid(st.app, p.nb, p.z) && Grid(st.r, |p.edges|, p.z)
    ensures -MSG_MAX <= m <= MSG_MAX
  {
    Clamp(st.app[p.edges[e].col][VarLane(lane, p.edges[e].shift, p.z)] - st.r[e][lane], MSG_MAX)
  }

  /** The variable-to-check messages of one check of layer l. */
  function Messages(st: State, p: Params, l: nat, lane: nat): (q: seq<int>)
    requires ParamsOk(p) && l < p.mb && lane < p.z && Grid(st.app, p.nb, p.z) && Grid(st.r, |p.edges|, p.z)
    ensures |q| == p.offsets[l + 1] - p.offsets[l]
  {
    seq(p.offsets[l + 1] - p.offsets[l],
        k requires 0 <= k < p.offsets[l + 1] - p.offsets[l] && p.offsets[l + 1] <= |p.edges| =>
          Message(st, p, p.offsets[l] + k, lane))
  }

  lemma MessageAt(st: State, p: Params, l: nat, lane: nat, k: nat)
    requires ParamsOk(p) && l < p.mb && lane < p.z && Grid(st.app, p.nb, p.z) && Grid(st.r, |p.edges|, p.z)
    requires k < p.offsets[l + 1] - p.offsets[l]
    ensures p.offsets[l] + k < |p.edges| && Messages(st, p, l, lane)[k] == Message(st, p, p.offsets[l] + k, lane)
  {
  }

  lemma MessagesInRange(st: State, p: Params, l: nat, lane: nat)
    requires ParamsOk(p) && l < p.mb && lane < p.z && Grid(st.app, p.nb, p.z) && Grid(st.r, |p.edges|, p.z)
    ensures InRange(Messages(st, p, l, lane))
  {
    var q := Messages(st, p, l, lane);
    forall k | 0 <= k < |q| ensures -MSG_MAX <= q[k] <= MSG_MAX {
      MessageAt(st, p, l, lane, k);
    }
  }

  /** The new messages of the k-th edge of layer l, one per lane, from the state at the layer's start. */
  function NewRow(st: State, p: Params, l: nat, k: nat, beta: int): (row: seq<int>)
    requires ParamsOk(p) && l < p.mb && Grid(st.app, p.nb, p.z) && Grid(st.r, |p.edges|, p.z)
    requires k < p.offsets[l + 1] - p.offsets[l]
    ensures |row| == p.z
  {
    seq(p.z, lane requires 0 <= lane < p.z => NewR(Messages(st, p, l, lane), k, beta))
  }

  /** Store an edge's new messages and move the posteriors it touches by the difference. */
  function EdgeStep(st: State, p: Params, e: nat, row: seq<int>, clamp: int): (st': State)
    requires ParamsOk(p) && e < |p.edges| && |row| == p.z && Grid(st.app, p.nb, p.z) && Grid(st.r, |p.edges|, p.z)
    ensures Grid(st'.app, p.nb, p.z) && Grid(st'.r, |p.edges|, p.z)
  {
    var col, shift := p.edges[e].col, p.edges[e].shift;
    State(st.app[col := seq(p.z, j requires 0 <= j < p.z =>
                              MovedCell(st.app[col][j], row, st.r[e], LaneOf(j, shift, p.z), clamp))],
          st.r[e := row])
  }

  function MovedCell(a: int, row: seq<int>, r: seq<int>, lane: nat, clamp: int): int
    requires lane < |row| && lane < |r|
  {
    Update(a, row[lane] - r[lane], clamp)
  }

  /** The first n edges of layer l, all computed from the messages at the layer's start. */
  function LayerEdges(st: State, p: Params, l: nat, n: nat, beta: int, clamp: int): (st': State)
    requires ParamsOk(p) && l < p.mb && n <= p.offsets[l + 1] - p.offsets[l]
    requires Grid(st.app, p.nb, p.z) && Grid(st.r, |p.edges|, p.z)
    ensures Grid(st'.app, p.nb, p.z) && Grid(st'.r, |p.edges|, p.z)
  {
    if n == 0 then st
    else EdgeStep(LayerEdges(st, p, l, n - 1, beta, clamp), p, p.offsets[l] + n - 1, NewRow(st, p, l, n - 1, beta),
                  clamp)
  }

  function LayerStep(st: State, p: Params, l: nat, beta: int, clamp: int): (st': State)
    requires ParamsOk(p) && l < p.mb && Grid(st.app, p.nb, p.z) && Grid(st.r, |p.edges|, p.z)
    ensures Grid(st'.app, p.nb, p.z) && Grid(st'.r, |p.edges|, p.z)
  {
    LayerEdges(st, p, l, p.offsets[l + 1] - p.offsets[l], beta, clamp)
  }

  /** The first n layers of an iteration. */
  function Layers(st: State, p: Params, n: nat, beta: int, clamp: int): (st': State)
    requires ParamsOk(p) && n <= p.mb && Grid(st.app, p.nb, p.z) && Grid(st.r, |p.edges|, p.z)
    ensures Grid(st'.app, p.nb, p.z) && Grid(st'.r, |p.edges|, p.z)
  {
    if n == 0 then st else LayerStep(Layers(st, p, n - 1, beta, clamp), p, n - 1, beta, clamp)
  }

  function Iterations(st: State, p: Params, n: nat, beta: int, clamp: int): (st': State)
    requires ParamsOk(p) && Grid(st.app, p.nb, p.z) && Grid(st.r, |p.edges|, p.z)
    ensures Grid(st'.app, p.nb, p.z) && Grid(st'.r, |p.edges|, p.z)
  {
    if n == 0 then st else Layers(Iterations(st, p, n - 1, beta, clamp), p, p.mb, beta, clamp)
  }

  /** Messages start at zero, posteriors at the clamped channel values. */
  function Start(p: Params, channel: seq<seq<int>>, clamp: int): (st: State)
    requires Grid(channel, p.nb, p.z) && clamp >= 0
    ensures Grid(st.app, p.nb, p.z) && Grid(st.r, |p.edges|, p.z)
  {
    State(seq(p.nb, c requires 0 <= c < p.nb => ClampRow(channel[c], clamp)), seq(|p.edges|, _ => seq(p.z, _ => 0)))
  }

  function ClampRow(row: seq<int>, clamp: int): (r: seq<int>)
    ensures |r| == |row| && forall j :: 0 <= j < |row| ==> r[j] == Clamp(row[j], clamp)
  {
    seq(|row|, j requires 0 <= j < |row| => Clamp(row[j], clamp))
  }

  // ---- an invariant of every edge step holds throughout every run --------------------------------------------------

  ghost predicate RowBounded(row: seq<int>, z: nat) {
    |row| == z && forall k :: 0 <= k < z ==> -MSG_MAX <= row[k] <= MSG_MAX
  }

  /** Whatever messages an edge stores, as long as they fit 8 bits, the step keeps `inv`. */
  ghost predicate Kept(inv: State -> bool, p: Params, clamp: int)
    requires ParamsOk(p)
  {
    forall st, e: nat, row ::
        e < |p.edges| && |row| == p.z && RowBounded(row, p.z) && StateOk(p, clamp, st) && inv(st) ==>
      inv(EdgeStep(st, p, e, row, clamp))
  }

  lemma RowIsBounded(st: State, p: Params, l: nat, k: nat, beta: int)
    requires ParamsOk(p) && l < p.mb && Grid(st.app, p.nb, p.z) && Grid(st.r, |p.edges|, p.z)
    requires k < p.offsets[l + 1] - p.offsets[l] && 0 <= beta <= MSG_MAX
    ensures RowBounded(NewRow(st, p, l, k, beta), p.z)
  {
    hide NewR, Messages;
    forall lane | 0 <= lane < p.z ensures -MSG_MAX <= NewR(Messages(st, p, l, lane), k, beta) <= MSG_MAX {
      MessagesInRange(st, p, l, lane);
      NewRBound(Messages(st, p, l, lane), k, beta);
    }
  }

  /** Messages stay in 8 bits and posteriors within the clamp. */
  lemma EdgeStepOk(st: State, p: Params, e: nat, row: seq<int>, clamp: int)
    requires ParamsOk(p) && e < |p.edges| && |row| == p.z && RowBounded(row, p.z) && StateOk(p, clamp, st) && clamp >= 0
    ensures StateOk(p, clamp, EdgeStep(st, p, e, row, clamp))
  {
    hide VarLane, LaneOf, SaturatingAdd;
    var st' := EdgeStep(st, p, e, row, clamp);
    forall i, j | 0 <= i < |st'.app| && 0 <= j < |st'.app[i]| ensures -clamp <= st'.app[i][j] <= clamp {
      if i != p.edges[e].col { assert st'.app[i] == st.app[i]; }
    }
    forall i, j | 0 <= i < |st'.r| && 0 <= j < |st'.r[i]| ensures -MSG_MAX <= st'.r[i][j] <= MSG_MAX {
      if i != e { assert st'.r[i] == st.r[i]; }
    }
  }

  lemma {:induction false} EdgesKeep(inv: State -> bool, st: State, p: Params, l: nat, n: nat, beta: int, clamp: int)
    requires ParamsOk(p) && l < p.mb && n <= p.offsets[l + 1] - p.offsets[l]
    requires 0 <= clamp && 0 <= beta <= MSG_MAX && StateOk(p, clamp, st) && inv(st) && Kept(inv, p, clamp)
    ensures StateOk(p, clamp, LayerEdges(st, p, l, n, beta, clamp)) && inv(LayerEdges(st, p, l, n, beta, clamp))
    decreases n
  {
    hide EdgeStep, NewRow, RowBounded, Bounded;
    if n > 0 {
      EdgesKeep(inv, st, p, l, n - 1, beta, clamp);
      var e := p.offsets[l] + n - 1;
      RowIsBounded(st, p, l, n - 1, beta);
      EdgeStepOk(LayerEdges(st, p, l, n - 1, beta, clamp), p, e, NewRow(st, p, l, n - 1, beta), clamp);
    }
  }

  lemma {:induction false} LayersKeep(inv: State -> bool, st: State, p: Params, n: nat, beta: int, clamp: int)
    requires ParamsOk(p) && n <= p.mb
    requires 0 <= clamp && 0 <= beta <= MSG_MAX && StateOk(p, clamp, st) && inv(st) && Kept(inv, p, clamp)
    ensures StateOk(p, clamp, Layers(st, p, n, beta, clamp)) && inv(Layers(st, p, n, beta, clamp))
    decreases n
  {
    hide LayerEdges, Bounded, Kept;
    if n > 0 {
      LayersKeep(inv, st, p, n - 1, beta, clamp);
      EdgesKeep(inv, Layers(st, p, n - 1, beta, clamp), p, n - 1, p.offsets[n] - p.offsets[n - 1], beta, clamp);
    }
  }

  lemma {:induction false} IterationsKeep(inv: State -> bool, st: State, p: Params, n: nat, beta: int, clamp: int)
    requires ParamsOk(p)
    requires 0 <= clamp && 0 <= beta <= MSG_MAX && StateOk(p, clamp, st) && inv(st) && Kept(inv, p, clamp)
    ensures StateOk(p, clamp, Iterations(st, p, n, beta, clamp)) && inv(Iterations(st, p, n, beta, clamp))
    decreases n
  {
    hide Layers, Bounded, Kept;
    if n > 0 {
      IterationsKeep(inv, st, p, n - 1, beta, clamp);
      LayersKeep(inv, Iterations(st, p, n - 1, beta, clamp), p, p.mb, beta, clamp);
    }
  }

  /** Every state a run passes through: n whole iterations, then m whole layers, then k edges. */
  function Moment(st: State, p: Params, n: nat, m: nat, k: nat, beta: int, clamp: int): (st': State)
    requires ParamsOk(p) && m < p.mb && k <= p.offsets[m + 1] - p.offsets[m]
    requires Grid(st.app, p.nb, p.z) && Grid(st.r, |p.edges|, p.z)
    ensures Grid(st'.app, p.nb, p.z) && Grid(st'.r, |p.edges|, p.z)
  {
    LayerEdges(Layers(Iterations(st, p, n, beta, clamp), p, m, beta, clamp), p, m, k, beta, clamp)
  }

  lemma MomentKeeps(inv: State -> bool, st: State, p: Params, n: nat, m: nat, k: nat, beta: int, clamp: int)
    requires ParamsOk(p) && m < p.mb && k <= p.offsets[m + 1] - p.offsets[m]
    requires 0 <= clamp && 0 <= beta <= MSG_MAX && StateOk(p, clamp, st) && inv(st) && Kept(inv, p, clamp)
    ensures StateOk(p, clamp, Moment(st, p, n, m, k, beta, clamp)) && inv(Moment(st, p, n, m, k, beta, clamp))
  {
    hide LayerEdges, Layers, Iterations, Bounded, Kept;
    IterationsKeep(inv, st, p, n, beta, clamp);
    LayersKeep(inv, Iterations(st, p, n, beta, clamp), p, m, beta, clamp);
    EdgesKeep(inv, Layers(Iterations(st, p, n, beta, clamp), p, m, beta, clamp), p, m, k, beta, clamp);
  }

  lemma StartOk(p: Params, channel: seq<seq<int>>, clamp: int)
    requires Grid(channel, p.nb, p.z) && clamp >= 0
    ensures StateOk(p, clamp, Start(p, channel, clamp))
  {
    var st := Start(p, channel, clamp);
    forall i, j | 0 <= i < |st.app| && 0 <= j < |st.app[i]| ensures -clamp <= st.app[i][j] <= clamp {}
  }

  // ---- incident messages -----------------------------------------------------------------------------------------

  /** The stored messages into cell (c, j), over the first n edges. */
  function Incident(p: Params, r: seq<seq<int>>, c: nat, j: nat, n: nat): int
    requires ParamsOk(p) && Grid(r, |p.edges|, p.z) && j < p.z && n <= |p.edges|
  {
    if n == 0 then 0
    else Incident(p, r, c, j, n - 1)
         + (if p.edges[n - 1].col == c then r[n - 1][LaneOf(j, p.edges[n - 1].shift, p.z)] else 0)
  }

  /** How many of the first n edges lead into column block c. */
  function Degree(p: Params, c: nat, n: nat): nat
    requires n <= |p.edges|
  {
    if n == 0 then 0 else Degree(p, c, n - 1) + (if p.edges[n - 1].col == c then 1 else 0)
  }

  lemma {:induction false} IncidentBound(p: Params, r: seq<seq<int>>, c: nat, j: nat, n: nat)
    requires ParamsOk(p) && Grid(r, |p.edges|, p.z) && Bounded(r, MSG_MAX) && j < p.z && n <= |p.edges|
    ensures -MSG_MAX * Degree(p, c, n) <= Incident(p, r, c, j, n) <= MSG_MAX * Degree(p, c, n)
  {
    if n > 0 { IncidentBound(p, r, c, j, n - 1); }
  }

  /** Storing a row changes only the sums of its own column, by the difference. */
  lemma {:induction false} IncidentStep(p: Params, r: seq<seq<int>>, e: nat, row: seq<int>, c: nat, j: nat, n: nat)
    requires ParamsOk(p) && Grid(r, |p.edges|, p.z) && j < p.z && n <= |p.edges| && e < |p.edges| && |row| == p.z
    ensures Incident(p, r[e := row], c, j, n)
         == Incident(p, r, c, j, n)
            + (if e < n && p.edges[e].col == c
               then row[LaneOf(j, p.edges[e].shift, p.z)] - r[e][LaneOf(j, p.edges[e].shift, p.z)] else 0)
  {
    hide LaneOf;
    if n > 0 { IncidentStep(p, r, e, row, c, j, n - 1); }
  }

  lemma {:induction false} IncidentStart(p: Params, r: seq<seq<int>>, c: nat, j: nat, n: nat)
    requires ParamsOk(p) && Grid(r, |p.edges|, p.z) && j < p.z && n <= |p.edges|
    requires forall i, k :: 0 <= i < |r| && 0 <= k < |r[i]| ==> r[i][k] == 0
    ensures Incident(p, r, c, j, n) == 0
  {
    if n > 0 { IncidentStart(p, r, c, j, n - 1); }
  }

  // ---- conservation ------------------------------------------------------------------------------------------------

  /** Every posterior is its channel value plus its incident messages. */
  ghost predicate Conserved(p: Params, channel: seq<seq<int>>, st: State)
    requires ParamsOk(p) && Grid(channel, p.nb, p.z)
  {
    && Grid(st.app, p.nb, p.z) && Grid(st.r, |p.edges|, p.z)
    && forall c, j :: 0 <= c < p.nb && 0 <= j < p.z ==>
         st.app[c][j] == channel[c][j] + Incident(p, st.r, c, j, |p.edges|)
  }

  /** The channel values are quantized messages, and the clamp leaves room for every incident one. */
  ghost predicate RoomFor(p: Params, channel: seq<seq<int>>, clamp: int)
    requires ParamsOk(p)
  {
    && Grid(channel, p.nb, p.z) && Bounded(channel, MSG_MAX) && clamp <= I16_MAX
    && forall c :: 0 <= c < p.nb ==> MSG_MAX * (1 + Degree(p, c, |p.edges|)) <= clamp
  }

  lemma ConservedCell(p: Params, channel: seq<seq<int>>, st: State, e: nat, row: seq<int>, clamp: int, c: nat, j: nat)
    requires ParamsOk(p) && RoomFor(p, channel, clamp) && StateOk(p, clamp, st) && Conserved(p, channel, st)
    requires e < |p.edges| && RowBounded(row, p.z) && c < p.nb && j < p.z
    ensures EdgeStep(st, p, e, row, clamp).app[c][j]
         == channel[c][j] + Incident(p, EdgeStep(st, p, e, row, clamp).r, c, j, |p.edges|)
  {
    hide LaneOf, Degree, Incident, SaturatingAdd, Kept;
    var n := |p.edges|;
    var st' := EdgeStep(st, p, e, row, clamp);
    IncidentStep(p, st.r, e, row, c, j, n);
    BoundedStep(p, st.r, e, row);
    IncidentBound(p, st'.r, c, j, n);
    if c == p.edges[e].col {
      var k := LaneOf(j, p.edges[e].shift, p.z);
      UpdateIsClamp(st.app[c][j], row[k] - st.r[e][k], clamp);
    } else {
      assert st'.app[c] == st.app[c];
    }
  }

  lemma BoundedStep(p: Params, r: seq<seq<int>>, e: nat, row: seq<int>)
    requires Grid(r, |p.edges|, p.z) && Bounded(r, MSG_MAX) && e < |p.edges| && RowBounded(row, p.z)
    ensures Grid(r[e := row], |p.edges|, p.z) && Bounded(r[e := row], MSG_MAX)
  {
    var r' := r[e := row];
    forall i, j | 0 <= i < |r'| && 0 <= j < |r'[i]| ensures -MSG_MAX <= r'[i][j] <= MSG_MAX {
      if i != e { assert r'[i] == r[i]; }
    }
  }

  lemma ConservedIsKept(p: Params, channel: seq<seq<int>>, clamp: int)
    requires ParamsOk(p) && RoomFor(p, channel, clamp)
    ensures Kept(st => Conserved(p, channel, st), p, clamp)
  {
    hide EdgeStep, Incident, RowBounded, Degree, Bounded;
    forall st, e: nat, row | e < |p.edges| && |row| == p.z && RowBounded(row, p.z) && StateOk(p, clamp, st)
        && Conserved(p, channel, st)
      ensures Conserved(p, channel, EdgeStep(st, p, e, row, clamp))
    {
      forall c, j | 0 <= c < p.nb && 0 <= j < p.z
        ensures EdgeStep(st, p, e, row, clamp).app[c][j]
             == channel[c][j] + Incident(p, EdgeStep(st, p, e, row, clamp).r, c, j, |p.edges|)
      {
        ConservedCell(p, channel, st, e, row, clamp, c, j);
      }
    }
  }

  lemma ConservedAtStart(p: Params, channel: seq<seq<int>>, clamp: int)
    requires ParamsOk(p) && RoomFor(p, channel, clamp) && clamp >= 0
    ensures Conserved(p, channel, Start(p, channel, clamp))
  {
    hide Incident;
    var st := Start(p, channel, clamp);
    forall c, j | 0 <= c < p.nb && 0 <= j < p.z
      ensures st.app[c][j] == channel[c][j] + Incident(p, st.r, c, j, |p.edges|)
    {
      IncidentStart(p, st.r, c, j, |p.edges|);
      assert clamp >= MSG_MAX by { assert MSG_MAX * (1 + Degree(p, c, |p.edges|)) <= clamp; }
      assert -MSG_MAX <= channel[c][j] <= MSG_MAX;
    }
  }

  /** Posterior conservation: with room in the clamp, at every moment of every run each posterior is
      exactly its channel value plus its incident stored messages: the clamp never acts. */
  lemma PosteriorsAreSums(p: Params, channel: seq<seq<int>>, n: nat, m: nat, k: nat, beta: int, clamp: int)
    requires ParamsOk(p) && RoomFor(p, channel, clamp) && 0 <= clamp && 0 <= beta <= MSG_MAX
    requires m < p.mb && k <= p.offsets[m + 1] - p.offsets[m]
    ensures Conserved(p, channel, Moment(Start(p, channel, clamp), p, n, m, k, beta, clamp))
    ensures Bounded(Moment(Start(p, channel, clamp), p, n, m, k, beta, clamp).r, MSG_MAX)
  {
    hide Moment, Conserved, Kept, RoomFor;
    RoomGrid(p, channel, clamp);
    var inv := st => Conserved(p, channel, st);
    ConservedAtStart(p, channel, clamp);
    ConservedIsKept(p, channel, clamp);
    StartOk(p, channel, clamp);
    MomentKeeps(inv, Start(p, channel, clamp), p, n, m, k, beta, clamp);
  }

  lemma RoomGrid(p: Params, channel: seq<seq<int>>, clamp: int)
    requires ParamsOk(p) && RoomFor(p, channel, clamp)
    ensures Grid(channel, p.nb, p.z)
  {
  }

  // ---- filler bits ------------------------------------------------------------------------------

  /** The posterior of (c, j) has lost no more than its messages can account for. */
  ghost predicate HeldUp(p: Params, c: nat, j: nat, clamp: int, st: State)
    requires ParamsOk(p) && c < p.nb && j < p.z
  {
    && Grid(st.app, p.nb, p.z) && Grid(st.r, |p.edges|, p.z)
    && st.app[c][j] >= clamp - MSG_MAX * Degree(p, c, |p.edges|) + Incident(p, st.r, c, j, |p.edges|)
  }

  lemma HeldUpIsKept(p: Params, c: nat, j: nat, clamp: int)
    requires ParamsOk(p) && c < p.nb && j < p.z && 0 <= clamp <= I16_MAX
    ensures Kept(st => HeldUp(p, c, j, clamp, st), p, clamp)
  {
    hide EdgeStep, Incident, RowBounded, Degree, Bounded;
    forall st, e: nat, row | e < |p.edges| && |row| == p.z && RowBounded(row, p.z) && StateOk(p, clamp, st)
        && HeldUp(p, c, j, clamp, st)
      ensures HeldUp(p, c, j, clamp, EdgeStep(st, p, e, row, clamp))
    {
      HeldUpStep(p, c, j, clamp, st, e, row);
    }
  }

  lemma HeldUpStep(p: Params, c: nat, j: nat, clamp: int, st: State, e: nat, row: seq<int>)
    requires ParamsOk(p) && c < p.nb && j < p.z && 0 <= clamp <= I16_MAX
    requires e < |p.edges| && |row| == p.z && RowBounded(row, p.z) && StateOk(p, clamp, st)
             && HeldUp(p, c, j, clamp, st)
    ensures HeldUp(p, c, j, clamp, EdgeStep(st, p, e, row, clamp))
  {
    hide LaneOf, Degree, Incident, SaturatingAdd, Kept;
    var n := |p.edges|;
    var st' := EdgeStep(st, p, e, row, clamp);
    IncidentStep(p, st.r, e, row, c, j, n);
    BoundedStep(p, st.r, e, row);
    IncidentBound(p, st'.r, c, j, n);
    if c == p.edges[e].col {
      var k := LaneOf(j, p.edges[e].shift, p.z);
      UpdateIsClamp(st.app[c][j], row[k] - st.r[e][k], clamp);
    } else {
      assert st'.app[c] == st.app[c];
    }
  }

  /** A posterior pinned at the clamp never falls below clamp - 254 d, whatever the other channel values
      and however often saturation acts; with clamp > 254 d its hard decision stays zero. */
  lemma FillerIsNeverOverturned(p: Params, channel: seq<seq<int>>, c: nat, j: nat, n: nat, m: nat, k: nat,
                                beta: int, clamp: int)
    requires ParamsOk(p) && Grid(channel, p.nb, p.z) && 0 <= clamp <= I16_MAX && 0 <= beta <= MSG_MAX
    requires c < p.nb && j < p.z && channel[c][j] == clamp
    requires m < p.mb && k <= p.offsets[m + 1] - p.offsets[m]
    ensures Moment(Start(p, channel, clamp), p, n, m, k, beta, clamp).app[c][j]
         >= clamp - 2 * MSG_MAX * Degree(p, c, |p.edges|)
  {
    hide Moment, Kept, Incident, Degree, Bounded;
    var inv := st => HeldUp(p, c, j, clamp, st);
    var s := Start(p, channel, clamp);
    StartOk(p, channel, clamp);
    IncidentStart(p, s.r, c, j, |p.edges|);
    HeldUpIsKept(p, c, j, clamp);
    MomentKeeps(inv, s, p, n, m, k, beta, clamp);
    IncidentBound(p, Moment(s, p, n, m, k, beta, clamp).r, c, j, |p.edges|);
  }
}
