/** How much clamp a filler needs: at degree one, 254 keeps it and every clamp from 127 to 253 can lose it. */
module LdpcNarrow {
  import opened Bits
  import opened LdpcGraph
  import opened LdpcMinSum
  import opened LdpcLayers
  import opened LdpcSymmetry
  import opened LdpcDecoder

  // ---- a layer of two edges, one lane, no offset -----------------------------------------------------------------

  /** Each of the two messages is the other edge's input. */
  lemma Crosses(q: seq<int>)
    requires |q| == 2 && InRange(q)
    ensures NewR(q, 0, 0) == q[1] && NewR(q, 1, 0) == q[0]
  {
    assert Min1(q, 0) == Min2(q, 0) == MSG_MAX;
    assert Min1(q, 1) == Abs(q[0]) && Min2(q, 1) == MSG_MAX;
    assert Min1(q, 2) == Min(Abs(q[0]), Abs(q[1])) && Min2(q, 2) == Max(Abs(q[0]), Abs(q[1]));
    assert SignXor(q, 1) == (q[0] < 0) && SignXor(q, 2) == ((q[0] < 0) != (q[1] < 0));
  }

  /** Layer l of the graph has two unshifted edges, into columns a and b. */
  ghost predicate TwoEdges(p: Params, l: nat, a: nat, b: nat) {
    && ParamsOk(p) && p.z == 1 && l < p.mb && a < p.nb && b < p.nb && a != b
    && p.offsets[l + 1] == p.offsets[l] + 2 <= |p.edges|
    && p.edges[p.offsets[l]] == Edge(a, 0) && p.edges[p.offsets[l] + 1] == Edge(b, 0)
  }

  ghost predicate StateFits(p: Params, st: State) {
    Grid(st.app, p.nb, p.z) && Grid(st.r, |p.edges|, p.z)
  }

  /** What such a layer does: the two inputs are exchanged, everything else stays. */
  lemma TwoEdgeLayer(p: Params, st: State, l: nat, a: nat, b: nat, clamp: int)
    requires TwoEdges(p, l, a, b) && StateFits(p, st)
    ensures var e := p.offsets[l];
            var qa, qb := Clamp(st.app[a][0] - st.r[e][0], MSG_MAX), Clamp(st.app[b][0] - st.r[e + 1][0], MSG_MAX);
            var t := LayerStep(st, p, l, 0, clamp);
            && StateFits(p, t)
            && t.app[a][0] == Update(st.app[a][0], qb - st.r[e][0], clamp)
            && t.app[b][0] == Update(st.app[b][0], qa - st.r[e + 1][0], clamp)
            && (forall c :: 0 <= c < p.nb && c != a && c != b ==> t.app[c] == st.app[c])
            && t.r[e] == [qb] && t.r[e + 1] == [qa]
            && (forall k :: 0 <= k < |p.edges| && k != e && k != e + 1 ==> t.r[k] == st.r[k])
  {
    hide Update, NewR;
    var e := p.offsets[l];
    var q := Messages(st, p, l, 0);
    MessagesInRange(st, p, l, 0);
    MessageAt(st, p, l, 0, 0);
    MessageAt(st, p, l, 0, 1);
    Crosses(q);
    assert NewRow(st, p, l, 0, 0) == [q[1]] && NewRow(st, p, l, 1, 0) == [q[0]];
    var s1 := EdgeStep(st, p, e, NewRow(st, p, l, 0, 0), clamp);
    assert LayerEdges(st, p, l, 0, 0, clamp) == st;
    assert LayerEdges(st, p, l, 1, 0, clamp) == s1;
    assert LayerEdges(st, p, l, 2, 0, clamp) == EdgeStep(s1, p, e + 1, NewRow(st, p, l, 1, 0), clamp);
  }

  // ---- the run -----------------------------------------------------------------------------------------------------

  /** A filler in column 0 shares its one check with column 1, which two further checks pull the other way. */
  function Narrow(): Params {
    Params(1, 3, 4, [0, 2, 4, 6], [Edge(0, 0), Edge(1, 0), Edge(1, 0), Edge(2, 0), Edge(1, 0), Edge(3, 0)])
  }

  function NarrowChannel(clamp: int): seq<seq<int>> {
    [[clamp], [127], [-127], [-127]]
  }

  lemma NarrowShape()
    ensures ParamsOk(Narrow()) && TwoEdges(Narrow(), 0, 0, 1) && TwoEdges(Narrow(), 1, 1, 2)
            && TwoEdges(Narrow(), 2, 1, 3)
    ensures Degree(Narrow(), 0, 6) == 1
  {
    var p := Narrow();
    assert Degree(p, 0, 0) == 0 && Degree(p, 0, 1) == 1 && Degree(p, 0, 2) == 1 && Degree(p, 0, 3) == 1;
    assert Degree(p, 0, 4) == 1 && Degree(p, 0, 5) == 1;
  }

  /** After the first iteration the filler has been confirmed and its neighbour turned. */
  lemma FirstIteration(clamp: int) returns (t: State)
    requires 127 <= clamp < 254
    ensures ParamsOk(Narrow()) && Grid(NarrowChannel(clamp), 4, 1)
    ensures t == Iterations(Start(Narrow(), NarrowChannel(clamp), clamp), Narrow(), 1, 0, clamp)
            && StateFits(Narrow(), t)
    ensures t.app[0] == [clamp] && t.app[1] == [clamp - 254] && t.r[0] == [127] && t.r[1] == [127]
  {
    hide Iterations, Layers, LayerStep, Start, TwoEdges;
    NarrowShape();
    var p := Narrow();
    var s0 := StartOfNarrow(clamp);
    TwoEdgeLayer(p, s0, 0, 0, 1, clamp);
    var s1 := LayerStep(s0, p, 0, 0, clamp);
    assert s1.app[0][0] == clamp && s1.app[1][0] == clamp;
    TwoEdgeLayer(p, s1, 1, 1, 2, clamp);
    var s2 := LayerStep(s1, p, 1, 0, clamp);
    assert s2.app[1][0] == clamp - 127 && s2.app[3][0] == -127;
    TwoEdgeLayer(p, s2, 2, 1, 3, clamp);
    t := LayerStep(s2, p, 2, 0, clamp);
    assert t.app[1][0] == clamp - 254;
    OneIteration(p, s0, clamp);
  }

  lemma StartOfNarrow(clamp: int) returns (s: State)
    requires 127 <= clamp
    ensures ParamsOk(Narrow()) && Grid(NarrowChannel(clamp), 4, 1)
    ensures s == Start(Narrow(), NarrowChannel(clamp), clamp) && StateFits(Narrow(), s)
    ensures s.app == NarrowChannel(clamp) && s.r == [[0], [0], [0], [0], [0], [0]]
  {
    NarrowShape();
    var channel := NarrowChannel(clamp);
    s := Start(Narrow(), channel, clamp);
    assert ClampRow(channel[0], clamp) == [clamp] && ClampRow(channel[1], clamp) == [127];
    assert ClampRow(channel[2], clamp) == [-127] && ClampRow(channel[3], clamp) == [-127];
    assert s.app[0] == [clamp] && s.app[1] == [127] && s.app[2] == [-127] && s.app[3] == [-127];
    var zero: seq<int> := seq(1, _ => 0);
    assert zero == [0];
    assert s.r == [zero, zero, zero, zero, zero, zero];
  }

  lemma OneIteration(p: Params, s: State, clamp: int)
    requires ParamsOk(p) && p.mb == 3 && StateFits(p, s)
    ensures Iterations(s, p, 1, 0, clamp)
         == LayerStep(LayerStep(LayerStep(s, p, 0, 0, clamp), p, 1, 0, clamp), p, 2, 0, clamp)
  {
    hide LayerStep;
    NoIterations(s, p, 0, clamp);
    NextIteration(s, p, 0, 0, clamp);
    NoLayers(s, p, 0, clamp);
    NextLayer(s, p, 0, 0, clamp);
    NextLayer(s, p, 1, 0, clamp);
    NextLayer(s, p, 2, 0, clamp);
  }

  /** In the second iteration its one message goes from 127 to -127. */
  lemma SecondIteration(clamp: int)
    requires 127 <= clamp < 254
    ensures ParamsOk(Narrow()) && Grid(NarrowChannel(clamp), 4, 1)
    ensures Iterations(Start(Narrow(), NarrowChannel(clamp), clamp), Narrow(), 2, 0, clamp).app[0] == [clamp - 254]
  {
    hide Iterations, Layers, LayerStep, Start, TwoEdges;
    NarrowShape();
    var p := Narrow();
    var s0 := StartOfNarrow(clamp);
    var t := FirstIteration(clamp);
    TwoEdgeLayer(p, t, 0, 0, 1, clamp);
    var s1 := LayerStep(t, p, 0, 0, clamp);
    assert s1.app[0][0] == clamp - 254;
    TwoEdgeLayer(p, s1, 1, 1, 2, clamp);
    var s2 := LayerStep(s1, p, 1, 0, clamp);
    TwoEdgeLayer(p, s2, 2, 1, 3, clamp);
    OneIteration(p, t, clamp);
    OneMore(p, s0, clamp);
  }

  lemma OneMore(p: Params, s: State, clamp: int)
    requires ParamsOk(p) && StateFits(p, s)
    ensures Iterations(s, p, 2, 0, clamp) == Iterations(Iterations(s, p, 1, 0, clamp), p, 1, 0, clamp)
  {
    NextIteration(s, p, 1, 0, clamp);
    NoIterations(Iterations(s, p, 1, 0, clamp), p, 0, clamp);
    NextIteration(Iterations(s, p, 1, 0, clamp), p, 0, 0, clamp);
  }

  /** After the first iteration the filler's check is odd, so the decoder goes on. */
  lemma GoesOn(clamp: int)
    requires 127 <= clamp < 254
    ensures ParamsOk(Narrow()) && Grid(NarrowChannel(clamp), 4, 1)
    ensures !Codeword(Narrow(),
                      Hard(Iterations(Start(Narrow(), NarrowChannel(clamp), clamp), Narrow(), 1, 0, clamp).app))
  {
    hide Iterations, Start, Codeword;
    NarrowShape();
    var t := FirstIteration(clamp);
    var x := Hard(t.app);
    assert x[0] == [false] && x[1] == [true];
    var w := Touched(Narrow(), x, 0, 0);
    assert w[0] == BitOf(Narrow(), x, 0, 0) && w[1] == BitOf(Narrow(), x, 1, 0);
    assert w[0] == x[0][0] && w[1] == x[1][0];
    assert w == [false, true];
    assert Parity(w, 0) == false && Parity(w, 1) == false && Parity(w, 2) == true;
    OddCheckFails(Narrow(), x, 0, 0);
  }

  /** At degree one and a clamp of at least 127, two iterations keep the filler on this graph exactly when
      the clamp is at least 254, twice what its message can carry. */
  lemma NarrowClampLosesTheFiller(clamp: int, used: nat, app: seq<seq<int>>, hard: seq<Word>)
    requires 127 <= clamp <= I16_MAX && ParamsOk(Narrow()) && Grid(NarrowChannel(clamp), 4, 1)
    requires Decoded(Narrow(), NarrowChannel(clamp), 2, 0, clamp, used, app, hard)
    ensures |hard| == 4 && |hard[0]| == 1 && (hard[0][0] <==> clamp < 254)
  {
    hide Iterations, Start, Codeword, Degree;
    NarrowShape();
    if clamp < 254 {
      GoesOn(clamp);
      SecondIteration(clamp);
    } else {
      FillerDecodesToZero(Narrow(), NarrowChannel(clamp), 0, 0, 2, 0, clamp, used, app, hard);
    }
  }
}
