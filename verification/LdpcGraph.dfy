/** Quasi-cyclic parity-check matrices: an edge list grouped by row block, and the parity checks it
    expands to. The columns of a codeword come in blocks of z bits. */
module LdpcGraph {

  /** One circulant: column block and cyclic shift. */
  datatype Edge = Edge(col: nat, shift: nat)

  /** An entry of the raw list: the row block it belongs to, column block, and shift, which the source
      stores in a signed 16-bit field. */
  datatype Entry = Entry(row: nat, col: nat, shift: int)

  /** The layered layout: the edges of row block r are edges[offsets[r]..offsets[r+1]]. */
  datatype Params = Params(z: nat, mb: nat, nb: nat, offsets: seq<nat>, edges: seq<Edge>)

  const Z_MAX: nat := 384

  ghost predicate Rising(o: seq<nat>) {
    forall r, s :: 0 <= r <= s < |o| ==> o[r] <= o[s]
  }

  ghost predicate ParamsOk(p: Params) {
    && 0 < p.z <= Z_MAX
    && |p.offsets| == p.mb + 1 && Rising(p.offsets) && p.offsets[0] == 0 && p.offsets[p.mb] == |p.edges|
    && forall e :: 0 <= e < |p.edges| ==> p.edges[e].col < p.nb && p.edges[e].shift < p.z
  }

  function Layer(p: Params, r: nat): (l: seq<Edge>)
    requires r < p.mb && |p.offsets| == p.mb + 1 && p.offsets[r] <= p.offsets[r + 1] <= |p.edges|
  {
    p.edges[p.offsets[r]..p.offsets[r + 1]]
  }

  // ---- grouping the edge list by row ---------------------------------------------------------------------

  /** The entries of row block r, in list order. */
  function EdgesOf(entries: seq<Entry>, r: nat): seq<Edge>
    requires forall i :: 0 <= i < |entries| ==> entries[i].shift >= 0
  {
    if |entries| == 0 then []
    else
      var k := |entries| - 1;
      EdgesOf(entries[..k], r) + (if entries[k].row == r then [Edge(entries[k].col, entries[k].shift)] else [])
  }

  predicate EntriesOk(entries: seq<Entry>, mb: nat, nb: nat, z: nat) {
    forall i :: 0 <= i < |entries| ==> entries[i].row < mb && entries[i].col < nb && 0 <= entries[i].shift < z
  }

  lemma EdgesOfNext(entries: seq<Entry>, i: nat, r: nat)
    requires i < |entries| && forall i :: 0 <= i < |entries| ==> entries[i].shift >= 0
    ensures EdgesOf(entries[..i + 1], r)
         == EdgesOf(entries[..i], r)
            + (if entries[i].row == r then [Edge(entries[i].col, entries[i].shift)] else [])
  {
    assert entries[..i + 1][..i] == entries[..i];
  }

  lemma {:induction false} EdgesOfRises(entries: seq<Entry>, i: nat, r: nat)
    requires i <= |entries| && forall i :: 0 <= i < |entries| ==> entries[i].shift >= 0
    ensures |EdgesOf(entries[..i], r)| <= |EdgesOf(entries, r)|
    decreases |entries| - i
  {
    if i < |entries| {
      EdgesOfNext(entries, i, r);
      EdgesOfRises(entries, i + 1, r);
    } else {
      assert entries[..i] == entries;
    }
  }

  lemma {:induction false} EdgesInRange(entries: seq<Entry>, mb: nat, nb: nat, z: nat, r: nat)
    requires EntriesOk(entries, mb, nb, z)
    ensures forall e :: e in EdgesOf(entries, r) ==> e.col < nb && e.shift < z
  {
    if |entries| > 0 { EdgesInRange(entries[..|entries| - 1], mb, nb, z, r); }
  }

  /** The degree-counting pass. */
  method CountRows(entries: seq<Entry>, mb: nat, ghost nb: nat, ghost z: nat) returns (degrees: array<nat>)
    requires EntriesOk(entries, mb, nb, z)
    ensures fresh(degrees) && degrees.Length == mb
    ensures forall r :: 0 <= r < mb ==> degrees[r] == |EdgesOf(entries, r)|
  {
    degrees := new nat[mb](_ => 0);
    var i := 0;
    while i < |entries|
      invariant 0 <= i <= |entries|
      invariant forall r :: 0 <= r < mb ==> degrees[r] == |EdgesOf(entries[..i], r)|
    {
      forall r | 0 <= r < mb { EdgesOfNext(entries, i, r); }
      degrees[entries[i].row] := degrees[entries[i].row] + 1;
      i := i + 1;
    }
    assert entries[..i] == entries;
  }

  /** The prefix sums of the degrees. */
  method PrefixSums(degrees: array<nat>) returns (offsets: seq<nat>)
    ensures |offsets| == degrees.Length + 1 && offsets[0] == 0 && Rising(offsets)
    ensures forall r :: 0 <= r < degrees.Length ==> offsets[r + 1] == offsets[r] + degrees[r]
  {
    offsets := [0];
    var r := 0;
    while r < degrees.Length
      invariant 0 <= r <= degrees.Length && |offsets| == r + 1 && offsets[0] == 0 && Rising(offsets)
      invariant forall k :: 0 <= k < r ==> offsets[k + 1] == offsets[k] + degrees[k]
    {
      offsets := offsets + [offsets[r] + degrees[r]];
      r := r + 1;
    }
  }

  /** Slots offsets[r] .. of the first i entries are filled. */
  ghost predicate FilledTo(entries: seq<Entry>, i: nat, offsets: seq<nat>, edges: seq<Edge>, fill: seq<nat>)
    requires i <= |entries| && forall i :: 0 <= i < |entries| ==> entries[i].shift >= 0
  {
    && |offsets| == |fill| + 1
    && forall r :: 0 <= r < |fill| ==>
         (fill[r] == |EdgesOf(entries[..i], r)| && offsets[r] + fill[r] <= |edges|
          && edges[offsets[r]..offsets[r] + fill[r]] == EdgesOf(entries[..i], r))
  }

  lemma FillStep(entries: seq<Entry>, i: nat, offsets: seq<nat>, edges: seq<Edge>, fill: seq<nat>)
    requires i < |entries| && (forall i :: 0 <= i < |entries| ==> entries[i].shift >= 0)
    requires FilledTo(entries, i, offsets, edges, fill) && Rising(offsets) && entries[i].row < |fill|
    requires forall r :: 0 <= r < |fill| ==> offsets[r + 1] == offsets[r] + |EdgesOf(entries, r)|
    requires offsets[|fill|] == |edges|
    ensures var r := entries[i].row;
            offsets[r] + fill[r] < |edges|
            && FilledTo(entries, i + 1, offsets,
                        edges[offsets[r] + fill[r] := Edge(entries[i].col, entries[i].shift)], fill[r := fill[r] + 1])
  {
    hide EdgesOf;
    var r := entries[i].row;
    var pos := offsets[r] + fill[r];
    EdgesOfNext(entries, i, r);
    EdgesOfRises(entries, i + 1, r);
    assert pos < offsets[r + 1] <= |edges|;
    var edges' := edges[pos := Edge(entries[i].col, entries[i].shift)];
    var fill' := fill[r := fill[r] + 1];
    forall s | 0 <= s < |fill|
      ensures fill'[s] == |EdgesOf(entries[..i + 1], s)| && offsets[s] + fill'[s] <= |edges'|
      ensures edges'[offsets[s]..offsets[s] + fill'[s]] == EdgesOf(entries[..i + 1], s)
    {
      EdgesOfNext(entries, i, s);
      EdgesOfRises(entries, i, s);
      if s == r {
        assert edges'[offsets[s]..pos] == edges[offsets[s]..pos];
        assert edges'[offsets[s]..pos + 1] == edges'[offsets[s]..pos] + [edges'[pos]];
      } else {
        assert s < r ==> offsets[s + 1] <= offsets[r];
        assert r < s ==> offsets[r + 1] <= offsets[s];
        assert edges'[offsets[s]..offsets[s] + fill[s]] == edges[offsets[s]..offsets[s] + fill[s]];
      }
    }
  }

  /** `build_layout`: every row block's slice holds exactly its entries, in list order. */
  method BuildLayout(entries: seq<Entry>, mb: nat, nb: nat, z: nat) returns (p: Params)
    requires 0 < z <= Z_MAX && EntriesOk(entries, mb, nb, z)
    ensures ParamsOk(p) && p.z == z && p.mb == mb && p.nb == nb
    ensures forall r :: 0 <= r < mb ==> Layer(p, r) == EdgesOf(entries, r)
  {
    hide EdgesOf, FilledTo;
    var degrees := CountRows(entries, mb, nb, z);
    var offsets := PrefixSums(degrees);
    var edges := seq(offsets[mb], _ => Edge(0, 0));
    var fill: seq<nat> := seq(mb, _ => 0);
    NothingFilled(entries, offsets, edges, fill);
    var i := 0;
    while i < |entries|
      invariant 0 <= i <= |entries| && |edges| == offsets[mb] && |fill| == mb
      invariant FilledTo(entries, i, offsets, edges, fill)
    {
      var r := entries[i].row;
      FillStep(entries, i, offsets, edges, fill);
      var pos := offsets[r] + fill[r];
      edges := edges[pos := Edge(entries[i].col, entries[i].shift)];
      fill := fill[r := fill[r] + 1];
      i := i + 1;
    }
    p := Params(z, mb, nb, offsets, edges);
    AllFilled(entries, p, fill);
  }

  lemma NothingFilled(entries: seq<Entry>, offsets: seq<nat>, edges: seq<Edge>, fill: seq<nat>)
    requires forall i :: 0 <= i < |entries| ==> entries[i].shift >= 0
    requires |offsets| == |fill| + 1 && Rising(offsets) && offsets[|fill|] == |edges|
    requires forall r :: 0 <= r < |fill| ==> fill[r] == 0
    ensures FilledTo(entries, 0, offsets, edges, fill)
  {
  }

  lemma AllFilled(entries: seq<Entry>, p: Params, fill: seq<nat>)
    requires EntriesOk(entries, p.mb, p.nb, p.z) && |p.offsets| == p.mb + 1 && Rising(p.offsets) && p.offsets[0] == 0
    requires p.offsets[p.mb] == |p.edges| && |fill| == p.mb
    requires FilledTo(entries, |entries|, p.offsets, p.edges, fill)
    requires forall r :: 0 <= r < p.mb ==> p.offsets[r + 1] == p.offsets[r] + |EdgesOf(entries, r)|
    ensures forall r :: 0 <= r < p.mb ==> Layer(p, r) == EdgesOf(entries, r)
    ensures forall e :: 0 <= e < |p.edges| ==> p.edges[e].col < p.nb && p.edges[e].shift < p.z
  {
    hide EdgesOf;
    assert entries[..|entries|] == entries;
    forall r | 0 <= r < p.mb ensures Layer(p, r) == EdgesOf(entries, r) {}
    forall e | 0 <= e < |p.edges| ensures p.edges[e].col < p.nb && p.edges[e].shift < p.z {
      var r := RowOf(p.offsets, p.mb, e);
      EdgesInRange(entries, p.mb, p.nb, p.z, r);
      assert Layer(p, r)[e - p.offsets[r]] == p.edges[e];
      assert p.edges[e] in EdgesOf(entries, r);
    }
  }

  /** The row block an edge position belongs to. */
  lemma RowOf(offsets: seq<nat>, n: nat, e: nat) returns (r: nat)
    requires n < |offsets| && Rising(offsets) && offsets[0] == 0 && e < offsets[n]
    ensures r < n && offsets[r] <= e < offsets[r + 1]
  {
    if offsets[n - 1] <= e { r := n - 1; } else { r := RowOf(offsets, n - 1, e); }
  }

  datatype ParamsResult = Ok(params: Params) | InvalidParam

  /** `from_raw_edges`: rejects exactly the lists with a size, row, column or shift out of range. */
  method FromRawEdges(entries: seq<Entry>, mb: nat, nb: nat, z: nat) returns (r: ParamsResult)
    ensures r.Ok? <==> 0 < z <= 384 && EntriesOk(entries, mb, nb, z)
    ensures r.Ok? ==> ParamsOk(r.params) && r.params.z == z && r.params.mb == mb && r.params.nb == nb
    ensures r.Ok? ==> forall k :: 0 <= k < mb ==> Layer(r.params, k) == EdgesOf(entries, k)
  {
    hide EdgesOf;
    if z == 0 || z > Z_MAX {
      return InvalidParam;
    }
    var i := 0;
    while i < |entries|
      invariant 0 <= i <= |entries| && EntriesOk(entries[..i], mb, nb, z)
    {
      var e := entries[i];
      if e.row >= mb || e.col >= nb || e.shift < 0 || e.shift >= z {
        return InvalidParam;
      }
      assert entries[..i + 1] == entries[..i] + [e];
      i := i + 1;
    }
    assert entries[..i] == entries;
    var p := BuildLayout(entries, mb, nb, z);
    return Ok(p);
  }
}
