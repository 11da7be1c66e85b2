/** The structured QC-LDPC encoder: four core parity blocks solved in closed form from the
    double-diagonal pattern, the rest read off their own rows. */
module LdpcEncoder {
  import opened Bits
  import opened LdpcGraph
  import opened Options

  // ---- rotations ---------------------------------------------------------------------------------------

  /** Block v times a circulant: bit i of the result is bit (i + shift) mod z of v. */
  function Rot(v: Word, shift: nat): (r: Word)
    ensures |r| == |v|
  {
    seq(|v|, i requires 0 <= i < |v| => v[(i + shift) % |v|])
  }

  lemma WrapIndex(i: nat, s: nat, z: nat)
    requires i < z && s < z
    ensures (i + s) % z == if i + s < z then i + s else i + s - z
  {
    if i + s >= z { assert (i + s - z) % z == (i + s) % z; }
  }

  /** Undoing a rotation: the shift the source calls inv(s). */
  function Undo(s: nat, z: nat): (t: nat)
    requires 0 < z && s < z
    ensures t < z
  {
    (z - s) % z
  }

  lemma RotAt(v: Word, s: nat, i: nat)
    requires i < |v| && s < |v|
    ensures Rot(v, s)[i] == v[if i + s < |v| then i + s else i + s - |v|]
  {
    WrapIndex(i, s, |v|);
  }

  lemma RotUndo(v: Word, s: nat)
    requires |v| > 0 && s < |v|
    ensures Rot(Rot(v, Undo(s, |v|)), s) == v
  {
    hide Rot;
    var z := |v|;
    var t := if s == 0 then 0 else z - s;
    assert Undo(s, z) == t;
    forall i | 0 <= i < z ensures Rot(Rot(v, t), s)[i] == v[i] {
      RotAt(Rot(v, t), s, i);
      RotAt(v, t, if i + s < z then i + s else i + s - z);
    }
  }

  /** `rotl_xor_into`: two contiguous spans instead of a modulo per element. */
  method RotlXorInto(dst: array<bool>, src: Word, shift: nat)
    requires dst.Length == |src| > 0 && shift < |src|
    modifies dst
    ensures dst[..] == Xor(old(dst[..]), Rot(src, shift))
  {
    var z := |src|;
    ghost var d0 := dst[..];
    ghost var goal := Xor(d0, Rot(src, shift));
    forall i | 0 <= i < z ensures goal[i] == (d0[i] != src[if i + shift < z then i + shift else i + shift - z]) {
      RotAt(src, shift, i);
    }
    if shift == 0 {
      var i := 0;
      while i < z
        invariant 0 <= i <= z
        invariant forall k :: 0 <= k < i ==> dst[k] == goal[k]
        invariant forall k :: i <= k < z ==> dst[k] == d0[k]
      {
        dst[i] := dst[i] != src[i];
        i := i + 1;
      }
    } else {
      var head := z - shift;
      var i := 0;
      while i < head
        invariant 0 <= i <= head
        invariant forall k :: 0 <= k < i ==> dst[k] == goal[k]
        invariant forall k :: i <= k < z ==> dst[k] == d0[k]
      {
        dst[i] := dst[i] != src[i + shift];
        i := i + 1;
      }
      i := head;
      while i < z
        invariant head <= i <= z
        invariant forall k :: 0 <= k < i ==> dst[k] == goal[k]
        invariant forall k :: i <= k < z ==> dst[k] == d0[k]
      {
        dst[i] := dst[i] != src[i - head];
        i := i + 1;
      }
    }
    assert dst[..] == goal;
  }

  /** `rotl_assign` into a fresh block. */
  method RotlAssign(src: Word, shift: nat) returns (r: Word)
    requires |src| > 0 && shift < |src|
    ensures r == Rot(src, shift)
  {
    forall i | 0 <= i < |src|
      ensures Rot(src, shift)[i] == src[if i + shift < |src| then i + shift else i + shift - |src|]
    {
      RotAt(src, shift, i);
    }
    r := src[shift..] + src[..shift];
  }

  // ---- parity checks -------------------------------------------------------------------------------------

  /** A codeword as blocks of z bits. */
  ghost predicate BlocksOk(b: seq<Word>, z: nat, nb: nat) {
    |b| == nb && forall c :: 0 <= c < nb ==> |b[c]| == z
  }

  /** The xor of the rotated blocks of those edges whose column lies in [lo, hi). */
  ghost function SumWhere(b: seq<Word>, z: nat, edges: seq<Edge>, lo: nat, hi: nat): (w: Word)
    requires BlocksOk(b, z, |b|) && hi <= |b|
    ensures |w| == z
  {
    if |edges| == 0 then Zeros(z)
    else
      var k := |edges| - 1;
      var w := SumWhere(b, z, edges[..k], lo, hi);
      var e := edges[k];
      if lo <= e.col < hi then Xor(w, Rot(b[e.col], e.shift)) else w
  }

  /** Row block r of the expanded parity-check matrix times the codeword. */
  ghost function Check(b: seq<Word>, p: Params, r: nat): (w: Word)
    requires ParamsOk(p) && BlocksOk(b, p.z, p.nb) && r < p.mb
    ensures |w| == p.z
  {
    SumWhere(b, p.z, Layer(p, r), 0, p.nb)
  }

  lemma {:induction false} SumSplits(b: seq<Word>, z: nat, edges: seq<Edge>, lo: nat, mid: nat, hi: nat)
    requires BlocksOk(b, z, |b|) && lo <= mid <= hi <= |b|
    ensures SumWhere(b, z, edges, lo, hi) == Xor(SumWhere(b, z, edges, lo, mid), SumWhere(b, z, edges, mid, hi))
    decreases |edges|
  {
    hide Xor, Rot;
    XorCancel(Zeros(z), Zeros(z));
    if |edges| > 0 {
      var k := |edges| - 1;
      SumSplits(b, z, edges[..k], lo, mid, hi);
      var e := edges[k];
      var u, v := SumWhere(b, z, edges[..k], lo, mid), SumWhere(b, z, edges[..k], mid, hi);
      if lo <= e.col < hi {
        var r := Rot(b[e.col], e.shift);
        XorAssoc(u, v, r);
        XorAssoc(u, r, v);
        XorCancel(v, r);
        XorCancel(r, v);
      }
    }
  }

  /** Only the blocks in the range matter. */
  lemma {:induction false} SumFrame(b: seq<Word>, b': seq<Word>, z: nat, edges: seq<Edge>, lo: nat, hi: nat)
    requires BlocksOk(b, z, |b|) && BlocksOk(b', z, |b'|) && hi <= |b| && hi <= |b'|
    requires forall c :: lo <= c < hi ==> b[c] == b'[c]
    ensures SumWhere(b, z, edges, lo, hi) == SumWhere(b', z, edges, lo, hi)
    decreases |edges|
  {
    hide Xor, Rot;
    if |edges| > 0 { SumFrame(b, b', z, edges[..|edges| - 1], lo, hi); }
  }

  lemma {:induction false} SumNone(b: seq<Word>, z: nat, edges: seq<Edge>, lo: nat, hi: nat)
    requires BlocksOk(b, z, |b|) && hi <= |b|
    requires forall e :: 0 <= e < |edges| ==> !(lo <= edges[e].col < hi)
    ensures SumWhere(b, z, edges, lo, hi) == Zeros(z)
    decreases |edges|
  {
    if |edges| > 0 { SumNone(b, z, edges[..|edges| - 1], lo, hi); }
  }

  // ---- the core entries of a row ---------------------------------------------------------------------------

  /** (column offset, shift) of the edges into the four core parity columns. */
  function CoreOf(edges: seq<Edge>, kb: nat): seq<Edge> {
    if |edges| == 0 then []
    else
      var e := edges[|edges| - 1];
      CoreOf(edges[..|edges| - 1], kb)
      + (if kb <= e.col < kb + 4 then [Edge(e.col - kb, e.shift)] else [])
  }

  function FirstFour(a: seq<Edge>): seq<Edge> {
    if |a| <= 4 then a else a[..4]
  }

  /** `core_entries`: the first four are kept. */
  method CoreEntries(edges: seq<Edge>, kb: nat) returns (out: seq<Edge>)
    ensures out == FirstFour(CoreOf(edges, kb))
  {
    out := [];
    var e := 0;
    while e < |edges|
      invariant 0 <= e <= |edges| && out == FirstFour(CoreOf(edges[..e], kb))
    {
      assert edges[..e + 1][..e] == edges[..e];
      if kb <= edges[e].col < kb + 4 && |out| < 4 {
        out := out + [Edge(edges[e].col - kb, edges[e].shift)];
      }
      e := e + 1;
    }
    assert edges[..e] == edges;
  }

  /** `shift_for`: the shift of the first entry at a column offset. */
  function ShiftFor(entries: seq<Edge>, offset: nat): (r: Option<nat>)
    ensures r.None? <==> forall i :: 0 <= i < |entries| ==> entries[i].col != offset
    ensures r.Some? ==> Edge(offset, r.value) in entries
  {
    if |entries| == 0 then None
    else if entries[0].col == offset then Some(entries[0].shift)
    else ShiftFor(entries[1..], offset)
  }

  /** It is the first entry at that offset. */
  lemma {:induction false} ShiftForFirst(entries: seq<Edge>, offset: nat) returns (i: nat)
    requires ShiftFor(entries, offset).Some?
    ensures i < |entries| && entries[i] == Edge(offset, ShiftFor(entries, offset).value)
    ensures forall j :: 0 <= j < i ==> entries[j].col != offset
    decreases |entries|
  {
    if entries[0].col == offset {
      i := 0;
    } else {
      var k := ShiftForFirst(entries[1..], offset);
      i := k + 1;
      forall j | 0 <= j < i ensures entries[j].col != offset { if j > 0 { assert entries[1..][j - 1] == entries[j]; } }
    }
  }

  /** The xor of the rotated core blocks of a list of core entries. */
  ghost function SumEntries(p: seq<Word>, z: nat, entries: seq<Edge>): (w: Word)
    requires |p| == 4 && BlocksOk(p, z, 4)
    ensures |w| == z
  {
    if |entries| == 0 then Zeros(z)
    else
      var e := entries[0];
      var w := SumEntries(p, z, entries[1..]);
      if e.col < 4 then Xor(Rot(p[e.col], e.shift), w) else w
  }

  lemma {:induction false} SumEntriesAppend(p: seq<Word>, z: nat, a: seq<Edge>, e: Edge)
    requires |p| == 4 && BlocksOk(p, z, 4) && e.col < 4
    ensures SumEntries(p, z, a + [e]) == Xor(SumEntries(p, z, a), Rot(p[e.col], e.shift))
    decreases |a|
  {
    hide Xor, Rot;
    var r := Rot(p[e.col], e.shift);
    if |a| == 0 {
      assert (a + [e])[1..] == [];
      XorCancel(r, r);
    } else {
      assert (a + [e])[1..] == a[1..] + [e];
      SumEntriesAppend(p, z, a[1..], e);
      if a[0].col < 4 { XorAssoc(Rot(p[a[0].col], a[0].shift), SumEntries(p, z, a[1..]), r); }
    }
  }

  /** The core part of a check is the sum over the core entries. */
  lemma {:induction false} CorePart(b: seq<Word>, z: nat, edges: seq<Edge>, kb: nat)
    requires BlocksOk(b, z, |b|) && kb + 4 <= |b|
    ensures SumWhere(b, z, edges, kb, kb + 4) == SumEntries(b[kb..kb + 4], z, CoreOf(edges, kb))
    decreases |edges|
  {
    hide Xor, Rot;
    if |edges| > 0 {
      var k := |edges| - 1;
      CorePart(b, z, edges[..k], kb);
      if kb <= edges[k].col < kb + 4 {
        SumEntriesAppend(b[kb..kb + 4], z, CoreOf(edges[..k], kb), Edge(edges[k].col - kb, edges[k].shift));
      } else {
        assert CoreOf(edges, kb) == CoreOf(edges[..k], kb);
      }
    }
  }

  /** Taking the first entry at an offset out of the list. */
  lemma {:induction false} TakeOut(p: seq<Word>, z: nat, a: seq<Edge>, offset: nat) returns (rest: seq<Edge>)
    requires |p| == 4 && BlocksOk(p, z, 4) && offset < 4 && ShiftFor(a, offset).Some?
    ensures |rest| == |a| - 1
    ensures SumEntries(p, z, a) == Xor(Rot(p[offset], ShiftFor(a, offset).value), SumEntries(p, z, rest))
    ensures forall o :: o != offset ==> ShiftFor(rest, o) == ShiftFor(a, o)
    decreases |a|
  {
    hide Xor, Rot;
    if a[0].col == offset {
      rest := a[1..];
    } else {
      var r := TakeOut(p, z, a[1..], offset);
      rest := [a[0]] + r;
      assert rest[1..] == r;
      if a[0].col < 4 {
        var u, v, w := Rot(p[a[0].col], a[0].shift), Rot(p[offset], ShiftFor(a, offset).value), SumEntries(p, z, r);
        XorAssoc(u, v, w);
        XorAssoc(v, u, w);
        XorCancel(u, v);
        XorCancel(v, u);
      }
    }
  }

  lemma TwoEntries(p: seq<Word>, z: nat, a: seq<Edge>, i: nat, j: nat)
    requires |p| == 4 && BlocksOk(p, z, 4) && |a| == 2 && i < 4 && j < 4 && i != j
    requires ShiftFor(a, i).Some? && ShiftFor(a, j).Some?
    ensures SumEntries(p, z, a) == Xor(Rot(p[i], ShiftFor(a, i).value), Rot(p[j], ShiftFor(a, j).value))
  {
    hide Xor, Rot, SumEntries;
    var b := TakeOut(p, z, a, i);
    var c := TakeOut(p, z, b, j);
    NoEntries(p, z, c);
    XorCancel(Rot(p[j], ShiftFor(a, j).value), Zeros(z));
  }

  lemma ThreeEntries(p: seq<Word>, z: nat, a: seq<Edge>, i: nat, j: nat, k: nat)
    requires |p| == 4 && BlocksOk(p, z, 4) && |a| == 3 && i < 4 && j < 4 && k < 4 && i != j && j != k && i != k
    requires ShiftFor(a, i).Some? && ShiftFor(a, j).Some? && ShiftFor(a, k).Some?
    ensures SumEntries(p, z, a)
         == Xor(Rot(p[i], ShiftFor(a, i).value), Xor(Rot(p[j], ShiftFor(a, j).value), Rot(p[k], ShiftFor(a, k).value)))
  {
    hide Xor, Rot, SumEntries;
    var b := TakeOut(p, z, a, i);
    TwoEntries(p, z, b, j, k);
  }

  lemma NoEntries(p: seq<Word>, z: nat, a: seq<Edge>)
    requires |p| == 4 && BlocksOk(p, z, 4) && |a| == 0
    ensures SumEntries(p, z, a) == Zeros(z)
  {
  }

  // ---- the double-diagonal pattern -----------------------------------------------------------------------------

  datatype CoreLayout = CoreLayout(p1Edge: nat, p1X: nat, rowXIs1: bool,
                                   s0p2: nat, s1p2: nat, s1p3: nat, s2p3: nat, s2p4: nat, s3p4: nat)

  /** The core entries of row block r. */
  function CoreRow(p: Params, kb: nat, r: nat): seq<Edge>
    requires r < p.mb && |p.offsets| == p.mb + 1 && p.offsets[r] <= p.offsets[r + 1] <= |p.edges|
  {
    CoreOf(Layer(p, r), kb)
  }

  /** How many edges of a row go beyond the core parity columns. */
  function ExtensionHits(edges: seq<Edge>, kb: nat): nat {
    if |edges| == 0 then 0
    else ExtensionHits(edges[..|edges| - 1], kb) + (if edges[|edges| - 1].col >= kb + 4 then 1 else 0)
  }

  /** A row beyond the fourth: one edge into its own parity column, unshifted, and none into others. */
  predicate ExtensionRow(edges: seq<Edge>, kb: nat, row: nat) {
    && ExtensionHits(edges, kb) == 1
    && forall e :: 0 <= e < |edges| && edges[e].col >= kb + 4 ==> edges[e] == Edge(kb + row, 0)
  }

  /** What `derive` establishes about the graph and the layout it returns. */
  ghost predicate Derived(p: Params, kb: nat, l: CoreLayout)
    requires ParamsOk(p) && p.nb == kb + p.mb
  {
    && p.mb >= 4
    && |CoreRow(p, kb, 0)| == 2 && |CoreRow(p, kb, 3)| == 2
    && |CoreRow(p, kb, 1)| == (if l.rowXIs1 then 3 else 2)
    && |CoreRow(p, kb, 2)| == (if l.rowXIs1 then 2 else 3)
    && ShiftFor(CoreRow(p, kb, 0), 0) == Some(l.p1Edge) == ShiftFor(CoreRow(p, kb, 3), 0)
    && ShiftFor(CoreRow(p, kb, 0), 1) == Some(l.s0p2)
    && ShiftFor(CoreRow(p, kb, 3), 3) == Some(l.s3p4)
    && ShiftFor(CoreRow(p, kb, 1), 0) == (if l.rowXIs1 then Some(l.p1X) else None)
    && ShiftFor(CoreRow(p, kb, 2), 0) == (if l.rowXIs1 then None else Some(l.p1X))
    && ShiftFor(CoreRow(p, kb, 1), 1) == Some(l.s1p2) && ShiftFor(CoreRow(p, kb, 1), 2) == Some(l.s1p3)
    && ShiftFor(CoreRow(p, kb, 2), 2) == Some(l.s2p3) && ShiftFor(CoreRow(p, kb, 2), 3) == Some(l.s2p4)
    && forall row :: 4 <= row < p.mb ==> ExtensionRow(Layer(p, row), kb, row)
  }

  /** One row of the identity extension check. */
  method CheckExtensionRow(edges: seq<Edge>, kb: nat, row: nat) returns (ok: bool)
    ensures ok <==> ExtensionRow(edges, kb, row)
  {
    var identityHits := 0;
    var e := 0;
    while e < |edges|
      invariant 0 <= e <= |edges| && identityHits == ExtensionHits(edges[..e], kb)
      invariant forall k :: 0 <= k < e && edges[k].col >= kb + 4 ==> edges[k] == Edge(kb + row, 0)
    {
      assert edges[..e + 1][..e] == edges[..e];
      if edges[e].col >= kb + 4 {
        identityHits := identityHits + 1;
        if edges[e].col != kb + row || edges[e].shift != 0 {
          return false;
        }
      }
      e := e + 1;
    }
    assert edges[..e] == edges;
    return identityHits == 1;
  }

  lemma LayerBounds(p: Params, r: nat)
    requires ParamsOk(p) && r < p.mb
    ensures p.offsets[r] <= p.offsets[r + 1] <= |p.edges|
    ensures forall e :: 0 <= e < |Layer(p, r)| ==> Layer(p, r)[e].col < p.nb && Layer(p, r)[e].shift < p.z
  {
  }

  /** `CoreLayout::derive`: the layout when the graph has the pattern, nothing otherwise. */
  method Derive(p: Params, kb: nat) returns (r: Option<CoreLayout>)
    requires ParamsOk(p) && p.nb == kb + p.mb
    ensures r.Some? ==> Derived(p, kb, r.value)
    ensures r.None? ==> forall l :: !Derived(p, kb, l)
  {
    hide CoreOf, ExtensionRow, ShiftFor;
    if p.mb < 4 || p.nb < kb + 4 {
      return None;
    }
    LayerBounds(p, 0);
    LayerBounds(p, 1);
    LayerBounds(p, 2);
    LayerBounds(p, 3);
    var row0 := CoreEntries(Layer(p, 0), kb);
    var row1 := CoreEntries(Layer(p, 1), kb);
    var row2 := CoreEntries(Layer(p, 2), kb);
    var row3 := CoreEntries(Layer(p, 3), kb);
    if |row0| != 2 || |row3| != 2 {
      return None;
    }
    var a0, a1, d0, d3 := ShiftFor(row0, 0), ShiftFor(row0, 1), ShiftFor(row3, 0), ShiftFor(row3, 3);
    if a0.None? || a1.None? || d0.None? || d3.None? {
      return None;
    }
    if a0.value != d0.value {
      return None;
    }
    var b0, c0 := ShiftFor(row1, 0), ShiftFor(row2, 0);
    if b0.Some? == c0.Some? {
      return None;
    }
    var rowXIs1, p1X := b0.Some?, if b0.Some? then b0.value else c0.value;
    var b1, b2, c2, c3 := ShiftFor(row1, 1), ShiftFor(row1, 2), ShiftFor(row2, 2), ShiftFor(row2, 3);
    if b1.None? || b2.None? || c2.None? || c3.None? {
      return None;
    }
    if |row1| != (if rowXIs1 then 3 else 2) || |row2| != (if rowXIs1 then 2 else 3) {
      return None;
    }
    var row := 4;
    while row < p.mb
      invariant 4 <= row <= p.mb
      invariant forall k :: 4 <= k < row ==> ExtensionRow(Layer(p, k), kb, k)
    {
      LayerBounds(p, row);
      var ok := CheckExtensionRow(Layer(p, row), kb, row);
      if !ok {
        return None;
      }
      row := row + 1;
    }
    return Some(CoreLayout(a0.value, p1X, rowXIs1, a1.value, b1.value, b2.value, c2.value, c3.value, d3.value));
  }

  // ---- the closed-form solve --------------------------------------------------------------------------------

  ghost predicate LayoutShifts(l: CoreLayout, z: nat) {
    && l.p1Edge < z && l.p1X < z && l.s0p2 < z && l.s1p2 < z && l.s1p3 < z && l.s2p3 < z && l.s2p4 < z && l.s3p4 < z
  }

  lemma {:induction false} CoreShifts(edges: seq<Edge>, kb: nat, z: nat)
    requires forall e :: 0 <= e < |edges| ==> edges[e].shift < z
    ensures forall e :: e in CoreOf(edges, kb) ==> e.shift < z
  {
    if |edges| > 0 { CoreShifts(edges[..|edges| - 1], kb, z); }
  }

  lemma DerivedShifts(p: Params, kb: nat, l: CoreLayout)
    requires ParamsOk(p) && p.nb == kb + p.mb && Derived(p, kb, l)
    ensures LayoutShifts(l, p.z)
  {
    hide CoreOf, ExtensionRow;
    LayerBounds(p, 0);
    LayerBounds(p, 1);
    LayerBounds(p, 2);
    LayerBounds(p, 3);
    CoreShifts(Layer(p, 0), kb, p.z);
    CoreShifts(Layer(p, 1), kb, p.z);
    CoreShifts(Layer(p, 2), kb, p.z);
    CoreShifts(Layer(p, 3), kb, p.z);
  }

  /** The parity blocks as the encoder computes them from the information sums of rows 0 .. 3. */
  ghost predicate Solves(l: CoreLayout, z: nat, y: seq<Word>, p: seq<Word>)
    requires |y| == 4 && BlocksOk(y, z, 4) && |p| == 4 && BlocksOk(p, z, 4) && z > 0 && LayoutShifts(l, z)
  {
    && Rot(p[0], l.p1X) == Xor(Xor(Xor(y[0], y[1]), y[2]), y[3])
    && Rot(p[1], l.s0p2) == Xor(y[0], Rot(p[0], l.p1Edge))
    && Rot(p[2], l.s1p3) == (if l.rowXIs1 then Xor(Xor(y[1], Rot(p[1], l.s1p2)), Rot(p[0], l.p1X))
                             else Xor(y[1], Rot(p[1], l.s1p2)))
    && Rot(p[3], l.s2p4) == (if l.rowXIs1 then Xor(y[2], Rot(p[2], l.s2p3))
                             else Xor(Xor(y[2], Rot(p[2], l.s2p3)), Rot(p[0], l.p1X)))
  }

  /** What row 3 is left with when the paired shifts differ. */
  ghost function Residual(l: CoreLayout, z: nat, p: seq<Word>): (w: Word)
    requires |p| == 4 && BlocksOk(p, z, 4)
    ensures |w| == z
  {
    Xor(Xor(Xor(Rot(p[1], l.s0p2), Rot(p[1], l.s1p2)), Xor(Rot(p[2], l.s1p3), Rot(p[2], l.s2p3))),
        Xor(Rot(p[3], l.s2p4), Rot(p[3], l.s3p4)))
  }

  /** The row-3 equation is the telescoped sum of the other three plus the residual. */
  lemma RowThree(l: CoreLayout, z: nat, y: seq<Word>, p: seq<Word>)
    requires |y| == 4 && BlocksOk(y, z, 4) && |p| == 4 && BlocksOk(p, z, 4) && z > 0 && LayoutShifts(l, z)
    requires Solves(l, z, y, p)
    ensures Xor(y[3], Xor(Rot(p[0], l.p1Edge), Rot(p[3], l.s3p4))) == Residual(l, z, p)
  {
    hide Rot;
    var a, b := Xor(y[3], Xor(Rot(p[0], l.p1Edge), Rot(p[3], l.s3p4))), Residual(l, z, p);
    var u, v, w, x := Rot(p[0], l.p1X), Rot(p[1], l.s0p2), Rot(p[2], l.s1p3), Rot(p[3], l.s2p4);
    forall i | 0 <= i < z ensures a[i] == b[i] {
      assert u[i] == (((y[0][i] != y[1][i]) != y[2][i]) != y[3][i]);
      assert v[i] == (y[0][i] != Rot(p[0], l.p1Edge)[i]);
      if l.rowXIs1 {
        assert w[i] == ((y[1][i] != Rot(p[1], l.s1p2)[i]) != u[i]);
        assert x[i] == (y[2][i] != Rot(p[2], l.s2p3)[i]);
      } else {
        assert w[i] == (y[1][i] != Rot(p[1], l.s1p2)[i]);
        assert x[i] == ((y[2][i] != Rot(p[2], l.s2p3)[i]) != u[i]);
      }
    }
  }

  /** The information sum of a row. */
  ghost function InfoSum(b: seq<Word>, p: Params, kb: nat, r: nat): (w: Word)
    requires ParamsOk(p) && BlocksOk(b, p.z, |b|) && kb <= |b| && r < p.mb
    ensures |w| == p.z
  {
    SumWhere(b, p.z, Layer(p, r), 0, kb)
  }

  /** What a row collects beyond the core parity columns. */
  ghost function Beyond(b: seq<Word>, p: Params, kb: nat, r: nat): (w: Word)
    requires ParamsOk(p) && p.nb == kb + p.mb && p.mb >= 4 && BlocksOk(b, p.z, p.nb) && r < p.mb
    ensures |w| == p.z
  {
    SumWhere(b, p.z, Layer(p, r), kb + 4, p.nb)
  }

  lemma CheckParts(b: seq<Word>, p: Params, kb: nat, r: nat)
    requires ParamsOk(p) && p.nb == kb + p.mb && p.mb >= 4 && BlocksOk(b, p.z, p.nb) && r < p.mb
    ensures BlocksOk(b[kb..kb + 4], p.z, 4)
    ensures Check(b, p, r)
         == Xor(Xor(InfoSum(b, p, kb, r), SumEntries(b[kb..kb + 4], p.z, CoreRow(p, kb, r))), Beyond(b, p, kb, r))
  {
    hide Xor, SumWhere, SumEntries, CoreOf;
    SumSplits(b, p.z, Layer(p, r), 0, kb + 4, p.nb);
    SumSplits(b, p.z, Layer(p, r), 0, kb, kb + 4);
    CorePart(b, p.z, Layer(p, r), kb);
  }

  lemma XorRegroup(y: Word, a: Word, b: Word, c: Word)
    requires |y| == |a| == |b| == |c|
    ensures Xor(y, Xor(a, b)) == Xor(Xor(y, a), b)
    ensures Xor(y, Xor(a, Xor(b, c))) == Xor(Xor(Xor(y, b), a), c)
  {
  }

  /** The core part of rows 0 to 2 equals the information sum they were solved from. */
  lemma SolvedRows(p: Params, kb: nat, l: CoreLayout, y: seq<Word>, c: seq<Word>)
    requires ParamsOk(p) && p.nb == kb + p.mb && Derived(p, kb, l) && LayoutShifts(l, p.z)
    requires |y| == 4 && BlocksOk(y, p.z, 4) && |c| == 4 && BlocksOk(c, p.z, 4) && Solves(l, p.z, y, c)
    ensures Xor(y[0], SumEntries(c, p.z, CoreRow(p, kb, 0))) == Zeros(p.z)
    ensures Xor(y[3], SumEntries(c, p.z, CoreRow(p, kb, 3))) == Residual(l, p.z, c)
  {
    hide Xor, SumEntries, CoreOf, Rot, Residual, ExtensionRow, ShiftFor;
    var z := p.z;
    TwoEntries(c, z, CoreRow(p, kb, 0), 0, 1);
    XorRegroup(y[0], Rot(c[0], l.p1Edge), Rot(c[1], l.s0p2), Zeros(z));
    XorCancel(Rot(c[1], l.s0p2), Rot(c[1], l.s0p2));
    TwoEntries(c, z, CoreRow(p, kb, 3), 0, 3);
    RowThree(l, z, y, c);
  }

  lemma SolvedRowOne(p: Params, kb: nat, l: CoreLayout, y: seq<Word>, c: seq<Word>)
    requires ParamsOk(p) && p.nb == kb + p.mb && Derived(p, kb, l) && LayoutShifts(l, p.z)
    requires |y| == 4 && BlocksOk(y, p.z, 4) && |c| == 4 && BlocksOk(c, p.z, 4) && Solves(l, p.z, y, c)
    ensures Xor(y[1], SumEntries(c, p.z, CoreRow(p, kb, 1))) == Zeros(p.z)
  {
    hide Xor, SumEntries, CoreOf, Rot, ExtensionRow, ShiftFor;
    var z, w := p.z, Rot(c[2], l.s1p3);
    XorCancel(w, w);
    if l.rowXIs1 {
      ThreeEntries(c, z, CoreRow(p, kb, 1), 0, 1, 2);
      XorRegroup(y[1], Rot(c[0], l.p1X), Rot(c[1], l.s1p2), w);
    } else {
      TwoEntries(c, z, CoreRow(p, kb, 1), 1, 2);
      XorRegroup(y[1], Rot(c[1], l.s1p2), w, Zeros(z));
    }
  }

  lemma SolvedRowTwo(p: Params, kb: nat, l: CoreLayout, y: seq<Word>, c: seq<Word>)
    requires ParamsOk(p) && p.nb == kb + p.mb && Derived(p, kb, l) && LayoutShifts(l, p.z)
    requires |y| == 4 && BlocksOk(y, p.z, 4) && |c| == 4 && BlocksOk(c, p.z, 4) && Solves(l, p.z, y, c)
    ensures Xor(y[2], SumEntries(c, p.z, CoreRow(p, kb, 2))) == Zeros(p.z)
  {
    hide Xor, SumEntries, CoreOf, Rot, ExtensionRow, ShiftFor;
    var z, x := p.z, Rot(c[3], l.s2p4);
    XorCancel(x, x);
    if l.rowXIs1 {
      TwoEntries(c, z, CoreRow(p, kb, 2), 2, 3);
      XorRegroup(y[2], Rot(c[2], l.s2p3), x, Zeros(z));
    } else {
      ThreeEntries(c, z, CoreRow(p, kb, 2), 0, 2, 3);
      XorRegroup(y[2], Rot(c[0], l.p1X), Rot(c[2], l.s2p3), x);
    }
  }

  /** The information sums of rows 0 .. 3. */
  ghost function InfoSums(b: seq<Word>, p: Params, kb: nat): (y: seq<Word>)
    requires ParamsOk(p) && BlocksOk(b, p.z, |b|) && kb <= |b| && 4 <= p.mb
    ensures |y| == 4 && BlocksOk(y, p.z, 4)
  {
    [InfoSum(b, p, kb, 0), InfoSum(b, p, kb, 1), InfoSum(b, p, kb, 2), InfoSum(b, p, kb, 3)]
  }

  /** Rows 0 to 2 hold by back-substitution; row 3 is left with the residual. In every case the row is
      off only by what it has beyond the core columns. */
  lemma CoreRows(b: seq<Word>, p: Params, kb: nat, l: CoreLayout)
    requires ParamsOk(p) && p.nb == kb + p.mb && Derived(p, kb, l) && LayoutShifts(l, p.z) && BlocksOk(b, p.z, p.nb)
    requires BlocksOk(b[kb..kb + 4], p.z, 4) && Solves(l, p.z, InfoSums(b, p, kb), b[kb..kb + 4])
    ensures Check(b, p, 0) == Beyond(b, p, kb, 0)
    ensures Check(b, p, 1) == Beyond(b, p, kb, 1)
    ensures Check(b, p, 2) == Beyond(b, p, kb, 2)
    ensures Check(b, p, 3) == Xor(Residual(l, p.z, b[kb..kb + 4]), Beyond(b, p, kb, 3))
  {
    hide Xor, SumWhere, SumEntries, CoreOf, CoreRow, Rot, Residual, ExtensionRow, ShiftFor, Beyond, Check, InfoSum,
         Solves;
    var y, c := InfoSums(b, p, kb), b[kb..kb + 4];
    SolvedRows(p, kb, l, y, c);
    SolvedRowOne(p, kb, l, y, c);
    SolvedRowTwo(p, kb, l, y, c);
    CheckParts(b, p, kb, 0);
    CheckParts(b, p, kb, 1);
    CheckParts(b, p, kb, 2);
    CheckParts(b, p, kb, 3);
    XorCancel(Beyond(b, p, kb, 0), Beyond(b, p, kb, 0));
    XorCancel(Beyond(b, p, kb, 1), Beyond(b, p, kb, 1));
    XorCancel(Beyond(b, p, kb, 2), Beyond(b, p, kb, 2));
  }

  /** The two facts about a graph that the derivation needs and `derive` does not check. */
  ghost predicate PairedShifts(l: CoreLayout) {
    l.s0p2 == l.s1p2 && l.s1p3 == l.s2p3 && l.s2p4 == l.s3p4
  }

  ghost predicate CoreRowsStayInside(p: Params, kb: nat)
    requires ParamsOk(p)
  {
    forall r, e :: 0 <= r < 4 && r < p.mb && 0 <= e < |Layer(p, r)| ==> Layer(p, r)[e].col < kb + 4
  }

  lemma ResidualVanishes(l: CoreLayout, z: nat, p: seq<Word>)
    requires |p| == 4 && BlocksOk(p, z, 4) && PairedShifts(l)
    ensures Residual(l, z, p) == Zeros(z)
  {
    hide Rot;
  }

  // ---- rows beyond the fourth -----------------------------------------------------------------------------------

  lemma RotZero(v: Word)
    requires |v| > 0
    ensures Rot(v, 0) == v
  {
    forall i | 0 <= i < |v| ensures Rot(v, 0)[i] == v[i] { RotAt(v, 0, i); }
  }

  /** No hits, nothing collected; one hit, exactly the row's own parity block. */
  lemma {:induction false} ExtensionSum(b: seq<Word>, z: nat, edges: seq<Edge>, kb: nat, row: nat)
    requires BlocksOk(b, z, |b|) && z > 0 && kb + 4 <= kb + row < |b| && ExtensionHits(edges, kb) <= 1
    requires forall e :: 0 <= e < |edges| ==> edges[e].col < |b|
    requires forall e :: 0 <= e < |edges| && edges[e].col >= kb + 4 ==> edges[e] == Edge(kb + row, 0)
    ensures SumWhere(b, z, edges, kb + 4, |b|) == if ExtensionHits(edges, kb) == 0 then Zeros(z) else b[kb + row]
    decreases |edges|
  {
    hide Xor, Rot;
    if |edges| > 0 {
      ExtensionSum(b, z, edges[..|edges| - 1], kb, row);
      RotZero(b[kb + row]);
      XorCancel(b[kb + row], b[kb + row]);
    }
  }

  /** What the encoder leaves in the codeword. */
  ghost predicate Encoded(p: Params, kb: nat, l: CoreLayout, b: seq<Word>)
    requires ParamsOk(p) && p.nb == kb + p.mb && p.mb >= 4
  {
    && BlocksOk(b, p.z, p.nb) && LayoutShifts(l, p.z) && BlocksOk(b[kb..kb + 4], p.z, 4)
    && Solves(l, p.z, InfoSums(b, p, kb), b[kb..kb + 4])
    && forall row :: 4 <= row < p.mb ==> b[kb + row] == SumWhere(b, p.z, Layer(p, row), 0, kb + 4)
  }

  lemma ExtensionRowHolds(p: Params, kb: nat, l: CoreLayout, b: seq<Word>, row: nat)
    requires ParamsOk(p) && p.nb == kb + p.mb && Derived(p, kb, l) && Encoded(p, kb, l, b) && 4 <= row < p.mb
    ensures Check(b, p, row) == Zeros(p.z)
  {
    hide Xor, SumWhere, Solves, CoreOf, ShiftFor, Rot;
    LayerBounds(p, row);
    SumSplits(b, p.z, Layer(p, row), 0, kb + 4, p.nb);
    assert ExtensionRow(Layer(p, row), kb, row);
    ExtensionSum(b, p.z, Layer(p, row), kb, row);
    XorCancel(b[kb + row], b[kb + row]);
  }

  /** Exactly which words the encoder produces are codewords: those whose row-3 residual is zero. */
  lemma CodewordIffNoResidual(p: Params, kb: nat, l: CoreLayout, b: seq<Word>)
    requires ParamsOk(p) && p.nb == kb + p.mb && Derived(p, kb, l) && Encoded(p, kb, l, b) && CoreRowsStayInside(p, kb)
    ensures (forall r :: 0 <= r < p.mb ==> Check(b, p, r) == Zeros(p.z))
       <==> Residual(l, p.z, b[kb..kb + 4]) == Zeros(p.z)
  {
    hide Xor, SumWhere, Solves, CoreOf, ShiftFor, Rot, Check, Residual, InfoSum;
    CoreRows(b, p, kb, l);
    CoreRowBeyond(p, kb, b, 0);
    CoreRowBeyond(p, kb, b, 1);
    CoreRowBeyond(p, kb, b, 2);
    CoreRowBeyond(p, kb, b, 3);
    XorCancel(Residual(l, p.z, b[kb..kb + 4]), Zeros(p.z));
    forall r | 4 <= r < p.mb ensures Check(b, p, r) == Zeros(p.z) { ExtensionRowHolds(p, kb, l, b, r); }
    assert Check(b, p, 3) == Residual(l, p.z, b[kb..kb + 4]);
  }

  lemma CoreRowBeyond(p: Params, kb: nat, b: seq<Word>, r: nat)
    requires ParamsOk(p) && p.nb == kb + p.mb && p.mb >= 4 && BlocksOk(b, p.z, p.nb) && CoreRowsStayInside(p, kb)
             && r < 4
    ensures Beyond(b, p, kb, r) == Zeros(p.z)
  {
    SumNone(b, p.z, Layer(p, r), kb + 4, p.nb);
  }

  /** Every message encodes to a codeword when the paired shifts agree and the core rows stay inside. */
  lemma EncodedIsCodeword(p: Params, kb: nat, l: CoreLayout, b: seq<Word>)
    requires ParamsOk(p) && p.nb == kb + p.mb && Derived(p, kb, l) && Encoded(p, kb, l, b)
    requires PairedShifts(l) && CoreRowsStayInside(p, kb)
    ensures forall r :: 0 <= r < p.mb ==> Check(b, p, r) == Zeros(p.z)
  {
    hide Xor, SumWhere, Solves, CoreOf, ShiftFor, Rot, Check, Residual, InfoSum, CoreRowsStayInside;
    ResidualVanishes(l, p.z, b[kb..kb + 4]);
    CodewordIffNoResidual(p, kb, l, b);
  }

  // ---- the encoder, block by block on a flat buffer ------------------------------------------------------------

  ghost function Blocks(a: Word, z: nat, nb: nat): (b: seq<Word>)
    requires |a| == nb * z
    ensures BlocksOk(b, z, nb)
  {
    seq(nb, c requires 0 <= c < nb => BlockOf(a, z, nb, c))
  }

  ghost function BlockOf(a: Word, z: nat, nb: nat, c: nat): (w: Word)
    requires |a| == nb * z && c < nb
    ensures |w| == z
  {
    BlockRange(z, nb, c);
    a[c * z..c * z + z]
  }

  lemma BlockRange(z: nat, nb: nat, c: nat)
    requires c < nb
    ensures 0 <= c * z && c * z + z <= nb * z
  {
    assert (nb - c - 1) * z >= 0;
    assert nb * z == c * z + z + (nb - c - 1) * z;
  }

  method ReadBlock(codeword: array<bool>, z: nat, nb: nat, c: nat) returns (w: Word)
    requires codeword.Length == nb * z && c < nb
    ensures w == Blocks(codeword[..], z, nb)[c]
  {
    BlockRange(z, nb, c);
    w := codeword[c * z..c * z + z];
  }

  method WriteBlock(codeword: array<bool>, z: nat, nb: nat, c: nat, w: Word)
    requires codeword.Length == nb * z && c < nb && |w| == z
    modifies codeword
    ensures Blocks(codeword[..], z, nb) == old(Blocks(codeword[..], z, nb))[c := w]
  {
    BlockRange(z, nb, c);
    ghost var a := codeword[..];
    var i := 0;
    while i < z
      invariant 0 <= i <= z
      invariant codeword[..] == a[..c * z] + w[..i] + a[c * z + i..]
    {
      codeword[c * z + i] := w[i];
      i := i + 1;
    }
    BlockWritten(a, codeword[..], z, nb, c, w);
  }

  lemma BlockWritten(a: Word, a': Word, z: nat, nb: nat, c: nat, w: Word)
    requires |a| == |a'| == nb * z && c < nb && |w| == z && c * z + z <= |a|
    requires a' == a[..c * z] + w + a[c * z + z..]
    ensures Blocks(a', z, nb) == Blocks(a, z, nb)[c := w]
  {
    forall d | 0 <= d < nb ensures BlockOf(a', z, nb, d) == if d == c then w else BlockOf(a, z, nb, d) {
      BlockRange(z, nb, d);
      BlockRange(z, nb, c);
      if d < c { BlockRange(z, c, d); }
      if c < d { BlockRange(z, d, c); }
    }
  }

  /** `accumulate_lambda` over a row's information columns. */
  method AccumulateLambda(p: Params, row: nat, kb: nat, codeword: array<bool>) returns (lambda: Word)
    requires ParamsOk(p) && row < p.mb && kb <= p.nb && codeword.Length == p.nb * p.z
    ensures lambda == InfoSum(Blocks(codeword[..], p.z, p.nb), p, kb, row)
  {
    hide Xor, Rot, Blocks;
    ghost var b := Blocks(codeword[..], p.z, p.nb);
    LayerBounds(p, row);
    var edges := Layer(p, row);
    var buffer := new bool[p.z](_ => false);
    assert buffer[..] == Zeros(p.z);
    var e := 0;
    while e < |edges|
      invariant 0 <= e <= |edges| && Blocks(codeword[..], p.z, p.nb) == b
      invariant buffer[..] == SumWhere(b, p.z, edges[..e], 0, kb)
    {
      assert edges[..e + 1][..e] == edges[..e];
      if edges[e].col < kb {
        var src := ReadBlock(codeword, p.z, p.nb, edges[e].col);
        RotlXorInto(buffer, src, edges[e].shift);
      }
      e := e + 1;
    }
    assert edges[..e] == edges;
    lambda := buffer[..];
  }

  /** a ^ rotate(b, s) ^ .. : xor rotated blocks into a copy, then undo the solved block's shift. */
  method SolveBlock(y: Word, terms: seq<(Word, nat)>, s: nat) returns (block: Word)
    requires |y| > 0 && s < |y| && forall k :: 0 <= k < |terms| ==> |terms[k].0| == |y| && terms[k].1 < |y|
    ensures |block| == |y| && Rot(block, s) == XorTerms(y, terms)
  {
    hide Xor, Rot, Undo;
    var buffer := new bool[|y|](i requires 0 <= i < |y| => y[i]);
    assert buffer[..] == y;
    var k := 0;
    while k < |terms|
      invariant 0 <= k <= |terms| && buffer[..] == XorTerms(y, terms[..k])
    {
      assert terms[..k + 1][..k] == terms[..k];
      RotlXorInto(buffer, terms[k].0, terms[k].1);
      k := k + 1;
    }
    assert terms[..k] == terms;
    RotUndo(buffer[..], s);
    block := RotlAssign(buffer[..], Undo(s, |y|));
  }

  function XorTerms(y: Word, terms: seq<(Word, nat)>): (w: Word)
    requires forall k :: 0 <= k < |terms| ==> |terms[k].0| == |y|
    ensures |w| == |y|
  {
    if |terms| == 0 then y
    else Xor(XorTerms(y, terms[..|terms| - 1]), Rot(terms[|terms| - 1].0, terms[|terms| - 1].1))
  }

  lemma OneTerm(y: Word, a: (Word, nat))
    requires |a.0| == |y|
    ensures XorTerms(y, [a]) == Xor(y, Rot(a.0, a.1))
  {
    assert [a][..0] == [];
  }

  lemma TwoTerms(y: Word, a: (Word, nat), b: (Word, nat))
    requires |a.0| == |y| == |b.0|
    ensures XorTerms(y, [a, b]) == Xor(Xor(y, Rot(a.0, a.1)), Rot(b.0, b.1))
  {
    hide Xor, Rot;
    assert [a, b][..1] == [a];
    OneTerm(y, a);
  }

  /** The four core blocks from the four information sums. */
  method SolveCore(l: CoreLayout, z: nat, y: seq<Word>) returns (c: seq<Word>)
    requires z > 0 && |y| == 4 && BlocksOk(y, z, 4) && LayoutShifts(l, z)
    ensures |c| == 4 && BlocksOk(c, z, 4) && Solves(l, z, y, c)
  {
    hide Xor, Rot, XorTerms;
    var sum := Xor(Xor(Xor(y[0], y[1]), y[2]), y[3]);
    var p1 := SolveBlock(sum, [], l.p1X);
    NoTerms(sum);
    var p2 := SolveBlock(y[0], [(p1, l.p1Edge)], l.s0p2);
    OneTerm(y[0], (p1, l.p1Edge));
    var p3, p4: Word;
    if l.rowXIs1 {
      p3 := SolveBlock(y[1], [(p2, l.s1p2), (p1, l.p1X)], l.s1p3);
      TwoTerms(y[1], (p2, l.s1p2), (p1, l.p1X));
      p4 := SolveBlock(y[2], [(p3, l.s2p3)], l.s2p4);
      OneTerm(y[2], (p3, l.s2p3));
    } else {
      p3 := SolveBlock(y[1], [(p2, l.s1p2)], l.s1p3);
      OneTerm(y[1], (p2, l.s1p2));
      p4 := SolveBlock(y[2], [(p3, l.s2p3), (p1, l.p1X)], l.s2p4);
      TwoTerms(y[2], (p3, l.s2p3), (p1, l.p1X));
    }
    c := [p1, p2, p3, p4];
  }

  lemma NoTerms(y: Word)
    ensures XorTerms(y, []) == y
  {
  }

  /** One extension row: everything but its own parity column. */
  method ExtensionBlock(p: Params, row: nat, kb: nat, codeword: array<bool>, core: seq<Word>) returns (w: Word)
    requires ParamsOk(p) && row < p.mb && kb + 4 <= p.nb && codeword.Length == p.nb * p.z
    requires |core| == 4 && core == Blocks(codeword[..], p.z, p.nb)[kb..kb + 4]
    ensures w == SumWhere(Blocks(codeword[..], p.z, p.nb), p.z, Layer(p, row), 0, kb + 4)
  {
    hide Xor, Rot, Blocks;
    ghost var b := Blocks(codeword[..], p.z, p.nb);
    LayerBounds(p, row);
    var edges := Layer(p, row);
    var buffer := new bool[p.z](_ => false);
    assert buffer[..] == Zeros(p.z);
    var e := 0;
    while e < |edges|
      invariant 0 <= e <= |edges| && Blocks(codeword[..], p.z, p.nb) == b
      invariant buffer[..] == SumWhere(b, p.z, edges[..e], 0, kb + 4)
    {
      assert edges[..e + 1][..e] == edges[..e];
      var col := edges[e].col;
      if col < kb {
        var src := ReadBlock(codeword, p.z, p.nb, col);
        RotlXorInto(buffer, src, edges[e].shift);
      } else if col < kb + 4 {
        assert core[col - kb] == b[col];
        RotlXorInto(buffer, core[col - kb], edges[e].shift);
      }
      e := e + 1;
    }
    assert edges[..e] == edges;
    w := buffer[..];
  }

  /** `encode_sparse` on a buffer whose first kb blocks hold the message. */
  method EncodeSparse(p: Params, kb: nat, l: CoreLayout, codeword: array<bool>)
    requires ParamsOk(p) && p.nb == kb + p.mb && p.mb >= 4 && LayoutShifts(l, p.z) && codeword.Length == p.nb * p.z
    modifies codeword
    ensures Encoded(p, kb, l, Blocks(codeword[..], p.z, p.nb))
    ensures forall c :: 0 <= c < kb ==> Blocks(codeword[..], p.z, p.nb)[c] == old(Blocks(codeword[..], p.z, p.nb))[c]
  {
    hide Xor, Rot, Blocks, SumWhere, Solves;
    ghost var b0 := Blocks(codeword[..], p.z, p.nb);
    var y0 := AccumulateLambda(p, 0, kb, codeword);
    var y1 := AccumulateLambda(p, 1, kb, codeword);
    var y2 := AccumulateLambda(p, 2, kb, codeword);
    var y3 := AccumulateLambda(p, 3, kb, codeword);
    var core := SolveCore(l, p.z, [y0, y1, y2, y3]);
    WriteBlock(codeword, p.z, p.nb, kb, core[0]);
    WriteBlock(codeword, p.z, p.nb, kb + 1, core[1]);
    WriteBlock(codeword, p.z, p.nb, kb + 2, core[2]);
    WriteBlock(codeword, p.z, p.nb, kb + 3, core[3]);
    var row := 4;
    while row < p.mb
      invariant 4 <= row <= p.mb
      invariant Blocks(codeword[..], p.z, p.nb)[..kb] == b0[..kb]
      invariant Blocks(codeword[..], p.z, p.nb)[kb..kb + 4] == core
      invariant forall r :: 4 <= r < row ==>
                  Blocks(codeword[..], p.z, p.nb)[kb + r]
                  == SumWhere(Blocks(codeword[..], p.z, p.nb), p.z, Layer(p, r), 0, kb + 4)
    {
      ghost var b := Blocks(codeword[..], p.z, p.nb);
      var w := ExtensionBlock(p, row, kb, codeword, core);
      WriteBlock(codeword, p.z, p.nb, kb + row, w);
      ghost var b' := Blocks(codeword[..], p.z, p.nb);
      forall r | 4 <= r <= row
        ensures SumWhere(b', p.z, Layer(p, r), 0, kb + 4) == SumWhere(b, p.z, Layer(p, r), 0, kb + 4)
      {
        SumFrame(b, b', p.z, Layer(p, r), 0, kb + 4);
      }
      row := row + 1;
    }
    ghost var b := Blocks(codeword[..], p.z, p.nb);
    SameInfoSums(b0, b, p, kb);
    forall c | 0 <= c < kb ensures b[c] == b0[c] { assert b[..kb][c] == b0[..kb][c]; }
  }

  lemma SameInfoSums(b: seq<Word>, b': seq<Word>, p: Params, kb: nat)
    requires ParamsOk(p) && BlocksOk(b, p.z, |b|) && BlocksOk(b', p.z, |b'|) && |b| == |b'| && kb <= |b| && 4 <= p.mb
    requires b[..kb] == b'[..kb]
    ensures InfoSums(b, p, kb) == InfoSums(b', p, kb)
  {
    hide SumWhere;
    forall c | 0 <= c < kb ensures b[c] == b'[c] { assert b[..kb][c] == b'[..kb][c]; }
    SumFrame(b, b', p.z, Layer(p, 0), 0, kb);
    SumFrame(b, b', p.z, Layer(p, 1), 0, kb);
    SumFrame(b, b', p.z, Layer(p, 2), 0, kb);
    SumFrame(b, b', p.z, Layer(p, 3), 0, kb);
  }
}
