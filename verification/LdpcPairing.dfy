/** Exactly when the closed-form encoder is right: which layouts, which graphs, and what goes wrong on the
    others that `derive` accepts. */
module LdpcPairing {
  import opened Bits
  import opened LdpcGraph
  import opened LdpcEncoder
  import opened Options

  // ---- layouts: every solution satisfies row 3 exactly when the shifts are paired ----------------------------------

  /** The information sums that four given core blocks solve. */
  ghost function SumsFor(l: CoreLayout, z: nat, p: seq<Word>): (y: seq<Word>)
    requires |p| == 4 && BlocksOk(p, z, 4)
    ensures |y| == 4 && BlocksOk(y, z, 4)
  {
    seq(4, k requires 0 <= k < 4 => SumAt(l, z, p, k))
  }

  ghost function SumAt(l: CoreLayout, z: nat, p: seq<Word>, k: nat): (y: Word)
    requires |p| == 4 && BlocksOk(p, z, 4) && k < 4
    ensures |y| == z
  {
    if k == 0 then SumZero(l, z, p)
    else if k == 1 then SumOne(l, z, p)
    else if k == 2 then SumTwo(l, z, p)
    else SumThree(l, z, p)
  }

  ghost function SumThree(l: CoreLayout, z: nat, p: seq<Word>): (y: Word)
    requires |p| == 4 && BlocksOk(p, z, 4)
    ensures |y| == z
  {
    Xor(Rot(p[0], l.p1X), Xor(SumZero(l, z, p), Xor(SumOne(l, z, p), SumTwo(l, z, p))))
  }

  ghost function SumZero(l: CoreLayout, z: nat, p: seq<Word>): (y: Word)
    requires |p| == 4 && BlocksOk(p, z, 4)
    ensures |y| == z
  {
    Xor(Rot(p[1], l.s0p2), Rot(p[0], l.p1Edge))
  }

  ghost function SumOne(l: CoreLayout, z: nat, p: seq<Word>): (y: Word)
    requires |p| == 4 && BlocksOk(p, z, 4)
    ensures |y| == z
  {
    Xor(Rot(p[2], l.s1p3), Xor(Rot(p[1], l.s1p2), if l.rowXIs1 then Rot(p[0], l.p1X) else Zeros(z)))
  }

  ghost function SumTwo(l: CoreLayout, z: nat, p: seq<Word>): (y: Word)
    requires |p| == 4 && BlocksOk(p, z, 4)
    ensures |y| == z
  {
    Xor(Rot(p[3], l.s2p4), Xor(Rot(p[2], l.s2p3), if l.rowXIs1 then Zeros(z) else Rot(p[0], l.p1X)))
  }

  /** Any four core blocks are the solution of some information sums. */
  lemma SumsAreSolved(l: CoreLayout, z: nat, p: seq<Word>)
    requires |p| == 4 && BlocksOk(p, z, 4) && z > 0 && LayoutShifts(l, z)
    ensures Solves(l, z, SumsFor(l, z, p), p)
  {
    hide Rot;
  }

  lemma RotInjective(a: Word, b: Word, s: nat)
    requires |a| == |b| && s < |a| && Rot(a, s) == Rot(b, s)
    ensures a == b
  {
    hide Rot;
    var z := |a|;
    forall i | 0 <= i < z ensures a[i] == b[i] {
      var k := if i >= s then i - s else i - s + z;
      RotAt(a, s, k);
      RotAt(b, s, k);
    }
  }

  /** The information sums have one solution. */
  lemma SolvesUnique(l: CoreLayout, z: nat, y: seq<Word>, p: seq<Word>, q: seq<Word>)
    requires |y| == |p| == |q| == 4 && BlocksOk(y, z, 4) && BlocksOk(p, z, 4) && BlocksOk(q, z, 4)
    requires z > 0 && LayoutShifts(l, z) && Solves(l, z, y, p) && Solves(l, z, y, q)
    ensures p == q
  {
    hide Rot, Xor;
    RotInjective(p[0], q[0], l.p1X);
    RotInjective(p[1], q[1], l.s0p2);
    RotInjective(p[2], q[2], l.s1p3);
    RotInjective(p[3], q[3], l.s2p4);
  }

  /** The block with the single one at i. */
  function UnitBlock(z: nat, i: nat): (u: Word)
    ensures |u| == z
  {
    seq(z, j => j == i)
  }

  /** Two different shifts of a unit block differ. */
  lemma ShiftsShow(z: nat, a: nat, b: nat)
    requires a < z && b < z && a != b
    ensures Xor(Rot(UnitBlock(z, a), a), Rot(UnitBlock(z, a), b)) != Zeros(z)
  {
    hide Rot;
    var u := UnitBlock(z, a);
    RotAt(u, a, 0);
    RotAt(u, b, 0);
    assert Xor(Rot(u, a), Rot(u, b))[0];
  }

  lemma RotZeros(z: nat, s: nat)
    requires s < z
    ensures Rot(Zeros(z), s) == Zeros(z)
  {
    hide Rot;
    forall i | 0 <= i < z ensures !Rot(Zeros(z), s)[i] { RotAt(Zeros(z), s, i); }
  }

  /** Four core blocks of which only block c is not zero. */
  function OnlyBlock(z: nat, c: nat, u: Word): (p: seq<Word>)
    requires |u| == z
    ensures |p| == 4 && forall k :: 0 <= k < 4 ==> p[k] == if k == c then u else Zeros(z)
  {
    seq(4, k => if k == c then u else Zeros(z))
  }

  /** An unpaired column is exposed by a unit block in it. */
  lemma UnpairedShows(l: CoreLayout, z: nat) returns (p: seq<Word>)
    requires z > 0 && LayoutShifts(l, z) && !PairedShifts(l)
    ensures |p| == 4 && BlocksOk(p, z, 4) && Residual(l, z, p) != Zeros(z)
  {
    hide Rot, Xor;
    var c, a, b := 1, l.s0p2, l.s1p2;
    if l.s0p2 == l.s1p2 {
      if l.s1p3 != l.s2p3 { c, a, b := 2, l.s1p3, l.s2p3; } else { c, a, b := 3, l.s2p4, l.s3p4; }
    }
    var u := UnitBlock(z, a);
    p := OnlyBlock(z, c, u);
    ShiftsShow(z, a, b);
    ResidualOfOne(l, z, c, u);
  }

  lemma ResidualOfOne(l: CoreLayout, z: nat, c: nat, u: Word)
    requires z > 0 && LayoutShifts(l, z) && |u| == z && 1 <= c <= 3
    ensures Residual(l, z, OnlyBlock(z, c, u))
         == if c == 1 then Xor(Rot(u, l.s0p2), Rot(u, l.s1p2))
            else if c == 2 then Xor(Rot(u, l.s1p3), Rot(u, l.s2p3))
            else Xor(Rot(u, l.s2p4), Rot(u, l.s3p4))
  {
    hide Rot, Xor;
    RotZeros(z, l.s0p2);
    RotZeros(z, l.s1p2);
    RotZeros(z, l.s1p3);
    RotZeros(z, l.s2p3);
    RotZeros(z, l.s2p4);
    RotZeros(z, l.s3p4);
    var v := if c == 1 then Xor(Rot(u, l.s0p2), Rot(u, l.s1p2))
             else if c == 2 then Xor(Rot(u, l.s1p3), Rot(u, l.s2p3))
             else Xor(Rot(u, l.s2p4), Rot(u, l.s3p4));
    XorCancel(v, v);
    XorCancel(Zeros(z), Zeros(z));
  }

  /** No solution leaves a residual in row 3. */
  ghost predicate RowThreeHolds(l: CoreLayout, z: nat)
    requires z > 0 && LayoutShifts(l, z)
  {
    forall y, p :: |y| == 4 && BlocksOk(y, z, 4) && |p| == 4 && BlocksOk(p, z, 4) && Solves(l, z, y, p) ==>
      Residual(l, z, p) == Zeros(z)
  }

  /** The closed form satisfies row 3 for all information sums exactly when the shifts are paired. */
  lemma RowThreeIffPaired(l: CoreLayout, z: nat)
    requires z > 0 && LayoutShifts(l, z)
    ensures RowThreeHolds(l, z) <==> PairedShifts(l)
  {
    hide Rot, Residual, Solves;
    if PairedShifts(l) {
      forall y, p | |y| == 4 && BlocksOk(y, z, 4) && |p| == 4 && BlocksOk(p, z, 4) && Solves(l, z, y, p)
        ensures Residual(l, z, p) == Zeros(z) { ResidualVanishes(l, z, p); }
    } else {
      var p := UnpairedShows(l, z);
      SumsAreSolved(l, z, p);
    }
  }

  // ---- graphs ------------------------------------------------------------------------------------------------------

  ghost predicate AllChecks(p: Params, b: seq<Word>)
    requires ParamsOk(p) && BlocksOk(b, p.z, p.nb)
  {
    forall r :: 0 <= r < p.mb ==> Check(b, p, r) == Zeros(p.z)
  }

  /** On every graph `derive` accepts: the output is a codeword exactly when rows 0 to 2 collect nothing
      beyond the core columns and row 3 collects its residual there. */
  lemma CodewordIffBeyond(p: Params, kb: nat, l: CoreLayout, b: seq<Word>)
    requires ParamsOk(p) && p.nb == kb + p.mb && Derived(p, kb, l) && Encoded(p, kb, l, b)
    ensures AllChecks(p, b)
       <==> (Beyond(b, p, kb, 0) == Beyond(b, p, kb, 1) == Beyond(b, p, kb, 2) == Zeros(p.z)
             && Beyond(b, p, kb, 3) == Residual(l, p.z, b[kb..kb + 4]))
  {
    hide Xor, SumWhere, Solves, CoreOf, ShiftFor, Rot, Check, Residual, InfoSum, Beyond;
    CoreRows(b, p, kb, l);
    var u, v := Residual(l, p.z, b[kb..kb + 4]), Beyond(b, p, kb, 3);
    XorCancel(u, v);
    XorCancel(v, v);
    XorZero(u, v);
    forall r | 4 <= r < p.mb ensures Check(b, p, r) == Zeros(p.z) { ExtensionRowHolds(p, kb, l, b, r); }
    assert Check(b, p, 3) == Xor(u, v);
  }

  lemma XorZero(a: Word, b: Word)
    requires |a| == |b|
    ensures Xor(a, b) == Zeros(|a|) <==> a == b
  {
    if Xor(a, b) == Zeros(|a|) {
      forall i | 0 <= i < |a| ensures a[i] == b[i] { assert !Xor(a, b)[i]; }
    }
  }

  /** The word with the given message and core blocks, its extension blocks read off their rows. */
  ghost function Completed(p: Params, kb: nat, m: seq<Word>, core: seq<Word>): (b: seq<Word>)
    requires ParamsOk(p) && p.nb == kb + p.mb && p.mb >= 4
    requires BlocksOk(m, p.z, kb) && BlocksOk(core, p.z, 4)
    ensures BlocksOk(b, p.z, p.nb) && b[..kb] == m && b[kb..kb + 4] == core
  {
    var b := m + core + Extensions(p, kb, m + core);
    assert b[..kb] == m && b[kb..kb + 4] == core;
    b
  }

  ghost function Extensions(p: Params, kb: nat, head: seq<Word>): (ext: seq<Word>)
    requires ParamsOk(p) && p.mb >= 4 && BlocksOk(head, p.z, kb + 4)
    ensures BlocksOk(ext, p.z, p.mb - 4)
    ensures forall i :: 0 <= i < p.mb - 4 ==> ext[i] == ExtensionOf(p, kb, head, 4 + i)
  {
    seq(p.mb - 4, i requires 0 <= i < p.mb - 4 => ExtensionOf(p, kb, head, 4 + i))
  }

  ghost function ExtensionOf(p: Params, kb: nat, head: seq<Word>, row: nat): (w: Word)
    requires ParamsOk(p) && row < p.mb && BlocksOk(head, p.z, kb + 4)
    ensures |w| == p.z
  {
    SumWhere(head, p.z, Layer(p, row), 0, kb + 4)
  }

  lemma CompletedIsEncoded(p: Params, kb: nat, l: CoreLayout, m: seq<Word>, core: seq<Word>)
    requires ParamsOk(p) && p.nb == kb + p.mb && p.mb >= 4 && LayoutShifts(l, p.z)
    requires BlocksOk(m, p.z, kb) && BlocksOk(core, p.z, 4) && Solves(l, p.z, InfoSums(m, p, kb), core)
    ensures Encoded(p, kb, l, Completed(p, kb, m, core))
  {
    hide SumWhere, Solves;
    var b, head := Completed(p, kb, m, core), m + core;
    assert forall c :: 0 <= c < kb ==> b[c] == m[c];
    SumFrame(m, b, p.z, Layer(p, 0), 0, kb);
    SumFrame(m, b, p.z, Layer(p, 1), 0, kb);
    SumFrame(m, b, p.z, Layer(p, 2), 0, kb);
    SumFrame(m, b, p.z, Layer(p, 3), 0, kb);
    forall row | 4 <= row < p.mb ensures b[kb + row] == SumWhere(b, p.z, Layer(p, row), 0, kb + 4) {
      assert b[kb + row] == Extensions(p, kb, head)[row - 4];
      SumFrame(head, b, p.z, Layer(p, row), 0, kb + 4);
    }
  }

  /** Every four blocks are the information sums of some message. */
  ghost predicate SumsTakeEveryValue(p: Params, kb: nat)
    requires ParamsOk(p) && p.mb >= 4
  {
    forall y :: |y| == 4 && BlocksOk(y, p.z, 4) ==> exists m :: BlocksOk(m, p.z, kb) && InfoSums(m, p, kb) == y
  }

  /** How many edges lead into one of the columns. */
  function HitsIn(edges: seq<Edge>, cols: seq<nat>): nat {
    if |edges| == 0 then 0
    else HitsIn(edges[..|edges| - 1], cols) + (if edges[|edges| - 1].col in cols then 1 else 0)
  }

  /** Each core row has a message column of its own, met once and by no other core row. */
  ghost predicate OwnColumns(p: Params, kb: nat, cols: seq<nat>, shifts: seq<nat>)
    requires ParamsOk(p) && p.mb >= 4
  {
    && |cols| == |shifts| == 4 && (forall i, j :: 0 <= i < j < 4 ==> cols[i] != cols[j])
    && (forall r :: 0 <= r < 4 ==> cols[r] < kb && shifts[r] < p.z && HitsIn(Layer(p, r), cols) == 1)
    && forall r, e :: 0 <= r < 4 && 0 <= e < |Layer(p, r)| && Layer(p, r)[e].col in cols ==>
         Layer(p, r)[e] == Edge(cols[r], shifts[r])
  }

  /** A message that is zero outside the columns: no hits collect nothing, one hit collects its block. */
  lemma {:induction false} OwnSum(m: seq<Word>, z: nat, edges: seq<Edge>, cols: seq<nat>, c: nat, s: nat)
    requires BlocksOk(m, z, |m|) && c < |m| && s < z && HitsIn(edges, cols) <= 1
    requires forall i :: 0 <= i < |m| && i !in cols ==> m[i] == Zeros(z)
    requires forall e :: 0 <= e < |edges| ==> edges[e].shift < z && (edges[e].col in cols ==> edges[e] == Edge(c, s))
    ensures SumWhere(m, z, edges, 0, |m|) == if HitsIn(edges, cols) == 0 then Zeros(z) else Rot(m[c], s)
    decreases |edges|
  {
    hide Xor, Rot;
    if |edges| > 0 {
      var rest, e := edges[..|edges| - 1], edges[|edges| - 1];
      OwnSum(m, z, rest, cols, c, s);
      RotZeros(z, e.shift);
      XorCancel(SumWhere(m, z, rest, 0, |m|), Zeros(z));
      XorCancel(Rot(m[c], s), Zeros(z));
    }
  }

  /** The message whose own-column blocks give the wanted sums. */
  ghost function OwnMessage(z: nat, kb: nat, cols: seq<nat>, shifts: seq<nat>, y: seq<Word>): (m: seq<Word>)
    requires |cols| == |shifts| == |y| == 4 && BlocksOk(y, z, 4) && forall r :: 0 <= r < 4 ==> shifts[r] < z
    ensures BlocksOk(m, z, kb)
  {
    seq(kb, i => OwnBlock(z, cols, shifts, y, i, 4))
  }

  ghost function OwnBlock(z: nat, cols: seq<nat>, shifts: seq<nat>, y: seq<Word>, i: int, n: nat): (w: Word)
    requires |cols| == |shifts| == |y| == 4 && BlocksOk(y, z, 4) && n <= 4 && forall r :: 0 <= r < 4 ==> shifts[r] < z
    ensures |w| == z
    ensures (forall r :: 0 <= r < n ==> cols[r] != i) ==> w == Zeros(z)
    ensures forall r :: 0 <= r < n && cols[r] == i && (forall k :: r < k < n ==> cols[k] != i) ==>
              w == Rot(y[r], Undo(shifts[r], z))
  {
    if n == 0 then Zeros(z)
    else if cols[n - 1] == i then Rot(y[n - 1], Undo(shifts[n - 1], z))
    else OwnBlock(z, cols, shifts, y, i, n - 1)
  }

  /** Own columns make the information sums take every value. */
  lemma OwnColumnsSuffice(p: Params, kb: nat, cols: seq<nat>, shifts: seq<nat>)
    requires ParamsOk(p) && p.mb >= 4 && OwnColumns(p, kb, cols, shifts)
    ensures SumsTakeEveryValue(p, kb)
  {
    hide SumWhere, Rot, HitsIn, Undo;
    forall y | |y| == 4 && BlocksOk(y, p.z, 4)
      ensures exists m :: BlocksOk(m, p.z, kb) && InfoSums(m, p, kb) == y
    {
      var m := OwnMessage(p.z, kb, cols, shifts, y);
      forall r | 0 <= r < 4 ensures InfoSum(m, p, kb, r) == y[r] {
        LayerBounds(p, r);
        assert m[cols[r]] == Rot(y[r], Undo(shifts[r], p.z));
        OwnSum(m, p.z, Layer(p, r), cols, cols[r], shifts[r]);
        RotUndo(y[r], shifts[r]);
      }
      assert InfoSums(m, p, kb) == y;
    }
  }

  ghost predicate EveryMessageEncodes(p: Params, kb: nat, l: CoreLayout)
    requires ParamsOk(p) && p.nb == kb + p.mb && p.mb >= 4
  {
    forall b :: Encoded(p, kb, l, b) ==> AllChecks(p, b)
  }

  /** On graphs whose core rows stay inside and whose information sums take every value, the encoder is
      right for every message exactly when the shifts are paired. */
  lemma EncodesIffPaired(p: Params, kb: nat, l: CoreLayout)
    requires ParamsOk(p) && p.nb == kb + p.mb && Derived(p, kb, l) && CoreRowsStayInside(p, kb)
             && SumsTakeEveryValue(p, kb)
    ensures EveryMessageEncodes(p, kb, l) <==> PairedShifts(l)
  {
    hide SumWhere, Solves, CoreOf, ShiftFor, Rot, Check, Residual, InfoSums, CoreRowsStayInside;
    if PairedShifts(l) {
      forall b | Encoded(p, kb, l, b) ensures AllChecks(p, b) { EncodedIsCodeword(p, kb, l, b); }
    } else {
      DerivedShifts(p, kb, l);
      var core := UnpairedShows(l, p.z);
      SumsAreSolved(l, p.z, core);
      var y := SumsFor(l, p.z, core);
      var m :| BlocksOk(m, p.z, kb) && InfoSums(m, p, kb) == y;
      CompletedIsEncoded(p, kb, l, m, core);
      CodewordIffNoResidual(p, kb, l, Completed(p, kb, m, core));
    }
  }

  // ---- the pairing of shifts is needed -------------------------------------------------------------------------

  /** A graph `derive` accepts in which p2 carries shift 0 in row 0 but shift 1 in row 1. */
  function Unpaired(): Params {
    Params(3, 4, 5, [0, 3, 6, 8, 10],
           [Edge(0, 0), Edge(1, 1), Edge(2, 0), Edge(1, 0), Edge(2, 1), Edge(3, 0), Edge(3, 0), Edge(4, 0),
            Edge(1, 1), Edge(4, 0)])
  }

  function UnpairedLayout(): CoreLayout {
    CoreLayout(1, 0, true, 0, 1, 0, 0, 0, 0)
  }

  /** The word the encoder makes of the message 100. */
  function UnpairedWord(): seq<Word> {
    [[true, false, false], [true, false, false], [true, false, true], [true, true, true], [true, true, true]]
  }

  lemma UnpairedRows()
    ensures ParamsOk(Unpaired())
    ensures Layer(Unpaired(), 0) == [Edge(0, 0), Edge(1, 1), Edge(2, 0)]
    ensures Layer(Unpaired(), 1) == [Edge(1, 0), Edge(2, 1), Edge(3, 0)]
    ensures Layer(Unpaired(), 2) == [Edge(3, 0), Edge(4, 0)] && Layer(Unpaired(), 3) == [Edge(1, 1), Edge(4, 0)]
  {
  }

  lemma CoreOfTwo(a: Edge, b: Edge)
    requires 1 <= a.col < 5 && 1 <= b.col < 5
    ensures CoreOf([a, b], 1) == [Edge(a.col - 1, a.shift), Edge(b.col - 1, b.shift)]
  {
    assert [a, b][..1] == [a] && [a][..0] == [];
    assert CoreOf([a], 1) == [Edge(a.col - 1, a.shift)];
  }

  lemma CoreOfThree(a: Edge, b: Edge, c: Edge)
    requires a.col < 5 && 1 <= b.col < 5 && 1 <= c.col < 5
    ensures CoreOf([a, b, c], 1) == (if a.col == 0 then [] else [Edge(a.col - 1, a.shift)])
                                    + [Edge(b.col - 1, b.shift), Edge(c.col - 1, c.shift)]
  {
    assert [a, b, c][..2] == [a, b] && [a, b][..1] == [a] && [a][..0] == [];
    assert CoreOf([a], 1) == if a.col == 0 then [] else [Edge(a.col - 1, a.shift)];
    assert CoreOf([a, b], 1) == CoreOf([a], 1) + [Edge(b.col - 1, b.shift)];
  }

  lemma UnpairedIsDerived()
    ensures ParamsOk(Unpaired()) && Derived(Unpaired(), 1, UnpairedLayout()) && CoreRowsStayInside(Unpaired(), 1)
    ensures !PairedShifts(UnpairedLayout())
  {
    hide CoreOf, Layer;
    UnpairedRows();
    CoreOfThree(Edge(0, 0), Edge(1, 1), Edge(2, 0));
    CoreOfThree(Edge(1, 0), Edge(2, 1), Edge(3, 0));
    CoreOfTwo(Edge(3, 0), Edge(4, 0));
    CoreOfTwo(Edge(1, 1), Edge(4, 0));
    FindTwo(Edge(0, 1), Edge(1, 0));
    FindThree(Edge(0, 0), Edge(1, 1), Edge(2, 0));
    FindTwo(Edge(2, 0), Edge(3, 0));
    FindTwo(Edge(0, 1), Edge(3, 0));
    assert [] + [Edge(0, 1), Edge(1, 0)] == [Edge(0, 1), Edge(1, 0)];
    assert [Edge(0, 0)] + [Edge(1, 1), Edge(2, 0)] == [Edge(0, 0), Edge(1, 1), Edge(2, 0)];
  }

  lemma FindTwo(a: Edge, b: Edge)
    requires a.col != b.col
    ensures ShiftFor([a, b], a.col) == Some(a.shift) && ShiftFor([a, b], b.col) == Some(b.shift)
    ensures forall o :: o != a.col && o != b.col ==> ShiftFor([a, b], o) == None
  {
    assert [a, b][1..] == [b] && [b][1..] == [];
  }

  lemma FindThree(a: Edge, b: Edge, c: Edge)
    requires a.col != b.col && a.col != c.col && b.col != c.col
    ensures ShiftFor([a, b, c], a.col) == Some(a.shift) && ShiftFor([a, b, c], b.col) == Some(b.shift)
    ensures ShiftFor([a, b, c], c.col) == Some(c.shift)
  {
    assert [a, b, c][1..] == [b, c];
    FindTwo(b, c);
  }

  lemma RotThree(a: bool, b: bool, c: bool)
    ensures Rot([a, b, c], 1) == [b, c, a] && Rot([a, b, c], 0) == [a, b, c]
  {
    var v := [a, b, c];
    hide Rot;
    RotZero(v);
    RotAt(v, 1, 0);
    RotAt(v, 1, 1);
    RotAt(v, 1, 2);
  }

  lemma XorThree(a: bool, b: bool, c: bool, d: bool, e: bool, f: bool)
    ensures Xor([a, b, c], [d, e, f]) == [a != d, b != e, c != f]
  {
  }

  lemma UnpairedFirstSum(b: seq<Word>)
    requires BlocksOk(b, 3, |b|) && |b| == 5
    ensures SumWhere(b, 3, [Edge(0, 0), Edge(1, 1), Edge(2, 0)], 0, 1) == b[0]
  {
    hide Xor, Rot;
    var r1, r2, r3 := [Edge(0, 0)], [Edge(0, 0), Edge(1, 1)], [Edge(0, 0), Edge(1, 1), Edge(2, 0)];
    assert r3[..2] == r2 && r2[..1] == r1 && r1[..0] == [];
    RotZero(b[0]);
    XorCancel(b[0], b[0]);
    assert SumWhere(b, 3, r1, 0, 1) == b[0];
    assert SumWhere(b, 3, r2, 0, 1) == b[0];
  }

  lemma UnpairedSums()
    ensures ParamsOk(Unpaired()) && BlocksOk(UnpairedWord(), 3, 5)
    ensures InfoSums(UnpairedWord(), Unpaired(), 1)
         == [[true, false, false], [false, false, false], [false, false, false], [false, false, false]]
  {
    hide Layer, SumWhere;
    UnpairedRows();
    var b := UnpairedWord();
    UnpairedFirstSum(b);
    SumNone(b, 3, [Edge(1, 0), Edge(2, 1), Edge(3, 0)], 0, 1);
    SumNone(b, 3, [Edge(3, 0), Edge(4, 0)], 0, 1);
    SumNone(b, 3, [Edge(1, 1), Edge(4, 0)], 0, 1);
    assert Zeros(3) == [false, false, false];
  }

  lemma UnpairedEquations(y: seq<Word>, c: seq<Word>)
    requires y == [[true, false, false], [false, false, false], [false, false, false], [false, false, false]]
    requires c == [[true, false, false], [true, false, true], [true, true, true], [true, true, true]]
    ensures Solves(UnpairedLayout(), 3, y, c)
  {
    hide Xor, Rot;
    RotThree(true, false, false);
    RotThree(true, false, true);
    RotThree(true, true, true);
    XorThree(true, false, false, false, false, false);
    XorThree(true, false, false, false, false, true);
    XorThree(false, false, false, false, true, true);
    XorThree(false, true, true, true, false, false);
    XorThree(false, false, false, true, true, true);
  }

  lemma UnpairedResidual(c: seq<Word>)
    requires c == [[true, false, false], [true, false, true], [true, true, true], [true, true, true]]
    ensures Residual(UnpairedLayout(), 3, c) == [true, true, false]
  {
    hide Xor, Rot;
    RotThree(true, false, true);
    RotThree(true, true, true);
    XorThree(true, false, true, false, true, true);
    XorThree(true, true, true, true, true, true);
    XorThree(true, true, false, false, false, false);
  }

  lemma UnpairedSolves()
    ensures ParamsOk(Unpaired()) && Encoded(Unpaired(), 1, UnpairedLayout(), UnpairedWord())
    ensures Residual(UnpairedLayout(), 3, UnpairedWord()[1..5]) == [true, true, false]
  {
    hide SumWhere, Solves, Residual, InfoSums;
    UnpairedSums();
    var c := UnpairedWord()[1..5];
    assert c == [[true, false, false], [true, false, true], [true, true, true], [true, true, true]];
    UnpairedEquations(InfoSums(UnpairedWord(), Unpaired(), 1), c);
    UnpairedResidual(c);
  }

  /** `derive` alone does not make the encoder's output a codeword. */
  lemma PairingIsNeeded()
    ensures ParamsOk(Unpaired()) && Derived(Unpaired(), 1, UnpairedLayout()) && CoreRowsStayInside(Unpaired(), 1)
    ensures Encoded(Unpaired(), 1, UnpairedLayout(), UnpairedWord())
    ensures exists r :: 0 <= r < 4 && Check(UnpairedWord(), Unpaired(), r) != Zeros(3)
  {
    hide Layer, SumWhere, Residual, Encoded, Derived, CoreRowsStayInside, PairedShifts, Check;
    UnpairedIsDerived();
    UnpairedSolves();
    assert ([true, true, false])[0] && !Zeros(3)[0];
    CodewordIffNoResidual(Unpaired(), 1, UnpairedLayout(), UnpairedWord());
  }

  // ---- core rows must stay inside ---------------------------------------------------------------

  /** A graph `derive` accepts in which row 0 also uses the parity column of row 4. */
  function Straying(): Params {
    Params(1, 5, 6, [0, 3, 6, 8, 10, 12],
           [Edge(1, 0), Edge(2, 0), Edge(5, 0), Edge(1, 0), Edge(2, 0), Edge(3, 0), Edge(3, 0), Edge(4, 0),
            Edge(1, 0), Edge(4, 0), Edge(0, 0), Edge(5, 0)])
  }

  function StrayingLayout(): CoreLayout {
    CoreLayout(0, 0, true, 0, 0, 0, 0, 0, 0)
  }

  /** The word the encoder makes of the message 1. */
  function StrayingWord(): seq<Word> {
    [[true], [false], [false], [false], [false], [true]]
  }

  lemma StrayingRows()
    ensures ParamsOk(Straying())
    ensures Layer(Straying(), 0) == [Edge(1, 0), Edge(2, 0), Edge(5, 0)]
    ensures Layer(Straying(), 1) == [Edge(1, 0), Edge(2, 0), Edge(3, 0)]
    ensures Layer(Straying(), 2) == [Edge(3, 0), Edge(4, 0)] && Layer(Straying(), 3) == [Edge(1, 0), Edge(4, 0)]
    ensures Layer(Straying(), 4) == [Edge(0, 0), Edge(5, 0)]
  {
  }

  lemma StrayingIsDerived()
    ensures ParamsOk(Straying()) && Derived(Straying(), 1, StrayingLayout()) && PairedShifts(StrayingLayout())
    ensures !CoreRowsStayInside(Straying(), 1)
  {
    hide CoreOf, Layer;
    StrayingRows();
    CoreOfTwoMore(Edge(1, 0), Edge(2, 0), Edge(5, 0));
    CoreOfThree(Edge(1, 0), Edge(2, 0), Edge(3, 0));
    CoreOfTwo(Edge(3, 0), Edge(4, 0));
    CoreOfTwo(Edge(1, 0), Edge(4, 0));
    FindTwo(Edge(0, 0), Edge(1, 0));
    FindThree(Edge(0, 0), Edge(1, 0), Edge(2, 0));
    FindTwo(Edge(2, 0), Edge(3, 0));
    FindTwo(Edge(0, 0), Edge(3, 0));
    assert [Edge(0, 0)] + [Edge(1, 0), Edge(2, 0)] == [Edge(0, 0), Edge(1, 0), Edge(2, 0)];
    StrayingExtension();
    assert Layer(Straying(), 0)[2].col == 5;
  }

  lemma CoreOfTwoMore(a: Edge, b: Edge, c: Edge)
    requires 1 <= a.col < 5 && 1 <= b.col < 5 && 5 <= c.col
    ensures CoreOf([a, b, c], 1) == [Edge(a.col - 1, a.shift), Edge(b.col - 1, b.shift)]
  {
    assert [a, b, c][..2] == [a, b];
    CoreOfTwo(a, b);
  }

  lemma StrayingExtension()
    ensures ExtensionRow([Edge(0, 0), Edge(5, 0)], 1, 4)
  {
    var r := [Edge(0, 0), Edge(5, 0)];
    assert r[..1] == [Edge(0, 0)] && r[..1][..0] == [];
    assert ExtensionHits(r[..1], 1) == 0;
  }

  lemma StrayingIsEncoded()
    ensures ParamsOk(Straying()) && Encoded(Straying(), 1, StrayingLayout(), StrayingWord())
    ensures StrayingWord()[1..5] == [[false], [false], [false], [false]]
  {
    hide Layer, SumWhere, Solves;
    StrayingRows();
    var b := StrayingWord();
    SumNone(b, 1, [Edge(1, 0), Edge(2, 0), Edge(5, 0)], 0, 1);
    SumNone(b, 1, [Edge(1, 0), Edge(2, 0), Edge(3, 0)], 0, 1);
    SumNone(b, 1, [Edge(3, 0), Edge(4, 0)], 0, 1);
    SumNone(b, 1, [Edge(1, 0), Edge(4, 0)], 0, 1);
    var c := b[1..5];
    assert c == [[false], [false], [false], [false]] && Zeros(1) == [false];
    AllZeroSolves(StrayingLayout(), [Zeros(1), Zeros(1), Zeros(1), Zeros(1)], c);
    LastRowSums(b);
  }

  lemma AllZeroSolves(l: CoreLayout, y: seq<Word>, c: seq<Word>)
    requires y == c == [[false], [false], [false], [false]] && LayoutShifts(l, 1)
    ensures Solves(l, 1, y, c)
  {
    hide Rot;
    assert Zeros(1) == [false];
    RotZeros(1, 0);
  }

  lemma LastRowSums(b: seq<Word>)
    requires BlocksOk(b, 1, |b|) && |b| == 6 && b[5] == b[0]
    ensures SumWhere(b, 1, [Edge(0, 0), Edge(5, 0)], 0, 5) == b[5]
  {
    hide Xor, Rot;
    var r := [Edge(0, 0), Edge(5, 0)];
    assert r[..1] == [Edge(0, 0)] && r[..1][..0] == [];
    RotZero(b[0]);
    XorCancel(b[0], b[0]);
    assert SumWhere(b, 1, r[..1], 0, 5) == b[0];
  }

  lemma FirstRowStrays(b: seq<Word>)
    requires BlocksOk(b, 1, |b|) && |b| == 6
    ensures SumWhere(b, 1, [Edge(1, 0), Edge(2, 0), Edge(5, 0)], 5, 6) == b[5]
  {
    hide Xor, Rot;
    var r := [Edge(1, 0), Edge(2, 0), Edge(5, 0)];
    assert r[..2] == [Edge(1, 0), Edge(2, 0)];
    SumNone(b, 1, r[..2], 5, 6);
    RotZero(b[5]);
    XorCancel(b[5], b[5]);
  }

  /** Paired shifts alone do not make the encoder's output a codeword either. */
  lemma StayingInsideIsNeeded()
    ensures ParamsOk(Straying()) && Derived(Straying(), 1, StrayingLayout()) && PairedShifts(StrayingLayout())
    ensures !CoreRowsStayInside(Straying(), 1)
    ensures Encoded(Straying(), 1, StrayingLayout(), StrayingWord()) && !AllChecks(Straying(), StrayingWord())
  {
    hide Layer, SumWhere, Encoded, Derived, CoreRowsStayInside, PairedShifts, Check, AllChecks, Residual;
    StrayingIsDerived();
    StrayingIsEncoded();
    EncodedShape(Straying(), 1, StrayingLayout(), StrayingWord());
    CodewordIffBeyond(Straying(), 1, StrayingLayout(), StrayingWord());
    StrayingRows();
    FirstRowStrays(StrayingWord());
    assert [true][0] && !Zeros(1)[0];
  }

  lemma EncodedShape(p: Params, kb: nat, l: CoreLayout, b: seq<Word>)
    requires ParamsOk(p) && p.nb == kb + p.mb && p.mb >= 4 && Encoded(p, kb, l, b)
    ensures BlocksOk(b, p.z, p.nb) && BlocksOk(b[kb..kb + 4], p.z, 4)
  {
  }

  // ---- a finite test that decides every graph -----------------------------------------------------------------------

  /** Two words of blocks added. */
  ghost function AddBlocks(a: seq<Word>, b: seq<Word>, z: nat): (c: seq<Word>)
    requires BlocksOk(a, z, |a|) && BlocksOk(b, z, |a|)
    ensures BlocksOk(c, z, |a|) && forall i :: 0 <= i < |a| ==> c[i] == Xor(a[i], b[i])
  {
    seq(|a|, i requires 0 <= i < |a| => Xor(a[i], b[i]))
  }

  lemma RotLinear(a: Word, b: Word, s: nat)
    requires |a| == |b|
    ensures Rot(Xor(a, b), s) == Xor(Rot(a, s), Rot(b, s))
  {
  }

  lemma {:induction false} SumLinear(a: seq<Word>, b: seq<Word>, z: nat, edges: seq<Edge>, lo: nat, hi: nat)
    requires BlocksOk(a, z, |a|) && BlocksOk(b, z, |b|) && |a| == |b| && hi <= |a|
    ensures SumWhere(AddBlocks(a, b, z), z, edges, lo, hi)
            == Xor(SumWhere(a, z, edges, lo, hi), SumWhere(b, z, edges, lo, hi))
    decreases |edges|
  {
    hide Xor, Rot;
    XorCancel(Zeros(z), Zeros(z));
    if |edges| > 0 {
      var rest, e := edges[..|edges| - 1], edges[|edges| - 1];
      SumLinear(a, b, z, rest, lo, hi);
      if lo <= e.col < hi {
        RotLinear(a[e.col], b[e.col], e.shift);
        XorMiddle(SumWhere(a, z, rest, lo, hi), SumWhere(b, z, rest, lo, hi),
                  Rot(a[e.col], e.shift), Rot(b[e.col], e.shift));
      }
    }
  }

  lemma SolvesLinear(l: CoreLayout, z: nat, y: seq<Word>, p: seq<Word>, y': seq<Word>, p': seq<Word>)
    requires |y| == |p| == |y'| == |p'| == 4 && BlocksOk(y, z, 4) && BlocksOk(p, z, 4) && BlocksOk(y', z, 4)
             && BlocksOk(p', z, 4)
    requires z > 0 && LayoutShifts(l, z) && Solves(l, z, y, p) && Solves(l, z, y', p')
    ensures Solves(l, z, AddBlocks(y, y', z), AddBlocks(p, p', z))
  {
    hide Rot, Xor;
    var q, v := AddBlocks(p, p', z), AddBlocks(y, y', z);
    RotLinear(p[0], p'[0], l.p1X);
    RotLinear(p[0], p'[0], l.p1Edge);
    RotLinear(p[1], p'[1], l.s0p2);
    RotLinear(p[1], p'[1], l.s1p2);
    RotLinear(p[2], p'[2], l.s1p3);
    RotLinear(p[2], p'[2], l.s2p3);
    RotLinear(p[3], p'[3], l.s2p4);
    AddThree(y[0], y[1], y[2], y'[0], y'[1], y'[2]);
    XorMiddle(Xor(Xor(y[0], y[1]), y[2]), Xor(Xor(y'[0], y'[1]), y'[2]), y[3], y'[3]);
    XorMiddle(y[0], y'[0], Rot(p[0], l.p1Edge), Rot(p'[0], l.p1Edge));
    XorMiddle(y[1], y'[1], Rot(p[1], l.s1p2), Rot(p'[1], l.s1p2));
    XorMiddle(y[2], y'[2], Rot(p[2], l.s2p3), Rot(p'[2], l.s2p3));
    AddThree(y[1], Rot(p[1], l.s1p2), Rot(p[0], l.p1X), y'[1], Rot(p'[1], l.s1p2), Rot(p'[0], l.p1X));
    AddThree(y[2], Rot(p[2], l.s2p3), Rot(p[0], l.p1X), y'[2], Rot(p'[2], l.s2p3), Rot(p'[0], l.p1X));
  }

  lemma AddThree(a: Word, b: Word, c: Word, a': Word, b': Word, c': Word)
    requires |a| == |b| == |c| == |a'| == |b'| == |c'|
    ensures Xor(Xor(Xor(a, a'), Xor(b, b')), Xor(c, c')) == Xor(Xor(Xor(a, b), c), Xor(Xor(a', b'), c'))
  {
    hide Xor;
    XorMiddle(a, a', b, b');
    XorMiddle(Xor(a, b), Xor(a', b'), c, c');
  }

  /** The sum of two encodings is an encoding. */
  lemma EncodedAdds(p: Params, kb: nat, l: CoreLayout, a: seq<Word>, b: seq<Word>)
    requires ParamsOk(p) && p.nb == kb + p.mb && p.mb >= 4 && Encoded(p, kb, l, a) && Encoded(p, kb, l, b)
    ensures Encoded(p, kb, l, AddBlocks(a, b, p.z))
  {
    hide SumWhere, Solves, Xor;
    var c := AddBlocks(a, b, p.z);
    SumLinear(a, b, p.z, Layer(p, 0), 0, kb);
    SumLinear(a, b, p.z, Layer(p, 1), 0, kb);
    SumLinear(a, b, p.z, Layer(p, 2), 0, kb);
    SumLinear(a, b, p.z, Layer(p, 3), 0, kb);
    assert InfoSums(c, p, kb) == AddBlocks(InfoSums(a, p, kb), InfoSums(b, p, kb), p.z);
    assert c[kb..kb + 4] == AddBlocks(a[kb..kb + 4], b[kb..kb + 4], p.z);
    SolvesLinear(l, p.z, InfoSums(a, p, kb), a[kb..kb + 4], InfoSums(b, p, kb), b[kb..kb + 4]);
    forall row | 4 <= row < p.mb ensures c[kb + row] == SumWhere(c, p.z, Layer(p, row), 0, kb + 4) {
      SumLinear(a, b, p.z, Layer(p, row), 0, kb + 4);
    }
  }

  lemma ChecksAdd(p: Params, a: seq<Word>, b: seq<Word>)
    requires ParamsOk(p) && BlocksOk(a, p.z, p.nb) && BlocksOk(b, p.z, p.nb) && AllChecks(p, a) && AllChecks(p, b)
    ensures AllChecks(p, AddBlocks(a, b, p.z))
  {
    hide SumWhere, Xor;
    forall r | 0 <= r < p.mb ensures Check(AddBlocks(a, b, p.z), p, r) == Zeros(p.z) {
      SumLinear(a, b, p.z, Layer(p, r), 0, p.nb);
      assert Check(a, p, r) == Check(b, p, r) == Zeros(p.z);
      XorCancel(Zeros(p.z), Zeros(p.z));
    }
  }

  /** A message has one encoding. */
  lemma EncodedUnique(p: Params, kb: nat, l: CoreLayout, a: seq<Word>, b: seq<Word>)
    requires ParamsOk(p) && p.nb == kb + p.mb && p.mb >= 4 && Encoded(p, kb, l, a) && Encoded(p, kb, l, b)
    requires a[..kb] == b[..kb]
    ensures a == b
  {
    hide SumWhere, Solves;
    SameInfoSums(a, b, p, kb);
    SolvesUnique(l, p.z, InfoSums(a, p, kb), a[kb..kb + 4], b[kb..kb + 4]);
    forall c | 0 <= c < kb + 4 ensures a[c] == b[c] {
      if c < kb { assert a[..kb][c] == b[..kb][c]; } else { assert a[kb..kb + 4][c - kb] == b[kb..kb + 4][c - kb]; }
    }
    forall c | kb + 4 <= c < p.nb ensures a[c] == b[c] {
      var row := c - kb;
      SumFrame(a, b, p.z, Layer(p, row), 0, kb + 4);
      assert a[kb + row] == SumWhere(a, p.z, Layer(p, row), 0, kb + 4);
    }
  }

  /** The core blocks that solve given information sums. */
  lemma SolutionOf(l: CoreLayout, z: nat, y: seq<Word>) returns (c: seq<Word>)
    requires |y| == 4 && BlocksOk(y, z, 4) && z > 0 && LayoutShifts(l, z)
    ensures |c| == 4 && BlocksOk(c, z, 4) && Solves(l, z, y, c)
  {
    hide Rot, Xor, Undo;
    var s0 := Xor(Xor(Xor(y[0], y[1]), y[2]), y[3]);
    RotUndo(s0, l.p1X);
    var c0 := Rot(s0, Undo(l.p1X, z));
    var s1 := Xor(y[0], Rot(c0, l.p1Edge));
    RotUndo(s1, l.s0p2);
    var c1 := Rot(s1, Undo(l.s0p2, z));
    var s2 := if l.rowXIs1 then Xor(Xor(y[1], Rot(c1, l.s1p2)), s0) else Xor(y[1], Rot(c1, l.s1p2));
    RotUndo(s2, l.s1p3);
    var c2 := Rot(s2, Undo(l.s1p3, z));
    var s3 := if l.rowXIs1 then Xor(y[2], Rot(c2, l.s2p3)) else Xor(Xor(y[2], Rot(c2, l.s2p3)), s0);
    RotUndo(s3, l.s2p4);
    c := [c0, c1, c2, Rot(s3, Undo(l.s2p4, z))];
  }

  /** Every message has an encoding. */
  lemma EncodingOf(p: Params, kb: nat, l: CoreLayout, m: seq<Word>) returns (b: seq<Word>)
    requires ParamsOk(p) && p.nb == kb + p.mb && p.mb >= 4 && LayoutShifts(l, p.z) && BlocksOk(m, p.z, kb)
    ensures Encoded(p, kb, l, b) && b[..kb] == m
  {
    hide SumWhere, Solves, Encoded;
    var core := SolutionOf(l, p.z, InfoSums(m, p, kb));
    CompletedIsEncoded(p, kb, l, m, core);
    b := Completed(p, kb, m, core);
  }

  /** The encoding of m satisfies every check. */
  ghost predicate EncodesRight(p: Params, kb: nat, l: CoreLayout, m: seq<Word>)
    requires ParamsOk(p) && p.nb == kb + p.mb && p.mb >= 4
  {
    forall b :: Encoded(p, kb, l, b) && b[..kb] == m ==> AllChecks(p, b)
  }

  lemma SumEncodesRight(p: Params, kb: nat, l: CoreLayout, m: seq<Word>, n: seq<Word>)
    requires ParamsOk(p) && p.nb == kb + p.mb && p.mb >= 4 && LayoutShifts(l, p.z)
    requires BlocksOk(m, p.z, kb) && BlocksOk(n, p.z, kb) && EncodesRight(p, kb, l, m) && EncodesRight(p, kb, l, n)
    ensures EncodesRight(p, kb, l, AddBlocks(m, n, p.z))
  {
    hide SumWhere, Solves, Xor, AllChecks;
    forall b | Encoded(p, kb, l, b) && b[..kb] == AddBlocks(m, n, p.z) ensures AllChecks(p, b) {
      var c := SumOfEncodings(p, kb, l, m, n);
      EncodedUnique(p, kb, l, b, c);
    }
  }

  lemma SumOfEncodings(p: Params, kb: nat, l: CoreLayout, m: seq<Word>, n: seq<Word>) returns (c: seq<Word>)
    requires ParamsOk(p) && p.nb == kb + p.mb && p.mb >= 4 && LayoutShifts(l, p.z)
    requires BlocksOk(m, p.z, kb) && BlocksOk(n, p.z, kb) && EncodesRight(p, kb, l, m) && EncodesRight(p, kb, l, n)
    ensures Encoded(p, kb, l, c) && c[..kb] == AddBlocks(m, n, p.z) && AllChecks(p, c)
  {
    hide SumWhere, Solves, Xor, AllChecks;
    var a := EncodingOf(p, kb, l, m);
    var b := EncodingOf(p, kb, l, n);
    EncodedShape(p, kb, l, a);
    EncodedShape(p, kb, l, b);
    c := AddBlocks(a, b, p.z);
    EncodedAdds(p, kb, l, a, b);
    ChecksAdd(p, a, b);
    assert c[..kb] == AddBlocks(a[..kb], b[..kb], p.z);
  }

  /** The zero message encodes to zero. */
  lemma ZeroEncodesRight(p: Params, kb: nat, l: CoreLayout)
    requires ParamsOk(p) && p.nb == kb + p.mb && p.mb >= 4 && LayoutShifts(l, p.z)
    ensures EncodesRight(p, kb, l, seq(kb, _ => Zeros(p.z)))
  {
    hide SumWhere, Solves, Xor;
    var m := seq(kb, _ => Zeros(p.z));
    forall b | Encoded(p, kb, l, b) && b[..kb] == m ensures AllChecks(p, b) {
      EncodedAdds(p, kb, l, b, b);
      XorCancel(Zeros(p.z), Zeros(p.z));
      assert AddBlocks(b, b, p.z)[..kb] == b[..kb];
      EncodedUnique(p, kb, l, b, AddBlocks(b, b, p.z));
      forall r | 0 <= r < p.mb ensures Check(b, p, r) == Zeros(p.z) {
        SumLinear(b, b, p.z, Layer(p, r), 0, p.nb);
        XorCancel(Check(b, p, r), Check(b, p, r));
      }
    }
  }

  function UnitRow(z: nat, c: nat, j: nat, i: nat): (w: Word)
    ensures |w| == z
  {
    if i == c then UnitBlock(z, j) else Zeros(z)
  }

  /** The message with the single one at bit j of block c. */
  function UnitMessage(kb: nat, z: nat, c: nat, j: nat): (m: seq<Word>)
    ensures |m| == kb && forall i :: 0 <= i < kb ==> |m[i]| == z
  {
    seq(kb, i requires 0 <= i < kb => UnitRow(z, c, j, i))
  }

  /** m up to bit j of block c, zeros from there on. */
  function UpTo(m: seq<Word>, z: nat, c: nat, j: nat): (r: seq<Word>)
    requires forall i :: 0 <= i < |m| ==> |m[i]| == z
    ensures |r| == |m| && forall i :: 0 <= i < |m| ==> |r[i]| == z
  {
    seq(|m|, i requires 0 <= i < |m| => Before(m[i], if i < c then z else if i == c then j else 0))
  }

  /** The first j bits of w, zeros from there on. */
  function Before(w: Word, j: nat): (r: Word)
    ensures |r| == |w|
  {
    seq(|w|, k requires 0 <= k < |w| => k < j && w[k])
  }

  lemma UpToBit(m: seq<Word>, z: nat, c: nat, j: nat)
    requires (forall i :: 0 <= i < |m| ==> |m[i]| == z) && c < |m| && j < z
    ensures UpTo(m, z, c, j + 1)
         == if m[c][j] then AddBlocks(UpTo(m, z, c, j), UnitMessage(|m|, z, c, j), z) else UpTo(m, z, c, j)
  {
    var a, u := UpTo(m, z, c, j), UnitMessage(|m|, z, c, j);
    var goal := if m[c][j] then AddBlocks(a, u, z) else a;
    forall i | 0 <= i < |m| ensures UpTo(m, z, c, j + 1)[i] == goal[i] {
      if m[c][j] { assert goal[i] == Xor(a[i], u[i]); }
      forall k | 0 <= k < z ensures UpTo(m, z, c, j + 1)[i][k] == goal[i][k] {}
    }
  }

  lemma UpToBlock(m: seq<Word>, z: nat, c: nat)
    requires (forall i :: 0 <= i < |m| ==> |m[i]| == z) && c < |m|
    ensures UpTo(m, z, c, z) == UpTo(m, z, c + 1, 0)
  {
    forall i | 0 <= i < |m| ensures UpTo(m, z, c, z)[i] == UpTo(m, z, c + 1, 0)[i] {}
  }

  lemma UpToEnds(m: seq<Word>, z: nat)
    requires forall i :: 0 <= i < |m| ==> |m[i]| == z
    ensures UpTo(m, z, |m|, 0) == m && UpTo(m, z, 0, 0) == seq(|m|, _ => Zeros(z))
  {
    forall i | 0 <= i < |m| ensures UpTo(m, z, |m|, 0)[i] == m[i] && UpTo(m, z, 0, 0)[i] == Zeros(z) {}
  }

  ghost predicate UnitsEncodeRight(p: Params, kb: nat, l: CoreLayout)
    requires ParamsOk(p) && p.nb == kb + p.mb && p.mb >= 4
  {
    forall c: nat, j: nat :: c < kb && j < p.z ==> EncodesRight(p, kb, l, UnitMessage(kb, p.z, c, j))
  }

  lemma {:induction false} UpToEncodesRight(p: Params, kb: nat, l: CoreLayout, m: seq<Word>, c: nat, j: nat)
    requires ParamsOk(p) && p.nb == kb + p.mb && p.mb >= 4 && LayoutShifts(l, p.z) && BlocksOk(m, p.z, kb)
    requires UnitsEncodeRight(p, kb, l) && ((c < kb && j <= p.z) || (c == kb && j == 0))
    ensures EncodesRight(p, kb, l, UpTo(m, p.z, c, j))
    decreases c, j
  {
    hide EncodesRight, UpTo, UnitMessage;
    if c == 0 && j == 0 {
      UpToEnds(m, p.z);
      ZeroEncodesRight(p, kb, l);
    } else if j == 0 {
      UpToBlock(m, p.z, c - 1);
      UpToEncodesRight(p, kb, l, m, c - 1, p.z);
    } else {
      UpToBit(m, p.z, c, j - 1);
      UpToEncodesRight(p, kb, l, m, c, j - 1);
      if m[c][j - 1] { SumEncodesRight(p, kb, l, UpTo(m, p.z, c, j - 1), UnitMessage(kb, p.z, c, j - 1)); }
    }
  }

  /** On every graph `derive` accepts: the encoder is right for every message exactly when it is right for
      the kb z messages with a single one. */
  lemma UnitsDecide(p: Params, kb: nat, l: CoreLayout)
    requires ParamsOk(p) && p.nb == kb + p.mb && Derived(p, kb, l)
    ensures EveryMessageEncodes(p, kb, l) <==> UnitsEncodeRight(p, kb, l)
  {
    hide SumWhere, Solves, AllChecks, UpTo, UnitMessage, CoreOf, ShiftFor;
    DerivedShifts(p, kb, l);
    if UnitsEncodeRight(p, kb, l) {
      forall b | Encoded(p, kb, l, b) ensures AllChecks(p, b) {
        UpToEnds(b[..kb], p.z);
        UpToEncodesRight(p, kb, l, b[..kb], kb, 0);
      }
    }
  }
}
