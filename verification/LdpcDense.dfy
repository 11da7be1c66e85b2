/** The dense fallback encoder: Gauss-Jordan elimination of [parity | message] columns, and why its
    generator gives the one parity word that satisfies every check. */
module LdpcDense {
  import opened Bits
  import opened LdpcGraph
  import opened LdpcEncoder
  import opened Options

  // ---- inner products over GF(2) ------------------------------------------------------------------------------

  function Dot(row: Word, v: Word): bool
    requires |row| == |v|
  {
    if |row| == 0 then false else (row[0] && v[0]) != Dot(row[1..], v[1..])
  }

  lemma {:induction false} DotXor(a: Word, b: Word, v: Word)
    requires |a| == |b| == |v|
    ensures Dot(Xor(a, b), v) == (Dot(a, v) != Dot(b, v))
  {
    if |a| > 0 {
      assert Xor(a, b)[1..] == Xor(a[1..], b[1..]);
      DotXor(a[1..], b[1..], v[1..]);
    }
  }

  lemma {:induction false} DotZeros(n: nat, v: Word)
    requires |v| == n
    ensures !Dot(Zeros(n), v)
  {
    if n > 0 {
      assert Zeros(n)[1..] == Zeros(n - 1);
      DotZeros(n - 1, v[1..]);
    }
  }

  /** Toggling one coefficient toggles the product by that bit of v. */
  lemma {:induction false} DotToggle(a: Word, i: nat, v: Word)
    requires |a| == |v| && i < |a|
    ensures Dot(a[i := !a[i]], v) == (Dot(a, v) != v[i])
  {
    var b := a[i := !a[i]];
    if i == 0 {
      assert b[1..] == a[1..];
    } else {
      assert b[1..] == a[1..][i - 1 := !a[1..][i - 1]];
      DotToggle(a[1..], i - 1, v[1..]);
    }
  }

  lemma {:induction false} DotSplit(a: Word, v: Word, m: nat)
    requires |a| == |v| && m <= |a|
    ensures Dot(a, v) == (Dot(a[..m], v[..m]) != Dot(a[m..], v[m..]))
  {
    if m == 0 {
      assert a[0..] == a && v[0..] == v;
    } else {
      assert a[..m][1..] == a[1..][..m - 1] && v[..m][1..] == v[1..][..m - 1];
      assert a[m..] == a[1..][m - 1..] && v[m..] == v[1..][m - 1..];
      DotSplit(a[1..], v[1..], m - 1);
    }
  }

  /** A row with a single one picks out that bit. */
  lemma {:induction false} DotUnit(a: Word, v: Word, i: nat)
    requires |a| == |v| && i < |a| && forall j :: 0 <= j < |a| ==> a[j] == (j == i)
    ensures Dot(a, v) == v[i]
  {
    if i == 0 {
      assert a[1..] == Zeros(|a| - 1);
      DotZeros(|a| - 1, v[1..]);
    } else {
      DotUnit(a[1..], v[1..], i - 1);
    }
  }

  lemma {:induction false} DotOfZeros(a: Word, v: Word)
    requires |a| == |v| && IsZero(v)
    ensures !Dot(a, v)
  {
    if |a| > 0 { DotOfZeros(a[1..], v[1..]); }
  }

  // ---- systems of equations -------------------------------------------------------------------------------------

  ghost predicate Rows(a: seq<Word>, n: nat) {
    forall i :: 0 <= i < |a| ==> |a[i]| == n
  }

  /** Every equation holds of v. */
  ghost predicate Kernel(a: seq<Word>, v: Word)
    requires Rows(a, |v|)
  {
    forall i :: 0 <= i < |a| ==> !Dot(a[i], v)
  }

  ghost predicate SameSolutions(a: seq<Word>, b: seq<Word>, n: nat)
    requires Rows(a, n) && Rows(b, n)
  {
    forall v: Word :: |v| == n ==> (Kernel(a, v) <==> Kernel(b, v))
  }

  lemma SwapKeeps(a: seq<Word>, n: nat, i: nat, j: nat)
    requires Rows(a, n) && i < |a| && j < |a|
    ensures Rows(a[i := a[j]][j := a[i]], n) && SameSolutions(a[i := a[j]][j := a[i]], a, n)
  {
    hide Dot;
    var b := a[i := a[j]][j := a[i]];
    forall v: Word | |v| == n ensures Kernel(b, v) <==> Kernel(a, v) {
      if Kernel(b, v) {
        forall k | 0 <= k < |a| ensures !Dot(a[k], v) {
          assert a[k] == b[if k == i then j else if k == j then i else k];
        }
      }
    }
  }

  lemma AddRowKeeps(a: seq<Word>, n: nat, row: nat, pivot: nat)
    requires Rows(a, n) && row < |a| && pivot < |a| && row != pivot
    ensures Rows(a[row := Xor(a[row], a[pivot])], n) && SameSolutions(a[row := Xor(a[row], a[pivot])], a, n)
  {
    hide Dot, Xor;
    var b := a[row := Xor(a[row], a[pivot])];
    forall v: Word | |v| == n ensures Kernel(b, v) <==> Kernel(a, v) {
      DotXor(a[row], a[pivot], v);
      if Kernel(b, v) {
        assert !Dot(b[pivot], v) && !Dot(b[row], v);
        forall k | 0 <= k < |a| ensures !Dot(a[k], v) {
          if k != row { assert a[k] == b[k]; }
        }
      }
      if Kernel(a, v) {
        assert !Dot(a[pivot], v) && !Dot(a[row], v);
      }
    }
  }

  lemma SameTrans(a: seq<Word>, b: seq<Word>, c: seq<Word>, n: nat)
    requires Rows(a, n) && Rows(b, n) && Rows(c, n) && SameSolutions(a, b, n) && SameSolutions(b, c, n)
    ensures SameSolutions(a, c, n)
  {
    hide Kernel;
  }

  /** The first `col` columns are unit columns. */
  ghost predicate Reduced(a: seq<Word>, n: nat, col: nat)
    requires Rows(a, n)
  {
    col <= n && forall i, j :: 0 <= i < |a| && 0 <= j < col ==> a[i][j] == (i == j)
  }

  // ---- elimination ------------------------------------------------------------------------------------------------

  method FindPivot(a: seq<Word>, n: nat, col: nat) returns (r: nat)
    requires Rows(a, n) && col < n && col < |a|
    ensures r <= |a|
    ensures r < |a| ==> col <= r && a[r][col]
    ensures r == |a| ==> forall i :: col <= i < |a| ==> !a[i][col]
  {
    r := col;
    while r < |a| && !a[r][col]
      invariant col <= r <= |a| && forall i :: col <= i < r ==> !a[i][col]
    {
      r := r + 1;
    }
  }

  /** Clear column `col` from every row but the pivot row. */
  method EliminateColumn(a0: seq<Word>, n: nat, col: nat) returns (a: seq<Word>)
    requires Rows(a0, n) && col < n && col < |a0| && a0[col][col]
    requires forall i, j :: 0 <= i < |a0| && 0 <= j < col ==> a0[i][j] == (i == j)
    ensures |a| == |a0| && Rows(a, n) && SameSolutions(a, a0, n) && Reduced(a, n, col + 1)
  {
    hide SameSolutions;
    a := a0;
    SameReflexive(a, n);
    var pivotRow := a[col];
    var row := 0;
    while row < |a0|
      invariant 0 <= row <= |a0| && |a| == |a0| && Rows(a, n) && SameSolutions(a, a0, n) && a[col] == pivotRow
      invariant forall i, j :: 0 <= i < |a| && 0 <= j < col ==> a[i][j] == (i == j)
      invariant forall i :: 0 <= i < row && i != col ==> !a[i][col]
      invariant forall i :: row <= i < |a| ==> a[i] == a0[i]
    {
      if row != col && a[row][col] {
        AddRowKeeps(a, n, row, col);
        SameTrans(a[row := Xor(a[row], a[col])], a, a0, n);
        a := a[row := Xor(a[row], pivotRow)];
      }
      row := row + 1;
    }
  }

  lemma SameReflexive(a: seq<Word>, n: nat)
    requires Rows(a, n)
    ensures SameSolutions(a, a, n)
  {
  }

  /** The vector that shows column `col` depends on the ones before it. */
  function Dependency(a: seq<Word>, n: nat, col: nat): (v: Word)
    requires Rows(a, n) && col < n && col < |a|
    ensures |v| == n
  {
    seq(n, j requires 0 <= j < n => if j < col then a[j][col] else j == col)
  }

  lemma DependencySolves(a: seq<Word>, n: nat, col: nat)
    requires Rows(a, n) && col < n && col < |a| && Reduced(a, n, col)
    requires forall i :: col <= i < |a| ==> !a[i][col]
    ensures Kernel(a, Dependency(a, n, col))
  {
    var v := Dependency(a, n, col);
    forall i | 0 <= i < |a| ensures !Dot(a[i], v) {
      DotSplit(a[i], v, col);
      assert v[col..][0] && v[col..][1..] == Zeros(n - col - 1);
      assert a[i][col..][0] == a[i][col];
      DotOfZeros(a[i][col..][1..], v[col..][1..]);
      if i < col {
        DotUnit(a[i][..col], v[..col], i);
      } else {
        assert a[i][..col] == Zeros(col);
        DotZeros(col, v[..col]);
      }
    }
  }

  datatype Elimination = Reduce(rows: seq<Word>) | Singular

  /** `ParityGenerator::build` on the augmented rows: success leaves unit columns and the same solutions;
      failure exhibits a solution that is non-zero in the parity part and zero beyond. */
  method Eliminate(a0: seq<Word>, n: nat) returns (r: Elimination, ghost witness': Word)
    requires Rows(a0, n) && |a0| <= n
    ensures r.Reduce? ==> (|r.rows| == |a0| && Rows(r.rows, n) && SameSolutions(r.rows, a0, n)
                           && Reduced(r.rows, n, |a0|))
    ensures r.Singular? ==> (|witness'| == n && Kernel(a0, witness') && !IsZero(witness'[..|a0|])
                             && IsZero(witness'[|a0|..]))
  {
    hide SameSolutions, Kernel, Dot;
    var a := a0;
    witness' := [];
    SameReflexive(a, n);
    var col := 0;
    while col < |a0|
      invariant 0 <= col <= |a0| && |a| == |a0| && Rows(a, n) && SameSolutions(a, a0, n) && Reduced(a, n, col)
    {
      var pivot := FindPivot(a, n, col);
      if pivot == |a| {
        witness' := Dependency(a, n, col);
        DependencySolves(a, n, col);
        SameAt(a, a0, n, witness');
        assert witness'[..|a0|][col];
        return Singular, witness';
      }
      if pivot != col {
        SwapKeeps(a, n, col, pivot);
        SameTrans(a[col := a[pivot]][pivot := a[col]], a, a0, n);
        a := a[col := a[pivot]][pivot := a[col]];
      }
      ghost var b := a;
      a := EliminateColumn(a, n, col);
      SameTrans(a, b, a0, n);
      col := col + 1;
    }
    return Reduce(a), witness';
  }

  lemma SameAt(a: seq<Word>, b: seq<Word>, n: nat, v: Word)
    requires Rows(a, n) && Rows(b, n) && SameSolutions(a, b, n) && |v| == n
    ensures Kernel(a, v) <==> Kernel(b, v)
  {
    hide Kernel;
  }

  // ---- the generator ----------------------------------------------------------------------------

  /** The message columns of the reduced rows. */
  function Extract(rows: seq<Word>, m: nat, k: nat): (gen: seq<Word>)
    requires Rows(rows, m + k)
    ensures |gen| == |rows| && Rows(gen, k)
  {
    seq(|rows|, i requires 0 <= i < |rows| => rows[i][m..])
  }

  /** Parity bit i is the product of generator row i with the message. */
  function Apply(gen: seq<Word>, message: Word): (parity: Word)
    requires Rows(gen, |message|)
    ensures |parity| == |gen|
  {
    seq(|gen|, i requires 0 <= i < |gen| => Dot(gen[i], message))
  }

  /** After elimination the equations say that the parity bits are the generator applied to the message. */
  lemma ReducedSolves(rows: seq<Word>, m: nat, message: Word, parity: Word)
    requires |rows| == m == |parity| && Rows(rows, m + |message|) && Reduced(rows, m + |message|, m)
    ensures Kernel(rows, parity + message) <==> parity == Apply(Extract(rows, m, |message|), message)
  {
    hide Dot;
    var v := parity + message;
    assert v[..m] == parity && v[m..] == message;
    forall i | 0 <= i < m ensures Dot(rows[i], v) == (parity[i] != Dot(rows[i][m..], message)) {
      DotSplit(rows[i], v, m);
      DotUnit(rows[i][..m], parity, i);
    }
    if Kernel(rows, v) {
      forall i | 0 <= i < m ensures parity[i] == Apply(Extract(rows, m, |message|), message)[i] {
        assert !Dot(rows[i], v);
      }
    }
  }

  /** The most message bits that fit the stack buffer of `apply`: 140 words of 64 bits. */
  const PACKED: nat := 140 * 64

  /** The inner-product loop of `apply`, on messages that fit its buffer. */
  method ApplyGenerator(gen: seq<Word>, message: Word) returns (parity: Word)
    requires Rows(gen, |message|) && |message| <= PACKED
    ensures parity == Apply(gen, message)
  {
    hide Dot;
    parity := [];
    var i := 0;
    while i < |gen|
      invariant 0 <= i <= |gen| && parity == Apply(gen, message)[..i]
    {
      var acc := InnerProduct(gen[i], message);
      parity := parity + [acc];
      i := i + 1;
    }
  }

  method InnerProduct(row: Word, v: Word) returns (acc: bool)
    requires |row| == |v|
    ensures acc == Dot(row, v)
  {
    acc := false;
    var j := |row|;
    while j > 0
      invariant 0 <= j <= |row| && acc == Dot(row[j..], v[j..])
    {
      j := j - 1;
      assert row[j..][1..] == row[j + 1..] && v[j..][1..] == v[j + 1..];
      acc := acc != (row[j] && v[j]);
    }
    assert row[0..] == row && v[0..] == v;
  }

  // ---- the rows of the expanded matrix ----------------------------------------------------------

  /** Codeword, message and parity lengths. */
  ghost predicate Dims(p: Params, kb: nat, n: nat, k: nat, m: nat) {
    && ParamsOk(p) && p.nb == kb + p.mb
    && n == p.nb * p.z && k == kb * p.z && m == p.mb * p.z && n == k + m
  }

  /** Parity columns first, message columns after. */
  function Permuted(cw: Word, k: nat): (v: Word)
    requires k <= |cw|
    ensures |v| == |cw|
  {
    cw[k..] + cw[..k]
  }

  /** Lane `lane` of the xor of the rotated blocks of a codeword over some edges. */
  ghost function CheckBit(cw: Word, p: Params, edges: seq<Edge>, lane: nat): bool
    requires ParamsOk(p) && |cw| == p.nb * p.z && lane < p.z
  {
    SumWhere(Blocks(cw, p.z, p.nb), p.z, edges, 0, p.nb)[lane]
  }

  /** Whatever the codeword, the row's product with it is lane `lane` of the checks' sum over `edges`. */
  ghost predicate RowMeans(row: Word, p: Params, kb: nat, n: nat, k: nat, m: nat, edges: seq<Edge>, lane: nat)
    requires Dims(p, kb, n, k, m) && lane < p.z
  {
    |row| == n && forall cw: Word :: |cw| == n ==> Dot(row, Permuted(cw, k)) == CheckBit(cw, p, edges, lane)
  }

  lemma EmptyRowMeans(p: Params, kb: nat, n: nat, k: nat, m: nat, lane: nat)
    requires Dims(p, kb, n, k, m) && lane < p.z
    ensures RowMeans(Zeros(n), p, kb, n, k, m, [], lane)
  {
    hide Dot;
    forall cw: Word | |cw| == n ensures !Dot(Zeros(n), Permuted(cw, k)) { DotZeros(n, Permuted(cw, k)); }
  }

  /** Where column v of the matrix sits in the augmented row. */
  function AugBit(k: nat, m: nat, v: nat): nat {
    if v < k then m + v else v - k
  }

  lemma AugBitFinds(n: nat, k: nat, m: nat, v: nat, cw: Word)
    requires n == k + m && v < n == |cw|
    ensures AugBit(k, m, v) < n && Permuted(cw, k)[AugBit(k, m, v)] == cw[v]
  {
  }

  /** One more edge toggles one bit of the row. */
  lemma ToggleMeans(row: Word, p: Params, kb: nat, n: nat, k: nat, m: nat, edges: seq<Edge>, e: Edge, lane: nat,
                    j: nat, v: nat)
    requires Dims(p, kb, n, k, m) && lane < p.z && e.col < p.nb && e.shift < p.z
    requires j == (if lane + e.shift < p.z then lane + e.shift else lane + e.shift - p.z)
    requires v == e.col * p.z + j && v < n
    requires RowMeans(row, p, kb, n, k, m, edges, lane)
    ensures AugBit(k, m, v) < n
    ensures RowMeans(row[AugBit(k, m, v) := !row[AugBit(k, m, v)]], p, kb, n, k, m, edges + [e], lane)
  {
    hide Dot, AugBit, Permuted, CheckBit;
    var bit := AugBit(k, m, v);
    AugBitFinds(n, k, m, v, Zeros(n));
    var row' := row[bit := !row[bit]];
    forall cw: Word | |cw| == n ensures Dot(row', Permuted(cw, k)) == CheckBit(cw, p, edges + [e], lane) {
      DotToggle(row, bit, Permuted(cw, k));
      AugBitFinds(n, k, m, v, cw);
      CheckBitGrows(cw, p, edges, e, lane, j, v);
    }
  }

  lemma CheckBitGrows(cw: Word, p: Params, edges: seq<Edge>, e: Edge, lane: nat, j: nat, v: nat)
    requires ParamsOk(p) && |cw| == p.nb * p.z && lane < p.z && e.col < p.nb && e.shift < p.z
    requires j == (if lane + e.shift < p.z then lane + e.shift else lane + e.shift - p.z)
    requires v == e.col * p.z + j && v < |cw|
    ensures CheckBit(cw, p, edges + [e], lane) == (CheckBit(cw, p, edges, lane) != cw[v])
  {
    hide Rot, Blocks;
    var b := Blocks(cw, p.z, p.nb);
    SumGrows(b, p.z, edges, e, p.nb, lane);
    BlockBit(cw, p, e.col, j, v);
  }

  lemma BlockBit(cw: Word, p: Params, c: nat, j: nat, v: nat)
    requires |cw| == p.nb * p.z && c < p.nb && j < p.z && v == c * p.z + j && v < |cw|
    ensures Blocks(cw, p.z, p.nb)[c][j] == cw[v]
  {
    BlockRange(p.z, p.nb, c);
    assert Blocks(cw, p.z, p.nb)[c] == BlockOf(cw, p.z, p.nb, c);
  }

  lemma SumGrows(b: seq<Word>, z: nat, edges: seq<Edge>, e: Edge, nb: nat, lane: nat)
    requires BlocksOk(b, z, nb) && |b| == nb && e.col < nb && e.shift < z && lane < z
    ensures SumWhere(b, z, edges + [e], 0, nb)[lane]
         == (SumWhere(b, z, edges, 0, nb)[lane]
             != b[e.col][if lane + e.shift < z then lane + e.shift else lane + e.shift - z])
  {
    hide Rot;
    assert (edges + [e])[..|edges|] == edges;
    RotAt(b[e.col], e.shift, lane);
  }

  /** The z rows of one layer. */
  method LayerRows(p: Params, kb: nat, n: nat, k: nat, m: nat, layer: nat) returns (block: seq<Word>)
    requires Dims(p, kb, n, k, m) && layer < p.mb
    ensures |block| == p.z
    ensures forall lane :: 0 <= lane < p.z ==> RowMeans(block[lane], p, kb, n, k, m, Layer(p, layer), lane)
  {
    hide RowMeans, AugBit;
    LayerBounds(p, layer);
    var edges := Layer(p, layer);
    block := seq(p.z, _ => Zeros(n));
    forall lane | 0 <= lane < p.z ensures RowMeans(block[lane], p, kb, n, k, m, edges[..0], lane) {
      EmptyRowMeans(p, kb, n, k, m, lane);
      assert edges[..0] == [];
    }
    var e := 0;
    while e < |edges|
      invariant 0 <= e <= |edges| && |block| == p.z
      invariant forall lane :: 0 <= lane < p.z ==> RowMeans(block[lane], p, kb, n, k, m, edges[..e], lane)
    {
      assert edges[..e + 1] == edges[..e] + [edges[e]];
      block := EdgeRows(p, kb, n, k, m, block, edges[..e], edges[e]);
      e := e + 1;
    }
    assert edges[..e] == edges;
  }

  /** One circulant's worth of ones: a bit in each of the z rows. */
  method EdgeRows(p: Params, kb: nat, n: nat, k: nat, m: nat, block0: seq<Word>, ghost edges: seq<Edge>, e: Edge)
    returns (block: seq<Word>)
    requires Dims(p, kb, n, k, m) && e.col < p.nb && e.shift < p.z && |block0| == p.z
    requires forall lane :: 0 <= lane < p.z ==> RowMeans(block0[lane], p, kb, n, k, m, edges, lane)
    ensures |block| == p.z
    ensures forall lane :: 0 <= lane < p.z ==> RowMeans(block[lane], p, kb, n, k, m, edges + [e], lane)
  {
    hide RowMeans, AugBit;
    block := block0;
    var zIdx := 0;
    while zIdx < p.z
      invariant 0 <= zIdx <= p.z && |block| == p.z
      invariant forall lane :: 0 <= lane < zIdx ==> RowMeans(block[lane], p, kb, n, k, m, edges + [e], lane)
      invariant forall lane :: zIdx <= lane < p.z ==> RowMeans(block[lane], p, kb, n, k, m, edges, lane)
    {
      var varCol := e.col * p.z + (zIdx + e.shift) % p.z;
      ghost var j := ColumnInRange(p, zIdx, e, n);
      ToggleMeans(block[zIdx], p, kb, n, k, m, edges, e, zIdx, j, varCol);
      RowLength(block[zIdx], p, kb, n, k, m, edges, zIdx);
      var bit := AugBit(k, m, varCol);
      block := block[zIdx := block[zIdx][bit := !block[zIdx][bit]]];
      zIdx := zIdx + 1;
    }
  }

  lemma ColumnInRange(p: Params, lane: nat, e: Edge, n: nat) returns (j: nat)
    requires ParamsOk(p) && n == p.nb * p.z && lane < p.z && e.col < p.nb && e.shift < p.z
    ensures j == (if lane + e.shift < p.z then lane + e.shift else lane + e.shift - p.z) == (lane + e.shift) % p.z
    ensures e.col * p.z + j < n
  {
    WrapIndex(lane, e.shift, p.z);
    j := (lane + e.shift) % p.z;
    BlockRange(p.z, p.nb, e.col);
  }

  lemma RowLength(row: Word, p: Params, kb: nat, n: nat, k: nat, m: nat, edges: seq<Edge>, lane: nat)
    requires Dims(p, kb, n, k, m) && lane < p.z && RowMeans(row, p, kb, n, k, m, edges, lane)
    ensures |row| == n
  {
  }

  ghost predicate AllChecksTo(p: Params, cw: Word, l: nat)
    requires ParamsOk(p) && |cw| == p.nb * p.z && l <= p.mb
  {
    forall r :: 0 <= r < l ==> Check(Blocks(cw, p.z, p.nb), p, r) == Zeros(p.z)
  }

  /** The rows so far hold of a codeword exactly when the first l layers' checks do. */
  ghost predicate AugMeans(aug: seq<Word>, p: Params, kb: nat, n: nat, k: nat, m: nat, l: nat)
    requires Dims(p, kb, n, k, m) && l <= p.mb
  {
    Rows(aug, n) && forall cw: Word :: |cw| == n ==> (Kernel(aug, Permuted(cw, k)) <==> AllChecksTo(p, cw, l))
  }

  lemma LayerMeans(aug: seq<Word>, block: seq<Word>, p: Params, kb: nat, n: nat, k: nat, m: nat, l: nat)
    requires Dims(p, kb, n, k, m) && l < p.mb && AugMeans(aug, p, kb, n, k, m, l) && |block| == p.z
    requires forall lane :: 0 <= lane < p.z ==> RowMeans(block[lane], p, kb, n, k, m, Layer(p, l), lane)
    ensures AugMeans(aug + block, p, kb, n, k, m, l + 1)
  {
    hide Check, Blocks, Kernel, RowMeans, Permuted, ParamsOk, Layer;
    BlockShape(block, p, kb, n, k, m, l);
    assert Rows(aug + block, n);
    forall cw: Word | |cw| == n ensures Kernel(aug + block, Permuted(cw, k)) <==> AllChecksTo(p, cw, l + 1) {
      KernelConcat(aug, block, Permuted(cw, k));
      BlockKernel(block, p, kb, n, k, m, l, cw);
    }
  }

  lemma BlockShape(block: seq<Word>, p: Params, kb: nat, n: nat, k: nat, m: nat, l: nat)
    requires Dims(p, kb, n, k, m) && l < p.mb && |block| == p.z
    requires forall lane :: 0 <= lane < p.z ==> RowMeans(block[lane], p, kb, n, k, m, Layer(p, l), lane)
    ensures Rows(block, n)
  {
    hide Dot, Permuted, CheckBit, Layer;
  }

  lemma KernelConcat(a: seq<Word>, b: seq<Word>, v: Word)
    requires Rows(a, |v|) && Rows(b, |v|)
    ensures Rows(a + b, |v|) && (Kernel(a + b, v) <==> Kernel(a, v) && Kernel(b, v))
  {
    hide Dot;
    if Kernel(a + b, v) {
      forall i | 0 <= i < |a| ensures !Dot(a[i], v) { assert (a + b)[i] == a[i]; }
      forall i | 0 <= i < |b| ensures !Dot(b[i], v) { assert (a + b)[|a| + i] == b[i]; }
    }
  }

  lemma BlockKernel(block: seq<Word>, p: Params, kb: nat, n: nat, k: nat, m: nat, l: nat, cw: Word)
    requires Dims(p, kb, n, k, m) && l < p.mb && |cw| == n && |block| == p.z && Rows(block, n)
    requires forall lane :: 0 <= lane < p.z ==> RowMeans(block[lane], p, kb, n, k, m, Layer(p, l), lane)
    ensures Kernel(block, Permuted(cw, k)) <==> Check(Blocks(cw, p.z, p.nb), p, l) == Zeros(p.z)
  {
    hide Dot, SumWhere, Blocks, Permuted;
    var v, c := Permuted(cw, k), Check(Blocks(cw, p.z, p.nb), p, l);
    forall lane | 0 <= lane < p.z ensures Dot(block[lane], v) == c[lane] {
      assert CheckBit(cw, p, Layer(p, l), lane) == c[lane];
    }
    ProductsAre(block, v, c);
  }

  lemma ProductsAre(block: seq<Word>, v: Word, c: Word)
    requires Rows(block, |v|) && |block| == |c| && forall i :: 0 <= i < |block| ==> Dot(block[i], v) == c[i]
    ensures Kernel(block, v) <==> c == Zeros(|c|)
  {
    hide Dot;
    if Kernel(block, v) {
      forall i | 0 <= i < |c| ensures c[i] == Zeros(|c|)[i] { assert !Dot(block[i], v); }
    }
  }

  datatype Generator = Gen(rows: seq<Word>) | SingularParity

  /** All parity checks of the expanded matrix. */
  ghost predicate AllChecks(p: Params, cw: Word)
    requires ParamsOk(p) && |cw| == p.nb * p.z
  {
    AllChecksTo(p, cw, p.mb)
  }

  /** What the dense build promises: with a generator, the checks hold exactly for the parity it computes;
      without one, the parity columns are dependent, so no message has a unique parity. */
  ghost predicate Generates(p: Params, kb: nat, n: nat, k: nat, m: nat, g: Generator)
    requires Dims(p, kb, n, k, m)
  {
    && (g.Gen? ==>
          (&& |g.rows| == m && Rows(g.rows, k)
           && forall message: Word, parity: Word :: |message| == k && |parity| == m ==>
                (AllChecks(p, message + parity) <==> parity == Apply(g.rows, message))))
    && (g.SingularParity? ==>
          exists parity: Word :: |parity| == m && !IsZero(parity) && AllChecks(p, Zeros(k) + parity))
  }

  lemma GeneratorWorks(p: Params, kb: nat, n: nat, k: nat, m: nat, aug: seq<Word>, rows: seq<Word>)
    requires Dims(p, kb, n, k, m) && AugMeans(aug, p, kb, n, k, m, p.mb)
    requires Rows(rows, n) && |rows| == m && SameSolutions(rows, aug, n) && Reduced(rows, n, m)
    ensures Generates(p, kb, n, k, m, Gen(Extract(rows, m, k)))
  {
    hide Kernel, Reduced, Apply, Extract, AllChecksTo, ParamsOk;
    ExtractShape(rows, m, k);
    forall message: Word, parity: Word | |message| == k && |parity| == m
      ensures AllChecks(p, message + parity) <==> parity == Apply(Extract(rows, m, k), message)
    {
      var cw := message + parity;
      assert Permuted(cw, k) == parity + message;
      SameAt(rows, aug, n, parity + message);
      ReducedSolves(rows, m, message, parity);
    }
  }

  lemma ExtractShape(rows: seq<Word>, m: nat, k: nat)
    requires Rows(rows, m + k)
    ensures |Extract(rows, m, k)| == |rows| && Rows(Extract(rows, m, k), k)
  {
  }

  lemma SingularMeans(p: Params, kb: nat, n: nat, k: nat, m: nat, aug: seq<Word>, v: Word)
    requires Dims(p, kb, n, k, m) && AugMeans(aug, p, kb, n, k, m, p.mb) && |v| == n
    requires Kernel(aug, v) && !IsZero(v[..m]) && IsZero(v[m..])
    ensures Generates(p, kb, n, k, m, SingularParity)
  {
    hide Kernel, AllChecksTo, Rows, IsZero, ParamsOk;
    var parity := v[..m];
    var cw := Zeros(k) + parity;
    ZeroTail(v, m, k);
    assert Permuted(cw, k) == v;
    assert AllChecks(p, cw);
  }

  lemma ZeroTail(v: Word, m: nat, k: nat)
    requires |v| == m + k && IsZero(v[m..])
    ensures v == v[..m] + Zeros(k)
  {
    assert v[m..] == Zeros(k);
  }

  /** `ParityGenerator::build`. */
  method Build(p: Params, kb: nat, n: nat, k: nat, m: nat) returns (g: Generator)
    requires Dims(p, kb, n, k, m)
    ensures Generates(p, kb, n, k, m, g)
  {
    hide AugMeans, RowMeans, Kernel, SameSolutions, Reduced, Generates, Extract, Rows;
    var aug: seq<Word> := [];
    NoRowsMean(p, kb, n, k, m);
    var layer := 0;
    while layer < p.mb
      invariant 0 <= layer <= p.mb && AugMeans(aug, p, kb, n, k, m, layer) && |aug| == layer * p.z
    {
      var block := LayerRows(p, kb, n, k, m, layer);
      LayerMeans(aug, block, p, kb, n, k, m, layer);
      aug := aug + block;
      layer := layer + 1;
    }
    AugShape(aug, p, kb, n, k, m);
    var r, v := Eliminate(aug, n);
    match r
    case Reduce(rows) =>
      GeneratorWorks(p, kb, n, k, m, aug, rows);
      g := Gen(Extract(rows, m, k));
    case Singular =>
      SingularMeans(p, kb, n, k, m, aug, v);
      g := SingularParity;
  }

  lemma NoRowsMean(p: Params, kb: nat, n: nat, k: nat, m: nat)
    requires Dims(p, kb, n, k, m)
    ensures AugMeans([], p, kb, n, k, m, 0)
  {
  }

  lemma AugShape(aug: seq<Word>, p: Params, kb: nat, n: nat, k: nat, m: nat)
    requires Dims(p, kb, n, k, m) && AugMeans(aug, p, kb, n, k, m, p.mb)
    ensures Rows(aug, n)
  {
  }

  /** Where both encoders apply they agree. */
  lemma SparseAgreesWithDense(p: Params, kb: nat, n: nat, k: nat, m: nat, l: CoreLayout, message: Word, parity: Word,
                              gen: seq<Word>)
    requires Dims(p, kb, n, k, m) && Derived(p, kb, l) && |message| == k && |parity| == m
    requires Encoded(p, kb, l, Blocks(message + parity, p.z, p.nb)) && PairedShifts(l) && CoreRowsStayInside(p, kb)
    requires Generates(p, kb, n, k, m, Gen(gen)) && Rows(gen, k)
    ensures parity == Apply(gen, message)
  {
    hide Encoded, Derived, Check, Blocks, Apply, CoreRowsStayInside, PairedShifts, ParamsOk;
    EncodedIsCodeword(p, kb, l, Blocks(message + parity, p.z, p.nb));
    assert AllChecks(p, message + parity);
  }

  // ---- the encoder object -----------------------------------------------------------------------

  datatype Strategy = Sparse(layout: CoreLayout) | Dense(gen: seq<Word>)

  /** What `from_params` settles on: the closed form when the graph has the pattern, the generator otherwise. */
  ghost predicate StrategyOk(p: Params, kb: nat, n: nat, k: nat, m: nat, s: Strategy)
    requires Dims(p, kb, n, k, m)
  {
    match s
    case Sparse(l) => Derived(p, kb, l)
    case Dense(gen) => Generates(p, kb, n, k, m, Gen(gen)) && forall l :: !Derived(p, kb, l)
  }

  method FromParams(p: Params, kb: nat, n: nat, k: nat, m: nat) returns (r: Option<Strategy>)
    requires Dims(p, kb, n, k, m)
    ensures r.Some? ==> StrategyOk(p, kb, n, k, m, r.value)
    ensures r.None? ==> Generates(p, kb, n, k, m, SingularParity) && forall l :: !Derived(p, kb, l)
  {
    hide Generates, Derived;
    var d := Derive(p, kb);
    if d.Some? {
      return Some(Sparse(d.value));
    }
    var g := Build(p, kb, n, k, m);
    match g
    case Gen(rows) => r := Some(Dense(rows));
    case SingularParity => r := None;
  }

  /** `Panicked`: an index past the stack buffer of the dense path, which the source does not check. */
  datatype EncodeResult = Written | BufferTooSmall(required: nat, provided: nat) | Panicked

  /** Equal blocks, equal bits. */
  lemma SamePrefix(a: Word, b: Word, p: Params, kb: nat, n: nat, k: nat, m: nat)
    requires Dims(p, kb, n, k, m) && |a| == |b| == n
    requires forall c :: 0 <= c < kb ==> Blocks(a, p.z, p.nb)[c] == Blocks(b, p.z, p.nb)[c]
    ensures a[..k] == b[..k]
  {
    hide Blocks;
    forall i | 0 <= i < k ensures a[i] == b[i] {
      var c, j := BlockCoordinates(i, kb, p.z);
      assert Blocks(a, p.z, p.nb)[c][j] == Blocks(b, p.z, p.nb)[c][j];
      BlockBit(a, p, c, j, i);
      BlockBit(b, p, c, j, i);
    }
  }

  lemma BlockCoordinates(i: nat, kb: nat, z: nat) returns (c: nat, j: nat)
    requires z > 0 && i < kb * z
    ensures c < kb && j < z && i == c * z + j
  {
    c, j := i / z, i % z;
    if c >= kb { Monotone(kb, c, z); }
  }

  lemma Monotone(a: nat, b: nat, z: nat)
    requires a <= b
    ensures a * z <= b * z
  {
    assert (b - a) * z >= 0;
  }

  method CopyIn(info: Word, codeword: array<bool>)
    requires |info| <= codeword.Length
    modifies codeword
    ensures codeword[..|info|] == info
  {
    var i := 0;
    while i < |info|
      invariant 0 <= i <= |info| && codeword[..i] == info[..i]
    {
      codeword[i] := info[i];
      i := i + 1;
    }
  }

  /** The codeword's parity blocks are the closed-form solution for its message blocks. */
  ghost predicate SolvedBy(p: Params, kb: nat, l: CoreLayout, cw: Word) {
    && ParamsOk(p) && p.nb == kb + p.mb && p.mb >= 4 && |cw| == p.nb * p.z
    && LdpcEncoder.Encoded(p, kb, l, Blocks(cw, p.z, p.nb))
  }

  /** Systematic encoding: the message first, then its parity; every check holds on the dense path, and on
      the sparse path under its two hypotheses about the graph. A dense message of more than 8960 bits,
      which no standard graph has, runs past its stack buffer. */
  method Encode(p: Params, kb: nat, n: nat, k: nat, m: nat, s: Strategy, info: Word, codeword: array<bool>)
    returns (r: EncodeResult)
    requires Dims(p, kb, n, k, m) && StrategyOk(p, kb, n, k, m, s)
    modifies codeword
    ensures |info| != k ==> r == BufferTooSmall(k, |info|) && codeword[..] == old(codeword[..])
    ensures |info| == k && codeword.Length != n ==>
              r == BufferTooSmall(n, codeword.Length) && codeword[..] == old(codeword[..])
    ensures r.Panicked? <==> |info| == k && codeword.Length == n && s.Dense? && k > 8960
    ensures |info| == k && codeword.Length == n && !r.Panicked? ==>
              (r == Written && codeword[..k] == info
               && (s.Sparse? ==> SolvedBy(p, kb, s.layout, codeword[..]))
               && (s.Dense? || (PairedShifts(s.layout) && CoreRowsStayInside(p, kb)) ==> AllChecks(p, codeword[..])))
  {
    hide Generates, Derived, Blocks, Encoded, AllChecksTo, CoreRowsStayInside, PairedShifts, Apply;
    if |info| != k {
      return BufferTooSmall(k, |info|);
    }
    if codeword.Length != n {
      return BufferTooSmall(n, codeword.Length);
    }
    CopyIn(info, codeword);
    match s
    case Sparse(l) =>
      DerivedShifts(p, kb, l);
      DerivedRows(p, kb, l);
      ghost var before := codeword[..];
      EncodeSparse(p, kb, l, codeword);
      SamePrefix(codeword[..], before, p, kb, n, k, m);
      assert codeword[..k] == codeword[..][..k] && before[..k] == info;
      SparseMeets(p, kb, n, k, m, l, codeword[..]);
      return Written;
    case Dense(gen) =>
      if |info| > PACKED {
        return Panicked;
      }
      GeneratorShape(p, kb, n, k, m, gen);
      var parity := ApplyGenerator(gen, info);
      var i := 0;
      while i < m
        invariant 0 <= i <= m && codeword[..k] == info && codeword[k..k + i] == parity[..i]
      {
        codeword[k + i] := parity[i];
        i := i + 1;
      }
      assert codeword[..] == info + parity;
      GeneratorMeets(p, kb, n, k, m, gen, info, parity);
      return Written;
  }

  lemma DerivedRows(p: Params, kb: nat, l: CoreLayout)
    requires ParamsOk(p) && p.nb == kb + p.mb && Derived(p, kb, l)
    ensures p.mb >= 4
  {
  }

  lemma SparseMeets(p: Params, kb: nat, n: nat, k: nat, m: nat, l: CoreLayout, cw: Word)
    requires Dims(p, kb, n, k, m) && Derived(p, kb, l) && |cw| == n && p.mb >= 4
    requires LdpcEncoder.Encoded(p, kb, l, Blocks(cw, p.z, p.nb))
    ensures PairedShifts(l) && CoreRowsStayInside(p, kb) ==> AllChecks(p, cw)
  {
    hide Derived, Blocks, Encoded, CoreRowsStayInside, PairedShifts, Check;
    if PairedShifts(l) && CoreRowsStayInside(p, kb) { EncodedIsCodeword(p, kb, l, Blocks(cw, p.z, p.nb)); }
  }

  lemma GeneratorShape(p: Params, kb: nat, n: nat, k: nat, m: nat, gen: seq<Word>)
    requires Dims(p, kb, n, k, m) && Generates(p, kb, n, k, m, Gen(gen))
    ensures |gen| == m && Rows(gen, k)
  {
    hide AllChecksTo, Apply;
  }

  lemma GeneratorMeets(p: Params, kb: nat, n: nat, k: nat, m: nat, gen: seq<Word>, info: Word, parity: Word)
    requires Dims(p, kb, n, k, m) && Generates(p, kb, n, k, m, Gen(gen)) && |info| == k && Rows(gen, k) && |gen| == m
    requires parity == Apply(gen, info)
    ensures AllChecks(p, info + parity)
  {
    hide AllChecksTo, Apply, ParamsOk;
  }
}
