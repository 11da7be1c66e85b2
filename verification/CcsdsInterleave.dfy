/** The CCSDS codec at an interleaving depth: symbol j of stream s sits at j * depth + s. */
module CcsdsInterleave {
  import opened Gf256
  import opened GfOrbit
  import opened GfTables
  import opened GfPoly
  import opened BchWord
  import opened CcsdsCode
  import opened CcsdsErrors
  import opened CcsdsTheory
  import opened CcsdsCodec
  import CcsdsLocator
  import BchDecoder

  const T: nat := CcsdsLocator.T

  // ---- the cells of an interleaved block ---------------------------------------------------------------------------

  lemma Rows(a: nat, b: nat, depth: nat)
    ensures (a + b) * depth == a * depth + b * depth && b * depth >= 0
  {
  }

  lemma CellBound(depth: nat, n: nat, j: nat, s: nat)
    requires j < n && s < depth
    ensures j * depth + s < n * depth
  {
    Rows(j + 1, n - 1 - j, depth);
    Rows(j, 1, depth);
  }

  lemma CellsDiffer(depth: nat, j: nat, s: nat, j': nat, s': nat)
    requires s < depth && s' < depth && j * depth + s == j' * depth + s'
    ensures j == j' && s == s'
  {
    if j < j' { CellBound(depth, j', j, s); }
    if j' < j { CellBound(depth, j, j', s'); }
  }

  lemma NoLess(n: nat, j: nat, depth: nat)
    ensures j >= n ==> j * depth >= n * depth
  {
    if j >= n { assert (j - n) * depth >= 0; }
  }

  lemma CellOf(depth: nat, n: nat, i: nat) returns (j: nat, s: nat)
    requires i < n * depth
    ensures j < n && s < depth && i == j * depth + s
  {
    assert depth != 0;
    j, s := i / depth, i % depth;
    assert i == j * depth + s;
    NoLess(n, j, depth);
  }

  /** Symbol j of stream s. */
  function At(v: seq<E>, depth: nat, n: nat, j: nat, s: nat): E
    requires |v| == n * depth && j < n && s < depth
  {
    CellBound(depth, n, j, s);
    v[j * depth + s]
  }

  function Stream(v: seq<E>, depth: nat, n: nat, s: nat): (r: seq<E>)
    requires |v| == n * depth && s < depth
    ensures |r| == n && forall j :: 0 <= j < n ==> r[j] == At(v, depth, n, j, s)
  {
    seq(n, j requires 0 <= j < n => At(v, depth, n, j, s))
  }

  /** A block is determined by its streams. */
  lemma StreamsDetermine(u: seq<E>, v: seq<E>, depth: nat, n: nat)
    requires |u| == |v| == n * depth && forall s: nat :: s < depth ==> Stream(u, depth, n, s) == Stream(v, depth, n, s)
    ensures u == v
  {
    forall i | 0 <= i < |u| ensures u[i] == v[i] {
      var j, s := CellOf(depth, n, i);
      assert Stream(u, depth, n, s)[j] == Stream(v, depth, n, s)[j];
      assert u[i] == At(u, depth, n, j, s) && v[i] == At(v, depth, n, j, s);
    }
  }

  lemma CellWritten(u: seq<E>, u': seq<E>, depth: nat, n: nat, j: nat, s: nat, b: E, j': nat, s': nat)
    requires |u| == n * depth && j < n && s < depth && j * depth + s < |u| && u' == u[j * depth + s := b]
    requires j' < n && s' < depth
    ensures At(u', depth, n, j', s') == if j' == j && s' == s then b else At(u, depth, n, j', s')
  {
    CellBound(depth, n, j', s');
    if j' * depth + s' == j * depth + s { CellsDiffer(depth, j', s', j, s); }
  }

  /** Writing one cell changes one symbol of one stream. */
  lemma WriteCell(u: seq<E>, u': seq<E>, depth: nat, n: nat, j: nat, s: nat, b: E)
    requires |u| == n * depth && j < n && s < depth && j * depth + s < |u| && u' == u[j * depth + s := b]
    ensures forall s': nat :: s' < depth ==>
              Stream(u', depth, n, s') == if s' == s then Stream(u, depth, n, s)[j := b] else Stream(u, depth, n, s')
  {
    hide At;
    forall s': nat | s' < depth
      ensures Stream(u', depth, n, s') == if s' == s then Stream(u, depth, n, s)[j := b] else Stream(u, depth, n, s')
    {
      var goal := if s' == s then Stream(u, depth, n, s)[j := b] else Stream(u, depth, n, s');
      forall j' | 0 <= j' < n ensures Stream(u', depth, n, s')[j'] == goal[j'] {
        CellWritten(u, u', depth, n, j, s, b, j', s');
      }
    }
  }

  // ---- wrong symbols per stream and in all ------------------------------------------------------------------------

  function ErrorsBefore(e: seq<E>, depth: nat, n: nat, m: nat): nat
    requires |e| == n * depth && m <= depth
  {
    if m == 0 then 0 else ErrorsBefore(e, depth, n, m - 1) + ErrorCount(Stream(e, depth, n, m - 1))
  }

  lemma {:induction false} CountSplits(a: seq<E>, b: seq<E>)
    ensures ErrorCount(a + b) == ErrorCount(a) + ErrorCount(b)
    decreases |a|
  {
    if |a| == 0 { assert a + b == b; } else {
      assert (a + b)[1..] == a[1..] + b;
      CountSplits(a[1..], b);
    }
  }

  /** The last row adds its own symbols, one to each stream. */
  lemma {:induction false} LastRow(e: seq<E>, a: seq<E>, row: seq<E>, depth: nat, n: nat, m: nat)
    requires |a| == n * depth && |row| == depth && e == a + row && |e| == (n + 1) * depth && m <= depth
    ensures ErrorsBefore(e, depth, n + 1, m) == ErrorsBefore(a, depth, n, m) + ErrorCount(row[..m])
    decreases m
  {
    if m > 0 {
      LastRow(e, a, row, depth, n, m - 1);
      var s := m - 1;
      assert row[..m] == row[..s] + [row[s]];
      CountSplits(row[..s], [row[s]]);
      forall j | 0 <= j < n
        ensures Stream(e, depth, n + 1, s)[j] == Stream(a, depth, n, s)[j]
      {
        CellBound(depth, n, j, s);
      }
      assert Stream(e, depth, n + 1, s)[n] == row[s];
      assert Stream(e, depth, n + 1, s) == Stream(a, depth, n, s) + [row[s]];
      CountSplits(Stream(a, depth, n, s), [row[s]]);
    }
  }

  lemma {:induction false} NothingBefore(e: seq<E>, depth: nat, m: nat)
    requires |e| == 0 * depth && m <= depth
    ensures ErrorsBefore(e, depth, 0, m) == 0
    decreases m
  {
    if m > 0 { NothingBefore(e, depth, m - 1); }
  }

  lemma RowStart(depth: nat, n: nat) returns (k: nat)
    requires n > 0
    ensures k == (n - 1) * depth && k + depth == n * depth
  {
    k := (n - 1) * depth;
  }

  /** Counting stream by stream counts every wrong symbol once. */
  lemma {:induction false} CountByStream(e: seq<E>, depth: nat, n: nat)
    requires |e| == n * depth
    ensures ErrorsBefore(e, depth, n, depth) == ErrorCount(e)
    decreases n
  {
    hide ErrorsBefore, ErrorCount;
    if n == 0 {
      NothingBefore(e, depth, depth);
      NoErrors(e);
    } else {
      var k := RowStart(depth, n);
      var a, row := e[..k], e[k..];
      assert e == a + row && row[..depth] == row;
      CountByStream(a, depth, n - 1);
      LastRow(e, a, row, depth, n - 1, depth);
      CountSplits(a, row);
    }
  }

  // ---- bursts -----------------------------------------------------------------------------------

  /** Every wrong symbol lies within len consecutive places. */
  ghost predicate Burst(e: seq<E>, start: nat, len: nat) {
    forall i :: 0 <= i < |e| && (i < start || i >= start + len) ==> e[i] == Zero
  }

  lemma {:induction false} CountAtMost(e: seq<E>)
    ensures ErrorCount(e) <= |e|
  {
    if |e| > 0 { CountAtMost(e[1..]); }
  }

  lemma BurstCount(e: seq<E>, start: nat, len: nat)
    requires Burst(e, start, len)
    ensures ErrorCount(e) <= len
  {
    hide ErrorCount;
    var lo := if start < |e| then start else |e|;
    var hi := if start + len < |e| then start + len else |e|;
    var a, b, c := e[..lo], e[lo..hi], e[hi..];
    assert e == a + (b + c);
    CountSplits(a, b + c);
    CountSplits(b, c);
    forall i | 0 <= i < |a| ensures a[i] == Zero { assert a[i] == e[i]; }
    forall i | 0 <= i < |c| ensures c[i] == Zero { assert c[i] == e[hi + i]; }
    NoErrors(a);
    NoErrors(c);
    CountAtMost(b);
  }

  /** The first symbol of stream s at or after a place. */
  lemma FirstInStream(depth: nat, s: nat, start: nat) returns (lo: nat)
    requires s < depth
    ensures start <= lo * depth + s && forall j: nat :: j < lo ==> j * depth + s < start
    decreases start
  {
    if start <= s {
      lo := 0;
    } else if start < depth {
      lo := 1;
    } else {
      var below := FirstInStream(depth, s, start - depth);
      lo := below + 1;
      assert lo * depth == below * depth + depth;
      forall j: nat | j < lo ensures j * depth + s < start {
        if j > 0 {
          assert j * depth == (j - 1) * depth + depth;
          assert (j - 1) * depth + s < start - depth;
        }
      }
    }
  }

  lemma Past(depth: nat, lo: nat, len: nat, j: nat)
    requires j >= lo + len
    ensures j * depth >= lo * depth + len * depth
  {
    assert j * depth == (j - lo - len) * depth + lo * depth + len * depth;
    assert (j - lo - len) * depth >= 0;
  }

  lemma BurstAt(e: seq<E>, start: nat, len: nat, i: nat)
    requires Burst(e, start, len) && i < |e| && (i < start || i >= start + len)
    ensures e[i] == Zero
  {
  }

  /** A burst of len * depth symbols puts a burst of len symbols in every stream. */
  lemma BurstSpreads(e: seq<E>, depth: nat, n: nat, s: nat, start: nat, len: nat)
    requires |e| == n * depth && s < depth && Burst(e, start, len * depth)
    ensures ErrorCount(Stream(e, depth, n, s)) <= len
  {
    hide Burst, ErrorCount;
    var lo := FirstInStream(depth, s, start);
    var r := Stream(e, depth, n, s);
    forall j: nat | j < n && (j < lo || j >= lo + len) ensures r[j] == Zero {
      CellBound(depth, n, j, s);
      if j >= lo + len { Past(depth, lo, len, j); }
      BurstAt(e, start, len * depth, j * depth + s);
    }
    IsBurst(r, lo, len);
    BurstCount(r, lo, len);
  }

  lemma IsBurst(e: seq<E>, start: nat, len: nat)
    requires forall i: nat :: i < |e| && (i < start || i >= start + len) ==> e[i] == Zero
    ensures Burst(e, start, len)
  {
  }

  // ---- the codec --------------------------------------------------------------------------------

  datatype Codec = Codec(interleaving: nat, gf: Tables, genPoly: seq<E>)

  predicate Permitted(depth: nat) {
    depth == 1 || depth == 2 || depth == 3 || depth == 4 || depth == 5 || depth == 8
  }

  ghost predicate CodecOk(c: Codec) {
    Permitted(c.interleaving) && TablesOk(Q, c.gf) && GeneratorOk(c.genPoly)
  }

  datatype NewResult = Built(codec: Codec) | BadDepth

  method New(depth: nat) returns (r: NewResult)
    ensures r.Built? <==> depth in {1, 2, 3, 4, 5, 8}
    ensures r.Built? ==> CodecOk(r.codec) && r.codec.interleaving == depth
  {
    hide TablesOk, GeneratorOk, Primitive, Poly;
    if !Permitted(depth) {
      return BadDepth;
    }
    BothPrimitive(false);
    var gf := BuildTables(Q);
    var g := BuildRsGenerator(gf);
    return Built(Codec(depth, gf, g));
  }

  /** Every stream is a codeword. */
  ghost predicate Interleaved(c: seq<E>, depth: nat) {
    |c| == N * depth && forall s: nat :: s < depth ==> RsCodeword(Stream(c, depth, N, s))
  }

  /** Copy one stream out. */
  method Gather(v: seq<E>, depth: nat, n: nat, s: nat) returns (sub: seq<E>)
    requires |v| == n * depth && s < depth
    ensures sub == Stream(v, depth, n, s)
  {
    sub := [];
    var j := 0;
    while j < n
      invariant 0 <= j <= n && |sub| == j && forall k :: 0 <= k < j ==> sub[k] == At(v, depth, n, k, s)
    {
      CellBound(depth, n, j, s);
      sub := sub + [v[j * depth + s]];
      j := j + 1;
    }
  }

  /** Every stream of u is that of v, but stream s starts with `block`. */
  ghost predicate Partly(u: seq<E>, v: seq<E>, depth: nat, s: nat, block: seq<E>) {
    && |u| == |v| == N * depth && s < depth && |block| <= N
    && forall s': nat :: s' < depth ==>
         Stream(u, depth, N, s') ==
           if s' == s then block + Stream(v, depth, N, s)[|block|..] else Stream(v, depth, N, s')
  }

  lemma PartlyNext(u: seq<E>, u': seq<E>, v: seq<E>, depth: nat, s: nat, block: seq<E>, b: E)
    requires Partly(u, v, depth, s, block) && |block| < N && |block| * depth + s < |u|
    requires u' == u[|block| * depth + s := b]
    ensures Partly(u', v, depth, s, block + [b])
  {
    hide Stream;
    WriteCell(u, u', depth, N, |block|, s, b);
    forall s': nat | s' < depth
      ensures Stream(u', depth, N, s')
           == if s' == s then (block + [b]) + Stream(v, depth, N, s)[|block| + 1..] else Stream(v, depth, N, s')
    {
      if s' == s {
        assert (block + Stream(v, depth, N, s)[|block|..])[|block| := b]
            == (block + [b]) + Stream(v, depth, N, s)[|block| + 1..];
      }
    }
  }

  /** u is v with stream s replaced. */
  ghost predicate Replaces(u: seq<E>, v: seq<E>, depth: nat, s: nat, block: seq<E>) {
    && |u| == |v| == N * depth && s < depth && |block| == N
    && forall s': nat :: s' < depth ==>
         Stream(u, depth, N, s') == if s' == s then block else Stream(v, depth, N, s')
  }

  lemma PartlyStarts(v: seq<E>, depth: nat, s: nat)
    requires |v| == N * depth && s < depth
    ensures Partly(v, v, depth, s, [])
  {
    hide Stream;
    assert [] + Stream(v, depth, N, s)[0..] == Stream(v, depth, N, s);
  }

  lemma PartlyEnds(u: seq<E>, v: seq<E>, depth: nat, s: nat, block: seq<E>)
    requires Partly(u, v, depth, s, block) && |block| == N
    ensures Replaces(u, v, depth, s, block)
  {
    hide Stream;
    assert block + Stream(v, depth, N, s)[N..] == block;
  }

  /** Copy one stream in. */
  method Scatter(out: array<E>, depth: nat, s: nat, block: seq<E>)
    requires out.Length == N * depth && s < depth && |block| == N
    modifies out
    ensures Replaces(out[..], old(out[..]), depth, s, block)
  {
    hide Partly, Replaces;
    ghost var v: seq<E> := out[..];
    PartlyStarts(v, depth, s);
    assert block[..0] == [];
    var j := 0;
    while j < N
      invariant 0 <= j <= N && Partly(out[..], v, depth, s, block[..j])
    {
      CellBound(depth, N, j, s);
      ghost var u: seq<E> := out[..];
      out[j * depth + s] := block[j];
      assert out[..] == u[j * depth + s := block[j]];
      PartlyNext(u, out[..], v, depth, s, block[..j], block[j]);
      assert block[..j + 1] == block[..j] + [block[j]];
      j := j + 1;
    }
    assert block[..j] == block;
    PartlyEnds(out[..], v, depth, s, block);
  }

  // ---- encoding ---------------------------------------------------------------------------------

  /** The first streams are systematic codewords of the data streams. */
  ghost predicate EncodedTo(u: seq<E>, data: seq<E>, depth: nat, m: nat) {
    && |u| == N * depth && |data| == K * depth && m <= depth
    && forall s: nat :: s < m ==>
         RsCodeword(Stream(u, depth, N, s)) && Stream(u, depth, N, s)[..K] == Stream(data, depth, K, s)
  }

  lemma EncodedNext(u: seq<E>, u': seq<E>, data: seq<E>, depth: nat, m: nat, block: seq<E>)
    requires EncodedTo(u, data, depth, m) && m < depth && Replaces(u', u, depth, m, block)
    requires RsCodeword(block) && block[..K] == Stream(data, depth, K, m)
    ensures EncodedTo(u', data, depth, m + 1)
  {
    hide Stream, RsCodeword;
  }

  /** All streams systematic: the data come first, in order. */
  lemma EncodedWhole(u: seq<E>, data: seq<E>, depth: nat)
    requires EncodedTo(u, data, depth, depth)
    ensures Interleaved(u, depth) && u[..|data|] == data
  {
    hide RsCodeword;
    forall i | 0 <= i < |data| ensures u[i] == data[i] {
      var j, s := CellOf(depth, K, i);
      assert Stream(u, depth, N, s)[..K][j] == Stream(data, depth, K, s)[j];
      assert Stream(u, depth, N, s)[j] == At(u, depth, N, j, s) == u[i];
      assert Stream(data, depth, K, s)[j] == At(data, depth, K, j, s) == data[i];
    }
  }

  /** Wrong lengths are refused without touching the buffer; otherwise every stream becomes a codeword
      and the data come first, in order. */
  ghost predicate Encodes(depth: nat, data: seq<E>, before: seq<E>, after: seq<E>, r: Outcome) {
    if |data| != K * depth then r == BchDecoder.BufferTooSmall(K * depth, |data|) && after == before
    else if |before| != N * depth then r == BchDecoder.BufferTooSmall(N * depth, |before|) && after == before
    else r == BchDecoder.Ok(0) && Interleaved(after, depth) && |data| <= |after| && after[..|data|] == data
  }

  method Encode(c: Codec, data: seq<E>, codeword: array<E>) returns (r: Outcome)
    requires CodecOk(c)
    modifies codeword
    ensures Encodes(c.interleaving, data, old(codeword[..]), codeword[..], r)
  {
    hide TablesOk, GeneratorOk, EncodedTo, Replaces, RsCodeword, Interleaved, Poly, Stream;
    var depth := c.interleaving;
    if |data| != K * depth {
      return BchDecoder.BufferTooSmall(K * depth, |data|);
    }
    if codeword.Length != N * depth {
      return BchDecoder.BufferTooSmall(N * depth, codeword.Length);
    }
    NothingEncoded(codeword[..], data, depth);
    var stream := 0;
    while stream < depth
      invariant 0 <= stream <= depth && EncodedTo(codeword[..], data, depth, stream)
    {
      var blockData := Gather(data, depth, K, stream);
      var block := EncodeBlock(c.gf, c.genPoly, blockData);
      ghost var u: seq<E> := codeword[..];
      BlockLength(block);
      Scatter(codeword, depth, stream, block);
      EncodedNext(u, codeword[..], data, depth, stream, block);
      stream := stream + 1;
    }
    EncodedWhole(codeword[..], data, depth);
    return BchDecoder.Ok(0);
  }

  lemma NothingEncoded(u: seq<E>, data: seq<E>, depth: nat)
    requires |u| == N * depth && |data| == K * depth
    ensures EncodedTo(u, data, depth, 0)
  {
  }

  lemma BlockLength(block: seq<E>)
    requires RsCodeword(block)
    ensures |block| == N
  {
  }

  // ---- decoding ---------------------------------------------------------------------------------

  /** c is an interleaved codeword and no stream of v differs from it in more than 16 symbols. */
  ghost predicate AllNear(v: seq<E>, c: seq<E>, depth: nat) {
    && |v| == |c| == N * depth && Interleaved(c, depth)
    && forall s: nat :: s < depth ==> ErrorCount(Stream(AddAll(v, c), depth, N, s)) <= T
  }

  /** The decoder restores every such block and returns the number of wrong symbols. */
  ghost predicate Decodes(v: seq<E>, v': seq<E>, depth: nat, r: Outcome) {
    && (forall c :: AllNear(v, c, depth) ==> r == BchDecoder.Ok(ErrorCount(AddAll(v, c))) && v' == c)
    && (r.Ok? || r.DecoderNotConverged?)
  }

  /** The first m streams are decoded. */
  ghost predicate Midway(v: seq<E>, u: seq<E>, depth: nat, m: nat, total: nat) {
    && |v| == |u| == N * depth && m <= depth
    && (forall s: nat :: m <= s < depth ==> Stream(u, depth, N, s) == Stream(v, depth, N, s))
    && forall c :: AllNear(v, c, depth) ==>
         total == ErrorsBefore(AddAll(v, c), depth, N, m)
         && forall s: nat :: s < m ==> Stream(u, depth, N, s) == Stream(c, depth, N, s)
  }

  lemma StreamAdds(v: seq<E>, c: seq<E>, depth: nat, s: nat)
    requires |v| == |c| == N * depth && s < depth
    ensures Stream(AddAll(v, c), depth, N, s) == AddAll(Stream(v, depth, N, s), Stream(c, depth, N, s))
  {
    hide Add;
    forall j | 0 <= j < N
      ensures Stream(AddAll(v, c), depth, N, s)[j] == AddAll(Stream(v, depth, N, s), Stream(c, depth, N, s))[j]
    {
      CellBound(depth, N, j, s);
    }
  }

  lemma StreamNear(v: seq<E>, c: seq<E>, depth: nat, s: nat)
    requires AllNear(v, c, depth) && s < depth
    ensures |v| == |c|
    ensures RsNear(Stream(v, depth, N, s), Stream(c, depth, N, s), ErrorCount(Stream(AddAll(v, c), depth, N, s)))
    ensures ErrorCount(Stream(AddAll(v, c), depth, N, s)) <= T
  {
    hide RsCodeword, Add, Stream;
    StreamAdds(v, c, depth, s);
  }

  lemma MidwayNext(v: seq<E>, u: seq<E>, u': seq<E>, depth: nat, m: nat, total: nat, block: seq<E>, r: Outcome)
    requires Midway(v, u, depth, m, total) && m < depth && RsDecodes(Stream(u, depth, N, m), block, r) && r.Ok?
    requires Replaces(u', u, depth, m, block)
    ensures Midway(v, u', depth, m + 1, total + r.value)
  {
    hide Interleaved, RsNear, Stream, AddAll, ErrorCount;
    forall c | AllNear(v, c, depth)
      ensures total + r.value == ErrorsBefore(AddAll(v, c), depth, N, m + 1)
      ensures forall s: nat :: s < m + 1 ==> Stream(u', depth, N, s) == Stream(c, depth, N, s)
    {
      StreamNear(v, c, depth, m);
    }
  }

  lemma MidwayStops(v: seq<E>, u: seq<E>, depth: nat, m: nat, total: nat, block: seq<E>, r: Outcome)
    requires Midway(v, u, depth, m, total) && m < depth && RsDecodes(Stream(u, depth, N, m), block, r) && !r.Ok?
    ensures Decodes(v, u, depth, r)
  {
    hide AllNear, RsNear, Stream, AddAll, ErrorCount;
    forall c | AllNear(v, c, depth) ensures false { StreamNear(v, c, depth, m); }
  }

  lemma MidwayEnds(v: seq<E>, u: seq<E>, depth: nat, total: nat)
    requires Midway(v, u, depth, depth, total)
    ensures Decodes(v, u, depth, BchDecoder.Ok(total))
  {
    hide Interleaved, Stream, AddAll, ErrorCount;
    forall c | AllNear(v, c, depth) ensures total == ErrorCount(AddAll(v, c)) && u == c {
      CountByStream(AddAll(v, c), depth, N);
      StreamsDetermine(u, c, depth, N);
    }
  }

  lemma MidwayStarts(v: seq<E>, depth: nat)
    requires |v| == N * depth
    ensures Midway(v, v, depth, 0, 0)
  {
    hide Interleaved, Stream, AddAll, ErrorCount;
  }

  /** Stream s went through the block decoder and was accepted. */
  ghost predicate StreamDone(v: seq<E>, u: seq<E>, depth: nat, s: nat)
    requires |v| == |u| == N * depth && s < depth
  {
    RsOutcome(Stream(v, depth, N, s)).Ok? && Stream(u, depth, N, s) == RsResult(Stream(v, depth, N, s))
  }

  /** The corrections that the first m streams' answers add up to. */
  ghost function AnswersBefore(v: seq<E>, depth: nat, m: nat): nat
    requires |v| == N * depth && m <= depth
  {
    if m == 0 then 0
    else
      var r := RsOutcome(Stream(v, depth, N, m - 1));
      AnswersBefore(v, depth, m - 1) + (if r.Ok? then r.value else 0)
  }

  /** The streams before m were accepted, with total corrections, the others are as received. */
  ghost predicate DoneBefore(v: seq<E>, u: seq<E>, depth: nat, m: nat, total: nat) {
    && |v| == |u| == N * depth && m <= depth && total == AnswersBefore(v, depth, m)
    && (forall s: nat :: s < m ==> StreamDone(v, u, depth, s))
    && forall s: nat :: m <= s < depth ==> Stream(u, depth, N, s) == Stream(v, depth, N, s)
  }

  /** What the buffer holds afterwards: every stream decoded, or every stream before one that the block
      decoder refuses, that one and the rest as received. */
  ghost predicate Leaves(v: seq<E>, u: seq<E>, depth: nat, r: Outcome) {
    && (r.Ok? ==> DoneBefore(v, u, depth, depth, r.value))
    && (!r.Ok? ==> exists m: nat, total: nat ::
          m < depth && DoneBefore(v, u, depth, m, total) && r == RsOutcome(Stream(v, depth, N, m)))
  }

  /** No codeword is within 16 symbols of a refused stream. */
  lemma RefusedIsFar(v: seq<E>, depth: nat, m: nat, c: seq<E>, w: nat)
    requires |v| == N * depth && m < depth && !RsOutcome(Stream(v, depth, N, m)).Ok?
    requires RsNear(Stream(v, depth, N, m), c, w)
    ensures w > T
  {
    hide RsNear, RsOutcome, Stream;
    if w <= T { NearIsRestored(Stream(v, depth, N, m), c, w); }
  }

  lemma DoneStarts(v: seq<E>, depth: nat)
    requires |v| == N * depth
    ensures DoneBefore(v, v, depth, 0, 0)
  {
    hide Stream, StreamDone;
  }

  lemma DoneNext(v: seq<E>, u: seq<E>, u': seq<E>, depth: nat, m: nat, total: nat, block: seq<E>, r: Outcome)
    requires DoneBefore(v, u, depth, m, total) && m < depth && Replaces(u', u, depth, m, block) && r.Ok?
    requires r == RsOutcome(Stream(u, depth, N, m)) && block == RsResult(Stream(u, depth, N, m))
    ensures DoneBefore(v, u', depth, m + 1, total + r.value)
  {
    hide Stream, RsOutcome, RsResult;
    forall s: nat | s < m + 1 ensures StreamDone(v, u', depth, s) {
      if s < m { assert StreamDone(v, u, depth, s); }
    }
  }

  lemma DoneStops(v: seq<E>, u: seq<E>, depth: nat, m: nat, total: nat, r: Outcome)
    requires DoneBefore(v, u, depth, m, total) && m < depth && r == RsOutcome(Stream(u, depth, N, m)) && !r.Ok?
    ensures Leaves(v, u, depth, r)
  {
    hide Stream, StreamDone, RsOutcome;
  }

  method Decode(codec: Codec, block: array<E>) returns (r: Outcome)
    requires CodecOk(codec)
    modifies block
    ensures block.Length != N * codec.interleaving ==>
              r == BchDecoder.BufferTooSmall(N * codec.interleaving, block.Length) && block[..] == old(block[..])
    ensures block.Length == N * codec.interleaving ==>
              Decodes(old(block[..]), block[..], codec.interleaving, r)
              && Leaves(old(block[..]), block[..], codec.interleaving, r)
  {
    hide DoneBefore, Leaves, RsOutcome, RsResult, TablesOk, GeneratorOk, Midway, Replaces, Decodes, RsDecodes, Poly,
         Stream;
    var depth := codec.interleaving;
    if block.Length != N * depth {
      return BchDecoder.BufferTooSmall(N * depth, block.Length);
    }
    ghost var v: seq<E> := block[..];
    MidwayStarts(v, depth);
    DoneStarts(v, depth);
    var totalCorrected: nat := 0;
    var stream := 0;
    while stream < depth
      invariant 0 <= stream <= depth && Midway(v, block[..], depth, stream, totalCorrected)
      invariant DoneBefore(v, block[..], depth, stream, totalCorrected)
    {
      ghost var u: seq<E> := block[..];
      var gathered := Gather(block[..], depth, N, stream);
      var sub := new E[N](i requires 0 <= i < N => gathered[i]);
      assert sub[..] == gathered;
      var one := DecodeBlock(codec.gf, sub);
      assert block[..] == u;
      if !one.Ok? {
        MidwayStops(v, u, depth, stream, totalCorrected, sub[..], one);
        DoneStops(v, u, depth, stream, totalCorrected, one);
        return one;
      }
      Scatter(block, depth, stream, sub[..]);
      MidwayNext(v, u, block[..], depth, stream, totalCorrected, sub[..], one);
      DoneNext(v, u, block[..], depth, stream, totalCorrected, sub[..], one);
      totalCorrected := totalCorrected + one.value;
      stream := stream + 1;
    }
    MidwayEnds(v, block[..], depth, totalCorrected);
    DoneEnds(v, block[..], depth, totalCorrected);
    return BchDecoder.Ok(totalCorrected);
  }

  lemma DoneEnds(v: seq<E>, u: seq<E>, depth: nat, total: nat)
    requires DoneBefore(v, u, depth, depth, total)
    ensures Leaves(v, u, depth, BchDecoder.Ok(total))
  {
    hide DoneBefore;
  }

  // ---- what the decoder's contract means --------------------------------------------------------

  lemma SelfErrors(c: seq<E>, depth: nat)
    requires Interleaved(c, depth)
    ensures AllNear(c, c, depth) && ErrorCount(AddAll(c, c)) == 0
  {
    hide RsCodeword, Stream, AddAll, ErrorCount;
    NearItself(c, c);
    forall s: nat | s < depth ensures ErrorCount(Stream(AddAll(c, c), depth, N, s)) <= T {
      StreamAdds(c, c, depth, s);
      NearItself(Stream(c, depth, N, s), Stream(c, depth, N, s));
    }
  }

  /** An encoded block decodes to itself with no corrections, at every depth. */
  lemma EncodeThenDecode(c: seq<E>, v': seq<E>, depth: nat, r: Outcome)
    requires Interleaved(c, depth) && Decodes(c, v', depth, r)
    ensures r == BchDecoder.Ok(0) && v' == c
  {
    hide Interleaved, AllNear;
    SelfErrors(c, depth);
  }

  /** Any burst of up to 16 symbols per stream is corrected, and counted exactly. */
  lemma BurstIsCorrected(c: seq<E>, e: seq<E>, v': seq<E>, depth: nat, r: Outcome, start: nat)
    requires Interleaved(c, depth) && |e| == |c| && Burst(e, start, T * depth)
    requires Decodes(AddAll(c, e), v', depth, r)
    ensures r == BchDecoder.Ok(ErrorCount(e)) && v' == c
  {
    hide Interleaved, Burst, ErrorCount, Stream;
    var v := AddAll(c, e);
    Recovered(c, e);
    LengthOf(c, depth);
    forall s: nat | s < depth
      ensures ErrorCount(Stream(e, depth, N, s)) <= T
    {
      BurstSpreads(e, depth, N, s, start, T);
    }
    assert AllNear(v, c, depth);
  }

  lemma LengthOf(c: seq<E>, depth: nat)
    requires Interleaved(c, depth)
    ensures |c| == N * depth
  {
  }

  lemma Recovered(c: seq<E>, e: seq<E>)
    requires |c| == |e|
    ensures AddAll(AddAll(c, e), c) == e
  {
    hide Add;
    forall i | 0 <= i < |c| ensures Add(Add(c[i], e[i]), c[i]) == e[i] {
      AddBasics(c[i], e[i]);
      AddBasics(e[i], c[i]);
    }
  }
}
