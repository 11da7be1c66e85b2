/** The polar transform, recursive and in place. */
module PolarTransform {
  import opened Bits

  /** Block lengths the codec accepts: 1, 2, 4, 8, ... */
  predicate Pow2(n: nat) {
    n == 1 || (n > 1 && n % 2 == 0 && Pow2(n / 2))
  }

  /** The generator recursion x = u G_N: x1 = (u1 + u2) G_{N/2}, x2 = u2 G_{N/2}. */
  function T(u: Word): (x: Word)
    requires Pow2(|u|)
    ensures |x| == |u|
    decreases |u|
  {
    if |u| == 1 then u
    else
      var h := |u| / 2;
      T(Xor(u[..h], u[h..])) + T(u[h..])
  }

  lemma {:induction false} TransformLinear(a: Word, b: Word)
    requires |a| == |b| && Pow2(|a|)
    ensures T(Xor(a, b)) == Xor(T(a), T(b))
    decreases |a|
  {
    if |a| > 1 {
      var h := |a| / 2;
      XorSplit(a, b, h);
      XorMiddle(a[..h], b[..h], a[h..], b[h..]);
      TransformLinear(Xor(a[..h], a[h..]), Xor(b[..h], b[h..]));
      TransformLinear(a[h..], b[h..]);
    }
  }

  /** One combine of two finished halves is the transform of the pair: what `beta_combine`
      and the last butterfly stage compute. */
  lemma CombineIsTransform(l: Word, r: Word)
    requires |l| == |r| && Pow2(|l|)
    ensures Pow2(|l + r|) && T(l + r) == Xor(T(l), T(r)) + T(r)
  {
    TransformLinear(l, r);
    var u, h := l + r, |l|;
    assert u[..h] == l && u[h..] == r && |u| / 2 == h && |u| % 2 == 0;
  }

  /** G_N is its own inverse over GF(2). */
  lemma {:induction false} TransformInvolution(u: Word)
    requires Pow2(|u|)
    ensures T(T(u)) == u
    decreases |u|
  {
    if |u| > 1 {
      var h := |u| / 2;
      var x1, x2 := T(Xor(u[..h], u[h..])), T(u[h..]);
      assert T(u) == x1 + x2 && Pow2(h) && |u| == 2 * h;
      hide *;
      TransformInvolution(Xor(u[..h], u[h..]));
      TransformInvolution(u[h..]);
      CombineIsTransform(x1, x2);
      XorCancel(u[..h], u[h..]);
      assert u == u[..h] + u[h..];
    }
  }

  // ---- the generator matrix ---------------------------------------------------------------

  /** Every binary digit of i, of two numbers below the power of two n, is also one of j. */
  predicate Within(i: nat, j: nat, n: nat)
    requires Pow2(n)
  {
    n == 1 || ((i >= n / 2 ==> j >= n / 2) && Within(i % (n / 2), j % (n / 2), n / 2))
  }

  /** The word with a single one, at j. */
  function Single(j: nat, n: nat): (w: Word)
    ensures |w| == n
  {
    seq(n, i => i == j)
  }

  lemma {:induction false} TransformOfZeros(n: nat)
    requires Pow2(n)
    ensures T(Zeros(n)) == Zeros(n)
    decreases n
  {
    if n > 1 {
      var h := n / 2;
      assert Zeros(n)[..h] == Zeros(h) && Zeros(n)[h..] == Zeros(h) && Xor(Zeros(h), Zeros(h)) == Zeros(h);
      TransformOfZeros(h);
      assert Zeros(h) + Zeros(h) == Zeros(n);
    }
  }

  /** Row j of the generator, the Kronecker power of the kernel: it has a one in column i exactly when the binary
      digits of i are among those of j. The transform is linear, so this is all of it. */
  lemma {:induction false} GeneratorEntry(n: nat, i: nat, j: nat)
    requires Pow2(n) && i < n && j < n
    ensures T(Single(j, n))[i] <==> Within(i, j, n)
    decreases n
  {
    hide T, Single, Xor;
    if n == 1 {
      SingleOfOne();
    } else {
      var h := n / 2;
      var rest := if j < h then j else j - h;
      HalfMod(i, h);
      HalfMod(j, h);
      SingleUnfolds(n, h, j, rest);
      TransformOfZeros(h);
      GeneratorEntry(h, i % h, rest);
    }
  }

  lemma SingleOfOne()
    ensures T(Single(0, 1)) == [true]
  {
    assert Single(0, 1) == [true];
  }

  lemma HalfMod(i: nat, h: nat)
    requires i < 2 * h
    ensures i % h == if i < h then i else i - h
  {
  }

  lemma SingleUnfolds(n: nat, h: nat, j: nat, rest: nat)
    requires n > 1 && Pow2(n) && h == n / 2 && j < n && rest == if j < h then j else j - h
    ensures Pow2(h) && n == 2 * h
    ensures T(Single(j, n)) == T(Single(rest, h)) + (if j < h then T(Zeros(h)) else T(Single(rest, h)))
  {
    var u := Single(j, n);
    assert Xor(u[..h], u[h..]) == Single(rest, h);
    assert u[h..] == if j < h then Zeros(h) else Single(rest, h);
  }

  // ---- the in-place butterfly -------------------------------------------------------------

  /** `n` is a multiple of `step`. */
  predicate Multiple(n: nat, step: nat)
    requires step > 0
  {
    n == 0 || (n >= step && Multiple(n - step, step))
  }

  /** Every aligned block of length `step` replaced by its transform. */
  function Blocks(s: Word, step: nat): (r: Word)
    requires Pow2(step) && Multiple(|s|, step)
    ensures |r| == |s|
  {
    if |s| == 0 then [] else T(s[..step]) + Blocks(s[step..], step)
  }

  lemma Assoc(a: Word, b: Word, c: Word)
    ensures (a + b) + c == a + (b + c)
  {
  }

  lemma BlocksUnfold(s: Word, step: nat, head: Word, tail: Word)
    requires Pow2(step) && |head| == step && Multiple(|tail|, step) && s == head + tail
    ensures Multiple(|s|, step) && Blocks(s, step) == T(head) + Blocks(tail, step)
  {
    assert s[..step] == head && s[step..] == tail;
  }

  lemma {:induction false} BlocksAppend(a: Word, b: Word, step: nat)
    requires Pow2(step) && Multiple(|a|, step) && |b| == step
    ensures Multiple(|a + b|, step) && Blocks(a + b, step) == Blocks(a, step) + T(b)
    decreases |a|
  {
    if |a| == 0 {
      assert a + b == b + [];
      BlocksUnfold(a + b, step, b, []);
    } else {
      var a1, a2 := a[..step], a[step..];
      assert a == a1 + a2 && Multiple(|a2|, step) && Blocks(a, step) == T(a1) + Blocks(a2, step);
      hide *;
      BlocksAppend(a2, b, step);
      Assoc(a1, a2, b);
      BlocksUnfold(a + b, step, a1, a2 + b);
      Assoc(T(a1), Blocks(a2, step), T(b));
    }
  }

  lemma {:induction false} BlocksOfOne(s: Word)
    ensures Pow2(1) && Multiple(|s|, 1) && Blocks(s, 1) == s
    decreases |s|
  {
    if |s| > 0 { BlocksOfOne(s[1..]); }
  }

  lemma {:induction false} HalfMultiple(n: nat, step: nat)
    requires step > 0 && Multiple(n, 2 * step)
    ensures Multiple(n, step)
    ensures n > 0 ==> n >= 2 * step && Multiple(n - 2 * step, 2 * step) && Multiple(n - 2 * step, step)
  {
    if n > 0 {
      HalfMultiple(n - 2 * step, step);
      assert Multiple(n - step, step);
    }
  }

  /** A power of two above `step` is a multiple of twice `step`. */
  lemma {:induction false} Pow2Multiple(n: nat, step: nat)
    requires Pow2(n) && Pow2(step) && step <= n
    ensures Multiple(n, step) && (step < n ==> 2 * step <= n && Pow2(2 * step) && Multiple(n, 2 * step))
    decreases step
  {
    if step == 1 {
      MultipleOfOne(n);
      if n > 1 { MultipleOfOne(n / 2); DoubleMultiple(n / 2, 1); }
    } else {
      Pow2Multiple(n / 2, step / 2);
      DoubleMultiple(n / 2, step / 2);
      if step < n { DoubleMultiple(n / 2, step); }
    }
  }

  lemma {:induction false} MultipleOfOne(n: nat)
    ensures Multiple(n, 1)
  {
    if n > 0 { MultipleOfOne(n - 1); }
  }

  lemma {:induction false} DoubleMultiple(n: nat, step: nat)
    requires step > 0 && Multiple(n, step)
    ensures Multiple(2 * n, 2 * step)
  {
    if n > 0 { DoubleMultiple(n - step, step); }
  }

  /** The next pair of blocks: before a stage, and the one block it becomes. */
  lemma BlocksPair(s: Word, l: Word, r: Word, rest: Word, step: nat)
    requires Pow2(step) && |l| == |r| == step && Multiple(|rest|, step) && s == l + (r + rest)
    ensures Multiple(|s|, step) && Blocks(s, step) == T(l) + (T(r) + Blocks(rest, step))
  {
    BlocksUnfold(r + rest, step, r, rest);
    BlocksUnfold(s, step, l, r + rest);
  }

  /** Apply the polar transform in place. */
  method TransformInPlace(u: array<bool>)
    requires Pow2(u.Length)
    modifies u
    ensures u[..] == T(old(u[..]))
  {
    hide *;
    BlocksOfNone(u.Length);
    ghost var s := u[..];
    var step := 1;
    BlocksOfOne(s);
    while step < u.Length
      invariant Pow2(step) && step <= u.Length && Multiple(u.Length, step)
      invariant u[..] == Blocks(s, step)
      decreases u.Length - step
    {
      Pow2Multiple(u.Length, step);
      Stage(u, step, s);
      step := 2 * step;
      Pow2Multiple(u.Length, step);
    }
    BlocksOfNone(step);
    BlocksUnfold(s, step, s, []);
  }

  /** One pass of the outer loop: butterflies of span `step` over every block of `2 * step`. */
  method Stage(u: array<bool>, step: nat, ghost s: Word)
    requires Pow2(step) && |s| == u.Length && Multiple(|s|, step) && Multiple(|s|, 2 * step)
    requires u[..] == Blocks(s, step)
    modifies u
    ensures u[..] == Blocks(s, 2 * step)
  {
    hide *;
    BlocksOfNone(step);
    ghost var done, todo: Word := [], s;
    var i := 0;
    while i < u.Length
      invariant done + todo == s && |done| == i && |todo| == u.Length - i
      invariant Multiple(|done|, 2 * step) && Multiple(|todo|, 2 * step) && Multiple(|todo|, step)
      invariant u[..] == Blocks(done, 2 * step) + Blocks(todo, step)
      decreases u.Length - i
    {
      HalfMultiple(|todo|, step);
      ghost var l, r, rest := NextPair(done, todo, step);
      BlocksPair(todo, l, r, rest, step);
      ghost var v := u[..];
      Butterflies(u, i, step);
      PairFolds(v, u[..], done, l, r, rest, step);
      done, todo := done + (l + r), rest;
      i := i + 2 * step;
    }
    BlocksOfNone(step);
    assert done == s && todo == [];
  }

  /** A folded pair of blocks is the one block of twice the length. */
  lemma PairFolds(v: Word, w: Word, done: Word, l: Word, r: Word, rest: Word, step: nat)
    requires Pow2(step) && Pow2(2 * step) && |l| == |r| == step && Multiple(|done|, 2 * step) && Multiple(|rest|, step)
    requires v == Blocks(done, 2 * step) + (T(l) + (T(r) + Blocks(rest, step))) && Folded(v, w, |done|, step)
    ensures Multiple(|done + (l + r)|, 2 * step)
    ensures w == Blocks(done + (l + r), 2 * step) + Blocks(rest, step)
  {
    hide *;
    var p, q := Blocks(done, 2 * step), Blocks(rest, step);
    CombineIsTransform(l, r);
    BlocksAppend(done, l + r, 2 * step);
    FoldedPair(v, w, step, p, T(l), T(r), q);
    Ungroup(p, Xor(T(l), T(r)), T(r), q);
  }

  lemma BlocksOfNone(step: nat)
    requires Pow2(step)
    ensures Pow2(2 * step) && step > 0 && Multiple(0, step) && Multiple(0, 2 * step)
    ensures Blocks([], step) == [] && Blocks([], 2 * step) == []
  {
    assert (2 * step) / 2 == step && (2 * step) % 2 == 0;
  }

  lemma NextPair(done: Word, todo: Word, step: nat) returns (l: Word, r: Word, rest: Word)
    requires 2 * step <= |todo|
    ensures |l| == |r| == step && |rest| == |todo| - 2 * step && todo == l + (r + rest)
    ensures done + (l + r) + rest == done + todo && |done + (l + r)| == |done| + 2 * step
  {
    l, r, rest := todo[..step], todo[step..2 * step], todo[2 * step..];
  }

  lemma Ungroup(p: Word, a: Word, b: Word, q: Word)
    ensures p + (a + (b + q)) == p + (a + b) + q
  {
  }

  /** `w` is `v` with the span at `i` folded onto the one before it. */
  predicate Folded(v: Word, w: Word, i: nat, step: nat) {
    && |w| == |v| && i + 2 * step <= |v|
    && (forall k :: i <= k < i + step ==> w[k] == (v[k] != v[k + step]))
    && (forall k :: 0 <= k < |v| && !(i <= k < i + step) ==> w[k] == v[k])
  }

  lemma FoldedPair(v: Word, w: Word, step: nat, p: Word, a: Word, b: Word, q: Word)
    requires |a| == |b| == step && v == p + (a + (b + q)) && Folded(v, w, |p|, step)
    ensures w == p + (Xor(a, b) + (b + q))
  {
    var c := Xor(a, b);
    forall k | 0 <= k < |v| ensures w[k] == (p + (c + (b + q)))[k] {
      if |p| <= k < |p| + step {
        assert v[k] == a[k - |p|];
        assert v[k + step] == b[k - |p|];
        assert c[k - |p|] == (a[k - |p|] != b[k - |p|]);
      }
    }
  }

  /** The innermost loop: fold the second half of one block into its first half. */
  method Butterflies(u: array<bool>, i: nat, step: nat)
    requires i + 2 * step <= u.Length
    modifies u
    ensures Folded(old(u[..]), u[..], i, step)
  {
    for j := 0 to step
      invariant forall k :: i <= k < i + j ==> u[k] == (old(u[k]) != old(u[k + step]))
      invariant forall k :: 0 <= k < u.Length && !(i <= k < i + j) ==> u[k] == old(u[k])
    {
      u[i + j] := u[i + j] != u[i + j + step];
    }
  }
}
