/** Finite sums of reals over a range, and their rearrangement over the cells of a grid. */
module DoubleSums {

  function Sum(f: nat -> real, n: nat): real {
    if n == 0 then 0.0 else Sum(f, n - 1) + f(n - 1)
  }

  /** Row i of a grid of b columns. */
  function RowSum(g: (nat, nat) -> real, i: nat, b: nat): real {
    if b == 0 then 0.0 else RowSum(g, i, b - 1) + g(i, b - 1)
  }

  function GridSum(g: (nat, nat) -> real, a: nat, b: nat): real {
    if a == 0 then 0.0 else GridSum(g, a - 1, b) + RowSum(g, a - 1, b)
  }

  lemma {:induction false} SumSame(f: nat -> real, h: nat -> real, n: nat)
    requires forall i: nat :: i < n ==> f(i) == h(i)
    ensures Sum(f, n) == Sum(h, n)
  {
    if n > 0 { SumSame(f, h, n - 1); }
  }

  /** The last row of a flattened grid. */
  lemma {:induction false} SumRow(f: nat -> real, g: (nat, nat) -> real, start: nat, i: nat, b: nat)
    requires forall j: nat :: j < b ==> f(start + j) == g(i, j)
    ensures Sum(f, start + b) == Sum(f, start) + RowSum(g, i, b)
    decreases b
  {
    if b > 0 { SumRow(f, g, start, i, b - 1); }
  }

  /** Reading a grid row by row. */
  lemma {:induction false} Flatten(f: nat -> real, g: (nat, nat) -> real, a: nat, b: nat)
    requires forall i: nat, j: nat :: i < a && j < b ==> f(i * b + j) == g(i, j)
    ensures Sum(f, a * b) == GridSum(g, a, b)
    decreases a
  {
    if a > 0 {
      Flatten(f, g, a - 1, b);
      assert a * b == (a - 1) * b + b;
      SumRow(f, g, (a - 1) * b, a - 1, b);
    }
  }

  /** One more column. */
  lemma {:induction false} ColumnOff(g: (nat, nat) -> real, h: (nat, nat) -> real, a: nat, b: nat)
    requires forall i: nat, j: nat :: i < a && j < b + 1 ==> h(j, i) == g(i, j)
    ensures GridSum(g, a, b + 1) == GridSum(g, a, b) + RowSum(h, b, a)
    decreases a
  {
    if a > 0 { ColumnOff(g, h, a - 1, b); }
  }

  lemma {:induction false} EmptyRows(g: (nat, nat) -> real, a: nat)
    ensures GridSum(g, a, 0) == 0.0
  {
    if a > 0 { EmptyRows(g, a - 1); }
  }

  /** Summing by rows or by columns. */
  lemma {:induction false} Transpose(g: (nat, nat) -> real, h: (nat, nat) -> real, a: nat, b: nat)
    requires forall i: nat, j: nat :: i < a && j < b ==> h(j, i) == g(i, j)
    ensures GridSum(g, a, b) == GridSum(h, b, a)
    decreases b
  {
    if b == 0 {
      EmptyRows(g, a);
    } else {
      ColumnOff(g, h, a, b - 1);
      Transpose(g, h, a, b - 1);
    }
  }
}
