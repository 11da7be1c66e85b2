/** The field GF(2^8) built from a polynomial x^8 + q(x). An element is a byte, here its eight bits
    from the lowest up. Addition is bitwise exclusive or. */
module Gf256 {
  import opened Bits

  type E = w: Word | |w| == 8 witness Zeros(8)

  const Zero: E := Zeros(8)
  const One: E := Unit(0)

  /** The byte with bit `i` alone. */
  function Unit(i: nat): (e: E)
    requires i < 8
  {
    seq(8, j => j == i)
  }

  function Add(a: E, b: E): E {
    Xor(a, b)
  }

  /** Multiply by alpha: shift up, and add q when x^8 appears. */
  function X(q: E, a: E): E {
    seq(8, i requires 0 <= i < 8 => (i > 0 && a[i - 1]) != (a[7] && q[i]))
  }

  function If(c: bool, a: E): E {
    if c then a else Zero
  }

  /** Shift and add over the bits of `b` from `i` on, `a` being worth bit `i`. */
  function ShiftAdd(q: E, a: E, b: E, i: nat): E
    requires i <= 8
    decreases 8 - i
  {
    if i == 8 then Zero else Add(If(b[i], a), ShiftAdd(q, X(q, a), b, i + 1))
  }

  function Mul(q: E, a: E, b: E): E {
    ShiftAdd(q, a, b, 0)
  }

  // ---- laws of addition -----------------------------------------------------------------------

  lemma AddAssoc(a: E, b: E, c: E)
    ensures Add(Add(a, b), c) == Add(a, Add(b, c))
  {
  }

  lemma AddMiddle(a: E, b: E, c: E, d: E)
    ensures Add(Add(a, b), Add(c, d)) == Add(Add(a, c), Add(b, d))
  {
  }

  lemma AddBasics(a: E, b: E)
    ensures Add(a, b) == Add(b, a) && Add(a, Zero) == a && Add(Zero, a) == a && Add(a, a) == Zero
    ensures Add(Add(a, b), b) == a && (Add(a, b) == Zero <==> a == b)
  {
    XorCancel(a, b);
    XorCancel(b, a);
    if Add(a, b) == Zero { assert forall i :: 0 <= i < 8 ==> !Add(a, b)[i]; }
  }

  // ---- Mul is bilinear, commutative and associative ---------------------------------------------

  lemma XLinear(q: E, a: E, c: E)
    ensures X(q, Add(a, c)) == Add(X(q, a), X(q, c))
  {
  }

  lemma XZero(q: E)
    ensures X(q, Zero) == Zero && Add(Zero, Zero) == Zero
  {
  }

  lemma {:induction false} LeftLinear(q: E, a: E, c: E, b: E, i: nat)
    requires i <= 8
    ensures ShiftAdd(q, Add(a, c), b, i) == Add(ShiftAdd(q, a, b, i), ShiftAdd(q, c, b, i))
    decreases 8 - i
  {
    hide X, Add;
    XZero(q);
    if i < 8 {
      XLinear(q, a, c);
      LeftLinear(q, X(q, a), X(q, c), b, i + 1);
      AddMiddle(If(b[i], a), If(b[i], c), ShiftAdd(q, X(q, a), b, i + 1), ShiftAdd(q, X(q, c), b, i + 1));
    }
  }

  lemma {:induction false} LeftZero(q: E, b: E, i: nat)
    requires i <= 8
    ensures ShiftAdd(q, Zero, b, i) == Zero
    decreases 8 - i
  {
    hide X, Add;
    XZero(q);
    if i < 8 { LeftZero(q, b, i + 1); }
  }

  lemma {:induction false} LeftX(q: E, a: E, b: E, i: nat)
    requires i <= 8
    ensures ShiftAdd(q, X(q, a), b, i) == X(q, ShiftAdd(q, a, b, i))
    decreases 8 - i
  {
    hide X, Add;
    XZero(q);
    if i < 8 {
      LeftX(q, X(q, a), b, i + 1);
      XLinear(q, If(b[i], a), ShiftAdd(q, X(q, a), b, i + 1));
    }
  }

  lemma MulLinear(q: E, a: E, c: E, b: E)
    ensures Mul(q, Add(a, c), b) == Add(Mul(q, a, b), Mul(q, c, b)) && Mul(q, Zero, b) == Zero
    ensures Mul(q, X(q, a), b) == X(q, Mul(q, a, b))
  {
    hide ShiftAdd, X, Add;
    LeftLinear(q, a, c, b, 0);
    LeftZero(q, b, 0);
    LeftX(q, a, b, 0);
  }

  /** One factor moves through the sum over the bits of another. */
  lemma {:induction false} MulThrough(q: E, c: E, a: E, b: E, i: nat)
    requires i <= 8
    ensures Mul(q, ShiftAdd(q, c, a, i), b) == ShiftAdd(q, Mul(q, c, b), a, i)
    decreases 8 - i
  {
    hide X, Mul, Add;
    MulLinear(q, c, Zero, b);
    if i < 8 {
      MulLinear(q, If(a[i], c), ShiftAdd(q, X(q, c), a, i + 1), b);
      MulThrough(q, X(q, c), a, b, i + 1);
    }
  }

  lemma XUnit(q: E, i: nat)
    requires i < 7
    ensures X(q, Unit(i)) == Unit(i + 1)
  {
  }

  /** `b` with the bits below `i` cleared. */
  function From(b: E, i: nat): E {
    seq(8, j requires 0 <= j < 8 => j >= i && b[j])
  }

  lemma FromStep(b: E, i: nat)
    requires i < 8
    ensures From(b, i) == Add(If(b[i], Unit(i)), From(b, i + 1)) && From(b, 8) == Zero && From(b, 0) == b
  {
  }

  lemma {:induction false} UnitTimes(q: E, b: E, i: nat)
    requires i < 8
    ensures ShiftAdd(q, Unit(i), b, i) == From(b, i)
    decreases 8 - i
  {
    hide X, Add, From, Unit;
    FromStep(b, i);
    if i < 7 {
      XUnit(q, i);
      UnitTimes(q, b, i + 1);
    } else {
      assert ShiftAdd(q, X(q, Unit(7)), b, 8) == Zero;
    }
  }

  lemma OneTimes(q: E, b: E)
    ensures Mul(q, One, b) == b
  {
    hide X, Add, Unit, ShiftAdd, From;
    UnitTimes(q, b, 0);
    FromStep(b, 0);
  }

  lemma MulComm(q: E, a: E, b: E)
    ensures Mul(q, a, b) == Mul(q, b, a)
  {
    hide ShiftAdd;
    OneTimes(q, a);
    OneTimes(q, b);
    MulThrough(q, One, a, b, 0);
  }

  lemma MulOne(q: E, a: E)
    ensures Mul(q, a, One) == a && Mul(q, One, a) == a && Mul(q, a, Zero) == Zero && Mul(q, Zero, a) == Zero
  {
    hide Mul, Add, X;
    OneTimes(q, a);
    MulComm(q, a, One);
    MulComm(q, a, Zero);
    MulLinear(q, a, a, a);
  }

  lemma MulSwap(q: E, c: E, a: E, b: E)
    ensures Mul(q, Mul(q, c, a), b) == Mul(q, Mul(q, c, b), a)
  {
    hide ShiftAdd;
    MulThrough(q, c, a, b, 0);
  }

  lemma MulAssoc(q: E, a: E, b: E, c: E)
    ensures Mul(q, Mul(q, a, b), c) == Mul(q, a, Mul(q, b, c))
  {
    hide Mul;
    MulComm(q, a, b);
    MulSwap(q, b, a, c);
    MulComm(q, Mul(q, b, c), a);
  }

  lemma MulDistrib(q: E, a: E, b: E, c: E)
    ensures Mul(q, Add(a, b), c) == Add(Mul(q, a, c), Mul(q, b, c))
    ensures Mul(q, c, Add(a, b)) == Add(Mul(q, c, a), Mul(q, c, b))
  {
    hide Mul, Add, X;
    MulLinear(q, a, b, c);
    MulComm(q, c, a);
    MulComm(q, c, b);
    MulComm(q, c, Add(a, b));
  }

  // ---- powers of alpha ----------------------------------------------------------------------------

  function Exp(q: E, k: nat): E {
    if k == 0 then One else X(q, Exp(q, k - 1))
  }

  lemma {:induction false} ExpAdd(q: E, i: nat, j: nat)
    ensures Exp(q, i + j) == Mul(q, Exp(q, i), Exp(q, j))
    decreases i
  {
    hide X, Mul;
    if i == 0 {
      MulOne(q, Exp(q, j));
    } else {
      ExpAdd(q, i - 1, j);
      MulLinear(q, Exp(q, i - 1), Zero, Exp(q, j));
    }
  }
}
