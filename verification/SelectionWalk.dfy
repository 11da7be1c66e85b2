/** The bit-selection walk over the circular buffer: which positions it picks, how far its guard lets it
    go, and how evenly it visits. */
module SelectionWalk {
  import opened Modulo

  datatype BaseGraph = Bg1 | Bg2

  function Blocks(bg: BaseGraph): nat {
    if bg.Bg1? then 66 else 50
  }

  function InfoBlocks(bg: BaseGraph): nat {
    if bg.Bg1? then 22 else 10
  }

  /** Starting block of redundancy version rv. */
  function StartBlock(bg: BaseGraph, rv: nat): (j: nat)
    requires rv < 4
    ensures j < Blocks(bg)
  {
    if bg.Bg1? then [0, 17, 33, 56][rv] else [0, 13, 25, 43][rv]
  }

  /** A circular buffer: its size, where the walk starts, and the interval of filler positions. */
  datatype Ring = Ring(ncb: nat, k0: nat, fillerStart: nat, fillerEnd: nat)

  ghost predicate RingOk(r: Ring) {
    0 < r.ncb && r.k0 < r.ncb && r.fillerStart <= r.fillerEnd < r.ncb
  }

  function Monus(a: nat, b: nat): nat {
    if a >= b then a - b else 0
  }

  /** The ring the source sets up for one code block. */
  function RingFor(bg: BaseGraph, z: nat, rv: nat, nFiller: nat): (r: Ring)
    requires rv < 4 && z > 0
    ensures RingOk(r) && r.ncb == Blocks(bg) * z
  {
    var k := InfoBlocks(bg) * z;
    Ring(Blocks(bg) * z, StartBlock(bg, rv) * z, Monus(Monus(k, nFiller), 2 * z), Monus(k, 2 * z))
  }

  predicate IsFiller(r: Ring, pos: nat) {
    r.fillerStart <= pos < r.fillerEnd
  }

  /** The position at step j. */
  function At(r: Ring, j: nat): (p: nat)
    requires r.ncb > 0
    ensures p < r.ncb
  {
    (r.k0 + j) % r.ncb
  }

  /** The positions picked in the first m steps. */
  function Selected(r: Ring, m: nat): seq<nat>
    requires r.ncb > 0
  {
    if m == 0 then []
    else Selected(r, m - 1) + (if IsFiller(r, At(r, m - 1)) then [] else [At(r, m - 1)])
  }

  /** How many buffer positions are not filler. */
  function Usable(r: Ring): nat
    requires RingOk(r)
  {
    r.ncb - (r.fillerEnd - r.fillerStart)
  }

  /** The most the guarded walk can pick. */
  function Cap(r: Ring): nat
    requires RingOk(r)
  {
    2 * Usable(r) + 1
  }

  // ---- counting ----------------------------------------------------------------------------------------------------

  /** Non-filler positions among the first t of the unrolled ring. */
  function Count(r: Ring, t: nat): nat
    requires r.ncb > 0
  {
    if t == 0 then 0 else Count(r, t - 1) + (if IsFiller(r, (t - 1) % r.ncb) then 0 else 1)
  }

  lemma {:induction false} SelectedCount(r: Ring, m: nat)
    requires RingOk(r)
    ensures |Selected(r, m)| == Count(r, r.k0 + m) - Count(r, r.k0)
  {
    hide IsFiller;
    if m > 0 { SelectedCount(r, m - 1); }
  }

  lemma {:induction false} CountFirstTurn(r: Ring, t: nat)
    requires RingOk(r) && t <= r.ncb
    ensures Count(r, t) == t - (if t <= r.fillerStart then 0 else if t <= r.fillerEnd then t - r.fillerStart
                                else r.fillerEnd - r.fillerStart)
  {
    if t > 0 {
      CountFirstTurn(r, t - 1);
      SmallMod(t - 1, r.ncb);
    }
  }

  lemma {:induction false} CountTurn(r: Ring, t: nat)
    requires RingOk(r)
    ensures Count(r, t + r.ncb) == Count(r, t) + Usable(r)
    decreases t
  {
    hide IsFiller;
    if t == 0 {
      CountFirstTurn(r, r.ncb);
    } else {
      CountTurn(r, t - 1);
      ModTurn(t - 1, r.ncb);
    }
  }

  /** Two whole turns pick exactly twice the usable positions, wherever the walk starts. */
  lemma TwoTurns(r: Ring)
    requires RingOk(r)
    ensures |Selected(r, 2 * r.ncb)| == 2 * Usable(r)
  {
    SelectedCount(r, 2 * r.ncb);
    CountTurn(r, r.k0);
    CountTurn(r, r.k0 + r.ncb);
  }

  lemma {:induction false} SelectedGrows(r: Ring, m: nat, n: nat)
    requires r.ncb > 0 && m <= n
    ensures Selected(r, m) <= Selected(r, n)
    decreases n - m
  {
    hide IsFiller;
    if m < n { SelectedGrows(r, m, n - 1); }
  }

  // ---- what the walk visits ---------------------------------------------------------------------

  /** No filler position is ever picked. */
  lemma {:induction false} NeverFiller(r: Ring, m: nat)
    requires RingOk(r)
    ensures forall p :: p in Selected(r, m) ==> p < r.ncb && !IsFiller(r, p)
  {
    if m > 0 { NeverFiller(r, m - 1); }
  }

  /** How often p occurs. */
  function Visits(s: seq<nat>, p: nat): nat {
    if |s| == 0 then 0 else Visits(s[..|s| - 1], p) + (if s[|s| - 1] == p then 1 else 0)
  }

  /** How often the first m steps stand at p. */
  function Stands(r: Ring, p: nat, m: nat): nat
    requires r.ncb > 0
  {
    if m == 0 then 0 else Stands(r, p, m - 1) + (if At(r, m - 1) == p then 1 else 0)
  }

  lemma {:induction false} VisitsAreStands(r: Ring, p: nat, m: nat)
    requires RingOk(r) && p < r.ncb && !IsFiller(r, p)
    ensures Visits(Selected(r, m), p) == Stands(r, p, m)
  {
    if m > 0 {
      VisitsAreStands(r, p, m - 1);
      var s := Selected(r, m - 1);
      if !IsFiller(r, At(r, m - 1)) {
        assert (s + [At(r, m - 1)])[..|s|] == s;
      } else {
        assert Selected(r, m) == s;
      }
    }
  }

  /** Steps 0 .. ncb-1 stand at p once, at the step counted from the start. */
  lemma {:induction false} FirstTurnStands(r: Ring, p: nat, m: nat)
    requires RingOk(r) && p < r.ncb && m <= r.ncb
    ensures Stands(r, p, m) == if (if p >= r.k0 then p - r.k0 else p + r.ncb - r.k0) < m then 1 else 0
  {
    if m > 0 {
      FirstTurnStands(r, p, m - 1);
      var t := r.k0 + m - 1;
      if t < r.ncb {
        SmallMod(t, r.ncb);
      } else {
        ModTurn(t - r.ncb, r.ncb);
        SmallMod(t - r.ncb, r.ncb);
      }
    }
  }

  lemma {:induction false} TurnStands(r: Ring, p: nat, m: nat)
    requires RingOk(r) && p < r.ncb
    ensures Stands(r, p, m + r.ncb) == Stands(r, p, m) + 1
    decreases m
  {
    if m == 0 {
      FirstTurnStands(r, p, r.ncb);
    } else {
      TurnStands(r, p, m - 1);
      ModTurn(r.k0 + m - 1, r.ncb);
    }
  }

  lemma {:induction false} StandsEven(r: Ring, p: nat, q: nat, m: nat)
    requires RingOk(r) && p < r.ncb && q < r.ncb
    ensures -1 <= Stands(r, p, m) - Stands(r, q, m) <= 1
    decreases m
  {
    if m >= r.ncb {
      StandsEven(r, p, q, m - r.ncb);
      TurnStands(r, p, m - r.ncb);
      TurnStands(r, q, m - r.ncb);
    } else {
      FirstTurnStands(r, p, m);
      FirstTurnStands(r, q, m);
    }
  }

  /** After any number of steps the usable positions have been visited equally often, up to one. */
  lemma VisitsEven(r: Ring, p: nat, q: nat, m: nat)
    requires RingOk(r) && p < r.ncb && q < r.ncb && !IsFiller(r, p) && !IsFiller(r, q)
    ensures -1 <= Visits(Selected(r, m), p) - Visits(Selected(r, m), q) <= 1
  {
    VisitsAreStands(r, p, m);
    VisitsAreStands(r, q, m);
    StandsEven(r, p, q, m);
  }

  // ---- the guarded walk -------------------------------------------------------------------------

  /** What the walk returns: the picks it completes, then the zeros the buffer started with. */
  ghost predicate Walked(r: Ring, eBits: nat, pos: seq<nat>, picks: nat, steps: nat)
    requires RingOk(r)
  {
    && |pos| == eBits
    && picks == (if eBits <= Cap(r) then eBits else Cap(r))
    && |Selected(r, steps)| == picks && pos[..picks] == Selected(r, steps)
    && forall i :: picks <= i < eBits ==> pos[i] == 0
  }

  /** Distance to the end of a filler run. */
  function Gap(r: Ring, j: nat): nat
    requires r.ncb > 0
  {
    if IsFiller(r, At(r, j)) then r.fillerEnd - At(r, j) else 0
  }

  lemma GapShrinks(r: Ring, j: nat)
    requires RingOk(r) && IsFiller(r, At(r, j))
    ensures Gap(r, j + 1) < Gap(r, j)
  {
    var t := r.k0 + j;
    var q := t / r.ncb;
    assert t == r.ncb * q + t % r.ncb;
    ModUnique(t + 1, r.ncb, q, t % r.ncb + 1);
  }

  /** Where the walk can be at the head of its loop: not past two turns, except through filler. */
  ghost predicate OnTheWay(r: Ring, j: nat, kSel: nat)
    requires RingOk(r)
  {
    kSel == |Selected(r, j)| <= 2 * Usable(r) && (j > 2 * r.ncb ==> kSel == 2 * Usable(r))
  }

  /** `selection_walk`, with the guard that ends it after two turns. */
  method Walk(r: Ring, eBits: nat) returns (pos: seq<nat>)
    requires RingOk(r)
    ensures exists k: nat, n: nat :: Walked(r, eBits, pos, k, n)
  {
    hide IsFiller, Gap, Selected, At, OnTheWay;
    pos := seq(eBits, _ => 0);
    var kSel, j := 0, 0;
    StartOfWalk(r);
    while kSel < eBits
      invariant 0 <= kSel <= eBits && |pos| == eBits
      invariant pos[..kSel] == Selected(r, j) && OnTheWay(r, j, kSel)
      invariant forall i :: kSel <= i < eBits ==> pos[i] == 0
      decreases eBits - kSel, Gap(r, j)
    {
      var p := At(r, j);
      ghost var before := Selected(r, j);
      if IsFiller(r, p) {
        GapShrinks(r, j);
        SkipStep(r, j, kSel);
        j := j + 1;
        continue;
      }
      PickStep(r, j, kSel);
      pos := pos[kSel := p];
      assert pos[..kSel + 1] == before + [p];
      kSel := kSel + 1;
      j := j + 1;
      if j > 2 * r.ncb {
        break;
      }
    }
    WayCounts(r, j, kSel);
    assert Walked(r, eBits, pos, kSel, j);
  }

  lemma StartOfWalk(r: Ring)
    requires RingOk(r)
    ensures Selected(r, 0) == [] && OnTheWay(r, 0, 0)
  {
  }

  lemma SkipStep(r: Ring, j: nat, kSel: nat)
    requires RingOk(r) && IsFiller(r, At(r, j)) && OnTheWay(r, j, kSel)
    ensures Selected(r, j + 1) == Selected(r, j) && OnTheWay(r, j + 1, kSel)
  {
    hide IsFiller, At;
    if j == 2 * r.ncb { TwoTurns(r); }
  }

  /** A pick either keeps the walk on the way, or takes it past two turns with every slot of the cap used. */
  lemma PickStep(r: Ring, j: nat, kSel: nat)
    requires RingOk(r) && !IsFiller(r, At(r, j)) && OnTheWay(r, j, kSel)
    ensures Selected(r, j + 1) == Selected(r, j) + [At(r, j)]
    ensures j + 1 <= 2 * r.ncb ==> OnTheWay(r, j + 1, kSel + 1)
    ensures j + 1 > 2 * r.ncb ==> kSel + 1 == Cap(r)
  {
    hide IsFiller, At;
    TwoTurns(r);
    if j + 1 <= 2 * r.ncb { SelectedGrows(r, j + 1, 2 * r.ncb); }
  }

  lemma WayCounts(r: Ring, j: nat, kSel: nat)
    requires RingOk(r)
    ensures OnTheWay(r, j, kSel) ==> kSel == |Selected(r, j)| < Cap(r)
  {
    hide Selected;
  }
}
