/** The pipelined decoder's ownership protocol: one caller and n workers exchange sixteen frame slots
    over one work ring and one done ring per worker. Every ring operation is one atomic step; a run is
    any interleaving of steps. */
module Pipeline {
  import opened Modulo
  import opened Options

  const POOL_SIZE: nat := 16

  /** Where a worker stands: about to pop; past a pop that found nothing, about to read the stop flag;
      holding a slot it decodes and will push; gone. */
  datatype Worker = Idle | Missed | Busy(slot: nat) | Exited

  /** `held` are the slots whose frames the caller owns: acquired or received, not yet submitted or
      released. */
  datatype State = State(free: seq<nat>, held: set<nat>, work: seq<seq<nat>>, done: seq<seq<nat>>,
                         worker: seq<Worker>, outstanding: seq<nat>, stop: bool)

  datatype Action =
    | Acquire
    | Submit(slot: nat, w: nat)
    | Receive(w: nat)
    | Release(slot: nat)
    | Drop
    | Pop(w: nat)
    | CheckStop(w: nat)
    | Push(w: nat)

  ghost predicate Shape(s: State, n: nat) {
    |s.work| == n && |s.done| == n && |s.worker| == n && |s.outstanding| == n
  }

  /** Steps the program text allows. The caller acts only before it drops the pipeline, and submits or
      releases only frames it owns; which worker a submit goes to is left open. */
  ghost predicate Enabled(s: State, a: Action, n: nat)
    requires Shape(s, n)
  {
    match a
    case Acquire => !s.stop && |s.free| > 0
    case Submit(slot, w) => !s.stop && slot in s.held && w < n
    case Receive(w) => !s.stop && w < n && |s.done[w]| > 0
    case Release(slot) => !s.stop && slot in s.held
    case Drop => !s.stop
    case Pop(w) => w < n && s.worker[w] == Idle
    case CheckStop(w) => w < n && s.worker[w] == Missed
    case Push(w) => w < n && s.worker[w].Busy?
  }

  /** `try_push` on a ring of sixteen slots: refused when full. */
  predicate Fits(ring: seq<nat>) {
    |ring| < POOL_SIZE
  }

  /** The effect of a step. A refused push leaves the state alone: submit hands the frame back, a worker
      spins. */
  ghost function Step(s: State, a: Action, n: nat): (s': State)
    requires Shape(s, n) && Enabled(s, a, n)
    ensures Shape(s', n)
  {
    match a
    case Acquire =>
      var slot := s.free[|s.free| - 1];
      s.(free := s.free[..|s.free| - 1], held := s.held + {slot})
    case Submit(slot, w) =>
      if Fits(s.work[w]) then
        s.(held := s.held - {slot}, work := s.work[w := s.work[w] + [slot]],
           outstanding := s.outstanding[w := s.outstanding[w] + 1])
      else s
    case Receive(w) =>
      s.(done := s.done[w := s.done[w][1..]], held := s.held + {s.done[w][0]},
         outstanding := s.outstanding[w := if s.outstanding[w] == 0 then 0 else s.outstanding[w] - 1])
    case Release(slot) => s.(held := s.held - {slot}, free := s.free + [slot])
    case Drop => s.(stop := true)
    case Pop(w) =>
      if |s.work[w]| > 0 then
        s.(work := s.work[w := s.work[w][1..]], worker := s.worker[w := Busy(s.work[w][0])])
      else s.(worker := s.worker[w := Missed])
    case CheckStop(w) => s.(worker := s.worker[w := if s.stop then Exited else Idle])
    case Push(w) =>
      if Fits(s.done[w]) then
        s.(done := s.done[w := s.done[w] + [s.worker[w].slot]], worker := s.worker[w := Idle])
      else s
  }

  ghost function Start(n: nat): (s: State)
    ensures Shape(s, n)
  {
    State(seq(POOL_SIZE, i => i), {}, seq(n, _ => []), seq(n, _ => []), seq(n, _ => Idle), seq(n, _ => 0), false)
  }

  // ---- where the slots are ---------------------------------------------------------------------------------------

  ghost function Holding(w: Worker): multiset<nat> {
    if w.Busy? then multiset{w.slot} else multiset{}
  }

  /** The slots on worker w's side: queued, being decoded, or finished and not received. */
  ghost function Side(s: State, n: nat, w: nat): multiset<nat>
    requires Shape(s, n) && w < n
  {
    multiset(s.work[w]) + Holding(s.worker[w]) + multiset(s.done[w])
  }

  ghost function Sides(s: State, n: nat, k: nat): multiset<nat>
    requires Shape(s, n) && k <= n
  {
    if k == 0 then multiset{} else Sides(s, n, k - 1) + Side(s, n, k - 1)
  }

  ghost function Everywhere(s: State, n: nat): multiset<nat>
    requires Shape(s, n)
  {
    multiset(s.free) + multiset(s.held) + Sides(s, n, n)
  }

  ghost function Pool(k: nat): multiset<nat> {
    if k == 0 then multiset{} else Pool(k - 1) + multiset{k - 1}
  }

  /** Each of the sixteen slots is in exactly one place, the counters are exact, and no worker leaves
      before the stop flag. */
  ghost predicate Inv(s: State, n: nat)
    requires Shape(s, n)
  {
    && Everywhere(s, n) == Pool(POOL_SIZE)
    && (forall w :: 0 <= w < n ==> s.outstanding[w] == |Side(s, n, w)|)
    && (!s.stop ==> forall w :: 0 <= w < n ==> s.worker[w] != Exited)
  }

  lemma {:induction false} PoolCounts(k: nat, slot: nat)
    ensures |Pool(k)| == k && Pool(k)[slot] == if slot < k then 1 else 0
  {
    if k > 0 { PoolCounts(k - 1, slot); }
  }

  lemma {:induction false} SidesFrame(s: State, s': State, n: nat, k: nat)
    requires Shape(s, n) && Shape(s', n) && k <= n
    requires forall w :: 0 <= w < k ==>
               s.work[w] == s'.work[w] && s.done[w] == s'.done[w] && s.worker[w] == s'.worker[w]
    ensures Sides(s, n, k) == Sides(s', n, k)
  {
    if k > 0 { SidesFrame(s, s', n, k - 1); }
  }

  /** Changing one worker's side changes the total by the difference. */
  lemma {:induction false} SidesUpdate(s: State, s': State, n: nat, k: nat, w: nat)
    requires Shape(s, n) && Shape(s', n) && w < k <= n
    requires forall v :: 0 <= v < n && v != w ==>
               s.work[v] == s'.work[v] && s.done[v] == s'.done[v] && s.worker[v] == s'.worker[v]
    ensures Sides(s, n, k) + Side(s', n, w) == Sides(s', n, k) + Side(s, n, w)
  {
    hide Side;
    if k - 1 == w {
      SidesFrame(s, s', n, k - 1);
    } else {
      SidesUpdate(s, s', n, k - 1, w);
      SideSame(s, s', n, k - 1);
      Regroup(Sides(s, n, k - 1), Side(s, n, k - 1), Side(s', n, w), Sides(s', n, k - 1), Side(s, n, w));
    }
  }

  lemma Regroup(a: multiset<nat>, x: multiset<nat>, b: multiset<nat>, a': multiset<nat>, c: multiset<nat>)
    requires a + b == a' + c
    ensures (a + x) + b == (a' + x) + c
  {
    assert (a + x) + b == (a + b) + x;
    assert (a' + x) + c == (a' + c) + x;
  }

  lemma SideSame(s: State, s': State, n: nat, w: nat)
    requires Shape(s, n) && Shape(s', n) && w < n
    requires s.work[w] == s'.work[w] && s.done[w] == s'.done[w] && s.worker[w] == s'.worker[w]
    ensures Side(s, n, w) == Side(s', n, w)
  {
  }

  lemma {:induction false} SideWithin(s: State, n: nat, k: nat, w: nat)
    requires Shape(s, n) && w < k <= n
    ensures Side(s, n, w) <= Sides(s, n, k)
  {
    hide Side;
    if w < k - 1 { SideWithin(s, n, k - 1, w); }
  }

  // ---- nothing ever overflows --------------------------------------------------------------------------------------

  /** A slot the caller holds is on no worker's side. */
  lemma HeldElsewhere(s: State, n: nat, slot: nat, w: nat)
    requires Shape(s, n) && Inv(s, n) && slot in s.held && w < n
    ensures slot < POOL_SIZE && Side(s, n, w)[slot] == 0 && slot !in s.free && |Side(s, n, w)| < POOL_SIZE
  {
    hide Side;
    PoolCounts(POOL_SIZE, slot);
    SideWithin(s, n, n, w);
    SlotInFree(s.free, slot);
    assert multiset(s.held)[slot] == 1;
    assert Everywhere(s, n)[slot] == multiset(s.free)[slot] + 1 + Sides(s, n, n)[slot];
    assert |Everywhere(s, n)| == |s.free| + |multiset(s.held)| + |Sides(s, n, n)|;
    SubmultisetSize(Side(s, n, w), Sides(s, n, n));
    SingletonSize(multiset(s.held), slot);
  }

  lemma SlotInFree(free: seq<nat>, slot: nat)
    ensures slot in free <==> multiset(free)[slot] > 0
  {
  }

  lemma SubmultisetSize(a: multiset<nat>, b: multiset<nat>)
    requires a <= b
    ensures |a| <= |b|
  {
    assert b == a + (b - a);
  }

  lemma SingletonSize(a: multiset<nat>, x: nat)
    requires x in a
    ensures |a| >= 1
  {
    assert a == (a - multiset{x}) + multiset{x};
  }

  /** Submit never fails: the chosen ring always has room. */
  lemma SubmitNeverFails(s: State, n: nat, slot: nat, w: nat)
    requires Shape(s, n) && Inv(s, n) && slot in s.held && w < n
    ensures Fits(s.work[w])
  {
    HeldElsewhere(s, n, slot, w);
    assert |Side(s, n, w)| == |s.work[w]| + |Holding(s.worker[w])| + |s.done[w]|;
  }

  /** A done ring is never full when its worker pushes, so no worker ever waits for the caller. */
  lemma DoneRingHasRoom(s: State, n: nat, w: nat)
    requires Shape(s, n) && Inv(s, n) && w < n && s.worker[w].Busy?
    ensures Fits(s.done[w])
  {
    PoolCounts(POOL_SIZE, 0);
    SideWithin(s, n, n, w);
    assert |Side(s, n, w)| == |s.work[w]| + 1 + |s.done[w]|;
    SubmultisetSize(Side(s, n, w), Sides(s, n, n));
    assert |Everywhere(s, n)| == |s.free| + |multiset(s.held)| + |Sides(s, n, n)|;
  }

  /** The counters never underflow: a received frame was counted. */
  lemma CountersNeverUnderflow(s: State, n: nat, w: nat)
    requires Shape(s, n) && Inv(s, n) && w < n && |s.done[w]| > 0
    ensures s.outstanding[w] > 0
  {
    assert |Side(s, n, w)| == |s.work[w]| + |Holding(s.worker[w])| + |s.done[w]|;
  }

  // ---- every step keeps the invariant -----------------------------------------------------------

  lemma StartInv(n: nat)
    ensures Inv(Start(n), n)
  {
    hide Pool, Sides;
    SidesEmpty(n, n);
    FreeIsPool(POOL_SIZE);
    var s := Start(n);
    forall w | 0 <= w < n ensures s.outstanding[w] == |Side(s, n, w)| { SideEmpty(n, w); }
  }

  lemma SideEmpty(n: nat, w: nat)
    requires w < n
    ensures Side(Start(n), n, w) == multiset{}
  {
  }

  lemma {:induction false} SidesEmpty(n: nat, k: nat)
    requires k <= n
    ensures Sides(Start(n), n, k) == multiset{}
  {
    if k > 0 {
      SidesEmpty(n, k - 1);
      SideEmpty(n, k - 1);
    }
  }

  lemma {:induction false} FreeIsPool(k: nat)
    ensures multiset(seq(k, i => i)) == Pool(k)
  {
    if k > 0 {
      FreeIsPool(k - 1);
      assert seq(k, i => i) == seq(k - 1, i => i) + [k - 1];
    }
  }

  lemma TakeFirst(a: seq<nat>)
    requires |a| > 0
    ensures multiset(a) == multiset{a[0]} + multiset(a[1..])
  {
    assert a == [a[0]] + a[1..];
  }

  lemma TakeLast(a: seq<nat>)
    requires |a| > 0
    ensures multiset(a) == multiset(a[..|a| - 1]) + multiset{a[|a| - 1]}
  {
    assert a == a[..|a| - 1] + [a[|a| - 1]];
  }

  /** A step that leaves every worker's side alone and moves slots only between the caller's places. */
  lemma CallerMoves(s: State, s': State, n: nat)
    requires Shape(s, n) && Inv(s, n) && Shape(s', n)
    requires s'.work == s.work && s'.done == s.done && s'.worker == s.worker && s'.outstanding == s.outstanding
    requires s.stop ==> s'.stop
    requires multiset(s'.free) + multiset(s'.held) == multiset(s.free) + multiset(s.held)
    ensures Inv(s', n)
  {
    hide Pool, Sides, Side;
    SidesFrame(s, s', n, n);
    forall w | 0 <= w < n ensures Side(s, n, w) == Side(s', n, w) { SideSame(s, s', n, w); }
  }

  /** A step that touches one worker's side and keeps the balance between it and the caller. */
  lemma SideMoves(s: State, s': State, n: nat, w: nat)
    requires Shape(s, n) && Inv(s, n) && Shape(s', n) && w < n && s'.stop == s.stop
    requires forall v :: 0 <= v < n && v != w ==>
               s.work[v] == s'.work[v] && s.done[v] == s'.done[v] && s.worker[v] == s'.worker[v]
    requires forall v :: 0 <= v < n && v != w ==> s.outstanding[v] == s'.outstanding[v]
    requires s'.outstanding[w] == |Side(s', n, w)| && (!s.stop ==> s'.worker[w] != Exited)
    requires multiset(s'.free) + multiset(s'.held) + Side(s', n, w)
             == multiset(s.free) + multiset(s.held) + Side(s, n, w)
    ensures Inv(s', n)
  {
    hide Pool, Sides, Side;
    SidesUpdate(s, s', n, n, w);
    forall v | 0 <= v < n && v != w ensures Side(s, n, v) == Side(s', n, v) { SideSame(s, s', n, v); }
    Balance(multiset(s.free) + multiset(s.held), Side(s, n, w), Sides(s, n, n),
            multiset(s'.free) + multiset(s'.held), Side(s', n, w), Sides(s', n, n));
  }

  lemma Balance(f: multiset<nat>, x: multiset<nat>, t: multiset<nat>, f': multiset<nat>, x': multiset<nat>,
                t': multiset<nat>)
    requires f' + x' == f + x && t + x' == t' + x
    ensures f' + t' == f + t
  {
    forall i: nat ensures (f' + t')[i] == (f + t)[i] {
      assert (f' + x')[i] == (f + x)[i] && (t + x')[i] == (t' + x)[i];
    }
  }

  lemma AcquireKeeps(s: State, n: nat)
    requires Shape(s, n) && Inv(s, n) && Enabled(s, Acquire, n)
    ensures Inv(Step(s, Acquire, n), n)
  {
    hide Inv;
    var s' := Step(s, Acquire, n);
    var slot := s.free[|s.free| - 1];
    TakeLast(s.free);
    FreeNotHeld(s, n, slot);
    assert multiset(s'.held) == multiset(s.held) + multiset{slot};
    CallerMoves(s, s', n);
  }

  lemma ReleaseKeeps(s: State, n: nat, slot: nat)
    requires Shape(s, n) && Inv(s, n) && Enabled(s, Release(slot), n)
    ensures Inv(Step(s, Release(slot), n), n)
  {
    hide Inv;
    var s' := Step(s, Release(slot), n);
    assert multiset(s.held) == multiset(s'.held) + multiset{slot};
    CallerMoves(s, s', n);
  }

  lemma FreeNotHeld(s: State, n: nat, slot: nat)
    requires Shape(s, n) && Inv(s, n) && slot in s.free
    ensures slot !in s.held
  {
    hide Side;
    PoolCounts(POOL_SIZE, slot);
    SlotInFree(s.free, slot);
    assert Everywhere(s, n)[slot] == multiset(s.free)[slot] + multiset(s.held)[slot] + Sides(s, n, n)[slot];
  }

  /** A slot on a worker's side is not held by the caller. */
  lemma SideNotHeld(s: State, n: nat, slot: nat, w: nat)
    requires Shape(s, n) && Inv(s, n) && w < n && Side(s, n, w)[slot] > 0
    ensures slot !in s.held
  {
    hide Side;
    PoolCounts(POOL_SIZE, slot);
    SideWithin(s, n, n, w);
    assert Everywhere(s, n)[slot] == multiset(s.free)[slot] + multiset(s.held)[slot] + Sides(s, n, n)[slot];
  }

  lemma SubmitKeeps(s: State, n: nat, slot: nat, w: nat)
    requires Shape(s, n) && Inv(s, n) && Enabled(s, Submit(slot, w), n)
    ensures Inv(Step(s, Submit(slot, w), n), n)
  {
    hide Pool, Sides;
    SubmitNeverFails(s, n, slot, w);
    var s' := Step(s, Submit(slot, w), n);
    assert multiset(s.held) == multiset(s'.held) + multiset{slot};
    assert Side(s', n, w) == Side(s, n, w) + multiset{slot};
    SideMoves(s, s', n, w);
  }

  lemma ReceiveKeeps(s: State, n: nat, w: nat)
    requires Shape(s, n) && Inv(s, n) && Enabled(s, Receive(w), n)
    ensures Inv(Step(s, Receive(w), n), n)
  {
    hide Pool, Sides;
    var s' := Step(s, Receive(w), n);
    var slot := s.done[w][0];
    TakeFirst(s.done[w]);
    assert Side(s, n, w) == Side(s', n, w) + multiset{slot};
    SideNotHeld(s, n, slot, w);
    assert multiset(s'.held) == multiset(s.held) + multiset{slot};
    SideMoves(s, s', n, w);
  }

  lemma PopKeeps(s: State, n: nat, w: nat)
    requires Shape(s, n) && Inv(s, n) && Enabled(s, Pop(w), n)
    ensures Inv(Step(s, Pop(w), n), n)
  {
    hide Pool, Sides;
    var s' := Step(s, Pop(w), n);
    if |s.work[w]| > 0 { TakeFirst(s.work[w]); }
    assert Side(s', n, w) == Side(s, n, w);
    SideMoves(s, s', n, w);
  }

  lemma CheckStopKeeps(s: State, n: nat, w: nat)
    requires Shape(s, n) && Inv(s, n) && Enabled(s, CheckStop(w), n)
    ensures Inv(Step(s, CheckStop(w), n), n)
  {
    hide Pool, Sides;
    var s' := Step(s, CheckStop(w), n);
    assert Side(s', n, w) == Side(s, n, w);
    SideMoves(s, s', n, w);
  }

  lemma PushKeeps(s: State, n: nat, w: nat)
    requires Shape(s, n) && Inv(s, n) && Enabled(s, Push(w), n)
    ensures Inv(Step(s, Push(w), n), n)
  {
    hide Pool, Sides;
    DoneRingHasRoom(s, n, w);
    var s' := Step(s, Push(w), n);
    assert Side(s', n, w) == Side(s, n, w);
    SideMoves(s, s', n, w);
  }

  lemma DropKeeps(s: State, n: nat)
    requires Shape(s, n) && Inv(s, n) && Enabled(s, Drop, n)
    ensures Inv(Step(s, Drop, n), n)
  {
    hide Inv;
    CallerMoves(s, Step(s, Drop, n), n);
  }

  lemma StepKeeps(s: State, a: Action, n: nat)
    requires Shape(s, n) && Inv(s, n) && Enabled(s, a, n)
    ensures Inv(Step(s, a, n), n)
  {
    hide Inv, Step, Enabled;
    match a
    case Acquire => AcquireKeeps(s, n);
    case Release(slot) => ReleaseKeeps(s, n, slot);
    case Drop => DropKeeps(s, n);
    case Submit(slot, w) => SubmitKeeps(s, n, slot, w);
    case Receive(w) => ReceiveKeeps(s, n, w);
    case Pop(w) => PopKeeps(s, n, w);
    case CheckStop(w) => CheckStopKeeps(s, n, w);
    case Push(w) => PushKeeps(s, n, w);
  }

  // ---- runs -------------------------------------------------------------------------------------

  /** The steps can be taken in this order from s. */
  ghost predicate Possible(s: State, run: seq<Action>, n: nat)
    requires Shape(s, n)
    decreases |run|
  {
    |run| == 0 || (Enabled(s, run[0], n) && Possible(Step(s, run[0], n), run[1..], n))
  }

  ghost function After(s: State, run: seq<Action>, n: nat): (s': State)
    requires Shape(s, n) && Possible(s, run, n)
    ensures Shape(s', n)
    decreases |run|
  {
    if |run| == 0 then s else After(Step(s, run[0], n), run[1..], n)
  }

  /** Safety over all interleavings. */
  lemma {:induction false} RunKeeps(s: State, run: seq<Action>, n: nat)
    requires Shape(s, n) && Inv(s, n) && Possible(s, run, n)
    ensures Inv(After(s, run, n), n)
    decreases |run|
  {
    hide Inv, Step, Enabled;
    if |run| > 0 {
      StepKeeps(s, run[0], n);
      RunKeeps(Step(s, run[0], n), run[1..], n);
    }
  }

  /** In every reachable state each slot is in exactly one place. */
  lemma ExactlyOnePlace(run: seq<Action>, n: nat, slot: nat)
    requires Possible(Start(n), run, n) && slot < POOL_SIZE
    ensures var s := After(Start(n), run, n);
            multiset(s.free)[slot] + (if slot in s.held then 1 else 0) + Sides(s, n, n)[slot] == 1
  {
    hide Step, Enabled, Sides;
    StartInv(n);
    RunKeeps(Start(n), run, n);
    PoolCounts(POOL_SIZE, slot);
    var s := After(Start(n), run, n);
    assert Everywhere(s, n)[slot] == multiset(s.free)[slot] + multiset(s.held)[slot] + Sides(s, n, n)[slot];
  }

  /** Two workers never hold the same slot, nor one that is queued, finished, free or the caller's. */
  lemma {:induction false} SidesApart(s: State, n: nat, k: nat, v: nat, w: nat, slot: nat)
    requires Shape(s, n) && v < w < k <= n
    ensures Sides(s, n, k)[slot] >= Side(s, n, v)[slot] + Side(s, n, w)[slot]
  {
    hide Side;
    if w == k - 1 {
      SideWithin(s, n, k - 1, v);
    } else {
      SidesApart(s, n, k - 1, v, w, slot);
    }
  }

  lemma NoTwoOwners(run: seq<Action>, n: nat, v: nat, w: nat)
    requires Possible(Start(n), run, n) && v < w < n
    requires After(Start(n), run, n).worker[v].Busy? && After(Start(n), run, n).worker[w].Busy?
    ensures After(Start(n), run, n).worker[v].slot != After(Start(n), run, n).worker[w].slot
  {
    hide Step, Enabled, Sides;
    StartInv(n);
    RunKeeps(Start(n), run, n);
    var s := After(Start(n), run, n);
    var slot := s.worker[v].slot;
    PoolCounts(POOL_SIZE, slot);
    SidesApart(s, n, n, v, w, slot);
    assert Everywhere(s, n)[slot] == multiset(s.free)[slot] + multiset(s.held)[slot] + Sides(s, n, n)[slot];
  }

  // ---- first in, first out ----------------------------------------------------------------------------------------

  /** What a step submits to worker w. */
  function Entering(a: Action, w: nat): seq<nat> {
    if a.Submit? && a.w == w then [a.slot] else []
  }

  /** What a step receives from worker w. */
  ghost function Leaving(s: State, a: Action, n: nat, w: nat): seq<nat>
    requires Shape(s, n) && Enabled(s, a, n) && w < n
  {
    if a == Receive(w) then [s.done[w][0]] else []
  }

  /** The slots submitted to worker w, in order. */
  ghost function Sent(run: seq<Action>, w: nat): seq<nat>
    decreases |run|
  {
    if |run| == 0 then []
    else Entering(run[0], w) + Sent(run[1..], w)
  }

  /** The slots received from worker w, in order. */
  ghost function Taken(s: State, run: seq<Action>, n: nat, w: nat): seq<nat>
    requires Shape(s, n) && Possible(s, run, n) && w < n
    decreases |run|
  {
    if |run| == 0 then []
    else Leaving(s, run[0], n, w) + Taken(Step(s, run[0], n), run[1..], n, w)
  }

  /** Worker w's frames from the oldest on: finished, being decoded, queued. */
  ghost function Line(s: State, n: nat, w: nat): seq<nat>
    requires Shape(s, n) && w < n
  {
    s.done[w] + (if s.worker[w].Busy? then [s.worker[w].slot] else []) + s.work[w]
  }

  /** A frame enters at the back when it is submitted, leaves at the front when it is received, and no other
      step changes the order. */
  lemma LineMoves(s: State, a: Action, n: nat, w: nat)
    requires Shape(s, n) && Inv(s, n) && Enabled(s, a, n) && w < n
    ensures Leaving(s, a, n, w) + Line(Step(s, a, n), n, w) == Line(s, n, w) + Entering(a, w)
  {
    hide Inv;
    if a.Submit? { SubmitNeverFails(s, n, a.slot, a.w); }
    if a.Push? { DoneRingHasRoom(s, n, a.w); }
  }

  /** Over every run: what was received from a worker, then what stands in its line, is what the line held at
      the start, then what was submitted to the worker. */
  lemma {:induction false} LineKeepsOrder(s: State, run: seq<Action>, n: nat, w: nat)
    requires Shape(s, n) && Inv(s, n) && Possible(s, run, n) && w < n
    ensures Taken(s, run, n, w) + Line(After(s, run, n), n, w) == Line(s, n, w) + Sent(run, w)
    decreases |run|
  {
    hide Inv, Step, Enabled, Line, Leaving, Entering;
    if |run| > 0 {
      var s' := Step(s, run[0], n);
      StepKeeps(s, run[0], n);
      LineMoves(s, run[0], n, w);
      LineKeepsOrder(s', run[1..], n, w);
      Chain(Leaving(s, run[0], n, w), Taken(s', run[1..], n, w), Line(After(s, run, n), n, w), Line(s', n, w),
            Line(s, n, w), Entering(run[0], w), Sent(run[1..], w));
    }
  }

  lemma Chain(front: seq<nat>, taken: seq<nat>, last: seq<nat>, line': seq<nat>, line: seq<nat>, back: seq<nat>,
              sent: seq<nat>)
    requires front + line' == line + back && taken + last == line' + sent
    ensures (front + taken) + last == line + (back + sent)
  {
    assert (front + taken) + last == front + (line' + sent);
    assert front + (line' + sent) == (line + back) + sent;
  }

  /** From the start on, every worker's frames come back in the order in which they were submitted to it, and
      none is lost: what is not yet received stands in its line. */
  lemma FirstInFirstOut(run: seq<Action>, n: nat, w: nat)
    requires Possible(Start(n), run, n) && w < n
    ensures Taken(Start(n), run, n, w) + Line(After(Start(n), run, n), n, w) == Sent(run, w)
  {
    hide Inv, Step, Enabled;
    StartInv(n);
    LineKeepsOrder(Start(n), run, n, w);
  }

  // ---- one more step -----------------------------------------------------------------------------------------------

  lemma {:induction false} OneMore(s: State, run: seq<Action>, a: Action, n: nat)
    requires Shape(s, n) && Possible(s, run, n) && Enabled(After(s, run, n), a, n)
    ensures Possible(s, run + [a], n) && After(s, run + [a], n) == Step(After(s, run, n), a, n)
    decreases |run|
  {
    hide Step, Enabled;
    if |run| == 0 {
      assert run + [a] == [a] && [a][1..] == [];
    } else {
      assert (run + [a])[1..] == run[1..] + [a];
      OneMore(Step(s, run[0], n), run[1..], a, n);
    }
  }

  lemma {:induction false} OneMoreSent(run: seq<Action>, a: Action, w: nat)
    ensures Sent(run + [a], w) == Sent(run, w) + Entering(a, w)
    decreases |run|
  {
    if |run| == 0 {
      assert run + [a] == [a] && [a][1..] == [];
    } else {
      assert (run + [a])[1..] == run[1..] + [a];
      OneMoreSent(run[1..], a, w);
    }
  }

  lemma {:induction false} OneMoreTaken(s: State, run: seq<Action>, a: Action, n: nat, w: nat)
    requires Shape(s, n) && Possible(s, run, n) && Enabled(After(s, run, n), a, n) && w < n
    ensures Possible(s, run + [a], n)
    ensures Taken(s, run + [a], n, w)
         == Taken(s, run, n, w) + Leaving(After(s, run, n), a, n, w)
    decreases |run|
  {
    hide Step, Leaving;
    OneMore(s, run, a, n);
    if |run| == 0 {
      assert run + [a] == [a] && [a][1..] == [];
    } else {
      assert (run + [a])[1..] == run[1..] + [a];
      OneMoreTaken(Step(s, run[0], n), run[1..], a, n, w);
    }
  }

  // ---- dropping the pipeline ----------------------------------------------------------------------------------------

  /** An upper bound on the steps a worker still takes once the stop flag is set. */
  ghost function Remaining(s: State, n: nat, w: nat): nat
    requires Shape(s, n) && w < n
  {
    match s.worker[w]
    case Idle => 2 + 2 * |s.work[w]|
    case Busy(_) => 3 + 2 * |s.work[w]|
    case Missed => 1
    case Exited => 0
  }

  ghost function TotalRemaining(s: State, n: nat, k: nat): nat
    requires Shape(s, n) && k <= n
  {
    if k == 0 then 0 else TotalRemaining(s, n, k - 1) + Remaining(s, n, k - 1)
  }

  ghost predicate WorkerAction(a: Action) {
    a.Pop? || a.CheckStop? || a.Push?
  }

  lemma {:induction false} TotalUpdate(s: State, s': State, n: nat, k: nat, w: nat)
    requires Shape(s, n) && Shape(s', n) && k <= n && w < n
    requires forall v :: 0 <= v < n && v != w ==> s.work[v] == s'.work[v] && s.worker[v] == s'.worker[v]
    ensures TotalRemaining(s', n, k) - TotalRemaining(s, n, k)
         == if w < k then Remaining(s', n, w) - Remaining(s, n, w) else 0
  {
    if k > 0 { TotalUpdate(s, s', n, k - 1, w); }
  }

  /** After the stop flag every worker step uses up some of the bound: joining cannot spin forever, and no
      worker waits on a full ring. */
  lemma StepsRunOut(s: State, a: Action, n: nat)
    requires Shape(s, n) && Inv(s, n) && s.stop && Enabled(s, a, n)
    ensures WorkerAction(a) && Step(s, a, n).stop
    ensures TotalRemaining(Step(s, a, n), n, n) < TotalRemaining(s, n, n)
  {
    hide Inv, TotalRemaining;
    if a.Push? { DoneRingHasRoom(s, n, a.w); }
    TotalUpdate(s, Step(s, a, n), n, n, a.w);
  }

  /** As long as some worker has not left, some step is possible: the join cannot deadlock. */
  lemma SomeStepPossible(s: State, n: nat, w: nat)
    requires Shape(s, n) && w < n && s.worker[w] != Exited
    ensures Enabled(s, Pop(w), n) || Enabled(s, CheckStop(w), n) || Enabled(s, Push(w), n)
  {
  }

  /** Every run after the drop is at most as long as the bound. */
  lemma {:induction false} DropTerminates(s: State, run: seq<Action>, n: nat)
    requires Shape(s, n) && Inv(s, n) && s.stop && Possible(s, run, n)
    ensures |run| <= TotalRemaining(s, n, n)
    decreases |run|
  {
    hide Inv, Step, TotalRemaining, Enabled;
    if |run| > 0 {
      StepsRunOut(s, run[0], n);
      StepKeeps(s, run[0], n);
      DropTerminates(Step(s, run[0], n), run[1..], n);
    }
  }

  ghost predicate AllExited(s: State, n: nat)
    requires Shape(s, n)
  {
    forall w :: 0 <= w < n ==> s.worker[w] == Exited
  }

  /** What worker w will leave behind in its ring: nothing, unless it is already past a failed pop. */
  ghost function LeftBehind(s: State, n: nat, w: nat): seq<nat>
    requires Shape(s, n) && w < n
  {
    if s.worker[w] == Missed || s.worker[w] == Exited then s.work[w] else []
  }

  lemma LeftBehindFixed(s: State, a: Action, n: nat, w: nat)
    requires Shape(s, n) && Inv(s, n) && s.stop && Enabled(s, a, n) && w < n
    ensures LeftBehind(Step(s, a, n), n, w) == LeftBehind(s, n, w)
  {
    hide Inv;
    if a.Push? { DoneRingHasRoom(s, n, a.w); }
  }

  /** Which frames a drop abandons: exactly those queued to a worker that, when the flag was set, had
      already found its ring empty but not yet read the flag. Every other queued frame is decoded. */
  lemma {:induction false} DropAbandons(s: State, run: seq<Action>, n: nat, w: nat)
    requires Shape(s, n) && Inv(s, n) && s.stop && Possible(s, run, n) && w < n
    requires AllExited(After(s, run, n), n)
    ensures After(s, run, n).work[w] == LeftBehind(s, n, w)
    decreases |run|
  {
    hide Inv, Step, Enabled, LeftBehind;
    if |run| > 0 {
      StepKeeps(s, run[0], n);
      StepsRunOut(s, run[0], n);
      LeftBehindFixed(s, run[0], n, w);
      DropAbandons(Step(s, run[0], n), run[1..], n, w);
    } else {
      ExitedLeaves(s, n, w);
    }
  }

  lemma ExitedLeaves(s: State, n: nat, w: nat)
    requires Shape(s, n) && w < n && AllExited(s, n)
    ensures LeftBehind(s, n, w) == s.work[w]
  {
  }

  /** From a reachable state, a drop decodes everything queued exactly when no worker stands between a
      failed pop and the flag with a frame submitted in the meantime. */
  lemma DropDrainsIff(s: State, run: seq<Action>, n: nat)
    requires Shape(s, n) && Inv(s, n) && Enabled(s, Drop, n) && Possible(Step(s, Drop, n), run, n)
    requires AllExited(After(Step(s, Drop, n), run, n), n)
    ensures (forall w :: 0 <= w < n ==> After(Step(s, Drop, n), run, n).work[w] == [])
       <==> (forall w :: 0 <= w < n && s.worker[w] == Missed ==> s.work[w] == [])
  {
    hide Inv;
    DropKeeps(s, n);
    var d := Step(s, Drop, n);
    forall w | 0 <= w < n
      ensures After(d, run, n).work[w] == LeftBehind(d, n, w)
      ensures s.worker[w] != Exited
    {
      DropAbandons(d, run, n, w);
      NotExitedYet(s, n, w);
    }
  }

  lemma NotExitedYet(s: State, n: nat, w: nat)
    requires Shape(s, n) && Inv(s, n) && !s.stop && w < n
    ensures s.worker[w] != Exited
  {
  }

  /** One interleaving in which the abandoned frame exists: with one worker, the worker finds its ring
      empty, the caller submits slot 15 and drops the pipeline, and the worker then sees the flag. */
  lemma LateSubmitIsAbandoned()
    ensures var run := [Acquire, Pop(0), Submit(15, 0), Drop, CheckStop(0)];
            Possible(Start(1), run, 1)
            && AllExited(After(Start(1), run, 1), 1)
            && After(Start(1), run, 1).work[0] == [15]
  {
    var s0 := Start(1);
    var s1 := Step(s0, Acquire, 1);
    assert s0.free[15] == 15 && s1.held == {15};
    var s2 := Step(s1, Pop(0), 1);
    assert s2.worker[0] == Missed;
    var s3 := Step(s2, Submit(15, 0), 1);
    assert s3.work[0] == [15];
    var s4 := Step(s3, Drop, 1);
    var s5 := Step(s4, CheckStop(0), 1);
    var run := [Acquire, Pop(0), Submit(15, 0), Drop, CheckStop(0)];
    assert run[1..] == [Pop(0), Submit(15, 0), Drop, CheckStop(0)];
    assert run[1..][1..] == [Submit(15, 0), Drop, CheckStop(0)];
    assert run[1..][1..][1..] == [Drop, CheckStop(0)];
    assert run[1..][1..][1..][1..] == [CheckStop(0)];
    assert run[1..][1..][1..][1..][1..] == [];
  }

  // ---- polling the done rings one by one --------------------------------------------------------

  predicate WorkerActions(run: seq<Action>) {
    forall i :: 0 <= i < |run| ==> run[i].Pop? || run[i].CheckStop? || run[i].Push?
  }

  /** What a schedule of worker steps does; steps that are not possible are passed over. */
  ghost function Acted(s: State, run: seq<Action>, n: nat): (s': State)
    requires Shape(s, n)
    ensures Shape(s', n)
    decreases |run|
  {
    if |run| == 0 then s
    else Acted(if Enabled(s, run[0], n) then Step(s, run[0], n) else s, run[1..], n)
  }

  /** Any schedule is a run of possible steps. */
  lemma {:induction false} ActedIsRun(s: State, run: seq<Action>, n: nat) returns (steps: seq<Action>)
    requires Shape(s, n) && WorkerActions(run)
    ensures Possible(s, steps, n) && After(s, steps, n) == Acted(s, run, n) && WorkerActions(steps)
    decreases |run|
  {
    hide Step, Enabled;
    if |run| == 0 {
      steps := [];
    } else if Enabled(s, run[0], n) {
      var rest := ActedIsRun(Step(s, run[0], n), run[1..], n);
      steps := [run[0]] + rest;
      assert steps[1..] == rest;
    } else {
      steps := ActedIsRun(s, run[1..], n);
    }
  }

  /** The state in which done ring k is polled when the workers act as scheduled before each poll and the
      rings before k had nothing. */
  ghost function AtPoll(s: State, between: seq<seq<Action>>, k: nat, n: nat): (s': State)
    requires Shape(s, n) && k < |between|
    ensures Shape(s', n)
  {
    Acted(if k == 0 then s else AtPoll(s, between, k - 1, n), between[k], n)
  }

  /** Rings 0 .. w-1 were each empty when polled. */
  ghost predicate EmptyWhenPolled(s: State, between: seq<seq<Action>>, w: nat, n: nat)
    requires Shape(s, n) && w <= n == |between|
  {
    forall k: nat :: k < w ==> AtPoll(s, between, k, n).done[k] == []
  }

  /** From s, ring w's oldest frame is received. */
  ghost predicate Received(s: State, w: nat, n: nat, slot: nat, s': State)
    requires Shape(s, n) && w < n
  {
    Enabled(s, Receive(w), n) && slot == s.done[w][0] && s' == Step(s, Receive(w), n)
  }

  /** A poll can find nothing although a frame is waiting at its end: worker 0 pushes after its ring was
      polled. */
  lemma EmptyPollsAreNotSimultaneous()
    ensures var run, between := [Acquire, Submit(15, 0), Pop(0)], [[], [Push(0)]];
            Possible(Start(2), run, 2)
            && EmptyWhenPolled(After(Start(2), run, 2), between, 2, 2)
            && AtPoll(After(Start(2), run, 2), between, 1, 2).done[0] == [15]
  {
    var s0 := Start(2);
    var s1 := Step(s0, Acquire, 2);
    assert s0.free[15] == 15 && s1.held == {15};
    var s2 := Step(s1, Submit(15, 0), 2);
    assert s2.work[0] == [15];
    var s3 := Step(s2, Pop(0), 2);
    var run: seq<Action> := [Acquire, Submit(15, 0), Pop(0)];
    assert run[1..] == [Submit(15, 0), Pop(0)] && run[1..][1..] == [Pop(0)] && run[1..][1..][1..] == [];
    assert After(s0, run, 2) == s3;
    var between: seq<seq<Action>> := [[], [Push(0)]];
    assert AtPoll(s3, between, 0, 2) == s3;
    var s4 := Step(s3, Push(0), 2);
    assert between[1][1..] == [];
    assert Acted(s3, between[1], 2) == s4;
    assert AtPoll(s3, between, 1, 2) == s4;
  }

  // ---- the dispatch policy ------------------------------------------------------------------------------------------

  /** Worker number j counting from the cursor. */
  function FromCursor(cursor: nat, j: nat, n: nat): nat
    requires n > 0
  {
    (cursor + j) % n
  }

  /** Nobody has less to do, and whoever comes before in the order from the cursor has more. */
  ghost predicate Picked(outstanding: seq<nat>, cursor: nat, best: nat) {
    && best < |outstanding|
    && (forall w :: 0 <= w < |outstanding| ==> outstanding[best] <= outstanding[w])
    && exists j: nat :: j < |outstanding| && best == FromCursor(cursor, j, |outstanding|)
         && forall i: nat :: i < j ==> outstanding[FromCursor(cursor, i, |outstanding|)] > outstanding[best]
  }

  /** `pick_worker`: the least loaded worker, and of those the first counting from the cursor. */
  method PickWorker(outstanding: seq<nat>, cursor: nat) returns (best: nat)
    requires |outstanding| > 0
    ensures Picked(outstanding, cursor, best)
  {
    var n := |outstanding|;
    best := cursor % n;
    var bestLoad := outstanding[best];
    ghost var at: nat := 0;
    var step := 1;
    while step < n
      invariant 1 <= step <= n && best < n && bestLoad == outstanding[best]
      invariant at < step && best == FromCursor(cursor, at, n)
      invariant forall i: nat :: i < step ==> outstanding[FromCursor(cursor, i, n)] >= bestLoad
      invariant forall i: nat :: i < at ==> outstanding[FromCursor(cursor, i, n)] > bestLoad
    {
      var wi := (cursor + step) % n;
      if outstanding[wi] < bestLoad {
        best := wi;
        bestLoad := outstanding[wi];
        at := step;
      }
      step := step + 1;
    }
    forall w | 0 <= w < n ensures outstanding[best] <= outstanding[w] {
      var j := Reached(w, cursor, n);
    }
  }

  /** Every worker is met once on the way round from the cursor. */
  lemma Reached(w: nat, cursor: nat, n: nat) returns (j: nat)
    requires w < n
    ensures j < n && FromCursor(cursor, j, n) == w
  {
    var r := cursor % n;
    var q := cursor / n;
    assert cursor == n * q + r;
    j := if w >= r then w - r else w + n - r;
    if w >= r {
      assert cursor + j == n * q + w;
      ModUnique(cursor + j, n, q, w);
    } else {
      assert cursor + j == n * (q + 1) + w;
      ModUnique(cursor + j, n, q + 1, w);
    }
  }

  /** With equal loads the cursor alone decides: the policy is a rotation. */
  lemma EqualLoadsRotate(outstanding: seq<nat>, cursor: nat, best: nat)
    requires |outstanding| > 0 && forall v, w :: 0 <= v < w < |outstanding| ==> outstanding[v] == outstanding[w]
    requires Picked(outstanding, cursor, best)
    ensures best == cursor % |outstanding|
  {
    var n := |outstanding|;
    var j: nat :| j < n && best == FromCursor(cursor, j, n)
                  && forall i: nat :: i < j ==> outstanding[FromCursor(cursor, i, n)] > outstanding[best];
    var first := FromCursor(cursor, 0, n);
    assert outstanding[first] == outstanding[best];
  }

  // ---- the caller's object ----------------------------------------------------------------------

  /** The steps `run` that led to s are all possible. */
  ghost predicate LedTo(run: seq<Action>, s: State, n: nat)
    requires Shape(s, n)
  {
    Possible(Start(n), run, n) && After(Start(n), run, n) == s
  }

  /** The two runs submit to every worker, and receive from it, the same frames in the same order. */
  ghost predicate SameTraffic(run: seq<Action>, run': seq<Action>, n: nat) {
    && Possible(Start(n), run, n) && Possible(Start(n), run', n)
    && forall w: nat :: w < n ==>
         Sent(run, w) == Sent(run', w) && Taken(Start(n), run, n, w) == Taken(Start(n), run', n, w)
  }

  /** The run receives `slot` from worker w, and it is the frame whose turn it was: of those submitted to w, the
      first not received before. */
  ghost predicate NextOf(run: seq<Action>, run': seq<Action>, n: nat, w: nat, slot: nat) {
    && Possible(Start(n), run, n) && Possible(Start(n), run', n) && w < n
    && (forall v: nat :: v < n ==> Sent(run', v) == Sent(run, v))
    && (forall v: nat :: v < n && v != w ==> Taken(Start(n), run', n, v) == Taken(Start(n), run, n, v))
    && Taken(Start(n), run', n, w) == Taken(Start(n), run, n, w) + [slot]
    && |Taken(Start(n), run, n, w)| < |Sent(run, w)| && slot == Sent(run, w)[|Taken(Start(n), run, n, w)|]
  }

  lemma Logged(s: State, run: seq<Action>, a: Action, n: nat)
    requires Shape(s, n) && LedTo(run, s, n) && Enabled(s, a, n)
    ensures LedTo(run + [a], Step(s, a, n), n)
    ensures !a.Submit? && !a.Receive? ==> SameTraffic(run, run + [a], n)
  {
    hide Step, Enabled;
    OneMore(Start(n), run, a, n);
    forall w: nat | w < n
      ensures Sent(run + [a], w) == Sent(run, w) + Entering(a, w)
      ensures Taken(Start(n), run + [a], n, w) == Taken(Start(n), run, n, w) + Leaving(s, a, n, w)
    {
      OneMoreSent(run, a, w);
      OneMoreTaken(Start(n), run, a, n, w);
    }
  }

  lemma LoggedReceive(s: State, run: seq<Action>, n: nat, w: nat)
    requires Shape(s, n) && LedTo(run, s, n) && Enabled(s, Receive(w), n)
    ensures LedTo(run + [Receive(w)], Step(s, Receive(w), n), n)
    ensures NextOf(run, run + [Receive(w)], n, w, s.done[w][0])
  {
    hide Step;
    var a := Receive(w);
    Logged(s, run, a, n);
    forall v: nat | v < n
      ensures Sent(run + [a], v) == Sent(run, v)
      ensures Taken(Start(n), run + [a], n, v) == Taken(Start(n), run, n, v) + Leaving(s, a, n, v)
    {
      OneMoreSent(run, a, v);
      OneMoreTaken(Start(n), run, a, n, v);
    }
    FirstInFirstOut(run, n, w);
    assert Line(s, n, w)[0] == s.done[w][0];
  }

  lemma SameAsItself(s: State, run: seq<Action>, n: nat)
    requires Shape(s, n) && LedTo(run, s, n)
    ensures SameTraffic(run, run, n)
  {
  }

  lemma SameTwice(run: seq<Action>, mid: seq<Action>, run': seq<Action>, n: nat)
    requires SameTraffic(run, mid, n) && SameTraffic(mid, run', n)
    ensures SameTraffic(run, run', n)
  {
  }

  lemma NextAfterSame(run: seq<Action>, mid: seq<Action>, run': seq<Action>, n: nat, w: nat, slot: nat)
    requires SameTraffic(run, mid, n) && NextOf(mid, run', n, w, slot)
    ensures NextOf(run, run', n, w, slot)
  {
  }

  /** The pipeline with its workers' positions. Ghost state: the frames the caller was handed, and the protocol
      steps so far. Every method but `TryRecv` is one step of the protocol. */
  class LdpcPipeline {
    const nWorkers: nat
    var freeList: seq<nat>
    var workRings: seq<seq<nat>>
    var doneRings: seq<seq<nat>>
    var nextSubmit: nat
    var outstanding: seq<nat>
    var stopFlag: bool
    var worker: seq<Worker>
    ghost var held: set<nat>
    ghost var log: seq<Action>

    ghost function View(): State
      reads this
    {
      State(freeList, held, workRings, doneRings, worker, outstanding, stopFlag)
    }

    ghost predicate Valid()
      reads this
    {
      && 1 <= nWorkers <= POOL_SIZE / 2 && Shape(View(), nWorkers) && Inv(View(), nWorkers)
      && LedTo(log, View(), nWorkers)
    }

    constructor (requested: nat)
      ensures Valid() && View() == Start(nWorkers) && log == []
      ensures nWorkers == if requested < 1 then 1 else if requested > 8 then 8 else requested
    {
      hide Inv;
      var n := if requested < 1 then 1 else if requested > POOL_SIZE / 2 then POOL_SIZE / 2 else requested;
      nWorkers := n;
      freeList := seq(POOL_SIZE, i => i);
      workRings := seq(n, _ => []);
      doneRings := seq(n, _ => []);
      nextSubmit := 0;
      outstanding := seq(n, _ => 0);
      stopFlag := false;
      held, log := {}, [];
      worker := seq(n, _ => Idle);
      new;
      StartInv(nWorkers);
    }

    /** The most recently freed slot, or nothing when all sixteen are in flight. */
    method Acquire() returns (r: Option<nat>)
      requires Valid() && !stopFlag
      modifies this
      ensures Valid()
      ensures r.None? ==> old(freeList) == [] && View() == old(View())
      ensures r.Some? ==> old(freeList) != [] && r.value !in old(held) && r.value in held && r.value < POOL_SIZE
      ensures r.Some? ==> View() == Step(old(View()), Action.Acquire, nWorkers)
      ensures r.Some? ==> old(freeList) == freeList + [r.value] && held == old(held) + {r.value}
      ensures log == if r.Some? then old(log) + [Action.Acquire] else old(log)
      ensures nextSubmit == old(nextSubmit)
    {
      hide Inv, LedTo;
      if |freeList| == 0 {
        return None;
      }
      AcquireKeeps(View(), nWorkers);
      Logged(View(), log, Action.Acquire, nWorkers);
      var idx := freeList[|freeList| - 1];
      FreeNotHeld(View(), nWorkers, idx);
      freeList := freeList[..|freeList| - 1];
      held, log := held + {idx}, log + [Action.Acquire];
      HeldElsewhere(View(), nWorkers, idx, 0);
      return Some(idx);
    }

    /** Never refused; the frame goes to the worker `pick_worker` names, and the cursor moves on. */
    method Submit(idx: nat) returns (ok: bool)
      requires Valid() && !stopFlag && idx in held
      modifies this
      ensures Valid() && ok
      ensures exists w :: 0 <= w < nWorkers && View() == Step(old(View()), Action.Submit(idx, w), nWorkers)
                && Picked(old(outstanding), old(nextSubmit), w) && log == old(log) + [Action.Submit(idx, w)]
      ensures nextSubmit == old(nextSubmit) + 1
    {
      hide Inv, Picked, LedTo;
      var wi := PickWorker(outstanding, nextSubmit);
      SubmitNeverFails(View(), nWorkers, idx, wi);
      SubmitKeeps(View(), nWorkers, idx, wi);
      Logged(View(), log, Action.Submit(idx, wi), nWorkers);
      if |workRings[wi]| >= POOL_SIZE {
        return false;
      }
      workRings := workRings[wi := workRings[wi] + [idx]];
      held, log := held - {idx}, log + [Action.Submit(idx, wi)];
      outstanding := outstanding[wi := outstanding[wi] + 1];
      nextSubmit := nextSubmit + 1;
      return true;
    }

    /** One pass of a worker's loop up to its next ring or flag operation, if that is the worker's turn. */
    method WorkerActs(a: Action)
      requires Valid() && WorkerAction(a)
      modifies this
      ensures Valid() && nextSubmit == old(nextSubmit) && stopFlag == old(stopFlag)
      ensures View() == if Enabled(old(View()), a, nWorkers) then Step(old(View()), a, nWorkers) else old(View())
      ensures SameTraffic(old(log), log, nWorkers)
    {
      hide Inv, LedTo, SameTraffic;
      SameAsItself(View(), log, nWorkers);
      if Enabled(View(), a, nWorkers) {
        StepKeeps(View(), a, nWorkers);
        Logged(View(), log, a, nWorkers);
        log := log + [a];
      }
      match a
      case Pop(w) =>
        if w < nWorkers && worker[w] == Idle {
          if |workRings[w]| > 0 {
            worker := worker[w := Busy(workRings[w][0])];
            workRings := workRings[w := workRings[w][1..]];
          } else {
            worker := worker[w := Missed];
          }
        }
      case CheckStop(w) =>
        if w < nWorkers && worker[w] == Missed {
          worker := worker[w := if stopFlag then Exited else Idle];
        }
      case Push(w) =>
        if w < nWorkers && worker[w].Busy? && |doneRings[w]| < POOL_SIZE {
          doneRings := doneRings[w := doneRings[w] + [worker[w].slot]];
          worker := worker[w := Idle];
        }
      case _ =>
    }

    method WorkersAct(run: seq<Action>)
      requires Valid() && WorkerActions(run)
      modifies this
      ensures Valid() && nextSubmit == old(nextSubmit) && stopFlag == old(stopFlag)
      ensures View() == Acted(old(View()), run, nWorkers) && SameTraffic(old(log), log, nWorkers)
    {
      hide Inv, Step, Enabled, LedTo;
      ghost var was := View();
      SameAsItself(View(), log, nWorkers);
      var i := 0;
      assert run[0..] == run;
      while i < |run|
        invariant 0 <= i <= |run| && Valid() && nextSubmit == old(nextSubmit) && stopFlag == old(stopFlag)
        invariant Acted(View(), run[i..], nWorkers) == Acted(was, run, nWorkers)
        invariant SameTraffic(old(log), log, nWorkers)
      {
        assert run[i..][0] == run[i] && run[i..][1..] == run[i + 1..];
        WorkerActs(run[i]);
        i := i + 1;
      }
    }

    /** One done ring: its oldest frame, or nothing when it is empty at this moment. */
    method PollRing(wi: nat) returns (r: Option<nat>)
      requires Valid() && !stopFlag && wi < nWorkers
      modifies this
      ensures Valid() && nextSubmit == old(nextSubmit)
      ensures r.None? <==> old(doneRings)[wi] == []
      ensures r.None? ==> View() == old(View()) && log == old(log)
      ensures r.Some? ==> r.value == old(doneRings)[wi][0] && View() == Step(old(View()), Receive(wi), nWorkers)
      ensures r.Some? ==> NextOf(old(log), log, nWorkers, wi, r.value)
    {
      hide Inv, LedTo, NextOf;
      if |doneRings[wi]| == 0 {
        return None;
      }
      CountersNeverUnderflow(View(), nWorkers, wi);
      ReceiveKeeps(View(), nWorkers, wi);
      LoggedReceive(View(), log, nWorkers, wi);
      var idx := doneRings[wi][0];
      doneRings := doneRings[wi := doneRings[wi][1..]];
      held, log := held + {idx}, log + [Receive(wi)];
      outstanding := outstanding[wi := outstanding[wi] - 1];
      return Some(idx);
    }

    /** The rings are polled in order, and the workers go on in between, as scheduled by the argument: the
        oldest frame of the first ring that has one when its turn comes. */
    method TryRecv(between: seq<seq<Action>>) returns (r: Option<nat>)
      requires Valid() && !stopFlag && |between| == nWorkers
      requires forall k :: 0 <= k < |between| ==> WorkerActions(between[k])
      modifies this
      ensures Valid() && nextSubmit == old(nextSubmit)
      ensures r.None? ==> EmptyWhenPolled(old(View()), between, nWorkers, nWorkers)
                          && View() == AtPoll(old(View()), between, nWorkers - 1, nWorkers)
      ensures r.Some? ==>
                exists w: nat :: w < nWorkers && EmptyWhenPolled(old(View()), between, w, nWorkers)
                  && Received(AtPoll(old(View()), between, w, nWorkers), w, nWorkers, r.value, View())
                  && NextOf(old(log), log, nWorkers, w, r.value)
      ensures r.None? ==> SameTraffic(old(log), log, nWorkers)
      ensures r.Some? && nWorkers == 1 ==> NextOf(old(log), log, 1, 0, r.value)
    {
      hide Inv, Step, Acted, LedTo, NextOf, SameTraffic;
      ghost var was := View();
      SameAsItself(View(), log, nWorkers);
      var wi := 0;
      while wi < nWorkers
        invariant 0 <= wi <= nWorkers && Valid() && !stopFlag && nextSubmit == old(nextSubmit)
        invariant EmptyWhenPolled(was, between, wi, nWorkers) && SameTraffic(old(log), log, nWorkers)
        invariant View() == if wi == 0 then was else AtPoll(was, between, wi - 1, nWorkers)
      {
        ghost var before := log;
        WorkersAct(between[wi]);
        SameTwice(old(log), before, log, nWorkers);
        ghost var polled := log;
        assert View() == AtPoll(was, between, wi, nWorkers);
        var one := PollRing(wi);
        if one.Some? {
          NextAfterSame(old(log), polled, log, nWorkers, wi, one.value);
          assert Received(AtPoll(was, between, wi, nWorkers), wi, nWorkers, one.value, View());
          return one;
        }
        wi := wi + 1;
      }
      return None;
    }

    /** The frame's slot goes back to the free list. */
    method Release(idx: nat)
      requires Valid() && !stopFlag && idx in held
      modifies this
      ensures Valid() && View() == Step(old(View()), Action.Release(idx), nWorkers) && nextSubmit == old(nextSubmit)
      ensures freeList == old(freeList) + [idx] && held == old(held) - {idx}
      ensures log == old(log) + [Action.Release(idx)]
    {
      hide Inv, LedTo;
      ReleaseKeeps(View(), nWorkers, idx);
      Logged(View(), log, Action.Release(idx), nWorkers);
      freeList := freeList + [idx];
      held, log := held - {idx}, log + [Action.Release(idx)];
    }
  }
}
