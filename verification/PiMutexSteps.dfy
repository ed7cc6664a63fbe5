/** The mutex as single memory accesses (template/kernel/mutex.c): every read and write
    of held, owner, owner_prio and of a thread's priority is a step of its own, steps of
    all threads and of the scheduler interleave, and only the guard keeps sections apart.
    The result: this refines PiMutex, so the inheritance law holds of the real accesses. */
module PiMutexSteps {
  import opened Sched
  import opened PiMutex
  import Spinlock

  datatype Op = Lock(prio: nat) | Try

  /** Where a thread is in mutex_lock / mutex_trylock / mutex_unlock. */
  datatype Pc =
    | Idle
    | Spin(m: nat, op: Op)                 // waits for the guard
    | Entered(m: nat, op: Op)              // has the guard, will test `held`
    | Busy(m: nat, prio: nat)              // saw held == 1, will read `owner`
    | Compare(m: nat, prio: nat, o: nat)   // will compare with the owner's priority
    | Raise(m: nat, prio: nat, o: nat)     // will raise the owner's priority
    | LeaveBusy(m: nat, prio: nat)         // will release the guard and go round
    | LeaveFailed(m: nat)                  // trylock on a held mutex
    | SetOwner(m: nat, op: Op)             // wrote held = 1
    | SetPrio(m: nat, op: Op)              // wrote owner
    | LeaveTaken(m: nat)                   // wrote owner_prio
    | Owns(m: nat)
    | USpin(m: nat)
    | UEntered(m: nat)                     // will read `owner`
    | URestore(m: nat, o: nat)             // will restore the owner's priority
    | UClearOwner(m: nat)
    | UClearHeld(m: nat)
    | ULeave(m: nat)
  {
    predicate InSection() {
      !Idle? && !Spin? && !Owns? && !USpin?
    }
  }

  datatype C = C(sys: Sys, mtx: seq<Mutex>, guard: seq<Spinlock.Guard>, pc: seq<Pc>, boosts: seq<set<nat>>)

  datatype Act = Sys_(sys: Sys) | CallLock(t: nat, m: nat) | CallTry(t: nat, m: nat) | CallUnlock(t: nat) | Go(t: nat)

  ghost predicate CShape(c: C) {
    && Shape(c.sys)
    && |c.pc| == MAX_THREADS
    && |c.guard| == |c.mtx| == |c.boosts|
    && forall t :: 0 <= t < |c.pc| && c.pc[t] != Idle ==> c.pc[t].m < |c.mtx| && t < c.sys.n
  }

  function To(c: C, t: nat, p: Pc): C
    requires t < |c.pc|
  {
    c.(pc := c.pc[t := p])
  }

  /** The next memory access of thread t. */
  ghost predicate GoStep(c: C, t: nat, c': C)
    requires CShape(c) && t < c.sys.n
  {
    match c.pc[t]
    case Idle => false
    case Spin(m, op) =>
      c.guard[m] == Spinlock.Nobody && c' == To(c, t, Entered(m, op)).(guard := c.guard[m := Spinlock.By(t)])
    case Entered(m, op) =>
      c' == if c.mtx[m].held then To(c, t, if op.Lock? then Busy(m, op.prio) else LeaveFailed(m))
            else To(c, t, SetOwner(m, op)).(mtx := c.mtx[m := c.mtx[m].(held := true)])
    case Busy(m, prio) =>
      c' == To(c, t, Compare(m, prio, c.mtx[m].owner))
    case Compare(m, prio, o) =>
      c' == if o != NONE && prio < PriorityOf(c.sys, o) then To(c, t, Raise(m, prio, o))
            else To(c, t, LeaveBusy(m, prio)).(boosts := c.boosts[m := c.boosts[m] + {prio}])
    case Raise(m, prio, o) =>
      c' == To(c, t, LeaveBusy(m, prio)).(sys := Boosted(c.sys, o, prio), boosts := c.boosts[m := c.boosts[m] + {prio}])
    case LeaveBusy(m, prio) =>
      c' == To(c, t, Spin(m, Lock(prio))).(guard := c.guard[m := Spinlock.Nobody])
    case LeaveFailed(m) =>
      c' == To(c, t, Idle).(guard := c.guard[m := Spinlock.Nobody])
    case SetOwner(m, op) =>
      c' == To(c, t, SetPrio(m, op)).(mtx := c.mtx[m := c.mtx[m].(owner := t)])
    case SetPrio(m, op) =>
      c' == To(c, t, LeaveTaken(m)).(mtx := c.mtx[m := c.mtx[m].(ownerPrio :=
              if op.Lock? then op.prio else PriorityOf(c.sys, c.mtx[m].owner))])
    case LeaveTaken(m) =>
      c' == To(c, t, Owns(m)).(guard := c.guard[m := Spinlock.Nobody])
    case Owns(m) => false
    case USpin(m) =>
      c.guard[m] == Spinlock.Nobody && c' == To(c, t, UEntered(m)).(guard := c.guard[m := Spinlock.By(t)])
    case UEntered(m) =>
      c' == To(c, t, URestore(m, c.mtx[m].owner))
    case URestore(m, o) =>
      c' == To(c, t, UClearOwner(m)).(sys := if o != NONE then Restored(c.sys, o) else c.sys,
                                      boosts := c.boosts[m := {}])
    case UClearOwner(m) =>
      c' == To(c, t, UClearHeld(m)).(mtx := c.mtx[m := c.mtx[m].(owner := NONE)])
    case UClearHeld(m) =>
      c' == To(c, t, ULeave(m)).(mtx := c.mtx[m := c.mtx[m].(held := false)])
    case ULeave(m) =>
      c' == To(c, t, Idle).(guard := c.guard[m := Spinlock.Nobody])
  }

  ghost predicate Micro(c: C, a: Act, c': C)
    requires CShape(c)
  {
    match a
    case Sys_(sys) => Shape(sys) && KeepsPriorities(c.sys, sys) && c' == c.(sys := sys)
    case CallLock(t, m) =>
      t < c.sys.n && m < |c.mtx| && c.pc[t] == Idle && c' == To(c, t, Spin(m, Lock(PriorityOf(c.sys, t))))
    case CallTry(t, m) =>
      t < c.sys.n && m < |c.mtx| && c.pc[t] == Idle && c' == To(c, t, Spin(m, Try))
    case CallUnlock(t) =>
      t < c.sys.n && c.pc[t].Owns? && c' == To(c, t, USpin(c.pc[t].m))
    case Go(t) =>
      t < c.sys.n && GoStep(c, t, c')
  }

  // ------------------------------------------------------------------
  // The abstraction: taking happens at the write of held = 1, boosting at the write of
  // the priority (or the comparison that finds none needed), releasing at the restore.
  // ------------------------------------------------------------------

  function AbsPhase(p: Pc): Phase {
    match p
    case Idle => Out
    case Spin(m, op) => if op.Lock? then Waiting(m, op.prio) else Out
    case Entered(m, op) => if op.Lock? then Waiting(m, op.prio) else Out
    case Busy(m, prio) => Waiting(m, prio)
    case Compare(m, prio, _) => Waiting(m, prio)
    case Raise(m, prio, _) => Waiting(m, prio)
    case LeaveBusy(m, prio) => Waiting(m, prio)
    case LeaveFailed(_) => Out
    case SetOwner(m, _) => Owning(m)
    case SetPrio(m, _) => Owning(m)
    case LeaveTaken(m) => Owning(m)
    case Owns(m) => Owning(m)
    case USpin(m) => Owning(m)
    case UEntered(m) => Owning(m)
    case URestore(m, _) => Owning(m)
    case UClearOwner(_) => Out
    case UClearHeld(_) => Out
    case ULeave(_) => Out
  }

  function AbsMutex(c: C, m: nat): Mutex
    requires CShape(c) && m < |c.mtx|
  {
    if c.guard[m].Nobody? || c.guard[m].t >= |c.pc| then c.mtx[m]
    else
      var t := c.guard[m].t;
      var p := c.pc[t];
      if p.SetOwner? || p.SetPrio? then Taken(t, if p.op.Lock? then p.op.prio else PriorityOf(c.sys, t))
      else if p.UClearOwner? || p.UClearHeld? || p.ULeave? then Released(c.mtx[m])
      else c.mtx[m]
  }

  function Abs(c: C): K
    requires CShape(c)
  {
    K(c.sys, seq(|c.mtx|, m requires 0 <= m < |c.mtx| => AbsMutex(c, m)),
      seq(|c.pc|, t requires 0 <= t < |c.pc| => AbsPhase(c.pc[t])), c.boosts)
  }

  /** Inside a section the thread holds the guard and knows what it read or wrote. */
  ghost predicate LocalThread(c: C, t: nat)
    requires CShape(c) && t < |c.pc|
  {
    && (c.pc[t].InSection() ==> c.guard[c.pc[t].m] == Spinlock.By(t))
    && match c.pc[t]
       case Busy(m, _) => c.mtx[m].held
       case Compare(m, _, o) => c.mtx[m].held && c.mtx[m].owner == o
       case Raise(m, _, o) => c.mtx[m].held && c.mtx[m].owner == o
       case SetOwner(m, _) => c.mtx[m].held
       case SetPrio(m, _) => c.mtx[m].held && c.mtx[m].owner == t
       case URestore(m, o) => c.mtx[m].owner == o
       case UClearHeld(m) => c.mtx[m].owner == NONE
       case ULeave(m) => c.mtx[m].owner == NONE && !c.mtx[m].held
       case _ => true
  }

  /** A guard that is taken belongs to a thread inside the section. */
  ghost predicate LocalGuard(c: C, m: nat)
    requires CShape(c) && m < |c.guard|
  {
    c.guard[m].By? ==> c.guard[m].t < |c.pc| && c.pc[c.guard[m].t].InSection() && c.pc[c.guard[m].t].m == m
  }

  ghost predicate Local(c: C)
    requires CShape(c)
  {
    && (forall t :: 0 <= t < |c.pc| ==> LocalThread(c, t))
    && (forall m :: 0 <= m < |c.guard| ==> LocalGuard(c, m))
  }

  ghost predicate MInv(c: C) {
    CShape(c) && Local(c) && Inv(Abs(c))
  }

  /** Only thread t moved, and only mutex m with its guard and boosts may have changed. */
  ghost predicate OnlyAt(c: C, c': C, t: nat, m: nat)
    requires CShape(c) && CShape(c')
  {
    && t < |c.pc| && m < |c.mtx| == |c'.mtx|
    && (forall u :: 0 <= u < |c.pc| && u != t ==> c'.pc[u] == c.pc[u])
    && (forall u :: 0 <= u < |c.mtx| && u != m ==> c'.mtx[u] == c.mtx[u] && c'.guard[u] == c.guard[u])
    && (c.pc[t] == Idle || c.pc[t].m == m)
    && (c'.pc[t] == Idle || c'.pc[t].m == m)
  }

  lemma GoFrame(c: C, t: nat, c': C)
    requires CShape(c) && t < c.sys.n && GoStep(c, t, c')
    ensures c.pc[t] != Idle && CShape(c') && c'.sys.n == c.sys.n
    ensures OnlyAt(c, c', t, c.pc[t].m)
    ensures c'.pc[t].Raise? || c'.pc[t].LeaveBusy? || c'.pc[t].UClearOwner? || c'.sys == c.sys
  {
    var m := c.pc[t].m;
    assert forall u :: 0 <= u < |c.pc| && u != t ==> c'.pc[u] == c.pc[u];
  }

  lemma OwnSectionKept(c: C, t: nat, c': C)
    requires CShape(c) && CShape(c') && t < c.sys.n && LocalThread(c, t) && GoStep(c, t, c')
    ensures LocalThread(c', t)
    ensures c.pc[t].InSection() || c.guard[c.pc[t].m] == Spinlock.Nobody
    ensures c'.guard[c.pc[t].m] == if c'.pc[t].InSection() then Spinlock.By(t) else Spinlock.Nobody
  {
  }

  lemma OtherSectionKept(c: C, c': C, t: nat, m: nat, u: nat)
    requires CShape(c) && CShape(c') && OnlyAt(c, c', t, m)
    requires u < |c.pc| && u != t && LocalThread(c, u)
    requires c.guard[m] == Spinlock.By(t) || c.guard[m] == Spinlock.Nobody
    ensures LocalThread(c', u)
  {
  }

  lemma LocalKeptByGo(c: C, t: nat, c': C)
    requires CShape(c) && Local(c) && t < c.sys.n && GoStep(c, t, c')
    ensures CShape(c') && Local(c')
  {
    GoFrame(c, t, c');
    var m := c.pc[t].m;
    assert LocalThread(c, t);
    OwnSectionKept(c, t, c');
    LocalKeptAt(c, c', t, m);
  }

  lemma LocalKeptAt(c: C, c': C, t: nat, m: nat)
    requires CShape(c) && CShape(c') && Local(c) && OnlyAt(c, c', t, m) && c.pc[t] != Idle
    requires c.guard[m] == Spinlock.By(t) || c.guard[m] == Spinlock.Nobody
    requires LocalThread(c', t)
    requires c'.guard[m] == if c'.pc[t].InSection() then Spinlock.By(t) else Spinlock.Nobody
    ensures Local(c')
  {
    forall u | 0 <= u < |c'.pc| ensures LocalThread(c', u)
    {
      if u != t {
        assert LocalThread(c, u);
        OtherSectionKept(c, c', t, m, u);
      }
    }
    forall u | 0 <= u < |c'.guard| ensures LocalGuard(c', u)
    {
      assert LocalGuard(c, u);
    }
  }

  lemma LocalKept(c: C, a: Act, c': C)
    requires CShape(c) && Local(c) && Micro(c, a, c')
    ensures CShape(c') && Local(c')
  {
    if a.Go? {
      LocalKeptByGo(c, a.t, c');
    } else {
      forall u | 0 <= u < |c'.pc| ensures LocalThread(c', u)
      {
        assert LocalThread(c, u);
      }
      forall u | 0 <= u < |c'.guard| ensures LocalGuard(c', u)
      {
        assert LocalGuard(c, u);
      }
    }
  }

  /** The abstract state changes only at the mutex, and the thread, that took the step. */
  lemma AbsFrame(c: C, c': C, t: nat, m: nat)
    requires CShape(c) && CShape(c') && Local(c) && c.sys == c'.sys
    requires OnlyAt(c, c', t, m)
    ensures Abs(c').mtx == Abs(c).mtx[m := AbsMutex(c', m)]
    ensures Abs(c').phase == Abs(c).phase[t := AbsPhase(c'.pc[t])]
    ensures (AbsMutex(c', m) == AbsMutex(c, m) && AbsPhase(c'.pc[t]) == AbsPhase(c.pc[t]) && c'.boosts == c.boosts)
              ==> Abs(c') == Abs(c)
  {
    forall u | 0 <= u < |c.mtx| && u != m ensures AbsMutex(c', u) == AbsMutex(c, u)
    {
      assert LocalGuard(c, u);
    }
  }

  ghost predicate Refines(c: C, c': C)
    requires CShape(c) && CShape(c')
  {
    Abs(c') == Abs(c) || exists a: PiMutex.Action :: PiMutex.Step(Abs(c), a, Abs(c'))
  }

  predicate Linearizes(p: Pc) {
    p.Entered? || p.Compare? || p.Raise? || p.URestore?
  }

  lemma InvisibleAtItsMutex(c: C, t: nat, c': C)
    requires CShape(c) && CShape(c') && t < c.sys.n && LocalThread(c, t)
    requires GoStep(c, t, c') && !Linearizes(c.pc[t])
    requires c.guard[c.pc[t].m] == if c.pc[t].InSection() then Spinlock.By(t) else Spinlock.Nobody
    ensures AbsMutex(c', c.pc[t].m) == AbsMutex(c, c.pc[t].m)
    ensures AbsPhase(c'.pc[t]) == AbsPhase(c.pc[t])
    ensures c'.boosts == c.boosts && c'.sys == c.sys
  {
  }

  /** Accesses that are not linearization points are invisible. */
  lemma OtherAccessesAreInvisible(c: C, t: nat, c': C)
    requires MInv(c) && t < c.sys.n && GoStep(c, t, c') && !Linearizes(c.pc[t])
    ensures CShape(c') && Abs(c') == Abs(c)
  {
    GoFrame(c, t, c');
    assert LocalThread(c, t);
    OwnSectionKept(c, t, c');
    InvisibleAtItsMutex(c, t, c');
    AbsFrame(c, c', t, c.pc[t].m);
  }

  /** Every interleaved access is either invisible or one atomic mutex operation. */
  lemma GoRefines(c: C, t: nat, c': C)
    requires MInv(c) && t < c.sys.n && GoStep(c, t, c')
    ensures CShape(c') && Refines(c, c')
  {
    if c.pc[t].Entered? {
      EnteredRefines(c, t, c');
    } else if c.pc[t].Compare? {
      CompareRefines(c, t, c');
    } else if c.pc[t].Raise? {
      RaiseRefines(c, t, c');
    } else if c.pc[t].URestore? {
      RestoreRefines(c, t, c');
    } else {
      OtherAccessesAreInvisible(c, t, c');
    }
  }

  lemma EnteredRefines(c: C, t: nat, c': C)
    requires MInv(c) && t < c.sys.n && GoStep(c, t, c') && c.pc[t].Entered?
    ensures CShape(c') && Refines(c, c')
  {
    GoFrame(c, t, c');
    assert LocalThread(c, t);
    var k, k' := Abs(c), Abs(c');
    var m, op := c.pc[t].m, c.pc[t].op;
    AbsFrame(c, c', t, m);
    assert k.mtx[m] == c.mtx[m];
    if c.mtx[m].held {
      assert k' == k;
    } else if op.Lock? {
      assert PiMutex.Step(k, PiMutex.Attempt(t), k');
    } else {
      assert PiMutex.Step(k, PiMutex.TryLock(t, m), k');
    }
  }

  lemma CompareRefines(c: C, t: nat, c': C)
    requires MInv(c) && t < c.sys.n && GoStep(c, t, c') && c.pc[t].Compare?
    ensures CShape(c') && Refines(c, c')
  {
    GoFrame(c, t, c');
    assert LocalThread(c, t);
    var k, k' := Abs(c), Abs(c');
    var m, prio, o := c.pc[t].m, c.pc[t].prio, c.pc[t].o;
    AbsFrame(c, c', t, m);
    assert k.mtx[m] == c.mtx[m];
    if o != NONE && prio < PriorityOf(c.sys, o) {
      assert k' == k;
    } else {
      assert PiMutex.Step(k, PiMutex.Attempt(t), k');
    }
  }

  /** A change of one owner's priority is invisible to the other mutexes. */
  lemma AbsFramePrio(c: C, c': C, t: nat, m: nat, o: nat)
    requires MInv(c) && CShape(c') && OnlyAt(c, c', t, m)
    requires c.pc[t].InSection() && c.pc[t].m == m
    requires c'.sys.n == c.sys.n
    requires forall i :: 0 <= i < c.sys.n && i != o ==> c'.sys.tcb[i] == c.sys.tcb[i]
    requires o < c.sys.n && Abs(c).phase[o] == Owning(m)
    ensures Abs(c').mtx == Abs(c).mtx[m := AbsMutex(c', m)]
    ensures Abs(c').phase == Abs(c).phase[t := AbsPhase(c'.pc[t])]
  {
    forall u | 0 <= u < |c.mtx| && u != m ensures AbsMutex(c', u) == AbsMutex(c, u)
    {
      assert LocalGuard(c, u);
      if c.guard[u].By? && c.guard[u].t < c.sys.n && (c.pc[c.guard[u].t].SetOwner? || c.pc[c.guard[u].t].SetPrio?) {
        assert Abs(c).phase[c.guard[u].t] == Owning(u);
      }
    }
  }

  lemma RaiseRefines(c: C, t: nat, c': C)
    requires MInv(c) && t < c.sys.n && GoStep(c, t, c') && c.pc[t].Raise?
    ensures CShape(c') && Refines(c, c')
  {
    GoFrame(c, t, c');
    assert LocalThread(c, t);
    var k, k' := Abs(c), Abs(c');
    var m, prio, o := c.pc[t].m, c.pc[t].prio, c.pc[t].o;
    assert k.mtx[m] == c.mtx[m];
    assert k.phase[o] == Owning(m);
    AbsFramePrio(c, c', t, m, o);
    assert PiMutex.Step(k, PiMutex.Attempt(t), k');
  }

  lemma RestoreRefines(c: C, t: nat, c': C)
    requires MInv(c) && t < c.sys.n && GoStep(c, t, c') && c.pc[t].URestore?
    ensures CShape(c') && Refines(c, c')
  {
    GoFrame(c, t, c');
    assert LocalThread(c, t);
    var k, k' := Abs(c), Abs(c');
    var m, o := c.pc[t].m, c.pc[t].o;
    assert k.mtx[m] == c.mtx[m];
    assert k.phase[t] == Owning(m);
    assert o == t;
    AbsFramePrio(c, c', t, m, o);
    assert PiMutex.Step(k, PiMutex.Unlock(t), k');
  }

  /** The scheduler's own steps are scheduler steps of the atomic machine. */
  lemma SchedulerRefines(c: C, sys: Sys, c': C)
    requires MInv(c) && Micro(c, Sys_(sys), c')
    ensures CShape(c') && Refines(c, c')
  {
    forall m | 0 <= m < |c.mtx| ensures AbsMutex(c', m) == AbsMutex(c, m)
    {
      assert LocalGuard(c, m);
      if c.guard[m].By? { assert LocalThread(c, c.guard[m].t); }
    }
    assert Abs(c').mtx == Abs(c).mtx;
    assert PiMutex.Step(Abs(c), PiMutex.Sched(sys), Abs(c'));
  }

  /** Entering mutex_lock() reads the caller's priority; the other calls change nothing. */
  lemma CallsRefine(c: C, t: nat, m: nat, p: Pc, c': C)
    requires MInv(c) && t < c.sys.n && m < |c.mtx| && c' == To(c, t, p)
    requires p != Idle && !p.InSection() && p.m == m
    requires !c.pc[t].InSection() && (c.pc[t] == Idle || c.pc[t].m == m)
    ensures CShape(c') && Abs(c').mtx == Abs(c).mtx && Abs(c').phase == Abs(c).phase[t := AbsPhase(p)]
  {
    assert LocalGuard(c, m);
    AbsFrame(c, c', t, m);
    assert AbsMutex(c', m) == AbsMutex(c, m);
    assert Abs(c').mtx == Abs(c).mtx;
  }

  lemma LockCallRefines(c: C, t: nat, m: nat, c': C)
    requires MInv(c) && Micro(c, CallLock(t, m), c')
    ensures CShape(c') && Refines(c, c')
  {
    CallsRefine(c, t, m, c'.pc[t], c');
    assert PiMutex.Step(Abs(c), PiMutex.Call(t, m), Abs(c'));
  }

  lemma OtherCallsAreInvisible(c: C, a: Act, c': C)
    requires MInv(c) && Micro(c, a, c') && (a.CallTry? || a.CallUnlock?)
    ensures CShape(c') && Abs(c') == Abs(c)
  {
    var m := if a.CallUnlock? then c.pc[a.t].m else a.m;
    CallsRefine(c, a.t, m, c'.pc[a.t], c');
    assert Abs(c').phase == Abs(c).phase;
  }

  /** Every step of the interleaved accesses refines the atomic mutex and keeps the law. */
  lemma MicroRefines(c: C, a: Act, c': C)
    requires MInv(c) && Micro(c, a, c')
    ensures MInv(c') && Refines(c, c')
  {
    LocalKept(c, a, c');
    match a {
      case Go(t) => GoRefines(c, t, c');
      case Sys_(sys) => SchedulerRefines(c, sys, c');
      case CallLock(t, m) => LockCallRefines(c, t, m, c');
      case _ => OtherCallsAreInvisible(c, a, c');
    }
    if Abs(c') != Abs(c) {
      var b: PiMutex.Action :| PiMutex.Step(Abs(c), b, Abs(c'));
      PiMutex.StepKeepsInv(Abs(c), b, Abs(c'));
    }
  }

  ghost predicate Init(c: C) {
    && CShape(c)
    && (forall t :: 0 <= t < |c.pc| ==> c.pc[t] == Idle)
    && (forall m :: 0 <= m < |c.mtx| ==>
          c.mtx[m] == Mutex(false, NONE, 0) && c.guard[m] == Spinlock.Nobody && c.boosts[m] == {})
    && (forall t :: 0 <= t < c.sys.n ==> c.sys.tcb[t].priority == c.sys.tcb[t].basePrio)
  }

  ghost predicate IsRun(cs: seq<C>, acts: seq<Act>) {
    && |cs| == |acts| + 1
    && forall i :: 0 <= i < |acts| ==> CShape(cs[i]) && Micro(cs[i], acts[i], cs[i + 1])
  }

  /** Over all interleavings: at most one thread owns a mutex, and a thread that is
      between lock and unlock has exactly the priority it inherited. */
  lemma {:induction false} InterleavingsKeepTheLaw(cs: seq<C>, acts: seq<Act>, i: nat)
    requires IsRun(cs, acts) && Init(cs[0]) && i < |cs|
    ensures MInv(cs[i])
    ensures forall t, u | 0 <= t < |cs[i].pc| && 0 <= u < |cs[i].pc| && cs[i].pc[t].Owns? && cs[i].pc[u].Owns? ::
              cs[i].pc[t].m == cs[i].pc[u].m ==> t == u
    ensures forall t :: 0 <= t < |cs[i].pc| && cs[i].pc[t].Owns? ==>
              IsMinOf(cs[i].sys.tcb[t].priority, cs[i].sys.tcb[t].basePrio, cs[i].boosts[cs[i].pc[t].m])
  {
    if i == 0 {
      assert PiMutex.Init(Abs(cs[0]));
    } else {
      InterleavingsKeepTheLaw(cs, acts, i - 1);
      MicroRefines(cs[i - 1], acts[i - 1], cs[i]);
    }
    OwnersObeyTheLaw(cs[i]);
  }

  lemma OwnersObeyTheLaw(c: C)
    requires MInv(c)
    ensures forall t :: 0 <= t < |c.pc| && c.pc[t].Owns? ==>
              && Abs(c).mtx[c.pc[t].m].owner == t
              && IsMinOf(c.sys.tcb[t].priority, c.sys.tcb[t].basePrio, c.boosts[c.pc[t].m])
  {
    forall t | 0 <= t < |c.pc| && c.pc[t].Owns?
      ensures Abs(c).mtx[c.pc[t].m].owner == t
      ensures IsMinOf(c.sys.tcb[t].priority, c.sys.tcb[t].basePrio, c.boosts[c.pc[t].m])
    {
      assert Abs(c).phase[t] == Owning(c.pc[t].m);
    }
  }
}
