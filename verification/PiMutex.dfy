/** The priority-inheritance mutex (template/kernel/mutex.c) over the scheduler's table,
    with each guarded section taken as one step. Module PiMutexSteps shows that the
    single memory accesses of those sections, interleaved, do nothing more. */
module PiMutex {
  import opened Sched

  /** mutex_t without its guard. */
  datatype Mutex = Mutex(held: bool, owner: nat, ownerPrio: nat)

  /** What a thread is doing with mutexes: nothing; inside mutex_lock() with the priority
      it read on entry; or between lock and unlock. Locking is not nested. */
  datatype Phase = Out | Waiting(m: nat, prio: nat) | Owning(m: nat)

  /** The table, the mutexes and the threads. `boosts[m]` collects the priorities of the
      waiters that went through the busy branch since mutex m was last taken. */
  datatype K = K(sys: Sys, mtx: seq<Mutex>, phase: seq<Phase>, boosts: seq<set<nat>>)

  ghost predicate KShape(k: K) {
    && Shape(k.sys)
    && |k.phase| == MAX_THREADS
    && |k.boosts| == |k.mtx|
  }

  datatype Action = Sched(sys: Sys) | Call(t: nat, m: nat) | Attempt(t: nat) | TryLock(t: nat, m: nat) | Unlock(t: nat)

  /** Anything else the kernel does keeps the priorities of the threads that exist, and
      gives a new thread its base priority: ticks, first dispatches, exits, creations. */
  ghost predicate KeepsPriorities(s: Sys, s': Sys)
    requires Shape(s) && Shape(s')
  {
    && s.n <= s'.n
    && (forall i :: 0 <= i < s.n ==>
          && s'.tcb[i].priority == s.tcb[i].priority
          && s'.tcb[i].basePrio == s.tcb[i].basePrio
          && s'.tcb[i].core == s.tcb[i].core)
    && (forall i :: s.n <= i < s'.n ==> s'.tcb[i].priority == s'.tcb[i].basePrio)
  }

  /** A free mutex becomes the caller's. */
  function Taken(self: nat, prio: nat): Mutex {
    Mutex(true, self, prio)
  }

  function Released(m: Mutex): Mutex {
    m.(held := false, owner := NONE)
  }

  /** What the busy branch does to the table. */
  function BusyEffect(s: Sys, m: Mutex, prio: nat): Sys
    requires Shape(s)
  {
    if m.owner != NONE && prio < PriorityOf(s, m.owner) then Boosted(s, m.owner, prio) else s
  }

  function UnlockEffect(s: Sys, m: Mutex): Sys
    requires Shape(s)
  {
    if m.owner != NONE then Restored(s, m.owner) else s
  }

  ghost predicate Step(k: K, a: Action, k': K)
    requires KShape(k)
  {
    match a
    case Sched(sys) =>
      Shape(sys) && KeepsPriorities(k.sys, sys) && k' == k.(sys := sys)
    case Call(t, m) =>
      && t < k.sys.n && m < |k.mtx| && k.phase[t] == Out
      && k' == k.(phase := k.phase[t := Waiting(m, PriorityOf(k.sys, t))])
    case Attempt(t) =>
      && t < k.sys.n && k.phase[t].Waiting? && k.phase[t].m < |k.mtx|
      && var m, prio := k.phase[t].m, k.phase[t].prio;
         k' == if !k.mtx[m].held
               then k.(mtx := k.mtx[m := Taken(t, prio)], phase := k.phase[t := Owning(m)])
               else k.(sys := BusyEffect(k.sys, k.mtx[m], prio), boosts := k.boosts[m := k.boosts[m] + {prio}])
    case TryLock(t, m) =>
      && t < k.sys.n && m < |k.mtx| && k.phase[t] == Out
      && k' == if k.mtx[m].held then k
               else k.(mtx := k.mtx[m := Taken(t, PriorityOf(k.sys, t))], phase := k.phase[t := Owning(m)])
    case Unlock(t) =>
      && t < k.sys.n && k.phase[t].Owning? && k.phase[t].m < |k.mtx|
      && var m := k.phase[t].m;
         k' == k.(sys := UnlockEffect(k.sys, k.mtx[m]), mtx := k.mtx[m := Released(k.mtx[m])],
                  phase := k.phase[t := Out], boosts := k.boosts[m := {}])
  }

  /** `x` is the minimum of `b` and the members of `w`. */
  ghost predicate IsMinOf(x: nat, b: nat, w: set<nat>) {
    && x <= b && (forall p :: p in w ==> x <= p)
    && (x == b || x in w)
  }

  /** The inheritance law. */
  ghost predicate Inv(k: K) {
    && KShape(k)
    && (forall m :: 0 <= m < |k.mtx| ==>
          if k.mtx[m].held then
            && k.mtx[m].owner < k.sys.n
            && k.phase[k.mtx[m].owner] == Owning(m)
            && k.mtx[m].ownerPrio == k.sys.tcb[k.mtx[m].owner].basePrio
            && IsMinOf(k.sys.tcb[k.mtx[m].owner].priority, k.sys.tcb[k.mtx[m].owner].basePrio, k.boosts[m])
          else
            k.mtx[m].owner == NONE && k.boosts[m] == {})
    && (forall t :: 0 <= t < |k.phase| && k.phase[t].Owning? ==>
          && k.phase[t].m < |k.mtx| && t < k.sys.n
          && k.mtx[k.phase[t].m].held && k.mtx[k.phase[t].m].owner == t)
    && (forall t :: 0 <= t < k.sys.n && !k.phase[t].Owning? ==> k.sys.tcb[t].priority == k.sys.tcb[t].basePrio)
    && (forall t :: 0 <= t < |k.phase| && k.phase[t].Waiting? ==>
          k.phase[t].m < |k.mtx| && t < k.sys.n && k.phase[t].prio == k.sys.tcb[t].basePrio)
  }

  ghost predicate Init(k: K) {
    && KShape(k)
    && (forall m :: 0 <= m < |k.mtx| ==> k.mtx[m] == Mutex(false, NONE, 0) && k.boosts[m] == {})
    && (forall t :: 0 <= t < |k.phase| ==> k.phase[t] == Out)
    && (forall t :: 0 <= t < k.sys.n ==> k.sys.tcb[t].priority == k.sys.tcb[t].basePrio)
  }

  ghost predicate IsRun(ks: seq<K>, acts: seq<Action>) {
    && |ks| == |acts| + 1
    && forall i :: 0 <= i < |acts| ==> KShape(ks[i]) && Step(ks[i], acts[i], ks[i + 1])
  }

  lemma StepKeepsInv(k: K, a: Action, k': K)
    requires Inv(k) && Step(k, a, k')
    ensures Inv(k')
  {
    match a
    case Sched(sys) =>
    case Call(t, m) =>
    case Attempt(t) => AttemptKeepsInv(k, t, k');
    case TryLock(t, m) =>
    case Unlock(t) => UnlockKeepsInv(k, t, k');
  }

  lemma AttemptKeepsInv(k: K, t: nat, k': K)
    requires Inv(k) && Step(k, Attempt(t), k')
    ensures Inv(k')
  {
    var m, prio := k.phase[t].m, k.phase[t].prio;
    if k.mtx[m].held {
      var o := k.mtx[m].owner;
      assert k'.sys.tcb[o].priority == if prio < k.sys.tcb[o].priority then prio else k.sys.tcb[o].priority;
      forall u | 0 <= u < |k.mtx| && k.mtx[u].held && u != m ensures k.mtx[u].owner != o
      {
      }
    }
  }

  lemma UnlockKeepsInv(k: K, t: nat, k': K)
    requires Inv(k) && Step(k, Unlock(t), k')
    ensures Inv(k')
  {
    var m := k.phase[t].m;
    forall u | 0 <= u < |k.mtx| && k.mtx[u].held && u != m ensures k.mtx[u].owner != t
    {
    }
  }

  /** The inheritance law over all runs: a mutex has one owner at a time; the owner's
      effective priority is the minimum of its base and of the waiters that reached the
      busy branch in this tenure; everybody else is at base priority. */
  lemma {:induction false} InheritanceLaw(ks: seq<K>, acts: seq<Action>, i: nat)
    requires IsRun(ks, acts) && Init(ks[0]) && i < |ks|
    ensures Inv(ks[i])
  {
    if i == 0 {
      InitIsLawful(ks[0]);
    } else {
      InheritanceLaw(ks, acts, i - 1);
      StepKeepsInv(ks[i - 1], acts[i - 1], ks[i]);
    }
  }

  lemma InitIsLawful(k: K)
    requires Init(k)
    ensures Inv(k)
  {
  }

  /** Ticks, first dispatches, exits and creations are scheduler actions in this sense. */
  lemma TickIsSchedAction(s: Sys, core: nat, sp: nat, s': Sys, out: nat)
    requires Shape(s) && core < NUM_CORES && TickRel(s, core, sp, s', out)
    ensures Shape(s') && KeepsPriorities(s, s')
  {
  }

  lemma OtherSchedActions(s: Sys, core: nat, s': Sys, first: nat)
    requires Shape(s) && core < NUM_CORES
    ensures KeepsPriorities(s, Exited(s, core))
    ensures StartRel(s, core, s', first) ==> Shape(s') && KeepsPriorities(s, s')
  {
  }

  // ------------------------------------------------------------------
  // Nested locking, where the unconditional restore of mutex_unlock() matters
  // ------------------------------------------------------------------

  /** The priority a thread should have from the mutexes it holds, nested or not. */
  ghost predicate HasInherited(k: K, t: nat)
    requires KShape(k) && t < k.sys.n
  {
    var x, b := k.sys.tcb[t].priority, k.sys.tcb[t].basePrio;
    && x <= b
    && (forall m, p :: 0 <= m < |k.mtx| && k.mtx[m].held && k.mtx[m].owner == t && p in k.boosts[m] ==> x <= p)
    && (x == b || exists m :: 0 <= m < |k.mtx| && k.mtx[m].held && k.mtx[m].owner == t && x in k.boosts[m])
  }

  /** mutex_unlock() of mutex m, whatever else its owner holds. */
  function AfterUnlock(k: K, m: nat): K
    requires KShape(k) && m < |k.mtx|
  {
    k.(sys := UnlockEffect(k.sys, k.mtx[m]), mtx := k.mtx[m := Released(k.mtx[m])], boosts := k.boosts[m := {}])
  }

  /** Exactly when a nested unlock keeps the law for its owner: when no waiter of any
      other mutex it still holds is more urgent than its base priority. */
  lemma NestedUnlockKeepsLawIff(k: K, m: nat)
    requires KShape(k) && m < |k.mtx| && k.mtx[m].held && k.mtx[m].owner < k.sys.n
    requires HasInherited(k, k.mtx[m].owner)
    ensures KShape(AfterUnlock(k, m))
    ensures HasInherited(AfterUnlock(k, m), k.mtx[m].owner) <==>
            forall u, p ::
              0 <= u < |k.mtx| && u != m && k.mtx[u].held && k.mtx[u].owner == k.mtx[m].owner && p in k.boosts[u] ==>
              k.sys.tcb[k.mtx[m].owner].basePrio <= p
  {
    var o, k' := k.mtx[m].owner, AfterUnlock(k, m);
    var base := k.sys.tcb[o].basePrio;
    assert k'.sys.tcb[o].priority == base == k'.sys.tcb[o].basePrio;
    if HasInherited(k', o) {
      forall u, p | 0 <= u < |k.mtx| && u != m && k.mtx[u].held && k.mtx[u].owner == o && p in k.boosts[u]
        ensures base <= p
      {
        assert k'.mtx[u].held && k'.mtx[u].owner == o && p in k'.boosts[u];
      }
    }
  }

  /** A nested mutex_trylock() or an immediate mutex_lock() of a free mutex m by thread t. */
  function AfterTake(k: K, t: nat, m: nat): K
    requires KShape(k) && m < |k.mtx|
  {
    k.(mtx := k.mtx[m := Taken(t, PriorityOf(k.sys, t))])
  }

  /** Two threads of base priorities 5 and 1, two free mutexes. */
  function TwoThreads(): (k: K)
    ensures Init(k) && |k.mtx| == 2 && k.sys.n == 2
  {
    var slow, urgent := Tcb(0, Ready, 5, 5, 0), Tcb(0, Ready, 1, 1, 1);
    K(Sys(seq(MAX_THREADS, i => if i == 0 then slow else urgent), 2, seq(NUM_CORES, _ => NONE)),
      [Mutex(false, NONE, 0), Mutex(false, NONE, 0)], seq(MAX_THREADS, _ => Out), [{}, {}])
  }

  /** A concrete loss, step by step from an initial state: thread 0 (base 5) takes mutexes 0
      and 1, thread 1 (base 1) finds mutex 0 busy and boosts it to 1; releasing mutex 1 puts
      thread 0 back to 5 while thread 1 still waits for mutex 0. */
  lemma NestedUnlockLosesABoost() returns (k: K, called: K, boosted: K)
    ensures k == AfterTake(AfterTake(TwoThreads(), 0, 0), 0, 1)
    ensures KShape(k) && Step(k, Call(1, 0), called)
    ensures KShape(called) && Step(called, Attempt(1), boosted)
    ensures KShape(boosted) && boosted.phase[1] == Waiting(0, 1)
    ensures boosted.sys.tcb[0].priority == 1 && HasInherited(boosted, 0)
    ensures var after := AfterUnlock(boosted, 1);
            && KShape(after) && after.mtx[0].held && after.mtx[0].owner == 0 && 1 in after.boosts[0]
            && after.sys.tcb[0].priority == 5 && !HasInherited(after, 0)
  {
    k := AfterTake(AfterTake(TwoThreads(), 0, 0), 0, 1);
    called := k.(phase := k.phase[1 := Waiting(0, 1)]);
    boosted := called.(sys := BusyEffect(called.sys, called.mtx[0], 1),
                       boosts := called.boosts[0 := called.boosts[0] + {1}]);
    assert 1 in boosted.boosts[0] && AfterUnlock(boosted, 1).boosts[0] == boosted.boosts[0];
  }

  // ------------------------------------------------------------------
  // The code
  // ------------------------------------------------------------------

  class KMutex {
    var held: bool
    var owner: nat
    var ownerPrio: nat

    ghost function State(): Mutex
      reads this
    {
      Mutex(held, owner, ownerPrio)
    }

    /** mutex_init() */
    constructor ()
      ensures State() == Mutex(false, NONE, 0)
    {
      held, owner, ownerPrio := false, NONE, 0;
    }

    /** One round of the loop in mutex_lock(), between taking and releasing the guard. */
    method Attempt(kernel: Scheduler, self: nat, selfPrio: nat) returns (got: bool)
      requires kernel.Valid()
      modifies this, kernel.tcb
      ensures kernel.Valid() && got == !old(held)
      ensures got ==> State() == Taken(self, selfPrio) && kernel.Snapshot() == old(kernel.Snapshot())
      ensures !got ==> State() == old(State())
                       && kernel.Snapshot() == BusyEffect(old(kernel.Snapshot()), old(State()), selfPrio)
    {
      if !held {
        held := true;
        owner := self;
        ownerPrio := selfPrio;
        return true;
      }
      var o := owner;
      if o != NONE {
        var p := kernel.GetPriority(o);
        if selfPrio < p {
          kernel.SetEffectivePriority(o, selfPrio);
        }
      }
      got := false;
    }

    /** mutex_trylock() by the current thread `self`. */
    method TryLock(kernel: Scheduler, self: nat) returns (got: bool)
      requires kernel.Valid()
      modifies this
      ensures got == !old(held)
      ensures State() == if got then Taken(self, PriorityOf(kernel.Snapshot(), self)) else old(State())
    {
      got := false;
      if !held {
        held := true;
        owner := self;
        ownerPrio := kernel.GetPriority(owner);
        got := true;
      }
    }

    /** mutex_unlock() */
    method Unlock(kernel: Scheduler)
      requires kernel.Valid()
      modifies this, kernel.tcb
      ensures kernel.Valid() && State() == Released(old(State()))
      ensures kernel.Snapshot() == UnlockEffect(old(kernel.Snapshot()), old(State()))
    {
      var o := owner;
      if o != NONE {
        kernel.RestorePriority(o);
      }
      owner := NONE;
      held := false;
    }
  }

  // ------------------------------------------------------------------
  // Counting semaphores
  // ------------------------------------------------------------------

  /** A semaphore operation: a post or an attempted wait. */
  datatype SemOp = Post | Wait

  /** The new count, and whether the operation got through. */
  function SemStep(count: int, op: SemOp): (int, bool) {
    match op
    case Post => (count + 1, true)
    case Wait => if count > 0 then (count - 1, true) else (count, false)
  }

  /** A history of operations: the count, the posts and the waits that got through. */
  function SemRun(initial: int, ops: seq<SemOp>): (int, nat, nat) {
    if ops == [] then (initial, 0, 0)
    else
      var op := ops[|ops| - 1];
      var (count, posts, passed) := SemRun(initial, ops[..|ops| - 1]);
      var (count', ok) := SemStep(count, op);
      (count', if op == Post then posts + 1 else posts, if op == Wait && ok then passed + 1 else passed)
  }

  class Semaphore {
    var count: int

    constructor (initial: int)
      ensures count == initial
    {
      count := initial;
    }

    /** sem_trywait(); sem_wait() repeats it until it succeeds. */
    method TryWait() returns (ok: bool)
      modifies this
      ensures (count, ok) == SemStep(old(count), SemOp.Wait)
      ensures ok == (old(count) > 0)
      ensures count == if ok then old(count) - 1 else old(count)
    {
      ok := false;
      if count > 0 {
        count := count - 1;
        ok := true;
      }
    }

    method Post()
      modifies this
      ensures count == SemStep(old(count), SemOp.Post).0 == old(count) + 1
    {
      count := count + 1;
    }
  }

  /** Conservation of permits: over any history the count is the initial value plus the
      posts minus the successful waits, so at most initial + posts waits get through. */
  lemma {:induction false} PermitsAreConserved(initial: int, ops: seq<SemOp>)
    ensures var (count, posts, passed) := SemRun(initial, ops);
            && count == initial + posts - passed
            && (initial >= 0 ==> count >= 0 && passed <= initial + posts)
  {
    if ops != [] {
      PermitsAreConserved(initial, ops[..|ops| - 1]);
    }
  }
}
