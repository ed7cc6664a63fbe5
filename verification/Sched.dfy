/** The partitioned scheduler (template/kernel/sched.c): one global thread table,
    strict affinity of each thread to a core, fixed priorities (0 is the highest)
    and round-robin among equal priorities. */
module Sched {
  const MAX_THREADS: nat := 32
  const NUM_CORES: nat := 4
  /** "No thread" in g_current[], and the starting value of the priority scans. */
  const NONE: nat := 0xFFFF_FFFF

  datatype ThreadState = Unused | Ready | Running | Blocked

  /** The fields of a thread control block that scheduling depends on. */
  datatype Tcb = Tcb(sp: nat, state: ThreadState, priority: nat, basePrio: nat, core: nat)

  /** g_tcb[], g_nthreads and g_current[]. */
  datatype Sys = Sys(tcb: seq<Tcb>, n: nat, current: seq<nat>)

  ghost predicate Shape(s: Sys) {
    && |s.tcb| == MAX_THREADS
    && s.n <= MAX_THREADS
    && |s.current| == NUM_CORES
    && forall c :: 0 <= c < NUM_CORES ==> s.current[c] == NONE || s.current[c] < s.n
  }

  /** Thread `i` may be dispatched on `core`: it is visible, pinned there and runnable.
      The scans compare strictly with 0xFFFFFFFF, so that priority is never picked. */
  predicate Candidate(s: Sys, core: nat, i: nat) {
    && i < s.n <= |s.tcb|
    && s.tcb[i].core == core
    && (s.tcb[i].state == Ready || s.tcb[i].state == Running)
    && s.tcb[i].priority < NONE
  }

  /** Number of places after `from`, cyclically, at which index `i` is met: 1..n. */
  function Dist(n: nat, from: nat, i: nat): nat
    requires from < n && i < n
  {
    if i > from then i - from else i + n - from
  }

  /** `r` is the thread that round-robin after `from` owes the core: minimal priority
      value and, among those, the first one met cyclically after `from`. */
  ghost predicate IsPick(s: Sys, core: nat, from: nat, r: nat)
    requires from < s.n <= |s.tcb|
  {
    if r == NONE then
      forall i: nat :: !Candidate(s, core, i)
    else
      && Candidate(s, core, r)
      && forall i: nat :: Candidate(s, core, i) ==>
           || s.tcb[r].priority < s.tcb[i].priority
           || (s.tcb[r].priority == s.tcb[i].priority && Dist(s.n, from, r) <= Dist(s.n, from, i))
  }

  /** Round-robin leaves no choice. */
  lemma PickIsUnique(s: Sys, core: nat, from: nat, r: nat, q: nat)
    requires from < s.n <= |s.tcb| && s.n <= MAX_THREADS
    requires IsPick(s, core, from, r) && IsPick(s, core, from, q)
    ensures r == q
  {
    if r != NONE && q != NONE {
      assert Candidate(s, core, r) && Candidate(s, core, q);
    }
  }

  /** `r` is what sched_start() takes: the lowest-numbered READY thread of minimal
      priority value in the partition. */
  ghost predicate IsFirst(s: Sys, core: nat, r: nat)
    requires s.n <= |s.tcb|
  {
    if r == NONE then
      forall i: nat :: Candidate(s, core, i) ==> s.tcb[i].state != Ready
    else
      && Candidate(s, core, r) && s.tcb[r].state == Ready
      && forall i: nat :: Candidate(s, core, i) && s.tcb[i].state == Ready ==>
           || s.tcb[r].priority < s.tcb[i].priority
           || (s.tcb[r].priority == s.tcb[i].priority && r <= i)
  }

  function SetState(s: Sys, i: nat, st: ThreadState): Sys
    requires i < |s.tcb|
  {
    s.(tcb := s.tcb[i := s.tcb[i].(state := st)])
  }

  /** The current thread of the core after its context is saved. */
  function Preempt(s: Sys, cur: nat, sp: nat): Sys
    requires cur < |s.tcb|
  {
    var t := s.tcb[cur].(sp := sp);
    s.(tcb := s.tcb[cur := if t.state == Running then t.(state := Ready) else t])
  }

  function Dispatch(s: Sys, core: nat, next: nat): Sys
    requires core < |s.current| && next < |s.tcb|
  {
    SetState(s, next, Running).(current := s.current[core := next])
  }

  /** One tick (or reschedule IPI) on `core`: what sched_on_tick() may do. */
  ghost predicate TickRel(s: Sys, core: nat, sp: nat, s': Sys, out: nat)
    requires Shape(s) && core < NUM_CORES
  {
    if s.current[core] == NONE then
      s' == s && out == sp
    else
      var saved := Preempt(s, s.current[core], sp);
      exists next: nat :: next < s.n
        && (IsPick(saved, core, s.current[core], next)
            || (IsPick(saved, core, s.current[core], NONE) && next == s.current[core]))
        && s' == Dispatch(saved, core, next)
        && out == saved.tcb[next].sp
  }

  /** sched_start() on `core`, whose current thread is still NONE: with no READY
      thread the core idles for ever and nothing changes. */
  ghost predicate StartRel(s: Sys, core: nat, s': Sys, first: nat)
    requires Shape(s) && core < NUM_CORES
  {
    && IsFirst(s, core, first)
    && s' == if first == NONE then s else Dispatch(s, core, first)
  }

  /** A thread that sched_start() may take. */
  predicate Startable(s: Sys, core: nat, i: nat) {
    && i < s.n <= |s.tcb|
    && s.tcb[i].core == core && s.tcb[i].state == Ready && s.tcb[i].priority < 0xFFFF_FFFF
  }

  /** The first dispatch of a core: of its READY threads one of the best priority, and of those
      the lowest-numbered one, which becomes its RUNNING current thread; nothing else changes.
      Without a READY thread nothing changes at all. */
  lemma StartDispatchesTheBest(s: Sys, core: nat, s': Sys, first: nat)
    requires Shape(s) && core < NUM_CORES && StartRel(s, core, s', first)
    ensures (forall i: nat :: !Startable(s, core, i)) ==> first == 0xFFFF_FFFF && s' == s
    ensures forall i: nat :: Startable(s, core, i) ==>
                && Startable(s, core, first)
                && s.tcb[first].priority <= s.tcb[i].priority
                && (i < first ==> s.tcb[first].priority < s.tcb[i].priority)
    ensures (exists i: nat :: Startable(s, core, i)) ==>
              && s'.current == s.current[core := first] && s'.n == s.n
              && s'.tcb == s.tcb[first := s.tcb[first].(state := Running)]
  {
    forall i: nat ensures Startable(s, core, i) <==> Candidate(s, core, i) && s.tcb[i].state == Ready
    {
    }
    assert first != NONE ==> Startable(s, core, first);
  }

  /** The trampoline's body after a thread function returns. */
  function Exited(s: Sys, core: nat): Sys
    requires Shape(s) && core < NUM_CORES
  {
    if s.current[core] == NONE then s else SetState(s, s.current[core], Blocked)
  }

  function Boosted(s: Sys, id: nat, prio: nat): Sys
    requires Shape(s)
  {
    if id < s.n && prio < s.tcb[id].priority
    then s.(tcb := s.tcb[id := s.tcb[id].(priority := prio)]) else s
  }

  function Restored(s: Sys, id: nat): Sys
    requires Shape(s)
  {
    if id < s.n then s.(tcb := s.tcb[id := s.tcb[id].(priority := s.tcb[id].basePrio)]) else s
  }

  function PriorityOf(s: Sys, id: nat): nat
    requires Shape(s)
  {
    if id < s.n then s.tcb[id].priority else NONE
  }

  function RunnableOn(s: Sys, core: nat, k: nat): set<nat>
    requires k <= |s.tcb|
  {
    set i: nat | i < k && s.tcb[i].core == core && (s.tcb[i].state == Ready || s.tcb[i].state == Running)
  }

  lemma RunnableOnStep(s: Sys, core: nat, k: nat)
    requires k < |s.tcb|
    ensures RunnableOn(s, core, k + 1) ==
            (if s.tcb[k].core == core && (s.tcb[k].state == Ready || s.tcb[k].state == Running)
             then RunnableOn(s, core, k) + {k} else RunnableOn(s, core, k))
    ensures k !in RunnableOn(s, core, k)
  {
  }

  /** The kernel's scheduler state, updated in place. */
  class Scheduler {
    const tcb: array<Tcb>
    const current: array<nat>
    var n: nat

    ghost function Snapshot(): Sys
      reads this, tcb, current
    {
      Sys(tcb[..], n, current[..])
    }

    ghost predicate Valid()
      reads this, tcb, current
    {
      Shape(Snapshot())
    }

    /** sched_init(): an empty table on every core. */
    constructor ()
      ensures Valid() && fresh(tcb) && fresh(current) && n == 0
      ensures forall i :: 0 <= i < MAX_THREADS ==> tcb[i].state == Unused
      ensures forall c :: 0 <= c < NUM_CORES ==> current[c] == NONE
    {
      tcb := new Tcb[MAX_THREADS](_ => Tcb(0, Unused, 0, 0, 0));
      current := new nat[NUM_CORES](_ => NONE);
      n := 0;
    }

    /** thread_create_on(): `frame` is the address of the trap frame it builds.
        On failure nothing changes and -1 is returned. */
    method CreateOn(priority: nat, core: nat, frame: nat) returns (id: int)
      requires Valid()
      modifies this`n, tcb
      ensures Valid() && current[..] == old(current[..])
      ensures old(n) >= MAX_THREADS || core >= NUM_CORES ==> id == -1 && Snapshot() == old(Snapshot())
      ensures old(n) < MAX_THREADS && core < NUM_CORES ==>
                && id == old(n) && n == old(n) + 1
                && tcb[id] == Tcb(frame, Ready, priority, priority, core)
                && forall i :: 0 <= i < MAX_THREADS && i != id ==> tcb[i] == old(tcb[i])
    {
      if n >= MAX_THREADS || core >= NUM_CORES {
        return -1;
      }
      var slot := n;
      tcb[slot] := tcb[slot].(priority := priority, basePrio := priority, core := core, state := Unused);
      tcb[slot] := tcb[slot].(sp := frame);
      tcb[slot] := tcb[slot].(state := Ready);
      n := slot + 1;
      id := slot;
    }

    /** pick_next(): one cyclic scan of the table starting after thread `from`; an empty
        table has nothing to scan. */
    method PickNext(core: nat, from: nat) returns (best: nat)
      requires Valid() && (n > 0 ==> from < n)
      ensures n == 0 ==> best == NONE
      ensures n > 0 ==> IsPick(Snapshot(), core, from, best)
    {
      best := NONE;
      if n == 0 {
        return;
      }
      var bestPrio := NONE;
      var k := 1;
      ghost var s := Snapshot();
      while k <= n
        invariant 1 <= k <= n + 1
        invariant bestPrio <= NONE
        invariant best == NONE <==> bestPrio == NONE
        invariant best != NONE ==> Candidate(s, core, best) && tcb[best].priority == bestPrio && Dist(n, from, best) < k
        invariant forall i: nat :: Candidate(s, core, i) && Dist(n, from, i) < k ==>
                    best != NONE && (bestPrio < tcb[i].priority
                    || (bestPrio == tcb[i].priority && Dist(n, from, best) <= Dist(n, from, i)))
      {
        var i := (from + k) % n;
        assert Dist(n, from, i) == k && forall j: nat :: j < n && Dist(n, from, j) == k ==> j == i by {
          assert i == if from + k < n then from + k else from + k - n by { WrapOnce(from, k, n); }
        }
        if tcb[i].core == core && (tcb[i].state == Ready || tcb[i].state == Running) {
          if tcb[i].priority < bestPrio {
            bestPrio := tcb[i].priority;
            best := i;
          }
        }
        k := k + 1;
      }
    }

    /** sched_on_tick(): saves the interrupted context, picks the next thread and
        returns the stack pointer to restore. */
    method OnTick(core: nat, sp: nat) returns (out: nat)
      requires Valid() && core < NUM_CORES
      modifies tcb, current
      ensures Valid() && TickRel(old(Snapshot()), core, sp, Snapshot(), out)
    {
      var cur := current[core];
      if cur == NONE {
        return sp;
      }
      tcb[cur] := tcb[cur].(sp := sp);
      if tcb[cur].state == Running {
        tcb[cur] := tcb[cur].(state := Ready);
      }
      ghost var saved := Snapshot();
      assert saved == Preempt(old(Snapshot()), cur, sp);
      var picked := PickNext(core, cur);
      var next := if picked == NONE then cur else picked;
      current[core] := next;
      tcb[next] := tcb[next].(state := Running);
      assert Snapshot() == Dispatch(saved, core, next);
      out := tcb[next].sp;
    }

    /** sched_start(): the scan in table order and the first dispatch; `first` is NONE
        when the core goes to its idle loop. */
    method Start(core: nat) returns (first: nat)
      requires Valid() && core < NUM_CORES
      modifies tcb, current
      ensures Valid() && StartRel(old(Snapshot()), core, Snapshot(), first)
    {
      first := NONE;
      var bestPrio := NONE;
      ghost var s := Snapshot();
      for i := 0 to n
        invariant Snapshot() == s
        invariant bestPrio <= NONE && (first == NONE <==> bestPrio == NONE)
        invariant first != NONE ==>
                    && first < i && Candidate(s, core, first)
                    && tcb[first].state == Ready && tcb[first].priority == bestPrio
        invariant forall j: nat :: j < i && Candidate(s, core, j) && tcb[j].state == Ready ==>
                    first != NONE && (bestPrio < tcb[j].priority || (bestPrio == tcb[j].priority && first <= j))
      {
        if tcb[i].core == core && tcb[i].state == Ready && tcb[i].priority < bestPrio {
          bestPrio := tcb[i].priority;
          first := i;
        }
      }
      if first != NONE {
        current[core] := first;
        tcb[first] := tcb[first].(state := Running);
        assert Snapshot() == Dispatch(s, core, first);
      }
    }

    /** thread_trampoline() once the thread function has returned. */
    method Exit(core: nat)
      requires Valid() && core < NUM_CORES
      modifies tcb
      ensures Valid() && Snapshot() == Exited(old(Snapshot()), core)
    {
      var id := current[core];
      if id != NONE {
        tcb[id] := tcb[id].(state := Blocked);
      }
    }

    /** sched_partition_count(): how many threads of the partition can run. */
    method PartitionCount(core: nat) returns (count: nat)
      requires Valid()
      ensures count == |RunnableOn(Snapshot(), core, n)|
    {
      count := 0;
      ghost var s := Snapshot();
      for i := 0 to n
        invariant count == |RunnableOn(s, core, i)|
      {
        RunnableOnStep(s, core, i);
        if tcb[i].core == core && (tcb[i].state == Ready || tcb[i].state == Running) {
          count := count + 1;
        }
      }
    }

    method GetPriority(id: nat) returns (p: nat)
      requires Valid()
      ensures p == PriorityOf(Snapshot(), id)
    {
      p := if id < n then tcb[id].priority else NONE;
    }

    /** thread_set_effective_priority(): raises only. */
    method SetEffectivePriority(id: nat, prio: nat)
      requires Valid()
      modifies tcb
      ensures Valid() && Snapshot() == Boosted(old(Snapshot()), id, prio)
    {
      if id < n && prio < tcb[id].priority {
        tcb[id] := tcb[id].(priority := prio);
      }
    }

    method RestorePriority(id: nat)
      requires Valid()
      modifies tcb
      ensures Valid() && Snapshot() == Restored(old(Snapshot()), id)
    {
      if id < n {
        tcb[id] := tcb[id].(priority := tcb[id].basePrio);
      }
    }
  }

  lemma WrapOnce(from: nat, k: nat, n: nat)
    requires from < n && 1 <= k <= n
    ensures (from + k) % n == if from + k < n then from + k else from + k - n
  {
    if from + k >= n {
      assert from + k == n * 1 + (from + k - n);
    }
  }
}
