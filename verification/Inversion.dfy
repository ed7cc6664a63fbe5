/** Bounded priority inversion: the inheritance law of the mutex meets the dispatcher. */
module Inversion {
  import opened Sched
  import opened PiMutex
  import RoundRobin
  import PiMutexSteps

  /** One atomic operation, or a step that is invisible from outside. */
  ghost predicate Goes(k: K, k': K)
    requires KShape(k)
  {
    k' == k || exists a: Action :: Step(k, a, k')
  }

  /** A run seen from outside. */
  ghost predicate Trace(ks: seq<K>) {
    && |ks| > 0
    && (forall i :: 0 <= i < |ks| ==> KShape(ks[i]))
    && forall i :: 0 <= i < |ks| - 1 ==> Goes(ks[i], ks[i + 1])
  }

  /** The interleaved memory accesses of PiMutexSteps are such a trace. */
  lemma InterleavingIsTrace(cs: seq<PiMutexSteps.C>, acts: seq<PiMutexSteps.Act>)
    requires PiMutexSteps.IsRun(cs, acts) && PiMutexSteps.Init(cs[0])
    ensures forall i :: 0 <= i < |cs| ==> PiMutexSteps.CShape(cs[i])
    ensures Trace(seq(|cs|, i requires 0 <= i < |cs| && PiMutexSteps.CShape(cs[i]) => PiMutexSteps.Abs(cs[i])))
  {
    forall i | 0 <= i < |cs| ensures PiMutexSteps.MInv(cs[i])
    {
      PiMutexSteps.InterleavingsKeepTheLaw(cs, acts, i);
    }
    forall i | 0 <= i < |cs| - 1 ensures Goes(PiMutexSteps.Abs(cs[i]), PiMutexSteps.Abs(cs[i + 1]))
    {
      PiMutexSteps.MicroRefines(cs[i], acts[i], cs[i + 1]);
    }
  }

  /** As long as `o` stays between lock and unlock of mutex m, the priority of a waiter
      that went through the busy branch keeps counting for it. */
  lemma {:induction false} BoostLasts(ks: seq<K>, o: nat, m: nat, p: nat, i: nat)
    requires Trace(ks) && Inv(ks[0]) && i < |ks| && o < MAX_THREADS
    requires m < |ks[0].mtx| && p in ks[0].boosts[m]
    requires forall j :: 0 <= j <= i ==> ks[j].phase[o] == Owning(m)
    ensures Inv(ks[i]) && m < |ks[i].mtx| && p in ks[i].boosts[m]
    ensures ks[i].sys.tcb[o].core == ks[0].sys.tcb[o].core
    ensures ks[i].sys.tcb[o].priority <= p
  {
    if i > 0 {
      BoostLasts(ks, o, m, p, i - 1);
      var j := i - 1;
      assert Goes(ks[j], ks[j + 1]);
      if ks[i] != ks[i - 1] {
        var a: Action :| Step(ks[i - 1], a, ks[i]);
        StepKeepsInv(ks[i - 1], a, ks[i]);
      }
    }
    assert ks[i].mtx[m].held && ks[i].mtx[m].owner == o;
  }

  /** No thread numerically above p gets the owner's core while the owner can run. */
  lemma BoundedInversion(ks: seq<K>, o: nat, m: nat, p: nat, i: nat, core: nat, sp: nat, s': Sys, out: nat)
    requires Trace(ks) && Inv(ks[0]) && i < |ks| && o < MAX_THREADS
    requires m < |ks[0].mtx| && p in ks[0].boosts[m]
    requires forall j :: 0 <= j <= i ==> ks[j].phase[o] == Owning(m)
    requires core < NUM_CORES && Candidate(ks[i].sys, core, o)
    requires ks[i].sys.current[core] != NONE
    requires TickRel(ks[i].sys, core, sp, s', out)
    ensures Shape(s') && s'.current[core] < ks[i].sys.n
    ensures ks[i].sys.tcb[s'.current[core]].priority <= ks[i].sys.tcb[o].priority <= p
  {
    BoostLasts(ks, o, m, p, i);
    RoundRobin.TickKeepsTops(ks[i].sys, core, sp, s', out);
  }

  // ------------------------------------------------------------------
  // The owner's wait, while other threads come and go
  // ------------------------------------------------------------------

  /** One step as the core sees it: a tick on it, or anything else that leaves its current
      thread alone and lets nobody join the top threads of its partition. */
  ghost predicate Turn(s: Sys, s': Sys, core: nat, tick: bool)
    requires Shape(s) && Shape(s') && core < NUM_CORES
  {
    if tick then exists sp: nat, out: nat :: TickRel(s, core, sp, s', out)
    else
      && s'.current[core] == s.current[core]
      && forall i: nat :: RoundRobin.Top(s', core, i) ==> RoundRobin.Top(s, core, i)
  }

  /** A thread of the partition that exits is no obstacle, nor is a tick elsewhere. */
  lemma ExitsAreTurns(s: Sys, c: nat, core: nat, o: nat)
    requires Shape(s) && c < NUM_CORES && core < NUM_CORES && RoundRobin.Top(s, core, o) && s.current[c] != o
    ensures Turn(s, Exited(s, c), core, false) && RoundRobin.Top(Exited(s, c), core, o)
  {
    var s' := Exited(s, c);
    forall i: nat
      ensures Candidate(s', core, i) ==> Candidate(s, core, i)
      ensures i < |s.tcb| ==> s'.tcb[i].priority == s.tcb[i].priority
    {
    }
    assert Candidate(s', core, o);
  }

  lemma OtherTicksAreTurns(s: Sys, core: nat, other: nat, sp: nat, s': Sys, out: nat)
    requires Shape(s) && core < NUM_CORES && other < NUM_CORES && core != other
    requires TickRel(s, other, sp, s', out)
    requires s.current[other] != NONE ==> s.tcb[s.current[other]].core == other
    ensures Shape(s') && Turn(s, s', core, false)
  {
    RoundRobin.OtherCoreTickIsStable(s, core, other, sp, s', out);
    RoundRobin.StableKeepsTops(s, s', core);
  }

  ghost function TopSet(s: Sys, core: nat): set<nat> {
    set i: nat | i < MAX_THREADS && RoundRobin.Top(s, core, i)
  }

  /** Cyclic distance in the whole table. */
  function Rank(from: nat, i: nat): nat
    requires from < MAX_THREADS && i < MAX_THREADS
  {
    if i > from then i - from else i + MAX_THREADS - from
  }

  /** The top threads that round-robin meets up to `o`, from the current thread on. */
  ghost function Ahead(s: Sys, core: nat, o: nat): set<nat>
    requires Shape(s) && core < NUM_CORES && s.current[core] != NONE && o < MAX_THREADS
  {
    set i: nat | i < MAX_THREADS && RoundRobin.Top(s, core, i) && Rank(s.current[core], i) <= Rank(s.current[core], o)
  }

  /** A tick dispatches `o` or leaves fewer threads ahead of it. */
  lemma TickApproaches(s: Sys, core: nat, sp: nat, s': Sys, out: nat, o: nat)
    requires Shape(s) && core < NUM_CORES && s.current[core] != NONE
    requires TickRel(s, core, sp, s', out) && RoundRobin.Top(s, core, o)
    ensures Shape(s') && s'.current[core] != NONE
    ensures s'.current[core] == o || Ahead(s', core, o) < Ahead(s, core, o)
  {
    RoundRobin.TickKeepsTops(s, core, sp, s', out);
    RoundRobin.PreemptKeepsTops(s, core, sp);
    var saved := Preempt(s, s.current[core], sp);
    var cur, next := s.current[core], s'.current[core];
    if next != o {
      assert RoundRobin.Top(saved, core, o) && RoundRobin.Top(saved, core, next);
      assert Dist(s.n, cur, next) <= Dist(s.n, cur, o);
      CloserIsFewer(s, s', core, o);
    }
  }

  lemma CloserIsFewer(s: Sys, s': Sys, core: nat, o: nat)
    requires Shape(s) && Shape(s') && core < NUM_CORES && s.current[core] != NONE && s'.current[core] != NONE
    requires RoundRobin.SameTops(s, s', core) && RoundRobin.Top(s, core, s'.current[core]) && RoundRobin.Top(s, core, o)
    requires s'.current[core] != o && Dist(s.n, s.current[core], s'.current[core]) <= Dist(s.n, s.current[core], o)
    ensures Ahead(s', core, o) < Ahead(s, core, o)
  {
    var next := s'.current[core];
    assert next in Ahead(s, core, o) && next !in Ahead(s', core, o);
    forall i | i in Ahead(s', core, o) ensures i in Ahead(s, core, o)
    {
      assert RoundRobin.Top(s', core, i);
    }
  }

  function Count(ticks: seq<bool>): nat {
    if ticks == [] then 0 else Count(ticks[..|ticks| - 1]) + if ticks[|ticks| - 1] then 1 else 0
  }

  /** A stretch of steps through which `o` stays a top thread of its core. */
  ghost predicate Stretch(ss: seq<Sys>, ticks: seq<bool>, core: nat, o: nat) {
    && |ss| == |ticks| + 1 && core < NUM_CORES
    && (forall j :: 0 <= j < |ss| ==> Shape(ss[j]) && RoundRobin.Top(ss[j], core, o))
    && (forall j :: 0 <= j < |ticks| ==> Turn(ss[j], ss[j + 1], core, ticks[j]))
    && ss[0].current[core] != NONE
  }

  /** As long as no tick dispatched `o`, each one took a thread out of its way. */
  lemma {:induction false} TicksClearTheWay(ss: seq<Sys>, ticks: seq<bool>, core: nat, o: nat, k: nat)
    requires Stretch(ss, ticks, core, o) && k <= |ticks|
    requires forall j :: 0 <= j < k && ticks[j] ==> ss[j + 1].current[core] != o
    ensures ss[k].current[core] != NONE && |Ahead(ss[k], core, o)| >= 1
    ensures |Ahead(ss[k], core, o)| + Count(ticks[..k]) <= |Ahead(ss[0], core, o)|
  {
    assert RoundRobin.Top(ss[k], core, o);
    if k == 0 {
      SubsetCount({o}, Ahead(ss[0], core, o));
    } else {
      TicksClearTheWay(ss, ticks, core, o, k - 1);
      assert Turn(ss[k - 1], ss[k], core, ticks[k - 1]) && RoundRobin.Top(ss[k - 1], core, o);
      assert ticks[..k][..k - 1] == ticks[..k - 1];
      TurnClears(ss[k - 1], ss[k], core, ticks[k - 1], o);
    }
  }

  lemma TurnClears(s: Sys, s': Sys, core: nat, tick: bool, o: nat)
    requires Shape(s) && Shape(s') && core < NUM_CORES && Turn(s, s', core, tick) && s.current[core] != NONE
    requires RoundRobin.Top(s, core, o) && RoundRobin.Top(s', core, o)
    ensures s'.current[core] != NONE && |Ahead(s', core, o)| >= 1
    ensures !tick || s'.current[core] != o ==>
              |Ahead(s', core, o)| + (if tick then 1 else 0) <= |Ahead(s, core, o)|
  {
    if tick {
      var sp: nat, out: nat :| TickRel(s, core, sp, s', out);
      TickApproaches(s, core, sp, s', out, o);
      if s'.current[core] != o {
        FewerCount(Ahead(s', core, o), Ahead(s, core, o));
      }
    } else {
      forall i | i in Ahead(s', core, o) ensures i in Ahead(s, core, o)
      {
        assert RoundRobin.Top(s', core, i);
      }
      SubsetCount(Ahead(s', core, o), Ahead(s, core, o));
    }
    SubsetCount({o}, Ahead(s', core, o));
  }

  lemma SubsetCount(a: set<nat>, b: set<nat>)
    requires a <= b
    ensures |a| <= |b|
  {
    assert b == a + (b - a);
  }

  lemma FewerCount(a: set<nat>, b: set<nat>)
    requires a < b
    ensures |a| < |b|
  {
    assert b == a + (b - a) && b - a != {};
  }

  /** The wait of a top thread, whatever else happens: other top threads may exit, lose or
      gain urgency, other cores tick; if nobody joins the m top threads of its partition,
      it is dispatched by one of the next m ticks of its core. */
  lemma OwnerRunsWithin(ss: seq<Sys>, ticks: seq<bool>, core: nat, o: nat)
    requires Stretch(ss, ticks, core, o) && Count(ticks) >= |TopSet(ss[0], core)|
    ensures exists j :: 0 <= j < |ticks| && ticks[j] && ss[j + 1].current[core] == o
  {
    if forall j :: 0 <= j < |ticks| && ticks[j] ==> ss[j + 1].current[core] != o {
      assert ticks[..|ticks|] == ticks;
      SubsetCount(Ahead(ss[0], core, o), TopSet(ss[0], core));
      TicksClearTheWay(ss, ticks, core, o, |ticks|);
    }
  }

  /** An owner boosted by the most urgent priority of its partition is a top thread. */
  lemma BoostedOwnerIsTop(k: K, o: nat, m: nat, p: nat, core: nat)
    requires Inv(k) && m < |k.mtx| && k.mtx[m].held && k.mtx[m].owner == o && p in k.boosts[m]
    requires Candidate(k.sys, core, o)
    requires forall i: nat :: Candidate(k.sys, core, i) ==> p <= k.sys.tcb[i].priority
    ensures RoundRobin.Top(k.sys, core, o)
  {
  }

  /** Bounded inversion in ticks. A waiter whose priority p is the most urgent of the owner's
      partition went through the busy branch. Then, in every run in which the owner stays
      runnable and keeps the mutex and nobody joins the m top threads of the partition, one
      of the next m ticks of its core dispatches the owner. */
  lemma BoostedOwnerRunsWithin(ks: seq<K>, ticks: seq<bool>, o: nat, m: nat, p: nat, core: nat)
    requires Trace(ks) && Inv(ks[0]) && |ks| == |ticks| + 1 && o < MAX_THREADS && core < NUM_CORES
    requires m < |ks[0].mtx| && p in ks[0].boosts[m]
    requires forall j :: 0 <= j < |ks| ==> ks[j].phase[o] == Owning(m) && Candidate(ks[j].sys, core, o)
    requires forall j, i: nat :: 0 <= j < |ks| && Candidate(ks[j].sys, core, i) ==> p <= ks[j].sys.tcb[i].priority
    requires forall j :: 0 <= j < |ticks| ==> Turn(ks[j].sys, ks[j + 1].sys, core, ticks[j])
    requires ks[0].sys.current[core] != NONE && Count(ticks) >= |TopSet(ks[0].sys, core)|
    ensures exists j :: 0 <= j < |ticks| && ticks[j] && ks[j + 1].sys.current[core] == o
  {
    var ss := Systems(ks);
    forall j | 0 <= j < |ks| ensures RoundRobin.Top(ss[j], core, o)
    {
      BoostedOwnerStaysTop(ks, o, m, p, core, j);
    }
    OwnerRunsWithin(ss, ticks, core, o);
  }

  ghost function Systems(ks: seq<K>): (ss: seq<Sys>)
    ensures |ss| == |ks| && forall j :: 0 <= j < |ss| ==> ss[j] == ks[j].sys
  {
    seq(|ks|, j requires 0 <= j < |ks| => ks[j].sys)
  }

  lemma BoostedOwnerStaysTop(ks: seq<K>, o: nat, m: nat, p: nat, core: nat, i: nat)
    requires Trace(ks) && Inv(ks[0]) && i < |ks| && o < MAX_THREADS
    requires m < |ks[0].mtx| && p in ks[0].boosts[m]
    requires forall j :: 0 <= j <= i ==> ks[j].phase[o] == Owning(m)
    requires Candidate(ks[i].sys, core, o)
    requires forall u: nat :: Candidate(ks[i].sys, core, u) ==> p <= ks[i].sys.tcb[u].priority
    ensures RoundRobin.Top(ks[i].sys, core, o)
  {
    BoostLasts(ks, o, m, p, i);
    BoostedOwnerIsTop(ks[i], o, m, p, core);
  }
}
