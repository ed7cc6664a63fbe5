/** The SMP spinlock (template/kernel/sync.c) as the steps its assembly takes: a
    load-exclusive, a test, a store-exclusive that may fail, and a plain store on
    release. Any number of threads interleave these steps. */
module Spinlock {
  /** Where a thread is. A `blocking` attempt retries, a trylock gives up. */
  datatype Pc =
    | Idle
    | Trying(blocking: bool)
    | Loaded(blocking: bool, taken: bool)
    | Holding

  /** The lock word, the threads whose exclusive reservation is still good, and the threads. */
  datatype State = State(lock: bool, reserved: set<nat>, pc: seq<Pc>)

  datatype Action = Enter(blocking: bool) | LoadExclusive | Test | StoreExclusive(lucky: bool) | Release

  /** One step of thread `t`. Every store to the word ends all reservations; a
      store-exclusive may also fail for no visible reason (not `lucky`). */
  ghost predicate Step(s: State, t: nat, a: Action, s': State) {
    && t < |s.pc|
    && match a
       case Enter(blocking) =>
         s.pc[t] == Idle && s' == s.(pc := s.pc[t := Trying(blocking)])
       case LoadExclusive =>
         && s.pc[t].Trying?
         && s' == s.(reserved := s.reserved + {t}, pc := s.pc[t := Loaded(s.pc[t].blocking, s.lock)])
       case Test =>
         && s.pc[t].Loaded? && s.pc[t].taken
         && s' == s.(pc := s.pc[t := if s.pc[t].blocking then Trying(true) else Idle])
       case StoreExclusive(lucky) =>
         && s.pc[t].Loaded? && !s.pc[t].taken
         && s' == if lucky && t in s.reserved then State(true, {}, s.pc[t := Holding])
                  else s.(pc := s.pc[t := if s.pc[t].blocking then Trying(true) else Idle])
       case Release =>
         s.pc[t] == Holding && s' == State(false, {}, s.pc[t := Idle])
  }

  ghost predicate Init(s: State) {
    !s.lock && s.reserved == {} && forall t :: 0 <= t < |s.pc| ==> s.pc[t] == Idle
  }

  ghost predicate Inv(s: State) {
    && (forall t :: 0 <= t < |s.pc| && s.pc[t] == Holding ==> s.lock)
    && (s.lock ==> exists t :: 0 <= t < |s.pc| && s.pc[t] == Holding)
    && (forall t, u :: 0 <= t < |s.pc| && 0 <= u < |s.pc| && s.pc[t] == Holding && s.pc[u] == Holding ==> t == u)
    // a good reservation means the word still has the value that was loaded
    && (forall t :: 0 <= t < |s.pc| && s.pc[t].Loaded? && t in s.reserved ==> s.pc[t].taken == s.lock)
  }

  ghost predicate IsRun(ss: seq<State>, ts: seq<nat>, acts: seq<Action>) {
    && |ss| == |acts| + 1 == |ts| + 1
    && Init(ss[0])
    && forall k :: 0 <= k < |acts| ==> Step(ss[k], ts[k], acts[k], ss[k + 1])
  }

  lemma StepKeepsInv(s: State, t: nat, a: Action, s': State)
    requires Inv(s) && Step(s, t, a, s')
    ensures Inv(s')
  {
    if s'.lock {
      if a.StoreExclusive? && s'.pc[t] == Holding {
      } else {
        var h :| 0 <= h < |s.pc| && s.pc[h] == Holding;
        assert s'.pc[h] == Holding;
      }
    }
  }

  /** Mutual exclusion over every run: two threads are never inside together, and the
      word is 1 exactly while somebody is. */
  lemma {:induction false} MutualExclusion(ss: seq<State>, ts: seq<nat>, acts: seq<Action>, k: nat)
    requires IsRun(ss, ts, acts) && k < |ss|
    ensures Inv(ss[k])
  {
    if k > 0 {
      MutualExclusion(ss, ts, acts, k - 1);
      StepKeepsInv(ss[k - 1], ts[k - 1], acts[k - 1], ss[k]);
    }
  }

  datatype Guard = Nobody | By(t: nat)

  /** The abstract lock: its holder, if any. */
  ghost predicate Abstracts(s: State, g: Guard) {
    match g
    case Nobody => forall t :: 0 <= t < |s.pc| ==> s.pc[t] != Holding
    case By(t) => t < |s.pc| && s.pc[t] == Holding
  }

  /** The instructions refine an atomic lock: the holder changes only when a free lock
      is taken or when its holder releases it. PiMutexSteps relies on this. */
  lemma RefinesAtomicLock(s: State, t: nat, a: Action, s': State, g: Guard, g': Guard)
    requires Inv(s) && Step(s, t, a, s') && Abstracts(s, g) && Abstracts(s', g')
    ensures g' == g || (g == Nobody && g' == By(t)) || (g == By(t) && g' == Nobody)
  {
    StepKeepsInv(s, t, a, s');
    if g'.By? && g'.t != t {
      assert s.pc[g'.t] == Holding;
    }
    if g.By? && g.t != t {
      assert s'.pc[g.t] == Holding;
    }
  }

  /** A free lock is obtained by whoever runs its three instructions undisturbed. */
  lemma FreeLockIsObtained(s0: State, t: nat, s1: State, s2: State)
    requires Inv(s0) && !s0.lock && t < |s0.pc| && s0.pc[t].Trying?
    requires Step(s0, t, LoadExclusive, s1) && Step(s1, t, StoreExclusive(true), s2)
    ensures s2.lock && s2.pc[t] == Holding
  {
  }
}
