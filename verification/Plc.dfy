/** The cyclic execution engine (template/kernel/plc.c): fixed-period scan cycles against a
    free-running counter, with an absolute cadence, jitter and overrun accounting, and
    tasks that run every n-th cycle. */
module Plc {
  import opened Arithmetic

  const MAX_TASKS: nat := 16

  /** A divider: never 0. */
  type Divider = x: nat | x > 0 witness 1

  // ------------------------------------------------------------------
  // Vocabulary
  // ------------------------------------------------------------------

  function Sum(s: seq<nat>): nat {
    if s == [] then 0 else Sum(s[..|s| - 1]) + s[|s| - 1]
  }

  /** `m` is the maximum of `s`, 0 for none. */
  ghost predicate IsMax(m: nat, s: seq<nat>) {
    && (forall i :: 0 <= i < |s| ==> s[i] <= m)
    && (m == 0 || m in s)
  }

  /** What a cycle does, in order. */
  datatype Event = ReadInputs | RunTask(i: nat) | WriteOutputs

  /** The tasks below `k` that are due in cycle c, in the order of their registration. */
  function DueTasks(every: seq<Divider>, c: nat, k: nat): seq<Event>
    requires k <= |every|
  {
    if k == 0 then []
    else DueTasks(every, c, k - 1) + if c % every[k - 1] == 0 then [RunTask(k - 1)] else []
  }

  function CycleTrace(every: seq<Divider>, ins: bool, outs: bool, c: nat): seq<Event>
  {
    (if ins then [ReadInputs] else []) + DueTasks(every, c, |every|) + (if outs then [WriteOutputs] else [])
  }

  /** Cycles from..to, one after the other. */
  function RunTrace(every: seq<Divider>, ins: bool, outs: bool, from: nat, end: nat): seq<Event>
    requires from <= end
    decreases end
  {
    if from == end then [] else RunTrace(every, ins, outs, from, end - 1) + CycleTrace(every, ins, outs, end - 1)
  }

  /** These events are the due tasks below k, each once, in the order of their registration. */
  ghost predicate DueInOrder(t: seq<Event>, every: seq<Divider>, c: nat, k: nat)
    requires k <= |every|
  {
    && (forall p :: 0 <= p < |t| ==> t[p].RunTask? && t[p].i < k && c % every[t[p].i] == 0)
    && (forall p, q :: 0 <= p < q < |t| ==> t[p].RunTask? && t[q].RunTask? && t[p].i < t[q].i)
    && (forall i :: 0 <= i < k && c % every[i] == 0 ==> RunTask(i) in t)
  }

  /** The events of cycle c by their positions: the inputs are read first and the outputs
      written last, if there are hooks for it; all between are tasks, exactly those whose
      divider divides c, in the order of their registration. */
  ghost predicate InOrder(t: seq<Event>, every: seq<Divider>, ins: bool, outs: bool, c: nat) {
    var lo, hi := if ins then 1 else 0, if outs then |t| - 1 else |t|;
    && lo <= hi
    && (ins ==> t[0] == ReadInputs) && (outs ==> t[hi] == WriteOutputs)
    && DueInOrder(t[lo..hi], every, c, |every|)
  }

  lemma OneMoreTask(t: seq<Event>, every: seq<Divider>, c: nat, k: nat)
    requires k < |every| && DueInOrder(t, every, c, k)
    ensures c % every[k] == 0 ==> DueInOrder(t + [RunTask(k)], every, c, k + 1)
    ensures c % every[k] != 0 ==> DueInOrder(t, every, c, k + 1)
  {
    var w := t + [RunTask(k)];
    assert w[|t|] == RunTask(k);
    forall i | 0 <= i < k && RunTask(i) in t ensures RunTask(i) in w
    {
    }
  }

  lemma {:induction false} TasksInOrder(every: seq<Divider>, c: nat, k: nat)
    requires k <= |every|
    ensures DueInOrder(DueTasks(every, c, k), every, c, k)
  {
    if k > 0 {
      var t := DueTasks(every, c, k - 1);
      TasksInOrder(every, c, k - 1);
      OneMoreTask(t, every, c, k - 1);
      assert t + [] == t;
    }
  }

  lemma CycleInOrder(every: seq<Divider>, ins: bool, outs: bool, c: nat)
    ensures InOrder(CycleTrace(every, ins, outs, c), every, ins, outs, c)
  {
    var a, t, z := if ins then [ReadInputs] else [], DueTasks(every, c, |every|), if outs then [WriteOutputs] else [];
    TasksInOrder(every, c, |every|);
    assert (a + t + z)[|a|..|a| + |t|] == t;
  }

  lemma ScannedInOrder(was: seq<Event>, now: seq<Event>, every: seq<Divider>, ins: bool, outs: bool, c: nat)
    requires now == was + CycleTrace(every, ins, outs, c)
    ensures InOrder(now[|was|..], every, ins, outs, c)
  {
    CycleInOrder(every, ins, outs, c);
    assert now[|was|..] == CycleTrace(every, ins, outs, c);
  }

  /** Part k of a trace, between two cuts, is cycle from + k in order. */
  ghost predicate CutInOrder(t: seq<Event>, cuts: seq<nat>, k: nat, every: seq<Divider>, ins: bool, outs: bool,
                             from: nat)
    requires k + 1 < |cuts|
  {
    cuts[k] <= cuts[k + 1] <= |t| && InOrder(t[cuts[k]..cuts[k + 1]], every, ins, outs, from + k)
  }

  ghost predicate CutsInOrder(t: seq<Event>, cuts: seq<nat>, every: seq<Divider>, ins: bool, outs: bool, from: nat) {
    && |cuts| > 0 && cuts[0] == 0 && cuts[|cuts| - 1] == |t|
    && forall k :: 0 <= k < |cuts| - 1 ==> CutInOrder(t, cuts, k, every, ins, outs, from)
  }

  lemma LastCut(t: seq<Event>, cuts: seq<nat>, every: seq<Divider>, ins: bool, outs: bool, from: nat)
    requires CutsInOrder(t, cuts, every, ins, outs, from)
    ensures var now := t + CycleTrace(every, ins, outs, from + |cuts| - 1);
            CutInOrder(now, cuts + [|now|], |cuts| - 1, every, ins, outs, from)
  {
    var n := |cuts| - 1;
    var now := t + CycleTrace(every, ins, outs, from + n);
    var cuts' := cuts + [|now|];
    ScannedInOrder(t, now, every, ins, outs, from + n);
    assert now[cuts'[n]..cuts'[n + 1]] == now[|t|..];
  }

  lemma OneMoreCut(t: seq<Event>, cuts: seq<nat>, every: seq<Divider>, ins: bool, outs: bool, from: nat)
    requires CutsInOrder(t, cuts, every, ins, outs, from)
    ensures var now := t + CycleTrace(every, ins, outs, from + |cuts| - 1);
            CutsInOrder(now, cuts + [|now|], every, ins, outs, from)
  {
    var more := CycleTrace(every, ins, outs, from + |cuts| - 1);
    LastCut(t, cuts, every, ins, outs, from);
    forall k | 0 <= k < |cuts| - 1 ensures CutInOrder(t + more, cuts + [|t + more|], k, every, ins, outs, from)
    {
      assert CutInOrder(t, cuts, k, every, ins, outs, from);
      assert (t + more)[cuts[k]..cuts[k + 1]] == t[cuts[k]..cuts[k + 1]];
    }
  }

  /** What a run calls: one cycle after the other, each in order, and nothing between them. */
  lemma {:induction false} RunInOrder(every: seq<Divider>, ins: bool, outs: bool, from: nat, end: nat)
    returns (cuts: seq<nat>)
    requires from <= end
    ensures |cuts| == end - from + 1
    ensures CutsInOrder(RunTrace(every, ins, outs, from, end), cuts, every, ins, outs, from)
    decreases end
  {
    cuts := [0];
    if from < end {
      cuts := RunInOrder(every, ins, outs, from, end - 1);
      var t, now := RunTrace(every, ins, outs, from, end - 1), RunTrace(every, ins, outs, from, end);
      assert now == t + CycleTrace(every, ins, outs, from + |cuts| - 1);
      OneMoreCut(t, cuts, every, ins, outs, from);
      cuts := cuts + [|now|];
    }
  }

  function Occurrences(t: seq<Event>, e: Event): nat {
    if t == [] then 0 else Occurrences(t[..|t| - 1], e) + if t[|t| - 1] == e then 1 else 0
  }

  function CeilDiv(n: nat, e: Divider): nat {
    (n + e - 1) / e
  }

  // ------------------------------------------------------------------
  // The engine
  // ------------------------------------------------------------------

  /** The system counter. All that is known of it: it never goes back, and it does not
      stand still for more than `grain` readings in a row. */
  class Counter {
    const grain: nat
    var now: nat
    var still: nat
    // Every reading ever returned.
    ghost var readings: seq<nat>

    constructor (grain: nat)
      ensures now == 0 && still == 0 && readings == []
    {
      this.grain, now, still, readings := grain, 0, 0, [];
    }

    /** timer_now_ticks() */
    method Now() returns (t: nat)
      modifies this
      ensures t == now >= old(now) && readings == old(readings) + [t]
      ensures t == old(now) ==> still == old(still) + 1 && old(still) < grain
    {
      var step: int := *;
      t := now + if step > 0 then step else if still >= grain then 1 else 0;
      still := if t == now then still + 1 else 0;
      now := t;
      readings := readings + [t];
    }

    /** The busy-wait that ends a cycle. */
    method WaitUntil(deadline: nat) returns (ghost rs: seq<nat>)
      modifies this
      ensures now >= deadline && now >= old(now)
      ensures readings == old(readings) + rs && Waits(rs, deadline)
    {
      var t := Now();
      rs := [t];
      while t < deadline
        invariant t == now >= old(now) && readings == old(readings) + rs
        invariant |rs| > 0 && rs[|rs| - 1] == t
        invariant forall i :: 0 <= i < |rs| - 1 ==> rs[i] < deadline
        decreases deadline - t, grain - still
      {
        t := Now();
        rs := rs + [t];
      }
    }
  }

  /** The readings of a wait: all before the deadline but the last. */
  ghost predicate Waits(rs: seq<nat>, deadline: nat) {
    && |rs| > 0 && rs[|rs| - 1] >= deadline
    && forall i :: 0 <= i < |rs| - 1 ==> rs[i] < deadline
  }

  /** A cycle: its deadline, the readings of the counter it made, and what it computed. */
  datatype Cycle = Cycle(deadline: nat, seen: seq<nat>, jitter: nat, exec: nat, lag: nat)

  /** What a cycle computed is what the counter said: it started at its first reading, at or
      after its deadline; its work ended at the second; by the third the next deadline was
      missed by the lag, or else the cycle waited for it and no longer. */
  ghost predicate Measured(c: Cycle, period: nat) {
    && |c.seen| >= 3 && c.deadline <= c.seen[0] <= c.seen[1] <= c.seen[2]
    && c.jitter == c.seen[0] - c.deadline
    && c.exec == c.seen[1] - c.seen[0]
    && c.lag == (if c.seen[2] > c.deadline + period then c.seen[2] - (c.deadline + period) else 0)
    && (if c.lag > 0 then |c.seen| == 3 else Waits(c.seen[3..], c.deadline + period))
  }

  function Jitters(cs: seq<Cycle>): (s: seq<nat>)
    ensures |s| == |cs| && forall i :: 0 <= i < |s| ==> s[i] == cs[i].jitter
  {
    seq(|cs|, i requires 0 <= i < |cs| => cs[i].jitter)
  }

  function Execs(cs: seq<Cycle>): (s: seq<nat>)
    ensures |s| == |cs| && forall i :: 0 <= i < |s| ==> s[i] == cs[i].exec
  {
    seq(|cs|, i requires 0 <= i < |cs| => cs[i].exec)
  }

  function Lags(cs: seq<Cycle>): (s: seq<nat>)
    ensures |s| == |cs| && forall i :: 0 <= i < |s| ==> s[i] == cs[i].lag
  {
    seq(|cs|, i requires 0 <= i < |cs| => cs[i].lag)
  }

  /** How many cycles missed the next deadline. */
  function Overran(cs: seq<Cycle>): nat {
    if cs == [] then 0 else Overran(cs[..|cs| - 1]) + if cs[|cs| - 1].lag > 0 then 1 else 0
  }

  /** The readings of some cycles, one after the other. */
  function Readings(cs: seq<Cycle>): seq<nat> {
    if cs == [] then [] else Readings(cs[..|cs| - 1]) + cs[|cs| - 1].seen
  }

  /** The fields of g_stats besides the cycle count. */
  datatype Stats = Stats(overruns: nat, lastJitter: nat, maxJitter: nat, lastExec: nat, maxExec: nat)

  function Updated(st: Stats, c: Cycle): Stats {
    Stats(st.overruns + (if c.lag > 0 then 1 else 0), c.jitter,
          if c.jitter > st.maxJitter then c.jitter else st.maxJitter,
          c.exec, if c.exec > st.maxExec then c.exec else st.maxExec)
  }

  /** The statistics after some cycles. */
  function StatsOf(cs: seq<Cycle>): Stats {
    if cs == [] then Stats(0, 0, 0, 0, 0) else Updated(StatsOf(cs[..|cs| - 1]), cs[|cs| - 1])
  }

  lemma StatsSnoc(cs: seq<Cycle>, c: Cycle)
    ensures StatsOf(cs + [c]) == Updated(StatsOf(cs), c)
  {
    assert (cs + [c])[..|cs|] == cs;
  }

  /** The statistics are true: the overruns are counted, the maxima are maxima over all
      cycles, the last values are those of the last cycle. */
  lemma {:induction false} StatisticsAreTrue(cs: seq<Cycle>)
    ensures StatsOf(cs).overruns == Overran(cs)
    ensures IsMax(StatsOf(cs).maxJitter, Jitters(cs)) && IsMax(StatsOf(cs).maxExec, Execs(cs))
    ensures cs != [] ==>
              StatsOf(cs).lastJitter == cs[|cs| - 1].jitter && StatsOf(cs).lastExec == cs[|cs| - 1].exec
  {
    if cs != [] {
      var init, c := cs[..|cs| - 1], cs[|cs| - 1];
      StatisticsAreTrue(init);
      assert Jitters(cs) == Jitters(init) + [c.jitter] && Execs(cs) == Execs(init) + [c.exec];
      MaxSnoc(StatsOf(init).maxJitter, Jitters(init), c.jitter);
      MaxSnoc(StatsOf(init).maxExec, Execs(init), c.exec);
    }
  }

  lemma MaxSnoc(m: nat, s: seq<nat>, x: nat)
    requires IsMax(m, s)
    ensures IsMax(if x > m then x else m, s + [x])
  {
    assert x in s + [x];
  }

  /** A cycle from its readings: the start, the end of the work, and those of Settle. */
  ghost function CycleOf(deadline: nat, period: nat, start: nat, end: nat, rs: seq<nat>): (c: Cycle)
    requires deadline <= start <= end && |rs| > 0 && rs[0] >= end
    requires if rs[0] > deadline + period then |rs| == 1 else Waits(rs[1..], deadline + period)
    ensures Measured(c, period) && c.deadline == deadline && c.seen == [start] + [end] + rs
    ensures c.jitter == start - deadline && c.exec == end - start
    ensures rs[0] > deadline + period ==> deadline + period + c.lag == rs[0]
    ensures rs[0] <= deadline + period ==> c.lag == 0
  {
    assert ([start] + [end] + rs)[3..] == rs[1..];
    Cycle(deadline, [start] + [end] + rs, start - deadline, end - start,
          if rs[0] > deadline + period then rs[0] - (deadline + period) else 0)
  }

  class Engine {
    const counter: Counter
    const period: nat          // ticks
    const ins: bool            // a read hook is installed
    const outs: bool           // a write hook is installed
    var every: seq<Divider>        // dividers of the registered tasks
    var cyclesDone: nat
    var overruns: nat
    var lastExec: nat
    var maxExec: nat
    var lastJitter: nat
    var maxJitter: nat

    /** Since initialization: the cycles, and everything that was called. */
    ghost var cycles: seq<Cycle>
    ghost var trace: seq<Event>

    ghost predicate Valid()
      reads this
    {
      && |every| <= MAX_TASKS && cyclesDone == |cycles|
      && Now() == StatsOf(cycles)
    }

    ghost function Now(): Stats
      reads this
    {
      Stats(overruns, lastJitter, maxJitter, lastExec, maxExec)
    }

    /** plc_init() */
    constructor (counter: Counter, period: nat, ins: bool, outs: bool)
      ensures Valid() && every == [] && cyclesDone == 0 && overruns == 0 && trace == []
      ensures this.counter == counter && this.period == period && this.ins == ins && this.outs == outs
    {
      this.counter, this.period, this.ins, this.outs := counter, period, ins, outs;
      every := [];
      cyclesDone, overruns, lastExec, maxExec, lastJitter, maxJitter := 0, 0, 0, 0, 0, 0;
      cycles, trace := [], [];
    }

    /** plc_register_task(): a divider of 0 means every cycle; a full table refuses. */
    method Register(everyCycles: nat) returns (ok: bool)
      requires Valid()
      modifies this`every
      ensures Valid() && ok == (|old(every)| < 16)
      ensures every == old(every) + if ok then [if everyCycles == 0 then 1 else everyCycles as Divider] else []
    {
      if |every| >= MAX_TASKS {
        return false;
      }
      every := every + [if everyCycles == 0 then 1 else everyCycles as Divider];
      ok := true;
    }

    /** Step 0 of a cycle: the jitter. */
    method RecordJitter(start: nat, deadline: nat)
      modifies this`lastJitter, this`maxJitter
      ensures lastJitter == if start > deadline then start - deadline else 0
      ensures maxJitter == if lastJitter > old(maxJitter) then lastJitter else old(maxJitter)
    {
      var jitter := if start > deadline then start - deadline else 0;
      lastJitter := jitter;
      if jitter > maxJitter {
        maxJitter := jitter;
      }
    }

    /** Step 4: the duration. */
    method RecordExec(exec: nat)
      modifies this`lastExec, this`maxExec
      ensures lastExec == exec && maxExec == if exec > old(maxExec) then exec else old(maxExec)
    {
      lastExec := exec;
      if exec > maxExec {
        maxExec := exec;
      }
    }

    /** Steps 1 to 3: the process image around the due tasks. */
    method Scan()
      modifies this`trace
      ensures trace == old(trace) + CycleTrace(every, ins, outs, cyclesDone)
      ensures InOrder(trace[|old(trace)|..], every, ins, outs, cyclesDone)
    {
      if ins {
        trace := trace + [ReadInputs];
      }
      RunTasks();
      if outs {
        trace := trace + [WriteOutputs];
      }
      ScannedInOrder(old(trace), trace, every, ins, outs, cyclesDone);
    }

    /** The task loop of a cycle. */
    method RunTasks()
      modifies this`trace
      ensures trace == old(trace) + DueTasks(every, cyclesDone, |every|)
    {
      var i := 0;
      while i < |every|
        invariant 0 <= i <= |every| && trace == old(trace) + DueTasks(every, cyclesDone, i)
      {
        if cyclesDone % every[i] == 0 {
          trace := trace + [RunTask(i)];
        }
        i := i + 1;
      }
    }

    /** The end of a cycle: the counter is read once; if it is past the deadline, that is an
        overrun and the deadline becomes now, otherwise the cycle waits for the deadline. */
    method Settle(deadline: nat) returns (next: nat, ghost rs: seq<nat>)
      modifies this`overruns, counter
      ensures counter.readings == old(counter.readings) + rs && |rs| > 0 && rs[0] >= old(counter.now)
      ensures rs[0] > deadline ==> next == rs[0] && overruns == old(overruns) + 1 && |rs| == 1
      ensures rs[0] <= deadline ==> next == deadline && overruns == old(overruns) && Waits(rs[1..], deadline)
      ensures next <= counter.now
    {
      next := deadline;
      var now := counter.Now();
      rs := [now];
      if now > next {
        overruns := overruns + 1;
        next := now;
      } else {
        ghost var waits := counter.WaitUntil(next);
        rs := rs + waits;
      }
    }

    /** plc_one_cycle(): called at or after `deadline`, returns the next deadline. */
    method OneCycle(deadline: nat) returns (next: nat, ghost c: Cycle)
      requires Valid() && deadline <= counter.now
      modifies this, counter
      ensures Valid() && Past() == Advanced(old(Past()), c, ins, outs)
      ensures c.deadline == deadline && Measured(c, period)
      ensures next == deadline + period + c.lag <= counter.now
    {
      ghost var was := counter.readings;
      ghost var start, end := Work(deadline);
      ghost var rs;
      next, rs := Settle(deadline + period);
      c := CycleOf(deadline, period, start, end, rs);
      Regroup(was + [start], [end], rs);
      Regroup(was, [start], [end] + rs);
      Regroup([start], [end], rs);
      StatsSnoc(cycles, c);
      cycles := cycles + [c];
    }

    /** A cycle up to its end: the jitter, the scan, the duration, the cycle count. */
    method Work(deadline: nat) returns (ghost start: nat, ghost end: nat)
      requires deadline <= counter.now
      modifies this`lastJitter, this`maxJitter, this`lastExec, this`maxExec, this`cyclesDone, this`trace, counter
      ensures counter.readings == old(counter.readings) + [start] + [end] && deadline <= start <= end == counter.now
      ensures lastJitter == start - deadline && lastExec == end - start
      ensures maxJitter == if lastJitter > old(maxJitter) then lastJitter else old(maxJitter)
      ensures maxExec == if lastExec > old(maxExec) then lastExec else old(maxExec)
      ensures cyclesDone == old(cyclesDone) + 1
      ensures trace == old(trace) + CycleTrace(every, ins, outs, old(cyclesDone))
    {
      var cycleStart := counter.Now();
      RecordJitter(cycleStart, deadline);
      Scan();
      var cycleEnd := counter.Now();
      RecordExec(cycleEnd - cycleStart);
      cyclesDone := cyclesDone + 1;
      start, end := cycleStart, cycleEnd;
    }

    ghost function Past(): History
      reads this, counter
    {
      History(cycles, counter.readings, overruns, trace, every)
    }

    /** plc_run_bounded(): with `run` the n cycles it made, all measured, their deadlines keep
        the cadence from the reading it started with, the counter was read by those cycles
        and nobody else, and what was called is the schedule of those cycles. */
    method RunBounded(n: nat) returns (ghost start: nat, ghost run: seq<Cycle>)
      requires Valid()
      modifies this, counter
      ensures Valid() && |run| == n && start >= old(counter.now)
      ensures RunSince(run, start, period, ins, outs, old(Past()), Past())
    {
      var deadline := counter.Now();
      start, run := deadline, [];
      ghost var was := old(Past());
      RunSinceNone(start, period, ins, outs, was, Past());
      for k := 0 to n
        invariant Valid() && deadline <= counter.now && |run| == k
        invariant RunSince(run, start, period, ins, outs, was, Past())
        invariant deadline == NextDeadline(run, start, period)
      {
        ghost var c;
        deadline, c := NextCycle(deadline, run, start, was);
        run := run + [c];
      }
    }

    /** One round of the loop in plc_run_bounded() and plc_run(). */
    method NextCycle(deadline: nat, ghost run: seq<Cycle>, ghost start: nat, ghost was: History)
      returns (next: nat, ghost c: Cycle)
      requires Valid() && deadline <= counter.now && deadline == NextDeadline(run, start, period)
      requires RunSince(run, start, period, ins, outs, was, Past())
      modifies this, counter
      ensures Valid() && next <= counter.now && next == NextDeadline(run + [c], start, period)
      ensures RunSince(run + [c], start, period, ins, outs, was, Past())
    {
      ghost var before := Past();
      next, c := OneCycle(deadline);
      RunSinceStep(run, c, start, period, ins, outs, was, before, Past());
    }
  }

  /** A state of the engine and its counter that a run is compared with. */
  datatype History = History(cycles: seq<Cycle>, readings: seq<nat>, overruns: nat, trace: seq<Event>,
                             every: seq<Divider>)

  /** One cycle more. */
  function Advanced(h: History, c: Cycle, ins: bool, outs: bool): History {
    History(h.cycles + [c], h.readings + c.seen, h.overruns + (if c.lag > 0 then 1 else 0),
            h.trace + CycleTrace(h.every, ins, outs, |h.cycles|), h.every)
  }

  /** The deadline that follows a run. */
  function NextDeadline(run: seq<Cycle>, start: nat, period: nat): nat {
    if run == [] then start else run[|run| - 1].deadline + period + run[|run| - 1].lag
  }

  /** Measured cycles whose deadlines follow from each other. */
  ghost predicate Chained(run: seq<Cycle>, start: nat, period: nat) {
    forall i :: 0 <= i < |run| ==> ChainedAt(run, i, start, period)
  }

  ghost predicate ChainedAt(run: seq<Cycle>, i: nat, start: nat, period: nat)
    requires i < |run|
  {
    Measured(run[i], period) && run[i].deadline == NextDeadline(run[..i], start, period)
  }

  /** After one reading of the counter and the cycles of `run`, and nothing else. */
  function Grown(was: History, start: nat, run: seq<Cycle>, ins: bool, outs: bool): History {
    History(was.cycles + run, was.readings + [start] + Readings(run), was.overruns + Overran(run),
            was.trace + RunTrace(was.every, ins, outs, |was.cycles|, |was.cycles| + |run|), was.every)
  }

  /** Between the states `was` and `now` the engine read the counter once and then ran the
      cycles of `run`, and nothing else happened. */
  ghost predicate RunSince(run: seq<Cycle>, start: nat, period: nat, ins: bool, outs: bool,
                           was: History, now: History) {
    Chained(run, start, period) && now == Grown(was, start, run, ins, outs)
  }

  /** What a run of the engine called: its cycles one after the other, numbered on from those
      before the run, each in order, and nothing else. */
  lemma RunCallsInOrder(run: seq<Cycle>, start: nat, period: nat, ins: bool, outs: bool, was: History, now: History)
    returns (cuts: seq<nat>)
    requires RunSince(run, start, period, ins, outs, was, now)
    ensures |was.trace| <= |now.trace| && now.trace[..|was.trace|] == was.trace
    ensures |cuts| == |run| + 1
    ensures CutsInOrder(now.trace[|was.trace|..], cuts, was.every, ins, outs, |was.cycles|)
  {
    var n := |was.cycles|;
    cuts := RunInOrder(was.every, ins, outs, n, n + |run|);
    assert now.trace[|was.trace|..] == RunTrace(was.every, ins, outs, n, n + |run|);
  }

  lemma ChainedSnoc(run: seq<Cycle>, c: Cycle, start: nat, period: nat)
    requires Chained(run, start, period) && Measured(c, period) && c.deadline == NextDeadline(run, start, period)
    ensures Chained(run + [c], start, period)
  {
    forall i | 0 <= i <= |run| ensures ChainedAt(run + [c], i, start, period)
    {
      assert (run + [c])[..i] == run[..i];
      if i < |run| {
        assert ChainedAt(run, i, start, period);
      } else {
        assert run[..i] == run;
      }
    }
  }

  lemma RunSinceNone(start: nat, period: nat, ins: bool, outs: bool, was: History, now: History)
    requires now == was.(readings := was.readings + [start])
    ensures RunSince([], start, period, ins, outs, was, now)
  {
  }

  lemma RunSinceStep(run: seq<Cycle>, c: Cycle, start: nat, period: nat, ins: bool, outs: bool,
                     was: History, h: History, h': History)
    requires RunSince(run, start, period, ins, outs, was, h)
    requires Measured(c, period) && c.deadline == NextDeadline(run, start, period)
    requires h' == Advanced(h, c, ins, outs)
    ensures RunSince(run + [c], start, period, ins, outs, was, h')
  {
    ChainedSnoc(run, c, start, period);
    GrownSnoc(was, start, run, c, ins, outs);
  }

  lemma GrownSnoc(was: History, start: nat, run: seq<Cycle>, c: Cycle, ins: bool, outs: bool)
    ensures Grown(was, start, run + [c], ins, outs) == Advanced(Grown(was, start, run, ins, outs), c, ins, outs)
  {
    var n := |was.cycles|;
    assert (run + [c])[..|run|] == run;
    Regroup(was.cycles, run, [c]);
    Regroup(was.readings + [start], Readings(run), c.seen);
    RunTraceSnoc(was.trace, was.every, ins, outs, n, n + |run|);
  }

  lemma RunTraceSnoc(t: seq<Event>, every: seq<Divider>, ins: bool, outs: bool, from: nat, end: nat)
    requires from <= end
    ensures t + RunTrace(every, ins, outs, from, end) + CycleTrace(every, ins, outs, end)
            == t + RunTrace(every, ins, outs, from, end + 1)
  {
    Regroup(t, RunTrace(every, ins, outs, from, end), CycleTrace(every, ins, outs, end));
  }

  // ------------------------------------------------------------------
  // Cadence
  // ------------------------------------------------------------------

  /** No drift: in every run the deadline after i cycles is start + i * period plus the lags
      of the overruns before it, with no other error term, however long the run. */
  lemma {:induction false} CadenceHasNoDrift(run: seq<Cycle>, start: nat, period: nat, i: nat)
    requires Chained(run, start, period) && i <= |run|
    ensures NextDeadline(run[..i], start, period) == start + i * period + Sum(Lags(run[..i]))
    ensures i < |run| ==>
              && run[i].deadline == start + i * period + Sum(Lags(run[..i]))
              && ChainedAt(run, i, start, period) && run[i].deadline <= run[i].seen[0]
  {
    if i > 0 {
      var c := run[i - 1];
      assert ChainedAt(run, i - 1, start, period);
      CadenceHasNoDrift(run, start, period, i - 1);
      LagsSnoc(run[..i - 1], c);
      assert run[..i - 1] + [c] == run[..i];
      PeriodStep(i, period);
    }
    if i < |run| {
      assert ChainedAt(run, i, start, period);
    }
  }

  lemma PeriodStep(i: nat, period: nat)
    requires i > 0
    ensures i * period == (i - 1) * period + period
  {
  }

  lemma LagsSnoc(cs: seq<Cycle>, c: Cycle)
    ensures Sum(Lags(cs + [c])) == Sum(Lags(cs)) + c.lag
  {
    assert Lags(cs + [c]) == Lags(cs) + [c.lag];
    assert (Lags(cs) + [c.lag])[..|cs|] == Lags(cs);
  }

  lemma {:induction false} OverrunsAreLags(cs: seq<Cycle>)
    ensures Overran(cs) <= Sum(Lags(cs))
    ensures Overran(cs) == 0 ==> Sum(Lags(cs)) == 0
  {
    if cs != [] {
      var n := |cs| - 1;
      OverrunsAreLags(cs[..n]);
      assert Lags(cs)[..n] == Lags(cs[..n]);
    }
  }

  lemma {:induction false} OverranPrefix(cs: seq<Cycle>, i: nat)
    requires i <= |cs|
    ensures Overran(cs[..i]) <= Overran(cs)
    decreases |cs|
  {
    if i < |cs| {
      OverranPrefix(cs[..|cs| - 1], i);
      assert cs[..|cs| - 1][..i] == cs[..i];
    } else {
      assert cs[..i] == cs;
    }
  }

  /** A run leaves the overrun counter alone exactly if every deadline, the next one
      included, is a multiple of the period after its start. */
  lemma NoOverrunIffPeriodic(run: seq<Cycle>, start: nat, period: nat, ins: bool, outs: bool, was: History,
                             now: History)
    requires RunSince(run, start, period, ins, outs, was, now)
    ensures now.overruns == was.overruns <==>
            forall i :: 0 <= i <= |run| ==> NextDeadline(run[..i], start, period) == start + i * period
  {
    var n := |run|;
    assert run[..n] == run;
    if now.overruns == was.overruns {
      forall i | 0 <= i <= n ensures NextDeadline(run[..i], start, period) == start + i * period
      {
        CadenceHasNoDrift(run, start, period, i);
        OverranPrefix(run, i);
        OverrunsAreLags(run[..i]);
      }
    } else {
      CadenceHasNoDrift(run, start, period, n);
      OverrunsAreLags(run);
      assert NextDeadline(run[..n], start, period) != start + n * period;
    }
  }

  // ------------------------------------------------------------------
  // Divided rates
  // ------------------------------------------------------------------

  lemma {:induction false} OccurrencesConcat(a: seq<Event>, b: seq<Event>, e: Event)
    ensures Occurrences(a + b, e) == Occurrences(a, e) + Occurrences(b, e)
    decreases |b|
  {
    if b == [] {
      assert a + b == a;
    } else {
      assert (a + b)[..|a + b| - 1] == a + b[..|b| - 1];
      OccurrencesConcat(a, b[..|b| - 1], e);
    }
  }

  lemma {:induction false} DueOccurrences(every: seq<Divider>, c: nat, k: nat, i: nat)
    requires k <= |every| && i < |every|
    ensures Occurrences(DueTasks(every, c, k), RunTask(i)) == if i < k && c % every[i] == 0 then 1 else 0
  {
    if k > 0 {
      DueOccurrences(every, c, k - 1, i);
      if c % every[k - 1] == 0 {
        OccurrencesConcat(DueTasks(every, c, k - 1), [RunTask(k - 1)], RunTask(i));
        OccurrencesOne(RunTask(k - 1), RunTask(i));
      } else {
        assert DueTasks(every, c, k) == DueTasks(every, c, k - 1);
      }
    }
  }

  lemma OccurrencesOne(x: Event, e: Event)
    ensures Occurrences([x], e) == if x == e then 1 else 0
  {
    assert [x][..0] == [];
  }

  lemma CycleOccurrences(every: seq<Divider>, ins: bool, outs: bool, c: nat, i: nat)
    requires i < |every|
    ensures Occurrences(CycleTrace(every, ins, outs, c), RunTask(i)) == if c % every[i] == 0 then 1 else 0
  {
    var a, b, z := if ins then [ReadInputs] else [], DueTasks(every, c, |every|), if outs then [WriteOutputs] else [];
    DueOccurrences(every, c, |every|, i);
    OccurrencesConcat(a + b, z, RunTask(i));
    OccurrencesConcat(a, b, RunTask(i));
    OccurrencesOne(ReadInputs, RunTask(i));
    OccurrencesOne(WriteOutputs, RunTask(i));
  }

  lemma CeilStep(c: nat, e: Divider)
    ensures CeilDiv(c + 1, e) == CeilDiv(c, e) + if c % e == 0 then 1 else 0
  {
    var q, r := c / e, c % e;
    assert c == q * e + r;
    if r == 0 {
      DivModIs(c + e, q + 1, 0, e);
      DivModIs(c + e - 1, q, e - 1, e);
    } else {
      DivModIs(c + e, q + 1, r, e);
      DivModIs(c + e - 1, q + 1, r - 1, e);
    }
  }

  /** CeilDiv(n, e) is the least number of e's that reach n. */
  lemma CeilIsLeast(n: nat, e: Divider)
    ensures n <= CeilDiv(n, e) * e && (n > 0 ==> (CeilDiv(n, e) - 1) * e < n)
  {
    var q, r := (n + e - 1) / e, (n + e - 1) % e;
    assert n + e - 1 == q * e + r && 0 <= r < e;
    assert (q - 1) * e == q * e - e;
  }

  /** How many multiples of e there are from `from` up to, not including, `end`. */
  function Multiples(from: nat, end: nat, e: Divider): nat
    requires from <= end
    decreases end
  {
    if from == end then 0 else Multiples(from, end - 1, e) + if (end - 1) % e == 0 then 1 else 0
  }

  lemma MultiplesStep(from: nat, end: nat, e: Divider)
    requires from < end
    ensures Multiples(from, end, e) == Multiples(from, end - 1, e) + if (end - 1) % e == 0 then 1 else 0
  {
  }

  lemma {:induction false} MultiplesByCeil(from: nat, end: nat, e: Divider)
    requires from <= end
    ensures Multiples(from, end, e) == CeilDiv(end, e) - CeilDiv(from, e)
    decreases end
  {
    if from < end {
      MultiplesByCeil(from, end - 1, e);
      CeilStep(end - 1, e);
    }
  }

  /** Over the cycles from..end a task with divider e runs once for each multiple of e. */
  lemma {:induction false} DividedRate(every: seq<Divider>, ins: bool, outs: bool, from: nat, end: nat, i: nat)
    requires from <= end && i < |every|
    ensures Occurrences(RunTrace(every, ins, outs, from, end), RunTask(i)) == Multiples(from, end, every[i])
    decreases end
  {
    if from < end {
      DividedRate(every, ins, outs, from, end - 1, i);
      RateStep(every, ins, outs, from, end, i);
    }
  }

  lemma RateStep(every: seq<Divider>, ins: bool, outs: bool, from: nat, end: nat, i: nat)
    requires from < end && i < |every|
    requires Occurrences(RunTrace(every, ins, outs, from, end - 1), RunTask(i)) == Multiples(from, end - 1, every[i])
    ensures Occurrences(RunTrace(every, ins, outs, from, end), RunTask(i)) == Multiples(from, end, every[i])
  {
    OneMoreCycle(every, ins, outs, from, end, i);
    MultiplesStep(from, end, every[i]);
  }

  /** A task with divider e runs exactly ceil(n/e) times in the first n cycles. */
  lemma DividedRateFromInit(every: seq<Divider>, ins: bool, outs: bool, n: nat, i: nat)
    requires i < |every|
    ensures Occurrences(RunTrace(every, ins, outs, 0, n), RunTask(i)) == CeilDiv(n, every[i])
    ensures var times := Occurrences(RunTrace(every, ins, outs, 0, n), RunTask(i));
            n <= times * every[i] && (n > 0 ==> (times - 1) * every[i] < n)
  {
    CeilIsLeast(n, every[i]);
    DividedRate(every, ins, outs, 0, n, i);
    MultiplesByCeil(0, n, every[i]);
    var e: nat := every[i];
    DivModIs(e - 1, 0, e - 1, e);
  }

  lemma OneMoreCycle(every: seq<Divider>, ins: bool, outs: bool, from: nat, end: nat, i: nat)
    requires from < end && i < |every|
    ensures Occurrences(RunTrace(every, ins, outs, from, end), RunTask(i)) ==
            Occurrences(RunTrace(every, ins, outs, from, end - 1), RunTask(i))
            + if (end - 1) % every[i] == 0 then 1 else 0
  {
    CycleOccurrences(every, ins, outs, end - 1, i);
    OccurrencesConcat(RunTrace(every, ins, outs, from, end - 1), CycleTrace(every, ins, outs, end - 1), RunTask(i));
  }
}
