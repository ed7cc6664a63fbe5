/** Runs of the scheduler: any interleaving of ticks and first dispatches of the four
    cores, thread exits, priority changes and the micro-steps of one creator that
    extends the thread table while the other cores are already scheduling. */
module SchedRuns {
  import opened Sched

  /** What happened to saved contexts so far, oldest first. */
  datatype Event =
    | Built(id: nat, sp: nat)
    | Saved(id: nat, sp: nat)
    | Resumed(core: nat, id: nat, sp: nat)

  /** How far the creator is with the slot it fills: fields written with state UNUSED,
      trap frame built, state set to READY. Publishing ends the draft. */
  datatype Draft = NoDraft | Filled(core: nat, prio: nat) | Framed(core: nat, prio: nat) | Ready_(core: nat, prio: nat)

  datatype World = World(sys: Sys, draft: Draft, hist: seq<Event>)

  datatype Action =
    | Fill(prio: nat, core: nat)
    | Frame(sp: nat)
    | MarkReady
    | Publish
    | Start(core: nat)
    | Tick(core: nat, sp: nat)
    | Exit(core: nat)
    | Boost(id: nat, prio: nat)
    | Restore(id: nat)

  function SetSlot(s: Sys, t: Tcb): Sys
    requires s.n < |s.tcb|
  {
    s.(tcb := s.tcb[s.n := t])
  }

  /** One action of the system. The order of the creator's four writes is the source's. */
  ghost predicate Step(w: World, a: Action, w': World)
    requires Shape(w.sys)
  {
    var s := w.sys;
    match a
    case Fill(prio, core) =>
      && w.draft == NoDraft && s.n < MAX_THREADS && core < NUM_CORES
      && w' == World(SetSlot(s, Tcb(s.tcb[s.n].sp, Unused, prio, prio, core)), Filled(core, prio), w.hist)
    case Frame(sp) =>
      && w.draft.Filled? && s.n < MAX_THREADS
      && w' == World(SetSlot(s, s.tcb[s.n].(sp := sp)), Framed(w.draft.core, w.draft.prio), w.hist + [Built(s.n, sp)])
    case MarkReady =>
      && w.draft.Framed? && s.n < MAX_THREADS
      && w' == World(SetSlot(s, s.tcb[s.n].(state := Ready)), Ready_(w.draft.core, w.draft.prio), w.hist)
    case Publish =>
      && w.draft.Ready_? && s.n < MAX_THREADS
      && w' == World(s.(n := s.n + 1), NoDraft, w.hist)
    case Start(core) =>
      && core < NUM_CORES && s.current[core] == NONE
      && w'.draft == w.draft
      && exists first: nat ::
           && StartRel(s, core, w'.sys, first)
           && w'.hist == if first == NONE then w.hist else w.hist + [Resumed(core, first, s.tcb[first].sp)]
    case Tick(core, sp) =>
      && core < NUM_CORES
      && w'.draft == w.draft
      && exists out: nat ::
           && TickRel(s, core, sp, w'.sys, out)
           && w'.hist == if s.current[core] == NONE then w.hist
                         else w.hist + [Saved(s.current[core], sp), Resumed(core, w'.sys.current[core], out)]
    case Exit(core) =>
      && core < NUM_CORES
      && w' == w.(sys := Exited(s, core))
    case Boost(id, prio) =>
      w' == w.(sys := Boosted(s, id, prio))
    case Restore(id) =>
      w' == w.(sys := Restored(s, id))
  }

  datatype Maybe = No | Yes(sp: nat)

  /** The stack pointer last saved, or first built, for a thread. */
  function LastSp(hist: seq<Event>, id: nat): Maybe {
    if hist == [] then No
    else match hist[|hist| - 1]
      case Built(i, sp) => if i == id then Yes(sp) else LastSp(hist[..|hist| - 1], id)
      case Saved(i, sp) => if i == id then Yes(sp) else LastSp(hist[..|hist| - 1], id)
      case Resumed(_, _, _) => LastSp(hist[..|hist| - 1], id)
  }

  /** Every dispatch so far restored exactly the context last saved (or first built)
      for the thread it resumed. */
  ghost predicate Faithful(hist: seq<Event>) {
    forall k :: 0 <= k < |hist| && hist[k].Resumed? ==> LastSp(hist[..k], hist[k].id) == Yes(hist[k].sp)
  }

  /** Strict affinity, and at most one RUNNING thread per core, which is the current one. */
  ghost predicate SysInv(s: Sys) {
    && Shape(s)
    && (forall c :: 0 <= c < NUM_CORES && s.current[c] != NONE ==> s.tcb[s.current[c]].core == c)
    && (forall i :: 0 <= i < s.n && s.tcb[i].state == Running ==>
          s.tcb[i].core < NUM_CORES && s.current[s.tcb[i].core] == i)
  }

  /** Every visible thread has a frame, and its saved SP is the last one recorded. */
  ghost predicate HasFrames(s: Sys, hist: seq<Event>)
    requires Shape(s)
  {
    forall i :: 0 <= i < s.n ==> s.tcb[i].state != Unused && LastSp(hist, i) == Yes(s.tcb[i].sp)
  }

  /** The slot under construction. */
  ghost predicate DraftOk(s: Sys, draft: Draft, hist: seq<Event>)
    requires Shape(s)
  {
    draft != NoDraft ==>
      && s.n < MAX_THREADS && draft.core < NUM_CORES
      && s.tcb[s.n].core == draft.core && s.tcb[s.n].priority == s.tcb[s.n].basePrio == draft.prio
      && (draft.Filled? || draft.Framed? ==> s.tcb[s.n].state == Unused)
      && (draft.Ready_? ==> s.tcb[s.n].state == Ready)
      && (draft.Framed? || draft.Ready_? ==> LastSp(hist, s.n) == Yes(s.tcb[s.n].sp))
  }

  /** Nothing was built or saved for a slot before its frame. */
  ghost predicate Unbuilt(s: Sys, draft: Draft, hist: seq<Event>) {
    forall i: nat :: i > s.n || (i == s.n && (draft.NoDraft? || draft.Filled?)) ==> LastSp(hist, i) == No
  }

  ghost predicate Inv(w: World) {
    && SysInv(w.sys) && HasFrames(w.sys, w.hist) && Faithful(w.hist)
    && DraftOk(w.sys, w.draft, w.hist) && Unbuilt(w.sys, w.draft, w.hist)
  }

  ghost predicate Init(w: World) {
    && Shape(w.sys) && w.sys.n == 0 && w.draft == NoDraft && w.hist == []
    && forall c :: 0 <= c < NUM_CORES ==> w.sys.current[c] == NONE
  }

  ghost predicate IsRun(ws: seq<World>, acts: seq<Action>) {
    && |ws| == |acts| + 1
    && Init(ws[0])
    && forall k :: 0 <= k < |acts| ==> Shape(ws[k].sys) && Step(ws[k], acts[k], ws[k + 1])
  }

  lemma LastSpSnoc(hist: seq<Event>, e: Event, id: nat)
    ensures LastSp(hist + [e], id) == if !e.Resumed? && e.id == id then Yes(e.sp) else LastSp(hist, id)
  {
    assert (hist + [e])[..|hist|] == hist;
  }

  lemma FaithfulSnoc(hist: seq<Event>, e: Event)
    requires Faithful(hist)
    requires e.Resumed? ==> LastSp(hist, e.id) == Yes(e.sp)
    ensures Faithful(hist + [e])
  {
    forall k | 0 <= k <= |hist| && (hist + [e])[k].Resumed?
      ensures LastSp((hist + [e])[..k], (hist + [e])[k].id) == Yes((hist + [e])[k].sp)
    {
      assert (hist + [e])[..k] == hist[..k];
      if k == |hist| { assert hist[..k] == hist; }
    }
  }

  /** A save and a resume, in the history. */
  lemma SwitchInHistory(hist: seq<Event>, cur: nat, sp: nat, core: nat, next: nat, out: nat)
    requires Faithful(hist)
    requires (if next == cur then Yes(sp) else LastSp(hist, next)) == Yes(out)
    ensures Faithful(hist + [Saved(cur, sp), Resumed(core, next, out)])
    ensures forall i: nat :: LastSp(hist + [Saved(cur, sp), Resumed(core, next, out)], i) ==
                             if i == cur then Yes(sp) else LastSp(hist, i)
  {
    var mid := hist + [Saved(cur, sp)];
    assert hist + [Saved(cur, sp), Resumed(core, next, out)] == mid + [Resumed(core, next, out)];
    forall i: nat ensures LastSp(mid + [Resumed(core, next, out)], i) == if i == cur then Yes(sp) else LastSp(hist, i)
    {
      LastSpSnoc(hist, Saved(cur, sp), i);
      LastSpSnoc(mid, Resumed(core, next, out), i);
    }
    LastSpSnoc(hist, Saved(cur, sp), next);
    FaithfulSnoc(hist, Saved(cur, sp));
    FaithfulSnoc(mid, Resumed(core, next, out));
  }

  lemma SwitchKeepsSysInv(s: Sys, core: nat, sp: nat, next: nat)
    requires SysInv(s) && core < NUM_CORES && s.current[core] != NONE
    requires next < s.n && s.tcb[next].core == core
    ensures SysInv(Dispatch(Preempt(s, s.current[core], sp), core, next))
  {
  }

  lemma SwitchKeepsFrames(s: Sys, core: nat, sp: nat, next: nat, hist: seq<Event>, hist': seq<Event>, draft: Draft)
    requires SysInv(s) && core < NUM_CORES && s.current[core] != NONE && next < s.n && s.tcb[next].core == core
    requires HasFrames(s, hist) && DraftOk(s, draft, hist)
    requires forall i: nat :: LastSp(hist', i) == if i == s.current[core] then Yes(sp) else LastSp(hist, i)
    ensures var s' := Dispatch(Preempt(s, s.current[core], sp), core, next);
            Shape(s') && HasFrames(s', hist') && DraftOk(s', draft, hist')
  {
    var s' := Dispatch(Preempt(s, s.current[core], sp), core, next);
    forall i | 0 <= i < |s.tcb| ensures s'.tcb[i].sp == if i == s.current[core] then sp else s.tcb[i].sp
    {
    }
  }

  lemma TickKeepsInv(w: World, core: nat, sp: nat, w': World)
    requires Inv(w) && Step(w, Tick(core, sp), w')
    ensures Inv(w')
  {
    var s, s' := w.sys, w'.sys;
    if s.current[core] != NONE {
      var cur, next := s.current[core], s'.current[core];
      var saved := Preempt(s, cur, sp);
      var out: nat :| TickRel(s, core, sp, s', out) && w'.hist == w.hist + [Saved(cur, sp), Resumed(core, next, out)];
      assert s' == Dispatch(saved, core, next) && out == saved.tcb[next].sp && next < s.n
          && saved.tcb[next].core == core;
      SwitchKeepsSysInv(s, core, sp, next);
      SwitchInHistory(w.hist, cur, sp, core, next, out);
      SwitchKeepsFrames(s, core, sp, next, w.hist, w'.hist, w.draft);
    }
  }

  lemma StartKeepsInv(w: World, core: nat, w': World)
    requires Inv(w) && Step(w, Start(core), w')
    ensures Inv(w')
  {
    var s, s' := w.sys, w'.sys;
    var first: nat :| StartRel(s, core, s', first)
      && w'.hist == if first == NONE then w.hist else w.hist + [Resumed(core, first, s.tcb[first].sp)];
    if first != NONE {
      var e := Resumed(core, first, s.tcb[first].sp);
      forall i: nat ensures LastSp(w'.hist, i) == LastSp(w.hist, i)
      {
        LastSpSnoc(w.hist, e, i);
      }
      FaithfulSnoc(w.hist, e);
    }
  }

  lemma FrameKeepsInv(w: World, sp: nat, w': World)
    requires Inv(w) && Step(w, Frame(sp), w')
    ensures Inv(w')
  {
    var e := Built(w.sys.n, sp);
    forall i: nat ensures LastSp(w'.hist, i) == if i == w.sys.n then Yes(sp) else LastSp(w.hist, i)
    {
      LastSpSnoc(w.hist, e, i);
    }
    FaithfulSnoc(w.hist, e);
  }

  /** The creator's other writes do not touch a visible thread until the last one. */
  lemma DraftKeepsInv(w: World, a: Action, w': World)
    requires Inv(w) && Step(w, a, w') && (a.Fill? || a.MarkReady? || a.Publish?)
    ensures Inv(w')
  {
    forall i | 0 <= i < w.sys.n ensures w'.sys.tcb[i] == w.sys.tcb[i]
    {
    }
  }

  lemma ExitOrPriorityKeepsInv(w: World, a: Action, w': World)
    requires Inv(w) && Step(w, a, w') && (a.Exit? || a.Boost? || a.Restore?)
    ensures Inv(w')
  {
    forall i | 0 <= i < |w.sys.tcb|
      ensures w'.sys.tcb[i].sp == w.sys.tcb[i].sp && w'.sys.tcb[i].core == w.sys.tcb[i].core
      ensures w'.sys.tcb[i].state == w.sys.tcb[i].state || (i < w.sys.n && w'.sys.tcb[i].state == Blocked)
    {
    }
  }

  /** Every action of every participant keeps the scheduler's invariant. */
  lemma StepKeepsInv(w: World, a: Action, w': World)
    requires Inv(w) && Step(w, a, w')
    ensures Inv(w')
  {
    match a
    case Tick(core, sp) => TickKeepsInv(w, core, sp, w');
    case Start(core) => StartKeepsInv(w, core, w');
    case Frame(sp) => FrameKeepsInv(w, sp, w');
    case Fill(_, _) => DraftKeepsInv(w, a, w');
    case MarkReady => DraftKeepsInv(w, a, w');
    case Publish => DraftKeepsInv(w, a, w');
    case _ => ExitOrPriorityKeepsInv(w, a, w');
  }

  /** Over all runs: affinity, at most one RUNNING thread per core, no visible thread
      without a frame, and every dispatch restores the right context. */
  lemma {:induction false} RunsKeepInv(ws: seq<World>, acts: seq<Action>, k: nat)
    requires IsRun(ws, acts) && k < |ws|
    ensures Inv(ws[k])
  {
    if k > 0 {
      RunsKeepInv(ws, acts, k - 1);
      StepKeepsInv(ws[k - 1], acts[k - 1], ws[k]);
    }
  }

  /** A tick dispatches the best priority of its partition, in any reachable state that
      has a candidate there; with none the current thread stays, even a blocked one. */
  lemma TickDispatchesTheBest(w: World, core: nat, sp: nat, w': World)
    requires Inv(w) && Step(w, Tick(core, sp), w') && w.sys.current[core] != NONE
    ensures (exists i: nat :: Candidate(w.sys, core, i)) ==>
              && Candidate(w.sys, core, w'.sys.current[core])
              && forall i: nat :: Candidate(w.sys, core, i) ==>
                   w.sys.tcb[w'.sys.current[core]].priority <= w.sys.tcb[i].priority
    ensures (forall i: nat :: !Candidate(w.sys, core, i)) ==>
              && w'.sys.current[core] == w.sys.current[core]
              && w'.sys.tcb[w.sys.current[core]].state == Running
  {
    var s, cur := w.sys, w.sys.current[core];
    var saved := Preempt(s, cur, sp);
    forall i: nat
      ensures Candidate(s, core, i) <==> Candidate(saved, core, i)
      ensures i < |s.tcb| ==> saved.tcb[i].priority == s.tcb[i].priority
    {
    }
    var out: nat :| TickRel(s, core, sp, w'.sys, out);
    var next := w'.sys.current[core];
    assert s.n < NONE;
    if exists i: nat :: Candidate(s, core, i) {
      var i: nat :| Candidate(s, core, i);
      assert Candidate(saved, core, i);
      assert IsPick(saved, core, cur, next) && next != NONE;
    }
  }

  /** A thread that returned is blocked by the trampoline. The very next tick of its core
      revives it if and only if its partition has no other runnable thread. */
  lemma ExitedIsRevivedIff(w: World, core: nat, mid: World, sp: nat, w': World)
    requires Inv(w) && core < NUM_CORES && w.sys.current[core] != NONE
    requires Step(w, Exit(core), mid) && Shape(mid.sys) && Step(mid, Tick(core, sp), w')
    ensures w'.sys.tcb[w.sys.current[core]].state ==
            if forall i: nat :: Candidate(w.sys, core, i) ==> i == w.sys.current[core] then Running else Blocked
  {
    var cur := w.sys.current[core];
    StepKeepsInv(w, Exit(core), mid);
    forall i: nat ensures Candidate(mid.sys, core, i) <==> Candidate(w.sys, core, i) && i != cur
    {
    }
    TickDispatchesTheBest(mid, core, sp, w');
    OthersKeepState(mid.sys, core, sp, w'.sys, cur);
  }

  /** A tick that dispatches somebody else leaves a blocked thread blocked. */
  lemma OthersKeepState(s: Sys, core: nat, sp: nat, s': Sys, i: nat)
    requires Shape(s) && core < NUM_CORES && i < s.n && s.tcb[i].state == Blocked && s.current[core] != NONE
    requires exists out: nat :: TickRel(s, core, sp, s', out)
    ensures s'.current[core] != i ==> s'.tcb[i].state == Blocked
  {
  }

  /** The four writes of the creator, run without interference, are Scheduler.CreateOn. */
  lemma CreationStepsAreCreateOn(w0: World, prio: nat, core: nat, sp: nat, w1: World, w2: World, w3: World, w4: World)
    requires Inv(w0) && Shape(w1.sys) && Shape(w2.sys) && Shape(w3.sys)
    requires Step(w0, Fill(prio, core), w1) && Step(w1, Frame(sp), w2)
    requires Step(w2, MarkReady, w3) && Step(w3, Publish, w4)
    ensures w4.sys.n == w0.sys.n + 1 && w4.sys.current == w0.sys.current
    ensures w4.sys.tcb == w0.sys.tcb[w0.sys.n := Tcb(sp, Ready, prio, prio, core)]
    ensures w4.draft == NoDraft && w4.hist == w0.hist + [Built(w0.sys.n, sp)]
  {
  }

  /** The slot as demo/kernel/sched.c publishes it: counter first, then the fields with state
      READY, and the frame only after that. */
  function EarlyPublished(s: Sys, core: nat, prio: nat): (r: Sys)
    requires Shape(s) && s.n < MAX_THREADS
    ensures Shape(r)
  {
    SetSlot(s, Tcb(s.tcb[s.n].sp, Ready, prio, prio, core)).(n := s.n + 1)
  }

  /** Somebody else gets the core before a newcomer of that priority: a thread with a better
      one, or one of equal priority that round-robin meets first. */
  ghost predicate RunsBefore(s: Sys, core: nat, prio: nat)
    requires core < |s.current|
  {
    exists i: nat :: Candidate(s, core, i)
      && (s.tcb[i].priority < prio || (s.tcb[i].priority == prio && s.current[core] < i))
  }

  /** Why publishing comes last. In the other order, a tick that falls before the frame is
      built restores the right context if and only if somebody else gets the core first;
      otherwise it resumes the newcomer with a context nobody built or saved. */
  lemma EarlyPublishIsFaithfulIff(w: World, core: nat, prio: nat, sp: nat, w': World)
    requires Inv(w) && w.draft == NoDraft && w.sys.n < MAX_THREADS && core < NUM_CORES && prio < NONE
    requires w.sys.current[core] != NONE
    requires Step(w.(sys := EarlyPublished(w.sys, core, prio)), Tick(core, sp), w')
    ensures w'.sys.current[core] == w.sys.n <==> !RunsBefore(w.sys, core, prio)
    ensures Faithful(w'.hist) <==> RunsBefore(w.sys, core, prio)
  {
    var s, id := w.sys, w.sys.n;
    var early, cur := EarlyPublished(s, core, prio), s.current[core];
    var out: nat :| TickRel(early, core, sp, w'.sys, out)
      && w'.hist == w.hist + [Saved(cur, sp), Resumed(core, w'.sys.current[core], out)];
    var next := w'.sys.current[core];
    EarlyTick(s, core, prio, sp, w'.sys, out);
    if next == id {
      UnbuiltResumed(w.hist, Saved(cur, sp), core, id, out);
      assert w'.hist == w.hist + [Saved(cur, sp)] + [Resumed(core, id, out)];
    } else {
      SwitchInHistory(w.hist, cur, sp, core, next, out);
    }
  }

  lemma EarlyTick(s: Sys, core: nat, prio: nat, sp: nat, s': Sys, out: nat)
    requires SysInv(s) && s.n < MAX_THREADS && core < NUM_CORES && prio < NONE && s.current[core] != NONE
    requires TickRel(EarlyPublished(s, core, prio), core, sp, s', out)
    ensures s'.current[core] <= s.n
    ensures s'.current[core] == s.n <==> !RunsBefore(s, core, prio)
    ensures s'.current[core] < s.n ==>
              out == if s'.current[core] == s.current[core] then sp else s.tcb[s'.current[core]].sp
  {
    var early, cur, id := EarlyPublished(s, core, prio), s.current[core], s.n;
    var saved := Preempt(early, cur, sp);
    assert Candidate(saved, core, id) && saved.tcb[id].priority == prio;
    forall i: nat | i < id
      ensures Candidate(saved, core, i) <==> Candidate(s, core, i)
      ensures saved.tcb[i].priority == s.tcb[i].priority
    {
    }
    var next := s'.current[core];
    assert IsPick(saved, core, cur, next) && Candidate(saved, core, next);
    if RunsBefore(s, core, prio) {
      var i: nat :| Candidate(s, core, i) && (s.tcb[i].priority < prio || (s.tcb[i].priority == prio && cur < i));
      assert Candidate(saved, core, i);
    }
  }

  lemma UnbuiltResumed(hist: seq<Event>, e: Event, core: nat, id: nat, out: nat)
    requires LastSp(hist, id) == No && e.Saved? && e.id != id
    ensures !Faithful(hist + [e] + [Resumed(core, id, out)])
  {
    var all, k := hist + [e] + [Resumed(core, id, out)], |hist| + 1;
    assert all[..k] == hist + [e];
    LastSpSnoc(hist, e, id);
    assert all[k].Resumed? && LastSp(all[..k], id) == No;
  }
}
