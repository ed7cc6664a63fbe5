/** Cyclic fairness of the dispatcher: between threads of equal, minimal priority
    value the core goes round without favouring or skipping anybody. */
module RoundRobin {
  import opened Sched

  /** `i` is one of the runnable threads of the partition with minimal priority value. */
  ghost predicate Top(s: Sys, core: nat, i: nat) {
    && Candidate(s, core, i)
    && forall j: nat :: Candidate(s, core, j) ==> s.tcb[i].priority <= s.tcb[j].priority
  }

  /** The top threads with index below `k`, in increasing order. */
  ghost function TopsBelow(s: Sys, core: nat, k: nat): seq<nat> {
    if k == 0 then []
    else TopsBelow(s, core, k - 1) + if Top(s, core, k - 1) then [k - 1] else []
  }

  ghost function Tops(s: Sys, core: nat): seq<nat> {
    TopsBelow(s, core, s.n)
  }

  lemma {:induction false} TopsBelowExact(s: Sys, core: nat, k: nat)
    ensures forall a, b :: 0 <= a < b < |TopsBelow(s, core, k)| ==> TopsBelow(s, core, k)[a] < TopsBelow(s, core, k)[b]
    ensures forall i: nat :: i in TopsBelow(s, core, k) <==> i < k && Top(s, core, i)
  {
    if k > 0 {
      TopsBelowExact(s, core, k - 1);
      var before := TopsBelow(s, core, k - 1);
      forall a | 0 <= a < |before| ensures before[a] < k - 1 {
        assert before[a] in before;
      }
    }
  }

  /** Nothing that matters to the dispatcher of `core` differs between the two states:
      the same current thread, the same runnable threads, the same priorities. Other
      cores may have ticked and other partitions may have gained threads. */
  ghost predicate Stable(s: Sys, s': Sys, core: nat)
    requires core < |s.current| && core < |s'.current|
  {
    && s.current[core] == s'.current[core]
    && (forall i: nat :: Candidate(s, core, i) <==> Candidate(s', core, i))
    && (forall i: nat :: Candidate(s, core, i) ==> s.tcb[i].priority == s'.tcb[i].priority)
  }

  ghost predicate SameTops(s: Sys, s': Sys, core: nat) {
    forall i: nat :: Top(s, core, i) <==> Top(s', core, i)
  }

  lemma {:induction false} SameTopsSameList(s: Sys, s': Sys, core: nat)
    requires Shape(s) && Shape(s') && SameTops(s, s', core)
    ensures Tops(s, core) == Tops(s', core)
  {
    TopsBeyond(s, core, s.n, MAX_THREADS);
    TopsBeyond(s', core, s'.n, MAX_THREADS);
    TopsAgree(s, s', core, MAX_THREADS);
  }

  lemma {:induction false} TopsBeyond(s: Sys, core: nat, k: nat, m: nat)
    requires s.n <= k <= m
    ensures TopsBelow(s, core, m) == TopsBelow(s, core, k)
  {
    if k < m { TopsBeyond(s, core, k, m - 1); }
  }

  lemma {:induction false} TopsAgree(s: Sys, s': Sys, core: nat, k: nat)
    requires SameTops(s, s', core)
    ensures TopsBelow(s, core, k) == TopsBelow(s', core, k)
  {
    if k > 0 { TopsAgree(s, s', core, k - 1); }
  }

  function Next(p: nat, m: nat): nat
    requires p < m
  {
    if p + 1 == m then 0 else p + 1
  }

  /** From the p-th top thread, round-robin goes to the cyclically next one. */
  lemma PickIsSuccessor(s: Sys, core: nat, p: nat, r: nat)
    requires Shape(s) && p < |Tops(s, core)|
    requires Tops(s, core)[p] < s.n
    requires IsPick(s, core, Tops(s, core)[p], r)
    ensures r == Tops(s, core)[Next(p, |Tops(s, core)|)]
  {
    var tops := Tops(s, core);
    TopsBelowExact(s, core, s.n);
    var from, succ := tops[p], tops[Next(p, |tops|)];
    assert from in tops && succ in tops;
    assert Top(s, core, succ) && Candidate(s, core, from);
    assert Top(s, core, r);
    assert r in tops;
    var q :| 0 <= q < |tops| && tops[q] == r;
    assert Dist(s.n, from, r) <= Dist(s.n, from, succ);
    if q == p {
    } else if q < p {
    } else {
    }
  }

  /** A pick is always a top thread, and there is one as long as there is a top thread. */
  lemma PickIsTop(s: Sys, core: nat, from: nat, r: nat)
    requires Shape(s) && from < s.n && IsPick(s, core, from, r)
    requires exists i: nat :: Candidate(s, core, i)
    ensures r != NONE && Top(s, core, r) && r in Tops(s, core)
  {
    TopsBelowExact(s, core, s.n);
  }

  /** Saving and dispatching leave the runnable set and its priorities alone. */
  lemma TickKeepsTops(s: Sys, core: nat, sp: nat, s': Sys, out: nat)
    requires Shape(s) && core < NUM_CORES && s.current[core] != NONE
    requires TickRel(s, core, sp, s', out)
    requires exists i: nat :: Candidate(s, core, i)
    ensures Shape(s') && s'.current[core] != NONE
    ensures SameTops(s, s', core) && Top(s, core, s'.current[core])
    ensures forall i: nat :: Candidate(s, core, i) <==> Candidate(s', core, i)
    ensures IsPick(Preempt(s, s.current[core], sp), core, s.current[core], s'.current[core])
  {
    var saved := Preempt(s, s.current[core], sp);
    forall i: nat
      ensures Candidate(s, core, i) <==> Candidate(saved, core, i)
      ensures Candidate(saved, core, i) <==> Candidate(s', core, i)
      ensures i < |s.tcb| ==> s.tcb[i].priority == saved.tcb[i].priority == s'.tcb[i].priority
    {
    }
    PickIsTop(saved, core, s.current[core], s'.current[core]);
  }

  /** What a tick on another core means for this one. */
  lemma OtherCoreTickIsStable(s: Sys, core: nat, other: nat, sp: nat, s': Sys, out: nat)
    requires Shape(s) && core < NUM_CORES && other < NUM_CORES && core != other
    requires TickRel(s, other, sp, s', out)
    requires s.current[other] != NONE ==> s.tcb[s.current[other]].core == other
    ensures Shape(s') && Stable(s, s', core)
  {
  }

  /** A series of ticks on `core`: tick j leads from pre[j] to post[j], and whatever
      happens before the next one is stable for this core. */
  ghost predicate Ticks(core: nat, pre: seq<Sys>, post: seq<Sys>, sps: seq<nat>, outs: seq<nat>) {
    && core < NUM_CORES
    && |pre| == |post| == |sps| == |outs|
    && (forall j :: 0 <= j < |pre| ==>
          Shape(pre[j]) && Shape(post[j]) && TickRel(pre[j], core, sps[j], post[j], outs[j]))
    && (forall j :: 0 < j < |pre| ==> Stable(post[j - 1], pre[j], core))
    && (|pre| > 0 ==> pre[0].current[core] != NONE)
  }

  /** Position of the j-th dispatched thread in the list, starting from position p. */
  function Pos(p: nat, j: nat, m: nat): nat
    requires p < m && j < m
  {
    if p + j < m then p + j else p + j - m
  }

  /** One tick with at least one top thread: the list stays, and the next in line runs. */
  lemma TickAdvances(s: Sys, core: nat, sp: nat, s': Sys, out: nat, q: nat)
    requires Shape(s) && core < NUM_CORES && TickRel(s, core, sp, s', out)
    requires q < |Tops(s, core)| && s.current[core] == Tops(s, core)[q]
    ensures Shape(s') && Tops(s', core) == Tops(s, core)
    ensures s'.current[core] == Tops(s, core)[Next(q, |Tops(s, core)|)]
  {
    TopsBelowExact(s, core, s.n);
    assert Tops(s, core)[q] in Tops(s, core);
    var saved := Preempt(s, s.current[core], sp);
    TickKeepsTops(s, core, sp, s', out);
    PreemptKeepsTops(s, core, sp);
    SameTopsSameList(s, s', core);
    SameTopsSameList(s, saved, core);
    PickIsSuccessor(saved, core, q, s'.current[core]);
  }

  /** The first tick: whatever ran before, some member of the list runs after. */
  lemma TickEntersTheList(s: Sys, core: nat, sp: nat, s': Sys, out: nat) returns (p: nat)
    requires Shape(s) && core < NUM_CORES && TickRel(s, core, sp, s', out)
    requires s.current[core] != NONE && |Tops(s, core)| > 0
    ensures Shape(s') && Tops(s', core) == Tops(s, core)
    ensures p < |Tops(s, core)| && s'.current[core] == Tops(s, core)[p]
  {
    TopsBelowExact(s, core, s.n);
    assert Tops(s, core)[0] in Tops(s, core);
    assert Candidate(s, core, Tops(s, core)[0]);
    TickKeepsTops(s, core, sp, s', out);
    SameTopsSameList(s, s', core);
    p :| 0 <= p < |Tops(s, core)| && Tops(s, core)[p] == s'.current[core];
  }

  /** The j-th tick of a series, seen from the list. */
  lemma TickOfSeries(core: nat, pre: seq<Sys>, post: seq<Sys>, sps: seq<nat>, outs: seq<nat>, j: nat, q: nat)
    requires Ticks(core, pre, post, sps, outs) && 0 < j < |pre|
    requires q < |Tops(post[j - 1], core)| && post[j - 1].current[core] == Tops(post[j - 1], core)[q]
    ensures Tops(post[j], core) == Tops(post[j - 1], core)
    ensures post[j].current[core] == Tops(post[j - 1], core)[Next(q, |Tops(post[j - 1], core)|)]
  {
    var s, s' := pre[j], post[j];
    assert Stable(post[j - 1], s, core);
    StableKeepsTops(post[j - 1], s, core);
    SameTopsSameList(post[j - 1], s, core);
    TickAdvances(s, core, sps[j], s', outs[j], q);
  }

  lemma FirstTickOfSeries(core: nat, pre: seq<Sys>, post: seq<Sys>, sps: seq<nat>, outs: seq<nat>) returns (p: nat)
    requires Ticks(core, pre, post, sps, outs) && |pre| > 0 && |Tops(pre[0], core)| > 0
    ensures p < |Tops(pre[0], core)|
    ensures Tops(post[0], core) == Tops(pre[0], core)
    ensures post[0].current[core] == Tops(pre[0], core)[p]
  {
    p := TickEntersTheList(pre[0], core, sps[0], post[0], outs[0]);
  }

  /** `ran` goes round the list `tops`: after tops[q] comes the cyclically next member. */
  ghost predicate Walk(tops: seq<nat>, ran: seq<nat>) {
    forall j, q: nat :: 0 < j < |ran| && q < |tops| && ran[j - 1] == tops[q] ==> ran[j] == tops[Next(q, |tops|)]
  }

  lemma {:induction false} WalkFollowsTheList(tops: seq<nat>, ran: seq<nat>, p: nat, j: nat)
    requires Walk(tops, ran) && j < |ran| <= |tops|
    requires p < |tops| && ran[0] == tops[p]
    ensures ran[j] == tops[Pos(p, j, |tops|)]
  {
    if j > 0 {
      WalkFollowsTheList(tops, ran, p, j - 1);
      assert ran[j] == tops[Next(Pos(p, j - 1, |tops|), |tops|)];
    }
  }

  lemma {:induction false} SeriesKeepsTops(core: nat, pre: seq<Sys>, post: seq<Sys>, sps: seq<nat>, outs: seq<nat>,
                                           j: nat) returns (q: nat)
    requires Ticks(core, pre, post, sps, outs) && j < |pre|
    requires |Tops(pre[0], core)| > 0
    ensures Tops(post[j], core) == Tops(pre[0], core)
    ensures q < |Tops(pre[0], core)| && post[j].current[core] == Tops(pre[0], core)[q]
  {
    if j == 0 {
      q := FirstTickOfSeries(core, pre, post, sps, outs);
    } else {
      q := SeriesKeepsTops(core, pre, post, sps, outs, j - 1);
      TickOfSeries(core, pre, post, sps, outs, j, q);
      q := Next(q, |Tops(pre[0], core)|);
    }
  }

  lemma PreemptKeepsTops(s: Sys, core: nat, sp: nat)
    requires Shape(s) && core < NUM_CORES && s.current[core] != NONE
    ensures SameTops(s, Preempt(s, s.current[core], sp), core) && Shape(Preempt(s, s.current[core], sp))
  {
    var saved := Preempt(s, s.current[core], sp);
    forall i: nat ensures Candidate(s, core, i) <==> Candidate(saved, core, i)
    {
    }
    forall i: nat | i < |s.tcb| ensures s.tcb[i].priority == saved.tcb[i].priority
    {
    }
  }

  lemma StableKeepsTops(s: Sys, s': Sys, core: nat)
    requires core < |s.current| && core < |s'.current| && Stable(s, s', core)
    ensures SameTops(s, s', core)
  {
    forall i: nat ensures Top(s, core, i) <==> Top(s', core, i)
    {
    }
  }

  /** Round-robin fairness: with m top threads, any m consecutive ticks on the core
      dispatch each of them exactly once, whatever was running before, and dispatch
      nobody else. */
  lemma RoundRobinIsFair(core: nat, pre: seq<Sys>, post: seq<Sys>, sps: seq<nat>, outs: seq<nat>)
    requires Ticks(core, pre, post, sps, outs)
    requires |pre| > 0 && |pre| == |Tops(pre[0], core)|
    ensures forall j :: 0 <= j < |pre| ==> Top(pre[0], core, post[j].current[core])
    ensures forall i: nat :: Top(pre[0], core, i) ==> exists j :: 0 <= j < |pre| && post[j].current[core] == i
    ensures forall j, k :: 0 <= j < k < |pre| ==> post[j].current[core] != post[k].current[core]
  {
    var m, tops := |pre|, Tops(pre[0], core);
    TopsBelowExact(pre[0], core, pre[0].n);
    var ran := SeriesWalks(core, pre, post, sps, outs);
    var p := FirstTickOfSeries(core, pre, post, sps, outs);
    forall j | 0 <= j < m ensures ran[j] == tops[Pos(p, j, m)]
    {
      WalkFollowsTheList(tops, ran, p, j);
    }
    CyclicCover(tops, p, ran);
    forall j | 0 <= j < m ensures Top(pre[0], core, post[j].current[core])
    {
      assert ran[j] in tops;
    }
    forall i: nat | Top(pre[0], core, i) ensures exists j :: 0 <= j < m && post[j].current[core] == i
    {
      var j :| 0 <= j < m && ran[j] == i;
      assert post[j].current[core] == i;
    }
  }

  lemma SeriesWalks(core: nat, pre: seq<Sys>, post: seq<Sys>, sps: seq<nat>, outs: seq<nat>) returns (ran: seq<nat>)
    requires Ticks(core, pre, post, sps, outs) && |pre| > 0 && |Tops(pre[0], core)| > 0
    ensures |ran| == |pre| && forall j :: 0 <= j < |pre| ==> ran[j] == post[j].current[core]
    ensures Walk(Tops(pre[0], core), ran)
  {
    ran := seq(|pre|, j requires 0 <= j < |pre| => post[j].current[core]);
    var tops := Tops(pre[0], core);
    forall j, q: nat | 0 < j < |ran| && q < |tops| && ran[j - 1] == tops[q] ensures ran[j] == tops[Next(q, |tops|)]
    {
      var _ := SeriesKeepsTops(core, pre, post, sps, outs, j - 1);
      TickOfSeries(core, pre, post, sps, outs, j, q);
    }
  }

  /** Walking once round an increasing list meets every element exactly once. */
  lemma CyclicCover(tops: seq<nat>, p: nat, ran: seq<nat>)
    requires p < |tops| == |ran|
    requires forall a, b :: 0 <= a < b < |tops| ==> tops[a] < tops[b]
    requires forall j :: 0 <= j < |tops| ==> ran[j] == tops[Pos(p, j, |tops|)]
    ensures forall i :: i in tops ==> i in ran
    ensures forall j, k :: 0 <= j < k < |tops| ==> ran[j] != ran[k]
  {
    var m := |tops|;
    forall i | i in tops ensures i in ran
    {
      var q :| 0 <= q < m && tops[q] == i;
      var j := if q >= p then q - p else q + m - p;
      assert ran[j] == i;
    }
    forall j, k | 0 <= j < k < m ensures ran[j] != ran[k]
    {
      assert Pos(p, j, m) < Pos(p, k, m) || Pos(p, k, m) < Pos(p, j, m);
    }
  }
}
