/** The command and transfer rings of the xHCI driver (demo/drivers/usb/hcd_xhci.c):
    fifteen work TRBs and a Link TRB with Toggle Cycle, shared with a controller that
    consumes by cycle bit (xHCI specification 1.2, sections 4.9.2, 4.9.3 and 4.11.5.1). */
module TrbRing {
  import opened Arithmetic

  const TRBS: nat := 16
  const WORK: nat := 15

  /** A TRB's words without the cycle bit. */
  datatype Payload = Payload(param: nat, status: nat, ctrl: nat)

  datatype Trb = Work(payload: Payload, cycle: bool) | Link(toggle: bool, cycle: bool)

  function SetCycle(t: Trb, cycle: bool): Trb {
    match t
    case Work(p, _) => Work(p, cycle)
    case Link(toggle, _) => Link(toggle, cycle)
  }

  const ZERO := Work(Payload(0, 0, 0), false)

  /** The cycle bit of the w-th TRB ever pushed: it alternates from lap to lap. */
  predicate Lap(w: nat) {
    (w / WORK) % 2 == 0
  }

  /** The last position below `n` that occupies work slot `i`, for slots in use. */
  function LastAt(n: nat, i: nat): nat
    requires i < n
  {
    i + WORK * ((n - 1 - i) / WORK)
  }

  /** What a ring must contain once `h` was pushed. `first` is the position of a TRB kept
      back with the inverted cycle bit (-1: none); `due` says that the Link TRB of the lap
      just completed has not been written yet. */
  function RingOf(h: seq<Payload>, first: int, due: bool): (ring: seq<Trb>)
    ensures |ring| == TRBS
  {
    seq(TRBS, i requires 0 <= i < TRBS =>
      if i == WORK then LinkOf(|h|, due)
      else if i >= |h| then ZERO
      else Work(h[LastAt(|h|, i)], Lap(LastAt(|h|, i)) != (LastAt(|h|, i) == first)))
  }

  function LinksWritten(n: nat, due: bool): nat
    requires due ==> n >= WORK
  {
    n / WORK - if due then 1 else 0
  }

  function LinkOf(n: nat, due: bool): Trb {
    if n < WORK || LinksWritten(n, due) == 0 then ZERO
    else Link(true, LinksWritten(n, due) % 2 == 1)
  }

  // ------------------------------------------------------------------
  // Each write of the driver leads from one canonical content to the next
  // ------------------------------------------------------------------

  lemma EmptyRing()
    ensures RingOf([], -1, false) == seq(TRBS, _ => ZERO)
  {
    var a, b := RingOf([], -1, false), seq(TRBS, _ => ZERO);
    forall i | 0 <= i < TRBS ensures a[i] == b[i]
    {
      assert b[i] == ZERO && (i == WORK ==> a[i] == LinkOf(0, false));
    }
    assert a == b;
  }

  lemma LastAtNext(n: nat, i: nat)
    requires i < WORK && i < n + 1
    ensures i == n % WORK ==> LastAt(n + 1, i) == n
    ensures i != n % WORK ==> i < n && LastAt(n + 1, i) == LastAt(n, i)
  {
  }

  lemma LastAtRecent(n: nat, i: nat)
    requires i < WORK && i < n
    ensures LastAt(n, i) < n && n - LastAt(n, i) <= WORK && LastAt(n, i) % WORK == i
  {
  }

  lemma LinkStays(n: nat)
    ensures LinkOf(n + 1, (n + 1) % WORK == 0) == LinkOf(n, false)
  {
    if (n + 1) % WORK == 0 {
      assert (n + 1) / WORK == n / WORK + 1;
    } else {
      assert (n + 1) / WORK == n / WORK;
    }
  }

  lemma WriteTrb(h: seq<Payload>, first: int, p: Payload, isFirst: bool)
    requires first < |h|
    requires isFirst ==> first < 0
    requires first >= 0 ==> |h| - first < WORK
    ensures var f := if isFirst then |h| else first;
            RingOf(h, first, false)[|h| % WORK := Work(p, Lap(|h|) != isFirst)]
            == RingOf(h + [p], f, (|h| + 1) % WORK == 0)
  {
    var f := if isFirst then |h| else first;
    var a := RingOf(h, first, false)[|h| % WORK := Work(p, Lap(|h|) != isFirst)];
    var b := RingOf(h + [p], f, (|h| + 1) % WORK == 0);
    forall i | 0 <= i < TRBS ensures a[i] == b[i]
    {
      if i == WORK {
        LinkStays(|h|);
      } else if i < |h| + 1 {
        LastAtNext(|h|, i);
        if i != |h| % WORK {
          LastAtRecent(|h|, i);
          SlotStays(h, first, p, f, i);
        }
      }
    }
    assert a == b;
  }

  lemma SlotStays(h: seq<Payload>, first: int, p: Payload, f: int, i: nat)
    requires i < WORK && i < |h| && LastAt(|h| + 1, i) == LastAt(|h|, i) < |h|
    requires f == first || (first < 0 && f == |h|)
    ensures RingOf(h + [p], f, (|h| + 1) % WORK == 0)[i] == RingOf(h, first, false)[i]
  {
  }

  lemma WriteLink(h: seq<Payload>, first: int)
    requires |h| > 0 && |h| % WORK == 0
    ensures RingOf(h, first, true)[WORK := Link(true, Lap(|h| - 1))] == RingOf(h, first, false)
  {
    assert |h| / WORK - 1 == (|h| - 1) / WORK;
    var a, b := RingOf(h, first, true)[WORK := Link(true, Lap(|h| - 1))], RingOf(h, first, false);
    assert LinkOf(|h|, false) == Link(true, Lap(|h| - 1));
    forall i | 0 <= i < TRBS ensures a[i] == b[i]
    {
      assert i == WORK ==> a[i] == Link(true, Lap(|h| - 1)) && b[i] == LinkOf(|h|, false);
    }
    assert a == b;
  }

  lemma GiveBack(h: seq<Payload>, first: nat, due: bool)
    requires first < |h| && |h| - first <= WORK
    ensures var i := first % WORK;
            RingOf(h, first, due)[i := SetCycle(RingOf(h, first, due)[i], Lap(first))] == RingOf(h, -1, due)
  {
    var i := first % WORK;
    assert LastAt(|h|, i) == first;
    var a := RingOf(h, first, due)[i := SetCycle(RingOf(h, first, due)[i], Lap(first))];
    var b := RingOf(h, -1, due);
    forall j | 0 <= j < TRBS ensures a[j] == b[j]
    {
      if j < WORK && j < |h| && j != i {
        LastAtRecent(|h|, j);
      }
    }
    assert a == b;
  }

  lemma NextIndex(n: nat)
    ensures (n + 1) % WORK == if n % WORK == WORK - 1 then 0 else n % WORK + 1
    ensures Lap(n + 1) == if n % WORK == WORK - 1 then !Lap(n) else Lap(n)
  {
    if n % WORK == WORK - 1 {
      assert (n + 1) / WORK == n / WORK + 1;
    } else {
      assert (n + 1) / WORK == n / WORK;
    }
  }

  // ------------------------------------------------------------------
  // The driver's side
  // ------------------------------------------------------------------

  class Ring {
    const trbs: array<Trb>
    var idx: nat
    var cycle: bool
    var keptIdx: int       // slot of the TRB kept back, -1 for none
    var keptCycle: bool

    /** Everything pushed since the ring was reset, and the position kept back. */
    ghost var pushed: seq<Payload>
    ghost var first: int

    ghost predicate Valid()
      reads this, trbs
    {
      && trbs.Length == TRBS
      && idx == |pushed| % WORK
      && cycle == Lap(|pushed|)
      && trbs[..] == RingOf(pushed, first, false)
      && -1 <= first < |pushed|
      && (first == -1 <==> keptIdx == -1)
      && (first >= 0 ==> |pushed| - first <= WORK && keptIdx == first % WORK && keptCycle == Lap(first))
    }

    /** A zeroed ring with index 0 and producer cycle state 1. */
    constructor ()
      ensures Valid() && fresh(trbs) && pushed == [] && first == -1
    {
      trbs := new Trb[TRBS](_ => ZERO);
      idx, cycle, keptIdx, keptCycle := 0, true, -1, false;
      pushed, first := [], -1;
      new;
      EmptyRing();
      assert trbs[..] == seq(TRBS, _ => ZERO);
    }

    /** cmd_push() and ep0_push(): enqueues one TRB; with `isFirst` it is written with the
        inverted cycle bit and remembered. At the end of the lap the Link TRB follows. */
    method Push(p: Payload, isFirst: bool)
      requires Valid()
      requires isFirst ==> first == -1
      requires first >= 0 ==> |pushed| - first < WORK
      modifies this, trbs
      ensures Valid() && pushed == old(pushed) + [p]
      ensures first == if isFirst then |old(pushed)| else old(first)
    {
      ghost var h, f := pushed, if isFirst then |pushed| else first;
      ghost var mem := trbs[..];
      var cyc := cycle;
      if isFirst {
        keptIdx := idx;
        keptCycle := cyc;
        cyc := !cyc;
      }
      trbs[idx] := Work(p, cyc);
      assert trbs[..] == mem[idx := Work(p, Lap(|h|) != isFirst)];
      WriteTrb(h, first, p, isFirst);
      pushed, first := h + [p], f;
      assert trbs[..] == RingOf(pushed, first, |pushed| % WORK == 0);
      Advance();
    }

    /** The driver's index after a TRB: one further, and back over the Link TRB. */
    method Advance()
      requires trbs.Length == TRBS && |pushed| > 0
      requires idx == (|pushed| - 1) % WORK && cycle == Lap(|pushed| - 1)
      requires trbs[..] == RingOf(pushed, first, |pushed| % WORK == 0)
      modifies this`idx, this`cycle, trbs
      ensures idx == |pushed| % WORK && cycle == Lap(|pushed|)
      ensures trbs[..] == RingOf(pushed, first, false)
    {
      NextIndex(|pushed| - 1);
      ghost var mem := trbs[..];
      idx := idx + 1;
      if idx >= TRBS - 1 {
        trbs[TRBS - 1] := Link(true, cycle);
        assert trbs[..] == mem[WORK := Link(true, Lap(|pushed| - 1))];
        WriteLink(pushed, first);
        idx := 0;
        cycle := !cycle;
      }
    }

    /** ep0_giveback_and_ring(): restores the cycle bit of the TRB kept back, if any. */
    method GiveBackFirst()
      requires Valid()
      modifies this, trbs
      ensures Valid() && pushed == old(pushed) && first == -1
    {
      if keptIdx != -1 {
        GiveBack(pushed, first, false);
        trbs[keptIdx] := SetCycle(trbs[keptIdx], keptCycle);
        keptIdx := -1;
        first := -1;
      }
    }

    /** The ring part of ep_xfer(): one TRB, inverted and at once given back, then the
        index and the Link TRB. */
    method PushSingle(p: Payload)
      requires Valid() && first == -1
      modifies this, trbs
      ensures Valid() && pushed == old(pushed) + [p] && first == -1
    {
      ghost var h, mem := pushed, trbs[..];
      trbs[idx] := Work(p, !cycle);
      trbs[idx] := SetCycle(trbs[idx], cycle);
      assert trbs[..] == mem[idx := Work(p, Lap(|h|) != false)];
      WriteTrb(h, -1, p, false);
      pushed := h + [p];
      Advance();
    }

    /** The ring part of xhci_control(): SETUP kept back, DATA if there is any, STATUS,
        then the whole TD is given to the controller. */
    method ControlTd(setup: Payload, hasData: bool, data: Payload, status: Payload)
      requires Valid() && first == -1
      modifies this, trbs
      ensures Valid() && first == -1
      ensures pushed == old(pushed) + [setup] + (if hasData then [data] else []) + [status]
    {
      Push(setup, true);
      if hasData {
        Push(data, false);
      }
      Push(status, false);
      GiveBackFirst();
    }
  }

  // ------------------------------------------------------------------
  // Driver and controller together
  // ------------------------------------------------------------------

  /** The driver's history and the controller's dequeue slot and consumer cycle state. */
  datatype State = State(pushed: seq<Payload>, first: int, due: bool, consumed: seq<Payload>, deq: nat, ccs: bool)

  datatype Action = Write(p: Payload, isFirst: bool) | CloseLap | Return | Controller

  function Memory(s: State): seq<Trb> {
    RingOf(s.pushed, s.first, s.due)
  }

  /** One step of the controller: nothing unless the cycle bit matches; a Link TRB is
      followed as a step of its own. */
  predicate CanStep(s: State) {
    s.deq < TRBS && Memory(s)[s.deq].cycle == s.ccs
  }

  function ControllerStep(s: State): State
    requires CanStep(s)
  {
    match Memory(s)[s.deq]
    case Link(toggle, _) => s.(deq := 0, ccs := s.ccs != toggle)
    case Work(p, _) => s.(consumed := s.consumed + [p], deq := s.deq + 1)
  }

  /** Steps of the driver are single writes: a TRB, the Link TRB that is due, the cycle
      bit of the TRB kept back. */
  ghost predicate Step(s: State, a: Action, s': State) {
    match a
    case Write(p, isFirst) =>
      && !s.due && (isFirst ==> s.first < 0) && (s.first >= 0 ==> |s.pushed| - s.first < WORK)
      && s' == s.(pushed := s.pushed + [p], first := if isFirst then |s.pushed| else s.first,
                  due := (|s.pushed| + 1) % WORK == 0)
    case CloseLap => s.due && s' == s.(due := false)
    case Return => s.first >= 0 && s' == s.(first := -1)
    case Controller => s' == if CanStep(s) then ControllerStep(s) else s
  }

  /** How far the controller may go. */
  function Limit(s: State): int {
    if s.first >= 0 then s.first else |s.pushed|
  }

  /** Work TRBs pushed and not yet consumed. */
  function Outstanding(s: State): int {
    |s.pushed| - |s.consumed|
  }

  ghost predicate Inv(s: State) {
    var n, c := |s.pushed|, |s.consumed|;
    && -1 <= s.first < n
    && (s.first >= 0 ==> n - s.first <= WORK)
    && (s.due ==> n > 0 && n % WORK == 0)
    && c <= Limit(s)
    && s.consumed == s.pushed[..c]
    && n - c <= WORK
    && if s.deq == WORK then
         // at the Link TRB, which must not be that of a later lap
         c > 0 && c % WORK == 0 && s.ccs == Lap(c - 1) && LinksWritten(n, s.due) <= c / WORK
       else
         s.deq == c % WORK && s.ccs == Lap(c)
  }

  ghost predicate Init(s: State) {
    s == State([], -1, false, [], 0, true)
  }

  /** Which writes are harmless: a TRB when at most 14 are outstanding, a Link TRB unless
      the controller still has to follow the previous one. */
  predicate Safe(s: State, a: Action) {
    match a
    case Write(_, _) => Outstanding(s) < WORK
    case CloseLap => s.deq != WORK || |s.consumed| == |s.pushed|
    case Return => true
    case Controller => true
  }

  /** What the controller finds at its dequeue slot. */
  lemma NextWork(s: State)
    requires Inv(s) && s.deq != WORK
    ensures s.deq < WORK
    ensures CanStep(s) <==> |s.consumed| < Limit(s)
    ensures |s.consumed| < Limit(s) ==>
              ControllerStep(s) == s.(consumed := s.consumed + [s.pushed[|s.consumed|]], deq := s.deq + 1)
  {
    var n, c := |s.pushed|, |s.consumed|;
    if c < n {
      SlotPending(s.pushed, s.first, s.due, c);
    } else {
      SlotPast(s.pushed, s.first, s.due);
    }
  }

  /** The slot of an outstanding TRB holds it. */
  lemma SlotPending(h: seq<Payload>, first: int, due: bool, c: nat)
    requires c < |h| <= c + WORK
    ensures RingOf(h, first, due)[c % WORK] == Work(h[c], Lap(c) != (c == first))
  {
    assert LastAt(|h|, c % WORK) == c;
  }

  /** The slot of the next TRB to be pushed does not look filled. */
  lemma SlotPast(h: seq<Payload>, first: int, due: bool)
    requires first >= 0 ==> |h| - first < WORK
    ensures RingOf(h, first, due)[|h| % WORK].cycle != Lap(|h|)
  {
    if |h| >= WORK {
      assert LastAt(|h|, |h| % WORK) == |h| - WORK;
      assert |h| / WORK == (|h| - WORK) / WORK + 1;
    }
  }

  lemma NextLink(s: State)
    requires Inv(s) && s.deq == WORK
    ensures |s.consumed| < |s.pushed| ==> CanStep(s)
    ensures CanStep(s) ==> Memory(s)[WORK] == Link(true, s.ccs) && ControllerStep(s) == s.(deq := 0, ccs := !s.ccs)
    ensures CanStep(s) ==> Inv(ControllerStep(s))
  {
    var n, c := |s.pushed|, |s.consumed|;
    assert Memory(s)[WORK] == LinkOf(n, s.due);
    assert c / WORK >= 1;
    assert n / WORK >= c / WORK;
    assert (c - 1) / WORK == c / WORK - 1;
  }

  lemma WriteKeepsInv(s: State, p: Payload, isFirst: bool, s': State)
    requires Inv(s) && Step(s, Write(p, isFirst), s') && Outstanding(s) < WORK
    ensures Inv(s')
  {
    NextIndex(|s.pushed|);
    LinksWrittenNext(|s.pushed|);
  }

  lemma LinksWrittenNext(n: nat)
    ensures (n + 1) % WORK == 0 ==> n + 1 >= WORK
    ensures LinksWritten(n + 1, (n + 1) % WORK == 0) == LinksWritten(n, false)
  {
    if (n + 1) % WORK == 0 {
      assert (n + 1) / WORK == n / WORK + 1;
    } else {
      assert (n + 1) / WORK == n / WORK;
    }
  }

  lemma CloseKeepsInv(s: State, s': State)
    requires Inv(s) && Step(s, CloseLap, s') && Safe(s, CloseLap)
    ensures Inv(s')
  {
  }

  lemma ControllerKeepsInv(s: State)
    requires Inv(s) && CanStep(s)
    ensures Inv(ControllerStep(s))
  {
    if s.deq == WORK {
      NextLink(s);
    } else {
      NextWork(s);
      var n, c := |s.pushed|, |s.consumed|;
      NextIndex(c);
      if c % WORK == WORK - 1 {
        LapEnd(n, c, s.due);
      }
    }
  }

  /** When the controller arrives at the Link TRB, no later lap's link is there. */
  lemma LapEnd(n: nat, c: nat, due: bool)
    requires c < n <= c + WORK && c % WORK == WORK - 1
    requires due ==> n > 0 && n % WORK == 0
    ensures (c + 1) % WORK == 0
    ensures due ==> n >= WORK
    ensures LinksWritten(n, due) <= (c + 1) / WORK
  {
    assert c + 1 == WORK * ((c + 1) / WORK);
    assert n < (c + 1) + WORK;
    assert n / WORK <= (c + 1) / WORK;
  }

  lemma SafeStepKeepsInv(s: State, a: Action, s': State)
    requires Inv(s) && Step(s, a, s') && Safe(s, a)
    ensures Inv(s')
  {
    match a
    case Write(p, isFirst) => WriteKeepsInv(s, p, isFirst, s');
    case CloseLap => CloseKeepsInv(s, s');
    case Return =>
    case Controller => if CanStep(s) { ControllerKeepsInv(s); }
  }

  /** The bound the driver needs is on outstanding TRBs alone: never more than 14. */
  lemma FourteenIsSafe(s: State, a: Action, s': State)
    requires Inv(s) && Step(s, a, s') && Outstanding(s') < WORK
    ensures Safe(s, a)
  {
  }

  ghost predicate IsRun(ss: seq<State>, acts: seq<Action>) {
    && |ss| == |acts| + 1
    && Init(ss[0])
    && forall k :: 0 <= k < |acts| ==> Step(ss[k], acts[k], ss[k + 1])
  }

  /** Over any number of laps with at most 14 outstanding: what was consumed is a prefix
      of what was pushed and stops before a TRB kept back, and the controller is never
      stuck short of that limit. */
  lemma {:induction false} RingRefinesFifo(ss: seq<State>, acts: seq<Action>, k: nat)
    requires IsRun(ss, acts) && k < |ss|
    requires forall i :: 0 <= i < |ss| ==> Outstanding(ss[i]) < WORK
    ensures Inv(ss[k])
    ensures ss[k].consumed <= ss[k].pushed && |ss[k].consumed| <= Limit(ss[k])
    ensures |ss[k].consumed| < Limit(ss[k]) ==> CanStep(ss[k])
  {
    if k > 0 {
      RingRefinesFifo(ss, acts, k - 1);
      FourteenIsSafe(ss[k - 1], acts[k - 1], ss[k]);
      SafeStepKeepsInv(ss[k - 1], acts[k - 1], ss[k]);
    }
    if ss[k].deq == WORK { NextLink(ss[k]); } else { NextWork(ss[k]); }
  }

  // ------------------------------------------------------------------
  // The bound is exact
  // ------------------------------------------------------------------

  /** Pushing a TRB over the oldest of 15 outstanding ones: an ordinary TRB turns the cycle
      bit under the controller, which is then stuck with work left; a TRB kept back is
      consumed at once in the place of the one it overwrote. */
  lemma UnsafeWriteFails(s: State, p: Payload, isFirst: bool, s': State)
    requires Inv(s) && Step(s, Write(p, isFirst), s') && !Safe(s, Write(p, isFirst))
    ensures |s'.consumed| < |s'.pushed|
    ensures !isFirst ==> !CanStep(s')
    ensures isFirst ==> CanStep(s') && ControllerStep(s').consumed == s.consumed + [p]
  {
    var n, c := |s.pushed|, |s.consumed|;
    assert n == c + WORK;
    assert (n / WORK) == c / WORK + 1;
    LastAtNext(n, c % WORK);
    assert Memory(s')[c % WORK] == Work(p, Lap(n) != isFirst);
  }

  /** Closing a lap while the controller has not followed the previous Link TRB turns
      that link under it: the controller is stuck with 15 TRBs left. */
  lemma UnsafeCloseStalls(s: State, s': State)
    requires Inv(s) && Step(s, CloseLap, s') && !Safe(s, CloseLap)
    ensures Outstanding(s') == WORK && !CanStep(s')
  {
    var n, c := |s.pushed|, |s.consumed|;
    assert n / WORK == c / WORK + 1;
    assert n == c + WORK;
    assert (c - 1) / WORK == c / WORK - 1;
    assert Memory(s')[WORK] == LinkOf(n, false);
  }

  /** ep_xfer() gives up after its timeout and leaves its TRB queued. This is the run of an
      idle endpoint that is polled all the same: TRBs are pushed and given back, and the
      controller completes none. */
  lemma {:induction false} IdlePolling(ps: seq<Payload>) returns (ss: seq<State>, acts: seq<Action>)
    requires |ps| < WORK
    ensures IsRun(ss, acts) && Controller !in acts
    ensures ss[|acts|] == State(ps, -1, false, [], 0, true)
  {
    if ps == [] {
      ss, acts := [State([], -1, false, [], 0, true)], [];
    } else {
      var n := |ps| - 1;
      ss, acts := IdlePolling(ps[..n]);
      var kept, given := State(ps, n, false, [], 0, true), State(ps, -1, false, [], 0, true);
      assert ps[..n] + [ps[n]] == ps;
      ss, acts := ss + [kept, given], acts + [Write(ps[n], true), Return];
    }
  }

  /** After 15 such polls the ring is full of outstanding TRBs, and the write of the next
      poll is the unsafe one: the controller is stuck without having consumed anything. */
  lemma SixteenthPollStalls(ps: seq<Payload>, p: Payload) returns (ss: seq<State>, acts: seq<Action>, full: nat)
    requires |ps| == WORK
    ensures IsRun(ss, acts) && Controller !in acts && full < |ss|
    ensures ss[full] == State(ps, -1, false, [], 0, true) && Inv(ss[full]) && !Safe(ss[full], Write(p, true))
    ensures ss[|acts|] == State(ps + [p], -1, false, [], 0, true) && !CanStep(ss[|acts|])
  {
    var n := WORK - 1;
    ss, acts := IdlePolling(ps[..n]);
    assert ps[..n] + [ps[n]] == ps;
    var kept, given := State(ps, n, true, [], 0, true), State(ps, -1, true, [], 0, true);
    var closed, over, stuck := given.(due := false), State(ps + [p], WORK, false, [], 0, true),
        State(ps + [p], -1, false, [], 0, true);
    full := |acts| + 3;
    ss := ss + [kept, given, closed, over, stuck];
    acts := acts + [Write(ps[n], true), Return, CloseLap, Write(p, true), Return];
    assert LastAt(WORK + 1, 0) == WORK;
    assert Memory(stuck)[0] == Work(p, Lap(WORK) != (WORK == -1));
  }

  // ------------------------------------------------------------------
  // Whole TDs
  // ------------------------------------------------------------------

  /** Nothing of a TD is consumed before it is given back, however the controller's steps
      fall between the driver's writes and wherever the TD meets the Link TRB. */
  lemma TdIsAtomic(ss: seq<State>, acts: seq<Action>, from: nat, k: nat)
    requires IsRun(ss, acts) && from <= k < |acts|
    requires forall i :: 0 <= i < |ss| ==> Outstanding(ss[i]) < WORK
    requires acts[from].Write? && acts[from].isFirst
    requires forall i :: from < i <= k ==> acts[i] != Return
    ensures |ss[k + 1].consumed| <= |ss[from].pushed|
    ensures ss[k + 1].first == |ss[from].pushed|
  {
    RingRefinesFifo(ss, acts, k + 1);
    if k > from {
      TdIsAtomic(ss, acts, from, k - 1);
      StepKeepsKept(ss[k], acts[k], ss[k + 1]);
    }
  }

  /** A TRB kept back stays so until it is given back. */
  lemma StepKeepsKept(s: State, a: Action, s': State)
    requires s.first >= 0 && Step(s, a, s') && a != Return
    ensures s'.first == s.first
  {
  }

  /** The controller left alone. */
  function Run(s: State, fuel: nat): State
    decreases fuel
  {
    if fuel == 0 || !CanStep(s) then s else Run(ControllerStep(s), fuel - 1)
  }

  function Left(s: State): int {
    2 * Outstanding(s) + if s.deq == WORK then 1 else 0
  }

  lemma ControllerProgress(s: State)
    requires Inv(s) && s.first == -1
    ensures CanStep(s) ==>
              && Inv(ControllerStep(s)) && Left(ControllerStep(s)) < Left(s)
              && ControllerStep(s).pushed == s.pushed && ControllerStep(s).first == -1
    ensures !CanStep(s) ==> s.consumed == s.pushed
  {
    if s.deq == WORK { NextLink(s); } else { NextWork(s); }
    if CanStep(s) {
      ControllerKeepsInv(s);
    }
  }

  /** Once given back, the TRBs are consumed in order, all of them, and then it stops. */
  lemma {:induction false} DrainDelivers(s: State, fuel: nat)
    requires Inv(s) && s.first == -1 && fuel >= Left(s)
    ensures Run(s, fuel).consumed == s.pushed
    ensures !CanStep(Run(s, fuel)) && Run(s, fuel).pushed == s.pushed
    decreases fuel
  {
    ControllerProgress(s);
    if CanStep(s) {
      DrainDelivers(ControllerStep(s), fuel - 1);
    }
  }

  /** The driver's own actions, without the links it writes on the way. */
  function Driver(acts: seq<Action>): seq<Action> {
    if acts == [] then []
    else
      var a := acts[|acts| - 1];
      Driver(acts[..|acts| - 1]) + if a.Write? || a.Return? then [a] else []
  }

  function Payloads(acts: seq<Action>): seq<Payload> {
    if acts == [] then []
    else
      var a := acts[|acts| - 1];
      Payloads(acts[..|acts| - 1]) + Put(a)
  }

  /** What an action pushes. */
  function Put(a: Action): seq<Payload> {
    if a.Write? then [a.p] else []
  }

  lemma {:induction false} DriverHasThem(acts: seq<Action>, i: nat)
    requires i < |acts| && (acts[i].Write? || acts[i].Return?)
    ensures acts[i] in Driver(acts)
  {
    if i < |acts| - 1 {
      DriverHasThem(acts[..|acts| - 1], i);
    }
  }

  lemma PayloadsSnoc(acts: seq<Action>, a: Action)
    ensures Payloads(acts + [a]) == Payloads(acts) + Put(a)
  {
    assert (acts + [a])[..|acts|] == acts;
  }

  lemma {:induction false} PayloadsOfDriver(acts: seq<Action>)
    ensures Payloads(Driver(acts)) == Payloads(acts)
  {
    if acts != [] {
      var init, a := acts[..|acts| - 1], acts[|acts| - 1];
      PayloadsOfDriver(init);
      PayloadsSnoc(Driver(init), a);
      assert Driver(acts) == if a.Write? || a.Return? then Driver(init) + [a] else Driver(init);
    }
  }

  lemma StepPushes(s: State, a: Action, s': State)
    requires Step(s, a, s')
    ensures s'.pushed == s.pushed + Put(a)
  {
  }

  /** Histories that grow by what the actions write. */
  ghost predicate Grows(hs: seq<seq<Payload>>, acts: seq<Action>) {
    |hs| == |acts| + 1 && forall k :: 0 <= k < |acts| ==> GrowsAt(hs, acts, k)
  }

  ghost predicate GrowsAt(hs: seq<seq<Payload>>, acts: seq<Action>, k: nat)
    requires k < |acts| < |hs|
  {
    hs[k + 1] == hs[k] + Put(acts[k])
  }

  lemma {:induction false} GrownOver(hs: seq<seq<Payload>>, acts: seq<Action>, i: nat, j: nat)
    requires Grows(hs, acts) && i <= j < |hs|
    ensures hs[j] == hs[i] + Payloads(acts[i..j])
    decreases j
  {
    if i < j {
      GrownOver(hs, acts, i, j - 1);
      PayloadsOfSlice(acts, i, j);
      assert GrowsAt(hs, acts, j - 1);
      Appended(hs[i], hs[j - 1], hs[j], Payloads(acts[i..j - 1]), Put(acts[j - 1]));
    } else {
      assert acts[i..j] == [];
    }
  }

  lemma PayloadsOfSlice(acts: seq<Action>, i: nat, j: nat)
    requires i < j <= |acts|
    ensures Payloads(acts[i..j]) == Payloads(acts[i..j - 1]) + Put(acts[j - 1])
  {
    assert acts[i..j] == acts[i..j - 1] + [acts[j - 1]];
    PayloadsSnoc(acts[i..j - 1], acts[j - 1]);
  }

  lemma Appended(h0: seq<Payload>, h1: seq<Payload>, h2: seq<Payload>, p: seq<Payload>, w: seq<Payload>)
    requires h1 == h0 + p && h2 == h1 + w
    ensures h2 == h0 + (p + w)
  {
    Regroup(h0, p, w);
  }

  lemma PushedOver(ss: seq<State>, acts: seq<Action>, i: nat, j: nat)
    requires IsRun(ss, acts) && i <= j < |ss|
    ensures ss[j].pushed == ss[i].pushed + Payloads(acts[i..j])
  {
    var hs := seq(|ss|, k requires 0 <= k < |ss| => ss[k].pushed);
    forall k | 0 <= k < |acts| ensures GrowsAt(hs, acts, k)
    {
      StepPushes(ss[k], acts[k], ss[k + 1]);
    }
    GrownOver(hs, acts, i, j);
  }

  /** The stages of a control transfer. */
  function Stages(setup: Payload, hasData: bool, data: Payload, status: Payload): seq<Payload> {
    if hasData then [setup, data, status] else [setup, status]
  }

  /** What the driver does for it, see Ring.ControlTd. */
  function ControlActions(setup: Payload, hasData: bool, data: Payload, status: Payload): seq<Action> {
    if hasData then [Write(setup, true), Write(data, false), Write(status, false), Return]
    else [Write(setup, true), Write(status, false), Return]
  }

  lemma StagesPushed(setup: Payload, hasData: bool, data: Payload, status: Payload)
    ensures Payloads(ControlActions(setup, hasData, data, status)) == Stages(setup, hasData, data, status)
  {
    PayloadsSnoc([], Write(setup, true));
    var acts := [Write(setup, true)];
    if hasData {
      PayloadsSnoc(acts, Write(data, false));
      acts := acts + [Write(data, false)];
    }
    PayloadsSnoc(acts, Write(status, false));
    PayloadsSnoc(acts + [Write(status, false)], Return);
    assert acts + [Write(status, false)] + [Return] == ControlActions(setup, hasData, data, status);
    assert [] + [Write(setup, true)] == [Write(setup, true)];
  }

  /** A control transfer on EP0 in a run: from its first write to the giveback the driver
      does what Ring.ControlTd does, with the controller's steps anywhere in between. Until
      the giveback nothing of it is consumed. From then on, whatever else is pushed, the
      controller consumes SETUP, the optional DATA and STATUS in this order right after
      what was pushed before; it is not stuck short of them, and left alone gets them all. */
  lemma ControlTransferDelivered(ss: seq<State>, acts: seq<Action>, from: nat, end: nat, k: nat,
                                 setup: Payload, hasData: bool, data: Payload, status: Payload)
    requires IsRun(ss, acts) && from < end <= k < |ss|
    requires forall i :: 0 <= i < |ss| ==> Outstanding(ss[i]) < WORK
    requires acts[from] == Write(setup, true) && acts[end - 1] == Return
    requires Driver(acts[from..end]) == ControlActions(setup, hasData, data, status)
    ensures var all := ss[from].pushed + Stages(setup, hasData, data, status);
            && (forall i :: from <= i < end ==> |ss[i].consumed| <= |ss[from].pushed|)
            && ss[end].pushed == all && ss[end].first == -1 && all <= ss[k].pushed
            && (if |ss[k].consumed| <= |all| then ss[k].consumed <= all else all <= ss[k].consumed)
            && (|ss[end].consumed| < |all| ==> CanStep(ss[end]))
            && Inv(ss[end]) && Run(ss[end], Left(ss[end])).consumed == all
  {
    var all := ss[from].pushed + Stages(setup, hasData, data, status);
    PayloadsOfDriver(acts[from..end]);
    StagesPushed(setup, hasData, data, status);
    PushedOver(ss, acts, from, end);
    PushedOver(ss, acts, end, k);
    RingRefinesFifo(ss, acts, end);
    RingRefinesFifo(ss, acts, k);
    DrainDelivers(ss[end], Left(ss[end]));
    NothingBeforeGiveback(ss, acts, from, end);
  }

  lemma NothingBeforeGiveback(ss: seq<State>, acts: seq<Action>, from: nat, end: nat)
    requires IsRun(ss, acts) && from < end < |ss|
    requires forall i :: 0 <= i < |ss| ==> Outstanding(ss[i]) < WORK
    requires acts[from].Write? && acts[from].isFirst && acts[end - 1] == Return
    requires var d := Driver(acts[from..end]); forall i :: 0 <= i < |d| - 1 ==> d[i] != Return
    ensures forall i :: from <= i < end ==> |ss[i].consumed| <= |ss[from].pushed|
  {
    OneReturn(acts[from..end]);
    forall j | from <= j < end - 1 ensures acts[j] != Return
    {
      assert acts[from..end][j - from] == acts[j];
    }
    forall i | from <= i < end ensures |ss[i].consumed| <= |ss[from].pushed|
    {
      if i == from {
        RingRefinesFifo(ss, acts, from);
      } else {
        TdIsAtomic(ss, acts, from, i - 1);
      }
    }
  }

  /** The giveback is the only one of its TD. */
  lemma OneReturn(acts: seq<Action>)
    requires acts != [] && acts[|acts| - 1] == Return
    requires forall i :: 0 <= i < |Driver(acts)| - 1 ==> Driver(acts)[i] != Return
    ensures forall i :: 0 <= i < |acts| - 1 ==> acts[i] != Return
  {
    var init := acts[..|acts| - 1];
    assert Driver(acts)[..|Driver(acts)| - 1] == Driver(init);
    forall i | 0 <= i < |acts| - 1 ensures acts[i] != Return
    {
      if acts[i] == Return {
        DriverHasThem(init, i);
      }
    }
  }
}
