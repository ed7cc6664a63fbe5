/** The xHCI event ring consumed in software (demo/drivers/usb/hcd_xhci.c; xHCI
    specification 1.2, section 4.9.4): one segment of sixteen TRBs, no Link TRB, a
    consumer cycle state that toggles at the wrap, and evt_wait(), which skips events
    of other types while it polls. */
module EventRing {
  const SLOTS: nat := 16

  /** An event TRB: its type, its completion code and the rest of its words. */
  datatype Event = Event(kind: nat, code: nat, words: nat)

  datatype Slot = Slot(event: Event, cycle: bool)

  datatype Outcome = Timeout | Got(event: Event)

  predicate Lap(w: nat) {
    (w / SLOTS) % 2 == 0
  }

  /** The last position below n that occupies slot i. */
  function LastAt(n: nat, i: nat): nat
    requires i < n
  {
    i + SLOTS * ((n - 1 - i) / SLOTS)
  }

  /** What the segment contains after the controller wrote the events `h`. */
  function RingOf(h: seq<Event>): (ring: seq<Slot>)
    ensures |ring| == SLOTS
  {
    seq(SLOTS, i requires 0 <= i < SLOTS =>
      if i >= |h| then Slot(Event(0, 0, 0), false) else Slot(h[LastAt(|h|, i)], Lap(LastAt(|h|, i))))
  }

  lemma NextIndex(n: nat)
    ensures (n + 1) % SLOTS == if n % SLOTS == SLOTS - 1 then 0 else n % SLOTS + 1
    ensures Lap(n + 1) == if n % SLOTS == SLOTS - 1 then !Lap(n) else Lap(n)
  {
    if n % SLOTS == SLOTS - 1 {
      assert (n + 1) / SLOTS == n / SLOTS + 1;
    } else {
      assert (n + 1) / SLOTS == n / SLOTS;
    }
  }

  lemma LastAtNext(n: nat, i: nat)
    requires i < SLOTS && i < n + 1
    ensures i == n % SLOTS ==> LastAt(n + 1, i) == n
    ensures i != n % SLOTS ==> i < n && LastAt(n + 1, i) == LastAt(n, i) < n
  {
    var q, r := n / SLOTS, n % SLOTS;
    if i == r {
      assert n - i == SLOTS * q;
    } else if i < r {
      assert (n - i) / SLOTS == q == (n - 1 - i) / SLOTS;
    } else {
      assert q >= 1 && (n - i) / SLOTS == q - 1 == (n - 1 - i) / SLOTS;
    }
  }

  lemma Write(h: seq<Event>, e: Event)
    ensures RingOf(h)[|h| % SLOTS := Slot(e, Lap(|h|))] == RingOf(h + [e])
  {
    var a, b := RingOf(h)[|h| % SLOTS := Slot(e, Lap(|h|))], RingOf(h + [e]);
    forall i | 0 <= i < SLOTS ensures a[i] == b[i]
    {
      if i < |h| + 1 {
        LastAtNext(|h|, i);
      }
    }
    assert a == b;
  }

  /** The cycle bit tells a pending event from an old one, and the slot is the next event. */
  lemma SlotOfNext(h: seq<Event>, handled: nat)
    requires handled <= |h| <= handled + SLOTS
    ensures RingOf(h)[handled % SLOTS].cycle == Lap(handled) <==> handled < |h|
    ensures handled < |h| ==> RingOf(h)[handled % SLOTS].event == h[handled]
  {
    var i := handled % SLOTS;
    if handled < |h| {
      assert LastAt(|h|, i) == handled;
    } else if handled >= SLOTS {
      assert LastAt(|h|, i) == handled - SLOTS;
      assert handled / SLOTS == (handled - SLOTS) / SLOTS + 1;
    }
  }

  /** A controller that ignored the dequeue pointer would not only lose the event it
      overwrites: the driver would take the ring for empty from then on. */
  lemma OverrunHidesEverything(h: seq<Event>, handled: nat, e: Event)
    requires |h| == handled + SLOTS
    ensures RingOf(h + [e])[handled % SLOTS].cycle != Lap(handled)
  {
    LastAtNext(|h|, handled % SLOTS);
    assert (handled + SLOTS) / SLOTS == handled / SLOTS + 1;
  }

  predicate Wanted(want: nat, e: Event) {
    e.kind == want || want == 0
  }

  /** One wait took the acknowledged count from `from` to `to`: it returned the earliest
      wanted event and discarded exactly the events before it, or found none. */
  ghost predicate WaitResult(stream: seq<Event>, from: nat, to: nat, want: nat, r: Outcome) {
    && from <= to <= |stream|
    && (r.Got? ==> to > from && r.event == stream[to - 1] && Wanted(want, r.event))
    && (forall i :: from <= i < (if r.Got? then to - 1 else to) ==> !Wanted(want, stream[i]))
  }

  /** How far the controller gets when it may post `burst` more events: not beyond the end of
      its stream and never more than a ring-full ahead of the driver. */
  function PostedAfter(posted: nat, handled: nat, burst: nat, total: nat): (p: nat)
    requires handled <= posted <= total && posted <= handled + SLOTS
    ensures posted <= p <= total && p <= handled + SLOTS && p <= posted + burst
    ensures p < posted + burst ==> p == total || p == handled + SLOTS
  {
    var p := if posted + burst < total then posted + burst else total;
    if p < handled + SLOTS then p else handled + SLOTS
  }

  /** evt_wait() as a function of what the controller may do: before each look it may post the
      next burst, and an empty ring after the last one is the timeout. The result, and how
      far the controller and the driver have come. */
  function WaitRun(stream: seq<Event>, posted: nat, handled: nat, want: nat, bursts: seq<nat>): (Outcome, nat, nat)
    requires handled <= posted <= |stream| && posted <= handled + SLOTS
    decreases |bursts|, |stream| - handled
  {
    var rest := if bursts == [] then [] else bursts[1..];
    var p := PostedAfter(posted, handled, if bursts == [] then 0 else bursts[0], |stream|);
    if handled < p then
      if Wanted(want, stream[handled]) then (Got(stream[handled]), p, handled + 1)
      else WaitRun(stream, p, handled + 1, want, rest)
    else if bursts == [] then (Timeout, p, handled)
    else WaitRun(stream, p, handled, want, rest)
  }

  function Sum(s: seq<nat>): nat {
    if s == [] then 0 else s[0] + Sum(s[1..])
  }

  /** No event of the stream between the two positions has the type. */
  ghost predicate NothingWanted(stream: seq<Event>, from: nat, end: nat, want: nat) {
    forall i :: from <= i < |stream| && i < end ==> want != 0 && stream[i].kind != want
  }

  /** Exactly when a wait times out: when no event that is pending, or that arrives with any
      of the bursts, has the wanted type. (Room: the bursts fit the ring, so that none of
      their events is put off.) */
  lemma {:induction false} TimeoutIffNothingWantedArrives(stream: seq<Event>, posted: nat, handled: nat,
                                                          want: nat, bursts: seq<nat>)
    requires handled <= posted <= |stream| && posted + Sum(bursts) <= handled + SLOTS
    ensures WaitRun(stream, posted, handled, want, bursts).0 == Timeout <==>
            NothingWanted(stream, handled, posted + Sum(bursts), want)
    decreases |bursts|, |stream| - handled
  {
    var burst, rest := if bursts == [] then 0 else bursts[0], if bursts == [] then [] else bursts[1..];
    var p := PostedAfter(posted, handled, burst, |stream|);
    var end, end' := posted + Sum(bursts), p + Sum(rest);
    assert end == posted + burst + Sum(rest);
    assert end' == end || (p == |stream| && end' >= |stream| && end >= |stream|);
    if handled < p {
      if stream[handled].kind != want && want != 0 {
        TimeoutIffNothingWantedArrives(stream, p, handled + 1, want, rest);
        assert NothingWanted(stream, handled, end, want) <==> NothingWanted(stream, handled + 1, end', want);
      } else {
        assert !NothingWanted(stream, handled, end, want);
      }
    } else if bursts != [] {
      TimeoutIffNothingWantedArrives(stream, p, handled, want, rest);
      assert NothingWanted(stream, handled, end, want) <==> NothingWanted(stream, handled, end', want);
    }
  }

  /** Whatever arrives: the earliest wanted event is returned and exactly those before it are
      discarded; a timeout leaves the ring empty. */
  lemma {:induction false} WaitRunResult(stream: seq<Event>, posted: nat, handled: nat, want: nat, bursts: seq<nat>)
    requires handled <= posted <= |stream| && posted <= handled + SLOTS
    ensures var (r, p, h) := WaitRun(stream, posted, handled, want, bursts);
            posted <= p && WaitResult(stream, handled, h, want, r) && (r.Timeout? ==> h == p)
    decreases |bursts|, |stream| - handled
  {
    var burst, rest := if bursts == [] then 0 else bursts[0], if bursts == [] then [] else bursts[1..];
    var p := PostedAfter(posted, handled, burst, |stream|);
    if handled < p {
      if !Wanted(want, stream[handled]) {
        WaitRunResult(stream, p, handled + 1, want, rest);
      }
    } else if bursts != [] {
      WaitRunResult(stream, p, handled, want, rest);
    }
  }

  /** A wait that starts on an empty ring goes on looking: the first event to arrive, with
      whatever burst, is returned if its type is wanted. */
  lemma {:induction false} FirstArrivalIsReturned(stream: seq<Event>, posted: nat, want: nat, bursts: seq<nat>, k: nat)
    requires posted < |stream| && k < |bursts| && bursts[k] >= 1 && forall j :: 0 <= j < k ==> bursts[j] == 0
    requires stream[posted].kind == want || want == 0
    ensures WaitRun(stream, posted, posted, want, bursts).0 == Got(stream[posted])
    decreases k
  {
    if k > 0 {
      FirstArrivalIsReturned(stream, posted, want, bursts[1..], k - 1);
    }
  }

  class Ring {
    const ring: array<Slot>
    var idx: nat
    var cycle: bool

    /** The controller: the events it is going to report, and its own pointers. */
    const stream: seq<Event>
    var enqueue: nat
    var producerCycle: bool

    /** Events posted and acknowledged so far; the driver uses neither number. */
    var posted: nat
    var handled: nat
    // How often the driver looked at the ring.
    ghost var looks: nat

    ghost predicate Valid()
      reads this, ring
    {
      && ring.Length == SLOTS
      && handled <= posted <= handled + SLOTS && posted <= |stream|
      && ring[..] == RingOf(stream[..posted])
      && idx == handled % SLOTS && cycle == Lap(handled)
      && enqueue == posted % SLOTS && producerCycle == Lap(posted)
    }

    constructor (stream: seq<Event>)
      ensures Valid() && fresh(ring) && this.stream == stream && posted == handled == 0
    {
      ring := new Slot[SLOTS](_ => Slot(Event(0, 0, 0), false));
      idx, cycle, enqueue, producerCycle := 0, true, 0, true;
      this.stream := stream;
      posted, handled, looks := 0, 0, 0;
      new;
      assert stream[..0] == [];
      forall i | 0 <= i < SLOTS ensures ring[..][i] == RingOf([])[i]
      {
      }
    }

    method PostOne()
      requires Valid() && posted < |stream| && posted < handled + SLOTS
      modifies ring, this`enqueue, this`producerCycle, this`posted
      ensures Valid() && posted == old(posted) + 1
    {
      ghost var mem, h := ring[..], stream[..posted];
      ring[enqueue] := Slot(stream[posted], producerCycle);
      assert ring[..] == mem[posted % SLOTS := Slot(stream[posted], Lap(posted))];
      Write(h, stream[posted]);
      assert stream[..posted + 1] == h + [stream[posted]];
      NextIndex(posted);
      enqueue := enqueue + 1;
      if enqueue == SLOTS {
        enqueue, producerCycle := 0, !producerCycle;
      }
      posted := posted + 1;
    }

    /** The controller posts up to `burst` events. It respects the dequeue pointer:
        never more than a ring-full unacknowledged. */
    method Post(burst: nat)
      requires Valid()
      modifies ring, this`enqueue, this`producerCycle, this`posted
      ensures Valid() && posted == PostedAfter(old(posted), handled, burst, |stream|)
    {
      var k := 0;
      while k < burst
        invariant 0 <= k <= burst && Valid() && posted == old(posted) + k
      {
        if posted == |stream| || posted == handled + SLOTS {
          return;
        }
        PostOne();
        k := k + 1;
      }
    }

    /** evt_acknowledge() */
    method Acknowledge()
      requires Valid() && handled < posted
      modifies this`idx, this`cycle, this`handled
      ensures Valid() && handled == old(handled) + 1
    {
      NextIndex(handled);
      idx := idx + 1;
      if idx >= SLOTS {
        idx := 0;
        cycle := !cycle;
      }
      handled := handled + 1;
    }

    /** One look at the ring: the event at the dequeue index, if its cycle bit says so. */
    method Look() returns (r: Outcome)
      requires Valid()
      modifies this`looks
      ensures Valid() && looks == old(looks) + 1
      ensures r == if handled < posted then Got(stream[handled]) else Timeout
    {
      SlotOfNext(stream[..posted], handled);
      assert ring[idx] == ring[..][idx];
      looks := looks + 1;
      r := if ring[idx].cycle == cycle then Got(ring[idx].event) else Timeout;
    }

    /** evt_wait(): before its k-th look at the ring the controller may have posted
        bursts[k] more events; an empty ring after the last burst is the timeout.
        It returns the earliest event of the wanted type (0: any) that is pending or
        arrives in time, and discards exactly the events before it; it gives up only after
        it has looked once more than there were bursts. */
    method Wait(want: nat, bursts: seq<nat>) returns (r: Outcome)
      requires Valid()
      modifies this, ring
      ensures Valid() && old(posted) <= posted
      ensures (r, posted, handled) == WaitRun(stream, old(posted), old(handled), want, bursts)
      ensures WaitResult(stream, old(handled), handled, want, r)
      ensures r.Timeout? ==> handled == posted && looks >= old(looks) + |bursts| + 1
      ensures forall k :: 0 <= k < |bursts| && bursts[k] >= 1 && (forall j :: 0 <= j < k ==> bursts[j] == 0)
                && old(handled) == old(posted) < |stream|
                && (stream[old(posted)].kind == want || want == 0)
                ==> r == Got(stream[old(posted)])
    {
      ghost var p0, h0 := posted, handled;
      FirstArrivals(stream, p0, h0, want, bursts);
      WaitRunResult(stream, p0, h0, want, bursts);
      ghost var outcome := WaitRun(stream, p0, h0, want, bursts);
      var k := 0;
      while true
        invariant Valid() && 0 <= k <= |bursts|
        invariant looks >= old(looks) + k
        invariant outcome == WaitRun(stream, posted, handled, want, bursts[k..])
        decreases |bursts| - k, |stream| - handled
      {
        var burst := 0;
        if k < |bursts| {
          burst := bursts[k];
        }
        assert bursts[k..] == if k < |bursts| then [burst] + bursts[k + 1..] else [];
        var e := LookAfter(burst);
        if e.Got? {
          if e.event.kind == want || want == 0 {
            return e;
          }
          if k < |bursts| { k := k + 1; }
          continue;
        }
        if k >= |bursts| {
          return Timeout;
        }
        k := k + 1;
      }
    }

    /** One round of the wait: what arrives, the look, and the acknowledgement that follows it
        whether the event is wanted or not. */
    method LookAfter(burst: nat) returns (e: Outcome)
      requires Valid()
      modifies this, ring
      ensures Valid() && posted == PostedAfter(old(posted), old(handled), burst, |stream|)
      ensures looks == old(looks) + 1
      ensures e == if old(handled) < posted then Got(stream[old(handled)]) else Timeout
      ensures handled == old(handled) + if e.Got? then 1 else 0
    {
      Post(burst);
      e := Look();
      if e.Got? {
        Acknowledge();
      }
    }
  }

  lemma FirstArrivals(stream: seq<Event>, posted: nat, handled: nat, want: nat, bursts: seq<nat>)
    requires handled <= posted <= |stream| && posted <= handled + SLOTS
    ensures forall k :: 0 <= k < |bursts| && bursts[k] >= 1 && (forall j :: 0 <= j < k ==> bursts[j] == 0)
              && handled == posted < |stream| && (stream[posted].kind == want || want == 0)
              ==> WaitRun(stream, posted, handled, want, bursts).0 == Got(stream[posted])
  {
    forall k | 0 <= k < |bursts| && bursts[k] >= 1 && (forall j :: 0 <= j < k ==> bursts[j] == 0)
        && handled == posted < |stream| && (stream[posted].kind == want || want == 0)
      ensures WaitRun(stream, posted, handled, want, bursts).0 == Got(stream[posted])
    {
      FirstArrivalIsReturned(stream, posted, want, bursts, k);
    }
  }

  /** Several waits in a row see the stream as one: whatever types they ask for, the events
      they return or discard are consecutive pieces of it. `marks` are the acknowledged
      counts between the waits, `got[k]` what the k-th wait returned. */
  ghost predicate WaitsInARow(stream: seq<Event>, marks: seq<nat>, wants: seq<nat>, got: seq<Outcome>) {
    && |marks| == |wants| + 1 == |got| + 1
    && (forall k :: 0 <= k < |wants| ==> WaitResult(stream, marks[k], marks[k + 1], wants[k], got[k]))
  }

  function Returned(got: seq<Outcome>): seq<Event> {
    if got == [] then []
    else Returned(got[..|got| - 1]) + match got[|got| - 1] case Timeout => [] case Got(e) => [e]
  }

  function AnyOf(stream: seq<Event>, want: nat): seq<Event> {
    if stream == [] then []
    else AnyOf(stream[..|stream| - 1], want) + if Wanted(want, stream[|stream| - 1]) then [stream[|stream| - 1]] else []
  }

  lemma {:induction false} NoneWanted(stream: seq<Event>, from: nat, to: nat, want: nat)
    requires from <= to <= |stream| && forall i :: from <= i < to ==> !Wanted(want, stream[i])
    ensures AnyOf(stream[..to], want) == AnyOf(stream[..from], want)
  {
    if from < to {
      NoneWanted(stream, from, to - 1, want);
      assert stream[..to][..to - 1] == stream[..to - 1];
    }
  }

  /** Asking for one type all along returns exactly the events of that type, in order,
      each once. */
  lemma {:induction false} NothingSkippedOrRepeated(stream: seq<Event>, marks: seq<nat>, wants: seq<nat>,
                                                    got: seq<Outcome>, want: nat)
    requires WaitsInARow(stream, marks, wants, got) && marks[0] == 0
    requires forall k :: 0 <= k < |wants| ==> wants[k] == want
    ensures marks[|wants|] <= |stream|
    ensures Returned(got) == AnyOf(stream[..marks[|wants|]], want)
  {
    var n := |wants|;
    if n == 0 {
      assert stream[..0] == [];
    } else {
      assert WaitResult(stream, marks[n - 1], marks[n], wants[n - 1], got[n - 1]);
      NothingSkippedOrRepeated(stream, marks[..n], wants[..n - 1], got[..n - 1], want);
      var from, to := marks[n - 1], marks[n];
      if got[n - 1].Got? {
        NoneWanted(stream, from, to - 1, want);
        assert stream[..to][..to - 1] == stream[..to - 1];
      } else {
        NoneWanted(stream, from, to, want);
      }
    }
  }
}
