/** The receive descriptor ring of the GMAC driver (demo/drivers/gmac/gmac.c): eight
    descriptors whose OWN bit passes them between the DMA and gmac_poll_recv(). */
module GmacRx {
  const DESCRIPTORS: nat := 8
  const BUF_SIZE: nat := 2048
  const MAX_FRAME: nat := 1600
  const OWN: nat := 0x8000_0000

  /** The bits of a descriptor's status word the driver looks at. */
  predicate Owned(status: nat) {
    status / OWN % 2 == 1
  }

  predicate Errored(status: nat) {
    status / 0x8000 % 2 == 1
  }

  function FrameLength(status: nat): nat {
    status / 0x1_0000 % 0x4000
  }

  /** Where the fields lie in a status word: the owner in bit 31, the length in bits 29 to 16,
      the error summary in bit 15. */
  lemma StatusFields(own: bool, bit30: bool, length: nat, error: bool, low: nat)
    requires length < 0x4000 && low < 0x8000
    ensures var status := (if own then 0x8000_0000 else 0) + (if bit30 then 0x4000_0000 else 0)
                          + length * 0x1_0000 + (if error then 0x8000 else 0) + low;
            Owned(status) == own && Errored(status) == error && FrameLength(status) == length
  {
  }

  /** What the DMA leaves in a descriptor it completes: the received bytes, check sequence
      included, and a status word that releases the descriptor and tells their number. */
  datatype RawFrame = RawFrame(status: nat, data: seq<nat>)

  type Frame = f: RawFrame | f.status < OWN && FrameLength(f.status) == |f.data| <= MAX_FRAME
    witness RawFrame(0, [])

  /** The bytes of a frame without its check sequence. */
  function Payload(f: Frame): seq<nat> {
    if |f.data| > 4 then f.data[..|f.data| - 4] else f.data
  }

  function Cut(s: seq<nat>, n: nat): seq<nat> {
    if |s| > n then s[..n] else s
  }

  /** The caller gets the frame without its four last bytes, as much of it as fits. */
  lemma CheckSequenceIsDropped(f: Frame, size: nat)
    ensures var whole := if |f.data| > 4 then |f.data| - 4 else |f.data|;
            Cut(Payload(f), size) == f.data[..if whole < size then whole else size]
  {
  }

  datatype Outcome = Ok(data: seq<nat>) | Invalid | Again | IoError

  /** The descriptor the k-th completion of all time lands in. */
  function Slot(k: nat): nat {
    k % DESCRIPTORS
  }

  lemma SlotsDiffer(a: nat, b: nat)
    requires a < b < a + DESCRIPTORS
    ensures Slot(a) != Slot(b)
  {
  }

  /** The ring after the DMA has completed the frames of `done` and the driver handled the
      first `handled` of them. */
  ghost predicate Holds(status: seq<nat>, bufs: seq<seq<nat>>, done: seq<Frame>, handled: nat) {
    && |status| == |bufs| == DESCRIPTORS && handled <= |done| <= handled + DESCRIPTORS
    && (forall i :: 0 <= i < DESCRIPTORS ==> |bufs[i]| == BUF_SIZE)
    && (forall k: nat :: handled <= k < |done| ==> status[Slot(k)] == done[k].status && done[k].data <= bufs[Slot(k)])
    && (forall k: nat :: |done| <= k < handled + DESCRIPTORS ==> Owned(status[Slot(k)]))
  }

  /** The descriptors the CPU owns are one cyclic run from the driver's cursor, as long as
      the frames it has not handled yet. */
  lemma CpuOwnedIsOneRun(status: seq<nat>, bufs: seq<seq<nat>>, done: seq<Frame>, handled: nat, i: nat)
    requires Holds(status, bufs, done, handled) && i < DESCRIPTORS
    ensures !Owned(status[Slot(Slot(handled) + i)]) <==> i < |done| - handled
  {
    var k := handled + i;
    SlotOfSum(handled, i);
    if k < |done| {
      assert done[k].status / OWN == 0;
    }
  }

  lemma SlotOfSum(k: nat, i: nat)
    ensures Slot(Slot(k) + i) == Slot(k + i)
  {
  }

  lemma NextSlot(k: nat)
    ensures (Slot(k) + 1) % DESCRIPTORS == Slot(k + 1)
  {
  }

  /** The two descriptors the DMA and the driver look at next. */
  lemma Cursors(status: seq<nat>, bufs: seq<seq<nat>>, done: seq<Frame>, handled: nat)
    requires Holds(status, bufs, done, handled)
    ensures Owned(status[Slot(|done|)]) <==> |done| < handled + DESCRIPTORS
    ensures Owned(status[Slot(handled)]) <==> handled == |done|
  {
    if |done| == handled + DESCRIPTORS {
      assert Slot(|done|) == Slot(handled);
    }
    if handled < |done| {
      assert done[handled].status / OWN == 0;
    }
  }

  class Ring {
    const status: array<nat>
    const bufs: array<seq<nat>>
    var cur: nat
    // The DMA's own position in the chain of descriptors.
    var dma: nat
    ghost var done: seq<Frame>
    ghost var handled: nat

    ghost predicate Valid()
      reads this, status, bufs
    {
      && Holds(status[..], bufs[..], done, handled)
      && cur == Slot(handled) && dma == Slot(|done|)
    }

    /** rx_descs_init() */
    constructor ()
      ensures Valid() && done == [] && handled == 0 && fresh(status) && fresh(bufs)
    {
      status := new nat[DESCRIPTORS](_ => OWN);
      bufs := new seq<nat>[DESCRIPTORS](_ => seq(BUF_SIZE, _ => 0));
      cur, dma := 0, 0;
      done, handled := [], 0;
    }

    /** The DMA receives a frame: it goes into the next descriptor if the DMA owns that one,
        and is lost otherwise, which is when eight frames wait. */
    method Receive(f: Frame) returns (taken: bool)
      requires Valid()
      modifies this, status, bufs
      ensures Valid() && handled == old(handled)
      ensures taken == (|old(done)| - handled < 8)
      ensures done == if taken then old(done) + [f] else old(done)
    {
      Cursors(status[..], bufs[..], done, handled);
      NextSlot(|done|);
      taken := Owned(status[dma]);
      if taken {
        Filled(status[..], bufs[..], done, handled, f);
        bufs[dma] := f.data + bufs[dma][|f.data|..];
        status[dma] := f.status;
        done := done + [f];
        dma := (dma + 1) % DESCRIPTORS;
      }
    }

    /** gmac_poll_recv(): with a usable buffer it handles the oldest completed frame exactly
        once, and hands out what fits of a good one. */
    method PollRecv(hasBuffer: bool, size: nat) returns (r: Outcome)
      requires Valid()
      modifies this`cur, this`handled, status
      ensures Valid()
      ensures !hasBuffer || size == 0 ==> r == Invalid
      ensures hasBuffer && size != 0 && old(handled) == |done| ==> r == Again
      ensures hasBuffer && size != 0 && old(handled) < |done| ==>
                var f := done[old(handled)];
                r == if Errored(f.status) then IoError else Ok(Cut(Payload(f), size))
      ensures handled == old(handled) + if r.Ok? || r.IoError? then 1 else 0
    {
      if !hasBuffer || size == 0 {
        return Invalid;
      }
      var i := cur;
      var st := status[i];
      Cursors(status[..], bufs[..], done, handled);
      NextSlot(handled);
      if Owned(st) {
        return Again;
      }
      ghost var f := done[handled];
      assert f.data <= bufs[..][i] && st == f.status;
      var length := FrameLength(st);
      if length > 4 {
        length := length - 4;
      }
      if Errored(st) {
        r := IoError;
      } else {
        var n := if length > size then size else length;
        CopiedHead(bufs[i], f, size);
        r := Ok(bufs[i][..n]);
      }
      Released(status[..], bufs[..], done, handled);
      status[i] := OWN;
      cur := (i + 1) % DESCRIPTORS;
      handled := handled + 1;
    }
  }

  lemma CopiedHead(buf: seq<nat>, f: Frame, size: nat)
    requires f.data <= buf
    ensures var n := |f.data|;
            var m := if n > 4 then n - 4 else n;
            buf[..if m > size then size else m] == Cut(Payload(f), size)
  {
  }

  lemma Filled(status: seq<nat>, bufs: seq<seq<nat>>, done: seq<Frame>, handled: nat, f: Frame)
    requires Holds(status, bufs, done, handled) && |done| < handled + DESCRIPTORS
    ensures var s := Slot(|done|);
            Holds(status[s := f.status], bufs[s := f.data + bufs[s][|f.data|..]], done + [f], handled)
  {
    var s := Slot(|done|);
    var status', bufs', done' := status[s := f.status], bufs[s := f.data + bufs[s][|f.data|..]], done + [f];
    forall k: nat | handled <= k < |done'|
      ensures status'[Slot(k)] == done'[k].status && done'[k].data <= bufs'[Slot(k)]
    {
      if k < |done| { SlotsDiffer(k, |done|); }
    }
    forall k: nat | |done'| <= k < handled + DESCRIPTORS ensures Owned(status'[Slot(k)])
    {
      SlotsDiffer(|done|, k);
    }
  }

  lemma Released(status: seq<nat>, bufs: seq<seq<nat>>, done: seq<Frame>, handled: nat)
    requires Holds(status, bufs, done, handled) && handled < |done|
    ensures Holds(status[Slot(handled) := OWN], bufs, done, handled + 1)
  {
    var status' := status[Slot(handled) := OWN];
    forall k: nat | handled + 1 <= k < |done| ensures status'[Slot(k)] == done[k].status
    {
      SlotsDiffer(handled, k);
    }
    forall k: nat | |done| <= k < handled + 1 + DESCRIPTORS ensures Owned(status'[Slot(k)])
    {
      if k < handled + DESCRIPTORS { SlotsDiffer(handled, k); } else { assert Slot(k) == Slot(handled); }
    }
  }

  // ------------------------------------------------------------------
  // Whole runs of the DMA and the driver
  // ------------------------------------------------------------------

  datatype Op = Arrive(f: Frame) | Poll(hasBuffer: bool, size: nat)

  /** A plain queue of at most eight frames. */
  datatype Queue = Queue(frames: seq<Frame>, log: seq<Outcome>)

  function Next(q: Queue, op: Op): Queue {
    match op
    case Arrive(f) => if |q.frames| < DESCRIPTORS then q.(frames := q.frames + [f]) else q
    case Poll(hasBuffer, size) =>
      if !hasBuffer || size == 0 then q.(log := q.log + [Invalid])
      else if q.frames == [] then q.(log := q.log + [Again])
      else
        var f := q.frames[0];
        Queue(q.frames[1..], q.log + [if Errored(f.status) then IoError else Ok(Cut(Payload(f), size))])
  }

  function After(ops: seq<Op>): Queue {
    if ops == [] then Queue([], []) else Next(After(ops[..|ops| - 1]), ops[|ops| - 1])
  }

  /** One step of the ring against one step of the queue. */
  method Do(ring: Ring, op: Op, ghost log: seq<Outcome>) returns (r: seq<Outcome>)
    requires ring.Valid()
    modifies ring, ring.status, ring.bufs
    ensures ring.Valid()
    ensures Queue(ring.done[ring.handled..], log + r) == Next(Queue(old(ring.done[ring.handled..]), log), op)
  {
    r := [];
    match op {
      case Arrive(f) =>
        var taken := ring.Receive(f);
        assert log + [] == log;
        assert taken ==> ring.done[ring.handled..] == old(ring.done[ring.handled..]) + [f];
      case Poll(hasBuffer, size) =>
        ghost var h := ring.handled;
        var o := ring.PollRecv(hasBuffer, size);
        assert h < |ring.done| ==> ring.done[h..][1..] == ring.done[h + 1..];
        r := [o];
    }
  }

  /** Every run of the ring answers as the queue does. */
  method Serve(ops: seq<Op>) returns (log: seq<Outcome>)
    ensures log == After(ops).log
  {
    var ring := new Ring();
    log := [];
    assert ops[..0] == [];
    for i := 0 to |ops|
      invariant ring.Valid() && fresh(ring) && fresh(ring.status) && fresh(ring.bufs)
      invariant After(ops[..i]) == Queue(ring.done[ring.handled..], log)
    {
      assert ops[..i + 1][..i] == ops[..i];
      var r := Do(ring, ops[i], log);
      log := log + r;
    }
    assert ops[..|ops|] == ops;
  }

  /** The frames the ring took, in order of arrival. */
  function Taken(ops: seq<Op>): seq<Frame> {
    if ops == [] then []
    else
      var op, before := ops[|ops| - 1], ops[..|ops| - 1];
      Taken(before) + if op.Arrive? && |After(before).frames| < DESCRIPTORS then [op.f] else []
  }

  function Good(frames: seq<Frame>): seq<Frame> {
    if frames == [] then []
    else
      var f := frames[|frames| - 1];
      Good(frames[..|frames| - 1]) + if Errored(f.status) then [] else [f]
  }

  /** The data handed to the caller, in order. */
  function Delivered(log: seq<Outcome>): seq<seq<nat>> {
    if log == [] then []
    else
      var r := log[|log| - 1];
      Delivered(log[..|log| - 1]) + if r.Ok? then [r.data] else []
  }

  function Handled(log: seq<Outcome>): (n: nat)
    ensures n <= |log|
  {
    if log == [] then 0
    else
      var r := log[|log| - 1];
      Handled(log[..|log| - 1]) + if r.Ok? || r.IoError? then 1 else 0
  }

  /** Each delivery is the head of the payload of its frame. */
  ghost predicate Heads(out: seq<seq<nat>>, frames: seq<Frame>) {
    |out| == |frames| && forall k :: 0 <= k < |out| ==> out[k] <= Payload(frames[k])
  }

  /** What a run has delivered, and what it still holds, against the frames taken. */
  ghost predicate Told(q: Queue, taken: seq<Frame>) {
    var n := Handled(q.log);
    && n <= |taken| && q.frames == taken[n..] && |q.frames| <= DESCRIPTORS
    && Heads(Delivered(q.log), Good(taken[..n]))
  }

  lemma LogGrows(log: seq<Outcome>, r: Outcome)
    ensures Delivered(log + [r]) == Delivered(log) + if r.Ok? then [r.data] else []
    ensures Handled(log + [r]) == Handled(log) + if r.Ok? || r.IoError? then 1 else 0
  {
    assert (log + [r])[..|log|] == log;
  }

  lemma PollTells(q: Queue, taken: seq<Frame>, hasBuffer: bool, size: nat)
    requires Told(q, taken)
    ensures Told(Next(q, Poll(hasBuffer, size)), taken)
  {
    if !hasBuffer || size == 0 {
      LogGrows(q.log, Invalid);
    } else if q.frames == [] {
      LogGrows(q.log, Again);
    } else {
      HandledTells(q, taken, size);
    }
  }

  lemma HandledTells(q: Queue, taken: seq<Frame>, size: nat)
    requires Told(q, taken) && q.frames != [] && size != 0
    ensures Told(Next(q, Poll(true, size)), taken)
  {
    var n, f := Handled(q.log), q.frames[0];
    LogGrows(q.log, if Errored(f.status) then IoError else Ok(Cut(Payload(f), size)));
    assert taken[n] == f;
    assert taken[n + 1..] == taken[n..][1..];
    GoodGrows(taken, n);
    if !Errored(f.status) {
      HeadsGrow(Delivered(q.log), Good(taken[..n]), Cut(Payload(f), size), f);
    }
  }

  lemma HeadsGrow(out: seq<seq<nat>>, frames: seq<Frame>, d: seq<nat>, f: Frame)
    requires Heads(out, frames) && d <= Payload(f)
    ensures Heads(out + [d], frames + [f])
  {
  }

  lemma GoodGrows(taken: seq<Frame>, n: nat)
    requires n < |taken|
    ensures Good(taken[..n + 1]) == Good(taken[..n]) + if Errored(taken[n].status) then [] else [taken[n]]
  {
    assert taken[..n + 1][..n] == taken[..n];
  }

  /** Whatever the interleaving of arrivals and polls: what was handed out is, in order and
      each once, the good ones among the frames handled so far; those are a prefix of the
      frames taken, and the rest still waits in the ring. */
  lemma {:induction false} GoodFramesInOrderOnce(ops: seq<Op>)
    ensures Told(After(ops), Taken(ops))
  {
    if ops != [] {
      var before, op := ops[..|ops| - 1], ops[|ops| - 1];
      GoodFramesInOrderOnce(before);
      var q, n, taken := After(before), Handled(After(before).log), Taken(before);
      if op.Arrive? {
        assert Taken(ops)[..n] == taken[..n];
      } else {
        PollTells(q, taken, op.hasBuffer, op.size);
        assert Taken(ops) == taken;
      }
    }
  }
}
