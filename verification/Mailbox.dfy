/** The inter-core mailboxes (template/kernel/mailbox.c): a matrix of 64-slot rings, one
    per (source, destination) pair of cores, each operation run without interference.
    SpscRing shows that interleaving the two sides changes nothing. */
module Mailbox {
  const NUM_CORES: nat := 4
  const ENTRIES: nat := 64

  datatype Received = Empty | Message(src: nat, msg: nat)

  /** (i + 1) & MBX_MASK */
  function Next(i: nat): nat
    requires i < ENTRIES
  {
    (i + 1) % ENTRIES
  }

  class Matrix {
    const head: array2<nat>
    const tail: array2<nat>
    const dropped: array2<nat>
    const buf: array3<nat>

    ghost predicate Valid()
      reads this, head, tail
    {
      && head.Length0 == head.Length1 == NUM_CORES
      && tail.Length0 == tail.Length1 == NUM_CORES
      && dropped.Length0 == dropped.Length1 == NUM_CORES
      && buf.Length0 == buf.Length1 == NUM_CORES && buf.Length2 == ENTRIES
      && head != tail && head != dropped && tail != dropped
      && forall s, d :: 0 <= s < NUM_CORES && 0 <= d < NUM_CORES ==> head[s, d] < ENTRIES && tail[s, d] < ENTRIES
    }

    /** Number of unread messages from s to d. */
    ghost function Count(s: nat, d: nat): (n: nat)
      requires Valid() && s < NUM_CORES && d < NUM_CORES
      reads this, head, tail
      ensures n < ENTRIES
    {
      if head[s, d] >= tail[s, d] then head[s, d] - tail[s, d] else head[s, d] + ENTRIES - tail[s, d]
    }

    /** The unread messages from s to d, oldest first. */
    ghost function Queue(s: nat, d: nat): (q: seq<nat>)
      requires Valid() && s < NUM_CORES && d < NUM_CORES
      reads this, head, tail, buf
      ensures |q| == Count(s, d)
    {
      var n, t := Count(s, d), tail[s, d];
      seq(n, k requires 0 <= k < n reads buf => buf[s, d, (t + k) % ENTRIES])
    }

    /** mailbox_init() */
    constructor ()
      ensures Valid() && fresh(head) && fresh(tail) && fresh(dropped) && fresh(buf)
      ensures forall s, d :: 0 <= s < NUM_CORES && 0 <= d < NUM_CORES ==> Queue(s, d) == [] && dropped[s, d] == 0
    {
      head := new nat[NUM_CORES, NUM_CORES]((_, _) => 0);
      tail := new nat[NUM_CORES, NUM_CORES]((_, _) => 0);
      dropped := new nat[NUM_CORES, NUM_CORES]((_, _) => 0);
      buf := new nat[NUM_CORES, NUM_CORES, ENTRIES];
    }

    /** mailbox_send() from core `src`. A bad destination is refused without a trace; a
        full queue refuses the message and counts it. */
    method Send(src: nat, dst: nat, msg: nat) returns (ok: bool)
      requires Valid() && src < NUM_CORES
      modifies head, buf, dropped
      ensures Valid()
      ensures dst >= NUM_CORES ==> !ok
      ensures dst < NUM_CORES ==> ok == (|old(Queue(src, dst))| < 63)
      ensures dst < NUM_CORES ==> Queue(src, dst) == old(Queue(src, dst)) + if ok then [msg] else []
      ensures forall s, d :: 0 <= s < NUM_CORES && 0 <= d < NUM_CORES && (s != src || d != dst) ==>
                Queue(s, d) == old(Queue(s, d))
      ensures forall s, d :: 0 <= s < NUM_CORES && 0 <= d < NUM_CORES ==>
                dropped[s, d] == old(dropped[s, d]) + if s == src && d == dst && !ok then 1 else 0
    {
      if dst >= NUM_CORES {
        return false;
      }
      var h := head[src, dst];
      var next := Next(h);
      if next == tail[src, dst] {
        dropped[src, dst] := dropped[src, dst] + 1;
        return false;
      }
      buf[src, dst, h] := msg;
      head[src, dst] := next;
      ok := true;
    }

    /** mailbox_recv() on core `dst`. */
    method Recv(src: nat, dst: nat) returns (r: Received)
      requires Valid() && dst < NUM_CORES
      modifies tail
      ensures Valid()
      ensures src >= NUM_CORES ==> r == Empty
      ensures src < NUM_CORES ==>
                && r == (if old(Queue(src, dst)) == [] then Empty else Message(src, old(Queue(src, dst))[0]))
                && Queue(src, dst) == (if r == Empty then [] else old(Queue(src, dst))[1..])
      ensures forall s, d :: 0 <= s < NUM_CORES && 0 <= d < NUM_CORES && (s != src || d != dst) ==>
                Queue(s, d) == old(Queue(s, d))
    {
      if src >= NUM_CORES {
        return Empty;
      }
      if tail[src, dst] == head[src, dst] {
        return Empty;
      }
      ghost var q := Queue(src, dst);
      var t := tail[src, dst];
      r := Message(src, buf[src, dst, t]);
      assert q[0] == buf[src, dst, (t + 0) % ENTRIES];
      tail[src, dst] := Next(t);
      assert Queue(src, dst) == q[1..];
    }

    /** mailbox_recv_any(): the lowest-numbered source that has something, and only its
        oldest message. */
    method RecvAny(dst: nat) returns (r: Received)
      requires Valid() && dst < NUM_CORES
      modifies tail
      ensures Valid()
      ensures r == Empty <==> forall s :: 0 <= s < NUM_CORES ==> old(Queue(s, dst)) == []
      ensures r.Message? ==>
                && r.src < NUM_CORES && old(Queue(r.src, dst)) != [] && r.msg == old(Queue(r.src, dst))[0]
                && (forall s :: 0 <= s < r.src ==> old(Queue(s, dst)) == [])
      ensures forall s, d :: 0 <= s < NUM_CORES && 0 <= d < NUM_CORES ==>
                Queue(s, d) == if r.Message? && s == r.src && d == dst then old(Queue(s, d))[1..] else old(Queue(s, d))
    {
      for s := 0 to NUM_CORES
        invariant Valid()
        invariant forall u :: 0 <= u < s ==> old(Queue(u, dst)) == []
        invariant forall u, d :: 0 <= u < NUM_CORES && 0 <= d < NUM_CORES ==> Queue(u, d) == old(Queue(u, d))
      {
        r := Recv(s, dst);
        if r.Message? {
          return;
        }
      }
      r := Empty;
    }
  }
}
