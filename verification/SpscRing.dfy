/** The lock-free single-producer single-consumer ring of template/kernel/mailbox.c and
    template/kernel/klog.c, at the level of single memory accesses: every read or write
    of head, tail and of a slot is one step, and the two sides interleave freely. The
    ring has n slots (64 for a mailbox, 256 for a log ring). */
module SpscRing {
  import opened Arithmetic

  /** The sender: idle; has read head; saw the ring full; saw room; wrote its slot. */
  datatype SendPc<T> = SIdle | SHead(msg: T, h: nat) | SFull | SRoom(msg: T, h: nat) | SWrote(msg: T, h: nat)

  /** The receiver: idle; has read tail; saw a message; has read it. */
  datatype RecvPc<T> = RIdle | RTail(t: nat) | RReady(t: nat) | RGot(msg: T)

  /** Shared memory, the two program counters, and the history: what was accepted and
      received, and how many messages the ring held each time it was found full. */
  datatype State<T> = State(buf: seq<T>, head: nat, tail: nat, dropped: nat,
                            s: SendPc<T>, r: RecvPc<T>,
                            accepted: seq<T>, received: seq<T>, foundFull: seq<nat>)

  datatype Action<T> =
    | SendCall(msg: T) | SendTail | SendDrop | SendWrite | SendPublish
    | RecvCall | RecvHead | RecvRead | RecvAdvance

  /** (i + 1) & (n - 1) for the power-of-two sizes of the source. */
  function Next(i: nat, n: nat): nat
  {
    if i + 1 == n then 0 else i + 1
  }

  /** What the ring really holds. */
  function Queue<T>(x: State<T>): seq<T>
    requires |x.received| <= |x.accepted|
  {
    x.accepted[|x.received|..]
  }

  ghost predicate Step<T(!new)>(n: nat, x: State<T>, a: Action<T>, y: State<T>) {
    match a
    case SendCall(msg) =>
      x.s.SIdle? && y == x.(s := SHead(msg, x.head))
    case SendTail =>
      && x.s.SHead?
      && y == if Next(x.s.h, n) == x.tail
              then x.(s := SFull, foundFull := x.foundFull + [if |x.received| <= |x.accepted| then |Queue(x)| else 0])
              else x.(s := SRoom(x.s.msg, x.s.h))
    case SendDrop =>
      x.s.SFull? && y == x.(s := SIdle, dropped := x.dropped + 1)
    case SendWrite =>
      x.s.SRoom? && x.s.h < |x.buf| && y == x.(s := SWrote(x.s.msg, x.s.h), buf := x.buf[x.s.h := x.s.msg])
    case SendPublish =>
      x.s.SWrote? && y == x.(s := SIdle, head := Next(x.s.h, n), accepted := x.accepted + [x.s.msg])
    case RecvCall =>
      x.r.RIdle? && y == x.(r := RTail(x.tail))
    case RecvHead =>
      x.r.RTail? && y == x.(r := if x.r.t == x.head then RIdle else RReady(x.r.t))
    case RecvRead =>
      x.r.RReady? && x.r.t < |x.buf| && y == x.(r := RGot(x.buf[x.r.t]))
    case RecvAdvance =>
      x.r.RGot? && y == x.(r := RIdle, tail := Next(x.tail, n), received := x.received + [x.r.msg])
  }

  ghost predicate Inv<T(!new)>(n: nat, x: State<T>) {
    var a, c := |x.accepted|, |x.received|;
    && n >= 2 && |x.buf| == n
    && x.head == a % n && x.tail == c % n
    && c <= a < c + n
    && x.received == x.accepted[..c]
    && (forall k :: c <= k < a ==> x.buf[k % n] == x.accepted[k])
    && (match x.s
        case SIdle => true
        case SFull => true
        case SHead(_, h) => h == x.head
        case SRoom(_, h) => h == x.head && a - c < n - 1
        case SWrote(msg, h) => h == x.head && a - c < n - 1 && x.buf[h] == msg)
    && (match x.r
        case RIdle => true
        case RTail(t) => t == x.tail
        case RReady(t) => t == x.tail && c < a
        case RGot(msg) => c < a && msg == x.accepted[c])
    && (forall k :: 0 <= k < |x.foundFull| ==> x.foundFull[k] == n - 1)
    && |x.foundFull| == x.dropped + if x.s.SFull? then 1 else 0
  }

  ghost predicate Init<T(!new)>(n: nat, x: State<T>) {
    && n >= 2 && |x.buf| == n && x.head == x.tail == x.dropped == 0
    && x.s.SIdle? && x.r.RIdle? && x.accepted == [] && x.received == [] && x.foundFull == []
  }

  lemma ModNext(a: nat, n: nat)
    requires n >= 2
    ensures (a + 1) % n == Next(a % n, n)
  {
    var q, r := a / n, a % n;
    assert a == q * n + r;
    if r + 1 == n {
      assert a + 1 == (q + 1) * n;
      DivModIs(a + 1, q + 1, 0, n);
    } else {
      DivModIs(a + 1, q, r + 1, n);
    }
  }

  /** Positions less than n apart use different slots. */
  lemma ModDistinct(i: nat, j: nat, n: nat)
    requires n >= 1 && i < j < i + n
    ensures i % n != j % n
  {
    var q, r := i / n, i % n;
    assert i == q * n + r;
    if r + (j - i) < n {
      DivModIs(j, q, r + (j - i), n);
    } else {
      assert j == (q + 1) * n + (r + (j - i) - n);
      DivModIs(j, q + 1, r + (j - i) - n, n);
    }
  }

  /** The sender's comparison next == tail, when it holds a fresh head. */
  lemma FullMeansFull(a: nat, c: nat, n: nat)
    requires n >= 2 && c <= a < c + n
    ensures Next(a % n, n) == c % n <==> a - c == n - 1
  {
    ModNext(a, n);
    if a - c == n - 1 {
      assert a + 1 == c + n;
      assert (c + n) % n == c % n by {
        DivModIs(c + n, c / n + 1, c % n, n);
      }
    } else {
      ModDistinct(c, a + 1, n);
    }
  }

  lemma WriteKeepsUnread<T>(x: State<T>, n: nat)
    requires n >= 2 && |x.received| <= |x.accepted| < |x.received| + n
    ensures forall k :: |x.received| <= k < |x.accepted| ==> k % n != |x.accepted| % n
  {
    forall k | |x.received| <= k < |x.accepted| ensures k % n != |x.accepted| % n
    {
      ModDistinct(k, |x.accepted|, n);
    }
  }

  lemma SendKeepsInv<T(!new)>(n: nat, x: State<T>, a: Action<T>, y: State<T>)
    requires Inv(n, x) && Step(n, x, a, y)
    requires a.SendCall? || a.SendTail? || a.SendDrop? || a.SendWrite? || a.SendPublish?
    ensures Inv(n, y)
  {
    if a.SendWrite? {
      WriteKeepsUnread(x, n);
    } else if a.SendTail? {
      FullMeansFull(|x.accepted|, |x.received|, n);
    } else if a.SendPublish? {
      ModNext(|x.accepted|, n);
    }
  }

  lemma RecvKeepsInv<T(!new)>(n: nat, x: State<T>, a: Action<T>, y: State<T>)
    requires Inv(n, x) && Step(n, x, a, y)
    requires a.RecvCall? || a.RecvHead? || a.RecvRead? || a.RecvAdvance?
    ensures Inv(n, y)
  {
    if a.RecvAdvance? {
      ModNext(|x.received|, n);
    }
  }

  /** Every step of either side keeps the invariant. */
  lemma StepKeepsInv<T(!new)>(n: nat, x: State<T>, a: Action<T>, y: State<T>)
    requires Inv(n, x) && Step(n, x, a, y)
    ensures Inv(n, y)
  {
    if a.RecvCall? || a.RecvHead? || a.RecvRead? || a.RecvAdvance? {
      RecvKeepsInv(n, x, a, y);
    } else {
      SendKeepsInv(n, x, a, y);
    }
  }

  ghost predicate IsRun<T(!new)>(n: nat, xs: seq<State<T>>, acts: seq<Action<T>>) {
    && |xs| == |acts| + 1
    && Init(n, xs[0])
    && forall k :: 0 <= k < |acts| ==> Step(n, xs[k], acts[k], xs[k + 1])
  }

  /** Over every interleaving: what was received is a prefix of what was accepted, at most
      n - 1 messages are in between and each still sits unchanged in its slot, and every
      dropped message was refused at an instant when the ring held exactly n - 1. */
  lemma {:induction false} InterleavingsAreFifo<T(!new)>(n: nat, xs: seq<State<T>>, acts: seq<Action<T>>, k: nat)
    requires IsRun(n, xs, acts) && k < |xs|
    ensures Inv(n, xs[k])
    ensures xs[k].received <= xs[k].accepted && |Queue(xs[k])| <= n - 1
    ensures forall i :: 0 <= i < |xs[k].foundFull| ==> xs[k].foundFull[i] == n - 1
    ensures xs[k].dropped <= |xs[k].foundFull|
  {
    if k > 0 {
      InterleavingsAreFifo(n, xs, acts, k - 1);
      StepKeepsInv(n, xs[k - 1], acts[k - 1], xs[k]);
    }
  }

  /** Each step is, seen as a bounded FIFO, nothing, an enqueue with room, or a dequeue of
      the oldest; a receive that finds nothing does so while the FIFO is empty. */
  lemma StepRefinesFifo<T(!new)>(n: nat, x: State<T>, a: Action<T>, y: State<T>)
    requires Inv(n, x) && Step(n, x, a, y)
    ensures |y.received| <= |y.accepted|
    ensures match a
            case SendPublish => |Queue(x)| < n - 1 && Queue(y) == Queue(x) + [x.s.msg]
            case RecvAdvance => |Queue(x)| > 0 && x.r.msg == Queue(x)[0] && Queue(y) == Queue(x)[1..]
            case RecvHead => Queue(y) == Queue(x) && (y.r.RIdle? <==> |Queue(x)| == 0)
            case SendTail => Queue(y) == Queue(x) && (y.s.SFull? <==> |Queue(x)| == n - 1)
            case _ => Queue(y) == Queue(x)
  {
    StepKeepsInv(n, x, a, y);
    if a.SendTail? {
      FullMeansFull(|x.accepted|, |x.received|, n);
    } else if a.RecvHead? && |x.received| < |x.accepted| {
      ModDistinct(|x.received|, |x.accepted|, n);
    }
  }
}
