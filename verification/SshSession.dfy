/** The SSH session machine (template/net/ssh_server.c): one session at a time, driven by
    lwIP callbacks and by polling. wolfSSH and lwIP are represented by the results their
    calls return. */
module SshSession {
  import opened SshRing

  datatype State = Idle | Accept | Run | Sftp | Closing

  /** What wolfSSH_accept() reports in one poll. */
  datatype Handshake = Shell(banner: seq<nat>) | SftpReady | WantIo | SftpInErrorSlot | Fatal

  /** What one pass of the read loop in RUN yields: text the shell printed for the decrypted
      bytes (and whether it asked to close), nothing more for now, or the end. */
  datatype Read = Text(output: seq<nat>, close: bool) | NothingMore | EndOfFile | ReadError

  /** What one pass of the SFTP pump yields. */
  datatype Request = Served(replyPending: bool) | Blocked(replyPending: bool) | Rekeying | ChannelClosed | SftpError

  datatype AcceptResult = BadArgument | Aborted | Admitted

  const READS: nat := 64
  const REQUESTS: nat := 16

  // ------------------------------------------------------------------
  // The machine, as transitions of a value
  // ------------------------------------------------------------------

  /** The server seen from outside: the session's fields, every byte queued for the stream
      and how many of them it received, every byte received from the client and how many
      wolfSSH took, and how many sessions were ever admitted. */
  datatype View = View(state: State, ssh: bool, pcb: bool, wantClose: bool, queued: seq<nat>, sent: nat,
                       received: seq<nat>, taken: nat, admitted: nat)

  /** The session invariant. */
  ghost predicate Good(v: View) {
    && v.sent <= |v.queued| <= v.sent + SIZE && v.taken <= |v.received| <= v.taken + SIZE
    && (v.state == Idle <==> !v.ssh) && (v.ssh <==> v.pcb) && v.state != Closing
    && (v.state == Idle ==> v == Cleared(v))
  }

  /** memset(&s_sess, 0, sizeof(s_sess)) without a wolfSSH object. */
  function Cleared(v: View): View {
    View(Idle, false, false, false, [], 0, [], 0, v.admitted)
  }

  /** What of `data` a ring with that much room keeps. */
  function Fit(data: seq<nat>, room: nat): seq<nat> {
    if |data| <= room then data else data[..room]
  }

  function TxRoom(v: View): (n: nat)
    requires Good(v)
  {
    SIZE - (|v.queued| - v.sent)
  }

  /** The text that the reads of one poll queue, up to the first that is not text. */
  function Printed(passes: seq<Read>, room: nat): (text: seq<nat>)
    ensures |text| <= room
    decreases |passes|
  {
    if passes == [] || !passes[0].Text? then []
    else
      var text := Fit(passes[0].output, room);
      text + Printed(passes[1..], room - |text|)
  }

  /** Some read up to there asked to close, or the last one ended the stream. */
  predicate CloseAsked(passes: seq<Read>)
    decreases |passes|
  {
    passes != [] &&
    match passes[0]
    case Text(_, close) => close || CloseAsked(passes[1..])
    case NothingMore => false
    case EndOfFile => true
    case ReadError => true
  }

  /** The pump comes to a request that ends the session before one that blocks. */
  predicate PumpEnds(requests: seq<Request>)
    decreases |requests|
  {
    requests != [] &&
    match requests[0]
    case ChannelClosed => true
    case SftpError => true
    case Blocked(pending) => pending && PumpEnds(requests[1..])
    case _ => PumpEnds(requests[1..])
  }

  function First<T>(s: seq<T>, n: nat): (r: seq<T>)
    ensures |r| <= n && r <= s
  {
    if |s| > n then s[..n] else s
  }

  /** Every callback and poll. OnIoRecv is wolfSSH's read callback. */
  datatype Event =
    | OnAccept(error: bool, hasPcb: bool, sshCreated: bool)
    | OnErr
    | OnRecv(error: bool, closed: bool, data: seq<nat>)
    | OnIoRecv(max: nat)
    | OnPoll(h: Handshake, passes: seq<Read>, sends: seq<int>, requests: seq<Request>)

  function AfterAccept(v: View, error: bool, hasPcb: bool, sshCreated: bool): View {
    if error || !hasPcb || v.state != Idle then v
    else if !sshCreated then Cleared(v)
    else Cleared(v).(state := Accept, ssh := true, pcb := true, admitted := v.admitted + 1)
  }

  function AfterRecv(v: View, error: bool, closed: bool, data: seq<nat>): View
    requires Good(v)
  {
    if error || v.state == Idle then v
    else if closed then v.(wantClose := true)
    else v.(received := v.received + Fit(data, SIZE - (|v.received| - v.taken)))
  }

  function AfterIoRecv(v: View, max: nat): View
    requires Good(v)
  {
    v.(taken := if |v.received| - v.taken <= max then |v.received| else v.taken + max)
  }

  function AfterHandshake(v: View, h: Handshake): View
    requires Good(v)
  {
    match h
    case Shell(banner) => v.(state := Run, queued := v.queued + Fit(banner, TxRoom(v)))
    case SftpReady => v.(state := Sftp)
    case SftpInErrorSlot => v.(state := Sftp)
    case WantIo => v
    case Fatal => Cleared(v)
  }

  /** A poll in RUN before the decision to close: the reads, then the flush. */
  function AfterReads(v: View, passes: seq<Read>, sends: seq<int>): (r: View)
    requires Good(v)
    ensures r.sent <= |r.queued| <= r.sent + SIZE && v.queued <= r.queued && v.sent <= r.sent
  {
    var queued := v.queued + Printed(First(passes, READS), TxRoom(v));
    var n := SentBytes(|queued| - v.sent, v.sent % SIZE, Allowed(sends));
    v.(queued := queued, sent := v.sent + n, wantClose := v.wantClose || CloseAsked(First(passes, READS)))
  }

  function AfterRun(v: View, passes: seq<Read>, sends: seq<int>): View
    requires Good(v)
  {
    var r := AfterReads(v, passes, sends);
    if r.wantClose && r.sent == |r.queued| then Cleared(r) else r
  }

  function AfterSftp(v: View, requests: seq<Request>): View {
    if v.wantClose || PumpEnds(First(requests, REQUESTS)) then Cleared(v) else v
  }

  function Next(v: View, e: Event): (r: View)
    requires Good(v)
    ensures Good(r)
  {
    match e
    case OnAccept(error, hasPcb, sshCreated) => AfterAccept(v, error, hasPcb, sshCreated)
    case OnErr => Cleared(v)
    case OnRecv(error, closed, data) => AfterRecv(v, error, closed, data)
    case OnIoRecv(max) => AfterIoRecv(v, max)
    case OnPoll(h, passes, sends, requests) =>
      match v.state
      case Accept => AfterHandshake(v, h)
      case Run => AfterRun(v, passes, sends)
      case Sftp => AfterSftp(v, requests)
      case _ => v
  }

  function After(v: View, events: seq<Event>): (r: View)
    requires Good(v)
    ensures Good(r)
  {
    if events == [] then v else Next(After(v, events[..|events| - 1]), events[|events| - 1])
  }

  // ------------------------------------------------------------------
  // The code
  // ------------------------------------------------------------------

  class Server {
    var state: State
    var ssh: bool     // the wolfSSH object exists
    var pcb: bool     // the session's TCP PCB is attached
    var wantClose: bool
    const rx: Ring
    const tx: Ring
    var sessions: nat

    ghost function Seen(): View
      reads this, rx, tx
    {
      View(state, ssh, pcb, wantClose, tx.pushed, tx.popped, rx.pushed, rx.popped, sessions)
    }

    ghost predicate Rings()
      reads this, rx, rx.buf, tx, tx.buf
    {
      rx != tx && rx.buf != tx.buf && rx.Valid() && tx.Valid()
    }

    ghost predicate Valid()
      reads this, rx, rx.buf, tx, tx.buf
    {
      Rings() && Good(Seen())
    }

    constructor ()
      ensures Valid() && Seen() == View(Idle, false, false, false, [], 0, [], 0, 0)
    {
      state, ssh, pcb, wantClose, sessions := Idle, false, false, false, 0;
      rx := new Ring();
      tx := new Ring();
    }

    /** memset(&s_sess, 0, sizeof(s_sess)) */
    method Clear()
      requires Rings()
      modifies this`state, this`pcb, this`wantClose, rx, tx
      ensures Rings() && Seen() == Cleared(old(Seen())).(ssh := ssh)
    {
      rx.Reset();
      tx.Reset();
      state, pcb, wantClose := Idle, false, false;
    }

    /** ssh_close_session() */
    method CloseSession()
      requires Rings()
      modifies this, rx, tx
      ensures Valid() && Seen() == Cleared(old(Seen()))
    {
      ssh := false;
      Clear();
    }

    /** ssh_tcp_accept(): a connection is admitted from IDLE only. */
    method TcpAccept(error: bool, hasPcb: bool, sshCreated: bool) returns (r: AcceptResult)
      requires Valid()
      modifies this, rx, tx
      ensures Valid() && Seen() == AfterAccept(old(Seen()), error, hasPcb, sshCreated)
      ensures r == Admitted <==> !error && hasPcb && old(state) == Idle && sshCreated
      ensures r == BadArgument <==> error || !hasPcb
    {
      if error || !hasPcb {
        return BadArgument;
      }
      if state != Idle {
        return Aborted;
      }
      Clear();
      pcb := true;
      state := Accept;
      ssh := sshCreated;
      if !ssh {
        Clear();
        return Aborted;
      }
      sessions := sessions + 1;
      r := Admitted;
    }

    /** ssh_tcp_err(): lwIP has already freed the PCB. */
    method TcpErr()
      requires Valid()
      modifies this, rx, tx
      ensures Valid() && Seen() == Cleared(old(Seen()))
    {
      if ssh {
        ssh := false;
      }
      Clear();
    }

    /** ssh_tcp_recv(): the client's bytes, or its end of the connection. */
    method TcpRecv(error: bool, closed: bool, data: seq<nat>)
      requires Valid()
      requires state != Idle   // the callback is registered only with a session
      modifies this`wantClose, rx, rx.buf
      ensures Valid() && Seen() == AfterRecv(old(Seen()), error, closed, data)
    {
      if error {
        return;
      }
      if closed {
        wantClose := true;
        return;
      }
      rx.Push(data);
    }

    /** ssh_io_recv(): wolfSSH takes client bytes, oldest first; nothing means WANT_READ. */
    method IoRecv(max: nat) returns (data: seq<nat>)
      requires Valid()
      modifies rx
      ensures Valid() && Seen() == AfterIoRecv(old(Seen()), max)
      ensures data == rx.pushed[old(rx.popped)..rx.popped]
    {
      data := rx.Pop(max);
    }

    /** ssh_shell_out(): buffers what fits, never blocks. */
    method ShellOut(data: seq<nat>)
      requires Rings() && ssh
      modifies tx, tx.buf
      ensures Rings() && tx.popped == old(tx.popped)
      ensures tx.pushed == old(tx.pushed) + Fit(data, SIZE - (|old(tx.pushed)| - tx.popped))
    {
      if !ssh || |data| == 0 {
        return;
      }
      tx.Push(data);
    }

    /** ssh_advance() in ACCEPT: the banner is queued when the shell opens; a close request
        that is already there is not looked at. */
    method AdvanceAccept(h: Handshake)
      requires Valid() && state == Accept
      modifies this, rx, tx, tx.buf
      ensures Valid() && Seen() == AfterHandshake(old(Seen()), h)
    {
      match h {
        case Shell(banner) =>
          state := Run;
          ShellOut(banner);
        case SftpReady =>
          state := Sftp;
        case WantIo =>
        case SftpInErrorSlot =>
          state := Sftp;
        case Fatal =>
          CloseSession();
      }
    }

    /** The read loop of ssh_advance() in RUN. */
    method Reads(passes: seq<Read>)
      requires Rings() && ssh
      modifies this`wantClose, tx, tx.buf
      ensures Rings() && tx.popped == old(tx.popped)
      ensures tx.pushed == old(tx.pushed) + Printed(First(passes, READS), SIZE - (|old(tx.pushed)| - tx.popped))
      ensures wantClose == (old(wantClose) || CloseAsked(First(passes, READS)))
    {
      var k := 0;
      ghost var all, room: nat := First(passes, READS), SIZE - (|tx.pushed| - tx.popped);
      ghost var left, total, asked := all, tx.pushed + Printed(all, room), wantClose || CloseAsked(all);
      while k < READS && k < |passes|
        invariant 0 <= k <= |all| && Rings() && left == all[k..] && tx.popped == old(tx.popped)
        invariant Reading(tx.pushed, wantClose, left, room, total, asked)
        invariant room == SIZE - (|tx.pushed| - tx.popped)
      {
        var stop := ReadOne(passes[k], left, room, total, asked);
        if stop {
          return;
        }
        k := k + 1;
        room := SIZE - (|tx.pushed| - tx.popped);
        left := left[1..];
      }
    }

    /** One pass of that loop, which may be its last. */
    method ReadOne(pass: Read, ghost left: seq<Read>, ghost room: nat, ghost total: seq<nat>, ghost asked: bool)
      returns (stop: bool)
      requires Rings() && ssh && room == SIZE - (|tx.pushed| - tx.popped)
      requires left != [] && pass == left[0] && Reading(tx.pushed, wantClose, left, room, total, asked)
      modifies this`wantClose, tx, tx.buf
      ensures Rings() && tx.popped == old(tx.popped)
      ensures stop ==> tx.pushed == total && wantClose == asked
      ensures !stop ==> var room' := SIZE - (|tx.pushed| - tx.popped);
                        room' >= 0 && Reading(tx.pushed, wantClose, left[1..], room', total, asked)
    {
      ReadingOne(tx.pushed, wantClose, left, room, total, asked);
      stop := true;
      match pass {
        case Text(output, close) =>
          stop := false;
          ShellOut(output);
          if close {
            wantClose := true;
          }
        case NothingMore =>
        case EndOfFile =>
          wantClose := true;
        case ReadError =>
          wantClose := true;
      }
    }

    /** The reads and the flush of a poll in RUN. */
    method ReadAndFlush(passes: seq<Read>, sends: seq<int>) returns (out: seq<nat>)
      requires Valid() && state == Run
      modifies this`wantClose, tx, tx.buf
      ensures Rings() && Seen() == AfterReads(old(Seen()), passes, sends)
      ensures out == Streamed(old(Seen()), passes, sends)
    {
      ghost var v := Seen();
      Reads(passes);
      ghost var queued := v.queued + Printed(First(passes, READS), TxRoom(v));
      assert tx.pushed == queued && tx.popped == v.sent;
      out := tx.Flush(sends);
    }

    /** ssh_advance() in RUN: up to 64 reads, then a flush, then the close if one was asked
        for and the ring is empty. `out` is what the stream received. */
    method AdvanceRun(passes: seq<Read>, sends: seq<int>) returns (out: seq<nat>)
      requires Valid() && state == Run
      modifies this, rx, tx, tx.buf
      ensures Valid() && Seen() == AfterRun(old(Seen()), passes, sends)
      ensures out == Streamed(old(Seen()), passes, sends)
      ensures var r := AfterReads(old(Seen()), passes, sends);
              state == Idle <==> r.wantClose && r.sent == |r.queued|
    {
      out := ReadAndFlush(passes, sends);
      var used := tx.Used();
      if wantClose && used == 0 {
        CloseSession();
      }
    }

    /** ssh_advance() in SFTP: the request pump, at most 16 passes. */
    method AdvanceSftp(requests: seq<Request>)
      requires Valid() && state == Sftp
      modifies this, rx, tx
      ensures Valid() && Seen() == AfterSftp(old(Seen()), requests)
    {
      var k := 0;
      ghost var all, v := First(requests, REQUESTS), Seen();
      while k < REQUESTS && k < |requests|
        invariant 0 <= k <= |all| && Valid() && Seen() == v
        invariant PumpEnds(all[k..]) == PumpEnds(all)
      {
        assert all[k..][1..] == all[k + 1..];
        match requests[k] {
          case Blocked(pending) =>
            if !pending {
              break;
            }
          case Rekeying =>
          case ChannelClosed =>
            wantClose := true;
            break;
          case SftpError =>
            wantClose := true;
            break;
          case Served(_) =>
        }
        k := k + 1;
      }
      if wantClose {
        CloseSession();
      }
    }

    /** ssh_server_poll(): only an active session advances. */
    method Poll(h: Handshake, passes: seq<Read>, sends: seq<int>, requests: seq<Request>) returns (out: seq<nat>)
      requires Valid()
      modifies this, rx, tx, tx.buf
      ensures Valid() && Seen() == Next(old(Seen()), OnPoll(h, passes, sends, requests))
      ensures out == if old(state) == Run then Streamed(old(Seen()), passes, sends) else []
    {
      out := [];
      match state {
        case Accept => AdvanceAccept(h);
        case Run => out := AdvanceRun(passes, sends);
        case Sftp => AdvanceSftp(requests);
        case _ =>
      }
    }

    /** One event. */
    method Handle(e: Event) returns (out: seq<nat>)
      requires Valid()
      modifies this, rx, rx.buf, tx, tx.buf
      ensures Valid() && Seen() == Next(old(Seen()), e) && out == Streams(old(Seen()), e)
    {
      out := [];
      match e {
        case OnAccept(error, hasPcb, sshCreated) =>
          var _ := TcpAccept(error, hasPcb, sshCreated);
        case OnErr =>
          TcpErr();
        case OnRecv(error, closed, data) =>
          if state != Idle {
            TcpRecv(error, closed, data);
          }
        case OnIoRecv(max) =>
          var _ := IoRecv(max);
        case OnPoll(h, passes, sends, requests) =>
          out := Poll(h, passes, sends, requests);
      }
    }
  }

  /** The state of the read loop: what the passes left will still queue and ask for. */
  ghost predicate Reading(queued: seq<nat>, close: bool, left: seq<Read>, room: nat, total: seq<nat>, asked: bool) {
    total == queued + Printed(left, room) && asked == (close || CloseAsked(left))
  }

  lemma ReadingOne(queued: seq<nat>, close: bool, left: seq<Read>, room: nat, total: seq<nat>, asked: bool)
    requires left != [] && Reading(queued, close, left, room, total, asked)
    ensures match left[0]
            case Text(output, more) =>
              var text := Fit(output, room);
              Reading(queued + text, close || more, left[1..], room - |text|, total, asked)
            case NothingMore => total == queued && asked == close
            case EndOfFile => total == queued && asked
            case ReadError => total == queued && asked
  {
  }

  /** The bytes a poll in RUN hands to the stream. */
  function Streamed(v: View, passes: seq<Read>, sends: seq<int>): seq<nat>
    requires Good(v)
  {
    var r := AfterReads(v, passes, sends);
    r.queued[v.sent..r.sent]
  }

  /** The text an event queues, and the bytes it hands to the stream. */
  function Prints(v: View, e: Event): seq<nat>
    requires Good(v)
  {
    if !e.OnPoll? then []
    else if v.state == Accept && e.h.Shell? then Fit(e.h.banner, TxRoom(v))
    else if v.state == Run then Printed(First(e.passes, READS), TxRoom(v))
    else []
  }

  function Streams(v: View, e: Event): seq<nat>
    requires Good(v)
  {
    if e.OnPoll? && v.state == Run then Streamed(v, e.passes, e.sends) else []
  }

  // ------------------------------------------------------------------
  // Whole runs
  // ------------------------------------------------------------------

  /** Any sequence of events leaves the server where the transitions say; `out` is what the
      stream received in each. */
  method Session(server: Server, events: seq<Event>) returns (out: seq<seq<nat>>)
    requires server.Valid()
    modifies server, server.rx, server.rx.buf, server.tx, server.tx.buf
    ensures server.Valid() && server.Seen() == After(old(server.Seen()), events)
    ensures |out| == |events| && forall k :: 0 <= k < |events| ==> Heard(old(server.Seen()), events, k, out[k])
  {
    out := [];
    ghost var v := server.Seen();
    assert events[..0] == [];
    for i := 0 to |events|
      invariant server.Valid() && server.Seen() == After(v, events[..i])
      invariant |out| == i && forall k :: 0 <= k < i ==> Heard(v, events, k, out[k])
    {
      AfterOne(v, events, i);
      var bytes := server.Handle(events[i]);
      out := out + [bytes];
    }
    assert events[..|events|] == events;
  }

  /** What the stream heard in the k-th event. */
  ghost predicate Heard(v: View, events: seq<Event>, k: nat, bytes: seq<nat>)
    requires Good(v) && k < |events|
  {
    bytes == Streams(After(v, events[..k]), events[k])
  }

  lemma AfterOne(v: View, events: seq<Event>, i: nat)
    requires Good(v) && i < |events|
    ensures After(v, events[..i + 1]) == Next(After(v, events[..i]), events[i])
  {
    assert events[..i + 1][..i] == events[..i];
  }

  /** In every run: the state is IDLE exactly while there is no wolfSSH object and no PCB. */
  lemma SessionInvariant(v: View, events: seq<Event>)
    requires Good(v)
    ensures var r := After(v, events); (r.state == Idle <==> !r.ssh) && (r.ssh <==> r.pcb)
  {
  }

  /** A session is admitted only by an accept event that finds the server IDLE; it starts
      with nothing queued, received or asked. */
  lemma AdmittedOnlyFromIdle(v: View, events: seq<Event>, k: nat)
    requires Good(v) && k < |events|
    ensures var before, after, e := After(v, events[..k]), After(v, events[..k + 1]), events[k];
            && (after.admitted > before.admitted <==>
                e.OnAccept? && !e.error && e.hasPcb && e.sshCreated && before.state == Idle)
            && (after.admitted > before.admitted ==>
                after == Cleared(before).(state := Accept, ssh := true, pcb := true, admitted := before.admitted + 1))
            && (before.state == Idle && after.state != Idle ==> after.admitted > before.admitted)
  {
    assert events[..k + 1][..k] == events[..k];
  }

  /** What the running session has printed, and what the stream received from it. */
  datatype Life = Life(printed: seq<nat>, streamed: seq<nat>)

  function LifeOf(v: View, events: seq<Event>): Life
    requires Good(v)
  {
    if events == [] then Life([], [])
    else
      var before, e := events[..|events| - 1], events[|events| - 1];
      var at, life := After(v, before), LifeOf(v, before);
      if at.state == Idle then Life([], [])
      else Life(life.printed + Prints(at, e), life.streamed + Streams(at, e))
  }

  /** The accounts of a running session. */
  ghost predicate Accounted(v: View, life: Life) {
    v.sent <= |v.queued| && v.queued == life.printed && v.queued[..v.sent] == life.streamed
  }

  lemma RunAccounts(v: View, life: Life, passes: seq<Read>, sends: seq<int>)
    requires Good(v) && v.state == Run && Accounted(v, life)
    ensures var r := AfterReads(v, passes, sends);
            Accounted(r, Life(life.printed + Printed(First(passes, READS), TxRoom(v)),
                              life.streamed + Streamed(v, passes, sends)))
  {
    var r := AfterReads(v, passes, sends);
    assert r.queued[..r.sent] == r.queued[..v.sent] + r.queued[v.sent..r.sent];
    assert r.queued[..v.sent] == v.queued[..v.sent];
  }

  lemma EventAccounts(v: View, life: Life, e: Event)
    requires Good(v) && v.state != Idle && Accounted(v, life) && Next(v, e).state != Idle
    ensures Accounted(Next(v, e), Life(life.printed + Prints(v, e), life.streamed + Streams(v, e)))
  {
    if v.state == Run && e.OnPoll? {
      RunAccounts(v, life, e.passes, e.sends);
    } else {
      assert life.streamed + [] == life.streamed;
      assert !(e.OnPoll? && v.state == Accept && e.h.Shell?) ==> life.printed + [] == life.printed;
      assert Next(v, e).queued[..v.sent] == v.queued[..v.sent];
    }
  }

  /** In every run, what the stream received from the session is a prefix of what the
      session printed and could buffer. */
  lemma {:induction false} StreamIsPrefix(v: View, events: seq<Event>)
    requires Good(v) && v.state == Idle
    ensures After(v, events).state != Idle ==> Accounted(After(v, events), LifeOf(v, events))
    decreases |events|
  {
    if events != [] {
      var before, e := events[..|events| - 1], events[|events| - 1];
      StreamIsPrefix(v, before);
      var at := After(v, before);
      if at.state != Idle && Next(at, e).state != Idle {
        EventAccounts(at, LifeOf(v, before), e);
      }
    }
  }

  /** In every run, a shell session ends either by a TCP error, or in a poll after which a
      close was asked for and the stream has received everything the session printed; and
      then it does end. */
  lemma ShellEndsWhenAllIsSent(v: View, events: seq<Event>, e: Event)
    requires Good(v) && v.state == Idle && After(v, events).state == Run
    ensures var at, r, life := After(v, events), After(v, events + [e]), LifeOf(v, events + [e]);
            && (r.state == Run || r.state == Idle)
            && life.streamed <= life.printed
            && (r.state == Idle <==>
                  || e.OnErr?
                  || (e.OnPoll? && (at.wantClose || CloseAsked(First(e.passes, READS)))
                      && life.streamed == life.printed))
  {
    assert (events + [e])[..|events|] == events;
    StreamIsPrefix(v, events);
    var at, life := After(v, events), LifeOf(v, events);
    if e.OnPoll? {
      RunAccounts(at, life, e.passes, e.sends);
    }
  }
}
