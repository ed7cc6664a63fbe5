/** The transitions of the SSH session written out: what each outcome of the handshake, each
    read, each SFTP request and each callback leads to, with the numbers of the source. */
module SshSessionLaws {
  import opened SshRing
  import opened SshSession

  /** The server between sessions; only the count of sessions survives. */
  function IdleServer(admitted: nat): View {
    View(Idle, false, false, false, [], 0, [], 0, admitted)
  }

  /** As much of the data as a ring of 8192 bytes takes with `used` of them occupied. */
  function Kept(data: seq<nat>, used: nat): seq<nat>
    requires used <= 8192
  {
    if |data| <= 8192 - used then data else data[..8192 - used]
  }

  // ------------------------------------------------------------------
  // Callbacks
  // ------------------------------------------------------------------

  /** A connection that is not admitted changes nothing, whatever the reason. */
  lemma RefusalChangesNothing(v: View, error: bool, hasPcb: bool, sshCreated: bool)
    requires Good(v) && (error || !hasPcb || v.state != Idle || !sshCreated)
    ensures Next(v, OnAccept(error, hasPcb, sshCreated)) == v
  {
    assert v.state == Idle ==> v == Cleared(v);
  }

  /** Bytes from the client are buffered while they fit; an end of the connection is only
      remembered; without a session nothing happens. */
  lemma ReceiveOutcomes(v: View, data: seq<nat>, max: nat)
    requires Good(v)
    ensures forall closed :: Next(v, OnRecv(true, closed, data)) == v
    ensures v.state == Idle ==> forall error, closed :: Next(v, OnRecv(error, closed, data)) == v
    ensures v.state != Idle ==> Next(v, OnRecv(false, true, data)) == v.(wantClose := true)
    ensures v.state != Idle ==>
              Next(v, OnRecv(false, false, data)) ==
                v.(received := v.received + Kept(data, |v.received| - v.taken))
    ensures var r, waiting := Next(v, OnIoRecv(max)), |v.received| - v.taken;
            r == v.(taken := v.taken + if waiting < max then waiting else max)
  {
  }

  /** The PCB is gone: so is the session. */
  lemma ErrorEndsSession(v: View)
    requires Good(v)
    ensures Next(v, OnErr) == IdleServer(v.admitted)
  {
  }

  // ------------------------------------------------------------------
  // ACCEPT
  // ------------------------------------------------------------------

  /** What a poll during the handshake leads to. A close request that is already there changes
      nothing about it. */
  lemma HandshakeOutcomes(v: View, h: Handshake, passes: seq<Read>, sends: seq<int>, requests: seq<Request>)
    requires Good(v) && v.state == Accept
    ensures var r := Next(v, OnPoll(h, passes, sends, requests));
            && (h.Shell? ==>
                  r == v.(state := Run, queued := v.queued + Kept(h.banner, |v.queued| - v.sent)))
            && (h.SftpReady? || h.SftpInErrorSlot? ==> r == v.(state := Sftp))
            && (h.WantIo? ==> r == v)
            && (h.Fatal? ==> r == IdleServer(v.admitted))
  {
  }

  // ------------------------------------------------------------------
  // RUN
  // ------------------------------------------------------------------

  /** The text of the passes in front of the first that brings none. */
  function Output(passes: seq<Read>): seq<nat> {
    if passes == [] || !passes[0].Text? then [] else passes[0].output + Output(passes[1..])
  }

  /** A pass that ends the session: the shell asked for it, or the channel ended or failed. */
  predicate Closes(p: Read) {
    (p.Text? && p.close) || p == EndOfFile || p == ReadError
  }

  /** The read loop comes to pass k: all before it brought text. */
  ghost predicate Reaches(passes: seq<Read>, k: nat)
    requires k < |passes|
  {
    forall j :: 0 <= j < k ==> passes[j].Text?
  }

  /** One of the passes that the read loop comes to ends the session. */
  ghost predicate SomeCloses(passes: seq<Read>) {
    exists k :: 0 <= k < |passes| && Reaches(passes, k) && Closes(passes[k])
  }

  lemma {:induction false} PrintedIsOutput(passes: seq<Read>, used: nat)
    requires used <= 8192
    ensures Printed(passes, 8192 - used) == Kept(Output(passes), used)
    decreases |passes|
  {
    if passes != [] && passes[0].Text? {
      var room, text, more := 8192 - used, passes[0].output, Output(passes[1..]);
      if |text| <= room {
        PrintedIsOutput(passes[1..], used + |text|);
        KeptSplit(text, more, used);
      } else {
        assert Fit(text, room) == text[..room] == (text + more)[..room];
        PrintedIsOutput(passes[1..], 8192);
        assert text[..room] + [] == text[..room];
      }
    }
  }

  lemma KeptSplit(text: seq<nat>, more: seq<nat>, used: nat)
    requires used + |text| <= 8192
    ensures Kept(text + more, used) == text + Kept(more, used + |text|)
  {
    var room := 8192 - used;
    if |text| + |more| > room {
      assert (text + more)[..room] == text + more[..room - |text|];
    }
  }

  lemma {:induction false} CloseAskedIff(passes: seq<Read>)
    ensures CloseAsked(passes) <==> SomeCloses(passes)
    decreases |passes|
  {
    if passes != [] {
      CloseAskedIff(passes[1..]);
      CloseShift(passes);
    }
  }

  lemma CloseShift(passes: seq<Read>)
    requires passes != []
    ensures SomeCloses(passes) <==> Closes(passes[0]) || (passes[0].Text? && SomeCloses(passes[1..]))
  {
    var rest := passes[1..];
    if k :| 0 <= k < |passes| && Reaches(passes, k) && Closes(passes[k]) {
      if k > 0 {
        assert forall j :: 0 <= j < k - 1 ==> rest[j] == passes[j + 1];
        assert Reaches(rest, k - 1) && Closes(rest[k - 1]);
      }
    }
    if passes[0].Text? && SomeCloses(rest) {
      var k :| 0 <= k < |rest| && Reaches(rest, k) && Closes(rest[k]);
      assert forall j :: 0 < j < k + 1 ==> passes[j] == rest[j - 1];
      assert Reaches(passes, k + 1) && Closes(passes[k + 1]);
    }
    assert Reaches(passes, 0);
  }

  /** A poll of a shell session: the first 64 reads queue their text as far as it fits, the
      flush sends some of it, and the session ends if a close was asked for, now or before,
      and nothing is left to send. */
  lemma ShellOutcomes(v: View, h: Handshake, passes: seq<Read>, sends: seq<int>, requests: seq<Request>)
    requires Good(v) && v.state == Run
    ensures var heard := if |passes| > 64 then passes[..64] else passes;
            var queued := v.queued + Kept(Output(heard), |v.queued| - v.sent);
            var sent := v.sent + SentBytes(|queued| - v.sent, v.sent % 8192, Allowed(sends));
            var asked := v.wantClose || SomeCloses(heard);
            Next(v, OnPoll(h, passes, sends, requests)) ==
              if asked && sent == |queued| then IdleServer(v.admitted)
              else v.(queued := queued, sent := sent, wantClose := asked)
  {
    ReadsOutcome(v, passes, sends);
  }

  lemma ReadsOutcome(v: View, passes: seq<Read>, sends: seq<int>)
    requires Good(v)
    ensures var heard := if |passes| > 64 then passes[..64] else passes;
            var queued := v.queued + Kept(Output(heard), |v.queued| - v.sent);
            AfterReads(v, passes, sends) ==
              v.(queued := queued, sent := v.sent + SentBytes(|queued| - v.sent, v.sent % 8192, Allowed(sends)),
                 wantClose := v.wantClose || SomeCloses(heard))
  {
    var heard := First(passes, 64);
    PrintedIsOutput(heard, |v.queued| - v.sent);
    CloseAskedIff(heard);
  }

  // ------------------------------------------------------------------
  // SFTP
  // ------------------------------------------------------------------

  /** Request k is the first that stops the pump: every one before it was served, or waits
      with a reply still to go, or is a key exchange. */
  ghost predicate Pumps(requests: seq<Request>, k: nat)
    requires k < |requests|
  {
    forall j :: 0 <= j < k ==> GoesOn(requests[j])
  }

  predicate GoesOn(q: Request) {
    q.Served? || q == Rekeying || (q.Blocked? && q.replyPending)
  }

  predicate Ends(q: Request) {
    q == ChannelClosed || q == SftpError
  }

  /** One of the requests that the pump comes to ends the session. */
  ghost predicate SomeEnds(requests: seq<Request>) {
    exists k :: 0 <= k < |requests| && Pumps(requests, k) && Ends(requests[k])
  }

  lemma {:induction false} PumpEndsIff(requests: seq<Request>)
    ensures PumpEnds(requests) <==> SomeEnds(requests)
    decreases |requests|
  {
    if requests != [] {
      PumpEndsIff(requests[1..]);
      PumpShift(requests);
    }
  }

  lemma PumpShift(requests: seq<Request>)
    requires requests != []
    ensures SomeEnds(requests) <==> Ends(requests[0]) || (GoesOn(requests[0]) && SomeEnds(requests[1..]))
  {
    var rest := requests[1..];
    if k :| 0 <= k < |requests| && Pumps(requests, k) && Ends(requests[k]) {
      if k > 0 {
        assert forall j :: 0 <= j < k - 1 ==> rest[j] == requests[j + 1];
        assert Pumps(rest, k - 1) && Ends(rest[k - 1]);
      }
    }
    if GoesOn(requests[0]) && SomeEnds(rest) {
      var k :| 0 <= k < |rest| && Pumps(rest, k) && Ends(rest[k]);
      assert forall j :: 0 < j < k + 1 ==> requests[j] == rest[j - 1];
      assert Pumps(requests, k + 1) && Ends(requests[k + 1]);
    }
    assert Pumps(requests, 0);
  }

  /** A poll of an SFTP session ends it exactly if a close was pending or one of the first 16
      requests ends it before the pump stops; otherwise it changes nothing here. */
  lemma SftpOutcomes(v: View, h: Handshake, passes: seq<Read>, sends: seq<int>, requests: seq<Request>)
    requires Good(v) && v.state == Sftp
    ensures var turn := if |requests| > 16 then requests[..16] else requests;
            Next(v, OnPoll(h, passes, sends, requests)) ==
              if v.wantClose || SomeEnds(turn) then IdleServer(v.admitted) else v
  {
    PumpEndsIff(First(requests, 16));
  }
}
