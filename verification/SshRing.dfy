/** The byte rings of the SSH server (template/net/ssh_server.c): 8192 bytes indexed by
    free-running 32-bit counters that wrap around. */
module SshRing {
  const SIZE: nat := 8192
  const U32: nat := 0x1_0000_0000
  const CHUNK: nat := 1024
  const ROUNDS: nat := 64

  /** 32-bit subtraction. */
  function Sub32(a: nat, b: nat): nat
    requires a < U32 && b < U32
  {
    if a >= b then a - b else a + U32 - b
  }

  /** 32-bit addition of a small number. */
  function Add32(a: nat, b: nat): nat {
    (a + b) % U32
  }

  /** The counters' difference is the true distance, whatever wrapped in between. */
  lemma DistanceSurvivesWrap(head: nat, tail: nat)
    requires tail <= head < tail + U32
    ensures Sub32(head % U32, tail % U32) == head - tail
  {
    var q, r := tail / U32, tail % U32;
    assert tail == q * U32 + r;
    if r + (head - tail) < U32 {
      assert head == q * U32 + (r + (head - tail));
      assert head % U32 == r + (head - tail);
    } else {
      assert head == (q + 1) * U32 + (r + (head - tail) - U32);
      assert head % U32 == r + (head - tail) - U32;
    }
  }

  /** 8192 divides 2^32, so the slot of a counter does not jump when it wraps. */
  lemma SlotSurvivesWrap(x: nat)
    ensures (x % U32) % SIZE == x % SIZE
  {
    var q := x / U32;
    assert x == q * U32 + x % U32;
    assert x == SIZE * (524288 * q) + x % U32;
  }

  lemma CounterStep(x: nat, k: nat)
    ensures Add32(x % U32, k) == (x + k) % U32
  {
  }

  lemma Unread(p: nat, q: nat, k: nat)
    requires p <= k < q < p + SIZE
    ensures k % SIZE != q % SIZE
  {
  }

  /** How much of an offered chunk a stream_send result stands for. */
  function Accepted(result: int, chunk: nat): nat {
    if result <= 0 then 0 else if result <= chunk then result else chunk
  }

  /** A stream that takes whatever it is offered, round after round. */
  predicate TakesAll(results: seq<int>) {
    |results| >= ROUNDS && forall k :: 0 <= k < |results| ==> results[k] >= CHUNK
  }

  function Chunk(used: nat, idx: nat): (n: nat)
    requires idx < SIZE
    ensures n <= used && idx + n <= SIZE && n <= CHUNK
    ensures used > 0 ==> n > 0
  {
    var contig := SIZE - idx;
    var n := if used < contig then used else contig;
    if n > CHUNK then CHUNK else n
  }

  /** The array index after n bytes of a chunk that starts at idx. */
  function Moved(idx: nat, n: nat): (r: nat)
    requires idx + n <= SIZE
    ensures idx < SIZE ==> r < SIZE
  {
    if idx + n == SIZE then 0 else idx + n
  }

  lemma MovedSlot(popped: nat, n: nat)
    requires popped % SIZE + n <= SIZE
    ensures (popped + n) % SIZE == Moved(popped % SIZE, n)
  {
  }

  /** Rounds until the ring is empty when every chunk is taken whole. */
  function Rounds(used: nat, idx: nat): nat
    requires idx < SIZE
    decreases used
  {
    if used == 0 then 0
    else
      var n := Chunk(used, idx);
      1 + Rounds(used - n, Moved(idx, n))
  }

  /** Only the last chunk, and the one that ends at the end of the array, can be short. */
  lemma {:induction false} RoundsAreFew(used: nat, idx: nat)
    requires used <= SIZE && idx < SIZE
    ensures CHUNK * Rounds(used, idx) <= used + if idx + used <= SIZE then CHUNK - 1 else 2 * (CHUNK - 1)
    ensures Rounds(used, idx) < 10
    decreases used
  {
    if used > 0 {
      var n := Chunk(used, idx);
      RoundsAreFew(used - n, Moved(idx, n));
    }
  }

  /** The results of the rounds that ssh_flush_tx() allows itself. */
  function Allowed(results: seq<int>): (r: seq<int>)
    ensures |r| <= ROUNDS && r <= results
  {
    if |results| > ROUNDS then results[..ROUNDS] else results
  }

  /** The bytes that get through in a series of rounds: in each the stream accepts its part
      of one chunk, and the first round that yields nothing is the last. */
  function SentBytes(used: nat, idx: nat, results: seq<int>): (n: nat)
    requires idx < SIZE
    ensures n <= used
    decreases |results|
  {
    if used == 0 || results == [] then 0
    else
      var n := Accepted(results[0], Chunk(used, idx));
      if n == 0 then 0 else n + SentBytes(used - n, Moved(idx, n), results[1..])
  }

  lemma SentRound(used: nat, idx: nat, results: seq<int>, n: nat)
    requires idx < SIZE && used > 0 && results != [] && n == Accepted(results[0], Chunk(used, idx))
    ensures n <= used && idx + n <= SIZE
    ensures SentBytes(used, idx, results) == if n == 0 then 0 else n + SentBytes(used - n, Moved(idx, n), results[1..])
  {
  }

  lemma SentNone(used: nat, idx: nat, results: seq<int>)
    requires idx < SIZE
    ensures used == 0 || results == [] ==> SentBytes(used, idx, results) == 0
  {
  }

  /** The positive answers in front of the first one that is not positive, added up. */
  function Answered(answers: seq<int>): nat {
    if answers == [] || answers[0] <= 0 then 0 else answers[0] + Answered(answers[1..])
  }

  /** No answer exceeds what was offered: what is queued, up to the end of the 8192 slots, and
      at most 1024. `at` counts the bytes sent before. */
  predicate AnswersFit(used: nat, at: nat, answers: seq<int>)
    decreases |answers|
  {
    if used == 0 || answers == [] || answers[0] <= 0 then true
    else
      && answers[0] <= used && answers[0] <= 8192 - at % 8192 && answers[0] <= 1024
      && AnswersFit(used - answers[0], at + answers[0], answers[1..])
  }

  /** Partial sends add up: as long as no answer exceeds its chunk, what gets through is the sum
      of the answers, until the queue is empty. */
  lemma {:induction false} SentIsAnswered(used: nat, at: nat, answers: seq<int>)
    requires AnswersFit(used, at, answers)
    ensures SentBytes(used, at % SIZE, answers) ==
            if Answered(answers) < used then Answered(answers) else used
    decreases |answers|
  {
    if used > 0 && answers != [] && answers[0] > 0 {
      var n := answers[0];
      MovedSlot(at, n);
      SentRound(used, at % SIZE, answers, n);
      SentIsAnswered(used - n, at + n, answers[1..]);
    }
  }

  lemma FlushIsAnswered(used: nat, at: nat, results: seq<int>)
    ensures var answers := if |results| > 64 then results[..64] else results;
            AnswersFit(used, at, answers) ==>
              SentBytes(used, at % SIZE, Allowed(results)) ==
                if Answered(answers) < used then Answered(answers) else used
  {
    if AnswersFit(used, at, Allowed(results)) {
      SentIsAnswered(used, at, Allowed(results));
    }
  }

  /** A stream that takes whatever it is offered gets everything. */
  lemma WillingStreamGetsAll(used: nat, idx: nat, results: seq<int>)
    requires used <= SIZE && idx < SIZE && TakesAll(results)
    ensures SentBytes(used, idx, Allowed(results)) == used
  {
    RoundsAreFew(used, idx);
    WillingFrom(used, idx, Allowed(results));
  }

  lemma {:induction false} WillingFrom(used: nat, idx: nat, results: seq<int>)
    requires idx < SIZE && Rounds(used, idx) <= |results| && forall k :: 0 <= k < |results| ==> results[k] >= CHUNK
    ensures SentBytes(used, idx, results) == used
    decreases used
  {
    if used > 0 {
      var n := Chunk(used, idx);
      assert Accepted(results[0], n) == n;
      WillingFrom(used - n, Moved(idx, n), results[1..]);
    }
  }

  /** A chunk that does not cross the end of the array is a piece of the history. */
  lemma ChunkIsContiguous(mem: seq<nat>, pushed: seq<nat>, p: nat, n: nat)
    requires |mem| == SIZE && p + n <= |pushed| && p % SIZE + n <= SIZE
    requires forall k :: p <= k < |pushed| ==> mem[k % SIZE] == pushed[k]
    ensures mem[p % SIZE..p % SIZE + n] == pushed[p..p + n]
  {
    var a, b := mem[p % SIZE..p % SIZE + n], pushed[p..p + n];
    forall j | 0 <= j < n ensures a[j] == b[j]
    {
      assert (p + j) % SIZE == p % SIZE + j;
      assert mem[(p + j) % SIZE] == pushed[p + j];
    }
  }

  lemma Extend(h: seq<nat>, a: nat, b: nat, c: nat)
    requires a <= b <= c <= |h|
    ensures h[a..b] + h[b..c] == h[a..c]
  {
  }

  /** The accounts of ssh_flush_tx() with `at` bytes of the history h sent: what went out since
      `start`, and what the rounds that are left will still get through. */
  ghost predicate Accounts(h: seq<nat>, start: nat, at: nat, out: seq<nat>, rounds: seq<int>, rest: nat) {
    && start <= at <= |h| && out == h[start..at]
    && rest == SentBytes(|h| - at, at % SIZE, rounds)
  }

  lemma RoundAccounts(h: seq<nat>, start: nat, at: nat, out: seq<nat>, rounds: seq<int>, rest: nat, n: nat)
    requires Accounts(h, start, at, out, rounds, rest) && at < |h|
    requires n == Accepted(if rounds == [] then 0 else rounds[0], Chunk(|h| - at, at % SIZE))
    ensures n == 0 ==> rest == 0
    ensures n > 0 ==> rounds != [] && n <= rest && at + n <= |h|
    ensures n > 0 ==> Accounts(h, start, at + n, out + h[at..at + n], rounds[1..], rest - n)
  {
    if rounds != [] {
      SentRound(|h| - at, at % SIZE, rounds, n);
      MovedSlot(at, n);
      Extend(h, start, at, at + n);
    }
  }

  class Ring {
    const buf: array<nat>
    var head: nat
    var tail: nat

    /** Every byte ever accepted since the last reset, and how many were taken out. */
    ghost var pushed: seq<nat>
    ghost var popped: nat

    ghost predicate Valid()
      reads this, buf
    {
      && buf.Length == SIZE
      && popped <= |pushed| <= popped + SIZE
      && head == |pushed| % U32 && tail == popped % U32
      && forall k :: popped <= k < |pushed| ==> buf[k % SIZE] == pushed[k]
    }

    constructor ()
      ensures Valid() && fresh(buf) && pushed == [] && popped == 0
    {
      buf := new nat[SIZE];
      head, tail, pushed, popped := 0, 0, [], 0;
    }

    /** memset() of the session: the counters restart, the bytes are void. */
    method Reset()
      requires Valid()
      modifies this
      ensures Valid() && pushed == [] && popped == 0
    {
      head, tail, pushed, popped := 0, 0, [], 0;
    }

    /** tx_used(), rx_used() */
    method Used() returns (n: nat)
      requires Valid()
      ensures n == |pushed| - popped <= SIZE
    {
      DistanceSurvivesWrap(|pushed|, popped);
      n := Sub32(head, tail);
    }

    method PushByte(b: nat)
      requires Valid() && |pushed| < popped + SIZE
      modifies this, buf
      ensures Valid() && pushed == old(pushed) + [b] && popped == old(popped)
    {
      ghost var n := |pushed|;
      SlotSurvivesWrap(n);
      forall k | popped <= k < n ensures k % SIZE != n % SIZE { Unread(popped, n, k); }
      buf[head % SIZE] := b;
      CounterStep(n, 1);
      head := Add32(head, 1);
      pushed := pushed + [b];
    }

    /** The loops of rx_push() and ssh_shell_out(): bytes beyond the room are dropped. */
    method Push(data: seq<nat>)
      requires Valid()
      modifies this, buf
      ensures Valid() && popped == old(popped)
      ensures var room := SIZE - (|old(pushed)| - popped);
              pushed == old(pushed) + (if |data| <= room then data else data[..room])
    {
      for i := 0 to |data|
        invariant Valid() && popped == old(popped) && pushed == old(pushed) + data[..i]
      {
        var used := Used();
        if used >= SIZE {
          break;
        }
        PushByte(data[i]);
      }
      assert |data| == 0 ==> data == [];
      assert data[..|data|] == data;
    }

    /** rx_pop(): takes up to `max` bytes out, oldest first. */
    method Pop(max: nat) returns (dst: seq<nat>)
      requires Valid()
      modifies this
      ensures Valid() && pushed == old(pushed)
      ensures popped == old(popped) + |dst|
      ensures |dst| == if |pushed| - old(popped) <= max then |pushed| - old(popped) else max
      ensures dst == pushed[old(popped)..popped]
    {
      var n := Used();
      if n > max {
        n := max;
      }
      dst := [];
      for i := 0 to n
        invariant Valid() && pushed == old(pushed) && |dst| == i && popped == old(popped) + i
        invariant popped <= |pushed| && dst == pushed[old(popped)..popped]
        invariant old(popped) + n <= |pushed|
      {
        SlotSurvivesWrap(popped);
        dst := dst + [buf[tail % SIZE]];
        CounterStep(popped, 1);
        tail := Add32(tail, 1);
        popped := popped + 1;
      }
    }

    /** One round of ssh_flush_tx(): offers one contiguous chunk; the stream accepts the
        first `result` bytes of it, or nothing when `result` is an error or WANT_*. */
    method SendOnce(result: int) returns (sent: seq<nat>)
      requires Valid() && popped < |pushed|
      modifies this
      ensures Valid() && pushed == old(pushed) && popped == old(popped) + |sent|
      ensures sent == pushed[old(popped)..popped]
      ensures |sent| == Accepted(result, Chunk(|pushed| - old(popped), old(popped) % SIZE))
      ensures result <= 0 ==> sent == []
      ensures var used, room := |pushed| - old(popped), 8192 - old(popped) % 8192;
              var whole := if used < room then used else room;
              var chunk := if whole < 1024 then whole else 1024;
              && (0 < result <= chunk ==> |sent| == result)
              && (result > chunk ==> |sent| == chunk)
    {
      var idx := tail % SIZE;
      SlotSurvivesWrap(popped);
      var avail := Used();
      var chunk := Chunk(avail, idx);
      ghost var p := popped;
      ghost var mem := buf[..];
      ChunkIsContiguous(mem, pushed, p, chunk);
      var offered := buf[idx..idx + chunk];
      assert offered == pushed[p..p + chunk];
      var n: nat := Accepted(result, chunk);
      sent := offered[..n];
      CounterStep(p, n);
      tail := Add32(tail, n);
      popped := p + n;
    }

    /** One round, in the accounts of the whole flush. */
    method Round(result: int, ghost start: nat, ghost out: seq<nat>, ghost rounds: seq<int>, ghost rest: nat)
      returns (sent: seq<nat>)
      requires Valid() && popped < |pushed| && Accounts(pushed, start, popped, out, rounds, rest)
      requires result == if rounds == [] then 0 else rounds[0]
      modifies this
      ensures Valid() && pushed == old(pushed)
      ensures sent == [] ==> rest == 0 && popped == old(popped)
      ensures sent != [] ==>
                && rounds != [] && |sent| <= rest
                && Accounts(pushed, start, popped, out + sent, rounds[1..], rest - |sent|)
    {
      ghost var p := popped;
      sent := SendOnce(result);
      RoundAccounts(pushed, start, p, out, rounds, rest, |sent|);
    }

    /** ssh_flush_tx(): up to 64 rounds. `results[k]` is what the k-th stream_send returns
        (WANT_* and errors are not positive). `out` is what the stream received: the next
        bytes of the history, as many as the rounds accept. */
    method Flush(results: seq<int>) returns (out: seq<nat>)
      requires Valid()
      modifies this
      ensures Valid() && pushed == old(pushed)
      ensures popped == old(popped) + |out| && out == pushed[old(popped)..popped]
      ensures |out| == SentBytes(|pushed| - old(popped), old(popped) % SIZE, Allowed(results))
      ensures var used, answers := |pushed| - old(popped), if |results| > 64 then results[..64] else results;
              AnswersFit(used, old(popped), answers) ==>
                |out| == if Answered(answers) < used then Answered(answers) else used
    {
      out := [];
      var round := 0;
      var used := Used();
      ghost var start, rounds := popped, Allowed(results);
      ghost var total := SentBytes(|pushed| - popped, popped % SIZE, rounds);
      ghost var rest: nat := total;
      while used > 0 && round < ROUNDS
        invariant 0 <= round <= ROUNDS && Valid() && pushed == old(pushed)
        invariant Accounts(pushed, start, popped, out, rounds, rest) && total == |out| + rest
        invariant used == |pushed| - popped
        invariant rounds == if round <= |Allowed(results)| then Allowed(results)[round..] else []
        decreases ROUNDS - round
      {
        var sent := Round(if round < |results| then results[round] else 0, start, out, rounds, rest);
        if sent == [] {
          break;
        }
        out := out + sent;
        used := Used();
        round := round + 1;
        rounds, rest := rounds[1..], rest - |sent|;
      }
      SentNone(|pushed| - popped, popped % SIZE, rounds);
      FlushIsAnswered(|pushed| - start, start, results);
    }
  }
}
