/** The log of template/kernel/klog.c: one ring of entries per core and the budgeted drain.
    SpscRing covers the interleaving of a producer with the drain; here the rings are
    quiet while the drain runs. */
module Klog {
  import opened Arithmetic
  import opened KlogText
  import opened Strings

  const NUM_CORES: nat := 4
  const ENTRIES: nat := 256

  /** A log entry: the text buffer holds a terminated string, with whatever behind it. */
  datatype RawEntry = RawEntry(ts: nat, core: nat, text: seq<char>)

  type Entry = e: RawEntry | e.ts < WORD && e.core < WORD && '\0' in e.text
    witness RawEntry(0, 0, ['\0'])

  /** The characters before the terminator. */
  function Str(a: seq<char>): (s: Text)
    requires '\0' in a
    ensures Holds(a, s)
  {
    if a[0] == '\0' then "" else [a[0]] + Str(a[1..])
  }

  lemma StrIs(a: seq<char>, s: Text)
    requires Holds(a, s)
    ensures '\0' in a && Str(a) == s
  {
    assert a[|s|] == '\0';
    var t := Str(a);
    assert forall j :: 0 <= j < |s| ==> a[j] == s[j];
    assert forall j :: 0 <= j < |t| ==> a[j] == t[j];
    assert a[|t|] == '\0' && '\0' !in t && '\0' !in s;
    if |s| != |t| {
      assert false;
    }
  }

  function Shape(t: string, c: string, m: string): string {
    "[" + t + " c" + c + "] " + m + "\n"
  }

  /** What the drain prints for an entry. */
  function Line(e: Entry): string {
    Shape(Numeral(e.ts, 10), Numeral(e.core, 10), Str(e.text))
  }

  /** What the drain prints for a sequence of entries. */
  function Lines(es: seq<Entry>): string {
    if es == [] then "" else Lines(es[..|es| - 1]) + Line(es[|es| - 1])
  }

  lemma {:induction false} LinesConcat(a: seq<Entry>, b: seq<Entry>)
    ensures Lines(a + b) == Lines(a) + Lines(b)
    decreases |b|
  {
    if b == [] {
      assert a + b == a;
    } else {
      var c, e := b[..|b| - 1], b[|b| - 1];
      assert (a + b)[..|a + b| - 1] == a + c;
      LinesConcat(a, c);
      Regroup(Lines(a), Lines(c), Line(e));
    }
  }

  /** A string without `c` in front of one that starts with it can be told apart. */
  lemma SplitAt(x: string, y: string, x': string, y': string, c: char)
    requires c !in x && c !in x' && |y| > 0 && |y'| > 0 && y[0] == c == y'[0]
    requires x + y == x' + y'
    ensures x == x' && y == y'
  {
    var s := x + y;
    assert forall j :: 0 <= j < |x| ==> s[j] == x[j];
    assert s == x' + y' && forall j :: 0 <= j < |x'| ==> s[j] == x'[j];
    assert s[|x|] == c == s[|x'|];
    if |x| != |x'| {
      assert false;
    }
    assert x == s[..|x|] && x' == s[..|x|] && y == s[|x|..] && y' == s[|x|..];
  }

  /** From a printed line the time stamp, the core and the message read back. */
  lemma LineIdentifiesEntry(a: Entry, b: Entry)
    requires Line(a) == Line(b)
    ensures a.ts == b.ts && a.core == b.core && Str(a.text) == Str(b.text)
  {
    var ta, tb := Numeral(a.ts, 10), Numeral(b.ts, 10);
    var ca, cb := Numeral(a.core, 10), Numeral(b.core, 10);
    DecimalHasNoBracket(a.core);
    DecimalHasNoBracket(b.core);
    PartsOf(ta, ca, Str(a.text), tb, cb, Str(b.text));
    NumeralParses(a.ts, 10);
    NumeralParses(b.ts, 10);
    NumeralParses(a.core, 10);
    NumeralParses(b.core, 10);
  }

  lemma PartsOf(ta: string, ca: string, ma: string, tb: string, cb: string, mb: string)
    requires ' ' !in ta && ' ' !in tb && ']' !in ca && ']' !in cb
    requires Shape(ta, ca, ma) == Shape(tb, cb, mb)
    ensures ta == tb && ca == cb && ma == mb
  {
    var ua, ub := "] " + ma + "\n", "] " + mb + "\n";
    var ra, rb := " c" + ca + ua, " c" + cb + ub;
    assert Shape(ta, ca, ma)[1..] == ta + ra;
    assert Shape(tb, cb, mb)[1..] == tb + rb;
    SplitAt(ta, ra, tb, rb, ' ');
    assert ra[2..] == ca + ua && rb[2..] == cb + ub;
    SplitAt(ca, ua, cb, ub, ']');
    assert ma == ua[2..|ua| - 1] && mb == ub[2..|ub| - 1];
  }

  lemma {:induction false} DecimalHasNoBracket(v: nat)
    ensures ']' !in Numeral(v, 10)
  {
    if v >= 10 {
      DecimalHasNoBracket(v / 10);
    }
  }

  lemma StrStep(a: seq<char>, i: nat, out: string)
    requires i < |a| && a[i] != '\0' && '\0' in a[i..]
    ensures '\0' in a[i + 1..] && out + Str(a[i..]) == out + [a[i]] + Str(a[i + 1..])
  {
    assert a[i..] == [a[i]] + a[i + 1..];
    assert a[i..][1..] == a[i + 1..];
    Regroup(out, [a[i]], Str(a[i + 1..]));
  }

  /** uart_puts() of a buffer. */
  method PutS(a: seq<char>) returns (out: string)
    requires '\0' in a
    ensures out == Str(a)
  {
    out := "";
    var i := 0;
    while a[i] != '\0'
      invariant i < |a| && '\0' in a[i..] && out + Str(a[i..]) == Str(a)
      decreases |a| - i
    {
      StrStep(a, i, out);
      out := out + [a[i]];
      i := i + 1;
    }
  }

  /** The entries of the rings, first ring first. */
  function Flat(qs: seq<seq<Entry>>): seq<Entry> {
    if qs == [] then [] else Flat(qs[..|qs| - 1]) + qs[|qs| - 1]
  }

  /** How many of n entries a drain that has already emitted `spent` may still emit. */
  function Share(budget: nat, spent: nat, n: nat): (k: nat)
    ensures k <= n && (budget == 0 ==> k == n)
    ensures budget > 0 ==> (k == n <= budget - spent || k == budget - spent < n || k == 0 >= budget - spent)
  {
    if budget == 0 then n else if budget <= spent then 0 else if budget - spent < n then budget - spent else n
  }

  class Log {
    const head: array<nat>
    const tail: array<nat>
    const dropped: array<nat>
    const buf: array2<Entry>
    // The pending entries of each core, oldest first.
    ghost var queues: seq<seq<Entry>>

    ghost predicate Valid()
      reads this, head, tail, buf
    {
      && head.Length == tail.Length == dropped.Length == NUM_CORES
      && buf.Length0 == NUM_CORES && buf.Length1 == ENTRIES
      && head != tail && head != dropped && tail != dropped
      && |queues| == NUM_CORES
      && forall c :: 0 <= c < NUM_CORES ==> RingHolds(c, queues[c])
    }

    /** The slots from tail up to head hold the queue. */
    ghost predicate RingHolds(c: nat, q: seq<Entry>)
      requires head.Length == tail.Length == NUM_CORES && buf.Length0 == NUM_CORES && buf.Length1 == ENTRIES
      requires c < NUM_CORES
      reads this, head, tail, buf
    {
      && head[c] < ENTRIES && tail[c] < ENTRIES && |q| < ENTRIES
      && head[c] == Slot(tail[c], |q|)
      && forall k :: 0 <= k < |q| ==> buf[c, Slot(tail[c], k)] == q[k]
    }

    /** klog_init() */
    constructor ()
      ensures Valid() && fresh(head) && fresh(tail) && fresh(dropped) && fresh(buf)
      ensures queues == [[], [], [], []] && dropped[..] == [0, 0, 0, 0]
    {
      head := new nat[NUM_CORES](_ => 0);
      tail := new nat[NUM_CORES](_ => 0);
      dropped := new nat[NUM_CORES](_ => 0);
      buf := new Entry[NUM_CORES, ENTRIES];
      queues := [[], [], [], []];
    }

    /** The ring part of ring_push(): a full ring keeps its entries and counts the loss. */
    method Put(c: nat, e: Entry) returns (ok: bool)
      requires Valid() && c < NUM_CORES
      modifies this`queues, head, buf, dropped
      ensures Valid() && ok == (|old(queues)[c]| < 255)
      ensures queues == if ok then old(queues)[c := old(queues)[c] + [e]] else old(queues)
      ensures dropped[..] == if ok then old(dropped[..]) else old(dropped[..])[c := old(dropped[c]) + 1]
    {
      var h := head[c];
      var next := (h + 1) % ENTRIES;
      if next == tail[c] {
        dropped[c] := dropped[c] + 1;
        return false;
      }
      ghost var q := queues[c];
      SlotsApart(tail[c], |q|);
      assert RingHolds(c, q);
      buf[c, h] := e;
      head[c] := next;
      queues := queues[c := q + [e]];
      ok := true;
      assert RingHolds(c, q + [e]);
    }

    /** ring_push() on core c at time ts: the entry that joins the queue carries the stamp,
        the core and the composed text. */
    method Push(c: nat, ts: nat, msg: Text, withValue: bool, value: nat) returns (ok: bool)
      requires Valid() && c < NUM_CORES && ts < WORD && value < WORD
      modifies this`queues, head, buf, dropped
      ensures Valid() && ok == (|old(queues)[c]| < 255)
      ensures !ok ==> queues == old(queues) && dropped[..] == old(dropped[..])[c := old(dropped[c]) + 1]
      ensures ok ==> dropped[..] == old(dropped[..])
      ensures ok ==> exists e: Entry ::
                  && queues == old(queues)[c := old(queues)[c] + [e]] && e.ts == ts && e.core == c
                  && Str(e.text) == if withValue then WithValue(msg, value) else Cut(msg, MSG_MAXLEN - 1)
    {
      var text := Compose(msg, withValue, value);
      var e := RawEntry(ts, c, text);
      ok := Put(c, e);
    }

    predicate Pending(c: nat)
      requires Valid() && c < NUM_CORES
      reads this, head, tail, buf
      ensures Pending(c) <==> queues[c] != []
    {
      assert RingHolds(c, queues[c]);
      tail[c] != head[c]
    }

    function Oldest(c: nat): (e: Entry)
      requires Valid() && c < NUM_CORES && queues[c] != []
      reads this, head, tail, buf
      ensures e == queues[c][0]
    {
      assert RingHolds(c, queues[c]);
      assert queues[c][0] == buf[c, Slot(tail[c], 0)];
      buf[c, tail[c]]
    }

    /** The tail moves past the oldest entry. */
    method Advance(c: nat)
      requires Valid() && c < NUM_CORES && queues[c] != []
      modifies this`queues, tail
      ensures Valid() && queues == old(queues)[c := old(queues)[c][1..]]
    {
      ghost var q := queues[c];
      var t := tail[c];
      assert RingHolds(c, q);
      NextSlots(t);
      tail[c] := (t + 1) % ENTRIES;
      queues := queues[c := q[1..]];
      assert RingHolds(c, q[1..]);
    }

    /** The inner loop of the drain, over one ring. */
    method DrainRing(c: nat, budget: nat, spent: nat) returns (n: nat, out: string)
      requires Valid() && c < NUM_CORES
      modifies this`queues, tail
      ensures Valid() && n == Share(budget, spent, |old(queues)[c]|)
      ensures out == Lines(old(queues)[c][..n]) && queues == old(queues)[c := old(queues)[c][n..]]
    {
      n, out := 0, "";
      ghost var qs, q := queues, queues[c];
      while Pending(c)
        invariant Valid() && n <= Share(budget, spent, |q|) <= |q|
        invariant queues == qs[c := q[n..]] && out == Lines(q[..n])
        decreases |q| - n
      {
        if budget != 0 && spent + n >= budget {
          break;
        }
        var line := Print(Oldest(c));
        LinesGrow(q, n);
        out := out + line;
        Advance(c);
        n := n + 1;
      }
    }

    /** One round of the outer loop, in the account of the whole drain. */
    method DrainNext(c: nat, budget: nat, emitted: nat, out: string, ghost qs: seq<seq<Entry>>,
                     ghost given: seq<Entry>)
      returns (emitted': nat, out': string, ghost given': seq<Entry>)
      requires Valid() && c < NUM_CORES == |qs|
      requires After(qs, c, budget) == Account(queues, given) && emitted == |given| && out == Lines(given)
      modifies this`queues, tail
      ensures Valid()
      ensures After(qs, c + 1, budget) == Account(queues, given') && emitted' == |given'| && out' == Lines(given')
    {
      ghost var q := queues[c];
      var n, piece := DrainRing(c, budget, emitted);
      emitted', out', given' := emitted + n, out + piece, given + q[..n];
      LinesConcat(given, q[..n]);
    }

    /** klog_drain_budgeted(): the output is a prefix of all pending entries, first ring
        first: everything for budget 0, otherwise at most `budget` of them. The rings keep
        exactly the rest, each ring giving what the rings before it left of the budget. */
    method Drain(budget: nat) returns (emitted: nat, out: string)
      requires Valid()
      modifies this`queues, tail
      ensures Valid()
      ensures emitted == Share(budget, 0, |Flat(old(queues))|)
      ensures out == Lines(Flat(old(queues))[..emitted])
      ensures Flat(queues) == Flat(old(queues))[emitted..]
      ensures forall c :: 0 <= c < NUM_CORES ==> Gave(old(queues), queues, budget, c)
      ensures budget == 0 ==> emitted == |Flat(old(queues))| && queues == [[], [], [], []]
      ensures budget > 0 ==>
                emitted == if budget < |Flat(old(queues))| then budget else |Flat(old(queues))|
    {
      emitted, out := 0, "";
      ghost var qs, given: seq<Entry> := queues, [];
      var c := 0;
      while c < NUM_CORES
        invariant Valid() && c <= NUM_CORES == |qs|
        invariant After(qs, c, budget) == Account(queues, given) && emitted == |given| && out == Lines(given)
      {
        emitted, out, given := DrainNext(c, budget, emitted, out, qs, given);
        c := c + 1;
        if budget != 0 && emitted >= budget {
          break;
        }
      }
      DrainedAll(qs, c, budget);
    }
  }

  /** The rings, and the entries they gave to the drain. */
  datatype Account = Account(kept: seq<seq<Entry>>, given: seq<Entry>)

  /** The account after the first c rings. */
  function After(qs: seq<seq<Entry>>, c: nat, budget: nat): (a: Account)
    requires c <= |qs|
    ensures |a.kept| == |qs|
  {
    if c == 0 then Account(qs, [])
    else
      var a := After(qs, c - 1, budget);
      var q := a.kept[c - 1];
      var n := Share(budget, |a.given|, |q|);
      Account(a.kept[c - 1 := q[n..]], a.given + q[..n])
  }

  lemma {:induction false} AfterIsDrained(qs: seq<seq<Entry>>, c: nat, budget: nat)
    requires c <= |qs|
    ensures Drained(qs, After(qs, c, budget), c, budget)
  {
    if c == 0 {
      assert qs[..0] == [];
    } else {
      AfterIsDrained(qs, c - 1, budget);
      var a := After(qs, c - 1, budget);
      DrainedRing(qs, a, c - 1, budget, Share(budget, |a.given|, |a.kept[c - 1]|));
    }
  }

  lemma DrainedAll(qs: seq<seq<Entry>>, c: nat, budget: nat)
    requires |qs| == NUM_CORES && c <= NUM_CORES
    requires c == NUM_CORES || (budget != 0 && |After(qs, c, budget).given| >= budget)
    ensures var a := After(qs, c, budget);
            && |a.given| == Share(budget, 0, |Flat(qs)|)
            && a.given == Flat(qs)[..|a.given|] && Flat(a.kept) == Flat(qs)[|a.given|..]
            && (forall d :: 0 <= d < NUM_CORES ==> Gave(qs, a.kept, budget, d))
            && (budget == 0 ==> a.kept == [[], [], [], []])
  {
    var a := After(qs, c, budget);
    AfterIsDrained(qs, c, budget);
    EmitsNoMore(qs, a, c, budget);
    FlatAfter(qs, a.kept, budget);
    if budget == 0 {
      NothingKept(qs, a.kept);
    }
  }

  lemma NothingKept(qs: seq<seq<Entry>>, qs': seq<seq<Entry>>)
    requires |qs| == |qs'| == 4 && forall c :: 0 <= c < 4 ==> Gave(qs, qs', 0, c)
    ensures qs' == [[], [], [], []]
  {
    assert Gave(qs, qs', 0, 0) && Gave(qs, qs', 0, 1) && Gave(qs, qs', 0, 2) && Gave(qs, qs', 0, 3);
  }

  /** All pending entries: those of core 0, then those of core 1, 2 and 3. */
  lemma FlatOfFour(qs: seq<seq<Entry>>)
    requires |qs| == 4
    ensures Flat(qs) == qs[0] + qs[1] + qs[2] + qs[3]
  {
    var three, two, one := qs[..3], qs[..2], qs[..1];
    assert three[..2] == two && two[..1] == one && one[..0] == [];
    assert Flat(one) == [] + qs[0];
    assert Flat(two) == Flat(one) + qs[1];
    assert Flat(three) == Flat(two) + qs[2];
  }

  /** The slot of the k-th pending entry of a ring whose tail is t. */
  function Slot(t: nat, k: nat): (i: nat)
    ensures i < ENTRIES
  {
    (t + k) % ENTRIES
  }

  /** The slot for the next entry is none of the n before it. */
  lemma SlotsApart(t: nat, n: nat)
    requires t < ENTRIES && n < ENTRIES
    ensures forall k :: 0 <= k < n ==> Slot(t, k) != Slot(t, n)
    ensures (Slot(t, n) + 1) % ENTRIES == Slot(t, n + 1)
    ensures Slot(t, n + 1) == t <==> n == ENTRIES - 1
  {
  }

  lemma NextSlots(t: nat)
    requires t < ENTRIES
    ensures forall j: nat :: j >= 1 ==> Slot(t, j) == Slot((t + 1) % ENTRIES, j - 1)
  {
  }

  /** The text buffer that ring_push() fills. */
  method Compose(msg: Text, withValue: bool, value: nat) returns (text: seq<char>)
    requires value < WORD
    ensures '\0' in text
    ensures Str(text) == if withValue then WithValue(msg, value) else Cut(msg, MSG_MAXLEN - 1)
  {
    var a := new char[MSG_MAXLEN];
    CopyStr(a, msg, MSG_MAXLEN);
    assert a[..MSG_MAXLEN] == a[..];
    ghost var shown: Text := Cut(msg, MSG_MAXLEN - 1);
    if withValue {
      AppendHex(a, value, MSG_MAXLEN, shown);
      shown := WithValue(msg, value);
    }
    text := a[..MSG_MAXLEN];
    StrIs(text, shown);
  }

  /** The seven UART calls for one entry. */
  method Print(e: Entry) returns (line: string)
    ensures line == Line(e)
    ensures line == "[" + Numeral(e.ts, 10) + " c" + Numeral(e.core, 10) + "] " + Str(e.text) + "\n"
  {
    var ts := PutU64(e.ts);
    var core := PutU64(e.core);
    var text := PutS(e.text);
    line := "[" + ts + " c" + core + "] " + text + "\n";
  }

  /** Ring c gave its share of the budget, oldest entries first, and kept the rest. */
  ghost predicate Gave(qs: seq<seq<Entry>>, qs': seq<seq<Entry>>, budget: nat, c: nat)
    requires c < |qs| == |qs'|
  {
    qs'[c] == qs[c][Share(budget, |Flat(qs[..c])|, |qs[c]|)..]
  }

  lemma LinesGrow(q: seq<Entry>, n: nat)
    requires n < |q|
    ensures Lines(q[..n + 1]) == Lines(q[..n]) + Line(q[n])
  {
    assert q[..n + 1][..n] == q[..n];
  }

  /** What the drain was given of the entries of some rings. */
  ghost predicate Emits(all: seq<Entry>, budget: nat, given: seq<Entry>) {
    given == all[..Share(budget, 0, |all|)]
  }

  lemma FlatSnoc(qs: seq<seq<Entry>>, c: nat)
    requires c < |qs|
    ensures Flat(qs[..c + 1]) == Flat(qs[..c]) + qs[c]
  {
    assert qs[..c + 1][..c] == qs[..c];
  }

  lemma EmitsRing(before: seq<Entry>, q: seq<Entry>, budget: nat, given: seq<Entry>, n: nat)
    requires Emits(before, budget, given) && n == Share(budget, |given|, |q|)
    ensures n == Share(budget, |before|, |q|) && Emits(before + q, budget, given + q[..n])
  {
    PrefixShare(before, q, budget);
  }

  lemma PrefixShare(a: seq<Entry>, b: seq<Entry>, budget: nat)
    ensures var m, n := Share(budget, 0, |a|), Share(budget, |a|, |b|);
            && Share(budget, m, |b|) == n && Share(budget, 0, |a + b|) == m + n
            && (a + b)[..m + n] == a[..m] + b[..n]
  {
  }

  /** The state of the drain after the first c rings. */
  ghost predicate Drained(qs: seq<seq<Entry>>, a: Account, c: nat, budget: nat) {
    && c <= |qs| == |a.kept| && a.kept[c..] == qs[c..]
    && Emits(Flat(qs[..c]), budget, a.given)
    && forall d :: 0 <= d < c ==> Gave(qs, a.kept, budget, d)
  }

  lemma RestRing(qs: seq<seq<Entry>>, before: seq<seq<Entry>>, after: seq<seq<Entry>>, c: nat, q: seq<Entry>)
    requires c < |qs| == |before| && before[c..] == qs[c..] && after == before[c := q]
    ensures before[c] == qs[c] && after[c + 1..] == qs[c + 1..]
  {
    assert before[c] == before[c..][0];
    assert after[c + 1..] == before[c..][1..] == qs[c..][1..];
  }

  lemma DrainedRing(qs: seq<seq<Entry>>, a: Account, c: nat, budget: nat, n: nat)
    requires c < |qs| && Drained(qs, a, c, budget) && n == Share(budget, |a.given|, |a.kept[c]|)
    ensures Drained(qs, Account(a.kept[c := a.kept[c][n..]], a.given + a.kept[c][..n]), c + 1, budget)
  {
    var after := a.kept[c := a.kept[c][n..]];
    RestRing(qs, a.kept, after, c, a.kept[c][n..]);
    FlatSnoc(qs, c);
    EmitsRing(Flat(qs[..c]), qs[c], budget, a.given, n);
    GavesRing(qs, a.kept, after, c, budget, n);
  }

  lemma GavesRing(qs: seq<seq<Entry>>, before: seq<seq<Entry>>, after: seq<seq<Entry>>, c: nat, budget: nat, n: nat)
    requires c < |qs| == |before| && n <= |qs[c]| && n == Share(budget, |Flat(qs[..c])|, |qs[c]|)
    requires after == before[c := qs[c][n..]] && forall d :: 0 <= d < c ==> Gave(qs, before, budget, d)
    ensures forall d :: 0 <= d < c + 1 ==> Gave(qs, after, budget, d)
  {
    forall d | 0 <= d < c + 1 ensures Gave(qs, after, budget, d)
    {
      assert d < c ==> Gave(qs, before, budget, d);
    }
  }

  /** Once the budget is spent the remaining rings add nothing. */
  lemma {:induction false} EmitsNoMore(qs: seq<seq<Entry>>, a: Account, c: nat, budget: nat)
    requires Drained(qs, a, c, budget)
    requires c == |qs| || (budget != 0 && |a.given| >= budget)
    ensures Drained(qs, a, |qs|, budget) && qs[..|qs|] == qs
    decreases |qs| - c
  {
    if c < |qs| {
      DrainedRing(qs, a, c, budget, 0);
      assert a.kept[c := a.kept[c][0..]] == a.kept && a.given + a.kept[c][..0] == a.given;
      EmitsNoMore(qs, a, c + 1, budget);
    }
  }

  /** If each ring lost its share, all of them together lost a prefix. */
  lemma {:induction false} FlatAfter(qs: seq<seq<Entry>>, qs': seq<seq<Entry>>, budget: nat)
    requires |qs'| == |qs|
    requires forall c :: 0 <= c < |qs| ==> Gave(qs, qs', budget, c)
    ensures Flat(qs') == Flat(qs)[Share(budget, 0, |Flat(qs)|)..]
  {
    if qs != [] {
      var c := |qs| - 1;
      forall d | 0 <= d < c ensures Gave(qs[..c], qs'[..c], budget, d)
      {
        assert Gave(qs, qs', budget, d) && qs[..c][..d] == qs[..d];
      }
      FlatAfter(qs[..c], qs'[..c], budget);
      assert Gave(qs, qs', budget, c);
    }
  }
}
