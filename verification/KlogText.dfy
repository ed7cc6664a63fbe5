/** The text handling of the log (template/kernel/klog.c): bounded copy, appended hexadecimal
    value and decimal output, on NUL-terminated buffers. */
module KlogText {
  import opened Arithmetic
  import opened Strings

  const MSG_MAXLEN: nat := 96
  const WORD: nat := 0x1_0000_0000_0000_0000

  /** The buffer holds the string and its terminator. */
  ghost predicate Holds(a: seq<char>, s: Text) {
    |s| < |a| && s <= a && a[|s|] == '\0'
  }

  function Cut(s: Text, n: nat): (r: Text)
    ensures r <= s && |r| == if |s| > n then n else |s|
  {
    if |s| > n then s[..n] else s
  }

  lemma Words()
    ensures Power(16, 16) == WORD && WORD < Power(10, 20)
  {
    assert Power(16, 4) == 0x1_0000;
    assert Power(16, 8) == 0x1_0000_0000;
    assert Power(16, 12) == 0x1_0000_0000_0000;
    assert Power(10, 5) == 100_000;
    assert Power(10, 10) == 10_000_000_000;
    assert Power(10, 15) == 1_000_000_000_000_000;
    assert Power(10, 20) == 100_000_000_000_000_000_000;
  }

  // ------------------------------------------------------------------
  // copy_str
  // ------------------------------------------------------------------

  /** copy_str(); a null source reads as the empty string. */
  method CopyStr(dst: array<char>, src: Text, n: nat)
    requires n <= dst.Length
    modifies dst
    ensures n > 0 ==> Holds(dst[..], Cut(src, n - 1))
    ensures dst[if n == 0 then 0 else |Cut(src, n - 1)| + 1..]
        == old(dst[if n == 0 then 0 else |Cut(src, n - 1)| + 1..])
  {
    if n == 0 {
      return;
    }
    var i := 0;
    while i < |src| && i < n - 1
      invariant i <= |src| && i <= n - 1
      invariant dst[..i] == src[..i]
      invariant dst[i..] == old(dst[i..])
    {
      dst[i] := src[i];
      i := i + 1;
    }
    dst[i] := '\0';
    assert Cut(src, n - 1) == src[..i];
  }

  // ------------------------------------------------------------------
  // append_hex
  // ------------------------------------------------------------------

  /** The digits of v that fit in `room` characters: the most significant ones. */
  function Shown(v: nat, room: nat): (s: Text)
    ensures |s| <= room
  {
    Cut(Numeral(v, 16), room)
  }

  /** What append_hex() appends to a string of n characters in a buffer of cap. */
  function Appended(v: nat, n: nat, cap: nat): Text {
    if n + 3 >= cap then "" else "0x" + Shown(v, cap - 3 - n)
  }

  /** What is left of v above its i lowest hexadecimal digits. */
  function Top(v: nat, i: nat): nat {
    v / Power(16, i)
  }

  /** The state of the digit loop after the digits above position i. */
  function Upto(v: nat, i: nat, room: nat): Text {
    if Top(v, i) == 0 then "" else Shown(Top(v, i), room)
  }

  lemma DivDiv(v: nat, m: nat)
    requires m >= 1
    ensures v / (16 * m) == v / m / 16
  {
    var q, r := v / m, v % m;
    assert v == m * q + r;
    assert m * q == m * (16 * (q / 16) + q % 16) == 16 * m * (q / 16) + m * (q % 16);
    MulMonotone(m, q % 16, 15);
    var rest := m * (q % 16) + r;
    assert v == 16 * m * (q / 16) + rest && 0 <= rest < 16 * m;
    DivModIs(v, q / 16, rest, 16 * m);
  }

  lemma TopStep(v: nat, i: nat)
    ensures Top(v, i + 1) == Top(v, i) / 16 && Top(v, 0) == v
  {
    DivDiv(v, Power(16, i));
  }

  lemma ShownStep(p: nat, room: nat)
    requires room > 0
    ensures p >= 16 && |Shown(p / 16, room)| < room ==> Shown(p, room) == Shown(p / 16, room) + [Digit(p % 16)]
    ensures p >= 16 && |Shown(p / 16, room)| == room ==> Shown(p, room) == Shown(p / 16, room)
    ensures p < 16 ==> Shown(p, room) == [Digit(p)]
  {
  }

  lemma UptoStep(v: nat, i: nat, room: nat)
    requires |Upto(v, i + 1, room)| < room
    ensures var nib := Top(v, i) % 16;
            (if i == 0 then Shown(v, room) else Upto(v, i, room))
            == Upto(v, i + 1, room) + if nib != 0 || Top(v, i + 1) != 0 || i == 0 then [Digit(nib)] else ""
  {
    TopStep(v, i);
    ShownStep(Top(v, i), room);
  }

  lemma {:induction false} UptoFull(v: nat, i: nat, room: nat)
    requires |Upto(v, i, room)| >= room > 0
    ensures Shown(v, room) == Upto(v, i, room)
    decreases i
  {
    if i > 0 {
      TopStep(v, i - 1);
      ShownStep(Top(v, i - 1), room);
      UptoFull(v, i - 1, room);
    }
  }

  /** append_hex(): on a terminated buffer it appends as many of the leading hexadecimal
      digits as fit, or nothing when not even one would. */
  method AppendHex(dst: array<char>, v: nat, cap: nat, ghost s: Text)
    requires cap <= dst.Length && v < WORD && Holds(dst[..cap], s)
    modifies dst
    ensures Holds(dst[..cap], s + Appended(v, |s|, cap))
  {
    var len := Length(dst, cap, s);
    if len + 3 >= cap {
      return;
    }
    dst[len], dst[len + 1] := '0', 'x';
    len := len + 2;
    assert dst[..len] == s + "0x";
    Digits(dst, len, v, cap);
    assert dst[..cap][..len] == dst[..len] == s + "0x" && dst[..cap][len..] == dst[len..cap];
    HoldsConcat(dst[..cap], s + "0x", Shown(v, cap - 1 - len));
    Regroup(s, "0x", Shown(v, cap - 1 - len));
  }

  lemma HoldsConcat(a: seq<char>, pre: Text, s: Text)
    requires |pre| <= |a| && a[..|pre|] == pre && Holds(a[|pre|..], s)
    ensures Holds(a, pre + s)
  {
    assert a == pre + a[|pre|..];
  }

  /** The scan for the terminator. */
  method Length(dst: array<char>, cap: nat, ghost s: Text) returns (len: nat)
    requires cap <= dst.Length && Holds(dst[..cap], s)
    ensures len == |s|
  {
    len := 0;
    while dst[len] != '\0' && len < cap
      invariant len <= |s| && dst[..cap][len] == dst[len]
      decreases cap - len
    {
      len := len + 1;
    }
  }

  /** The state of the digit loop: the text so far, and whether a digit was written. */
  ghost predicate Progress(v: nat, k: nat, room: nat, out: Text, started: bool) {
    && out == (if k == 0 then Shown(v, room) else Upto(v, k, room))
    && (k > 0 ==> started == (Top(v, k) != 0))
  }

  lemma ProgressStep(v: nat, k: nat, room: nat, out: Text, started: bool)
    requires Progress(v, k + 1, room, out, started) && |out| < room
    ensures var nib := Top(v, k) % 16;
            if nib != 0 || started || k == 0
            then Progress(v, k, room, out + [Digit(nib)], true)
            else Progress(v, k, room, out, false)
  {
    UptoStep(v, k, room);
    TopStep(v, k);
  }

  /** The digit loop and the final terminator. */
  method Digits(dst: array<char>, start: nat, v: nat, cap: nat)
    requires start < cap - 1 && cap <= dst.Length && v < WORD
    modifies dst
    ensures dst[..start] == old(dst[..start])
    ensures Holds(dst[start..cap], Shown(v, cap - 1 - start))
  {
    ghost var out: Text := Shown(v, cap - 1 - start);
    var len := DigitLoop(dst, start, v, cap);
    dst[len] := '\0';
    assert dst[start..cap][..|out|] == dst[start..len] == out;
  }

  method DigitLoop(dst: array<char>, start: nat, v: nat, cap: nat) returns (len: nat)
    requires start < cap - 1 && cap <= dst.Length && v < WORD
    modifies dst
    ensures start <= len <= cap - 1 && dst[..start] == old(dst[..start])
    ensures dst[start..len] == Shown(v, cap - 1 - start)
  {
    var started, k: nat := false, 16;
    len := start;
    ghost var room, out: Text := cap - 1 - start, "";
    TopOfWord(v);
    while k > 0 && len < cap - 1
      invariant k <= 16 && start <= len <= cap - 1 && dst[..start] == old(dst[..start])
      invariant dst[start..len] == out && Progress(v, k, room, out, started)
    {
      k := k - 1;
      ProgressStep(v, k, room, out, started);
      var nib := Top(v, k) % 16;
      if nib != 0 || started || k == 0 {
        dst[len] := Digit(nib);
        len := len + 1;
        started := true;
        assert dst[start..len] == out + [Digit(nib)];
        out := out + [Digit(nib)];
      }
    }
    if k > 0 {
      UptoFull(v, k, room);
    }
  }

  lemma TopOfWord(v: nat)
    requires v < WORD
    ensures Top(v, 16) == 0
  {
    Words();
  }

  /** The logged text of a message with a value, in a buffer of MSG_MAXLEN. */
  function WithValue(msg: Text, v: nat): Text {
    var s := Cut(msg, MSG_MAXLEN - 1);
    s + Appended(v, |s|, MSG_MAXLEN)
  }

  /** The text ends in digits that stand for the value. */
  ghost predicate ReadsBack(msg: Text, v: nat) {
    exists digits: Text :: WithValue(msg, v) == msg + "0x" + digits && digits != "" && Value(digits, 16) == v
  }

  lemma CutReadsWrong(msg: Text, v: nat, digits: Text)
    requires |msg| + 2 + |Numeral(v, 16)| >= MSG_MAXLEN
    requires WithValue(msg, v) == msg + "0x" + digits && digits != ""
    ensures Value(digits, 16) < v
  {
    var all := Numeral(v, 16);
    assert |msg| + 3 < MSG_MAXLEN;
    var n := MSG_MAXLEN - 3 - |msg|;
    assert digits == WithValue(msg, v)[|msg| + 2..] == all[..n];
    assert |all| >= 2 && v >= 16;
    CutNumeralDiffers(v, 16, n);
  }

  /** The value reads back from the text exactly when the message leaves room for all its
      digits; otherwise its low digits are lost, or all of it. */
  lemma ValueReadsBackIff(msg: Text, v: nat)
    ensures ReadsBack(msg, v) <==> |msg| + 2 + |Numeral(v, 16)| < MSG_MAXLEN
  {
    var all := Numeral(v, 16);
    if |msg| + 2 + |all| < MSG_MAXLEN {
      NumeralParses(v, 16);
      assert WithValue(msg, v) == msg + "0x" + all;
    } else {
      forall digits: Text | WithValue(msg, v) == msg + "0x" + digits && digits != ""
        ensures Value(digits, 16) < v
      {
        CutReadsWrong(msg, v, digits);
      }
    }
  }

  /** Messages of at most 77 characters never lose a digit. */
  lemma ShortMessagesKeepTheirValue(msg: Text, v: nat)
    requires |msg| <= 77 && v < WORD
    ensures WithValue(msg, v) == msg + "0x" + Numeral(v, 16) && Value(Numeral(v, 16), 16) == v
  {
    Words();
    NumeralFits(v, 16, 16);
    NumeralParses(v, 16);
    assert WithValue(msg, v) == msg + ("0x" + Numeral(v, 16));
  }

  // ------------------------------------------------------------------
  // uart_put_u64
  // ------------------------------------------------------------------

  function Reversed(s: string): (r: string)
    ensures |r| == |s|
  {
    if s == "" then "" else [s[|s| - 1]] + Reversed(s[..|s| - 1])
  }

  /** The digits of what is left. */
  function Left(v: nat): string {
    if v == 0 then "" else Numeral(v, 10)
  }

  lemma LeftStep(v: nat)
    requires v > 0
    ensures Left(v) == Left(v / 10) + [Digit(v % 10)]
  {
  }

  /** The first digits of uart_put_u64(), lowest first, and what is left. */
  ghost predicate Peeled(all: string, v: nat, digits: string) {
    all == Left(v) + Reversed(digits)
  }

  lemma PeelNone(value: nat)
    requires 0 < value < WORD
    ensures |Numeral(value, 10)| <= 20 && Peeled(Numeral(value, 10), value, "")
  {
    Words();
    NumeralFits(value, 10, 20);
    assert Left(value) + "" == Left(value);
  }

  lemma PeelOne(all: string, v: nat, digits: string)
    requires v > 0 && Peeled(all, v, digits)
    ensures |digits| < |all| && Peeled(all, v / 10, digits + [Digit(v % 10)])
  {
    LeftStep(v);
    ReversedSnoc(digits, Digit(v % 10));
    Regroup(Left(v / 10), [Digit(v % 10)], Reversed(digits));
  }

  lemma PeelAll(all: string, digits: string)
    requires Peeled(all, 0, digits)
    ensures Reversed(digits) == all
  {
    assert "" + Reversed(digits) == Reversed(digits);
  }

  lemma ReversedSnoc(s: string, c: char)
    ensures Reversed(s + [c]) == [c] + Reversed(s)
  {
    assert (s + [c])[..|s|] == s;
  }

  /** uart_put_u64(): the decimal numeral of any 64-bit value; 24 characters are enough. */
  method PutU64(value: nat) returns (out: string)
    requires value < WORD
    ensures out == Numeral(value, 10)
  {
    if value == 0 {
      return "0";
    }
    var tmp := new char[24];
    var i := Peel(tmp, value);
    out := Backwards(tmp, i);
  }

  /** The first loop: the digits, lowest first. */
  method Peel(tmp: array<char>, value: nat) returns (i: nat)
    requires tmp.Length == 24 && 0 < value < WORD
    modifies tmp
    ensures i <= 20 && Reversed(tmp[..i]) == Numeral(value, 10)
  {
    var v: nat := value;
    i := 0;
    ghost var all, digits := Numeral(value, 10), "";
    PeelNone(value);
    while v != 0 && i < 24
      invariant i <= |all| && digits == tmp[..i]
      invariant Peeled(all, v, digits)
    {
      PeelOne(all, v, digits);
      var d := Digit(v % 10);
      tmp[i] := d;
      digits := digits + [d];
      i := i + 1;
      v := v / 10;
    }
    PeelAll(all, digits);
  }

  /** The second loop: the digits from the last one peeled. */
  method Backwards(tmp: array<char>, n: nat) returns (out: string)
    requires n <= tmp.Length
    ensures out == Reversed(tmp[..n])
  {
    var i: nat := n;
    out := "";
    while i > 0
      invariant i <= n && out + Reversed(tmp[..i]) == Reversed(tmp[..n])
    {
      i := i - 1;
      assert tmp[..i + 1][..i] == tmp[..i];
      out := out + [tmp[i]];
    }
  }
}
