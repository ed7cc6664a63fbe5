/** The streaming `cat` of the shell (template/net/net_shell.c): files read in chunks, a
    per-byte transform, and an output buffer in front of the shell's output function. */
module Cat {
  import opened Arithmetic
  import opened Strings

  const OBUF_SIZE: nat := 512
  const RBUF_SIZE: nat := 512

  // ------------------------------------------------------------------
  // The transform, line by line
  // ------------------------------------------------------------------

  function Spaces(n: int): string {
    if n <= 0 then "" else " " + Spaces(n - 1)
  }

  /** A number as "%6lu\t" prints it. */
  function Header(n: nat): string {
    var s := Numeral(n, 10);
    Spaces(6 - |s|) + s + "\t"
  }

  lemma {:induction false} SpacesAre(n: nat)
    ensures |Spaces(n)| == n && forall k :: 0 <= k < n ==> Spaces(n)[k] == ' '
  {
    if n > 0 {
      SpacesAre(n - 1);
    }
  }

  /** A line number: the decimal numeral, behind as many spaces as make it six characters wide,
      and a tab. */
  lemma HeaderIs(n: nat)
    ensures var h, s := Header(n), Numeral(n, 10);
            var pad: nat := if |s| < 6 then 6 - |s| else 0;
            && |h| == pad + |s| + 1
            && (forall k :: 0 <= k < pad ==> h[k] == ' ')
            && h[pad..|h| - 1] == s && h[|h| - 1] == '\t'
  {
    var s := Numeral(n, 10);
    SpacesAre(if |s| < 6 then 6 - |s| else 0);
  }

  datatype Options = Options(number: bool, markEnds: bool) {
    function Prefix(n: nat): string {
      if number then Header(n) else ""
    }

    function Mark(): string {
      if markEnds then "$" else ""
    }

    function Ending(): string {
      Mark() + "\n"
    }
  }

  /** Where the first line of a text ends. */
  function LineEnd(s: string): (i: nat)
    ensures i <= |s| && (i < |s| ==> s[i] == '\n')
    ensures forall k :: 0 <= k < i ==> s[k] != '\n'
  {
    if s == "" || s[0] == '\n' then 0 else 1 + LineEnd(s[1..])
  }

  /** What a text prints before its first newline: the number of the first line, the line,
      and its mark if the line is complete. */
  function FirstLine(o: Options, s: string, n: nat): string
    requires s != ""
  {
    o.Prefix(n) + s[..LineEnd(s)] + if LineEnd(s) < |s| then o.Mark() else ""
  }

  /** The whole text, each line with its number, counted from n, and its end mark. A last
      line without newline gets a number and no mark. */
  function ByLines(o: Options, s: string, n: nat): string
    decreases |s|
  {
    if s == "" then ""
    else if LineEnd(s) == |s| then FirstLine(o, s, n)
    else FirstLine(o, s, n) + ("\n" + ByLines(o, s[LineEnd(s) + 1..], n + 1))
  }

  /** The transform, written out: a complete line l, then the rest with the next number; a
      last line without newline; nothing for no text. */
  lemma LineByLine(o: Options, l: string, rest: string, n: nat)
    requires forall k :: 0 <= k < |l| ==> l[k] != '\n'
    ensures ByLines(o, l + "\n" + rest, n) ==
            (if o.number then Header(n) else "") + l + (if o.markEnds then "$" else "") + "\n"
            + ByLines(o, rest, n + 1)
    ensures l != "" ==> ByLines(o, l, n) == (if o.number then Header(n) else "") + l
    ensures ByLines(o, "", n) == ""
  {
    var s := l + "\n" + rest;
    assert s[|l|] == '\n' && s[..|l|] == l && s[|l| + 1..] == rest;
    assert LineEnd(s) == |l|;
    assert l[..|l|] == l;
    var line := FirstLine(o, s, n);
    Regroup(line, "\n", ByLines(o, rest, n + 1));
  }

  // ------------------------------------------------------------------
  // The same, byte by byte
  // ------------------------------------------------------------------

  /** The two variables the transform carries across bytes, chunks and files. */
  datatype Pos = Pos(lineno: nat, bol: bool)

  function Byte(o: Options, p: Pos, b: char): string {
    (if p.bol then o.Prefix(p.lineno) else "") + if b == '\n' then o.Ending() else [b]
  }

  function Moved(o: Options, p: Pos, b: char): Pos {
    if b == '\n' then Pos(p.lineno + 1, true) else Pos(p.lineno, p.bol && !o.number)
  }

  function Run(o: Options, p: Pos, s: string): string
    decreases |s|
  {
    if s == "" then "" else Byte(o, p, s[0]) + Run(o, Moved(o, p, s[0]), s[1..])
  }

  function PosAfter(o: Options, p: Pos, s: string): Pos
    decreases |s|
  {
    if s == "" then p else PosAfter(o, Moved(o, p, s[0]), s[1..])
  }

  lemma {:induction false} RunConcat(o: Options, p: Pos, a: string, b: string)
    ensures Run(o, p, a + b) == Run(o, p, a) + Run(o, PosAfter(o, p, a), b)
    ensures PosAfter(o, p, a + b) == PosAfter(o, PosAfter(o, p, a), b)
    decreases |a|
  {
    if a == "" {
      assert a + b == b;
    } else {
      assert (a + b)[1..] == a[1..] + b;
      RunConcat(o, Moved(o, p, a[0]), a[1..], b);
    }
  }

  lemma {:induction false} Interior(o: Options, p: Pos, s: string)
    requires (p.bol ==> !o.number) && forall k :: 0 <= k < |s| ==> s[k] != '\n'
    ensures Run(o, p, s) == s && PosAfter(o, p, s) == p
  {
    if s != "" {
      Interior(o, p, s[1..]);
      assert Moved(o, p, s[0]) == p && Byte(o, p, s[0]) == [s[0]];
    }
  }

  /** A line without its newline. */
  lemma LineRun(o: Options, n: nat, l: string)
    requires l != "" && forall k :: 0 <= k < |l| ==> l[k] != '\n'
    ensures Run(o, Pos(n, true), l) == o.Prefix(n) + l
    ensures PosAfter(o, Pos(n, true), l) == Pos(n, !o.number)
  {
    var pre, h, r := o.Prefix(n), [l[0]], l[1..];
    Interior(o, Pos(n, !o.number), r);
    assert h + r == l;
    assert Byte(o, Pos(n, true), l[0]) == pre + h;
    Regroup(pre, h, r);
  }

  lemma LineAndNewline(o: Options, n: nat, l: string)
    requires forall k :: 0 <= k < |l| ==> l[k] != '\n'
    ensures Run(o, Pos(n, true), l + "\n") == o.Prefix(n) + l + o.Mark() + "\n"
    ensures PosAfter(o, Pos(n, true), l + "\n") == Pos(n + 1, true)
  {
    RunConcat(o, Pos(n, true), l, "\n");
    var p := PosAfter(o, Pos(n, true), l);
    if l != "" {
      LineRun(o, n, l);
    }
    assert "\n"[1..] == "" && Run(o, p, "\n") == Byte(o, p, '\n') + "";
    Regroup(o.Prefix(n) + l, o.Mark(), "\n");
  }

  /** The byte machine prints the text line by line. */
  lemma {:induction false} RunIsByLines(o: Options, s: string, n: nat)
    ensures Run(o, Pos(n, true), s) == ByLines(o, s, n)
    decreases |s|
  {
    if s != "" {
      var i := LineEnd(s);
      SplitLine(s);
      if i == |s| {
        LineRun(o, n, s);
        assert o.Prefix(n) + s + "" == o.Prefix(n) + s;
      } else {
        var l, rest := s[..i], s[i + 1..];
        LineAndNewline(o, n, l);
        RunConcat(o, Pos(n, true), l + "\n", rest);
        RunIsByLines(o, rest, n + 1);
        Regroup(l, "\n", rest);
        Regroup(FirstLine(o, s, n), "\n", ByLines(o, rest, n + 1));
      }
    }
  }

  lemma CutAt(s: string, i: nat)
    requires i < |s| && s[i] == '\n'
    ensures s == s[..i] + ("\n" + s[i + 1..])
  {
  }

  lemma SplitLine(s: string)
    ensures var i := LineEnd(s); s == if i == |s| then s[..i] else s[..i] + ("\n" + s[i + 1..])
  {
    if LineEnd(s) < |s| {
      CutAt(s, LineEnd(s));
    }
  }

  /** Without options the text comes out as it is. */
  lemma PlainIsIdentity(s: string, n: nat)
    ensures ByLines(Options(false, false), s, n) == s
  {
    RunIsByLines(Options(false, false), s, n);
    PlainRun(Pos(n, true), s);
  }

  lemma {:induction false} PlainRun(p: Pos, s: string)
    ensures Run(Options(false, false), p, s) == s
    decreases |s|
  {
    if s != "" {
      PlainRun(Moved(Options(false, false), p, s[0]), s[1..]);
      assert Byte(Options(false, false), p, s[0]) == [s[0]];
    }
  }

  lemma {:induction false} NumeralHasNoNewline(v: nat)
    ensures '\n' !in Numeral(v, 10)
  {
    if v >= 10 {
      NumeralHasNoNewline(v / 10);
    }
  }

  lemma {:induction false} SpacesHaveNoNewline(n: int)
    ensures '\n' !in Spaces(n)
    decreases n
  {
    if n > 0 {
      SpacesHaveNoNewline(n - 1);
    }
  }

  lemma PrefixHasNoNewline(o: Options, n: nat)
    ensures '\n' !in o.Prefix(n)
  {
    NumeralHasNoNewline(n);
    SpacesHaveNoNewline(6 - |Numeral(n, 10)|);
  }

  lemma FirstLineHasNoNewline(o: Options, s: string, n: nat)
    requires s != ""
    ensures '\n' !in FirstLine(o, s, n)
  {
    PrefixHasNoNewline(o, n);
  }

  lemma NewlinePrinted(o: Options, s: string, n: nat)
    requires s != ""
    ensures '\n' in ByLines(o, s, n) <==> LineEnd(s) < |s|
  {
    FirstLineHasNoNewline(o, s, n);
    if LineEnd(s) < |s| {
      HasNewline(FirstLine(o, s, n), ByLines(o, s[LineEnd(s) + 1..], n + 1));
    }
  }

  lemma HasNewline(a: string, b: string)
    ensures '\n' in a + ("\n" + b)
  {
    assert (a + ("\n" + b))[|a|] == '\n';
  }

  /** Two strings that agree up to and behind a newline that is the first of both. */
  lemma SameUpToNewline(a: string, x: string, b: string, y: string)
    requires '\n' !in a && '\n' !in b && a + ("\n" + x) == b + ("\n" + y)
    ensures a == b && x == y
  {
    var s := a + ("\n" + x);
    assert forall k :: 0 <= k < |a| ==> s[k] == a[k];
    assert forall k :: 0 <= k < |b| ==> s[k] == b[k];
    assert s[|a|] == '\n' == s[|b|];
    if |a| != |b| {
      assert false;
    }
    assert a == s[..|a|] == b && x == s[|a| + 1..] == y;
  }

  lemma SameInnerLine(o: Options, s: string, t: string, n: nat)
    requires s != "" && t != "" && LineEnd(s) < |s| && LineEnd(t) < |t| && ByLines(o, s, n) == ByLines(o, t, n)
    ensures FirstLine(o, s, n) == FirstLine(o, t, n)
    ensures ByLines(o, s[LineEnd(s) + 1..], n + 1) == ByLines(o, t[LineEnd(t) + 1..], n + 1)
  {
    var x, y := ByLines(o, s[LineEnd(s) + 1..], n + 1), ByLines(o, t[LineEnd(t) + 1..], n + 1);
    FirstLineHasNoNewline(o, s, n);
    FirstLineHasNoNewline(o, t, n);
    SameUpToNewline(FirstLine(o, s, n), x, FirstLine(o, t, n), y);
  }

  /** Texts that print the same have the same first line, and what follows it prints the
      same too. */
  lemma SameFirstLine(o: Options, s: string, t: string, n: nat)
    requires s != "" && t != "" && ByLines(o, s, n) == ByLines(o, t, n)
    ensures s[..LineEnd(s)] == t[..LineEnd(t)]
    ensures LineEnd(s) < |s| <==> LineEnd(t) < |t|
    ensures LineEnd(s) < |s| && LineEnd(t) < |t| ==>
              ByLines(o, s[LineEnd(s) + 1..], n + 1) == ByLines(o, t[LineEnd(t) + 1..], n + 1)
  {
    NewlinePrinted(o, s, n);
    NewlinePrinted(o, t, n);
    if LineEnd(s) < |s| {
      SameInnerLine(o, s, t, n);
    }
    SameLine(o, s, t, n);
  }

  /** No two texts print the same: whatever the options, the output tells the text. */
  lemma {:induction false} OutputTellsText(o: Options, s: string, t: string, n: nat)
    requires ByLines(o, s, n) == ByLines(o, t, n)
    ensures s == t
    decreases |s|
  {
    if s == "" || t == "" {
      NothingPrintsNothing(o, s, n);
      NothingPrintsNothing(o, t, n);
    } else {
      SameFirstLine(o, s, t, n);
      SplitLine(s);
      SplitLine(t);
      if LineEnd(s) < |s| {
        OutputTellsText(o, s[LineEnd(s) + 1..], t[LineEnd(t) + 1..], n + 1);
      }
    }
  }

  lemma NothingPrintsNothing(o: Options, s: string, n: nat)
    ensures ByLines(o, s, n) == "" <==> s == ""
  {
  }

  lemma SameLine(o: Options, s: string, t: string, n: nat)
    requires s != "" && t != "" && (LineEnd(s) < |s| <==> LineEnd(t) < |t|)
    requires FirstLine(o, s, n) == FirstLine(o, t, n)
    ensures s[..LineEnd(s)] == t[..LineEnd(t)]
  {
    var pre, f := o.Prefix(n), FirstLine(o, s, n);
    var e := |pre| + LineEnd(s);
    assert s[..LineEnd(s)] == f[|pre|..e] == t[..LineEnd(t)];
  }

  // ------------------------------------------------------------------
  // The buffered output
  // ------------------------------------------------------------------

  class Output {
    const ob: array<char>
    var on: nat
    // The calls of the shell's output function so far.
    var calls: seq<string>

    ghost predicate Valid()
      reads this
    {
      ob.Length == OBUF_SIZE && on < OBUF_SIZE && forall k :: 0 <= k < |calls| ==> |calls[k]| == OBUF_SIZE
    }

    /** Everything written: what was output and what still waits. */
    ghost function Text(): string
      requires Valid()
      reads this, ob
    {
      Joined(calls) + ob[..on]
    }

    constructor ()
      ensures Valid() && Text() == "" && fresh(ob)
    {
      ob := new char[OBUF_SIZE];
      on, calls := 0, [];
    }

    /** cat_flush() */
    method Flush()
      requires ob.Length == OBUF_SIZE && on <= OBUF_SIZE
      modifies this`on, this`calls
      ensures on == 0 && (old(on) == 0 ==> calls == old(calls))
      ensures old(on) != 0 ==> calls == old(calls) + [ob[..old(on)]]
    {
      if on != 0 {
        calls := calls + [ob[..on]];
        on := 0;
      }
    }

    /** cat_out(): the bytes join the buffer, which is handed over each time it is full. */
    method Out(data: string)
      requires Valid()
      modifies this`on, this`calls, ob
      ensures Valid() && Text() == old(Text()) + data
    {
      var p := 0;
      ghost var text := Text();
      assert text + data[..0] == text;
      while p < |data|
        invariant Valid() && p <= |data| && Text() == text + data[..p]
        decreases |data| - p
      {
        var take := if |data| - p < OBUF_SIZE - on then |data| - p else OBUF_SIZE - on;
        Take(data[p..p + take]);
        Extends(text, data, p, p + take);
        p := p + take;
      }
      assert data[..|data|] == data;
    }

    /** One round: bytes that fit, and the hand-over if they fill the buffer. */
    method Take(piece: string)
      requires Valid() && on + |piece| <= OBUF_SIZE
      modifies this`on, this`calls, ob
      ensures Valid() && Text() == old(Text()) + piece
    {
      ghost var before, out := ob[..on], Joined(calls);
      Copy(piece);
      Regroup(out, before, piece);
      on := on + |piece|;
      if on == OBUF_SIZE {
        JoinedOne(calls, ob[..on]);
        Flush();
        assert Text() == Joined(calls) + "" == Joined(calls);
      }
    }

    /** memcpy() behind the buffered bytes. */
    method Copy(piece: string)
      requires ob.Length == OBUF_SIZE && on + |piece| <= OBUF_SIZE
      modifies ob
      ensures ob[..on + |piece|] == old(ob[..on]) + piece
    {
      for j := 0 to |piece|
        invariant ob[..on + j] == old(ob[..on]) + piece[..j]
      {
        ob[on + j] := piece[j];
      }
    }
  }

  lemma Extends(text: string, data: string, p: nat, q: nat)
    requires p <= q <= |data|
    ensures text + data[..p] + data[p..q] == text + data[..q]
  {
    assert data[..p] + data[p..q] == data[..q];
    Regroup(text, data[..p], data[p..q]);
  }

  lemma JoinedOne(ss: seq<string>, s: string)
    ensures Joined(ss + [s]) == Joined(ss) + s
  {
    assert (ss + [s])[..|ss|] == ss;
  }

  /** The per-byte transform of cmd_cat(). */
  method Emit(out: Output, o: Options, b: char, lineno: nat, bol: bool) returns (lineno': nat, bol': bool)
    requires out.Valid()
    modifies out`on, out`calls, out.ob
    ensures out.Valid() && out.Text() == old(out.Text()) + Byte(o, Pos(lineno, bol), b)
    ensures Pos(lineno', bol') == Moved(o, Pos(lineno, bol), b)
  {
    lineno', bol' := lineno, bol;
    ghost var text := out.Text();
    if bol && o.number {
      out.Out(Header(lineno));
      bol' := false;
    }
    ghost var prefix := if bol then o.Prefix(lineno) else "";
    assert out.Text() == text + prefix;
    if b == '\n' {
      if o.markEnds {
        out.Out("$");
      }
      assert out.Text() == text + prefix + o.Mark();
      out.Out("\n");
      bol', lineno' := true, lineno + 1;
      Regroup(text + prefix, o.Mark(), "\n");
      Regroup(text, prefix, o.Ending());
    } else {
      out.Out([b]);
      Regroup(text, prefix, [b]);
    }
  }

  /** After the text s, this has been written and the transform stands there. */
  ghost predicate Shown(o: Options, s: string, text: string, p: Pos) {
    text == Run(o, Pos(1, true), s) && p == PosAfter(o, Pos(1, true), s)
  }

  lemma ShownByte(o: Options, s: string, text: string, p: Pos, b: char)
    requires Shown(o, s, text, p)
    ensures Shown(o, s + [b], text + Byte(o, p, b), Moved(o, p, b))
  {
    RunConcat(o, Pos(1, true), s, [b]);
    assert [b][1..] == "" && Run(o, p, [b]) == Byte(o, p, b) + "";
  }

  /** The bytes of one f_read(). */
  method Feed(out: Output, o: Options, chunk: string, lineno: nat, bol: bool, ghost s: string)
    returns (lineno': nat, bol': bool)
    requires out.Valid() && Shown(o, s, out.Text(), Pos(lineno, bol))
    modifies out`on, out`calls, out.ob
    ensures out.Valid() && Shown(o, s + chunk, out.Text(), Pos(lineno', bol'))
  {
    lineno', bol' := lineno, bol;
    assert s + chunk[..0] == s;
    for i := 0 to |chunk|
      invariant out.Valid() && Shown(o, s + chunk[..i], out.Text(), Pos(lineno', bol'))
    {
      ShownByte(o, s + chunk[..i], out.Text(), Pos(lineno', bol'), chunk[i]);
      assert s + chunk[..i] + [chunk[i]] == s + chunk[..i + 1];
      lineno', bol' := Emit(out, o, chunk[i], lineno', bol');
    }
    assert chunk[..|chunk|] == chunk;
  }

  /** What one f_read() returned. */
  type Chunk = s: string | 0 < |s| <= RBUF_SIZE witness "x"

  function Contents(files: seq<seq<Chunk>>): string {
    if files == [] then "" else Contents(files[..|files| - 1]) + Joined(files[|files| - 1])
  }

  /** All the reads of one file. */
  method FeedFile(out: Output, o: Options, file: seq<Chunk>, lineno: nat, bol: bool, ghost s: string)
    returns (lineno': nat, bol': bool)
    requires out.Valid() && Shown(o, s, out.Text(), Pos(lineno, bol))
    modifies out`on, out`calls, out.ob
    ensures out.Valid() && Shown(o, s + Joined(file), out.Text(), Pos(lineno', bol'))
  {
    lineno', bol' := lineno, bol;
    ghost var seen := s;
    assert Joined(file[..0]) == "" && s + "" == s;
    for c := 0 to |file|
      invariant out.Valid() && Shown(o, seen, out.Text(), Pos(lineno', bol'))
      invariant seen == s + Joined(file[..c])
    {
      lineno', bol' := Feed(out, o, file[c], lineno', bol', seen);
      seen := seen + file[c];
      JoinedNext(s, file, c);
    }
    assert file[..|file|] == file;
  }

  lemma JoinedNext(s: string, file: seq<Chunk>, c: nat)
    requires c < |file|
    ensures s + Joined(file[..c]) + file[c] == s + Joined(file[..c + 1])
  {
    assert file[..c + 1] == file[..c] + [file[c]];
    JoinedOne(file[..c], file[c]);
    Regroup(s, Joined(file[..c]), file[c]);
  }

  /** The flush at the end of cmd_cat(). */
  method Finish(out: Output) returns (calls: seq<string>)
    requires out.Valid()
    modifies out`on, out`calls
    ensures Joined(calls) == old(out.Text())
    ensures forall k :: 0 <= k < |calls| - 1 ==> |calls[k]| == OBUF_SIZE
    ensures calls != [] ==> 0 < |calls[|calls| - 1]| <= OBUF_SIZE
  {
    JoinedOne(out.calls, out.ob[..out.on]);
    assert out.on == 0 ==> Joined(out.calls) + "" == Joined(out.calls);
    out.Flush();
    calls := out.calls;
  }

  /** The reading loops of cmd_cat() over readable files, each given as its reads. Whatever
      the sizes of the reads, the output is the concatenated files with one numbering; it
      leaves in full buffers and one last shorter one. */
  method CatFiles(o: Options, files: seq<seq<Chunk>>) returns (calls: seq<string>)
    ensures Joined(calls) == ByLines(o, Contents(files), 1)
    ensures forall k :: 0 <= k < |calls| - 1 ==> |calls[k]| == OBUF_SIZE
    ensures calls != [] ==> 0 < |calls[|calls| - 1]| <= OBUF_SIZE
  {
    var out := new Output();
    var lineno: nat, bol := 1, true;
    assert files[..0] == [];
    for f := 0 to |files|
      invariant out.Valid() && fresh(out) && fresh(out.ob)
      invariant Shown(o, Contents(files[..f]), out.Text(), Pos(lineno, bol))
    {
      lineno, bol := FeedFile(out, o, files[f], lineno, bol, Contents(files[..f]));
      assert files[..f + 1][..f] == files[..f];
    }
    assert files[..|files|] == files;
    RunIsByLines(o, Contents(files), 1);
    calls := Finish(out);
  }
}
