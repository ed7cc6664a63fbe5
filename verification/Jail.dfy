/** The SFTP path resolver (template/fs/sftp_jail.c): normalizes a client path in place in
    the caller's buffer, with a stack of segment offsets, under the fixed root "0:/srv". */
module Jail {
  datatype Option<T> = None | Some(value: T)

  datatype FResult = Ok | Denied | InvalidName | InvalidParameter

  const PHYS: string := "0:/srv"
  const ROOT: string := "/srv"
  const MAX_DEPTH: nat := 32

  predicate IsDelim(c: char) {
    c == '/' || c == '\\'
  }

  // ------------------------------------------------------------------
  // What the resolver means
  // ------------------------------------------------------------------

  function StripDrive(s: string): string {
    if |s| >= 2 && s[1] == ':' then s[2..] else s
  }

  /** Only a whole first segment "/srv" is stripped. */
  function StripRoot(s: string): string {
    if |s| >= |ROOT| && s[..|ROOT|] == ROOT && (|s| == |ROOT| || IsDelim(s[|ROOT|])) then s[|ROOT|..] else s
  }

  function Body(s: string): string {
    StripRoot(StripDrive(s))
  }

  function SegLen(s: string): (n: nat)
    ensures n <= |s|
    ensures forall i :: 0 <= i < n ==> !IsDelim(s[i])
    ensures n < |s| ==> IsDelim(s[n])
  {
    if s == "" || IsDelim(s[0]) then 0 else 1 + SegLen(s[1..])
  }

  /** The non-empty pieces between separators. */
  function Segments(s: string): seq<string> {
    if s == "" then []
    else if IsDelim(s[0]) then Segments(s[1..])
    else [s[..SegLen(s)]] + Segments(s[SegLen(s)..])
  }

  datatype Reduction = Escape | Stack(segs: seq<string>)

  /** The meaning of a path without any limits: a fold over its segments that fails on
      the first ".." with nothing left to remove. */
  function Reduce(segs: seq<string>, stack: seq<string>): Reduction
    decreases |segs|
  {
    if segs == [] then Stack(stack)
    else if segs[0] == "." then Reduce(segs[1..], stack)
    else if segs[0] == ".." then
      if stack == [] then Escape else Reduce(segs[1..], stack[..|stack| - 1])
    else Reduce(segs[1..], stack + [segs[0]])
  }

  function Join(stack: seq<string>): string {
    if stack == [] then "" else Join(stack[..|stack| - 1]) + "/" + stack[|stack| - 1]
  }

  /** The physical path of a stack of segments. */
  function Render(stack: seq<string>): string {
    PHYS + Join(stack)
  }

  /** The two limits: the offset stack and the output buffer with its terminator. */
  predicate Fits(stack: seq<string>, outSz: nat) {
    |stack| <= MAX_DEPTH && |Render(stack)| + 1 <= outSz
  }

  /** The fold with its limits, stopping at the first failure. */
  function Walk(segs: seq<string>, stack: seq<string>, outSz: nat): (FResult, seq<string>)
    decreases |segs|
  {
    if segs == [] then (Ok, stack)
    else if segs[0] == "." then Walk(segs[1..], stack, outSz)
    else if segs[0] == ".." then
      if stack == [] then (Denied, stack) else Walk(segs[1..], stack[..|stack| - 1], outSz)
    else if !Fits(stack + [segs[0]], outSz) then (InvalidName, stack)
    else Walk(segs[1..], stack + [segs[0]], outSz)
  }

  function Resolved(s: string, outSz: nat): (FResult, seq<string>) {
    if outSz <= |PHYS| + 1 then (InvalidName, []) else Walk(Segments(Body(s)), [], outSz)
  }

  predicate CString(s: string) {
    '\0' !in s
  }

  // ------------------------------------------------------------------
  // The code
  // ------------------------------------------------------------------

  lemma RenderPush(stack: seq<string>, seg: string)
    ensures Render(stack + [seg]) == Render(stack) + "/" + seg
  {
    assert (stack + [seg])[..|stack|] == stack;
    assert PHYS + (Join(stack) + "/" + seg) == PHYS + Join(stack) + "/" + seg;
  }

  lemma {:induction false} SegLenIs(s: string, n: nat)
    requires n <= |s| && (forall i :: 0 <= i < n ==> !IsDelim(s[i])) && (n < |s| ==> IsDelim(s[n]))
    ensures SegLen(s) == n
  {
    if n > 0 {
      SegLenIs(s[1..], n - 1);
    }
  }

  /** Buffer, length, depth and offset stack agree with the stack of segments. */
  ghost predicate Aligned(mem: seq<char>, len: nat, offs: seq<nat>, depth: nat, stack: seq<string>, outSz: nat) {
    && |offs| == MAX_DEPTH && depth == |stack| <= MAX_DEPTH
    && len == |Render(stack)| < outSz <= |mem|
    && mem[..len] == Render(stack) && mem[len] == '\0'
    && forall k :: 0 <= k < depth ==> offs[k] == |Render(stack[..k])| + 1
  }

  /** Copies the immutable prefix "0:/srv". */
  method WriteRoot(out: array<char>)
    requires out.Length > |PHYS|
    modifies out
    ensures out[..] == PHYS + ['\0'] + old(out[|PHYS| + 1..])
  {
    for k := 0 to |PHYS|
      invariant out[..k] == PHYS[..k] && out[k..] == old(out[k..])
    {
      out[k] := PHYS[k];
    }
    assert out[|PHYS|..][1..] == old(out[|PHYS|..])[1..] == old(out[|PHYS| + 1..]);
    out[|PHYS|] := '\0';
    assert out[|PHYS| + 1..] == old(out[|PHYS| + 1..]);
    assert out[..] == out[..|PHYS|] + [out[|PHYS|]] + out[|PHYS| + 1..];
    assert out[..|PHYS|] == PHYS;
  }

  /** Skips a drive prefix and the logical root: the offset of the rest. */
  method SkipPrefixes(s: string) returns (p: nat)
    ensures p <= |s| && s[p..] == Body(s)
  {
    p := 0;
    if |s| >= 2 && s[1] == ':' {
      p := 2;
    }
    assert s[p..] == StripDrive(s);
    assert |s| - p >= |ROOT| ==> s[p..][..|ROOT|] == s[p..p + |ROOT|] && s[p..][|ROOT|..] == s[p + |ROOT|..];
    if |s| - p >= |ROOT| && s[p..p + |ROOT|] == ROOT && (|s| - p == |ROOT| || IsDelim(s[p + |ROOT|])) {
      p := p + |ROOT|;
    }
  }

  /** Skips separators, then delimits the next segment; start == |s| when there is none. */
  method NextSegment(s: string, p: nat) returns (start: nat, end: nat)
    requires p <= |s|
    ensures start == end == |s| || p <= start < end <= |s|
    ensures start == |s| ==> Segments(s[p..]) == []
    ensures start < |s| ==> Segments(s[p..]) == [s[start..end]] + Segments(s[end..])
  {
    start := p;
    while start < |s| && IsDelim(s[start])
      invariant p <= start <= |s| && Segments(s[p..]) == Segments(s[start..])
    {
      assert s[start..][1..] == s[start + 1..];
      start := start + 1;
    }
    end := start;
    while end < |s| && !IsDelim(s[end])
      invariant start <= end <= |s|
      invariant forall i :: start <= i < end ==> !IsDelim(s[i])
    {
      end := end + 1;
    }
    if start < |s| {
      FirstSegment(s, start, end);
    }
  }

  lemma FirstSegment(s: string, start: nat, end: nat)
    requires start < end <= |s| && (forall i :: start <= i < end ==> !IsDelim(s[i])) && (end < |s| ==> IsDelim(s[end]))
    ensures Segments(s[start..]) == [s[start..end]] + Segments(s[end..])
  {
    var t := s[start..];
    SegLenIs(t, end - start);
    assert t[..end - start] == s[start..end] && t[end - start..] == s[end..];
  }

  /** "..": drops the last segment with its separator. */
  method Pop(out: array<char>, segStart: array<nat>, depth: nat, ghost stack: seq<string>, ghost outSz: nat,
             ghost oldLen: nat) returns (len: nat)
    requires stack != [] && Aligned(out[..], oldLen, segStart[..], depth, stack, outSz)
    modifies out
    ensures Aligned(out[..], len, segStart[..], depth - 1, stack[..depth - 1], outSz)
    ensures out[outSz..] == old(out[outSz..])
  {
    ghost var popped := stack[..depth - 1];
    RenderPush(popped, stack[depth - 1]);
    assert popped + [stack[depth - 1]] == stack;
    assert segStart[depth - 1] == segStart[..][depth - 1];
    len := segStart[depth - 1] - 1;
    assert out[..len] == out[..][..oldLen][..len];
    out[len] := '\0';
    forall k | 0 <= k < depth - 1 ensures segStart[..][k] == |Render(popped[..k])| + 1
    {
      assert popped[..k] == stack[..k];
    }
  }

  method Copy(out: array<char>, at: nat, s: string, start: nat, end: nat)
    requires start <= end <= |s| && at + (end - start) <= out.Length
    modifies out
    ensures out[..] == old(out[..at]) + s[start..end] + old(out[at + (end - start)..])
  {
    for k := 0 to end - start
      invariant out[..at] == old(out[..at])
      invariant out[at..at + k] == s[start..start + k]
      invariant out[at + k..] == old(out[at + k..])
    {
      out[at + k] := s[start + k];
    }
    assert out[..] == out[..at] + out[at..at + (end - start)] + out[at + (end - start)..];
  }

  /** Appends "/<segment>" and remembers where it starts. */
  method Append(out: array<char>, segStart: array<nat>, depth: nat, len: nat, s: string, start: nat, end: nat,
                ghost stack: seq<string>, ghost outSz: nat)
    requires start <= end <= |s| && depth < MAX_DEPTH
    requires Aligned(out[..], len, segStart[..], depth, stack, outSz)
    requires len + 1 + (end - start) + 1 <= outSz
    modifies out, segStart
    ensures Aligned(out[..], len + 1 + (end - start), segStart[..], depth + 1, stack + [s[start..end]], outSz)
    ensures out[outSz..] == old(out[outSz..])
  {
    ghost var base, seg, mem, offs := Render(stack), s[start..end], out[..], segStart[..];
    var off: nat, n: nat := len + 1, len + 1 + (end - start);
    out[len] := '/';
    segStart[depth] := off;
    Copy(out, off, s, start, end);
    out[n] := '\0';
    assert out[..n] == mem[..len] + "/" + seg;
    assert out[n + 1..] == mem[n + 1..];
    RenderPush(stack, seg);
    assert segStart[..] == offs[depth := off];
    PushAligned(offs, depth, off, stack, seg);
  }

  lemma PushAligned(offs: seq<nat>, depth: nat, off: nat, stack: seq<string>, seg: string)
    requires |offs| == MAX_DEPTH && depth == |stack| < MAX_DEPTH && off == |Render(stack)| + 1
    requires forall k :: 0 <= k < depth ==> offs[k] == |Render(stack[..k])| + 1
    ensures forall k :: 0 <= k < depth + 1 ==> offs[depth := off][k] == |Render((stack + [seg])[..k])| + 1
  {
    forall k | 0 <= k < depth + 1 ensures offs[depth := off][k] == |Render((stack + [seg])[..k])| + 1
    {
      assert (stack + [seg])[..k] == stack[..k];
      if k == depth { assert stack[..k] == stack; }
    }
  }

  /** What one segment does. */
  lemma WalkOne(seg: string, rest: seq<string>, stack: seq<string>, outSz: nat)
    ensures seg == "." ==> Walk([seg] + rest, stack, outSz) == Walk(rest, stack, outSz)
    ensures seg == ".." && stack == [] ==> Walk([seg] + rest, stack, outSz) == (Denied, stack)
    ensures seg == ".." && stack != [] ==> Walk([seg] + rest, stack, outSz) == Walk(rest, stack[..|stack| - 1], outSz)
    ensures seg != "." && seg != ".." ==>
              Walk([seg] + rest, stack, outSz) ==
                if |stack| < MAX_DEPTH && |Render(stack)| + 1 + |seg| + 1 <= outSz
                then Walk(rest, stack + [seg], outSz) else (InvalidName, stack)
  {
    assert ([seg] + rest)[1..] == rest;
    RenderPush(stack, seg);
  }

  /** The body of the loop, once a segment is delimited: go on, or stop with a verdict. */
  method OneSegment(out: array<char>, segStart: array<nat>, depth: nat, len: nat, s: string, start: nat, end: nat,
                    outSz: nat, ghost stack: seq<string>, ghost rest: seq<string>)
    returns (stop: bool, r: FResult, depth': nat, len': nat, ghost stack': seq<string>)
    requires start < end <= |s|
    requires Aligned(out[..], len, segStart[..], depth, stack, outSz)
    modifies out, segStart
    ensures out[outSz..] == old(out[outSz..])
    ensures !stop ==> Aligned(out[..], len', segStart[..], depth', stack', outSz)
    ensures !stop ==> Walk([s[start..end]] + rest, stack, outSz) == Walk(rest, stack', outSz)
    ensures stop ==> r != Ok && r == Walk([s[start..end]] + rest, stack, outSz).0
  {
    ghost var seg := s[start..end];
    stop, r, depth', len', stack' := false, Ok, depth, len, stack;
    WalkOne(seg, rest, stack, outSz);
    if end - start == 1 && s[start] == '.' {
      assert seg == ".";
    } else if end - start == 2 && s[start] == '.' && s[start + 1] == '.' {
      assert seg == "..";
      if depth == 0 {
        stop, r := true, Denied;
      } else {
        len' := Pop(out, segStart, depth, stack, outSz, len);
        depth', stack' := depth - 1, stack[..depth - 1];
      }
    } else {
      assert seg != "." && seg != ".." by { assert |seg| == end - start && seg[0] == s[start]; }
      if depth >= MAX_DEPTH {
        stop, r := true, InvalidName;
      } else if len + 1 + (end - start) + 1 > outSz {
        stop, r := true, InvalidName;
      } else {
        Append(out, segStart, depth, len, s, start, end, stack, outSz);
        depth', len', stack' := depth + 1, len + 1 + (end - start), stack + [seg];
      }
    }
  }

  /** oros_sftp_jail_resolve() */
  method Resolve(input: Option<string>, out: array?<char>, outSz: nat) returns (r: FResult)
    requires input.Some? ==> CString(input.value)
    requires out != null ==> outSz <= out.Length
    modifies out
    ensures input.None? || out == null ==> r == InvalidParameter && (out != null ==> out[..] == old(out[..]))
    ensures input.Some? && out != null ==> r == Resolved(input.value, outSz).0
    ensures input.Some? && out != null && r == Ok ==>
              var path := Render(Resolved(input.value, outSz).1);
              |path| < outSz && out[..|path|] == path && out[|path|] == '\0'
    ensures out != null ==> out[outSz..] == old(out[outSz..])
  {
    if input.None? || out == null {
      return InvalidParameter;
    }
    var s := input.value;
    var segStart := new nat[MAX_DEPTH];
    var depth: nat := 0;
    if outSz <= |PHYS| + 1 {
      return InvalidName;
    }
    WriteRoot(out);
    var len: nat := |PHYS|;
    var p := SkipPrefixes(s);
    ghost var stack: seq<string> := [];
    assert Render([]) == PHYS;
    while p < |s|
      invariant p <= |s|
      invariant Resolved(s, outSz) == Walk(Segments(s[p..]), stack, outSz)
      invariant Aligned(out[..], len, segStart[..], depth, stack, outSz)
      invariant out[outSz..] == old(out[outSz..])
    {
      var start, end := NextSegment(s, p);
      p := end;
      if start == |s| {
        break;
      }
      var stop, verdict: FResult;
      stop, verdict, depth, len, stack := OneSegment(out, segStart, depth, len, s, start, end, outSz, stack,
                                                     Segments(s[end..]));
      if stop {
        return verdict;
      }
    }
    assert Segments(s[|s|..]) == [];
    // the final check of the source, which always passes
    assert out[..|PHYS|] == out[..][..len][..|PHYS|];
    var inJail := out[..|PHYS|] == PHYS;
    r := if inJail then Ok else Denied;
    assert out[..len] == out[..][..len];
  }
}
