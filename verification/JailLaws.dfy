/** What the SFTP resolver promises about paths, for all inputs: its verdicts, its
    confinement, idempotence and composition. */
module JailLaws {
  import opened Jail

  lemma {:induction false} ReduceConcat(a: seq<string>, b: seq<string>, stack: seq<string>)
    ensures Reduce(a + b, stack) == match Reduce(a, stack) case Escape => Escape case Stack(s) => Reduce(b, s)
    decreases |a|
  {
    if a == [] {
      assert a + b == b;
    } else {
      assert (a + b)[1..] == a[1..] + b;
      if a[0] == "." {
        ReduceConcat(a[1..], b, stack);
      } else if a[0] == ".." {
        if stack != [] { ReduceConcat(a[1..], b, stack[..|stack| - 1]); }
      } else {
        ReduceConcat(a[1..], b, stack + [a[0]]);
      }
    }
  }

  lemma {:induction false} WalkConcat(a: seq<string>, b: seq<string>, stack: seq<string>, outSz: nat)
    ensures var (r, s) := Walk(a, stack, outSz);
            Walk(a + b, stack, outSz) == if r == Ok then Walk(b, s, outSz) else (r, s)
    decreases |a|
  {
    if a == [] {
      assert a + b == b;
    } else {
      assert (a + b)[1..] == a[1..] + b;
      if a[0] == "." {
        WalkConcat(a[1..], b, stack, outSz);
      } else if a[0] == ".." {
        if stack != [] { WalkConcat(a[1..], b, stack[..|stack| - 1], outSz); }
      } else if Fits(stack + [a[0]], outSz) {
        WalkConcat(a[1..], b, stack + [a[0]], outSz);
      }
    }
  }

  /** The first k segments reduce without escaping to stacks that never break a limit. */
  ghost predicate FineUpTo(segs: seq<string>, k: nat, outSz: nat)
    requires k <= |segs|
  {
    forall i :: 0 <= i <= k ==> FineAt(segs, i, outSz)
  }

  predicate FineAt(segs: seq<string>, i: nat, outSz: nat)
    requires i <= |segs|
  {
    Reduce(segs[..i], []).Stack? && Fits(Reduce(segs[..i], []).segs, outSz)
  }

  lemma ReduceSnoc(segs: seq<string>, k: nat)
    requires k < |segs|
    ensures Reduce(segs[..k + 1], []) ==
            match Reduce(segs[..k], []) case Escape => Escape case Stack(s) => Reduce([segs[k]], s)
  {
    assert segs[..k + 1] == segs[..k] + [segs[k]];
    ReduceConcat(segs[..k], [segs[k]], []);
  }

  lemma WalkSnoc(segs: seq<string>, k: nat, outSz: nat)
    requires k < |segs|
    ensures Walk(segs[..k + 1], [], outSz) ==
            var (r, s) := Walk(segs[..k], [], outSz);
            if r == Ok then Walk([segs[k]], s, outSz) else (r, s)
  {
    assert segs[..k + 1] == segs[..k] + [segs[k]];
    WalkConcat(segs[..k], [segs[k]], [], outSz);
  }

  /** The walk with limits succeeds exactly when the unlimited reduction does and every
      intermediate stack fits; it then gives the same stack. */
  lemma {:induction false} WalkOkIff(segs: seq<string>, k: nat, outSz: nat)
    requires k <= |segs| && outSz > |PHYS| + 1
    ensures Walk(segs[..k], [], outSz).0 == Ok <==> FineUpTo(segs, k, outSz)
    ensures Walk(segs[..k], [], outSz).0 == Ok ==> Reduce(segs[..k], []) == Stack(Walk(segs[..k], [], outSz).1)
  {
    if k == 0 {
      assert segs[..0] == [];
      assert Render([]) == PHYS;
    } else {
      WalkOkIff(segs, k - 1, outSz);
      WalkStep(segs, k - 1, outSz);
    }
  }

  /** From the k-th verdict to the next. */
  lemma WalkStep(segs: seq<string>, k: nat, outSz: nat)
    requires k < |segs|
    requires Walk(segs[..k], [], outSz).0 == Ok <==> FineUpTo(segs, k, outSz)
    requires Walk(segs[..k], [], outSz).0 == Ok ==> Reduce(segs[..k], []) == Stack(Walk(segs[..k], [], outSz).1)
    ensures Walk(segs[..k + 1], [], outSz).0 == Ok <==> FineUpTo(segs, k + 1, outSz)
    ensures Walk(segs[..k + 1], [], outSz).0 == Ok ==>
              Reduce(segs[..k + 1], []) == Stack(Walk(segs[..k + 1], [], outSz).1)
  {
    WalkSnoc(segs, k, outSz);
    ReduceSnoc(segs, k);
    var (r, s) := Walk(segs[..k], [], outSz);
    if r == Ok {
      assert FineAt(segs, k, outSz);
      OneStep(segs[k], s, outSz);
      assert FineUpTo(segs, k + 1, outSz) <==> FineAt(segs, k + 1, outSz);
    } else {
      assert !FineUpTo(segs, k + 1, outSz);
    }
  }

  lemma OneStep(seg: string, s: seq<string>, outSz: nat)
    requires Fits(s, outSz)
    ensures var (r, t) := Walk([seg], s, outSz);
            && (r == Ok <==> Reduce([seg], s).Stack? && Fits(Reduce([seg], s).segs, outSz))
            && (r == Ok ==> Reduce([seg], s) == Stack(t))
            && (r == Denied <==> seg == ".." && s == [])
  {
    assert [seg][1..] == [];
    if seg == ".." && s != [] {
      var t := s[..|s| - 1];
      assert t + [s[|s| - 1]] == s;
      RenderPush(t, s[|s| - 1]);
    }
  }

  /** FR_OK, and the path: "0:/srv" and "/seg" for each segment of the reduction. */
  lemma ResolvedOkIff(s: string, outSz: nat)
    ensures Resolved(s, outSz).0 == Ok <==>
            outSz > |PHYS| + 1 && FineUpTo(Segments(Body(s)), |Segments(Body(s))|, outSz)
    ensures Resolved(s, outSz).0 == Ok ==> Reduce(Segments(Body(s)), []) == Stack(Resolved(s, outSz).1)
  {
    if outSz > |PHYS| + 1 {
      var segs := Segments(Body(s));
      WalkOkIff(segs, |segs|, outSz);
      assert segs[..|segs|] == segs;
    }
  }

  /** A ".." meets an empty stack at position i, and no limit failed before it. */
  ghost predicate EscapesAt(segs: seq<string>, i: nat, outSz: nat)
    requires i < |segs|
  {
    segs[i] == ".." && Reduce(segs[..i], []) == Stack([]) && FineUpTo(segs, i, outSz)
  }

  ghost predicate DotDotAtRoot(segs: seq<string>, outSz: nat) {
    exists i :: 0 <= i < |segs| && EscapesAt(segs, i, outSz)
  }

  /** FR_DENIED exactly for an attempt to climb above the root that comes before any
      depth or length limit fails. */
  lemma ResolvedDeniedIff(s: string, outSz: nat)
    ensures Resolved(s, outSz).0 == Denied <==>
            outSz > |PHYS| + 1 && DotDotAtRoot(Segments(Body(s)), outSz)
  {
    if outSz > |PHYS| + 1 {
      WalkDeniedIff(Segments(Body(s)), outSz);
    }
  }

  lemma WalkDeniedIff(segs: seq<string>, outSz: nat)
    requires outSz > |PHYS| + 1
    ensures Walk(segs, [], outSz).0 == Denied <==> DotDotAtRoot(segs, outSz)
  {
    assert segs[..|segs|] == segs;
    if i :| 0 <= i < |segs| && EscapesAt(segs, i, outSz) {
      EscapeDenies(segs, i, outSz);
    }
    if Walk(segs, [], outSz).0 == Denied {
      var i := DenialEscapes(segs, |segs|, outSz);
      assert 0 <= i < |segs| && EscapesAt(segs, i, outSz);
    }
  }

  lemma EscapeDenies(segs: seq<string>, i: nat, outSz: nat)
    requires outSz > |PHYS| + 1 && i < |segs| && EscapesAt(segs, i, outSz)
    ensures Walk(segs, [], outSz).0 == Denied
  {
    WalkOkIff(segs, i, outSz);
    assert segs[i..][0] == "..";
    assert segs == segs[..i] + segs[i..];
    WalkConcat(segs[..i], segs[i..], [], outSz);
  }

  lemma {:induction false} DenialEscapes(segs: seq<string>, k: nat, outSz: nat) returns (i: nat)
    requires outSz > |PHYS| + 1 && k <= |segs| && Walk(segs[..k], [], outSz).0 == Denied
    ensures i < |segs| && EscapesAt(segs, i, outSz)
  {
    if k > 0 {
      WalkSnoc(segs, k - 1, outSz);
      var (r, s) := Walk(segs[..k - 1], [], outSz);
      if r == Ok {
        WalkOkIff(segs, k - 1, outSz);
        assert Fits(s, outSz);
        OneStep(segs[k - 1], s, outSz);
        i := k - 1;
      } else {
        i := DenialEscapes(segs, k - 1, outSz);
      }
    }
  }

  // ------------------------------------------------------------------
  // Confinement
  // ------------------------------------------------------------------

  predicate CleanSegment(seg: string) {
    seg != "" && seg != "." && seg != ".." && forall i :: 0 <= i < |seg| ==> !IsDelim(seg[i])
  }

  ghost predicate Clean(stack: seq<string>) {
    forall k :: 0 <= k < |stack| ==> CleanSegment(stack[k])
  }

  ghost predicate Pieces(segs: seq<string>) {
    forall k :: 0 <= k < |segs| ==> segs[k] != "" && forall i :: 0 <= i < |segs[k]| ==> !IsDelim(segs[k][i])
  }

  lemma {:induction false} SegmentsArePieces(s: string)
    ensures Pieces(Segments(s))
    decreases |s|
  {
    if s != "" {
      if IsDelim(s[0]) { SegmentsArePieces(s[1..]); } else { SegmentsArePieces(s[SegLen(s)..]); }
    }
  }

  lemma {:induction false} WalkKeepsClean(segs: seq<string>, stack: seq<string>, outSz: nat)
    requires Pieces(segs) && Clean(stack) && Fits(stack, outSz)
    ensures Clean(Walk(segs, stack, outSz).1) && Fits(Walk(segs, stack, outSz).1, outSz)
    decreases |segs|
  {
    if segs != [] {
      if segs[0] == "." {
        WalkKeepsClean(segs[1..], stack, outSz);
      } else if segs[0] == ".." {
        if stack != [] {
          var t := stack[..|stack| - 1];
          assert t + [stack[|stack| - 1]] == stack;
          RenderPush(t, stack[|stack| - 1]);
          WalkKeepsClean(segs[1..], t, outSz);
        }
      } else if Fits(stack + [segs[0]], outSz) {
        WalkKeepsClean(segs[1..], stack + [segs[0]], outSz);
      }
    }
  }

  /** Whatever the client sends, an accepted path is the jail root followed by real names:
      no "." or "..", no empty piece and no separator inside a piece. */
  lemma ResolvedIsConfined(s: string, outSz: nat)
    requires Resolved(s, outSz).0 == Ok
    ensures Clean(Resolved(s, outSz).1) && Fits(Resolved(s, outSz).1, outSz)
    ensures PHYS <= Render(Resolved(s, outSz).1)
  {
    SegmentsArePieces(Body(s));
    assert Render([]) == PHYS;
    WalkKeepsClean(Segments(Body(s)), [], outSz);
  }

  // ------------------------------------------------------------------
  // Composition and idempotence
  // ------------------------------------------------------------------

  lemma {:induction false} SegLenPrefix(x: string, y: string)
    requires y == "" || IsDelim(y[0])
    ensures SegLen(x + y) == SegLen(x)
  {
    var n := SegLen(x);
    SegLenIs(x + y, n);
  }

  /** Splitting at a separator splits the segments. */
  lemma {:induction false} SegmentsSplit(x: string, y: string)
    requires y == "" || IsDelim(y[0])
    ensures Segments(x + y) == Segments(x) + Segments(y)
    decreases |x|
  {
    if x == "" {
      assert x + y == y;
    } else if IsDelim(x[0]) {
      assert (x + y)[1..] == x[1..] + y;
      SegmentsSplit(x[1..], y);
    } else {
      var n := SegLen(x);
      SegLenPrefix(x, y);
      assert (x + y)[..n] == x[..n] && (x + y)[n..] == x[n..] + y;
      SegmentsSplit(x[n..], y);
    }
  }

  /** The prefixes of a + "/" + b are those of a, unless a is nothing but a drive prefix. */
  lemma BodyOfJoined(a: string, b: string)
    requires StripDrive(a) != ""
    ensures Body(a + "/" + b) == Body(a) + "/" + b
  {
    var c := a + "/" + b;
    if |a| >= 2 {
      assert c[1] == a[1];
    } else {
      assert c[1] == '/';
    }
    var d := StripDrive(a);
    assert StripDrive(c) == d + "/" + b;
    RootOfJoined(d, b);
  }

  lemma RootOfJoined(d: string, b: string)
    requires d != ""
    ensures StripRoot(d + "/" + b) == StripRoot(d) + "/" + b
  {
    var c := d + "/" + b;
    if |d| >= |ROOT| {
      assert c[..|ROOT|] == d[..|ROOT|];
      assert |d| > |ROOT| ==> c[|ROOT|] == d[|ROOT|];
      assert c[|ROOT|..] == d[|ROOT|..] + "/" + b;
    } else if |c| >= |ROOT| {
      assert c[|d|] == '/';
      assert c[..|ROOT|][|d|] == '/' && ROOT[|d|] != '/';
    }
  }

  /** Composition: resolving a/b walks b's segments from where a ended. */
  lemma ResolveComposes(a: string, b: string, outSz: nat)
    requires StripDrive(a) != "" && Resolved(a, outSz).0 == Ok
    ensures Resolved(a + "/" + b, outSz) == Walk(Segments(b), Resolved(a, outSz).1, outSz)
  {
    BodyOfJoined(a, b);
    SegmentsOfJoined(Body(a), b);
    WalkConcat(Segments(Body(a)), Segments(b), [], outSz);
  }

  lemma SegmentsOfJoined(x: string, b: string)
    ensures Segments(x + "/" + b) == Segments(x) + Segments(b)
  {
    var y := "/" + b;
    assert x + "/" + b == x + y && y[1..] == b;
    SegmentsSplit(x, y);
  }

  lemma OnePiece(seg: string)
    requires CleanSegment(seg)
    ensures Segments("/" + seg) == [seg]
  {
    var y := "/" + seg;
    assert y[1..] == seg;
    SegLenIs(seg, |seg|);
    assert seg[..|seg|] == seg && seg[|seg|..] == "";
    assert Segments(seg) == [seg] + Segments("");
  }

  lemma {:induction false} SegmentsOfJoin(stack: seq<string>)
    requires Clean(stack)
    ensures Segments(Join(stack)) == stack
  {
    if stack != [] {
      var n := |stack| - 1;
      var init, seg := stack[..n], stack[n];
      assert Clean(init) by { forall k | 0 <= k < n ensures CleanSegment(init[k]) { assert CleanSegment(stack[k]); } }
      assert CleanSegment(stack[n]);
      SegmentsOfJoin(init);
      var y := "/" + seg;
      assert Join(stack) == Join(init) + y;
      SegmentsSplit(Join(init), y);
      OnePiece(seg);
      assert init + [seg] == stack;
    }
  }

  lemma {:induction false} WalkOfClean(stack: seq<string>, k: nat, outSz: nat)
    requires Clean(stack) && Fits(stack, outSz) && k <= |stack|
    ensures Fits(stack[..k], outSz)
    ensures Walk(stack[k..], stack[..k], outSz) == (Ok, stack)
    decreases |stack| - k
  {
    if k == |stack| {
      assert stack[..k] == stack;
    } else {
      WalkOfClean(stack, k + 1, outSz);
      assert CleanSegment(stack[k]);
      assert stack[..k] + [stack[k]] == stack[..k + 1];
      assert stack[k..][1..] == stack[k + 1..];
      RenderPush(stack[..k], stack[k]);
    }
  }

  /** Idempotence: an accepted path, resolved again with the same buffer, is itself. */
  lemma ResolveIsIdempotent(s: string, outSz: nat)
    requires Resolved(s, outSz).0 == Ok
    ensures Resolved(Render(Resolved(s, outSz).1), outSz) == Resolved(s, outSz)
  {
    var stack := Resolved(s, outSz).1;
    ResolvedIsConfined(s, outSz);
    var path := Render(stack);
    assert path[1] == ':';
    assert path[2..] == ROOT + Join(stack);
    assert (ROOT + Join(stack))[..|ROOT|] == ROOT;
    assert (ROOT + Join(stack))[|ROOT|..] == Join(stack);
    if stack != [] { JoinStartsWithSlash(stack); }
    assert Body(path) == Join(stack);
    SegmentsOfJoin(stack);
    WalkOfClean(stack, 0, outSz);
    assert stack[0..] == stack && stack[..0] == [];
  }

  lemma {:induction false} JoinStartsWithSlash(stack: seq<string>)
    requires stack != []
    ensures |Join(stack)| > 0 && Join(stack)[0] == '/'
  {
    if |stack| > 1 {
      JoinStartsWithSlash(stack[..|stack| - 1]);
    }
  }
}
