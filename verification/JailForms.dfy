/** The resolver's rules with their characters and numbers written out: both separators, the
    prefixes that are dropped, what "." and ".." do, and the two limits. */
module JailForms {
  import opened Jail
  import opened JailLaws

  // ------------------------------------------------------------------
  // Both separators
  // ------------------------------------------------------------------

  /** The path with every backslash turned into a slash. */
  function Slashed(s: string): (r: string)
    ensures |r| == |s| && forall i :: 0 <= i < |s| ==> r[i] == if s[i] == '\\' then '/' else s[i]
  {
    seq(|s|, i requires 0 <= i < |s| => if s[i] == '\\' then '/' else s[i])
  }

  lemma SlashedSlice(s: string, i: nat, j: nat)
    requires i <= j <= |s|
    ensures Slashed(s)[i..j] == Slashed(s[i..j])
  {
    var t, u := s[i..j], Slashed(s)[i..j];
    forall k | 0 <= k < j - i ensures u[k] == Slashed(t)[k]
    {
      assert u[k] == Slashed(s)[i + k] && t[k] == s[i + k];
    }
  }

  lemma SlashedDrop(s: string, i: nat)
    requires i <= |s|
    ensures Slashed(s)[i..] == Slashed(s[i..])
  {
    SlashedSlice(s, i, |s|);
    assert s[i..|s|] == s[i..];
  }

  lemma SlashedPlain(s: string)
    requires '\\' !in s
    ensures Slashed(s) == s
  {
  }

  /** Segments do not depend on which separator stands where. */
  lemma {:induction false} SegmentsOfSlashed(s: string)
    ensures Segments(Slashed(s)) == Segments(s)
    decreases |s|
  {
    var t := Slashed(s);
    if s != "" {
      assert t[0] == if s[0] == '\\' then '/' else s[0];
      if s[0] == '/' || s[0] == '\\' {
        SlashedDrop(s, 1);
        SegmentsOfSlashed(s[1..]);
      } else {
        var n := SegLen(s);
        forall i | 0 <= i < n ensures t[i] == s[i] && !IsDelim(t[i])
        {
          assert !IsDelim(s[i]);
        }
        SegLenIs(t, n);
        SlashedDrop(s, n);
        assert t[..n] == s[..n];
        SegmentsOfSlashed(s[n..]);
      }
    }
  }

  /** Behind a drive prefix, if any, the path is "\srv" as a whole segment. That prefix is the
      one thing where the source tells the separators apart: only "/srv" is stripped. */
  predicate BackslashRoot(s: string) {
    var d := if |s| >= 2 && s[1] == ':' then s[2..] else s;
    |d| >= 4 && d[..4] == "\\srv" && (|d| == 4 || d[4] == '/' || d[4] == '\\')
  }

  lemma Four(d: string, a: char, b: char, c: char, e: char)
    requires |d| >= 4
    ensures d[..4] == [a, b, c, e] <==> d[0] == a && d[1] == b && d[2] == c && d[3] == e
  {
    assert d[..4][0] == d[0] && d[..4][1] == d[1] && d[..4][2] == d[2] && d[..4][3] == d[3];
  }

  /** A separator in front of "srv" is only the root when it is a slash. */
  lemma FourOfSlashed(d: string)
    requires |d| >= 4
    ensures Slashed(d)[..4] == "/srv" <==> d[..4] == "/srv" || d[..4] == "\\srv"
  {
    assert "/srv" == ['/', 's', 'r', 'v'] && "\\srv" == ['\\', 's', 'r', 'v'];
    Four(Slashed(d), '/', 's', 'r', 'v');
    Four(d, '/', 's', 'r', 'v');
    Four(d, '\\', 's', 'r', 'v');
  }

  lemma RootOfSlashed(d: string)
    requires !(|d| >= 4 && d[..4] == "\\srv" && (|d| == 4 || d[4] == '/' || d[4] == '\\'))
    ensures StripRoot(Slashed(d)) == Slashed(StripRoot(d))
  {
    if |d| >= 4 {
      FourOfSlashed(d);
      SlashedDrop(d, 4);
      assert |ROOT| == 4;
    }
  }

  lemma DriveOfSlashed(s: string)
    ensures StripDrive(Slashed(s)) == Slashed(StripDrive(s))
  {
    if |s| >= 2 {
      SlashedDrop(s, 2);
    }
  }

  /** A backslash is a separator like a slash: unless the path begins with "\srv", turning all
      of them into slashes changes neither the verdict nor the path. */
  lemma BackslashIsSlash(s: string, outSz: nat)
    requires !BackslashRoot(s)
    ensures Resolved(Slashed(s), outSz) == Resolved(s, outSz)
  {
    DriveOfSlashed(s);
    RootOfSlashed(StripDrive(s));
    SegmentsOfSlashed(Body(s));
  }

  /** Reducing on top of a base that is never reached gives the same stack on that base. */
  lemma {:induction false} ReduceOnBase(segs: seq<string>, stack: seq<string>, base: seq<string>)
    requires Reduce(segs, stack).Stack?
    ensures Reduce(segs, base + stack) == Stack(base + Reduce(segs, stack).segs)
    decreases |segs|
  {
    if segs != [] {
      if segs[0] == "." {
        ReduceOnBase(segs[1..], stack, base);
      } else if segs[0] == ".." {
        var t := stack[..|stack| - 1];
        assert (base + stack)[..|base + stack| - 1] == base + t;
        ReduceOnBase(segs[1..], t, base);
      } else {
        assert base + stack + [segs[0]] == base + (stack + [segs[0]]);
        ReduceOnBase(segs[1..], stack + [segs[0]], base);
      }
    }
  }

  /** A name is one segment. */
  lemma OnePieceHere(name: string)
    requires name != "" && '/' !in name && '\\' !in name
    ensures Segments(name) == [name]
  {
    SegLenIs(name, |name|);
    assert name[..|name|] == name && name[|name|..] == "";
  }

  lemma BackslashRootSegments(s: string)
    requires BackslashRoot(s)
    ensures Segments(Body(s)) == ["srv"] + Segments(Body(Slashed(s)))
  {
    var d := StripDrive(s);
    var t := d[4..];
    FourOfSlashed(d);
    assert "\\srv" == "\\" + "srv" && "\\srv"[0] != "/srv"[0];
    assert d == "\\" + ("srv" + t);
    assert d[1..] == "srv" + t;
    OnePieceHere("srv");
    SegmentsSplit("srv", t);
    DriveOfSlashed(s);
    SlashedDrop(d, 4);
    SegmentsOfSlashed(t);
  }

  lemma SrvIsOneDeeper(rest: seq<string>, below: seq<string>)
    requires Reduce(rest, []) == Stack(below)
    ensures Reduce(["srv"] + rest, []) == Stack(["srv"] + below)
  {
    assert (["srv"] + rest)[1..] == rest;
    assert [] + ["srv"] == ["srv"] == ["srv"] + [];
    ReduceOnBase(rest, [], ["srv"]);
  }

  /** Exactly when the separators can be exchanged: of the inputs that are accepted in one of
      the two forms, those that do not begin with "\srv" mean the same path in both; the
      others name a directory srv inside the jail in one form and the jail itself in the
      other. */
  lemma BackslashIsSlashIff(s: string, outSz: nat)
    requires Resolved(s, outSz).0 == Ok || Resolved(Slashed(s), outSz).0 == Ok
    ensures Resolved(Slashed(s), outSz) == Resolved(s, outSz) <==> !BackslashRoot(s)
  {
    if BackslashRoot(s) {
      BackslashRootSegments(s);
      ResolvedOkIff(s, outSz);
      ResolvedOkIff(Slashed(s), outSz);
      if Resolved(s, outSz).0 == Ok && Resolved(Slashed(s), outSz).0 == Ok {
        SrvIsOneDeeper(Segments(Body(Slashed(s))), Resolved(Slashed(s), outSz).1);
      }
    } else {
      BackslashIsSlash(s, outSz);
    }
  }

  /** The input for it: "/srv" names the jail, "\srv" a directory srv in it. */
  lemma BackslashRootExample()
    ensures Resolved("/srv", 64) == (Ok, []) && Resolved("\\srv", 64) == (Ok, ["srv"])
  {
    var s, d := "/srv", "\\srv";
    assert s[..4] == s && s[4..] == "" && s[1] == 's' && d[1] == 's';
    assert d[..4] == d && d[0] != s[0];
    OtherPathsAreKept(d);
    SegmentRules("srv", "", "srv");
    assert d == "\\" + "srv" && ["srv"] + [] == ["srv"] && [] + ["srv"] == ["srv"];
    WalkOne("srv", [], [], 64);
    assert Render([]) == "0:/srv";
  }

  // ------------------------------------------------------------------
  // Segments and prefixes
  // ------------------------------------------------------------------

  /** What the segments of a path are: nothing for the empty path, a separator in front adds
      nothing, a name is a segment, and a path is cut at any separator. */
  lemma SegmentRules(s: string, t: string, name: string)
    requires name != "" && '/' !in name && '\\' !in name
    ensures Segments("") == [] && Segments(name) == [name]
    ensures Segments("/" + s) == Segments(s) && Segments("\\" + s) == Segments(s)
    ensures Segments(s + "/" + t) == Segments(s) + Segments(t)
    ensures Segments(s + "\\" + t) == Segments(s) + Segments(t)
  {
    OnePieceHere(name);
    assert ("/" + s)[1..] == s && ("\\" + s)[1..] == s && ("\\" + t)[1..] == t;
    SegmentsOfJoined(s, t);
    assert s + "\\" + t == s + ("\\" + t);
    SegmentsSplit(s, "\\" + t);
  }

  /** A drive prefix, whatever its letter, is not looked at. */
  lemma DriveIsIgnored(c: char, p: string, outSz: nat)
    requires |p| < 2 || p[1] != ':'
    ensures Resolved([c, ':'] + p, outSz) == Resolved(p, outSz)
  {
    assert ([c, ':'] + p)[2..] == p;
  }

  /** The logical root is the jail itself, but a longer name that begins with it is a name. */
  lemma RootIsIgnored(t: string, outSz: nat)
    requires t == "" || t[0] == '/' || t[0] == '\\'
    ensures Segments(Body("/srv" + t)) == Segments(t)
  {
    var s := "/srv" + t;
    assert s[1] == 's' && s[..4] == "/srv" && s[4..] == t;
    assert t != "" ==> s[4] == t[0];
  }

  lemma LongerNameIsKept(c: char, t: string)
    requires c != '/' && c != '\\'
    ensures Segments(Body("/srv" + [c] + t)) == Segments("srv" + [c] + t)
    ensures var segs := Segments("srv" + [c] + t); segs != [] && "srv" + [c] <= segs[0]
  {
    var s, u := "/srv" + [c] + t, "srv" + [c] + t;
    assert s[1] == 's' && s[4] == c && s[1..] == u;
    assert Body(s) == s;
    var n := SegLen(u);
    assert u == ['s', 'r', 'v', c] + t;
    assert u[0] == 's' && u[1] == 'r' && u[2] == 'v' && u[3] == c;
    assert n != 0 && n != 1 && n != 2 && n != 3;
    assert u[..n][..4] == u[..4] == "srv" + [c];
  }

  /** Every other path is taken as it is. */
  lemma OtherPathsAreKept(s: string)
    requires (|s| < 2 || s[1] != ':') && (|s| < 4 || s[..4] != "/srv")
    ensures Body(s) == s
  {
  }

  // ------------------------------------------------------------------
  // Dots and limits
  // ------------------------------------------------------------------

  /** What "." and ".." mean: "." is nothing, ".." takes back the name before it, and with no
      name left to take back it is an escape, whatever follows. */
  lemma DotRules(a: seq<string>, b: seq<string>, name: string)
    requires name != "." && name != ".."
    ensures Reduce([], []) == Stack([])
    ensures Reduce(a, []).Stack? ==> Reduce(a + [name], []) == Stack(Reduce(a, []).segs + [name])
    ensures Reduce(a + ["."], []) == Reduce(a, [])
    ensures Reduce(a + [name, ".."], []) == Reduce(a, [])
    ensures Reduce(a, []) == Stack([]) ==> Reduce(a + [".."] + b, []) == Escape
  {
    ReduceConcat(a, [name], []);
    ReduceConcat(a, ["."], []);
    ReduceConcat(a, [name, ".."], []);
    ReduceConcat(a, [".."], []);
    ReduceConcat(a + [".."], b, []);
    if Reduce(a, []).Stack? {
      var st := Reduce(a, []).segs;
      assert [name][1..] == [] && ["."][1..] == [] && [".."][1..] == [];
      assert [name, ".."][1..] == [".."] && (st + [name])[..|st|] == st;
    }
  }

  function TotalLength(stack: seq<string>): nat {
    if stack == [] then 0 else TotalLength(stack[..|stack| - 1]) + 1 + |stack[|stack| - 1]|
  }

  lemma {:induction false} RenderLength(stack: seq<string>)
    ensures |Render(stack)| == 6 + TotalLength(stack)
  {
    if stack != [] {
      RenderLength(stack[..|stack| - 1]);
    }
  }

  /** The limits: 32 names, and room for "0:/srv", a slash before each name, the names and the
      terminator. */
  lemma FitsIff(stack: seq<string>, outSz: nat)
    ensures Fits(stack, outSz) <==> |stack| <= 32 && 6 + TotalLength(stack) + 1 <= outSz
  {
    RenderLength(stack);
  }

  /** The path of an accepted input, character by character: it begins with "0:/srv", has no
      backslash, and its names have no separator and are not empty, "." or "..". */
  lemma AcceptedPath(s: string, outSz: nat)
    requires Resolved(s, outSz).0 == Ok
    ensures var stack := Resolved(s, outSz).1;
            && Render(stack)[..6] == "0:/srv" && '\\' !in Render(stack)
            && |stack| <= 32 && |Render(stack)| + 1 <= outSz
            && forall k :: 0 <= k < |stack| ==>
                 && '/' !in stack[k] && '\\' !in stack[k]
                 && stack[k] != "" && stack[k] != "." && stack[k] != ".."
  {
    var stack := Resolved(s, outSz).1;
    ResolvedIsConfined(s, outSz);
    forall k | 0 <= k < |stack|
      ensures '/' !in stack[k] && '\\' !in stack[k] && stack[k] != "" && stack[k] != "." && stack[k] != ".."
    {
      assert CleanSegment(stack[k]);
    }
    NoBackslash(stack);
    assert Render(stack)[..6] == PHYS;
  }

  lemma {:induction false} NoBackslash(stack: seq<string>)
    requires forall k :: 0 <= k < |stack| ==> '\\' !in stack[k]
    ensures '\\' !in Render(stack)
  {
    if stack != [] {
      NoBackslash(stack[..|stack| - 1]);
      RenderPush(stack[..|stack| - 1], stack[|stack| - 1]);
      assert stack[..|stack| - 1] + [stack[|stack| - 1]] == stack;
    }
  }

  /** A backslash behind ".." does not hide the escape, whatever follows it. */
  lemma DotsBeforeBackslash(t: string, outSz: nat)
    requires outSz > 7
    ensures Resolved("..\\" + t, outSz).0 == Denied
  {
    var s := "..\\" + t;
    assert s[0] == s[1] == '.';
    assert |s| >= 4 ==> s[..4][0] == '.' != "/srv"[0];
    OtherPathsAreKept(s);
    assert s == ".." + "\\" + t;
    SegmentRules("..", t, "..");
    WalkOne("..", Segments(t), [], outSz);
  }

  /** A backslash separates two names like a slash. */
  lemma BackslashBetweenNames(a: string, b: string, outSz: nat)
    requires a != "" && a != "." && a != ".." && '/' !in a && '\\' !in a && (|a| < 2 || a[1] != ':')
    requires b != "" && b != "." && b != ".." && '/' !in b && '\\' !in b
    requires outSz >= 6 + 1 + |a| + 1 + |b| + 1
    ensures Resolved(a + "\\" + b, outSz) == (Ok, [a, b])
  {
    var s := a + "\\" + b;
    SegmentRules(a, b, a);
    OnePieceHere(b);
    assert s[0] == a[0] && (|a| >= 2 ==> s[1] == a[1]);
    assert s[0] in a && (|s| >= 4 ==> s[..4][0] == s[0] && s[..4] != "/srv");
    OtherPathsAreKept(s);
    WalkOne(a, [b], [], outSz);
    assert [] + [a] == [a] && [a] + [b] == [a, b] && [b] + [] == [b];
    RenderPush([], a);
    WalkOne(b, [], [a], outSz);
  }
}
