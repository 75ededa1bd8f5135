/** `removeDotSegments` of Equinox/jscolor.js (section 5.2.4 of RFC 3986), against a
    reference that works on the list of segments with a stack. */
module DotSegments {

  // ---- paths as lists of segments

  predicate SlashFree(s: string) {
    forall i :: 0 <= i < |s| ==> s[i] != '/'
  }

  /** The length of the longest prefix without a slash. */
  function Run(s: string): (n: nat)
    ensures n <= |s| && SlashFree(s[..n]) && (n < |s| ==> s[n] == '/')
  {
    if s == [] || s[0] == '/' then 0
    else
      var n := 1 + Run(s[1..]);
      assert s[..n] == [s[0]] + s[1..][..n - 1];
      n
  }

  /** A path split at its slashes. */
  function Segments(s: string): (segs: seq<string>)
    ensures |segs| > 0
  {
    if Run(s) == |s| then [s] else [s[..Run(s)]] + Segments(s[Run(s) + 1..])
  }

  function Join(segs: seq<string>): string
    requires |segs| > 0
  {
    if |segs| == 1 then segs[0] else segs[0] + ("/" + Join(segs[1..]))
  }

  predicate AllFree(segs: seq<string>) {
    forall i :: 0 <= i < |segs| ==> SlashFree(segs[i])
  }

  predicate IsDot(seg: string) {
    seg == "." || seg == ".."
  }

  predicate NoneDot(segs: seq<string>) {
    forall i :: 0 <= i < |segs| ==> !IsDot(segs[i])
  }

  /** No segment of the path is "." or "..". */
  predicate NoDots(path: string) {
    NoneDot(Segments(path))
  }

  lemma {:induction false} JoinSegments(s: string)
    ensures Join(Segments(s)) == s && AllFree(Segments(s))
    decreases |s|
  {
    var n := Run(s);
    if n < |s| {
      var g, rest := s[..n], s[n + 1..];
      JoinSegments(rest);
      JoinFirst(g, Segments(rest));
      Broken(s, n);
    } else {
      assert s[..n] == s;
    }
  }

  lemma JoinFirst(g: string, segs: seq<string>)
    requires |segs| > 0
    ensures Join([g] + segs) == g + ("/" + Join(segs))
  {
    assert ([g] + segs)[1..] == segs;
  }

  lemma Broken(s: string, n: nat)
    requires n < |s| && s[n] == '/'
    ensures s == s[..n] + ("/" + s[n + 1..])
  {
  }

  /** The run ends at the first slash, wherever the text goes on. */
  lemma {:induction false} RunOf(g: string, t: string)
    requires SlashFree(g) && (t != [] ==> t[0] == '/')
    ensures Run(g + t) == |g|
  {
    if g == [] {
      assert g + t == t;
    } else {
      assert (g + t)[1..] == g[1..] + t;
      RunOf(g[1..], t);
    }
  }

  lemma {:induction false} SegmentsJoin(segs: seq<string>)
    requires |segs| > 0 && AllFree(segs)
    ensures Segments(Join(segs)) == segs
  {
    var g := segs[0];
    if |segs| == 1 {
      RunOf(g, []);
      assert g + [] == g;
    } else {
      var rest := segs[1..];
      SegmentsJoin(rest);
      SegmentsFirst(g, Join(rest));
      assert segs == [g] + rest;
    }
  }

  lemma SegmentsFirst(g: string, t: string)
    requires SlashFree(g)
    ensures Segments(g + ("/" + t)) == [g] + Segments(t)
  {
    RunOf(g, "/" + t);
    Cut(g, t);
  }

  lemma Cut(g: string, t: string)
    ensures var s := g + ("/" + t); s[..|g|] == g && s[|g| + 1..] == t && |s| > |g|
  {
  }

  // ---- the reference

  /** Dropping the last segment; the list stays non-empty, a lone "" being the empty path. */
  function Pop(stack: seq<string>): (r: seq<string>)
    requires |stack| > 0
    ensures |r| > 0
  {
    if |stack| == 1 then [""] else stack[..|stack| - 1]
  }

  /** Segments behind slashes, taken one by one: "." stays, ".." goes up, and a dot segment
      at the end leaves a slash. */
  function Walk(stack: seq<string>, segs: seq<string>): (r: seq<string>)
    requires |stack| > 0
    ensures |r| > 0
    decreases |segs|
  {
    if segs == [] then stack
    else if segs[0] == "." then if |segs| == 1 then stack + [""] else Walk(stack, segs[1..])
    else if segs[0] == ".." then if |segs| == 1 then Pop(stack) + [""] else Walk(Pop(stack), segs[1..])
    else Walk(stack + [segs[0]], segs[1..])
  }

  /** Dot segments in front of a relative path are dropped. */
  function Resolve(segs: seq<string>): (r: seq<string>)
    requires |segs| > 0
    ensures |r| > 0
    decreases |segs|
  {
    if !IsDot(segs[0]) then Walk([segs[0]], segs[1..])
    else if |segs| == 1 then [""]
    else Resolve(segs[1..])
  }

  lemma {:induction false} WalkClean(stack: seq<string>, segs: seq<string>)
    requires |stack| > 0 && NoneDot(stack) && AllFree(stack) && AllFree(segs)
    ensures NoneDot(Walk(stack, segs)) && AllFree(Walk(stack, segs))
    decreases |segs|
  {
    if segs != [] {
      var g := segs[0];
      if g == "." {
        if |segs| > 1 {
          WalkClean(stack, segs[1..]);
        }
      } else if g == ".." {
        if |segs| > 1 {
          WalkClean(Pop(stack), segs[1..]);
        }
      } else {
        WalkClean(stack + [g], segs[1..]);
      }
    }
  }

  lemma {:induction false} ResolveClean(segs: seq<string>)
    requires |segs| > 0 && AllFree(segs)
    ensures NoneDot(Resolve(segs)) && AllFree(Resolve(segs))
    decreases |segs|
  {
    if !IsDot(segs[0]) {
      WalkClean([segs[0]], segs[1..]);
    } else if |segs| > 1 {
      ResolveClean(segs[1..]);
    }
  }

  lemma {:induction false} WalkKeeps(stack: seq<string>, segs: seq<string>)
    requires |stack| > 0 && NoneDot(segs)
    ensures Walk(stack, segs) == stack + segs
    decreases |segs|
  {
    if segs == [] {
      assert stack + segs == stack;
    } else {
      WalkKeeps(stack + [segs[0]], segs[1..]);
      assert stack + [segs[0]] + segs[1..] == stack + segs;
    }
  }

  // ---- the loop

  /** The text up to its last slash, without it; nothing when there is none. */
  function CutLast(out: string): string {
    if out == [] then [] else if out[|out| - 1] == '/' then out[..|out| - 1] else CutLast(out[..|out| - 1])
  }

  /** The leading segment with its slash. */
  function TokenLength(path: string): (n: nat)
    ensures n <= |path| && (path != [] ==> n > 0)
  {
    if path == [] then 0 else if path[0] == '/' then 1 + Run(path[1..]) else Run(path)
  }

  predicate Starts(path: string, p: string) {
    |p| <= |path| && path[..|p|] == p
  }

  /** `path.substr(k)`. */
  function Substr(path: string, k: nat): string {
    if k <= |path| then path[k..] else ""
  }

  /** One turn of the loop: the rest of the path and the output. */
  function Turn(path: string, out: string): (r: (string, string))
    requires path != []
    ensures |r.0| < |path|
  {
    if Starts(path, "../") then (path[3..], out)
    else if Starts(path, "./") then (path[2..], out)
    else if Starts(path, "/./") || path == "/." then ("/" + Substr(path, 3), out)
    else if Starts(path, "/../") || path == "/.." then ("/" + Substr(path, 4), CutLast(out))
    else if path == "." || path == ".." then ("", out)
    else (path[TokenLength(path)..], out + path[..TokenLength(path)])
  }

  function Loop(path: string, out: string): string
    decreases |path|
  {
    if path == [] then out else var r := Turn(path, out); Loop(r.0, r.1)
  }

  /** `out.replace(/\/?[^\/]*$/, '')`. */
  method DropLast(out0: string) returns (out: string)
    ensures out == CutLast(out0)
  {
    out := out0;
    while out != [] && out[|out| - 1] != '/'
      invariant CutLast(out) == CutLast(out0)
      decreases |out|
    {
      out := out[..|out| - 1];
    }
    if out != [] {
      out := out[..|out| - 1];
    }
  }

  /** `path.replace(/^\.+/,'').substr(1)`, for a path that starts with dots and a slash. */
  method DropDots(path: string) returns (rest: string)
    requires Starts(path, "../") || Starts(path, "./")
    ensures rest == if Starts(path, "../") then path[3..] else path[2..]
  {
    var i := 0;
    var dots := if Starts(path, "../") then 2 else 1;
    assert path[dots] == path[..dots + 1][dots];
    while i < |path| && path[i] == '.'
      invariant 0 <= i <= dots
      decreases |path| - i
    {
      assert path[i] == path[..dots + 1][i];
      i := i + 1;
    }
    assert forall k :: 0 <= k < dots ==> path[k] == path[..dots + 1][k];
    rest := path[i + 1..];
  }

  method RemoveDotSegments(path0: string) returns (out: string)
    ensures out == Loop(path0, "")
  {
    var path := path0;
    out := "";
    while path != []
      invariant Loop(path, out) == Loop(path0, "")
      decreases |path|
    {
      ghost var before := (path, out);
      if Starts(path, "../") || Starts(path, "./") {
        path := DropDots(path);
      } else if Starts(path, "/./") || path == "/." {
        path := "/" + Substr(path, 3);
      } else if Starts(path, "/../") || path == "/.." {
        path := "/" + Substr(path, 4);
        out := DropLast(out);
      } else if path == "." || path == ".." {
        path := "";
      } else {
        var n := TokenLength(path);
        out := out + path[..n];
        path := path[n..];
      }
      assert (path, out) == Turn(before.0, before.1);
    }
  }

  // ---- the loop follows the reference

  lemma {:induction false} CutFree(a: string, g: string)
    requires SlashFree(g)
    ensures CutLast(a + ("/" + g)) == a && CutLast(g) == ""
    decreases |g|
  {
    var s := a + ("/" + g);
    if g == [] {
      assert s[..|s| - 1] == a;
    } else {
      var h := g[..|g| - 1];
      CutFree(a, h);
      assert s[..|s| - 1] == a + ("/" + h);
    }
  }

  lemma {:induction false} JoinSnoc(segs: seq<string>, g: string)
    requires |segs| > 0
    ensures Join(segs + [g]) == Join(segs) + ("/" + g)
  {
    assert (segs + [g])[0] == segs[0];
    if |segs| == 1 {
      assert (segs + [g])[1..] == [g];
    } else {
      assert (segs + [g])[1..] == segs[1..] + [g];
      JoinSnoc(segs[1..], g);
      Chain(segs[0], "/", Join(segs[1..]), "/" + g);
    }
  }

  lemma Chain(a: string, b: string, c: string, d: string)
    ensures a + (b + (c + d)) == a + (b + c) + d
  {
  }

  lemma CutIsPop(stack: seq<string>)
    requires |stack| > 0 && AllFree(stack)
    ensures CutLast(Join(stack)) == Join(Pop(stack)) && AllFree(Pop(stack))
  {
    var n := |stack| - 1;
    if n == 0 {
      CutFree("", stack[0]);
    } else {
      var lower, top := stack[..n], stack[n];
      assert stack == lower + [top];
      JoinSnoc(lower, top);
      CutFree(Join(lower), top);
    }
  }

  /** What the turn sees of a first segment behind a slash: `t` is empty or the rest with
      its slash. */
  lemma TurnSlash(g: string, t: string, out: string)
    requires SlashFree(g) && (t != [] ==> t[0] == '/')
    ensures var path := "/" + g + t;
            Turn(path, out) == if g == "." then (if t == [] then "/" else t, out)
                               else if g == ".." then (if t == [] then "/" else t, CutLast(out))
                               else (t, out + ("/" + g))
  {
    TokenSlash(g, t);
    OneDot(g, t);
    TwoDots(g, t);
  }

  lemma TokenSlash(g: string, t: string)
    requires SlashFree(g) && (t != [] ==> t[0] == '/')
    ensures var path := "/" + g + t;
            path[0] == '/' && TokenLength(path) == |g| + 1 && path[..|g| + 1] == "/" + g && path[|g| + 1..] == t
            && !Starts(path, "./") && !Starts(path, "../")
  {
    var path := "/" + g + t;
    assert path[1..] == g + t;
    RunOf(g, t);
    assert |path| >= 2 ==> path[..2][0] == '/';
    assert |path| >= 3 ==> path[..3][0] == '/';
  }

  lemma OneDot(g: string, t: string)
    requires SlashFree(g) && (t != [] ==> t[0] == '/')
    ensures var path := "/" + g + t;
            (Starts(path, "/./") || path == "/." <==> g == ".")
            && (g == "." ==> "/" + Substr(path, 3) == if t == [] then "/" else t)
  {
    var path := "/" + g + t;
    if g == "." {
      assert t != [] ==> t == "/" + t[1..] && Substr(path, 3) == t[1..];
    }
    assert |path| >= 3 ==> path[..3] == [path[0], path[1], path[2]];
  }

  lemma TwoDots(g: string, t: string)
    requires SlashFree(g) && (t != [] ==> t[0] == '/')
    ensures var path := "/" + g + t;
            (Starts(path, "/../") || path == "/.." <==> g == "..")
            && (g == ".." ==> "/" + Substr(path, 4) == if t == [] then "/" else t)
  {
    var path := "/" + g + t;
    if g == ".." {
      assert t != [] ==> t == "/" + t[1..] && Substr(path, 4) == t[1..];
    }
    assert |path| >= 4 ==> path[..4] == [path[0], path[1], path[2], path[3]];
  }

  /** The rest of a list of segments with the slash in front. */
  function Behind(segs: seq<string>): string {
    if segs == [] then "" else "/" + Join(segs)
  }

  lemma BehindFirst(segs: seq<string>)
    requires |segs| > 0
    ensures Behind(segs) == "/" + segs[0] + Behind(segs[1..]) && Join(segs) == segs[0] + Behind(segs[1..])
  {
    if |segs| == 1 {
      assert segs[0] + "" == segs[0];
    } else {
      assert "/" + (segs[0] + ("/" + Join(segs[1..]))) == "/" + segs[0] + ("/" + Join(segs[1..]));
    }
  }

  /** A lone slash is put out as it is. */
  lemma LastSlash(out: string)
    ensures Loop("/", out) == out + "/"
  {
    TurnSlash("", "", out);
    assert "/" + "" + "" == "/";
  }

  lemma {:induction false} LoopWalks(stack: seq<string>, segs: seq<string>)
    requires |stack| > 0 && AllFree(stack) && AllFree(segs)
    ensures Loop(Behind(segs), Join(stack)) == Join(Walk(stack, segs))
    decreases |segs|
  {
    if segs != [] {
      var g, rest, out := segs[0], segs[1..], Join(stack);
      BehindFirst(segs);
      TurnSlash(g, Behind(rest), out);
      CutIsPop(stack);
      if IsDot(g) {
        var next := if g == "." then stack else Pop(stack);
        if rest == [] {
          LastSlash(Join(next));
          JoinSnoc(next, "");
        } else {
          LoopWalks(next, rest);
        }
      } else {
        JoinSnoc(stack, g);
        LoopWalks(stack + [g], rest);
      }
    }
  }

  /** The first turns, on a path that does not start with a slash. */
  lemma TurnFirst(g: string, t: string)
    requires SlashFree(g) && g != [] && (t != [] ==> t[0] == '/')
    ensures Turn(g + t, "") == if IsDot(g) then (if t == [] then "" else t[1..], "") else (t, g)
  {
    var path := g + t;
    RunOf(g, t);
    assert path[..|g|] == g && path[|g|..] == t && "" + g == g;
    assert path[0] != '/' && path[0] == g[0];
    if g == "." {
      assert t != [] ==> path[..2] == "./" && path[2..] == t[1..];
    } else if g == ".." {
      assert t != [] ==> path[..3] == "../" && path[3..] == t[1..];
    } else {
      NotDots(g, t);
    }
  }

  lemma NotDots(g: string, t: string)
    requires SlashFree(g) && g != [] && !IsDot(g) && (t != [] ==> t[0] == '/')
    ensures var path := g + t; !Starts(path, "./") && !Starts(path, "../") && path != "." && path != ".."
  {
    var path := g + t;
    assert |path| >= 2 ==> path[..2] == [path[0], path[1]];
    assert |path| >= 3 ==> path[..3] == [path[0], path[1], path[2]];
  }

  lemma {:induction false} LoopResolves(segs: seq<string>)
    requires |segs| > 0 && AllFree(segs)
    ensures Loop(Join(segs), "") == Join(Resolve(segs))
    decreases |segs|
  {
    var g, rest := segs[0], segs[1..];
    BehindFirst(segs);
    if g == [] {
      assert Join([""]) == "" && Join(segs) == Behind(rest);
      LoopWalks([""], rest);
    } else {
      TurnFirst(g, Behind(rest));
      if IsDot(g) {
        if rest != [] {
          assert Behind(rest)[1..] == Join(rest);
          LoopResolves(rest);
        }
      } else {
        assert Join([g]) == g;
        LoopWalks([g], rest);
      }
    }
  }

  /** For every path the loop computes what the stack of segments gives. */
  lemma LoopIsReference(path: string)
    ensures Loop(path, "") == Join(Resolve(Segments(path)))
  {
    JoinSegments(path);
    LoopResolves(Segments(path));
  }

  /** The result has no dot segment. */
  lemma ResultClean(path: string)
    ensures NoDots(Loop(path, ""))
  {
    LoopIsReference(path);
    JoinSegments(path);
    ResolveClean(Segments(path));
    SegmentsJoin(Resolve(Segments(path)));
  }

  /** Exactly the paths without dot segments are left as they are. */
  lemma FixedPoints(path: string)
    ensures Loop(path, "") == path <==> NoDots(path)
  {
    ResultClean(path);
    if NoDots(path) {
      var segs := Segments(path);
      LoopIsReference(path);
      JoinSegments(path);
      WalkKeeps([segs[0]], segs[1..]);
      assert [segs[0]] + segs[1..] == segs;
    }
  }

  lemma Idempotent(path: string)
    ensures Loop(Loop(path, ""), "") == Loop(path, "")
  {
    ResultClean(path);
    FixedPoints(Loop(path, ""));
  }

  // ---- What dot segments mean

  lemma {:induction false} JoinConcat(a: seq<string>, b: seq<string>)
    requires |a| > 0 && |b| > 0
    ensures Join(a + b) == Join(a) + ("/" + Join(b))
  {
    assert (a + b)[0] == a[0] && (a + b)[1..] == a[1..] + b;
    if |a| > 1 {
      JoinConcat(a[1..], b);
      Chain(a[0], "/", Join(a[1..]), "/" + Join(b));
    } else {
      assert a[1..] + b == b;
    }
  }

  /** Segments of two paths joined by a slash. */
  lemma SegmentsSlash(p: string, q: string)
    ensures Segments(p + ("/" + q)) == Segments(p) + Segments(q)
  {
    JoinSegments(p);
    JoinSegments(q);
    JoinConcat(Segments(p), Segments(q));
    SegmentsJoin(Segments(p) + Segments(q));
  }

  lemma OneSegment(g: string)
    requires SlashFree(g)
    ensures Segments(g) == [g]
  {
    RunOf(g, []);
    assert g + [] == g;
  }

  /** The stack after segments that others follow. */
  function Stack(stack: seq<string>, segs: seq<string>): (r: seq<string>)
    requires |stack| > 0
    ensures |r| > 0
    decreases |segs|
  {
    if segs == [] then stack
    else if segs[0] == "." then Stack(stack, segs[1..])
    else if segs[0] == ".." then Stack(Pop(stack), segs[1..])
    else Stack(stack + [segs[0]], segs[1..])
  }

  lemma {:induction false} WalkConcat(stack: seq<string>, a: seq<string>, b: seq<string>)
    requires |stack| > 0 && |b| > 0
    ensures Walk(stack, a + b) == Walk(Stack(stack, a), b)
    decreases |a|
  {
    if a == [] {
      assert a + b == b;
    } else {
      var next := if a[0] == "." then stack else if a[0] == ".." then Pop(stack) else stack + [a[0]];
      assert (a + b)[1..] == a[1..] + b && (a + b)[0] == a[0];
      WalkConcat(next, a[1..], b);
    }
  }

  /** The path does not begin with a dot segment; no path that begins with a slash does. */
  predicate Begun(p: string) {
    !IsDot(Segments(p)[0])
  }

  lemma AbsoluteBegun(p: string)
    requires p != "" && p[0] == '/'
    ensures Begun(p)
  {
  }

  lemma Parts(p: string) returns (g: string, rest: seq<string>)
    requires Begun(p)
    ensures Segments(p) == [g] + rest && !IsDot(g)
  {
    var all := Segments(p);
    g, rest := all[0], all[1..];
  }

  lemma ResolveWalks(g: string, rest: seq<string>, segs: seq<string>)
    requires !IsDot(g) && |segs| > 0
    ensures Resolve([g] + rest + segs) == Walk(Stack([g], rest), segs)
  {
    FirstWalks([g] + rest + segs, g, rest + segs);
    WalkConcat([g], rest, segs);
  }

  lemma FirstWalks(segs: seq<string>, g: string, rest: seq<string>)
    requires segs == [g] + rest && !IsDot(g)
    ensures Resolve(segs) == Walk([g], rest)
  {
  }

  /** "." stands for where one is. */
  lemma DotStays(p: string, q: string)
    requires Begun(p)
    ensures Loop(p + ("/" + ("." + ("/" + q))), "") == Loop(p + ("/" + q), "")
  {
    var g, more := Parts(p);
    var rest := Segments(q);
    OneSegment(".");
    SegmentsSlash(".", q);
    SegmentsSlash(p, "." + ("/" + q));
    SegmentsSlash(p, q);
    ResolveWalks(g, more, ["."] + rest);
    ResolveWalks(g, more, rest);
    LoopIsReference(p + ("/" + ("." + ("/" + q))));
    LoopIsReference(p + ("/" + q));
    assert (["."] + rest)[1..] == rest;
  }

  /** ".." takes back the segment before it. */
  lemma DotsGoUp(p: string, g: string, q: string)
    requires Begun(p) && SlashFree(g) && !IsDot(g)
    ensures Loop(p + ("/" + (g + ("/" + (".." + ("/" + q))))), "") == Loop(p + ("/" + q), "")
  {
    var first, more := Parts(p);
    var rest, tail := Segments(q), ".." + ("/" + q);
    OneSegment("..");
    OneSegment(g);
    SegmentsSlash("..", q);
    SegmentsSlash(g, tail);
    SegmentsSlash(p, g + ("/" + tail));
    SegmentsSlash(p, q);
    UpWalks(Stack([first], more), g, rest);
    ResolveWalks(first, more, [g] + ([".."] + rest));
    ResolveWalks(first, more, rest);
    LoopIsReference(p + ("/" + (g + ("/" + tail))));
    LoopIsReference(p + ("/" + q));
  }

  lemma UpWalks(stack: seq<string>, g: string, rest: seq<string>)
    requires |stack| > 0 && |rest| > 0 && !IsDot(g)
    ensures Walk(stack, [g] + ([".."] + rest)) == Walk(stack, rest)
  {
    assert ([g] + ([".."] + rest))[1..] == [".."] + rest && ([".."] + rest)[1..] == rest;
    assert Pop(stack + [g]) == stack;
  }

  /** At the root ".." stays there. */
  lemma RootStays(q: string)
    ensures Loop("" + ("/" + (".." + ("/" + q))), "") == Loop("" + ("/" + q), "")
  {
    var rest := Segments(q);
    OneSegment("..");
    OneSegment("");
    SegmentsSlash("..", q);
    SegmentsSlash("", ".." + ("/" + q));
    SegmentsSlash("", q);
    ResolveWalks("", [], [".."] + rest);
    ResolveWalks("", [], rest);
    assert [""] + [] == [""];
    LoopIsReference("" + ("/" + (".." + ("/" + q))));
    LoopIsReference("" + ("/" + q));
    assert ([".."] + rest)[1..] == rest;
  }

  /** A dot segment at the end means the directory: the same as with a slash behind it. */
  lemma EndsInDirectory(p: string, g: string)
    requires Begun(p) && IsDot(g)
    ensures Loop(p + ("/" + g), "") == Loop(p + ("/" + (g + ("/" + ""))), "")
  {
    var first, more := Parts(p);
    OneSegment(g);
    OneSegment("");
    SegmentsSlash(g, "");
    SegmentsSlash(p, g);
    SegmentsSlash(p, g + ("/" + ""));
    ResolveWalks(first, more, [g]);
    ResolveWalks(first, more, [g] + [""]);
    LoopIsReference(p + ("/" + g));
    LoopIsReference(p + ("/" + (g + ("/" + ""))));
    assert ([g] + [""])[1..] == [""] && [""][1..] == [];
  }
}
