/** Go's path/filepath on POSIX: Clean, Join and Rel as operations on slash-separated segments. */
module Paths {
  import opened GoStrings

  predicate IsAbs(p: string) { p != "" && p[0] == '/' }

  /** One segment read by Clean: "." and empty segments vanish, ".." removes the segment before it. */
  function Step(rooted: bool, segs: seq<string>, seg: string): seq<string>
  {
    if seg == "" || seg == "." then segs
    else if seg == ".." then
      if segs != [] && segs[|segs| - 1] != ".." then segs[..|segs| - 1]
      else if rooted then segs
      else segs + [".."]
    else segs + [seg]
  }

  function Resolve(rooted: bool, segs: seq<string>): seq<string>
  {
    if segs == [] then []
    else Step(rooted, Resolve(rooted, segs[..|segs| - 1]), segs[|segs| - 1])
  }

  function Render(rooted: bool, segs: seq<string>): string
  {
    if rooted then "/" + Join(segs, "/")
    else if segs == [] then "."
    else Join(segs, "/")
  }

  /** The segments of a path after cleaning. */
  function Segments(p: string): seq<string> { Resolve(IsAbs(p), Split(p, '/')) }

  /** filepath.Clean. */
  function Clean(p: string): string { if p == "" then "." else Render(IsAbs(p), Segments(p)) }

  /** filepath.Join of two elements. */
  function PathJoin(a: string, b: string): string
  {
    if a != "" then Clean(a + "/" + b) else if b != "" then Clean(b) else ""
  }

  function CommonPrefix(a: seq<string>, b: seq<string>): (n: nat)
    ensures n <= |a| && n <= |b| && a[..n] == b[..n]
    ensures n < |a| && n < |b| ==> a[n] != b[n]
  {
    if a != [] && b != [] && a[0] == b[0] then
      var n := CommonPrefix(a[1..], b[1..]);
      assert a[..n + 1] == [a[0]] + a[1..][..n] && b[..n + 1] == [b[0]] + b[1..][..n];
      1 + n
    else 0
  }

  function Parents(n: nat): seq<string> { if n == 0 then [] else [".."] + Parents(n - 1) }

  /** filepath.Rel between two absolute paths. */
  function RelRooted(base: string, target: string): string
    requires IsAbs(base) && IsAbs(target)
  {
    var b, t := Segments(base), Segments(target);
    if Clean(base) == Clean(target) then "."
    else
      var n := CommonPrefix(b, t);
      Join(Parents(|b| - n) + t[n..], "/")
  }

  // ----- cleaned paths -----

  predicate Name(seg: string) { seg != "" && seg != "." && '/' !in seg }

  /** What cleaning leaves: names, and ".." only in front of a relative path. */
  ghost predicate Normal(rooted: bool, segs: seq<string>)
  {
    && (forall i | 0 <= i < |segs| :: Name(segs[i]))
    && (forall i | 0 <= i < |segs| && segs[i] == ".." :: !rooted && forall j | 0 <= j < i :: segs[j] == "..")
  }

  lemma {:induction false} ResolveNormal(rooted: bool, segs: seq<string>)
    requires forall s | s in segs :: '/' !in s
    ensures Normal(rooted, Resolve(rooted, segs))
  {
    if segs != [] {
      var n := |segs| - 1;
      ResolveNormal(rooted, segs[..n]);
      var front, seg := Resolve(rooted, segs[..n]), segs[n];
      assert '/' !in seg;
      if front != [] && front[|front| - 1] == ".." {
        assert forall j | 0 <= j < |front| :: front[j] == "..";
      }
    }
  }

  lemma SegmentsNormal(p: string)
    ensures Normal(IsAbs(p), Segments(p))
  {
    ResolveNormal(IsAbs(p), Split(p, '/'));
  }

  /** Resolving appends every segment that is a name other than "..". */
  lemma {:induction false} ResolveAppends(rooted: bool, front: seq<string>, names: seq<string>)
    requires forall s | s in names :: Name(s) && s != ".."
    ensures Resolve(rooted, front + names) == Resolve(rooted, front) + names
  {
    if names == [] {
      assert front + names == front;
    } else {
      var n := |names| - 1;
      assert (front + names)[..|front| + n] == front + names[..n];
      assert names[n] in names;
      ResolveAppends(rooted, front, names[..n]);
      assert names == names[..n] + [names[n]];
    }
  }

  /** A normal list resolves to itself. */
  lemma {:induction false} ResolveFixed(rooted: bool, segs: seq<string>)
    requires Normal(rooted, segs)
    ensures Resolve(rooted, segs) == segs
  {
    if segs != [] {
      var n := |segs| - 1;
      assert segs == segs[..n] + [segs[n]];
      assert Name(segs[n]);
      ResolveFixed(rooted, segs[..n]);
    }
  }

  lemma ResolveBlank(rooted: bool, segs: seq<string>)
    ensures Resolve(rooted, [""] + segs) == Resolve(rooted, segs)
  {
    if segs != [] {
      var n := |segs| - 1;
      assert ([""] + segs)[..|segs|] == [""] + segs[..n];
      ResolveBlank(rooted, segs[..n]);
    } else {
      assert [""] + segs == [""];
      assert Resolve(rooted, [""]) == Step(rooted, Resolve(rooted, [""][..0]), "");
    }
  }

  /** The segments of a rendered normal list are that list. */
  lemma SegmentsRender(rooted: bool, segs: seq<string>)
    requires Normal(rooted, segs)
    ensures Render(rooted, segs) != "" && IsAbs(Render(rooted, segs)) == rooted
    ensures Segments(Render(rooted, segs)) == segs
  {
    var p := Render(rooted, segs);
    ResolveFixed(rooted, segs);
    if segs == [] {
      SplitWhole("", '/');
      SplitWhole(".", '/');
      SplitCons('/', "", '/');
      assert ['/'] + "" == "/";
      assert "/" + Join(segs, "/") == "/";
      if rooted {
        ResolveBlank(rooted, [""]);
        ResolveBlank(rooted, []);
        assert [""] + [] == [""];
      } else {
        assert ["."][..0] == [];
        assert Resolve(rooted, ["."]) == Step(rooted, Resolve(rooted, ["."][..0]), ".");
      }
    } else {
      NormalNoSlash(rooted, segs);
      SplitJoin(segs, '/');
      JoinStart(segs);
      if rooted {
        SplitCons('/', Join(segs, "/"), '/');
        assert ['/'] + Join(segs, "/") == "/" + Join(segs, "/");
        ResolveBlank(rooted, segs);
      }
    }
  }

  lemma NormalNoSlash(rooted: bool, segs: seq<string>)
    requires Normal(rooted, segs)
    ensures forall s | s in segs :: '/' !in s && Name(s)
  {
  }

  lemma JoinStart(segs: seq<string>)
    requires segs != [] && segs[0] != ""
    ensures Join(segs, "/") != "" && Join(segs, "/")[0] == segs[0][0]
  {
  }

  /** Cleaning twice is cleaning once, and keeps the kind of path. */
  lemma CleanIdempotent(p: string)
    ensures Clean(Clean(p)) == Clean(p)
    ensures IsAbs(Clean(p)) == IsAbs(p)
    ensures p != "" ==> Segments(Clean(p)) == Segments(p)
  {
    SegmentsNormal(p);
    if p == "" {
      SegmentsRender(false, []);
    } else {
      SegmentsRender(IsAbs(p), Segments(p));
    }
  }

  // ----- cleaning, one segment at a time -----

  lemma SegmentsMore(p: string, seg: string)
    requires IsAbs(p) && '/' !in seg
    ensures IsAbs(p + "/" + seg) && Segments(p + "/" + seg) == Step(true, Segments(p), seg)
  {
    hide Split;
    assert p + "/" + seg == p + ['/'] + seg;
    SplitConcat(p, '/', seg);
    SplitWhole(seg, '/');
    var parts := Split(p, '/');
    assert (parts + [seg])[..|parts|] == parts;
  }

  lemma {:induction false} JoinMore(segs: seq<string>, seg: string)
    ensures Join(segs + [seg], "/") == if segs == [] then seg else Join(segs, "/") + "/" + seg
  {
    if segs == [] {
      assert segs + [seg] == [seg];
    } else {
      assert (segs + [seg])[1..] == segs[1..] + [seg];
      JoinMore(segs[1..], seg);
    }
  }

  /** Cleaning a rooted path can be done on any part first. */
  lemma CleanCongruent(p: string, seg: string)
    requires IsAbs(p) && '/' !in seg
    ensures Clean(p + "/" + seg) == Clean(Clean(p) + "/" + seg)
  {
    hide Split, Resolve, Render;
    CleanIdempotent(p);
    SegmentsMore(p, seg);
    SegmentsMore(Clean(p), seg);
  }

  /** A name stays, behind the cleaned path before it. */
  lemma CleanName(p: string, name: string)
    requires IsAbs(p) && Name(name) && name != ".."
    ensures Clean(p + "/" + name) == (if Clean(p) == "/" then "/" else Clean(p) + "/") + name
  {
    hide Segments, Join, Normal;
    SegmentsMore(p, name);
    SegmentsNormal(p);
    RenderMore(Segments(p), name);
  }

  lemma RenderMore(segs: seq<string>, name: string)
    requires Normal(true, segs)
    ensures Render(true, segs + [name]) == (if Render(true, segs) == "/" then "/" else Render(true, segs) + "/") + name
  {
    hide Join;
    JoinMore(segs, name);
    if segs == [] {
      assert Join(segs, "/") == "" by { JoinNone(); }
    } else {
      assert Name(segs[0]);
      JoinStart(segs);
    }
  }

  lemma JoinNone() ensures Join([], "/") == "" {}

  /** "." and empty segments vanish, ".." takes the name before it away, and nothing from the root. */
  lemma CleanDots(p: string, name: string)
    requires IsAbs(p) && Name(name) && name != ".."
    ensures Clean(p + "/.") == Clean(p) && Clean(p + "/") == Clean(p)
    ensures Clean(p + "/" + name + "/..") == Clean(p)
    ensures Clean("/") == "/" && Clean("/" + "/..") == "/"
  {
    hide Split, Resolve;
    SegmentsMore(p, ".");
    SegmentsMore(p, "");
    assert p + "/" + "." == p + "/." && p + "/" + "" == p + "/";
    SegmentsMore(p, name);
    SegmentsMore(p + "/" + name, "..");
    assert p + "/" + name + "/" + ".." == p + "/" + name + "/..";
    SegmentsRender(true, []);
    assert Render(true, []) == "/";
    SegmentsMore("/", "..");
    assert "/" + "/" + ".." == "/" + "/..";
  }
}
