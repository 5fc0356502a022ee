/** Validation of the HostPath subpath of a Capture (pkg/capture/hostpath_validation.go) and of the
    operator's base directory (operator/config/config.go). */
module HostPath {
  import opened GoStrings
  import opened Paths

  const DEFAULT_BASE := "/var/log/retina/captures"

  datatype Error = Empty | Absolute | Traversal | EscapesBase | BaseDir

  datatype Outcome = Ok(path: string) | Err(error: Error)

  predicate IsLetter(c: char) { 'a' <= c <= 'z' || 'A' <= c <= 'Z' }

  predicate WinDriveLetter(s: string)
  {
    |s| >= 3 && IsLetter(s[0]) && s[1] == ':' && (s[2] == '\\' || s[2] == '/')
  }

  /** The fields between slashes of either kind; strings.FieldsFunc also drops the empty ones. */
  function Fields(p: string): (fields: seq<string>)
    ensures |fields| >= 1
  {
    if p == "" then [""]
    else
      var rest := Fields(p[1..]);
      if p[0] == '/' || p[0] == '\\' then [""] + rest else [[p[0]] + rest[0]] + rest[1..]
  }

  predicate ContainsParentSegment(p: string) { ".." in Fields(p) }

  function BaseOr(base: string): string { if base == "" then DEFAULT_BASE else base }

  /** validateHostPath, check by check. */
  function ValidateHostPath(raw: string, baseDir: string): Outcome
  {
    if raw == "" then Err(Empty)
    else
      var cleanedBase := Clean(BaseOr(baseDir));
      if !IsAbs(cleanedBase) then Err(BaseDir)
      else if IsAbs(raw) || raw[0] == '/' || raw[0] == '\\' || WinDriveLetter(raw) then Err(Absolute)
      else if ContainsParentSegment(raw) then Err(Traversal)
      else
        var cleanedSub := Clean(raw);
        if cleanedSub == "." || cleanedSub == "" then Err(Empty)
        else if IsAbs(cleanedSub) || cleanedSub[0] == '/' || cleanedSub[0] == '\\' then Err(Absolute)
        else if ContainsParentSegment(cleanedSub) then Err(Traversal)
        else
          var joined := Clean(PathJoin(cleanedBase, cleanedSub));
          if !IsAbs(joined) then Err(EscapesBase)
          else
            var rel := RelRooted(cleanedBase, joined);
            if rel == ".." || "../" <= rel then Err(EscapesBase) else Ok(joined)
  }

  // ----- what validation decides -----

  predicate Trivial(seg: string) { seg == "" || seg == "." }

  /** The segments of the raw subpath that are not empty or ".", in order. */
  function NonTrivial(segs: seq<string>): (r: seq<string>)
    ensures forall s | s in r :: s in segs && !Trivial(s)
  {
    if segs == [] then []
    else
      var n := |segs| - 1;
      NonTrivial(segs[..n]) + (if Trivial(segs[n]) then [] else [segs[n]])
  }

  function Names(raw: string): seq<string> { NonTrivial(Split(raw, '/')) }

  /** Some part of the raw subpath between slashes of either kind is "..". */
  predicate MentionsParent(raw: string) { exists s | s in Split(raw, '/') :: ".." in Split(s, '\\') }

  /** The outcome, from the segments alone: neither the second traversal check nor the check against
      the base is among its conditions. */
  function Decision(raw: string, baseDir: string): Outcome
  {
    if raw == "" then Err(Empty)
    else if !IsAbs(BaseOr(baseDir)) then Err(BaseDir)
    else if raw[0] == '/' || raw[0] == '\\' || WinDriveLetter(raw) then Err(Absolute)
    else if MentionsParent(raw) then Err(Traversal)
    else
      var names := Names(raw);
      if names == [] then Err(Empty)
      else
        assert names[0] in names;
        if names[0][0] == '\\' then Err(Absolute)
        else Ok(Render(true, Segments(BaseOr(baseDir)) + names))
  }

  // ----- fields -----

  function FieldsOfAll(segs: seq<string>): seq<string>
  {
    if segs == [] then [] else Split(segs[0], '\\') + FieldsOfAll(segs[1..])
  }

  /** Splitting on both slashes is splitting on '/' and then on '\'. */
  lemma {:induction false} FieldsTwice(p: string)
    ensures Fields(p) == FieldsOfAll(Split(p, '/'))
  {
    if p == "" {
      SplitWhole("", '\\');
    } else {
      var c, r := p[0], p[1..];
      FieldsTwice(r);
      assert p == [c] + r;
      SplitCons(c, r, '/');
      var segs := Split(r, '/');
      assert segs == [segs[0]] + segs[1..];
      FieldsOfFirst(c, segs);
    }
  }

  lemma FieldsOfAllCons(x: string, segs: seq<string>)
    ensures FieldsOfAll([x] + segs) == Split(x, '\\') + FieldsOfAll(segs)
  {
    hide Split;
    assert ([x] + segs)[1..] == segs;
  }

  lemma FieldsOfFirst(c: char, segs: seq<string>)
    requires segs != []
    ensures var all := FieldsOfAll(segs);
            |all| >= 1 &&
            (if c == '/' then FieldsOfAll([""] + segs) == [""] + all
             else FieldsOfAll([[c] + segs[0]] + segs[1..]) ==
                  if c == '\\' then [""] + all else [[c] + all[0]] + all[1..])
  {
    hide Split, FieldsOfAll;
    var h, t := segs[0], segs[1..];
    assert segs == [h] + t;
    FieldsOfAllCons(h, t);
    if c == '/' {
      SplitWhole("", '\\');
      FieldsOfAllCons("", segs);
    } else {
      SplitCons(c, h, '\\');
      FieldsOfAllCons([c] + h, t);
      HeadOfConcat(c, Split(h, '\\'), FieldsOfAll(t));
    }
  }

  lemma {:induction false} InFieldsOfAll(segs: seq<string>, f: string)
    ensures f in FieldsOfAll(segs) <==> exists s | s in segs :: f in Split(s, '\\')
  {
    hide Split;
    if segs != [] {
      InFieldsOfAll(segs[1..], f);
      assert segs == [segs[0]] + segs[1..];
      assert f in FieldsOfAll(segs) <==> f in Split(segs[0], '\\') || f in FieldsOfAll(segs[1..]);
    }
  }

  lemma ParentSegment(p: string)
    ensures ContainsParentSegment(p) <==> MentionsParent(p)
  {
    FieldsTwice(p);
    InFieldsOfAll(Split(p, '/'), "..");
  }

  // ----- the subpath -----

  /** Without "..", cleaning only drops the trivial segments. */
  lemma {:induction false} ResolveNonTrivial(segs: seq<string>)
    requires forall s | s in segs :: s != ".."
    ensures Resolve(false, segs) == NonTrivial(segs)
  {
    if segs != [] {
      var n := |segs| - 1;
      assert segs[n] in segs;
      forall s | s in segs[..n] ensures s != ".." { assert s in segs; }
      ResolveNonTrivial(segs[..n]);
    }
  }

  lemma NoParentNoDotDot(raw: string)
    requires !MentionsParent(raw)
    ensures forall s | s in Split(raw, '/') :: s != ".."
    ensures forall s | s in Names(raw) :: Name(s) && s != ".." && ".." !in Split(s, '\\')
  {
    SplitWhole("..", '\\');
  }

  lemma NamesJoined(names: seq<string>)
    requires names != [] && forall s | s in names :: Name(s) && s != ".."
    ensures Normal(false, names) && Render(false, names) == Join(names, "/")
    ensures Join(names, "/") != "" && Join(names, "/") != "."
    ensures Join(names, "/")[0] == names[0][0] && names[0][0] != '/'
    ensures Split(Join(names, "/"), '/') == names
  {
    assert names[0] in names;
    JoinStart(names);
    SplitJoin(names, '/');
    SplitWhole(".", '/');
    assert names[0][0] in names[0];
  }

  lemma CleanSub(raw: string)
    requires raw != "" && !IsAbs(raw) && !MentionsParent(raw)
    ensures Clean(raw) == Render(false, Names(raw))
  {
    NoParentNoDotDot(raw);
    ResolveNonTrivial(Split(raw, '/'));
  }

  /** The second traversal check never fires: no segment of the cleaned subpath hides a "..". */
  lemma SecondCheckSilent(raw: string)
    requires !MentionsParent(raw) && Names(raw) != []
    ensures !ContainsParentSegment(Join(Names(raw), "/"))
  {
    NoParentNoDotDot(raw);
    NamesJoined(Names(raw));
    ParentSegment(Join(Names(raw), "/"));
  }

  // ----- under the base -----

  lemma SegmentsUnder(base: seq<string>, names: seq<string>)
    requires Normal(true, base) && names != [] && forall s | s in names :: Name(s) && s != ".."
    ensures Normal(true, base + names)
    ensures PathJoin(Render(true, base), Join(names, "/")) == Render(true, base + names)
  {
    var b, sub := Render(true, base), Join(names, "/");
    NamesJoined(names);
    assert Normal(true, base + names) by {
      forall i | 0 <= i < |base + names| ensures Name((base + names)[i]) && (base + names)[i] != ".." {
        if i >= |base| { assert (base + names)[i] in names; }
      }
    }
    SplitConcat(b, '/', sub);
    assert b + "/" + sub == b + ['/'] + sub;
    ResolveAppends(true, Split(b, '/'), names);
    SegmentsRender(true, base);
  }

  lemma {:induction false} CommonPrefixFull(a: seq<string>, b: seq<string>)
    ensures CommonPrefix(a, a + b) == |a|
  {
    if a != [] {
      assert (a + b)[1..] == a[1..] + b;
      CommonPrefixFull(a[1..], b);
    }
  }

  /** The path of the result relative to the base is the cleaned subpath. */
  lemma RelUnder(base: seq<string>, names: seq<string>)
    requires Normal(true, base) && Normal(true, base + names)
    requires names != [] && forall s | s in names :: Name(s) && s != ".."
    ensures IsAbs(Render(true, base)) && IsAbs(Render(true, base + names))
    ensures RelRooted(Render(true, base), Render(true, base + names)) == Join(names, "/")
  {
    var b, t := Render(true, base), Render(true, base + names);
    SegmentsRender(true, base);
    SegmentsRender(true, base + names);
    CommonPrefixFull(base, names);
    assert (base + names)[|base|..] == names;
    assert Parents(0) + names == names;
    assert base != base + names;
    assert Clean(b) == b && Clean(t) == t;
  }

  lemma NotEscaping(names: seq<string>)
    requires names != [] && forall s | s in names :: Name(s) && s != ".."
    ensures Join(names, "/") != ".." && !("../" <= Join(names, "/"))
  {
    var sub := Join(names, "/");
    NamesJoined(names);
    assert names[0] in names;
    SplitWhole("..", '/');
    if "../" <= sub {
      var rest := sub[3..];
      assert sub == ".." + ['/'] + rest;
      SplitAtSeparator("..", '/', rest);
    }
  }

  // ----- main results -----

  lemma Joined(raw: string, base: string)
    requires raw != "" && !IsAbs(raw) && !MentionsParent(raw) && Names(raw) != [] && IsAbs(base)
    ensures var result := Render(true, Segments(base) + Names(raw));
            && Clean(PathJoin(Clean(base), Clean(raw))) == result
            && IsAbs(Clean(base)) && IsAbs(result)
            && RelRooted(Clean(base), result) == Clean(raw)
            && Clean(raw) != ".." && !("../" <= Clean(raw))
  {
    hide Resolve, RelRooted;
    var names := Names(raw);
    NoParentNoDotDot(raw);
    CleanSub(raw);
    NamesJoined(names);
    SegmentsNormal(base);
    SegmentsUnder(Segments(base), names);
    SegmentsRender(true, Segments(base) + names);
    RelUnder(Segments(base), names);
    NotEscaping(names);
  }

  /** For every subpath and base, validation decides by the segments alone: the second traversal check
      and the escape check never fire. */
  lemma ValidateDecides(raw: string, baseDir: string)
    ensures ValidateHostPath(raw, baseDir) == Decision(raw, baseDir)
  {
    hide Clean, PathJoin, RelRooted, Fields, Segments, MentionsParent, Names;
    var base := BaseOr(baseDir);
    CleanIdempotent(base);
    ParentSegment(raw);
    if raw != "" && IsAbs(base) && !IsAbs(raw) && raw[0] != '\\' && !WinDriveLetter(raw) && !MentionsParent(raw) {
      CleanSub(raw);
      NoParentNoDotDot(raw);
      if Names(raw) != [] {
        NamesJoined(Names(raw));
        SecondCheckSilent(raw);
        Joined(raw, base);
      }
    }
  }

  /** An accepted subpath: the result is the base followed by the raw names, in order, none of them
      empty, "." or "..", and its path relative to the base is the cleaned subpath. */
  lemma AcceptedUnderBase(raw: string, baseDir: string)
    requires ValidateHostPath(raw, baseDir).Ok?
    ensures var path, base := ValidateHostPath(raw, baseDir).path, BaseOr(baseDir);
            && IsAbs(base) && IsAbs(path)
            && Names(raw) != []
            && (forall s | s in Names(raw) :: Name(s) && s != "..")
            && Segments(path) == Segments(base) + Names(raw)
            && IsAbs(Clean(base)) && RelRooted(Clean(base), path) == Clean(raw)
  {
    ValidateDecides(raw, baseDir);
    Joined(raw, BaseOr(baseDir));
    NoParentNoDotDot(raw);
    SegmentsNormal(BaseOr(baseDir));
    SegmentsUnder(Segments(BaseOr(baseDir)), Names(raw));
    SegmentsRender(true, Segments(BaseOr(baseDir)) + Names(raw));
  }

  /** The base as the operator stores it: defaulted, then cleaned; a relative one is refused. */
  function ConfiguredBase(baseDir: string): Option<string>
  {
    var cleaned := Clean(BaseOr(baseDir));
    if IsAbs(cleaned) then Some(cleaned) else None
  }

  /** Cleaning the base beforehand never changes the outcome. */
  lemma PreCleaningIsHarmless(raw: string, baseDir: string)
    ensures ConfiguredBase(baseDir).Some? ==>
              ValidateHostPath(raw, ConfiguredBase(baseDir).value) == ValidateHostPath(raw, baseDir)
    ensures ConfiguredBase(baseDir).None? ==> !ValidateHostPath(raw, baseDir).Ok?
  {
    hide ValidateHostPath;
    ValidateDecides(raw, baseDir);
    CleanIdempotent(BaseOr(baseDir));
    if ConfiguredBase(baseDir).Some? {
      ValidateDecides(raw, ConfiguredBase(baseDir).value);
    }
  }

  /** The absolute-path check after cleaning is needed: `./\x` passes every check before it. */
  lemma SecondAbsoluteCheckFires(baseDir: string)
    requires IsAbs(BaseOr(baseDir))
    ensures ValidateHostPath("./\\x", baseDir) == Err(Absolute)
    ensures !MentionsParent("./\\x") && "./\\x"[0] != '\\' && !WinDriveLetter("./\\x")
  {
    var raw, x := "./\\x", "\\x";
    NamesOfDotBackslash();
    ValidateDecides(raw, baseDir);
  }

  lemma SplitDotBackslash()
    ensures Split("./\\x", '/') == [".", "\\x"]
    ensures Split(".", '\\') == ["."] && Split("\\x", '\\') == ["", "x"]
  {
    hide Split;
    assert "./\\x" == "." + ['/'] + "\\x";
    SplitAtSeparator(".", '/', "\\x");
    SplitWhole("\\x", '/');
    SplitWhole(".", '\\');
    SplitCons('\\', "x", '\\');
    SplitWhole("x", '\\');
    assert ['\\'] + "x" == "\\x";
  }

  lemma NamesOfDotBackslash()
    ensures !MentionsParent("./\\x") && Names("./\\x") == ["\\x"]
  {
    hide Split;
    SplitDotBackslash();
    NonTrivialPair(".", "\\x");
  }

  lemma NonTrivialPair(a: string, b: string)
    ensures NonTrivial([a, b]) == (if Trivial(a) then [] else [a]) + (if Trivial(b) then [] else [b])
  {
    assert [a, b][..1] == [a] && [a][..0] == [];
    assert NonTrivial([a]) == NonTrivial([]) + (if Trivial(a) then [] else [a]);
  }

  // ----- drive letters and the default base -----

  lemma DriveLetterExactly(s: string)
    ensures WinDriveLetter(s) <==>
            exists x: char, sep: char, rest: string ::
              ('a' <= x <= 'z' || 'A' <= x <= 'Z') && (sep == '/' || sep == '\\') && s == [x, ':', sep] + rest
  {
    if WinDriveLetter(s) {
      assert s == [s[0], ':', s[2]] + s[3..];
    }
  }

  /** A subpath that starts like a drive is refused whatever follows, and one that starts like a scheme
      or a label without a slash is not. */
  lemma DriveLetterRefused(x: char, c: char, rest: string, baseDir: string)
    requires ('a' <= x <= 'z' || 'A' <= x <= 'Z') && IsAbs(BaseOr(baseDir))
    ensures c == '/' || c == '\\' ==> ValidateHostPath([x, ':', c] + rest, baseDir) == Err(Absolute)
    ensures c != '/' && c != '\\' ==> ValidateHostPath([x, ':', c] + rest, baseDir) != Err(Absolute)
  {
    hide Clean, PathJoin, RelRooted, Fields, Segments, MentionsParent, ValidateHostPath, Split;
    var raw := [x, ':', c] + rest;
    ValidateDecides(raw, baseDir);
    assert raw[0] == x && raw[1] == ':' && raw[2] == c;
    if c != '/' && c != '\\' {
      FirstName(raw);
    }
  }

  lemma FirstName(raw: string)
    requires raw != "" && raw[0] != '/' && raw[0] != '.'
    ensures Names(raw) != [] && Names(raw)[0] != "" && Names(raw)[0][0] == raw[0]
  {
    hide Split;
    var parts := Split(raw, '/');
    SplitCons(raw[0], raw[1..], '/');
    assert [raw[0]] + raw[1..] == raw;
    assert parts[0][0] == raw[0];
    NonTrivialFirst(parts);
  }

  lemma {:induction false} NonTrivialFirst(segs: seq<string>)
    requires segs != [] && !Trivial(segs[0])
    ensures NonTrivial(segs) != [] && NonTrivial(segs)[0] == segs[0]
  {
    if |segs| > 1 {
      NonTrivialFirst(segs[..|segs| - 1]);
    } else {
      assert segs[..0] == [];
    }
  }

  /** No base configured means the default one. */
  lemma DefaultBase(raw: string)
    ensures ValidateHostPath(raw, "") == ValidateHostPath(raw, "/var/log/retina/captures")
  {
    hide Clean, PathJoin, RelRooted, Fields, WinDriveLetter;
  }
}
