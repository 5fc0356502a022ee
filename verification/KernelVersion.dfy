/** Linux kernel releases: parsing them, and ordering versions through their printed form
    (pkg/utils/kernel_version_linux.go), with the part of golang.org/x/mod/semver it relies on. */
module KernelVersion {
  import opened GoStrings

  // ----- printing -----

  /** `%d`. */
  function PrintInt(n: int): string { if n < 0 then "-" + Itoa(-n) else Itoa(n) }

  /** kernelSemverFromParts. */
  function SemverFromParts(major: int, minor: int, patch: int): string
  {
    "v" + (PrintInt(major) + ("." + (PrintInt(minor) + ("." + PrintInt(patch)))))
  }

  // ----- semver -----

  function DigitRun(s: string): (n: nat)
    ensures n <= |s| && forall i | 0 <= i < n :: IsDigit(s[i])
    ensures n < |s| ==> !IsDigit(s[n])
  {
    if s == "" || !IsDigit(s[0]) then 0 else 1 + DigitRun(s[1..])
  }

  /** A number without leading zeros, and what follows it. */
  function TakeInt(s: string): Option<(string, string)>
  {
    var n := DigitRun(s);
    if n == 0 || (s[0] == '0' && n != 1) then None else Some((s[..n], s[n..]))
  }

  datatype Semver = Invalid | Semver(major: string, minor: string, patch: string)

  /** A dot and a number, or "0" when the version stops here. */
  function ParseSemver(v: string): Semver
  {
    if v == "" || v[0] != 'v' then Invalid
    else
      var major := TakeInt(v[1..]);
      if major.None? then Invalid
      else if major.value.1 == "" then Semver(major.value.0, "0", "0")
      else if major.value.1[0] != '.' then Invalid
      else
        var minor := TakeInt(major.value.1[1..]);
        if minor.None? then Invalid
        else if minor.value.1 == "" then Semver(major.value.0, minor.value.0, "0")
        else if minor.value.1[0] != '.' then Invalid
        else
          var patch := TakeInt(minor.value.1[1..]);
          if patch.None? || patch.value.1 != "" then Invalid
          else Semver(major.value.0, minor.value.0, patch.value.0)
  }

  /** Numbers compare by length, then digit by digit. */
  function CompareInt(x: string, y: string): int
  {
    if x == y then 0
    else if |x| < |y| then -1
    else if |x| > |y| then 1
    else if Less(x, y) then -1 else 1
  }

  /** semver.Compare: an invalid version is below every valid one. */
  function Compare(v: string, w: string): int
  {
    var a, b := ParseSemver(v), ParseSemver(w);
    if a.Invalid? && b.Invalid? then 0
    else if a.Invalid? then -1
    else if b.Invalid? then 1
    else if CompareInt(a.major, b.major) != 0 then CompareInt(a.major, b.major)
    else if CompareInt(a.minor, b.minor) != 0 then CompareInt(a.minor, b.minor)
    else CompareInt(a.patch, b.patch)
  }

  datatype Version = Version(major: int, minor: int, patch: int)

  predicate AtLeast(v: Version, required: Version)
  {
    Compare(SemverFromParts(v.major, v.minor, v.patch),
            SemverFromParts(required.major, required.minor, required.patch)) >= 0
  }

  // ----- digit order is numeric order -----

  function Pow10(n: nat): nat { if n == 0 then 1 else 10 * Pow10(n - 1) }

  predicate AllDigits(s: string) { forall c | c in s :: IsDigit(c) }

  function DigitValue(c: char): int { c as int - '0' as int }

  lemma DecimalLast(s: string)
    requires s != "" && AllDigits(s)
    ensures AllDigits(s[..|s| - 1]) && AllDigits(s[1..]) && 0 <= DigitValue(s[0]) < 10
    ensures Decimal(s) == 10 * Decimal(s[..|s| - 1]) + DigitValue(s[|s| - 1])
  {
    assert IsDigit(s[0]);
    forall c | c in s[1..] ensures IsDigit(c) { assert c in s; }
    forall c | c in s[..|s| - 1] ensures IsDigit(c) { assert c in s; }
  }

  lemma ShiftDigit(d: int, p: int, x: int, l: int)
    ensures 10 * (d * p + x) + l == d * (10 * p) + (10 * x + l)
  {
  }

  lemma {:induction false} DecimalFront(s: string)
    requires s != "" && AllDigits(s)
    ensures AllDigits(s[1..]) && 0 <= DigitValue(s[0]) < 10
    ensures Decimal(s) == DigitValue(s[0]) * Pow10(|s| - 1) + Decimal(s[1..])
    decreases |s|
  {
    DecimalLast(s);
    if |s| > 1 {
      hide Decimal;
      var n := |s| - 1;
      var front, tail := s[..n], s[1..];
      DecimalFront(front);
      DecimalLast(tail);
      assert front[1..] == tail[..n - 1] && tail[n - 1] == s[n] && front[0] == s[0];
      ShiftDigit(DigitValue(s[0]), Pow10(n - 1), Decimal(front[1..]), DigitValue(s[n]));
    } else {
      assert s[..0] == "" && s[1..] == "";
    }
  }

  lemma {:induction false} DecimalBound(s: string)
    requires AllDigits(s)
    ensures Decimal(s) < Pow10(|s|)
    decreases |s|
  {
    if s != "" {
      var front := s[..|s| - 1];
      forall c | c in front ensures IsDigit(c) { assert c in s; }
      assert IsDigit(s[|s| - 1]);
      DecimalBound(front);
    }
  }

  /** Among numbers of equal length, the lexicographic order is the numeric one. */
  lemma {:induction false} LexIsNumeric(x: string, y: string)
    requires |x| == |y| && AllDigits(x) && AllDigits(y)
    ensures Less(x, y) <==> Decimal(x) < Decimal(y)
    ensures x == y <==> Decimal(x) == Decimal(y)
    decreases |x|
  {
    if x != "" {
      DecimalFront(x);
      DecimalFront(y);
      DecimalBound(x[1..]);
      DecimalBound(y[1..]);
      LexIsNumeric(x[1..], y[1..]);
      var dx, dy, p := DigitValue(x[0]), DigitValue(y[0]), Pow10(|x| - 1);
      LeadingDigit(dx, dy, p, Decimal(x[1..]), Decimal(y[1..]));
      assert x == [x[0]] + x[1..] && y == [y[0]] + y[1..];
    }
  }

  lemma LeadingDigit(dx: int, dy: int, p: nat, rx: nat, ry: nat)
    requires rx < p && ry < p
    ensures dx < dy ==> dx * p + rx < dy * p + ry
    ensures dx == dy ==> (dx * p + rx < dy * p + ry <==> rx < ry)
    ensures dx > dy ==> dx * p + rx > dy * p + ry
  {
    if dx < dy {
      assert (dx + 1) * p <= dy * p;
    } else if dx > dy {
      assert (dy + 1) * p <= dx * p;
    }
  }

  predicate Canonical(s: string) { IsDigits(s) && (|s| > 1 ==> s[0] != '0') }

  lemma {:induction false} Pow10Grows(m: nat, n: nat)
    requires m <= n
    ensures 0 < Pow10(m) <= Pow10(n)
  {
    if m < n { Pow10Grows(m, n - 1); } else if m > 0 { Pow10Grows(m - 1, n - 1); }
  }

  lemma LeadingPart(d: int, p: nat, r: nat)
    requires d >= 1
    ensures p <= d * p + r
  {
  }

  /** A shorter number without leading zeros is the smaller one. */
  lemma ShorterIsSmaller(x: string, y: string)
    requires Canonical(x) && Canonical(y) && |x| < |y|
    ensures Decimal(x) < Decimal(y)
  {
    hide Decimal, Pow10;
    DecimalBound(x);
    DecimalFront(y);
    Pow10Grows(|x|, |y| - 1);
    LeadingPart(DigitValue(y[0]), Pow10(|y| - 1), Decimal(y[1..]));
  }

  function Sign(x: int): int { if x < 0 then -1 else if x > 0 then 1 else 0 }

  lemma CompareIntIsNumeric(x: string, y: string)
    requires Canonical(x) && Canonical(y)
    ensures CompareInt(x, y) == Sign(Decimal(x) - Decimal(y))
  {
    if |x| < |y| {
      ShorterIsSmaller(x, y);
    } else if |x| > |y| {
      ShorterIsSmaller(y, x);
    } else {
      LexIsNumeric(x, y);
    }
  }

  // ----- the printed version -----

  lemma {:induction false} DigitRunConcat(a: string, b: string)
    requires AllDigits(a) && (b == "" || !IsDigit(b[0]))
    ensures DigitRun(a + b) == |a|
  {
    if a != "" {
      assert IsDigit(a[0]);
      forall c | c in a[1..] ensures IsDigit(c) { assert c in a; }
      assert (a + b)[1..] == a[1..] + b;
      DigitRunConcat(a[1..], b);
    } else {
      assert a + b == b;
    }
  }

  lemma TakePrinted(n: int, rest: string)
    requires rest == "" || rest[0] == '.'
    ensures TakeInt(PrintInt(n) + rest) == if n < 0 then None else Some((PrintInt(n), rest))
  {
    var p := PrintInt(n);
    if n < 0 {
      assert (p + rest)[0] == '-';
    } else {
      DigitRunConcat(p, rest);
      assert (p + rest)[..|p|] == p && (p + rest)[|p|..] == rest;
      assert (p + rest)[0] == p[0];
    }
  }

  /** A printed version is valid exactly when no part is negative, and parses to its printed parts. */
  lemma ParsePrinted(a: int, b: int, c: int)
    ensures ParseSemver(SemverFromParts(a, b, c)) ==
            if a < 0 || b < 0 || c < 0 then Invalid else Semver(PrintInt(a), PrintInt(b), PrintInt(c))
  {
    hide TakeInt, PrintInt;
    var v := SemverFromParts(a, b, c);
    var r2 := "." + PrintInt(c);
    var r1 := "." + (PrintInt(b) + r2);
    assert v[1..] == PrintInt(a) + r1;
    assert r1[1..] == PrintInt(b) + r2;
    assert r2[1..] == PrintInt(c) + "";
    TakePrinted(a, r1);
    TakePrinted(b, r2);
    TakePrinted(c, "");
  }

  predicate Negative(v: Version) { v.major < 0 || v.minor < 0 || v.patch < 0 }

  /** Lexicographic order on (major, minor, patch). */
  predicate LexAtLeast(v: Version, w: Version)
  {
    v.major > w.major || (v.major == w.major && (v.minor > w.minor || (v.minor == w.minor && v.patch >= w.patch)))
  }

  /** Comparing the printed versions is comparing the numbers; a negative part makes a version
      lower than every other. */
  lemma AtLeastIsLexicographic(v: Version, w: Version)
    ensures !Negative(v) && !Negative(w) ==> (AtLeast(v, w) <==> LexAtLeast(v, w))
    ensures Negative(w) ==> AtLeast(v, w)
    ensures Negative(v) && !Negative(w) ==> !AtLeast(v, w)
  {
    hide SemverFromParts, ParseSemver, CompareInt, Itoa;
    ParsePrinted(v.major, v.minor, v.patch);
    ParsePrinted(w.major, w.minor, w.patch);
    if !Negative(v) && !Negative(w) {
      ComparePrinted(v.major, w.major);
      ComparePrinted(v.minor, w.minor);
      ComparePrinted(v.patch, w.patch);
    }
  }

  lemma ComparePrinted(m: nat, n: nat)
    ensures CompareInt(PrintInt(m), PrintInt(n)) == Sign(m - n)
  {
    CompareIntIsNumeric(Itoa(m), Itoa(n));
  }

  // ----- releases -----

  datatype Release = Parsed(version: Version) | BadFormat | BadMajor | BadMinor | BadPatch | BadSemver

  /** strings.SplitN(s, sep, 2)[0]. */
  function Before(s: string, sep: char): string { Split(s, sep)[0] }

  function BaseOf(release: string): string { Before(Before(release, '-'), '+') }

  /** normalizeKernelReleaseToSemver and ParseLinuxKernelRelease. */
  function ParseRelease(release: string): Release
  {
    var parts := Split(BaseOf(release), '.');
    if |parts| < 2 then BadFormat
    else
      var major := Atoi(parts[0]);
      if major.None? then BadMajor
      else
        var minor := Atoi(parts[1]);
        if minor.None? then BadMinor
        else
          var patch := if |parts| >= 3 then Atoi(parts[2]) else Some(0);
          if patch.None? then BadPatch
          else if ParseSemver(SemverFromParts(major.value, minor.value, patch.value)).Invalid? then BadSemver
          else Parsed(Version(major.value, minor.value, patch.value))
  }

  lemma {:induction false} SplitSubset(s: string, sep: char, part: string, c: char)
    requires part in Split(s, sep) && c in part
    ensures c in s
  {
    if s != "" {
      var rest := Split(s[1..], sep);
      assert rest == [rest[0]] + rest[1..];
      if part in rest {
        SplitSubset(s[1..], sep, part, c);
      } else if s[0] != sep {
        assert part == [s[0]] + rest[0];
        if c != s[0] { SplitSubset(s[1..], sep, rest[0], c); }
      }
    }
  }

  lemma {:induction false} BeforeConcat(a: string, b: string, sep: char)
    requires sep !in a
    ensures Before(a + b, sep) == a + Before(b, sep)
  {
    hide Split;
    if a == "" {
      assert a + b == b;
    } else {
      var c, r := a[0], a[1..];
      assert a == [c] + r && a + b == [c] + (r + b);
      SplitCons(c, r + b, sep);
      BeforeConcat(r, b, sep);
    }
  }

  lemma UnsignedParts(release: string, part: string)
    requires part in Split(BaseOf(release), '.')
    ensures '-' !in part && '+' !in part
  {
    var base := Before(release, '-');
    assert Split(base, '+')[0] in Split(base, '+');
    assert Split(release, '-')[0] in Split(release, '-');
    if '-' in part {
      SplitSubset(BaseOf(release), '.', part, '-');
      SplitSubset(base, '+', BaseOf(release), '-');
    }
    if '+' in part {
      SplitSubset(BaseOf(release), '.', part, '+');
    }
  }

  lemma AtoiUnsigned(s: string)
    requires '-' !in s && Atoi(s).Some?
    ensures Atoi(s).value >= 0
  {
  }

  /** Every parsed release has non-negative parts, so the check of the printed semver never fails. */
  lemma ParsedIsNonNegative(release: string)
    ensures !ParseRelease(release).BadSemver?
    ensures ParseRelease(release).Parsed? ==> !Negative(ParseRelease(release).version)
  {
    hide Split, Atoi, SemverFromParts, ParseSemver;
    var parts := Split(BaseOf(release), '.');
    forall part | part in parts ensures Atoi(part).Some? ==> Atoi(part).value >= 0 {
      UnsignedParts(release, part);
      if Atoi(part).Some? { AtoiUnsigned(part); }
    }
    if |parts| >= 2 && Atoi(parts[0]).Some? && Atoi(parts[1]).Some? {
      assert parts[0] in parts && parts[1] in parts;
      var patch := if |parts| >= 3 then Atoi(parts[2]) else Some(0);
      if patch.Some? {
        if |parts| >= 3 { assert parts[2] in parts; }
        ParsePrinted(Atoi(parts[0]).value, Atoi(parts[1]).value, patch.value);
      }
    }
  }

  lemma AtoiItoa(n: nat)
    requires n <= MAX_INT
    ensures Atoi(Itoa(n)) == Some(n)
    ensures '-' !in Itoa(n) && '+' !in Itoa(n) && '.' !in Itoa(n)
  {
    assert Itoa(n)[0] in Itoa(n);
  }

  predicate EndsVersion(suffix: string)
  {
    suffix == "" || suffix[0] == '-' || suffix[0] == '+' || suffix[0] == '.'
  }

  /** The base of a version text keeps the version, and of the suffix at most what follows a dot. */
  lemma BaseOfSuffixed(body: string, suffix: string)
    requires '-' !in body && '+' !in body && EndsVersion(suffix)
    ensures exists t :: BaseOf(body + suffix) == body + t && (t == "" || t[0] == '.') &&
                        (suffix == "" || suffix[0] != '.' ==> t == "")
  {
    var u := Before(suffix, '-');
    BeforeConcat(body, suffix, '-');
    BeforeConcat(body, u, '+');
    var t := Before(u, '+');
    BeforeStart(suffix, '-');
    BeforeStart(u, '+');
    assert BaseOf(body + suffix) == body + t;
  }

  lemma BeforeStart(s: string, sep: char)
    ensures Before(s, sep) == "" <==> s == "" || s[0] == sep
    ensures Before(s, sep) != "" ==> Before(s, sep)[0] == s[0]
  {
  }

  lemma SplitTwo(a: string, b: string)
    requires '.' !in a
    ensures Split(a + ("." + b), '.') == [a] + Split(b, '.')
  {
    hide Split;
    assert a + ("." + b) == a + ['.'] + b;
    SplitAtSeparator(a, '.', b);
  }

  lemma ThreeParts(a: string, b: string, c: string, t: string)
    requires '.' !in a && '.' !in b && '.' !in c && (t == "" || t[0] == '.')
    ensures var parts := Split(a + ("." + (b + ("." + c))) + t, '.');
            |parts| >= 3 && parts[0] == a && parts[1] == b && parts[2] == c
  {
    hide Split;
    assert a + ("." + (b + ("." + c))) + t == a + ("." + (b + ("." + (c + t))));
    SplitTwo(a, b + ("." + (c + t)));
    SplitTwo(b, c + t);
    FirstOfTail(c, t);
  }

  /** Parsing reads back a printed version, whatever distribution suffix follows it. */
  lemma ParseRoundTrip(a: nat, b: nat, c: nat, suffix: string)
    requires a <= MAX_INT && b <= MAX_INT && c <= MAX_INT && EndsVersion(suffix)
    ensures ParseRelease(Itoa(a) + ("." + (Itoa(b) + ("." + Itoa(c)))) + suffix) == Parsed(Version(a, b, c))
  {
    hide Split, Atoi, Itoa, SemverFromParts, ParseSemver, BaseOf;
    AtoiItoa(a);
    AtoiItoa(b);
    AtoiItoa(c);
    var body := Itoa(a) + ("." + (Itoa(b) + ("." + Itoa(c))));
    BaseOfSuffixed(body, suffix);
    var t :| BaseOf(body + suffix) == body + t && (t == "" || t[0] == '.');
    ThreeParts(Itoa(a), Itoa(b), Itoa(c), t);
    ParsePrinted(a, b, c);
  }

  lemma FirstOfTail(c: string, t: string)
    requires '.' !in c && (t == "" || t[0] == '.')
    ensures Split(c + t, '.')[0] == c
  {
    BeforeConcat(c, t, '.');
    BeforeStart(t, '.');
  }

  /** A two-part release has patch 0. */
  lemma ParseTwoParts(a: nat, b: nat, suffix: string)
    requires a <= MAX_INT && b <= MAX_INT && EndsVersion(suffix) && (suffix == "" || suffix[0] != '.')
    ensures ParseRelease(Itoa(a) + ("." + Itoa(b)) + suffix) == Parsed(Version(a, b, 0))
  {
    hide Split, Atoi, Itoa, SemverFromParts, ParseSemver, BaseOf;
    AtoiItoa(a);
    AtoiItoa(b);
    var body := Itoa(a) + ("." + Itoa(b));
    BaseOfSuffixed(body, suffix);
    var t :| BaseOf(body + suffix) == body + t && (suffix == "" || suffix[0] != '.' ==> t == "");
    assert body + "" == body;
    SplitTwo(Itoa(a), Itoa(b));
    SplitWhole(Itoa(b), '.');
    ParsePrinted(a, b, 0);
  }

  // ----- exactly which releases are parsed -----

  /** A release is cut at its first '-' or '+'. */
  predicate CutsTo(release: string, base: string, tail: string)
  {
    release == base + tail && '-' !in base && '+' !in base && (tail == "" || tail[0] == '-' || tail[0] == '+')
  }

  lemma {:induction false} EveryReleaseCuts(release: string)
    ensures exists base, tail :: CutsTo(release, base, tail)
  {
    if release == "" || release[0] == '-' || release[0] == '+' {
      assert CutsTo(release, "", release) by { assert release == "" + release; }
    } else {
      EveryReleaseCuts(release[1..]);
      var base, tail :| CutsTo(release[1..], base, tail);
      assert release == [release[0]] + base + tail;
      assert CutsTo(release, [release[0]] + base, tail);
    }
  }

  lemma CutIsBase(release: string, base: string, tail: string)
    requires CutsTo(release, base, tail)
    ensures BaseOf(release) == base
  {
    hide Split;
    var u := Before(tail, '-');
    BeforeConcat(base, tail, '-');
    BeforeConcat(base, u, '+');
    BeforeStart(tail, '-');
    BeforeStart(u, '+');
    assert base + "" == base;
  }

  /** Digits only, and within a 64-bit int. */
  predicate VersionPart(s: string) { IsDigits(s) && Decimal(s) <= MAX_INT }

  lemma PartReads(s: string)
    requires '-' !in s && '+' !in s
    ensures Atoi(s).Some? <==> VersionPart(s)
    ensures VersionPart(s) ==> Atoi(s) == Some(Decimal(s))
  {
    hide Atoi;
    if Atoi(s).Some? { AtoiRefuses(s); }
    if IsDigits(s) { AtoiReads(s); }
  }

  /** The dot-separated parts in front of the first '-' or '+' decide: two are needed, the first two and
      a third, if there is one, must be numbers, and what follows them does not matter. */
  lemma ParsedExactly(release: string, base: string, tail: string)
    requires CutsTo(release, base, tail)
    ensures var parts, r := Split(base, '.'), ParseRelease(release);
            && (r.BadFormat? <==> |parts| < 2)
            && (r.BadMajor? <==> |parts| >= 2 && !VersionPart(parts[0]))
            && (r.BadMinor? <==> |parts| >= 2 && VersionPart(parts[0]) && !VersionPart(parts[1]))
            && (r.BadPatch? <==>
                  |parts| >= 3 && VersionPart(parts[0]) && VersionPart(parts[1]) && !VersionPart(parts[2]))
            && (r.Parsed? ==> r.version == Version(Decimal(parts[0]), Decimal(parts[1]),
                                                   if |parts| >= 3 then Decimal(parts[2]) else 0))
  {
    hide Split, Atoi, SemverFromParts, ParseSemver, BaseOf, Decimal;
    CutIsBase(release, base, tail);
    ParsedIsNonNegative(release);
    var parts := Split(base, '.');
    forall part | part in parts
      ensures Atoi(part).Some? <==> VersionPart(part)
      ensures VersionPart(part) ==> Atoi(part) == Some(Decimal(part))
    {
      UnsignedParts(release, part);
      PartReads(part);
    }
    assert parts[0] in parts;
    if |parts| >= 2 { assert parts[1] in parts; }
    if |parts| >= 3 { assert parts[2] in parts; }
  }
}
