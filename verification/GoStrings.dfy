/** The pieces of Go's `strings`, `strconv` and `sort` packages the modelled code
    calls: splitting and joining, decimal numbers, and sorted string lists. */
module GoStrings {

  datatype Option<+T> = None | Some(value: T)

  /** strings.Split for a one-character separator. */
  function Split(s: string, sep: char): (parts: seq<string>)
    ensures |parts| >= 1
    ensures |parts| == 1 <==> sep !in s
    ensures forall p | p in parts :: sep !in p
  {
    if s == "" then [""]
    else
      var rest := Split(s[1..], sep);
      if s[0] == sep then [""] + rest
      else [[s[0]] + rest[0]] + rest[1..]
  }

  /** strings.Join. */
  function Join(parts: seq<string>, sep: string): string
  {
    if |parts| == 0 then ""
    else if |parts| == 1 then parts[0]
    else parts[0] + sep + Join(parts[1..], sep)
  }

  lemma SplitCons(c: char, s: string, sep: char)
    ensures Split([c] + s, sep) ==
            if c == sep then [""] + Split(s, sep) else [[c] + Split(s, sep)[0]] + Split(s, sep)[1..]
  {
    assert ([c] + s)[1..] == s;
  }

  lemma {:induction false} SplitAtSeparator(a: string, sep: char, b: string)
    requires sep !in a
    ensures Split(a + [sep] + b, sep) == [a] + Split(b, sep)
  {
    hide Split;
    if a == "" {
      SplitCons(sep, b, sep);
      assert a + [sep] + b == [sep] + b;
    } else {
      SplitAtSeparator(a[1..], sep, b);
      SplitCons(a[0], a[1..] + [sep] + b, sep);
      assert a + [sep] + b == [a[0]] + (a[1..] + [sep] + b);
      assert [a[0]] + a[1..] == a;
    }
  }

  lemma HeadOfConcat(c: char, first: seq<string>, rest: seq<string>)
    requires first != []
    ensures [[c] + (first + rest)[0]] + (first + rest)[1..] == [[c] + first[0]] + first[1..] + rest
    ensures [""] + (first + rest) == [""] + first + rest
  {
  }

  /** Splitting around any one separator. */
  lemma {:induction false} SplitConcat(a: string, sep: char, b: string)
    ensures Split(a + [sep] + b, sep) == Split(a, sep) + Split(b, sep)
  {
    hide Split;
    if a == "" {
      SplitAtSeparator(a, sep, b);
      SplitWhole(a, sep);
    } else {
      var c, r := a[0], a[1..];
      SplitConcat(r, sep, b);
      assert a == [c] + r;
      assert a + [sep] + b == [c] + (r + [sep] + b);
      SplitCons(c, r + [sep] + b, sep);
      SplitCons(c, r, sep);
      HeadOfConcat(c, Split(r, sep), Split(b, sep));
    }
  }

  lemma {:induction false} SplitWhole(a: string, sep: char)
    requires sep !in a
    ensures Split(a, sep) == [a]
  {
    if a != "" {
      SplitWhole(a[1..], sep);
      assert [a[0]] + a[1..] == a;
    }
  }

  /** Splitting undoes joining when no part contains the separator. */
  lemma {:induction false} SplitJoin(parts: seq<string>, sep: char)
    requires |parts| >= 1
    requires forall p | p in parts :: sep !in p
    ensures Split(Join(parts, [sep]), sep) == parts
  {
    if |parts| == 1 {
      SplitWhole(parts[0], sep);
    } else {
      SplitJoin(parts[1..], sep);
      SplitAtSeparator(parts[0], sep, Join(parts[1..], [sep]));
      assert [parts[0]] + parts[1..] == parts;
    }
  }

  // ----- decimal numbers -----

  predicate IsDigit(c: char) { '0' <= c <= '9' }

  predicate IsDigits(s: string) { s != "" && forall c | c in s :: IsDigit(c) }

  function DigitOf(n: nat): (c: char)
    requires n < 10
    ensures IsDigit(c) && c as int - '0' as int == n
  {
    '0' + (n as char)
  }

  /** The value of a digit string, most significant digit first. */
  function Decimal(s: string): nat
    requires forall c | c in s :: IsDigit(c)
  {
    if s == "" then 0
    else
      assert IsDigit(s[|s| - 1]);
      10 * Decimal(s[..|s| - 1]) + (s[|s| - 1] as int - '0' as int)
  }

  /** Decimal printing (`%d`, strconv.Itoa) of a non-negative number. */
  function Itoa(n: nat): (s: string)
    ensures IsDigits(s)
    ensures Decimal(s) == n
    ensures |s| > 1 ==> s[0] != '0'
  {
    if n < 10 then [DigitOf(n)]
    else
      var front := Itoa(n / 10);
      var s := front + [DigitOf(n % 10)];
      assert s[..|s| - 1] == front;
      s
  }

  const MAX_INT: int := 0x7fff_ffff_ffff_ffff

  /** strconv.Atoi on a 64-bit platform: an optional sign, then digits, in range. */
  function Atoi(s: string): Option<int>
  {
    var neg := s != "" && s[0] == '-';
    var digits := if s != "" && (s[0] == '-' || s[0] == '+') then s[1..] else s;
    if !IsDigits(digits) then None
    else
      var n: int := Decimal(digits);
      if neg then (if n <= MAX_INT + 1 then Some(-n) else None)
      else if n <= MAX_INT then Some(n) else None
  }

  /** Digits with or without a sign are read as their number, up to the limits of a 64-bit int. */
  lemma AtoiReads(d: string)
    requires IsDigits(d)
    ensures Atoi(d) == if Decimal(d) <= 0x7fff_ffff_ffff_ffff then Some(Decimal(d)) else None
    ensures Atoi("+" + d) == Atoi(d)
    ensures var n: int := Decimal(d); Atoi("-" + d) == if n <= 0x8000_0000_0000_0000 then Some(-n) else None
  {
    assert IsDigit(d[0]) by { assert d[0] in d; }
    assert ("+" + d)[1..] == d && ("-" + d)[1..] == d;
  }

  /** Nothing else is read. */
  lemma AtoiRefuses(s: string)
    requires Atoi(s).Some?
    ensures IsDigits(s) || exists d :: IsDigits(d) && (s == "+" + d || s == "-" + d)
  {
    if !IsDigits(s) {
      assert s == [s[0]] + s[1..];
      assert IsDigits(s[1..]);
    }
  }

  // ----- order on strings -----

  /** Go's `<` on strings: by the first differing character, a prefix first. */
  predicate Less(a: string, b: string)
  {
    b != "" && (a == "" || a[0] < b[0] || (a[0] == b[0] && Less(a[1..], b[1..])))
  }

  /** The first difference decides, and a proper prefix comes first. */
  lemma {:induction false} LessExactly(p: string, x: char, r: string, y: char, s: string)
    ensures Less(p + [x] + r, p + [y] + s) <==> x < y || (x == y && Less(r, s))
    ensures Less(p, p + [x] + r) && !Less(p + [x] + r, p)
  {
    var a, b := p + [x] + r, p + [y] + s;
    if p == "" {
      assert a == [x] + r && b == [y] + s;
      assert a[1..] == r && b[1..] == s;
    } else {
      assert a[0] == b[0] == p[0];
      assert a[1..] == p[1..] + [x] + r && b[1..] == p[1..] + [y] + s;
      LessExactly(p[1..], x, r, y, s);
    }
  }

  predicate AtMost(a: string, b: string) { !Less(b, a) }

  lemma {:induction false} LessTransitive(a: string, b: string, c: string)
    requires AtMost(a, b) && AtMost(b, c)
    ensures AtMost(a, c)
  {
    if a != "" && b != "" && c != "" && a[0] == b[0] == c[0] {
      LessTransitive(a[1..], b[1..], c[1..]);
    }
  }

  lemma {:induction false} LessTotal(a: string, b: string)
    ensures AtMost(a, b) || AtMost(b, a)
    ensures AtMost(a, b) && AtMost(b, a) ==> a == b
  {
    if a != "" && b != "" && a[0] == b[0] {
      LessTotal(a[1..], b[1..]);
      assert a == [a[0]] + a[1..] && b == [b[0]] + b[1..];
    }
  }

  ghost predicate Sorted(xs: seq<string>)
  {
    forall i, j | 0 <= i < j < |xs| :: AtMost(xs[i], xs[j])
  }

  function InsertSorted(x: string, xs: seq<string>): seq<string>
  {
    if xs == [] then [x]
    else if AtMost(x, xs[0]) then [x] + xs
    else [xs[0]] + InsertSorted(x, xs[1..])
  }

  lemma {:induction false} InsertSortedKeeps(x: string, xs: seq<string>)
    ensures multiset(InsertSorted(x, xs)) == multiset(xs) + multiset{x}
  {
    if xs != [] {
      InsertSortedKeeps(x, xs[1..]);
      assert xs == [xs[0]] + xs[1..];
    }
  }

  lemma {:induction false} SortedCons(x: string, xs: seq<string>)
    requires Sorted(xs) && forall y | y in xs :: AtMost(x, y)
    ensures Sorted([x] + xs)
  {
    var r := [x] + xs;
    forall i, j | 0 <= i < j < |r| ensures AtMost(r[i], r[j]) {
      assert r[j] == xs[j - 1];
    }
  }

  lemma {:induction false} InsertSortedSorts(x: string, xs: seq<string>)
    requires Sorted(xs)
    ensures Sorted(InsertSorted(x, xs))
  {
    if xs == [] {
    } else if AtMost(x, xs[0]) {
      forall y | y in xs ensures AtMost(x, y) {
        LessTotal(y, y);
        LessTransitive(x, xs[0], y);
      }
      SortedCons(x, xs);
    } else {
      LessTotal(x, xs[0]);
      InsertSortedSorts(x, xs[1..]);
      InsertSortedKeeps(x, xs[1..]);
      var tail := InsertSorted(x, xs[1..]);
      forall y | y in tail ensures AtMost(xs[0], y) {
        assert y in multiset(tail);
        assert y == x || y in xs[1..];
      }
      SortedCons(xs[0], tail);
    }
  }

  /** sort.Strings. */
  function SortStrings(xs: seq<string>): (r: seq<string>)
    ensures Sorted(r) && multiset(r) == multiset(xs)
  {
    if xs == [] then []
    else
      var tail := SortStrings(xs[1..]);
      InsertSortedSorts(xs[0], tail);
      InsertSortedKeeps(xs[0], tail);
      TailMultiset(xs);
      InsertSorted(xs[0], tail)
  }

  lemma TailMultiset(xs: seq<string>)
    requires xs != []
    ensures multiset(xs[1..]) == multiset(xs) - multiset{xs[0]}
  {
    assert xs == [xs[0]] + xs[1..];
  }

  /** The first of a sorted listing is at most every element. */
  lemma FirstIsLeast(xs: seq<string>, x: string)
    requires Sorted(xs) && x in multiset(xs)
    ensures xs != [] && AtMost(xs[0], x)
  {
    LessTotal(x, x);
    var i :| 0 <= i < |xs| && xs[i] == x;
  }

  /** A multiset has one sorted listing, so sorting forgets the order it was given. */
  lemma {:induction false} SortedUnique(xs: seq<string>, ys: seq<string>)
    requires Sorted(xs) && Sorted(ys) && multiset(xs) == multiset(ys)
    ensures xs == ys
  {
    hide AtMost;
    if xs == [] {
      assert multiset(ys) == multiset{};
      assert |multiset(ys)| == |ys|;
    } else {
      assert xs[0] in multiset(ys);
      FirstIsLeast(ys, xs[0]);
      FirstIsLeast(xs, ys[0]);
      LessTotal(xs[0], ys[0]);
      TailMultiset(xs);
      TailMultiset(ys);
      SortedUnique(xs[1..], ys[1..]);
      assert xs == [xs[0]] + xs[1..] && ys == [ys[0]] + ys[1..];
    }
  }
}
