/** Carrying a non-negative integer in a float64: rounding to nearest, ties to even (section 4.3.1 of
    IEEE 754-2019), on the integers the flow extensions store (pkg/utils/flow_utils.go). */
module Float64 {
  import opened Powers

  /** The significand of a float64 has 53 bits. */
  const PRECISION: nat := 53
  const LIMIT: nat := 0x20_0000_0000_0000

  lemma LimitIsPow2() ensures LIMIT == Pow2(PRECISION)
  {
    Pow2Add(26, 27);
    assert Pow2(26) == 0x400_0000 && Pow2(27) == 0x800_0000 by { Pow2Add(13, 13); Pow2Add(13, 14); Pow2Thirteen(); }
  }

  lemma Pow2Thirteen() ensures Pow2(13) == 8192 && Pow2(14) == 16384
  {
    Pow2Add(6, 7);
    Pow2Add(7, 7);
    assert Pow2(6) == 64 by { Pow2Add(3, 3); assert Pow2(3) == 8; }
    assert Pow2(7) == 2 * Pow2(6);
  }

  /** How many low bits do not fit the significand. */
  function Excess(n: nat): nat { if n < LIMIT then 0 else 1 + Excess(n / 2) }

  /** The distance between neighbouring floats around `n`. */
  function Unit(n: nat): nat { Pow2(Excess(n)) }

  predicate RoundsUp(q: nat, r: nat, unit: nat) { 2 * r > unit || (2 * r == unit && q % 2 == 1) }

  /** The float below `n`, or `n` itself. */
  function Low(n: nat): nat { (n / Unit(n)) * Unit(n) }

  /** float64(n), as the integer it stands for. */
  function Round(n: nat): nat
  {
    var unit := Unit(n);
    var q, r := n / unit, n % unit;
    if RoundsUp(q, r, unit) then (q + 1) * unit else q * unit
  }

  predicate HasForm(m: nat, mantissa: nat, exponent: nat) { mantissa < LIMIT && m == mantissa * Pow2(exponent) }

  /** Some float64 has exactly this value. */
  ghost predicate Representable(m: nat) { exists mantissa, exponent :: HasForm(m, mantissa, exponent) }

  function Distance(a: int, b: int): int { if a < b then b - a else a - b }

  // ----- the significand of n -----

  lemma DivHalf(n: nat, k: nat)
    ensures (n / 2) / Pow2(k) == n / Pow2(k + 1)
  {
    var p := Pow2(k);
    var q := n / (2 * p);
    var r := n - q * (2 * p);
    assert 0 <= r < 2 * p;
    assert n / 2 == q * p + r / 2 by { assert n == 2 * (q * p) + r; }
    assert 0 <= r / 2 < p;
    QuotientUnique(n / 2, q, r / 2, p);
  }

  lemma QuotientUnique(n: int, q: int, r: int, p: int)
    requires p > 0 && n == q * p + r && 0 <= r < p
    ensures n / p == q && n % p == r
  {
    var q', r' := n / p, n % p;
    assert n == q' * p + r';
    MulStrict(q' + 1, q, p);
    MulStrict(q + 1, q', p);
  }

  /** Above the limit, exactly 53 bits are kept. */
  lemma {:induction false} Significand(n: nat)
    ensures n / Unit(n) < LIMIT
    ensures n >= LIMIT ==> Excess(n) >= 1 && LIMIT / 2 <= n / Unit(n)
  {
    if n >= LIMIT {
      Significand(n / 2);
      DivHalf(n, Excess(n / 2));
      if n / 2 < LIMIT {
        assert Unit(n / 2) == 1;
        assert (n / 2) / 1 == n / 2;
      }
    } else {
      assert Unit(n) == 1 && n / 1 == n;
    }
  }

  lemma Below(n: nat)
    requires n < LIMIT
    ensures Round(n) == n
  {
    assert Unit(n) == 1 && n / 1 == n && n % 1 == 0;
  }

  // ----- nearest -----

  lemma MulStrict(a: int, b: int, p: int)
    requires p > 0
    ensures a < b <==> a * p < b * p
    ensures a <= b ==> a * p <= b * p
  {
    if a < b { assert (a + 1) * p <= b * p; }
    if a > b { assert (b + 1) * p <= a * p; }
  }

  /** No float lies strictly between two neighbouring multiples of the unit. */
  lemma NoFloatBetween(n: nat, m: nat, mantissa: nat, exponent: nat)
    requires HasForm(m, mantissa, exponent) && n >= LIMIT
    ensures m <= Low(n) || Low(n) + Unit(n) <= m
  {
    var k, unit := Excess(n), Unit(n);
    var q := n / unit;
    Significand(n);
    if exponent >= k {
      Pow2Add(exponent - k, k);
      var c := mantissa * Pow2(exponent - k);
      assert m == c * unit by { MulAssoc(mantissa, Pow2(exponent - k), unit); }
      if c <= q { MulStrict(c, q, unit); } else { MulStrict(q + 1, c, unit); }
    } else {
      Pow2Add(k - 1 - exponent, exponent);
      var half := Pow2(k - 1);
      assert unit == 2 * half;
      assert Pow2(exponent) <= half by { MulAtLeast(Pow2(k - 1 - exponent), Pow2(exponent)); }
      assert m <= LIMIT * half by { MulMono(mantissa, LIMIT, Pow2(exponent), half); }
      assert LIMIT * half == (LIMIT / 2) * unit;
      MulStrict(LIMIT / 2, q, unit);
    }
  }

  lemma MulAssoc(a: nat, b: nat, c: nat) ensures a * (b * c) == (a * b) * c {}

  lemma MulAtLeast(a: nat, b: nat)
    requires a >= 1
    ensures b <= a * b
  {
  }

  lemma MulMono(a: nat, b: nat, c: nat, d: nat)
    requires a <= b && c <= d
    ensures a * c <= b * d
  {
    assert a * c <= b * c;
    assert b * c <= b * d;
  }

  lemma RoundedForm(n: nat)
    ensures Representable(Round(n))
  {
    var unit, k := Unit(n), Excess(n);
    var q := n / unit;
    Significand(n);
    if n < LIMIT {
      Below(n);
      assert Pow2(0) == 1 && HasForm(n, n, 0);
    } else if q + 1 < LIMIT || Round(n) == q * unit {
      assert HasForm(Round(n), if Round(n) == q * unit then q else q + 1, k);
    } else {
      LimitIsPow2();
      Pow2Add(PRECISION, k);
      assert Round(n) == 1 * Pow2(PRECISION + k);
      assert HasForm(Round(n), 1, PRECISION + k);
    }
  }

  /** The rounded value is a float, and no float is nearer to the integer. */
  lemma RoundIsNearest(n: nat, m: nat)
    requires Representable(m)
    ensures Representable(Round(n)) && Distance(n, Round(n)) <= Distance(n, m)
  {
    hide Round, Unit, Excess, Distance, Low;
    RoundedForm(n);
    if n < LIMIT {
      Below(n);
      Exact(n, m);
    } else {
      var mantissa, exponent :| HasForm(m, mantissa, exponent);
      NoFloatBetween(n, m, mantissa, exponent);
      Rounded(n);
      Nearer(n, Low(n), Unit(n), m, Round(n));
    }
  }

  lemma Exact(n: nat, m: nat) ensures Distance(n, n) <= Distance(n, m) {}

  lemma Rounded(n: nat)
    ensures var unit, low := Unit(n), Low(n);
            && low <= n < low + unit
            && ((Round(n) == low && 2 * (n - low) <= unit) || (Round(n) == low + unit && 2 * (n - low) >= unit))
  {
    hide Pow2, Excess;
    var unit := Unit(n);
    assert n == (n / unit) * unit + n % unit;
  }

  lemma Nearer(n: nat, low: nat, unit: nat, m: nat, x: nat)
    requires low <= n < low + unit && (m <= low || low + unit <= m)
    requires (x == low && 2 * (n - low) <= unit) || (x == low + unit && 2 * (n - low) >= unit)
    ensures Distance(n, x) <= Distance(n, m)
  {
  }

  /** On a tie the even significand is chosen. */
  lemma TieGoesToEven(n: nat)
    ensures var unit := Unit(n);
            2 * (n % unit) == unit ==> Round(n) % (2 * unit) == 0
  {
    var unit := Unit(n);
    var q := n / unit;
    var e := if q % 2 == 0 then q else q + 1;
    if 2 * (n % unit) == unit {
      assert Round(n) == e * unit;
      assert e * unit == (e / 2) * (2 * unit) by { assert e == 2 * (e / 2); }
      QuotientUnique(e * unit, e / 2, 0, 2 * unit);
    }
  }

  /** An integer survives the float64 exactly when it is representable; every integer up to 2^53 is. */
  lemma ExactIffRepresentable(n: nat)
    ensures Round(n) == n <==> Representable(n)
    ensures n <= LIMIT ==> Round(n) == n
  {
    RoundedForm(n);
    if Representable(n) { RoundIsNearest(n, n); }
    if n < LIMIT {
      Below(n);
    } else if n == LIMIT {
      LimitIsPow2();
      assert HasForm(n, 1, PRECISION);
      RoundIsNearest(n, n);
    }
  }

  /** The first integer that does not survive. */
  lemma FirstInexact()
    ensures Round(LIMIT + 1) == LIMIT
  {
    var n := LIMIT + 1;
    assert n / 2 == LIMIT / 2 && Excess(n / 2) == 0;
    assert Excess(n) == 1 && Unit(n) == 2 by { assert Pow2(0) == 1; }
  }
}
