/** Whole numbers in double precision: which of them have a double, and to which one another is rounded. */
module Doubles {
  import opened Bytes

  const TWO53: nat := 0x20_0000_0000_0000

  /** 53 significant bits. The largest exponent is not modelled. */
  predicate FitsDouble(m: nat) {
    m < TWO53 || (m % 2 == 0 && FitsDouble(m / 2))
  }

  /** To a multiple of the unit: the nearer one, of two equally near ones the even one. */
  function ToMultiple(n: nat, unit: nat): nat
    requires unit >= 1
  {
    var q, r := n / unit, n % unit;
    if 2 * r < unit || (2 * r == unit && q % 2 == 0) then q * unit else (q + 1) * unit
  }

  /** The unit is the power of two that leaves 53 bits. */
  function RoundFrom(n: nat, k: nat): nat
    decreases n - TWO53 * Pow2(k)
  {
    if n < TWO53 * Pow2(k) then ToMultiple(n, Pow2(k)) else RoundFrom(n, k + 1)
  }

  function ToDouble(n: nat): nat {
    RoundFrom(n, 0)
  }

  function Distance(a: nat, b: nat): nat { if a > b then a - b else b - a }

  // ---- which numbers have a double -------------------------------------------------

  lemma {:induction false} FitsScaled(m: nat, k: nat)
    requires FitsDouble(m)
    ensures FitsDouble(m * Pow2(k))
    decreases k
  {
    if k > 0 {
      FitsScaled(m, k - 1);
      var half := m * Pow2(k - 1);
      assert m * Pow2(k) == 2 * half;
    }
  }

  /** A number that has a double, and more bits than 53, ends in zeros. */
  lemma {:induction false} EndsInZeros(m: nat, k: nat)
    requires FitsDouble(m) && m >= TWO53 * Pow2(k)
    ensures m % Pow2(k + 1) == 0
    decreases k
  {
    if k == 0 {
      assert Pow2(1) == 2;
    } else {
      EndsInZeros(m / 2, k - 1);
      var p, q := Pow2(k), m / 2 / Pow2(k);
      assert m / 2 == p * q;
      assert m == (2 * p) * q + 0 by { assert (2 * p) * q == 2 * (p * q); }
      DivModUnique(m, 2 * p, q, 0);
    }
  }

  // ---- rounding to multiples -------------------------------------------------------

  lemma DivParts(n: nat, unit: nat)
    requires unit >= 1
    ensures n == n / unit * unit + n % unit && n % unit < unit
  {
    assert n / unit * unit == unit * (n / unit);
  }

  lemma Monotone(a: nat, b: nat, unit: nat)
    requires a <= b
    ensures a * unit <= b * unit
  {
    assert b * unit == a * unit + (b - a) * unit;
    assert (b - a) * unit >= 0;
  }

  lemma NearestMultiple(n: nat, unit: nat, m: nat)
    requires unit >= 1
    ensures Distance(ToMultiple(n, unit), n) <= Distance(m * unit, n)
  {
    var q := n / unit;
    DivParts(n, unit);
    assert (q + 1) * unit == q * unit + unit;
    if m <= q {
      Monotone(m, q, unit);
    } else {
      Monotone(q + 1, m, unit);
    }
  }

  lemma NearestAmongMultiples(n: nat, unit: nat, d: nat)
    requires unit >= 1 && d % unit == 0
    ensures Distance(ToMultiple(n, unit), n) <= Distance(d, n)
  {
    DivParts(d, unit);
    NearestMultiple(n, unit, d / unit);
  }

  lemma MultipleKept(n: nat, unit: nat)
    requires unit >= 1 && n % unit == 0
    ensures ToMultiple(n, unit) == n
  {
    DivParts(n, unit);
  }

  lemma SmallFits(m: nat)
    requires m <= TWO53
    ensures FitsDouble(m)
  {
    assert FitsDouble(TWO53 / 2);
  }

  lemma QuotientBelow(n: nat, bound: nat, unit: nat)
    requires unit >= 1 && n < bound * unit
    ensures n / unit < bound
  {
    DivParts(n, unit);
    if n / unit >= bound {
      Monotone(bound, n / unit, unit);
    }
  }

  lemma MultipleFits(n: nat, k: nat)
    requires n < TWO53 * Pow2(k)
    ensures FitsDouble(ToMultiple(n, Pow2(k)))
  {
    hide FitsDouble, Pow2;
    QuotientBelow(n, TWO53, Pow2(k));
    var q := n / Pow2(k);
    SmallFits(q);
    SmallFits(q + 1);
    FitsScaled(q, k);
    FitsScaled(q + 1, k);
  }

  // ---- rounding --------------------------------------------------------------------

  /** Where the search for the unit ends, and why it did not end before. */
  lemma {:induction false} RoundingUnit(n: nat, from: nat) returns (k: nat)
    requires from == 0 || n >= TWO53 * Pow2(from - 1)
    ensures k >= from && n < TWO53 * Pow2(k) && RoundFrom(n, from) == ToMultiple(n, Pow2(k))
    ensures k == 0 || n >= TWO53 * Pow2(k - 1)
    decreases n - TWO53 * Pow2(from)
  {
    if n < TWO53 * Pow2(from) {
      k := from;
    } else {
      k := RoundingUnit(n, from + 1);
    }
  }

  lemma TopOfUnit(k: nat)
    ensures Pow2(0) == 1
    ensures k > 0 ==> TWO53 / 2 * Pow2(k) == TWO53 * Pow2(k - 1)
  {
  }

  /** No double is nearer than the one to which a number is rounded. */
  lemma NearestDouble(n: nat, d: nat)
    requires FitsDouble(d)
    ensures FitsDouble(ToDouble(n)) && Distance(ToDouble(n), n) <= Distance(d, n)
  {
    var k := RoundingUnit(n, 0);
    hide FitsDouble, ToMultiple, Pow2, RoundFrom;
    MultipleFits(n, k);
    TopOfUnit(k);
    if k == 0 {
      MultipleKept(n, Pow2(0));
    } else if d >= TWO53 * Pow2(k - 1) {
      EndsInZeros(d, k - 1);
      NearestAmongMultiples(n, Pow2(k), d);
    } else {
      NearestMultiple(n, Pow2(k), TWO53 / 2);
    }
  }

  /** Rounding changes a number exactly when it has no double. */
  lemma KeptIffFits(n: nat)
    ensures ToDouble(n) == n <==> FitsDouble(n)
  {
    if FitsDouble(n) {
      NearestDouble(n, n);
    } else {
      NearestDouble(n, 0);
    }
  }

  lemma TopFits(m: nat, k: nat)
    requires FitsDouble(m) && k >= 1 && m > TWO53 * Pow2(k - 1)
    ensures m % Pow2(k) == 0
  {
    EndsInZeros(m, k - 1);
  }

  lemma BelowMultiple(m: nat, unit: nat)
    requires unit >= 1 && m > 0 && m % unit == 0
    ensures (m - 1) / unit == m / unit - 1 && (m - 1) % unit == unit - 1 && m / unit * unit == m
  {
    var q := m / unit;
    DivParts(m, unit);
    assert q >= 1;
    assert m - 1 == unit * (q - 1) + (unit - 1) by { assert unit * (q - 1) == unit * q - unit; }
    DivModUnique(m - 1, unit, q - 1, unit - 1);
  }

  /** One less than a double: exact up to 2^53; beyond, the double itself, or half of the time two less. */
  lemma OneLess(m: nat)
    requires m > 0 && FitsDouble(m)
    ensures ToDouble(m - 1) == if m <= TWO53 then m - 1 else if m % 4 == 0 then m else m - 2
    ensures m > TWO53 ==> m % 2 == 0
  {
    hide FitsDouble, ToMultiple;
    var k := RoundingUnit(m - 1, 0);
    if k == 0 {
      MultipleKept(m - 1, 1);
    } else {
      TopFits(m, k);
      OneLessThanMultiple(m, k);
    }
  }

  lemma OneLessThanMultiple(m: nat, k: nat)
    requires m > 0 && k >= 1 && m % Pow2(k) == 0
    ensures ToMultiple(m - 1, Pow2(k)) == if m % 4 == 0 then m else m - 2
    ensures m % 2 == 0
  {
    BelowMultiple(m, Pow2(k));
    if k == 1 {
      assert Pow2(1) == 2;
    } else {
      FourDivides(m, k);
      assert (m / Pow2(k) - 1 + 1) * Pow2(k) == m;
    }
  }

  lemma FourTimes(m: nat, q: nat, p: nat)
    requires m == q * (4 * p)
    ensures m % 4 == 0
  {
    assert m == 4 * (p * q);
    DivModUnique(m, 4, p * q, 0);
  }

  lemma FourDivides(m: nat, k: nat)
    requires k >= 2 && m % Pow2(k) == 0
    ensures m % 4 == 0 && Pow2(k) >= 4
  {
    assert Pow2(k) == 4 * Pow2(k - 2);
    hide Pow2;
    DivParts(m, Pow2(k));
    FourTimes(m, m / Pow2(k), Pow2(k - 2));
  }
}
