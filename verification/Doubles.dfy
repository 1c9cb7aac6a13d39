/** The integers that survive as floating-point numbers: JSON numbers are read back as doubles, with 53
    bits of precision, rounded to the nearest and in a tie to the even one (IEEE 754). */
module Doubles {
  import opened Arithmetic
  import opened Bytes

  const PRECISION: int := 0x20_0000_0000_0000

  /** How many low bits do not fit into the precision. */
  function Excess(m: nat): nat {
    if m < PRECISION then 0 else Excess(m / 2) + 1
  }

  /** The unit in the last place. */
  function Unit(m: nat): (u: nat)
    ensures u > 0
  {
    Pow2(Excess(m))
  }

  function RoundNat(m: nat): nat {
    var u := Unit(m);
    var q, rest := m / u, m % u;
    if 2 * rest > u || (2 * rest == u && q % 2 == 1) then (q + 1) * u else q * u
  }

  function RoundDouble(i: int): int {
    if i < 0 then -(RoundNat(-i) as int) else RoundNat(i)
  }

  function Scaled(k: int, e: nat): int {
    k * Pow2(e)
  }

  /** The integers that are doubles; the range of the exponent is not limited here. */
  ghost predicate IsDouble(i: int) {
    exists k: int, e: nat :: -PRECISION < k < PRECISION && i == Scaled(k, e)
  }

  function Distance(a: int, b: int): nat {
    if a < b then b - a else a - b
  }

  lemma {:induction false} UnitFits(m: nat)
    ensures m < PRECISION * Unit(m)
    ensures Excess(m) > 0 ==> PRECISION / 2 * Unit(m) <= m
    ensures Excess(m) == 0 ==> Unit(m) == 1
  {
    if m >= PRECISION {
      UnitFits(m / 2);
      assert Unit(m) == 2 * Unit(m / 2);
    }
  }

  lemma TimesMonotone(a: int, b: int, u: nat)
    requires a <= b
    ensures a * u <= b * u
  {
    assert 0 <= (b - a) * u;
  }

  /** A rounded number is the multiple of the unit below or above, whichever is closer. */
  lemma RoundedIsClose(m: nat, q: nat)
    requires q == m / Unit(m)
    ensures RoundNat(m) == q * Unit(m) || RoundNat(m) == (q + 1) * Unit(m)
    ensures q * Unit(m) <= m < (q + 1) * Unit(m)
    ensures Distance(m, RoundNat(m)) <= m - q * Unit(m)
    ensures Distance(m, RoundNat(m)) <= (q + 1) * Unit(m) - m
  {
    hide Unit;
    var u := Unit(m);
    assert m == q * u + m % u;
  }

  lemma MultipleOutside(j: int, q: int, u: nat)
    ensures j * u <= q * u || j * u >= (q + 1) * u
  {
    if j <= q {
      TimesMonotone(j, q, u);
    } else {
      TimesMonotone(q + 1, j, u);
    }
  }

  lemma CoarseScaled(k: int, e: nat, x: nat)
    requires e >= x
    ensures Scaled(k, e) == k * Pow2(e - x) * Pow2(x)
  {
    Pow2Add(e - x, x);
    assert k * (Pow2(e - x) * Pow2(x)) == k * Pow2(e - x) * Pow2(x);
  }

  lemma FineScaled(k: int, e: nat, x: nat)
    requires e < x && k < PRECISION
    ensures Scaled(k, e) <= PRECISION / 2 * Pow2(x)
  {
    assert Pow2(x) == 2 * Pow2(x - 1);
    hide Pow2;
    Pow2Monotone(e, x - 1);
    TimesMonotone(k, PRECISION, Pow2(e));
  }

  /** No double lies strictly between the two neighbouring multiples of the unit. */
  lemma NoDoubleBetween(m: nat, q: nat, k: int, e: nat)
    requires q == m / Unit(m) && k < PRECISION
    ensures Scaled(k, e) <= q * Unit(m) || Scaled(k, e) >= (q + 1) * Unit(m)
  {
    hide Scaled, Pow2;
    UnitFits(m);
    var u, x := Unit(m), Excess(m);
    if e >= x {
      CoarseScaled(k, e, x);
      MultipleOutside(k * Pow2(e - x), q, u);
    } else {
      FineScaled(k, e, x);
      RoundedIsClose(m, q);
      MultipleOutside(PRECISION / 2, q, u);
    }
  }

  lemma NoneIsCloser(m: nat, d: int)
    ensures IsDouble(d) ==> Distance(m, RoundNat(m)) <= Distance(m, d)
  {
    hide Scaled, Unit, RoundNat;
    var q := m / Unit(m);
    RoundedIsClose(m, q);
    if k: int, e: nat :| -PRECISION < k < PRECISION && d == Scaled(k, e) {
      NoDoubleBetween(m, q, k, e);
    }
  }

  lemma Negated(d: int)
    ensures IsDouble(d) ==> IsDouble(-d)
  {
    if k: int, e: nat :| -PRECISION < k < PRECISION && d == Scaled(k, e) {
      assert -d == Scaled(-k, e);
    }
  }

  /** The quotient may round up to the full precision; then the next exponent takes it. */
  lemma MultipleIsDouble(k: nat, x: nat)
    requires k <= PRECISION
    ensures IsDouble(k * Pow2(x))
  {
    if k < PRECISION {
      assert k * Pow2(x) == Scaled(k, x);
    } else {
      var u := Pow2(x);
      assert Pow2(x + 1) == 2 * u;
      assert k * u == Scaled(PRECISION / 2, x + 1);
    }
  }

  lemma RoundedIsDouble(m: nat)
    ensures IsDouble(RoundNat(m))
  {
    var q, x := m / Unit(m), Excess(m);
    assert Unit(m) == Pow2(x);
    hide RoundNat, IsDouble, Unit, Pow2;
    RoundedIsClose(m, q);
    QuotientFits(m, q);
    MultipleIsDouble(q, x);
    MultipleIsDouble(q + 1, x);
  }

  lemma QuotientFits(m: nat, q: nat)
    requires q == m / Unit(m)
    ensures q < PRECISION
  {
    hide Unit;
    UnitFits(m);
    RoundedIsClose(m, q);
    MultipleOutside(PRECISION, q, Unit(m));
    if q >= PRECISION {
      TimesMonotone(PRECISION, q, Unit(m));
    }
  }

  /** Rounding yields a double, and none is closer. */
  lemma RoundingIsNearest(i: int, d: int)
    ensures IsDouble(RoundDouble(i))
    ensures IsDouble(d) ==> Distance(i, RoundDouble(i)) <= Distance(i, d)
  {
    hide IsDouble, RoundNat;
    if i < 0 {
      RoundedIsDouble(-i);
      Negated(RoundNat(-i));
      Negated(d);
      NoneIsCloser(-i, -d);
    } else {
      RoundedIsDouble(i);
      NoneIsCloser(i, d);
    }
  }

  /** An integer survives if and only if it is a double. */
  lemma SurvivesExactly(i: int)
    ensures RoundDouble(i) == i <==> IsDouble(i)
  {
    RoundingIsNearest(i, i);
  }

  /** Integers of up to 53 bits are doubles, and so are powers of two. */
  lemma SmallIsDouble(i: int)
    requires -PRECISION <= i <= PRECISION
    ensures IsDouble(i)
  {
    if i == PRECISION {
      assert i == Scaled(PRECISION / 2, 1);
    } else if i == -PRECISION {
      assert i == Scaled(-PRECISION / 2, 1);
    } else {
      assert i == Scaled(i, 0);
    }
  }

  lemma PowerIsDouble(e: nat)
    ensures IsDouble(Pow2(e))
  {
    assert Pow2(e) == Scaled(1, e);
  }

  /** Not every integer is: the first that is not rounds down to the even neighbour. */
  lemma FirstRounded()
    ensures RoundDouble(PRECISION + 1) == PRECISION && !IsDouble(PRECISION + 1)
  {
    UnitFits(PRECISION + 1);
    assert Excess(PRECISION + 1) == Excess(PRECISION / 2) + 1 == 1;
    assert Unit(PRECISION + 1) == 2;
    SurvivesExactly(PRECISION + 1);
  }

  /** A number halfway between two multiples of the unit goes to the even one. */
  lemma TieGoesToEven(m: nat)
    requires 2 * (m % Unit(m)) == Unit(m)
    ensures RoundNat(m) % (2 * Unit(m)) == 0
  {
    var u := Unit(m);
    var q := if m / u % 2 == 1 then m / u + 1 else m / u;
    assert q == 2 * (q / 2);
    assert q * u == (2 * u) * (q / 2);
    ModUnique(q * u, 2 * u, q / 2, 0);
  }
}
