/** Where the constants of SHA-256 come from (FIPS 180-4, sections 4.2.2 and 5.3.3). */
module Fips180Constants {
  import opened Bytes
  import opened Fips180
  import opened Primes

  function Cube(c: nat): nat {
    c * c * c
  }

  function Square(c: nat): nat {
    c * c
  }

  /** The cube root of p is between q + k / 2^32 and q + (k + 1) / 2^32, so k is the first
      thirty-two bits of its fractional part. */
  predicate CubeRootBits(p: nat, q: nat, k: nat) {
    && k < TWO32
    && Cube(q * TWO32 + k) <= p * Cube(TWO32) < Cube(q * TWO32 + k + 1)
  }

  predicate SquareRootBits(p: nat, q: nat, k: nat) {
    && k < TWO32
    && Square(q * TWO32 + k) <= p * Square(TWO32) < Square(q * TWO32 + k + 1)
  }

  function CubeFloor(p: nat): nat {
    if p < 8 then 1 else if p < 27 then 2 else if p < 64 then 3
    else if p < 125 then 4 else if p < 216 then 5 else 6
  }

  predicate ConstantBits(r: nat, c: nat)
    requires r < 8 && c < 8
  {
    CubeRootBits(PRIME_ROWS[r][c], CubeFloor(PRIME_ROWS[r][c]), K_ROWS[r][c])
  }

  predicate RowBits(r: nat)
    requires r < 8
  {
    && ConstantBits(r, 0) && ConstantBits(r, 1) && ConstantBits(r, 2) && ConstantBits(r, 3)
    && ConstantBits(r, 4) && ConstantBits(r, 5) && ConstantBits(r, 6) && ConstantBits(r, 7)
  }

  lemma Row0()
    ensures RowBits(0)
  {
  }

  lemma Row1()
    ensures RowBits(1)
  {
  }

  lemma Row2()
    ensures RowBits(2)
  {
  }

  lemma Row3()
    ensures RowBits(3)
  {
  }

  lemma Row4()
    ensures RowBits(4)
  {
  }

  lemma Row5()
    ensures RowBits(5)
  {
  }

  lemma Row6()
    ensures RowBits(6)
  {
  }

  lemma Row7()
    ensures RowBits(7)
  {
  }

  /** Each round constant is the first thirty-two bits of the fractional part of the cube root
      of the corresponding prime. */
  lemma RoundConstants(t: nat)
    requires t < 64
    ensures CubeRootBits(Prime(t), CubeFloor(Prime(t)), RoundConstant(t))
  {
    hide CubeRootBits;
    Row0(); Row1(); Row2(); Row3(); Row4(); Row5(); Row6(); Row7();
    var r, c := t / 8, t % 8;
    assert RowBits(r);
    assert ConstantBits(r, c);
  }

  predicate InitialHashBits(p: nat, q: nat, w: bv32) {
    SquareRootBits(p, q, w as int)
  }

  /** The initial hash value comes from the square roots of the first eight primes. */
  lemma InitialHash()
    ensures InitialHashBits(Prime(0), 1, H0.a) && InitialHashBits(Prime(1), 1, H0.b)
    ensures InitialHashBits(Prime(2), 2, H0.c) && InitialHashBits(Prime(3), 2, H0.d)
    ensures InitialHashBits(Prime(4), 3, H0.e) && InitialHashBits(Prime(5), 3, H0.f)
    ensures InitialHashBits(Prime(6), 4, H0.g) && InitialHashBits(Prime(7), 4, H0.h)
  {
  }}
