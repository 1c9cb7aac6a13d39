/** The first 64 primes, from which SHA-256 takes its constants, and a sieve that finds the same table. */
module Primes {
  import opened Arithmetic

  const PRIME_ROWS: seq<seq<nat>> := [
    [2, 3, 5, 7, 11, 13, 17, 19],
    [23, 29, 31, 37, 41, 43, 47, 53],
    [59, 61, 67, 71, 73, 79, 83, 89],
    [97, 101, 103, 107, 109, 113, 127, 131],
    [137, 139, 149, 151, 157, 163, 167, 173],
    [179, 181, 191, 193, 197, 199, 211, 223],
    [227, 229, 233, 239, 241, 251, 257, 263],
    [269, 271, 277, 281, 283, 293, 307, 311]]

  function Prime(t: nat): nat
    requires t < 64
  {
    PRIME_ROWS[t / 8][t % 8]
  }

  ghost predicate IsPrime(n: nat) {
    n > 1 && forall d :: 2 <= d < n ==> n % d != 0
  }

  /** Not crossed out by a prime below 19. */
  predicate Sieved(n: nat) {
    && (n % 2 != 0 || n == 2) && (n % 3 != 0 || n == 3) && (n % 5 != 0 || n == 5) && (n % 7 != 0 || n == 7)
    && (n % 11 != 0 || n == 11) && (n % 13 != 0 || n == 13) && (n % 17 != 0 || n == 17)
  }

  lemma DividesProduct(n: nat, d: nat, e: nat, p: nat)
    requires p > 0 && d % p == 0 && n == d * e
    ensures n % p == 0
  {
    ModUnique(n, p, d / p * e, 0);
  }

  lemma SmallFactor(n: nat, d: nat, e: nat)
    requires n == d * e && 2 <= d <= 18 && e >= 2
    ensures !Sieved(n)
  {
    var p := if d % 2 == 0 then 2 else if d % 3 == 0 then 3 else if d % 5 == 0 then 5 else if d % 7 == 0 then 7 else d;
    DividesProduct(n, d, e, p);
  }

  lemma LargeFactors(d: nat, e: nat)
    requires d >= 19 && e >= 19
    ensures d * e >= 19 * 19
  {
    assert (d - 19) * (e - 19) >= 0;
  }

  lemma SmallerFactor(n: nat, d: nat, e: nat)
    requires n == d * e && n < 19 * 19 && 1 < d < n
    ensures !Sieved(n)
  {
    if e <= 1 {
      MulGap(d, 2, e);
    }
    if d <= 18 {
      SmallFactor(n, d, e);
    } else if e <= 18 {
      SmallFactor(n, e, d);
    } else {
      LargeFactors(d, e);
    }
  }

  lemma NotMultiple(n: nat, p: nat)
    requires IsPrime(n) && 2 <= p
    ensures n % p != 0 || n == p
  {
  }

  lemma PrimeIsSieved(n: nat)
    requires IsPrime(n)
    ensures Sieved(n)
  {
    hide IsPrime;
    NotMultiple(n, 2);
    NotMultiple(n, 3);
    NotMultiple(n, 5);
    NotMultiple(n, 7);
    NotMultiple(n, 11);
    NotMultiple(n, 13);
    NotMultiple(n, 17);
  }

  /** Below 19^2 the sieve leaves exactly the primes. */
  lemma SievedIsPrime(n: nat)
    requires 2 <= n < 19 * 19
    ensures Sieved(n) <==> IsPrime(n)
  {
    if IsPrime(n) {
      PrimeIsSieved(n);
    }
    hide Sieved;
    if d :| 2 <= d < n && n % d == 0 {
      SmallerFactor(n, d, n / d);
    }
  }

  predicate NoneSieved(lo: nat, hi: nat)
    decreases hi - lo
  {
    lo >= hi || (!Sieved(lo) && NoneSieved(lo + 1, hi))
  }

  lemma {:induction false} NoneSievedMeaning(lo: nat, hi: nat, n: nat)
    requires NoneSieved(lo, hi) && lo <= n < hi
    ensures !Sieved(n)
    decreases hi - lo
  {
    hide Sieved;
    if lo < n {
      NoneSievedMeaning(lo + 1, hi, n);
    }
  }

  /** The next number that the sieve leaves. */
  predicate Follows(p: nat, q: nat) {
    p < q && Sieved(q) && NoneSieved(p + 1, q)
  }

  lemma Gaps0()
    ensures Follows(1, 2) && Follows(2, 3) && Follows(3, 5) && Follows(5, 7)
    ensures Follows(7, 11) && Follows(11, 13) && Follows(13, 17) && Follows(17, 19)
  {
  }

  lemma Gaps1()
    ensures Follows(19, 23) && Follows(23, 29) && Follows(29, 31) && Follows(31, 37)
    ensures Follows(37, 41) && Follows(41, 43) && Follows(43, 47) && Follows(47, 53)
  {
  }

  lemma Gaps2()
    ensures Follows(53, 59) && Follows(59, 61) && Follows(61, 67) && Follows(67, 71)
    ensures Follows(71, 73) && Follows(73, 79) && Follows(79, 83) && Follows(83, 89)
  {
  }

  lemma Gaps3()
    ensures Follows(89, 97) && Follows(97, 101) && Follows(101, 103) && Follows(103, 107)
    ensures Follows(107, 109) && Follows(109, 113) && Follows(113, 127) && Follows(127, 131)
  {
  }

  lemma Gaps4()
    ensures Follows(131, 137) && Follows(137, 139) && Follows(139, 149) && Follows(149, 151)
    ensures Follows(151, 157) && Follows(157, 163) && Follows(163, 167) && Follows(167, 173)
  {
  }

  lemma Gaps5()
    ensures Follows(173, 179) && Follows(179, 181) && Follows(181, 191) && Follows(191, 193)
    ensures Follows(193, 197) && Follows(197, 199) && Follows(199, 211) && Follows(211, 223)
  {
  }

  lemma Gaps6()
    ensures Follows(223, 227) && Follows(227, 229) && Follows(229, 233) && Follows(233, 239)
    ensures Follows(239, 241) && Follows(241, 251) && Follows(251, 257) && Follows(257, 263)
  {
  }

  lemma Gaps7()
    ensures Follows(263, 269) && Follows(269, 271) && Follows(271, 277) && Follows(277, 281)
    ensures Follows(281, 283) && Follows(283, 293) && Follows(293, 307) && Follows(307, 311)
  {
  }

  lemma NextFollows(t: nat)
    requires t < 64
    ensures Follows(if t == 0 then 1 else Prime(t - 1), Prime(t))
  {
    hide Follows;
    Gaps0(); Gaps1(); Gaps2(); Gaps3(); Gaps4(); Gaps5(); Gaps6(); Gaps7();
    var r, c := t / 8, t % 8;
    assert t == 8 * r + c;
    if c > 0 {
      assert (t - 1) / 8 == r && (t - 1) % 8 == c - 1;
    } else if r > 0 {
      assert (t - 1) / 8 == r - 1 && (t - 1) % 8 == 7;
    }
  }

  lemma {:induction false} TableIncreases(s: nat, t: nat)
    requires s < t < 64
    ensures Prime(s) < Prime(t)
  {
    hide Prime;
    NextFollows(t);
    if s < t - 1 {
      TableIncreases(s, t - 1);
    }
  }

  /** The place of a number that the sieve leaves, searched for downwards from place t. */
  lemma {:induction false} PlaceOf(n: nat, t: nat) returns (k: nat)
    requires t < 64 && 2 <= n <= Prime(t) && Sieved(n)
    ensures k < 64 && Prime(k) == n
  {
    hide Prime, Sieved;
    NextFollows(t);
    var before := if t == 0 then 1 else Prime(t - 1);
    if n == Prime(t) {
      k := t;
    } else if n <= before {
      k := PlaceOf(n, t - 1);
    } else {
      NoneSievedMeaning(before + 1, Prime(t), n);
    }
  }

  /** The table holds exactly the primes up to 311, in increasing order. */
  lemma PrimesInOrder(n: nat)
    requires n <= 311
    ensures IsPrime(n) <==> exists t: nat :: t < 64 && Prime(t) == n
    ensures forall s: nat, t: nat :: s < t < 64 ==> Prime(s) < Prime(t)
  {
    assert Prime(63) == 311 && Prime(0) == 2;
    hide Prime, Sieved;
    if IsPrime(n) {
      SievedIsPrime(n);
      var t := PlaceOf(n, 63);
    }
    if t: nat :| t < 64 && Prime(t) == n {
      NextFollows(t);
      if t > 0 {
        TableIncreases(0, t);
      }
      SievedIsPrime(n);
    }
    forall s: nat, t: nat | s < t < 64
      ensures Prime(s) < Prime(t)
    {
      TableIncreases(s, t);
    }
  }
}
