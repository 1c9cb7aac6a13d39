/** Decimal printing and parsing of 64-bit integers, as the cookie's expiry uses them. */
module Decimal {
  import opened Bytes
  import opened Wrappers
  import opened ProverTypes

  datatype NumError = Syntax | Range

  function Digit(d: nat): char
    requires d < 10
  {
    '0' + d as char
  }

  function Digits(n: nat): (s: string)
    ensures s != "" && AllDigits(s)
  {
    if n < 10 then [Digit(n)] else Digits(n / 10) + [Digit(n % 10)]
  }

  function Magnitude(n: int): nat {
    if n < 0 then -n else n
  }

  function FormatInt(n: int64): string {
    if n < 0 then "-" + Digits(Magnitude(n)) else Digits(n)
  }

  predicate AllDigits(s: string) {
    forall i :: 0 <= i < |s| ==> '0' <= s[i] <= '9'
  }

  function DigitsValue(s: string): nat
    requires AllDigits(s)
  {
    if s == "" then 0 else 10 * DigitsValue(s[..|s| - 1]) + (s[|s| - 1] as int - '0' as int)
  }

  function WithSign(magnitude: int, negative: bool): int {
    if negative then -magnitude else magnitude
  }

  const CUTOFF: int := TWO64 / 10 + 1

  /** The scan of an unsigned number, digit by digit: it stops at the first foreign character or at the
      first overflow of 64 bits, whichever comes first. */
  function Scan(s: string): Result<nat, NumError> {
    if s == "" then Ok(0)
    else
      match Scan(s[..|s| - 1])
      case Err(e) => Err(e)
      case Ok(n) =>
        var c := s[|s| - 1];
        if !('0' <= c <= '9') then Err(Syntax)
        else if n >= CUTOFF then Err(Range)
        else
          var n1 := 10 * n + (c as int - '0' as int);
          if n1 >= TWO64 then Err(Range) else Ok(n1)
  }

  predicate IsSigned(s: string) {
    s != "" && (s[0] == '-' || s[0] == '+')
  }

  /** The part of a number after its sign. */
  function AfterSign(s: string): string {
    if IsSigned(s) then s[1..] else s
  }

  function Atoi(s: string): Result<int64, NumError> {
    if AfterSign(s) == "" then Err(Syntax)
    else
      match Scan(AfterSign(s))
      case Err(e) => Err(e)
      case Ok(un) =>
        var n := WithSign(un, IsSigned(s) && s[0] == '-');
        if -TWO63 <= n < TWO63 then Ok(n) else Err(Range)
  }

  /** The scan succeeds exactly on digit strings with a 64-bit value, and yields that value. */
  lemma {:induction false} ScanMeaning(s: string)
    ensures Scan(s).Ok? <==> AllDigits(s) && DigitsValue(s) < TWO64
    ensures Scan(s).Ok? ==> Scan(s).value == DigitsValue(s)
  {
    if s != "" {
      ScanMeaning(s[..|s| - 1]);
      assert s == s[..|s| - 1] + [s[|s| - 1]];
    }
  }

  /** What is accepted, over all strings: an optional sign, at least one digit and nothing else, with a
      value of 64 bits. */
  lemma AtoiMeaning(s: string, n: int64)
    ensures Atoi(s) == Ok(n) <==>
      && AfterSign(s) != "" && AllDigits(AfterSign(s))
      && n == WithSign(DigitsValue(AfterSign(s)), IsSigned(s) && s[0] == '-')
  {
    hide Scan, DigitsValue, AllDigits;
    ScanMeaning(AfterSign(s));
  }

  lemma {:induction false} DigitsRoundTrip(n: nat)
    ensures DigitsValue(Digits(n)) == n
  {
    if n < 10 {
      assert [Digit(n)][..0] == "";
    } else {
      DigitsRoundTrip(n / 10);
      assert Digits(n)[..|Digits(n)| - 1] == Digits(n / 10);
    }
  }

  /** Printing and parsing undo each other for every 64-bit integer. */
  lemma AtoiFormatInt(n: int64)
    ensures Atoi(FormatInt(n)) == Ok(n)
  {
    hide Digits, DigitsValue, Scan;
    DigitsRoundTrip(Magnitude(n));
    ScanMeaning(Digits(Magnitude(n)));
    var s, digits := FormatInt(n), Digits(Magnitude(n));
    if n < 0 {
      assert s[1..] == digits;
    } else {
      assert '0' <= s[0] <= '9';
    }
  }

  lemma NoUnderscore(n: int64)
    ensures '_' !in FormatInt(n)
  {
    hide Digits;
    var digits := Digits(Magnitude(n));
    assert '_' !in digits;
  }

  lemma {:induction false} DigitsOverflow(s: string)
    requires AllDigits(s)
    ensures Scan(s) == if DigitsValue(s) < TWO64 then Ok(DigitsValue(s)) else Err(Range)
  {
    if s != "" {
      DigitsOverflow(s[..|s| - 1]);
    }
  }

  /** The signs and the two bounds written out, and how digits beyond them are refused. */
  lemma AtoiCases(s: string)
    requires AllDigits(s) && s != ""
    ensures Atoi(s) == if DigitsValue(s) < 0x8000_0000_0000_0000 then Ok(DigitsValue(s)) else Err(Range)
    ensures Atoi("+" + s) == Atoi(s)
    ensures Atoi("-" + s) == if DigitsValue(s) <= 0x8000_0000_0000_0000 then Ok(0 - DigitsValue(s)) else Err(Range)
  {
    hide Scan, DigitsValue;
    DigitsOverflow(s);
    assert '0' <= s[0] <= '9' && AfterSign(s) == s;
    assert AfterSign("+" + s) == s && AfterSign("-" + s) == s;
  }
}
