/** Hexadecimal text: two lower-case digits a byte; either case is read back. */
module Hex {
  import opened Bytes
  import opened Wrappers

  type nibble = n: nat | n < 16

  function HexDigit(n: nibble): char {
    if n < 10 then '0' + n as char else 'a' + (n - 10) as char
  }

  lemma HexDigitIsDigit(n: nibble)
    ensures HexDigit(n) == "0123456789abcdef"[n]
  {
  }

  function FromHexDigit(c: char): Option<nibble> {
    if '0' <= c <= '9' then Some(c as int - '0' as int)
    else if 'a' <= c <= 'f' then Some(c as int - 'a' as int + 10)
    else if 'A' <= c <= 'F' then Some(c as int - 'A' as int + 10)
    else None
  }

  function Pair(h: int, l: int): byte
    requires 0 <= h < 16 && 0 <= l < 16
  {
    16 * h + l
  }

  function Encode(x: seq<byte>): string {
    if x == [] then "" else [HexDigit(x[0] / 16), HexDigit(x[0] % 16)] + Encode(x[1..])
  }

  function Decode(s: string): Option<seq<byte>> {
    if s == "" then Some([])
    else if |s| < 2 then None
    else
      match (FromHexDigit(s[0]), FromHexDigit(s[1]), Decode(s[2..]))
      case (Some(h), Some(l), Some(rest)) => Some([Pair(h, l)] + rest)
      case _ => None
  }

  lemma DigitRoundTrip(n: nibble)
    ensures FromHexDigit(HexDigit(n)) == Some(n)
  {
  }

  lemma {:induction false} HexRoundTrip(x: seq<byte>)
    ensures Decode(Encode(x)) == Some(x)
  {
    hide HexDigit, FromHexDigit;
    if x != [] {
      DigitRoundTrip(x[0] / 16);
      DigitRoundTrip(x[0] % 16);
      HexRoundTrip(x[1..]);
      assert Encode(x)[2..] == Encode(x[1..]);
      assert x == [x[0]] + x[1..];
    }
  }

  /** Each byte is written as two digits, the higher one first. */
  lemma {:induction false} DigitsAt(x: seq<byte>, i: nat)
    requires i < |x|
    ensures |Encode(x)| == 2 * |x|
    ensures Encode(x)[2 * i] == "0123456789abcdef"[x[i] / 16]
    ensures Encode(x)[2 * i + 1] == "0123456789abcdef"[x[i] % 16]
  {
    HexDigitIsDigit(x[0] / 16);
    HexDigitIsDigit(x[0] % 16);
    hide HexDigit;
    if |x| > 1 {
      DigitsAt(x[1..], if i == 0 then 0 else i - 1);
      assert forall j :: 2 <= j < 2 * |x| ==> Encode(x)[j] == Encode(x[1..])[j - 2];
    }
  }

  /** A digit of either case. */
  predicate IsDigit(c: char, n: nibble) {
    c == "0123456789abcdef"[n] || c == "0123456789ABCDEF"[n]
  }

  lemma FromHexDigitExactly(c: char, n: nibble)
    ensures FromHexDigit(c) == Some(n) <==> IsDigit(c, n)
  {
  }

  /** The first two characters of a string are the digits of a byte, the higher one first. */
  predicate StartsWith(s: string, b: byte) {
    |s| >= 2 && IsDigit(s[0], b / 16) && IsDigit(s[1], b % 16)
  }

  lemma PairDigits(h: nibble, l: nibble, b: byte)
    ensures Pair(h, l) == b <==> h == b / 16 && l == b % 16
  {
  }

  lemma PairExactly(s: string, b: byte)
    requires |s| >= 2
    ensures StartsWith(s, b) <==>
      && FromHexDigit(s[0]).Some? && FromHexDigit(s[1]).Some?
      && Pair(FromHexDigit(s[0]).value, FromHexDigit(s[1]).value) == b
  {
    FromHexDigitExactly(s[0], b / 16);
    FromHexDigitExactly(s[1], b % 16);
    hide IsDigit, FromHexDigit, Pair;
    if FromHexDigit(s[0]).Some? && FromHexDigit(s[1]).Some? {
      PairDigits(FromHexDigit(s[0]).value, FromHexDigit(s[1]).value, b);
    }
  }

  predicate Spells(s: string, x: seq<byte>) {
    |s| == 2 * |x| && forall i :: 0 <= i < |x| ==> StartsWith(s[2 * i..], x[i])
  }

  lemma SpellsStep(s: string, x: seq<byte>)
    requires |s| >= 2 && x != []
    ensures Spells(s, x) <==> StartsWith(s, x[0]) && Spells(s[2..], x[1..])
  {
    hide StartsWith;
    assert s[0..] == s;
    forall i | 0 <= i < |x| - 1 && |s| == 2 * |x|
      ensures s[2..][2 * i..] == s[2 * (i + 1)..] && x[1..][i] == x[i + 1]
    {
    }
    if Spells(s[2..], x[1..]) && StartsWith(s, x[0]) {
      forall i | 0 <= i < |x|
        ensures StartsWith(s[2 * i..], x[i])
      {
        if i > 0 {
          assert StartsWith(s[2..][2 * (i - 1)..], x[1..][i - 1]);
        }
      }
    }
  }

  /** Which strings are read, and as what: two digits of either case for each byte. */
  lemma {:induction false} DecodesExactly(s: string, x: seq<byte>)
    ensures Decode(s) == Some(x) <==> Spells(s, x)
    decreases |s|
  {
    hide FromHexDigit, StartsWith, Pair, Spells;
    if |s| >= 2 && x != [] {
      PairExactly(s, x[0]);
      SpellsStep(s, x);
      DecodesExactly(s[2..], x[1..]);
      assert x == [x[0]] + x[1..];
    } else {
      SpellsNothing(s, x);
    }
  }

  lemma SpellsNothing(s: string, x: seq<byte>)
    requires |s| < 2 || x == []
    ensures Spells(s, x) <==> s == "" && x == []
  {
  }
}
