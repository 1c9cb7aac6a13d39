/** Bytes, and the two ways this system reads a number out of a row of them. */
module Bytes {
  import opened Arithmetic

  type byte = n: nat | n < 256

  const TWO32: int := 0x1_0000_0000
  const TWO63: int := 0x8000_0000_0000_0000
  const TWO64: int := 0x1_0000_0000_0000_0000

  /** The conversion of an integer to `unsigned char`: only the low eight bits survive. */
  function ToByte(n: int): byte {
    n % 256
  }

  /** The byte that a shift to the right brings down to the lowest eight bits; `unit` is the power of
      two the shift divides by. */
  function ByteAt(n: int, unit: int): byte
    requires unit > 0
  {
    ToByte(n / unit)
  }

  function Pow256(k: nat): (p: nat)
    ensures p > 0
  {
    if k == 0 then 1 else 256 * Pow256(k - 1)
  }

  function Pow2(k: nat): (p: nat)
    ensures p > 0
  {
    if k == 0 then 1 else 2 * Pow2(k - 1)
  }

  lemma {:induction false} Pow2Add(a: nat, b: nat)
    ensures Pow2(a + b) == Pow2(a) * Pow2(b)
  {
    if a > 0 {
      Pow2Add(a - 1, b);
    }
  }

  lemma {:induction false} Pow2Monotone(a: nat, b: nat)
    requires a <= b
    ensures Pow2(a) <= Pow2(b)
  {
    if a < b {
      Pow2Monotone(a, b - 1);
    }
  }

  /** The number whose big-endian notation is `s`. */
  function ValueBE(s: seq<byte>): nat {
    if s == [] then 0 else 256 * ValueBE(s[..|s| - 1]) + s[|s| - 1]
  }

  /** The number whose little-endian notation is `s`. */
  function ValueLE(s: seq<byte>): nat {
    if s == [] then 0 else s[0] + 256 * ValueLE(s[1..])
  }

  function BigEndian(n: int, k: nat): (s: seq<byte>)
    ensures |s| == k
    decreases k
  {
    if k == 0 then [] else BigEndian(n / 256, k - 1) + [ToByte(n)]
  }

  function LittleEndian(n: int, k: nat): (s: seq<byte>)
    ensures |s| == k
    decreases k
  {
    if k == 0 then [] else [ToByte(n)] + LittleEndian(n / 256, k - 1)
  }

  lemma ByteOfBits(v: bv8)
    ensures (v as byte) as bv8 == v
  {
  }

  lemma DoubledBits(v: bv8)
    requires v < 128
    ensures (v << 1) as int == 2 * (v as int) && ((v << 1) | 1) as int == 2 * (v as int) + 1
  {
  }

  /** The eight-bit word of a byte, built from its binary digits. */
  lemma {:induction false} BitsOf(r: int) returns (v: bv8)
    requires 0 <= r < 256
    ensures v as int == r
  {
    if r == 0 {
      v := 0;
    } else {
      var half := BitsOf(r / 2);
      DoubledBits(half);
      v := if r % 2 == 0 then half << 1 else (half << 1) | 1;
    }
  }

  /** A byte survives the trip through the machine's eight-bit word. */
  lemma SmallByte(r: int)
    requires 0 <= r < 256
    ensures (r as bv8) as int == r
  {
    var v := BitsOf(r);
    ByteOfBits(v);
  }

  lemma DivModStep(n: int, p: int)
    requires p > 0
    ensures 256 * ((n / 256) % p) + n % 256 == n % (256 * p)
  {
    var q := n / 256 / p;
    var r := 256 * ((n / 256) % p) + n % 256;
    assert n / 256 == q * p + (n / 256) % p;
    assert n == (256 * p) * q + r by {
      assert n == 256 * (n / 256) + n % 256;
      assert 256 * (q * p) == (256 * p) * q;
    }
    assert 0 <= r < 256 * p;
    ModUnique(n, 256 * p, q, r);
  }

  lemma DivTwice(n: int, p: int)
    requires p > 0
    ensures n / 256 / p == n / (256 * p)
  {
    DivModStep(n, p);
    var q := n / 256 / p;
    assert n / 256 == q * p + (n / 256) % p;
    assert 256 * (q * p) == (256 * p) * q;
    ModUnique(n, 256 * p, q, n % (256 * p));
  }

  /** Writing a number big-endian in k bytes and reading it back loses only what does not fit. */
  lemma {:induction false} BigEndianValue(n: int, k: nat)
    ensures ValueBE(BigEndian(n, k)) == n % Pow256(k)
    decreases k
  {
    if k > 0 {
      var s := BigEndian(n, k);
      assert s[..k - 1] == BigEndian(n / 256, k - 1);
      BigEndianValue(n / 256, k - 1);
      DivModStep(n, Pow256(k - 1));
    }
  }

  /** A number that fits is read back exactly. */
  lemma BigEndianExact(n: nat, k: nat)
    requires n < Pow256(k)
    ensures ValueBE(BigEndian(n, k)) == n
  {
    BigEndianValue(n, k);
    ModUnique(n, Pow256(k), 0, n);
  }

  lemma {:induction false} LittleEndianValue(n: int, k: nat)
    ensures ValueLE(LittleEndian(n, k)) == n % Pow256(k)
    decreases k
  {
    if k > 0 {
      var s := LittleEndian(n, k);
      assert s[1..] == LittleEndian(n / 256, k - 1);
      LittleEndianValue(n / 256, k - 1);
      DivModStep(n, Pow256(k - 1));
    }
  }

  lemma {:induction false} ValueBEBound(s: seq<byte>)
    ensures ValueBE(s) < Pow256(|s|)
  {
    if s != [] {
      ValueBEBound(s[..|s| - 1]);
    }
  }

  /** Two rows of equal length with the same big-endian value are the same row. */
  lemma {:induction false} ValueBEInjective(s: seq<byte>, t: seq<byte>)
    requires |s| == |t| && ValueBE(s) == ValueBE(t)
    ensures s == t
  {
    if s != [] {
      var n := |s| - 1;
      LastDigit(ValueBE(s[..n]), s[n], ValueBE(t[..n]), t[n]);
      ValueBEInjective(s[..n], t[..n]);
      assert s == s[..n] + [s[n]] && t == t[..n] + [t[n]];
    }
  }

  lemma LastDigit(x: nat, a: byte, y: nat, b: byte)
    requires 256 * x + a == 256 * y + b
    ensures x == y && a == b
  {
  }

  /** Only the low k bytes of a number reach its k-byte notation. */
  lemma BigEndianLow(n: int, m: int, k: nat)
    requires n % Pow256(k) == m % Pow256(k)
    ensures BigEndian(n, k) == BigEndian(m, k)
  {
    BigEndianValue(n, k);
    BigEndianValue(m, k);
    ValueBEInjective(BigEndian(n, k), BigEndian(m, k));
  }

  lemma {:induction false} BigEndianDigit(n: int, k: nat, j: nat)
    requires j < k
    ensures BigEndian(n, k)[k - 1 - j] == ByteAt(n, Pow256(j))
    decreases k
  {
    if j > 0 {
      BigEndianDigit(n / 256, k - 1, j - 1);
      DivTwice(n, Pow256(j - 1));
    }
  }

  lemma {:induction false} LittleEndianDigit(n: int, k: nat, j: nat)
    requires j < k
    ensures LittleEndian(n, k)[j] == ByteAt(n, Pow256(j))
    decreases k
  {
    if j > 0 {
      LittleEndianDigit(n / 256, k - 1, j - 1);
      DivTwice(n, Pow256(j - 1));
    }
  }

  lemma Powers()
    ensures Pow256(0) == 0x1 && Pow256(1) == 0x100 && Pow256(2) == 0x1_0000
    ensures Pow256(3) == 0x100_0000 && Pow256(4) == 0x1_0000_0000 && Pow256(5) == 0x100_0000_0000
    ensures Pow256(6) == 0x1_0000_0000_0000 && Pow256(7) == 0x100_0000_0000_0000
    ensures Pow256(8) == 0x1_0000_0000_0000_0000
  {
  }

  /** Two rows of equal length with the same little-endian value are the same row. */
  lemma {:induction false} ValueLEInjective(s: seq<byte>, t: seq<byte>)
    requires |s| == |t| && ValueLE(s) == ValueLE(t)
    ensures s == t
  {
    if s != [] {
      LastDigit(ValueLE(s[1..]), s[0], ValueLE(t[1..]), t[0]);
      ValueLEInjective(s[1..], t[1..]);
      assert s == [s[0]] + s[1..] && t == [t[0]] + t[1..];
    }
  }

  lemma LittleEndianLow(n: int, m: int, k: nat)
    requires n % Pow256(k) == m % Pow256(k)
    ensures LittleEndian(n, k) == LittleEndian(m, k)
  {
    LittleEndianValue(n, k);
    LittleEndianValue(m, k);
    ValueLEInjective(LittleEndian(n, k), LittleEndian(m, k));
  }
}
