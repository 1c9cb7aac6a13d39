/** The difficulty test: a digest passes when it has enough leading zero bits. */
module Difficulty {
  import opened Arithmetic
  import opened Bytes

  /** A 32-byte digest, read as a 256-bit big-endian number, starts with d zero bits. */
  predicate Meets(hash: seq<byte>, d: nat)
    requires |hash| == 32 && d <= 256
  {
    ValueBE(hash) < Pow2(256 - d)
  }

  lemma {:induction false} Pow256IsPow2(k: nat)
    ensures Pow256(k) == Pow2(8 * k)
  {
    if k > 0 {
      Pow256IsPow2(k - 1);
      var j := 8 * k - 8;
      assert Pow2(j + 8) == 2 * Pow2(j + 7) == 4 * Pow2(j + 6) == 8 * Pow2(j + 5);
      assert Pow2(j + 5) == 2 * Pow2(j + 4) == 4 * Pow2(j + 3) == 8 * Pow2(j + 2) == 16 * Pow2(j + 1);
    }
  }

  /** Passing at one difficulty implies passing at every lower one. */
  lemma MeetsMonotone(hash: seq<byte>, d: nat, e: nat)
    requires |hash| == 32 && e <= d <= 256 && Meets(hash, d)
    ensures Meets(hash, e)
  {
    Pow2Monotone(256 - d, 256 - e);
  }

  lemma {:induction false} ValueSplit(a: seq<byte>, b: seq<byte>)
    ensures ValueBE(a + b) == Pow256(|b|) * ValueBE(a) + ValueBE(b)
    decreases |b|
  {
    if b == [] {
      assert a + b == a;
    } else {
      var front := b[..|b| - 1];
      assert (a + b)[..|a + b| - 1] == a + front;
      ValueSplit(a, front);
    }
  }

  lemma {:induction false} ValueOfZeros(s: seq<byte>)
    requires forall i :: 0 <= i < |s| ==> s[i] == 0
    ensures ValueBE(s) == 0
  {
    if s != [] {
      ValueOfZeros(s[..|s| - 1]);
    }
  }

  lemma {:induction false} ValueOfNonzero(s: seq<byte>, i: nat)
    requires i < |s| && s[i] != 0
    ensures ValueBE(s) >= 1
  {
    if i < |s| - 1 {
      ValueOfNonzero(s[..|s| - 1], i);
    }
  }

  lemma DigitCompare(a: nat, c: nat, k: nat, p: nat)
    requires c < p
    ensures p * a + c < p * k <==> a < k
  {
    if a < k {
      MulGap(p, k, a);
    } else if a > k {
      MulGap(p, a, k);
    }
  }

  /** The mask of the r most significant bits, as the kernel computes it. */
  function Mask(r: nat): bv8
    requires r < 8
  {
    !(0xff >> r)
  }

  lemma MaskBits(r: nat)
    requires r < 8
    ensures Mask(r) == [0x00, 0x80, 0xc0, 0xe0, 0xf0, 0xf8, 0xfc, 0xfe][r]
    ensures Pow2(8 - r) == [256, 128, 64, 32, 16, 8, 4, 2][r]
  {
  }

  lemma HighBits(v: bv8)
    ensures v & 0x80 == 0 <==> v < 0x80
    ensures v & 0xc0 == 0 <==> v < 0x40
    ensures v & 0xe0 == 0 <==> v < 0x20
    ensures v & 0xf0 == 0 <==> v < 0x10
    ensures v & 0xf8 == 0 <==> v < 0x08
    ensures v & 0xfc == 0 <==> v < 0x04
    ensures v & 0xfe == 0 <==> v < 0x02
  {
  }

  /** The mask finds no bit set exactly in bytes below 2^(8-r). */
  lemma MaskMeaning(b: byte, r: nat)
    requires r < 8
    ensures (b as bv8) & Mask(r) == 0 <==> b < Pow2(8 - r)
  {
    hide Mask, Pow2;
    SmallByte(b);
    HighBits(b as bv8);
    MaskBits(r);
  }

  lemma NonzeroPrefixFails(hash: seq<byte>, d: nat, i: nat)
    requires |hash| == 32 && d <= 256 && i < d / 8 && hash[i] != 0
    ensures !Meets(hash, d)
  {
    var n := d / 8;
    ValueSplit(hash[..n], hash[n..]);
    assert hash == hash[..n] + hash[n..];
    ValueOfNonzero(hash[..n], i);
    MulGap(Pow256(32 - n), ValueBE(hash[..n]), 0);
    Pow256IsPow2(32 - n);
    Pow2Monotone(256 - d, 8 * (32 - n));
  }

  lemma ZeroPrefixDecides(hash: seq<byte>, d: nat)
    requires |hash| == 32 && d <= 255
    requires forall i :: 0 <= i < d / 8 ==> hash[i] == 0
    ensures Meets(hash, d) <==> hash[d / 8] < Pow2(8 - d % 8)
  {
    hide ValueBE, Pow2, Pow256;
    var n, r := d / 8, d % 8;
    var rest, p := hash[n + 1..], Pow256(31 - n);
    assert hash == hash[..n] + ([hash[n]] + rest);
    ValueSplit(hash[..n], [hash[n]] + rest);
    ValueOfZeros(hash[..n]);
    ValueSplit([hash[n]], rest);
    OneDigit(hash[n]);
    assert ValueBE(hash) == p * hash[n] + ValueBE(rest);
    ValueBEBound(rest);
    Pow256IsPow2(31 - n);
    Pow2Add(8 - r, 8 * (31 - n));
    assert Pow2(256 - d) == p * Pow2(8 - r);
    DigitCompare(hash[n], ValueBE(rest), Pow2(8 - r), p);
  }

  lemma OneDigit(b: byte)
    ensures ValueBE([b]) == b
  {
  }

  lemma AllZeros(hash: seq<byte>)
    requires |hash| == 32 && forall i :: 0 <= i < 32 ==> hash[i] == 0
    ensures Meets(hash, 256)
  {
    ValueOfZeros(hash);
  }

  /** The kernel's test. At difficulty 256 it reads the byte after the digest, which may be anything and
      which the mask makes irrelevant. */
  method CheckOutput(hash: array<byte>, difficulty: nat) returns (r: int)
    requires hash.Length == 32
    ensures r == 0 || r == -1
    ensures r == 0 <==> difficulty <= 256 && Meets(hash[..], difficulty)
  {
    if difficulty > 256 {
      return -1;
    }
    var n := difficulty / 8;
    var remain := Mask(difficulty % 8);
    var i := 0;
    while i < n
      invariant 0 <= i <= n
      invariant forall k :: 0 <= k < i ==> hash[k] == 0
    {
      if hash[i] != 0 {
        NonzeroPrefixFails(hash[..], difficulty, i);
        return -1;
      }
      i := i + 1;
    }
    var last: byte;
    if n < 32 {
      last := hash[n];
      ZeroPrefixDecides(hash[..], difficulty);
    } else {
      last :| 0 <= last < 256;
      AllZeros(hash[..]);
    }
    MaskMeaning(last, difficulty % 8);
    if (last as bv8) & remain != 0 {
      return -1;
    }
    return 0;
  }
}
