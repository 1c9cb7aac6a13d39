/** SHA-256 as FIPS 180-4 defines it, written from the standard and independent of any program.
    Section numbers below are those of FIPS 180-4. */
module Fips180 {
  import opened Bytes

  // Section 3.2 and section 4.1.2: the word operations and the six logical functions.

  /** Addition modulo 2^32. */
  function Plus(x: bv32, y: bv32): bv32 {
    x + y
  }

  function Ch(x: bv32, y: bv32, z: bv32): bv32 {
    (x & y) ^ (!x & z)
  }

  function Maj(x: bv32, y: bv32, z: bv32): bv32 {
    (x & y) ^ (x & z) ^ (y & z)
  }

  /** Where x has a one, the choice is y; elsewhere it is z. */
  lemma ChChooses(x: bv32, y: bv32, z: bv32)
    ensures Ch(x, y, z) & x == y & x && Ch(x, y, z) & !x == z & !x
  {
  }

  lemma MajAgreesXY(x: bv32, y: bv32, z: bv32)
    ensures Maj(x, y, z) & (x & y) == x & y && Maj(x, y, z) | (x | y) == x | y
  {
  }

  lemma MajAgreesXZ(x: bv32, y: bv32, z: bv32)
    ensures Maj(x, y, z) & (x & z) == x & z && Maj(x, y, z) | (x | z) == x | z
  {
  }

  lemma MajAgreesYZ(x: bv32, y: bv32, z: bv32)
    ensures Maj(x, y, z) & (y & z) == y & z && Maj(x, y, z) | (y | z) == y | z
  {
  }

  /** Where two of the three words have a one, so has the majority, and where two have a zero, so has it. */
  lemma MajAgrees(x: bv32, y: bv32, z: bv32)
    ensures Maj(x, y, z) & (x & y) == x & y && Maj(x, y, z) | (x | y) == x | y
    ensures Maj(x, y, z) & (x & z) == x & z && Maj(x, y, z) | (x | z) == x | z
    ensures Maj(x, y, z) & (y & z) == y & z && Maj(x, y, z) | (y | z) == y | z
  {
    hide Maj;
    MajAgreesXY(x, y, z);
    MajAgreesXZ(x, y, z);
    MajAgreesYZ(x, y, z);
  }

  function Xor3(a: bv32, b: bv32, c: bv32): bv32 {
    a ^ b ^ c
  }

  function BigSigma0(x: bv32): bv32 {
    Xor3(x.RotateRight(2), x.RotateRight(13), x.RotateRight(22))
  }

  function BigSigma1(x: bv32): bv32 {
    Xor3(x.RotateRight(6), x.RotateRight(11), x.RotateRight(25))
  }

  function SmallSigma0(x: bv32): bv32 {
    Xor3(x.RotateRight(7), x.RotateRight(18), x >> 3)
  }

  function SmallSigma1(x: bv32): bv32 {
    Xor3(x.RotateRight(17), x.RotateRight(19), x >> 10)
  }

  // Section 4.2.2 and section 5.3.3: the constants.

  type word = n: nat | n < 0x1_0000_0000

  const K_ROWS: seq<seq<word>> := [
    [0x428a2f98, 0x71374491, 0xb5c0fbcf, 0xe9b5dba5, 0x3956c25b, 0x59f111f1, 0x923f82a4, 0xab1c5ed5],
    [0xd807aa98, 0x12835b01, 0x243185be, 0x550c7dc3, 0x72be5d74, 0x80deb1fe, 0x9bdc06a7, 0xc19bf174],
    [0xe49b69c1, 0xefbe4786, 0x0fc19dc6, 0x240ca1cc, 0x2de92c6f, 0x4a7484aa, 0x5cb0a9dc, 0x76f988da],
    [0x983e5152, 0xa831c66d, 0xb00327c8, 0xbf597fc7, 0xc6e00bf3, 0xd5a79147, 0x06ca6351, 0x14292967],
    [0x27b70a85, 0x2e1b2138, 0x4d2c6dfc, 0x53380d13, 0x650a7354, 0x766a0abb, 0x81c2c92e, 0x92722c85],
    [0xa2bfe8a1, 0xa81a664b, 0xc24b8b70, 0xc76c51a3, 0xd192e819, 0xd6990624, 0xf40e3585, 0x106aa070],
    [0x19a4c116, 0x1e376c08, 0x2748774c, 0x34b0bcb5, 0x391c0cb3, 0x4ed8aa4a, 0x5b9cca4f, 0x682e6ff3],
    [0x748f82ee, 0x78a5636f, 0x84c87814, 0x8cc70208, 0x90befffa, 0xa4506ceb, 0xbef9a3f7, 0xc67178f2]]

  function RoundConstant(t: nat): word
    requires t < 64
  {
    K_ROWS[t / 8][t % 8]
  }

  function K(t: nat): bv32
    requires t < 64
  {
    RoundConstant(t) as bv32
  }

  const H0: Words := Words(
    0x6a09e667, 0xbb67ae85, 0x3c6ef372, 0xa54ff53a, 0x510e527f, 0x9b05688c, 0x1f83d9ab, 0x5be0cd19)

  // Section 3.1: a word is four bytes, most significant first.

  function Join(b0: bv8, b1: bv8, b2: bv8, b3: bv8): bv32 {
    (b0 as bv32 << 24) | (b1 as bv32 << 16) | (b2 as bv32 << 8) | b3 as bv32
  }

  function Word(b0: byte, b1: byte, b2: byte, b3: byte): bv32 {
    Join(b0 as bv8, b1 as bv8, b2 as bv8, b3 as bv8)
  }

  function Part(w: bv32, i: nat): bv8
    requires i < 4
  {
    if i == 0 then (w >> 24) as bv8
    else if i == 1 then ((w >> 16) & 0xff) as bv8
    else if i == 2 then ((w >> 8) & 0xff) as bv8
    else (w & 0xff) as bv8
  }

  function WordBytes(w: bv32): (s: seq<byte>)
    ensures |s| == 4
  {
    [Part(w, 0) as byte, Part(w, 1) as byte, Part(w, 2) as byte, Part(w, 3) as byte]
  }

  function Shift8(x: bv32, b: bv8): bv32 {
    (x << 8) | b as bv32
  }

  lemma ShiftAddsDigit(x: bv32, b: bv8)
    requires x < 0x100_0000
    ensures ((x << 8) | (b as bv32)) as int == 256 * (x as int) + b as int
  {
  }

  lemma Shift8Value(x: bv32, b: bv8)
    requires x < 0x100_0000
    ensures Shift8(x, b) as int == 256 * (x as int) + b as int
  {
    ShiftAddsDigit(x, b);
  }

  lemma JoinByShifts(b0: bv8, b1: bv8, b2: bv8, b3: bv8)
    ensures Join(b0, b1, b2, b3) == Shift8(Shift8(Shift8(b0 as bv32, b1), b2), b3)
    ensures b0 as bv32 < 0x100_0000
    ensures Shift8(b0 as bv32, b1) < 0x100_0000 && Shift8(Shift8(b0 as bv32, b1), b2) < 0x100_0000
  {
  }

  lemma WidenedByte(b: bv8)
    ensures (b as bv32) as int == b as int
  {
  }

  lemma FourDigits(b0: byte, b1: byte, b2: byte, b3: byte)
    ensures ValueBE([b0, b1, b2, b3]) == 256 * (256 * (256 * b0 + b1) + b2) + b3
  {
    assert [b0][..0] == [] && ValueBE([b0]) == b0;
    assert [b0, b1][..1] == [b0] && ValueBE([b0, b1]) == 256 * b0 + b1;
    assert [b0, b1, b2][..2] == [b0, b1] && ValueBE([b0, b1, b2]) == 256 * (256 * b0 + b1) + b2;
    assert [b0, b1, b2, b3][..3] == [b0, b1, b2];
  }

  /** The byte order: a word is the number whose big-endian notation its four bytes are. */
  lemma WordIsBigEndian(b0: byte, b1: byte, b2: byte, b3: byte)
    ensures Word(b0, b1, b2, b3) as int == ValueBE([b0, b1, b2, b3])
  {
    hide Join, Shift8, ValueBE;
    var v0, v1, v2, v3 := b0 as bv8, b1 as bv8, b2 as bv8, b3 as bv8;
    SmallByte(b0);
    SmallByte(b1);
    SmallByte(b2);
    SmallByte(b3);
    JoinByShifts(v0, v1, v2, v3);
    WidenedByte(v0);
    Shift8Value(v0 as bv32, v1);
    Shift8Value(Shift8(v0 as bv32, v1), v2);
    Shift8Value(Shift8(Shift8(v0 as bv32, v1), v2), v3);
    FourDigits(b0, b1, b2, b3);
  }

  lemma PartsOfJoin(b0: bv8, b1: bv8, b2: bv8, b3: bv8)
    ensures var w := Join(b0, b1, b2, b3);
      Part(w, 0) == b0 && Part(w, 1) == b1 && Part(w, 2) == b2 && Part(w, 3) == b3
  {
  }

  lemma JoinOfParts(w: bv32)
    ensures Join(Part(w, 0), Part(w, 1), Part(w, 2), Part(w, 3)) == w
  {
  }

  /** Cutting a word into bytes and joining four bytes into a word undo each other. */
  lemma WordRoundTrip(w: bv32, b0: byte, b1: byte, b2: byte, b3: byte)
    ensures var s := WordBytes(w); Word(s[0], s[1], s[2], s[3]) == w
    ensures WordBytes(Word(b0, b1, b2, b3)) == [b0, b1, b2, b3]
  {
    PartsOfJoin(b0 as bv8, b1 as bv8, b2 as bv8, b3 as bv8);
    JoinOfParts(w);
    SmallByte(b0);
    SmallByte(b1);
    SmallByte(b2);
    SmallByte(b3);
    ByteOfBits(Part(w, 0));
    ByteOfBits(Part(w, 1));
    ByteOfBits(Part(w, 2));
    ByteOfBits(Part(w, 3));
  }

  // Section 5.1.1: padding, for a message of whole bytes.

  function ZeroBytes(n: nat): (z: nat)
    ensures (n + 1 + z + 8) % 64 == 0
  {
    (55 - n) % 64
  }

  function Zeros(k: nat): (s: seq<byte>)
    ensures |s| == k
  {
    seq(k, _ => 0)
  }

  /** The message length takes the last 64 bits. */
  const LENGTH_BYTES: nat := 8

  function Pad(m: seq<byte>): (p: seq<byte>)
    ensures |p| == |m| + 1 + ZeroBytes(|m|) + LENGTH_BYTES && |p| % 64 == 0
  {
    m + [0x80] + Zeros(ZeroBytes(|m|)) + BigEndian(8 * |m|, LENGTH_BYTES)
  }

  predicate Completes(bits: nat, zeros: nat) {
    (bits + 1 + zeros) % 512 == 448
  }

  lemma NotBefore(end: nat, d: nat)
    requires end % 512 == 448 && 0 < d < 512 && d <= end
    ensures (end - d) % 512 != 448
  {
  }

  lemma SmallestCompletion(n: nat)
    ensures Completes(8 * n, 7 + 8 * ZeroBytes(n))
    ensures forall j :: 0 <= j < 7 + 8 * ZeroBytes(n) ==> !Completes(8 * n, j)
  {
    var k := 7 + 8 * ZeroBytes(n);
    var q := (n + 1 + ZeroBytes(n) + 8) / 64;
    assert 8 * n + 1 + k == 512 * (q - 1) + 448;
    assert Completes(8 * n, k);
    assert k < 512;
    hide ZeroBytes;
    forall j | 0 <= j < k
      ensures !Completes(8 * n, j)
    {
      NotBefore(8 * n + 1 + k, k - j);
    }
  }

  lemma SplitConcat(a: seq<byte>, b: seq<byte>, k: nat)
    requires k == |b|
    ensures (a + b)[..|a + b| - k] == a && (a + b)[|a + b| - k..] == b
  {
  }

  /** The byte 0x80 and the zero bytes after it are a one bit and k zero bits, where k is the smallest
      solution of l + 1 + k = 448 modulo 512; the last eight bytes hold l exactly while l < 2^64. */
  lemma PaddingIsMinimal(m: seq<byte>)
    ensures var p, z := Pad(m), ZeroBytes(|m|);
      && Completes(8 * |m|, 7 + 8 * z) && (forall j :: 0 <= j < 7 + 8 * z ==> !Completes(8 * |m|, j))
      && p[..|p| - LENGTH_BYTES] == m + [0x80] + Zeros(z)
      && (|m| < 0x2000_0000_0000_0000 ==> ValueBE(p[|p| - LENGTH_BYTES..]) == 8 * |m|)
  {
    hide BigEndian, ZeroBytes, ValueBE, Pow256, Completes;
    SmallestCompletion(|m|);
    SplitConcat(m + [0x80] + Zeros(ZeroBytes(|m|)), BigEndian(8 * |m|, LENGTH_BYTES), LENGTH_BYTES);
    if |m| < 0x2000_0000_0000_0000 {
      Powers();
      BigEndianExact(8 * |m|, LENGTH_BYTES);
    }
  }

  // Section 6.2.2: one block.

  function Block(m: seq<byte>, i: nat): (b: seq<byte>)
    requires 64 * i + 64 <= |m|
    ensures |b| == 64
  {
    m[64 * i..64 * i + 64]
  }

  function Schedule(block: seq<byte>, t: nat): bv32
    requires |block| == 64
  {
    if t < 16 then
      Word(block[4 * t], block[4 * t + 1], block[4 * t + 2], block[4 * t + 3])
    else
      Plus(Plus(Plus(SmallSigma1(Schedule(block, t - 2)), Schedule(block, t - 7)),
                SmallSigma0(Schedule(block, t - 15))), Schedule(block, t - 16))
  }

  /** Eight words: a hash value H0..H7, or the working variables a..h. */
  datatype Words = Words(a: bv32, b: bv32, c: bv32, d: bv32, e: bv32, f: bv32, g: bv32, h: bv32)

  function Round(v: Words, k: bv32, w: bv32): Words {
    var t1 := Plus(Plus(Plus(Plus(v.h, BigSigma1(v.e)), Ch(v.e, v.f, v.g)), k), w);
    var t2 := Plus(BigSigma0(v.a), Maj(v.a, v.b, v.c));
    Words(Plus(t1, t2), v.a, v.b, v.c, Plus(v.d, t1), v.e, v.f, v.g)
  }

  const ROUNDS: nat := 64

  function Rounds(hash: Words, block: seq<byte>, t: nat): Words
    requires |block| == 64 && t <= 64
  {
    if t == 0 then hash else Round(Rounds(hash, block, t - 1), K(t - 1), Schedule(block, t - 1))
  }

  function AddWords(x: Words, y: Words): Words {
    Words(Plus(x.a, y.a), Plus(x.b, y.b), Plus(x.c, y.c), Plus(x.d, y.d),
          Plus(x.e, y.e), Plus(x.f, y.f), Plus(x.g, y.g), Plus(x.h, y.h))
  }

  function Compress(hash: Words, block: seq<byte>): Words
    requires |block| == 64
  {
    AddWords(hash, Rounds(hash, block, ROUNDS))
  }

  /** H^(i): the hash value after the first i blocks of m. */
  function HashAfter(m: seq<byte>, i: nat): Words
    requires 64 * i <= |m|
  {
    if i == 0 then H0 else Compress(HashAfter(m, i - 1), Block(m, i - 1))
  }

  function DigestBytes(hash: Words): (s: seq<byte>)
    ensures |s| == 32
  {
    WordBytes(hash.a) + WordBytes(hash.b) + WordBytes(hash.c) + WordBytes(hash.d) +
    WordBytes(hash.e) + WordBytes(hash.f) + WordBytes(hash.g) + WordBytes(hash.h)
  }

  function Sha256(m: seq<byte>): (digest: seq<byte>)
    ensures |digest| == 32
  {
    var p := Pad(m);
    DigestBytes(HashAfter(p, |p| / 64))
  }

  predicate Agree(m: seq<byte>, n: seq<byte>, k: nat)
    requires k <= |m| && k <= |n|
  {
    forall j :: 0 <= j < k ==> m[j] == n[j]
  }

  lemma SameBlock(m: seq<byte>, n: seq<byte>, i: nat)
    requires 64 * i + 64 <= |m| && 64 * i + 64 <= |n| && Agree(m, n, 64 * i + 64)
    ensures Block(m, i) == Block(n, i)
  {
  }

  /** The hash value after i blocks depends on those blocks only. */
  lemma {:induction false} HashAfterPrefix(m: seq<byte>, n: seq<byte>, i: nat)
    requires 64 * i <= |m| && 64 * i <= |n| && Agree(m, n, 64 * i)
    ensures HashAfter(m, i) == HashAfter(n, i)
  {
    hide Compress, Block;
    if i > 0 {
      HashAfterPrefix(m, n, i - 1);
      SameBlock(m, n, i - 1);
    }
  }

  lemma HashAfterNext(m: seq<byte>, i: nat)
    requires 64 * i + 64 <= |m|
    ensures HashAfter(m, i + 1) == Compress(HashAfter(m, i), Block(m, i))
  {
  }
}
