/** The byte-at-a-time context computes the SHA-256 of FIPS 180-4, however the message is cut up. */
module Streaming {
  import opened Bytes
  import opened Fips180
  import opened Sha256

  /** What a context knows after absorbing m: the compressed complete blocks, the unprocessed tail,
      and the number of bits compressed so far, in a 64-bit counter. */
  predicate Absorbed(c: Context, m: seq<byte>) {
    && c.Valid()
    && c.datalen == |m| % 64
    && c.data[..c.datalen] == m[|m| - c.datalen..]
    && c.bitlen == 512 * (|m| / 64) % TWO64
    && c.state == HashAfter(m, |m| / 64)
  }

  lemma StartedAbsorbedNothing(data: seq<byte>)
    requires |data| == 64
    ensures Absorbed(Started(data), [])
  {
  }

  lemma AddModulo(x: nat, y: nat, n: nat)
    requires n == x + y
    ensures (x % TWO64 + y) % TWO64 == n % TWO64
    ensures n < TWO64 ==> x % TWO64 == x
  {
  }

  lemma NextLength(n: nat)
    ensures n % 64 < 63 ==> (n + 1) / 64 == n / 64 && (n + 1) % 64 == n % 64 + 1
    ensures n % 64 == 63 ==> (n + 1) / 64 == n / 64 + 1 && (n + 1) % 64 == 0
  {
  }

  lemma StoredTail(data: seq<byte>, datalen: nat, tail: seq<byte>, m: seq<byte>, b: byte)
    requires datalen < |data| && datalen <= |m|
    requires tail == data[..datalen] && tail == m[|m| - datalen..]
    ensures data[datalen := b][..datalen + 1] == tail + [b] == (m + [b])[|m| - datalen..]
  {
  }

  lemma StoreByteKeeps(c: Context, m: seq<byte>, b: byte)
    requires Absorbed(c, m) && c.datalen < 63
    ensures Absorbed(AbsorbByte(c, b), m + [b])
  {
    hide Compress, HashAfter;
    NextLength(|m|);
    HashAfterPrefix(m, m + [b], |m| / 64);
    StoredTail(c.data, c.datalen, c.data[..c.datalen], m, b);
  }

  lemma BlockIsBuffer(c: Context, m: seq<byte>, b: byte)
    requires Absorbed(c, m) && c.datalen == 63
    ensures |m + [b]| == 64 * (|m| / 64) + 64
    ensures Block(m + [b], |m| / 64) == AbsorbByte(c, b).data
  {
    hide Compress, HashAfter;
  }

  lemma FillBlockKeeps(c: Context, m: seq<byte>, b: byte)
    requires Absorbed(c, m) && c.datalen == 63
    ensures Absorbed(AbsorbByte(c, b), m + [b])
  {
    hide Compress, HashAfter;
    var m', n, c' := m + [b], |m| / 64, AbsorbByte(c, b);
    NextLength(|m|);
    AddModulo(512 * n, 512, 512 * (n + 1));
    HashAfterPrefix(m, m', n);
    HashAfterNext(m', n);
    BlockIsBuffer(c, m, b);
  }

  /** The streaming invariant: absorbing s takes a context for m to a context for m + s. */
  lemma {:induction false} AbsorbKeeps(c: Context, m: seq<byte>, s: seq<byte>)
    requires Absorbed(c, m)
    ensures Absorbed(Absorb(c, s), m + s)
    decreases |s|
  {
    hide Compress, HashAfter;
    if s == [] {
      assert m + s == m;
    } else {
      var front, b := s[..|s| - 1], s[|s| - 1];
      AbsorbKeeps(c, m, front);
      if Absorb(c, front).datalen < 63 {
        StoreByteKeeps(Absorb(c, front), m + front, b);
      } else {
        FillBlockKeeps(Absorb(c, front), m + front, b);
      }
      assert m + s == m + front + [b];
    }
  }

  /** The two counters together always give the message length in bits. */
  lemma BitCount(c: Context, m: seq<byte>)
    requires Absorbed(c, m)
    ensures (c.bitlen + 8 * c.datalen) % TWO64 == 8 * |m| % TWO64
    ensures |m| < 0x2000_0000_0000_0000 ==> c.bitlen + 8 * c.datalen == 8 * |m|
  {
    hide HashAfter;
    AddModulo(512 * (|m| / 64), 8 * c.datalen, 8 * |m|);
  }

  /** Chunking independence: cutting the input anywhere leaves the very same context. */
  lemma {:induction false} AbsorbConcat(c: Context, a: seq<byte>, b: seq<byte>)
    requires c.Valid()
    ensures Absorb(Absorb(c, a), b) == Absorb(c, a + b)
    decreases |b|
  {
    if b == [] {
      assert a + b == a;
    } else {
      AbsorbConcat(c, a, b[..|b| - 1]);
      assert (a + b)[..|a + b| - 1] == a + b[..|b| - 1];
    }
  }

  lemma LengthFieldIsFips(c: Context, m: seq<byte>)
    requires Absorbed(c, m)
    ensures BigEndian(Finished(c).bitlen, LENGTH_BYTES) == BigEndian(8 * |m|, LENGTH_BYTES)
  {
    hide Compress, BigEndian;
    BitCount(c, m);
    Powers();
    BigEndianLow(Finished(c).bitlen, 8 * |m|, LENGTH_BYTES);
  }

  lemma PadBytes(m: seq<byte>, n: nat, tail: seq<byte>)
    requires |m| == 64 * n + |tail| && |tail| < 64 && tail == m[64 * n..]
    ensures Agree(m, Pad(m), 64 * n)
    ensures Pad(m)[64 * n..] == tail + [0x80] + Zeros(ZeroBytes(|m|)) + BigEndian(8 * |m|, LENGTH_BYTES)
  {
    hide BigEndian, ZeroBytes;
    assert m == m[..64 * n] + tail;
  }

  lemma ZeroByteCount(n: nat, d: nat)
    requires d < 64
    ensures ZeroBytes(64 * n + d) == if d < 56 then 55 - d else 119 - d
  {
  }

  lemma PadOneBlock(m: seq<byte>, n: nat, tail: seq<byte>)
    requires |m| == 64 * n + |tail| && |tail| < 56 && tail == m[64 * n..]
    ensures |Pad(m)| == 64 * (n + 1) && Agree(m, Pad(m), 64 * n)
    ensures Block(Pad(m), n) == tail + [0x80] + Zeros(55 - |tail|) + BigEndian(8 * |m|, LENGTH_BYTES)
  {
    hide BigEndian, ZeroBytes;
    ZeroByteCount(n, |tail|);
    PadBytes(m, n, tail);
    assert Block(Pad(m), n) == Pad(m)[64 * n..];
  }

  lemma PadTwoBlocks(m: seq<byte>, n: nat, tail: seq<byte>)
    requires |m| == 64 * n + |tail| && 56 <= |tail| < 64 && tail == m[64 * n..]
    ensures |Pad(m)| == 64 * (n + 2) && Agree(m, Pad(m), 64 * n)
    ensures Block(Pad(m), n) == tail + [0x80] + Zeros(63 - |tail|)
    ensures Block(Pad(m), n + 1) == Zeros(56) + BigEndian(8 * |m|, LENGTH_BYTES)
  {
    hide BigEndian, ZeroBytes;
    ZeroByteCount(n, |tail|);
    PadBytes(m, n, tail);
    var rest := Pad(m)[64 * n..];
    assert Block(Pad(m), n) == rest[..64];
    assert Block(Pad(m), n + 1) == rest[64..];
  }

  /** When the length still fits, exactly one block is left. */
  lemma FinishOneBlock(c: Context, m: seq<byte>)
    requires Absorbed(c, m) && c.datalen < 56
    ensures |Pad(m)| == 64 * (|m| / 64 + 1)
    ensures Finished(c).state == HashAfter(Pad(m), |m| / 64 + 1)
  {
    hide Compress, BigEndian, HashAfter, Pad;
    var p, n, tail := Pad(m), |m| / 64, c.data[..c.datalen];
    LengthFieldIsFips(c, m);
    PadOneBlock(m, n, tail);
    HashAfterPrefix(m, p, n);
    HashAfterNext(p, n);
  }

  /** Otherwise exactly two are, the second one zeros up to the length. */
  lemma FinishTwoBlocks(c: Context, m: seq<byte>)
    requires Absorbed(c, m) && c.datalen >= 56
    ensures |Pad(m)| == 64 * (|m| / 64 + 2)
    ensures Finished(c).state == HashAfter(Pad(m), |m| / 64 + 2)
  {
    hide Compress, BigEndian, HashAfter, Pad;
    var p, n, tail := Pad(m), |m| / 64, c.data[..c.datalen];
    LengthFieldIsFips(c, m);
    PadTwoBlocks(m, n, tail);
    HashAfterPrefix(m, p, n);
    HashAfterNext(p, n);
    HashAfterNext(p, n + 1);
  }

  lemma FinishIsFips(c: Context, m: seq<byte>)
    requires Absorbed(c, m)
    ensures DigestBytes(Finished(c).state) == Fips180.Sha256(m)
  {
    hide HashAfter, DigestBytes, Pad, Finished;
    if c.datalen < 56 {
      FinishOneBlock(c, m);
    } else {
      FinishTwoBlocks(c, m);
    }
    WholeBlocks(Pad(m));
  }

  lemma WholeBlocks(p: seq<byte>)
    ensures forall n: nat :: |p| == 64 * n ==> |p| / 64 == n
  {
  }

  function Concat(chunks: seq<seq<byte>>): seq<byte> {
    if chunks == [] then [] else Concat(chunks[..|chunks| - 1]) + chunks[|chunks| - 1]
  }

  function AbsorbAll(c: Context, chunks: seq<seq<byte>>): (c': Context)
    requires c.Valid()
    ensures c'.Valid()
  {
    if chunks == [] then c else Absorb(AbsorbAll(c, chunks[..|chunks| - 1]), chunks[|chunks| - 1])
  }

  lemma {:induction false} AbsorbAllIsConcat(c: Context, chunks: seq<seq<byte>>)
    requires c.Valid()
    ensures AbsorbAll(c, chunks) == Absorb(c, Concat(chunks))
  {
    if chunks != [] {
      var front, last := chunks[..|chunks| - 1], chunks[|chunks| - 1];
      AbsorbAllIsConcat(c, front);
      AbsorbConcat(c, Concat(front), last);
    }
  }

  /** Main theorem: init, any sequence of updates, final, from any uninitialised buffer, gives the
      SHA-256 of the concatenation. */
  lemma StreamIsFips(garbage: seq<byte>, chunks: seq<seq<byte>>)
    requires |garbage| == 64
    ensures DigestBytes(Finished(AbsorbAll(Started(garbage), chunks)).state) == Fips180.Sha256(Concat(chunks))
  {
    var c, m := Started(garbage), Concat(chunks);
    StartedAbsorbedNothing(garbage);
    AbsorbKeeps(c, [], m);
    assert [] + m == m;
    AbsorbAllIsConcat(c, chunks);
    FinishIsFips(Absorb(c, m), m);
  }

  /** The kernel's case: two updates. */
  lemma TwoUpdates(garbage: seq<byte>, a: seq<byte>, b: seq<byte>)
    requires |garbage| == 64
    ensures DigestBytes(Finished(Absorb(Absorb(Started(garbage), a), b)).state) == Fips180.Sha256(a + b)
  {
    hide Finished, Absorb, DigestBytes;
    var c := Started(garbage);
    StartedAbsorbedNothing(garbage);
    AbsorbConcat(c, a, b);
    AbsorbKeeps(c, [], a + b);
    assert [] + (a + b) == a + b;
    FinishIsFips(Absorb(c, a + b), a + b);
  }
}
