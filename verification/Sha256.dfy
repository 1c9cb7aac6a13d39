/** The prover's own SHA-256: a context that takes a message in pieces, byte by byte, and compresses
    its 64-byte buffer in place whenever the buffer is full. */
module Sha256 {
  import opened Bytes
  import opened Fips180

  // The macros.

  function RotRight(a: bv32, b: bv32): bv32
    requires 0 < b < 32
  {
    (a >> b) | (a << (32 - b))
  }

  function Ep0(x: bv32): bv32 {
    Xor3(RotRight(x, 2), RotRight(x, 13), RotRight(x, 22))
  }

  function Ep1(x: bv32): bv32 {
    Xor3(RotRight(x, 6), RotRight(x, 11), RotRight(x, 25))
  }

  function Sig0(x: bv32): bv32 {
    Xor3(RotRight(x, 7), RotRight(x, 18), x >> 3)
  }

  function Sig1(x: bv32): bv32 {
    Xor3(RotRight(x, 17), RotRight(x, 19), x >> 10)
  }

  lemma RotatesEp(x: bv32)
    ensures RotRight(x, 2) == x.RotateRight(2) && RotRight(x, 13) == x.RotateRight(13)
    ensures RotRight(x, 22) == x.RotateRight(22) && RotRight(x, 6) == x.RotateRight(6)
    ensures RotRight(x, 11) == x.RotateRight(11) && RotRight(x, 25) == x.RotateRight(25)
  {
  }

  lemma RotatesSig(x: bv32)
    ensures RotRight(x, 7) == x.RotateRight(7) && RotRight(x, 18) == x.RotateRight(18)
    ensures RotRight(x, 17) == x.RotateRight(17) && RotRight(x, 19) == x.RotateRight(19)
  {
  }

  /** The macros built from two shifts are the functions FIPS 180-4 builds from rotations. */
  lemma MacrosAreFips(x: bv32)
    ensures Ep0(x) == BigSigma0(x) && Ep1(x) == BigSigma1(x)
    ensures Sig0(x) == SmallSigma0(x) && Sig1(x) == SmallSigma1(x)
  {
    RotatesEp(x);
    RotatesSig(x);
  }

  lemma RoundStep(v: Words, k: bv32, w: bv32, t1: bv32, t2: bv32)
    requires t1 == Plus(Plus(Plus(Plus(v.h, Ep1(v.e)), Ch(v.e, v.f, v.g)), k), w)
    requires t2 == Plus(Ep0(v.a), Maj(v.a, v.b, v.c))
    ensures Words(Plus(t1, t2), v.a, v.b, v.c, Plus(v.d, t1), v.e, v.f, v.g) == Round(v, k, w)
  {
    MacrosAreFips(v.a);
    MacrosAreFips(v.e);
  }

  // The value of a context, and what absorbing bytes does to it.

  datatype Context = Context(data: seq<byte>, datalen: nat, bitlen: nat, state: Words)
  {
    predicate Valid() {
      |data| == 64 && datalen < 64 && bitlen < TWO64
    }
  }

  function AbsorbByte(c: Context, b: byte): (c': Context)
    requires c.Valid()
    ensures c'.Valid()
  {
    var data := c.data[c.datalen := b];
    if c.datalen + 1 == 64 then
      Context(data, 0, (c.bitlen + 512) % TWO64, Compress(c.state, data))
    else
      Context(data, c.datalen + 1, c.bitlen, c.state)
  }

  function Absorb(c: Context, s: seq<byte>): (c': Context)
    requires c.Valid()
    ensures c'.Valid()
  {
    if s == [] then c else AbsorbByte(Absorb(c, s[..|s| - 1]), s[|s| - 1])
  }

  function Started(data: seq<byte>): Context {
    Context(data, 0, 0, H0)
  }

  // What finishing does: one or two more blocks, then the digest.

  /** The buffer up to the length field, and the state, once the padding has been written. */
  function PaddedFront(c: Context): (front: seq<byte>)
    requires c.Valid()
    ensures |front| == 56
  {
    if c.datalen < 56 then c.data[..c.datalen] + [0x80] + Zeros(55 - c.datalen) else Zeros(56)
  }

  function PaddedState(c: Context): Words
    requires c.Valid()
  {
    if c.datalen < 56 then c.state
    else Compress(c.state, c.data[..c.datalen] + [0x80] + Zeros(63 - c.datalen))
  }

  function Finished(c: Context): (c': Context)
    requires c.Valid()
    ensures c'.Valid()
  {
    var bitlen := (c.bitlen + 8 * c.datalen) % TWO64;
    var last := PaddedFront(c) + BigEndian(bitlen, LENGTH_BYTES);
    Context(last, c.datalen, bitlen, Compress(PaddedState(c), last))
  }

  lemma LengthByte(n: nat, j: nat, shift: nat)
    requires j < 8 && shift == Pow256(j)
    ensures BigEndian(n, LENGTH_BYTES)[7 - j] == ByteAt(n, shift)
  {
    BigEndianDigit(n, LENGTH_BYTES, j);
  }

  lemma LengthBytes(n: nat)
    ensures BigEndian(n, LENGTH_BYTES) ==
      [ByteAt(n, 0x100_0000_0000_0000), ByteAt(n, 0x1_0000_0000_0000), ByteAt(n, 0x100_0000_0000),
       ByteAt(n, 0x1_0000_0000), ByteAt(n, 0x100_0000), ByteAt(n, 0x1_0000), ByteAt(n, 0x100), ByteAt(n, 1)]
  {
    hide ByteAt, BigEndian;
    Powers();
    LengthByte(n, 0, 1);
    LengthByte(n, 1, 0x100);
    LengthByte(n, 2, 0x1_0000);
    LengthByte(n, 3, 0x100_0000);
    LengthByte(n, 4, 0x1_0000_0000);
    LengthByte(n, 5, 0x100_0000_0000);
    LengthByte(n, 6, 0x1_0000_0000_0000);
    LengthByte(n, 7, 0x100_0000_0000_0000);
  }

  lemma ShiftOut(w: bv32, i: nat)
    requires i < 4
    ensures ((w >> (24 - i * 8)) & 0x000000ff) as bv8 == Part(w, i)
  {
    if i == 0 {
    } else if i == 1 {
    } else if i == 2 {
    } else {
    }
  }

  /** Byte i of a word, counting from the most significant, by shifting and masking. */
  function DigestByte(w: bv32, i: nat): (b: byte)
    requires i < 4
    ensures b == WordBytes(w)[i]
  {
    ShiftOut(w, i);
    var part := ((w >> (24 - i * 8)) & 0x000000ff) as bv8;
    part as byte
  }

  lemma DigestColumn(v: Words, i: nat)
    requires i < 4
    ensures var d := DigestBytes(v);
      && d[i] == WordBytes(v.a)[i] && d[i + 4] == WordBytes(v.b)[i]
      && d[i + 8] == WordBytes(v.c)[i] && d[i + 12] == WordBytes(v.d)[i]
      && d[i + 16] == WordBytes(v.e)[i] && d[i + 20] == WordBytes(v.f)[i]
      && d[i + 24] == WordBytes(v.g)[i] && d[i + 28] == WordBytes(v.h)[i]
  {
  }

  lemma ColumnIndex(p: nat, i: nat)
    requires p < 32 && p % 4 == i
    ensures p == i || p == i + 4 || p == i + 8 || p == i + 12 ||
            p == i + 16 || p == i + 20 || p == i + 24 || p == i + 28
  {
  }

  class Sha256Ctx {
    const data: array<byte>
    var datalen: nat
    var bitlen: nat
    const state: array<bv32>

    ghost predicate Valid()
      reads this, data, state
    {
      data.Length == 64 && state.Length == 8 && View().Valid()
    }

    ghost function Hash(): Words
      reads state
      requires state.Length == 8
    {
      Words(state[0], state[1], state[2], state[3], state[4], state[5], state[6], state[7])
    }

    ghost function View(): Context
      reads this, data, state
      requires state.Length == 8
    {
      Context(data[..], datalen, bitlen, Hash())
    }

    /** An uninitialised context: the contents of both buffers are arbitrary. */
    constructor ()
      ensures fresh(data) && fresh(state) && data.Length == 64 && state.Length == 8
    {
      data := new byte[64];
      state := new bv32[8];
      datalen, bitlen := 0, 0;
    }

    method Init()
      requires data.Length == 64 && state.Length == 8
      modifies this, state
      ensures Valid() && View() == Started(old(data[..]))
    {
      datalen := 0;
      bitlen := 0;
      state[0] := 0x6a09e667;
      state[1] := 0xbb67ae85;
      state[2] := 0x3c6ef372;
      state[3] := 0xa54ff53a;
      state[4] := 0x510e527f;
      state[5] := 0x9b05688c;
      state[6] := 0x1f83d9ab;
      state[7] := 0x5be0cd19;
    }

    /** The schedule array m[64]: sixteen words of the block, then the recurrence. */
    static method ExpandBlock(block: array<byte>) returns (m: array<bv32>)
      requires block.Length >= 64
      ensures fresh(m) && m.Length == 64
      ensures forall t :: 0 <= t < 64 ==> m[t] == Schedule(block[..64], t)
    {
      hide Plus, Word, Sig0, Sig1, SmallSigma0, SmallSigma1;
      ghost var input := block[..64];
      m := new bv32[64];
      var i, j := 0, 0;
      while i < 16
        invariant 0 <= i <= 16 && j == 4 * i
        invariant forall t :: 0 <= t < i ==> m[t] == Schedule(input, t)
      {
        m[i] := Word(block[j], block[j + 1], block[j + 2], block[j + 3]);
        i, j := i + 1, j + 4;
      }
      while i < 64
        invariant 16 <= i <= 64
        invariant forall t :: 0 <= t < i ==> m[t] == Schedule(input, t)
      {
        MacrosAreFips(m[i - 2]);
        MacrosAreFips(m[i - 15]);
        m[i] := Plus(Plus(Plus(Sig1(m[i - 2]), m[i - 7]), Sig0(m[i - 15])), m[i - 16]);
        i := i + 1;
      }
    }

    /** The sixty-four rounds, on local copies of the state. */
    method RunRounds(m: array<bv32>, ghost input: seq<byte>) returns (v: Words)
      requires state.Length == 8 && m.Length == 64 && |input| == 64
      requires forall t :: 0 <= t < 64 ==> m[t] == Schedule(input, t)
      ensures v == Rounds(Hash(), input, ROUNDS)
    {
      ghost var before := Hash();
      var a, b, c, d := state[0], state[1], state[2], state[3];
      var e, f, g, h := state[4], state[5], state[6], state[7];
      var i := 0;
      while i < 64
        invariant 0 <= i <= 64
        invariant Words(a, b, c, d, e, f, g, h) == Rounds(before, input, i)
      {
        var t1 := Plus(Plus(Plus(Plus(h, Ep1(e)), Ch(e, f, g)), K(i)), m[i]);
        var t2 := Plus(Ep0(a), Maj(a, b, c));
        RoundStep(Words(a, b, c, d, e, f, g, h), K(i), m[i], t1, t2);
        h := g;
        g := f;
        f := e;
        e := Plus(d, t1);
        d := c;
        c := b;
        b := a;
        a := Plus(t1, t2);
        i := i + 1;
      }
      v := Words(a, b, c, d, e, f, g, h);
    }

    method AddToState(v: Words)
      requires state.Length == 8
      modifies state
      ensures Hash() == AddWords(old(Hash()), v)
    {
      hide Plus;
      state[0] := Plus(state[0], v.a);
      state[1] := Plus(state[1], v.b);
      state[2] := Plus(state[2], v.c);
      state[3] := Plus(state[3], v.d);
      state[4] := Plus(state[4], v.e);
      state[5] := Plus(state[5], v.f);
      state[6] := Plus(state[6], v.g);
      state[7] := Plus(state[7], v.h);
    }

    method Transform(block: array<byte>)
      requires state.Length == 8 && block.Length >= 64
      modifies state
      ensures Hash() == Compress(old(Hash()), old(block[..64]))
    {
      var m := ExpandBlock(block);
      var v := RunRounds(m, block[..64]);
      AddToState(v);
    }

    /** The body of the update loop: store one byte, and compress the buffer once it is full. */
    method PushByte(b: byte)
      requires Valid()
      modifies this, data, state
      ensures Valid() && View() == AbsorbByte(old(View()), b)
    {
      hide Compress;
      ghost var before := View();
      data[datalen] := b;
      assert data[..] == before.data[datalen := b];
      datalen := datalen + 1;
      if datalen == 64 {
        assert data[..64] == data[..];
        Transform(data);
        bitlen := (bitlen + 512) % TWO64;
        datalen := 0;
      }
    }

    method Update(input: seq<byte>)
      requires Valid() && |input| < TWO32
      modifies this, data, state
      ensures Valid() && View() == Absorb(old(View()), input)
    {
      ghost var before := View();
      var i := 0;
      while i < |input|
        invariant 0 <= i <= |input|
        invariant Valid() && View() == Absorb(before, input[..i])
      {
        PushByte(input[i]);
        i := i + 1;
        assert input[..i][..i - 1] == input[..i - 1];
      }
      assert input[..i] == input;
    }

    method ZeroFill(from: nat, to: nat)
      requires from <= to <= data.Length
      modifies data
      ensures data[..] == old(data[..from]) + Zeros(to - from) + old(data[to..])
    {
      var i := from;
      while i < to
        invariant from <= i <= to
        invariant forall k :: 0 <= k < data.Length ==> data[k] == if from <= k < i then 0 else old(data[k])
      {
        data[i] := 0x00;
        i := i + 1;
      }
    }

    method Terminate(to: nat)
      requires datalen < to <= data.Length
      modifies data
      ensures data[..to] == old(data[..datalen]) + [0x80] + Zeros(to - datalen - 1)
    {
      var i := datalen;
      data[i] := 0x80;
      i := i + 1;
      assert data[..i] == old(data[..datalen]) + [0x80];
      ZeroFill(i, to);
    }

    /** Pad whatever is left in the buffer, compressing it if the length no longer fits. */
    method PadBuffer()
      requires Valid()
      modifies data, state
      ensures data[..56] == PaddedFront(old(View())) && Hash() == PaddedState(old(View()))
    {
      hide Compress;
      ghost var c, h := View(), Hash();
      assert c.data[..c.datalen] == data[..datalen];
      if datalen < 56 {
        Terminate(56);
        assert Hash() == h;
      } else {
        ghost var full := c.data[..c.datalen] + [0x80] + Zeros(63 - datalen);
        Terminate(64);
        assert Hash() == h && data[..64] == full;
        Transform(data);
        assert Hash() == Compress(h, full);
        ZeroFill(0, 56);
        assert Hash() == Compress(h, full) == PaddedState(c);
        assert data[..56] == Zeros(56);
      }
    }

    /** Write the message length in bits into the last eight bytes, most significant first. */
    method AppendLength()
      requires Valid()
      modifies this`bitlen, data
      ensures bitlen == (old(bitlen) + 8 * datalen) % TWO64
      ensures data[..] == old(data[..56]) + BigEndian(bitlen, LENGTH_BYTES)
    {
      bitlen := (bitlen + datalen * 8) % TWO64;
      StoreLength();
      LengthBytes(bitlen);
    }

    method StoreLength()
      requires data.Length == 64
      modifies data
      ensures data[..] == old(data[..56]) +
        [ByteAt(bitlen, 0x100_0000_0000_0000), ByteAt(bitlen, 0x1_0000_0000_0000), ByteAt(bitlen, 0x100_0000_0000),
         ByteAt(bitlen, 0x1_0000_0000), ByteAt(bitlen, 0x100_0000), ByteAt(bitlen, 0x1_0000), ByteAt(bitlen, 0x100),
         ByteAt(bitlen, 1)]
    {
      hide ByteAt;
      data[63] := ByteAt(bitlen, 1);
      data[62] := ByteAt(bitlen, 0x100);
      data[61] := ByteAt(bitlen, 0x1_0000);
      data[60] := ByteAt(bitlen, 0x100_0000);
      data[59] := ByteAt(bitlen, 0x1_0000_0000);
      data[58] := ByteAt(bitlen, 0x100_0000_0000);
      data[57] := ByteAt(bitlen, 0x1_0000_0000_0000);
      data[56] := ByteAt(bitlen, 0x100_0000_0000_0000);
    }

    /** One turn of the output loop: byte i of each of the eight words. */
    method WriteColumn(hash: array<byte>, i: nat)
      requires state.Length == 8 && hash.Length >= 32 && i < 4
      modifies hash
      ensures var d := DigestBytes(Hash());
        && hash[i] == d[i] && hash[i + 4] == d[i + 4] && hash[i + 8] == d[i + 8] && hash[i + 12] == d[i + 12]
        && hash[i + 16] == d[i + 16] && hash[i + 20] == d[i + 20]
        && hash[i + 24] == d[i + 24] && hash[i + 28] == d[i + 28]
      ensures forall p :: 0 <= p < hash.Length && (p >= 32 || p % 4 != i) ==> hash[p] == old(hash[p])
    {
      hide DigestByte, WordBytes, DigestBytes;
      DigestColumn(Hash(), i);
      hash[i] := DigestByte(state[0], i);
      hash[i + 4] := DigestByte(state[1], i);
      hash[i + 8] := DigestByte(state[2], i);
      hash[i + 12] := DigestByte(state[3], i);
      hash[i + 16] := DigestByte(state[4], i);
      hash[i + 20] := DigestByte(state[5], i);
      hash[i + 24] := DigestByte(state[6], i);
      hash[i + 28] := DigestByte(state[7], i);
    }

    method WriteDigest(hash: array<byte>)
      requires state.Length == 8 && hash.Length >= 32
      modifies hash
      ensures hash[..32] == DigestBytes(Hash())
      ensures hash[32..] == old(hash[32..])
    {
      hide DigestBytes;
      var i := 0;
      while i < 4
        invariant 0 <= i <= 4
        invariant forall p :: 0 <= p < 32 && p % 4 < i ==> hash[p] == DigestBytes(Hash())[p]
        invariant forall p :: 32 <= p < hash.Length ==> hash[p] == old(hash[p])
      {
        WriteColumn(hash, i);
        forall p | 0 <= p < 32 && p % 4 == i
          ensures hash[p] == DigestBytes(Hash())[p]
        {
          ColumnIndex(p, i);
        }
        i := i + 1;
      }
    }

    method Final(hash: array<byte>)
      requires Valid() && hash.Length >= 32 && hash != data
      modifies this`bitlen, data, state, hash
      ensures Valid() && View() == Finished(old(View()))
      ensures hash[..32] == DigestBytes(View().state) && hash[32..] == old(hash[32..])
    {
      hide Compress;
      ghost var c := View();
      PadBuffer();
      assert Valid();
      AppendLength();
      ghost var last := PaddedFront(c) + BigEndian(bitlen, LENGTH_BYTES);
      assert data[..] == last && Hash() == PaddedState(c);
      assert data[..64] == data[..];
      Transform(data);
      assert Hash() == Compress(PaddedState(c), last);
      assert Finished(c) == Context(last, datalen, bitlen, Hash());
      WriteDigest(hash);
      assert data[..] == last && Hash() == Compress(PaddedState(c), last);
    }
  }
}
