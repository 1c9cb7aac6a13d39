/** The identities and proofs that the prover and the validator exchange, as bytes. */
module ProverTypes {
  import opened Bytes

  type int64 = n: int | -TWO63 <= n < TWO63

  /** A node: the bytes its hexadecimal address decodes to, and its number. */
  datatype NodeID = NodeID(address: seq<byte>, id: int64)

  datatype Proof = Proof(node: NodeID, nonce: int64)

  /** All integers of the system are written in eight bytes, least significant first. */
  const INT_BYTES: nat := 8

  function NodeBytes(n: NodeID): seq<byte> {
    n.address + LittleEndian(n.id, INT_BYTES)
  }

  function ProofBytes(p: Proof): seq<byte> {
    NodeBytes(p.node) + LittleEndian(p.nonce, INT_BYTES)
  }

  /** The conversion of a signed to an unsigned 64-bit integer. */
  function Unsigned(n: int64): nat {
    n % TWO64
  }

  function Signed(v: nat): int64
    requires v < TWO64
  {
    if v < TWO63 then v else v - TWO64
  }

  lemma EightDigits(n: int)
    ensures var s := LittleEndian(n, INT_BYTES);
      && s[0] == ByteAt(n, 1) && s[1] == ByteAt(n, 0x100) && s[2] == ByteAt(n, 0x1_0000)
      && s[3] == ByteAt(n, 0x100_0000) && s[4] == ByteAt(n, 0x1_0000_0000)
      && s[5] == ByteAt(n, 0x100_0000_0000) && s[6] == ByteAt(n, 0x1_0000_0000_0000)
      && s[7] == ByteAt(n, 0x100_0000_0000_0000)
  {
    hide ByteAt, LittleEndian;
    Powers();
    LittleEndianDigit(n, INT_BYTES, 0);
    LittleEndianDigit(n, INT_BYTES, 1);
    LittleEndianDigit(n, INT_BYTES, 2);
    LittleEndianDigit(n, INT_BYTES, 3);
    LittleEndianDigit(n, INT_BYTES, 4);
    LittleEndianDigit(n, INT_BYTES, 5);
    LittleEndianDigit(n, INT_BYTES, 6);
    LittleEndianDigit(n, INT_BYTES, 7);
  }

  /** Store an unsigned integer in the first eight bytes of a buffer by shifts of eight bits. */
  method PutUint64(buf: array<byte>, v: nat)
    requires buf.Length >= 8 && v < TWO64
    modifies buf
    ensures buf[..8] == LittleEndian(v, INT_BYTES) && buf[8..] == old(buf[8..])
  {
    hide ByteAt, LittleEndian;
    EightDigits(v);
    buf[0] := ByteAt(v, 1);
    buf[1] := ByteAt(v, 0x100);
    buf[2] := ByteAt(v, 0x1_0000);
    buf[3] := ByteAt(v, 0x100_0000);
    buf[4] := ByteAt(v, 0x1_0000_0000);
    buf[5] := ByteAt(v, 0x100_0000_0000);
    buf[6] := ByteAt(v, 0x1_0000_0000_0000);
    buf[7] := ByteAt(v, 0x100_0000_0000_0000);
    ghost var now := buf[..];
    assert now[..8] == LittleEndian(v, INT_BYTES);
  }

  lemma UnsignedSameBytes(n: int64)
    ensures LittleEndian(Unsigned(n), INT_BYTES) == LittleEndian(n, INT_BYTES)
  {
    Powers();
    LittleEndianLow(Unsigned(n), n, INT_BYTES);
  }

  /** The address comes first, then the number as an unsigned 64-bit integer. */
  lemma NodeLayout(n: NodeID)
    ensures var s, a := NodeBytes(n), |n.address|;
      |s| == a + 8 && s[..a] == n.address && ValueLE(s[a..]) == n.id % TWO64
  {
    hide LittleEndian, ValueLE, Pow256;
    Powers();
    LittleEndianValue(n.id, INT_BYTES);
    assert NodeBytes(n)[|n.address|..] == LittleEndian(n.id, INT_BYTES);
  }

  /** Address, number, nonce: each at its place. */
  lemma ProofLayout(p: Proof)
    ensures var s, a := ProofBytes(p), |p.node.address|;
      && |s| == a + 16 && s[..a] == p.node.address
      && ValueLE(s[a..a + 8]) == p.node.id % TWO64 && ValueLE(s[a + 8..]) == p.nonce % TWO64
  {
    hide LittleEndian, ValueLE, Pow256, NodeBytes;
    Powers();
    NodeLayout(p.node);
    LittleEndianValue(p.nonce, INT_BYTES);
    var s, a := ProofBytes(p), |p.node.address|;
    assert s[..a] == NodeBytes(p.node)[..a] && s[a..a + 8] == NodeBytes(p.node)[a..];
    assert s[a + 8..] == LittleEndian(p.nonce, INT_BYTES);
  }

  method NodeToBytes(n: NodeID) returns (s: seq<byte>)
    ensures s == NodeBytes(n)
    ensures var a := |n.address|; |s| == a + 8 && s[..a] == n.address && ValueLE(s[a..]) == n.id % TWO64
  {
    NodeLayout(n);
    var buf := new byte[8];
    PutUint64(buf, Unsigned(n.id));
    UnsignedSameBytes(n.id);
    assert buf[..] == buf[..8];
    s := n.address + buf[..];
  }

  method ProofToBytes(p: Proof) returns (s: seq<byte>)
    ensures s == ProofBytes(p)
    ensures var a := |p.node.address|;
      && |s| == a + 16 && s[..a] == p.node.address
      && ValueLE(s[a..a + 8]) == p.node.id % TWO64 && ValueLE(s[a + 8..]) == p.nonce % TWO64
  {
    ProofLayout(p);
    var nonceBuf := new byte[8];
    PutUint64(nonceBuf, Unsigned(p.nonce));
    UnsignedSameBytes(p.nonce);
    assert nonceBuf[..] == nonceBuf[..8];
    var buf := NodeToBytes(p.node);
    s := buf + nonceBuf[..];
  }

  /** Eight little-endian bytes read back as a signed integer give the integer written. */
  lemma IntRoundTrip(n: int64)
    ensures ValueLE(LittleEndian(n, INT_BYTES)) < TWO64
    ensures Signed(ValueLE(LittleEndian(n, INT_BYTES))) == n
  {
    hide LittleEndian, ValueLE, Pow256;
    Powers();
    LittleEndianValue(n, INT_BYTES);
  }

  lemma IntBytesInjective(n: int64, m: int64)
    requires LittleEndian(n, INT_BYTES) == LittleEndian(m, INT_BYTES)
    ensures n == m
  {
    IntRoundTrip(n);
    IntRoundTrip(m);
  }

  lemma SplitTail(a: seq<byte>, b: seq<byte>, c: seq<byte>, d: seq<byte>)
    requires |b| == |d| && a + b == c + d
    ensures a == c && b == d
  {
    assert |a| == |c|;
    assert a == (a + b)[..|a|] && c == (c + d)[..|c|];
    assert b == (a + b)[|a|..] && d == (c + d)[|c|..];
  }

  /** Different proofs have different bytes: address, number and nonce can all be read back. */
  lemma ProofBytesInjective(p: Proof, q: Proof)
    requires ProofBytes(p) == ProofBytes(q)
    ensures p == q
  {
    SplitTail(NodeBytes(p.node), LittleEndian(p.nonce, INT_BYTES), NodeBytes(q.node), LittleEndian(q.nonce, INT_BYTES));
    SplitTail(p.node.address, LittleEndian(p.node.id, INT_BYTES), q.node.address, LittleEndian(q.node.id, INT_BYTES));
    IntBytesInjective(p.nonce, q.nonce);
    IntBytesInjective(p.node.id, q.node.id);
  }
}
