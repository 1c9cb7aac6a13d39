/** Unpadded base64url, as tokens use it: section 5 of RFC 4648, with the padding stripped as in
    appendix C of RFC 7515, on top of the padded encoder and decoder of Go's standard library. */
module Base64Url {
  import opened Bytes
  import opened Wrappers

  type sextet = n: nat | n < 64

  /** The URL-safe alphabet. */
  function Symbol(i: sextet): char {
    if i < 26 then 'A' + i as char
    else if i < 52 then 'a' + (i - 26) as char
    else if i < 62 then '0' + (i - 52) as char
    else if i == 62 then '-'
    else '_'
  }

  predicate IsSymbol(c: char) {
    'A' <= c <= 'Z' || 'a' <= c <= 'z' || '0' <= c <= '9' || c == '-' || c == '_'
  }

  function Index(c: char): sextet
    requires IsSymbol(c)
  {
    if 'A' <= c <= 'Z' then c as int - 'A' as int
    else if 'a' <= c <= 'z' then c as int - 'a' as int + 26
    else if '0' <= c <= '9' then c as int - '0' as int + 52
    else if c == '-' then 62
    else 63
  }

  lemma SymbolIndex(i: sextet, c: char)
    ensures IsSymbol(Symbol(i)) && Index(Symbol(i)) == i
    ensures IsSymbol(c) ==> Symbol(Index(c)) == c
  {
  }

  /** The alphabet of table 2 of RFC 4648. */
  const ALPHABET: seq<string> := [
    "ABCDEFGH", "IJKLMNOP", "QRSTUVWX", "YZabcdef", "ghijklmn", "opqrstuv", "wxyz0123", "456789-_"]

  lemma SymbolIsAlphabet(i: sextet)
    ensures Symbol(i) == ALPHABET[i / 8][i % 8]
  {
  }

  // The padded encoder.

  function EncodeTriple(a: byte, b: byte, c: byte): string {
    var v := a * 0x1_0000 + b * 0x100 + c;
    [Symbol(v / 0x4_0000), Symbol(v / 0x1000 % 64), Symbol(v / 64 % 64), Symbol(v % 64)]
  }

  function EncodeToString(x: seq<byte>): string {
    if x == [] then ""
    else if |x| == 1 then EncodeTriple(x[0], 0, 0)[..2] + "=="
    else if |x| == 2 then EncodeTriple(x[0], x[1], 0)[..3] + "="
    else EncodeTriple(x[0], x[1], x[2]) + EncodeToString(x[3..])
  }

  // The padded decoder: line breaks are skipped, and the bits beyond the last byte are ignored.

  function SkipLineBreaks(s: string): string {
    if s == "" then ""
    else if s[0] == '\r' || s[0] == '\n' then SkipLineBreaks(s[1..])
    else [s[0]] + SkipLineBreaks(s[1..])
  }

  function DecodeQuad(a: sextet, b: sextet, c: sextet, d: sextet): (x: seq<byte>)
    ensures |x| == 3
  {
    var v := a * 0x4_0000 + b * 0x1000 + c * 64 + d;
    [v / 0x1_0000, v / 0x100 % 0x100, v % 0x100]
  }

  function DecodeQuads(s: string): Option<seq<byte>> {
    if s == "" then Some([])
    else if |s| < 4 || !IsSymbol(s[0]) || !IsSymbol(s[1]) then None
    else if IsSymbol(s[2]) && IsSymbol(s[3]) then
      match DecodeQuads(s[4..])
      case None => None
      case Some(rest) => Some(DecodeQuad(Index(s[0]), Index(s[1]), Index(s[2]), Index(s[3])) + rest)
    else if s[3] != '=' || |s| > 4 then None
    else if IsSymbol(s[2]) then Some(DecodeQuad(Index(s[0]), Index(s[1]), Index(s[2]), 0)[..2])
    else if s[2] == '=' then Some(DecodeQuad(Index(s[0]), Index(s[1]), 0, 0)[..1])
    else None
  }

  function DecodeString(s: string): Option<seq<byte>> {
    DecodeQuads(SkipLineBreaks(s))
  }

  /** An example of section 10 of RFC 4648: the letters "foo", and its two shorter prefixes. */
  lemma Rfc4648Example()
    ensures EncodeTriple(0x66, 0x6f, 0x6f) == "Zm9v"
    ensures EncodeTriple(0x66, 0x6f, 0)[..3] == "Zm8" && EncodeTriple(0x66, 0, 0)[..2] == "Zg"
  {
    assert Symbol(25) == 'Z' && Symbol(38) == 'm' && Symbol(61) == '9' && Symbol(47) == 'v';
    assert Symbol(60) == '8' && Symbol(32) == 'g';
    hide Symbol;
    assert EncodeTriple(0x66, 0x6f, 0x6f) == [Symbol(25), Symbol(38), Symbol(61), Symbol(47)];
    assert EncodeTriple(0x66, 0x6f, 0)[..3] == [Symbol(25), Symbol(38), Symbol(60)];
    assert EncodeTriple(0x66, 0, 0)[..2] == [Symbol(25), Symbol(32)];
  }

  // The two functions of the token library.

  function TrimRight(s: string, c: char): string {
    if s != "" && s[|s| - 1] == c then TrimRight(s[..|s| - 1], c) else s
  }

  function Repeat(c: char, n: nat): (s: string)
    ensures |s| == n
  {
    seq(n, _ => c)
  }

  function EncodeSegment(seg: seq<byte>): string {
    TrimRight(EncodeToString(seg), '=')
  }

  /** The padding that decoding puts back. */
  function Repad(seg: string): string {
    var l := |seg| % 4;
    if l > 0 then seg + Repeat('=', 4 - l) else seg
  }

  function DecodeSegment(seg: string): Option<seq<byte>> {
    DecodeString(Repad(seg))
  }

  // The round trip.

  /** Four digits to the base 64 are read off by division. */
  lemma Sextets(v: nat, p: sextet, q: sextet, r: sextet, s: sextet)
    requires v == p * 0x4_0000 + q * 0x1000 + r * 64 + s
    ensures v / 0x4_0000 == p && v / 0x1000 % 64 == q && v / 64 % 64 == r && v % 64 == s
  {
    assert v / 64 == p * 0x1000 + q * 64 + r;
    assert v / 0x1000 == p * 64 + q;
  }

  /** Three digits to the base 256 are read off by division. */
  lemma Octets(v: nat, a: byte, b: byte, c: byte)
    requires v == a * 0x1_0000 + b * 0x100 + c
    ensures v / 0x1_0000 == a && v / 0x100 % 0x100 == b && v % 0x100 == c
  {
    assert v / 0x100 == a * 0x100 + b;
  }

  lemma TripleDigits(a: byte, b: byte, c: byte)
    ensures var v := a * 0x1_0000 + b * 0x100 + c;
      && v / 0x4_0000 < 64
      && (v / 0x4_0000) * 0x4_0000 + (v / 0x1000 % 64) * 0x1000 + (v / 64 % 64) * 64 + v % 64 == v
      && v / 0x1_0000 == a && v / 0x100 % 0x100 == b && v % 0x100 == c
      && (c == 0 ==> v % 64 == 0 && v / 64 % 64 % 4 == 0)
      && (b == c == 0 ==> v / 64 % 64 == 0 && v / 0x1000 % 64 % 16 == 0)
  {
    Octets(a * 0x1_0000 + b * 0x100 + c, a, b, c);
    Sextets(a * 0x1_0000 + b * 0x100 + c, a / 4, a % 4 * 16 + b / 16, b % 16 * 4 + c / 64, c % 64);
  }

  /** Four symbols give back the three bytes they were made of. */
  lemma TripleRoundTrip(a: byte, b: byte, c: byte)
    ensures var s := EncodeTriple(a, b, c);
      && |s| == 4 && IsSymbol(s[0]) && IsSymbol(s[1]) && IsSymbol(s[2]) && IsSymbol(s[3])
      && DecodeQuad(Index(s[0]), Index(s[1]), Index(s[2]), Index(s[3])) == [a, b, c]
      && (c == 0 ==> Index(s[3]) == 0 && Index(s[2]) % 4 == 0)
      && (b == c == 0 ==> Index(s[2]) == 0 && Index(s[1]) % 16 == 0)
  {
    hide IsSymbol, Index, Symbol;
    TripleDigits(a, b, c);
    var v := a * 0x1_0000 + b * 0x100 + c;
    SymbolIndex(v / 0x4_0000, 'A');
    SymbolIndex(v / 0x1000 % 64, 'A');
    SymbolIndex(v / 64 % 64, 'A');
    SymbolIndex(v % 64, 'A');
  }

  lemma {:induction false} PaddedRoundTrip(x: seq<byte>)
    ensures DecodeQuads(EncodeToString(x)) == Some(x)
  {
    hide IsSymbol, Index, Symbol, EncodeTriple, DecodeQuad;
    NotASymbol();
    if |x| == 1 {
      TripleRoundTrip(x[0], 0, 0);
      assert [x[0], 0, 0][..1] == x;
    } else if |x| == 2 {
      TripleRoundTrip(x[0], x[1], 0);
      var e := EncodeTriple(x[0], x[1], 0);
      assert EncodeToString(x) == [e[0], e[1], e[2], '='];
      assert DecodeQuad(Index(e[0]), Index(e[1]), Index(e[2]), 0) == [x[0], x[1], 0];
      assert [x[0], x[1], 0][..2] == x;
    } else if |x| >= 3 {
      TripleRoundTrip(x[0], x[1], x[2]);
      PaddedRoundTrip(x[3..]);
      assert EncodeToString(x)[4..] == EncodeToString(x[3..]);
      assert x == [x[0], x[1], x[2]] + x[3..];
    }
  }

  lemma NotASymbol()
    ensures !IsSymbol('=') && !IsSymbol('\r') && !IsSymbol('\n')
  {
  }

  /** The encoding without its padding. */
  function Body(x: seq<byte>): string {
    if x == [] then ""
    else if |x| == 1 then EncodeTriple(x[0], 0, 0)[..2]
    else if |x| == 2 then EncodeTriple(x[0], x[1], 0)[..3]
    else EncodeTriple(x[0], x[1], x[2]) + Body(x[3..])
  }

  predicate AllSymbols(s: string) {
    forall i :: 0 <= i < |s| ==> IsSymbol(s[i])
  }

  function BodyLength(n: nat): nat {
    4 * (n / 3) + (if n % 3 == 0 then 0 else n % 3 + 1)
  }

  function PadLength(n: nat): nat {
    (3 - n % 3) % 3
  }

  lemma {:induction false} BodyShape(x: seq<byte>)
    ensures AllSymbols(Body(x)) && |Body(x)| == BodyLength(|x|)
    ensures EncodeToString(x) == Body(x) + Repeat('=', PadLength(|x|))
  {
    hide IsSymbol, EncodeTriple;
    if |x| == 1 {
      TripleRoundTrip(x[0], 0, 0);
    } else if |x| == 2 {
      TripleRoundTrip(x[0], x[1], 0);
    } else if |x| >= 3 {
      TripleRoundTrip(x[0], x[1], x[2]);
      BodyShape(x[3..]);
      assert PadLength(|x|) == PadLength(|x| - 3);
    }
  }

  lemma {:induction false} TrimPadding(body: string, k: nat)
    requires AllSymbols(body)
    ensures TrimRight(body + Repeat('=', k), '=') == body
    decreases k
  {
    var s := body + Repeat('=', k);
    if k == 0 {
      assert s == body;
    } else {
      assert s[..|s| - 1] == body + Repeat('=', k - 1);
      TrimPadding(body, k - 1);
    }
  }

  lemma {:induction false} NothingToSkip(s: string)
    requires forall i :: 0 <= i < |s| ==> s[i] != '\r' && s[i] != '\n'
    ensures SkipLineBreaks(s) == s
  {
    if s != "" {
      NothingToSkip(s[1..]);
    }
  }

  /** Encoding strips exactly the padding that decoding puts back, and the result is in the alphabet. */
  lemma SegmentShape(x: seq<byte>)
    ensures EncodeSegment(x) == Body(x) && AllSymbols(EncodeSegment(x))
    ensures |EncodeSegment(x)| == BodyLength(|x|) && |EncodeSegment(x)| % 4 != 1
    ensures Repad(EncodeSegment(x)) == EncodeToString(x)
  {
    hide IsSymbol, EncodeToString, Body;
    BodyShape(x);
    TrimPadding(Body(x), PadLength(|x|));
    assert BodyLength(|x|) % 4 == if |x| % 3 == 0 then 0 else |x| % 3 + 1;
    if |x| % 3 == 0 {
      assert Repeat('=', 0) == "";
    }
  }

  lemma RepadHasNoLineBreaks(s: string)
    requires AllSymbols(s)
    ensures SkipLineBreaks(Repad(s)) == Repad(s)
  {
    NothingToSkip(Repad(s));
  }

  /** Main theorem: every byte string survives encoding and decoding. */
  lemma SegmentRoundTrip(x: seq<byte>)
    ensures DecodeSegment(EncodeSegment(x)) == Some(x)
  {
    hide IsSymbol, EncodeToString, EncodeSegment, Repad;
    SegmentShape(x);
    RepadHasNoLineBreaks(EncodeSegment(x));
    PaddedRoundTrip(x);
  }

  // The other direction: which strings are encodings.

  /** Only symbols, a possible length, and no stray bits beyond the last byte. */
  predicate Canonical(s: string) {
    && AllSymbols(s)
    && |s| % 4 != 1
    && (|s| % 4 == 2 ==> Index(s[|s| - 1]) % 16 == 0)
    && (|s| % 4 == 3 ==> Index(s[|s| - 1]) % 4 == 0)
  }

  lemma QuadDigits(a: sextet, b: sextet, c: sextet, d: sextet)
    ensures var v := a * 0x4_0000 + b * 0x1000 + c * 64 + d;
      && v / 0x4_0000 == a && v / 0x1000 % 64 == b && v / 64 % 64 == c && v % 64 == d
      && v / 0x1_0000 < 256
      && (v / 0x1_0000) * 0x1_0000 + (v / 0x100 % 0x100) * 0x100 + v % 0x100 == v
      && (d == 0 && c % 4 == 0 ==> v % 0x100 == 0)
      && (c == d == 0 && b % 16 == 0 ==> v / 0x100 % 0x100 == 0)
  {
    Sextets(a * 0x4_0000 + b * 0x1000 + c * 64 + d, a, b, c, d);
    Octets(a * 0x4_0000 + b * 0x1000 + c * 64 + d, a * 4 + b / 16, b % 16 * 16 + c / 4, c % 4 * 64 + d);
  }

  /** Three bytes give back the four symbols they were read from. */
  lemma QuadRoundTrip(s: string, c: sextet, d: sextet)
    requires |s| == 2 && AllSymbols(s)
    ensures var x := DecodeQuad(Index(s[0]), Index(s[1]), c, d);
      && EncodeTriple(x[0], x[1], x[2]) == s + [Symbol(c), Symbol(d)]
      && (d == 0 && c % 4 == 0 ==> x[2] == 0)
      && (c == d == 0 && Index(s[1]) % 16 == 0 ==> x[1] == 0 && x[2] == 0)
  {
    hide IsSymbol, Index, Symbol;
    QuadDigits(Index(s[0]), Index(s[1]), c, d);
    SymbolIndex(0, s[0]);
    SymbolIndex(0, s[1]);
  }

  lemma QuadOff(s: string)
    requires |s| >= 4 && Canonical(s)
    ensures AllSymbols(s[..4]) && Canonical(s[4..]) && Repad(s) == s[..4] + Repad(s[4..])
  {
    hide IsSymbol, Index;
  }

  lemma QuadOn(s: string, t: string)
    requires |s| == 4 && AllSymbols(s) && Canonical(t)
    ensures Canonical(s + t)
  {
    hide IsSymbol, Index;
  }

  predicate DecodesTo(r: string, s: string) {
    DecodeQuads(r).Some? && Body(DecodeQuads(r).value) == s
  }

  lemma TwoSymbols(s: string)
    requires |s| == 2 && Canonical(s)
    ensures DecodesTo(s + "==", s)
  {
    hide IsSymbol, Index, Symbol, EncodeTriple, DecodeQuad;
    NotASymbol();
    QuadRoundTrip(s, 0, 0);
  }

  lemma ThreeSymbols(s: string)
    requires |s| == 3 && Canonical(s)
    ensures DecodesTo(s + "=", s)
  {
    hide IsSymbol, Index, Symbol, EncodeTriple, DecodeQuad;
    NotASymbol();
    QuadRoundTrip(s[..2], Index(s[2]), 0);
    SymbolIndex(0, s[2]);
  }

  lemma FourSymbols(q: string, r: string, s: string)
    requires |q| == 4 && AllSymbols(q) && DecodesTo(r, s)
    ensures DecodesTo(q + r, q + s)
  {
    hide IsSymbol, Index, Symbol, EncodeTriple, DecodeQuad;
    QuadRoundTrip(q[..2], Index(q[2]), Index(q[3]));
    SymbolIndex(0, q[2]);
    SymbolIndex(0, q[3]);
    var x := DecodeQuad(Index(q[0]), Index(q[1]), Index(q[2]), Index(q[3]));
    assert (q + r)[4..] == r;
    assert (x + DecodeQuads(r).value)[3..] == DecodeQuads(r).value;
    assert q == q[..2] + [q[2], q[3]];
  }

  lemma {:induction false} CanonicalRoundTrip(s: string)
    requires Canonical(s)
    ensures DecodesTo(Repad(s), s)
    decreases |s|
  {
    hide DecodesTo, DecodeQuads, AllSymbols;
    if |s| == 0 {
      assert DecodesTo(Repad(""), "") by {
        EmptyDecodes();
      }
    } else if |s| == 2 {
      TwoSymbols(s);
      assert Repad(s) == s + "==";
    } else if |s| == 3 {
      ThreeSymbols(s);
      assert Repad(s) == s + "=";
    } else {
      QuadOff(s);
      CanonicalRoundTrip(s[4..]);
      FourSymbols(s[..4], Repad(s[4..]), s[4..]);
      assert s == s[..4] + s[4..];
    }
  }

  lemma EmptyDecodes()
    ensures DecodesTo("", "")
  {
  }

  lemma {:induction false} BodyIsCanonical(x: seq<byte>)
    ensures Canonical(Body(x))
  {
    hide IsSymbol, Index, EncodeTriple;
    if |x| == 1 {
      TripleRoundTrip(x[0], 0, 0);
    } else if |x| == 2 {
      TripleRoundTrip(x[0], x[1], 0);
    } else if |x| >= 3 {
      TripleRoundTrip(x[0], x[1], x[2]);
      BodyIsCanonical(x[3..]);
      QuadOn(EncodeTriple(x[0], x[1], x[2]), Body(x[3..]));
    }
  }

  /** Encodings are exactly the canonical strings, and on them decoding inverts encoding. */
  lemma EncodingsAreCanonical(s: string)
    ensures (exists x :: s == EncodeSegment(x)) <==> Canonical(s)
    ensures Canonical(s) ==> DecodeSegment(s).Some? && EncodeSegment(DecodeSegment(s).value) == s
  {
    hide IsSymbol, EncodeSegment, Repad, Body;
    if x :| s == EncodeSegment(x) {
      SegmentShape(x);
      BodyIsCanonical(x);
    }
    if Canonical(s) {
      RepadHasNoLineBreaks(s);
      CanonicalRoundTrip(s);
      SegmentShape(DecodeSegment(s).value);
    }
  }

  // All strings that decode: stray bits, padding written out, and line breaks are tolerated.

  /** The string with the bits beyond its last byte cleared. */
  function Tidy(s: string): string
    requires AllSymbols(s)
  {
    if |s| % 4 == 2 then s[..|s| - 1] + [Symbol(Index(s[|s| - 1]) / 16 * 16)]
    else if |s| % 4 == 3 then s[..|s| - 1] + [Symbol(Index(s[|s| - 1]) / 4 * 4)]
    else s
  }

  /** Up to line breaks and padding, the string is an encoding of x with arbitrary stray bits. */
  ghost predicate Spells(s: string, x: seq<byte>) {
    exists b: string :: SpellsBody(SkipLineBreaks(Repad(s)), b, x)
  }

  ghost predicate SpellsBody(t: string, b: string, x: seq<byte>) {
    t == Repad(b) && AllSymbols(b) && |b| % 4 != 1 && Tidy(b) == EncodeSegment(x)
  }

  lemma StrayBits(a: sextet, b: sextet, c: sextet)
    ensures DecodeQuad(a, b, 0, 0)[..1] == DecodeQuad(a, b / 16 * 16, 0, 0)[..1]
    ensures DecodeQuad(a, b, c, 0)[..2] == DecodeQuad(a, b, c / 4 * 4, 0)[..2]
  {
    hide DecodeQuad;
    FirstOctets(a, b, 0);
    FirstOctets(a, b / 16 * 16, 0);
    FirstOctets(a, b, c);
    FirstOctets(a, b, c / 4 * 4);
  }

  lemma FirstOctets(a: sextet, b: sextet, c: sextet)
    ensures DecodeQuad(a, b, c, 0)[..1] == [a * 4 + b / 16]
    ensures DecodeQuad(a, b, c, 0)[..2] == [a * 4 + b / 16, b % 16 * 16 + c / 4]
  {
    Octets(a * 0x4_0000 + b * 0x1000 + c * 64, a * 4 + b / 16, b % 16 * 16 + c / 4, c % 4 * 64);
  }

  lemma TidyIsCanonical(s: string)
    requires AllSymbols(s) && |s| % 4 != 1
    ensures Canonical(Tidy(s)) && |Tidy(s)| == |s|
  {
    hide IsSymbol, Index, Symbol;
    if |s| > 0 {
      var i := Index(s[|s| - 1]);
      SymbolIndex(i / 16 * 16, 'A');
      SymbolIndex(i / 4 * 4, 'A');
    }
  }

  lemma TidyQuadOff(s: string)
    requires |s| >= 4 && AllSymbols(s)
    ensures AllSymbols(s[4..]) && Tidy(s) == s[..4] + Tidy(s[4..])
  {
    hide IsSymbol, Index, Symbol;
    assert s == s[..4] + s[4..];
  }

  lemma TidyShort(s: string)
    requires 2 <= |s| <= 3 && AllSymbols(s)
    ensures DecodeQuads(Repad(Tidy(s))) == DecodeQuads(Repad(s))
  {
    hide IsSymbol, Index, Symbol, DecodeQuad;
    NotASymbol();
    var i := Index(s[|s| - 1]);
    SymbolIndex(i / 16 * 16, 'A');
    SymbolIndex(i / 4 * 4, 'A');
    StrayBits(Index(s[0]), Index(s[1]), i);
  }

  lemma FourMore(q: string, r: string, s: string)
    requires |q| == 4 && AllSymbols(q) && DecodeQuads(r) == DecodeQuads(s)
    ensures DecodeQuads(q + r) == DecodeQuads(q + s)
  {
    hide IsSymbol, Index, DecodeQuad;
    assert (q + r)[4..] == r;
    assert (q + s)[4..] == s;
  }

  lemma RepadOn(q: string, s: string)
    requires |q| == 4
    ensures Repad(q + s) == q + Repad(s)
  {
  }

  /** Stray bits do not change what is decoded. */
  lemma {:induction false} TidyDecodes(s: string)
    requires AllSymbols(s) && |s| % 4 != 1
    ensures DecodeQuads(Repad(Tidy(s))) == DecodeQuads(Repad(s))
    decreases |s|
  {
    hide IsSymbol, Tidy, Repad, DecodeQuads;
    if |s| >= 4 {
      TidyQuadOff(s);
      TidyDecodes(s[4..]);
      assert s == s[..4] + s[4..];
      RepadOn(s[..4], s[4..]);
      RepadOn(s[..4], Tidy(s[4..]));
      FourMore(s[..4], Repad(Tidy(s[4..])), Repad(s[4..]));
    } else if |s| > 0 {
      TidyShort(s);
    } else {
      assert Tidy(s) == s by {
        TidyNothing();
      }
    }
  }

  lemma TidyNothing()
    ensures Tidy("") == ""
  {
  }

  /** What decodes is a row of symbols with its padding. */
  lemma {:induction false} DecodableShape(t: string) returns (b: string)
    requires DecodeQuads(t).Some?
    ensures AllSymbols(b) && |b| % 4 != 1 && t == Repad(b)
  {
    hide IsSymbol, Index, DecodeQuad, Repad;
    if |t| >= 4 && IsSymbol(t[2]) && IsSymbol(t[3]) {
      b := DecodableShape(t[4..]);
      RepadOn(t[..4], b);
      b := t[..4] + b;
    } else {
      b := LastQuad(t);
    }
  }

  lemma LastQuad(t: string) returns (b: string)
    requires DecodeQuads(t).Some?
    requires |t| >= 4 ==> !IsSymbol(t[2]) || !IsSymbol(t[3])
    ensures AllSymbols(b) && |b| % 4 != 1 && t == Repad(b)
  {
    hide IsSymbol, Index, DecodeQuad;
    b := if t == "" then "" else if IsSymbol(t[2]) then t[..3] else t[..2];
  }

  /** Main theorem: a string decodes to x if and only if it spells x. */
  lemma DecodesExactly(s: string, x: seq<byte>)
    ensures DecodeSegment(s) == Some(x) <==> Spells(s, x)
  {
    hide IsSymbol, EncodeSegment, Repad, Tidy, SkipLineBreaks, DecodeQuads;
    var t := SkipLineBreaks(Repad(s));
    if DecodeSegment(s) == Some(x) {
      var b := DecodableShape(t);
      BodyDecodes(b, x);
      assert SpellsBody(t, b, x);
    }
    if b: string :| SpellsBody(t, b, x) {
      BodyDecodes(b, x);
    }
  }

  lemma BodyDecodes(b: string, x: seq<byte>)
    requires AllSymbols(b) && |b| % 4 != 1
    ensures DecodeQuads(Repad(b)) == Some(x) <==> Tidy(b) == EncodeSegment(x)
  {
    hide IsSymbol, EncodeSegment, Repad, Tidy, SkipLineBreaks, DecodeQuads;
    TidyIsCanonical(b);
    TidyDecodes(b);
    RepadHasNoLineBreaks(Tidy(b));
    EncodingsAreCanonical(Tidy(b));
    SegmentRoundTrip(x);
  }

  /** Padding may also be written out, so that an encoding that needs padding is not the only string
      that decodes to its bytes. */
  lemma ExplicitPadding(x: seq<byte>)
    ensures DecodeSegment(EncodeToString(x)) == Some(x)
    ensures EncodeToString(x) == EncodeSegment(x) <==> |x| % 3 == 0
  {
    hide IsSymbol, EncodeSegment, EncodeToString, DecodeQuads, SkipLineBreaks, Repad, BodyLength;
    SegmentShape(x);
    BodyLengthMod(|x|);
    Repadded(EncodeSegment(x));
    RepadHasNoLineBreaks(EncodeSegment(x));
    PaddedRoundTrip(x);
  }

  lemma BodyLengthMod(n: nat)
    ensures BodyLength(n) % 4 == 0 <==> n % 3 == 0
  {
  }

  lemma Repadded(s: string)
    ensures Repad(Repad(s)) == Repad(s)
    ensures Repad(s) == s <==> |s| % 4 == 0
  {
  }

  // The encoding, symbol by symbol.

  function ByteOrZero(x: seq<byte>, i: nat): byte {
    if i < |x| then x[i] else 0
  }

  /** The symbol of a group: a digit to the base 64 of the big-endian number that its three bytes are,
      the highest digit first. */
  function GroupSymbol(a: byte, b: byte, c: byte, j: nat): char
    requires j < 4
  {
    var v := a * 0x1_0000 + b * 0x100 + c;
    Symbol((if j == 0 then v / 0x4_0000 else if j == 1 then v / 0x1000 else if j == 2 then v / 0x40 else v) % 64)
  }

  lemma SmallModulo(q: nat)
    requires q < 64
    ensures q % 64 == q
  {
  }

  lemma TripleSymbols(a: byte, b: byte, c: byte, j: nat)
    requires j < 4
    ensures |EncodeTriple(a, b, c)| == 4 && EncodeTriple(a, b, c)[j] == GroupSymbol(a, b, c, j)
  {
    hide Symbol;
    TripleDigits(a, b, c);
    SmallModulo((a * 0x1_0000 + b * 0x100 + c) / 0x4_0000);
  }

  /** Each symbol of the encoding is that of its group of three bytes, missing bytes counting as zero. */
  lemma {:induction false} SymbolAt(x: seq<byte>, j: nat)
    requires j < |Body(x)|
    ensures var g := j / 4 * 3;
      Body(x)[j] == GroupSymbol(ByteOrZero(x, g), ByteOrZero(x, g + 1), ByteOrZero(x, g + 2), j % 4)
  {
    hide GroupSymbol, EncodeTriple;
    TripleSymbols(ByteOrZero(x, 0), ByteOrZero(x, 1), ByteOrZero(x, 2), j % 4);
    if j >= 4 {
      SymbolAt(x[3..], j - 4);
      assert Body(x)[j] == Body(x[3..])[j - 4];
      assert j % 4 == (j - 4) % 4 && j / 4 == (j - 4) / 4 + 1;
    }
  }

  /** The longest example of section 10 of RFC 4648: the letters "foobar". */
  lemma FoobarExample()
    ensures EncodeSegment([0x66, 0x6f, 0x6f, 0x62, 0x61, 0x72]) == "Zm9vYmFy"
  {
    Rfc4648Example();
    BarSymbols();
    var x: seq<byte> := [0x66, 0x6f, 0x6f, 0x62, 0x61, 0x72];
    SegmentShape(x);
    hide EncodeTriple, EncodeSegment;
    assert x[3..] == [0x62, 0x61, 0x72] && Body(x[3..]) == EncodeTriple(0x62, 0x61, 0x72) + "";
    assert Body(x) == EncodeTriple(0x66, 0x6f, 0x6f) + Body(x[3..]);
  }

  lemma BarSymbols()
    ensures EncodeTriple(0x62, 0x61, 0x72) == "YmFy"
  {
    assert Symbol(24) == 'Y' && Symbol(38) == 'm' && Symbol(5) == 'F' && Symbol(50) == 'y';
    hide Symbol;
    assert EncodeTriple(0x62, 0x61, 0x72) == [Symbol(24), Symbol(38), Symbol(5), Symbol(50)];
  }

  /** Skipping keeps every character but the two line breaks, in order. */
  lemma {:induction false} SkipKeepsTheRest(a: string, c: char, b: string)
    ensures SkipLineBreaks(a + [c] + b) ==
      SkipLineBreaks(a) + (if c == '\r' || c == '\n' then "" else [c]) + SkipLineBreaks(b)
    ensures SkipLineBreaks("") == ""
  {
    if a == "" {
      assert (a + [c] + b)[1..] == b;
    } else {
      assert (a + [c] + b)[1..] == a[1..] + [c] + b;
      SkipKeepsTheRest(a[1..], c, b);
    }
  }
}
