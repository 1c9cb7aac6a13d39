/** The encrypted key file: how a secret is sealed under a password and opened again. The password
    hash, the block cipher's key stream and the hash function are parameters. */
module Envelope {
  import opened Bytes
  import opened Wrappers
  import opened Hex
  import opened Doubles

  const VERSION: int := 3
  const SCRYPT_R: int := 8
  const SCRYPT_DK_LEN: int := 32
  const CIPHER_NAME: string := "aes-128-ctr"
  const KDF_NAME: string := "scrypt"
  const IV_LENGTH: nat := 16

  /** The foreign primitives, of which only their types are known. `scryptCheck` says which cost parameters
      scrypt accepts, and how it fails for the others; two functions give one byte of output at a time. */
  datatype Primitives = Primitives(
    scryptCheck: (int, int, int) -> Result<(), KeyError>,
    scryptByte: (string, seq<byte>, int, int, int, nat) -> byte,
    cipherByte: (seq<byte>, seq<byte>, nat) -> byte,
    blake3: seq<byte> -> seq<byte>)

  /** What a JSON object holds: integers are written as numbers and read back as floating point. */
  datatype Json = Int(i: int) | Float(r: real) | Text(s: string)

  datatype CryptoJson = CryptoJson(
    cipher: string, cipherText: string, iv: string, kdf: string, kdfParams: map<string, Json>, mac: string)

  datatype KeyFile = KeyFile(address: string, crypto: CryptoJson, version: int)

  /** A panic stands for a failed type assertion, a slice out of range, a division by zero or a bad IV
      length. */
  datatype KeyError = BadParameters | BadVersion | BadCipher | BadKdf | BadHex | WrongPassword | Panic

  /** The derived key with everything its slice can reach: its capacity is a whole number of hash
      blocks, so that any positive length gives access to 32 bytes. */
  function Scrypt(prim: Primitives, password: string, salt: seq<byte>, n: int, r: int, p: int, dkLen: int)
    : (key: Result<seq<byte>, KeyError>)
    ensures key.Ok? ==> |key.value| >= 32
  {
    if prim.scryptCheck(n, r, p).Err? then Err(prim.scryptCheck(n, r, p).error)
    else if dkLen <= 0 then Err(Panic)
    else Ok(seq<byte>((dkLen + 31) / 32 * 32, i requires i >= 0 => prim.scryptByte(password, salt, n, r, p, i)))
  }

  function XorBits(a: bv8, b: bv8): bv8 {
    a ^ b
  }

  function Xor(a: byte, b: byte): byte {
    XorBits(a as bv8, b as bv8) as byte
  }

  function CtrStream(prim: Primitives, key: seq<byte>, iv: seq<byte>, text: seq<byte>): (out: seq<byte>)
    ensures |out| == |text|
  {
    seq<byte>(|text|, i requires 0 <= i < |text| => Xor(text[i], prim.cipherByte(key, iv, i)))
  }

  /** Counter mode: the output buffer is filled with the input masked by the key stream. */
  method AesCtrXor(prim: Primitives, key: seq<byte>, inText: seq<byte>, iv: seq<byte>)
    returns (r: Result<seq<byte>, KeyError>)
    ensures r == if |iv| == IV_LENGTH then Ok(CtrStream(prim, key, iv, inText)) else Err(Panic)
  {
    if |iv| != IV_LENGTH {
      return Err(Panic);
    }
    var outText := new byte[|inText|];
    var i := 0;
    while i < |inText|
      invariant 0 <= i <= |inText|
      invariant forall k :: 0 <= k < i ==> outText[k] == Xor(inText[k], prim.cipherByte(key, iv, k))
    {
      outText[i] := Xor(inText[i], prim.cipherByte(key, iv, i));
      i := i + 1;
    }
    assert outText[..] == CtrStream(prim, key, iv, inText);
    return Ok(outText[..]);
  }

  function Low(a: bv8): bv8 {
    a & 1
  }

  function Higher(a: bv8): bv8 {
    a >> 1
  }

  lemma LowValue(a: bv8)
    ensures Low(a) as int == a as int % 2
  {
  }

  lemma HigherValue(a: bv8)
    ensures Higher(a) as int == a as int / 2
  {
  }

  lemma XorBitsApart(a: bv8, b: bv8)
    ensures Low(XorBits(a, b)) == (if Low(a) == Low(b) then 0 else 1)
    ensures Higher(XorBits(a, b)) == XorBits(Higher(a), Higher(b))
  {
  }

  lemma HigherOfByte(a: byte)
    ensures Higher(a as bv8) == (a / 2) as bv8 && Low(a as bv8) as int == a % 2
  {
    hide Low, Higher;
    SmallByte(a);
    LowValue(a as bv8);
    HigherValue(a as bv8);
    ByteOfBits(Higher(a as bv8));
  }

  /** The mask, digit by digit: the last binary digits are compared, and so are the digits before them. */
  lemma XorDigits(a: byte, b: byte)
    ensures Xor(a, b) % 2 == if a % 2 == b % 2 then 0 else 1
    ensures Xor(a, b) / 2 == Xor(a / 2, b / 2)
  {
    hide XorBits, Low, Higher;
    HigherOfByte(a);
    HigherOfByte(b);
    XorBitsApart(a as bv8, b as bv8);
    LowValue(XorBits(a as bv8, b as bv8));
    HigherValue(XorBits(a as bv8, b as bv8));
    EqualBits(Low(a as bv8), Low(b as bv8));
  }

  lemma EqualBits(a: bv8, b: bv8)
    ensures a == b <==> a as int == b as int
  {
  }

  lemma XorBitsTwice(a: bv8, b: bv8)
    ensures XorBits(XorBits(a, b), b) == a
  {
  }

  lemma XorTwice(a: byte, b: byte)
    ensures Xor(Xor(a, b), b) == a
  {
    hide XorBits;
    XorBitsTwice(a as bv8, b as bv8);
    SmallByte(a);
    ByteOfBits(XorBits(a as bv8, b as bv8));
  }

  /** Masking twice with the same stream restores the text. */
  lemma CtrTwice(prim: Primitives, key: seq<byte>, iv: seq<byte>, text: seq<byte>)
    ensures CtrStream(prim, key, iv, CtrStream(prim, key, iv, text)) == text
  {
    forall i | 0 <= i < |text|
      ensures CtrStream(prim, key, iv, CtrStream(prim, key, iv, text))[i] == text[i]
    {
      XorTwice(text[i], prim.cipherByte(key, iv, i));
    }
  }

  // Sealing.

  function KdfParams(n: int, p: int, salt: seq<byte>): map<string, Json> {
    map["n" := Int(n), "r" := Int(SCRYPT_R), "p" := Int(p), "dklen" := Int(SCRYPT_DK_LEN), "salt" := Text(Encode(salt))]
  }

  function Mac(prim: Primitives, derivedKey: seq<byte>, cipherText: seq<byte>): seq<byte>
    requires |derivedKey| >= 32
  {
    prim.blake3(derivedKey[16..32] + cipherText)
  }

  function Sealed(prim: Primitives, address: string, secret: seq<byte>, password: string, n: int, p: int,
                  salt: seq<byte>, iv: seq<byte>): Result<KeyFile, KeyError>
  {
    match Scrypt(prim, password, salt, n, SCRYPT_R, p, SCRYPT_DK_LEN)
    case Err(e) => Err(e)
    case Ok(derivedKey) =>
      if |iv| != IV_LENGTH then Err(Panic)
      else
        var cipherText := CtrStream(prim, derivedKey[..16], iv, secret);
        Ok(KeyFile(address,
          CryptoJson(CIPHER_NAME, Encode(cipherText), Encode(iv), KDF_NAME, KdfParams(n, p, salt),
                     Encode(Mac(prim, derivedKey, cipherText))),
          VERSION))
  }

  /** A hash object: what is written accumulates until the sum is taken. */
  class Hasher {
    var written: seq<byte>
    const hash: seq<byte> -> seq<byte>

    constructor (hash: seq<byte> -> seq<byte>)
      ensures written == [] && this.hash == hash
    {
      written := [];
      this.hash := hash;
    }

    method Write(data: seq<byte>)
      modifies this
      ensures written == old(written) + data
    {
      written := written + data;
    }

    method Sum() returns (digest: seq<byte>)
      ensures digest == hash(written)
    {
      digest := hash(written);
    }
  }

  method ComputeMac(prim: Primitives, derivedKey: seq<byte>, cipherText: seq<byte>) returns (mac: seq<byte>)
    requires |derivedKey| >= 32
    ensures mac == Mac(prim, derivedKey, cipherText)
  {
    var d := new Hasher(prim.blake3);
    d.Write(derivedKey[16..32]);
    d.Write(cipherText);
    mac := d.Sum();
    assert [] + derivedKey[16..32] == derivedKey[16..32];
  }

  method EncryptKey(prim: Primitives, address: string, secret: seq<byte>, password: string, n: int, p: int,
                    salt: seq<byte>, iv: seq<byte>) returns (r: Result<KeyFile, KeyError>)
    ensures r == Sealed(prim, address, secret, password, n, p, salt, iv)
  {
    var derivedKey := Scrypt(prim, password, salt, n, SCRYPT_R, p, SCRYPT_DK_LEN);
    if derivedKey.Err? {
      return Err(derivedKey.error);
    }
    var encryptKey := derivedKey.value[..16];
    var cipherText := AesCtrXor(prim, encryptKey, secret, iv);
    if cipherText.Err? {
      return Err(cipherText.error);
    }
    var mac := ComputeMac(prim, derivedKey.value, cipherText.value);
    var params: map<string, Json> := map[];
    params := params["n" := Int(n)];
    params := params["r" := Int(SCRYPT_R)];
    params := params["p" := Int(p)];
    params := params["dklen" := Int(SCRYPT_DK_LEN)];
    params := params["salt" := Text(Encode(salt))];
    assert params == KdfParams(n, p, salt);
    var crypto := CryptoJson(CIPHER_NAME, Encode(cipherText.value), Encode(iv), KDF_NAME, params, Encode(mac));
    return Ok(KeyFile(address, crypto, VERSION));
  }

  // Opening.

  /** The conversion of a floating-point number to an integer: toward zero. */
  function Truncate(x: real): int {
    if x >= 0.0 then x.Floor else -((-x).Floor)
  }

  function Lookup(params: map<string, Json>, name: string): Option<Json> {
    if name in params then Some(params[name]) else None
  }

  function EnsureInt(x: Option<Json>): Result<int, KeyError> {
    match x
    case Some(Int(i)) => Ok(i)
    case Some(Float(f)) => Ok(Truncate(f))
    case _ => Err(Panic)
  }

  function GetKdfKey(prim: Primitives, crypto: CryptoJson, password: string): (key: Result<seq<byte>, KeyError>)
    ensures key.Ok? ==> |key.value| >= 32
  {
    match Lookup(crypto.kdfParams, "salt")
    case Some(Text(s)) => (
      match (Decode(s), EnsureInt(Lookup(crypto.kdfParams, "dklen")))
      case (None, _) => Err(BadHex)
      case (_, Err(e)) => Err(e)
      case (Some(salt), Ok(dkLen)) =>
        if crypto.kdf != KDF_NAME then Err(BadKdf)
        else
          match (EnsureInt(Lookup(crypto.kdfParams, "n")), EnsureInt(Lookup(crypto.kdfParams, "r")),
                 EnsureInt(Lookup(crypto.kdfParams, "p")))
          case (Ok(n), Ok(r), Ok(p)) => Scrypt(prim, password, salt, n, r, p, dkLen)
          case _ => Err(Panic))
    case _ => Err(Panic)
  }

  function Opened(prim: Primitives, file: KeyFile, password: string): Result<seq<byte>, KeyError> {
    if file.version != VERSION then Err(BadVersion)
    else if file.crypto.cipher != CIPHER_NAME then Err(BadCipher)
    else
      match (Decode(file.crypto.mac), Decode(file.crypto.iv), Decode(file.crypto.cipherText))
      case (Some(mac), Some(iv), Some(cipherText)) => (
        match GetKdfKey(prim, file.crypto, password)
        case Err(e) => Err(e)
        case Ok(derivedKey) =>
          if Mac(prim, derivedKey, cipherText) != mac then Err(WrongPassword)
          else if |iv| != IV_LENGTH then Err(Panic)
          else Ok(CtrStream(prim, derivedKey[..16], iv, cipherText)))
      case _ => Err(BadHex)
  }

  method DecryptKeyV3(prim: Primitives, file: KeyFile, password: string) returns (r: Result<seq<byte>, KeyError>)
    ensures r == Opened(prim, file, password)
  {
    if file.version != VERSION {
      return Err(BadVersion);
    }
    if file.crypto.cipher != CIPHER_NAME {
      return Err(BadCipher);
    }
    var mac := Decode(file.crypto.mac);
    if mac.None? {
      return Err(BadHex);
    }
    var iv := Decode(file.crypto.iv);
    if iv.None? {
      return Err(BadHex);
    }
    var cipherText := Decode(file.crypto.cipherText);
    if cipherText.None? {
      return Err(BadHex);
    }
    var derivedKey := GetKdfKey(prim, file.crypto, password);
    if derivedKey.Err? {
      return Err(derivedKey.error);
    }
    var calculatedMac := ComputeMac(prim, derivedKey.value, cipherText.value);
    if calculatedMac != mac.value {
      return Err(WrongPassword);
    }
    r := AesCtrXor(prim, derivedKey.value[..16], cipherText.value, iv.value);
  }

  // The file on disk: integers come back as floating-point numbers, rounded if they are too long.

  function ReadBack(x: Json): Json {
    match x
    case Int(i) => Float(RoundDouble(i) as real)
    case _ => x
  }

  function Reloaded(file: KeyFile): KeyFile {
    var params := file.crypto.kdfParams;
    file.(crypto := file.crypto.(kdfParams := map name | name in params :: ReadBack(params[name])))
  }

  function RoundInt(x: Json): Json {
    match x
    case Int(i) => Int(RoundDouble(i))
    case _ => x
  }

  /** The file with its integers rounded, but still integers. */
  function Rounded(file: KeyFile): KeyFile {
    var params := file.crypto.kdfParams;
    file.(crypto := file.crypto.(kdfParams := map name | name in params :: RoundInt(params[name])))
  }

  /** All integers of the file are floating-point numbers. */
  ghost predicate Exact(file: KeyFile) {
    var params := file.crypto.kdfParams;
    forall name :: name in params && params[name].Int? ==> IsDouble(params[name].i)
  }

  lemma TruncateWhole(i: int)
    ensures Truncate(i as real) == i
  {
  }

  lemma ReloadedParameters(prim: Primitives, file: KeyFile, password: string)
    ensures GetKdfKey(prim, Reloaded(file).crypto, password) == GetKdfKey(prim, Rounded(file).crypto, password)
  {
    hide Scrypt, Decode, Truncate, RoundDouble;
    forall name: string
      ensures var x, y := Lookup(Rounded(file).crypto.kdfParams, name), Lookup(Reloaded(file).crypto.kdfParams, name);
        EnsureInt(x) == EnsureInt(y) && (x == y || (x.Some? && x.value.Int? && y.Some? && y.value.Float?))
    {
      if name in file.crypto.kdfParams && file.crypto.kdfParams[name].Int? {
        TruncateWhole(RoundDouble(file.crypto.kdfParams[name].i));
      }
    }
  }

  /** Rounding leaves exactly the files alone whose integers are floating-point numbers. */
  lemma RoundedExactly(file: KeyFile)
    ensures Rounded(file) == file <==> Exact(file)
  {
    hide RoundDouble, IsDouble;
    var params := file.crypto.kdfParams;
    forall name | name in params && params[name].Int?
      ensures RoundInt(params[name]) == params[name] <==> IsDouble(params[name].i)
    {
      SurvivesExactly(params[name].i);
    }
    if Exact(file) {
      assert Rounded(file).crypto.kdfParams == params;
    } else {
      assert exists name :: name in params && Rounded(file).crypto.kdfParams[name] != params[name];
    }
  }

  /** Going through the disk does to opening what rounding the integers does, for any file at all, and
      so nothing if they are floating-point numbers. */
  lemma OpenReloaded(prim: Primitives, file: KeyFile, password: string)
    ensures Opened(prim, Reloaded(file), password) == Opened(prim, Rounded(file), password)
    ensures Exact(file) ==> Opened(prim, Reloaded(file), password) == Opened(prim, file, password)
  {
    ReloadedParameters(prim, file, password);
    RoundedExactly(file);
    hide GetKdfKey, Decode, Exact, ReadBack, RoundInt;
  }

  /** The cost parameters that section 2 of RFC 7914 allows, a power of two and a number far below
      2^53, are floating-point numbers. */
  lemma ScryptCostsAreExact(e: nat, p: nat)
    requires p * 128 * SCRYPT_R <= (TWO32 - 1) * 32
    ensures IsDouble(Pow2(e)) && IsDouble(p)
  {
    PowerIsDouble(e);
    SmallIsDouble(p);
  }

  lemma SealedOpens(prim: Primitives, address: string, secret: seq<byte>, password: string, n: int, p: int,
                    salt: seq<byte>, iv: seq<byte>)
    ensures var r := Sealed(prim, address, secret, password, n, p, salt, iv);
      if prim.scryptCheck(n, SCRYPT_R, p).Ok? && |iv| == IV_LENGTH
      then r.Ok? && r.value.address == address && Opened(prim, r.value, password) == Ok(secret)
      else r.Err?
  {
    var r := Sealed(prim, address, secret, password, n, p, salt, iv);
    if r.Ok? {
      hide Encode, Decode, CtrStream, Scrypt;
      var derivedKey := Scrypt(prim, password, salt, n, SCRYPT_R, p, SCRYPT_DK_LEN).value;
      var cipherText := CtrStream(prim, derivedKey[..16], iv, secret);
      HexRoundTrip(salt);
      HexRoundTrip(iv);
      HexRoundTrip(cipherText);
      HexRoundTrip(Mac(prim, derivedKey, cipherText));
      CtrTwice(prim, derivedKey[..16], iv, secret);
    }
  }

  lemma SealedIsExact(prim: Primitives, address: string, secret: seq<byte>, password: string, n: int, p: int,
                      salt: seq<byte>, iv: seq<byte>)
    requires IsDouble(n) && IsDouble(p)
    ensures var r := Sealed(prim, address, secret, password, n, p, salt, iv); r.Ok? ==> Exact(r.value)
  {
    SmallIsDouble(SCRYPT_R);
    SmallIsDouble(SCRYPT_DK_LEN);
    hide IsDouble, Scrypt, CtrStream, Encode;
  }

  /** Main theorem: a sealed file, written out and read back, opens under the password that sealed it to
      the secret, for every salt and initialisation vector and whatever the primitives compute. */
  lemma SealOpen(prim: Primitives, address: string, secret: seq<byte>, password: string, n: int, p: int,
                 salt: seq<byte>, iv: seq<byte>)
    ensures var r := Sealed(prim, address, secret, password, n, p, salt, iv);
      if prim.scryptCheck(n, SCRYPT_R, p).Ok? && |iv| == IV_LENGTH
      then
        && r.Ok? && r.value.address == address
        && Opened(prim, r.value, password) == Ok(secret)
        && (IsDouble(n) && IsDouble(p) ==> Opened(prim, Reloaded(r.value), password) == Ok(secret))
      else r.Err?
  {
    hide IsDouble, Sealed, Opened, Exact, Reloaded;
    SealedOpens(prim, address, secret, password, n, p, salt, iv);
    var r := Sealed(prim, address, secret, password, n, p, salt, iv);
    if r.Ok? {
      OpenReloaded(prim, r.value, password);
    }
    if IsDouble(n) && IsDouble(p) {
      SealedIsExact(prim, address, secret, password, n, p, salt, iv);
    }
  }

  // What opening and sealing mean, for all files, with every check and every constant written out.

  /** A parameter read as an integer: as it is, or truncated toward zero. */
  predicate Reads(params: map<string, Json>, name: string, v: int) {
    name in params &&
    match params[name]
    case Int(i) => v == i
    case Float(f) => if f >= 0.0 then v as real <= f < v as real + 1.0 else v as real - 1.0 < f <= v as real
    case Text(_) => false
  }

  lemma TruncateExactly(f: real, v: int)
    ensures Truncate(f) == v <==>
      if f >= 0.0 then v as real <= f < v as real + 1.0 else v as real - 1.0 < f <= v as real
  {
    if f < 0.0 {
      assert -(v as real) == (-v) as real;
    }
  }

  lemma EnsureIntExactly(params: map<string, Json>, name: string, v: int)
    ensures EnsureInt(Lookup(params, name)) == Ok(v) <==> Reads(params, name, v)
    ensures EnsureInt(Lookup(params, name)).Err? ==> EnsureInt(Lookup(params, name)) == Err(Panic)
  {
    hide Truncate;
    if name in params && params[name].Float? {
      TruncateExactly(params[name].r, v);
    }
  }

  /** The parameters from which a key is derived, as the file gives them. */
  predicate KdfInputs(crypto: CryptoJson, salt: seq<byte>, n: int, r: int, p: int, dkLen: int) {
    && crypto.kdf == "scrypt"
    && "salt" in crypto.kdfParams && crypto.kdfParams["salt"].Text?
    && Decode(crypto.kdfParams["salt"].s) == Some(salt)
    && Reads(crypto.kdfParams, "n", n) && Reads(crypto.kdfParams, "r", r) && Reads(crypto.kdfParams, "p", p)
    && Reads(crypto.kdfParams, "dklen", dkLen)
  }

  /** The key scrypt derives, up to the end of its last block. */
  predicate Derives(prim: Primitives, password: string, salt: seq<byte>, n: int, r: int, p: int, dkLen: int,
                    key: seq<byte>)
  {
    && |key| == (dkLen + 31) / 32 * 32
    && forall i :: 0 <= i < |key| ==> key[i] == prim.scryptByte(password, salt, n, r, p, i)
  }

  /** What a key file with readable parameters derives, and how it fails otherwise. */
  lemma KdfKeyOf(prim: Primitives, crypto: CryptoJson, password: string, salt: seq<byte>, n: int, r: int, p: int,
                 dkLen: int)
    requires KdfInputs(crypto, salt, n, r, p, dkLen)
    ensures match GetKdfKey(prim, crypto, password)
      case Ok(key) => prim.scryptCheck(n, r, p).Ok? && dkLen > 0 && Derives(prim, password, salt, n, r, p, dkLen, key)
      case Err(e) =>
        if prim.scryptCheck(n, r, p).Err? then prim.scryptCheck(n, r, p).error == e else dkLen <= 0 && e == Panic
  {
    hide Decode, Reads, EnsureInt, Lookup;
    EnsureIntExactly(crypto.kdfParams, "n", n);
    EnsureIntExactly(crypto.kdfParams, "r", r);
    EnsureIntExactly(crypto.kdfParams, "p", p);
    EnsureIntExactly(crypto.kdfParams, "dklen", dkLen);
    SaltLookup(crypto);
  }

  lemma SaltLookup(crypto: CryptoJson)
    ensures Lookup(crypto.kdfParams, "salt") ==
      if "salt" in crypto.kdfParams then Some(crypto.kdfParams["salt"]) else None
  {
  }

  predicate IsNumber(params: map<string, Json>, name: string) {
    name in params && !params[name].Text?
  }

  lemma ReadNumber(params: map<string, Json>, name: string)
    ensures var x := EnsureInt(Lookup(params, name));
      if IsNumber(params, name) then x.Ok? && Reads(params, name, x.value) else x == Err(Panic)
  {
    hide Truncate;
    if IsNumber(params, name) {
      EnsureIntExactly(params, name, EnsureInt(Lookup(params, name)).value);
    }
  }

  lemma KdfInputsOf(crypto: CryptoJson) returns (salt: seq<byte>, n: int, r: int, p: int, dkLen: int)
    requires var params := crypto.kdfParams;
      && crypto.kdf == "scrypt"
      && "salt" in params && params["salt"].Text? && Decode(params["salt"].s).Some?
      && IsNumber(params, "n") && IsNumber(params, "r") && IsNumber(params, "p") && IsNumber(params, "dklen")
    ensures KdfInputs(crypto, salt, n, r, p, dkLen)
  {
    hide EnsureInt, Lookup, Reads, Decode;
    var params := crypto.kdfParams;
    ReadNumber(params, "n");
    ReadNumber(params, "r");
    ReadNumber(params, "p");
    ReadNumber(params, "dklen");
    salt := Decode(params["salt"].s).value;
    n := EnsureInt(Lookup(params, "n")).value;
    r := EnsureInt(Lookup(params, "r")).value;
    p := EnsureInt(Lookup(params, "p")).value;
    dkLen := EnsureInt(Lookup(params, "dklen")).value;
  }

  /** What deriving a key fails with before it comes to scrypt, in the order of the checks; otherwise the
      file gives all parameters, and KdfKeyOf says what is derived from them. */
  lemma KdfErrors(prim: Primitives, crypto: CryptoJson, password: string)
    ensures var params := crypto.kdfParams;
      var key := GetKdfKey(prim, crypto, password);
      if "salt" !in params || !params["salt"].Text? then key == Err(Panic)
      else if Decode(params["salt"].s).None? then key == Err(BadHex)
      else if !IsNumber(params, "dklen") then key == Err(Panic)
      else if crypto.kdf != "scrypt" then key == Err(BadKdf)
      else if !IsNumber(params, "n") || !IsNumber(params, "r") || !IsNumber(params, "p") then key == Err(Panic)
      else exists salt, n, r, p, dkLen :: KdfInputs(crypto, salt, n, r, p, dkLen)
  {
    var params := crypto.kdfParams;
    SaltLookup(crypto);
    ReadNumber(params, "n");
    ReadNumber(params, "r");
    ReadNumber(params, "p");
    ReadNumber(params, "dklen");
    hide Decode, EnsureInt, Lookup, Reads, Scrypt, KdfInputs;
    if && "salt" in params && params["salt"].Text? && Decode(params["salt"].s).Some? && crypto.kdf == "scrypt"
       && IsNumber(params, "n") && IsNumber(params, "r") && IsNumber(params, "p") && IsNumber(params, "dklen") {
      var salt, n, r, p, dkLen := KdfInputsOf(crypto);
    }
  }

  predicate Masks(prim: Primitives, key: seq<byte>, iv: seq<byte>, text: seq<byte>, out: seq<byte>)
    requires |key| >= 16
  {
    |out| == |text| && forall i :: 0 <= i < |text| ==> out[i] == Xor(text[i], prim.cipherByte(key[..16], iv, i))
  }

  lemma MasksExactly(prim: Primitives, key: seq<byte>, iv: seq<byte>, text: seq<byte>, out: seq<byte>)
    requires |key| >= 16
    ensures Masks(prim, key, iv, text, out) <==> out == CtrStream(prim, key[..16], iv, text)
  {
    hide Xor;
  }

  /** When a file opens, and to what, for every file and password. */
  lemma OpenedExactly(prim: Primitives, file: KeyFile, password: string, secret: seq<byte>)
    ensures Opened(prim, file, password) == Ok(secret) <==>
      var (mac, iv, text) := (Decode(file.crypto.mac), Decode(file.crypto.iv), Decode(file.crypto.cipherText));
      var key := GetKdfKey(prim, file.crypto, password);
      && file.version == 3 && file.crypto.cipher == "aes-128-ctr"
      && mac.Some? && iv.Some? && text.Some? && key.Ok?
      && prim.blake3(key.value[16..32] + text.value) == mac.value
      && |iv.value| == 16
      && Masks(prim, key.value, iv.value, text.value, secret)
  {
    hide Decode, GetKdfKey, CtrStream, Masks;
    var (iv, text) := (Decode(file.crypto.iv), Decode(file.crypto.cipherText));
    var key := GetKdfKey(prim, file.crypto, password);
    if iv.Some? && text.Some? && key.Ok? {
      MasksExactly(prim, key.value, iv.value, text.value, secret);
    }
  }

  /** Why a file does not open: the first check that fails, in this order. */
  lemma OpenedErrors(prim: Primitives, file: KeyFile, password: string, e: KeyError)
    ensures Opened(prim, file, password) == Err(e) <==>
      var (mac, iv, text) := (Decode(file.crypto.mac), Decode(file.crypto.iv), Decode(file.crypto.cipherText));
      var key := GetKdfKey(prim, file.crypto, password);
      if file.version != 3 then e == BadVersion
      else if file.crypto.cipher != "aes-128-ctr" then e == BadCipher
      else if mac.None? || iv.None? || text.None? then e == BadHex
      else if key.Err? then e == key.error
      else if prim.blake3(key.value[16..32] + text.value) != mac.value then e == WrongPassword
      else |iv.value| != 16 && e == Panic
  {
    hide Decode, GetKdfKey, CtrStream;
  }

  /** What a sealed file holds, and when sealing fails. */
  lemma SealedExactly(prim: Primitives, address: string, secret: seq<byte>, password: string, n: int, p: int,
                      salt: seq<byte>, iv: seq<byte>)
    ensures match Sealed(prim, address, secret, password, n, p, salt, iv)
      case Err(e) =>
        if prim.scryptCheck(n, 8, p).Err? then e == prim.scryptCheck(n, 8, p).error else |iv| != 16 && e == Panic
      case Ok(file) =>
        && prim.scryptCheck(n, 8, p).Ok? && |iv| == 16
        && file.address == address && file.version == 3
        && file.crypto.cipher == "aes-128-ctr" && file.crypto.kdf == "scrypt" && file.crypto.iv == Encode(iv)
        && file.crypto.kdfParams ==
           map["n" := Int(n), "r" := Int(8), "p" := Int(p), "dklen" := Int(32), "salt" := Text(Encode(salt))]
        && exists key: seq<byte>, text: seq<byte> ::
             && |key| == 32 && Derives(prim, password, salt, n, 8, p, 32, key)
             && Masks(prim, key, iv, secret, text)
             && file.crypto.cipherText == Encode(text)
             && file.crypto.mac == Encode(prim.blake3(key[16..32] + text))
  {
    hide Encode, Xor;
    var r := Sealed(prim, address, secret, password, n, p, salt, iv);
    if r.Ok? {
      var key := Scrypt(prim, password, salt, n, 8, p, 32).value;
      assert |key| == 32 && Derives(prim, password, salt, n, 8, p, 32, key);
      hide Scrypt, Derives;
      var text := CtrStream(prim, key[..16], iv, secret);
      assert Masks(prim, key, iv, secret, text);
    }
  }
}
