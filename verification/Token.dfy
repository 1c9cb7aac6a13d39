/** HS256 tokens: signing a string, and verifying a signature. The keyed hash is a parameter. */
module Token {
  import opened Bytes
  import opened Wrappers
  import opened Base64Url

  datatype Key = KeyBytes(bytes: seq<byte>) | OtherKey

  datatype TokenError = InvalidKeyType | CorruptInput | TokenInvalid

  /** The keyed hash HMAC-SHA256, of which nothing is assumed. */
  type Hmac = (seq<byte>, string) -> seq<byte>

  function SignToken(hmac: Hmac, signingString: string, key: Key): Result<string, TokenError> {
    match key
    case KeyBytes(bytes) => Ok(EncodeSegment(hmac(bytes, signingString)))
    case OtherKey => Err(InvalidKeyType)
  }

  function VerifyToken(hmac: Hmac, signingString: string, signature: string, key: Key): Result<(), TokenError> {
    match key
    case OtherKey => Err(InvalidKeyType)
    case KeyBytes(bytes) =>
      match DecodeSegment(signature)
      case None => Err(CorruptInput)
      case Some(sig) => if sig == hmac(bytes, signingString) then Ok(()) else Err(TokenInvalid)
  }

  /** A signature verifies for the string and the key it was made with, whatever the keyed hash is. */
  lemma SignVerify(hmac: Hmac, signingString: string, key: Key)
    ensures match SignToken(hmac, signingString, key)
      case Ok(signature) => VerifyToken(hmac, signingString, signature, key) == Ok(())
      case Err(e) => e == InvalidKeyType && key == OtherKey
  {
    if key.KeyBytes? {
      SegmentRoundTrip(hmac(key.bytes, signingString));
    }
  }

  /** Whatever verifies spells the keyed hash, and the other way round. */
  lemma VerifiesExactly(hmac: Hmac, signingString: string, signature: string, key: Key)
    ensures VerifyToken(hmac, signingString, signature, key) == Ok(()) <==>
      key.KeyBytes? && Spells(signature, hmac(key.bytes, signingString))
  {
    hide DecodeSegment;
    if key.KeyBytes? {
      DecodesExactly(signature, hmac(key.bytes, signingString));
    }
  }

  /** The signature that signing produces is the canonical one among those that verify. */
  lemma OnlySignatureVerifies(hmac: Hmac, signingString: string, signature: string, key: Key)
    ensures SignToken(hmac, signingString, key) == Ok(signature) <==>
      Canonical(signature) && VerifyToken(hmac, signingString, signature, key) == Ok(())
  {
    EncodingsAreCanonical(signature);
    SignVerify(hmac, signingString, key);
  }

  /** The signature with its padding written out verifies too, and differs from the one that signing
      produces unless the keyed hash needs no padding; one of 32 bytes does. */
  lemma PaddedSignatureVerifies(hmac: Hmac, signingString: string, bytes: seq<byte>)
    ensures var padded := EncodeToString(hmac(bytes, signingString));
      && VerifyToken(hmac, signingString, padded, KeyBytes(bytes)) == Ok(())
      && (SignToken(hmac, signingString, KeyBytes(bytes)) == Ok(padded) <==> |hmac(bytes, signingString)| % 3 == 0)
  {
    ExplicitPadding(hmac(bytes, signingString));
  }

  /** Why verification fails: a key of another kind, a signature that spells nothing, or a wrong one. */
  lemma VerifyErrors(hmac: Hmac, signingString: string, signature: string, key: Key, e: TokenError)
    ensures VerifyToken(hmac, signingString, signature, key) == Err(e) <==>
      if key == OtherKey then e == InvalidKeyType
      else if forall x :: !Spells(signature, x) then e == CorruptInput
      else !Spells(signature, hmac(key.bytes, signingString)) && e == TokenInvalid
  {
    hide DecodeSegment, Spells;
    forall x: seq<byte>
      ensures DecodeSegment(signature) == Some(x) <==> Spells(signature, x)
    {
      DecodesExactly(signature, x);
    }
  }
}
