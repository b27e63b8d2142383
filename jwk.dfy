/**
 * The public JWK the JWKS endpoint emits for one key (server.py:56-63), with
 * `n` and `e` in the Base64urlUInt form of section 2 of RFC 7518 as used for
 * RSA public keys by section 6.3.1 of RFC 7518.
 */
module Jwk {
  import opened Wrappers
  import opened BigEndian
  import opened Base64Url
  import opened Keys

  /**
   * `base64.urlsafe_b64encode(x.to_bytes((x.bit_length() + 7) // 8, 'big'))
   *  .decode('utf-8').rstrip("=")`.
   */
  function Base64UrlUInt(x: nat): string
  {
    Base64UrlEncode(ToBytes(x, ByteLength(x)).value)
  }

  /** Reads a Base64urlUInt back; rejects a value written with a leading zero octet. */
  function DecodeBase64UrlUInt(s: string): Option<nat>
  {
    match Base64UrlDecode(s)
    case None => None
    case Some(bs) => if Minimal(bs) then Some(FromBytes(bs)) else None
  }

  /** Decoding the emitted text gives back the integer. */
  lemma UIntRoundTrip(x: nat)
    ensures DecodeBase64UrlUInt(Base64UrlUInt(x)) == Some(x)
  {
    DecodeEncode(MinimalOctets(x));
  }

  /** The decoder accepts only the text the encoder emits: the encoding is canonical. */
  lemma UIntCanonical(s: string, x: nat)
    requires DecodeBase64UrlUInt(s) == Some(x)
    ensures Base64UrlUInt(x) == s
  {
    var bs := Base64UrlDecode(s).value;
    MinimalUnique(bs, x);
    EncodeDecode(s, bs);
  }

  /**
   * The emitted text has no `=`, only base64url alphabet characters, and the
   * unpadded length for the minimal octet count of `x`.
   */
  lemma UIntShape(x: nat)
    ensures forall i :: 0 <= i < |Base64UrlUInt(x)| ==> Base64UrlUInt(x)[i] != '='
    ensures forall i :: 0 <= i < |Base64UrlUInt(x)| ==> SymbolValue(Base64UrlUInt(x)[i]).Some?
    ensures |Base64UrlUInt(x)| == (4 * ByteLength(x) + 2) / 3
  {
    EncodeShape(MinimalOctets(x));
  }

  /** The fixed public exponent 65537 = 0x010001 is published as "AQAB". */
  lemma ExponentText()
    ensures Base64UrlUInt(PublicExponent) == "AQAB"
  {
    var bs: seq<byte> := [1, 0, 1];
    assert FromBytes(bs[..2]) == 256 by {
      assert bs[..2][..1] == [1];
      assert FromBytes([1]) == 1 by { assert [1][..0] == []; }
    }
    MinimalUnique(bs, PublicExponent);
    StripQuanta(bs);
    assert bs[3..] == [];
    StripQuanta([]);
    assert Quantum(1, 0, 1) == "AQAB";
  }

  /** One entry of the JWKS `keys` list. */
  datatype Jwk = Jwk(kid: Kid, kty: string, alg: string, use: string, n: string, e: string)

  /** The entry for `kid` (server.py:56-63), built from its public key alone. */
  function PublicJwk(kid: Kid, pub: RsaPublicKey): Jwk
  {
    Jwk(kid, "RSA", "RS256", "sig", Base64UrlUInt(pub.n), Base64UrlUInt(pub.e))
  }

  /**
   * An entry carries the fixed members of section 4 of RFC 7517, and its
   * `n` and `e` read back as exactly the key's numbers; a generated key's
   * exponent reads "AQAB".
   */
  lemma PublicJwkReadsBack(kid: Kid, pub: RsaPublicKey)
    ensures PublicJwk(kid, pub).kid == kid
    ensures PublicJwk(kid, pub).kty == "RSA" && PublicJwk(kid, pub).alg == "RS256" && PublicJwk(kid, pub).use == "sig"
    ensures DecodeBase64UrlUInt(PublicJwk(kid, pub).n) == Some(pub.n)
    ensures DecodeBase64UrlUInt(PublicJwk(kid, pub).e) == Some(pub.e)
    ensures pub.e == PublicExponent ==> PublicJwk(kid, pub).e == "AQAB"
  {
    UIntRoundTrip(pub.n);
    UIntRoundTrip(pub.e);
    ExponentText();
  }
}
