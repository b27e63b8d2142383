/**
 * The JWT library calls of server.py as an ideal signature scheme: a token
 * records which key signed which header and claims, and verifies under a
 * public key exactly when that key's private half signed that content.
 */
module Jwt {
  import opened Wrappers
  import opened Keys

  /** The one algorithm the server signs with and accepts (server.py:94, 130). */
  const Algorithm: string := "RS256"

  datatype Header = Header(alg: string, kid: Option<string>)

  /** Claims `sub`, `iat` and `exp` (server.py:89-91), times in minutes. */
  datatype Claims = Claims(sub: string, iat: int, exp: int)

  datatype Signature = Signature(signer: RsaPublicKey, header: Header, claims: Claims)

  datatype Token = Token(header: Header, claims: Claims, signature: Signature)

  /**
   * What the library can read out of a bearer string: nothing, only the
   * header segment, or a whole token.
   */
  datatype Parsed = Unreadable | HeaderOnly(header: Header) | Readable(token: Token)

  /** `jwt.get_unverified_header(token)`; `None` stands for its DecodeError. */
  function UnverifiedHeader(p: Parsed): Option<Header>
  {
    match p
    case Unreadable => None
    case HeaderOnly(h) => Some(h)
    case Readable(t) => Some(t.header)
  }

  predicate Verify(t: Token, pub: RsaPublicKey)
  {
    t.signature == Signature(pub, t.header, t.claims)
  }

  /**
   * `jwt.encode(claims, key, algorithm='RS256', headers={'kid': kid})`: a
   * token with that header and those claims which verifies under the
   * public half of `key`.
   */
  function Encode(claims: Claims, key: RsaPrivateKey, kid: Kid): (t: Token)
    ensures t.header == Header(Algorithm, Some(kid)) && t.claims == claims
    ensures Verify(t, PublicOf(key))
  {
    var header := Header(Algorithm, Some(kid));
    Token(header, claims, Signature(PublicOf(key), header, claims))
  }

  /** Outcome of `jwt.decode`: the claims, ExpiredSignatureError, or another InvalidTokenError. */
  datatype DecodeResult = Decoded(claims: Claims) | ExpiredSignature | InvalidToken

  /**
   * `jwt.decode(token, pub, algorithms=['RS256'])`: the algorithm and the
   * signature are checked before the `exp` claim is trusted.
   */
  function Decode(p: Parsed, pub: RsaPublicKey, now: int): (r: DecodeResult)
    ensures r.Decoded? <==>
      p.Readable? && p.token.header.alg == Algorithm && Verify(p.token, pub) && p.token.claims.exp > now
    ensures r.Decoded? ==> r.claims == p.token.claims
    ensures r == ExpiredSignature ==> p.Readable? && Verify(p.token, pub) && p.token.claims.exp <= now
  {
    match p
    case Readable(t) =>
      if t.header.alg != Algorithm || !Verify(t, pub) then InvalidToken
      else if t.claims.exp <= now then ExpiredSignature
      else Decoded(t.claims)
    case _ => InvalidToken
  }

  /** A token decodes under the key that signed it, unless its `exp` has passed. */
  lemma EncodeThenDecode(claims: Claims, key: RsaPrivateKey, kid: Kid, now: int)
    ensures Decode(Readable(Encode(claims, key, kid)), PublicOf(key), now) ==
      if claims.exp <= now then ExpiredSignature else Decoded(claims)
  {
  }

  /** Under any other public key the same token is rejected, expired or not. */
  lemma OtherKeyRejects(claims: Claims, key: RsaPrivateKey, kid: Kid, pub: RsaPublicKey, now: int)
    requires pub != PublicOf(key)
    ensures Decode(Readable(Encode(claims, key, kid)), pub, now) == InvalidToken
  {
  }
}
