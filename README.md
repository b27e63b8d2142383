# JWKS token service: key lifecycle model

A Dafny model of the token service in `server.py` and of the stand-alone key
generator in `key_generation.py`:

- The service keeps RSA key pairs in a global `KEYS` dictionary keyed by
  `kid`. Each record holds the private key, the public key and an expiry.
- `generate_rsa_key_pair` inserts a pair that lives for one hour.
- `cleanup_expired_keys` deletes every pair whose expiry has come.
- `GET /.well-known/jwks.json` sweeps the store and then publishes one public
  JWK (section 4 of RFC 7517) per remaining kid. Its `n` and `e` are
  Base64urlUInt values (section 2 of RFC 7518): the minimal big-endian octets
  of the integer in unpadded base64url (section 5 of RFC 4648).
- `POST /auth` sweeps, rejects a malformed body, then mints a key under a
  fresh kid and signs an RS256 token with it. The token's `exp` lies 30
  minutes ahead, or 5 minutes in the past when `expired` is asked for; in the
  latter case the new key is deleted again at once.
- `GET /protected` sweeps, then runs its checks in order: header present, kid
  known, key unexpired, signature and `exp`.

The modules are:

- `Wrappers`: `Option`.
- `BigEndian`: Python's `int.bit_length`, `int.to_bytes` (with its
  OverflowError) and `int.from_bytes`.
- `Base64Url`: the encoder with `rstrip("=")`, and a decoder that is its exact
  inverse.
- `Keys`: key records and the sweep as a function on maps.
- `Jwk`: the Base64urlUInt encoding and the JWK entry.
- `Jwt`: tokens, an ideal RS256 signature, and the decoding rules the service
  relies on.
- `Server`: the `TokenServer` class with `KEYS` as a map field, whose methods
  are the three endpoints and the two helpers. It also holds the pure
  decision procedure of `/protected` and a few request sequences run against
  a fresh service.
- `KeyGeneration`: the `KeyStore` class of `key_generation.py`.

Time is an integer number of minutes, passed in as `now` once per request.
The freshly generated RSA key and the fresh `uuid4()` kid are parameters too.
A ghost set of every kid ever minted states that `uuid4()` never repeats one.

`Base64urlUInt(0)` comes out as the empty string here, just as in the code.
Section 2 of RFC 7518 asks for "AA" instead. The difference cannot be
observed, because the service only encodes RSA moduli and the exponent
65537, which are positive.

## Model

| member | source | states |
|---|---|---|
| BigEndian.ToBytes | server.py:61 | `n.to_bytes(length, 'big')` succeeds exactly when `n < 2^(8*length)`; it then gives `length` octets whose big-endian value is `n` |
| BigEndian.ByteLength | server.py:61 | `(n.bit_length() + 7) // 8` is a length at which `to_bytes` does not overflow. Every shorter length overflows. It is 0 only for 0 |
| BigEndian.MinimalOctets | server.py:61-62 | the octets emitted for `n` read back as `n`, have no leading zero octet and are `ByteLength(n)` long |
| BigEndian.MinimalUnique | server.py:61-62 | no other octet string without a leading zero has the value `n`, so the emitted octets are the canonical ones |
| Base64Url.Symbol | server.py:61-62 | each 6-bit value maps to a character of the URL-safe alphabet, never to the pad character `=` |
| Base64Url.SymbolValue | server.py:61-62 | reading a character back gives the value whose symbol it is; `=` is not an alphabet character |
| Base64Url.UrlsafeB64Encode | server.py:61-62 | `urlsafe_b64encode` output is padded to 4 characters per started group of 3 octets |
| Base64Url.RStrip | server.py:61-62 | `rstrip("=")` keeps a prefix that does not end in `=`, and only `=` characters are removed |
| Base64Url.EncodeShape | server.py:61-62 | unpadded output has `(4*len+2)/3` characters, all from the alphabet |
| Base64Url.DecodeEncode | server.py:61-62 | decoding the unpadded encoding of any octet string gives that string back |
| Base64Url.EncodeDecode | server.py:61-62 | every string the decoder accepts is the encoding of what it decodes to, so the encoding is injective and canonical |
| Jwk.UIntRoundTrip | server.py:61-62 | the `n`/`e` text of any natural number decodes back to that number |
| Jwk.UIntCanonical | server.py:61-62 | a text that decodes to `x` is exactly the text the service emits for `x` |
| Jwk.UIntShape | server.py:61-62 | the `n`/`e` text has no `=`, uses only alphabet characters, and has the unpadded length of the minimal octets |
| Jwk.ExponentText | server.py:62 | the exponent 65537 is published as `"AQAB"` |
| Jwk.PublicJwkReadsBack | server.py:56-63 | an entry carries the kid, `kty` "RSA", `alg` "RS256" and `use` "sig"; its `n` and `e` decode to the key's numbers; the generated exponent reads "AQAB" |
| Jwt.Encode | server.py:87-96 | the signed token's header is `{alg: RS256, kid}`, its claims are the given ones, and it verifies under the signer's public key |
| Jwt.Decode | server.py:130-134 | decoding succeeds exactly for a readable RS256 token signed by the given key whose `exp` is still ahead, and yields its claims; "expired" is reported only for a correctly signed token whose `exp` has come |
| Jwt.EncodeThenDecode | server.py:87-96 | a token the service signed decodes under the matching public key to its claims, or to "expired" once `exp <= now` |
| Jwt.OtherKeyRejects | server.py:130-137 | a token never decodes under a public key other than its signer's |
| Keys.Unexpired | server.py:42-45 | after the sweep a kid remains exactly when it was present with `expiry > now`, and every survivor keeps its record |
| Keys.SweepIdempotent | server.py:43-45 | a second sweep at the same time finds nothing to delete and changes nothing |
| Keys.SweepLater | server.py:40-45 | a sweep followed by a later sweep is the later sweep alone |
| Keys.SweepKeepsWellFormed | server.py:43-45 | the sweep keeps every surviving record a matching generated pair |
| Server.Split | server.py:113 | `split(" ")` gives at least one piece, no piece contains the separator, and joining the pieces restores the header |
| Server.BearerReachesChecks | server.py:113 | the header `Bearer <token>` reaches the token checks with exactly `<token>` |
| Server.NoSpaceUnhandled | server.py:113 | a non-empty header without a space makes `split(" ")[1]` raise outside the `try`, which ends the request with status 500 |
| Server.GrantedIff | server.py:115-131 | access is granted, for the token's `sub`, exactly when the token names a present, unexpired key, is RS256-signed by it, and its `exp` is ahead |
| Server.UnknownKidFirst | server.py:117-119 | a missing, empty or unknown kid is refused before the key's expiry or the signature is examined |
| Server.ExpiredKeySecond | server.py:122-124 | a known kid whose key expiry has come is refused before the signature is examined |
| Server.ExpiredTokenHadValidSignature | server.py:130-134 | "Token has expired" is only reported for a token signed by the live key of a known kid |
| Server.SweptNeverKeyExpired | server.py:108-124 | after the sweep at the same time, the "Key has expired" branch cannot be taken |
| Server.IssuedTokenAccepted | server.py:115-131 | a token signed with a stored, unexpired key is granted while its `exp` is ahead |
| Server.DeletedKidRejected | server.py:118-119 | a token whose kid is not in the store is refused at the kid check, however it was signed |
| Server.OutlivedTokenExpired | server.py:130-134 | a token whose key lives but whose `exp` has come gets "Token has expired" |
| Server.RenderKeys | server.py:52-64 | the loop emits one entry per kid of the store and no other, no kid twice, each built from that kid's public key |
| Server.TokenServer.constructor | server.py:13 | the service starts with an empty `KEYS` |
| Server.TokenServer.GenerateRsaKeyPair | server.py:16-37 | `KEYS[kid]` becomes the new pair with expiry `now + 60`, replacing any previous entry; no other kid changes |
| Server.TokenServer.CleanupExpiredKeys | server.py:40-45 | collecting and then deleting the expired kids leaves exactly the swept store `Unexpired(KEYS, now)` |
| Server.TokenServer.Jwks | server.py:49-66 | the store becomes the swept store, and the document has exactly one public JWK per remaining kid |
| Server.TokenServer.Auth | server.py:70-102 | a malformed body gives 400 and leaves only the sweep's effect. Otherwise the token signs the user's claims under the new kid, with `exp` 30 minutes ahead or 5 behind. The store then is the swept store plus the new kid, or exactly the swept store when `expired` |
| Server.TokenServer.Protected | server.py:106-137 | the store becomes the swept store, the response is the ordered decision on it, and "Key has expired" is never returned |
| Server.IssueThenAccess | server.py:70-137 | a token from `/auth` presented within 30 minutes is granted for the user it was issued to |
| Server.IssueExpiredThenAccess | server.py:99-119 | a token issued with `expired` carries a past `exp`, and it is always refused at the unknown-kid check because its key was deleted |
| Server.TokenOutlivesExp | server.py:83-134 | between 30 and 60 minutes after issue the token gets "Token has expired" |
| Server.KeyOutlivesToken | server.py:36-119 | an hour or more after issue the sweep has removed the key, and the token is refused at the kid check |
| Server.JwksAfterRotation | server.py:49-66 | once the first of two keys has expired, the JWKS document lists the second key alone |
| KeyGeneration.KeyStore.constructor | key_generation.py:7 | the store starts empty |
| KeyGeneration.KeyStore.GenerateRsaKeyPair | key_generation.py:9-38 | `KEYS[kid]` becomes the new pair with expiry `now + expiry_minutes`, replacing any previous entry, with no other kid changed; the returned pair is the stored one |
| KeyGeneration.GenerateWithDefaultExpiry | key_generation.py:9-38 | without `expiry_minutes` the stored record expires 30 minutes after `now`, and the call returns the stored matching pair |
| KeyGeneration.RegenerateSameKid | key_generation.py:32-36 | generating twice under one kid leaves one entry holding the second pair and expiry, and the entries of other kids are untouched |

## Left out

- RSA key generation (server.py:17-18, key_generation.py:11-17): the generated key is a parameter satisfying `Generated` (exponent 65537, positive modulus); the 2048-bit key size is not modelled.
- PEM serialisation and `load_pem_*` (server.py:22-30, 54-55, 86, 127; key_generation.py:19-28): key material is an opaque value and serialising then loading it is the identity.
- JWT library internals (server.py:87-96, 117, 130): the compact serialisation is not modelled. Reading a bearer string is the function parameter `parse`, and signatures are ideal: a token verifies exactly under its signer's public key. `iat` is carried but not checked. The `exp` rule is PyJWT's with zero leeway.
- `uuid.uuid4()` (server.py:78): the new kid is a parameter that was never minted before.
- `datetime.utcnow()`: each request reads one clock value `now`, in whole minutes. The source reads the clock several times per request (server.py:42, 83, 90, 123). "Key has expired" (server.py:123-124) can therefore only be reached there if the clock moves during one request, which a single clock rules out.
- Flask: the JSON body is an optional map from strings to strings. Non-object JSON and non-string values are not modelled. The `expired` query argument (server.py:82) becomes a boolean. Responses are reduced to result tags and status codes.
- The message text of `InvalidTokenError` and its debug print (server.py:135-137).
- Server.RenderKeys: does not state the order of the entries, which is the insertion order of `KEYS`, because the store is a map without order; the entries are proved right for every visiting order.
- Server.TokenServer.Jwks: does not state the order of the entries, for the same reason.
- The debug prints of key_generation.py:39-42 follow `return` and never run, so the model of that function has no output.
- Concurrency: the source has no locking and requests are modelled one at a time.
- grade.py (file I/O and floating-point averages) and test_server.py (HTTP tests against a live server) are not part of this model.
