/**
 * The token service of server.py: the global key store `KEYS` with its
 * generator and expiry sweep, the JWKS endpoint, the issuing endpoint `auth`
 * and the verifying endpoint `protected`. Each request reads the clock once,
 * as `now` in minutes.
 */
module Server {
  import opened Wrappers
  import opened Keys
  import opened Jwk
  import opened Jwt

  /** `timedelta(hours=1)`, the lifetime of a minted key (server.py:36). */
  const KeyLifetime: int := 60
  /** Lifetime of a normal token (server.py:83). */
  const TokenLifetime: int := 30
  /** How far in the past the `exp` of a deliberately expired token lies (server.py:83). */
  const ExpiredTokenAge: int := 5

  /** The JSON request body of `auth`: absent, or a string-valued object. */
  type Body = Option<map<string, string>>

  /** `not data or 'username' not in data or 'password' not in data` (server.py:74). */
  predicate MalformedBody(body: Body)
  {
    body.None? || body.value == map[] || "username" !in body.value || "password" !in body.value
  }

  /** The claims `auth` signs for `username` (server.py:83-92). */
  function IssuedClaims(username: string, now: int, expired: bool): Claims
  {
    Claims(username, now, if expired then now - ExpiredTokenAge else now + TokenLifetime)
  }

  datatype AuthResult = BadRequest | Issued(token: Token)
  {
    function Status(): int
    {
      if BadRequest? then 400 else 200
    }
  }

  /** The responses of `protected`, one per exit of server.py:106-137. */
  datatype Access =
    | MissingHeader        // 'Missing Authorization Header'
    | Unhandled            // IndexError from split(" ")[1] escapes the handler
    | UnknownKid           // 'Invalid kid or key not found in JWKS'
    | KeyExpired           // 'Key has expired in JWKS'
    | TokenExpired         // 'Token has expired'
    | BadToken             // 'Invalid token: ...'
    | Granted(user: string)
  {
    function Status(): int
    {
      if Granted? then 200 else if Unhandled? then 500 else 401
    }
  }

  // ---------------------------------------------------------------------------
  // `str.split(sep)` on the Authorization header (server.py:113)

  function Join(parts: seq<string>, sep: char): string
    decreases |parts|
  {
    if |parts| == 0 then "" else if |parts| == 1 then parts[0] else parts[0] + [sep] + Join(parts[1..], sep)
  }

  /**
   * `s.split(sep)`: the pieces between occurrences of `sep`, empty ones
   * included; joining them with `sep` gives `s` back.
   */
  function Split(s: string, sep: char): (parts: seq<string>)
    ensures |parts| >= 1
    ensures forall i :: 0 <= i < |parts| ==> sep !in parts[i]
    ensures Join(parts, sep) == s
    decreases |s|
  {
    if |s| == 0 then [""]
    else
      var rest := Split(s[1..], sep);
      if s[0] == sep then
        assert ([""] + rest)[1..] == rest;
        [""] + rest
      else
        var parts := [[s[0]] + rest[0]] + rest[1..];
        assert parts[1..] == rest[1..];
        assert s == [s[0]] + s[1..];
        parts
  }

  /** A string without `sep` is one piece. */
  lemma {:induction false} SplitWithout(s: string, sep: char)
    requires sep !in s
    ensures Split(s, sep) == [s]
    decreases |s|
  {
    if |s| > 0 {
      SplitWithout(s[1..], sep);
      assert s == [s[0]] + s[1..];
    }
  }

  /** The first piece ends at the first `sep`. */
  lemma {:induction false} SplitAtFirst(a: string, sep: char, b: string)
    requires sep !in a
    ensures Split(a + [sep] + b, sep) == [a] + Split(b, sep)
    decreases |a|
  {
    var s := a + [sep] + b;
    if |a| == 0 {
      assert s[1..] == b;
    } else {
      SplitAtFirst(a[1..], sep, b);
      assert s[1..] == a[1..] + [sep] + b;
      assert a == [a[0]] + a[1..];
    }
  }

  // ---------------------------------------------------------------------------
  // The decision procedure of `protected`

  /** The checks of server.py:115-137 on a bearer string the library parsed as `p`. */
  function CheckToken(keys: KeyMap, now: int, p: Parsed): Access
  {
    match UnverifiedHeader(p)
    case None => BadToken
    case Some(h) =>
      if h.kid.None? || h.kid.value == "" || h.kid.value !in keys then UnknownKid
      else if keys[h.kid.value].expiry <= now then KeyExpired
      else match Decode(p, keys[h.kid.value].publicKey, now)
        case ExpiredSignature => TokenExpired
        case InvalidToken => BadToken
        case Decoded(claims) => Granted(claims.sub)
  }

  /**
   * server.py:109-137 after the sweep: `parse` is the JWT library reading a
   * bearer string.
   */
  function Decide(keys: KeyMap, now: int, authorization: Option<string>, parse: string -> Parsed): Access
  {
    if authorization.None? || authorization.value == "" then MissingHeader
    else
      var parts := Split(authorization.value, ' ');
      if |parts| < 2 then Unhandled else CheckToken(keys, now, parse(parts[1]))
  }

  /** `Bearer <token>` reaches the token checks with exactly `<token>`. */
  lemma BearerReachesChecks(keys: KeyMap, now: int, text: string, parse: string -> Parsed)
    requires ' ' !in text
    ensures Decide(keys, now, Some("Bearer " + text), parse) == CheckToken(keys, now, parse(text))
  {
    SplitWithout(text, ' ');
    SplitAtFirst("Bearer", ' ', text);
    assert "Bearer " + text == "Bearer" + [' '] + text;
  }

  /** A non-empty header without a space makes `split(" ")[1]` raise. */
  lemma NoSpaceUnhandled(keys: KeyMap, now: int, header: string, parse: string -> Parsed)
    requires header != "" && ' ' !in header
    ensures Decide(keys, now, Some(header), parse) == Unhandled
  {
    SplitWithout(header, ' ');
  }

  /**
   * Access is granted exactly when the token names a present, unexpired key,
   * is signed by it with RS256, and its own `exp` is still ahead.
   */
  lemma GrantedIff(keys: KeyMap, now: int, p: Parsed, user: string)
    ensures CheckToken(keys, now, p) == Granted(user) <==>
      && p.Readable?
      && p.token.header.kid.Some?
      && p.token.header.kid.value != ""
      && p.token.header.kid.value in keys
      && keys[p.token.header.kid.value].expiry > now
      && p.token.header.alg == Algorithm
      && Verify(p.token, keys[p.token.header.kid.value].publicKey)
      && p.token.claims.exp > now
      && p.token.claims.sub == user
  {
  }

  /**
   * A header naming no kid, or a kid not in the store, is refused before
   * any signature is looked at: the result does not depend on the rest.
   */
  lemma UnknownKidFirst(keys: KeyMap, now: int, p: Parsed)
    requires UnverifiedHeader(p).Some?
    requires var kid := UnverifiedHeader(p).value.kid; kid.None? || kid.value == "" || kid.value !in keys
    ensures CheckToken(keys, now, p) == UnknownKid
  {
  }

  /** A present key whose expiry has come is refused before the signature check. */
  lemma ExpiredKeySecond(keys: KeyMap, now: int, p: Parsed)
    requires UnverifiedHeader(p).Some?
    requires var kid := UnverifiedHeader(p).value.kid; kid.Some? && kid.value != "" && kid.value in keys
    requires keys[UnverifiedHeader(p).value.kid.value].expiry <= now
    ensures CheckToken(keys, now, p) == KeyExpired
  {
  }

  /**
   * Only a signature made by the stored key of the named kid can reach the
   * `exp` check: "Token has expired" also implies a live, matching key.
   */
  lemma ExpiredTokenHadValidSignature(keys: KeyMap, now: int, p: Parsed)
    requires CheckToken(keys, now, p) == TokenExpired
    ensures p.Readable? && p.token.header.kid.Some? && p.token.header.kid.value in keys
    ensures Verify(p.token, keys[p.token.header.kid.value].publicKey)
    ensures keys[p.token.header.kid.value].expiry > now && p.token.claims.exp <= now
  {
  }

  /** After a sweep at the same time the key-expiry check can never fire. */
  lemma SweptNeverKeyExpired(keys: KeyMap, now: int, p: Parsed)
    ensures CheckToken(Unexpired(keys, now), now, p) != KeyExpired
  {
  }

  /** A token `auth` signed is accepted while its key and its `exp` are both ahead. */
  lemma IssuedTokenAccepted(keys: KeyMap, now: int, kid: Kid, key: RsaPrivateKey, claims: Claims)
    requires kid != "" && kid in keys && keys[kid].privateKey == key && WellFormed(keys[kid])
    requires keys[kid].expiry > now && claims.exp > now
    ensures CheckToken(keys, now, Readable(Encode(claims, key, kid))) == Granted(claims.sub)
  {
  }

  /** Once its kid is gone from the store, a token is refused at the kid check. */
  lemma DeletedKidRejected(keys: KeyMap, now: int, kid: Kid, key: RsaPrivateKey, claims: Claims)
    requires kid !in keys
    ensures CheckToken(keys, now, Readable(Encode(claims, key, kid))) == UnknownKid
  {
  }

  /** A token that outlives its `exp` while its key lives is "Token has expired". */
  lemma OutlivedTokenExpired(keys: KeyMap, now: int, kid: Kid, key: RsaPrivateKey, claims: Claims)
    requires kid != "" && kid in keys && keys[kid].privateKey == key && WellFormed(keys[kid])
    requires keys[kid].expiry > now && claims.exp <= now
    ensures CheckToken(keys, now, Readable(Encode(claims, key, kid))) == TokenExpired
  {
  }

  // ---------------------------------------------------------------------------
  // The JWKS document

  /**
   * The loop of server.py:52-64 over the items of `KEYS`: exactly one entry
   * per kid, each built by `render` from that kid and its public key
   * (`Jwks` passes `PublicJwk`, the dictionary literal of server.py:56-63).
   */
  method RenderKeys(live: KeyMap, render: (Kid, RsaPublicKey) -> Jwk) returns (doc: seq<Jwk>)
    requires forall kid, pub :: render(kid, pub).kid == kid
    ensures |doc| == |live|
    ensures forall i :: 0 <= i < |doc| ==> doc[i].kid in live && doc[i] == render(doc[i].kid, live[doc[i].kid].publicKey)
    ensures forall i, j :: 0 <= i < j < |doc| ==> doc[i].kid != doc[j].kid
    ensures forall kid :: kid in live ==> exists i :: 0 <= i < |doc| && doc[i].kid == kid
  {
    doc := [];
    var pending := live.Keys;
    ghost var at: map<Kid, nat> := map[];
    while pending != {}
      invariant pending <= live.Keys
      invariant |doc| + |pending| == |live.Keys|
      invariant forall i :: 0 <= i < |doc| ==> doc[i].kid in live && doc[i].kid !in pending
      invariant forall i :: 0 <= i < |doc| ==> doc[i] == render(doc[i].kid, live[doc[i].kid].publicKey)
      invariant forall i, j :: 0 <= i < j < |doc| ==> doc[i].kid != doc[j].kid
      invariant live.Keys - pending <= at.Keys
      invariant forall kid :: kid in at ==> at[kid] < |doc| && doc[at[kid]].kid == kid
      decreases pending
    {
      var kid :| kid in pending;
      at := at[kid := |doc|];
      doc := doc + [render(kid, live[kid].publicKey)];
      pending := pending - {kid};
    }
    assert |live| == |live.Keys|;
    forall kid | kid in live
      ensures exists i :: 0 <= i < |doc| && doc[i].kid == kid
    {
      assert doc[at[kid]].kid == kid;
    }
  }

  // ---------------------------------------------------------------------------
  // The service state

  class TokenServer {
    /** `KEYS` (server.py:13). */
    var keys: KeyMap
    /** Every kid ever minted: `uuid4()` never repeats one. */
    ghost var minted: set<Kid>

    ghost predicate Valid()
      reads this
    {
      keys.Keys <= minted && forall kid :: kid in keys ==> WellFormed(keys[kid])
    }

    constructor ()
      ensures Valid() && keys == map[] && minted == {}
    {
      keys := map[];
      minted := {};
    }

    /**
     * `generate_rsa_key_pair(kid)` (server.py:16-37) with the generated key
     * passed in: stores the pair under `kid` for one hour, replacing any
     * previous entry, and touches no other kid.
     */
    method GenerateRsaKeyPair(kid: Kid, key: RsaPrivateKey, now: int)
      requires Valid() && Generated(key)
      modifies this
      ensures Valid()
      ensures keys == old(keys)[kid := KeyRecord(key, PublicOf(key), now + KeyLifetime)]
      ensures minted == old(minted) + {kid}
    {
      keys := keys[kid := KeyRecord(key, PublicOf(key), now + KeyLifetime)];
      minted := minted + {kid};
    }

    /** `cleanup_expired_keys()` (server.py:40-45): collect the expired kids, then delete them. */
    method CleanupExpiredKeys(now: int)
      requires Valid()
      modifies this
      ensures Valid() && minted == old(minted)
      ensures keys == Unexpired(old(keys), now)
    {
      var expiredKeys := ExpiredKids(keys, now);
      ghost var doomed := expiredKeys;
      while expiredKeys != {}
        invariant expiredKeys <= doomed
        invariant keys == old(keys) - (doomed - expiredKeys)
        invariant Valid() && minted == old(minted)
        decreases expiredKeys
      {
        var kid :| kid in expiredKeys;
        keys := keys - {kid};
        expiredKeys := expiredKeys - {kid};
      }
      assert keys == old(keys) - doomed;
    }

    /** `jwks()` (server.py:49-66): sweep, then render what is left. */
    method Jwks(now: int) returns (doc: seq<Jwk>)
      requires Valid()
      modifies this
      ensures Valid() && minted == old(minted)
      ensures keys == Unexpired(old(keys), now)
      ensures |doc| == |keys|
      ensures forall i :: 0 <= i < |doc| ==> doc[i].kid in keys && doc[i] == PublicJwk(doc[i].kid, keys[doc[i].kid].publicKey)
      ensures forall i, j :: 0 <= i < j < |doc| ==> doc[i].kid != doc[j].kid
      ensures forall kid :: kid in keys ==> exists i :: 0 <= i < |doc| && doc[i].kid == kid
    {
      CleanupExpiredKeys(now);
      doc := RenderKeys(keys, PublicJwk);
    }

    /**
     * `auth()` (server.py:70-102) with the fresh `uuid4()` kid and the
     * generated key passed in.
     */
    method Auth(now: int, body: Body, expired: bool, newKid: Kid, key: RsaPrivateKey) returns (r: AuthResult)
      requires Valid() && Generated(key)
      requires newKid !in minted
      modifies this
      ensures Valid()
      ensures MalformedBody(body) ==> r == BadRequest && keys == Unexpired(old(keys), now) && minted == old(minted)
      ensures !MalformedBody(body) ==>
        && r == Issued(Encode(IssuedClaims(body.value["username"], now, expired), key, newKid))
        && minted == old(minted) + {newKid}
      ensures !MalformedBody(body) && expired ==> keys == Unexpired(old(keys), now)
      ensures !MalformedBody(body) && !expired ==>
        keys == Unexpired(old(keys), now)[newKid := KeyRecord(key, PublicOf(key), now + KeyLifetime)]
    {
      CleanupExpiredKeys(now);
      if MalformedBody(body) {
        return BadRequest;
      }
      ghost var swept := keys;
      var kid := newKid;
      GenerateRsaKeyPair(kid, key, now);
      var expirationTime := if expired then now - ExpiredTokenAge else now + TokenLifetime;
      var privateKey := keys[kid].privateKey;
      var token := Encode(Claims(body.value["username"], now, expirationTime), privateKey, kid);
      if expired {
        keys := keys - {kid};
        assert keys == swept;
      }
      r := Issued(token);
    }

    /** `protected()` (server.py:106-137): sweep, then the ordered checks. */
    method Protected(now: int, authorization: Option<string>, parse: string -> Parsed) returns (r: Access)
      requires Valid()
      modifies this
      ensures Valid() && minted == old(minted)
      ensures keys == Unexpired(old(keys), now)
      ensures r == Decide(keys, now, authorization, parse)
      ensures r != KeyExpired
    {
      CleanupExpiredKeys(now);
      r := Decide(keys, now, authorization, parse);
      if authorization.Some? && authorization.value != "" {
        var parts := Split(authorization.value, ' ');
        if |parts| >= 2 {
          SweptNeverKeyExpired(old(keys), now, parse(parts[1]));
        }
      }
    }
  }
  // ---------------------------------------------------------------------------
  // Request sequences against a fresh service

  /** The body of a well-formed `POST /auth`. */
  function Credentials(username: string, password: string): (body: Body)
    ensures !MalformedBody(body) && body.value["username"] == username
  {
    var fields := map["username" := username, "password" := password];
    assert "username"[0] != "password"[0];
    assert "username" in fields && fields["username"] == username;
    Some(fields)
  }

  /**
   * A token from `POST /auth` sent back as `Bearer <token>` before its
   * thirty minutes are up is accepted for the user it was issued to.
   */
  method IssueThenAccess(now: int, later: int, username: string, password: string, kid: Kid, key: RsaPrivateKey,
                         text: string, parse: string -> Parsed)
    returns (issued: AuthResult, access: Access)
    requires Generated(key) && kid != ""
    requires ' ' !in text && parse(text) == Readable(Encode(IssuedClaims(username, now, false), key, kid))
    requires now <= later < now + TokenLifetime
    ensures issued.Status() == 200 && issued.Issued? && issued.token.header.kid == Some(kid)
    ensures access == Granted(username) && access.Status() == 200
  {
    var service := new TokenServer();
    issued := service.Auth(now, Credentials(username, password), false, kid, key);
    assert kid in service.keys && service.keys[kid] == KeyRecord(key, PublicOf(key), now + KeyLifetime);
    BearerReachesChecks(service.keys, later, text, parse);
    access := service.Protected(later, Some("Bearer " + text), parse);
    IssuedTokenAccepted(service.keys, later, kid, key, IssuedClaims(username, now, false));
  }

  /**
   * A token from `POST /auth?expired` comes back signed, but its kid was
   * deleted on the way out, so it is refused at the kid check.
   */
  method IssueExpiredThenAccess(now: int, later: int, username: string, password: string, kid: Kid, key: RsaPrivateKey,
                                text: string, parse: string -> Parsed)
    returns (issued: AuthResult, access: Access)
    requires Generated(key)
    requires ' ' !in text && parse(text) == Readable(Encode(IssuedClaims(username, now, true), key, kid))
    requires now <= later
    ensures issued.Status() == 200 && issued.Issued? && issued.token.claims.exp < now
    ensures access == UnknownKid && access.Status() == 401
  {
    var service := new TokenServer();
    issued := service.Auth(now, Credentials(username, password), true, kid, key);
    BearerReachesChecks(service.keys, later, text, parse);
    access := service.Protected(later, Some("Bearer " + text), parse);
    DeletedKidRejected(service.keys, later, kid, key, IssuedClaims(username, now, true));
  }

  /**
   * Between thirty and sixty minutes after issue the token's own `exp` has
   * passed while its key still lives: "Token has expired".
   */
  method TokenOutlivesExp(now: int, later: int, username: string, password: string, kid: Kid, key: RsaPrivateKey,
                          text: string, parse: string -> Parsed)
    returns (access: Access)
    requires Generated(key) && kid != ""
    requires ' ' !in text && parse(text) == Readable(Encode(IssuedClaims(username, now, false), key, kid))
    requires now + TokenLifetime <= later < now + KeyLifetime
    ensures access == TokenExpired && access.Status() == 401
  {
    var service := new TokenServer();
    var _ := service.Auth(now, Credentials(username, password), false, kid, key);
    assert kid in service.keys && service.keys[kid] == KeyRecord(key, PublicOf(key), now + KeyLifetime);
    BearerReachesChecks(service.keys, later, text, parse);
    access := service.Protected(later, Some("Bearer " + text), parse);
    OutlivedTokenExpired(service.keys, later, kid, key, IssuedClaims(username, now, false));
  }

  /**
   * An hour after issue the sweep has removed the key, so the token is
   * refused at the kid check.
   */
  method KeyOutlivesToken(now: int, later: int, username: string, password: string, kid: Kid, key: RsaPrivateKey,
                          text: string, parse: string -> Parsed)
    returns (access: Access)
    requires Generated(key)
    requires ' ' !in text && parse(text) == Readable(Encode(IssuedClaims(username, now, false), key, kid))
    requires now + KeyLifetime <= later
    ensures access == UnknownKid && access.Status() == 401
  {
    var service := new TokenServer();
    var _ := service.Auth(now, Credentials(username, password), false, kid, key);
    assert kid in service.keys && service.keys[kid] == KeyRecord(key, PublicOf(key), now + KeyLifetime);
    BearerReachesChecks(service.keys, later, text, parse);
    access := service.Protected(later, Some("Bearer " + text), parse);
    DeletedKidRejected(service.keys, later, kid, key, IssuedClaims(username, now, false));
  }

  /**
   * Two logins an hour or more apart: once the first key has expired the
   * JWKS document lists the second key alone, with exponent "AQAB".
   */
  method JwksAfterRotation(t1: int, t2: int, t3: int, body: Body, kid1: Kid, key1: RsaPrivateKey, kid2: Kid, key2: RsaPrivateKey)
    returns (doc: seq<Jwk>)
    requires Generated(key1) && Generated(key2) && kid1 != kid2 && !MalformedBody(body)
    requires t1 + KeyLifetime <= t3 < t2 + KeyLifetime && t2 <= t3
    ensures doc == [PublicJwk(kid2, PublicOf(key2))]
  {
    var service := new TokenServer();
    var _ := service.Auth(t1, body, false, kid1, key1);
    var _ := service.Auth(t2, body, false, kid2, key2);
    assert service.keys[kid2].publicKey == PublicOf(key2);
    assert Unexpired(service.keys, t3).Keys == {kid2};
    doc := service.Jwks(t3);
    assert |doc| == 1 && doc[0].kid == kid2;
  }
}
