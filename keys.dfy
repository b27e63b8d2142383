/**
 * Key records and the expiry sweep shared by server.py and key_generation.py.
 * RSA key material is opaque: a private key is its numbers, and PEM
 * serialisation and loading are the identity.
 */
module Keys {
  /** Key identifier: the JWT header `kid` and the JWKS `kid`. */
  type Kid = string

  /** `public_exponent=65537` at server.py:18 and key_generation.py:12. */
  const PublicExponent: nat := 65537

  datatype RsaPublicKey = RsaPublicKey(n: nat, e: nat)
  datatype RsaPrivateKey = RsaPrivateKey(n: nat, e: nat, d: nat)

  /** `private_key.public_key()`. */
  function PublicOf(k: RsaPrivateKey): RsaPublicKey
  {
    RsaPublicKey(k.n, k.e)
  }

  /** What `rsa.generate_private_key(public_exponent=65537, ...)` hands back. */
  predicate Generated(k: RsaPrivateKey)
  {
    k.e == PublicExponent && k.n > 0
  }

  /** One value of `KEYS`: `{'private_key', 'public_key', 'expiry'}`; expiry in minutes. */
  datatype KeyRecord = KeyRecord(privateKey: RsaPrivateKey, publicKey: RsaPublicKey, expiry: int)

  type KeyMap = map<Kid, KeyRecord>

  /** A record as the generators store it: a matching pair from the generator. */
  predicate WellFormed(r: KeyRecord)
  {
    Generated(r.privateKey) && r.publicKey == PublicOf(r.privateKey)
  }

  /** The kids collected at server.py:43: those whose expiry is not after `now`. */
  function ExpiredKids(keys: KeyMap, now: int): set<Kid>
  {
    set kid | kid in keys && keys[kid].expiry <= now
  }

  /**
   * `KEYS` after `cleanup_expired_keys()` at time `now`: a kid survives exactly
   * when its expiry is after `now`, and survivors keep their record.
   */
  function Unexpired(keys: KeyMap, now: int): (live: KeyMap)
    ensures forall kid :: kid in live <==> kid in keys && keys[kid].expiry > now
    ensures forall kid :: kid in live ==> live[kid] == keys[kid]
  {
    keys - ExpiredKids(keys, now)
  }

  /** A second sweep at the same time finds nothing to delete. */
  lemma SweepIdempotent(keys: KeyMap, now: int)
    ensures ExpiredKids(Unexpired(keys, now), now) == {}
    ensures Unexpired(Unexpired(keys, now), now) == Unexpired(keys, now)
  {
  }

  /** Sweeping at `t1` and then at a later `t2` is one sweep at `t2`. */
  lemma SweepLater(keys: KeyMap, t1: int, t2: int)
    requires t1 <= t2
    ensures Unexpired(Unexpired(keys, t1), t2) == Unexpired(keys, t2)
  {
  }

  /** The sweep never removes a well-formed record's well-formedness. */
  lemma SweepKeepsWellFormed(keys: KeyMap, now: int)
    requires forall kid :: kid in keys ==> WellFormed(keys[kid])
    ensures forall kid :: kid in Unexpired(keys, now) ==> WellFormed(Unexpired(keys, now)[kid])
  {
  }
}
