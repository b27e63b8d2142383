/**
 * The stand-alone key generator of key_generation.py: its own `KEYS`
 * dictionary and `generate_rsa_key_pair(kid, expiry_minutes=30)`, which
 * stores a fresh pair under `kid` and hands the pair back.
 */
module KeyGeneration {
  import opened Keys

  /** The default of `expiry_minutes` (key_generation.py:9). */
  const DefaultExpiryMinutes: int := 30

  class KeyStore {
    /** `KEYS` (key_generation.py:7). */
    var keys: KeyMap

    ghost predicate Valid()
      reads this
    {
      forall kid :: kid in keys ==> WellFormed(keys[kid])
    }

    constructor ()
      ensures Valid() && keys == map[]
    {
      keys := map[];
    }

    /**
     * `generate_rsa_key_pair(kid, expiry_minutes)` (key_generation.py:9-38)
     * with the generated key passed in: the pair is stored under `kid`,
     * replacing any previous entry, to expire `expiryMinutes` after `now`;
     * no other kid is touched, and the stored pair is the one returned.
     */
    method GenerateRsaKeyPair(kid: Kid, key: RsaPrivateKey, now: int, expiryMinutes: int := DefaultExpiryMinutes)
      returns (privatePem: RsaPrivateKey, publicPem: RsaPublicKey)
      requires Valid() && Generated(key)
      modifies this
      ensures Valid()
      ensures keys == old(keys)[kid := KeyRecord(key, PublicOf(key), now + expiryMinutes)]
      ensures privatePem == keys[kid].privateKey && publicPem == keys[kid].publicKey
    {
      var publicKey := PublicOf(key);
      privatePem := key;
      publicPem := publicKey;
      var expiryTime := now + expiryMinutes;
      keys := keys[kid := KeyRecord(privatePem, publicPem, expiryTime)];
    }
  }

  /**
   * A call without `expiry_minutes` on an empty store: the one record is a
   * matching pair that expires thirty minutes after `now`, and the call
   * returns exactly that pair.
   */
  method GenerateWithDefaultExpiry(kid: Kid, key: RsaPrivateKey, now: int)
    returns (privatePem: RsaPrivateKey, publicPem: RsaPublicKey, stored: KeyMap)
    requires Generated(key)
    ensures stored.Keys == {kid}
    ensures WellFormed(stored[kid]) && stored[kid].expiry == now + 30
    ensures stored[kid].privateKey == privatePem == key
    ensures publicPem == PublicOf(privatePem)
  {
    var store := new KeyStore();
    privatePem, publicPem := store.GenerateRsaKeyPair(kid, key, now);
    stored := store.keys;
  }

  /**
   * Generating twice under one kid keeps a single entry: the second pair,
   * with the second expiry. Entries under other kids are untouched.
   */
  method RegenerateSameKid(kid: Kid, first: RsaPrivateKey, second: RsaPrivateKey, now: int, later: int, other: Kid, otherKey: RsaPrivateKey)
    returns (stored: KeyMap)
    requires Generated(first) && Generated(second) && Generated(otherKey)
    requires other != kid
    ensures stored.Keys == {kid, other}
    ensures stored[kid] == KeyRecord(second, PublicOf(second), later + 30)
    ensures stored[other].privateKey == otherKey && stored[other].expiry == now + 10
  {
    var store := new KeyStore();
    var _, _ := store.GenerateRsaKeyPair(other, otherKey, now, 10);
    var _, _ := store.GenerateRsaKeyPair(kid, first, now, 5);
    var _, _ := store.GenerateRsaKeyPair(kid, second, later);
    stored := store.keys;
  }
}
