/**
 * Hash-then-sign of app.py (class RSADigitalSignature): the registry `users` that
 * generate_keypair fills, sign_message (s = h^d mod n after reducing the hash h modulo n)
 * and verify_signature (s^e mod n compared with the reduced hash). SHA-256 is a function
 * from strings to naturals fixed when the registry is created.
 */
module Signature {
  import opened Wrappers
  import opened Arith
  import opened Primitives
  import opened KeyGen

  datatype KeyDetails = KeyDetails(p: nat, q: nat, phiN: nat)

  /** One entry of `users`: the public key, the private key and the key details. */
  datatype UserRecord = UserRecord(publicKey: PublicKey, privateKey: PrivateKey, keyDetails: KeyDetails)

  /** What generate_keypair returns: the keys and p, q, phi_n, e and d. */
  datatype KeygenInfo = KeygenInfo(
    username: string, publicKey: PublicKey, privateKey: PrivateKey,
    p: nat, q: nat, phiN: nat, e: nat, d: nat)

  /** What sign_message returns (the hash info reduced to the digest as an integer). */
  datatype SignatureInfo = SignatureInfo(
    username: string, message: string, hashInt: nat, signature: int,
    privateKey: PrivateKey, hashBeforeSigning: nat)

  /** What verify_signature returns. */
  datatype VerificationInfo = VerificationInfo(
    username: string, message: string, signature: int, isValid: bool,
    computedHash: nat, decryptedHash: int, publicKey: PublicKey)

  /** An entry generate_keypair can store: keys derived from the distinct primes it records. */
  ghost predicate RecordValid(rec: UserRecord)
  {
    && KeysFrom(rec.keyDetails.p, rec.keyDetails.q, rec.publicKey, rec.privateKey)
    && rec.keyDetails.phiN == (rec.keyDetails.p - 1) * (rec.keyDetails.q - 1)
  }

  lemma RecordModulus(rec: UserRecord)
    requires RecordValid(rec)
    ensures rec.publicKey.n > 0 && rec.privateKey.n == rec.publicKey.n
  {
  }

  /** The digest h reduced only when it is not below n: the same as h mod n. */
  function Reduce(h: nat, n: nat): (r: nat)
    requires n > 0
    ensures r == h % n && r < n
  {
    if h >= n then h % n else ModOfSmall(h, n); h
  }

  /** RSASP1 on the reduced digest: (h mod n)^d mod n. */
  function SignDigest(key: PrivateKey, h: nat): int
    requires key.n > 0
  {
    ModExp(h % key.n, key.d, key.n)
  }

  /** RSAVP1 and the comparison: s^e mod n equals the reduced digest. */
  predicate DigestMatches(key: PublicKey, h: nat, s: int)
    requires key.n > 0
  {
    ModExp(s, key.e, key.n) == h % key.n
  }

  /** Both exponents of a valid record undo each other on every residue below n. */
  lemma RecordRoundTrip(rec: UserRecord, m: nat)
    requires RecordValid(rec) && m < rec.publicKey.n
    ensures rec.publicKey.n > 0 && rec.privateKey.n == rec.publicKey.n
    ensures ModExp(ModExp(m, rec.publicKey.e, rec.publicKey.n), rec.privateKey.d, rec.publicKey.n) == m
    ensures ModExp(ModExp(m, rec.privateKey.d, rec.publicKey.n), rec.publicKey.e, rec.publicKey.n) == m
  {
    var p, q := rec.keyDetails.p, rec.keyDetails.q;
    var km := KeyMaterial(rec.publicKey.n, (p - 1) * (q - 1), rec.publicKey.e, rec.privateKey.d);
    assert KeyPairOf(p, q, km);
    RsaRoundTrip(p, q, km, m);
  }

  /** power_mod reduces its base first, so congruent bases give the same power. */
  lemma ModExpOfResidue(s: int, k: nat, n: int)
    requires n > 0
    ensures ModExp(s % n, k, n) == ModExp(s, k, n)
  {
    PowModBase(s, k, n);
  }

  /** A signature made with a valid record's private key verifies with its public key. */
  lemma SignVerifyRoundTrip(rec: UserRecord, h: nat)
    requires RecordValid(rec)
    ensures rec.publicKey.n > 0
    ensures DigestMatches(rec.publicKey, h, SignDigest(rec.privateKey, h))
  {
    RecordModulus(rec);
    RecordRoundTrip(rec, h % rec.publicKey.n);
  }

  /**
   * Verification accepts exactly the integers congruent to the signature modulo n: the
   * signature is the only residue that passes, so any other residue is refused.
   */
  lemma VerifyAcceptsExactly(rec: UserRecord, h: nat, s: int)
    requires RecordValid(rec)
    ensures rec.publicKey.n > 0
    ensures DigestMatches(rec.publicKey, h, s) <==> s % rec.publicKey.n == SignDigest(rec.privateKey, h)
  {
    RecordModulus(rec);
    var n, e, d := rec.publicKey.n, rec.publicKey.e, rec.privateKey.d;
    var r := s % n;
    ModExpOfResidue(s, e, n);
    RecordRoundTrip(rec, r);
    RecordRoundTrip(rec, h % n);
    if DigestMatches(rec.publicKey, h, s) {
      assert ModExp(r, e, n) == h % n;
      assert ModExp(ModExp(r, e, n), d, n) == r;
    }
  }

  /** The record generate_keypair stores for derived key material is valid. */
  lemma DerivedRecordValid(p: nat, q: nat, km: KeyMaterial)
    requires KeyPairOf(p, q, km)
    ensures RecordValid(UserRecord(PublicKey(km.n, km.e), PrivateKey(km.n, km.d), KeyDetails(p, q, km.phiN)))
  {
  }

  /** Every stored record is valid. */
  ghost predicate AllValid(users: map<string, UserRecord>)
  {
    forall u :: u in users ==> RecordValid(users[u])
  }

  /** Storing a valid record, new or replacing, keeps the registry valid. */
  lemma StoreKeepsValid(users: map<string, UserRecord>, username: string, rec: UserRecord)
    requires AllValid(users) && RecordValid(rec)
    ensures AllValid(users[username := rec])
  {
  }

  /** The registry of app.py: one key record per username and the message hash. */
  class SignatureSystem {
    /** SHA-256 of the UTF-8 bytes, read as a big-endian integer. */
    const hash: string -> nat
    var users: map<string, UserRecord>

    ghost predicate Valid()
      reads this
    {
      AllValid(users)
    }

    constructor (hash: string -> nat)
      ensures this.hash == hash && users == map[] && Valid()
    {
      this.hash := hash;
      users := map[];
    }

    /**
     * Key generation for the given distinct primes: derives n, phi_n, e and d, stores the
     * record under username (replacing any earlier one) and returns the same values.
     */
    method GenerateKeypair(username: string, p: nat, q: nat) returns (info: KeygenInfo)
      requires Valid()
      requires Prime(p) && Prime(q) && p != q
      modifies this
      ensures Valid()
      ensures users == old(users)[username := UserRecord(info.publicKey, info.privateKey, KeyDetails(p, q, info.phiN))]
      ensures info.username == username && info.p == p && info.q == q
      ensures info.publicKey == PublicKey(p * q, info.e) && info.privateKey == PrivateKey(p * q, info.d)
      ensures info.phiN == (p - 1) * (q - 1) && ExponentChosen(info.e, info.phiN)
      ensures 0 < info.d < info.phiN && (info.e * info.d) % info.phiN == 1
    {
      var km := DeriveKeyMaterial(p, q);
      var pub, priv := PublicKey(km.n, km.e), PrivateKey(km.n, km.d);
      var rec := UserRecord(pub, priv, KeyDetails(p, q, km.phiN));
      DerivedRecordValid(p, q, km);
      StoreKeepsValid(users, username, rec);
      users := users[username := rec];
      info := KeygenInfo(username, pub, priv, p, q, km.phiN, km.e, km.d);
    }

    /**
     * sign_message: fails for an unknown user; otherwise reduces the message hash modulo n
     * and raises it to d modulo n. The registry is not changed.
     */
    method Sign(username: string, message: string) returns (r: Result<SignatureInfo>)
      requires Valid()
      ensures r.Failure? <==> username !in users
      ensures r.Failure? ==> r.error == UserNotFound(username)
      ensures r.Success? ==> var key := users[username].privateKey;
        && key.n > 0
        && r.value.username == username && r.value.message == message
        && r.value.hashInt == hash(message) && r.value.privateKey == key
        && r.value.hashBeforeSigning == hash(message) % key.n
        && r.value.signature == SignDigest(key, hash(message))
    {
      if username !in users {
        return Failure(UserNotFound(username));
      }
      var hashInt := hash(message);
      var key := users[username].privateKey;
      RecordModulus(users[username]);
      var h := Reduce(hashInt, key.n);
      var signature := PowerMod(h, key.d, key.n);
      r := Success(SignatureInfo(username, message, hashInt, signature, key, h));
    }

    /**
     * verify_signature: fails for an unknown user; otherwise valid exactly when s^e mod n
     * equals the message hash reduced modulo n. The registry is not changed.
     */
    method Verify(username: string, message: string, signature: int) returns (r: Result<VerificationInfo>)
      requires Valid()
      ensures r.Failure? <==> username !in users
      ensures r.Failure? ==> r.error == UserNotFound(username)
      ensures r.Success? ==> var key := users[username].publicKey;
        && key.n > 0
        && r.value.username == username && r.value.message == message
        && r.value.signature == signature && r.value.publicKey == key
        && r.value.computedHash == hash(message) % key.n
        && r.value.decryptedHash == ModExp(signature, key.e, key.n)
        && (r.value.isValid <==> DigestMatches(key, hash(message), signature))
    {
      if username !in users {
        return Failure(UserNotFound(username));
      }
      var key := users[username].publicKey;
      RecordModulus(users[username]);
      var received := Reduce(hash(message), key.n);
      var decrypted := PowerMod(signature, key.e, key.n);
      var isValid := decrypted == received;
      r := Success(VerificationInfo(username, message, signature, isValid, received, decrypted, key));
    }

    /** Verifying what Sign produced for a registered user reports a valid signature. */
    lemma SignThenVerify(username: string, message: string)
      requires Valid() && username in users
      ensures users[username].publicKey.n > 0
      ensures DigestMatches(users[username].publicKey, hash(message),
                            SignDigest(users[username].privateKey, hash(message)))
    {
      SignVerifyRoundTrip(users[username], hash(message));
    }
  }
}
