/**
 * The textbook cipher of RSA_CODE.py: encrypt (c = m^e mod n per unit, refusing a unit that
 * is not below n), decrypt (m = c^d mod n per unit), the ord/chr wrappers, the key fields of
 * class RSAAlgorithm and the user registry of class SecureMessagingDemo.
 */
module Cipher {
  import opened Wrappers
  import opened Primitives
  import opened KeyGen

  /** What encrypt accepts: a string (one unit per character) or a single number. */
  datatype Message = Text(s: string) | Number(m: nat)

  /** ord of each character. */
  function Codes(s: string): seq<nat>
  {
    seq(|s|, i requires 0 <= i < |s| => s[i] as nat)
  }

  function Units(msg: Message): seq<nat>
  {
    match msg
    case Text(s) => Codes(s)
    case Number(m) => [m]
  }

  /** The values chr accepts that a Dafny char can hold: the Unicode scalar values. */
  predicate IsCodePoint(u: int)
  {
    0 <= u < 0xD800 || 0xE000 <= u < 0x11_0000
  }

  /** chr of each unit, joined; fails at the first unit that is not a code point. */
  function FromCodes(units: seq<int>): (r: Result<string>)
    ensures r.Success? <==> forall i :: 0 <= i < |units| ==> IsCodePoint(units[i])
    ensures r.Success? ==> |r.value| == |units| &&
                           forall i :: 0 <= i < |units| ==> r.value[i] as int == units[i]
    ensures r.Failure? ==> exists i :: 0 <= i < |units| && !IsCodePoint(units[i]) &&
                                       r.error == NotACharacter(units[i]) &&
                                       forall j :: 0 <= j < i ==> IsCodePoint(units[j])
  {
    if units == [] then
      Success([])
    else if !IsCodePoint(units[0]) then
      Failure(NotACharacter(units[0]))
    else
      match FromCodes(units[1..])
      case Failure(err) =>
        ghost var k :| 0 <= k < |units| - 1 && !IsCodePoint(units[1..][k]) &&
                      err == NotACharacter(units[1..][k]) &&
                      forall j :: 0 <= j < k ==> IsCodePoint(units[1..][j]);
        assert !IsCodePoint(units[k + 1]) && forall j :: 0 <= j < k + 1 ==> IsCodePoint(units[j]);
        Failure(err)
      case Success(rest) =>
        Success([units[0] as char] + rest)
  }

  /** chr undoes ord: decoding the codes of a string gives the string back. */
  lemma CodesRoundTrip(s: string)
    ensures FromCodes(Codes(s)) == Success(s)
  {
    var r := FromCodes(Codes(s));
    assert forall i :: 0 <= i < |s| ==> IsCodePoint(Codes(s)[i]);
    assert r.value == s;
  }

  /**
   * The encryption of the units under key: the first unit that is not below n fails the
   * whole message; otherwise each unit becomes unit^e mod n.
   */
  function EncryptUnits(units: seq<nat>, key: PublicKey): (r: Result<seq<int>>)
    ensures r.Failure? <==> exists i :: 0 <= i < |units| && units[i] >= key.n
    ensures r.Failure? ==> exists i :: 0 <= i < |units| && units[i] >= key.n &&
                                       r.error == MessageTooLarge(units[i]) &&
                                       forall j :: 0 <= j < i ==> units[j] < key.n
    ensures r.Success? ==> |r.value| == |units| &&
                           forall i :: 0 <= i < |units| ==>
                             (key.n > 0 && r.value[i] == ModExp(units[i], key.e, key.n) &&
                              (key.e > 0 ==> 0 <= r.value[i] < key.n))
  {
    if units == [] then
      Success([])
    else if units[0] >= key.n then
      Failure(MessageTooLarge(units[0]))
    else
      match EncryptUnits(units[1..], key)
      case Failure(err) =>
        ghost var k :| 0 <= k < |units| - 1 && units[1..][k] >= key.n &&
                      err == MessageTooLarge(units[1..][k]) &&
                      forall j :: 0 <= j < k ==> units[1..][j] < key.n;
        assert units[k + 1] >= key.n && forall j :: 0 <= j < k + 1 ==> units[j] < key.n;
        Failure(err)
      case Success(rest) =>
        Success([ModExp(units[0], key.e, key.n)] + rest)
  }

  /** The decryption of each cipher unit: c^d mod n. */
  function DecryptUnits(ciphertext: seq<int>, key: PrivateKey): seq<int>
    requires key.n > 0 || ciphertext == []
  {
    seq(|ciphertext|, i requires 0 <= i < |ciphertext| => ModExp(ciphertext[i], key.d, key.n))
  }

  /** encrypt: the unit loop, appending unit^e mod n and raising at a unit not below n. */
  method Encrypt(message: Message, key: PublicKey) returns (r: Result<seq<int>>)
    ensures r == EncryptUnits(Units(message), key)
  {
    var units := Units(message);
    var encrypted: seq<int> := [];
    var i := 0;
    while i < |units|
      invariant 0 <= i <= |units| && |encrypted| == i
      invariant forall j :: 0 <= j < i ==>
                  (units[j] < key.n && encrypted[j] == ModExp(units[j], key.e, key.n))
    {
      if units[i] >= key.n {
        r := Failure(MessageTooLarge(units[i]));
        var spec := EncryptUnits(units, key);
        assert spec.Failure?;
        ghost var k :| 0 <= k < |units| && units[k] >= key.n &&
                       spec.error == MessageTooLarge(units[k]) &&
                       forall j :: 0 <= j < k ==> units[j] < key.n;
        assert k == i;
        return;
      }
      var c := PowerMod(units[i], key.e, key.n);
      encrypted := encrypted + [c];
      i := i + 1;
    }
    r := Success(encrypted);
    assert EncryptUnits(units, key).value == encrypted;
  }

  /** decrypt: the cipher-unit loop, appending c^d mod n. */
  method Decrypt(ciphertext: seq<int>, key: PrivateKey) returns (plain: seq<int>)
    requires key.n > 0 || ciphertext == []
    ensures plain == DecryptUnits(ciphertext, key)
  {
    plain := [];
    var i := 0;
    while i < |ciphertext|
      invariant 0 <= i <= |ciphertext| && |plain| == i
      invariant forall j :: 0 <= j < i ==> plain[j] == ModExp(ciphertext[j], key.d, key.n)
    {
      var m := PowerMod(ciphertext[i], key.d, key.n);
      plain := plain + [m];
      i := i + 1;
    }
  }

  /** encrypt_message passes its message straight to encrypt. */
  method EncryptMessage(message: Message, key: PublicKey) returns (r: Result<seq<int>>)
    ensures r == EncryptUnits(Units(message), key)
  {
    r := Encrypt(message, key);
  }

  /** decrypt_message: decrypt, then chr of each unit joined into a string. */
  method DecryptMessage(ciphertext: seq<int>, key: PrivateKey) returns (r: Result<string>)
    requires key.n > 0 || ciphertext == []
    ensures r == FromCodes(DecryptUnits(ciphertext, key))
  {
    var units := Decrypt(ciphertext, key);
    r := FromCodes(units);
  }

  /** With keys from one derivation, decrypting the encryption of units below n returns them. */
  lemma UnitsRoundTrip(p: nat, q: nat, pub: PublicKey, priv: PrivateKey, units: seq<nat>)
    requires KeysFrom(p, q, pub, priv)
    requires forall i :: 0 <= i < |units| ==> units[i] < pub.n
    ensures EncryptUnits(units, pub).Success?
    ensures DecryptUnits(EncryptUnits(units, pub).value, priv) == units
  {
    var ct := EncryptUnits(units, pub).value;
    ModulusPositive(p, q, UserKeys(pub, priv));
    var plain := DecryptUnits(ct, priv);
    forall i | 0 <= i < |units|
      ensures plain[i] == units[i]
    {
      assert ct[i] == ModExp(units[i], pub.e, pub.n);
      UnitRoundTrip(p, q, pub, priv, units[i]);
    }
    assert plain == units;
  }

  lemma UnitRoundTrip(p: nat, q: nat, pub: PublicKey, priv: PrivateKey, m: nat)
    requires KeysFrom(p, q, pub, priv) && m < pub.n
    ensures ModExp(ModExp(m, pub.e, pub.n), priv.d, priv.n) == m
  {
    var km := KeyMaterial(pub.n, (p - 1) * (q - 1), pub.e, priv.d);
    assert KeyPairOf(p, q, km);
    RsaRoundTrip(p, q, km, m);
    assert km.n == priv.n && km.d == priv.d;
  }

  /** decrypt_message(encrypt_message(s)) == s when every character code is below n. */
  lemma MessageRoundTrip(p: nat, q: nat, pub: PublicKey, priv: PrivateKey, s: string)
    requires KeysFrom(p, q, pub, priv)
    requires forall i :: 0 <= i < |s| ==> s[i] as int < pub.n
    ensures EncryptUnits(Codes(s), pub).Success?
    ensures FromCodes(DecryptUnits(EncryptUnits(Codes(s), pub).value, priv)) == Success(s)
  {
    UnitsRoundTrip(p, q, pub, priv, Codes(s));
    CodesRoundTrip(s);
  }

  /** The key fields of class RSAAlgorithm, set by generate_keypair. */
  class RsaAlgorithm {
    var publicKey: Option<PublicKey>
    var privateKey: Option<PrivateKey>

    constructor ()
      ensures publicKey == None && privateKey == None
    {
      publicKey := None;
      privateKey := None;
    }

    /** Key generation for the given distinct primes; stores and returns (n, e) and (n, d). */
    method GenerateKeypair(p: nat, q: nat) returns (pub: PublicKey, priv: PrivateKey)
      requires Prime(p) && Prime(q) && p != q
      modifies this
      ensures publicKey == Some(pub) && privateKey == Some(priv)
      ensures pub.n == p * q && priv.n == p * q
      ensures KeysFrom(p, q, pub, priv)
      ensures ExponentChosen(pub.e, (p - 1) * (q - 1)) && 0 < priv.d < (p - 1) * (q - 1)
    {
      var km := DeriveKeyMaterial(p, q);
      pub, priv := PublicKey(km.n, km.e), PrivateKey(km.n, km.d);
      publicKey := Some(pub);
      privateKey := Some(priv);
    }
  }

  datatype UserKeys = UserKeys(publicKey: PublicKey, privateKey: PrivateKey)

  /** The registry of class SecureMessagingDemo: the key pair of each user. */
  class SecureMessaging {
    var users: map<string, UserKeys>
    /** The primes each user's keys were derived from. */
    ghost var factors: map<string, (nat, nat)>

    ghost predicate Valid()
      reads this
    {
      && users.Keys == factors.Keys
      && forall u :: u in users ==> KeysFrom(factors[u].0, factors[u].1, users[u].publicKey, users[u].privateKey)
    }

    constructor ()
      ensures users == map[] && Valid()
    {
      users := map[];
      factors := map[];
    }

    /** create_user: a fresh key pair for username, replacing any earlier one. */
    method CreateUser(username: string, p: nat, q: nat) returns (pub: PublicKey, priv: PrivateKey)
      requires Valid()
      requires Prime(p) && Prime(q) && p != q
      modifies this
      ensures Valid()
      ensures users == old(users)[username := UserKeys(pub, priv)]
      ensures KeysFrom(p, q, pub, priv) && pub.n == p * q
      ensures ExponentChosen(pub.e, (p - 1) * (q - 1)) && 0 < priv.d < (p - 1) * (q - 1)
    {
      var rsa := new RsaAlgorithm();
      pub, priv := rsa.GenerateKeypair(p, q);
      users := users[username := UserKeys(pub, priv)];
      factors := factors[username := (p, q)];
    }

    /** send_secure_message: None unless both users exist, else the receiver-key encryption. */
    method SendSecureMessage(sender: string, receiver: string, message: Message)
        returns (r: Option<Result<seq<int>>>)
      requires Valid()
      ensures r.None? <==> sender !in users || receiver !in users
      ensures r.Some? ==> r.value == EncryptUnits(Units(message), users[receiver].publicKey)
    {
      if sender !in users || receiver !in users {
        return None;
      }
      var encrypted := EncryptMessage(message, users[receiver].publicKey);
      r := Some(encrypted);
    }

    /** receive_secure_message: None for an unknown receiver, else the receiver-key decryption. */
    method ReceiveSecureMessage(receiver: string, encrypted: seq<int>) returns (r: Option<Result<string>>)
      requires Valid()
      ensures r.None? <==> receiver !in users
      ensures r.Some? ==> users[receiver].privateKey.n > 0 &&
                          r.value == FromCodes(DecryptUnits(encrypted, users[receiver].privateKey))
    {
      if receiver !in users {
        return None;
      }
      var key := users[receiver].privateKey;
      ModulusPositive(factors[receiver].0, factors[receiver].1, users[receiver]);
      var decrypted := DecryptMessage(encrypted, key);
      r := Some(decrypted);
    }

    /** What a registered receiver decrypts is what was sent to them. */
    lemma ExchangeRoundTrip(receiver: string, s: string)
      requires Valid() && receiver in users
      requires forall i :: 0 <= i < |s| ==> s[i] as int < users[receiver].publicKey.n
      ensures users[receiver].privateKey.n > 0
      ensures EncryptUnits(Codes(s), users[receiver].publicKey).Success?
      ensures FromCodes(DecryptUnits(EncryptUnits(Codes(s), users[receiver].publicKey).value,
                                     users[receiver].privateKey)) == Success(s)
    {
      var keys := users[receiver];
      ModulusPositive(factors[receiver].0, factors[receiver].1, keys);
      MessageRoundTrip(factors[receiver].0, factors[receiver].1, keys.publicKey, keys.privateKey, s);
    }
  }

  lemma ModulusPositive(p: nat, q: nat, keys: UserKeys)
    requires KeysFrom(p, q, keys.publicKey, keys.privateKey)
    ensures keys.privateKey.n > 0 && keys.privateKey.n == keys.publicKey.n
  {
  }
}
