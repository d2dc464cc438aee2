/**
 * The keypair derivation both generate_keypair methods share (app.py:95-117,
 * RSA_CODE.py:73-98): n = p q, phi_n = (p-1)(q-1), the public exponent (65537, else the
 * first odd value from 3 coprime to phi_n) and d = mod_inverse(e, phi_n). The primes are
 * given: the random sampling that produced them is not part of this module.
 */
module KeyGen {
  import opened Arith
  import opened Primitives
  import opened Fermat

  datatype PublicKey = PublicKey(n: nat, e: nat)
  datatype PrivateKey = PrivateKey(n: nat, d: nat)
  datatype KeyMaterial = KeyMaterial(n: nat, phiN: nat, e: nat, d: nat)

  /** The conventional public exponent tried first. */
  const DefaultExponent: nat := 65537

  /** 65537 is kept when it is below phi_n and coprime to it. */
  ghost predicate KeepsDefault(phiN: nat)
  {
    DefaultExponent < phiN && Gcd(DefaultExponent, phiN) == 1
  }

  /**
   * Where the odd scan from 3 stops: the first odd e >= 3 that is coprime to phi_n or no
   * longer below it; every odd value before it was below phi_n and shared a factor with it.
   */
  ghost predicate ScanStop(e: nat, phiN: nat)
  {
    && e >= 3 && e % 2 == 1
    && !Passed(e, phiN)
    && forall k :: 3 <= k < e && k % 2 == 1 ==> Passed(k, phiN)
  }

  /** The scan moves past k: k is below phi_n and shares a factor with it. */
  ghost predicate Passed(k: nat, phiN: nat)
  {
    k < phiN && Gcd(k, phiN) != 1
  }

  ghost predicate ExponentChosen(e: nat, phiN: nat)
  {
    if KeepsDefault(phiN) then e == DefaultExponent else ScanStop(e, phiN)
  }

  /** The key material of n = p q for distinct primes p and q. */
  ghost predicate KeyPairOf(p: nat, q: nat, km: KeyMaterial)
  {
    && Prime(p) && Prime(q) && p != q
    && km.n == p * q && km.n > 0
    && km.phiN == (p - 1) * (q - 1)
    && (km.e * km.d) % km.phiN == 1
  }

  /** pub and priv share the modulus p q and carry exponents inverse modulo (p-1)(q-1). */
  ghost predicate KeysFrom(p: nat, q: nat, pub: PublicKey, priv: PrivateKey)
  {
    p >= 1 && q >= 1 && pub.n == priv.n && KeyPairOf(p, q, KeyMaterial(pub.n, (p - 1) * (q - 1), pub.e, priv.d))
  }

  /** Exponent choice (app.py:105-111, RSA_CODE.py:83-89). */
  method ChooseExponent(phiN: nat) returns (e: nat)
    ensures ExponentChosen(e, phiN)
  {
    e := DefaultExponent;
    var keep := e < phiN;
    if keep {
      var g := ComputeGcd(e, phiN);
      keep := g == 1;
    }
    if !keep {
      e := 3;
      while e < phiN
        invariant e >= 3 && e % 2 == 1
        invariant forall k :: 3 <= k < e && k % 2 == 1 ==> Passed(k, phiN)
        decreases phiN - e
      {
        var g := ComputeGcd(e, phiN);
        if g == 1 {
          break;
        }
        e := e + 2;
      }
    }
  }

  lemma PrimeHasNoProperDivisor(p: int, k: int)
    requires Prime(p) && 1 < k < p
    ensures !Divides(k, p)
  {
  }

  lemma OddPrimeIsOdd(p: nat)
    requires Prime(p) && p != 2
    ensures (p - 1) % 2 == 0
  {
    PrimeHasNoProperDivisor(p, 2);
  }

  /** phi_n of two distinct primes is even and at least 2. */
  lemma TotientEven(p: nat, q: nat)
    requires Prime(p) && Prime(q) && p != q
    ensures (p - 1) * (q - 1) >= 2 && ((p - 1) * (q - 1)) % 2 == 0
  {
    if p != 2 {
      OddPrimeIsOdd(p);
      var h := (p - 1) / 2;
      assert (p - 1) * (q - 1) == 2 * (h * (q - 1));
      ModOfMultiple(2, h * (q - 1));
      MulLeftMonotone(q - 1, 2, p - 1);
    } else {
      OddPrimeIsOdd(q);
      var h := (q - 1) / 2;
      assert (p - 1) * (q - 1) == 2 * h;
      ModOfMultiple(2, h);
    }
  }

  lemma GcdPredecessor(m: nat)
    requires m >= 2
    ensures Gcd(m - 1, m) == 1
  {
    ModOfSmall(m - 1, m);
    assert Gcd(m - 1, m) == Gcd(m, m - 1);
    if m > 2 {
      DivModUnique(m, m - 1, 1, 1);
      assert Gcd(m, m - 1) == Gcd(m - 1, 1);
    }
  }

  /**
   * For distinct primes the chosen exponent is always coprime to phi_n: the scan can stop
   * at phi_n without a coprime value only if none exists, and phi_n - 1 always is one.
   */
  lemma ChosenExponentInvertible(p: nat, q: nat, e: nat)
    requires Prime(p) && Prime(q) && p != q
    requires ExponentChosen(e, (p - 1) * (q - 1))
    ensures Gcd(e, (p - 1) * (q - 1)) == 1
  {
    var phi := (p - 1) * (q - 1);
    TotientEven(p, q);
    if !KeepsDefault(phi) {
      if phi == 2 {
        assert 3 < e ==> Passed(3, phi);
        assert Gcd(3, 2) == Gcd(2, 1) == Gcd(1, 0) == 1;
      } else {
        assert phi >= 4 && phi % 2 == 0;
        GcdPredecessor(phi);
        assert (phi - 1) % 2 == 1;
        assert e <= phi - 1 by {
          assert !(3 <= phi - 1 < e) || Passed(phi - 1, phi);
        }
      }
    }
  }

  lemma InverseNonZero(e: nat, d: nat, phiN: nat)
    requires phiN >= 2 && (e * d) % phiN == 1 % phiN
    ensures (e * d) % phiN == 1 && d != 0 && e != 0
  {
    ModOfSmall(1, phiN);
    DivModUnique(0, phiN, 0, 0);
  }

  /** Steps 2 to 5 of key generation for the given distinct primes. */
  method DeriveKeyMaterial(p: nat, q: nat) returns (km: KeyMaterial)
    requires Prime(p) && Prime(q) && p != q
    ensures KeyPairOf(p, q, km)
    ensures ExponentChosen(km.e, km.phiN)
    ensures 0 < km.d < km.phiN
  {
    var n := p * q;
    var phiN := (p - 1) * (q - 1);
    MulAtLeast(p, q);
    TotientEven(p, q);
    var e := ChooseExponent(phiN);
    ChosenExponentInvertible(p, q, e);
    var inverse := ModInverse(e, phiN);
    var d := inverse.value;
    InverseNonZero(e, d, phiN);
    km := KeyMaterial(n, phiN, e, d);
  }

  /** Encrypting then decrypting a unit below n with a derived pair gives the unit back. */
  lemma RsaRoundTrip(p: nat, q: nat, km: KeyMaterial, m: nat)
    requires KeyPairOf(p, q, km) && m < km.n
    ensures ModExp(ModExp(m, km.e, km.n), km.d, km.n) == m
    ensures ModExp(ModExp(m, km.d, km.n), km.e, km.n) == m
  {
    var n := km.n;
    TotientEven(p, q);
    InverseNonZero(km.e, km.d, km.phiN);
    PowModBase(Pow(m, km.e), km.d, n);
    PowMul(m, km.e, km.d);
    RsaIdentity(p, q, km.e, km.d, m);
    PowModBase(Pow(m, km.d), km.e, n);
    PowMul(m, km.d, km.e);
    assert km.d * km.e == km.e * km.d;
    RsaIdentity(p, q, km.e, km.d, m);
  }
}
