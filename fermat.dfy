/**
 * Why textbook RSA decrypts what it encrypts: Euclid's lemma (from the Bezout coefficients
 * that ExtendedGcd returns), the binomial theorem, Fermat's little theorem and the Chinese
 * remainder argument for two distinct primes.
 */
module Fermat {
  import opened Arith
  import opened Primitives

  // ---------------------------------------------------------------------------
  // Euclid's lemma

  /** A prime that divides a product and not its first factor divides the second. */
  lemma EuclidLemma(p: int, a: nat, b: int)
    requires Prime(p) && Divides(p, a * b) && !Divides(p, a)
    ensures Divides(p, b)
  {
    var g := Gcd(a, p);
    GcdDividesBoth(a, p);
    PrimeDivisors(p, g);
    var bz := ExtendedGcd(a, p);
    assert a * bz.x + p * bz.y == 1;
    assert b == (a * b) * bz.x + p * (b * bz.y) by {
      assert b == b * (a * bz.x + p * bz.y);
    }
    DividesSelf(p);
    DividesLinear(p, a * b, p, bz.x, b * bz.y);
  }

  /** The only positive divisors of a prime are 1 and itself. */
  lemma PrimeDivisors(p: int, g: int)
    requires Prime(p) && Divides(g, p)
    ensures g == 1 || g == p
  {
    DivisorAtMost(g, p);
  }

  lemma PrimeNotDividingSmaller(p: int, k: int)
    requires Prime(p) && 0 < k < p
    ensures !Divides(p, k)
  {
    ModOfSmall(k, p);
  }

  // ---------------------------------------------------------------------------
  // Binomial coefficients

  function Binom(n: nat, k: nat): nat
  {
    if k == 0 then 1 else if n == 0 then 0 else Binom(n - 1, k - 1) + Binom(n - 1, k)
  }

  lemma {:induction false} BinomAbove(n: nat, k: nat)
    requires k > n
    ensures Binom(n, k) == 0
  {
    if n > 0 {
      BinomAbove(n - 1, k - 1);
      BinomAbove(n - 1, k);
    }
  }

  lemma {:induction false} BinomDiagonal(n: nat)
    ensures Binom(n, n) == 1
  {
    if n > 0 {
      BinomDiagonal(n - 1);
      BinomAbove(n - 1, n);
    }
  }

  /** The absorption identity k C(n, k) = n C(n-1, k-1). */
  lemma {:induction false} BinomAbsorb(n: nat, k: nat)
    requires n >= 1 && k >= 1
    ensures k * Binom(n, k) == n * Binom(n - 1, k - 1)
  {
    if n == 1 {
      if k > 1 {
        BinomAbove(0, k - 1);
        BinomAbove(1, k);
      }
    } else if k == 1 {
      BinomAbsorb(n - 1, 1);
    } else {
      var a, b, c := Binom(n - 2, k - 2), Binom(n - 2, k - 1), Binom(n - 1, k);
      assert Binom(n - 1, k - 1) == a + b;
      assert Binom(n, k) == (a + b) + c;
      BinomAbsorb(n - 1, k - 1);
      BinomAbsorb(n - 1, k);
      AbsorbArith(n, k, a, b, c);
    }
  }

  lemma AbsorbArith(n: int, k: int, a: int, b: int, c: int)
    requires (k - 1) * (a + b) == (n - 1) * a && k * c == (n - 1) * b
    ensures k * ((a + b) + c) == n * (a + b)
  {
    assert k * ((a + b) + c) == (k - 1) * (a + b) + (a + b) + k * c;
    assert (n - 1) * a + (a + b) + (n - 1) * b == n * (a + b);
  }

  /** A prime p divides every C(p, k) with 0 < k < p. */
  lemma BinomPrimeDivides(p: nat, k: nat)
    requires Prime(p) && 0 < k < p
    ensures Divides(p, Binom(p, k))
  {
    BinomAbsorb(p, k);
    DividesMultiple(p, Binom(p - 1, k - 1));
    PrimeNotDividingSmaller(p, k);
    EuclidLemma(p, k, Binom(p, k));
  }

  // ---------------------------------------------------------------------------
  // The binomial theorem for (x + 1)^n

  /** The partial sum C(n, 0) x^0 + ... + C(n, k) x^k. */
  function BinomSum(x: nat, n: nat, k: nat): int
  {
    if k == 0 then 1 else BinomSum(x, n, k - 1) + Binom(n, k) * Pow(x, k)
  }

  lemma {:induction false} BinomSumPascal(x: nat, n: nat, k: nat)
    requires k >= 1
    ensures BinomSum(x, n + 1, k) == BinomSum(x, n, k) + x * BinomSum(x, n, k - 1)
  {
    if k == 1 {
      assert Pow(x, 1) == x;
    } else {
      BinomSumPascal(x, n, k - 1);
      var s1, s2 := BinomSum(x, n, k - 1), BinomSum(x, n, k - 2);
      var c1, c2 := Binom(n, k - 1), Binom(n, k);
      var pk := Pow(x, k - 1);
      assert Pow(x, k) == x * pk;
      assert BinomSum(x, n + 1, k) == (s1 + x * s2) + (c1 + c2) * (x * pk);
      assert BinomSum(x, n, k) == s1 + c2 * (x * pk);
      assert BinomSum(x, n, k - 1) == s2 + c1 * pk;
      PascalArith(x, s1, s2, c1, c2, pk);
    }
  }

  lemma PascalArith(x: int, s1: int, s2: int, c1: int, c2: int, pk: int)
    ensures (s1 + x * s2) + (c1 + c2) * (x * pk) == (s1 + c2 * (x * pk)) + x * (s2 + c1 * pk)
  {
    assert (c1 + c2) * (x * pk) == c1 * (x * pk) + c2 * (x * pk);
    assert x * (s2 + c1 * pk) == x * s2 + x * (c1 * pk);
    assert x * (c1 * pk) == c1 * (x * pk);
  }

  lemma {:induction false} BinomialTheorem(x: nat, n: nat)
    ensures Pow(x + 1, n) == BinomSum(x, n, n)
  {
    if n > 0 {
      BinomialTheorem(x, n - 1);
      BinomSumPascal(x, n - 1, n);
      BinomAbove(n - 1, n);
      assert BinomSum(x, n - 1, n) == BinomSum(x, n - 1, n - 1);
    }
  }

  /** Below the top term, the sum for a prime exponent is 1 plus a multiple of p. */
  lemma {:induction false} BinomSumModPrime(x: nat, p: nat, k: nat)
    requires Prime(p) && k < p
    ensures Divides(p, BinomSum(x, p, k) - 1)
  {
    if k == 0 {
      DividesSelf(p);
    } else {
      BinomSumModPrime(x, p, k - 1);
      BinomPrimeDivides(p, k);
      DividesSelf(p);
      DividesLinear(p, BinomSum(x, p, k - 1) - 1, Binom(p, k), 1, Pow(x, k));
    }
  }

  /** (x + 1)^p and x^p + 1 agree modulo a prime p. */
  lemma FreshmansDream(x: nat, p: nat)
    requires Prime(p)
    ensures Pow(x + 1, p) % p == (Pow(x, p) + 1) % p
  {
    BinomialTheorem(x, p);
    BinomSumModPrime(x, p, p - 1);
    BinomDiagonal(p);
    var t := (BinomSum(x, p, p - 1) - 1) / p;
    assert BinomSum(x, p, p - 1) - 1 == p * t;
    assert Pow(x + 1, p) == (Pow(x, p) + 1) + p * t;
    ModAddMultiple(Pow(x, p) + 1, p, t);
  }

  // ---------------------------------------------------------------------------
  // Fermat's little theorem

  lemma {:induction false} FermatLittle(p: nat, x: nat)
    requires Prime(p)
    ensures Pow(x, p) % p == x % p
  {
    if x == 0 {
      assert Pow(0, p) == 0 * Pow(0, p - 1);
    } else {
      FermatLittle(p, x - 1);
      FreshmansDream(x - 1, p);
      ModAdd(Pow(x - 1, p), 1, p);
      ModAdd(x - 1, 1, p);
    }
  }

  /** x^(1 + k(p-1)) and x agree modulo p. */
  lemma {:induction false} FermatIterated(p: nat, x: nat, k: nat)
    requires Prime(p)
    ensures Pow(x, 1 + k * (p - 1)) % p == x % p
  {
    if k == 0 {
      assert Pow(x, 1) == x;
    } else {
      var j := k - 1;
      var e2: nat := j * (p - 1);
      var e1: nat := 1 + k * (p - 1);
      assert e1 == p + e2;
      FermatIterated(p, x, j);
      assert 1 + e2 == 1 + j * (p - 1);
      var a, xp := Pow(x, e2), Pow(x, p);
      PowAdd(x, p, e2);
      assert Pow(x, e1) == xp * a;
      assert Pow(x, 1 + e2) == x * a;
      FermatLittle(p, x);
      ModMulCongruent(a, xp, x, p);
      assert Pow(x, e1) % p == (a * x) % p;
    }
  }

  // ---------------------------------------------------------------------------
  // Chinese remainder argument for n = p q

  /** Distinct primes do not divide one another. */
  lemma DistinctPrimesCoprime(p: int, q: int)
    requires Prime(p) && Prime(q) && p != q
    ensures !Divides(q, p)
  {
    if q < p {
      assert 1 < q < p;
    } else {
      ModOfSmall(p, q);
    }
  }

  lemma ResidueDifference(a: int, b: int, m: int) returns (t: int)
    requires m > 0 && a % m == b % m
    ensures a - b == m * t
  {
    t := a / m - b / m;
  }

  /** Two residues below p q that agree modulo p and modulo q are equal. */
  lemma CrtUnique(p: int, q: int, a: int, b: int)
    requires Prime(p) && Prime(q) && p != q
    requires 0 <= a < p * q && 0 <= b < p * q
    requires a % p == b % p && a % q == b % q
    ensures a == b
  {
    if a != b {
      var hi, lo := if a > b then a else b, if a > b then b else a;
      var t := ResidueDifference(hi, lo, p);
      assert t > 0;
      var u := ResidueDifference(hi, lo, q);
      DividesMultiple(q, u);
      assert Divides(q, p * t);
      DistinctPrimesCoprime(p, q);
      EuclidLemma(q, p, t);
      DivisorAtMost(q, t);
      MulLeftMonotone(p, q, t);
      assert false;
    }
  }

  /** Reducing modulo p q first does not change the residue modulo p. */
  lemma ModOfProduct(x: int, p: int, q: int)
    requires p > 0 && q > 0
    ensures (x % (p * q)) % p == x % p
  {
    var n := p * q;
    assert x == (x % n) + p * (q * (x / n));
    ModAddMultiple(x % n, p, q * (x / n));
  }

  /** A product that is 1 modulo u v is 1 plus a non-negative multiple of u v. */
  lemma ExponentSplit(ed: nat, u: nat, v: nat) returns (t: nat)
    requires u > 0 && v > 0 && ed % (u * v) == 1
    ensures ed == 1 + t * (u * v)
  {
    MulAtLeast(u, v);
    var phi := u * v;
    t := ed / phi;
  }

  /** The RSA identity: m^(e d) is m modulo p q when e d = 1 modulo (p-1)(q-1). */
  lemma RsaIdentity(p: nat, q: nat, e: nat, d: nat, m: nat)
    requires Prime(p) && Prime(q) && p != q
    requires (e * d) % ((p - 1) * (q - 1)) == 1
    requires m < p * q
    ensures Pow(m, e * d) % (p * q) == m
  {
    MulAtLeast(p, q);
    var ed := e * d;
    var t := ExponentSplit(ed, p - 1, q - 1);
    var kp: nat, kq: nat := t * (q - 1), t * (p - 1);
    assert ed == 1 + kp * (p - 1) && ed == 1 + kq * (q - 1) by {
      assert t * ((p - 1) * (q - 1)) == (t * (q - 1)) * (p - 1) == (t * (p - 1)) * (q - 1);
    }
    FermatIterated(p, m, kp);
    FermatIterated(q, m, kq);
    var x := Pow(m, ed);
    var r := x % (p * q);
    ModOfProduct(x, p, q);
    ModOfProduct(x, q, p);
    assert q * p == p * q;
    CrtUnique(p, q, r, m);
  }
}
