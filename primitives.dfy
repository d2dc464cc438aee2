/**
 * The number-theory primitives that app.py (class RSADigitalSignature) and RSA_CODE.py
 * (class RSAAlgorithm) both define, line for line: trial-division primality, Euclid's gcd,
 * the recursive extended Euclid, the modular inverse and square-and-multiply
 * exponentiation. Also the prime sampler of app.py with its random draws given as a
 * parameter; RSA_CODE.py's sampler draws from a different range, modelled beside it.
 */
module Primitives {
  import opened Wrappers
  import opened Arith

  /** d is a positive divisor of n. */
  predicate Divides(d: int, n: int)
  {
    d > 0 && n % d == 0
  }

  /** n is prime: at least 2 and without a divisor strictly between 1 and n. */
  ghost predicate Prime(n: int)
  {
    n >= 2 && forall k :: 1 < k < n ==> !Divides(k, n)
  }

  // ---------------------------------------------------------------------------
  // Divisibility facts

  lemma DividesSelf(d: int)
    requires d > 0
    ensures Divides(d, d) && Divides(d, 0)
  {
    DivModUnique(d, d, 1, 0);
    DivModUnique(0, d, 0, 0);
  }

  /** A common divisor of u and v divides every integer combination of them. */
  lemma DividesLinear(d: int, u: int, v: int, s: int, t: int)
    requires Divides(d, u) && Divides(d, v)
    ensures Divides(d, u * s + v * t)
  {
    var ku, kv := u / d, v / d;
    assert u == d * ku;
    assert v == d * kv;
    assert u * s + v * t == d * (ku * s + kv * t);
    ModOfMultiple(d, ku * s + kv * t);
  }

  lemma DividesMultiple(d: int, k: int)
    requires d > 0
    ensures Divides(d, d * k)
  {
    ModOfMultiple(d, k);
  }

  /** A positive divisor of a positive number is at most that number. */
  lemma DivisorAtMost(d: int, n: int)
    requires Divides(d, n) && n > 0
    ensures d <= n
  {
    if d > n {
      ModOfSmall(n, d);
    }
  }

  lemma DividesAntisymmetric(x: int, y: int)
    requires Divides(x, y) && Divides(y, x)
    ensures x == y
  {
    DivisorAtMost(x, y);
    DivisorAtMost(y, x);
  }

  // ---------------------------------------------------------------------------
  // is_prime (app.py:17-30, RSA_CODE.py:10-23)

  lemma MulLeftMonotone(a: int, b: int, c: int)
    requires a >= 0 && b <= c
    ensures a * b <= a * c
  {
  }

  lemma SquareLess(m: int, i: int)
    requires m >= 0 && i >= 0 && m * m < i * i
    ensures m < i
  {
  }

  /** The cofactor of a proper divisor k of n is at least 2. */
  lemma Cofactor(n: int, k: int) returns (j: int)
    requires 1 < k < n && Divides(k, n)
    ensures j >= 2 && n == k * j && Divides(j, n)
  {
    j := n / k;
    assert n == k * j;
    if j <= 1 {
      MulLeftMonotone(k, j, 1);
    }
    DividesMultiple(j, k);
  }

  /** A composite n has a divisor m >= 2 with m * m <= n. */
  lemma SmallDivisor(n: int, k: int) returns (m: int)
    requires 1 < k < n && Divides(k, n)
    ensures m >= 2 && m * m <= n && Divides(m, n)
  {
    var j := Cofactor(n, k);
    if k <= j {
      m := k;
      MulLeftMonotone(k, k, j);
    } else {
      m := j;
      MulLeftMonotone(j, j, k);
    }
  }

  lemma EvenDivisor(n: int, m: int)
    requires Divides(m, n) && m % 2 == 0
    ensures Divides(2, n)
  {
    assert m == 2 * (m / 2);
    var t := n / m;
    assert n == m * t;
    assert n == 2 * ((m / 2) * t);
    DividesMultiple(2, (m / 2) * t);
  }

  /** No odd number i with 3 <= i and i*i <= n divides the odd n, so n is prime. */
  lemma OddTrialDivisionSuffices(n: int, i: int)
    requires n >= 3 && !Divides(2, n)
    requires i >= 3 && i * i > n
    requires forall j :: 3 <= j < i && j % 2 == 1 ==> !Divides(j, n)
    ensures Prime(n)
  {
    forall k | 1 < k < n
      ensures !Divides(k, n)
    {
      if Divides(k, n) {
        var m := SmallDivisor(n, k);
        if m % 2 == 0 {
          EvenDivisor(n, m);
        } else {
          SquareLess(m, i);
        }
      }
    }
  }

  /** A trial divisor i >= 3 with i*i <= n is a proper candidate: below n. */
  lemma CandidateBelow(i: int, n: int)
    requires i >= 3 && i * i <= n
    ensures i < n
  {
    MulLeftMonotone(i, 3, i);
  }

  /** Trial division by 2 and then by the odd numbers up to the integer square root. */
  method IsPrime(n: int) returns (b: bool)
    ensures b <==> Prime(n)
  {
    if n < 2 {
      return false;
    }
    if n == 2 {
      return true;
    }
    if n % 2 == 0 {
      assert Divides(2, n);
      return false;
    }
    var i := 3;
    while i * i <= n
      invariant i >= 3 && i % 2 == 1
      invariant forall j :: 3 <= j < i && j % 2 == 1 ==> !Divides(j, n)
      decreases n - i
    {
      CandidateBelow(i, n);
      if n % i == 0 {
        assert Divides(i, n);
        return false;
      }
      i := i + 2;
    }
    OddTrialDivisionSuffices(n, i);
    return true;
  }

  // ---------------------------------------------------------------------------
  // generate_prime (app.py:32-38, RSA_CODE.py:25-31)

  /** The closed range random.randint draws from in app.py: [2^(bits-1), 2^bits - 1]. */
  function CandidateRange(bits: nat): (r: (int, int))
    requires bits >= 1
    ensures r.0 == Pow(2, bits - 1) && r.1 == 2 * r.0 - 1
  {
    (Pow(2, bits - 1), Pow(2, bits) - 1)
  }

  /** The range RSA_CODE.py draws from, written with `*` where `**` was meant: [2(bits-1), 2 bits - 1]. */
  function CandidateRangeAsWritten(bits: nat): (int, int)
  {
    (2 * (bits - 1), 2 * bits - 1)
  }

  /**
   * The sampling loop `while True: num = randint(lo, hi); if is_prime(num): return num`, with
   * the successive values randint would produce given as `draws`: the first prime draw is
   * returned; None stands for a loop that has not returned after all the given draws.
   */
  method GeneratePrimeInRange(lo: int, hi: int, draws: seq<int>) returns (r: Option<int>)
    requires forall k :: 0 <= k < |draws| ==> lo <= draws[k] <= hi
    ensures r.Some? ==> Prime(r.value) && lo <= r.value <= hi
    ensures r.Some? ==> exists k :: 0 <= k < |draws| && draws[k] == r.value &&
                                   forall j :: 0 <= j < k ==> !Prime(draws[j])
    ensures r.None? ==> forall k :: 0 <= k < |draws| ==> !Prime(draws[k])
  {
    var i := 0;
    while i < |draws|
      invariant 0 <= i <= |draws|
      invariant forall j :: 0 <= j < i ==> !Prime(draws[j])
    {
      var isPrime := IsPrime(draws[i]);
      if isPrime {
        return Some(draws[i]);
      }
      i := i + 1;
    }
    return None;
  }

  /** generate_prime of app.py: the loop over [2^(bits-1), 2^bits - 1]. */
  method GeneratePrime(bits: nat, draws: seq<int>) returns (r: Option<int>)
    requires bits >= 1
    requires forall k :: 0 <= k < |draws| ==> CandidateRange(bits).0 <= draws[k] <= CandidateRange(bits).1
    ensures r.Some? ==> Prime(r.value) && Pow(2, bits - 1) <= r.value < Pow(2, bits)
    ensures r.Some? ==> exists k :: 0 <= k < |draws| && draws[k] == r.value &&
                                   forall j :: 0 <= j < k ==> !Prime(draws[j])
    ensures r.None? ==> forall k :: 0 <= k < |draws| ==> !Prime(draws[k])
  {
    r := GeneratePrimeInRange(CandidateRange(bits).0, CandidateRange(bits).1, draws);
  }

  /**
   * generate_prime of RSA_CODE.py: the same loop over the as-written range. At bits = 8 it
   * returns nothing whatever the draws; at any bits other than 2 it can only return 2 bits - 1.
   */
  method GeneratePrimeAsWritten(bits: nat, draws: seq<int>) returns (r: Option<int>)
    requires forall k :: 0 <= k < |draws| ==>
               CandidateRangeAsWritten(bits).0 <= draws[k] <= CandidateRangeAsWritten(bits).1
    ensures r.Some? ==> Prime(r.value) && 2 * (bits - 1) <= r.value <= 2 * bits - 1
    ensures r.None? ==> forall k :: 0 <= k < |draws| ==> !Prime(draws[k])
    ensures bits == 8 ==> r.None?
    ensures bits != 2 && r.Some? ==> r.value == 2 * bits - 1
  {
    r := GeneratePrimeInRange(CandidateRangeAsWritten(bits).0, CandidateRangeAsWritten(bits).1, draws);
    if bits == 8 {
      NoPrimeAsWrittenAtEightBits();
    }
    if bits != 2 {
      AsWrittenRangeAtMostOnePrime(bits);
    }
  }

  /** The range RSA_CODE.py draws from for its default bits = 8, [14, 15], holds no prime. */
  lemma NoPrimeAsWrittenAtEightBits()
    ensures CandidateRangeAsWritten(8) == (14, 15)
    ensures forall x :: 14 <= x <= 15 ==> !Prime(x)
  {
    DivModUnique(14, 2, 7, 0);
    DivModUnique(15, 3, 5, 0);
    assert Divides(2, 14) && Divides(3, 15);
  }

  /**
   * For every bits other than 2 the as-written range [2(bits-1), 2 bits - 1] holds at most
   * one prime, its upper end: the lower end is even and at least 4, or the range lies below 2.
   * So two draws that are both prime are equal, and the `while p == q` resampling never ends.
   */
  lemma AsWrittenRangeAtMostOnePrime(bits: nat)
    requires bits != 2
    ensures forall x :: CandidateRangeAsWritten(bits).0 <= x <= CandidateRangeAsWritten(bits).1 && Prime(x) ==>
                          x == 2 * bits - 1
    ensures forall x, y :: CandidateRangeAsWritten(bits).0 <= x <= CandidateRangeAsWritten(bits).1 && Prime(x) &&
                             CandidateRangeAsWritten(bits).0 <= y <= CandidateRangeAsWritten(bits).1 && Prime(y) ==>
                             x == y
  {
    if bits >= 3 {
      var lo := 2 * (bits - 1);
      DivModUnique(lo, 2, bits - 1, 0);
      assert Divides(2, lo) && 1 < 2 < lo;
      assert !Prime(lo);
    }
  }

  /** The intended range at bits = 8, [128, 255], contains the prime 131. */
  lemma PrimeInCandidateRangeAtEightBits()
    ensures CandidateRange(8) == (128, 255)
    ensures Prime(131)
  {
    assert Pow(2, 7) == 128 && Pow(2, 8) == 256 by {
      assert Pow(2, 4) == 16;
    }
    forall j | 3 <= j < 13 && j % 2 == 1
      ensures !Divides(j, 131)
    {
      assert j == 3 || j == 5 || j == 7 || j == 9 || j == 11;
    }
    assert !Divides(2, 131);
    OddTrialDivisionSuffices(131, 13);
  }

  // ---------------------------------------------------------------------------
  // gcd (app.py:40-44, RSA_CODE.py:33-37)

  /** Euclid's recurrence gcd(a, b) = gcd(b, a mod b), gcd(a, 0) = a. */
  function Gcd(a: nat, b: nat): nat
    decreases b
  {
    if b == 0 then a else Gcd(b, a % b)
  }

  lemma {:induction false} GcdDividesBoth(a: nat, b: nat)
    ensures Gcd(a, b) == 0 <==> a == 0 && b == 0
    ensures Gcd(a, b) > 0 ==> Divides(Gcd(a, b), a) && Divides(Gcd(a, b), b)
    decreases b
  {
    if b == 0 {
      if a > 0 {
        DividesSelf(a);
      }
    } else {
      var g := Gcd(b, a % b);
      GcdDividesBoth(b, a % b);
      assert a == b * (a / b) + (a % b);
      DividesLinear(g, b, a % b, a / b, 1);
    }
  }

  lemma {:induction false} GcdGreatest(a: nat, b: nat, c: int)
    requires Divides(c, a) && Divides(c, b)
    ensures Divides(c, Gcd(a, b))
    decreases b
  {
    if b > 0 {
      assert a % b == a * 1 + b * (-(a / b));
      DividesLinear(c, a, b, 1, -(a / b));
      GcdGreatest(b, a % b, c);
    }
  }

  lemma DividesResidue(g: int, a: int, b: int)
    requires a > 0 && Divides(g, a) && Divides(g, b)
    ensures Divides(g, b % a)
  {
    var q := b / a;
    assert b % a == b * 1 + a * (-q);
    DividesLinear(g, b, a, 1, -q);
  }

  lemma DividesFromResidue(g: int, a: int, b: int)
    requires a > 0 && Divides(g, a) && Divides(g, b % a)
    ensures Divides(g, b)
  {
    var q := b / a;
    assert b == (b % a) * 1 + a * q;
    DividesLinear(g, b % a, a, 1, q);
  }

  /** Replacing b by its residue modulo a keeps the gcd. */
  lemma {:induction false} GcdReduce(a: nat, b: nat)
    requires a > 0
    ensures Gcd(a, b % a) == Gcd(a, b)
  {
    var g1, g2 := Gcd(a, b), Gcd(a, b % a);
    GcdDividesBoth(a, b);
    GcdDividesBoth(a, b % a);
    DividesResidue(g1, a, b);
    GcdGreatest(a, b % a, g1);
    DividesFromResidue(g2, a, b);
    GcdGreatest(a, b, g2);
    DividesAntisymmetric(g1, g2);
  }

  /** The iterative loop of gcd: (a, b) := (b, a mod b) until b is zero. */
  method ComputeGcd(a: nat, b: nat) returns (g: nat)
    ensures g == Gcd(a, b)
  {
    var x, y := a, b;
    while y != 0
      invariant Gcd(x, y) == Gcd(a, b)
      decreases y
    {
      x, y := y, x % y;
    }
    g := x;
  }

  // ---------------------------------------------------------------------------
  // extended_gcd (app.py:46-55, RSA_CODE.py:39-48)

  datatype Bezout = Bezout(g: nat, x: int, y: int)

  lemma ExtendedGcdStep(a: nat, b: nat, g: int, x1: int, y1: int)
    requires a > 0 && (b % a) * x1 + a * y1 == g
    ensures a * (y1 - (b / a) * x1) + b * x1 == g
  {
    assert b == a * (b / a) + b % a;
    assert a * (y1 - (b / a) * x1) + b * x1 == a * y1 + (b - a * (b / a)) * x1;
  }

  /** Recursion on (b mod a, a); the result carries the gcd and Bezout coefficients. */
  function ExtendedGcd(a: nat, b: nat): (r: Bezout)
    ensures a * r.x + b * r.y == r.g
    ensures r.g == Gcd(a, b)
    decreases a
  {
    if a == 0 then
      Bezout(b, 0, 1)
    else
      var r' := ExtendedGcd(b % a, a);
      ExtendedGcdStep(a, b, r'.g, r'.x, r'.y);
      assert Gcd(b % a, a) == Gcd(a, (b % a) % a) == Gcd(a, b % a) by {
        ModMod(b, a);
      }
      GcdReduce(a, b);
      Bezout(r'.g, r'.y - (b / a) * r'.x, r'.x)
  }

  // ---------------------------------------------------------------------------
  // mod_inverse (app.py:57-62, RSA_CODE.py:50-55)

  lemma ModInverseCorrect(e: nat, m: nat, x: int, y: int)
    requires m > 0 && e * x + m * y == 1
    ensures (e * ((x % m + m) % m)) % m == 1 % m
  {
    ModAddMultiple(x % m, m, 1);
    ModMod(x, m);
    ModMulCongruent(e, (x % m + m) % m, x, m);
    ModAddMultiple(e * x, m, y);
  }

  /**
   * The inverse of e modulo phiN read off the extended Euclid, normalised into [0, phiN);
   * fails when gcd(e, phiN) != 1. (With phiN == 0 and e == 1 the source divides by zero.)
   */
  function ModInverse(e: nat, phiN: nat): (r: Result<nat>)
    requires phiN > 0 || e != 1
    ensures r.Failure? <==> Gcd(e, phiN) != 1
    ensures r.Failure? ==> r.error == NoInverseExists
    ensures r.Success? ==> r.value < phiN && (e * r.value) % phiN == 1 % phiN
  {
    var b := ExtendedGcd(e, phiN);
    if b.g != 1 then
      Failure(NoInverseExists)
    else
      ModInverseCorrect(e, phiN, b.x, b.y);
      Success((b.x % phiN + phiN) % phiN)
  }

  // ---------------------------------------------------------------------------
  // power_mod (app.py:64-78, RSA_CODE.py:110-124)

  /** What power_mod returns: 1 for a zero exponent (even modulo 1), else base^exp mod mod. */
  function ModExp(base: int, exp: nat, mod: int): (r: int)
    requires mod > 0
    ensures exp > 0 ==> 0 <= r < mod
  {
    if exp == 0 then 1 else Pow(base, exp) % mod
  }

  lemma PowerModStep(result: int, b: int, k: nat, m: int)
    requires m > 0 && k > 0
    ensures var result' := if k % 2 == 1 then (result * b) % m else result;
            (result' * Pow((b * b) % m, k / 2)) % m == (result * Pow(b, k)) % m
  {
    var q := Pow(b * b, k / 2);
    PowModBase(b * b, k / 2, m);
    PowSquare(b, k / 2);
    if k % 2 == 1 {
      assert Pow(b, k) == b * q by {
        assert k == 2 * (k / 2) + 1;
      }
      ModMulCongruent((result * b) % m, Pow((b * b) % m, k / 2), q, m);
      ModMul(result * b, q, m);
      ModMod(q, m);
      ModMul((result * b) % m, q, m);
      ModMod(result * b, m);
      assert (result * b) * q == result * (b * q);
    } else {
      assert k == 2 * (k / 2);
      ModMulCongruent(result, Pow((b * b) % m, k / 2), q, m);
    }
  }

  /** Square-and-multiply over the bits of exp, least significant first. */
  method PowerMod(base: int, exp: nat, mod: int) returns (result: int)
    requires mod > 0
    ensures result == ModExp(base, exp, mod)
  {
    result := 1;
    var b := base % mod;
    var k: nat := exp;
    PowModBase(base, exp, mod);
    while k > 0
      invariant 0 <= b < mod && 0 <= result && k <= exp
      invariant exp == 0 ==> result == 1
      invariant exp > 0 && k == 0 ==> result < mod
      invariant (result * Pow(b, k)) % mod == Pow(base, exp) % mod
    {
      PowerModStep(result, b, k, mod);
      if k % 2 == 1 {
        result := (result * b) % mod;
      }
      k := k / 2;
      b := (b * b) % mod;
    }
    if exp > 0 {
      ModOfSmall(result, mod);
    }
  }
}
