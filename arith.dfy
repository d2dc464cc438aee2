/** Powers and the modular-arithmetic facts the engine's proofs are built from. */
module Arith {

  /** b raised to the k-th power over the unbounded integers. */
  function Pow(b: int, k: nat): int
  {
    if k == 0 then 1 else b * Pow(b, k - 1)
  }

  lemma MulAtLeast(m: int, t: int)
    requires m > 0 && t >= 1
    ensures m * t >= m
  {
  }

  /** Division with remainder by a positive modulus has exactly one answer. */
  lemma DivModUnique(n: int, m: int, q: int, r: int)
    requires m > 0 && n == m * q + r && 0 <= r < m
    ensures n / m == q && n % m == r
  {
    var q', r' := n / m, n % m;
    assert m * q' + r' == m * q + r;
    if q' > q {
      assert m * (q' - q) == r - r';
      MulAtLeast(m, q' - q);
    } else if q' < q {
      assert m * (q - q') == r' - r;
      MulAtLeast(m, q - q');
    }
  }

  lemma ModOfMultiple(m: int, k: int)
    requires m > 0
    ensures (m * k) % m == 0
  {
    DivModUnique(m * k, m, k, 0);
  }

  lemma ModOfSmall(a: int, m: int)
    requires 0 <= a < m
    ensures a % m == a
  {
    DivModUnique(a, m, 0, a);
  }

  lemma ModAddMultiple(a: int, m: int, k: int)
    requires m > 0
    ensures (a + m * k) % m == a % m
  {
    assert a + m * k == m * (a / m + k) + a % m;
    DivModUnique(a + m * k, m, a / m + k, a % m);
  }

  lemma ModMod(a: int, m: int)
    requires m > 0
    ensures (a % m) % m == a % m
  {
    ModOfSmall(a % m, m);
  }

  lemma ModAdd(a: int, b: int, m: int)
    requires m > 0
    ensures (a + b) % m == (a % m + b % m) % m
  {
    assert a + b == (a % m + b % m) + m * (a / m + b / m);
    ModAddMultiple(a % m + b % m, m, a / m + b / m);
  }

  lemma ModMul(a: int, b: int, m: int)
    requires m > 0
    ensures (a * b) % m == ((a % m) * (b % m)) % m
  {
    var qa, ra, qb, rb := a / m, a % m, b / m, b % m;
    assert a * b == (m * qa + ra) * (m * qb + rb);
    assert (m * qa + ra) * (m * qb + rb) == ra * rb + m * (qa * m * qb + qa * rb + ra * qb);
    ModAddMultiple(ra * rb, m, qa * m * qb + qa * rb + ra * qb);
  }

  /** Equal residues stay equal when multiplied by the same factor. */
  lemma ModMulCongruent(a: int, x: int, y: int, m: int)
    requires m > 0 && x % m == y % m
    ensures (a * x) % m == (a * y) % m
  {
    ModMul(a, x, m);
    ModMul(a, y, m);
  }

  lemma {:induction false} PowAdd(b: int, i: nat, j: nat)
    ensures Pow(b, i + j) == Pow(b, i) * Pow(b, j)
  {
    if i > 0 {
      PowAdd(b, i - 1, j);
      assert Pow(b, i + j) == b * Pow(b, (i - 1) + j);
    }
  }

  lemma {:induction false} PowMul(b: int, i: nat, j: nat)
    ensures Pow(b, i * j) == Pow(Pow(b, i), j)
  {
    if j > 0 {
      PowMul(b, i, j - 1);
      assert i * j == i + i * (j - 1);
      PowAdd(b, i, i * (j - 1));
    }
  }

  /** Reducing the base first does not change the residue of a power. */
  lemma {:induction false} PowModBase(b: int, k: nat, m: int)
    requires m > 0
    ensures Pow(b % m, k) % m == Pow(b, k) % m
  {
    if k > 0 {
      PowModBase(b, k - 1, m);
      ModMul(b % m, Pow(b % m, k - 1), m);
      ModMod(b, m);
      ModMul(b, Pow(b, k - 1), m);
    }
  }

  lemma {:induction false} PowSquare(b: int, j: nat)
    ensures Pow(b * b, j) == Pow(b, 2 * j)
  {
    assert Pow(b, 1) == b;
    assert Pow(b, 2) == b * Pow(b, 1);
    PowMul(b, 2, j);
  }
}
