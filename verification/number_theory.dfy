/** Congruences, powers and primes: the arithmetic behind RSA decryption by remainders. */
module NumberTheory {

  // ---- division with remainder ----

  lemma DivModUnique(x: int, q: int, r: int, m: int)
    requires m > 0 && 0 <= r < m && x == q * m + r
    ensures x / m == q && x % m == r
  {
    var d := q - x / m;
    assert d * m == x % m - r;
    MultipleSize(d, m);
  }

  lemma MultipleSize(d: int, m: int)
    requires m > 0
    ensures d >= 1 ==> d * m >= m
    ensures d <= -1 ==> d * m <= -m
  {
    if d >= 1 {
      assert d * m == (d - 1) * m + m;
    } else if d <= -1 {
      assert d * m == (d + 1) * m - m;
    }
  }

  lemma DivDiv(v: int, p: nat)
    requires p > 0
    ensures v / 256 / p == v / (256 * p)
  {
    var t, r := v / 256 / p, v / 256 % p;
    assert v / 256 == p * t + r;
    assert 256 * (p * t) == t * (256 * p);
    DivModUnique(v, t, 256 * r + v % 256, 256 * p);
  }

  lemma AddMultiple(b: int, k: int, m: int)
    requires m > 0
    ensures (b + k * m) % m == b % m
  {
    assert b + k * m == (b / m + k) * m + b % m;
    DivModUnique(b + k * m, b / m + k, b % m, m);
  }

  /** Congruent numbers differ by a multiple of the modulus. */
  lemma Difference(a: int, b: int, m: int) returns (k: int)
    requires m > 0 && a % m == b % m
    ensures a == b + k * m
  {
    k := a / m - b / m;
    assert k * m == (a / m) * m - (b / m) * m;
  }

  lemma MulCong(a: int, a': int, b: int, b': int, m: int)
    requires m > 0 && a % m == a' % m && b % m == b' % m
    ensures (a * b) % m == (a' * b') % m
  {
    var k := Difference(a, a', m);
    var l := Difference(b, b', m);
    calc {
      a * b;
      (a' + k * m) * (b' + l * m);
      a' * b' + (a' * l + k * b' + k * l * m) * m;
    }
    AddMultiple(a' * b', a' * l + k * b' + k * l * m, m);
  }

  lemma AddCong(a: int, a': int, b: int, b': int, m: int)
    requires m > 0 && a % m == a' % m && b % m == b' % m
    ensures (a + b) % m == (a' + b') % m
  {
    var k := Difference(a, a', m);
    var l := Difference(b, b', m);
    assert a + b == a' + b' + (k + l) * m;
    AddMultiple(a' + b', k + l, m);
  }

  lemma SubIsMultiple(a: int, b: int, m: int)
    requires m > 0
    ensures (a - b) % m == 0 <==> a % m == b % m
  {
    if a % m == b % m {
      var k := Difference(a, b, m);
      AddMultiple(0, k, m);
    }
    if (a - b) % m == 0 {
      AddMultiple(b, (a - b) / m, m);
    }
  }

  // ---- powers ----

  function Pow(b: int, e: nat): int {
    if e == 0 then 1 else b * Pow(b, e - 1)
  }

  lemma PowSteps(b: int, e: nat)
    ensures Pow(b, 0) == 1 && Pow(b, e + 1) == b * Pow(b, e)
  {
  }

  lemma {:induction false} PowNonNegative(b: nat, e: nat)
    ensures Pow(b, e) >= 0
  {
    if e > 0 {
      PowNonNegative(b, e - 1);
    }
  }

  lemma {:induction false} PowPositive(b: int, e: nat)
    requires b > 0
    ensures Pow(b, e) > 0
  {
    if e > 0 {
      PowPositive(b, e - 1);
    }
  }

  lemma {:induction false} PowAdd(b: int, e: nat, f: nat)
    ensures Pow(b, e + f) == Pow(b, e) * Pow(b, f)
  {
    if e > 0 {
      PowAdd(b, e - 1, f);
      assert Pow(b, e + f) == b * (Pow(b, e - 1) * Pow(b, f));
    }
  }

  lemma {:induction false} PowMul(b: int, e: nat, f: nat)
    ensures e * f >= 0 && Pow(b, e * f) == Pow(Pow(b, e), f)
  {
    if f > 0 {
      PowMul(b, e, f - 1);
      assert e * f == e + e * (f - 1);
      PowAdd(b, e, e * (f - 1));
    }
  }

  lemma {:induction false} PowCong(a: int, b: int, e: nat, m: int)
    requires m > 0 && a % m == b % m
    ensures Pow(a, e) % m == Pow(b, e) % m
  {
    if e > 0 {
      PowCong(a, b, e - 1, m);
      MulCong(a, b, Pow(a, e - 1), Pow(b, e - 1), m);
    }
  }

  lemma {:induction false} PowOne(e: nat)
    ensures Pow(1, e) == 1
  {
    if e > 0 {
      PowOne(e - 1);
    }
  }

  lemma PowZeroCong(b: int, e: nat, m: int)
    requires m > 0 && e > 0 && b % m == 0
    ensures Pow(b, e) % m == 0
  {
    PowCong(b, 0, e, m);
  }

  // ---- primes ----

  predicate Divides(d: int, n: int)
    requires d > 0
  {
    n % d == 0
  }

  ghost predicate Prime(p: int) {
    p > 1 && forall d :: 1 < d < p ==> !Divides(d, p)
  }

  /** The numbers above one that are no product of two such numbers. */
  lemma PrimeIff(p: int)
    ensures Prime(p) <==> p > 1 && forall a: int, b: int :: a > 1 && b > 1 ==> a * b != p
  {
    if Prime(p) {
      forall a: int, b: int | a > 1 && b > 1
        ensures a * b != p
      {
        if a * b == p {
          ProperFactor(a, b);
        }
      }
    } else if p > 1 {
      var d :| 1 < d < p && Divides(d, p);
      assert p == (p / d) * d && (p / d - 1) * d == p - d;
      MultipleSize(p / d - 1, d);
      assert d * (p / d) == p;
    }
  }

  lemma ProperFactor(a: int, b: int)
    requires a > 1 && b > 1
    ensures a < a * b && Divides(a, a * b)
  {
    DivModUnique(a * b, b, 0, a);
  }

  /** The least positive x with x * b a multiple of p. */
  lemma {:induction false} LeastAnnihilator(b: int, p: int, from: int) returns (x: int)
    requires p > 1 && 1 <= from <= p
    requires forall y :: 1 <= y < from ==> (y * b) % p != 0
    ensures 1 <= x <= p && (x * b) % p == 0
    ensures forall y :: 1 <= y < x ==> (y * b) % p != 0
    decreases p - from
  {
    if (from * b) % p == 0 {
      x := from;
    } else {
      if from == p {
        AddMultiple(0, b, p);
        assert false;
      }
      x := LeastAnnihilator(b, p, from + 1);
    }
  }

  /** Euclid's lemma: a prime that divides a product divides one of the factors. */
  lemma Euclid(a: int, b: int, p: int)
    requires Prime(p) && (a * b) % p == 0
    ensures a % p == 0 || b % p == 0
  {
    var x := LeastAnnihilator(b, p, 1);
    AnnihilatorsAreMultiples(a, b, p, x);
    AddMultiple(0, b, p);
    AnnihilatorsAreMultiples(p, b, p, x);
    assert Divides(x, p);
    if x == 1 {
      assert (1 * b) % p == 0;
    } else {
      assert x == p;
    }
  }

  lemma AnnihilatorsAreMultiples(y: int, b: int, p: int, x: int)
    requires p > 1 && 1 <= x && (x * b) % p == 0 && (y * b) % p == 0
    requires forall z :: 1 <= z < x ==> (z * b) % p != 0
    ensures y % x == 0
  {
    var q, r := y / x, y % x;
    assert r * b == y * b + (-q) * (x * b) by {
      assert r == y - q * x;
    }
    MulCong(-q, -q, x * b, 0, p);
    AddCong(y * b, 0, (-q) * (x * b), 0, p);
    assert (r * b) % p == 0;
  }

  // ---- Fermat's little theorem, by the binomial expansion of (a + 1)^p ----

  function Binomial(n: nat, k: nat): nat {
    if k == 0 then 1 else if n == 0 then 0 else Binomial(n - 1, k) + Binomial(n - 1, k - 1)
  }

  lemma {:induction false} BinomialBeyond(n: nat, k: nat)
    requires k > n
    ensures Binomial(n, k) == 0
  {
    if n > 0 {
      BinomialBeyond(n - 1, k);
      BinomialBeyond(n - 1, k - 1);
    }
  }

  lemma {:induction false} BinomialDiagonal(n: nat)
    ensures Binomial(n, n) == 1
  {
    if n > 0 {
      BinomialDiagonal(n - 1);
      BinomialBeyond(n - 1, n);
    }
  }

  lemma {:induction false} BinomialAbsorption(n: nat, k: nat)
    requires n > 0 && k > 0
    ensures k * Binomial(n, k) == n * Binomial(n - 1, k - 1)
  {
    if n == 1 {
      if k > 1 {
        BinomialBeyond(1, k);
        BinomialBeyond(0, k - 1);
      }
    } else {
      BinomialAbsorption(n - 1, k);
      if k > 1 {
        BinomialAbsorption(n - 1, k - 1);
      }
      AbsorptionStep(n, k, Binomial(n - 1, k), Binomial(n - 1, k - 1), Binomial(n - 2, k - 1),
                     if k > 1 then Binomial(n - 2, k - 2) else 0);
    }
  }

  /** Pascal's rule turns the absorption identity for row n - 1 into the one for row n. */
  lemma AbsorptionStep(n: int, k: int, above: int, left: int, above': int, left': int)
    requires k * above == (n - 1) * above'
    requires (k - 1) * left == (n - 1) * left'
    requires left == above' + left'
    ensures k * (above + left) == n * left
  {
    assert k * (above + left) == k * above + (k - 1) * left + left;
    assert (n - 1) * left == (n - 1) * above' + (n - 1) * left';
  }

  /** The partial sum of the expansion of (a + 1)^n over exponents 0..j. */
  function Expansion(a: int, n: nat, j: nat): int {
    Binomial(n, j) * Pow(a, j) + if j == 0 then 0 else Expansion(a, n, j - 1)
  }

  lemma {:induction false} ExpansionStep(a: int, n: nat, j: nat)
    requires n > 0
    ensures Expansion(a, n, j) == Expansion(a, n - 1, j) + if j == 0 then 0 else a * Expansion(a, n - 1, j - 1)
  {
    if j > 0 {
      ExpansionStep(a, n, j - 1);
      PascalTerm(a, Binomial(n - 1, j), Binomial(n - 1, j - 1), Pow(a, j - 1));
      if j > 1 {
        assert Expansion(a, n - 1, j - 1)
            == Binomial(n - 1, j - 1) * Pow(a, j - 1) + Expansion(a, n - 1, j - 2);
        Distribute(a, Binomial(n - 1, j - 1) * Pow(a, j - 1), Expansion(a, n - 1, j - 2));
      }
    }
  }

  lemma PascalTerm(a: int, b: int, c: int, w: int)
    ensures (b + c) * (a * w) == b * (a * w) + a * (c * w)
  {
  }

  lemma Distribute(a: int, x: int, y: int)
    ensures a * (x + y) == a * x + a * y
  {
  }

  lemma SplitPower(a: int, n: nat)
    requires n > 0
    ensures Pow(a + 1, n) == Pow(a + 1, n - 1) + a * Pow(a + 1, n - 1)
  {
  }

  lemma {:induction false} BinomialTheorem(a: int, n: nat)
    ensures Pow(a + 1, n) == Expansion(a, n, n)
  {
    if n > 0 {
      BinomialTheorem(a, n - 1);
      ExpansionStep(a, n, n);
      BinomialBeyond(n - 1, n);
      SplitPower(a, n);
    }
  }

  lemma PrimeFactorOfCofactor(p: int, k: int, x: int, y: int)
    requires Prime(p) && 0 < k < p && k * x == p * y
    ensures x % p == 0
  {
    AddMultiple(0, y, p);
    Euclid(k, x, p);
  }

  lemma BinomialMultipleOfPrime(p: int, k: nat)
    requires Prime(p) && 0 < k < p
    ensures Binomial(p, k) % p == 0
  {
    BinomialAbsorption(p, k);
    PrimeFactorOfCofactor(p, k, Binomial(p, k), Binomial(p - 1, k - 1));
  }

  lemma AddMultipleTerm(c: int, w: int, e: int, p: int)
    requires p > 0 && c % p == 0
    ensures (c * w + e) % p == e % p
  {
    assert c * w + e == e + (c / p * w) * p;
    AddMultiple(e, c / p * w, p);
  }

  lemma {:induction false} ExpansionModPrime(a: int, p: int, j: nat)
    requires Prime(p) && j < p
    ensures Expansion(a, p, j) % p == 1
  {
    if j == 0 {
      assert Expansion(a, p, 0) == 1;
    } else {
      ExpansionModPrime(a, p, j - 1);
      BinomialMultipleOfPrime(p, j);
      AddMultipleTerm(Binomial(p, j), Pow(a, j), Expansion(a, p, j - 1), p);
    }
  }

  lemma {:induction false} FermatPower(a: nat, p: int)
    requires Prime(p)
    ensures Pow(a, p) % p == a % p
  {
    if a > 0 {
      var b := a - 1;
      FermatPower(b, p);
      BinomialTheorem(b, p);
      ExpansionModPrime(b, p, p - 1);
      BinomialDiagonal(p);
      assert Pow(a, p) == Pow(b, p) + Expansion(b, p, p - 1);
      AddCong(Pow(b, p), b, Expansion(b, p, p - 1), 1, p);
    }
  }

  lemma CancelPrime(a: int, x: int, p: int)
    requires Prime(p) && a % p != 0 && (a * x) % p == a % p
    ensures x % p == 1
  {
    SubIsMultiple(a * x, a, p);
    assert a * x - a == a * (x - 1);
    Euclid(a, x - 1, p);
    SubIsMultiple(x, 1, p);
  }

  lemma FermatLittle(a: nat, p: int)
    requires Prime(p) && a % p != 0
    ensures Pow(a, p - 1) % p == 1
  {
    FermatPower(a, p);
    CancelPrime(a, Pow(a, p - 1), p);
  }

  lemma FermatMultiple(c: nat, k: nat, p: int)
    requires Prime(p) && c % p != 0
    ensures (p - 1) * k >= 0 && Pow(c, (p - 1) * k) % p == 1
  {
    FermatLittle(c, p);
    PowMul(c, p - 1, k);
    PowOfUnit(Pow(c, p - 1), k, p);
  }

  lemma PowOfUnit(u: int, k: nat, m: int)
    requires m > 1 && u % m == 1
    ensures Pow(u, k) % m == 1
  {
    PowCong(u, 1, k, m);
    PowOne(k);
  }

  /** For a base prime to p, exponents may be reduced modulo p - 1. */
  lemma ReduceExponent(c: nat, d: nat, p: int)
    requires Prime(p) && c % p != 0
    ensures Pow(c, d) % p == Pow(c, d % (p - 1)) % p
  {
    var k := QuotientOf(d, p - 1);
    ReduceExponentBy(c, k, d % (p - 1), p);
  }

  lemma QuotientOf(d: nat, n: int) returns (k: nat)
    requires n > 0
    ensures n * k >= 0 && n * k + d % n == d
  {
    k := d / n;
  }

  lemma ReduceExponentBy(c: nat, k: nat, r: nat, p: int)
    requires Prime(p) && c % p != 0
    ensures (p - 1) * k >= 0 && Pow(c, (p - 1) * k + r) % p == Pow(c, r) % p
  {
    FermatMultiple(c, k, p);
    PowAdd(c, (p - 1) * k, r);
    MulByUnit(Pow(c, (p - 1) * k), Pow(c, r), p);
  }

  lemma MulByUnit(u: int, v: int, m: int)
    requires m > 1 && u % m == 1
    ensures (u * v) % m == v % m
  {
    MulCong(u, 1, v, v, m);
  }

  /** Congruence modulo two distinct primes is congruence modulo their product. */
  lemma ChineseRemainder(x: int, y: int, p: int, q: int)
    requires Prime(p) && Prime(q) && p != q
    requires x % p == y % p && x % q == y % q
    ensures p * q > 0 && x % (p * q) == y % (p * q)
  {
    var k := Difference(x, y, p);
    SubIsMultiple(x, y, q);
    assert (k * p) % q == 0;
    Euclid(k, p, q);
    if p % q == 0 {
      DistinctPrimes(p, q);
      assert false;
    }
    var j := Difference(k, 0, q);
    assert x == y + j * (p * q);
    AddMultiple(y, j, p * q);
  }

  lemma DistinctPrimes(p: int, q: int)
    requires Prime(p) && Prime(q) && p != q
    ensures p % q != 0
  {
    if q > p {
      assert p % q == p;
    } else {
      assert !Divides(q, p);
    }
  }
}
