/** Raw RSA decryption, by remainders when the precomputed values are there and by plain exponentiation when not. */
module Rsa {
  import opened Bytes
  import opened NumberTheory
  import opened Octets
  import opened Wrappers

  datatype Precomputed = Precomputed(dp: Option<nat>, dq: Option<nat>, qinv: Option<nat>)

  datatype PrivateKey = PrivateKey(n: nat, d: nat, primes: seq<nat>, precomputed: Precomputed) {
    /** What exponentiation and reduction need of their moduli. */
    predicate Usable() {
      n > 0 && forall i :: 0 <= i < |primes| ==> primes[i] > 0
    }

    predicate HasCrtValues() {
      && precomputed.dp.Some?
      && precomputed.dq.Some?
      && precomputed.qinv.Some?
      && |primes| >= 2
    }

    function Size(): nat {
      BitLen(n) / 8
    }

    /** The modulus is the product of the two primes. */
    ghost predicate Factored() {
      && |primes| == 2
      && Prime(primes[0]) && Prime(primes[1]) && primes[0] != primes[1]
      && n == primes[0] * primes[1]
    }

    /** e undoes d modulo one less than each prime. */
    ghost predicate Inverts(e: nat)
      requires Factored()
    {
      forall i :: 0 <= i < 2 ==> (e * d) % (primes[i] - 1) == 1 % (primes[i] - 1)
    }

    /** The exponents and the inverse are those of the two primes of the modulus. */
    ghost predicate Derived() {
      && Factored()
      && HasCrtValues()
      && precomputed.dp.value == d % (primes[0] - 1)
      && precomputed.dq.value == d % (primes[1] - 1)
      && (precomputed.qinv.value * primes[1]) % primes[0] == 1
    }
  }

  /** Where the remainder branch will be taken, the values are the derived ones and no exponent is zero. */
  ghost predicate Agreeing(key: PrivateKey) {
    key.HasCrtValues() ==> key.Derived() && key.precomputed.dp.value != 0 && key.precomputed.dq.value != 0
  }

  /** The size is that of the modulus in whole octets, rounded down. */
  lemma SizeIff(key: PrivateKey, size: nat)
    requires key.n > 0
    ensures key.Size() == size <==> Pow(2, 8 * size) <= 2 * key.n < Pow(2, 8 * size + 8)
  {
    WholeOctetsIff(key.n, size);
  }

  /** A modulus that its octets can hold, and branches that agree. */
  ghost predicate Sound(key: PrivateKey) {
    && key.Usable()
    && key.n <= Pow(256, key.Size())
    && Agreeing(key)
  }

  /** Two primes and their product are such a factorisation exactly when the primes are two. */
  lemma FactoredIff(p: nat, q: nat, d: nat, precomputed: Precomputed)
    ensures PrivateKey(p * q, d, [p, q], precomputed).Factored() <==> Prime(p) && Prime(q) && p != q
  {
  }

  /** RSADP, section 5.1.2 of RFC 8017, in its first form. */
  function Plain(key: PrivateKey, c: nat): (m: nat)
    requires key.Usable()
  {
    Pow(c, key.d) % key.n
  }

  /** Garner's recombination of the two residues. */
  function Garner(m1: int, m2: int, qinv: int, p: int, q: int): int
    requires p > 0
  {
    m2 + ((m1 - m2) * qinv) % p * q
  }

  function ByRemainders(key: PrivateKey, c: nat): (m: nat)
    requires key.Usable() && key.HasCrtValues()
  {
    var p, q := key.primes[0], key.primes[1];
    var m1, m2 := Pow(c, key.precomputed.dp.value) % p, Pow(c, key.precomputed.dq.value) % q;
    var m := Garner(m1, m2, key.precomputed.qinv.value, p, q);
    GarnerNonNegative(m1, m2, key.precomputed.qinv.value, p, q);
    m
  }

  function Decrypted(key: PrivateKey, c: nat): nat
    requires key.Usable()
  {
    if key.HasCrtValues() then ByRemainders(key, c) else Plain(key, c)
  }

  method RSADecryptNoPadding(key: PrivateKey, ciphertext: seq<byte>) returns (r: Result<seq<byte>>)
    requires key.Usable()
    ensures r.Success? <==> Pow(2, 8 * |ciphertext|) <= 2 * key.n < Pow(2, 8 * |ciphertext| + 8)
    ensures r.Success? ==> r.value == Padded(Decrypted(key, ToNat(ciphertext)), |ciphertext|)
    ensures Decrypted(key, ToNat(ciphertext)) ==
            var c, k := ToNat(ciphertext), key.precomputed;
            if k.dp.Some? && k.dq.Some? && k.qinv.Some? && |key.primes| >= 2 then
              var p, q := key.primes[0], key.primes[1];
              var m1, m2 := Pow(c, k.dp.value) % p, Pow(c, k.dq.value) % q;
              ((m1 - m2) * k.qinv.value) % p * q + m2
            else Pow(c, key.d) % key.n
    ensures r.Success? && key.n <= Pow(256, |ciphertext|) && Agreeing(key) ==>
              r.value == FromNat(Pow(ToNat(ciphertext), key.d) % key.n, |ciphertext|)
  {
    SizeIff(key, |ciphertext|);
    var keySize := key.Size();
    if |ciphertext| != keySize {
      return Failure("unexpected ciphertext size");
    }
    var c := ToNat(ciphertext);
    var m: nat;
    if key.HasCrtValues() {
      var p, q := key.primes[0], key.primes[1];
      var m1 := Pow(c, key.precomputed.dp.value) % p;
      var m2 := Pow(c, key.precomputed.dq.value) % q;
      var h := m1 - m2;
      h := h * key.precomputed.qinv.value;
      h := h % p;
      GarnerNonNegative(m1, m2, key.precomputed.qinv.value, p, q);
      var sum := h * q;
      m := sum + m2;
    } else {
      m := Pow(c, key.d) % key.n;
    }
    var result := Minimal(m);
    if |result| < keySize {
      var padded := new byte[keySize](_ => 0);
      forall i | 0 <= i < |result| {
        padded[keySize - |result| + i] := result[i];
      }
      assert padded[..] == Zeros(keySize - |result|) + result;
      result := padded[..];
    }
    if Sound(key) {
      SameOctets(key, c);
    }
    return Success(result);
  }

  lemma GarnerNonNegative(m1: int, m2: int, qinv: int, p: int, q: int)
    requires p > 0 && q > 0 && m2 >= 0
    ensures Garner(m1, m2, qinv, p, q) >= 0
  {
    var h := ((m1 - m2) * qinv) % p;
    assert h * q >= 0;
  }

  // ---- the two forms compute the same number ----

  lemma GarnerRange(m1: int, m2: int, qinv: int, p: int, q: int)
    requires p > 0 && 0 <= m2 < q
    ensures 0 <= Garner(m1, m2, qinv, p, q) < p * q
  {
    var h := ((m1 - m2) * qinv) % p;
    assert 0 <= h * q;
    assert (p - 1 - h) * q >= 0;
    assert (p - 1 - h) * q == p * q - q - h * q;
  }

  lemma GarnerResidues(m1: int, m2: int, qinv: int, p: int, q: int)
    requires p > 1 && q > 0 && (qinv * q) % p == 1
    ensures Garner(m1, m2, qinv, p, q) % p == m1 % p
    ensures Garner(m1, m2, qinv, p, q) % q == m2 % q
  {
    var h := ((m1 - m2) * qinv) % p;
    AddMultiple(m2, h, q);
    LiftedDifference(m1 - m2, qinv, p, q);
    AddCong(m2, m2, h * q, m1 - m2, p);
  }

  lemma LiftedDifference(x: int, qinv: int, p: int, q: int)
    requires p > 1 && (qinv * q) % p == 1
    ensures ((x * qinv) % p * q) % p == x % p
  {
    MulCong((x * qinv) % p, x * qinv, q, q, p);
    assert x * qinv * q == (qinv * q) * x;
    MulByUnit(qinv * q, x, p);
  }

  /** A residue computed with the reduced exponent. */
  lemma ResidueAgrees(c: nat, d: nat, p: int)
    requires Prime(p)
    ensures Pow(c, d) % p == Pow(c, d % (p - 1)) % p <==> !(d > 0 && d % (p - 1) == 0 && c % p == 0)
  {
    if c % p != 0 {
      ReduceExponent(c, d, p);
    } else {
      if d > 0 {
        PowZeroCong(c, d, p);
      }
      if d % (p - 1) > 0 {
        PowZeroCong(c, d % (p - 1), p);
      }
    }
  }

  lemma ModOfProduct(x: int, p: int, q: int)
    requires p > 0 && q > 0
    ensures p * q > 0 && x % (p * q) % p == x % p && x % (p * q) % q == x % q
  {
    var k := x / (p * q);
    assert x == x % (p * q) + (k * q) * p;
    AddMultiple(x % (p * q), k * q, p);
    assert x == x % (p * q) + (k * p) * q;
    AddMultiple(x % (p * q), k * p, q);
  }

  /**
   * The exact agreement: the two branches differ only on a ciphertext divisible by a prime whose reduced exponent
   * is zero although the exponent itself is not.
   */
  lemma ByRemaindersIffPlain(key: PrivateKey, c: nat)
    requires key.Usable() && key.Derived()
    ensures ByRemainders(key, c) == Plain(key, c) <==>
            !(key.d > 0 && exists i :: 0 <= i < 2 && key.d % (key.primes[i] - 1) == 0 && c % key.primes[i] == 0)
  {
    var p, q, d := key.primes[0], key.primes[1], key.d;
    ResidueAgrees(c, d, p);
    ResidueAgrees(c, d, q);
    assert (exists i :: 0 <= i < 2 && d % (key.primes[i] - 1) == 0 && c % key.primes[i] == 0)
      <==> (d % (p - 1) == 0 && c % p == 0) || (d % (q - 1) == 0 && c % q == 0) by {
      assert p == key.primes[0] && q == key.primes[1];
    }
    var m1, m2 := Pow(c, d % (p - 1)) % p, Pow(c, d % (q - 1)) % q;
    GarnerIffProduct(m1, m2, Pow(c, d), key.precomputed.qinv.value, p, q);
  }

  lemma GarnerIffProduct(m1: int, m2: int, y: int, qinv: int, p: int, q: int)
    requires Prime(p) && Prime(q) && p != q && (qinv * q) % p == 1
    requires 0 <= m1 < p && 0 <= m2 < q
    ensures p * q > 0
    ensures Garner(m1, m2, qinv, p, q) == y % (p * q) <==> y % p == m1 && y % q == m2
  {
    var m := Garner(m1, m2, qinv, p, q);
    GarnerRange(m1, m2, qinv, p, q);
    GarnerResidues(m1, m2, qinv, p, q);
    SmallResidue(m1, p);
    SmallResidue(m2, q);
    SameByResidues(m, y, p, q);
  }

  lemma SameByResidues(x: int, y: int, p: int, q: int)
    requires Prime(p) && Prime(q) && p != q && 0 <= x < p * q
    ensures x == y % (p * q) <==> x % p == y % p && x % q == y % q
  {
    ModOfProduct(y, p, q);
    if x % p == y % p && x % q == y % q {
      ChineseRemainder(x, y, p, q);
      SmallResidue(x, p * q);
    }
  }

  lemma SmallResidue(x: int, m: int)
    requires 0 <= x < m
    ensures x % m == x
  {
  }

  /** On a key whose reduced exponents are not zero the branches agree on every ciphertext, and on no other key do they. */
  lemma BranchesAgree(key: PrivateKey)
    requires key.Usable() && key.Derived()
    ensures (forall c: nat :: ByRemainders(key, c) == Plain(key, c))
       <==> key.d == 0 || (key.precomputed.dp.value != 0 && key.precomputed.dq.value != 0)
  {
    forall c: nat
      ensures (key.d == 0 || (key.precomputed.dp.value != 0 && key.precomputed.dq.value != 0)) ==> ByRemainders(key, c) == Plain(key, c)
    {
      ByRemaindersIffPlain(key, c);
    }
    ByRemaindersIffPlain(key, 0);
    assert key.primes[0] > 0 && key.primes[1] > 0;
  }

  // ---- decryption undoes encryption ----

  lemma ExponentPositive(x: int, p: int)
    requires p > 2 && x >= 0 && x % (p - 1) == 1 % (p - 1)
    ensures x > 0
  {
  }

  /** m^x = m modulo p whenever x = 1 modulo p - 1. */
  lemma FermatRoundTrip(m: nat, x: nat, p: int)
    requires Prime(p) && x > 0 && x % (p - 1) == 1 % (p - 1)
    ensures Pow(m, x) % p == m % p
  {
    if m % p == 0 {
      PowZeroCong(m, x, p);
    } else {
      ReduceExponent(m, x, p);
      ReduceExponent(m, 1, p);
      assert Pow(m, 1) == m;
    }
  }

  lemma PlainRoundTrip(key: PrivateKey, e: nat, m: nat)
    requires key.Usable() && key.Factored() && key.Inverts(e) && m < key.n
    ensures Plain(key, Pow(m, e) % key.n) == m
  {
    var p, q, n := key.primes[0], key.primes[1], key.n;
    assert e * key.d >= 0;
    if p > 2 {
      ExponentPositive(e * key.d, p);
    } else {
      ExponentPositive(e * key.d, q);
    }
    PowNonNegative(m, e);
    PowMul(m, e, key.d);
    FermatRoundTrip(m, e * key.d, p);
    FermatRoundTrip(m, e * key.d, q);
    ChineseRemainder(Pow(m, e * key.d), m, p, q);
    ResidueTwice(Pow(m, e), n);
    PowCong(Pow(m, e) % n, Pow(m, e), key.d, n);
    SmallResidue(m, n);
  }

  lemma ResidueTwice(x: int, m: int)
    requires m > 0
    ensures (x % m) % m == x % m
  {
  }

  lemma ZeroExponent(d: int, e: int, p: int)
    requires p > 2 && d % (p - 1) == 0
    ensures (e * d) % (p - 1) == 0
  {
    MulCong(e, e, d, 0, p - 1);
  }

  /** Whether, on a factored key, the branch that will be taken undoes encryption. */
  ghost predicate RoundTrips(key: PrivateKey) {
    key.HasCrtValues() ==> key.Derived() && key.primes[0] > 2 && key.primes[1] > 2
  }

  /**
   * Decrypting m^e gives back m as Size() octets for every m below the modulus, on whichever branch the key takes: without
   * remainder values on every factored key, with them when they are the derived ones and both primes are odd.
   */
  lemma DecryptInvertsEncrypt(key: PrivateKey, e: nat, m: nat)
    requires key.Usable() && key.Factored() && key.Inverts(e) && key.n <= Pow(256, key.Size()) && m < key.n
    requires RoundTrips(key)
    ensures var c := FromNat(Pow(m, e) % key.n, key.Size());
            Padded(Decrypted(key, ToNat(c)), key.Size()) == FromNat(m, key.Size())
    ensures ToNat(FromNat(m, key.Size())) == m
  {
    var x := Pow(m, e) % key.n;
    ToNatFromNat(x, key.Size());
    ToNatFromNat(m, key.Size());
    PaddedIsFromNat(m, key.Size());
    PlainRoundTrip(key, e, m);
    if key.HasCrtValues() {
      OddPrimesSuffice(key, e);
      ByRemaindersIffPlain(key, x);
    }
  }

  lemma OddPrimesSuffice(key: PrivateKey, e: nat)
    requires key.Usable() && key.Factored() && key.Inverts(e) && key.primes[0] > 2 && key.primes[1] > 2
    ensures forall i :: 0 <= i < 2 ==> key.d % (key.primes[i] - 1) != 0
  {
    forall i | 0 <= i < 2
      ensures key.d % (key.primes[i] - 1) != 0
    {
      if key.d % (key.primes[i] - 1) == 0 {
        ZeroExponent(key.d, e, key.primes[i]);
        assert false;
      }
    }
  }

  /** The branch taken makes no difference to the octets returned, and they are exactly Size() many. */
  lemma SameOctets(key: PrivateKey, c: nat)
    requires Sound(key)
    ensures Padded(Decrypted(key, c), key.Size()) == FromNat(Pow(c, key.d) % key.n, key.Size())
  {
    if key.HasCrtValues() {
      ByRemaindersIffPlain(key, c);
    }
    PaddedIsFromNat(Plain(key, c), key.Size());
  }

  /** The remainder branch inverts encryption for every message exactly when neither prime is two. */
  lemma RemainderRoundTripIff(key: PrivateKey, e: nat)
    requires key.Usable() && key.Derived() && key.Inverts(e)
    ensures (forall m: nat :: m < key.n ==> ByRemainders(key, Encrypted(key, e, m)) == m)
       <==> key.primes[0] > 2 && key.primes[1] > 2
  {
    forall m: nat | m < key.n
      ensures key.primes[0] > 2 && key.primes[1] > 2 ==> ByRemainders(key, Encrypted(key, e, m)) == m
    {
      OddPrimesRoundTrip(key, e, m);
    }
    EvenPrimeFails(key, e);
  }

  /** What the code computes inverts encryption for every message exactly when the branch it takes does. */
  lemma RoundTripIff(key: PrivateKey, e: nat)
    requires key.Usable() && key.Factored() && key.Inverts(e) && (key.HasCrtValues() ==> key.Derived())
    ensures (forall m: nat :: m < key.n ==> Decrypted(key, Encrypted(key, e, m)) == m) <==> RoundTrips(key)
  {
    if key.HasCrtValues() {
      RemainderRoundTripIff(key, e);
      assert forall m: nat :: Decrypted(key, Encrypted(key, e, m)) == ByRemainders(key, Encrypted(key, e, m));
    } else {
      forall m: nat | m < key.n
        ensures Decrypted(key, Encrypted(key, e, m)) == m
      {
        PlainRoundTrip(key, e, m);
      }
    }
  }

  lemma OddPrimesRoundTrip(key: PrivateKey, e: nat, m: nat)
    requires key.Usable() && key.Derived() && key.Inverts(e) && m < key.n
    ensures key.primes[0] > 2 && key.primes[1] > 2 ==> ByRemainders(key, Encrypted(key, e, m)) == m
  {
    if key.primes[0] > 2 && key.primes[1] > 2 {
      OddPrimesSuffice(key, e);
      PlainRoundTrip(key, e, m);
      ByRemaindersIffPlain(key, Encrypted(key, e, m));
    }
  }

  lemma EvenPrimeFails(key: PrivateKey, e: nat)
    requires key.Usable() && key.Derived() && key.Inverts(e)
    ensures (key.primes[0] == 2 || key.primes[1] == 2) ==> ByRemainders(key, Encrypted(key, e, 0)) != 0
  {
    InverseExponents(key, e);
    PowZeroCong(0, e, key.n);
    assert Encrypted(key, e, 0) == 0;
    PowZeroCong(0, key.d, key.n);
    assert Plain(key, 0) == 0;
    ByRemaindersIffPlain(key, 0);
  }

  function Encrypted(key: PrivateKey, e: nat, m: nat): (c: nat)
    requires key.Usable()
  {
    PowNonNegative(m, e);
    Pow(m, e) % key.n
  }

  lemma InverseExponents(key: PrivateKey, e: nat)
    requires key.Usable() && key.Factored() && key.Inverts(e)
    ensures e > 0 && key.d > 0
  {
    var i := if key.primes[0] > 2 then 0 else 1;
    assert key.primes[i] > 2;
    assert e * key.d >= 0;
    ExponentPositive(e * key.d, key.primes[i]);
  }
}
