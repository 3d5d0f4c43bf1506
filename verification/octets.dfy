/** Big-endian octet strings of natural numbers: sections 4.1 and 4.2 of RFC 8017. */
module Octets {
  import opened Bytes
  import opened NumberTheory

  /** OS2IP. */
  function ToNat(s: seq<byte>): nat {
    if |s| == 0 then 0 else ToNat(s[..|s| - 1]) * 256 + s[|s| - 1]
  }

  /** I2OSP: the last len octets of n. */
  function FromNat(n: nat, len: nat): (s: seq<byte>)
    ensures |s| == len
  {
    if len == 0 then [] else FromNat(n / 256, len - 1) + [n % 256]
  }

  /** The shortest octet string of n: no leading zero octet. */
  function Minimal(n: nat): seq<byte> {
    if n == 0 then [] else Minimal(n / 256) + [n % 256]
  }

  /** The shortest octet string, padded on the left to len octets when it is shorter. */
  function Padded(n: nat, len: nat): seq<byte> {
    var s := Minimal(n);
    if |s| < len then Zeros(len - |s|) + s else s
  }

  function BitLen(n: nat): nat {
    if n == 0 then 0 else 1 + BitLen(n / 2)
  }

  lemma DropOctet(n: nat, len: nat)
    requires len > 0 && n < Pow(256, len)
    ensures n / 256 < Pow(256, len - 1)
  {
  }

  lemma ToNatSnoc(s: seq<byte>, b: byte)
    ensures ToNat(s + [b]) == ToNat(s) * 256 + b
  {
    assert (s + [b])[..|s|] == s;
  }

  lemma {:induction false} ToNatFromNat(n: nat, len: nat)
    requires n < Pow(256, len)
    ensures ToNat(FromNat(n, len)) == n
  {
    if len > 0 {
      DropOctet(n, len);
      ToNatFromNat(n / 256, len - 1);
      ToNatSnoc(FromNat(n / 256, len - 1), n % 256);
    }
  }

  lemma {:induction false} FromNatToNat(s: seq<byte>)
    ensures ToNat(s) < Pow(256, |s|) && FromNat(ToNat(s), |s|) == s
  {
    if |s| > 0 {
      FromNatToNat(s[..|s| - 1]);
      assert s == s[..|s| - 1] + [s[|s| - 1]];
    }
  }

  lemma {:induction false} MinimalSize(n: nat, len: nat)
    requires n < Pow(256, len)
    ensures |Minimal(n)| <= len
  {
    if n > 0 {
      MinimalSize(n / 256, len - 1);
    }
  }

  lemma {:induction false} FromZero(len: nat)
    ensures FromNat(0, len) == Zeros(len)
  {
    if len > 0 {
      FromZero(len - 1);
    }
  }

  /** Padding the shortest form is I2OSP, for every number that fits. */
  lemma {:induction false} PaddedIsFromNat(n: nat, len: nat)
    requires n < Pow(256, len)
    ensures Padded(n, len) == FromNat(n, len)
  {
    MinimalSize(n, len);
    if n == 0 {
      FromZero(len);
    } else {
      PaddedIsFromNat(n / 256, len - 1);
      MinimalSize(n / 256, len - 1);
      var z := Zeros(len - |Minimal(n)|);
      assert z + Minimal(n) == (z + Minimal(n / 256)) + [n % 256];
    }
  }

  /** The bit length is the one exponent of two between which and the one below it the number lies. */
  lemma {:induction false} BitLenBounds(n: nat)
    ensures n == 0 ==> BitLen(n) == 0
    ensures n > 0 ==> BitLen(n) > 0 && Pow(2, BitLen(n) - 1) <= n < Pow(2, BitLen(n))
  {
    if n > 1 {
      BitLenBounds(n / 2);
    }
  }

  lemma {:induction false} PowTwoMonotone(d: nat, e: nat)
    requires d <= e
    ensures Pow(2, d) <= Pow(2, e)
  {
    PowPositive(2, d);
    if d < e {
      PowTwoMonotone(d, e - 1);
      PowPositive(2, e - 1);
    }
  }

  /** A positive number has k whole octets of bits exactly when twice the number lies within that octet's powers of two. */
  lemma WholeOctetsIff(n: nat, k: nat)
    requires n > 0
    ensures BitLen(n) / 8 == k <==> Pow(2, 8 * k) <= 2 * n < Pow(2, 8 * k + 8)
  {
    hide BitLen;
    BitLenBounds(n);
    var b := BitLen(n);
    assert Pow(2, b) == 2 * Pow(2, b - 1);
    if b / 8 == k {
      PowTwoMonotone(8 * k, b);
      PowTwoMonotone(b, 8 * k + 7);
      assert Pow(2, 8 * k + 8) == 2 * Pow(2, 8 * k + 7);
    } else if b < 8 * k {
      PowTwoMonotone(b, 8 * k - 1);
      assert Pow(2, 8 * k) == 2 * Pow(2, 8 * k - 1);
    } else {
      PowTwoMonotone(8 * k + 8, b);
    }
  }

  /** A number of a whole number of octets of bits is below that octet's power of 256. */
  lemma WholeOctetsHold(n: nat)
    requires BitLen(n) % 8 == 0
    ensures n < Pow(256, BitLen(n) / 8)
  {
    BitLenBounds(n);
    PowMul(2, 8, BitLen(n) / 8);
    BitWidths();
  }

  /** n has octet i, counted from the front of len octets, as its digit to the base 256. */
  lemma {:induction false} FromNatAt(n: nat, len: nat, i: nat)
    requires i < len
    ensures Pow(256, len - 1 - i) > 0 && FromNat(n, len)[i] == n / Pow(256, len - 1 - i) % 256
  {
    PowPositive(256, len - 1 - i);
    if i < len - 1 {
      FromNatAt(n / 256, len - 1, i);
      DivDiv(n, Pow(256, len - 2 - i));
    }
  }

  /** The shortest form reads back as the number and does not begin with a zero octet. */
  lemma {:induction false} MinimalIsShortest(n: nat)
    ensures ToNat(Minimal(n)) == n
    ensures n == 0 ==> Minimal(n) == []
    ensures n > 0 ==> |Minimal(n)| > 0 && Minimal(n)[0] != 0
  {
    if n > 0 {
      MinimalIsShortest(n / 256);
      ToNatSnoc(Minimal(n / 256), n % 256);
    }
  }
}
