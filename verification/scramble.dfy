/** The modulus obfuscation of the login handshake and its inverse. */
module Scramble {
  import opened Bytes

  const MODULUS_SIZE: nat := 128
  const SWAP_OFFSET_1: nat := 0x00
  const SWAP_OFFSET_2: nat := 0x4D
  const SWAP_LENGTH: nat := 4
  const XOR_BLOCK_1: nat := 0x00
  const XOR_BLOCK_2: nat := 0x40
  const XOR_BLOCK_SIZE: nat := 0x40
  const XOR_OFFSET_1: nat := 0x0D
  const XOR_OFFSET_2: nat := 0x34
  const XOR_LENGTH: nat := 4

  type Modulus = s: seq<byte> | |s| == MODULUS_SIZE witness Zeros(MODULUS_SIZE)

  // ---- what one loop does to the whole string ----

  /** s with its n bytes at i and its n bytes at j exchanged. */
  function Swapped(s: seq<byte>, i: nat, j: nat, n: nat): (r: seq<byte>)
    requires i + n <= j && j + n <= |s|
    ensures |r| == |s|
  {
    seq(|s|, k requires 0 <= k < |s| =>
      if i <= k < i + n then s[k - i + j] else if j <= k < j + n then s[k - j + i] else s[k])
  }

  /** s with its n bytes at j added, bit by bit, to its n bytes at i. */
  function Xored(s: seq<byte>, i: nat, j: nat, n: nat): (r: seq<byte>)
    requires i + n <= |s| && j + n <= |s|
    ensures |r| == |s|
  {
    seq(|s|, k requires 0 <= k < |s| => if i <= k < i + n then Xor8(s[k], s[k - i + j]) else s[k])
  }

  function Scrambled(m: Modulus): (r: Modulus) {
    var s1 := Swapped(m, SWAP_OFFSET_1, SWAP_OFFSET_2, SWAP_LENGTH);
    var s2 := Xored(s1, XOR_BLOCK_1, XOR_BLOCK_2, XOR_BLOCK_SIZE);
    var s3 := Xored(s2, XOR_OFFSET_1, XOR_OFFSET_2, XOR_LENGTH);
    Xored(s3, XOR_BLOCK_2, XOR_BLOCK_1, XOR_BLOCK_SIZE)
  }

  function Unscrambled(m: Modulus): (r: Modulus) {
    var s1 := Xored(m, XOR_BLOCK_2, XOR_BLOCK_1, XOR_BLOCK_SIZE);
    var s2 := Xored(s1, XOR_OFFSET_1, XOR_OFFSET_2, XOR_LENGTH);
    var s3 := Xored(s2, XOR_BLOCK_1, XOR_BLOCK_2, XOR_BLOCK_SIZE);
    Swapped(s3, SWAP_OFFSET_1, SWAP_OFFSET_2, SWAP_LENGTH)
  }

  // ---- the loops ----

  method SwapRanges(a: array<byte>, i: nat, j: nat, n: nat)
    requires i + n <= j && j + n <= a.Length
    modifies a
    ensures a[..] == Swapped(old(a[..]), i, j, n)
  {
    for t := 0 to n
      invariant forall k :: 0 <= k < a.Length ==>
        a[k] == old(a[..])[if i <= k < i + t then k - i + j else if j <= k < j + t then k - j + i else k]
    {
      a[i + t], a[j + t] := a[j + t], a[i + t];
    }
  }

  method XorRanges(a: array<byte>, i: nat, j: nat, n: nat)
    requires (i + n <= j && j + n <= a.Length) || (j + n <= i && i + n <= a.Length)
    modifies a
    ensures a[..] == Xored(old(a[..]), i, j, n)
  {
    ghost var s := a[..];
    for t := 0 to n
      invariant forall k :: i + t <= k < a.Length ==> a[k] == s[k]
      invariant forall k :: 0 <= k < i ==> a[k] == s[k]
      invariant forall k :: i <= k < i + t ==> a[k] == Xor8(s[k], s[k - i + j])
    {
      assert a[j + t] == s[j + t];
      a[i + t] := Xor8(a[i + t], a[j + t]);
    }
  }

  method ScrambleModulus(modulus: array<byte>) returns (scrambled: array<byte>)
    requires modulus.Length == MODULUS_SIZE
    ensures fresh(scrambled)
    ensures scrambled[..] == Scrambled(modulus[..])
  {
    scrambled := new byte[MODULUS_SIZE](i requires 0 <= i < MODULUS_SIZE reads modulus => modulus[i]);
    assert scrambled[..] == modulus[..];
    SwapRanges(scrambled, SWAP_OFFSET_1, SWAP_OFFSET_2, SWAP_LENGTH);
    XorRanges(scrambled, XOR_BLOCK_1, XOR_BLOCK_2, XOR_BLOCK_SIZE);
    XorRanges(scrambled, XOR_OFFSET_1, XOR_OFFSET_2, XOR_LENGTH);
    XorRanges(scrambled, XOR_BLOCK_2, XOR_BLOCK_1, XOR_BLOCK_SIZE);
  }

  method UnscrambleModulus(scrambled: array<byte>) returns (unscrambled: array<byte>)
    requires scrambled.Length == MODULUS_SIZE
    ensures fresh(unscrambled)
    ensures unscrambled[..] == Unscrambled(scrambled[..])
  {
    unscrambled := new byte[MODULUS_SIZE](i requires 0 <= i < MODULUS_SIZE reads scrambled => scrambled[i]);
    assert unscrambled[..] == scrambled[..];
    XorRanges(unscrambled, XOR_BLOCK_2, XOR_BLOCK_1, XOR_BLOCK_SIZE);
    XorRanges(unscrambled, XOR_OFFSET_1, XOR_OFFSET_2, XOR_LENGTH);
    XorRanges(unscrambled, XOR_BLOCK_1, XOR_BLOCK_2, XOR_BLOCK_SIZE);
    SwapRanges(unscrambled, SWAP_OFFSET_1, SWAP_OFFSET_2, SWAP_LENGTH);
  }

  // ---- what scrambling makes of each byte ----

  lemma SwappedAt(s: seq<byte>, k: nat)
    requires |s| == 128 && k < 128
    ensures Swapped(s, 0, 77, 4)[k] == s[if k < 4 then k + 77 else if 77 <= k < 81 then k - 77 else k]
  {
  }

  lemma XoredAt(s: seq<byte>, i: nat, j: nat, n: nat, k: nat)
    requires i + n <= |s| && j + n <= |s| && k < |s|
    ensures Xored(s, i, j, n)[k] == if i <= k < i + n then Xor8(s[k], s[k - i + j]) else s[k]
  {
  }

  /**
   * The first half becomes the exclusive or of the halves, after the bytes 0 to 3 have changed places with 77 to 80, and the
   * second half what the first was; the bytes 52 to 55 of both halves go into the bytes 13 to 16 of both on the way.
   */
  lemma ScrambledAt(m: Modulus, k: nat)
    requires k < 64
    ensures var a, b := m[if k < 4 then k + 77 else k], m[if 13 <= k < 17 then k - 13 else k + 64];
            if 13 <= k < 17 then
              var x := Xor8(m[k + 39], m[k + 103]);
              Scrambled(m)[k] == Xor8(Xor8(a, b), x) && Scrambled(m)[k + 64] == Xor8(a, x)
            else Scrambled(m)[k] == Xor8(a, b) && Scrambled(m)[k + 64] == a
  {
    hide Swapped, Xored, Xor8;
    var s1 := Swapped(m, 0, 77, 4);
    var s2 := Xored(s1, 0, 64, 64);
    var s3 := Xored(s2, 13, 52, 4);
    SwappedAt(m, k);
    SwappedAt(m, k + 64);
    XoredAt(s1, 0, 64, 64, k);
    XoredAt(s1, 0, 64, 64, k + 64);
    XoredAt(s2, 13, 52, 4, k);
    XoredAt(s2, 13, 52, 4, k + 64);
    XoredAt(s3, 64, 0, 64, k);
    XoredAt(s3, 64, 0, 64, k + 64);
    assert Scrambled(m)[k] == s3[k] && Scrambled(m)[k + 64] == Xor8(s1[k + 64], s3[k]);
    var a, b := s1[k], s1[k + 64];
    if 13 <= k < 17 {
      SwappedAt(m, k + 39);
      SwappedAt(m, k + 103);
      XoredAt(s1, 0, 64, 64, k + 39);
      Xor8Cancels(a, b, Xor8(m[k + 39], m[k + 103]));
    } else {
      Xor8Commutes(a, b);
      Xor8UndoesXor8(a, b);
      Xor8Commutes(b, Xor8(a, b));
    }
  }

  lemma Xor8Cancels(a: byte, b: byte, x: byte)
    ensures Xor8(b, Xor8(Xor8(a, b), x)) == Xor8(a, x)
  {
    hide Xor8;
    Xor8Associates(b, Xor8(a, b), x);
    Xor8Commutes(b, Xor8(a, b));
    Xor8UndoesXor8(a, b);
  }

  // ---- the two are mutual inverses ----

  lemma SwapTwice(s: seq<byte>, i: nat, j: nat, n: nat)
    requires i + n <= j && j + n <= |s|
    ensures Swapped(Swapped(s, i, j, n), i, j, n) == s
  {
  }

  lemma XorTwice(s: seq<byte>, i: nat, j: nat, n: nat)
    requires (i + n <= j && j + n <= |s|) || (j + n <= i && i + n <= |s|)
    ensures Xored(Xored(s, i, j, n), i, j, n) == s
  {
    var r := Xored(s, i, j, n);
    forall k | 0 <= k < |s|
      ensures Xored(r, i, j, n)[k] == s[k]
    {
      XorTwiceAt(s, i, j, n, k);
    }
  }

  lemma XorTwiceAt(s: seq<byte>, i: nat, j: nat, n: nat, k: nat)
    requires (i + n <= j && j + n <= |s|) || (j + n <= i && i + n <= |s|)
    requires k < |s|
    ensures Xored(Xored(s, i, j, n), i, j, n)[k] == s[k]
  {
    if i <= k < i + n {
      var l := k - i + j;
      assert Xored(s, i, j, n)[l] == s[l];
      Xor8UndoesXor8(s[k], s[l]);
    }
  }

  lemma UnscrambleInvertsScramble(m: Modulus)
    ensures Unscrambled(Scrambled(m)) == m
  {
    var s1 := Swapped(m, SWAP_OFFSET_1, SWAP_OFFSET_2, SWAP_LENGTH);
    var s2 := Xored(s1, XOR_BLOCK_1, XOR_BLOCK_2, XOR_BLOCK_SIZE);
    var s3 := Xored(s2, XOR_OFFSET_1, XOR_OFFSET_2, XOR_LENGTH);
    XorTwice(s3, XOR_BLOCK_2, XOR_BLOCK_1, XOR_BLOCK_SIZE);
    XorTwice(s2, XOR_OFFSET_1, XOR_OFFSET_2, XOR_LENGTH);
    XorTwice(s1, XOR_BLOCK_1, XOR_BLOCK_2, XOR_BLOCK_SIZE);
    SwapTwice(m, SWAP_OFFSET_1, SWAP_OFFSET_2, SWAP_LENGTH);
  }

  lemma ScrambleInvertsUnscramble(m: Modulus)
    ensures Scrambled(Unscrambled(m)) == m
  {
    var s1 := Xored(m, XOR_BLOCK_2, XOR_BLOCK_1, XOR_BLOCK_SIZE);
    var s2 := Xored(s1, XOR_OFFSET_1, XOR_OFFSET_2, XOR_LENGTH);
    var s3 := Xored(s2, XOR_BLOCK_1, XOR_BLOCK_2, XOR_BLOCK_SIZE);
    SwapTwice(s3, SWAP_OFFSET_1, SWAP_OFFSET_2, SWAP_LENGTH);
    XorTwice(s2, XOR_BLOCK_1, XOR_BLOCK_2, XOR_BLOCK_SIZE);
    XorTwice(s1, XOR_OFFSET_1, XOR_OFFSET_2, XOR_LENGTH);
    XorTwice(m, XOR_BLOCK_2, XOR_BLOCK_1, XOR_BLOCK_SIZE);
  }

  /** Scrambling is a bijection on moduli. */
  lemma ScrambleIsBijective(m: Modulus, m': Modulus)
    ensures Scrambled(m) == Scrambled(m') <==> m == m'
    ensures exists n: Modulus :: Scrambled(n) == m
  {
    UnscrambleInvertsScramble(m);
    UnscrambleInvertsScramble(m');
    ScrambleInvertsUnscramble(m);
  }
}
