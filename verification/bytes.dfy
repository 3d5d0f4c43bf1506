/** Bytes, 32-bit words in little-endian order, exclusive or, and the padding shared by every packet format. */
module Bytes {
  import opened NumberTheory

  const WORD_LIMIT: int := 0x1_0000_0000
  type byte = x: int | 0 <= x < 0x100
  type word = x: int | 0 <= x < 0x1_0000_0000

  // ---- little-endian 32-bit words ----

  function LoadWord(s: seq<byte>): word
    requires |s| == 4
  {
    var a: int, b: int, c: int, d: int := s[0], s[1], s[2], s[3];
    a + 0x100 * b + 0x1_0000 * c + 0x100_0000 * d
  }

  function StoreWord(w: word): (s: seq<byte>)
    ensures |s| == 4
  {
    [w % 0x100, w / 0x100 % 0x100, w / 0x1_0000 % 0x100, w / 0x100_0000 % 0x100]
  }

  lemma LoadStore(w: word)
    ensures LoadWord(StoreWord(w)) == w
  {
    var a, b := w / 0x100, w / 0x1_0000;
    assert b == a / 0x100 && w / 0x100_0000 == b / 0x100;
  }

  lemma StoreLoad(s: seq<byte>)
    requires |s| == 4
    ensures StoreWord(LoadWord(s)) == s
  {
    var a: int, b: int, c: int, d: int := s[0], s[1], s[2], s[3];
    Digits(a, b, c, d);
    assert s == [a, b, c, d];
  }

  lemma Digits(a: int, b: int, c: int, d: int)
    requires 0 <= a < 0x100 && 0 <= b < 0x100 && 0 <= c < 0x100 && 0 <= d < 0x100
    ensures var w := a + 0x100 * b + 0x1_0000 * c + 0x100_0000 * d;
            w % 0x100 == a && w / 0x100 % 0x100 == b && w / 0x1_0000 % 0x100 == c && w / 0x100_0000 % 0x100 == d
  {
    var w := a + 0x100 * b + 0x1_0000 * c + 0x100_0000 * d;
    assert w / 0x100 == b + 0x100 * c + 0x1_0000 * d;
    assert w / 0x1_0000 == c + 0x100 * d;
    assert w / 0x100_0000 == d;
  }

  // ---- 32-bit arithmetic, modulo 2^32 ----

  function Plus(a: word, b: word): word {
    (a + b) % WORD_LIMIT
  }

  function Minus(a: word, b: word): word {
    (a - b) % WORD_LIMIT
  }

  /** Sums and differences are those of the integers, reduced modulo 2^32. */
  lemma WrapAround(a: word, b: word)
    ensures Plus(a, b) == a + b || Plus(a, b) == a + b - 0x1_0000_0000
    ensures Minus(a, b) == a - b || Minus(a, b) == a - b + 0x1_0000_0000
    ensures (Minus(a, b) + b) % 0x1_0000_0000 == a
  {
  }

  lemma PlusAssociative(a: word, b: word, c: word)
    ensures Plus(Plus(a, b), c) == Plus(a, Plus(b, c))
  {
  }

  lemma MinusUndoesPlus(a: word, b: word)
    ensures Minus(Plus(a, b), b) == a
  {
  }

  // ---- exclusive or, bit by bit ----

  lemma BitWidths()
    ensures Pow(2, 8) == 0x100 && Pow(2, 32) == 0x1_0000_0000
  {
    PowAdd(2, 8, 8);
    PowAdd(2, 16, 16);
  }

  /** Bit i of a number. */
  predicate Bit(w: nat, i: nat) {
    if i == 0 then w % 2 == 1 else Bit(w / 2, i - 1)
  }

  /** That is its digit i to the base two. */
  lemma {:induction false} BitIsDigit(w: nat, i: nat)
    ensures Pow(2, i) > 0 && (Bit(w, i) <==> w / Pow(2, i) % 2 == 1)
  {
    PowPositive(2, i);
    if i > 0 {
      BitIsDigit(w / 2, i - 1);
      HalfDiv(w, Pow(2, i - 1));
    }
  }

  lemma HalfDiv(w: int, p: nat)
    requires p > 0
    ensures w / 2 / p == w / (2 * p)
  {
    var t, r := w / 2 / p, w / 2 % p;
    assert w / 2 == p * t + r;
    assert 2 * (p * t) == t * (2 * p);
    DivModUnique(w, t, 2 * r + w % 2, 2 * p);
  }

  function XorBits(n: nat, a: nat, b: nat): (x: nat)
    ensures x < Pow(2, n)
  {
    if n == 0 then 0 else (if a % 2 == b % 2 then 0 else 1) + 2 * XorBits(n - 1, a / 2, b / 2)
  }

  lemma {:induction false} XorBitsAt(n: nat, a: nat, b: nat, i: nat)
    ensures Bit(XorBits(n, a, b), i) <==> i < n && Bit(a, i) != Bit(b, i)
    decreases n
  {
    if n == 0 {
      ZeroHasNoBits(i);
    } else if i > 0 {
      XorBitsHalf(n, a, b);
      XorBitsAt(n - 1, a / 2, b / 2, i - 1);
    }
  }

  lemma {:induction false} ZeroHasNoBits(i: nat)
    ensures !Bit(0, i)
  {
    if i > 0 {
      ZeroHasNoBits(i - 1);
    }
  }

  lemma {:induction false} XorBitsCommute(n: nat, a: nat, b: nat)
    ensures XorBits(n, a, b) == XorBits(n, b, a)
  {
    if n > 0 {
      XorBitsCommute(n - 1, a / 2, b / 2);
    }
  }

  lemma XorBitsHalf(n: nat, a: nat, b: nat)
    requires n > 0
    ensures XorBits(n, a, b) / 2 == XorBits(n - 1, a / 2, b / 2)
    ensures XorBits(n, a, b) % 2 == if a % 2 == b % 2 then 0 else 1
  {
  }

  lemma {:induction false} XorBitsAssociate(n: nat, a: nat, b: nat, c: nat)
    ensures XorBits(n, XorBits(n, a, b), c) == XorBits(n, a, XorBits(n, b, c))
  {
    if n > 0 {
      XorBitsAssociate(n - 1, a / 2, b / 2, c / 2);
      XorBitsHalf(n, a, b);
      XorBitsHalf(n, b, c);
    }
  }

  lemma {:induction false} XorBitsSelf(n: nat, a: nat)
    ensures XorBits(n, a, a) == 0
  {
    if n > 0 {
      XorBitsSelf(n - 1, a / 2);
    }
  }

  lemma {:induction false} XorBitsZero(n: nat, a: nat)
    requires a < Pow(2, n)
    ensures XorBits(n, a, 0) == a
  {
    if n > 0 {
      XorBitsZero(n - 1, a / 2);
    }
  }

  function Xor8(a: byte, b: byte): byte {
    BitWidths();
    XorBits(8, a, b)
  }

  function Xor(a: word, b: word): word {
    BitWidths();
    XorBits(32, a, b)
  }

  /** A bit of an exclusive or is set exactly when it is set in one of the two and not in the other. */
  lemma XorAt(a: word, b: word, i: nat)
    ensures Bit(Xor(a, b), i) <==> i < 32 && Bit(a, i) != Bit(b, i)
  {
    XorBitsAt(32, a, b, i);
  }

  lemma Xor8At(a: byte, b: byte, i: nat)
    ensures Bit(Xor8(a, b), i) <==> i < 8 && Bit(a, i) != Bit(b, i)
  {
    XorBitsAt(8, a, b, i);
  }

  /** A number is determined by its bits. */
  lemma {:induction false} SameBits(a: nat, b: nat)
    requires forall i: nat :: Bit(a, i) <==> Bit(b, i)
    ensures a == b
    decreases a + b
  {
    assert Bit(a, 0) <==> Bit(b, 0);
    if a + b > 0 {
      forall i: nat
        ensures Bit(a / 2, i) <==> Bit(b / 2, i)
      {
        assert Bit(a, i + 1) <==> Bit(b, i + 1);
      }
      SameBits(a / 2, b / 2);
    }
  }

  lemma Xor8UndoesXor8(a: byte, b: byte)
    ensures Xor8(Xor8(a, b), b) == a
  {
    hide XorBits;
    XorBitsAssociate(8, a, b, b);
    XorBitsSelf(8, b);
    BitWidths();
    XorBitsZero(8, a);
  }

  lemma Xor8Commutes(a: byte, b: byte)
    ensures Xor8(a, b) == Xor8(b, a)
  {
    hide XorBits;
    XorBitsCommute(8, a, b);
  }

  lemma Xor8Associates(a: byte, b: byte, c: byte)
    ensures Xor8(Xor8(a, b), c) == Xor8(a, Xor8(b, c))
  {
    hide XorBits;
    XorBitsAssociate(8, a, b, c);
  }

  lemma XorCommutes(a: word, b: word)
    ensures Xor(a, b) == Xor(b, a)
  {
    hide XorBits;
    XorBitsCommute(32, a, b);
  }

  lemma XorAssociates(a: word, b: word, c: word)
    ensures Xor(Xor(a, b), c) == Xor(a, Xor(b, c))
  {
    hide XorBits;
    XorBitsAssociate(32, a, b, c);
  }

  lemma XorZero(a: word)
    ensures Xor(a, 0) == a
  {
    hide XorBits;
    BitWidths();
    XorBitsZero(32, a);
  }

  lemma XorSelf(a: word)
    ensures Xor(a, a) == 0
  {
    hide XorBits;
    XorBitsSelf(32, a);
  }

  lemma XorUndoesXor(a: word, b: word)
    ensures Xor(Xor(a, b), b) == a
  {
    hide Xor;
    XorAssociates(a, b, b);
    XorSelf(b);
    XorZero(a);
  }

  // ---- byte strings as word strings ----

  /** The words of a byte string whose length is a multiple of four. */
  function WordsOf(s: seq<byte>): (ws: seq<word>)
    requires |s| % 4 == 0
    ensures |ws| == |s| / 4
  {
    if |s| == 0 then [] else [LoadWord(s[..4])] + WordsOf(s[4..])
  }

  function BytesOf(ws: seq<word>): (s: seq<byte>)
    ensures |s| == 4 * |ws|
  {
    if |ws| == 0 then [] else StoreWord(ws[0]) + BytesOf(ws[1..])
  }

  /** Word i of a byte string is made of its bytes 4i to 4i + 3, lowest first. */
  lemma {:induction false} WordsOfAt(s: seq<byte>, i: nat)
    requires |s| % 4 == 0 && 4 * i < |s|
    ensures WordsOf(s)[i] == s[4 * i] as int + 0x100 * s[4 * i + 1] as int
                             + 0x1_0000 * s[4 * i + 2] as int + 0x100_0000 * s[4 * i + 3] as int
  {
    if i > 0 {
      WordsOfAt(s[4..], i - 1);
    }
  }

  lemma {:induction false} WordsOfBytesOf(ws: seq<word>)
    ensures WordsOf(BytesOf(ws)) == ws
  {
    if |ws| > 0 {
      LoadStore(ws[0]);
      WordsOfBytesOf(ws[1..]);
      assert BytesOf(ws)[..4] == StoreWord(ws[0]);
      assert BytesOf(ws)[4..] == BytesOf(ws[1..]);
    }
  }

  lemma {:induction false} BytesOfWordsOf(s: seq<byte>)
    requires |s| % 4 == 0
    ensures BytesOf(WordsOf(s)) == s
  {
    if |s| > 0 {
      StoreLoad(s[..4]);
      BytesOfWordsOf(s[4..]);
      assert s == s[..4] + s[4..];
    }
  }

  lemma {:induction false} BytesOfAt(ws: seq<word>, i: nat)
    requires i < |ws|
    ensures BytesOf(ws)[4 * i..4 * i + 4] == StoreWord(ws[i])
  {
    hide StoreWord;
    if i > 0 {
      BytesOfAt(ws[1..], i - 1);
      assert BytesOf(ws)[4 * i..4 * i + 4] == BytesOf(ws[1..])[4 * (i - 1)..4 * (i - 1) + 4];
    }
  }

  lemma {:induction false} WordsOfConcat(s: seq<byte>, t: seq<byte>)
    requires |s| % 4 == 0 && |t| % 4 == 0
    ensures WordsOf(s + t) == WordsOf(s) + WordsOf(t)
  {
    if |s| == 0 {
      assert s + t == t;
    } else {
      assert (s + t)[..4] == s[..4];
      assert (s + t)[4..] == s[4..] + t;
      WordsOfConcat(s[4..], t);
    }
  }

  lemma {:induction false} BytesOfConcat(ws: seq<word>, vs: seq<word>)
    ensures BytesOf(ws + vs) == BytesOf(ws) + BytesOf(vs)
  {
    if |ws| == 0 {
      assert ws + vs == vs;
    } else {
      assert (ws + vs)[1..] == ws[1..] + vs;
      BytesOfConcat(ws[1..], vs);
    }
  }

  lemma WordsOfSnoc(s: seq<byte>, t: seq<byte>)
    requires |s| % 4 == 0 && |t| == 4
    ensures WordsOf(s + t) == WordsOf(s) + [LoadWord(t)]
  {
    WordsOfConcat(s, t);
    assert WordsOf(t[4..]) == [];
    assert t[..4] == t;
  }

  lemma BytesOfSnoc(ws: seq<word>, w: word)
    ensures BytesOf(ws + [w]) == BytesOf(ws) + StoreWord(w)
  {
    BytesOfConcat(ws, [w]);
    assert [w][1..] == [];
    assert BytesOf([w]) == StoreWord(w) + BytesOf([]);
  }

  // ---- padding ----

  /** The least multiple of eight that is at least n. */
  function RoundUp8(n: nat): (r: nat)
    ensures r % 8 == 0 && n <= r < n + 8
  {
    if n % 8 == 0 then n else n + (8 - n % 8)
  }

  function Zeros(n: nat): (s: seq<byte>)
    ensures |s| == n && forall i :: 0 <= i < n ==> s[i] == 0
  {
    seq(n, _ => 0)
  }
}
