/** Block-wise encryption, the chained XOR pass and the XOR checksum, all on a caller's buffer. */
module Blowfish {
  import opened Bytes
  import opened Buffers

  const BLOCK_SIZE: nat := 8
  const CHECKSUM_SIZE: nat := 4
  const XOR_SKIP_BYTES: nat := 4
  const XOR_STOP_OFFSET: nat := 8

  type Block = s: seq<byte> | |s| == BLOCK_SIZE witness Zeros(BLOCK_SIZE)

  // ---- electronic codebook ----

  /** A block function applied to each block of a byte string. */
  function Ecb(f: Block -> Block, s: seq<byte>): (r: seq<byte>)
    requires |s| % BLOCK_SIZE == 0
    ensures |r| == |s|
  {
    if |s| == 0 then [] else
      var n := |s| - BLOCK_SIZE;
      var b: Block := s[n..];
      Ecb(f, s[..n]) + f(b)
  }

  lemma EcbSnoc(f: Block -> Block, s: seq<byte>, b: Block)
    requires |s| % BLOCK_SIZE == 0
    ensures Ecb(f, s + b) == Ecb(f, s) + f(b)
  {
    assert (s + b)[..|s|] == s;
    assert (s + b)[|s|..] == b;
  }

  /** Block i of the result is the block function's value for block i. */
  lemma {:induction false} EcbAt(f: Block -> Block, s: seq<byte>, i: nat)
    requires |s| % 8 == 0 && 8 * i + 8 <= |s|
    ensures Ecb(f, s)[8 * i..8 * i + 8] == f(s[8 * i..8 * i + 8])
  {
    hide Ecb;
    var n := |s| - 8;
    var init, last: Block := s[..n], s[n..];
    EcbSnoc(f, init, last);
    assert s == init + last;
    if 8 * i < n {
      EcbAt(f, init, i);
      assert init[8 * i..8 * i + 8] == s[8 * i..8 * i + 8];
      assert (Ecb(f, init) + f(last))[8 * i..8 * i + 8] == Ecb(f, init)[8 * i..8 * i + 8];
    } else {
      assert s[8 * i..8 * i + 8] == last;
    }
  }

  /** One key's block functions. */
  datatype Cipher = Cipher(enc: Block -> Block, dec: Block -> Block) {
    /** All that is assumed of the block functions. */
    ghost predicate Invertible() {
      forall b: Block :: dec(enc(b)) == b
    }

    lemma {:induction false} EcbRoundTrip(s: seq<byte>)
      requires Invertible() && |s| % BLOCK_SIZE == 0
      ensures Ecb(dec, Ecb(enc, s)) == s
    {
      if |s| > 0 {
        var n := |s| - BLOCK_SIZE;
        var b: Block := s[n..];
        EcbRoundTrip(s[..n]);
        EcbSnoc(dec, Ecb(enc, s[..n]), enc(b));
        assert s == s[..n] + b;
      }
    }

    method Encrypt(data: array<byte>, offset: nat, size: nat) returns (ok: bool)
      modifies data
      ensures ok <==> size % BLOCK_SIZE == 0 && offset + size <= data.Length
      ensures ok ==> data[..] == Splice(old(data[..]), offset, Ecb(enc, old(data[offset..offset + size])))
      ensures !ok ==> data[..] == old(data[..])
    {
      if size % BLOCK_SIZE != 0 || offset + size > data.Length {
        return false;
      }
      MapBlocks(enc, data, offset, size);
      return true;
    }

    method Decrypt(data: array<byte>, offset: nat, size: nat) returns (ok: bool)
      modifies data
      ensures ok <==> size % BLOCK_SIZE == 0 && offset + size <= data.Length
      ensures ok ==> data[..] == Splice(old(data[..]), offset, Ecb(dec, old(data[offset..offset + size])))
      ensures !ok ==> data[..] == old(data[..])
    {
      if size % BLOCK_SIZE != 0 || offset + size > data.Length {
        return false;
      }
      MapBlocks(dec, data, offset, size);
      return true;
    }
  }

  method MapBlocks(f: Block -> Block, data: array<byte>, offset: nat, size: nat)
    requires size % BLOCK_SIZE == 0 && offset + size <= data.Length
    modifies data
    ensures data[..] == Splice(old(data[..]), offset, Ecb(f, old(data[offset..offset + size])))
  {
    hide Splice, Ecb;
    ghost var d := data[..];
    var i := offset;
    BlocksStart(f, d, offset);
    while i < offset + size
      invariant offset <= i <= offset + size && (i - offset) % BLOCK_SIZE == 0
      invariant data[..] == Splice(d, offset, Ecb(f, d[offset..i]))
    {
      BlocksStep(f, d, offset, i);
      var block: Block := data[i..i + BLOCK_SIZE];
      Put(data, i, f(block));
      i := i + BLOCK_SIZE;
    }
  }

  lemma BlocksStart(f: Block -> Block, d: seq<byte>, offset: nat)
    requires offset <= |d|
    ensures Splice(d, offset, Ecb(f, d[offset..offset])) == d
  {
  }

  lemma BlocksStep(f: Block -> Block, d: seq<byte>, offset: nat, i: nat)
    requires offset <= i && (i - offset) % BLOCK_SIZE == 0 && i + BLOCK_SIZE <= |d|
    ensures var data := Splice(d, offset, Ecb(f, d[offset..i]));
            && (i + BLOCK_SIZE - offset) % BLOCK_SIZE == 0
            && data[i..i + BLOCK_SIZE] == d[i..i + BLOCK_SIZE]
            && Splice(data, i, f(d[i..i + BLOCK_SIZE])) == Splice(d, offset, Ecb(f, d[offset..i + BLOCK_SIZE]))
  {
    hide Splice, Ecb;
    SpliceElsewhere(d, offset, Ecb(f, d[offset..i]), i, i + BLOCK_SIZE);
    var block: Block := d[i..i + BLOCK_SIZE];
    SpliceAppend(d, offset, Ecb(f, d[offset..i]), f(block));
    SliceSplit(d, offset, i, i + BLOCK_SIZE);
    EcbSnoc(f, d[offset..i], block);
  }

  // ---- XOR checksum ----

  function XorAll(ws: seq<word>): word {
    if |ws| == 0 then 0 else Xor(XorAll(ws[..|ws| - 1]), ws[|ws| - 1])
  }

  /** s with its last word replaced by the XOR of the words before it. */
  function Checksummed(s: seq<byte>): (r: seq<byte>)
    requires |s| % 4 == 0 && |s| >= CHECKSUM_SIZE
    ensures |r| == |s|
  {
    var body := s[..|s| - CHECKSUM_SIZE];
    body + StoreWord(XorAll(WordsOf(body)))
  }

  predicate ChecksumValid(s: seq<byte>) {
    |s| % CHECKSUM_SIZE == 0 && |s| > CHECKSUM_SIZE && XorAll(WordsOf(s)) == 0
  }

  /** How many of the words have bit i set. */
  function Ones(ws: seq<word>, i: nat): nat {
    if |ws| == 0 then 0 else Ones(ws[..|ws| - 1], i) + if Bit(ws[|ws| - 1], i) then 1 else 0
  }

  /** Whether each of the 32 bits is set in an even number of the words. */
  predicate Even(ws: seq<word>) {
    forall i: nat :: i < 32 ==> Ones(ws, i) % 2 == 0
  }

  lemma {:induction false} XorAllAt(ws: seq<word>, i: nat)
    requires i < 32
    ensures Bit(XorAll(ws), i) <==> Ones(ws, i) % 2 == 1
  {
    hide Xor, Bit;
    if |ws| == 0 {
      ZeroHasNoBits(i);
    } else {
      XorAllAt(ws[..|ws| - 1], i);
      XorAt(XorAll(ws[..|ws| - 1]), ws[|ws| - 1], i);
    }
  }

  /** A checksum holds exactly when there are words to cover and each bit is set in an even number of all the words. */
  lemma ChecksumValidIff(s: seq<byte>)
    ensures ChecksumValid(s) <==> |s| % 4 == 0 && |s| > 4 && Even(WordsOf(s))
  {
    hide Ones, XorAll, Even, WordsOf;
    if |s| % 4 == 0 {
      ZeroIffEven(WordsOf(s));
    }
  }

  lemma ZeroIffEven(ws: seq<word>)
    ensures XorAll(ws) == 0 <==> Even(ws)
  {
    hide Ones, XorAll, Bit, Xor;
    forall i: nat
      ensures Bit(XorAll(ws), i) <==> i < 32 && Ones(ws, i) % 2 == 1
      ensures !Bit(0, i)
    {
      ZeroHasNoBits(i);
      XorZero(XorAll(ws));
      XorAt(XorAll(ws), 0, i);
      if i < 32 {
        XorAllAt(ws, i);
      }
    }
    if Even(ws) {
      SameBits(XorAll(ws), 0);
    } else {
      var i: nat :| i < 32 && Ones(ws, i) % 2 != 0;
      assert Bit(XorAll(ws), i) && !Bit(0, i);
    }
  }

  lemma XorAllSnoc(s: seq<byte>, t: seq<byte>)
    requires |s| % 4 == 0 && |t| == 4
    ensures XorAll(WordsOf(s + t)) == Xor(XorAll(WordsOf(s)), LoadWord(t))
  {
    hide Xor, Plus, Minus, LoadWord, StoreWord;
    WordsOfSnoc(s, t);
    XorAllPut(WordsOf(s), LoadWord(t));
  }

  method AppendChecksum(data: array<byte>, offset: nat, size: nat)
    requires size % 4 == 0 && size >= CHECKSUM_SIZE && offset + size <= data.Length
    modifies data
    ensures data[..] == Splice(old(data[..]), offset, Checksummed(old(data[offset..offset + size])))
  {
    var checksum := XorRange(data, offset, size - CHECKSUM_SIZE);
    ChecksummedIsSplice(data[..], offset, size);
    Put(data, offset + size - CHECKSUM_SIZE, StoreWord(checksum));
  }

  /** The loop both checksum routines run. */
  method XorRange(data: array<byte>, offset: nat, size: nat) returns (checksum: word)
    requires size % 4 == 0 && offset + size <= data.Length
    ensures checksum == XorAll(WordsOf(data[offset..offset + size]))
  {
    hide Xor, LoadWord;
    checksum := 0;
    var i := offset;
    while i < offset + size
      invariant offset <= i <= offset + size && (i - offset) % 4 == 0
      invariant checksum == XorAll(WordsOf(data[offset..i]))
    {
      checksum := Xor(checksum, LoadWord(data[i..i + 4]));
      XorAllSnoc(data[offset..i], data[i..i + 4]);
      SliceSplit(data[..], offset, i, i + 4);
      i := i + CHECKSUM_SIZE;
    }
  }

  lemma ChecksummedIsSplice(d: seq<byte>, offset: nat, size: nat)
    requires size % 4 == 0 && size >= CHECKSUM_SIZE && offset + size <= |d|
    ensures var x := XorAll(WordsOf(d[offset..offset + (size - CHECKSUM_SIZE)]));
            Splice(d, offset + size - CHECKSUM_SIZE, StoreWord(x))
            == Splice(d, offset, Checksummed(d[offset..offset + size]))
  {
    hide XorAll, WordsOf, StoreWord;
    var s, k := d[offset..offset + size], size - CHECKSUM_SIZE;
    SubSlice(d, offset, size, 0, k);
    assert s[..k] == s[0..k];
    SpliceTail(d, offset, k, StoreWord(XorAll(WordsOf(s[..k]))));
    assert d[offset..offset + k] == s[..k];
  }

  method VerifyChecksum(data: array<byte>, offset: nat, size: nat) returns (valid: bool)
    requires offset + size <= data.Length
    ensures valid == ChecksumValid(data[offset..offset + size])
  {
    if size % CHECKSUM_SIZE != 0 || size <= CHECKSUM_SIZE {
      return false;
    }
    var checksum := XorRange(data, offset, size);
    return checksum == 0;
  }

  /** A checksum just appended verifies exactly when there is something for it to cover. */
  lemma ChecksumVerifies(s: seq<byte>)
    requires |s| % 4 == 0 && |s| >= CHECKSUM_SIZE
    ensures ChecksumValid(Checksummed(s)) <==> |s| > CHECKSUM_SIZE
  {
    var body := s[..|s| - CHECKSUM_SIZE];
    var x := XorAll(WordsOf(body));
    WordsOfSnoc(body, StoreWord(x));
    LoadStore(x);
    assert (WordsOf(body) + [x])[..|body| / 4] == WordsOf(body);
    XorSelf(x);
  }

  /** Appending a checksum is the one way to make every bit even by a change of the last word. */
  lemma ChecksummedIff(s: seq<byte>, t: seq<byte>)
    requires |s| % 4 == 0 && |s| >= 4
    ensures t == Checksummed(s) <==> |t| == |s| && t[..|s| - 4] == s[..|s| - 4] && Even(WordsOf(t))
  {
    hide XorAll, WordsOf, Even, StoreWord, LoadWord, Xor;
    if |t| == |s| && t[..|s| - 4] == s[..|s| - 4] {
      var body, last := t[..|s| - 4], t[|s| - 4..];
      assert t == body + last;
      XorAllSnoc(body, last);
      ZeroIffEven(WordsOf(t));
      XorIsZeroIff(XorAll(WordsOf(body)), LoadWord(last));
      LoadStore(XorAll(WordsOf(body)));
      StoreLoad(last);
    }
  }

  lemma XorAllPut(ws: seq<word>, w: word)
    ensures XorAll(ws + [w]) == Xor(XorAll(ws), w)
  {
    assert (ws + [w])[..|ws|] == ws;
  }

  /** Any one word can be taken out of the XOR. */
  lemma {:induction false} XorAllMiddle(a: seq<word>, x: word, c: seq<word>)
    ensures XorAll(a + [x] + c) == Xor(XorAll(a + c), x)
  {
    hide Xor;
    if |c| == 0 {
      assert a + [x] + c == a + [x] && a + c == a;
      XorAllPut(a, x);
    } else {
      var c', y := c[..|c| - 1], c[|c| - 1];
      assert a + [x] + c == (a + [x] + c') + [y] && a + c == (a + c') + [y];
      XorAllMiddle(a, x, c');
      XorAllPut(a + [x] + c', y);
      XorAllPut(a + c', y);
      SwapLast(XorAll(a + c'), x, y);
    }
  }

  lemma SwapLast(x: word, a: word, b: word)
    ensures Xor(Xor(x, a), b) == Xor(Xor(x, b), a)
  {
    hide Xor;
    XorAssociates(x, a, b);
    XorAssociates(x, b, a);
    XorCommutes(a, b);
  }

  lemma XorIsZeroIff(x: word, y: word)
    ensures Xor(x, y) == 0 <==> x == y
  {
    hide Xor;
    XorSelf(x);
    XorUndoesXor(x, y);
    XorCommutes(0, y);
    XorZero(y);
  }

  lemma ThreeParts(s: seq<byte>, k: nat, t: seq<byte>)
    requires k + 4 <= |s| && |t| == 4
    ensures s[..k] + s[k..k + 4] + s[k + 4..] == s
    ensures s[..k] + t + s[k + 4..] == Splice(s, k, t)
  {
  }

  lemma WordsOfThree(a: seq<byte>, b: seq<byte>, c: seq<byte>)
    requires |a| % 4 == 0 && |b| == 4 && |c| % 4 == 0
    ensures WordsOf(a + b + c) == WordsOf(a) + [LoadWord(b)] + WordsOf(c)
  {
    hide WordsOf, LoadWord;
    WordsOfConcat(a + b, c);
    WordsOfSnoc(a, b);
  }

  /** Replacing one aligned word of a valid text keeps it valid only if the word is put back unchanged. */
  lemma SingleWordErrorDetected(s: seq<byte>, k: nat, w: word)
    requires ChecksumValid(s) && k % 4 == 0 && k < |s|
    ensures ChecksumValid(Splice(s, k, StoreWord(w))) <==> LoadWord(s[k..k + 4]) == w
  {
    hide Xor, XorAll, WordsOf, LoadWord, StoreWord, Splice;
    var a, b, c := s[..k], s[k..k + 4], s[k + 4..];
    ThreeParts(s, k, StoreWord(w));
    WordsOfThree(a, b, c);
    WordsOfThree(a, StoreWord(w), c);
    LoadStore(w);
    XorAllMiddle(WordsOf(a), LoadWord(b), WordsOf(c));
    XorAllMiddle(WordsOf(a), w, WordsOf(c));
    XorIsZeroIff(XorAll(WordsOf(a) + WordsOf(c)), LoadWord(b));
    XorIsZeroIff(XorAll(WordsOf(a) + WordsOf(c)), w);
  }

  // ---- chained XOR pass ----

  function Sum(ws: seq<word>): word {
    if |ws| == 0 then 0 else Plus(Sum(ws[..|ws| - 1]), ws[|ws| - 1])
  }

  /** The accumulator after the words ws. */
  function Accumulated(ws: seq<word>, key: word): word {
    if |ws| == 0 then key else Plus(Accumulated(ws[..|ws| - 1], key), ws[|ws| - 1])
  }

  lemma {:induction false} AccumulatedIsKeyPlusSum(ws: seq<word>, key: word)
    ensures Accumulated(ws, key) == Plus(key, Sum(ws))
  {
    if |ws| == 0 {
      assert Plus(key, 0) == key;
    } else {
      AccumulatedIsKeyPlusSum(ws[..|ws| - 1], key);
      PlusAssociative(key, Sum(ws[..|ws| - 1]), ws[|ws| - 1]);
    }
  }

  /** The sum of the words as integers. */
  function Total(ws: seq<word>): nat {
    if |ws| == 0 then 0 else Total(ws[..|ws| - 1]) + ws[|ws| - 1]
  }

  /** The accumulator is the key plus the words added up, reduced modulo 2^32. */
  lemma {:induction false} AccumulatedIsSum(ws: seq<word>, key: word)
    ensures Accumulated(ws, key) == (key + Total(ws)) % 0x1_0000_0000
  {
    if |ws| > 0 {
      AccumulatedIsSum(ws[..|ws| - 1], key);
      PlusOnSum(key + Total(ws[..|ws| - 1]), ws[|ws| - 1]);
    }
  }

  lemma PlusOnSum(sum: int, w: word)
    ensures Plus(sum % 0x1_0000_0000, w) == (sum + w) % 0x1_0000_0000
  {
  }

  lemma MinusOnSum(slot: word, w: word, sum: int)
    ensures (Minus(slot, w) - sum) % 0x1_0000_0000 == (slot - (sum + w)) % 0x1_0000_0000
  {
  }

  /** Each word XORed with the accumulator that already includes it. */
  function Chained(ws: seq<word>, key: word): (r: seq<word>)
    ensures |r| == |ws|
  {
    if |ws| == 0 then [] else Chained(ws[..|ws| - 1], key) + [Xor(ws[|ws| - 1], Accumulated(ws, key))]
  }

  /** The chain undone from its last word, given what the accumulator held there. */
  function Unchained(ws: seq<word>, ecx: word): (r: seq<word>)
    ensures |r| == |ws|
  {
    if |ws| == 0 then [] else
      var w := Xor(ws[|ws| - 1], ecx);
      Unchained(ws[..|ws| - 1], Minus(ecx, w)) + [w]
  }

  lemma {:induction false} UnchainedInvertsChained(ws: seq<word>, key: word)
    ensures Unchained(Chained(ws, key), Accumulated(ws, key)) == ws
  {
    if |ws| > 0 {
      hide Xor, Plus, Minus, Chained, Unchained, Accumulated;
      var init, last := ws[..|ws| - 1], ws[|ws| - 1];
      assert ws == init + [last];
      UnchainedInvertsChained(init, key);
      AccumulatedSnoc(init, last, key);
      ChainedSnoc(init, last, key);
      UnchainedStep(Chained(init, key), last, Accumulated(init, key));
    }
  }

  lemma UnchainedStep(cs: seq<word>, w: word, acc: word)
    ensures Unchained(cs + [Xor(w, Plus(acc, w))], Plus(acc, w)) == Unchained(cs, acc) + [w]
  {
    hide Xor, Plus, Minus, Unchained;
    XorUndoesXor(w, Plus(acc, w));
    MinusUndoesPlus(acc, w);
    UnchainedSnoc(cs, Xor(w, Plus(acc, w)), Plus(acc, w));
  }

  lemma AccumulatedSnoc(ws: seq<word>, w: word, key: word)
    ensures Accumulated(ws + [w], key) == Plus(Accumulated(ws, key), w)
  {
    assert (ws + [w])[..|ws|] == ws;
  }

  lemma ChainedSnoc(ws: seq<word>, w: word, key: word)
    ensures Chained(ws + [w], key) == Chained(ws, key) + [Xor(w, Plus(Accumulated(ws, key), w))]
  {
    AccumulatedSnoc(ws, w, key);
    assert (ws + [w])[..|ws|] == ws;
  }

  /** The chain in closed form: each word is XORed with the key plus the sum of the words up to and including it. */
  lemma {:induction false} ChainedAt(ws: seq<word>, key: word, i: nat)
    requires i < |ws|
    ensures Chained(ws, key)[i] == Xor(ws[i], Plus(key, Sum(ws[..i + 1])))
  {
    hide Xor, Plus;
    if i == |ws| - 1 {
      assert ws[..i + 1] == ws;
      AccumulatedIsKeyPlusSum(ws, key);
    } else {
      ChainedAt(ws[..|ws| - 1], key, i);
      assert ws[..|ws| - 1][..i + 1] == ws[..i + 1];
    }
  }

  /** The reverse chain in closed form: each word is XORed with the slot less the restored words behind it. */
  lemma {:induction false} UnchainedAt(ws: seq<word>, slot: word, i: nat)
    requires i < |ws|
    ensures Unchained(ws, slot)[i] == Xor(ws[i], (slot - Total(Unchained(ws, slot)[i + 1..])) % 0x1_0000_0000)
  {
    hide Xor, Unchained, Total, Minus;
    var front, x := ws[..|ws| - 1], ws[|ws| - 1];
    assert ws == front + [x];
    var w := Xor(x, slot);
    UnchainedSnoc(front, x, slot);
    var init := Unchained(front, Minus(slot, w));
    if i == |ws| - 1 {
      assert (init + [w])[i + 1..] == [];
      NoTotal(slot);
    } else {
      UnchainedAt(front, Minus(slot, w), i);
      assert (init + [w])[i + 1..] == init[i + 1..] + [w];
      TotalSnoc(init[i + 1..], w);
      MinusOnSum(slot, w, Total(init[i + 1..]));
    }
  }

  lemma NoTotal(slot: word)
    ensures (slot - Total([])) % 0x1_0000_0000 == slot
  {
  }

  lemma TotalSnoc(ws: seq<word>, w: word)
    ensures Total(ws + [w]) == Total(ws) + w
  {
    assert (ws + [w])[..|ws|] == ws;
  }

  lemma UnchainedSnoc(ws: seq<word>, x: word, ecx: word)
    ensures Unchained(ws + [x], ecx) == Unchained(ws, Minus(ecx, Xor(x, ecx))) + [Xor(x, ecx)]
  {
    assert (ws + [x])[..|ws|] == ws;
  }

  /** The bytes the pass works on: all but the last four of the region it is given. */
  predicate PassRegion(s: seq<byte>) {
    |s| % 4 == 0 && |s| >= XOR_STOP_OFFSET
  }

  /** The words between the skipped first word and the key slot. */
  function Middle(s: seq<byte>): (ws: seq<word>)
    requires PassRegion(s)
    ensures 4 * |ws| == |s| - 8
  {
    WordsOf(s[XOR_SKIP_BYTES..|s| - 4])
  }

  function XorPassed(s: seq<byte>, key: word): (r: seq<byte>)
    requires PassRegion(s)
    ensures |r| == |s|
  {
    s[..XOR_SKIP_BYTES] + BytesOf(Chained(Middle(s), key)) + StoreWord(Accumulated(Middle(s), key))
  }

  function XorUnpassed(s: seq<byte>): (r: seq<byte>)
    requires PassRegion(s)
    ensures |r| == |s|
  {
    s[..XOR_SKIP_BYTES] + BytesOf(Unchained(Middle(s), LoadWord(s[|s| - 4..]))) + s[|s| - 4..]
  }

  /** How many words the forward pass covers: with a size that is not a multiple of four the last runs into the key slot. */
  function ForwardWords(size: nat): nat {
    if size > 12 then (size - 12 + 3) / 4 else 0
  }

  /** How many words the backward pass covers. */
  function BackwardWords(size: nat): nat {
    if size > 12 then (size - 12) / 4 else 0
  }

  /** d after the forward pass over a region: the words chained from its start, then the accumulator in the key slot. */
  function EncPassed(d: seq<byte>, offset: nat, size: nat, key: word): (r: seq<byte>)
    requires offset + size >= XOR_STOP_OFFSET && offset + size - 4 <= |d|
    ensures |r| == |d|
  {
    var stop := offset + size - XOR_STOP_OFFSET;
    if size <= 12 then Splice(d, stop, StoreWord(key)) else
      var start := offset + XOR_SKIP_BYTES;
      var end := start + 4 * ForwardWords(size);
      Splice(ChainedIn(d, start, end, key), stop, StoreWord(Accumulated(WordsOf(d[start..end]), key)))
  }

  /** d after the backward pass: the words in front of the key slot, counted from there, unchained from what is in it. */
  function DecPassed(d: seq<byte>, offset: nat, size: nat): (r: seq<byte>)
    requires offset + size >= XOR_STOP_OFFSET && offset + size - 4 <= |d|
    ensures |r| == |d|
  {
    var stop := offset + size - XOR_STOP_OFFSET;
    if size <= 12 then d else
      var lo := stop - 4 * BackwardWords(size);
      Splice(d, lo, BytesOf(Unchained(WordsOf(d[lo..stop]), LoadWord(d[stop..stop + 4]))))
  }

  method EncXORPass(data: array<byte>, offset: nat, size: nat, key: word)
    requires offset + size >= XOR_STOP_OFFSET && offset + size - 4 <= data.Length
    modifies data
    ensures data[..] == EncPassed(old(data[..]), offset, size, key)
  {
    hide Splice, ChainedIn, WordsOf, Chained, Accumulated, LoadWord, StoreWord, Xor, Plus;
    ghost var d := data[..];
    var ecx := key;
    var stop := offset + size - XOR_STOP_OFFSET;
    var pos := offset + XOR_SKIP_BYTES;
    ghost var start := pos;
    if start <= |d| {
      EncStart(d, start, key);
    }
    while pos < stop
      invariant start <= pos && (pos - start) % 4 == 0 && (pos > start ==> pos < stop + 4)
      invariant pos == start || pos <= |d|
      invariant start <= |d| ==> ecx == Accumulated(WordsOf(d[start..pos]), key) && data[..] == ChainedIn(d, start, pos, key)
      invariant pos == start ==> ecx == key && data[..] == d
    {
      EncStep(d, start, pos, key);
      var edx := LoadWord(data[pos..pos + 4]);
      ecx := Plus(ecx, edx);
      edx := Xor(edx, ecx);
      Put(data, pos, StoreWord(edx));
      pos := pos + CHECKSUM_SIZE;
    }
    Put(data, stop, StoreWord(ecx));
  }

  /** On the sizes that keep the words apart from the key slot the pass is that of the region alone. */
  lemma EncPassedIsXorPassed(d: seq<byte>, offset: nat, size: nat, key: word)
    requires size % 4 == 0 && size >= 12 && offset + size - 4 <= |d|
    ensures EncPassed(d, offset, size, key) == Splice(d, offset, XorPassed(d[offset..offset + size - 4], key))
  {
    hide Splice, XorPassed, ChainedIn, WordsOf, Chained, Accumulated, StoreWord;
    EncStart(d, offset + XOR_SKIP_BYTES, key);
    EncFinish(d, offset, size - 4, key);
  }

  /** d with the words from start to pos chained. */
  function ChainedIn(d: seq<byte>, start: nat, pos: nat, key: word): (r: seq<byte>)
    requires start <= pos <= |d| && (pos - start) % 4 == 0
    ensures |r| == |d|
  {
    Splice(d, start, BytesOf(Chained(WordsOf(d[start..pos]), key)))
  }

  lemma EncStart(d: seq<byte>, start: nat, key: word)
    requires start <= |d|
    ensures Accumulated(WordsOf(d[start..start]), key) == key && ChainedIn(d, start, start, key) == d
  {
  }

  lemma EncStep(d: seq<byte>, start: nat, pos: nat, key: word)
    requires start <= pos && (pos - start) % 4 == 0 && pos + 4 <= |d|
    ensures var data := ChainedIn(d, start, pos, key);
            var w := LoadWord(data[pos..pos + 4]);
            var acc := Plus(Accumulated(WordsOf(d[start..pos]), key), w);
            && (pos + 4 - start) % 4 == 0
            && acc == Accumulated(WordsOf(d[start..pos + 4]), key)
            && Splice(data, pos, StoreWord(Xor(w, acc))) == ChainedIn(d, start, pos + 4, key)
  {
    hide Xor, Plus, LoadWord, StoreWord, Splice, WordsOf, BytesOf, Chained, Accumulated;
    var ws := WordsOf(d[start..pos]);
    SpliceElsewhere(d, start, BytesOf(Chained(ws, key)), pos, pos + 4);
    var w := LoadWord(d[pos..pos + 4]);
    WordsOfSnoc(d[start..pos], d[pos..pos + 4]);
    SliceSplit(d, start, pos, pos + 4);
    AccumulatedSnoc(ws, w, key);
    ChainedSnoc(ws, w, key);
    var x := Xor(w, Plus(Accumulated(ws, key), w));
    SpliceAppend(d, start, BytesOf(Chained(ws, key)), StoreWord(x));
    BytesOfSnoc(Chained(ws, key), x);
  }

  lemma EncFinish(d: seq<byte>, offset: nat, len: nat, key: word)
    requires len % 4 == 0 && len >= XOR_STOP_OFFSET && offset + len <= |d|
    ensures var start, stop := offset + XOR_SKIP_BYTES, offset + len - 4;
            Splice(ChainedIn(d, start, stop, key), stop, StoreWord(Accumulated(WordsOf(d[start..stop]), key)))
            == Splice(d, offset, XorPassed(d[offset..offset + len], key))
  {
    hide Splice, StoreWord, WordsOf, BytesOf, Chained, Accumulated, XorPassed;
    var start, stop := offset + XOR_SKIP_BYTES, offset + len - 4;
    var ws := WordsOf(d[start..stop]);
    SpliceAppend(d, start, BytesOf(Chained(ws, key)), StoreWord(Accumulated(ws, key)));
    PassedSplice(d, offset, len, key);
  }

  lemma PassedSplice(d: seq<byte>, offset: nat, len: nat, key: word)
    requires len % 4 == 0 && len >= XOR_STOP_OFFSET && offset + len <= |d|
    ensures var ws := WordsOf(d[offset + 4..offset + len - 4]);
            Splice(d, offset + 4, BytesOf(Chained(ws, key)) + StoreWord(Accumulated(ws, key)))
            == Splice(d, offset, XorPassed(d[offset..offset + len], key))
  {
    hide WordsOf, BytesOf, Chained, Accumulated, StoreWord, Splice;
    var s := d[offset..offset + len];
    SubSlice(d, offset, len, 4, len - 4);
    SubSlice(d, offset, len, 0, 4);
    var out := BytesOf(Chained(Middle(s), key)) + StoreWord(Accumulated(Middle(s), key));
    assert XorPassed(s, key) == s[..4] + out;
    SpliceTail(d, offset, 4, out);
  }

  lemma SpliceTail(d: seq<byte>, at: nat, k: nat, s: seq<byte>)
    requires at + k + |s| <= |d|
    ensures Splice(d, at + k, s) == Splice(d, at, d[at..at + k] + s)
  {
  }

  method DecXORPass(data: array<byte>, offset: nat, size: nat)
    requires offset + size >= XOR_STOP_OFFSET && offset + size - 4 <= data.Length
    modifies data
    ensures data[..] == DecPassed(old(data[..]), offset, size)
  {
    hide Splice, WordsOf, BytesOf, Unchained, LoadWord, StoreWord, Xor, Minus;
    ghost var d := data[..];
    var stop := offset + size - XOR_STOP_OFFSET;
    var pos := offset + XOR_SKIP_BYTES;
    var ecx := LoadWord(data[stop..stop + 4]);
    ghost var slot := ecx;
    ghost var done: seq<word> := [];
    ghost var lo: nat := stop - 4 * BackwardWords(size);
    var i: int := stop - CHECKSUM_SIZE;
    DecStart(d, lo, stop, slot);
    while i >= pos
      invariant lo - 4 <= i <= stop - 4 && (i + 4 - lo) % 4 == 0 && 4 * |done| == stop - i - 4
      invariant Unchained(WordsOf(d[lo..stop]), slot) == Unchained(WordsOf(d[lo..i + 4]), ecx) + done
      invariant data[..] == Splice(d, i + 4, BytesOf(done))
    {
      DecStep(d, lo, i, ecx, done);
      var edx := LoadWord(data[i..i + 4]);
      edx := Xor(edx, ecx);
      Put(data, i, StoreWord(edx));
      ecx := Minus(ecx, edx);
      done := [edx] + done;
      i := i - CHECKSUM_SIZE;
    }
    DecEnd(d, lo, stop, slot, ecx, done);
  }

  /** When nothing is left to undo, what has been undone is the whole. */
  lemma DecEnd(d: seq<byte>, lo: nat, stop: nat, slot: word, ecx: word, done: seq<word>)
    requires lo <= stop <= |d| && (stop - lo) % 4 == 0
    requires Unchained(WordsOf(d[lo..stop]), slot) == Unchained(WordsOf(d[lo..lo]), ecx) + done
    ensures done == Unchained(WordsOf(d[lo..stop]), slot)
    ensures lo == stop ==> Splice(d, lo, BytesOf(done)) == d
  {
    var ws := Unchained(WordsOf(d[lo..lo]), ecx);
    assert |ws| == 0;
    assert ws + done == done;
  }

  lemma DecPassedIsXorUnpassed(d: seq<byte>, offset: nat, size: nat)
    requires size % 4 == 0 && size >= 12 && offset + size - 4 <= |d|
    ensures DecPassed(d, offset, size) == Splice(d, offset, XorUnpassed(d[offset..offset + size - 4]))
  {
    hide Splice, XorUnpassed, WordsOf, BytesOf, Unchained, LoadWord;
    UnpassedSplice(d, offset, size - 4);
    if size == 12 {
      DecEnd(d, offset + 4, offset + 4, LoadWord(d[offset + 4..offset + 8]), LoadWord(d[offset + 4..offset + 8]), []);
      DecStart(d, offset + 4, offset + 4, LoadWord(d[offset + 4..offset + 8]));
    }
  }

  lemma DecStart(d: seq<byte>, pos: nat, stop: nat, slot: word)
    requires pos <= stop <= |d| && (stop - pos) % 4 == 0
    ensures Splice(d, stop, BytesOf([])) == d
    ensures Unchained(WordsOf(d[pos..stop]), slot) == Unchained(WordsOf(d[pos..stop]), slot) + []
  {
  }

  lemma DecStep(d: seq<byte>, pos: nat, i: nat, ecx: word, done: seq<word>)
    requires pos <= i && (i - pos) % 4 == 0 && i + 4 + 4 * |done| <= |d|
    ensures var data := Splice(d, i + 4, BytesOf(done));
            var w := Xor(LoadWord(data[i..i + 4]), ecx);
            && (i + 4 - pos) % 4 == 0
            && Splice(data, i, StoreWord(w)) == Splice(d, i, BytesOf([w] + done))
            && Unchained(WordsOf(d[pos..i + 4]), ecx) + done
               == Unchained(WordsOf(d[pos..i]), Minus(ecx, w)) + ([w] + done)
  {
    hide Xor, Minus, LoadWord, StoreWord, Splice, WordsOf, Unchained;
    SpliceElsewhere(d, i + 4, BytesOf(done), i, i + 4);
    var x := LoadWord(d[i..i + 4]);
    var w := Xor(x, ecx);
    WordsOfSnoc(d[pos..i], d[i..i + 4]);
    SliceSplit(d, pos, i, i + 4);
    UnchainedSnoc(WordsOf(d[pos..i]), x, ecx);
    SplicePrepend(d, i, StoreWord(w), BytesOf(done));
    assert ([w] + done)[1..] == done;
    Regroup(Unchained(WordsOf(d[pos..i]), Minus(ecx, w)), w, done);
  }

  lemma Regroup(ws: seq<word>, w: word, vs: seq<word>)
    ensures ws + [w] + vs == ws + ([w] + vs)
  {
  }

  lemma UnpassedSplice(d: seq<byte>, offset: nat, len: nat)
    requires len % 4 == 0 && len >= XOR_STOP_OFFSET && offset + len <= |d|
    ensures var ws := WordsOf(d[offset + 4..offset + len - 4]);
            Splice(d, offset + 4, BytesOf(Unchained(ws, LoadWord(d[offset + len - 4..offset + len]))))
            == Splice(d, offset, XorUnpassed(d[offset..offset + len]))
  {
    var s := d[offset..offset + len];
    SubSlice(d, offset, len, 4, len - 4);
    SubSlice(d, offset, len, len - 4, len);
    assert s[len - 4..] == s[len - 4..len];
    var out := BytesOf(Unchained(Middle(s), LoadWord(s[len - 4..])));
    SpliceWithin(d, offset, len, out);
  }

  lemma SpliceWithin(d: seq<byte>, at: nat, len: nat, s: seq<byte>)
    requires len == |s| + 8 && at + len <= |d|
    ensures Splice(d, at + 4, s) == Splice(d, at, d[at..at + len][..4] + s + d[at..at + len][len - 4..])
  {
  }

  /** The reverse pass restores everything before the key slot, which keeps key plus the sum of the words passed. */
  lemma UnpassRestores(s: seq<byte>, key: word)
    requires PassRegion(s)
    ensures XorUnpassed(XorPassed(s, key)) == s[..|s| - 4] + StoreWord(Plus(key, Sum(Middle(s))))
  {
    hide Xor, Plus, Minus, LoadWord, StoreWord;
    var r, ws := XorPassed(s, key), Middle(s);
    PassedParts(s, key);
    WordsOfBytesOf(Chained(ws, key));
    LoadStore(Accumulated(ws, key));
    AccumulatedIsKeyPlusSum(ws, key);
    UnchainedInvertsChained(ws, key);
    BytesOfWordsOf(s[XOR_SKIP_BYTES..|s| - 4]);
    assert s[..|s| - 4] == s[..XOR_SKIP_BYTES] + s[XOR_SKIP_BYTES..|s| - 4];
  }

  lemma PassedParts(s: seq<byte>, key: word)
    requires PassRegion(s)
    ensures var r := XorPassed(s, key);
            && r[..XOR_SKIP_BYTES] == s[..XOR_SKIP_BYTES]
            && r[XOR_SKIP_BYTES..|r| - 4] == BytesOf(Chained(Middle(s), key))
            && r[|r| - 4..] == StoreWord(Accumulated(Middle(s), key))
  {
  }

  /** On a whole buffer, the two passes one after the other change the key slot and not one byte besides. */
  lemma PassesRestoreBuffer(d: seq<byte>, offset: nat, size: nat, key: word)
    requires size % 4 == 0 && size >= 12 && offset + size - 4 <= |d|
    ensures var s := d[offset..offset + size - 4];
            PassRegion(s)
            && DecPassed(EncPassed(d, offset, size, key), offset, size)
               == Splice(d, offset + size - XOR_STOP_OFFSET, StoreWord(Plus(key, Sum(Middle(s)))))
  {
    hide XorPassed, XorUnpassed, Plus, Sum, StoreWord, Middle, Splice, EncPassed, DecPassed;
    var len := size - 4;
    var s := d[offset..offset + len];
    var passed, slot := XorPassed(s, key), StoreWord(Plus(key, Sum(Middle(s))));
    EncPassedIsXorPassed(d, offset, size, key);
    SpliceSlice(d, offset, passed);
    DecPassedIsXorUnpassed(Splice(d, offset, passed), offset, size);
    UnpassRestores(s, key);
    SpliceTwice(d, offset, passed, XorUnpassed(passed));
    SpliceTail(d, offset, len - 4, slot);
    assert d[offset..offset + (len - 4)] == s[..len - 4];
  }

  // ---- sizes on which the passes do not fit together ----

  /** Whether two buffers are the same but for the key slot. */
  predicate SameButSlot(d: seq<byte>, e: seq<byte>, stop: nat)
    requires |e| == |d| && stop + 4 <= |d|
  {
    d[..stop] == e[..stop] && d[stop + 4..] == e[stop + 4..]
  }

  /** With key 1 a text of zeros becomes a text of ones. */
  lemma {:induction false} ChainOfZeros(n: nat)
    ensures Accumulated(seq(n, _ => 0), 1) == 1
    ensures Chained(seq(n, _ => 0), 1) == seq(n, _ => 1)
  {
    if n > 0 {
      var ws: seq<word> := seq(n, _ => 0);
      assert ws[..n - 1] == seq(n - 1, _ => 0);
      ChainOfZeros(n - 1);
      XorCommutes(0, 1);
      XorZero(1);
    }
  }

  lemma {:induction false} WordsOfZeros(n: nat)
    ensures WordsOf(Zeros(4 * n)) == seq(n, _ => 0)
  {
    if n > 0 {
      assert Zeros(4 * n)[4..] == Zeros(4 * (n - 1)) && Zeros(4 * n)[..4] == [0, 0, 0, 0];
      WordsOfZeros(n - 1);
    }
  }

  lemma {:induction false} BytesOfOnes(n: nat, i: nat)
    requires i < 4 * n
    ensures BytesOf(seq(n, _ => 1))[i] == if i % 4 == 0 then 1 else 0
  {
    var ws: seq<word> := seq(n, _ => 1);
    assert StoreWord(1) == [1, 0, 0, 0];
    assert ws[1..] == seq(n - 1, _ => 1);
    if i >= 4 {
      BytesOfOnes(n - 1, i - 4);
    }
  }

  /** The forward pass over zeros with key 1, on a size that lets the last word run r bytes into the key slot. */
  lemma ZerosPassed(size: nat, r: nat, m: nat)
    requires size == 12 + 4 * (m - 1) + r && 0 < r < 4 && m > 0
    ensures var e := EncPassed(Zeros(size - 4), 0, size, 1);
            && e[size - 8 - r] == 1
            && e[size - 8..size - 4] == StoreWord(1)
            && (m > 1 ==> e[size - 12] == 0)
  {
    hide WordsOf, BytesOf, Chained, Accumulated, StoreWord;
    var d, stop, end := Zeros(size - 4), size - 8, 4 + 4 * m;
    assert ForwardWords(size) == m;
    assert d[4..end] == Zeros(4 * m);
    WordsOfZeros(m);
    ChainOfZeros(m);
    BytesOfOnes(m, 4 * (m - 1));
    if m > 1 {
      BytesOfOnes(m, 4 * (m - 2) + r);
    }
  }

  /** Zeros are not restored there. */
  lemma ZerosNotRestored(size: nat)
    requires size > 12 && size % 4 != 0
    ensures var d := Zeros(size - 4);
            !SameButSlot(d, DecPassed(EncPassed(d, 0, size, 1), 0, size), size - XOR_STOP_OFFSET)
  {
    hide EncPassed, Xor, WordsOf, BytesOf, StoreWord, LoadWord;
    var d, stop, r, m := Zeros(size - 4), size - 8, size % 4, (size - 12) / 4 + 1;
    var e := EncPassed(d, 0, size, 1);
    ZerosPassed(size, r, m);
    var back := DecPassed(e, 0, size);
    LoadStore(1);
    if m == 1 {
      assert |BytesOf(Unchained(WordsOf(e[stop..stop]), 1))| == 0;
      assert back[stop - r] == 1;
      assert d[..stop][stop - r] != back[..stop][stop - r];
    } else {
      LastUndone(e, size, m - 1);
      assert d[..stop][stop - 4] != back[..stop][stop - 4];
    }
  }

  lemma LastUndone(e: seq<byte>, size: nat, n: nat)
    requires size > 12 && n == (size - 12) / 4 && n > 0 && |e| == size - 4
    requires e[size - 12] == 0 && e[size - 8..size - 4] == StoreWord(1)
    ensures DecPassed(e, 0, size)[size - 12] != 0
  {
    hide Xor, WordsOf, Splice, LoadWord, StoreWord, Unchained;
    var stop, lo := size - 8, size - 8 - 4 * n;
    var init, last := e[lo..stop - 4], e[stop - 4..stop];
    SliceSplit(e, lo, stop - 4, stop);
    WordsOfSnoc(init, last);
    LoadStore(1);
    var x := Xor(LoadWord(last), 1);
    UnchainedSnoc(WordsOf(init), LoadWord(last), 1);
    var us := Unchained(WordsOf(init), Minus(1, x));
    BytesOfSnoc(us, x);
    OddByte(last);
    var out := BytesOf(us + [x]);
    assert out[4 * (n - 1)] == StoreWord(x)[0];
    SpliceSlice(e, lo, out);
    assert DecPassed(e, 0, size)[lo..stop][4 * (n - 1)] == out[4 * (n - 1)];
  }

  lemma OddByte(s: seq<byte>)
    requires |s| == 4 && s[0] == 0
    ensures StoreWord(Xor(LoadWord(s), 1))[0] != 0
  {
    hide XorBits;
    var w := LoadWord(s);
    assert w % 2 == 0 by {
      var b: int, c: int, d: int := s[1], s[2], s[3];
      assert w == 2 * (0x80 * b + 0x8000 * c + 0x80_0000 * d);
    }
    XorBitsHalf(32, w, 1);
    var x := Xor(w, 1);
    assert x % 2 == 1;
  }

  /**
   * The backward pass undoes the forward pass, for every buffer, offset and key, exactly on the sizes that are multiples of
   * four and on those that leave no word between the skipped one and the key slot.
   */
  lemma PassesFitIff(size: nat)
    ensures (forall d: seq<byte>, offset: nat, key: word ::
               offset + size >= XOR_STOP_OFFSET && offset + size - 4 <= |d| ==>
                 SameButSlot(d, DecPassed(EncPassed(d, offset, size, key), offset, size), offset + size - XOR_STOP_OFFSET))
       <==> size % 4 == 0 || size <= 12
  {
    hide EncPassed, DecPassed, SameButSlot;
    if size % 4 == 0 || size <= 12 {
      forall d: seq<byte>, offset: nat, key: word | offset + size >= XOR_STOP_OFFSET && offset + size - 4 <= |d|
        ensures SameButSlot(d, DecPassed(EncPassed(d, offset, size, key), offset, size), offset + size - XOR_STOP_OFFSET)
      {
        PassesFit(d, offset, size, key);
      }
    } else {
      ZerosNotRestored(size);
    }
  }

  lemma PassesFit(d: seq<byte>, offset: nat, size: nat, key: word)
    requires size % 4 == 0 || size <= 12
    requires offset + size >= XOR_STOP_OFFSET && offset + size - 4 <= |d|
    ensures SameButSlot(d, DecPassed(EncPassed(d, offset, size, key), offset, size), offset + size - XOR_STOP_OFFSET)
  {
    hide EncPassed, DecPassed, SameButSlot, Splice, StoreWord, Plus, Sum, Middle, PassRegion;
    if size > 12 {
      PassesRestoreBuffer(d, offset, size, key);
      OnlySlot(d, offset + size - XOR_STOP_OFFSET, StoreWord(Plus(key, Sum(Middle(d[offset..offset + size - 4])))));
    } else {
      NothingBetween(d, offset, size, key);
      OnlySlot(d, offset + size - XOR_STOP_OFFSET, StoreWord(key));
    }
  }

  lemma NothingBetween(d: seq<byte>, offset: nat, size: nat, key: word)
    requires size <= 12 && offset + size >= XOR_STOP_OFFSET && offset + size - 4 <= |d|
    ensures DecPassed(EncPassed(d, offset, size, key), offset, size)
            == Splice(d, offset + size - XOR_STOP_OFFSET, StoreWord(key))
  {
    hide Splice, StoreWord;
  }

  lemma OnlySlot(d: seq<byte>, stop: nat, w: seq<byte>)
    requires |w| == 4 && stop + 4 <= |d|
    ensures SameButSlot(d, Splice(d, stop, w), stop)
  {
  }
}
