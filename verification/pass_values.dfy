/** What the two chained passes leave in a buffer, in terms of integers and of the words at given positions. */
module PassValues {
  import opened Blowfish
  import opened Buffers
  import opened Bytes

  function WordAt(d: seq<byte>, pos: nat): word
    requires pos + 4 <= |d|
  {
    LoadWord(d[pos..pos + 4])
  }

  /** The sum of n words from a position on. */
  function SumAt(d: seq<byte>, start: nat, n: nat): nat
    requires start + 4 * n <= |d|
  {
    if n == 0 then 0 else SumAt(d, start, n - 1) + WordAt(d, start + 4 * (n - 1))
  }

  lemma {:induction false} SumAtIsTotal(d: seq<byte>, start: nat, n: nat)
    requires start + 4 * n <= |d|
    ensures SumAt(d, start, n) == Total(WordsOf(d[start..start + 4 * n]))
  {
    hide Total, WordsOf, LoadWord;
    if n == 0 {
      NoWords(d[start..start]);
    } else {
      var m := start + 4 * (n - 1);
      SumAtIsTotal(d, start, n - 1);
      SliceSplit(d, start, m, m + 4);
      WordsOfSnoc(d[start..m], d[m..m + 4]);
      TotalSnoc(WordsOf(d[start..m]), LoadWord(d[m..m + 4]));
    }
  }

  lemma NoWords(s: seq<byte>)
    requires |s| == 0
    ensures Total(WordsOf(s)) == 0
  {
  }

  lemma SpliceAround(d: seq<byte>, at: nat, s: seq<byte>)
    requires at + |s| <= |d|
    ensures Splice(d, at, s)[..at] == d[..at]
    ensures Splice(d, at, s)[at..at + |s|] == s
    ensures Splice(d, at, s)[at + |s|..] == d[at + |s|..]
  {
  }

  /** A stretch of words written at a position is found there word by word. */
  lemma WrittenWord(d: seq<byte>, start: nat, ws: seq<word>, i: nat)
    requires start + 4 * |ws| <= |d| && i < |ws|
    ensures WordAt(Splice(d, start, BytesOf(ws)), start + 4 * i) == ws[i]
  {
    hide Splice, LoadWord, StoreWord, BytesOf;
    var e := Splice(d, start, BytesOf(ws));
    SpliceSlice(d, start, BytesOf(ws));
    SubSlice(e, start, 4 * |ws|, 4 * i, 4 * i + 4);
    BytesOfAt(ws, i);
    LoadStore(ws[i]);
  }

  lemma ReadWord(d: seq<byte>, start: nat, n: nat, i: nat)
    requires start + 4 * n <= |d| && i < n
    ensures WordsOf(d[start..start + 4 * n])[i] == WordAt(d, start + 4 * i)
    ensures WordsOf(d[start..start + 4 * n])[..i + 1] == WordsOf(d[start..start + 4 * (i + 1)])
  {
    hide LoadWord, WordsOf;
    var m, end := start + 4 * i, start + 4 * n;
    SliceSplit(d, start, m + 4, end);
    SliceSplit(d, start, m, m + 4);
    Aligned(i, n);
    WordsOfConcat(d[start..m + 4], d[m + 4..end]);
    WordsOfSnoc(d[start..m], d[m..m + 4]);
  }

  lemma Aligned(i: nat, n: nat)
    requires i < n
    ensures (4 * n - 4 * i - 4) % 4 == 0 && (4 * i) % 4 == 0
  {
    assert 4 * n - 4 * i - 4 == 4 * (n - i - 1);
  }

  /** The chain of the words in a stretch of a buffer, word by word. */
  lemma ChainedWord(d: seq<byte>, start: nat, n: nat, key: word, i: nat)
    requires start + 4 * n <= |d| && i < n
    ensures Chained(WordsOf(d[start..start + 4 * n]), key)[i]
            == Xor(WordAt(d, start + 4 * i), (key + SumAt(d, start, i + 1)) % 0x1_0000_0000)
  {
    hide Xor, Plus, Sum, WordsOf, Chained, Accumulated, Total, LoadWord, SumAt;
    var ws := WordsOf(d[start..start + 4 * n]);
    ReadWord(d, start, n, i);
    ChainedAt(ws, key, i);
    AccumulatedIsKeyPlusSum(ws[..i + 1], key);
    AccumulatedIsSum(ws[..i + 1], key);
    SumAtIsTotal(d, start, i + 1);
  }

  /** After the forward pass the key slot holds the key plus the words covered, modulo 2^32. */
  lemma SlotIsSum(d: seq<byte>, offset: nat, size: nat, key: word)
    requires offset + size >= 8 && offset + size - 4 <= |d|
    ensures size > 12 ==> offset + 4 + 4 * ((size - 9) / 4) <= |d|
    ensures WordAt(EncPassed(d, offset, size, key), offset + size - 8)
            == if size > 12 then (key + SumAt(d, offset + 4, (size - 9) / 4)) % 0x1_0000_0000 else key
  {
    hide Splice, WordsOf, Chained, Accumulated, Total, LoadWord, StoreWord, ChainedIn, SumAt;
    var stop, start, n := offset + size - 8, offset + 4, ForwardWords(size);
    if size <= 12 {
      SpliceAround(d, stop, StoreWord(key));
      LoadStore(key);
    } else {
      var ws := WordsOf(d[start..start + 4 * n]);
      AccumulatedIsSum(ws, key);
      SumAtIsTotal(d, start, n);
      SpliceAround(ChainedIn(d, start, start + 4 * n, key), stop, StoreWord(Accumulated(ws, key)));
      LoadStore(Accumulated(ws, key));
    }
  }

  /** Each word in front of the slot is XORed with the key plus the words up to and including it, modulo 2^32. */
  lemma PassedWordIsXor(d: seq<byte>, offset: nat, size: nat, key: word, i: nat)
    requires offset + size - 4 <= |d| && 4 * i + 16 <= size
    ensures var pos := offset + 4 + 4 * i;
            WordAt(EncPassed(d, offset, size, key), pos)
            == Xor(WordAt(d, pos), (key + SumAt(d, offset + 4, i + 1)) % 0x1_0000_0000)
  {
    hide Splice, Xor, WordsOf, BytesOf, Chained, Accumulated, LoadWord, StoreWord, SumAt;
    var stop, start, n := offset + size - 8, offset + 4, ForwardWords(size);
    var ws := WordsOf(d[start..start + 4 * n]);
    var chained := ChainedIn(d, start, start + 4 * n, key);
    SpliceElsewhere(chained, stop, StoreWord(Accumulated(ws, key)), start + 4 * i, start + 4 * i + 4);
    WrittenWord(d, start, Chained(ws, key), i);
    ChainedWord(d, start, n, key, i);
  }

  /** No byte is changed but those from the second word of the region to the end of the key slot. */
  lemma ForwardFrame(d: seq<byte>, offset: nat, size: nat, key: word, k: nat)
    requires offset + size >= 8 && offset + size - 4 <= |d| && k < |d|
    ensures EncPassed(d, offset, size, key)[k] != d[k] ==>
              k < offset + size - 4 && (if size > 12 then k >= offset + 4 else k >= offset + size - 8)
  {
    hide WordsOf, BytesOf, Chained, Accumulated, StoreWord;
  }

  /**
   * The backward pass goes over the words that lie whole numbers of words in front of the slot. Each is XORed with what the
   * slot held less the words restored behind it, modulo 2^32.
   */
  lemma RestoredWordIsXor(d: seq<byte>, offset: nat, size: nat, j: nat)
    requires offset + size - 4 <= |d| && 4 * j + 16 <= size
    ensures var stop, e := offset + size - 8, DecPassed(d, offset, size);
            var pos := stop - 4 * j - 4;
            WordAt(e, pos) == Xor(WordAt(d, pos), (WordAt(d, stop) - SumAt(e, pos + 4, j)) % 0x1_0000_0000)
  {
    hide Splice, Xor, WordsOf, BytesOf, Unchained, LoadWord, SumAt, Total;
    var stop, n := offset + size - 8, BackwardWords(size);
    var lo, slot := stop - 4 * n, LoadWord(d[stop..stop + 4]);
    var us := Unchained(WordsOf(d[lo..lo + 4 * n]), slot);
    var e, i := Splice(d, lo, BytesOf(us)), n - 1 - j;
    WrittenWord(d, lo, us, i);
    UnchainedAt(WordsOf(d[lo..lo + 4 * n]), slot, i);
    ReadWord(d, lo, n, i);
    SumOfWritten(d, lo, us, i + 1);
  }

  lemma SumOfWritten(d: seq<byte>, lo: nat, us: seq<word>, i: nat)
    requires lo + 4 * |us| <= |d| && i <= |us|
    ensures SumAt(Splice(d, lo, BytesOf(us)), lo + 4 * i, |us| - i) == Total(us[i..])
  {
    hide Splice, WordsOf, BytesOf, LoadWord, SumAt, Total;
    var e, n := Splice(d, lo, BytesOf(us)), |us|;
    SumAtIsTotal(e, lo + 4 * i, n - i);
    SpliceSlice(d, lo, BytesOf(us));
    SubSlice(e, lo, 4 * n, 4 * i, 4 * n);
    BytesOfSuffix(us, i);
    WordsOfBytesOf(us[i..]);
  }

  lemma BytesOfSuffix(ws: seq<word>, i: nat)
    requires i <= |ws|
    ensures BytesOf(ws)[4 * i..4 * |ws|] == BytesOf(ws[i..])
  {
    hide BytesOf;
    assert ws == ws[..i] + ws[i..];
    BytesOfConcat(ws[..i], ws[i..]);
    SecondPart(BytesOf(ws[..i]), BytesOf(ws[i..]));
  }

  lemma SecondPart(s: seq<byte>, t: seq<byte>)
    ensures (s + t)[|s|..|s| + |t|] == t
  {
  }

  /** It changes no other byte. */
  lemma BackwardFrame(d: seq<byte>, offset: nat, size: nat, k: nat)
    requires offset + size >= 8 && offset + size - 4 <= |d| && k < |d|
    ensures DecPassed(d, offset, size)[k] != d[k] ==> size >= 16 && offset + 4 <= k < offset + size - 8
  {
    hide WordsOf, BytesOf, Unchained, LoadWord;
    if 12 < size < 16 {
      var stop := offset + size - 8;
      assert |BytesOf(Unchained(WordsOf(d[stop..stop]), LoadWord(d[stop..stop + 4])))| == 0;
    }
  }
}
