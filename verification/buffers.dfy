/** Writing a byte string into a fixed buffer. */
module Buffers {
  import opened Bytes

  /** d with the bytes from position at on replaced by s. */
  function Splice(d: seq<byte>, at: nat, s: seq<byte>): (r: seq<byte>)
    requires at + |s| <= |d|
    ensures |r| == |d|
  {
    d[..at] + s + d[at + |s|..]
  }

  lemma SpliceAt(d: seq<byte>, at: nat, s: seq<byte>, k: nat)
    requires at + |s| <= |d| && k < |d|
    ensures Splice(d, at, s)[k] == if at <= k < at + |s| then s[k - at] else d[k]
  {
  }

  method Put(data: array<byte>, at: nat, s: seq<byte>)
    requires at + |s| <= data.Length
    modifies data
    ensures data[..] == Splice(old(data[..]), at, s)
  {
    forall i | 0 <= i < |s| {
      data[at + i] := s[i];
    }
  }

  /** Two adjacent writes are one write. */
  lemma SpliceAppend(d: seq<byte>, at: nat, s: seq<byte>, t: seq<byte>)
    requires at + |s| + |t| <= |d|
    ensures Splice(Splice(d, at, s), at + |s|, t) == Splice(d, at, s + t)
  {
  }

  lemma SplicePrepend(d: seq<byte>, at: nat, s: seq<byte>, t: seq<byte>)
    requires at + |s| + |t| <= |d|
    ensures Splice(Splice(d, at + |s|, t), at, s) == Splice(d, at, s + t)
  {
  }

  lemma SpliceTwice(d: seq<byte>, at: nat, s: seq<byte>, t: seq<byte>)
    requires |t| == |s| && at + |s| <= |d|
    ensures Splice(Splice(d, at, s), at, t) == Splice(d, at, t)
  {
  }

  lemma SpliceSlice(d: seq<byte>, at: nat, s: seq<byte>)
    requires at + |s| <= |d|
    ensures Splice(d, at, s)[at..at + |s|] == s
  {
  }

  /** A write leaves what lies before and after it. */
  lemma SpliceElsewhere(d: seq<byte>, at: nat, s: seq<byte>, lo: nat, hi: nat)
    requires at + |s| <= |d| && lo <= hi <= |d| && (hi <= at || at + |s| <= lo)
    ensures Splice(d, at, s)[lo..hi] == d[lo..hi]
  {
  }

  lemma SliceSplit<T>(d: seq<T>, lo: nat, mid: nat, hi: nat)
    requires lo <= mid <= hi <= |d|
    ensures d[lo..hi] == d[lo..mid] + d[mid..hi]
  {
  }

  lemma SubSlice<T>(d: seq<T>, at: nat, size: nat, lo: nat, hi: nat)
    requires at + size <= |d| && lo <= hi <= size
    ensures d[at..at + size][lo..hi] == d[at + lo..at + hi]
  {
    var s := d[at..at + size];
    forall i | 0 <= i < hi - lo
      ensures s[lo..hi][i] == d[at + lo..at + hi][i]
    {
      assert s[lo..hi][i] == s[lo + i] == d[at + lo + i];
    }
  }
}
