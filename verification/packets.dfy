/** Packet bodies: little-endian integers in two's complement and UTF-16LE strings ended by a zero unit. */
module Packets {
  import opened Bytes
  import opened Integers
  import opened NumberTheory
  import opened Wrappers

  /** A UTF-16 code unit. */
  type unit16 = x: int | 0 <= x < 0x1_0000

  /** A Unicode scalar value: what ranging over a string yields. */
  type scalar = x: int | 0 <= x < 0xD800 || 0xE000 <= x < 0x11_0000

  const REPLACEMENT: scalar := 0xFFFD

  // ---- integers ----

  /** The n low-order bytes of v in two's complement, lowest first. */
  function Little(v: int, n: nat): (s: seq<byte>)
    ensures |s| == n
    decreases n
  {
    if n == 0 then [] else [v % 256] + Little(v / 256, n - 1)
  }

  function Unsigned(s: seq<byte>): (u: nat)
    ensures u < Pow(256, |s|)
  {
    if |s| == 0 then 0 else s[0] + 256 * Unsigned(s[1..])
  }

  /** The value of n bytes read as u, as a signed integer of that width. */
  function Signed(u: nat, n: nat): int {
    if 2 * u >= Pow(256, n) then u - Pow(256, n) else u
  }

  predicate Fits(v: int, n: nat) {
    0 - Pow(256, n) <= 2 * v < Pow(256, n)
  }

  function SignedOf(s: seq<byte>): (v: int)
    ensures |s| > 0 ==> Fits(v, |s|)
  {
    if |s| == 0 then 0 else Signed(Unsigned(s), |s|)
  }

  lemma {:induction false} UnsignedLittle(v: int, n: nat, k: int)
    requires 0 <= v + k * Pow(256, n) < Pow(256, n)
    ensures Unsigned(Little(v, n)) == v + k * Pow(256, n)
    decreases n
  {
    if n > 0 {
      var p := Pow(256, n - 1);
      var q, r := v / 256, v % 256;
      assert k * Pow(256, n) == 256 * (k * p);
      assert 0 <= 256 * (q + k * p) + r < 256 * p;
      UnsignedLittle(q, n - 1, k);
      assert Little(v, n)[1..] == Little(q, n - 1);
    }
  }

  lemma SignedLittle(v: int, n: nat)
    requires n > 0 && Fits(v, n)
    ensures SignedOf(Little(v, n)) == v
  {
    hide Little, Unsigned, Pow;
    UnsignedLittle(v, n, if v < 0 then 1 else 0);
  }

  lemma {:induction false} LittleUnsigned(s: seq<byte>, k: int)
    ensures Little(Unsigned(s) + k * Pow(256, |s|), |s|) == s
  {
    hide Pow, Little;
    if |s| > 0 {
      TimesPow(k, |s|);
      LittleCons(s[0], Unsigned(s[1..]) + k * Pow(256, |s| - 1), |s|);
      LittleUnsigned(s[1..], k);
      assert s == [s[0]] + s[1..];
    }
  }

  lemma TimesPow(k: int, n: nat)
    requires n > 0
    ensures k * Pow(256, n) == 256 * (k * Pow(256, n - 1))
  {
  }

  lemma LittleCons(b: byte, t: int, n: nat)
    requires n > 0
    ensures Little(b + 256 * t, n) == [b] + Little(t, n - 1)
  {
    var v := b + 256 * t;
    assert v % 256 == b && v / 256 == t;
  }

  /** Writing what was read gives the bytes back, so reading is one to one. */
  lemma LittleSigned(s: seq<byte>)
    requires |s| > 0
    ensures Little(SignedOf(s), |s|) == s
  {
    hide Little, Unsigned, Pow;
    LittleUnsigned(s, if 2 * Unsigned(s) >= Pow(256, |s|) then -1 else 0);
  }

  lemma Widths()
    ensures Pow(256, 2) == 0x1_0000 && Pow(256, 4) == 0x1_0000_0000 && Pow(256, 8) == 0x1_0000_0000_0000_0000
  {
  }

  /** At four bytes this is the word conversion of the block routines. */
  lemma WordIsLittle(s: seq<byte>, w: word)
    requires |s| == 4
    ensures LoadWord(s) == Unsigned(s) && StoreWord(w) == Little(w, 4)
  {
    hide Little, Unsigned, LoadWord, StoreWord;
    WordStored(w);
    var v := LoadWord(s);
    WordStored(v);
    StoreLoad(s);
    Widths();
    UnsignedLittle(v, 4, 0);
  }

  lemma WordStored(w: word)
    ensures StoreWord(w) == Little(w, 4)
  {
    LittleInt(w);
  }

  /** The 32-bit integer at a position. */
  function IntAt(data: seq<byte>, pos: nat): int32
    requires pos + 4 <= |data|
  {
    Widths();
    SignedOf(data[pos..pos + 4])
  }

  /** Its four bytes are the integer's, lowest first. */
  lemma IntAtIsLittle(data: seq<byte>, pos: nat)
    requires pos + 4 <= |data|
    ensures Little(IntAt(data, pos), 4) == data[pos..pos + 4]
  {
    LittleSigned(data[pos..pos + 4]);
  }

  // ---- UTF-16, sections 2.1 and 2.2 of RFC 2781 ----

  predicate High(u: unit16) {
    0xD800 <= u < 0xDC00
  }

  predicate Low(u: unit16) {
    0xDC00 <= u < 0xE000
  }

  function UnitsOf(r: scalar): seq<unit16> {
    if r <= 0xFFFF then [r] else [(r - 0x1_0000) / 0x400 + 0xD800, (r - 0x1_0000) % 0x400 + 0xDC00]
  }

  function Units(s: seq<scalar>): seq<unit16> {
    if |s| == 0 then [] else UnitsOf(s[0]) + Units(s[1..])
  }

  /** A surrogate without its other half reads as the replacement character. */
  function Decode(us: seq<unit16>): seq<scalar> {
    if |us| == 0 then []
    else if !High(us[0]) && !Low(us[0]) then [us[0]] + Decode(us[1..])
    else if High(us[0]) && |us| > 1 && Low(us[1]) then
      [(us[0] - 0xD800) * 0x400 + (us[1] - 0xDC00) + 0x1_0000] + Decode(us[2..])
    else [REPLACEMENT] + Decode(us[1..])
  }

  /** Whether every surrogate has its other half. */
  predicate Paired(us: seq<unit16>) {
    |us| == 0
    || (!High(us[0]) && !Low(us[0]) && Paired(us[1..]))
    || (High(us[0]) && |us| > 1 && Low(us[1]) && Paired(us[2..]))
  }

  lemma {:induction false} DecodeUnits(s: seq<scalar>)
    ensures Decode(Units(s)) == s && Paired(Units(s))
  {
    if |s| > 0 {
      var us, rest := Units(s), Units(s[1..]);
      DecodeUnits(s[1..]);
      assert us[|UnitsOf(s[0])|..] == rest;
      assert s == [s[0]] + s[1..];
    }
  }

  lemma {:induction false} UnitsDecode(us: seq<unit16>)
    requires Paired(us)
    ensures Units(Decode(us)) == us
  {
    if |us| > 0 {
      var n := if High(us[0]) then 2 else 1;
      UnitsDecode(us[n..]);
      assert Decode(us)[1..] == Decode(us[n..]);
      assert us == us[..n] + us[n..];
      assert UnitsOf(Decode(us)[0]) == us[..n];
    }
  }

  /** Decoding loses nothing exactly when every surrogate is paired. */
  lemma UnitsDecodeIff(us: seq<unit16>)
    ensures Units(Decode(us)) == us <==> Paired(us)
  {
    DecodeUnits(Decode(us));
    if Paired(us) {
      UnitsDecode(us);
    }
  }

  lemma {:induction false} UnitsConcat(s: seq<scalar>, t: seq<scalar>)
    ensures Units(s + t) == Units(s) + Units(t)
  {
    if |s| == 0 {
      assert s + t == t;
    } else {
      assert (s + t)[1..] == s[1..] + t;
      UnitsConcat(s[1..], t);
    }
  }

  lemma {:induction false} NulUnits(s: seq<scalar>)
    ensures 0 in Units(s) <==> 0 in s
  {
    if |s| > 0 {
      NulUnits(s[1..]);
      assert s == [s[0]] + s[1..];
    }
  }

  /**
   * A surrogate that is not followed by its other half, or is no first half, reads as one replacement character, and what comes
   * before and behind it reads as it would alone.
   */
  lemma {:induction false} DecodeLone(s: seq<scalar>, u: unit16, rest: seq<unit16>)
    requires 0xD800 <= u < 0xE000
    requires u < 0xDC00 && |rest| > 0 ==> !(0xDC00 <= rest[0] < 0xE000)
    ensures Decode(Units(s) + [u] + rest) == s + [0xFFFD] + Decode(rest)
  {
    if |s| == 0 {
      assert Units(s) + [u] + rest == [u] + rest;
      assert ([u] + rest)[1..] == rest;
    } else {
      hide Decode, UnitsOf;
      DecodeLone(s[1..], u, rest);
      var tail := Units(s[1..]) + [u] + rest;
      DecodeOne(s[0], tail);
      assert Units(s) + [u] + rest == UnitsOf(s[0]) + tail;
      assert s == [s[0]] + s[1..];
    }
  }

  lemma DecodeOne(r: scalar, tail: seq<unit16>)
    ensures Decode(UnitsOf(r) + tail) == [r] + Decode(tail)
  {
    assert (UnitsOf(r) + tail)[|UnitsOf(r)|..] == tail;
  }

  // ---- strings as bytes ----

  function UnitBytes(us: seq<unit16>): (s: seq<byte>)
    ensures |s| == 2 * |us|
  {
    if |us| == 0 then [] else Little(us[0], 2) + UnitBytes(us[1..])
  }

  lemma {:induction false} UnitBytesConcat(us: seq<unit16>, vs: seq<unit16>)
    ensures UnitBytes(us + vs) == UnitBytes(us) + UnitBytes(vs)
  {
    if |us| == 0 {
      assert us + vs == vs;
    } else {
      assert (us + vs)[1..] == us[1..] + vs;
      UnitBytesConcat(us[1..], vs);
    }
  }

  function Text(s: seq<scalar>): seq<byte> {
    UnitBytes(Units(s)) + [0, 0]
  }

  function UnitAt(data: seq<byte>, pos: nat): unit16
    requires pos + 2 <= |data|
  {
    Widths();
    Unsigned(data[pos..pos + 2])
  }

  /** The units from pos up to the first zero unit, if there is one. */
  function Collected(data: seq<byte>, pos: nat): (r: Option<seq<unit16>>)
    ensures r.Some? ==> pos + 2 * |r.value| + 2 <= |data| && 0 !in r.value
    decreases |data| - pos
  {
    if pos + 2 > |data| then None
    else if UnitAt(data, pos) == 0 then Some([])
    else
      match Collected(data, pos + 2)
      case None => None
      case Some(us) => Some([UnitAt(data, pos)] + us)
  }

  function Prepend(us: seq<unit16>, r: Option<seq<unit16>>): Option<seq<unit16>> {
    match r
    case None => None
    case Some(vs) => Some(us + vs)
  }

  lemma UnitRead(data: seq<byte>, pos: nat, u: unit16)
    requires pos + 2 <= |data| && Little(u, 2) <= data[pos..]
    ensures UnitAt(data, pos) == u
  {
    Widths();
    UnsignedLittle(u, 2, 0);
    assert data[pos..pos + 2] == data[pos..][..2] == Little(u, 2);
  }

  /** What a list of units without a zero reads as when the bytes are all there, and when they are cut short. */
  lemma {:induction false} CollectedUnits(data: seq<byte>, pos: nat, us: seq<unit16>)
    requires 0 !in us && pos <= |data|
    ensures UnitBytes(us) + [0, 0] <= data[pos..] ==> Collected(data, pos) == Some(us)
    ensures data[pos..] <= UnitBytes(us) + [0, 0] && |data[pos..]| < 2 * |us| + 2 ==> Collected(data, pos) == None
    decreases |us|
  {
    hide Unsigned, UnitAt, Little;
    var all, rest := UnitBytes(us) + [0, 0], data[pos..];
    if |us| == 0 {
      if all <= rest {
        ZeroUnit();
        UnitRead(data, pos, 0);
      }
    } else {
      assert all == Little(us[0], 2) + (UnitBytes(us[1..]) + [0, 0]);
      if |rest| >= 2 && (all <= rest || rest <= all) {
        assert rest[..2] == Little(us[0], 2);
        UnitRead(data, pos, us[0]);
        assert data[pos + 2..] == rest[2..];
        CollectedUnits(data, pos + 2, us[1..]);
        assert us == [us[0]] + us[1..];
      }
    }
  }

  lemma ZeroUnit()
    ensures Little(0, 2) == [0, 0]
  {
  }

  // ---- the writer and the reader ----

  class Writer {
    var buf: seq<byte>

    constructor ()
      ensures buf == []
    {
      buf := [];
    }

    method WriteByte(b: byte)
      modifies this
      ensures buf == old(buf) + [b]
    {
      buf := buf + [b];
    }

    method WriteShort(val: int16)
      modifies this
      ensures buf == old(buf) + Little(val, 2)
    {
      WriteByte(val % 256);
      WriteByte(val / 0x100 % 256);
      assert Little(val / 0x100, 1) == [val / 0x100 % 256];
    }

    method WriteInt(val: int32)
      modifies this
      ensures buf == old(buf) + Little(val, 4)
    {
      WriteByte(val % 256);
      WriteByte(val / 0x100 % 256);
      WriteByte(val / 0x1_0000 % 256);
      WriteByte(val / 0x100_0000 % 256);
      LittleInt(val);
    }

    method WriteLong(val: int64)
      modifies this
      ensures buf == old(buf) + Little(val, 8)
    {
      WriteByte(val % 256);
      WriteByte(val / 0x100 % 256);
      WriteByte(val / 0x1_0000 % 256);
      WriteByte(val / 0x100_0000 % 256);
      WriteByte(val / 0x1_0000_0000 % 256);
      WriteByte(val / 0x100_0000_0000 % 256);
      WriteByte(val / 0x1_0000_0000_0000 % 256);
      WriteByte(val / 0x100_0000_0000_0000 % 256);
      LittleLong(val);
    }

    method WriteBytes(data: seq<byte>)
      modifies this
      ensures buf == old(buf) + data
    {
      buf := buf + data;
    }

    method WriteString(s: seq<scalar>)
      modifies this
      ensures buf == old(buf) + UnitBytes(Units(s)) + [0, 0]
    {
      hide Units, UnitBytes, UnitsOf, Little;
      NoUnits();
      for i := 0 to |s|
        invariant buf == old(buf) + UnitBytes(Units(s[..i]))
      {
        TextStep(s, i);
        var r: int := s[i];
        RuneBytes(r);
        ghost var before := buf;
        if r <= 0xFFFF {
          WriteByte(r % 256);
          WriteByte(r / 256 % 256);
        } else {
          var rest: int := r - 0x1_0000;
          var high: unit16, low: unit16 := rest / 0x400 + 0xD800, rest % 0x400 + 0xDC00;
          WriteByte(high % 256);
          WriteByte(high / 256 % 256);
          WriteByte(low % 256);
          WriteByte(low / 256 % 256);
        }
        assert buf == before + UnitBytes(UnitsOf(r));
      }
      assert s[..|s|] == s;
      WriteByte(0x00);
      WriteByte(0x00);
    }
  }

  lemma {:induction false} LittleStep(v: int, i: nat, n: nat, p: nat)
    requires i < n && p > 0 && p == Pow(256, i)
    ensures Little(v, n)[i] == v / p % 256
    decreases n
  {
    if i > 0 {
      PowPositive(256, i - 1);
      var q := Pow(256, i - 1);
      LittleStep(v / 256, i - 1, n - 1, q);
      DivDiv(v, q);
    }
  }

  lemma LittleInt(v: int)
    ensures Little(v, 4) == [v % 256, v / 0x100 % 256, v / 0x1_0000 % 256, v / 0x100_0000 % 256]
  {
    hide Little;
    LittleStep(v, 0, 4, 1);
    LittleStep(v, 1, 4, 0x100);
    LittleStep(v, 2, 4, 0x1_0000);
    LittleStep(v, 3, 4, 0x100_0000);
  }

  lemma LittleLong(v: int)
    ensures Little(v, 8) == [v % 256, v / 0x100 % 256, v / 0x1_0000 % 256, v / 0x100_0000 % 256, v / 0x1_0000_0000 % 256,
                             v / 0x100_0000_0000 % 256, v / 0x1_0000_0000_0000 % 256, v / 0x100_0000_0000_0000 % 256]
  {
    hide Little;
    LittleStep(v, 0, 8, 1);
    LittleStep(v, 1, 8, 0x100);
    LittleStep(v, 2, 8, 0x1_0000);
    LittleStep(v, 3, 8, 0x100_0000);
    LittleStep(v, 4, 8, 0x1_0000_0000);
    LittleStep(v, 5, 8, 0x100_0000_0000);
    LittleStep(v, 6, 8, 0x1_0000_0000_0000);
    LittleStep(v, 7, 8, 0x100_0000_0000_0000);
  }

  lemma TextStep(s: seq<scalar>, i: nat)
    requires i < |s|
    ensures UnitBytes(Units(s[..i + 1])) == UnitBytes(Units(s[..i])) + UnitBytes(UnitsOf(s[i]))
  {
    assert s[..i + 1] == s[..i] + [s[i]];
    UnitsConcat(s[..i], [s[i]]);
    assert [s[i]][1..] == [] && UnitsOf(s[i]) + [] == UnitsOf(s[i]);
    assert Units([s[i]]) == UnitsOf(s[i]);
    UnitBytesConcat(Units(s[..i]), UnitsOf(s[i]));
  }

  lemma NoUnits()
    ensures UnitBytes(Units([])) == []
  {
  }

  lemma RuneBytes(r: scalar)
    ensures r <= 0xFFFF ==> UnitBytes(UnitsOf(r)) == [r % 256, r / 256 % 256]
    ensures r > 0xFFFF ==>
              var high, low := (r - 0x1_0000) / 0x400 + 0xD800, (r - 0x1_0000) % 0x400 + 0xDC00;
              UnitBytes(UnitsOf(r)) == [high % 256, high / 256 % 256, low % 256, low / 256 % 256]
  {
    UnitBytesOne(UnitsOf(r)[0]);
    if r > 0xFFFF {
      UnitBytesOne(UnitsOf(r)[1]);
      assert UnitsOf(r) == [UnitsOf(r)[0]] + [UnitsOf(r)[1]];
      UnitBytesConcat([UnitsOf(r)[0]], [UnitsOf(r)[1]]);
    }
  }

  lemma UnitBytesOne(u: unit16)
    ensures UnitBytes([u]) == [u % 256, u / 256 % 256]
  {
    assert [u][1..] == [];
    assert Little(u / 256, 1) == [u / 256 % 256] + Little(u / 256 / 256, 0);
  }

  class Reader {
    const data: seq<byte>
    var pos: nat

    ghost predicate Valid()
      reads this
    {
      pos <= |data|
    }

    constructor (data: seq<byte>)
      ensures Valid() && this.data == data && pos == 0
    {
      this.data := data;
      pos := 0;
    }

    method ReadByte() returns (r: Result<byte>)
      requires Valid()
      modifies this
      ensures Valid() && (r.Success? <==> old(pos) + 1 <= |data|)
      ensures r.Success? ==> r.value == data[old(pos)] && pos == old(pos) + 1
      ensures r.Failure? ==> pos == old(pos)
    {
      if pos >= |data| {
        return Failure("ReadByte: not enough data");
      }
      r := Success(data[pos]);
      pos := pos + 1;
    }

    method ReadShort() returns (r: Result<int16>)
      requires Valid()
      modifies this
      ensures Valid() && (r.Success? <==> old(pos) + 2 <= |data|)
      ensures r.Success? ==> r.value == SignedOf(data[old(pos)..old(pos) + 2]) && pos == old(pos) + 2
      ensures r.Failure? ==> pos == old(pos)
    {
      if pos + 2 > |data| {
        return Failure("ReadShort: not enough data");
      }
      Widths();
      r := Success(SignedOf(data[pos..pos + 2]));
      pos := pos + 2;
    }

    method ReadInt() returns (r: Result<int32>)
      requires Valid()
      modifies this
      ensures Valid() && (r.Success? <==> old(pos) + 4 <= |data|)
      ensures r.Success? ==> r.value == SignedOf(data[old(pos)..old(pos) + 4]) && pos == old(pos) + 4
      ensures r.Failure? ==> pos == old(pos)
    {
      if pos + 4 > |data| {
        return Failure("ReadInt: not enough data");
      }
      Widths();
      r := Success(SignedOf(data[pos..pos + 4]));
      pos := pos + 4;
    }

    method ReadLong() returns (r: Result<int64>)
      requires Valid()
      modifies this
      ensures Valid() && (r.Success? <==> old(pos) + 8 <= |data|)
      ensures r.Success? ==> r.value == SignedOf(data[old(pos)..old(pos) + 8]) && pos == old(pos) + 8
      ensures r.Failure? ==> pos == old(pos)
    {
      if pos + 8 > |data| {
        return Failure("ReadLong: not enough data");
      }
      Widths();
      r := Success(SignedOf(data[pos..pos + 8]));
      pos := pos + 8;
    }

    method ReadBytes(n: int) returns (r: Result<seq<byte>>)
      requires Valid()
      modifies this
      ensures Valid() && (r.Success? <==> n >= 0 && old(pos) + n <= |data|)
      ensures r.Success? ==> r.value == data[old(pos)..old(pos) + n] && pos == old(pos) + n
      ensures r.Failure? ==> pos == old(pos)
    {
      if n < 0 {
        return Failure("ReadBytes: negative count");
      }
      if pos + n > |data| {
        return Failure("ReadBytes: not enough data");
      }
      r := Success(data[pos..pos + n]);
      pos := pos + n;
    }

    lemma CollectStep(units: seq<unit16>, pos: nat)
      ensures pos + 2 <= |data| && UnitAt(data, pos) != 0 ==>
                Prepend(units, Collected(data, pos)) == Prepend(units + [UnitAt(data, pos)], Collected(data, pos + 2))
      ensures pos + 2 <= |data| && UnitAt(data, pos) == 0 ==> Prepend(units, Collected(data, pos)) == Some(units)
    {
      assert units + [] == units;
      if pos + 2 <= |data| && UnitAt(data, pos) != 0 && Collected(data, pos + 2).Some? {
        var u, us := UnitAt(data, pos), Collected(data, pos + 2).value;
        assert units + ([u] + us) == units + [u] + us;
      }
    }

    /** A failed read has used up every whole unit there was. */
    method ReadString() returns (r: Result<seq<scalar>>)
      requires Valid()
      modifies this
      ensures Valid() && (r.Success? <==> Collected(data, old(pos)).Some?)
      ensures r.Success? ==> var us := Collected(data, old(pos)).value; r.value == Decode(us) && pos == old(pos) + 2 * |us| + 2
      ensures r.Failure? ==> pos <= |data| < pos + 2
    {
      var units: seq<unit16> := [];
      assert Prepend(units, Collected(data, pos)) == Collected(data, pos) by {
        assert forall us: seq<unit16> :: [] + us == us;
      }
      while true
        invariant Valid() && pos == old(pos) + 2 * |units|
        invariant Collected(data, old(pos)) == Prepend(units, Collected(data, pos))
        decreases |data| - pos
      {
        CollectStep(units, pos);
        if pos + 2 > |data| {
          return Failure("ReadString: unexpected end of data");
        }
        var u := UnitAt(data, pos);
        pos := pos + 2;
        if u == 0 {
          break;
        }
        units := units + [u];
      }
      return Success(Decode(units));
    }
  }

  // ---- whole packets: any list of fields ----

  datatype Field =
    | Octet(b: byte)
    | Short(h: int16)
    | Int(i: int32)
    | Long(l: int64)
    | Str(s: seq<scalar>)
    | Raw(bytes: seq<byte>)

  datatype Kind = OctetKind | ShortKind | IntKind | LongKind | StrKind | RawKind(n: nat)

  function KindOf(f: Field): Kind {
    match f
    case Octet(_) => OctetKind
    case Short(_) => ShortKind
    case Int(_) => IntKind
    case Long(_) => LongKind
    case Str(_) => StrKind
    case Raw(bytes) => RawKind(|bytes|)
  }

  /** What the writer appends for a field. */
  function Written(f: Field): seq<byte> {
    match f
    case Octet(b) => [b]
    case Short(v) => Little(v, 2)
    case Int(v) => Little(v, 4)
    case Long(v) => Little(v, 8)
    case Str(s) => Text(s)
    case Raw(bytes) => bytes
  }

  /** What the reader makes of the bytes at pos, and where it stops. */
  function ReadOne(k: Kind, data: seq<byte>, pos: nat): (r: Option<(Field, nat)>)
    requires pos <= |data|
    ensures r.Some? ==> pos <= r.value.1 <= |data|
  {
    Widths();
    match k
    case OctetKind => if pos + 1 > |data| then None else Some((Octet(data[pos]), pos + 1))
    case ShortKind => if pos + 2 > |data| then None else Some((Short(SignedOf(data[pos..pos + 2])), pos + 2))
    case IntKind => if pos + 4 > |data| then None else Some((Int(SignedOf(data[pos..pos + 4])), pos + 4))
    case LongKind => if pos + 8 > |data| then None else Some((Long(SignedOf(data[pos..pos + 8])), pos + 8))
    case RawKind(n) => if pos + n > |data| then None else Some((Raw(data[pos..pos + n]), pos + n))
    case StrKind =>
      match Collected(data, pos)
      case None => None
      case Some(us) => Some((Str(Decode(us)), pos + 2 * |us| + 2))
  }

  /** A field as the writer writes it. */
  method WriteField(w: Writer, f: Field)
    modifies w
    ensures w.buf == old(w.buf) + Written(f)
  {
    hide Little, Units, UnitBytes;
    match f
    case Octet(b) => w.WriteByte(b);
    case Short(v) => w.WriteShort(v);
    case Int(v) => w.WriteInt(v);
    case Long(v) => w.WriteLong(v);
    case Str(s) =>
      w.WriteString(s);
      assert old(w.buf) + (UnitBytes(Units(s)) + [0, 0]) == old(w.buf) + UnitBytes(Units(s)) + [0, 0];
    case Raw(bytes) => w.WriteBytes(bytes);
  }

  /** A field as the reader reads it; a failed read of a string stops behind the last whole unit, any other where it began. */
  method ReadField(reader: Reader, k: Kind) returns (r: Result<Field>)
    requires reader.Valid()
    modifies reader
    ensures reader.Valid()
    ensures r.Success? <==> ReadOne(k, reader.data, old(reader.pos)).Some?
    ensures r.Success? ==> ReadOne(k, reader.data, old(reader.pos)) == Some((r.value, reader.pos))
    ensures r.Failure? ==> if k.StrKind? then |reader.data| < reader.pos + 2 else reader.pos == old(reader.pos)
  {
    hide Collected, Decode, SignedOf;
    match k
    case OctetKind =>
      var b := reader.ReadByte();
      r := if b.Success? then Success(Octet(b.value)) else Failure(b.error);
    case ShortKind =>
      var v := reader.ReadShort();
      r := if v.Success? then Success(Short(v.value)) else Failure(v.error);
    case IntKind =>
      var v := reader.ReadInt();
      r := if v.Success? then Success(Int(v.value)) else Failure(v.error);
    case LongKind =>
      var v := reader.ReadLong();
      r := if v.Success? then Success(Long(v.value)) else Failure(v.error);
    case StrKind =>
      var s := reader.ReadString();
      r := if s.Success? then Success(Str(s.value)) else Failure(s.error);
    case RawKind(n) =>
      var bytes := reader.ReadBytes(n);
      r := if bytes.Success? then Success(Raw(bytes.value)) else Failure(bytes.error);
  }

  function WrittenAll(fs: seq<Field>): seq<byte> {
    if |fs| == 0 then [] else Written(fs[0]) + WrittenAll(fs[1..])
  }

  function Kinds(fs: seq<Field>): seq<Kind> {
    if |fs| == 0 then [] else [KindOf(fs[0])] + Kinds(fs[1..])
  }

  function ReadAll(ks: seq<Kind>, data: seq<byte>, pos: nat): Option<(seq<Field>, nat)>
    requires pos <= |data|
    decreases |ks|
  {
    if |ks| == 0 then Some(([], pos))
    else
      match ReadOne(ks[0], data, pos)
      case None => None
      case Some((f, p)) =>
        match ReadAll(ks[1..], data, p)
        case None => None
        case Some((fs, q)) => Some(([f] + fs, q))
  }

  predicate NulFree(f: Field) {
    f.Str? ==> 0 !in f.s
  }

  lemma TextCollected(data: seq<byte>, pos: nat, s: seq<scalar>)
    requires pos <= |data| && 0 !in s
    ensures Text(s) <= data[pos..] ==> Collected(data, pos) == Some(Units(s)) && Decode(Units(s)) == s
    ensures data[pos..] <= Text(s) && |data[pos..]| < |Text(s)| ==> Collected(data, pos) == None
  {
    NulUnits(s);
    DecodeUnits(s);
    CollectedUnits(data, pos, Units(s));
  }

  lemma IntegerAt(data: seq<byte>, pos: nat, v: int, n: nat)
    requires n > 0 && Fits(v, n) && pos <= |data| && Little(v, n) <= data[pos..]
    ensures pos + n <= |data| && SignedOf(data[pos..pos + n]) == v
  {
    hide Signed, SignedOf, Fits;
    SignedLittle(v, n);
    assert data[pos..pos + n] == data[pos..][..n] == Little(v, n);
  }

  /** One field read back from wherever it was written, whatever follows. */
  lemma FieldReadBack(f: Field, data: seq<byte>, pos: nat)
    requires NulFree(f) && pos <= |data| && Written(f) <= data[pos..]
    ensures ReadOne(KindOf(f), data, pos) == Some((f, pos + |Written(f)|))
  {
    hide Collected, Decode, Units, SignedOf, Little;
    Widths();
    match f
    case Octet(b) => assert data[pos] == data[pos..][0];
    case Short(v) => IntegerAt(data, pos, v, 2);
    case Int(v) => IntegerAt(data, pos, v, 4);
    case Long(v) => IntegerAt(data, pos, v, 8);
    case Str(s) => TextCollected(data, pos, s);
    case Raw(bytes) => assert data[pos..pos + |bytes|] == data[pos..][..|bytes|] == bytes;
  }

  /** A string is read back exactly when it holds no U+0000; if it does, only what precedes the first one is. */
  lemma StringReadBackIff(s: seq<scalar>, data: seq<byte>, pos: nat)
    requires pos <= |data| && Text(s) <= data[pos..]
    ensures ReadOne(StrKind, data, pos) == Some((Str(s), pos + |Text(s)|)) <==> 0 !in s
    ensures forall i :: 0 <= i < |s| && s[i] == 0 && 0 !in s[..i] ==>
              ReadOne(StrKind, data, pos) == Some((Str(s[..i]), pos + |Text(s[..i])|))
  {
    hide ReadOne, Units, UnitBytes;
    forall i | 0 <= i < |s| && s[i] == 0 && 0 !in s[..i]
      ensures ReadOne(StrKind, data, pos) == Some((Str(s[..i]), pos + |Text(s[..i])|))
    {
      TextUpToNul(s, i);
      FieldReadBack(Str(s[..i]), data, pos);
    }
    if 0 !in s {
      FieldReadBack(Str(s), data, pos);
    } else {
      var i := FirstNul(s);
      assert s[..i] != s;
    }
  }

  function FirstNul(s: seq<scalar>): (i: nat)
    requires 0 in s
    ensures i < |s| && s[i] == 0 && 0 !in s[..i]
  {
    if s[0] == 0 then 0 else 1 + FirstNul(s[1..])
  }

  lemma TextUpToNul(s: seq<scalar>, i: nat)
    requires i < |s| && s[i] == 0
    ensures Text(s[..i]) <= Text(s)
  {
    assert s == s[..i + 1] + s[i + 1..];
    UnitsConcat(s[..i + 1], s[i + 1..]);
    UnitBytesConcat(Units(s[..i + 1]), Units(s[i + 1..]));
    TextStep(s, i);
    assert UnitBytes(UnitsOf(0)) == [0, 0];
  }

  lemma {:induction false} ReadBackNulFree(fs: seq<Field>, data: seq<byte>, pos: nat)
    requires (forall f :: f in fs ==> NulFree(f)) && pos <= |data| && WrittenAll(fs) <= data[pos..]
    ensures ReadAll(Kinds(fs), data, pos) == Some((fs, pos + |WrittenAll(fs)|))
    decreases |fs|
  {
    hide ReadOne, Written, KindOf;
    if |fs| > 0 {
      var w, rest := Written(fs[0]), WrittenAll(fs[1..]);
      assert w <= data[pos..];
      FieldReadBack(fs[0], data, pos);
      assert data[pos + |w|..] == data[pos..][|w|..];
      assert rest <= data[pos + |w|..];
      ReadBackNulFree(fs[1..], data, pos + |w|);
      assert fs == [fs[0]] + fs[1..];
    }
  }

  /** A string with a U+0000 in it is never read back as it was, nor is any packet it is a field of. */
  lemma {:induction false} NulIsNotReadBack(fs: seq<Field>, data: seq<byte>, pos: nat)
    requires pos <= |data| && WrittenAll(fs) <= data[pos..]
    requires ReadAll(Kinds(fs), data, pos).Some? && ReadAll(Kinds(fs), data, pos).value.0 == fs
    ensures forall f :: f in fs ==> NulFree(f)
    decreases |fs|
  {
    hide ReadOne, Written, KindOf;
    if |fs| > 0 {
      var f, w := fs[0], Written(fs[0]);
      assert w <= data[pos..];
      FieldNotReadBack(f, data, pos);
      FieldReadBack(f, data, pos);
      assert data[pos + |w|..] == data[pos..][|w|..];
      assert fs == [f] + fs[1..];
      NulIsNotReadBack(fs[1..], data, pos + |w|);
    }
  }

  lemma FieldNotReadBack(f: Field, data: seq<byte>, pos: nat)
    requires pos <= |data| && Written(f) <= data[pos..]
    ensures !NulFree(f) ==> ReadOne(KindOf(f), data, pos).Some? && ReadOne(KindOf(f), data, pos).value.0 != f
  {
    hide ReadOne, Units, UnitBytes;
    if !NulFree(f) {
      StringReadBackIff(f.s, data, pos);
      var i := FirstNul(f.s);
      assert f.s[..i] != f.s;
    }
  }

  /**
   * A packet is read back by the reads that mirror its writes, from any position and whatever follows, exactly when none of
   * its strings holds U+0000; the reader then stops exactly at its end.
   */
  lemma PacketReadBack(fs: seq<Field>, data: seq<byte>, pos: nat)
    requires pos <= |data| && WrittenAll(fs) <= data[pos..]
    ensures ReadAll(Kinds(fs), data, pos) == Some((fs, pos + |WrittenAll(fs)|)) <==> forall f :: f in fs ==> NulFree(f)
  {
    hide ReadAll, WrittenAll, Kinds, NulFree;
    if forall f :: f in fs ==> NulFree(f) {
      ReadBackNulFree(fs, data, pos);
    } else if ReadAll(Kinds(fs), data, pos) == Some((fs, pos + |WrittenAll(fs)|)) {
      NulIsNotReadBack(fs, data, pos);
    }
  }

  // ---- what a reader does with less than was written ----

  lemma {:induction false} CollectedPrefix(data: seq<byte>, n: nat, pos: nat)
    requires pos <= n <= |data|
    ensures var r := Collected(data, pos);
            Collected(data[..n], pos) == if r.Some? && pos + 2 * |r.value| + 2 <= n then r else None
    decreases n - pos
  {
    if pos + 2 <= n {
      assert data[..n][pos..pos + 2] == data[pos..pos + 2];
      CollectedPrefix(data, n, pos + 2);
    }
  }

  lemma ReadOnePrefix(k: Kind, data: seq<byte>, n: nat, pos: nat)
    requires pos <= n <= |data|
    ensures var r := ReadOne(k, data, pos);
            ReadOne(k, data[..n], pos) == if r.Some? && r.value.1 <= n then r else None
  {
    hide Collected, Decode, SignedOf;
    CollectedPrefix(data, n, pos);
    var size := match k case OctetKind => 1 case ShortKind => 2 case IntKind => 4 case LongKind => 8
                        case RawKind(m) => m case StrKind => 0;
    if pos + size <= n {
      assert data[..n][pos..pos + size] == data[pos..pos + size];
    }
  }

  /** Reading looks at nothing behind where it stops: on a prefix that ends earlier it fails, on a longer one it is the same. */
  lemma {:induction false} ReadAllPrefix(ks: seq<Kind>, data: seq<byte>, n: nat, pos: nat)
    requires pos <= n <= |data|
    ensures var r := ReadAll(ks, data, pos);
            ReadAll(ks, data[..n], pos) == if r.Some? && r.value.1 <= n then r else None
    ensures ReadAll(ks, data, pos).Some? ==> pos <= ReadAll(ks, data, pos).value.1 <= |data|
    decreases |ks|
  {
    hide ReadOne;
    if |ks| > 0 {
      ReadOnePrefix(ks[0], data, n, pos);
      var first := ReadOne(ks[0], data, pos);
      if first.Some? {
        if first.value.1 <= n {
          ReadAllPrefix(ks[1..], data, n, first.value.1);
        } else {
          ReadAllPrefix(ks[1..], data, first.value.1, first.value.1);
        }
      }
    }
  }

  /** A zero unit ahead, a whole number of units away, ends the string being read there at the latest. */
  lemma {:induction false} CollectedStops(data: seq<byte>, pos: nat, zero: nat)
    requires pos <= zero && (zero - pos) % 2 == 0 && zero + 2 <= |data| && UnitAt(data, zero) == 0
    ensures Collected(data, pos).Some? && pos + 2 * |Collected(data, pos).value| <= zero
    decreases zero - pos
  {
    if pos < zero && UnitAt(data, pos) != 0 {
      CollectedStops(data, pos + 2, zero);
    }
  }

  /** A reader that lags behind the field it expects, by whole units, reads one all the same and does not get ahead. */
  lemma LaggingRead(f: Field, data: seq<byte>, pos: nat, at: nat)
    requires pos <= at <= |data| && (at - pos) % 2 == 0 && Written(f) <= data[at..]
    ensures var r := ReadOne(KindOf(f), data, pos);
            r.Some? && r.value.1 <= at + |Written(f)| && (at + |Written(f)| - r.value.1) % 2 == 0
  {
    hide Collected, Decode, SignedOf, Little, Text;
    if f.Str? {
      LaggingText(f.s, data, pos, at);
    }
  }

  lemma LaggingText(s: seq<scalar>, data: seq<byte>, pos: nat, at: nat)
    requires pos <= at <= |data| && (at - pos) % 2 == 0 && Text(s) <= data[at..]
    ensures Collected(data, pos).Some?
    ensures var end := pos + 2 * |Collected(data, pos).value| + 2;
            end <= at + |Text(s)| && (at + |Text(s)| - end) % 2 == 0
  {
    hide Collected, Unsigned, Units;
    var zero := at + 2 * |Units(s)|;
    assert data[zero..zero + 2] == data[at..][2 * |Units(s)|..2 * |Units(s)| + 2] == [0, 0];
    ZeroBytes();
    CollectedStops(data, pos, zero);
  }

  lemma ZeroBytes()
    ensures Unsigned([0, 0]) == 0
  {
  }

  lemma {:induction false} LaggingReads(fs: seq<Field>, data: seq<byte>, pos: nat, at: nat)
    requires pos <= at <= |data| && (at - pos) % 2 == 0 && WrittenAll(fs) <= data[at..]
    ensures var r := ReadAll(Kinds(fs), data, pos); r.Some? && r.value.1 <= at + |WrittenAll(fs)|
    decreases |fs|
  {
    hide ReadOne, Written, KindOf;
    if |fs| > 0 {
      var w := Written(fs[0]);
      assert w <= data[at..];
      LaggingRead(fs[0], data, pos, at);
      assert data[at + |w|..] == data[at..][|w|..];
      LaggingReads(fs[1..], data, ReadOne(KindOf(fs[0]), data, pos).value.1, at + |w|);
    }
  }

  /** Where the reads that mirror a packet's writes stop. */
  function Stop(fs: seq<Field>, data: seq<byte>, pos: nat): (n: nat)
    requires pos <= |data| && WrittenAll(fs) <= data[pos..]
    ensures n <= pos + |WrittenAll(fs)|
  {
    LaggingReads(fs, data, pos, pos);
    ReadAll(Kinds(fs), data, pos).value.1
  }

  /**
   * Any packet at all is read without an error. Cut short at n, it is refused exactly when the reads stop behind n; so it is
   * refused wherever it is cut short exactly when they stop at its end, and without U+0000 in its strings they do.
   */
  lemma PacketCutShort(fs: seq<Field>, data: seq<byte>, pos: nat)
    requires pos <= |data| && WrittenAll(fs) <= data[pos..]
    ensures ReadAll(Kinds(fs), data, pos).Some? && pos <= Stop(fs, data, pos)
    ensures forall n :: pos <= n <= |data| ==> (ReadAll(Kinds(fs), data[..n], pos) == None <==> n < Stop(fs, data, pos))
    ensures (forall n :: pos <= n < pos + |WrittenAll(fs)| ==> ReadAll(Kinds(fs), data[..n], pos) == None)
       <==> Stop(fs, data, pos) == pos + |WrittenAll(fs)|
    ensures (forall f :: f in fs ==> NulFree(f)) ==> Stop(fs, data, pos) == pos + |WrittenAll(fs)|
  {
    LaggingReads(fs, data, pos, pos);
    forall n | pos <= n <= |data|
      ensures ReadAll(Kinds(fs), data[..n], pos) == None <==> n < Stop(fs, data, pos)
    {
      ReadAllPrefix(Kinds(fs), data, n, pos);
    }
    ReadAllPrefix(Kinds(fs), data, |data|, pos);
    PacketReadBack(fs, data, pos);
    var stop := Stop(fs, data, pos);
    assert stop < pos + |WrittenAll(fs)| ==> ReadAll(Kinds(fs), data[..stop], pos) != None;
  }
}
