/** The login server's packet encryption, whose first outgoing packet is sealed differently from all later ones. */
module LoginEncryption {
  import opened Bytes
  import opened Buffers
  import opened Blowfish
  import opened Wrappers

  const STATIC_BLOWFISH_KEY: seq<byte> := [
    0x6b, 0x60, 0xcb, 0x5b,
    0x82, 0xce, 0x90, 0xb1,
    0xcc, 0x2b, 0x6c, 0x55,
    0x6c, 0x6c, 0x6c, 0x6c
  ]

  // ---- the two wire forms ----

  /** Bytes sent for a first payload of n bytes. */
  function FirstSize(n: nat): (r: nat)
    ensures r % 8 == 0 && r >= n + 16 && r == RoundUp8(n) + 16
  {
    RoundUp8(n + 8) + 8
  }

  /** Bytes sent for a later payload of n bytes. */
  function LaterSize(n: nat): (r: nat)
    ensures r % 8 == 0 && r % 4 == 0 && n + 4 <= r < n + 12 && r <= RoundUp8(n) + 8
  {
    MultipleOfFour(RoundUp8(n + 4));
    RoundUp8(n + 4)
  }

  /** A whole number of blocks, all but the last four bytes of which go through the XOR pass. */
  predicate FirstRegion(region: seq<byte>) {
    |region| % 8 == 0 && |region| >= 16
  }

  lemma FirstRegionPasses(region: seq<byte>)
    requires FirstRegion(region)
    ensures PassRegion(region[..|region| - 4])
  {
    MultipleOfFour(|region|);
  }

  lemma MultipleOfFour(n: int)
    requires n % 8 == 0
    ensures n % 4 == 0 && (n - 4) % 4 == 0
  {
    var k := n / 8;
    assert n == 4 * (2 * k);
    assert n - 4 == 4 * (2 * k - 1);
  }

  /** The first packet before encryption. */
  function FirstText(region: seq<byte>, key: word): (r: seq<byte>)
    requires FirstRegion(region)
    ensures |r| == |region|
  {
    FirstRegionPasses(region);
    XorPassed(region[..|region| - 4], key) + region[|region| - 4..]
  }

  function FirstTextUndone(text: seq<byte>): (r: seq<byte>)
    requires FirstRegion(text)
    ensures |r| == |text|
  {
    FirstRegionPasses(text);
    XorUnpassed(text[..|text| - 4]) + text[|text| - 4..]
  }

  /** A payload padded with zeros and closed with its checksum, as every later packet carries it. */
  function LaterText(payload: seq<byte>): (r: seq<byte>)
    ensures |r| == LaterSize(|payload|)
  {
    Checksummed(ZeroPadded(payload))
  }

  function ZeroPadded(payload: seq<byte>): (r: seq<byte>)
    ensures |r| == LaterSize(|payload|) && payload <= r
  {
    payload + Zeros(LaterSize(|payload|) - |payload|)
  }

  /** What goes on the wire for a payload that has room behind it in the buffer. */
  function Wire(fixed: Cipher, dynamic: Cipher, first: bool, payload: seq<byte>, room: seq<byte>, key: word): (r: seq<byte>)
    requires first ==> |payload| + |room| >= FirstSize(|payload|)
    ensures |r| == if first then FirstSize(|payload|) else LaterSize(|payload|)
  {
    if first then Ecb(fixed.enc, FirstText((payload + room)[..FirstSize(|payload|)], key))
    else Ecb(dynamic.enc, LaterText(payload))
  }

  /**
   * A later packet's text is its payload, zeros up to the last word, and the word that makes every bit even, in the least
   * whole number of blocks that holds them.
   */
  lemma LaterTextIff(payload: seq<byte>, t: seq<byte>)
    ensures t == LaterText(payload) <==>
            && |t| % 8 == 0 && |payload| + 4 <= |t| < |payload| + 12
            && payload <= t && (forall i :: |payload| <= i < |t| - 4 ==> t[i] == 0)
            && Even(WordsOf(t))
  {
    hide WordsOf, Even, Checksummed, LaterSize;
    var padded := ZeroPadded(payload);
    ChecksummedIff(padded, t);
    if |t| % 8 == 0 && |payload| + 4 <= |t| < |payload| + 12 {
      OneMultipleOfEight(|t|, LaterSize(|payload|));
      var n := |t| - 4;
      assert padded[..n] == payload + Zeros(n - |payload|);
      assert t[..n] == padded[..n] <==> payload <= t && (forall i :: |payload| <= i < n ==> t[i] == 0) by {
        if t[..n] == padded[..n] {
          assert forall i :: 0 <= i < n ==> t[i] == t[..n][i] == padded[..n][i];
        }
      }
    }
  }

  lemma OneMultipleOfEight(m: int, n: int)
    requires m % 8 == 0 && n % 8 == 0 && m - 8 < n < m + 8
    ensures m == n
  {
  }

  /** A first packet is the forward pass over the payload and the room behind it, encrypted with the fixed key. */
  lemma WireMeans(fixed: Cipher, dynamic: Cipher, payload: seq<byte>, room: seq<byte>, key: word)
    ensures Wire(fixed, dynamic, false, payload, room, key) == Ecb(dynamic.enc, LaterText(payload))
    ensures var n := RoundUp8(|payload|) + 16;
            |payload| + |room| >= n ==>
              Wire(fixed, dynamic, true, payload, room, key) == Ecb(fixed.enc, EncPassed((payload + room)[..n], 0, n, key))
  {
    hide Ecb, XorPassed, EncPassed, LaterText, Splice;
    var n := RoundUp8(|payload|) + 16;
    if |payload| + |room| >= n {
      var region := (payload + room)[..n];
      MultipleOfFour(n);
      EncPassedIsXorPassed(region, 0, n, key);
      assert region[0..n - 4] == region[..n - 4];
      OverFront(region, XorPassed(region[..n - 4], key));
    }
  }

  lemma OverFront(d: seq<byte>, s: seq<byte>)
    requires |s| <= |d|
    ensures Splice(d, 0, s) == s + d[|s|..]
  {
  }

  class LoginEncryption {
    const staticCipher: Cipher
    const dynamicCipher: Cipher
    var firstPacket: bool

    constructor (schedule: seq<byte> -> Cipher, dynamicKey: seq<byte>)
      ensures staticCipher == schedule(STATIC_BLOWFISH_KEY) && dynamicCipher == schedule(dynamicKey)
      ensures firstPacket
    {
      staticCipher := schedule(STATIC_BLOWFISH_KEY);
      dynamicCipher := schedule(dynamicKey);
      firstPacket := true;
    }

    /**
     * The guard admits buffers too short for a first packet. Such a call overruns the buffer when even the key slot does not
     * fit, which the precondition rules out, and otherwise fails after the state has changed.
     */
    method EncryptPacket(data: array<byte>, offset: nat, size: nat, xorKey: word) returns (r: Result<nat>)
      requires firstPacket && offset + RoundUp8(size) + 8 <= data.Length ==> offset + RoundUp8(size) + 12 <= data.Length
      modifies this, data
      ensures r.Failure? <==>
              || offset + RoundUp8(size) + 8 > data.Length
              || (old(firstPacket) && offset + FirstSize(size) > data.Length)
      ensures offset + RoundUp8(size) + 8 > data.Length ==>
              data[..] == old(data[..]) && firstPacket == old(firstPacket)
      ensures offset + RoundUp8(size) + 8 <= data.Length ==> !firstPacket
      ensures r.Failure? && offset + RoundUp8(size) + 8 <= data.Length ==>
                data[..] == EncPassed(old(data[..]), offset, RoundUp8(size) + 16, xorKey)
      ensures r.Success? ==>
              var wire := Wire(staticCipher, dynamicCipher, old(firstPacket),
                               old(data[offset..offset + size]), old(data[offset + size..]), xorKey);
              r.value == |wire| && offset + |wire| <= data.Length && data[..] == Splice(old(data[..]), offset, wire)
    {
      hide Splice, Ecb, FirstText, LaterText, EncPassed;
      var padded := size;
      if padded % 8 != 0 {
        padded := padded + (8 - padded % 8);
      }
      var needed := padded + 8;
      if offset + needed > data.Length {
        return Failure("buffer too small");
      }
      if firstPacket {
        firstPacket := false;
        var encSize := size + 8;
        if encSize % 8 != 0 {
          encSize := encSize + (8 - encSize % 8);
        }
        encSize := encSize + 8;
        ghost var d := data[..];
        var ok := SealFirst(staticCipher, data, offset, size, encSize, xorKey);
        if !ok {
          return Failure("encrypting init packet");
        }
        PayloadAndRoom(d, offset, size, encSize);
        return Success(encSize);
      }
      var checksumSize := size + 4;
      if checksumSize % 8 != 0 {
        checksumSize := checksumSize + (8 - checksumSize % 8);
      }
      SealLater(dynamicCipher, data, offset, size, checksumSize);
      return Success(checksumSize);
    }

    method DecryptPacket(data: array<byte>, offset: nat, size: nat) returns (r: Result<bool>)
      modifies data
      ensures r.Failure? <==> size % 8 != 0 || offset + size > data.Length
      ensures r.Failure? ==> data[..] == old(data[..])
      ensures r.Success? ==>
              var text := Ecb(dynamicCipher.dec, old(data[offset..offset + size]));
              data[..] == Splice(old(data[..]), offset, text) && r.value == ChecksumValid(text)
    {
      if size % 8 != 0 {
        return Failure("size is not a multiple of 8");
      }
      ghost var d := data[..];
      var ok := dynamicCipher.Decrypt(data, offset, size);
      if !ok {
        return Failure("decrypting packet");
      }
      SpliceSlice(d, offset, Ecb(dynamicCipher.dec, d[offset..offset + size]));
      var valid := VerifyChecksum(data, offset, size);
      return Success(valid);
    }

    method EncryptPacketClient(data: array<byte>, offset: nat, size: nat) returns (r: Result<nat>)
      modifies data
      ensures r.Failure? <==> offset + LaterSize(size) > data.Length
      ensures r.Failure? ==> data[..] == old(data[..])
      ensures r.Success? ==>
              && r.value == LaterSize(size)
              && data[..] == Splice(old(data[..]), offset, Ecb(dynamicCipher.enc, LaterText(old(data[offset..offset + size]))))
    {
      var checksumSize := size + 4;
      if checksumSize % 8 != 0 {
        checksumSize := checksumSize + (8 - checksumSize % 8);
      }
      if offset + checksumSize > data.Length {
        return Failure("buffer too small");
      }
      SealLater(dynamicCipher, data, offset, size, checksumSize);
      return Success(checksumSize);
    }
  }

  method SealFirst(cipher: Cipher, data: array<byte>, offset: nat, size: nat, encSize: nat, key: word) returns (ok: bool)
    requires encSize == FirstSize(size) && offset + encSize - 4 <= data.Length
    modifies data
    ensures ok <==> offset + encSize <= data.Length
    ensures !ok ==> data[..] == EncPassed(old(data[..]), offset, encSize, key)
    ensures ok ==>
              data[..] == Splice(old(data[..]), offset, Ecb(cipher.enc, FirstText(old(data[offset..offset + encSize]), key)))
  {
    hide Splice, Ecb, XorPassed, EncPassed, FirstText;
    ghost var d := data[..];
    MultipleOfFour(encSize);
    EncXORPass(data, offset, encSize, key);
    EncPassedIsXorPassed(d, offset, encSize, key);
    ghost var passed := data[..];
    ok := cipher.Encrypt(data, offset, encSize);
    if ok {
      FirstIsSpliced(d, offset, encSize, key, cipher, passed);
    }
  }

  /** The steps the two senders share: zero the padding, close with the checksum, encrypt. */
  method SealLater(cipher: Cipher, data: array<byte>, offset: nat, size: nat, checksumSize: nat)
    requires checksumSize == LaterSize(size) && offset + checksumSize <= data.Length
    modifies data
    ensures data[..] == Splice(old(data[..]), offset, Ecb(cipher.enc, LaterText(old(data[offset..offset + size]))))
  {
    hide Splice, Checksummed, Ecb, ZeroPadded;
    ghost var d := data[..];
    LaterSteps(cipher, d, offset, size, checksumSize);
    ZeroRange(data, offset + size, checksumSize - size);
    AppendChecksum(data, offset, checksumSize);
    ghost var closed := Checksummed(ZeroPadded(d[offset..offset + size]));
    SpliceTwice(d, offset, closed, Ecb(cipher.enc, closed));
    var ok := cipher.Encrypt(data, offset, checksumSize);
  }

  /** Padding, closing and encrypting one after the other write the later wire form. */
  lemma LaterSteps(cipher: Cipher, d: seq<byte>, offset: nat, size: nat, n: nat)
    requires n == LaterSize(size) && offset + n <= |d|
    ensures var padded := ZeroPadded(d[offset..offset + size]);
            && Splice(d, offset + size, Zeros(n - size))[offset..offset + n] == padded
            && Splice(Splice(d, offset + size, Zeros(n - size)), offset, Checksummed(padded))
               == Splice(d, offset, Checksummed(padded))
            && Splice(d, offset, Checksummed(padded))[offset..offset + n] == Checksummed(padded)
  {
    hide Splice, Checksummed, LaterSize;
    var padded := ZeroPadded(d[offset..offset + size]);
    PaddedWindow(d, offset, size, n);
    SpliceTwice(d, offset, padded, Checksummed(padded));
    SpliceSlice(d, offset, Checksummed(padded));
  }

  method ZeroRange(data: array<byte>, at: nat, n: nat)
    requires at + n <= data.Length
    modifies data
    ensures data[..] == Splice(old(data[..]), at, Zeros(n))
  {
    var i := at;
    while i < at + n
      invariant at <= i <= at + n
      invariant forall k :: 0 <= k < data.Length ==> data[k] == if at <= k < i then 0 else old(data[..])[k]
    {
      data[i] := 0;
      i := i + 1;
    }
  }

  lemma PaddedWindow(d: seq<byte>, offset: nat, size: nat, total: nat)
    requires size <= total && offset + total <= |d|
    ensures var padded := d[offset..offset + size] + Zeros(total - size);
            && Splice(d, offset + size, Zeros(total - size)) == Splice(d, offset, padded)
            && Splice(d, offset, padded)[offset..offset + total] == padded
  {
    SpliceTail(d, offset, size, Zeros(total - size));
    SpliceSlice(d, offset, d[offset..offset + size] + Zeros(total - size));
  }

  /** Passing and encrypting in place is writing the first wire form over the payload and its room. */
  lemma FirstIsSpliced(d: seq<byte>, offset: nat, n: nat, key: word, cipher: Cipher, passed: seq<byte>)
    requires n % 8 == 0 && n >= 16 && offset + n <= |d|
    requires var s := d[offset..offset + n - 4]; PassRegion(s) && passed == Splice(d, offset, XorPassed(s, key))
    ensures Splice(passed, offset, Ecb(cipher.enc, passed[offset..offset + n]))
            == Splice(d, offset, Ecb(cipher.enc, FirstText(d[offset..offset + n], key)))
  {
    hide Splice, Ecb, XorPassed, PassRegion;
    var region := d[offset..offset + n];
    SubSlice(d, offset, n, 0, n - 4);
    assert region[..n - 4] == region[0..n - 4] == d[offset..offset + n - 4];
    TextOverPassed(d, offset, n, XorPassed(region[..n - 4], key));
    SpliceSlice(d, offset, FirstText(region, key));
    SpliceTwice(d, offset, FirstText(region, key), Ecb(cipher.enc, FirstText(region, key)));
  }

  lemma PayloadAndRoom(d: seq<byte>, offset: nat, size: nat, n: nat)
    requires size <= n && offset + n <= |d|
    ensures (d[offset..offset + size] + d[offset + size..])[..n] == d[offset..offset + n]
  {
  }

  lemma TextOverPassed(d: seq<byte>, offset: nat, n: nat, s: seq<byte>)
    requires n >= 4 && |s| == n - 4 && offset + n <= |d|
    ensures Splice(d, offset, s) == Splice(d, offset, s + d[offset..offset + n][n - 4..])
  {
    assert d[offset..offset + n][n - 4..] == d[offset + n - 4..offset + n];
  }

  // ---- the peer ----

  /** What a peer reads out of a packet, and whether its checksum holds. */
  datatype Opened = Opened(text: seq<byte>, checked: bool)

  function Open(fixed: Cipher, dynamic: Cipher, first: bool, wire: seq<byte>): Opened
    requires |wire| % 8 == 0 && (first ==> |wire| >= 16)
  {
    var text := Ecb(if first then fixed.dec else dynamic.dec, wire);
    if first then Opened(FirstTextUndone(text), false)
    else Opened(text, ChecksumValid(text))
  }

  /** A first packet is read by decrypting with the fixed key and passing backward; a later one says whether its bits are even. */
  lemma OpenMeans(fixed: Cipher, dynamic: Cipher, wire: seq<byte>)
    requires |wire| % 8 == 0
    ensures |wire| % 4 == 0
    ensures var text := Ecb(dynamic.dec, wire);
            Open(fixed, dynamic, false, wire) == Opened(text, |wire| > 4 && Even(WordsOf(text)))
    ensures |wire| >= 16 ==>
              Open(fixed, dynamic, true, wire) == Opened(DecPassed(Ecb(fixed.dec, wire), 0, |wire|), false)
  {
    hide Ecb, XorUnpassed, DecPassed, Splice, WordsOf, Even, ChecksumValid;
    MultipleOfFour(|wire|);
    ChecksumValidIff(Ecb(dynamic.dec, wire));
    if |wire| >= 16 {
      var text := Ecb(fixed.dec, wire);
      DecPassedIsXorUnpassed(text, 0, |wire|);
      assert text[0..|text| - 4] == text[..|text| - 4];
      OverFront(text, XorUnpassed(text[..|text| - 4]));
    }
  }

  lemma FirstRoundTrip(region: seq<byte>, key: word)
    requires FirstRegion(region)
    ensures FirstTextUndone(FirstText(region, key))[..|region| - 8] == region[..|region| - 8]
  {
    hide XorPassed, XorUnpassed, Plus, Sum, Middle, PassRegion;
    var s, text := region[..|region| - 4], FirstText(region, key);
    FirstRegionPasses(region);
    FirstRegionPasses(text);
    assert text[..|text| - 4] == XorPassed(s, key);
    UnpassRestores(s, key);
    assert s[..|s| - 4] == region[..|region| - 8];
  }

  lemma LaterRoundTrip(payload: seq<byte>)
    ensures payload <= LaterText(payload) && ChecksumValid(LaterText(payload))
  {
    hide ChecksumValid, ZeroPadded, LaterSize;
    var padded := ZeroPadded(payload);
    ChecksumVerifies(padded);
    ChecksummedKeepsBody(padded, |payload|);
  }

  lemma ChecksummedKeepsBody(s: seq<byte>, n: nat)
    requires |s| % 4 == 0 && n + 4 <= |s|
    ensures s[..n] <= Checksummed(s)
  {
  }

  lemma OpenInvertsWire(fixed: Cipher, dynamic: Cipher, first: bool, payload: seq<byte>, room: seq<byte>, key: word)
    requires fixed.Invertible() && dynamic.Invertible()
    requires first ==> |payload| + |room| >= FirstSize(|payload|)
    ensures var o := Open(fixed, dynamic, first, Wire(fixed, dynamic, first, payload, room, key));
            payload <= o.text && (!first ==> o.checked)
  {
    hide Ecb, XorUnpassed, FirstText, LaterText;
    if first {
      var region := (payload + room)[..FirstSize(|payload|)];
      fixed.EcbRoundTrip(FirstText(region, key));
      FirstRoundTrip(region, key);
      assert payload <= region[..|region| - 8];
    } else {
      dynamic.EcbRoundTrip(LaterText(payload));
      LaterRoundTrip(payload);
    }
  }

  // ---- a whole conversation through one encryptor ----

  datatype Sending = Sending(payload: seq<byte>, room: seq<byte>, key: word)

  /** Whether a payload has the room that a first packet takes; later packets are not asked for any. */
  predicate Fits(first: bool, sends: seq<Sending>) {
    first && |sends| > 0 ==> |sends[0].payload| + |sends[0].room| >= FirstSize(|sends[0].payload|)
  }

  /** The packets one encryptor produces for successive payloads; only the first of them can be a first packet. */
  function Transmitted(fixed: Cipher, dynamic: Cipher, first: bool, sends: seq<Sending>): (wires: seq<seq<byte>>)
    requires Fits(first, sends)
    ensures |wires| == |sends|
    decreases |sends|
  {
    if |sends| == 0 then [] else
      var s := sends[0];
      [Wire(fixed, dynamic, first, s.payload, s.room, s.key)] + Transmitted(fixed, dynamic, false, sends[1..])
  }

  /** Whether the encryptor has the buffer it asks for, and for a first packet the one it needs. */
  predicate Sendable(first: bool, s: Sending) {
    |s.payload| + |s.room| >= if first then FirstSize(|s.payload|) else RoundUp8(|s.payload|) + 8
  }

  /** One payload in a buffer of its own. */
  method Send(enc: LoginEncryption, s: Sending) returns (wire: seq<byte>)
    requires Sendable(enc.firstPacket, s)
    modifies enc
    ensures Fits(old(enc.firstPacket), [s]) && !enc.firstPacket
    ensures wire == Wire(enc.staticCipher, enc.dynamicCipher, old(enc.firstPacket), s.payload, s.room, s.key)
  {
    hide Splice, Wire;
    var content := s.payload + s.room;
    var data := new byte[|content|](i requires 0 <= i < |content| => content[i]);
    assert data[..] == content;
    assert data[0..|s.payload|] == s.payload && data[|s.payload|..] == s.room;
    var r := enc.EncryptPacket(data, 0, |s.payload|, s.key);
    wire := data[0..r.value];
    SpliceSlice(content, 0, Wire(enc.staticCipher, enc.dynamicCipher, old(enc.firstPacket), s.payload, s.room, s.key));
  }

  /** A conversation through one encryptor is what its flag makes of the list: one first packet if it is new, then later ones. */
  method SendAll(enc: LoginEncryption, sends: seq<Sending>) returns (wires: seq<seq<byte>>)
    requires forall i :: 0 <= i < |sends| ==> Sendable(enc.firstPacket && i == 0, sends[i])
    modifies enc
    ensures Fits(old(enc.firstPacket), sends)
    ensures wires == Transmitted(enc.staticCipher, enc.dynamicCipher, old(enc.firstPacket), sends)
    ensures |wires| == |sends|
    ensures forall i :: 0 <= i < |sends| ==>
              wires[i] == Wire(enc.staticCipher, enc.dynamicCipher, old(enc.firstPacket) && i == 0,
                               sends[i].payload, sends[i].room, sends[i].key)
    ensures enc.firstPacket == (old(enc.firstPacket) && |sends| == 0)
  {
    hide Wire, Transmitted;
    wires := [];
    ghost var first := enc.firstPacket;
    NothingTransmitted(enc.staticCipher, enc.dynamicCipher, first);
    for k := 0 to |sends|
      invariant enc.firstPacket == (first && k == 0)
      invariant wires == Transmitted(enc.staticCipher, enc.dynamicCipher, first, sends[..k])
    {
      TransmittedSnoc(enc.staticCipher, enc.dynamicCipher, first, sends[..k], sends[k]);
      assert sends[..k + 1] == sends[..k] + [sends[k]];
      var wire := Send(enc, sends[k]);
      wires := wires + [wire];
    }
    assert sends[..|sends|] == sends;
    forall i | 0 <= i < |sends|
      ensures wires[i] == Wire(enc.staticCipher, enc.dynamicCipher, first && i == 0, sends[i].payload, sends[i].room, sends[i].key)
    {
      TransmittedAt(enc.staticCipher, enc.dynamicCipher, first, sends, i);
    }
  }

  /** Only the packet at the head can be a first one. */
  lemma {:induction false} TransmittedAt(fixed: Cipher, dynamic: Cipher, first: bool, sends: seq<Sending>, i: nat)
    requires Fits(first, sends) && i < |sends|
    ensures Transmitted(fixed, dynamic, first, sends)[i]
            == Wire(fixed, dynamic, first && i == 0, sends[i].payload, sends[i].room, sends[i].key)
    decreases i
  {
    hide Wire;
    if i > 0 {
      TransmittedAt(fixed, dynamic, false, sends[1..], i - 1);
    }
  }

  lemma NothingTransmitted(fixed: Cipher, dynamic: Cipher, first: bool)
    ensures Transmitted(fixed, dynamic, first, []) == []
  {
  }

  lemma {:induction false} TransmittedSnoc(fixed: Cipher, dynamic: Cipher, first: bool, sends: seq<Sending>, s: Sending)
    requires Fits(first, sends + [s])
    ensures Fits(first, sends) && (first && |sends| == 0 ==> |s.payload| + |s.room| >= FirstSize(|s.payload|))
    ensures Transmitted(fixed, dynamic, first, sends + [s])
            == Transmitted(fixed, dynamic, first, sends) + [Wire(fixed, dynamic, first && |sends| == 0, s.payload, s.room, s.key)]
    decreases |sends|
  {
    hide Wire;
    if |sends| == 0 {
      assert (sends + [s])[1..] == [];
    } else {
      assert (sends + [s])[1..] == sends[1..] + [s];
      TransmittedSnoc(fixed, dynamic, false, sends[1..], s);
    }
  }

  predicate Wellformed(first: bool, wires: seq<seq<byte>>) {
    forall i :: 0 <= i < |wires| ==> |wires[i]| % 8 == 0 && (first && i == 0 ==> |wires[i]| >= 16)
  }

  function Received(fixed: Cipher, dynamic: Cipher, first: bool, wires: seq<seq<byte>>): (texts: seq<Opened>)
    requires Wellformed(first, wires)
    ensures |texts| == |wires|
  {
    if |wires| == 0 then [] else
      [Open(fixed, dynamic, first, wires[0])] + Received(fixed, dynamic, false, wires[1..])
  }

  lemma {:induction false} TransmittedWellformed(fixed: Cipher, dynamic: Cipher, first: bool, sends: seq<Sending>)
    requires Fits(first, sends)
    ensures Wellformed(first, Transmitted(fixed, dynamic, first, sends))
    decreases |sends|
  {
    if |sends| > 0 {
      TransmittedWellformed(fixed, dynamic, false, sends[1..]);
    }
  }

  /** The peer recovers every payload in order, and every checksum after the first packet verifies. */
  lemma {:induction false} ConversationRecovered(fixed: Cipher, dynamic: Cipher, first: bool, sends: seq<Sending>)
    requires fixed.Invertible() && dynamic.Invertible() && Fits(first, sends)
    ensures Wellformed(first, Transmitted(fixed, dynamic, first, sends))
    ensures forall i :: 0 <= i < |sends| ==>
      var o := Received(fixed, dynamic, first, Transmitted(fixed, dynamic, first, sends))[i];
      sends[i].payload <= o.text && ((first && i == 0) || o.checked)
    decreases |sends|
  {
    hide Wire, Open;
    TransmittedWellformed(fixed, dynamic, first, sends);
    if |sends| > 0 {
      var s := sends[0];
      OpenInvertsWire(fixed, dynamic, first, s.payload, s.room, s.key);
      ConversationRecovered(fixed, dynamic, false, sends[1..]);
      var wires := Transmitted(fixed, dynamic, first, sends);
      assert wires[1..] == Transmitted(fixed, dynamic, false, sends[1..]);
      forall i | 0 <= i < |sends|
        ensures var o := Received(fixed, dynamic, first, wires)[i];
                sends[i].payload <= o.text && ((first && i == 0) || o.checked)
      {
        if i > 0 {
          assert sends[i] == sends[1..][i - 1];
        }
      }
    }
  }
}
