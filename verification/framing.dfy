/** Length-prefixed frames: the relay link between the servers, and the login server's client link. */
module Framing {
  import opened Bytes
  import opened Buffers
  import opened Blowfish
  import opened LoginEncryption
  import opened NumberTheory
  import opened Packets
  import opened Wrappers

  const HEADER_SIZE: nat := 2
  const BUFFER_PADDING: nat := 16

  // ---- the length header: 16 bits, little-endian ----

  function LoadLength(s: seq<byte>): (n: nat)
    requires |s| == 2
    ensures n < 0x1_0000
  {
    var lo: int, hi: int := s[0], s[1];
    lo + 0x100 * hi
  }

  /** Only the low 16 bits of a length are stored. */
  function StoreLength(n: nat): (s: seq<byte>)
    ensures |s| == 2
  {
    [n % 0x100, n / 0x100 % 0x100]
  }

  lemma LengthRoundTrip(n: nat)
    ensures LoadLength(StoreLength(n)) == n % 0x1_0000
    ensures LoadLength(StoreLength(n)) == n <==> n < 0x1_0000
  {
    var q := n / 0x100;
    DivModUnique(n, q / 0x100, 0x100 * (q % 0x100) + n % 0x100, 0x1_0000);
  }

  /** The header is the length's low 16 bits, lowest byte first. */
  lemma LengthIsLittle(n: nat, s: seq<byte>)
    requires |s| == 2
    ensures StoreLength(n) == Little(n, 2) && LoadLength(s) == Unsigned(s)
    ensures StoreLength(n)[0] as int + 0x100 * StoreLength(n)[1] as int == n % 0x1_0000
    ensures LoadLength(s) == s[0] as int + 0x100 * s[1] as int
  {
    LengthRoundTrip(n);
    assert s[1..] == [s[1]];
    assert Unsigned([s[1]]) == s[1];
  }

  // ---- relay frames ----

  /** The checksummed text of a relay packet: the padding is whatever the buffer held behind the payload. */
  function RelayText(payload: seq<byte>, room: seq<byte>): (r: seq<byte>)
    requires |payload| + |room| >= LaterSize(|payload|)
    ensures |r| == LaterSize(|payload|)
  {
    Checksummed((payload + room)[..LaterSize(|payload|)])
  }

  function RelayFrame(cipher: Cipher, payload: seq<byte>, room: seq<byte>): (r: seq<byte>)
    requires |payload| + |room| >= LaterSize(|payload|)
    ensures |r| == HEADER_SIZE + LaterSize(|payload|)
  {
    StoreLength(HEADER_SIZE + LaterSize(|payload|)) + Ecb(cipher.enc, RelayText(payload, room))
  }

  /** A body that is not a whole number of blocks is checked as it arrived, because the decryption error is dropped. */
  function RelayOpened(cipher: Cipher, body: seq<byte>): (r: seq<byte>)
    ensures |r| == |body|
  {
    if |body| % BLOCK_SIZE == 0 then Ecb(cipher.dec, body) else body
  }

  datatype Read = Read(payload: seq<byte>, rest: seq<byte>)

  /** What reading one relay frame into a buffer of the given size yields. */
  function RelayRead(cipher: Cipher, stream: seq<byte>, capacity: nat): (r: Result<Read>) {
    if |stream| < HEADER_SIZE then Failure("reading packet header")
    else
      var total := LoadLength(stream[..HEADER_SIZE]);
      if total < HEADER_SIZE then Failure("invalid packet length")
      else if total - HEADER_SIZE > capacity then Failure("packet too large")
      else if |stream| < total then Failure("reading encrypted payload")
      else
        var text := RelayOpened(cipher, stream[HEADER_SIZE..total]);
        if !ChecksumValid(text) then Failure("checksum verification failed")
        else Success(Read(text[..|text| - CHECKSUM_SIZE], stream[total..]))
  }

  /** A frame is the length of the whole frame and then its text, encrypted. */
  lemma RelayFrameMeans(cipher: Cipher, payload: seq<byte>, room: seq<byte>)
    requires |payload| + |room| >= LaterSize(|payload|)
    ensures var f := RelayFrame(cipher, payload, room);
            f[0] as int + 0x100 * f[1] as int == |f| % 0x1_0000 && f[2..] == Ecb(cipher.enc, RelayText(payload, room))
  {
    hide Ecb, LaterSize, RelayText, StoreLength;
    var n := LaterSize(|payload|);
    LengthIsLittle(2 + n, StoreLength(2 + n));
  }

  /**
   * The text is the payload and what lies behind it in the buffer, up to the word that makes every bit even, in the least whole
   * number of blocks that holds them.
   */
  lemma RelayTextIff(payload: seq<byte>, room: seq<byte>, t: seq<byte>)
    requires |payload| + |room| >= LaterSize(|payload|)
    ensures t == RelayText(payload, room) <==>
            && |payload| + 4 <= |t| < |payload| + 12 && |t| % 8 == 0 && |t| % 4 == 0
            && t[..|t| - 4] <= payload + room && Even(WordsOf(t))
  {
    hide Even, WordsOf, LaterSize, Checksummed;
    var n := LaterSize(|payload|);
    var region := (payload + room)[..n];
    ChecksummedIff(region, t);
    if |t| % 8 == 0 && |payload| + 4 <= |t| < |payload| + 12 {
      OneMultipleOfEight(|t|, n);
      assert region[..n - 4] == (payload + room)[..n - 4];
    }
  }

  /** A frame is read exactly when it is all there, fits the buffer and its bits are even. */
  lemma RelayReadIff(cipher: Cipher, stream: seq<byte>, capacity: nat)
    ensures var r := RelayRead(cipher, stream, capacity);
            if |stream| < 2 then r.Failure? else
            var n := stream[0] as int + 0x100 * stream[1] as int;
            if !(2 <= n <= |stream| && n - 2 <= capacity) then r.Failure? else
            var body := stream[2..n];
            var text := if (n - 2) % 8 == 0 then Ecb(cipher.dec, body) else body;
            if (n - 2) % 4 == 0 && n > 6 && Even(WordsOf(text)) then r == Success(Read(text[..n - 6], stream[n..]))
            else r.Failure?
  {
    hide Ecb, Even, WordsOf, ChecksumValid;
    if |stream| >= 2 {
      LengthIsLittle(0, stream[..2]);
      var n := LoadLength(stream[..2]);
      if 2 <= n <= |stream| {
        ChecksumValidIff(RelayOpened(cipher, stream[2..n]));
      }
    }
  }

  /** The bytes handed to the writer; a failing writer is not modelled. */
  method WriteRelayPacket(cipher: Cipher, buf: array<byte>, payloadLen: int) returns (r: Result<seq<byte>>)
    modifies buf
    ensures r.Failure? <==> payloadLen < 0 || payloadLen + 18 > buf.Length
    ensures r.Failure? ==> buf[..] == old(buf[..])
    ensures r.Success? ==>
              r.value == RelayFrame(cipher, old(buf[HEADER_SIZE..HEADER_SIZE + payloadLen]), old(buf[HEADER_SIZE + payloadLen..]))
    ensures r.Success? ==> buf[..] == Splice(old(buf[..]), 0, r.value)
  {
    var minBufSize := HEADER_SIZE + BUFFER_PADDING;
    if payloadLen < 0 || payloadLen > buf.Length - minBufSize {
      return Failure("invalid payload length");
    }
    var dataSize := payloadLen + CHECKSUM_SIZE;
    var padding := (8 - dataSize % 8) % 8;
    var encryptedSize := dataSize + padding;
    assert encryptedSize == LaterSize(payloadLen);
    r := SealRelay(cipher, buf, payloadLen, encryptedSize);
  }

  method SealRelay(cipher: Cipher, buf: array<byte>, payloadLen: nat, n: nat) returns (r: Result<seq<byte>>)
    requires n == LaterSize(payloadLen) && HEADER_SIZE + n <= buf.Length
    modifies buf
    ensures r == Success(RelayFrame(cipher, old(buf[HEADER_SIZE..HEADER_SIZE + payloadLen]), old(buf[HEADER_SIZE + payloadLen..])))
    ensures buf[..] == Splice(old(buf[..]), 0, r.value)
  {
    hide Splice, Checksummed, Ecb, StoreLength, LaterSize;
    ghost var d := buf[..];
    PayloadAndRoom(d, HEADER_SIZE, payloadLen, n);
    ghost var text := Checksummed(d[HEADER_SIZE..HEADER_SIZE + n]);
    AppendChecksum(buf, HEADER_SIZE, n);
    SpliceSlice(d, HEADER_SIZE, text);
    SpliceTwice(d, HEADER_SIZE, text, Ecb(cipher.enc, text));
    var ok := cipher.Encrypt(buf, HEADER_SIZE, n);
    var totalSize := HEADER_SIZE + n;
    FrameSpliced(d, StoreLength(totalSize), Ecb(cipher.enc, text));
    Put(buf, 0, StoreLength(totalSize));
    return Success(buf[0..totalSize]);
  }

  lemma FrameSpliced(d: seq<byte>, header: seq<byte>, body: seq<byte>)
    requires |header| == HEADER_SIZE && HEADER_SIZE + |body| <= |d|
    ensures Splice(Splice(d, HEADER_SIZE, body), 0, header) == Splice(d, 0, header + body)
    ensures Splice(d, 0, header + body)[0..HEADER_SIZE + |body|] == header + body
  {
    SplicePrepend(d, 0, header, body);
    SpliceSlice(d, 0, header + body);
  }

  /** Reads one frame into buf and says how much of buf is payload, and what is left of the stream. */
  method ReadRelayPacket(stream: seq<byte>, cipher: Cipher, buf: array<byte>) returns (r: Result<nat>, rest: seq<byte>)
    modifies buf
    ensures r.Success? <==> RelayRead(cipher, stream, buf.Length).Success?
    ensures r.Success? ==>
              r.value <= buf.Length && RelayRead(cipher, stream, buf.Length) == Success(Read(buf[..r.value], rest))
  {
    hide Splice, Ecb, LoadLength;
    rest := stream;
    if |stream| < HEADER_SIZE {
      return Failure("reading packet header"), rest;
    }
    var totalLen := LoadLength(stream[..HEADER_SIZE]);
    if totalLen < HEADER_SIZE {
      return Failure("invalid packet length"), rest;
    }
    var encryptedSize := totalLen - HEADER_SIZE;
    if encryptedSize > buf.Length {
      return Failure("packet too large"), rest;
    }
    if |stream| - HEADER_SIZE < encryptedSize {
      return Failure("reading encrypted payload"), rest;
    }
    var valid := OpenRelay(cipher, buf, stream[HEADER_SIZE..totalLen]);
    if !valid {
      return Failure("checksum verification failed"), rest;
    }
    var payloadLen := encryptedSize - CHECKSUM_SIZE;
    return Success(payloadLen), stream[totalLen..];
  }

  method OpenRelay(cipher: Cipher, buf: array<byte>, body: seq<byte>) returns (valid: bool)
    requires |body| <= buf.Length
    modifies buf
    ensures valid == ChecksumValid(RelayOpened(cipher, body))
    ensures valid ==> |body| > CHECKSUM_SIZE
    ensures valid ==> buf[..|body| - CHECKSUM_SIZE] == RelayOpened(cipher, body)[..|body| - CHECKSUM_SIZE]
  {
    hide Splice, Ecb;
    ghost var d := buf[..];
    SpliceSlice(d, 0, body);
    SpliceSlice(Splice(d, 0, body), 0, RelayOpened(cipher, body));
    Put(buf, 0, body);
    var _ := cipher.Decrypt(buf, 0, |body|);
    assert buf[0..|body|] == RelayOpened(cipher, body);
    valid := VerifyChecksum(buf, 0, |body|);
    if valid {
      var payloadLen := |body| - CHECKSUM_SIZE;
      assert buf[0..|body|][..payloadLen] == buf[..payloadLen];
    }
  }

  // ---- relay round trips ----

  lemma RelayTextKeepsPayload(payload: seq<byte>, room: seq<byte>)
    requires |payload| + |room| >= LaterSize(|payload|)
    ensures var text := RelayText(payload, room);
            ChecksumValid(text) && payload <= text[..|text| - CHECKSUM_SIZE]
  {
    hide ChecksumValid, LaterSize;
    var s := (payload + room)[..LaterSize(|payload|)];
    ChecksumVerifies(s);
    ChecksummedKeepsBody(s, |s| - 4);
  }

  /**
   * A frame is read back, whatever follows it on the stream: the payload, then its padding up to the checksum. That is so
   * exactly when the length fits its header and the body fits the reader's buffer.
   */
  lemma RelayRoundTrip(cipher: Cipher, payload: seq<byte>, room: seq<byte>, more: seq<byte>, capacity: nat)
    requires cipher.Invertible() && |payload| + |room| >= LaterSize(|payload|)
    ensures var r := RelayRead(cipher, RelayFrame(cipher, payload, room) + more, capacity);
            (r.Success? && r.value.rest == more <==> HEADER_SIZE + LaterSize(|payload|) < 0x1_0000 && LaterSize(|payload|) <= capacity)
            && (r.Success? && r.value.rest == more ==>
                  payload <= r.value.payload && |r.value.payload| == RoundUp8(|payload| + 4) - 4)
  {
    hide Ecb, ChecksumValid, StoreLength, LoadLength, RelayText;
    var text := RelayText(payload, room);
    var total := HEADER_SIZE + LaterSize(|payload|);
    LengthRoundTrip(total);
    RelayTextKeepsPayload(payload, room);
    cipher.EcbRoundTrip(text);
    FrameParts(StoreLength(total), Ecb(cipher.enc, text), more);
  }

  lemma FrameParts(header: seq<byte>, body: seq<byte>, more: seq<byte>)
    requires |header| == HEADER_SIZE
    ensures var s := header + body + more;
            s[..HEADER_SIZE] == header && s[HEADER_SIZE..HEADER_SIZE + |body|] == body && s[HEADER_SIZE + |body|..] == more
  {
  }

  /** A body of the same length whose decrypted text differs from a valid one in a single aligned word is refused. */
  lemma RelayCorruptionDetected(cipher: Cipher, body: seq<byte>, changed: seq<byte>, k: nat, w: word, more: seq<byte>, capacity: nat)
    requires ChecksumValid(RelayOpened(cipher, body)) && k % 4 == 0 && k < |body|
    requires LoadWord(RelayOpened(cipher, body)[k..k + 4]) != w
    requires |changed| == |body| && HEADER_SIZE + |body| < 0x1_0000
    requires RelayOpened(cipher, changed) == Splice(RelayOpened(cipher, body), k, StoreWord(w))
    ensures RelayRead(cipher, StoreLength(HEADER_SIZE + |body|) + changed + more, capacity).Failure?
  {
    hide Ecb, ChecksumValid, StoreLength, LoadLength, RelayOpened, LoadWord, StoreWord, Splice;
    SingleWordErrorDetected(RelayOpened(cipher, body), k, w);
    LengthRoundTrip(HEADER_SIZE + |body|);
    FrameParts(StoreLength(HEADER_SIZE + |body|), changed, more);
  }

  // ---- a whole relay stream ----

  datatype Outgoing = Outgoing(payload: seq<byte>, room: seq<byte>)

  predicate Sendable(o: Outgoing, capacity: nat) {
    && |o.payload| + |o.room| >= LaterSize(|o.payload|)
    && HEADER_SIZE + LaterSize(|o.payload|) < 0x1_0000
    && LaterSize(|o.payload|) <= capacity
  }

  function RelayStream(cipher: Cipher, sent: seq<Outgoing>, capacity: nat): seq<byte>
    requires forall o :: o in sent ==> Sendable(o, capacity)
  {
    if |sent| == 0 then [] else
      assert Sendable(sent[0], capacity);
      RelayFrame(cipher, sent[0].payload, sent[0].room) + RelayStream(cipher, sent[1..], capacity)
  }

  /** Reads n frames one after another. */
  function ReadMany(cipher: Cipher, stream: seq<byte>, n: nat, capacity: nat): Result<seq<seq<byte>>> {
    if n == 0 then (if |stream| == 0 then Success([]) else Failure("bytes left over"))
    else
      var r := RelayRead(cipher, stream, capacity);
      if r.Failure? then Failure(r.error) else
      var tail := ReadMany(cipher, r.value.rest, n - 1, capacity);
      if tail.Failure? then tail else Success([r.value.payload] + tail.value)
  }

  /** Every payload of a stream of frames is read back in order, and the stream is used up. */
  lemma {:induction false} StreamRoundTrip(cipher: Cipher, sent: seq<Outgoing>, capacity: nat)
    requires cipher.Invertible()
    requires forall o :: o in sent ==> Sendable(o, capacity)
    ensures var r := ReadMany(cipher, RelayStream(cipher, sent, capacity), |sent|, capacity);
            && r.Success? && |r.value| == |sent|
            && forall i :: 0 <= i < |sent| ==> sent[i].payload <= r.value[i]
  {
    if |sent| > 0 {
      hide RelayRead, RelayFrame;
      var o, tail := sent[0], sent[1..];
      assert Sendable(o, capacity);
      StreamRoundTrip(cipher, tail, capacity);
      RelayRoundTrip(cipher, o.payload, o.room, RelayStream(cipher, tail, capacity), capacity);
      var r := ReadMany(cipher, RelayStream(cipher, sent, capacity), |sent|, capacity);
      forall i | 0 <= i < |sent|
        ensures sent[i].payload <= r.value[i]
      {
        if i > 0 {
          assert sent[i] == tail[i - 1];
        }
      }
    }
  }

  // ---- client frames ----

  function ClientFrame(wire: seq<byte>): seq<byte> {
    StoreLength(HEADER_SIZE + |wire|) + wire
  }

  /** What reading one client frame yields: the whole decrypted text, padding and checksum included. */
  function ClientRead(dynamic: Cipher, stream: seq<byte>, capacity: nat): (r: Result<Read>) {
    if |stream| < HEADER_SIZE then Failure("reading packet header")
    else
      var total := LoadLength(stream[..HEADER_SIZE]);
      if total < HEADER_SIZE then Failure("invalid packet length")
      else if total == HEADER_SIZE then Failure("empty packet")
      else if total - HEADER_SIZE > capacity then Failure("packet payload exceeds buffer")
      else if |stream| < total then Failure("reading packet payload")
      else if (total - HEADER_SIZE) % BLOCK_SIZE != 0 then Failure("size is not a multiple of 8")
      else
        var text := Ecb(dynamic.dec, stream[HEADER_SIZE..total]);
        if !ChecksumValid(text) then Failure("packet checksum verification failed")
        else Success(Read(text, stream[total..]))
  }

  lemma ClientFrameMeans(wire: seq<byte>)
    ensures var f := ClientFrame(wire);
            |f| == |wire| + 2 && f[2..] == wire && f[0] as int + 0x100 * f[1] as int == |f| % 0x1_0000
  {
    LengthIsLittle(2 + |wire|, StoreLength(2 + |wire|));
  }

  /** A client frame is read exactly when it is all there, fits the buffer, is a whole number of blocks and its bits are even. */
  lemma ClientReadIff(dynamic: Cipher, stream: seq<byte>, capacity: nat)
    ensures var r := ClientRead(dynamic, stream, capacity);
            if |stream| < 2 then r.Failure? else
            var n := stream[0] as int + 0x100 * stream[1] as int;
            if !(2 < n <= |stream| && n - 2 <= capacity && (n - 2) % 8 == 0) then r.Failure? else
            var text := Ecb(dynamic.dec, stream[2..n]);
            if Even(WordsOf(text)) then r == Success(Read(text, stream[n..])) else r.Failure?
  {
    hide Ecb, Even, WordsOf, ChecksumValid;
    if |stream| >= 2 {
      LengthIsLittle(0, stream[..2]);
      var n := LoadLength(stream[..2]);
      if 2 < n <= |stream| && (n - 2) % 8 == 0 {
        ChecksumValidIff(Ecb(dynamic.dec, stream[2..n]));
      }
    }
  }

  /** As with EncryptPacket, a buffer in which a first packet's key slot does not fit is ruled out. */
  method WriteClientPacket(enc: LoginEncryption, buf: array<byte>, payloadLen: nat, xorKey: word) returns (r: Result<seq<byte>>)
    requires enc.firstPacket && payloadLen + 18 <= buf.Length ==> RoundUp8(payloadLen) + 14 <= buf.Length
    modifies enc, buf
    ensures r.Failure? <==>
            payloadLen + 18 > buf.Length || (old(enc.firstPacket) && RoundUp8(payloadLen) + 18 > buf.Length)
    ensures payloadLen + 18 > buf.Length ==> buf[..] == old(buf[..]) && enc.firstPacket == old(enc.firstPacket)
    ensures payloadLen + 18 <= buf.Length ==> !enc.firstPacket
    ensures r.Success? ==>
              var start := 2 + payloadLen;
              r.value == ClientFrame(Wire(enc.staticCipher, enc.dynamicCipher, old(enc.firstPacket),
                                          old(buf[2..start]), Zeros(16) + old(buf[start + 16..]), xorKey))
  {
    hide Splice, Wire, StoreLength;
    var needed := HEADER_SIZE + payloadLen + BUFFER_PADDING;
    if buf.Length < needed {
      return Failure("buffer too small");
    }
    ghost var d := buf[..];
    ZeroRange(buf, HEADER_SIZE + payloadLen, BUFFER_PADDING);
    ClearedParts(d, HEADER_SIZE, payloadLen, BUFFER_PADDING);
    ghost var d' := buf[..];
    var encSize := enc.EncryptPacket(buf, HEADER_SIZE, payloadLen, xorKey);
    if encSize.Failure? {
      return Failure("encrypting packet");
    }
    ghost var wire := Wire(enc.staticCipher, enc.dynamicCipher, old(enc.firstPacket),
                           d'[HEADER_SIZE..HEADER_SIZE + payloadLen], d'[HEADER_SIZE + payloadLen..], xorKey);
    var totalLen := HEADER_SIZE + encSize.value;
    FrameSpliced(d', StoreLength(totalLen), wire);
    Put(buf, 0, StoreLength(totalLen));
    return Success(buf[0..totalLen]);
  }

  lemma ClearedParts(d: seq<byte>, at: nat, size: nat, n: nat)
    requires at + size + n <= |d|
    ensures var c := Splice(d, at + size, Zeros(n));
            c[at..at + size] == d[at..at + size] && c[at + size..] == Zeros(n) + d[at + size + n..]
  {
  }

  method ReadClientPacket(stream: seq<byte>, enc: LoginEncryption, buf: array<byte>) returns (r: Result<nat>, rest: seq<byte>)
    modifies buf
    ensures r.Success? <==> ClientRead(enc.dynamicCipher, stream, buf.Length).Success?
    ensures r.Success? ==>
              r.value <= buf.Length && ClientRead(enc.dynamicCipher, stream, buf.Length) == Success(Read(buf[..r.value], rest))
  {
    hide Splice, Ecb, LoadLength;
    rest := stream;
    if |stream| < HEADER_SIZE {
      return Failure("reading packet header"), rest;
    }
    var totalLen := LoadLength(stream[..HEADER_SIZE]);
    if totalLen < HEADER_SIZE {
      return Failure("invalid packet length"), rest;
    }
    var payloadLen := totalLen - HEADER_SIZE;
    if payloadLen == 0 {
      return Failure("empty packet"), rest;
    }
    if payloadLen > buf.Length {
      return Failure("packet payload exceeds buffer"), rest;
    }
    if |stream| - HEADER_SIZE < payloadLen {
      return Failure("reading packet payload"), rest;
    }
    var ok := OpenClient(enc, buf, stream[HEADER_SIZE..totalLen]);
    if !ok {
      return Failure("packet refused"), rest;
    }
    return Success(payloadLen), stream[totalLen..];
  }

  method OpenClient(enc: LoginEncryption, buf: array<byte>, body: seq<byte>) returns (ok: bool)
    requires |body| <= buf.Length
    modifies buf
    ensures ok <==> |body| % BLOCK_SIZE == 0 && ChecksumValid(Ecb(enc.dynamicCipher.dec, body))
    ensures ok ==> buf[..|body|] == Ecb(enc.dynamicCipher.dec, body)
  {
    hide Splice, Ecb, ChecksumValid;
    ghost var d := buf[..];
    SpliceSlice(d, 0, body);
    Put(buf, 0, body);
    var r := enc.DecryptPacket(buf, 0, |body|);
    if r.Failure? || !r.value {
      return false;
    }
    SpliceSlice(Splice(d, 0, body), 0, Ecb(enc.dynamicCipher.dec, body));
    assert buf[0..|body|] == buf[..|body|];
    return true;
  }

  /** Every later packet, from either side, is read back with its payload in front exactly when header and buffer have room. */
  lemma ClientRoundTrip(dynamic: Cipher, payload: seq<byte>, more: seq<byte>, capacity: nat)
    requires dynamic.Invertible()
    ensures ClientRead(dynamic, ClientFrame(Ecb(dynamic.enc, LaterText(payload))) + more, capacity)
            == Success(Read(LaterText(payload), more))
            <==> HEADER_SIZE + LaterSize(|payload|) < 0x1_0000 && LaterSize(|payload|) <= capacity
    ensures payload <= LaterText(payload)
  {
    hide Ecb, ChecksumValid, StoreLength, LoadLength, LaterText;
    var total := HEADER_SIZE + LaterSize(|payload|);
    LengthRoundTrip(total);
    LaterRoundTrip(payload);
    dynamic.EcbRoundTrip(LaterText(payload));
    FrameParts(StoreLength(total), Ecb(dynamic.enc, LaterText(payload)), more);
  }
}
