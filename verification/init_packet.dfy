/** The Init packet and the handshake it opens. */
module InitPacket {
  import opened Bytes
  import opened Buffers
  import opened Blowfish
  import opened LoginEncryption
  import opened Scramble

  const INIT_OPCODE: byte := 0x00
  const PROTOCOL_REVISION: word := 0x0000C621
  const GG_CONST_1: word := 0x29DD954E
  const GG_CONST_2: word := 0x77C39CFC
  const GG_CONST_3: word := 0x97ADB620
  const GG_CONST_4: word := 0x07BDE0F7
  const SESSION_ID_OFFSET: nat := 1
  const PROTOCOL_REV_OFFSET: nat := 5
  const MODULUS_OFFSET: nat := 9
  const GG_CONSTANTS_OFFSET: nat := 137
  const BLOWFISH_KEY_OFFSET: nat := 153
  const NULL_TERMINATOR_OFFSET: nat := 169
  const TOTAL_SIZE: nat := 170
  const BLOWFISH_KEY_SIZE: nat := 16

  /** The fields of the packet, each after the one before. */
  function InitText(sessionID: word, scrambled: seq<byte>, key: seq<byte>): (s: seq<byte>)
    requires |scrambled| == MODULUS_SIZE && |key| == BLOWFISH_KEY_SIZE
    ensures |s| == TOTAL_SIZE
  {
    [INIT_OPCODE] + StoreWord(sessionID) + StoreWord(PROTOCOL_REVISION) + scrambled
    + StoreWord(GG_CONST_1) + StoreWord(GG_CONST_2) + StoreWord(GG_CONST_3) + StoreWord(GG_CONST_4) + key + [0x00]
  }

  /** d with as much of s at a position as there is room for. */
  function Copied(d: seq<byte>, at: nat, s: seq<byte>): (r: seq<byte>)
    requires at <= |d|
    ensures |r| == |d|
  {
    Splice(d, at, if |s| <= |d| - at then s else s[..|d| - at])
  }

  method Copy(buf: array<byte>, at: nat, s: seq<byte>)
    requires at <= buf.Length
    modifies buf
    ensures buf[..] == Copied(old(buf[..]), at, s)
  {
    Put(buf, at, if |s| <= buf.Length - at then s else s[..buf.Length - at]);
  }

  /**
   * The buffer after the fields have been copied into it one by one, whatever their lengths: a longer modulus or key runs on
   * into what comes behind it, where the later fields then overwrite it.
   */
  function InitBuffer(d: seq<byte>, sessionID: word, modulus: seq<byte>, key: seq<byte>): (r: seq<byte>)
    requires |d| >= TOTAL_SIZE
    ensures |r| == |d|
  {
    var head := [INIT_OPCODE] + StoreWord(sessionID) + StoreWord(PROTOCOL_REVISION);
    var d1 := Copied(Splice(d, 0, head), MODULUS_OFFSET, modulus);
    var d2 := Copied(Splice(d1, GG_CONSTANTS_OFFSET, GGConstants()), BLOWFISH_KEY_OFFSET, key);
    Splice(d2, NULL_TERMINATOR_OFFSET, [0x00])
  }

  function GGConstants(): (s: seq<byte>)
    ensures |s| == 16
  {
    StoreWord(GG_CONST_1) + StoreWord(GG_CONST_2) + StoreWord(GG_CONST_3) + StoreWord(GG_CONST_4)
  }

  method Init(buf: array<byte>, sessionID: word, scrambledModulus: seq<byte>, blowfishKey: seq<byte>) returns (n: nat)
    requires buf.Length >= TOTAL_SIZE
    modifies buf
    ensures n == TOTAL_SIZE
    ensures buf[..] == InitBuffer(old(buf[..]), sessionID, scrambledModulus, blowfishKey)
  {
    hide Splice, StoreWord, Copied;
    ghost var d := buf[..];
    ghost var s := [INIT_OPCODE];
    Put(buf, 0, [INIT_OPCODE]);
    s := Append(buf, d, 0, s, SESSION_ID_OFFSET, StoreWord(sessionID));
    s := Append(buf, d, 0, s, PROTOCOL_REV_OFFSET, StoreWord(PROTOCOL_REVISION));
    Copy(buf, MODULUS_OFFSET, scrambledModulus);
    d, s := buf[..], StoreWord(GG_CONST_1);
    Put(buf, GG_CONSTANTS_OFFSET, StoreWord(GG_CONST_1));
    s := Append(buf, d, GG_CONSTANTS_OFFSET, s, GG_CONSTANTS_OFFSET + 4, StoreWord(GG_CONST_2));
    s := Append(buf, d, GG_CONSTANTS_OFFSET, s, GG_CONSTANTS_OFFSET + 8, StoreWord(GG_CONST_3));
    s := Append(buf, d, GG_CONSTANTS_OFFSET, s, GG_CONSTANTS_OFFSET + 12, StoreWord(GG_CONST_4));
    Copy(buf, BLOWFISH_KEY_OFFSET, blowfishKey);
    Put(buf, NULL_TERMINATOR_OFFSET, [0x00]);
    return TOTAL_SIZE;
  }

  /** A field written right behind what has been written so far from position from on. */
  method Append(buf: array<byte>, ghost d: seq<byte>, ghost from: nat, ghost s: seq<byte>, at: nat, field: seq<byte>)
    returns (ghost s': seq<byte>)
    requires |d| == buf.Length && at == from + |s| && at + |field| <= buf.Length && buf[..] == Splice(d, from, s)
    modifies buf
    ensures s' == s + field && buf[..] == Splice(d, from, s')
  {
    SpliceAppend(d, from, s, field);
    Put(buf, at, field);
    s' := s + field;
  }

  /**
   * Every byte of the buffer, whatever the lengths: the session ID from 1, the protocol revision from 5, the modulus from 9,
   * the four constants from 137, the key from 153 and the closing zero at 169.
   */
  lemma InitLayout(d: seq<byte>, sessionID: word, modulus: seq<byte>, key: seq<byte>)
    requires |d| >= 170
    ensures var b := InitBuffer(d, sessionID, modulus, key);
            && b[0] == 0 && b[169] == 0
            && b[1] as int + 0x100 * b[2] as int + 0x1_0000 * b[3] as int + 0x100_0000 * b[4] as int == sessionID
            && b[5..9] == [0x21, 0xC6, 0x00, 0x00]
            && b[137..153] == [0x4E, 0x95, 0xDD, 0x29, 0xFC, 0x9C, 0xC3, 0x77, 0x20, 0xB6, 0xAD, 0x97, 0xF7, 0xE0, 0xBD, 0x07]
            && (forall k :: 9 <= k < 137 ==> b[k] == if k - 9 < |modulus| then modulus[k - 9] else d[k])
            && (forall k :: 153 <= k < |d| && k != 169 ==>
                  b[k] == if k - 153 < |key| then key[k - 153] else if k - 9 < |modulus| then modulus[k - 9] else d[k])
  {
    hide Splice, Copied, InitBuffer;
    var b, head := InitBuffer(d, sessionID, modulus, key), [INIT_OPCODE] + StoreWord(sessionID) + StoreWord(PROTOCOL_REVISION);
    InitBytes(d, sessionID, modulus, key);
    assert head == b[..9];
    assert GGConstants() == b[137..153];
    LoadStore(sessionID);
    assert StoreWord(sessionID) == [b[1], b[2], b[3], b[4]];
  }

  lemma InitBytes(d: seq<byte>, sessionID: word, modulus: seq<byte>, key: seq<byte>)
    requires |d| >= 170
    ensures var b, head := InitBuffer(d, sessionID, modulus, key), [INIT_OPCODE] + StoreWord(sessionID) + StoreWord(PROTOCOL_REVISION);
            forall k :: 0 <= k < |d| ==>
              b[k] == if k < 9 then head[k] else if 137 <= k < 153 then GGConstants()[k - 137] else if k == 169 then 0
                      else if 153 <= k && k - 153 < |key| then key[k - 153] else if k - 9 < |modulus| then modulus[k - 9] else d[k]
  {
    hide Splice, Copied, StoreWord, GGConstants;
    var head := [INIT_OPCODE] + StoreWord(sessionID) + StoreWord(PROTOCOL_REVISION);
    forall k | 0 <= k < |d|
      ensures InitBuffer(d, sessionID, modulus, key)[k]
              == if k < 9 then head[k] else if 137 <= k < 153 then GGConstants()[k - 137] else if k == 169 then 0
                 else if 153 <= k && k - 153 < |key| then key[k - 153] else if k - 9 < |modulus| then modulus[k - 9] else d[k]
    {
      InitAt(d, head, modulus, key, k);
    }
  }

  lemma InitAt(d: seq<byte>, head: seq<byte>, modulus: seq<byte>, key: seq<byte>, k: nat)
    requires |d| >= 170 && |head| == 9 && k < |d|
    ensures var d1 := Copied(Splice(d, 0, head), 9, modulus);
            var d2 := Copied(Splice(d1, 137, GGConstants()), 153, key);
            Splice(d2, 169, [0x00])[k]
            == if k < 9 then head[k] else if 137 <= k < 153 then GGConstants()[k - 137] else if k == 169 then 0
               else if 153 <= k && k - 153 < |key| then key[k - 153] else if k - 9 < |modulus| then modulus[k - 9] else d[k]
  {
    hide Splice, Copied, GGConstants;
    var d1 := Copied(Splice(d, 0, head), 9, modulus);
    var d2 := Copied(Splice(d1, 137, GGConstants()), 153, key);
    SpliceAt(d, 0, head, k);
    CopiedAt(Splice(d, 0, head), 9, modulus, k);
    SpliceAt(d1, 137, GGConstants(), k);
    CopiedAt(Splice(d1, 137, GGConstants()), 153, key, k);
    SpliceAt(d2, 169, [0x00], k);
  }

  lemma CopiedAt(d: seq<byte>, at: nat, s: seq<byte>, k: nat)
    requires at <= |d| && k < |d|
    ensures Copied(d, at, s)[k] == if at <= k && k - at < |s| then s[k - at] else d[k]
  {
    hide Splice;
    SpliceAt(d, at, if |s| <= |d| - at then s else s[..|d| - at], k);
  }

  /** With a modulus and a key of the lengths they are meant to have, the fields lie one behind the other without a gap. */
  lemma InitBufferIsText(d: seq<byte>, sessionID: word, scrambled: seq<byte>, key: seq<byte>)
    requires |d| >= TOTAL_SIZE && |scrambled| == MODULUS_SIZE && |key| == BLOWFISH_KEY_SIZE
    ensures InitBuffer(d, sessionID, scrambled, key) == Splice(d, 0, InitText(sessionID, scrambled, key))
  {
    hide Splice, StoreWord;
    var head := [INIT_OPCODE] + StoreWord(sessionID) + StoreWord(PROTOCOL_REVISION);
    SpliceAppend(d, 0, head, scrambled);
    SpliceAppend(d, 0, head + scrambled, GGConstants());
    SpliceAppend(d, 0, head + scrambled + GGConstants(), key);
    SpliceAppend(d, 0, head + scrambled + GGConstants() + key, [0x00]);
    assert head + scrambled + GGConstants() + key + [0x00] == InitText(sessionID, scrambled, key);
  }

  // ---- the peer's side ----

  datatype Hello = Hello(sessionID: word, modulus: Modulus, key: seq<byte>)

  /** What a peer takes from the decrypted, unpassed Init text. */
  function ReadInit(text: seq<byte>): Hello
    requires |text| >= TOTAL_SIZE
  {
    Hello(LoadWord(text[SESSION_ID_OFFSET..SESSION_ID_OFFSET + 4]),
          Unscrambled(text[MODULUS_OFFSET..MODULUS_OFFSET + MODULUS_SIZE]),
          text[BLOWFISH_KEY_OFFSET..BLOWFISH_KEY_OFFSET + BLOWFISH_KEY_SIZE])
  }

  lemma InitFields(sessionID: word, scrambled: seq<byte>, key: seq<byte>, text: seq<byte>)
    requires |scrambled| == MODULUS_SIZE && |key| == BLOWFISH_KEY_SIZE
    requires InitText(sessionID, scrambled, key) <= text
    ensures text[SESSION_ID_OFFSET..SESSION_ID_OFFSET + 4] == StoreWord(sessionID)
    ensures text[MODULUS_OFFSET..MODULUS_OFFSET + MODULUS_SIZE] == scrambled
    ensures text[BLOWFISH_KEY_OFFSET..BLOWFISH_KEY_OFFSET + BLOWFISH_KEY_SIZE] == key
  {
    hide StoreWord;
    var s := InitText(sessionID, scrambled, key);
    assert s[SESSION_ID_OFFSET..SESSION_ID_OFFSET + 4] == StoreWord(sessionID);
    assert s[MODULUS_OFFSET..MODULUS_OFFSET + MODULUS_SIZE] == scrambled;
    assert s[BLOWFISH_KEY_OFFSET..BLOWFISH_KEY_OFFSET + BLOWFISH_KEY_SIZE] == key;
    assert text == s + text[|s|..];
  }

  /**
   * A peer that knows only the key schedule and the static key reads the session ID, the modulus as it was before
   * scrambling and the dynamic key out of the first packet, and with that key every later packet.
   */
  lemma HandshakeRecovered(schedule: seq<byte> -> Cipher, sessionID: word, modulus: Modulus, key: seq<byte>,
                           room: seq<byte>, xorKey: word, sends: seq<Sending>)
    requires |key| == BLOWFISH_KEY_SIZE && TOTAL_SIZE + |room| >= FirstSize(TOTAL_SIZE)
    requires schedule(STATIC_BLOWFISH_KEY).Invertible() && schedule(key).Invertible()
    ensures var fixed := schedule(STATIC_BLOWFISH_KEY);
            var all := [Sending(InitText(sessionID, Scrambled(modulus), key), room, xorKey)] + sends;
            var wires := Transmitted(fixed, schedule(key), true, all);
            && |wires| == |sends| + 1 && |wires[0]| % 8 == 0 && |wires[0]| >= FirstSize(TOTAL_SIZE)
            && var first := Open(fixed, fixed, true, wires[0]);
            && |first.text| >= TOTAL_SIZE
            && ReadInit(first.text) == Hello(sessionID, modulus, key)
            && var later := schedule(ReadInit(first.text).key);
            && Wellformed(false, wires[1..])
            && forall i :: 0 <= i < |sends| ==>
                 var o := Received(fixed, later, false, wires[1..])[i];
                 sends[i].payload <= o.text && o.checked
  {
    hide Wire, Open, InitText, Scrambled, Unscrambled;
    var fixed, dynamic := schedule(STATIC_BLOWFISH_KEY), schedule(key);
    var payload := InitText(sessionID, Scrambled(modulus), key);
    var s := Sending(payload, room, xorKey);
    var all := [s] + sends;
    assert all[0] == s && all[1..] == sends;
    OpenInvertsWire(fixed, fixed, true, payload, room, xorKey);
    FirstWireIgnoresDynamic(fixed, dynamic, payload, room, xorKey);
    var first := Open(fixed, fixed, true, Wire(fixed, dynamic, true, payload, room, xorKey));
    InitFields(sessionID, Scrambled(modulus), key, first.text);
    LoadStore(sessionID);
    UnscrambleInvertsScramble(modulus);
    ConversationRecovered(fixed, dynamic, false, sends);
    var wires := Transmitted(fixed, dynamic, true, all);
    assert wires[1..] == Transmitted(fixed, dynamic, false, sends);
  }

  lemma FirstWireIgnoresDynamic(fixed: Cipher, dynamic: Cipher, payload: seq<byte>, room: seq<byte>, key: word)
    requires |payload| + |room| >= FirstSize(|payload|)
    ensures Wire(fixed, dynamic, true, payload, room, key) == Wire(fixed, fixed, true, payload, room, key)
  {
  }
}
