# la2go: a verified model of the server core

This project models the parts of the la2go game and login servers whose correctness rests on state or arithmetic, and proves
what they promise. `dafny verify dfyconfig.toml` checks all of it.

The model follows the program's own form. What works in place on buffers is a method on an `array`, proved against a function
of the buffer's old contents; what updates fields is a `class` whose methods keep an invariant; what is arithmetic is a
function. The properties are then lemmas about those functions and invariants.

| file | models |
|---|---|
| `integers.dfy`, `bytes.dfy`, `buffers.dfy`, `wrappers.dfy` | fixed-width integers, bytes, 32-bit words with wrap-around, exclusive or, writes into a buffer |
| `number_theory.dfy`, `octets.dfy`, `rsa.dfy` | raw RSA decryption; Fermat's little theorem and the Chinese remainder theorem are proved from the definition of a prime |
| `scramble.dfy` | the modulus obfuscation of the handshake |
| `blowfish.dfy`, `pass_values.dfy` | block loops, XOR checksum, chained XOR pass and the words it leaves |
| `login_encryption.dfy` | the stateful packet encryptor and a peer that opens its packets |
| `framing.dfy`, `init_packet.dfy` | length-prefixed frames of both links, the Init packet and the handshake |
| `grid.dfy`, `world.dfy` | region arithmetic, the region grid, the two object indices |
| `players.dfy`, `visibility.dfy`, `visibility_manager.dfy` | the visibility queries and the players' snapshots |
| `spawn.dfy`, `spawn_runs.dfy`, `spawn_interleaving.dfy` | the life of an NPC, whole runs one caller at a time, and several spawners in flight |
| `table.dfy`, `relay.dfy`, `relay_runs.dfy` | the game server registry with its bitmap, the relay's connection state machine and its runs |
| `sessions.dfy`, `login_handler.dfy`, `handoff.dfy` | login sessions, the login state machine, and the way of a player from one server to the other |
| `packets.dfy`, `auth_login.dfy` | packet bodies: integers, UTF-16LE strings, any list of fields, the AuthLogin packet |

## Assumptions

- A Blowfish key yields two block functions of which the second undoes the first (`Blowfish.Cipher.Invertible`).
- An RSA private key's remainder values are those that its primes and exponent determine (`Rsa.PrivateKey.Derived`); this is
  RSADP of section 5.1.2 of RFC 8017, with the octet conversions of sections 4.1 and 4.2.
- One handler call, one disconnect, one sweep of the visibility manager is one step. The Go code does not hold a lock across a
  handler. `SpawnInterleaving` drops this assumption for the spawn counter, where it matters most.
- An object keeps its location while it is in the world.
- A callback answers by what it has been shown so far and changes nothing in the world.
- Object IDs up to 100000 belong to players and other objects, as internal/spawn/manager.go:52-53 says.
- Random keys, the clock, database answers and decrypted credentials are arguments.

## Where the code and its description differ

- `EncryptPacket` (internal/crypto/login_encryption.go:53-56) asks for room for the padded payload and 8 bytes, but a first
  packet takes 16. `EncryptPacket` states which calls fail late and which would leave the buffer.
- The key slot of the chained pass is 8 bytes before the end of the region it is given, not its last 4
  (internal/crypto/blowfish.go:92-107); the last 4 are left alone.
- The relay's reader drops the decryption error (internal/gslistener/protocol.go:81), so a body that is not a whole number of
  blocks is checked undecrypted.
- A header stores a length modulo 2^16; both frame round trips hold for the lengths that fit.
- The remainder branch of decryption agrees with plain exponentiation on every ciphertext exactly when neither reduced exponent
  is zero (or the exponent itself is); `Rsa.ByRemaindersIffPlain` says on which ciphertexts it differs otherwise.
- The players' slow query passes region indices to `GetRegion`, which takes coordinates (internal/world/visibility.go:57,
  internal/world/visibility_manager.go:159). All indices of the grid lie in region (64, 128), so this is the region whose
  surroundings every in-world player is shown. Its objects come twice, because a neighbour list contains its centre.
- A callback's no during that query's first visit does not end the query.
- The grid reaches y = 231423, one row of regions beyond the documented 229376.
- Adding an object under a taken ID leaves the old object in its region unless both share one.
- An object with ID 0 is never shown by the cached query.
- A negative age limit makes a fresh snapshot stale at once.
- `firstAvailableID` takes a maximum below 1 for 63 (internal/gameserver/table.go:78-105).
- `SpawnAll` reports a failure for every spawn point that already held an NPC, although it fills it.
- A string with U+0000 in it is read back only up to there, so no packet that contains one is read back as it was.
- The two passes undo each other only on sizes that are multiples of four, or that leave no word between them; on others the
  last word runs into the key slot.
- Despawning an NPC a second time lowers its spawn point's count again. A birth that wraps the 32-bit ID counter gives out ID 0.

## Model

| member | source | states |
|---|---|---|
| NumberTheory.FermatLittle | internal/crypto/rsa.go:218-229 | a^(p-1) is 1 modulo a prime p that does not divide a, proved through the binomial theorem |
| NumberTheory.ReduceExponent | internal/crypto/rsa.go:218-229 | an exponent may be reduced modulo p-1 for a base that p does not divide |
| NumberTheory.PrimeIff | internal/crypto/rsa.go:218-229 | the primes are the numbers above one that are no product of two numbers above one |
| NumberTheory.ChineseRemainder | internal/crypto/rsa.go:226-237 | numbers equal modulo two distinct primes are equal modulo their product |
| Octets.ToNatFromNat | internal/crypto/rsa.go:214-216 | OS2IP undoes I2OSP for every number that fits |
| Octets.FromNatToNat | internal/crypto/rsa.go:214-216 | I2OSP undoes OS2IP for every octet string |
| Octets.PaddedIsFromNat | internal/crypto/rsa.go:248-260 | left-padding the shortest octet string is I2OSP for every number that fits |
| Octets.FromNatAt | internal/crypto/rsa.go:248-260 | each octet of I2OSP is the digit of the number to the base 256 at its place |
| Octets.MinimalIsShortest | internal/crypto/rsa.go:248-260 | the shortest octet string reads back as its number and does not begin with a zero octet |
| Octets.BitLenBounds | internal/crypto/rsa.go:210-212 | the bit length of a positive number is the exponent of the least power of two above it; that of zero is zero |
| Rsa.SizeIff | internal/crypto/rsa.go:210-212 | the key size is k exactly when twice the modulus lies from 2^(8k) up to below 2^(8k+8) |
| Rsa.RSADecryptNoPadding | internal/crypto/rsa.go:208-261 | succeeds iff twice the modulus lies from 2^(8n) up to below 2^(8n+8) for a ciphertext of n octets; the result is the number either branch computes, left-padded to n octets; on a key whose branches agree and whose modulus is at most 256^n that is c^d mod N |
| Rsa.ByRemaindersIffPlain | internal/crypto/rsa.go:218-246 | for every ciphertext, c >= N and multiples of p or q included, the remainder branch equals c^d mod N exactly unless a prime with a zero reduced exponent divides c while d is positive |
| Rsa.BranchesAgree | internal/crypto/rsa.go:218-246 | the two branches agree on all ciphertexts iff d is zero or both reduced exponents are not |
| Rsa.SameOctets | internal/crypto/rsa.go:208-261 | whichever branch is taken, the octets returned are the same keySize octets |
| Rsa.DecryptInvertsEncrypt | internal/crypto/rsa.go:208-261 | what the code computes from m^e is m left-padded to keySize octets, for every m below N, on every factored key with N at most 256^keySize, without remainder values or with the derived ones and two odd primes |
| Rsa.RoundTripIff | internal/crypto/rsa.go:208-261 | decryption inverts encryption for every message iff the key has no remainder values or neither of its primes is two |
| Rsa.RemainderRoundTripIff | internal/crypto/rsa.go:218-246 | the remainder branch inverts encryption for every message iff neither prime is two |
| Scramble.ScrambleModulus | internal/crypto/rsa.go:122-152 | leaves the result of the four loops in a fresh array and its input alone |
| Scramble.UnscrambleModulus | internal/crypto/rsa.go:157-189 | computes the unscrambled modulus in a fresh array and leaves its input alone |
| Scramble.ScrambledAt | internal/crypto/rsa.go:122-152 | every byte of the result: the first half is the exclusive or of the halves after bytes 0-3 have changed places with 77-80, the second what the first was, and bytes 52-55 of both halves go into 13-16 of both |
| Scramble.UnscrambleInvertsScramble | internal/crypto/rsa.go:122-189 | unscrambling undoes scrambling on all 128-byte strings |
| Scramble.ScrambleInvertsUnscramble | internal/crypto/rsa.go:122-189 | scrambling undoes unscrambling on all 128-byte strings |
| Scramble.ScrambleIsBijective | internal/crypto/rsa.go:122-152 | scrambling is one to one and onto |
| Bytes.XorAt | internal/crypto/blowfish.go:99-101 | a bit of an exclusive or is set iff it is set in one of the two words and not in the other, for all 32 bits |
| Bytes.Xor8At | internal/crypto/rsa.go:137-149 | the same for bytes |
| Bytes.BitIsDigit | internal/crypto/blowfish.go:99-101 | bit i of a number is its digit i to the base two |
| Bytes.WrapAround | internal/crypto/blowfish.go:99-120 | word sums and differences are those of the integers, less or plus 2^32 where they leave the range |
| Bytes.WordsOfAt | internal/crypto/blowfish.go:70-71 | word i of a byte string is made of its bytes 4i to 4i+3, lowest first |
| Buffers.SpliceAt | internal/crypto/blowfish.go:37-48 | a write into a buffer changes the bytes of its range to those written and no others |
| Blowfish.Cipher.EcbRoundTrip | internal/crypto/blowfish.go:37-63 | decrypting block by block undoes encrypting block by block, for every whole number of blocks |
| Blowfish.EcbAt | internal/crypto/blowfish.go:37-63 | block i of the result is the block function of block i |
| Blowfish.Cipher.Encrypt | internal/crypto/blowfish.go:37-48 | refuses part blocks and overruns without change, else replaces exactly the range by its block-wise encryption |
| Blowfish.Cipher.Decrypt | internal/crypto/blowfish.go:52-63 | the same for decryption |
| Blowfish.AppendChecksum | internal/crypto/blowfish.go:68-74 | replaces the range's last word by the XOR of the words before it and nothing else |
| Blowfish.VerifyChecksum | internal/crypto/blowfish.go:77-86 | true iff the size is a multiple of four above four and the words XOR to zero |
| Blowfish.ChecksumValidIff | internal/crypto/blowfish.go:77-86 | a checksum holds iff the size is a multiple of four above four and each of the 32 bits is set in an even number of the words |
| Blowfish.ChecksummedIff | internal/crypto/blowfish.go:68-74 | the checksummed text is the one text with the same bytes before the last word in which every bit is set in an even number of words |
| Blowfish.ChecksumVerifies | internal/crypto/blowfish.go:68-86 | a checksum just appended verifies iff it covers at least one word |
| Blowfish.SingleWordErrorDetected | internal/crypto/blowfish.go:77-86 | replacing any one aligned word of a valid text keeps it valid iff the word is the same |
| Blowfish.EncXORPass | internal/crypto/blowfish.go:92-107 | for every key, offset and size on which it does not panic the loop chains the words behind the first one, stores the accumulator in the key slot and touches nothing else |
| Blowfish.DecXORPass | internal/crypto/blowfish.go:112-126 | for every offset and size on which it does not panic the backward loop unchains the words in front of the key slot, counted from there, and touches nothing else |
| Blowfish.EncPassedIsXorPassed | internal/crypto/blowfish.go:92-107 | on sizes from 12 that are multiples of four the first word is kept, the words up to the key slot are chained and the slot holds the accumulator |
| Blowfish.DecPassedIsXorUnpassed | internal/crypto/blowfish.go:112-126 | on those sizes the backward pass unchains exactly the words the forward pass chained |
| Blowfish.AccumulatedIsKeyPlusSum | internal/crypto/blowfish.go:96-106 | the accumulator is the key plus the running sum, added as words |
| Blowfish.AccumulatedIsSum | internal/crypto/blowfish.go:96-106 | the accumulator is (key + sum of the words as integers) modulo 2^32 |
| Blowfish.ChainedAt | internal/crypto/blowfish.go:96-104 | closed form of the chain: each word is XORed with the key plus the sum of the words up to and including it |
| Blowfish.UnchainedAt | internal/crypto/blowfish.go:112-126 | closed form of the reverse chain: each word is XORed with the slot less the sum of the restored words behind it, modulo 2^32 |
| Blowfish.UnchainedInvertsChained | internal/crypto/blowfish.go:92-126 | undoing the chain from its end, starting with the accumulator, gives back every word |
| Blowfish.UnpassRestores | internal/crypto/blowfish.go:92-126 | the reverse pass restores every byte before the key slot, which holds key plus sum |
| Blowfish.PassesRestoreBuffer | internal/crypto/blowfish.go:92-126 | on a whole buffer the two passes one after the other change the key slot and not one byte besides |
| Blowfish.PassesFitIff | internal/crypto/blowfish.go:92-126 | the backward pass undoes the forward pass outside the key slot, for every buffer, offset and key, iff the size is a multiple of four or at most 12 |
| PassValues.SlotIsSum | internal/crypto/blowfish.go:92-107 | after the forward pass the word 8 bytes before the end is (key + sum of the words covered) modulo 2^32, for every offset and size, and the key alone for sizes up to 12 |
| PassValues.PassedWordIsXor | internal/crypto/blowfish.go:92-107 | each word in front of the slot becomes its XOR with (key + the words up to and including it) modulo 2^32 |
| PassValues.ForwardFrame | internal/crypto/blowfish.go:92-107 | no byte before the second word or behind the key slot changes |
| PassValues.RestoredWordIsXor | internal/crypto/blowfish.go:112-126 | each word the backward pass covers becomes its XOR with (slot - sum of the restored words behind it) modulo 2^32 |
| PassValues.BackwardFrame | internal/crypto/blowfish.go:112-126 | no byte outside the words in front of the key slot changes |
| LoginEncryption.LoginEncryption.EncryptPacket | internal/crypto/login_encryption.go:46-92 | exactly when it fails, before or after the first-packet flag flips, and that a late failure leaves the forward pass behind; a success writes the first or the later wire form and nothing else |
| LoginEncryption.LoginEncryption.DecryptPacket | internal/crypto/login_encryption.go:96-105 | fails without change on part blocks and overruns, else decrypts in place and reports the checksum |
| LoginEncryption.LoginEncryption.EncryptPacketClient | internal/crypto/login_encryption.go:110-136 | writes the same wire form as a later server packet |
| LoginEncryption.WireMeans | internal/crypto/login_encryption.go:56-91 | a first packet is the forward pass over roundup8(n)+16 bytes of payload and room, encrypted with the static key; a later one is its text encrypted with the dynamic key |
| LoginEncryption.LaterTextIff | internal/crypto/login_encryption.go:74-91 | that text is the one that starts with the payload, goes on with zeros up to the last word, has every bit in an even number of words and fills the least multiple of eight that holds n+4 bytes |
| LoginEncryption.OpenMeans | internal/crypto/login_encryption.go:96-105 | the peer decrypts with the static key and passes backward, or decrypts with the dynamic key and checks |
| LoginEncryption.OpenInvertsWire | internal/crypto/login_encryption.go:46-105 | one packet opened by the peer starts with its payload, and all but a first packet verify |
| LoginEncryption.SendAll | internal/crypto/login_encryption.go:46-92 | sending a list through one encryptor yields one first packet if its flag is still set and later packets for the rest, each of its own payload |
| LoginEncryption.ConversationRecovered | internal/crypto/login_encryption.go:46-105 | for any sequence of payloads through one encryptor, the first with room for a first packet, the peer recovers every one in order, and every checksum after the first packet verifies |
| Framing.LengthRoundTrip | internal/gslistener/protocol.go:38-42 | a stored length reads back modulo 2^16, hence exactly iff it is below |
| Framing.LengthIsLittle | internal/gslistener/protocol.go:38-42 | the header is the length's low 16 bits, lowest byte first |
| Framing.WriteRelayPacket | internal/gslistener/protocol.go:19-47 | fails without change exactly on a payload length the buffer has no room for, else builds the frame in place |
| Framing.RelayFrameMeans | internal/gslistener/protocol.go:19-47 | a frame is two bytes that hold the length of the whole frame modulo 2^16, then the encrypted text |
| Framing.RelayTextIff | internal/gslistener/protocol.go:19-47 | that text is the one that agrees with payload and buffer up to its last word, has every bit in an even number of words and fills the least multiple of eight that holds n+4 bytes |
| Framing.ReadRelayPacket | internal/gslistener/protocol.go:55-92 | succeeds exactly when a whole frame with a valid checksum is there and fits, and leaves the payload in the buffer and the rest on the stream |
| Framing.RelayReadIff | internal/gslistener/protocol.go:55-92 | a frame is read iff it is all there, fits the buffer, its body is a multiple of four above four and every bit of the decrypted text is set in an even number of words; a body that is no multiple of eight is taken as it is |
| Framing.RelayRoundTrip | internal/gslistener/protocol.go:19-92 | reading a written frame succeeds and leaves the stream at its end iff its length fits the header and its body the buffer, and then yields roundup8(n+4)-4 bytes that start with the payload |
| Framing.RelayCorruptionDetected | internal/gslistener/protocol.go:81-89 | a frame whose text differs from a valid one in a single aligned word is refused |
| Framing.StreamRoundTrip | internal/gslistener/protocol.go:19-92 | any number of frames written one after another are read back in order, and the stream is used up |
| Framing.WriteClientPacket | internal/protocol/packet.go:15-35 | exactly when it fails, and that it frames the encryptor's wire form with its padding cleared |
| Framing.ClientFrameMeans | internal/protocol/packet.go:15-35 | a frame is two bytes that hold the length of the whole frame modulo 2^16, then what the encryptor made |
| Framing.ReadClientPacket | internal/protocol/packet.go:39-73 | succeeds exactly when a whole non-empty frame that decrypts and verifies is there and fits |
| Framing.ClientReadIff | internal/protocol/packet.go:39-73 | a frame is read iff it is not empty, all there, fits the buffer, its body is a multiple of eight and every bit of the decrypted text is set in an even number of words |
| Framing.ClientRoundTrip | internal/protocol/packet.go:15-73 | every later packet is read back with its payload in front iff its length fits the header and its body the buffer |
| InitPacket.Init | internal/login/serverpackets/init.go:14-31 | the buffer after the fields are copied to their offsets one by one, for a modulus and a key of any length |
| InitPacket.InitLayout | internal/login/serverpackets/init.go:14-31 | every byte of that buffer, for any lengths: session ID from 1, revision C621 from 5, modulus from 9, four constants from 137, key from 153, zero at 169 |
| InitPacket.InitBufferIsText | internal/login/serverpackets/init.go:14-31 | with 128 and 16 bytes of these the fields lie one behind the other and fill exactly 170 bytes |
| InitPacket.HandshakeRecovered | internal/login/serverpackets/init.go:14-31 | a peer that knows only the static key recovers the session ID, the unscrambled modulus and the dynamic key from the first packet, and with that key every later payload |
| Grid.InWorldIff | internal/world/grid.go:32-41 | the rectangle of coordinates that the grid covers |
| Grid.RegionIff | internal/world/grid.go:32-36 | region (rx, ry) is the square of side 2048 from (2048(rx-64), 2048(ry-128)) on |
| Grid.CentreIsMiddle | internal/world/grid.go:44-50 | the coordinates given for an index are the middle of its square, modulo 2^32 for an index off the grid |
| Grid.CentreIsInRegion | internal/world/grid.go:32-50 | the coordinates given for a region index lie in that region |
| Grid.SightBounds | internal/world/grid.go:32-41 | sight is symmetric, includes everything within 2048 units on both axes and nothing beyond 4095 on either |
| Grid.SightBoundsTight | internal/world/grid.go:32-41 | neither bound can be improved |
| Grid.IndicesAsCoordinates | internal/world/visibility.go:54-57 | every region index read as a coordinate pair lies in region (64, 128) |
| WorldIndex.Region.ForEachVisibleObject | internal/world/region.go:50-55 | shows each object of the region once until the callback says no |
| WorldIndex.AnswersIff | internal/world/region.go:50-55 | every answer of the callback but the last was yes, and the last was no iff the visit was stopped |
| WorldIndex.World.Initialize | internal/world/world.go:32-50 | every region knows its place and its neighbour list is exactly its clipped 3x3 window, itself included |
| WorldIndex.World.GetSurroundingRegions | internal/world/world.go:54-69 | the loops collect the window column by column, dropping what is off the grid |
| WorldIndex.World.GetRegion | internal/world/world.go:73-79 | answers exactly for in-world coordinates, with the region they lie in |
| WorldIndex.World.AddObject | internal/world/world.go:92-102 | refuses off-grid objects without change, and keeps the two indices in agreement iff the ID was free or held by an object of the same region |
| WorldIndex.World.RemoveObject | internal/world/world.go:105-117 | takes the object out of both indices and keeps them in agreement |
| WorldIndex.World.CoupledAfterAdd | internal/world/world.go:92-102 | when agreement of the indices survives an addition |
| Visibility.WindowMembers | internal/world/world.go:54-69 | the window lists each region whose index differs by at most one on each axis, once |
| Visibility.WindowHolds | internal/world/world.go:32-69 | what the neighbour list of a region holds is what lies in its window by location |
| Visibility.ForEachVisibleObject | internal/world/visibility.go:9-35 | shows exactly the objects whose region index differs by at most one on each axis, each once; stopped, it has shown distinct objects among them |
| Visibility.BeginsEnumeration | internal/world/visibility.go:15-34 | what a stopped query has shown is a prefix of an enumeration of all that is visible |
| Visibility.CountVisibleObjects | internal/world/visibility.go:39-46 | the number of visible objects |
| Visibility.ForEachVisibleObjectForPlayer | internal/world/visibility.go:52-86 | shows, as a multiset, the objects of the region it looks up and then that region's whole window; the second part is complete unless the callback stops it, whatever it said during the first |
| Visibility.SlowQueryIsFixed | internal/world/visibility.go:54-57 | wherever an in-world player stands it is shown the surroundings of region (64, 128) |
| Visibility.SlowQueryShows | internal/world/visibility.go:52-86 | which objects it is shown: those with both coordinates from 0 to 2047 twice, those of the eight squares around once, no others |
| Visibility.SlowQueryIsTrueWindowIff | internal/world/visibility.go:54-57 | the places that query looks at are those in the player's sight iff the player stands in region (64, 128) |
| Visibility.ShownOnceIff | internal/world/visibility.go:52-86 | that query shows nothing twice iff the region it looks up is empty; it shows each object of that region twice |
| Visibility.ForEachVisibleObjectCached | internal/world/visibility.go:92-114 | with a snapshot, shows its existing objects in order until the callback says no; without, the slow query's multiset |
| Visibility.ExistingIsPositive | internal/world/visibility.go:97-127 | the filter keeps exactly the objects with an ID other than zero, as often and in the order in which they come |
| Visibility.ExistingIsAllIff | internal/world/visibility.go:97-127 | skipping objects without an ID loses nothing iff there are none |
| VisibilityManagement.VisibilityManager.UnregisterPlayer | internal/world/visibility_manager.go:49-55 | the player leaves the set and loses its snapshot |
| VisibilityManagement.VisibilityManager.GetVisibleObjects | internal/world/visibility_manager.go:153-183 | collects the same multiset as the slow query for that index |
| VisibilityManagement.VisibilityManager.UpdatePlayerCache | internal/world/visibility_manager.go:126-148 | rebuilds the snapshot exactly unless there is one with now - lastUpdate <= maxAge and the player's region index |
| VisibilityManagement.VisibilityManager.UpdateAll | internal/world/visibility_manager.go:88-122 | every registered player ends with a snapshot for its region index, no older than an age limit that is not negative, and it is the old one iff that was already so; the first counter is the number of players for whom it was not, the second the rest |
| VisibilityManagement.RefreshedMeans | internal/world/visibility_manager.go:126-148 | the same for one player, and that a snapshot that changed was taken now and holds the slow query's multiset |
| VisibilityManagement.RefreshedIsCurrent | internal/world/visibility_manager.go:126-148 | after a sweep a snapshot is for the player's region index and no older than the age limit, iff the limit is not negative or an already current one was kept |
| VisibilityManagement.CachedAgreesWithSlow | internal/world/visibility_manager.go:126-183 | a rebuilt snapshot shows the slow query's multiset iff everything in that has an ID |
| Spawns.Spawn.RemoveNpc | internal/model/spawn.go:95-104 | removes the first occurrence and nothing else |
| Spawns.WithoutOne | internal/model/spawn.go:95-104 | from a list without repetitions that takes out that NPC and no other |
| Spawns.TickManager.Register | internal/ai/manager.go:28-36 | stores the controller and counts it, even when it replaces one |
| Spawns.TickManager.Unregister | internal/ai/manager.go:39-51 | removes the controller and uncounts it if it was there |
| Spawns.SpawnManager.LoadSpawns | internal/spawn/manager.go:59-76 | the last loaded spawn point with an ID is stored under it, IDs that are not loaded lead where they did, and the invariant is kept even when a spawn point with live NPCs is replaced |
| Spawns.SpawnManager.DoSpawn | internal/spawn/manager.go:80-130 | succeeds iff the spawn point, loaded or not, has room, a template and a place on the grid; then exactly one NPC with the counter plus one modulo 2^32 as its ID is added at the end of its list, to the count, the world and the AI registry; a failure changes nothing but the ID counter; the invariant is kept iff the counter does not wrap |
| Spawns.SpawnManager.EnterOrWithdraw | internal/spawn/manager.go:108-119 | the rollback restores count, list, world and registry exactly |
| Spawns.SpawnManager.DespawnNpc | internal/spawn/manager.go:133-156 | the NPC leaves its list, world and registry, and its spawn point counts one less; the invariant is kept iff the NPC was alive |
| Spawns.SpawnManager.FillSpawn | internal/spawn/manager.go:188-205 | one spawn point is asked as often as it has places, up to its first failure, the template being loaded anew each time |
| Spawns.SpawnManager.SpawnAll | internal/spawn/manager.go:181-213 | every spawn point is filled up to its first failure, and an error is reported iff one of them was not asked to the end |
| Spawns.FilledIff | internal/spawn/manager.go:188-205 | what a spawn point counts afterwards: every attempt counted found its template, a place in the world and a count below the maximum, and the next one, if there is one, would not |
| Spawns.FilledMeans | internal/spawn/manager.go:188-205 | no attempt fails iff the spawn point was empty, lies on the grid and always finds its template; it ends up full iff it finds them as long as there is room |
| Spawns.BalancedAfterBirth | internal/spawn/manager.go:102-106 | counts, lists and live NPCs agree after a birth |
| Spawns.BalancedAfterDeath | internal/spawn/manager.go:145-149 | counts, lists and live NPCs agree after a death |
| Spawns.UnbalancedAfterSecondDeath | internal/spawn/manager.go:145-149 | despawning an NPC that is not alive makes its spawn point count one less than it lists |
| Spawns.OtherEnters | internal/world/world.go:92-102 | a player or other object with a lower ID entering the world keeps all of this iff its ID is not held by an object of another region |
| Spawns.OtherLeaves | internal/world/world.go:105-117 | so does its leaving |
| Spawns.SpawnManager.ValidMeansAgreement | internal/spawn/manager.go:80-156 | a valid state means: count = list length <= maximum, IDs are distinct, the AI registry holds exactly the live NPCs and so do the world and its region maps among the IDs above 100000, each in the one region of its location |
| SpawnRuns.Apply | internal/spawn/manager.go:59-213 | one step of such a run has its full effect on stored spawn points, live NPCs, counts and other objects |
| SpawnRuns.Run | internal/spawn/manager.go:59-213 | that is so after every list of loads, spawns, despawns of live NPCs and sweeps from an empty manager, with players coming and going in between; the stored spawn points and the other objects are those that the loads and the comings and goings make |
| SpawnInterleaving.NextKeepsInvariant | internal/spawn/manager.go:82-119 | every check, increment, placement, rollback and despawn step keeps count = live + leaving + being placed, and the bound |
| SpawnInterleaving.CountBounded | internal/spawn/manager.go:82-119 | no interleaving of k spawners with despawns and rollbacks drives the count below zero or above maximum + k - 1, nor away from zero when the maximum is not positive; one spawner keeps the maximum |
| SpawnInterleaving.CanDrain | internal/spawn/manager.go:108-156 | from every state that a run leads to, rollbacks and despawns lead back to a count of zero with nothing live |
| SpawnInterleaving.BoundReached | internal/spawn/manager.go:82-119 | for every positive maximum and k some run reaches maximum + k - 1 |
| GameServers.SetBitChangesOneBit | internal/gameserver/table.go:118-125 | setting a bit changes that bit and no other |
| GameServers.ClearBitChangesOneBit | internal/gameserver/table.go:108-115 | clearing a bit changes that bit and no other |
| GameServers.GameServerTable.constructor | internal/gameserver/table.go:24-31 | all ones means that all IDs are free |
| GameServers.GameServerTable.MarkIDUsed | internal/gameserver/table.go:108-115 | only that ID becomes used; an ID of 128 or more has no bit |
| GameServers.GameServerTable.MarkIDFree | internal/gameserver/table.go:118-125 | only that ID becomes free |
| GameServers.GameServerTable.Register | internal/gameserver/table.go:35-46 | registers iff the ID is free and keeps bitmap and map in agreement |
| GameServers.GameServerTable.FirstAvailableID | internal/gameserver/table.go:78-105 | the scans return the least free ID up to the limit, or 0 iff there is none |
| GameServers.GameServerTable.RegisterWithFirstAvailableID | internal/gameserver/table.go:60-74 | gives out the least ID of 1..min(maxID, 127) absent from the map, and fails without change iff there is none |
| GameServers.GameServerTable.Remove | internal/gameserver/table.go:154-160 | frees the ID in map and bitmap |
| GameServers.GameServerTable.LoadFromDB | internal/gameserver/table.go:163-202 | stores a new, unauthenticated entry for exactly the rows before the first unreadable one, or for all of them, with the hex ID of the last row for an ID; keeps all other entries and the agreement |
| GameServers.GameServerTable.LastRowCounts | internal/gameserver/table.go:163-202 | the row that counts for an ID is the last one with it |
| GameServers.RoomMeansFree | internal/gameserver/table.go:60-74 | a table with fewer than n entries has an ID of 1..n to give |
| Relays.Server.HandlePacket | internal/gslistener/handler.go:36-83 | which packets are in turn and all others errors; the next state; every effect on the connection, its server, the registry and the sessions; and the answer: PlayerAuthResponse with the account and whether both stored play halves are the two shown, AuthResponse with the attached server's ID, LoginServerFail with its reason, else nothing |
| Relays.Server.HandleBlowFishKey | internal/gslistener/handler.go:88-127 | moves on iff the key decrypts to at least 40 bytes, and then keeps the last 40 |
| Relays.Server.HandleGameServerAuth | internal/gslistener/handler.go:129-200 | refuses exactly when the ID is up, or is another server's and no alternative is allowed or left, changing no entry; else attaches the server's own entry, a new one under the ID asked for, or a new one under the least free ID |
| Relays.Server.RefusedIff | internal/gslistener/handler.go:129-200 | let in iff the ID is unknown, is the server's own and down, or is another's while it takes any other and one of 1..127 is free |
| Relays.Server.FinalizeRegistration | internal/gslistener/handler.go:203-236 | attaching a registered server that is down stores its port, player limit and hosts and keeps the invariant |
| Relays.HandlePlayerAuthRequest | internal/gslistener/handler.go:281-305 | accepts iff the account has a session whose playOkID1 and playOkID2 are the two shown, and uses the session up iff it accepts |
| Relays.Server.HandlePlayerInGame | internal/gslistener/handler.go:238-260 | adds exactly the accounts of the packet |
| Relays.Server.HandlePlayerLogout | internal/gslistener/handler.go:262-279 | removes exactly the account of the packet |
| Relays.Server.HandleServerStatus | internal/gslistener/handler.go:307-346 | applies the attributes in order to the connection's own server |
| Relays.ReportedMeans | internal/gslistener/handler.go:320-341 | each attribute ends with the last value reported for it, brackets being shown for any but zero, and keeps its own if none is |
| Relays.Server.Close | internal/gslistener/server.go:201-209 | takes down the attached server and touches no other; without one it touches none |
| Relays.Server.Turn | internal/gslistener/server.go:211-239 | the loop goes on iff the packet is read, in turn and not a refused registration, and its answer can be sent; what is sent: PlayerAuthResponse with the account and whether both stored play halves are the two shown, AuthResponse with the attached server's ID, LoginServerFail with its reason, else nothing; every turn keeps the invariant, only grows the registry, takes down no server but its own, and leaves the registry as it was for a refused connection |
| Relays.Server.ValidMeansOneConnection | internal/gslistener/handler.go:129-236 | a valid state means: a registered server is up iff exactly one open authenticated connection has it attached, and every such connection's server is registered under its own ID |
| RelayRuns.Apply | internal/gslistener/server.go:147-239 | one step of such a run: an accepted connection is added in its first state, a turn lets its connection stay open and move on exactly as the loop does and touches no other |
| RelayRuns.Run | internal/gslistener/server.go:147-239 | that is so after every list of connections, packets, losses and failed answers, starting from a registry whose servers are down; a connection without a turn is open in its first state, one that was lost is not open |
| Sessions.SessionManager.Validate | internal/login/session_manager.go:40-59 | true iff the account has a session whose two play halves are the two shown and, when the licence is shown, whose two login halves are as well |
| Sessions.SessionManager.CleanExpired | internal/login/session_manager.go:67-77 | deleting while walking leaves exactly the sessions with now - createdAt <= ttl, unchanged |
| Sessions.AcceptedOncePerIssue | internal/gslistener/handler.go:281-305 | between two accepted player authentications for an account there is a login for it |
| Sessions.AcceptedWasIssued | internal/gslistener/handler.go:281-305 | both halves of an accepted pair are those of the account's latest login before |
| Sessions.SentPairMatches | internal/login/handler.go:282-283 | in a lawful history a pair sent in PlayOk matches for as long as its client's session is the stored one |
| LoginHandlers.LoginHandler.HandlePacket | internal/login/handler.go:45-76 | exactly which packet moves a client to which state; key, account and sessions change iff it is the one that logs the client in; errors are exactly the packets too short; and every answer: GGAuth, LoginOk or the server list, PlayOk with the client's own pair, each refusal with its reason, or nothing for a packet that is unknown or out of turn |
| LoginHandlers.LoginHandler.HandleAuthGameGuard | internal/login/handler.go:83-107 | only the right session ID moves a connected client on |
| LoginHandlers.LoginHandler.HandleRequestAuthLogin | internal/login/handler.go:110-213 | logs in exactly on good credentials of an account that is not banned, storing client, key and time; else refuses and disconnects without change, with each reason under exactly its own condition |
| LoginHandlers.LoginHandler.HandleRequestServerList | internal/login/handler.go:216-241 | the list goes out iff a logged-in client shows both halves of its login pair; only a wrong pair closes the connection with an answer, and a packet without the pair is an error |
| LoginHandlers.LoginHandler.HandleRequestServerLogin | internal/login/handler.go:244-284 | PlayOk carries the client's own pair and is sent iff the client is logged in, the server is listed and, when the licence is shown, the login pair is right; a wrong pair closes the connection, an unknown server is refused and does not |
| Handoffs.Handoff.FromClient | internal/login/handler.go:45-76 | every packet keeps the sessions equal to the replay of the history, and the history lawful; it is extended by a login exactly when the packet is an admitted one in its turn, by a PlayOk exactly when a logged-in client asks for a known server, and else not at all |
| Handoffs.Handoff.FromGameServer | internal/gslistener/handler.go:281-305 | the same for a game server's question: accepted iff both play halves of the account's session are the two shown, which uses that session up; refused with any other pair, which leaves the sessions as they were |
| Handoffs.Handoff.StoredSessionIsClients | internal/login/handler.go:192-198 | a stored session is its client's current key under its client's account |
| Handoffs.Handoff.PlayOkIsGood | internal/gslistener/handler.go:281-305 | a pair sent in PlayOk is good at the relay while its client's session is the stored one |
| Handoffs.Handoff.OneAdmissionPerLogin | internal/gslistener/handler.go:281-305 | between two logins for an account at most one PlayerAuthRequest succeeds |
| Packets.SignedLittle | internal/gameserver/packet/writer.go:53-78 | reading the bytes written for a signed integer gives it back, at every width |
| Packets.LittleSigned | internal/gameserver/packet/reader.go:39-66 | writing the integer read from bytes gives the bytes back, at every width |
| Packets.LittleStep | internal/gameserver/packet/writer.go:53-78 | byte i of a written integer is its digit i to the base 256, rounded down |
| Packets.WordIsLittle | internal/gameserver/packet/reader.go:49-56 | the integers of the packets and the words of the cipher routines have the same bytes |
| Packets.RuneBytes | internal/gameserver/packet/writer.go:101-115 | the two bytes of a character of the basic plane, and the four of any other by its surrogates from D800 and DC00 on |
| Packets.DecodeUnits | internal/gameserver/packet/writer.go:101-115 | decoding the UTF-16 units of a string gives the string, surrogate pairs included |
| Packets.UnitsDecodeIff | internal/gameserver/packet/reader.go:101-102 | decoding loses nothing iff every surrogate is paired |
| Packets.DecodeLone | internal/gameserver/packet/reader.go:101-102 | a surrogate without its other half reads as U+FFFD, what is before and behind it as it would alone |
| Packets.Writer.WriteShort | internal/gameserver/packet/writer.go:53-56 | appends the two's complement bytes, lowest first |
| Packets.Writer.WriteInt | internal/gameserver/packet/writer.go:60-65 | appends the two's complement bytes, lowest first |
| Packets.Writer.WriteLong | internal/gameserver/packet/writer.go:69-78 | appends the two's complement bytes, lowest first |
| Packets.Writer.WriteString | internal/gameserver/packet/writer.go:91-120 | appends the string's UTF-16LE units and a zero unit |
| Packets.Reader.ReadShort | internal/gameserver/packet/reader.go:39-46 | succeeds iff two bytes are left, with their signed value |
| Packets.Reader.ReadInt | internal/gameserver/packet/reader.go:49-56 | succeeds iff four bytes are left, with their signed value |
| Packets.Reader.ReadLong | internal/gameserver/packet/reader.go:59-66 | succeeds iff eight bytes are left, with their signed value |
| Packets.Reader.ReadBytes | internal/gameserver/packet/reader.go:108-120 | succeeds iff the count is not negative and that many bytes are left |
| Packets.Reader.ReadString | internal/gameserver/packet/reader.go:80-103 | decodes the units up to the first zero unit and stops right behind it, and fails iff there is none |
| Packets.WriteField | internal/gameserver/packet/writer.go:46-120 | the writes append what a field is said to be written as |
| Packets.ReadField | internal/gameserver/packet/reader.go:29-120 | the reads yield what a field is said to be read as, and where they stop |
| Packets.PacketReadBack | internal/gameserver/packet/reader.go:29-120 | any list of fields is read back by the reads that mirror its writes, from any position and whatever follows, the reader stopping exactly at its end, iff none of its strings holds U+0000 |
| Packets.PacketCutShort | internal/gameserver/packet/reader.go:29-120 | any list of fields, U+0000 or not, is read without an error; cut short it is refused iff the reads stop behind the cut, hence everywhere iff they stop at its end, which they do without U+0000 |
| Packets.ReadAllPrefix | internal/gameserver/packet/reader.go:29-120 | any list of reads on any bytes looks at nothing behind where it stops |
| Packets.StringReadBackIff | internal/gameserver/packet/reader.go:80-103 | a string is read back iff it holds no U+0000; else only what precedes the first one is |
| AuthLogins.ParseAuthLogin | internal/gameserver/clientpackets/auth_login.go:28-73 | succeeds iff there is a terminated name with 32 bytes behind it, and yields the name and the four keys in their order |
| AuthLogins.ParsedIsReadAll | internal/gameserver/clientpackets/auth_login.go:28-73 | parsing is reading one string and eight integers |
| AuthLogins.AuthLoginReadBack | internal/gameserver/clientpackets/auth_login.go:28-73 | the written packet parses to its account and keys, for all keys and whatever follows, iff the account holds no U+0000 |
| AuthLogins.AuthLoginCutShort | internal/gameserver/clientpackets/auth_login.go:28-73 | the packet is refused wherever it is cut short iff the account holds no U+0000 |

## Left out

- Sockets, accept loops, contexts, tickers, logging, buffer pools: plumbing without a claim beyond the handler steps.
- Database, configuration, both main programs: the lookups are arguments of the login handler.
- Blowfish's rounds and key schedule, password hashing, RSA key generation: library code, see the assumptions.
- Trimming and lower-casing of names and passwords (internal/login/handler.go:143-147): the results are arguments.
- The game-client handler (internal/gameserver/handler.go): no run from its first state reaches AuthLogin.
- Parsing of the game servers' packets: a packet arrives parsed, or as one that its parser rejects.
- Movement of registered objects: `SetLocation` does not update region maps, so locations are constants.
- The race between a sweep and an unregistration: a sweep is one step.
- Two player authentications for one account that interleave between validation and removal: a handler is one step.
- Failing writers and partial reads: a write hands over a byte string, a read sees one.
- `WriteDouble` and `ReadDouble`: the reader converts the bits as an integer, so no round trip holds.
- Respawn delays, AI intentions, getters and single-field reply packets: easy members only.
- AppendChecksum: sizes that are not multiples of four are excluded; no caller passes any.
- GameServers.GameServerTable.MarkIDUsed: negative IDs, on which the shift panics, are excluded, here and in the other methods.
- Spawns.SpawnManager.FillSpawn: requires as many unused IDs as the spawn point has places, because nothing is promised once
  the 32-bit ID counter has wrapped; DoSpawn says exactly when that happens.
- Spawns.SpawnManager.SpawnAll: requires as many unused IDs as all loaded spawn points have places, for the same reason.
- SpawnRuns.Run: skips a birth or a sweep that could wrap the ID counter, a despawn of an NPC that is not alive, and an object
  that enters under an ID in use, each of which breaks the agreement as the contracts of those operations say.
