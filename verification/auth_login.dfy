/** The game client's login request: an account name, the four session keys, and four integers nobody reads. */
module AuthLogins {
  import opened Bytes
  import opened Integers
  import opened Packets
  import opened Sessions
  import opened Wrappers

  datatype AuthLogin = AuthLogin(accountName: seq<scalar>, sessionKey: SessionKey)

  /** The fields in the order in which they are sent. */
  function Fields(a: AuthLogin, u1: int32, u2: int32, u3: int32, u4: int32): seq<Field> {
    var k := a.sessionKey;
    [Str(a.accountName)] + Ints([k.playOkID1, k.playOkID2, k.loginOkID1, k.loginOkID2, u1, u2, u3, u4])
  }

  function Ints(vs: seq<int32>): (fs: seq<Field>)
    ensures |fs| == |vs| && forall i :: 0 <= i < |vs| ==> fs[i] == Int(vs[i])
  {
    seq(|vs|, i requires 0 <= i < |vs| => Int(vs[i]))
  }

  /** What is in data: the name, then 32 bytes of integers of which the first 16 are the keys. */
  function Parsed(data: seq<byte>): Option<AuthLogin> {
    match Collected(data, 0)
    case None => None
    case Some(us) =>
      var p := 2 * |us| + 2;
      if p + 32 > |data| then None
      else Some(AuthLogin(Decode(us), SessionKey(IntAt(data, p + 8), IntAt(data, p + 12), IntAt(data, p), IntAt(data, p + 4))))
  }

  method ParseAuthLogin(data: seq<byte>) returns (r: Result<AuthLogin>)
    ensures r.Success? <==> Parsed(data).Some?
    ensures r.Success? ==> r.value == Parsed(data).value
  {
    hide Collected, Decode, SignedOf;
    var reader := new Reader(data);
    var accountName := reader.ReadString();
    if accountName.Failure? {
      return Failure("reading account name");
    }
    ghost var p := reader.pos;
    var playOkID1 := reader.ReadInt();
    if playOkID1.Failure? {
      return Failure("reading playOkID1");
    }
    var playOkID2 := reader.ReadInt();
    if playOkID2.Failure? {
      return Failure("reading playOkID2");
    }
    var loginOkID1 := reader.ReadInt();
    if loginOkID1.Failure? {
      return Failure("reading loginOkID1");
    }
    var loginOkID2 := reader.ReadInt();
    if loginOkID2.Failure? {
      return Failure("reading loginOkID2");
    }
    for i := 0 to 4
      invariant reader.Valid() && reader.pos == p + 16 + 4 * i
    {
      var unknown := reader.ReadInt();
      if unknown.Failure? {
        return Failure("reading unknown field");
      }
    }
    return Success(AuthLogin(accountName.value,
                             SessionKey(loginOkID1.value, loginOkID2.value, playOkID1.value, playOkID2.value)));
  }

  // ---- the parser is the mirror of the writes ----

  lemma {:induction false} KindsOfInts(vs: seq<int32>)
    ensures Kinds(Ints(vs)) == seq(|vs|, _ => IntKind)
  {
    if |vs| > 0 {
      KindsOfInts(vs[1..]);
      assert Ints(vs)[1..] == Ints(vs[1..]);
      assert seq(|vs|, _ => IntKind) == [IntKind] + seq(|vs| - 1, _ => IntKind);
    }
  }

  lemma {:induction false} ReadInts(n: nat, data: seq<byte>, pos: nat)
    requires pos <= |data|
    ensures var r := ReadAll(seq(n, _ => IntKind), data, pos);
            && (r.Some? <==> pos + 4 * n <= |data|)
            && (r.Some? ==> r.value.1 == pos + 4 * n && |r.value.0| == n)
            && (r.Some? ==> forall i :: 0 <= i < n ==> r.value.0[i] == Int(IntAt(data, pos + 4 * i)))
    decreases n
  {
    if n > 0 && pos + 4 <= |data| {
      var ks := seq(n, _ => IntKind);
      assert ks[1..] == seq(n - 1, _ => IntKind);
      ReadInts(n - 1, data, pos + 4);
      var rest := ReadAll(ks[1..], data, pos + 4);
      if rest.Some? {
        var fs := ReadAll(ks, data, pos).value.0;
        forall i | 0 <= i < n
          ensures fs[i] == Int(IntAt(data, pos + 4 * i))
        {
          if i > 0 {
            assert fs[i] == rest.value.0[i - 1] == Int(IntAt(data, pos + 4 + 4 * (i - 1)));
          }
        }
      }
    }
  }

  /** Parsing is reading a string and eight integers. */
  lemma ParsedIsReadAll(data: seq<byte>)
    ensures var r := ReadAll([StrKind] + seq(8, _ => IntKind), data, 0);
            && (Parsed(data).Some? <==> r.Some?)
            && (r.Some? ==>
                  && |r.value.0| == 9 && r.value.0[0] == Str(Parsed(data).value.accountName)
                  && var k := Parsed(data).value.sessionKey;
                     r.value.0[1] == Int(k.playOkID1) && r.value.0[2] == Int(k.playOkID2)
                     && r.value.0[3] == Int(k.loginOkID1) && r.value.0[4] == Int(k.loginOkID2))
  {
    hide Collected, Decode, SignedOf;
    var ks := [StrKind] + seq(8, _ => IntKind);
    assert ks[1..] == seq(8, _ => IntKind);
    if Collected(data, 0).Some? {
      var p := 2 * |Collected(data, 0).value| + 2;
      ReadInts(8, data, p);
      hide ReadAll;
      var rest := ReadAll(ks[1..], data, p);
      ReadAllCons(ks, data, 0);
      if rest.Some? {
        assert rest.value.0[0] == Int(IntAt(data, p + 4 * 0)) && rest.value.0[1] == Int(IntAt(data, p + 4 * 1));
        assert rest.value.0[2] == Int(IntAt(data, p + 4 * 2)) && rest.value.0[3] == Int(IntAt(data, p + 4 * 3));
      }
    }
  }

  lemma ReadAllCons(ks: seq<Kind>, data: seq<byte>, pos: nat)
    requires |ks| > 0 && pos <= |data| && ReadOne(ks[0], data, pos).Some?
    ensures var (f, p) := ReadOne(ks[0], data, pos).value;
            var rest := ReadAll(ks[1..], data, p);
            ReadAll(ks, data, pos) == if rest.None? then None else Some(([f] + rest.value.0, rest.value.1))
  {
  }

  lemma KindsOfFields(a: AuthLogin, u1: int32, u2: int32, u3: int32, u4: int32)
    ensures Kinds(Fields(a, u1, u2, u3, u4)) == [StrKind] + seq(8, _ => IntKind)
  {
    var k := a.sessionKey;
    var vs := [k.playOkID1, k.playOkID2, k.loginOkID1, k.loginOkID2, u1, u2, u3, u4];
    assert Fields(a, u1, u2, u3, u4)[1..] == Ints(vs);
    KindsOfInts(vs);
  }

  lemma NameDecides(a: AuthLogin, u1: int32, u2: int32, u3: int32, u4: int32)
    ensures (forall f :: f in Fields(a, u1, u2, u3, u4) ==> NulFree(f)) <==> 0 !in a.accountName
  {
    var fs := Fields(a, u1, u2, u3, u4);
    assert fs[0] == Str(a.accountName);
    assert fs[0] in fs && (NulFree(fs[0]) <==> 0 !in a.accountName);
    forall f | f in fs
      ensures f == fs[0] || f.Int?
    {
      var i :| 0 <= i < |fs| && fs[i] == f;
    }
  }

  /** Reading a request back after a name that was cut at a U+0000 leaves some of it unread. */
  lemma StopsEarly(a: AuthLogin, u1: int32, u2: int32, u3: int32, u4: int32, data: seq<byte>)
    requires WrittenAll(Fields(a, u1, u2, u3, u4)) <= data[0..] && 0 in a.accountName
    ensures var r := ReadAll([StrKind] + seq(8, _ => IntKind), data, 0);
            && r.Some? && |r.value.0| == 9 && r.value.0[0] != Str(a.accountName)
            && r.value.1 < |WrittenAll(Fields(a, u1, u2, u3, u4))|
  {
    hide ReadOne, Text, Ints, ReadAll, WrittenAll, Fields;
    var ks := [StrKind] + seq(8, _ => IntKind);
    assert ks[1..] == seq(8, _ => IntKind);
    var name := a.accountName;
    SizeOfFields(a, u1, u2, u3, u4);
    assert Text(name) <= data[0..];
    StringReadBackIff(name, data, 0);
    var i := FirstNul(name);
    assert name[..i] != name;
    ShorterText(name, i);
    ReadInts(8, data, |Text(name[..i])|);
    ReadAllCons(ks, data, 0);
  }

  lemma SizeOfFields(a: AuthLogin, u1: int32, u2: int32, u3: int32, u4: int32)
    ensures Text(a.accountName) <= WrittenAll(Fields(a, u1, u2, u3, u4))
    ensures |WrittenAll(Fields(a, u1, u2, u3, u4))| == |Text(a.accountName)| + 32
  {
    hide Little, Text;
    var k := a.sessionKey;
    var vs := [k.playOkID1, k.playOkID2, k.loginOkID1, k.loginOkID2, u1, u2, u3, u4];
    assert Fields(a, u1, u2, u3, u4)[1..] == Ints(vs);
    SizeOfInts(vs);
  }

  lemma {:induction false} SizeOfInts(vs: seq<int32>)
    ensures |WrittenAll(Ints(vs))| == 4 * |vs|
  {
    if |vs| > 0 {
      SizeOfInts(vs[1..]);
      assert Ints(vs)[1..] == Ints(vs[1..]);
    }
  }

  lemma ShorterText(s: seq<scalar>, i: nat)
    requires i < |s|
    ensures |Text(s[..i])| < |Text(s)|
  {
    assert s == s[..i] + s[i..];
    UnitsConcat(s[..i], s[i..]);
  }

  /**
   * What was written is parsed, whatever the four unread integers are and whatever follows the packet, exactly when the
   * account name holds no U+0000.
   */
  lemma AuthLoginReadBack(a: AuthLogin, u1: int32, u2: int32, u3: int32, u4: int32, after: seq<byte>)
    ensures Parsed(WrittenAll(Fields(a, u1, u2, u3, u4)) + after) == Some(a) <==> 0 !in a.accountName
  {
    hide Collected, Decode, SignedOf, WrittenAll, ReadAll;
    var fs := Fields(a, u1, u2, u3, u4);
    var data := WrittenAll(fs) + after;
    assert data[0..] == data;
    KindsOfFields(a, u1, u2, u3, u4);
    NameDecides(a, u1, u2, u3, u4);
    PacketReadBack(fs, data, 0);
    hide Parsed;
    ParsedIsReadAll(data);
    if 0 in a.accountName {
      StopsEarly(a, u1, u2, u3, u4, data);
    }
  }

  /** A request is refused wherever it is cut short exactly when the account name holds no U+0000. */
  lemma AuthLoginCutShort(a: AuthLogin, u1: int32, u2: int32, u3: int32, u4: int32)
    ensures var data := WrittenAll(Fields(a, u1, u2, u3, u4));
            (forall n :: 0 <= n < |data| ==> Parsed(data[..n]) == None) <==> 0 !in a.accountName
  {
    hide Collected, Decode, SignedOf, WrittenAll, ReadAll;
    var fs := Fields(a, u1, u2, u3, u4);
    var data := WrittenAll(fs);
    assert data[0..] == data;
    KindsOfFields(a, u1, u2, u3, u4);
    NameDecides(a, u1, u2, u3, u4);
    PacketCutShort(fs, data, 0);
    hide Parsed;
    forall n | 0 <= n < |data|
      ensures Parsed(data[..n]) == None <==> n < Stop(fs, data, 0)
    {
      ParsedIsReadAll(data[..n]);
    }
    if 0 in a.accountName {
      StopsEarly(a, u1, u2, u3, u4, data);
      assert Parsed(data[..Stop(fs, data, 0)]) != None;
    }
  }
}
