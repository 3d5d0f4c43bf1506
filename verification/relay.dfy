/** The login server's side of a game server connection: three states, a shared registry, and what a disconnect takes down. */
module Relays {
  import opened Bytes
  import opened GameServers
  import opened Sessions
  import opened Wrappers

  const OPCODE_BLOWFISH_KEY: byte := 0x00
  const OPCODE_GAME_SERVER_AUTH: byte := 0x01
  const OPCODE_PLAYER_IN_GAME: byte := 0x02
  const OPCODE_PLAYER_LOGOUT: byte := 0x03
  const OPCODE_PLAYER_AUTH_REQUEST: byte := 0x05
  const OPCODE_SERVER_STATUS: byte := 0x06

  const REASON_WRONG_HEX_ID: int := 3
  const REASON_NO_FREE_ID: int := 5
  const REASON_ALREADY_LOGGED_IN: int := 7

  const BLOWFISH_KEY_SIZE: nat := 40

  datatype ConnectionState = GSConnected | BFConnected | Authed

  class GSConnection {
    var state: ConnectionState
    var blowfishKey: seq<byte>
    var info: GameServerInfo?
    var accounts: set<Name>

    constructor (blowfishKey: seq<byte>)
      ensures state == GSConnected && this.blowfishKey == blowfishKey && info == null && accounts == {}
    {
      state := GSConnected;
      this.blowfishKey := blowfishKey;
      info := null;
      accounts := {};
    }
  }

  datatype HostEntry = HostEntry(subnet: string, host: string)

  function Hosts(entries: seq<HostEntry>): (hosts: seq<string>)
    ensures |hosts| == |entries| && forall i :: 0 <= i < |entries| ==> hosts[i] == entries[i].host
  {
    seq(|entries|, i requires 0 <= i < |entries| => entries[i].host)
  }

  /** A packet body as its parser sees it; one that is not of the handler's kind is one the handler's parser rejects. */
  datatype Body =
    | Unparsable
    | BlowFishKey(decrypted: Option<seq<byte>>)
    | GameServerAuth(id: byte, acceptAlternate: bool, hexID: seq<byte>, port: int, maxPlayers: int, entries: seq<HostEntry>)
    | PlayerInGame(inGame: seq<Name>)
    | PlayerLogout(account: Name)
    | PlayerAuthRequest(player: Name, key: SessionKey)
    | ServerStatus(attributes: seq<(int, int)>)

  datatype Reply =
    | Nothing
    | LoginServerFail(reason: int)
    | AuthResponse(serverID: byte)
    | PlayerAuthResponse(player: Name, valid: bool)

  /** What is sent and whether the connection stays open; an error closes it without an answer. */
  datatype Outcome = Done(reply: Reply, open: bool) | Error

  // ---- the attributes a game server reports ----

  datatype Attributes = Attributes(showingBrackets: bool, serverType: int, status: int, ageLimit: int, maxPlayers: int)

  function Reported(a: Attributes, attribute: (int, int)): Attributes {
    var (id, value) := attribute;
    if id == 0 then a.(showingBrackets := value != 0)
    else if id == 1 then a.(serverType := value)
    else if id == 2 then a.(status := value)
    else if id == 3 then a.(ageLimit := value)
    else if id == 4 then a.(maxPlayers := value)
    else a
  }

  function AllReported(a: Attributes, attributes: seq<(int, int)>): Attributes {
    if |attributes| == 0 then a
    else Reported(AllReported(a, attributes[..|attributes| - 1]), attributes[|attributes| - 1])
  }

  function AttributesOf(info: GameServerInfo): Attributes
    reads info
  {
    Attributes(info.showingBrackets, info.serverType, info.status, info.ageLimit, info.maxPlayers)
  }

  /** Whether place k is the last one with this ID. */
  predicate LastOf(attributes: seq<(int, int)>, id: int, k: int) {
    0 <= k < |attributes| && attributes[k].0 == id && id !in IDs(attributes[k + 1..])
  }

  function IDs(attributes: seq<(int, int)>): (ids: seq<int>)
    ensures |ids| == |attributes| && forall i :: 0 <= i < |ids| ==> ids[i] == attributes[i].0
  {
    seq(|attributes|, i requires 0 <= i < |attributes| => attributes[i].0)
  }

  lemma LastOfLonger(attributes: seq<(int, int)>, id: int, k: int)
    ensures LastOf(attributes, id, k) <==>
            && |attributes| > 0
            && if attributes[|attributes| - 1].0 == id then k == |attributes| - 1
               else 0 <= k < |attributes| - 1 && LastOf(attributes[..|attributes| - 1], id, k)
  {
    if 0 <= k < |attributes| - 1 {
      var init, last := attributes[..|attributes| - 1], |attributes| - 1;
      assert attributes[k + 1..] == init[k + 1..] + [attributes[last]];
      assert IDs(attributes[k + 1..]) == IDs(init[k + 1..]) + [attributes[last].0];
    }
  }

  /** Each attribute ends up with the last value reported for it, and keeps its own when none is. */
  lemma {:induction false} ReportedMeans(a: Attributes, attributes: seq<(int, int)>)
    ensures var r := AllReported(a, attributes);
            && (forall k :: LastOf(attributes, 0, k) ==> r.showingBrackets == (attributes[k].1 != 0))
            && (forall k :: LastOf(attributes, 1, k) ==> r.serverType == attributes[k].1)
            && (forall k :: LastOf(attributes, 2, k) ==> r.status == attributes[k].1)
            && (forall k :: LastOf(attributes, 3, k) ==> r.ageLimit == attributes[k].1)
            && (forall k :: LastOf(attributes, 4, k) ==> r.maxPlayers == attributes[k].1)
    ensures var r := AllReported(a, attributes);
            && (0 in IDs(attributes) || r.showingBrackets == a.showingBrackets)
            && (1 in IDs(attributes) || r.serverType == a.serverType)
            && (2 in IDs(attributes) || r.status == a.status)
            && (3 in IDs(attributes) || r.ageLimit == a.ageLimit)
            && (4 in IDs(attributes) || r.maxPlayers == a.maxPlayers)
  {
    hide LastOf;
    forall id, k
      ensures LastOf(attributes, id, k) <==>
              && |attributes| > 0
              && if attributes[|attributes| - 1].0 == id then k == |attributes| - 1
                 else 0 <= k < |attributes| - 1 && LastOf(attributes[..|attributes| - 1], id, k)
    {
      LastOfLonger(attributes, id, k);
    }
    if |attributes| > 0 {
      var init := attributes[..|attributes| - 1];
      ReportedMeans(a, init);
      assert IDs(attributes) == IDs(init) + [attributes[|attributes| - 1].0];
    }
  }

  // ---- the relay's part in a session ----

  /** A session that is found good is used up by being asked for. */
  method HandlePlayerAuthRequest(sessionManager: SessionManager, body: Body) returns (r: Outcome)
    modifies sessionManager
    ensures r.Error? <==> !body.PlayerAuthRequest?
    ensures r.Done? ==> r.open && r.reply == PlayerAuthResponse(body.player, Matches(old(sessionManager.sessions), body.player, body.key, false))
    ensures r.Done? ==>
              (r.reply.valid <==>
                 && body.player in old(sessionManager.sessions)
                 && old(sessionManager.sessions)[body.player].sessionKey.playOkID1 == body.key.playOkID1
                 && old(sessionManager.sessions)[body.player].sessionKey.playOkID2 == body.key.playOkID2)
    ensures sessionManager.sessions ==
            if r.Done? && r.reply.valid then old(sessionManager.sessions) - {body.player} else old(sessionManager.sessions)
  {
    if !body.PlayerAuthRequest? {
      return Error;
    }
    var valid := sessionManager.Validate(body.player, body.key, false);
    if valid {
      sessionManager.Remove(body.player);
    }
    return Done(PlayerAuthResponse(body.player, valid), true);
  }

  // ---- the server ----

  function Infos(m: map<int, GameServerInfo>): set<GameServerInfo> {
    set id | id in m :: m[id]
  }

  class Server {
    const table: GameServerTable
    const sessionManager: SessionManager

    /** The connections whose packet loop is still running. */
    ghost var open: set<GSConnection>

    ghost function Servers(): set<GameServerInfo>
      reads table`servers
    {
      Infos(table.servers)
    }

    /** Every server is registered under its own ID. */
    ghost predicate Keyed()
      reads table`servers, Servers()`id
    {
      forall id :: id in table.servers ==> table.servers[id].id == id
    }

    /** A connection is attached to a server exactly when it is authenticated, and then to a registered one that is up. */
    ghost predicate Attached(c: GSConnection)
      reads c, table`servers, Servers()`id, Servers()`isAuthed
    {
      && (c.state == Authed <==> c.info != null)
      && (c.info != null ==> c.info in Servers() && c.info.isAuthed)
    }

    /** A server that is up has a connection, and no two connections share one. */
    ghost predicate Exclusive()
      reads `open, open, table`servers, Servers()`isAuthed
    {
      && (forall c, d :: c in open && d in open && c.info != null && c.info == d.info ==> c == d)
      && forall info :: info in Servers() && info.isAuthed ==> exists c :: c in open && c.info == info
    }

    ghost predicate Valid()
      reads this, open, table, Servers()`id, Servers()`isAuthed
    {
      table.Valid() && Keyed() && (forall c :: c in open ==> Attached(c)) && Exclusive()
    }

    constructor (table: GameServerTable, sessionManager: SessionManager)
      requires table.Valid()
      requires forall id :: id in table.servers ==> table.servers[id].id == id && !table.servers[id].isAuthed
      ensures Valid() && this.table == table && this.sessionManager == sessionManager && open == {}
    {
      this.table := table;
      this.sessionManager := sessionManager;
      open := {};
    }

    method Accept(blowfishKey: seq<byte>) returns (conn: GSConnection)
      requires Valid()
      modifies `open
      ensures Valid() && fresh(conn) && open == old(open) + {conn}
      ensures conn.state == GSConnected && conn.blowfishKey == blowfishKey && conn.info == null && conn.accounts == {}
    {
      conn := new GSConnection(blowfishKey);
      open := open + {conn};
    }

    /**
     * The end of a connection. It takes down the server it is attached to, if any, and touches no other; in particular a
     * connection that was refused takes down nothing.
     */
    method Close(conn: GSConnection)
      requires Valid() && conn in open
      modifies `open, (if conn.info == null then {} else {conn.info})`isAuthed
      modifies (if conn.info == null then {} else {conn.info})`port, (if conn.info == null then {} else {conn.info})`status
      ensures Valid() && open == old(open) - {conn}
      ensures conn.info != null ==> !conn.info.isAuthed && conn.info.port == 0 && conn.info.status == 4
    {
      if conn.info != null {
        conn.info.SetDown();
      }
      open := open - {conn};
    }

    method HandleBlowFishKey(conn: GSConnection, body: Body) returns (r: Outcome)
      modifies conn`state, conn`blowfishKey
      ensures r == if body.BlowFishKey? && body.decrypted.Some? && |body.decrypted.value| >= BLOWFISH_KEY_SIZE
                   then Done(Nothing, true) else Error
      ensures r.Done? ==> conn.state == BFConnected
                          && conn.blowfishKey == body.decrypted.value[|body.decrypted.value| - BLOWFISH_KEY_SIZE..]
      ensures r.Error? ==> conn.state == old(conn.state) && conn.blowfishKey == old(conn.blowfishKey)
    {
      if !body.BlowFishKey? || body.decrypted.None? {
        return Error;
      }
      var block := body.decrypted.value;
      if |block| < BLOWFISH_KEY_SIZE {
        return Error;
      }
      conn.blowfishKey := block[|block| - BLOWFISH_KEY_SIZE..];
      conn.state := BFConnected;
      return Done(Nothing, true);
    }

    /** A registered server that is not up takes the connection. */
    method FinalizeRegistration(conn: GSConnection, info: GameServerInfo, body: Body) returns (r: Outcome)
      requires Valid() && conn in open && conn.info == null && body.GameServerAuth?
      requires info in Servers() && !info.isAuthed && 0 <= info.id < 256
      modifies conn`info, conn`state, info`port, info`maxPlayers, info`hosts, info`isAuthed
      ensures Valid()
      ensures conn.state == Authed && conn.info == info && info.isAuthed
      ensures info.port == body.port && info.maxPlayers == body.maxPlayers && info.hosts == Hosts(body.entries)
      ensures r == Done(AuthResponse(info.id), true)
    {
      info.port := body.port;
      info.maxPlayers := body.maxPlayers;
      var hosts := [];
      for i := 0 to |body.entries|
        invariant hosts == Hosts(body.entries[..i])
      {
        hosts := hosts + [body.entries[i].host];
      }
      assert body.entries[..|body.entries|] == body.entries;
      info.hosts := hosts;
      info.SetAuthed(true);
      conn.info := info;
      conn.state := Authed;
      return Done(AuthResponse(info.id), true);
    }

    /** Why a game server may be refused: its ID is up already, is somebody else's, or is somebody else's with none to spare. */
    ghost predicate Refused(body: Body)
      requires body.GameServerAuth?
      reads table`servers, Servers()`isAuthed
    {
      && body.id in table.servers
      && var existing := table.servers[body.id];
         if existing.hexID == body.hexID then existing.isAuthed
         else body.acceptAlternate ==> forall i :: 1 <= i <= MAX_ID ==> i in table.servers
    }

    /** It is let in under a free ID, under its own ID when that is down, and else only if it takes any other that is free. */
    lemma RefusedIff(body: Body)
      requires body.GameServerAuth?
      ensures !Refused(body) <==>
              || body.id !in table.servers
              || (table.servers[body.id].hexID == body.hexID && !table.servers[body.id].isAuthed)
              || (table.servers[body.id].hexID != body.hexID && body.acceptAlternate
                  && exists i :: 1 <= i <= 127 && i !in table.servers)
    {
    }

    /**
     * A game server that is refused changes nothing. One that is not is attached to the entry it asked for if that is its
     * own, to a new entry under the ID it asked for if nobody has it, and else to a new entry under the least free ID.
     */
    method HandleGameServerAuth(conn: GSConnection, body: Body) returns (r: Outcome)
      requires Valid() && conn in open && conn.info == null
      modifies conn`info, conn`state, table`servers, table`low, table`high
      modifies Servers()`port, Servers()`maxPlayers, Servers()`hosts, Servers()`isAuthed
      ensures Valid()
      ensures r.Error? <==> !body.GameServerAuth?
      ensures r.Done? ==> r.open == !old(Refused(body))
      ensures r.Done? && !r.open ==>
                r.reply == LoginServerFail(if old(table.servers)[body.id].hexID == body.hexID then REASON_ALREADY_LOGGED_IN
                                           else if body.acceptAlternate then REASON_NO_FREE_ID else REASON_WRONG_HEX_ID)
      ensures !(r.Done? && r.open) ==>
                && conn.info == null && conn.state == old(conn.state) && table.servers == old(table.servers)
                && forall info :: info in Servers() ==>
                     info.isAuthed == old(info.isAuthed) && info.port == old(info.port)
                     && info.maxPlayers == old(info.maxPlayers) && info.hosts == old(info.hosts)
      ensures r.Done? && r.open ==>
                && conn.state == Authed && conn.info != null && r.reply.AuthResponse? && r.reply.serverID as int == conn.info.id
                && conn.info.hexID == body.hexID && conn.info.port == body.port && conn.info.maxPlayers == body.maxPlayers
                && conn.info.hosts == Hosts(body.entries) && conn.info.isAuthed
      ensures r.Done? && r.open ==>
                if body.id !in old(table.servers) then
                  fresh(conn.info) && table.servers == old(table.servers)[body.id as int := conn.info]
                else if old(table.servers)[body.id].hexID == body.hexID then
                  conn.info == old(table.servers)[body.id] && table.servers == old(table.servers)
                else
                  && fresh(conn.info) && table.servers == old(table.servers)[conn.info.id := conn.info]
                  && 1 <= conn.info.id <= MAX_ID && conn.info.id !in old(table.servers)
                  && forall i :: 1 <= i < conn.info.id ==> i in old(table.servers)
      ensures forall info :: info in old(Servers()) && old(info.isAuthed) ==> info.isAuthed
      ensures forall info :: info in Servers() ==> info in old(Servers()) || fresh(info)
    {
      if !body.GameServerAuth? {
        return Error;
      }
      var existing := table.GetByID(body.id);
      if existing.Some? {
        var existingInfo := existing.value;
        if existingInfo.hexID == body.hexID {
          if existingInfo.isAuthed {
            return Done(LoginServerFail(REASON_ALREADY_LOGGED_IN), false);
          }
          r := FinalizeRegistration(conn, existingInfo, body);
          return;
        }
        if body.acceptAlternate {
          var newInfo, ok := AddAlternate(body.hexID);
          if !ok {
            return Done(LoginServerFail(REASON_NO_FREE_ID), false);
          }
          r := FinalizeRegistration(conn, newInfo, body);
          return;
        }
        return Done(LoginServerFail(REASON_WRONG_HEX_ID), false);
      }
      var newInfo := AddNew(body.id, body.hexID);
      r := FinalizeRegistration(conn, newInfo, body);
    }

    method AddAlternate(hexID: seq<byte>) returns (info: GameServerInfo, ok: bool)
      requires Valid()
      modifies table`servers, table`low, table`high
      ensures Valid() && fresh(info) && info.hexID == hexID && !info.isAuthed
      ensures ok <==> exists i :: 1 <= i <= MAX_ID && i !in old(table.servers)
      ensures ok ==> 1 <= info.id <= MAX_ID && info.id !in old(table.servers)
                     && forall i :: 1 <= i < info.id ==> i in old(table.servers)
      ensures table.servers == if ok then old(table.servers)[info.id := info] else old(table.servers)
      ensures ok ==> info in Servers()
    {
      info := new GameServerInfo(0, hexID);
      ghost var before := table.servers;
      var id;
      id, ok := table.RegisterWithFirstAvailableID(info, MAX_ID);
      if ok {
        InfosAfterInsert(before, id, info);
      }
    }

    method AddNew(id: nat, hexID: seq<byte>) returns (info: GameServerInfo)
      requires Valid() && id !in table.servers
      modifies table`servers, table`low, table`high
      ensures Valid() && fresh(info) && info.hexID == hexID && !info.isAuthed && info.id == id
      ensures table.servers == old(table.servers)[id := info] && info in Servers()
    {
      info := new GameServerInfo(id, hexID);
      ghost var before := table.servers;
      var _ := table.Register(id, info);
      InfosAfterInsert(before, id, info);
    }

    method HandlePlayerInGame(conn: GSConnection, body: Body) returns (r: Outcome)
      modifies conn`accounts
      ensures r == if body.PlayerInGame? then Done(Nothing, true) else Error
      ensures conn.accounts == old(conn.accounts) + if body.PlayerInGame? then (set a | a in body.inGame) else {}
    {
      if !body.PlayerInGame? {
        return Error;
      }
      for i := 0 to |body.inGame|
        invariant conn.accounts == old(conn.accounts) + set a | a in body.inGame[..i]
      {
        conn.accounts := conn.accounts + {body.inGame[i]};
        assert body.inGame[..i + 1] == body.inGame[..i] + [body.inGame[i]];
      }
      assert body.inGame[..|body.inGame|] == body.inGame;
      return Done(Nothing, true);
    }

    method HandlePlayerLogout(conn: GSConnection, body: Body) returns (r: Outcome)
      modifies conn`accounts
      ensures r == if body.PlayerLogout? then Done(Nothing, true) else Error
      ensures conn.accounts == old(conn.accounts) - if body.PlayerLogout? then {body.account} else {}
    {
      if !body.PlayerLogout? {
        return Error;
      }
      conn.accounts := conn.accounts - {body.account};
      return Done(Nothing, true);
    }

    method HandleServerStatus(conn: GSConnection, body: Body) returns (r: Outcome)
      modifies Own(conn)`showingBrackets, Own(conn)`serverType, Own(conn)`status, Own(conn)`ageLimit, Own(conn)`maxPlayers
      ensures r == if body.ServerStatus? && conn.info != null then Done(Nothing, true) else Error
      ensures r.Done? ==> AttributesOf(conn.info) == AllReported(old(AttributesOf(conn.info)), body.attributes)
      ensures r.Error? && conn.info != null ==> AttributesOf(conn.info) == old(AttributesOf(conn.info))
    {
      if !body.ServerStatus? || conn.info == null {
        return Error;
      }
      var gsInfo := conn.info;
      for i := 0 to |body.attributes|
        invariant AttributesOf(gsInfo) == AllReported(old(AttributesOf(conn.info)), body.attributes[..i])
      {
        var (id, value) := body.attributes[i];
        if id == 0 {
          gsInfo.showingBrackets := value != 0;
        } else if id == 1 {
          gsInfo.serverType := value;
        } else if id == 2 {
          gsInfo.status := value;
        } else if id == 3 {
          gsInfo.ageLimit := value;
        } else if id == 4 {
          gsInfo.maxPlayers := value;
        }
        assert body.attributes[..i + 1][..i] == body.attributes[..i];
      }
      assert body.attributes[..|body.attributes|] == body.attributes;
      return Done(Nothing, true);
    }

    /** The server a connection is attached to, if any. */
    ghost function Own(conn: GSConnection): set<GameServerInfo>
      reads conn`info
    {
      if conn.info == null then {} else {conn.info}
    }

    /** Whether a packet has the opcode and the body that its connection's state calls for. */
    ghost predicate InTurn(conn: GSConnection, packet: Option<(byte, Body)>)
      reads conn`state
    {
      packet.Some?
      && var (opcode, body) := packet.value;
         match conn.state
         case GSConnected =>
           && opcode == OPCODE_BLOWFISH_KEY
           && body.BlowFishKey? && body.decrypted.Some? && |body.decrypted.value| >= BLOWFISH_KEY_SIZE
         case BFConnected => opcode == OPCODE_GAME_SERVER_AUTH && body.GameServerAuth?
         case Authed =>
           || (opcode == OPCODE_PLAYER_IN_GAME && body.PlayerInGame?)
           || (opcode == OPCODE_PLAYER_LOGOUT && body.PlayerLogout?)
           || (opcode == OPCODE_PLAYER_AUTH_REQUEST && body.PlayerAuthRequest?)
           || (opcode == OPCODE_SERVER_STATUS && body.ServerStatus?)
    }

    lemma InTurnIff(conn: GSConnection, opcode: byte, body: Body)
      ensures conn.state == GSConnected ==>
                (InTurn(conn, Some((opcode, body))) <==>
                   opcode == 0x00 && body.BlowFishKey? && body.decrypted.Some? && |body.decrypted.value| >= 40)
      ensures conn.state == BFConnected ==> (InTurn(conn, Some((opcode, body))) <==> opcode == 0x01 && body.GameServerAuth?)
      ensures conn.state == Authed && InTurn(conn, Some((opcode, body))) ==>
                opcode == 0x02 || opcode == 0x03 || opcode == 0x05 || opcode == 0x06
      ensures conn.state == Authed ==>
                && (InTurn(conn, Some((0x02, body))) <==> body.PlayerInGame?)
                && (InTurn(conn, Some((0x03, body))) <==> body.PlayerLogout?)
                && (InTurn(conn, Some((0x05, body))) <==> body.PlayerAuthRequest?)
                && (InTurn(conn, Some((0x06, body))) <==> body.ServerStatus?)
      ensures !InTurn(conn, None)
    {
    }

    /** Whether a packet in turn is a registration that is refused. */
    ghost predicate Denied(conn: GSConnection, packet: Option<(byte, Body)>)
      requires InTurn(conn, packet)
      reads conn`state, table`servers, Servers()`isAuthed
    {
      conn.state == BFConnected && Refused(packet.value.1)
    }

    /** Whether a packet in turn is answered: a registration and a question about a player are. */
    ghost predicate Answered(conn: GSConnection, packet: Option<(byte, Body)>)
      requires InTurn(conn, packet)
      reads conn`state
    {
      conn.state == BFConnected || (conn.state == Authed && packet.value.0 == OPCODE_PLAYER_AUTH_REQUEST)
    }

    /** What a connection that has not exchanged keys may send. */
    method HandleInitial(conn: GSConnection, opcode: byte, body: Body) returns (r: Outcome)
      requires conn.state == GSConnected
      modifies conn`state, conn`blowfishKey
      ensures r == if old(InTurn(conn, Some((opcode, body)))) then Done(Nothing, true) else Error
      ensures conn.state == if r.Done? then BFConnected else GSConnected
      ensures conn.blowfishKey ==
              if r.Done? then body.decrypted.value[|body.decrypted.value| - 40..] else old(conn.blowfishKey)
    {
      if opcode == OPCODE_BLOWFISH_KEY {
        r := HandleBlowFishKey(conn, body);
      } else {
        r := Error;
      }
    }

    /** What a connection that is authenticated may send. */
    method HandleAuthed(conn: GSConnection, opcode: byte, body: Body) returns (r: Outcome)
      requires conn.state == Authed && conn.info != null
      modifies conn`accounts, sessionManager
      modifies Own(conn)`showingBrackets, Own(conn)`serverType, Own(conn)`status, Own(conn)`ageLimit, Own(conn)`maxPlayers
      ensures r.Done? <==> InTurn(conn, Some((opcode, body)))
      ensures r.Done? ==> r.open && (!body.PlayerAuthRequest? ==> r.reply == Nothing)
      ensures r.Done? && body.PlayerAuthRequest? ==>
                && r.reply.PlayerAuthResponse? && r.reply.player == body.player
                && (r.reply.valid <==>
                      && body.player in old(sessionManager.sessions)
                      && old(sessionManager.sessions)[body.player].sessionKey.playOkID1 == body.key.playOkID1
                      && old(sessionManager.sessions)[body.player].sessionKey.playOkID2 == body.key.playOkID2)
      ensures sessionManager.sessions ==
              if r.Done? && body.PlayerAuthRequest? && r.reply.valid then old(sessionManager.sessions) - {body.player}
              else old(sessionManager.sessions)
      ensures conn.accounts ==
              if r.Done? && body.PlayerInGame? then old(conn.accounts) + set a | a in body.inGame
              else if r.Done? && body.PlayerLogout? then old(conn.accounts) - {body.account}
              else old(conn.accounts)
      ensures AttributesOf(conn.info) ==
              if r.Done? && body.ServerStatus? then AllReported(old(AttributesOf(conn.info)), body.attributes)
              else old(AttributesOf(conn.info))
    {
      if opcode == OPCODE_PLAYER_IN_GAME {
        r := HandlePlayerInGame(conn, body);
      } else if opcode == OPCODE_PLAYER_LOGOUT {
        r := HandlePlayerLogout(conn, body);
      } else if opcode == OPCODE_PLAYER_AUTH_REQUEST {
        r := HandlePlayerAuthRequest(sessionManager, body);
      } else if opcode == OPCODE_SERVER_STATUS {
        r := HandleServerStatus(conn, body);
      } else {
        r := Error;
      }
    }

    /**
     * A packet out of turn is an error and changes nothing. One in turn moves the connection on to the next state, if there is
     * one and the registration is not refused, is answered if it is a registration or a question about a player, and does what
     * its handler does and nothing else.
     */
    method HandlePacket(conn: GSConnection, packet: Option<(byte, Body)>) returns (r: Outcome)
      requires Valid() && conn in open
      modifies conn, table`servers, table`low, table`high, sessionManager
      modifies Servers()`port, Servers()`maxPlayers, Servers()`hosts, Servers()`isAuthed, Servers()`status
      modifies Servers()`showingBrackets, Servers()`serverType, Servers()`ageLimit
      ensures Valid()
      // the registry
      ensures forall id :: id in old(table.servers) ==> id in table.servers && table.servers[id] == old(table.servers)[id]
      ensures forall info :: info in Servers() ==> info in old(Servers()) || fresh(info)
      ensures forall info :: info in old(Servers()) && old(info.isAuthed) ==> info.isAuthed
      ensures old(conn.info) != null ==> conn.info == old(conn.info)
      ensures conn.info != null ==> conn.info in old(Servers()) || fresh(conn.info)
      ensures conn.info == null ==> table.servers == old(table.servers)
      ensures conn.info == null ==> forall info :: info in Servers() ==>
                info.isAuthed == old(info.isAuthed) && info.port == old(info.port) && info.status == old(info.status)
      // the connection
      ensures r.Done? <==> old(InTurn(conn, packet))
      ensures r.Done? ==> r.open == !old(Denied(conn, packet))
      ensures conn.state == if r.Done? && r.open then (if old(conn.state) == GSConnected then BFConnected else Authed)
                            else old(conn.state)
      ensures conn.blowfishKey ==
              if r.Done? && old(conn.state) == GSConnected then
                packet.value.1.decrypted.value[|packet.value.1.decrypted.value| - 40..]
              else old(conn.blowfishKey)
      ensures conn.accounts ==
              if r.Done? && packet.value.1.PlayerInGame? then old(conn.accounts) + set a | a in packet.value.1.inGame
              else if r.Done? && packet.value.1.PlayerLogout? then old(conn.accounts) - {packet.value.1.account}
              else old(conn.accounts)
      ensures r.Done? && old(conn.info) != null ==>
                AttributesOf(conn.info) ==
                if packet.value.1.ServerStatus? then AllReported(old(AttributesOf(conn.info)), packet.value.1.attributes)
                else old(AttributesOf(conn.info))
      // the answer
      ensures r.Done? && !old(Answered(conn, packet)) ==> r.reply == Nothing
      ensures r.Done? && packet.value.1.PlayerAuthRequest? ==>
                && r.reply.PlayerAuthResponse? && r.reply.player == packet.value.1.player
                && (r.reply.valid <==>
                      && packet.value.1.player in old(sessionManager.sessions)
                      && old(sessionManager.sessions)[packet.value.1.player].sessionKey.playOkID1 == packet.value.1.key.playOkID1
                      && old(sessionManager.sessions)[packet.value.1.player].sessionKey.playOkID2 == packet.value.1.key.playOkID2)
      ensures sessionManager.sessions ==
              if r.Done? && packet.value.1.PlayerAuthRequest? && r.reply.valid then
                old(sessionManager.sessions) - {packet.value.1.player}
              else old(sessionManager.sessions)
      // a registration
      ensures r.Done? && packet.value.1.GameServerAuth? && r.open ==>
                var body := packet.value.1;
                && conn.info != null && r.reply.AuthResponse? && r.reply.serverID as int == conn.info.id
                && conn.info.hexID == body.hexID && conn.info.port == body.port && conn.info.maxPlayers == body.maxPlayers
                && conn.info.hosts == Hosts(body.entries)
                && if body.id !in old(table.servers) then
                     fresh(conn.info) && table.servers == old(table.servers)[body.id as int := conn.info]
                   else if old(table.servers)[body.id].hexID == body.hexID then
                     conn.info == old(table.servers)[body.id] && table.servers == old(table.servers)
                   else
                     && fresh(conn.info) && table.servers == old(table.servers)[conn.info.id := conn.info]
                     && 1 <= conn.info.id <= 127 && conn.info.id !in old(table.servers)
                     && forall i :: 1 <= i < conn.info.id ==> i in old(table.servers)
      ensures r.Done? && packet.value.1.GameServerAuth? && !r.open ==>
                var body := packet.value.1;
                && body.id in old(table.servers)
                && r.reply == LoginServerFail(if old(table.servers)[body.id].hexID == body.hexID then 7
                                              else if body.acceptAlternate then 5 else 3)
    {
      if packet.None? {
        return Error;
      }
      var (opcode, body) := packet.value;
      match conn.state
      case GSConnected =>
        r := HandleInitial(conn, opcode, body);
      case BFConnected =>
        if opcode == OPCODE_GAME_SERVER_AUTH {
          r := HandleGameServerAuth(conn, body);
        } else {
          r := Error;
        }
      case Authed =>
        r := HandleAuthed(conn, opcode, body);
    }

    /**
     * One turn of the packet loop. A packet that cannot be read (None), an error, a handler that says so and an answer that
     * cannot be sent each end the connection; what is sent is the handler's answer. The registry only grows, no server but the
     * connection's own goes down, and a connection that is left without a server, as a refused one is, leaves the registry as
     * it was.
     */
    method Turn(conn: GSConnection, packet: Option<Option<(byte, Body)>>, sendable: bool) returns (reply: Reply, ok: bool)
      requires Valid() && conn in open
      modifies `open, conn, table`servers, table`low, table`high, sessionManager
      modifies Servers()`port, Servers()`maxPlayers, Servers()`hosts, Servers()`isAuthed, Servers()`status
      modifies Servers()`showingBrackets, Servers()`serverType, Servers()`ageLimit
      ensures Valid()
      ensures open == if ok then old(open) else old(open) - {conn}
      ensures ok <==> old(Served(conn, packet, sendable)) && !old(Denied(conn, packet.value))
      // the registry
      ensures forall id :: id in old(table.servers) ==> id in table.servers && table.servers[id] == old(table.servers)[id]
      ensures forall info :: info in Servers() ==> info in old(Servers()) || fresh(info)
      ensures forall info :: info in old(Servers()) && old(info.isAuthed) ==> info.isAuthed || (!ok && info == old(conn.info))
      ensures conn.info == null ==> table.servers == old(table.servers)
      ensures conn.info == null ==> forall info :: info in Servers() ==>
                info.isAuthed == old(info.isAuthed) && info.port == old(info.port) && info.status == old(info.status)
      // the connection, while it lasts
      ensures ok ==> conn.state == if old(conn.state) == GSConnected then BFConnected else Authed
      ensures ok && packet.value.value.1.GameServerAuth? ==>
                var body := packet.value.value.1;
                && conn.info != null && conn.info.hexID == body.hexID && conn.info.port == body.port
                && conn.info.maxPlayers == body.maxPlayers && conn.info.hosts == Hosts(body.entries)
      ensures ok && packet.value.value.1.BlowFishKey? ==>
                conn.blowfishKey == packet.value.value.1.decrypted.value[|packet.value.value.1.decrypted.value| - 40..]
      ensures ok && !packet.value.value.1.BlowFishKey? ==> conn.blowfishKey == old(conn.blowfishKey)
      ensures ok ==>
                conn.accounts ==
                if packet.value.value.1.PlayerInGame? then old(conn.accounts) + set a | a in packet.value.value.1.inGame
                else if packet.value.value.1.PlayerLogout? then old(conn.accounts) - {packet.value.value.1.account}
                else old(conn.accounts)
      ensures ok && packet.value.value.1.ServerStatus? ==>
                AttributesOf(conn.info) == AllReported(old(AttributesOf(conn.info)), packet.value.value.1.attributes)
      // the answer
      ensures !old(Served(conn, packet, sendable)) ==> reply == Nothing
      ensures old(Served(conn, packet, sendable)) && !packet.value.value.1.GameServerAuth? && !packet.value.value.1.PlayerAuthRequest? ==>
                reply == Nothing
      ensures old(Served(conn, packet, sendable)) && packet.value.value.1.PlayerAuthRequest? ==>
                var body := packet.value.value.1;
                && reply.PlayerAuthResponse? && reply.player == body.player
                && (reply.valid <==>
                      && body.player in old(sessionManager.sessions)
                      && old(sessionManager.sessions)[body.player].sessionKey.playOkID1 == body.key.playOkID1
                      && old(sessionManager.sessions)[body.player].sessionKey.playOkID2 == body.key.playOkID2)
                && sessionManager.sessions ==
                   if reply.valid then old(sessionManager.sessions) - {body.player} else old(sessionManager.sessions)
      ensures ok && packet.value.value.1.GameServerAuth? ==> reply.AuthResponse? && reply.serverID as int == conn.info.id
      ensures old(Served(conn, packet, sendable)) && packet.value.value.1.GameServerAuth? && !ok ==>
                var body := packet.value.value.1;
                && body.id in old(table.servers)
                && reply == LoginServerFail(if old(table.servers)[body.id].hexID == body.hexID then 7
                                            else if body.acceptAlternate then 5 else 3)
      // without a question about a player that is in turn, sessions stay as they are
      ensures !(packet.Some? && old(InTurn(conn, packet.value)) && packet.value.value.1.PlayerAuthRequest?) ==>
                sessionManager.sessions == old(sessionManager.sessions)
    {
      reply, ok := Nothing, false;
      if packet.Some? {
        var r := HandlePacket(conn, packet.value);
        if r.Done? {
          if r.reply == Nothing || sendable {
            reply, ok := r.reply, r.open;
          }
        }
      }
      if !ok {
        Close(conn);
      }
    }

    /** Only a registration and a question about a player need an answer to be sent, and only a registration can be refused. */
    lemma ServedIff(conn: GSConnection, packet: Option<Option<(byte, Body)>>, sendable: bool)
      ensures Served(conn, packet, sendable) <==>
              && packet.Some? && InTurn(conn, packet.value)
              && (sendable || conn.state == GSConnected || (conn.state == Authed && !packet.value.value.1.PlayerAuthRequest?))
      ensures packet.Some? && InTurn(conn, packet.value) ==>
              (Denied(conn, packet.value) <==> conn.state == BFConnected && Refused(packet.value.value.1))
    {
    }

    /** Whether a packet is read, in turn, and its answer, if it has one, can be sent. */
    ghost predicate Served(conn: GSConnection, packet: Option<Option<(byte, Body)>>, sendable: bool)
      reads conn`state
    {
      packet.Some? && InTurn(conn, packet.value) && (Answered(conn, packet.value) ==> sendable)
    }

    /**
     * A registered server is up exactly when one open connection, and only one, has it attached, and that one is
     * authenticated; and every authenticated connection's server is in the registry under its own ID.
     */
    ghost predicate UpIffOneConnection()
      reads `open, open, table`servers, Servers()`id, Servers()`isAuthed
    {
      && (forall id :: id in table.servers ==>
            (table.servers[id].isAuthed <==> exists c :: c in open && c.state == Authed && c.info == table.servers[id]))
      && (forall c, d :: c in open && d in open && c.state == Authed && c.info == d.info ==> c == d)
      && (forall c :: c in open && c.state == Authed ==>
            c.info != null && c.info in Servers() && c.info.isAuthed
            && c.info.id in table.servers && table.servers[c.info.id] == c.info)
      && forall c :: c in open && c.state != Authed ==> c.info == null
    }

    lemma ValidMeansOneConnection()
      requires Valid()
      ensures UpIffOneConnection()
    {
      forall c | c in open && c.state == Authed
        ensures c.info != null && c.info.isAuthed && c.info in Servers()
      {
        assert Attached(c);
      }
    }
  }

  lemma InfosAfterInsert(m: map<int, GameServerInfo>, id: int, info: GameServerInfo)
    requires id !in m
    ensures Infos(m[id := info]) == Infos(m) + {info}
  {
    var m' := m[id := info];
    assert m'[id] == info;
    assert forall k :: k in m ==> m'[k] == m[k];
  }
}
