/** The login server's side of a client connection: three states, four packets, and the session key handed out on the way. */
module LoginHandlers {
  import opened Bytes
  import opened Integers
  import opened Packets
  import opened Sessions
  import opened Wrappers

  const OPCODE_REQUEST_AUTH_LOGIN: byte := 0x00
  const OPCODE_REQUEST_SERVER_LOGIN: byte := 0x02
  const OPCODE_REQUEST_SERVER_LIST: byte := 0x05
  const OPCODE_AUTH_GAME_GUARD: byte := 0x07

  const REASON_SYSTEM_ERROR: byte := 0x01
  const REASON_USER_OR_PASS_WRONG: byte := 0x02
  const REASON_SERVER_OVERLOADED: byte := 0x0F
  const REASON_ACCESS_FAILED: byte := 0x15
  const REASON_PERMANENTLY_BANNED: int := 0x20

  datatype Reply =
    | Nothing
    | LoginFail(reason: byte)
    | AccountKicked(cause: int)
    | GGAuth(sessionID: int32)
    | LoginOk(loginOkID1: int32, loginOkID2: int32)
    | ServerList(ids: seq<int>)
    | PlayFail(refusal: byte)
    | PlayOk(playOkID1: int32, playOkID2: int32)

  /** What is sent and whether the connection stays open; an error closes it without an answer. */
  datatype Outcome = Done(reply: Reply, open: bool) | Error

  datatype Account = Account(passwordHash: string, accessLevel: int)

  /** Everything a login attempt gets from outside: the decrypted credentials, the database, fresh random keys, the clock. */
  datatype Attempt = Attempt(credentials: Option<(Name, Name)>, passHash: string,
                             found: Result<Option<Account>>, created: Result<Account>, key: SessionKey, now: int)
  {
    /** The account record the password is compared with, if there is one to be had. */
    function Record(autoCreate: bool): Option<Account> {
      if found.Failure? then None
      else if found.value.Some? then found.value
      else if autoCreate && created.Success? then Some(created.value)
      else None
    }

    predicate Named() {
      credentials.Some? && credentials.value.0 != [] && credentials.value.1 != []
    }

    /** Whether a database call that the attempt depends on failed. */
    predicate DatabaseFails(autoCreate: bool) {
      found.Failure? || (found.value.None? && autoCreate && created.Failure?)
    }

    predicate Known(autoCreate: bool) {
      Named() && Record(autoCreate).Some? && Record(autoCreate).value.passwordHash == passHash
    }

    predicate Admitted(autoCreate: bool) {
      Known(autoCreate) && Record(autoCreate).value.accessLevel >= 0
    }

    /**
     * The record is the one found, or else the one created if that is allowed; a client is known when it names an account and
     * a password of that record's hash, and is admitted when its access level is not negative either.
     */
    lemma AttemptMeans(autoCreate: bool)
      ensures Named() <==> credentials.Some? && |credentials.value.0| > 0 && |credentials.value.1| > 0
      ensures DatabaseFails(autoCreate) <==>
              found.Failure? || (found == Success(Option<Account>.None) && autoCreate && created.Failure?)
      ensures forall a :: Record(autoCreate) == Some(a) <==>
                found == Success(Some(a)) || (found == Success(None) && autoCreate && created == Success(a))
      ensures Known(autoCreate) <==>
              Named() && exists a :: Record(autoCreate) == Some(a) && a.passwordHash == passHash
      ensures Admitted(autoCreate) <==>
              Named() && exists a :: Record(autoCreate) == Some(a) && a.passwordHash == passHash && a.accessLevel >= 0
    {
      if Record(autoCreate).Some? {
        assert Record(autoCreate) == Some(Record(autoCreate).value);
      }
    }
  }

  class LoginHandler {
    const sessionManager: SessionManager
    const showLicence: bool
    const autoCreate: bool
    const gameServers: seq<int>

    constructor (sessionManager: SessionManager, showLicence: bool, autoCreate: bool, gameServers: seq<int>)
      ensures this.sessionManager == sessionManager && this.showLicence == showLicence
      ensures this.autoCreate == autoCreate && this.gameServers == gameServers
    {
      this.sessionManager := sessionManager;
      this.showLicence := showLicence;
      this.autoCreate := autoCreate;
      this.gameServers := gameServers;
    }

    /**
     * A packet changes the client's key and account, and the sessions, only by logging it in; it moves the client on by one
     * state or not at all; and the play pair is shown to nobody but a client that is logged in. A packet that is none of the
     * four, or is out of turn, is ignored.
     */
    method HandlePacket(client: Client, data: seq<byte>, attempt: Attempt) returns (r: Outcome)
      modifies client, sessionManager
      ensures old(client.state) == AuthedGG && |data| > 128 && data[0] == 0x00 && attempt.Admitted(autoCreate) ==>
                && client.state == AuthedLogin && client.sessionKey == attempt.key
                && client.account == attempt.credentials.value.0
                && sessionManager.sessions ==
                   old(sessionManager.sessions)[client.account := SessionInfo(attempt.key, client, attempt.now)]
      ensures !(old(client.state) == AuthedGG && |data| > 128 && data[0] == 0x00 && attempt.Admitted(autoCreate)) ==>
                && client.sessionKey == old(client.sessionKey) && client.account == old(client.account)
                && sessionManager.sessions == old(sessionManager.sessions)
                && client.state ==
                   if old(client.state) == Connected && |data| > 4 && data[0] == 0x07 && IntAt(data, 1) == client.sessionID
                   then AuthedGG else old(client.state)
      ensures r.Error? <==>
                || |data| == 0
                || (data[0] == 0x07 && old(client.state) == Connected && |data| <= 4)
                || (data[0] == 0x05 && old(client.state) == AuthedLogin && |data| <= 8)
                || (data[0] == 0x02 && old(client.state) == AuthedLogin && |data| <= 9)
      ensures r.Done? && data[0] == 0x07 && old(client.state) == Connected ==>
                r == if IntAt(data, 1) == client.sessionID then Done(GGAuth(client.sessionID), true)
                     else Done(LoginFail(0x15), false)
      ensures r.Done? && data[0] == 0x00 && old(client.state) == AuthedGG ==>
                r == if |data| <= 128 || attempt.credentials.None? then Done(LoginFail(0x15), false)
                     else if attempt.Named() && attempt.DatabaseFails(autoCreate) then Done(LoginFail(0x01), false)
                     else if !attempt.Known(autoCreate) then Done(LoginFail(0x02), false)
                     else if !attempt.Admitted(autoCreate) then Done(AccountKicked(0x20), false)
                     else if showLicence then Done(LoginOk(attempt.key.loginOkID1, attempt.key.loginOkID2), true)
                     else Done(ServerList(gameServers), true)
      ensures r.Done? && data[0] == 0x05 && old(client.state) == AuthedLogin ==>
                r == if client.sessionKey.loginOkID1 == IntAt(data, 1) && client.sessionKey.loginOkID2 == IntAt(data, 5)
                     then Done(ServerList(gameServers), true) else Done(LoginFail(0x15), false)
      ensures r.Done? && data[0] == 0x02 && old(client.state) == AuthedLogin ==>
                r == if showLicence && !(client.sessionKey.loginOkID1 == IntAt(data, 1) && client.sessionKey.loginOkID2 == IntAt(data, 5))
                     then Done(LoginFail(0x15), false)
                     else if data[9] as int in gameServers
                     then Done(PlayOk(client.sessionKey.playOkID1, client.sessionKey.playOkID2), true)
                     else Done(PlayFail(0x0F), true)
      ensures r.Done?
              && !(data[0] == 0x07 && old(client.state) == Connected) && !(data[0] == 0x00 && old(client.state) == AuthedGG)
              && !(data[0] in {0x02, 0x05} && old(client.state) == AuthedLogin) ==>
                r == Done(Nothing, true)
    {
      if |data| == 0 {
        return Error;
      }
      var opcode, body := data[0], data[1..];
      assert |data| > 4 ==> data[1..][0..4] == data[1..5];
      if opcode == OPCODE_AUTH_GAME_GUARD {
        r := HandleAuthGameGuard(client, body);
      } else if opcode == OPCODE_REQUEST_AUTH_LOGIN {
        r := HandleRequestAuthLogin(client, body, attempt);
      } else if opcode == OPCODE_REQUEST_SERVER_LIST {
        assert |data| > 8 ==> data[1..][0..4] == data[1..5] && data[1..][4..8] == data[5..9];
        r := HandleRequestServerList(client, body);
      } else if opcode == OPCODE_REQUEST_SERVER_LOGIN {
        assert |data| > 9 ==> data[1..][0..4] == data[1..5] && data[1..][4..8] == data[5..9];
        r := HandleRequestServerLogin(client, body);
      } else {
        r := Done(Nothing, true);
      }
    }

    method HandleAuthGameGuard(client: Client, data: seq<byte>) returns (r: Outcome)
      modifies client`state
      ensures client.state ==
              if old(client.state) == Connected && |data| >= 4 && IntAt(data, 0) == client.sessionID then AuthedGG
              else old(client.state)
      ensures r == if old(client.state) != Connected then Done(Nothing, true)
                   else if |data| < 4 then Error
                   else if client.state == AuthedGG then Done(GGAuth(client.sessionID), true)
                   else Done(LoginFail(0x15), false)
    {
      if client.state != Connected {
        return Done(Nothing, true);
      }
      if |data| < 4 {
        return Error;
      }
      var sessionID := IntAt(data, 0);
      if sessionID != client.sessionID {
        return Done(LoginFail(REASON_ACCESS_FAILED), false);
      }
      client.state := AuthedGG;
      return Done(GGAuth(client.sessionID), true);
    }

    /** A client is logged in, or refused and disconnected; out of turn it is ignored. */
    method HandleRequestAuthLogin(client: Client, data: seq<byte>, attempt: Attempt) returns (r: Outcome)
      modifies client, sessionManager
      ensures old(client.state) == AuthedGG && |data| >= 128 && attempt.Admitted(autoCreate) ==>
                && client.state == AuthedLogin && client.sessionKey == attempt.key
                && client.account == attempt.credentials.value.0
                && sessionManager.sessions ==
                   old(sessionManager.sessions)[client.account := SessionInfo(attempt.key, client, attempt.now)]
                && r == Done(if showLicence then LoginOk(attempt.key.loginOkID1, attempt.key.loginOkID2)
                             else ServerList(gameServers), true)
      ensures !(old(client.state) == AuthedGG && |data| >= 128 && attempt.Admitted(autoCreate)) ==>
                && client.state == old(client.state) && client.sessionKey == old(client.sessionKey)
                && client.account == old(client.account) && sessionManager.sessions == old(sessionManager.sessions)
                && (old(client.state) != AuthedGG ==> r == Done(Nothing, true))
      ensures old(client.state) == AuthedGG && !(|data| >= 128 && attempt.Admitted(autoCreate)) ==>
                r == Done(if |data| < 128 || attempt.credentials.None? then LoginFail(0x15)
                          else if attempt.Named() && attempt.DatabaseFails(autoCreate) then LoginFail(0x01)
                          else if !attempt.Known(autoCreate) then LoginFail(0x02)
                          else AccountKicked(0x20), false)
    {
      if client.state != AuthedGG {
        return Done(Nothing, true);
      }
      if |data| < 128 {
        return Done(LoginFail(REASON_ACCESS_FAILED), false);
      }
      if attempt.credentials.None? {
        return Done(LoginFail(REASON_ACCESS_FAILED), false);
      }
      var (login, password) := attempt.credentials.value;
      if login == [] || password == [] {
        return Done(LoginFail(REASON_USER_OR_PASS_WRONG), false);
      }
      if attempt.found.Failure? {
        return Done(LoginFail(REASON_SYSTEM_ERROR), false);
      }
      var acc: Account;
      if attempt.found.value.None? {
        if autoCreate {
          if attempt.created.Failure? {
            return Done(LoginFail(REASON_SYSTEM_ERROR), false);
          }
          acc := attempt.created.value;
        } else {
          return Done(LoginFail(REASON_USER_OR_PASS_WRONG), false);
        }
      } else {
        acc := attempt.found.value.value;
      }
      if acc.passwordHash != attempt.passHash {
        return Done(LoginFail(REASON_USER_OR_PASS_WRONG), false);
      }
      if acc.accessLevel < 0 {
        return Done(AccountKicked(REASON_PERMANENTLY_BANNED), false);
      }
      client.account := login;
      client.state := AuthedLogin;
      client.sessionKey := attempt.key;
      sessionManager.Store(login, attempt.key, client, attempt.now);
      if showLicence {
        return Done(LoginOk(attempt.key.loginOkID1, attempt.key.loginOkID2), true);
      }
      return Done(ServerList(gameServers), true);
    }

    method HandleRequestServerList(client: Client, data: seq<byte>) returns (r: Outcome)
      ensures r.Done? && r.reply.ServerList? <==>
                client.state == AuthedLogin && |data| >= 8
                && client.sessionKey.loginOkID1 == IntAt(data, 0) && client.sessionKey.loginOkID2 == IntAt(data, 4)
      ensures r.Done? && r.reply.ServerList? ==> r.reply.ids == gameServers
      ensures r.Error? <==> client.state == AuthedLogin && |data| < 8
      ensures r.Done? ==> (r.open <==> r.reply.ServerList? || client.state != AuthedLogin)
      ensures r.Done? && !r.open ==> r.reply == LoginFail(0x15)
      ensures client.state != AuthedLogin ==> r.Done? && r.reply == Nothing
    {
      if client.state != AuthedLogin {
        return Done(Nothing, true);
      }
      if |data| < 8 {
        return Error;
      }
      var skey1, skey2 := IntAt(data, 0), IntAt(data, 4);
      if !client.sessionKey.CheckLoginPair(skey1, skey2) {
        return Done(LoginFail(REASON_ACCESS_FAILED), false);
      }
      return Done(ServerList(gameServers), true);
    }

    /**
     * Without the licence step the login pair the client sends is not looked at. A wrong pair closes the connection, an
     * unknown server does not.
     */
    method HandleRequestServerLogin(client: Client, data: seq<byte>) returns (r: Outcome)
      ensures r.Done? && r.reply.PlayOk? <==>
                && client.state == AuthedLogin && |data| >= 9 && data[8] as int in gameServers
                && (showLicence ==> client.sessionKey.loginOkID1 == IntAt(data, 0) && client.sessionKey.loginOkID2 == IntAt(data, 4))
      ensures r.Done? && r.reply.PlayOk? ==>
                r == Done(PlayOk(client.sessionKey.playOkID1, client.sessionKey.playOkID2), true)
      ensures r.Error? <==> client.state == AuthedLogin && |data| < 9
      ensures r.Done? && !r.open <==>
                && client.state == AuthedLogin && |data| >= 9 && showLicence
                && !(client.sessionKey.loginOkID1 == IntAt(data, 0) && client.sessionKey.loginOkID2 == IntAt(data, 4))
      ensures r.Done? && !r.open ==> r.reply == LoginFail(0x15)
      ensures r.Done? && r.open && !r.reply.PlayOk? ==>
                r.reply == if client.state == AuthedLogin then PlayFail(0x0F) else Nothing
    {
      if client.state != AuthedLogin {
        return Done(Nothing, true);
      }
      if |data| < 9 {
        return Error;
      }
      var skey1, skey2 := IntAt(data, 0), IntAt(data, 4);
      var serverID: int := data[8];
      if showLicence && !client.sessionKey.CheckLoginPair(skey1, skey2) {
        return Done(LoginFail(REASON_ACCESS_FAILED), false);
      }
      var found := false;
      for i := 0 to |gameServers|
        invariant !found && serverID !in gameServers[..i]
      {
        if gameServers[i] == serverID {
          found := true;
          break;
        }
      }
      if !found {
        assert gameServers[..|gameServers|] == gameServers;
        return Done(PlayFail(REASON_SERVER_OVERLOADED), true);
      }
      return Done(PlayOk(client.sessionKey.playOkID1, client.sessionKey.playOkID2), true);
    }
  }
}
