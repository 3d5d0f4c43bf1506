/** A player's way from the login server to a game server: the login handler and the relay taking turns over one session map. */
module Handoffs {
  import opened Bytes
  import opened Integers
  import opened Packets
  import opened Sessions
  import opened Wrappers
  import L = LoginHandlers
  import R = Relays

  class Handoff {
    const handler: L.LoginHandler

    /** The clients that have connected, and all that happened to sessions so far. */
    ghost var clients: set<Client>
    ghost var history: History

    /** Whether an event issued a session to a client whose state still says so. */
    ghost predicate Borne(e: Event)
      requires e.Issued?
      reads e.info.client
    {
      var c := e.info.client;
      c.state == AuthedLogin && c.account == e.account && c.sessionKey == e.info.sessionKey
    }

    ghost predicate Valid()
      reads this, clients, handler.sessionManager
    {
      && handler.sessionManager.sessions == Replay(history)
      && Lawful(history)
      && (forall i :: 0 <= i < |history| && history[i].Issued? ==> history[i].info.client in clients && Borne(history[i]))
      && forall c :: c in clients && c.state == AuthedLogin ==> HasSession(history, c)
    }

    constructor (handler: L.LoginHandler)
      requires handler.sessionManager.sessions == map[]
      ensures Valid() && this.handler == handler && history == [] && clients == {}
    {
      this.handler := handler;
      clients := {};
      history := [];
    }

    method Connect(sessionID: int32) returns (client: Client)
      requires Valid()
      modifies `clients
      ensures Valid() && fresh(client) && clients == old(clients) + {client} && client.sessionID == sessionID && client.state == Connected
    {
      client := new Client(sessionID);
      clients := clients + {client};
    }

    /** A client's packet at the login server. */
    method FromClient(client: Client, data: seq<byte>, attempt: L.Attempt) returns (r: L.Outcome)
      requires Valid() && client in clients
      modifies `history, client, handler.sessionManager
      ensures Valid()
      ensures var loggedIn := old(client.state) == AuthedGG && |data| > 128 && data[0] == 0x00 && attempt.Admitted(handler.autoCreate);
              history == old(history)
                         + (if loggedIn then [Issued(attempt.credentials.value.0, SessionInfo(attempt.key, client, attempt.now))]
                            else if r.Done? && r.reply.PlayOk? then [PlayOkSent(client, r.reply.playOkID1, r.reply.playOkID2)]
                            else [])
      ensures r.Done? && r.reply.PlayOk? <==>
                && old(client.state) == AuthedLogin && |data| > 9 && data[0] == 0x02 && data[9] as int in handler.gameServers
                && (handler.showLicence ==>
                      client.sessionKey.loginOkID1 == IntAt(data, 1) && client.sessionKey.loginOkID2 == IntAt(data, 5))
    {
      hide Replay, Lawful, HasSession;
      ghost var loggedIn := client.state == AuthedGG && |data| > 128 && data[0] == 0x00 && attempt.Admitted(handler.autoCreate);
      ghost var info := SessionInfo(attempt.key, client, attempt.now);
      Entitled(client);
      r := handler.HandlePacket(client, data, attempt);
      if loggedIn {
        HistoryStep(history, Issued(client.account, info));
        HasSessionStep(history, Issued(client.account, info));
        history := history + [Issued(client.account, info)];
      } else if r.Done? && r.reply.PlayOk? {
        ghost var sent := PlayOkSent(client, r.reply.playOkID1, r.reply.playOkID2);
        HistoryStep(history, sent);
        HasSessionStep(history, sent);
        history := history + [sent];
      }
    }

    /** A client that is not logged in has not been issued a session before, and one that is has been issued its own. */
    lemma Entitled(client: Client)
      requires Valid() && client in clients
      ensures client.state == AuthedGG ==>
                forall i :: 0 <= i < |history| && history[i].Issued? ==> history[i].info.client != client
      ensures client.state == AuthedLogin ==>
                MayFollow(history, PlayOkSent(client, client.sessionKey.playOkID1, client.sessionKey.playOkID2))
    {
      if client.state == AuthedLogin {
        var i :| 0 <= i < |history| && history[i].Issued? && history[i].info.client == client;
        assert HandsOut(history[i], client, client.sessionKey.playOkID1, client.sessionKey.playOkID2);
      }
    }

    /** A game server's question, as the relay handles it in an authenticated connection. */
    method FromGameServer(account: Name, key: SessionKey) returns (valid: bool)
      requires Valid()
      modifies `history, handler.sessionManager
      ensures Valid() && history == old(history) + [Asked(account, key, valid)]
      ensures valid <==> Matches(old(handler.sessionManager.sessions), account, key, false)
      ensures valid <==>
                && account in old(handler.sessionManager.sessions)
                && old(handler.sessionManager.sessions)[account].sessionKey.playOkID1 == key.playOkID1
                && old(handler.sessionManager.sessions)[account].sessionKey.playOkID2 == key.playOkID2
      ensures handler.sessionManager.sessions ==
              if valid then old(handler.sessionManager.sessions) - {account} else old(handler.sessionManager.sessions)
    {
      var r := R.HandlePlayerAuthRequest(handler.sessionManager, R.PlayerAuthRequest(account, key));
      valid := r.reply.valid;
      history := history + [Asked(account, key, valid)];
    }

    method Clean(ttl: int, now: int)
      requires Valid()
      modifies `history, handler.sessionManager
      ensures Valid() && history == old(history) + [Swept(ttl, now)]
    {
      handler.sessionManager.CleanExpired(ttl, now);
      history := history + [Swept(ttl, now)];
    }

    /** In every reachable state a stored session is its client's current one, under its client's account. */
    lemma StoredSessionIsClients(account: Name)
      requires Valid() && account in handler.sessionManager.sessions
      ensures var info := handler.sessionManager.sessions[account];
              info.client in clients && info.client.state == AuthedLogin && info.client.account == account
              && info.client.sessionKey == info.sessionKey
    {
      var i := StoredWasIssued(history, account);
    }

    /** The pair a client was ever sent in PlayOk is good at the relay while that client's session is the stored one. */
    lemma PlayOkIsGood(i: nat, account: Name, key: SessionKey)
      requires Valid() && i < |history| && history[i].PlayOkSent? && account in handler.sessionManager.sessions
      requires handler.sessionManager.sessions[account].client == history[i].client
      requires key.playOkID1 == history[i].playOkID1 && key.playOkID2 == history[i].playOkID2
      ensures Matches(handler.sessionManager.sessions, account, key, false)
    {
      SentPairMatches(history, i, account, key);
    }

    /** Between two logins for an account the relay accepts one player at most. */
    lemma OneAdmissionPerLogin(account: Name, i: nat, j: nat)
      requires Valid() && i < j < |history|
      requires history[i].Asked? && history[i].asked == account && history[i].accepted
      requires history[j].Asked? && history[j].asked == account && history[j].accepted
      ensures exists k :: i < k < j && history[k].Issued? && history[k].account == account
    {
      var k := AcceptedOncePerIssue(history, account, i, j);
    }
  }
}
