/** Login sessions: what the login server stores for an account and the relay asks about, and what a history of that implies. */
module Sessions {
  import opened Integers
  import opened Packets
  import opened Wrappers

  type Name = seq<scalar>

  datatype SessionKey = SessionKey(loginOkID1: int32, loginOkID2: int32, playOkID1: int32, playOkID2: int32) {
    predicate CheckLoginPair(ok1: int32, ok2: int32) {
      loginOkID1 == ok1 && loginOkID2 == ok2
    }

    predicate SamePlayPair(that: SessionKey) {
      playOkID1 == that.playOkID1 && playOkID2 == that.playOkID2
    }
  }

  datatype ClientState = Connected | AuthedGG | AuthedLogin

  class Client {
    const sessionID: int32
    var state: ClientState
    var sessionKey: SessionKey
    var account: Name

    constructor (sessionID: int32)
      ensures this.sessionID == sessionID && state == Connected && sessionKey == SessionKey(0, 0, 0, 0) && account == []
    {
      this.sessionID := sessionID;
      state := Connected;
      sessionKey := SessionKey(0, 0, 0, 0);
      account := [];
    }
  }

  datatype SessionInfo = SessionInfo(sessionKey: SessionKey, client: Client, createdAt: int)

  type SessionMap = map<Name, SessionInfo>

  /** Whether a key is good for an account: the login pair counts only when the licence is shown. */
  predicate Matches(m: SessionMap, account: Name, key: SessionKey, showLicence: bool) {
    && account in m
    && m[account].sessionKey.SamePlayPair(key)
    && (showLicence ==> m[account].sessionKey == key)
  }

  function Unexpired(m: SessionMap, ttl: int, now: int): SessionMap {
    map account | account in m && now - m[account].createdAt <= ttl :: m[account]
  }

  class SessionManager {
    var sessions: SessionMap

    constructor ()
      ensures sessions == map[]
    {
      sessions := map[];
    }

    method Store(account: Name, key: SessionKey, client: Client, now: int)
      modifies this
      ensures sessions == old(sessions)[account := SessionInfo(key, client, now)]
    {
      sessions := sessions[account := SessionInfo(key, client, now)];
    }

    method Validate(account: Name, key: SessionKey, showLicence: bool) returns (valid: bool)
      ensures valid <==> Matches(sessions, account, key, showLicence)
      ensures !showLicence ==>
                (valid <==> account in sessions && sessions[account].sessionKey.playOkID1 == key.playOkID1
                            && sessions[account].sessionKey.playOkID2 == key.playOkID2)
      ensures showLicence ==>
                (valid <==> account in sessions && sessions[account].sessionKey.playOkID1 == key.playOkID1
                            && sessions[account].sessionKey.playOkID2 == key.playOkID2
                            && sessions[account].sessionKey.loginOkID1 == key.loginOkID1
                            && sessions[account].sessionKey.loginOkID2 == key.loginOkID2)
    {
      if account !in sessions {
        return false;
      }
      var info := sessions[account];
      if showLicence {
        return info.sessionKey.loginOkID1 == key.loginOkID1 && info.sessionKey.loginOkID2 == key.loginOkID2
            && info.sessionKey.playOkID1 == key.playOkID1 && info.sessionKey.playOkID2 == key.playOkID2;
      }
      return info.sessionKey.playOkID1 == key.playOkID1 && info.sessionKey.playOkID2 == key.playOkID2;
    }

    method Remove(account: Name)
      modifies this
      ensures sessions == old(sessions) - {account}
    {
      sessions := sessions - {account};
    }

    /** Deletes while it walks, in no particular order. */
    method CleanExpired(ttl: int, now: int)
      modifies this
      ensures sessions == Unexpired(old(sessions), ttl, now)
      ensures forall a :: a in sessions <==> a in old(sessions) && now - old(sessions)[a].createdAt <= ttl
      ensures forall a :: a in sessions ==> sessions[a] == old(sessions)[a]
    {
      ghost var m := sessions;
      var todo := sessions.Keys;
      while todo != {}
        invariant todo <= m.Keys && sessions.Keys <= m.Keys
        invariant forall a :: a in m ==> (a in sessions <==> a in todo || now - m[a].createdAt <= ttl)
        invariant forall a :: a in sessions ==> sessions[a] == m[a]
        decreases |todo|
      {
        var account :| account in todo;
        todo := todo - {account};
        if now - sessions[account].createdAt > ttl {
          sessions := sessions - {account};
        }
      }
    }

    method Count() returns (count: nat)
      ensures count == |sessions|
    {
      count := 0;
      var todo := sessions.Keys;
      while todo != {}
        invariant todo <= sessions.Keys && count + |todo| == |sessions.Keys|
        decreases |todo|
      {
        var account :| account in todo;
        todo := todo - {account};
        count := count + 1;
      }
      assert |sessions.Keys| == |sessions|;
    }
  }

  // ---- histories ----

  /** Everything the login server and the relay do to sessions, or tell others about them. */
  datatype Event =
    | Issued(account: Name, info: SessionInfo)
    | PlayOkSent(client: Client, playOkID1: int32, playOkID2: int32)
    | Asked(asked: Name, key: SessionKey, accepted: bool)
    | Swept(ttl: int, now: int)

  type History = seq<Event>

  function Effect(m: SessionMap, e: Event): SessionMap {
    match e
    case Issued(account, info) => m[account := info]
    case PlayOkSent(_, _, _) => m
    case Asked(asked, _, accepted) => if accepted then m - {asked} else m
    case Swept(ttl, now) => Unexpired(m, ttl, now)
  }

  /** The sessions a history leaves. */
  function Replay(h: History): SessionMap {
    if |h| == 0 then map[] else Effect(Replay(h[..|h| - 1]), h[|h| - 1])
  }

  /** Whether an event may follow a history: a client logs in once, gets its own pair, and the relay answers truly. */
  ghost predicate MayFollow(h: History, e: Event) {
    match e
    case Issued(_, info) => forall i :: 0 <= i < |h| && h[i].Issued? ==> h[i].info.client != info.client
    case PlayOkSent(client, p1, p2) => exists i :: 0 <= i < |h| && HandsOut(h[i], client, p1, p2)
    case Asked(asked, key, accepted) => accepted <==> Matches(Replay(h), asked, key, false)
    case Swept(_, _) => true
  }

  predicate HandsOut(e: Event, client: Client, p1: int32, p2: int32) {
    e.Issued? && e.info.client == client && e.info.sessionKey.playOkID1 == p1 && e.info.sessionKey.playOkID2 == p2
  }

  ghost predicate Lawful(h: History) {
    |h| == 0 || (Lawful(h[..|h| - 1]) && MayFollow(h[..|h| - 1], h[|h| - 1]))
  }

  ghost predicate HasSession(h: History, client: Client) {
    exists i :: 0 <= i < |h| && h[i].Issued? && h[i].info.client == client
  }

  lemma HasSessionStep(h: History, e: Event)
    ensures forall c :: HasSession(h + [e], c) <==> HasSession(h, c) || (e.Issued? && e.info.client == c)
  {
    forall c
      ensures HasSession(h + [e], c) <==> HasSession(h, c) || (e.Issued? && e.info.client == c)
    {
      if i :| 0 <= i < |h| && h[i].Issued? && h[i].info.client == c {
        assert (h + [e])[i] == h[i];
      }
      if e.Issued? && e.info.client == c {
        assert (h + [e])[|h|] == e;
      }
    }
  }

  lemma HistoryStep(h: History, e: Event)
    ensures Lawful(h + [e]) <==> Lawful(h) && MayFollow(h, e)
    ensures Replay(h + [e]) == Effect(Replay(h), e)
  {
    assert (h + [e])[..|h|] == h;
  }

  lemma {:induction false} LawfulPrefix(h: History, n: nat)
    requires Lawful(h) && n <= |h|
    ensures Lawful(h[..n])
  {
    if n == |h| {
      assert h[..n] == h;
    } else {
      LawfulPrefix(h[..|h| - 1], n);
      assert h[..|h| - 1][..n] == h[..n];
    }
  }

  lemma LawfulAt(h: History, i: nat)
    requires Lawful(h) && i < |h|
    ensures MayFollow(h[..i], h[i]) && Replay(h[..i + 1]) == Effect(Replay(h[..i]), h[i])
  {
    LawfulPrefix(h, i + 1);
    assert h[..i + 1][..i] == h[..i] && h[..i + 1][i] == h[i];
  }

  /** A stored session was issued for its account, and nothing was issued for that account since. */
  lemma {:induction false} StoredWasIssued(h: History, account: Name) returns (i: nat)
    requires account in Replay(h)
    ensures i < |h| && h[i] == Issued(account, Replay(h)[account])
    ensures forall k :: i < k < |h| && h[k].Issued? ==> h[k].account != account
  {
    var last := h[|h| - 1];
    if last.Issued? && last.account == account {
      i := |h| - 1;
    } else {
      i := StoredWasIssued(h[..|h| - 1], account);
    }
  }

  /** Without a new issue, an account that has no session gets none. */
  lemma {:induction false} GoneStaysGone(h: History, account: Name, n: nat)
    requires n <= |h| && account !in Replay(h[..n])
    requires forall k :: n <= k < |h| && h[k].Issued? ==> h[k].account != account
    ensures account !in Replay(h)
    decreases |h|
  {
    if n == |h| {
      assert h[..n] == h;
    } else {
      assert h[..|h| - 1][..n] == h[..n];
      GoneStaysGone(h[..|h| - 1], account, n);
    }
  }

  lemma LaterIssueIsAnotherClients(h: History, i: nat, j: nat)
    requires Lawful(h) && i < j < |h| && h[i].Issued? && h[j].Issued?
    ensures h[i].info.client != h[j].info.client
  {
    LawfulAt(h, j);
    assert h[..j][i] == h[i];
  }

  /** In a lawful history a client has one session key at most. */
  lemma OneIssueEach(h: History, i: nat, j: nat)
    requires Lawful(h) && i < |h| && j < |h| && h[i].Issued? && h[j].Issued?
    requires h[i].info.client == h[j].info.client
    ensures i == j
  {
    if i < j {
      LaterIssueIsAnotherClients(h, i, j);
    } else if j < i {
      LaterIssueIsAnotherClients(h, j, i);
    }
  }

  /**
   * Between two acceptances for one account there is a login for that account: a session key is good for one player
   * authentication.
   */
  lemma AcceptedOncePerIssue(h: History, account: Name, i: nat, j: nat) returns (k: nat)
    requires Lawful(h) && i < j < |h|
    requires h[i].Asked? && h[i].asked == account && h[i].accepted
    requires h[j].Asked? && h[j].asked == account && h[j].accepted
    ensures i < k < j && h[k].Issued? && h[k].account == account
  {
    LawfulAt(h, i);
    LawfulAt(h, j);
    if forall k :: i < k < j && h[k].Issued? ==> h[k].account != account {
      assert h[..j][..i + 1] == h[..i + 1];
      GoneStaysGone(h[..j], account, i + 1);
      assert false;
    }
    k :| i < k < j && h[k].Issued? && h[k].account == account;
  }

  /** Whatever the relay accepts was issued for that account by its latest login before. */
  lemma AcceptedWasIssued(h: History, j: nat) returns (i: nat)
    requires Lawful(h) && j < |h| && h[j].Asked? && h[j].accepted
    ensures i < j && h[i].Issued? && h[i].account == h[j].asked
    ensures h[i].info.sessionKey.playOkID1 == h[j].key.playOkID1 && h[i].info.sessionKey.playOkID2 == h[j].key.playOkID2
    ensures forall k :: i < k < j && h[k].Issued? ==> h[k].account != h[j].asked
  {
    LawfulAt(h, j);
    i := StoredWasIssued(h[..j], h[j].asked);
    assert h[..j][i] == h[i];
    assert forall k :: i < k < j ==> h[..j][k] == h[k];
  }

  /** A pair sent in PlayOk is good for its client's account for as long as that client's session is the stored one. */
  lemma SentPairMatches(h: History, i: nat, account: Name, key: SessionKey)
    requires Lawful(h) && i < |h| && h[i].PlayOkSent?
    requires account in Replay(h) && Replay(h)[account].client == h[i].client
    requires key.playOkID1 == h[i].playOkID1 && key.playOkID2 == h[i].playOkID2
    ensures Matches(Replay(h), account, key, false)
  {
    LawfulAt(h, i);
    var issue :| 0 <= issue < i && HandsOut(h[..i][issue], h[i].client, h[i].playOkID1, h[i].playOkID2);
    var stored := StoredWasIssued(h, account);
    OneIssueEach(h, issue, stored);
  }
}
