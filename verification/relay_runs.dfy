/** Whole runs of the relay: any list of connections, packets, losses and failed answers. */
module RelayRuns {
  import opened Bytes
  import opened GameServers
  import opened Relays
  import opened Sessions
  import opened Wrappers

  /** A turn names the connection by the order of arrival; its packet is None when the connection is lost. */
  datatype Step =
    | Accept(blowfishKey: seq<byte>)
    | Turn(k: nat, packet: Option<Option<(byte, Body)>>, sendable: bool)

  /** How many connections a list of steps accepts. */
  function Accepts(steps: seq<Step>): (n: nat)
    ensures n <= |steps|
  {
    if |steps| == 0 then 0 else Accepts(steps[..|steps| - 1]) + if steps[|steps| - 1].Accept? then 1 else 0
  }

  lemma AcceptsStep(steps: seq<Step>, i: nat)
    requires i < |steps|
    ensures Accepts(steps[..i + 1]) == Accepts(steps[..i]) + if steps[i].Accept? then 1 else 0
  {
    assert steps[..i + 1][..i] == steps[..i];
  }

  /** Whether a step is a turn of this connection. */
  predicate TurnOf(step: Step, k: int) {
    step.Turn? && step.k == k
  }

  /** One step. A turn of a connection that is not there or not open any more is skipped. */
  method Apply(s: Server, step: Step, conns: seq<GSConnection>, running: set<GSConnection>)
    returns (conns': seq<GSConnection>, running': set<GSConnection>)
    requires s.Valid() && s.open == running && forall c :: c in running ==> c in conns
    modifies s`open, conns, s.table`servers, s.table`low, s.table`high, s.sessionManager
    modifies s.Servers()`port, s.Servers()`maxPlayers, s.Servers()`hosts, s.Servers()`isAuthed, s.Servers()`status
    modifies s.Servers()`showingBrackets, s.Servers()`serverType, s.Servers()`ageLimit
    ensures s.Valid() && s.open == running'
    ensures conns <= conns' && |conns'| == |conns| + if step.Accept? then 1 else 0
    ensures step.Accept? ==> fresh(conns'[|conns|]) && conns'[|conns|].state == GSConnected && running' == running + {conns'[|conns|]}
    ensures step.Turn? ==> running - (if step.k < |conns| then {conns[step.k]} else {}) <= running' <= running
    ensures step.Turn? && step.packet.None? && step.k < |conns| ==> conns[step.k] !in running'
    ensures step.Turn? && step.k < |conns| && conns[step.k] in running ==>
              var c := conns[step.k];
              && (c in running' <==>
                    old(s.Served(c, step.packet, step.sendable)) && !old(s.Denied(c, step.packet.value)))
              && (c in running' ==> c.state == if old(c.state) == GSConnected then BFConnected else Authed)
    ensures forall c :: c in conns && !(step.Turn? && step.k < |conns| && c == conns[step.k]) ==> c.state == old(c.state)
    ensures forall info :: info in s.Servers() ==> info in old(s.Servers()) || fresh(info)
    ensures forall id :: id in old(s.table.servers) ==> id in s.table.servers && s.table.servers[id] == old(s.table.servers)[id]
  {
    hide Server.Keyed, Server.Attached, Server.Exclusive, Server.InTurn, Server.Answered, Server.Denied, Server.Refused;
    conns', running' := conns, running;
    match step
    case Accept(blowfishKey) =>
      var conn := s.Accept(blowfishKey);
      conns' := conns + [conn];
      running' := running + {conn};
    case Turn(k, packet, sendable) =>
      if k < |conns| && conns[k] in running {
        var reply, ok := s.Turn(conns[k], packet, sendable);
        if !ok {
          running' := running - {conns[k]};
        }
      }
  }

  /**
   * After every run from a registry whose servers are all down, a server is up iff one open connection has it. Every connection
   * accepted is there; one that got no turn is open in its first state, and one that was lost is not open.
   */
  method Run(table: GameServerTable, sessionManager: SessionManager, steps: seq<Step>)
    returns (s: Server, conns: seq<GSConnection>)
    requires table.Valid()
    requires forall id :: id in table.servers ==> table.servers[id].id == id && !table.servers[id].isAuthed
    modifies table`servers, table`low, table`high, sessionManager
    modifies Infos(table.servers)`port, Infos(table.servers)`maxPlayers, Infos(table.servers)`hosts
    modifies Infos(table.servers)`isAuthed, Infos(table.servers)`status, Infos(table.servers)`showingBrackets
    modifies Infos(table.servers)`serverType, Infos(table.servers)`ageLimit
    ensures fresh(s) && s.table == table && s.sessionManager == sessionManager
    ensures s.Valid() && s.UpIffOneConnection()
    ensures forall id :: id in old(table.servers) ==> id in table.servers && table.servers[id] == old(table.servers)[id]
    ensures |conns| == Accepts(steps) && forall c :: c in s.open ==> c in conns
    ensures forall k :: 0 <= k < |conns| && (forall j :: 0 <= j < |steps| ==> !TurnOf(steps[j], k)) ==>
              conns[k] in s.open && conns[k].state == GSConnected
    ensures forall j :: 0 <= j < |steps| && steps[j].Turn? && steps[j].packet.None? && steps[j].k < Accepts(steps[..j]) ==>
              steps[j].k < |conns| && conns[steps[j].k] !in s.open
  {
    hide Server.Valid, Server.UpIffOneConnection, Accepts, Infos;
    s := new Server(table, sessionManager);
    conns := [];
    var running: set<GSConnection> := {};
    NoAccepts(steps);
    for i := 0 to |steps|
      invariant fresh(s) && s.table == table && s.sessionManager == sessionManager
      invariant s.Valid() && s.open == running
      invariant |conns| == Accepts(steps[..i]) && fresh(conns)
      invariant forall k, l :: 0 <= k < l < |conns| ==> conns[k] != conns[l]
      invariant forall c :: c in running ==> c in conns
      invariant forall info :: info in s.Servers() ==> info in old(Infos(table.servers)) || fresh(info)
      invariant forall id :: id in old(table.servers) ==> id in table.servers && table.servers[id] == old(table.servers)[id]
      invariant forall k :: 0 <= k < |conns| && (forall j :: 0 <= j < i ==> !TurnOf(steps[j], k)) ==>
                  conns[k] in running && conns[k].state == GSConnected
      invariant forall j :: 0 <= j < i && steps[j].Turn? && steps[j].packet.None? && steps[j].k < Accepts(steps[..j]) ==>
                  steps[j].k < |conns| && conns[steps[j].k] !in running
    {
      AcceptsStep(steps, i);
      assert steps[i].Turn? ==> TurnOf(steps[i], steps[i].k);
      conns, running := Apply(s, steps[i], conns, running);
    }
    assert steps[..|steps|] == steps;
    s.ValidMeansOneConnection();
  }

  lemma NoAccepts(steps: seq<Step>)
    ensures Accepts(steps[..0]) == 0
  {
  }
}
