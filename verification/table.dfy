/** The registry of game servers: a map by ID, and two machine words in which bit i says whether ID i is free. */
module GameServers {
  import opened Bytes
  import opened Integers
  import opened NumberTheory
  import opened Wrappers

  const ALL_ONES: uint64 := 0xFFFF_FFFF_FFFF_FFFF
  const MAX_ID: int := 127
  const STATUS_DOWN: int := 4

  class GameServerInfo {
    const hexID: seq<byte>
    var id: int
    var port: int
    var maxPlayers: int
    var status: int
    var serverType: int
    var ageLimit: int
    var showingBrackets: bool
    var hosts: seq<string>
    var isAuthed: bool

    constructor (id: int, hexID: seq<byte>)
      ensures this.id == id && this.hexID == hexID && !isAuthed && port == 0 && maxPlayers == 0 && status == 0
      ensures serverType == 0 && ageLimit == 0 && !showingBrackets && hosts == []
    {
      this.id := id;
      this.hexID := hexID;
      port, maxPlayers, status, isAuthed := 0, 0, 0, false;
      serverType, ageLimit, showingBrackets, hosts := 0, 0, false, [];
    }

    method SetID(id: int)
      modifies `id
      ensures this.id == id
    {
      this.id := id;
    }

    method SetAuthed(authed: bool)
      modifies `isAuthed
      ensures isAuthed == authed
    {
      isAuthed := authed;
    }

    method SetDown()
      modifies `isAuthed, `port, `status
      ensures !isAuthed && port == 0 && status == 4
    {
      isAuthed := false;
      port := 0;
      status := STATUS_DOWN;
    }
  }

  // ---- single bits of a word ----

  /** w | (1 << i) */
  function SetBit(w: nat, i: nat): nat {
    if i == 0 then w - w % 2 + 1 else 2 * SetBit(w / 2, i - 1) + w % 2
  }

  /** w &^ (1 << i) */
  function ClearBit(w: nat, i: nat): nat {
    if i == 0 then w - w % 2 else 2 * ClearBit(w / 2, i - 1) + w % 2
  }

  lemma {:induction false} SetBitChangesOneBit(w: nat, i: nat, j: nat)
    ensures Bit(SetBit(w, i), j) <==> j == i || Bit(w, j)
  {
    if i > 0 && j > 0 {
      SetBitChangesOneBit(w / 2, i - 1, j - 1);
    }
  }

  lemma {:induction false} ClearBitChangesOneBit(w: nat, i: nat, j: nat)
    ensures Bit(ClearBit(w, i), j) <==> j != i && Bit(w, j)
  {
    if i > 0 && j > 0 {
      ClearBitChangesOneBit(w / 2, i - 1, j - 1);
    }
  }

  lemma {:induction false} BitsStayInWidth(n: nat, w: nat, i: nat)
    requires w < Pow(2, n) && i < n
    ensures SetBit(w, i) < Pow(2, n) && ClearBit(w, i) <= w
  {
    if i > 0 {
      BitsStayInWidth(n - 1, w / 2, i - 1);
    }
  }

  lemma {:induction false} AllBitsSet(w: nat, n: nat, i: nat)
    requires w + 1 == Pow(2, n) && i < n
    ensures Bit(w, i)
    decreases n
  {
    if i > 0 {
      assert w / 2 + 1 == Pow(2, n - 1);
      AllBitsSet(w / 2, n - 1, i - 1);
    }
  }

  lemma Width64()
    ensures Pow(2, 64) == ALL_ONES + 1
  {
    hide Pow;
    BitWidths();
    PowAdd(2, 32, 32);
  }

  /** A shift by the whole width or more leaves no bit to set or clear. */
  function Marked(w: uint64, i: nat, free: bool): uint64 {
    Width64();
    if i >= 64 then w else (BitsStayInWidth(64, w, i); if free then SetBit(w, i) else ClearBit(w, i))
  }

  lemma MarkedChangesOneBit(w: uint64, i: nat, free: bool, j: nat)
    requires j < 64
    ensures Bit(Marked(w, i, free), j) <==> if j == i then free else Bit(w, j)
  {
    hide Bit, SetBit, ClearBit;
    if i < 64 {
      SetBitChangesOneBit(w, i, j);
      ClearBitChangesOneBit(w, i, j);
    }
  }

  // ---- the table ----

  /** The highest ID looked at when asked for one up to maxID; a maxID below 1 is taken for 63. */
  function Limit(maxID: int): (n: nat)
    ensures maxID >= 1 ==> n == if maxID < 127 then maxID else 127
    ensures maxID < 1 ==> n == 63
  {
    if 1 <= maxID <= 63 then maxID else if maxID < 64 then 63 else if maxID < MAX_ID then maxID else MAX_ID
  }

  class GameServerTable {
    var servers: map<int, GameServerInfo>
    var low: uint64
    var high: uint64

    /** What the words say about an ID they have a bit for. */
    predicate Free(id: int)
      requires 1 <= id <= MAX_ID
      reads `low, `high
    {
      if id < 64 then Bit(low, id) else Bit(high, id - 64)
    }

    /** The words agree with the map, and no ID is negative. */
    ghost predicate Valid()
      reads `servers, `low, `high
    {
      && (forall id :: id in servers ==> id >= 0)
      && forall id :: 1 <= id <= MAX_ID ==> (Free(id) <==> id !in servers)
    }

    constructor ()
      ensures Valid() && servers == map[]
    {
      servers := map[];
      low, high := ALL_ONES, ALL_ONES;
      new;
      Width64();
      forall i: nat | i < 64 ensures Bit(ALL_ONES, i) {
        AllBitsSet(ALL_ONES, 64, i);
      }
    }

    method MarkIDUsed(id: nat)
      modifies `low, `high
      ensures forall i :: 1 <= i <= MAX_ID ==> (Free(i) <==> i != id && old(Free(i)))
    {
      Mark(id, false);
    }

    method MarkIDFree(id: nat)
      modifies `low, `high
      ensures forall i :: 1 <= i <= MAX_ID ==> (Free(i) <==> i == id || old(Free(i)))
    {
      Mark(id, true);
    }

    /** The common part of the two: which word, and which bit of it. */
    method Mark(id: nat, free: bool)
      modifies `low, `high
      ensures forall i :: 1 <= i <= MAX_ID ==> (Free(i) <==> if i == id then free else old(Free(i)))
    {
      hide Bit, Marked;
      forall i: nat | i < 64
        ensures Bit(Marked(low, id, free), i) <==> if i == id then free else Bit(low, i)
        ensures id >= 64 ==> (Bit(Marked(high, id - 64, free), i) <==> if i == id - 64 then free else Bit(high, i))
      {
        MarkedChangesOneBit(low, id, free, i);
        if id >= 64 {
          MarkedChangesOneBit(high, id - 64, free, i);
        }
      }
      if id < 64 {
        low := Marked(low, id, free);
      } else {
        high := Marked(high, id - 64, free);
      }
    }

    method Register(id: nat, info: GameServerInfo) returns (ok: bool)
      requires Valid()
      modifies `servers, `low, `high
      ensures Valid()
      ensures ok <==> id !in old(servers)
      ensures servers == if ok then old(servers)[id := info] else old(servers)
    {
      if id in servers {
        return false;
      }
      servers := servers[id := info];
      MarkIDUsed(id);
      return true;
    }

    method GetByID(id: int) returns (r: Option<GameServerInfo>)
      ensures r == if id in servers then Some(servers[id]) else None
    {
      if id in servers {
        return Some(servers[id]);
      }
      return None;
    }

    /** The least ID of 1..Limit(maxID) that is not taken; false exactly when all of them are. */
    method RegisterWithFirstAvailableID(info: GameServerInfo, maxID: int) returns (id: int, ok: bool)
      requires Valid()
      modifies `servers, `low, `high, info`id
      ensures Valid()
      ensures ok <==> exists i :: 1 <= i <= Limit(maxID) && i !in old(servers)
      ensures !ok ==> servers == old(servers) && id == 0 && info.id == old(info.id)
      ensures ok ==> 1 <= id <= Limit(maxID) && id !in old(servers) && forall i :: 1 <= i < id ==> i in old(servers)
      ensures ok ==> servers == old(servers)[id := info] && info.id == id
    {
      hide Bit;
      id := FirstAvailableID(maxID);
      assert forall i :: 1 <= i <= MAX_ID && !Free(i) ==> i in servers;
      if id == 0 {
        return 0, false;
      }
      info.SetID(id);
      servers := servers[id := info];
      MarkIDUsed(id);
      return id, true;
    }

    method FirstAvailableID(maxID: int) returns (r: int)
      ensures r == 0 || 1 <= r <= Limit(maxID)
      ensures r != 0 ==> Free(r) && forall i :: 1 <= i < r ==> !Free(i)
      ensures r == 0 ==> forall i :: 1 <= i <= Limit(maxID) ==> !Free(i)
    {
      hide Bit;
      if 1 <= maxID && maxID <= 63 {
        var id := 1;
        while id <= maxID
          invariant 1 <= id <= maxID + 1
          invariant forall i :: 1 <= i < id ==> !Free(i)
        {
          if Bit(low, id) {
            return id;
          }
          id := id + 1;
        }
        return 0;
      }
      var id := 1;
      while id <= 63
        invariant 1 <= id <= 64
        invariant forall i :: 1 <= i < id ==> !Free(i)
      {
        if Bit(low, id) {
          return id;
        }
        id := id + 1;
      }
      while id <= maxID && id <= MAX_ID
        invariant 64 <= id <= MAX_ID + 1 && (id == 64 || id <= maxID + 1)
        invariant forall i :: 1 <= i < id ==> !Free(i)
      {
        if Bit(high, id - 64) {
          return id;
        }
        id := id + 1;
      }
      return 0;
    }

    method Remove(id: nat)
      requires Valid()
      modifies `servers, `low, `high
      ensures Valid()
      ensures servers == old(servers) - {id}
    {
      servers := servers - {id};
      MarkIDFree(id);
    }

    /** What rows that can all be read say of each ID: the last one counts. */
    static function HexIDs(rows: seq<Option<(nat, seq<byte>)>>): map<nat, seq<byte>>
      requires None !in rows
    {
      if |rows| == 0 then map[] else
        var last := rows[|rows| - 1].value;
        HexIDs(rows[..|rows| - 1])[last.0 := last.1]
    }

    static lemma {:induction false} EveryRowCounts(rows: seq<Option<(nat, seq<byte>)>>, i: nat)
      requires None !in rows && i < |rows|
      ensures rows[i].value.0 in HexIDs(rows)
    {
      if i < |rows| - 1 {
        EveryRowCounts(rows[..|rows| - 1], i);
      }
    }

    static lemma {:induction false} LastRowCounts(rows: seq<Option<(nat, seq<byte>)>>, id: nat) returns (i: nat)
      requires None !in rows && id in HexIDs(rows)
      ensures i < |rows| && rows[i].value == (id, HexIDs(rows)[id])
      ensures forall j :: i < j < |rows| ==> rows[j].value.0 != id
    {
      i := |rows| - 1;
      if rows[i].value.0 != id {
        i := LastRowCounts(rows[..|rows| - 1], id);
      }
    }

    /** A new entry under this ID, whatever there was before. */
    method LoadRow(id: nat, hexID: seq<byte>)
      requires Valid()
      modifies `servers, `low, `high
      ensures Valid() && id in servers && servers == old(servers)[id as int := servers[id]]
      ensures fresh(servers[id]) && servers[id].hexID == hexID && !servers[id].isAuthed && servers[id].id == id
    {
      var info := new GameServerInfo(id, hexID);
      servers := servers[id := info];
      MarkIDUsed(id);
    }

    /** Rows as the database yields them; one that cannot be read ends the load, and those before it stay. */
    method LoadFromDB(rows: seq<Option<(nat, seq<byte>)>>) returns (ok: bool)
      requires Valid()
      modifies `servers, `low, `high
      ensures Valid()
      ensures ok <==> None !in rows
      ensures forall id :: id in servers && fresh(servers[id]) ==> !servers[id].isAuthed && servers[id].id == id
      ensures exists k :: 0 <= k <= |rows| && None !in rows[..k] && (if ok then k == |rows| else k < |rows| && rows[k].None?)
                && servers.Keys == old(servers).Keys + HexIDs(rows[..k]).Keys
                && (forall id :: id in HexIDs(rows[..k]) ==> fresh(servers[id]) && servers[id].hexID == HexIDs(rows[..k])[id])
                && forall id :: id in old(servers) && id !in HexIDs(rows[..k]) ==> servers[id] == old(servers)[id]
    {
      hide GameServerTable.Valid;
      for k := 0 to |rows|
        invariant Valid() && None !in rows[..k]
        invariant servers.Keys == old(servers).Keys + HexIDs(rows[..k]).Keys
        invariant forall id :: id in servers && fresh(servers[id]) ==> !servers[id].isAuthed && servers[id].id == id
        invariant forall id :: id in HexIDs(rows[..k]) ==> fresh(servers[id]) && servers[id].hexID == HexIDs(rows[..k])[id]
        invariant forall id :: id in old(servers) && id !in HexIDs(rows[..k]) ==> servers[id] == old(servers)[id]
      {
        assert rows[..k + 1][..k] == rows[..k];
        if rows[k].None? {
          return false;
        }
        assert None !in rows[..k + 1];
        var (id, hexID) := rows[k].value;
        LoadRow(id, hexID);
      }
      assert rows[..|rows|] == rows;
      return true;
    }
  }

  /** A table with fewer servers than there are IDs to choose from has one to give. */
  lemma {:induction false} RoomMeansFree(keys: set<int>, n: nat)
    requires |keys| < n
    ensures exists i :: 1 <= i <= n && i !in keys
  {
    if n in keys {
      RoomMeansFree(keys - {n}, n - 1);
      var i :| 1 <= i <= n - 1 && i !in keys - {n};
    }
  }
}
