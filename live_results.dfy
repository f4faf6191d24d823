/**
 * The live-result registry of backend/main.py: `game_connections`, a table from
 * game id to the list of open connections watching that game. A connection
 * is appended on connect, its first occurrence removed on disconnect, and a
 * broadcast sends to the list of one game, in order. Connections are opaque;
 * whether each send succeeds is a parameter, and a failed send ends the loop.
 */
module LiveResults {

  /** The connections watching game `id`; a game with no entry has none. */
  function Subscribers<Conn>(table: map<int, seq<Conn>>, id: int): seq<Conn>
  {
    if id in table then table[id] else []
  }

  /**
   * The table after `c` connects to game `id`: the game's list is created empty
   * on first use, then `c` goes at its end; no other game's list changes.
   */
  function Connected<Conn>(table: map<int, seq<Conn>>, id: int, c: Conn): (t: map<int, seq<Conn>>)
    ensures t.Keys == table.Keys + {id}
    ensures t[id] == Subscribers(table, id) + [c]
    ensures forall other :: other != id && other in table ==> t[other] == table[other]
  {
    var start := if id in table then table else table[id := []];
    start[id := start[id] + [c]]
  }

  /** Where the first occurrence of `c` in `s` sits. */
  function FirstIndex<Conn(==)>(s: seq<Conn>, c: Conn): (i: nat)
    requires c in s
    ensures i < |s| && s[i] == c && c !in s[..i]
  {
    if s[0] == c then 0
    else
      var j := FirstIndex(s[1..], c);
      assert s[..j + 1] == [s[0]] + s[1..][..j];
      j + 1
  }

  /** `list.remove`: drops the first occurrence of `c`; the caller must make sure there is one. */
  function RemoveFirst<Conn(==)>(s: seq<Conn>, c: Conn): (r: seq<Conn>)
    requires c in s
    ensures |r| == |s| - 1
    ensures multiset(r) == multiset(s) - multiset{c}
    ensures exists i :: 0 <= i < |s| && s[i] == c && c !in s[..i] && r == s[..i] + s[i + 1..]
  {
    var i := FirstIndex(s, c);
    assert s == s[..i] + [c] + s[i + 1..];
    s[..i] + s[i + 1..]
  }

  /** Removing the connection just appended, when it was not already in the list, gives the list back. */
  lemma RemoveLastAppended<Conn>(s: seq<Conn>, c: Conn)
    requires c !in s
    ensures RemoveFirst(s + [c], c) == s
  {
    assert FirstIndex(s + [c], c) == |s|;
    assert (s + [c])[..|s|] == s;
  }

  /** The table after `c` disconnects from game `id`: the first occurrence of `c` leaves that game's list. */
  function Disconnected<Conn(==)>(table: map<int, seq<Conn>>, id: int, c: Conn): (t: map<int, seq<Conn>>)
    requires id in table && c in table[id]
    ensures t.Keys == table.Keys
    ensures multiset(t[id]) == multiset(table[id]) - multiset{c}
    ensures exists i :: 0 <= i < |table[id]| && table[id][i] == c && c !in table[id][..i] &&
                        t[id] == table[id][..i] + table[id][i + 1..]
    ensures forall other :: other != id && other in table ==> t[other] == table[other]
  {
    table[id := RemoveFirst(table[id], c)]
  }

  /** A connection that joins and then leaves, without having been there before, leaves the game's list as it was. */
  lemma DisconnectUndoesConnect<Conn>(table: map<int, seq<Conn>>, id: int, c: Conn)
    requires c !in Subscribers(table, id)
    ensures var t := Connected(table, id, c);
            id in t && c in t[id] &&
            Disconnected(t, id, c) == table[id := Subscribers(table, id)]
  {
    var t := Connected(table, id, c);
    var before := Subscribers(table, id);
    assert t[id] == before + [c];
    assert c in t[id] by {
      assert t[id][|before|] == c;
    }
    RemoveLastAppended(before, c);
    assert Disconnected(t, id, c) == t[id := before];
    var start := if id in table then table else table[id := []];
    assert t == start[id := before + [c]];
    assert t[id := before] == start[id := before];
  }

  /** The registry that the websocket endpoint and the broadcast share. */
  class Registry<Conn(==)> {
    var table: map<int, seq<Conn>>

    /** The registry starts with no game. */
    constructor()
      ensures table == map[]
    {
      table := map[];
    }

    /** A connection for game `gameId` is accepted: the game's list is created if missing, then appended to. */
    method Connect(gameId: int, c: Conn)
      modifies this
      ensures table == Connected(old(table), gameId, c)
    {
      if gameId !in table {
        table := table[gameId := []];
      }
      table := table[gameId := table[gameId] + [c]];
    }

    /** A connection for game `gameId` closed: its first occurrence leaves the list (`list.remove` raises when it is absent). */
    method Disconnect(gameId: int, c: Conn)
      requires gameId in table && c in table[gameId]
      modifies this
      ensures table == Disconnected(old(table), gameId, c)
    {
      table := table[gameId := RemoveFirst(table[gameId], c)];
    }

    /**
     * `broadcast_result`: sends to each connection of game `gameId` in list
     * order; `sendOk(i)` says whether the i-th send succeeds. `visited` lists
     * the connections a send was attempted to, and `completed` is false when a
     * failed send ended the loop early.
     */
    method Broadcast(gameId: int, sendOk: nat -> bool) returns (visited: seq<Conn>, completed: bool)
      ensures var subs := Subscribers(table, gameId);
              |visited| <= |subs| && visited == subs[..|visited|]
      ensures completed <==> forall i :: 0 <= i < |Subscribers(table, gameId)| ==> sendOk(i)
      ensures completed ==> visited == Subscribers(table, gameId)
      ensures gameId !in table ==> visited == [] && completed
      ensures !completed ==>
                |visited| > 0 && !sendOk(|visited| - 1) &&
                forall i :: 0 <= i < |visited| - 1 ==> sendOk(i)
    {
      visited := [];
      if gameId in table {
        var subs := table[gameId];
        for i := 0 to |subs|
          invariant visited == subs[..i]
          invariant forall j :: 0 <= j < i ==> sendOk(j)
        {
          visited := visited + [subs[i]];
          if !sendOk(i) {
            return visited, false;
          }
        }
        assert subs[..|subs|] == subs;
      }
      completed := true;
    }
  }
}
