/** The read-only handlers `list_sessions`, `get_session` and `get_node`, as
    functions of the tables they query. */
module Queries {
  import opened Schema

  /** `ORDER BY datetime(created_at) DESC, id DESC`: `a` comes before `b`
      when it was created later, or at the same time with a larger id. */
  predicate ListedBefore(a: (SessionId, SessionRow), b: (SessionId, SessionRow)) {
    a.1.createdAt > b.1.createdAt || (a.1.createdAt == b.1.createdAt && a.0 > b.0)
  }

  /** `id` is the session that the ordering puts first. */
  predicate IsNewest(sessions: map<SessionId, SessionRow>, id: SessionId) {
    id in sessions &&
    forall k :: k in sessions && k != id ==> ListedBefore((id, sessions[id]), (k, sessions[k]))
  }

  /** Every non-empty table has a session that the ordering puts first. */
  lemma {:induction false} NewestExists(sessions: map<SessionId, SessionRow>)
    requires |sessions| > 0
    ensures exists id :: IsNewest(sessions, id)
    decreases |sessions|
  {
    if forall k :: k !in sessions {
      assert false;
    }
    var k :| k in sessions;
    var rest := sessions - {k};
    assert rest.Keys == sessions.Keys - {k};
    if |rest| == 0 {
      assert rest.Keys == {};
      assert IsNewest(sessions, k);
    } else {
      NewestExists(rest);
      var best :| IsNewest(rest, best);
      var winner := if ListedBefore((best, sessions[best]), (k, sessions[k])) then best else k;
      forall j | j in sessions && j != winner
        ensures ListedBefore((winner, sessions[winner]), (j, sessions[j]))
      {
        if j != k && j != best {
          assert j in rest && rest[j] == sessions[j];
        }
      }
      assert IsNewest(sessions, winner);
    }
  }

  /** The ids of a sequence of fetched rows. */
  function Ids(rows: seq<(SessionId, SessionRow)>): set<SessionId> {
    if rows == [] then {} else {rows[0].0} + Ids(rows[1..])
  }

  /** Every id in `Ids(rows)` is the id of some row. */
  lemma {:induction false} IdIndex(rows: seq<(SessionId, SessionRow)>, id: SessionId) returns (i: nat)
    requires id in Ids(rows)
    ensures i < |rows| && rows[i].0 == id
  {
    if rows[0].0 == id {
      i := 0;
    } else {
      var j := IdIndex(rows[1..], id);
      i := j + 1;
    }
  }

  /** `rows` lists the table `sessions`: every stored session exactly once,
      with its stored row, strictly ordered by `ListedBefore`. */
  predicate Lists(rows: seq<(SessionId, SessionRow)>, sessions: map<SessionId, SessionRow>) {
    && |rows| == |sessions|
    && Ids(rows) == sessions.Keys
    && (forall i :: 0 <= i < |rows| ==> rows[i].0 in sessions && rows[i].1 == sessions[rows[i].0])
    && (forall i, j :: 0 <= i < j < |rows| ==> ListedBefore(rows[i], rows[j]))
  }

  /** Putting the newest session in front of a listing of the others lists
      the whole table. */
  lemma PrependNewest(sessions: map<SessionId, SessionRow>, id: SessionId, tail: seq<(SessionId, SessionRow)>)
    requires IsNewest(sessions, id)
    requires Lists(tail, sessions - {id})
    ensures Lists([(id, sessions[id])] + tail, sessions)
  {
    var rest := sessions - {id};
    var rows := [(id, sessions[id])] + tail;
    assert rest.Keys == sessions.Keys - {id};
    assert rows[1..] == tail;
    assert Ids(rows) == sessions.Keys;
    assert forall i :: 0 < i < |rows| ==> rows[i] == tail[i - 1];
    forall i | 0 <= i < |rows| ensures rows[i].0 in sessions && rows[i].1 == sessions[rows[i].0] {
      if i > 0 {
        assert rows[i].0 in rest;
      }
    }
  }

  /** The rows the `list_sessions` query fetches: every stored session
      exactly once, as (id, row) pairs, strictly ordered by `ListedBefore`. */
  function SortedSessionRows(sessions: map<SessionId, SessionRow>): (rows: seq<(SessionId, SessionRow)>)
    ensures Lists(rows, sessions)
    decreases |sessions|
  {
    if |sessions| == 0 then
      assert sessions.Keys == {};
      []
    else
      NewestExists(sessions);
      var id :| IsNewest(sessions, id);
      var rest := sessions - {id};
      assert rest.Keys == sessions.Keys - {id};
      var tail := SortedSessionRows(rest);
      PrependNewest(sessions, id, tail);
      [(id, sessions[id])] + tail
  }

  /** `list_sessions`: every stored session exactly once, newest first, ties
      broken by the larger id. */
  function ListSessions(sessions: map<SessionId, SessionRow>): (r: seq<SessionOut>)
    ensures |r| == |sessions|
    ensures forall i :: 0 <= i < |r| ==> r[i].id in sessions && SessionRowOf(r[i]) == sessions[r[i].id]
    ensures forall i, j :: 0 <= i < j < |r| ==> r[i].id != r[j].id
    ensures forall i, j :: 0 <= i < j < |r| ==>
      r[i].createdAt > r[j].createdAt || (r[i].createdAt == r[j].createdAt && r[i].id > r[j].id)
  {
    var rows := SortedSessionRows(sessions);
    var r := RowsToSessions(rows);
    assert forall i :: 0 <= i < |r| ==> r[i].id == rows[i].0 && r[i].createdAt == rows[i].1.createdAt;
    assert forall i, j :: 0 <= i < j < |r| ==> ListedBefore(rows[i], rows[j]);
    r
  }

  /** Every stored session is listed. */
  lemma ListSessionsComplete(sessions: map<SessionId, SessionRow>, id: SessionId) returns (i: nat)
    requires id in sessions
    ensures i < |ListSessions(sessions)| && ListSessions(sessions)[i].id == id
  {
    i := IdIndex(SortedSessionRows(sessions), id);
  }

  /** A session created no earlier than every other one, with a larger id
      than all of them (a fresh auto-increment id under a clock that does
      not go back), is the first one listed. */
  lemma NewestListedFirst(sessions: map<SessionId, SessionRow>, id: SessionId)
    requires id in sessions
    requires forall k :: k in sessions && k != id ==>
      k < id && sessions[k].createdAt <= sessions[id].createdAt
    ensures ListSessions(sessions) != [] && ListSessions(sessions)[0].id == id
  {
    var r := ListSessions(sessions);
    var i := ListSessionsComplete(sessions, id);
    assert i == 0;
  }

  /** Inserting a session under an id larger than every stored one, created
      no earlier than any of them, puts it first in the list. */
  lemma InsertedNewestListedFirst(sessions: map<SessionId, SessionRow>, id: SessionId, row: SessionRow)
    requires forall k :: k in sessions ==> k < id && sessions[k].createdAt <= row.createdAt
    ensures ListSessions(sessions[id := row]) != []
    ensures ListSessions(sessions[id := row])[0] == RowsToSessions([(id, row)])[0]
  {
    var updated := sessions[id := row];
    NewestListedFirst(updated, id);
    var first := ListSessions(updated)[0];
    assert first.id == id && SessionRowOf(first) == row;
  }

  /** With a single stored session, the list is exactly that session. */
  lemma SingleSessionListed(id: SessionId, row: SessionRow)
    ensures ListSessions(map[id := row]) == [RowsToSessions([(id, row)])[0]]
  {
    var r := ListSessions(map[id := row]);
    assert |map[id := row]| == 1 by {
      assert map[id := row].Keys == {id};
    }
    assert r[0].id == id;
  }

  /** When creation times never decrease as ids grow, "newest first" is
      exactly "largest id first". */
  lemma ListedByDescendingId(sessions: map<SessionId, SessionRow>)
    requires forall a, b :: a in sessions && b in sessions && a < b ==>
      sessions[a].createdAt <= sessions[b].createdAt
    ensures forall i, j :: 0 <= i < j < |ListSessions(sessions)| ==>
      ListSessions(sessions)[i].id > ListSessions(sessions)[j].id
  {
    var r := ListSessions(sessions);
    forall i, j | 0 <= i < j < |r| ensures r[i].id > r[j].id {
      assert sessions[r[i].id].createdAt == r[i].createdAt;
      assert sessions[r[j].id].createdAt == r[j].createdAt;
    }
  }

  /** `get_session`: the stored session when the id exists, a 404 otherwise. */
  function GetSession(sessions: map<SessionId, SessionRow>, id: SessionId): (r: Result<SessionOut>)
    ensures r.Success? <==> id in sessions
    ensures r.Success? ==> r.value.id == id && SessionRowOf(r.value) == sessions[id]
    ensures r.Failure? ==> r.error == SessionNotFound
  {
    if id in sessions then Success(RowsToSessions([(id, sessions[id])])[0])
    else Failure(SessionNotFound)
  }

  /** `get_session` and `list_sessions` agree: a session is found exactly
      when it is listed, and then as the same record. */
  lemma GetSessionMatchesList(sessions: map<SessionId, SessionRow>, i: nat)
    requires i < |ListSessions(sessions)|
    ensures GetSession(sessions, ListSessions(sessions)[i].id) == Success(ListSessions(sessions)[i])
  {
  }

  /** `get_node`: the stored node when the id exists, a 404 otherwise. */
  function GetNode(nodes: map<NodeId, NodeRow>, id: NodeId): (r: Result<NodeOut>)
    ensures r.Success? <==> id in nodes
    ensures r.Success? ==> r.value.id == id && NodeRowOf(r.value) == nodes[id]
    ensures r.Failure? ==> r.error == NodeNotFound
  {
    if id in nodes then Success(RowToNode(id, nodes[id])) else Failure(NodeNotFound)
  }
}
