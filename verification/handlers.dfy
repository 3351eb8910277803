/** The `sessions` and `nodes` tables and the handlers that write them:
    `create_session`, `create_session_form`, `create_node` and `update_node`.
    The read-only handlers are the functions of module `Queries`, applied to
    the store's tables. */
module Handlers {
  import opened Schema
  import opened Text
  import opened Queries
  import opened Patch

  /** The row `create_node` inserts: the trimmed title, the sent optional
      columns, status `"open"` unless one was sent, and both timestamps set
      to the insertion time. */
  function NewNode(payload: NodeCreate, now: Timestamp): NodeRow {
    NodeRow(
      payload.sessionId, payload.nodeType, Strip(payload.title),
      if payload.status.Some? then payload.status.value else Open,
      payload.rationale, payload.owner, payload.priority, payload.contextPrompt,
      now, now)
  }

  /** The `sessions` table invariant: ids are positive and below the next
      id to hand out, no handler sets `ended_at`, no creation time is later
      than the clock, and sessions with larger ids were created no earlier. */
  ghost predicate SessionsValid(sessions: map<SessionId, SessionRow>, nextId: SessionId, clock: Timestamp) {
    && 1 <= nextId
    && (forall id :: id in sessions ==>
          1 <= id < nextId && sessions[id].endedAt == None && sessions[id].createdAt <= clock)
    && (forall a, b :: a in sessions && b in sessions && a < b ==>
          sessions[a].createdAt <= sessions[b].createdAt)
  }

  /** The `nodes` table invariant: ids are positive and below the next id
      to hand out, every node belongs to a stored session, and a node was
      never updated before it was created nor after the clock. */
  ghost predicate NodesValid(nodes: map<NodeId, NodeRow>, sessions: map<SessionId, SessionRow>,
                             nextId: NodeId, clock: Timestamp) {
    && 1 <= nextId
    && forall id :: id in nodes ==>
         && 1 <= id < nextId && nodes[id].sessionId in sessions
         && nodes[id].createdAt <= nodes[id].updatedAt <= clock
  }

  /** Inserting a session under the next id, at a time no earlier than the
      clock, keeps both tables valid. */
  lemma InsertSessionKeepsValid(sessions: map<SessionId, SessionRow>, nodes: map<NodeId, NodeRow>,
                                nextSessionId: SessionId, nextNodeId: NodeId, clock: Timestamp,
                                row: SessionRow)
    requires SessionsValid(sessions, nextSessionId, clock) && NodesValid(nodes, sessions, nextNodeId, clock)
    requires clock <= row.createdAt && row.endedAt == None
    ensures SessionsValid(sessions[nextSessionId := row], nextSessionId + 1, row.createdAt)
    ensures NodesValid(nodes, sessions[nextSessionId := row], nextNodeId, row.createdAt)
  {
  }

  /** Inserting a node of a stored session under the next id, created and
      updated at a time no earlier than the clock, keeps the tables valid. */
  lemma InsertNodeKeepsValid(sessions: map<SessionId, SessionRow>, nodes: map<NodeId, NodeRow>,
                             nextSessionId: SessionId, nextNodeId: NodeId, clock: Timestamp,
                             row: NodeRow)
    requires SessionsValid(sessions, nextSessionId, clock) && NodesValid(nodes, sessions, nextNodeId, clock)
    requires row.sessionId in sessions && clock <= row.createdAt == row.updatedAt
    ensures SessionsValid(sessions, nextSessionId, row.createdAt)
    ensures NodesValid(nodes[nextNodeId := row], sessions, nextNodeId + 1, row.createdAt)
  {
  }

  /** Overwriting a stored node with a row of the same session and creation
      time, updated at a time no earlier than the clock, keeps the tables
      valid. */
  lemma ReplaceNodeKeepsValid(sessions: map<SessionId, SessionRow>, nodes: map<NodeId, NodeRow>,
                              nextSessionId: SessionId, nextNodeId: NodeId, clock: Timestamp,
                              id: NodeId, row: NodeRow)
    requires SessionsValid(sessions, nextSessionId, clock) && NodesValid(nodes, sessions, nextNodeId, clock)
    requires id in nodes && row.sessionId == nodes[id].sessionId && row.createdAt == nodes[id].createdAt
    requires clock <= row.updatedAt
    ensures SessionsValid(sessions, nextSessionId, row.updatedAt)
    ensures NodesValid(nodes[id := row], sessions, nextNodeId, row.updatedAt)
  {
  }

  /** The database: two tables keyed by id, with SQLite's AUTOINCREMENT
      counters. `clock` is the latest time written to any row. */
  class Store {
    var sessions: map<SessionId, SessionRow>
    var nodes: map<NodeId, NodeRow>
    var nextSessionId: SessionId
    var nextNodeId: NodeId
    ghost var clock: Timestamp

    /** Both table invariants hold. */
    ghost predicate Valid()
      reads this
    {
      SessionsValid(sessions, nextSessionId, clock) && NodesValid(nodes, sessions, nextNodeId, clock)
    }

    /** A freshly created database: both tables empty. */
    constructor ()
      ensures Valid()
      ensures sessions == map[] && nodes == map[]
      ensures nextSessionId == 1 && nextNodeId == 1 && clock == 0
    {
      sessions := map[];
      nodes := map[];
      nextSessionId := 1;
      nextNodeId := 1;
      clock := 0;
    }

    /** `create_session`: inserts one session under a fresh id with the
        stripped name, `started_at` set and `ended_at` absent, and returns
        the stored row, which is now the first one `list_sessions` returns. */
    method CreateSession(name: string, now: Timestamp) returns (s: SessionOut)
      requires Valid() && clock <= now
      requires 1 <= |name| <= MaxSessionNameLength
      modifies this
      ensures Valid() && clock == now
      ensures s.id == old(nextSessionId) && s.id !in old(sessions) && nextSessionId == s.id + 1
      ensures sessions == old(sessions)[s.id := SessionRow(Strip(name), Some(now), None, now)]
      ensures s.name == Strip(name) && s.startedAt == Some(now) && s.endedAt == None
      ensures nodes == old(nodes) && nextNodeId == old(nextNodeId)
      ensures GetSession(sessions, s.id) == Success(s)
    {
      var id := nextSessionId;
      var row := SessionRow(Strip(name), Some(now), None, now);
      InsertSessionKeepsValid(sessions, nodes, nextSessionId, nextNodeId, clock, row);
      sessions := sessions[id := row];
      nextSessionId := id + 1;
      clock := now;
      s := RowsToSessions([(id, row)])[0];
    }

    /** `create_session_form`: rejects a name that is blank once stripped
        with a 400 and creates nothing; otherwise creates the session from
        the stripped name (a stripped name over the `SessionCreate` length
        limit fails validation inside the handler, a 500, and creates
        nothing) and returns the session list the page renders. */
    method CreateSessionForm(name: string, now: Timestamp) returns (r: Result<seq<SessionOut>>)
      requires Valid() && clock <= now
      modifies this
      ensures Valid() && old(clock) <= clock <= now
      ensures nodes == old(nodes) && nextNodeId == old(nextNodeId)
      ensures AllSpace(name) ==>
        r == Failure(SessionNameRequired) && sessions == old(sessions) && nextSessionId == old(nextSessionId)
      ensures !AllSpace(name) && |Strip(name)| > MaxSessionNameLength ==>
        r == Failure(InternalServerError) && sessions == old(sessions) && nextSessionId == old(nextSessionId)
      ensures !AllSpace(name) && |Strip(name)| <= MaxSessionNameLength ==>
        && sessions == old(sessions)[old(nextSessionId) := SessionRow(Strip(name), Some(now), None, now)]
        && nextSessionId == old(nextSessionId) + 1
        && r == Success(ListSessions(sessions))
    {
      var cleaned := Strip(name);
      StripEmptyIffBlank(name);
      if cleaned == [] {
        return Failure(SessionNameRequired);
      }
      if |cleaned| > MaxSessionNameLength {
        return Failure(InternalServerError);
      }
      StripIdempotent(name);
      var _ := CreateSession(cleaned, now);
      r := Success(ListSessions(sessions));
    }

    /** `create_node`: a 404 that inserts nothing when the session does not
        exist; otherwise inserts one node under a fresh id with the stripped
        title, status `"open"` unless one was sent and the other fields as
        sent, and returns the stored row. */
    method CreateNode(payload: NodeCreate, now: Timestamp) returns (r: Result<NodeOut>)
      requires Valid() && clock <= now
      requires 1 <= |payload.title| <= MaxNodeTitleLength
      modifies this
      ensures Valid() && old(clock) <= clock <= now
      ensures sessions == old(sessions) && nextSessionId == old(nextSessionId)
      ensures payload.sessionId !in sessions ==>
        r == Failure(SessionNotFound) && nodes == old(nodes) && nextNodeId == old(nextNodeId)
      ensures payload.sessionId in sessions ==>
        && r.Success?
        && r.value.id == old(nextNodeId) && r.value.id !in old(nodes)
        && nodes == old(nodes)[r.value.id := NewNode(payload, now)]
        && nextNodeId == old(nextNodeId) + 1
        && GetNode(nodes, r.value.id) == r
      ensures r.Success? ==>
        && r.value.sessionId == payload.sessionId && r.value.nodeType == payload.nodeType
        && r.value.title == Strip(payload.title)
        && r.value.status == (if payload.status.Some? then payload.status.value else Open)
        && r.value.rationale == payload.rationale && r.value.owner == payload.owner
        && r.value.priority == payload.priority && r.value.contextPrompt == payload.contextPrompt
        && r.value.createdAt == now && r.value.updatedAt == now
    {
      if payload.sessionId !in sessions {
        return Failure(SessionNotFound);
      }
      var id := nextNodeId;
      InsertNodeKeepsValid(sessions, nodes, nextSessionId, nextNodeId, clock, NewNode(payload, now));
      nodes := nodes[id := NewNode(payload, now)];
      nextNodeId := id + 1;
      clock := now;
      r := Success(RowToNode(id, nodes[id]));
    }

    /** `update_node`: a 400 when the body holds none of the updatable
        fields, checked before any lookup; a 404 when the node does not
        exist; a 500 when the body sets `status` to null (the NOT NULL
        constraint aborts the UPDATE). In every failure nothing changes.
        Otherwise exactly the sent fields among status, rationale, owner and
        priority are overwritten, `updated_at` is refreshed, every other
        column and every other node stay as they were, and the stored row is
        returned. */
    method UpdateNode(nodeId: NodeId, body: NodeUpdate, now: Timestamp) returns (r: Result<NodeOut>)
      requires Valid() && clock <= now
      modifies this
      ensures Valid() && old(clock) <= clock <= now
      ensures sessions == old(sessions) && nextSessionId == old(nextSessionId) && nextNodeId == old(nextNodeId)
      ensures !Provided(body) ==> r == Failure(NoUpdatableFields) && nodes == old(nodes)
      ensures Provided(body) && nodeId !in old(nodes) ==> r == Failure(NodeNotFound) && nodes == old(nodes)
      ensures Provided(body) && nodeId in old(nodes) && NullStatus(body) ==>
        r == Failure(InternalServerError) && nodes == old(nodes)
      ensures Provided(body) && nodeId in old(nodes) && !NullStatus(body) ==>
        && nodes == old(nodes)[nodeId := Patched(old(nodes)[nodeId], body, now)]
        && r == GetNode(nodes, nodeId)
    {
      var updates: seq<Assignment> := [];
      var i := 0;
      while i < |UpdatableColumns|
        invariant 0 <= i <= |UpdatableColumns|
        invariant updates == Assignments(body, UpdatableColumns[..i])
        decreases |UpdatableColumns| - i
      {
        match UpdatableColumns[i] {
          case StatusColumn =>
            if body.status.Set? { updates := updates + [AssignStatus(body.status.value)]; }
          case RationaleColumn =>
            if body.rationale.Set? { updates := updates + [AssignRationale(body.rationale.value)]; }
          case OwnerColumn =>
            if body.owner.Set? { updates := updates + [AssignOwner(body.owner.value)]; }
          case PriorityColumn =>
            if body.priority.Set? { updates := updates + [AssignPriority(body.priority.value)]; }
        }
        assert UpdatableColumns[..i + 1][..i] == UpdatableColumns[..i];
        i := i + 1;
      }
      assert UpdatableColumns[..i] == UpdatableColumns;
      NoAssignmentsIffNoneProvided(body);
      if updates == [] {
        return Failure(NoUpdatableFields);
      }
      updates := updates + [AssignUpdatedAt(now)];

      if nodeId !in nodes {
        return Failure(NodeNotFound);
      }
      ApplyMatchesPatched(nodes[nodeId], body, now);
      var applied := ApplyAssignments(nodes[nodeId], updates);
      if applied.Failure? {
        return Failure(applied.error);
      }
      ReplaceNodeKeepsValid(sessions, nodes, nextSessionId, nextNodeId, clock, nodeId, applied.value);
      nodes := nodes[nodeId := applied.value];
      clock := now;
      r := Success(RowToNode(nodeId, nodes[nodeId]));
    }
  }

  /** Creating a session and then listing yields exactly that session. */
  method CreateAndListScenario() {
    var store := new Store();
    var a := store.CreateSession("Session A", 1);
    var listed := ListSessions(store.sessions);
    assert |store.sessions| == 1 by {
      assert store.sessions.Keys == {a.id};
    }
    assert |listed| == 1 && listed[0].id == a.id;
  }

  /** A node created in an existing session and then patched keeps the
      fields the patch did not send. */
  method NodeCrudScenario() {
    var store := new Store();
    var a := store.CreateSession("Session B", 1);
    var n := store.CreateNode(
      NodeCreate(a.id, Question, "Choose API contract", Some(Open),
                 Some("Need consistent event shape"), Some("human"), Some(2), None), 2);
    assert n.Success?;
    var p := store.UpdateNode(n.value.id, NodeUpdate(Set(Some(InProgress)), Unset, Set(Some("agent:codex")), Unset), 3);
    assert p.Success? && p.value.status == InProgress && p.value.owner == Some("agent:codex");
    assert p.value.rationale == Some("Need consistent event shape") && p.value.priority == Some(2);
  }

  /** A created node carries the title sent, already stripped. */
  method CreateNodeScenario() {
    var title := "Choose API contract";
    StripFixesTrimmed(title);
    var store := new Store();
    var a := store.CreateSession("Session B", 1);
    var n := store.CreateNode(NodeCreate(a.id, Question, title, None, None, None, None, None), 2);
    assert n.Success? && n.value.title == title && n.value.status == Open;
  }

  /** A PATCH with no field fails before the lookup, even for an unknown
      id; with a field, an unknown id is a 404. */
  method UpdateFailureScenario() {
    var store := new Store();
    var empty := store.UpdateNode(99, NodeUpdate(Unset, Unset, Unset, Unset), 1);
    assert empty == Failure(NoUpdatableFields);
    var missing := store.UpdateNode(99, NodeUpdate(Unset, Unset, Set(None), Unset), 1);
    assert missing == Failure(NodeNotFound);
  }

  /** The form creates a session from the stripped name and renders it. */
  method FormScenario() {
    var name := "  Session C ";
    assert !IsSpace(name[2]);
    var _ := StripIsInfix(name);
    var store := new Store();
    var page := store.CreateSessionForm(name, 1);
    assert page.Success?;
    assert |store.sessions| == 1 by {
      assert store.sessions.Keys == {1};
    }
    assert |page.value| == 1 && page.value[0].name == Strip(name);
  }

  /** The form rejects a blank name and creates nothing. */
  method BlankFormScenario() {
    var store := new Store();
    var blank := store.CreateSessionForm(" \t ", 1);
    assert AllSpace(" \t ");
    assert blank == Failure(SessionNameRequired);
    assert store.sessions == map[];
  }
}
