/** Record shapes of the HTTP layer: the `sessions` and `nodes` tables, the
    request bodies the handlers accept, the response bodies they return, the
    closed enumerations for a node's type and status, and the HTTP errors. */
module Schema {

  datatype Option<+T> = None | Some(value: T)

  /** An error raised to the client: FastAPI's `HTTPException`, or the 500
      response an unhandled exception inside a handler turns into. */
  datatype HttpError = HttpError(status: nat, detail: string)

  /** What a handler either returns or raises. */
  datatype Result<+T> = Success(value: T) | Failure(error: HttpError)

  const SessionNameRequired := HttpError(400, "Session name is required")
  const NoUpdatableFields := HttpError(400, "No updatable fields provided")
  const SessionNotFound := HttpError(404, "Session not found")
  const NodeNotFound := HttpError(404, "Node not found")
  const InternalServerError := HttpError(500, "Internal Server Error")

  /** Longest session name a `SessionCreate` body accepts. */
  const MaxSessionNameLength := 200
  /** Longest node title a `NodeCreate` body accepts. */
  const MaxNodeTitleLength := 300

  /** A clock reading; only the order of readings matters to the handlers. */
  type Timestamp = nat

  /** Row ids: SQLite `INTEGER PRIMARY KEY` values, compared as integers. */
  type SessionId = int
  type NodeId = int

  datatype NodeType = Question | Decision | Task

  datatype NodeStatus = Open | InProgress | Blocked | Done

  /** The text stored in the `type` column for each node type. */
  function TypeName(t: NodeType): string {
    match t
    case Question => "question"
    case Decision => "decision"
    case Task => "task"
  }

  /** Accepts exactly the strings of the `NodeType` literal (and of the
      table's CHECK constraint). */
  function ParseType(s: string): (r: Option<NodeType>)
    ensures r.Some? ==> TypeName(r.value) == s
  {
    if s == "question" then Some(Question)
    else if s == "decision" then Some(Decision)
    else if s == "task" then Some(Task)
    else None
  }

  /** The text stored in the `status` column for each status. */
  function StatusName(st: NodeStatus): string {
    match st
    case Open => "open"
    case InProgress => "in_progress"
    case Blocked => "blocked"
    case Done => "done"
  }

  /** Accepts exactly the strings of the `NodeStatus` literal (and of the
      table's CHECK constraint). */
  function ParseStatus(s: string): (r: Option<NodeStatus>)
    ensures r.Some? ==> StatusName(r.value) == s
  {
    if s == "open" then Some(Open)
    else if s == "in_progress" then Some(InProgress)
    else if s == "blocked" then Some(Blocked)
    else if s == "done" then Some(Done)
    else None
  }

  /** Parsing and naming are inverse: a string is accepted exactly when it
      is the name of a type, and then it parses to that type. */
  lemma TypeNameRoundTrip(s: string, t: NodeType)
    ensures ParseType(s) == Some(t) <==> s == TypeName(t)
  {
  }

  /** A string is accepted exactly when it is the name of a status, and then
      it parses to that status. */
  lemma StatusNameRoundTrip(s: string, st: NodeStatus)
    ensures ParseStatus(s) == Some(st) <==> s == StatusName(st)
  {
  }

  /** A row of the `sessions` table, without its id (the id is the key under
      which the table stores it). `name` and `created_at` are NOT NULL. */
  datatype SessionRow = SessionRow(
    name: string,
    startedAt: Option<Timestamp>,
    endedAt: Option<Timestamp>,
    createdAt: Timestamp)

  /** The `SessionOut` response body. */
  datatype SessionOut = SessionOut(
    id: SessionId,
    name: string,
    startedAt: Option<Timestamp>,
    endedAt: Option<Timestamp>,
    createdAt: Timestamp)

  /** A row of the `nodes` table, without its id. `session_id`, `type`,
      `title`, `status`, `created_at` and `updated_at` are NOT NULL. */
  datatype NodeRow = NodeRow(
    sessionId: SessionId,
    nodeType: NodeType,
    title: string,
    status: NodeStatus,
    rationale: Option<string>,
    owner: Option<string>,
    priority: Option<int>,
    contextPrompt: Option<string>,
    createdAt: Timestamp,
    updatedAt: Timestamp)

  /** The `NodeOut` response body. */
  datatype NodeOut = NodeOut(
    id: NodeId,
    sessionId: SessionId,
    nodeType: NodeType,
    title: string,
    status: NodeStatus,
    rationale: Option<string>,
    owner: Option<string>,
    priority: Option<int>,
    contextPrompt: Option<string>,
    createdAt: Timestamp,
    updatedAt: Timestamp)

  /** The `NodeCreate` request body; `status` is `None` when the client left
      it out, in which case the model's default `"open"` applies. */
  datatype NodeCreate = NodeCreate(
    sessionId: SessionId,
    nodeType: NodeType,
    title: string,
    status: Option<NodeStatus>,
    rationale: Option<string>,
    owner: Option<string>,
    priority: Option<int>,
    contextPrompt: Option<string>)

  /** One field of a PATCH body: left out of the JSON, or present with a
      value that may be `null`. */
  datatype Field<+T> = Unset | Set(value: Option<T>)

  /** The `NodeUpdate` request body, with `exclude_unset` distinguishing a
      field left out from a field sent as `null`. */
  datatype NodeUpdate = NodeUpdate(
    status: Field<NodeStatus>,
    rationale: Field<string>,
    owner: Field<string>,
    priority: Field<int>)

  /** The row a `SessionOut` was made from (its id dropped). */
  function SessionRowOf(s: SessionOut): SessionRow {
    SessionRow(s.name, s.startedAt, s.endedAt, s.createdAt)
  }

  /** `_rows_to_sessions`: one `SessionOut` per fetched row, in the order
      the rows were fetched, each carrying the row's id and columns. */
  function RowsToSessions(rows: seq<(SessionId, SessionRow)>): (r: seq<SessionOut>)
    ensures |r| == |rows|
    ensures forall i :: 0 <= i < |rows| ==> r[i].id == rows[i].0 && SessionRowOf(r[i]) == rows[i].1
  {
    seq(|rows|, i requires 0 <= i < |rows| =>
      SessionOut(rows[i].0, rows[i].1.name, rows[i].1.startedAt, rows[i].1.endedAt, rows[i].1.createdAt))
  }

  /** The row a `NodeOut` was made from (its id dropped). */
  function NodeRowOf(n: NodeOut): NodeRow {
    NodeRow(n.sessionId, n.nodeType, n.title, n.status, n.rationale, n.owner,
            n.priority, n.contextPrompt, n.createdAt, n.updatedAt)
  }

  /** `_row_to_node`: the response carries the row's id and every column of
      the row unchanged. */
  function RowToNode(id: NodeId, row: NodeRow): (r: NodeOut)
    ensures r.id == id && NodeRowOf(r) == row
  {
    NodeOut(id, row.sessionId, row.nodeType, row.title, row.status, row.rationale,
            row.owner, row.priority, row.contextPrompt, row.createdAt, row.updatedAt)
  }

  /** A response body determines the id and row it was made from, so
      `_row_to_node` loses nothing. */
  lemma RowToNodeInjective(id1: NodeId, row1: NodeRow, id2: NodeId, row2: NodeRow)
    ensures RowToNode(id1, row1) == RowToNode(id2, row2) <==> id1 == id2 && row1 == row2
  {
  }
}
