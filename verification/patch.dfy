/** The partial update behind `PATCH /api/nodes/{node_id}`: which columns a
    `NodeUpdate` body assigns, and what those assignments do to a row. */
module Patch {
  import opened Schema

  /** The columns a PATCH body may touch, in the order the handler scans them. */
  datatype Column = StatusColumn | RationaleColumn | OwnerColumn | PriorityColumn

  const UpdatableColumns: seq<Column> := [StatusColumn, RationaleColumn, OwnerColumn, PriorityColumn]

  /** One `column = ?` item of the UPDATE statement, with its bound value
      (`None` is SQL NULL). `AssignUpdatedAt` is the trailing
      `updated_at = datetime('now')` item. */
  datatype Assignment =
    | AssignStatus(status: Option<NodeStatus>)
    | AssignRationale(rationale: Option<string>)
    | AssignOwner(owner: Option<string>)
    | AssignPriority(priority: Option<int>)
    | AssignUpdatedAt(now: Timestamp)

  /** The assignment the handler adds for `column`: one exactly when the
      body contains that field, carrying the value sent. */
  function AssignmentFor(body: NodeUpdate, column: Column): (r: seq<Assignment>)
    ensures |r| <= 1
  {
    match column
    case StatusColumn => if body.status.Set? then [AssignStatus(body.status.value)] else []
    case RationaleColumn => if body.rationale.Set? then [AssignRationale(body.rationale.value)] else []
    case OwnerColumn => if body.owner.Set? then [AssignOwner(body.owner.value)] else []
    case PriorityColumn => if body.priority.Set? then [AssignPriority(body.priority.value)] else []
  }

  /** The assignments collected after scanning `columns` in order. */
  function Assignments(body: NodeUpdate, columns: seq<Column>): seq<Assignment> {
    if columns == [] then []
    else Assignments(body, columns[..|columns| - 1]) + AssignmentFor(body, columns[|columns| - 1])
  }

  /** True iff the body holds at least one updatable field. */
  predicate Provided(body: NodeUpdate) {
    body.status.Set? || body.rationale.Set? || body.owner.Set? || body.priority.Set?
  }

  /** The scan finds nothing to update exactly when no field was sent: the
      condition of the handler's 400 response. */
  lemma NoAssignmentsIffNoneProvided(body: NodeUpdate)
    ensures Assignments(body, UpdatableColumns) == [] <==> !Provided(body)
  {
    ScanAllColumns(body);
  }

  /** Scanning the four columns collects their assignments in scan order. */
  lemma ScanAllColumns(body: NodeUpdate)
    ensures Assignments(body, UpdatableColumns) ==
      AssignmentFor(body, StatusColumn) + AssignmentFor(body, RationaleColumn)
      + AssignmentFor(body, OwnerColumn) + AssignmentFor(body, PriorityColumn)
  {
    var c1, c2, c3 := [StatusColumn], [StatusColumn, RationaleColumn], [StatusColumn, RationaleColumn, OwnerColumn];
    assert c1[..0] == [] && c2[..1] == c1 && c3[..2] == c2 && UpdatableColumns[..3] == c3;
    assert Assignments(body, c1) == AssignmentFor(body, StatusColumn);
    assert Assignments(body, c2) == Assignments(body, c1) + AssignmentFor(body, RationaleColumn);
    assert Assignments(body, c3) == Assignments(body, c2) + AssignmentFor(body, OwnerColumn);
  }

  /** The UPDATE statement applied to one row. A NULL bound to the NOT NULL
      `status` column makes SQLite abort the statement (an IntegrityError
      that the handler does not catch, hence a 500); otherwise every
      assignment overwrites its column. */
  function ApplyAssignments(row: NodeRow, assignments: seq<Assignment>): Result<NodeRow>
    decreases |assignments|
  {
    if assignments == [] then Success(row)
    else
      match assignments[0]
      case AssignStatus(st) =>
        if st.None? then Failure(InternalServerError)
        else ApplyAssignments(row.(status := st.value), assignments[1..])
      case AssignRationale(v) => ApplyAssignments(row.(rationale := v), assignments[1..])
      case AssignOwner(v) => ApplyAssignments(row.(owner := v), assignments[1..])
      case AssignPriority(v) => ApplyAssignments(row.(priority := v), assignments[1..])
      case AssignUpdatedAt(t) => ApplyAssignments(row.(updatedAt := t), assignments[1..])
  }

  /** The body would write NULL into the NOT NULL `status` column. */
  predicate NullStatus(body: NodeUpdate) {
    body.status == Set(None)
  }

  /** A field's new value: the one sent, if the field was sent. */
  function Overwrite<T>(current: Option<T>, field: Field<T>): Option<T> {
    if field.Set? then field.value else current
  }

  /** The row a successful update leaves, stated field by field: exactly the
      sent fields among status, rationale, owner and priority take their new
      values, `updated_at` becomes `now`, and id-independent identity
      columns (session, type, title, context prompt, creation time) stay. */
  function Patched(row: NodeRow, body: NodeUpdate, now: Timestamp): (r: NodeRow)
    requires !NullStatus(body)
    ensures r.sessionId == row.sessionId && r.nodeType == row.nodeType && r.title == row.title
    ensures r.contextPrompt == row.contextPrompt && r.createdAt == row.createdAt
    ensures r.updatedAt == now
    ensures r.status == (if body.status.Set? then body.status.value.value else row.status)
    ensures r.rationale == (if body.rationale.Set? then body.rationale.value else row.rationale)
    ensures r.owner == (if body.owner.Set? then body.owner.value else row.owner)
    ensures r.priority == (if body.priority.Set? then body.priority.value else row.priority)
  {
    NodeRow(
      row.sessionId, row.nodeType, row.title,
      if body.status.Set? then body.status.value.value else row.status,
      Overwrite(row.rationale, body.rationale),
      Overwrite(row.owner, body.owner),
      Overwrite(row.priority, body.priority),
      row.contextPrompt, row.createdAt, now)
  }

  /** The UPDATE the handler builds does what the field-by-field reading
      says: it fails on a NULL status and otherwise yields `Patched`. */
  lemma {:induction false} ApplyMatchesPatched(row: NodeRow, body: NodeUpdate, now: Timestamp)
    ensures NullStatus(body) ==>
      ApplyAssignments(row, Assignments(body, UpdatableColumns) + [AssignUpdatedAt(now)]) == Failure(InternalServerError)
    ensures !NullStatus(body) ==>
      ApplyAssignments(row, Assignments(body, UpdatableColumns) + [AssignUpdatedAt(now)]) == Success(Patched(row, body, now))
  {
    ScanAllColumns(body);
    var s := AssignmentFor(body, StatusColumn);
    var ra := AssignmentFor(body, RationaleColumn);
    var o := AssignmentFor(body, OwnerColumn);
    var p := AssignmentFor(body, PriorityColumn);
    var tail := [AssignUpdatedAt(now)];
    assert Assignments(body, UpdatableColumns) + tail == s + (ra + (o + (p + tail)));
    var r1 := if body.status.Set? && body.status.value.Some? then row.(status := body.status.value.value) else row;
    var r2 := r1.(rationale := Overwrite(r1.rationale, body.rationale));
    var r3 := r2.(owner := Overwrite(r2.owner, body.owner));
    var r4 := r3.(priority := Overwrite(r3.priority, body.priority));
    assert ApplyAssignments(r4, tail) == Success(r4.(updatedAt := now));
    ApplyPrefix(r3, p, r4, tail);
    ApplyPrefix(r2, o, r3, p + tail);
    ApplyPrefix(r1, ra, r2, o + (p + tail));
    if !NullStatus(body) {
      ApplyPrefix(row, s, r1, ra + (o + (p + tail)));
    }
  }

  /** Applying at most one non-failing assignment in front of the rest. */
  lemma ApplyPrefix(row: NodeRow, head: seq<Assignment>, after: NodeRow, rest: seq<Assignment>)
    requires |head| <= 1
    requires head == [] ==> after == row
    requires head != [] ==> ApplyAssignments(row, head) == Success(after)
    ensures ApplyAssignments(row, head + rest) == ApplyAssignments(after, rest)
  {
    if head != [] {
      assert (head + rest)[1..] == rest;
    } else {
      assert head + rest == rest;
    }
  }
}
