# Atrium decision sessions: session and node store

This project models the HTTP layer of Atrium, a service that records
decision sessions and their nodes (questions, decisions and tasks). The
model covers the handlers of `interfaces/http/main.py` that create, list,
look up and update sessions and nodes. The SQLite database behind them
becomes two in-memory tables: one maps session ids to session rows, the
other maps node ids to node rows. Each table has an AUTOINCREMENT counter
that hands out fresh ids.

Modules:

- `Text` (`text.dfy`) models Python's `str.strip()`. It removes the
  characters for which `str.isspace()` holds from both ends. The handlers
  apply it to session names and node titles.
- `Schema` (`schema.dfy`) holds the table rows and the request and response
  bodies. It also holds the closed enumerations for node type and node
  status, with their stored names, and the HTTP errors. The row mappers
  `_rows_to_sessions` and `_row_to_node` live here too.
- `Queries` (`queries.dfy`) holds the read-only handlers `list_sessions`,
  `get_session` and `get_node`, written as functions of the tables. The SQL
  ordering `datetime(created_at) DESC, id DESC` is a selection sort over
  the map. The sort is proved to list every session exactly once, in
  strictly decreasing order.
- `Patch` (`patch.dfy`) models the partial update of `update_node`. It
  gives the list of `column = ?` assignments built from the fields present
  in the body, and the effect of the UPDATE statement on one row.
- `Handlers` (`handlers.dfy`) holds the class `Store`, which owns the two
  tables and the two counters. The handlers that write are methods of
  `Store`: `create_session`, `create_session_form`, `create_node` and
  `update_node`. `update_node` keeps its loop over the four field names.

Time is a `Timestamp` (a natural number) passed in by the caller. It stands
for a clock that never goes back. The store keeps a ghost `clock`, the
latest time written, and every handler requires `clock <= now`. Under that
requirement, sessions with larger ids are never created earlier. So "newest
first" coincides with "largest id first" (`ListedByDescendingId`).

Some behaviours of the code are modelled as written:

- `create_session` through the JSON API only checks the length of the name
  before stripping. A name made only of spaces is therefore stored as the
  empty string. Only the form handler rejects blank names.
- `update_node` with `"status": null` in the body passes validation. It
  then binds NULL to the NOT NULL `status` column. SQLite aborts the
  statement with an IntegrityError that the handler does not catch, so the
  client gets a 500 and nothing changes.
- `create_session_form` strips the name first and only then builds a
  `SessionCreate`. A stripped name longer than 200 characters therefore
  fails validation inside the handler, which is a 500, and no session is
  created.
- `update_node` returns the 400 "No updatable fields provided" before it
  looks the node up, even when the node id does not exist.

## Model

| member | source | states |
|---|---|---|
| `Text.TrimStartSpec` | interfaces/http/main.py:120 | Removing leading whitespace keeps a suffix of the input. Everything dropped is whitespace, and the result is empty or starts with a non-whitespace character. |
| `Text.TrimEndSpec` | interfaces/http/main.py:120 | Removing trailing whitespace keeps a prefix of the input. Everything dropped is whitespace, and the result is empty or ends with a non-whitespace character. |
| `Text.StripIsInfix` | interfaces/http/main.py:120 | `strip()` returns the infix between a whitespace-only prefix and a whitespace-only suffix. The result neither starts nor ends with whitespace. |
| `Text.StripEmptyIffBlank` | interfaces/http/main.py:120-122 | A name strips to the empty string exactly when it is whitespace only. This is the condition under which the form handler answers 400. |
| `Text.StripIdempotent` | interfaces/http/main.py:120-124 | Stripping twice gives the same result as stripping once. So the second strip in `create_session` leaves the form's cleaned name unchanged. |
| `Text.StripFixesTrimmed` | interfaces/http/main.py:155 | A name without whitespace at either end is stored exactly as sent. |
| `Schema.ParseType` | interfaces/http/main.py:26 | Only the strings "question", "decision" and "task" are accepted as a node type, each as the type it names. |
| `Schema.ParseStatus` | interfaces/http/main.py:27 | Only the strings "open", "in_progress", "blocked" and "done" are accepted as a status, each as the status it names. |
| `Schema.TypeNameRoundTrip` | interfaces/http/db.py:32 | A string parses to a node type exactly when it is that type's stored name. |
| `Schema.StatusNameRoundTrip` | interfaces/http/db.py:34 | A string parses to a status exactly when it is that status's stored name. |
| `Schema.RowsToSessions` | interfaces/http/main.py:74-84 | The mapper gives one `SessionOut` per row, in row order. Each one carries that row's id and columns unchanged. |
| `Schema.RowToNode` | interfaces/http/main.py:87-100 | The `NodeOut` carries the row's id, and dropping the id gives back the row. |
| `Schema.RowToNodeInjective` | interfaces/http/main.py:87-100 | Two responses are equal exactly when their ids and rows are equal, so the mapper loses nothing. |
| `Queries.SortedSessionRows` | interfaces/http/main.py:136-142 | The query returns every stored session exactly once, with its stored row. The rows are in strictly decreasing (created_at, id) order. |
| `Queries.ListSessions` | interfaces/http/main.py:133-143 | The list has one entry per stored session, and each entry is that session's stored record. Ids are distinct. Entries are ordered by `created_at` descending, with ties broken by id descending. |
| `Queries.ListSessionsComplete` | interfaces/http/main.py:133-143 | Every stored session appears in the list. |
| `Queries.NewestListedFirst` | interfaces/http/main.py:140 | A session with the largest id that was created no earlier than any other is listed first. |
| `Queries.InsertedNewestListedFirst` | interfaces/http/main.py:146-166 | Suppose a session is inserted under an id above all stored ids, at a time no earlier than any stored creation time. Then the list starts with exactly that session's record. |
| `Queries.SingleSessionListed` | tests/test_sessions_and_nodes.py:19-31 | With a single stored session, the list is exactly that session. |
| `Queries.ListedByDescendingId` | interfaces/http/main.py:140 | Suppose creation times never decrease as ids grow. Then the list is in strictly decreasing id order. |
| `Queries.GetSession` | interfaces/http/main.py:169-182 | The lookup succeeds exactly when the id is stored, and it returns the stored record under that id. Otherwise it fails with 404 "Session not found". |
| `Queries.GetSessionMatchesList` | interfaces/http/main.py:133-182 | Looking up any listed session's id returns the same record the list holds. |
| `Queries.GetNode` | interfaces/http/main.py:228-244 | The lookup succeeds exactly when the id is stored, and it returns the stored node under that id. Otherwise it fails with 404 "Node not found". |
| `Patch.ScanAllColumns` | interfaces/http/main.py:253-256 | The loop collects one assignment per field present in the body, in the order status, rationale, owner, priority. |
| `Patch.NoAssignmentsIffNoneProvided` | interfaces/http/main.py:253-259 | The scan finds nothing to update exactly when none of the four fields is in the body. |
| `Patch.Patched` | interfaces/http/main.py:248-272 | After an update, each field among status, rationale, owner and priority that the body sent has the sent value. Every other column keeps its value: session, type, title, context prompt and `created_at`. `updated_at` becomes the update time. |
| `Patch.ApplyMatchesPatched` | interfaces/http/main.py:261-272 | The UPDATE statement that the handler builds fails with a 500 when it would write NULL into `status`. Otherwise it produces exactly the `Patched` row. |
| `Handlers.InsertSessionKeepsValid` | interfaces/http/db.py:20-27 | Inserting a session under the next id, no earlier than the clock, keeps both table invariants. |
| `Handlers.InsertNodeKeepsValid` | interfaces/http/db.py:29-43 | Inserting a node of a stored session under the next id keeps both table invariants. |
| `Handlers.ReplaceNodeKeepsValid` | interfaces/http/db.py:29-43 | Overwriting a node, with the same session and creation time and a later update time, keeps both table invariants. |
| `Handlers.Store.constructor` | interfaces/http/db.py:19-43 | A new database has both tables empty and both counters at 1. |
| `Handlers.Store.CreateSession` | interfaces/http/main.py:146-166 | Adds exactly one session, under a fresh id. It has the stripped name, `started_at` set and `ended_at` absent. The method returns the stored record. Nodes and all other sessions are unchanged. |
| `Handlers.Store.CreateSessionForm` | interfaces/http/main.py:118-130 | A blank name fails with 400 and creates nothing. A stripped name over 200 characters fails with 500 and creates nothing. Otherwise it inserts the stripped name under the next id and returns the full session list. |
| `Handlers.Store.CreateNode` | interfaces/http/main.py:185-225 | An unknown session fails with 404 and inserts nothing. Otherwise it adds one node under a fresh id. The node has the stripped title, the given status or "open" by default, and the sent optional fields. Sessions are unchanged. The returned node equals the stored one. |
| `Handlers.Store.UpdateNode` | interfaces/http/main.py:247-284 | With no updatable field the result is 400, even for an unknown id. An unknown node gives 404, and a null status gives 500. None of these changes anything. Otherwise only the target node changes, to `Patched`, and the stored node is returned. |

## Left out

- HTML pages and templates are not modelled. This covers `home`, `sessions_page` and the template response of `create_session_form`. The form handler's model returns the session list that the page would render.
- The FastAPI application wiring and lifespan are not modelled, and neither are `init_db`, schema migrations or database path resolution. They are framework and storage plumbing.
- The tests in `tests/test_event_ingest.py` call event-ingestion, graph and replay-prompt endpoints. `interfaces/http/main.py` has no handler for any of them, so they are not part of this model.
- The `choices`, `edges` and `event_log` tables are not modelled. Neither are the `external_id` and `external_ref` columns or their unique indexes. No modelled handler reads or writes them.
- Request-body validation for the JSON endpoints happens before a handler runs, and gives a 422. The model states it as preconditions instead: a session name of 1 to 200 characters and a node title of 1 to 300 characters. Enum strings are typed values, and `ParseType`/`ParseStatus` give the accepted sets.
- Handlers.Store.CreateSessionForm: the framework's own handling of a missing or empty form field is not modelled. That handling rejects the request before the handler runs. The model lets every string reach the handler, so an empty name gets the handler's 400 rather than the framework's response.
- Handlers.Store.CreateSession: one clock reading `now` gives both `started_at` and `created_at`. The source takes `started_at` from Python's UTC clock and `created_at` from SQLite's `datetime('now')`. These are two readings in different text formats that may differ by a second.
- Timestamps are natural numbers, not SQLite text. `datetime()` normalisation and the ISO formats are not modelled.
- Integers are unbounded. SQLite's 64-bit INTEGER is not modelled. So the driver's OverflowError for an out-of-range `priority` is missing, and so is id exhaustion at 2^63 - 1.
- Each handler runs as one sequential transaction. Concurrent requests and SQLite locking are not modelled. A handler that fails leaves no change, matching `get_conn`, which commits only when no exception occurs.
- SQLite does not enforce the foreign key from nodes to sessions unless it is switched on. The model's invariant that every node's session exists holds anyway, because `create_node` checks the session and no handler deletes one.
