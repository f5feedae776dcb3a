# Change-data-capture model of the FastAPI/SQLite items service

The service keeps an `items` table: current rows keyed by a UUID id, each with
`name`, `description`, `price` and `tax`. It also keeps an append-only
`cdc_items` change log. Three SQLite triggers feed the log:

- AFTER INSERT logs the new row.
- AFTER UPDATE logs the row as updated.
- BEFORE DELETE logs the row as it was just before deletion.

The create, update and delete handlers drive those triggers inside one
transaction, and a failure rolls the transaction back.

This project models that core as pure Dafny functions over an immutable state
`State(items: map<Id, Item>, log: seq<Event>)`:

- `wrappers.dfy`: `Option` and `Result`.
- `schema.dfy`: the two tables' rows (`Item`, `Event`, `Action`), the payload
  validation `ValidItem`, and the row an INSERT stores (`InsertedRow`).
- `changelog.dfy`: the three triggers and the storage engine's rule for the next
  `cdc_id`. It also defines `Replay`, a reference reading of the log as a change
  stream. `Replay` rebuilds an items table from the events, starting from an
  empty one, and rejects any event that cannot follow the table before it.
- `service.dfy`: the request handlers `CreateItem`, `UpdateItem`, `DeleteItem`
  and `ListItems`, their HTTP status codes, and `Handle`, which dispatches one
  request.
- `invariants.dfy`: invariants every request preserves. `Run` folds a sequence
  of requests. The file shows that every state reachable from an empty database
  satisfies these conditions:
  - names are unique;
  - every row is valid;
  - `cdc_id`s are 1, 2, …, n;
  - replaying the log gives exactly the items table.
- `scenario.dfy`: one item's create, update and delete, worked through.

Modelling decisions, following the code:

- **Fresh id.** The id comes from the column default (a random UUID) and is a
  parameter here. It is not a precondition. An id already present fails as the
  primary-key violation it would be.
- **Server errors.** Every store-level failure is answered with 500, whatever its
  cause:
  - a duplicate name, which violates the unique constraint at commit;
  - a missing id on update, which fails at `setattr` on `None`;
  - a missing id on delete. The handler raises a 404 there, but its own
    `except Exception` catches it and answers 500.
  - On create, the except path fails with an undefined name before it reaches
    `rollback`. The uncommitted work is discarded when the session closes, so the
    outcome is the same: failure and no change.
- **Tax column default.** `tax` is optional in the payload. A payload `None`
  stands for an explicit JSON `null`; an omitted tax already becomes 0 by the
  payload default, so it is `Some(0.0)`. An INSERT leaves a `null` tax out, so
  the column default 0 applies (`InsertedRow`). An UPDATE writes a `null` tax as
  NULL. So a stored row's tax is an `Option<real>`.
- **`cdc_id` assignment.** The column is an integer primary key with no
  AUTOINCREMENT keyword, so SQLite assigns one past the current maximum, or 1 in
  an empty table (`NextCdcId`). A rolled-back insert consumes nothing.
- **No-op update (assumption).** This relies on the ORM's change tracking, which
  lives in SQLAlchemy, not in main.py. An update whose payload equals the stored
  row makes no net change. The ORM then issues no UPDATE statement, so no
  trigger fires and no event is logged. The handler still answers success.
  `UpdateItem` states the one-event guarantee only for updates that change the
  row.

## Model

| member | source | states |
|---|---|---|
| Schema.InsertedRow | main.py:33-39 | the stored row has the payload's name, description and price; an absent tax becomes the column default 0; a valid payload gives a valid row |
| Schema.ValidItem | main.py:57-61 | name at most 50 chars; description absent or at most 300; price > 0; tax absent or >= 0 |
| Schema.Tag | main.py:77-105 | each action's trigger string in the `action` column reads back as that action, so the three strings are distinct |
| Schema.ParseTag | main.py:51 | a column value names an action exactly when it is one of the three trigger strings |
| ChangeLog.MaxCdcId | main.py:44 | the result is at least every sequence number in the log and is one of them |
| ChangeLog.NextCdcId | main.py:44 | the next sequence number exceeds every one in the log, and is 1 for an empty log |
| ChangeLog.Capture | main.py:77-105 | a trigger appends exactly one event carrying the given id, snapshot and action, numbered above all earlier events, and leaves the earlier events as they were |
| ChangeLog.OnInsert | main.py:77-85 | the insert trigger appends one `insert` event whose snapshot is the new row |
| ChangeLog.OnUpdate | main.py:87-95 | the update trigger appends one `update` event whose snapshot is the row after the update |
| ChangeLog.OnDelete | main.py:97-105 | the delete trigger appends one `delete` event whose snapshot is the row before the delete |
| ChangeLog.AppendKeepsIncreasing | main.py:44 | appending through a trigger keeps sequence numbers strictly increasing in log order |
| ChangeLog.CaptureKeepsDense | main.py:44 | if sequence numbers are 1..n, the appended event gets n+1 |
| ChangeLog.DenseIsStrictlyIncreasing | main.py:44 | gap-free sequence numbers are strictly increasing |
| ChangeLog.ApplyEvent | main.py:77-105 | an event is accepted exactly when it fits the table: an insert of an absent id, an update of a present id, a delete whose snapshot is the current row; an insert adds the id with its snapshot, an update overwrites it, a delete removes it; nothing else changes |
| ChangeLog.ReplayedItemsWereInserted | main.py:77-85 | every row a log replays to has an `insert` event for its id in that log |
| Service.CreateItem | main.py:129-147 | succeeds exactly when the payload is valid, the id is unused and no row has the name; on success it adds exactly that row under the id, keeps every other row, and logs one `insert` event with the stored row; every failure leaves table and log unchanged, and a validation failure is reported as one |
| Service.UpdateItem | main.py:151-172 | succeeds exactly when the payload is valid, the id exists and no other row has the name (or the row is unchanged); on success it overwrites all four fields under the same id, keeps every other row, and, if the row changed, logs one `update` event with the new values; a missing id fails with no change |
| Service.DeleteItem | main.py:175-199 | succeeds exactly when the id exists; it then removes only that row and logs one `delete` event with the row's values before deletion; a missing id is a server error with no change |
| Service.NameInUse | main.py:36 | some row of the items table already carries the name, which the unique index on `name` refuses to duplicate |
| Service.ListItems | main.py:116-121 | the listing holds exactly the pairs of id and row present in the items table |
| Service.Status | main.py:129-199 | success replies are 2xx, validation failures 422, and every store-level failure, the missing-id delete included, is 500 |
| Service.Handle | main.py:129-199 | a failed request changes nothing; any request either leaves the log as it was or appends exactly one event for the requested id with the request's action |
| Invariants.InitConsistent | main.py:53-54 | an empty database satisfies the invariant |
| Invariants.HandleKeepsNamesUnique | main.py:36 | no request can make two rows share a name |
| Invariants.HandleKeepsItemsValid | main.py:57-61 | every row that reaches the table satisfies the payload constraints |
| Invariants.HandleKeepsIncreasing | main.py:44 | every request keeps sequence numbers strictly increasing |
| Invariants.HandleKeepsDense | main.py:44 | every request keeps sequence numbers gap-free |
| Invariants.HandleKeepsReplay | main.py:77-105 | if the log replays to the items table before a request, it does after: events carry post-images for insert and update and pre-images for delete |
| Invariants.HandlePreservesConsistent | main.py:129-199 | every request preserves the conjunction of the invariants |
| Invariants.Run | main.py:42-51 | over any sequence of requests, the old log is a prefix of the new one, which gains at most one event per request |
| Invariants.RunPreservesConsistent | main.py:129-199 | the invariant holds after any sequence of requests from a consistent state |
| Invariants.ReachableConsistent | main.py:53-54 | every state reachable from an empty database satisfies the invariant, and its sequence numbers strictly increase |
| Invariants.RunNeverRewritesEvents | main.py:42-51 | an event present at some point stays unchanged at the same position after any later requests |
| Invariants.DeleteKeepsHistory | main.py:175-185 | deleting an item keeps every earlier event, including the one that inserted it |
| Scenario.WidgetLifecycle | main.py:129-185 | create, reprice and delete of one item yields an empty table and three events numbered 1 to 3: insert and update with the written rows, delete with the pre-delete row |
| Scenario.DuplicateNameRejected | main.py:143-147 | a second create with the same name is a 500 failure that logs nothing |

## Left out

- HTTP and web plumbing are not modelled: routing, CORS, logging and the response message bodies. Replies are reduced to `Reply` and a status code.
- Session and engine management is not modelled: the SQLAlchemy session and the SQLite engine. A transaction is modelled as all or nothing.
- Storage I/O failures are not modelled. The only failures are validation, constraint violations and a missing row.
- `get_all_items` has an error path that refers to an undefined name. `ListItems` models only the successful read, which changes no state.
- The log's server `timestamp` column is omitted. It is wall-clock time.
- Random UUID generation is replaced by the `id` parameter of `CreateRequest`.
- Concurrency is not modelled. Requests are handled one at a time, in sequence.
- Floating-point behaviour is not modelled. Price and tax are reals because the code only compares them and tests them for equality. NaN fails both `gt=0` and `ge=0`, so it never passes validation. Infinity does pass: a JSON `1e999` parses as `inf`, which satisfies `price > 0` and `tax >= 0`. It lies outside `real`, so the model does not cover it. The code's comparisons and equality treat it like any other value.
- `String(n)` column widths are not modelled. SQLite does not enforce them. The length limits that matter are the payload validation limits in `ValidItem`.
- SQLite's rowid fallback at the largest 64-bit value is not modelled. It would pick a random unused number there, and the model's `cdc_id` is an unbounded integer.
- script.js is not part of this model. It is the browser client.
