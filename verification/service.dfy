/** The request handlers of the items service as transitions of the database
    state: each takes the current `items` table and change log and returns the
    state after the request's transaction together with the reply. A failed
    request's transaction is rolled back (or discarded when the session
    closes), so its outcome carries the state it started from. */
module Service {
  import opened Wrappers
  import opened Schema
  import opened ChangeLog

  /** The committed contents of the two tables. */
  datatype State = State(items: map<Id, Item>, log: Log)

  /** A database with both tables empty. */
  const Init := State(map[], [])

  /** Why a store-level operation failed. */
  datatype Cause =
    | DuplicateId     // primary-key violation on `items.id`
    | DuplicateName   // unique-constraint violation on `items.name`
    | ItemNotFound    // no row with the requested id

  /** How a request can fail: rejected by payload validation before the
      handler runs, or failed inside the handler, which always answers
      Internal Server Error whatever the cause. */
  datatype Error = ValidationError | ServerError(cause: Cause)

  /** What a successful request answers. */
  datatype Reply = Created(itemId: Id, item: Item) | Updated(item: Item) | Deleted

  /** The state after a request and its reply. */
  datatype Outcome = Outcome(state: State, reply: Result<Reply, Error>)

  /** Some row of `items` carries `name`. */
  predicate NameInUse(items: map<Id, Item>, name: string) {
    exists id :: id in items && items[id].name == name
  }

  /** POST /items/: inserts the validated payload under the id the column
      default draws, and the insert trigger logs the new row. */
  function CreateItem(s: State, freshId: Id, payload: Item): (r: Outcome)
    ensures r.reply.Failure? ==> r.state == s
    ensures r.reply.Success? <==>
              ValidItem(payload) && freshId !in s.items && !NameInUse(s.items, payload.name)
    ensures r.reply == Failure(ValidationError) <==> !ValidItem(payload)
    ensures r.reply == Failure(ServerError(DuplicateId)) <==> ValidItem(payload) && freshId in s.items
    ensures r.reply.Success? ==>
              && r.reply.value == Created(freshId, payload)
              && r.state.items.Keys == s.items.Keys + {freshId}
              && r.state.items[freshId] == InsertedRow(payload)
              && (forall id :: id in s.items ==> r.state.items[id] == s.items[id])
              && AppendedOne(s.log, r.state.log, freshId, r.state.items[freshId], Insert)
  {
    if !ValidItem(payload) then Outcome(s, Failure(ValidationError))
    else if freshId in s.items then Outcome(s, Failure(ServerError(DuplicateId)))
    else if NameInUse(s.items, payload.name) then Outcome(s, Failure(ServerError(DuplicateName)))
    else
      var row := InsertedRow(payload);
      Outcome(State(s.items[freshId := row], OnInsert(s.log, freshId, row)),
              Success(Created(freshId, payload)))
  }

  /** PUT /items/{id}: overwrites all four fields of an existing row, and the
      update trigger logs the row as updated. A payload equal to the stored row
      makes no net change, so no UPDATE statement is issued and no event is
      logged. */
  function UpdateItem(s: State, id: Id, payload: Item): (r: Outcome)
    ensures r.reply.Failure? ==> r.state == s
    ensures r.reply.Success? <==>
              && ValidItem(payload)
              && id in s.items
              && (s.items[id] == payload || !NameInUse(s.items - {id}, payload.name))
    ensures r.reply == Failure(ValidationError) <==> !ValidItem(payload)
    ensures r.reply == Failure(ServerError(ItemNotFound)) <==> ValidItem(payload) && id !in s.items
    ensures r.reply.Success? ==>
              && r.reply.value == Updated(payload)
              && r.state.items.Keys == s.items.Keys
              && r.state.items[id] == payload
              && (forall other :: other in s.items && other != id ==> r.state.items[other] == s.items[other])
    ensures r.reply.Success? && s.items[id] == payload ==> r.state == s
    ensures r.reply.Success? && s.items[id] != payload ==> AppendedOne(s.log, r.state.log, id, payload, Update)
  {
    if !ValidItem(payload) then Outcome(s, Failure(ValidationError))
    else if id !in s.items then Outcome(s, Failure(ServerError(ItemNotFound)))
    else if s.items[id] == payload then Outcome(s, Success(Updated(payload)))
    else if NameInUse(s.items - {id}, payload.name) then Outcome(s, Failure(ServerError(DuplicateName)))
    else
      Outcome(State(s.items[id := payload], OnUpdate(s.log, id, payload)), Success(Updated(payload)))
  }

  /** DELETE /items/{id}: removes an existing row, and the delete trigger logs
      the row as it was just before. The not-found reply the handler raises is
      caught by its own generic handler and answered as a server error. */
  function DeleteItem(s: State, id: Id): (r: Outcome)
    ensures r.reply.Failure? ==> r.state == s
    ensures r.reply.Success? <==> id in s.items
    ensures r.reply.Failure? ==> r.reply.error == ServerError(ItemNotFound)
    ensures r.reply.Success? ==>
              && r.reply.value == Deleted
              && r.state.items.Keys == s.items.Keys - {id}
              && (forall other :: other in r.state.items ==> r.state.items[other] == s.items[other])
              && AppendedOne(s.log, r.state.log, id, s.items[id], Delete)
  {
    if id !in s.items then Outcome(s, Failure(ServerError(ItemNotFound)))
    else Outcome(State(s.items - {id}, OnDelete(s.log, id, s.items[id])), Success(Deleted))
  }

  /** One entry of the GET /items/ reply. */
  datatype ItemResponse = ItemResponse(itemId: Id, item: Item)

  /** GET /items/: every row of the items table with its id. */
  function ListItems(s: State): (r: set<ItemResponse>)
    ensures forall e :: e in r <==> e.itemId in s.items && s.items[e.itemId] == e.item
  {
    set id | id in s.items :: ItemResponse(id, s.items[id])
  }

  /** The HTTP status code a request is answered with. */
  function Status(reply: Result<Reply, Error>): (code: int)
    ensures reply.Success? <==> 200 <= code < 300
    ensures reply == Failure(ValidationError) <==> code == 422
    ensures (reply.Failure? && reply.error.ServerError?) <==> code == 500
  {
    match reply
    case Success(Created(_, _)) => 201
    case Success(Updated(_)) => 200
    case Success(Deleted) => 204
    case Failure(ValidationError) => 422
    case Failure(ServerError(_)) => 500
  }

  /** A request to the service. For a create, `id` is the UUID the id column
      default draws for the new row. */
  datatype Request = CreateRequest(id: Id, payload: Item) | UpdateRequest(id: Id, payload: Item) | DeleteRequest(id: Id)

  /** The action the trigger fired by a request records. */
  function ActionOf(req: Request): Action {
    match req
    case CreateRequest(_, _) => Insert
    case UpdateRequest(_, _) => Update
    case DeleteRequest(_) => Delete
  }

  /** Handles one request. Either the log is untouched or exactly one event,
      about the requested id and of the request's kind, is appended. */
  function Handle(s: State, req: Request): (r: Outcome)
    ensures r.reply.Failure? ==> r.state == s
    ensures r.state.log == s.log
            || (&& |r.state.log| == |s.log| + 1
                && r.state.log[..|s.log|] == s.log
                && r.state.log[|s.log|].itemId == req.id
                && r.state.log[|s.log|].action == ActionOf(req))
  {
    match req
    case CreateRequest(id, p) => CreateItem(s, id, p)
    case UpdateRequest(id, p) => UpdateItem(s, id, p)
    case DeleteRequest(id) => DeleteItem(s, id)
  }
}
