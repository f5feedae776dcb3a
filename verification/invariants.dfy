/** Invariants of the items table and its change log that every request
    preserves, and what they give for every state reachable from an empty
    database. */
module Invariants {
  import opened Wrappers
  import opened Schema
  import opened ChangeLog
  import opened Service

  /** No two rows of the items table share a name. */
  ghost predicate UniqueNames(items: map<Id, Item>) {
    forall a, b :: a in items && b in items && a != b ==> items[a].name != items[b].name
  }

  /** Every row satisfies the payload constraints. */
  ghost predicate AllValid(items: map<Id, Item>) {
    forall id :: id in items ==> ValidItem(items[id])
  }

  /** What holds of every state the service reaches from an empty database:
      unique names, valid rows, gap-free (hence strictly increasing) sequence
      numbers, and a log
      whose replay reconstructs exactly the current items table. */
  ghost predicate Consistent(s: State) {
    && UniqueNames(s.items)
    && AllValid(s.items)
    && Dense(s.log)
    && Replay(s.log) == Some(s.items)
  }

  lemma InitConsistent()
    ensures Consistent(Init)
  {
  }

  /** Every request keeps names unique: a create or an update that would
      duplicate a name fails instead. */
  lemma HandleKeepsNamesUnique(s: State, req: Request)
    requires UniqueNames(s.items)
    ensures UniqueNames(Handle(s, req).state.items)
  {
    var r := Handle(s, req);
    if r.reply.Success? {
      var items' := r.state.items;
      match req
      case CreateRequest(id, p) =>
        forall a, b | a in items' && b in items' && a != b
          ensures items'[a].name != items'[b].name
        {
          if a == id {
            assert !NameInUse(s.items, p.name);
            assert b in s.items;
          } else if b == id {
            assert !NameInUse(s.items, p.name);
            assert a in s.items;
          }
        }
      case UpdateRequest(id, p) =>
        if s.items[id] != p {
          forall a, b | a in items' && b in items' && a != b
            ensures items'[a].name != items'[b].name
          {
            if a == id {
              assert !NameInUse(s.items - {id}, p.name);
              assert b in s.items - {id};
            } else if b == id {
              assert !NameInUse(s.items - {id}, p.name);
              assert a in s.items - {id};
            }
          }
        }
      case DeleteRequest(id) =>
    }
  }

  /** Every row that reaches the items table passed payload validation. */
  lemma HandleKeepsItemsValid(s: State, req: Request)
    requires AllValid(s.items)
    ensures AllValid(Handle(s, req).state.items)
  {
  }

  /** Every request keeps sequence numbers strictly increasing. */
  lemma HandleKeepsIncreasing(s: State, req: Request)
    requires StrictlyIncreasing(s.log)
    ensures StrictlyIncreasing(Handle(s, req).state.log)
  {
  }

  /** Every request keeps sequence numbers gap-free. */
  lemma HandleKeepsDense(s: State, req: Request)
    requires Dense(s.log)
    ensures Dense(Handle(s, req).state.log)
  {
  }

  /** If the log replays to the items table before a request, it does after:
      each event is the post-image of the row inserted or updated, or the
      pre-image of the row deleted, so the log never disagrees with the table. */
  lemma HandleKeepsReplay(s: State, req: Request)
    requires Replay(s.log) == Some(s.items)
    ensures Replay(Handle(s, req).state.log) == Some(Handle(s, req).state.items)
  {
  }

  lemma HandlePreservesConsistent(s: State, req: Request)
    requires Consistent(s)
    ensures Consistent(Handle(s, req).state)
  {
    HandleKeepsNamesUnique(s, req);
    HandleKeepsItemsValid(s, req);
    HandleKeepsDense(s, req);
    HandleKeepsReplay(s, req);
  }

  /** The state after handling `reqs` in order. The log only ever grows, and by
      at most one event per request. */
  function Run(s: State, reqs: seq<Request>): (r: State)
    ensures s.log <= r.log
    ensures |r.log| <= |s.log| + |reqs|
    decreases |reqs|
  {
    if |reqs| == 0 then s
    else Run(Handle(s, reqs[0]).state, reqs[1..])
  }

  lemma {:induction false} RunPreservesConsistent(s: State, reqs: seq<Request>)
    requires Consistent(s)
    ensures Consistent(Run(s, reqs))
    decreases |reqs|
  {
    if |reqs| > 0 {
      HandlePreservesConsistent(s, reqs[0]);
      RunPreservesConsistent(Handle(s, reqs[0]).state, reqs[1..]);
    }
  }

  /** Every state reachable from an empty database is consistent. */
  lemma ReachableConsistent(reqs: seq<Request>)
    ensures Consistent(Run(Init, reqs))
    ensures StrictlyIncreasing(Run(Init, reqs).log)
  {
    InitConsistent();
    RunPreservesConsistent(Init, reqs);
    DenseIsStrictlyIncreasing(Run(Init, reqs).log);
  }

  /** Events appended after an event never change it: every event of the log
      at one point is, unchanged, at the same position in every later log. */
  lemma RunNeverRewritesEvents(s: State, reqs: seq<Request>, k: nat)
    requires k < |s.log|
    ensures k < |Run(s, reqs).log| && Run(s, reqs).log[k] == s.log[k]
  {
  }

  /** Deleting an item keeps its history: every earlier event stays in place,
      and in a consistent state the event that inserted the item is among them. */
  lemma DeleteKeepsHistory(s: State, id: Id)
    requires Consistent(s)
    requires id in s.items
    ensures s.log <= DeleteItem(s, id).state.log
    ensures exists k :: 0 <= k < |s.log|
              && DeleteItem(s, id).state.log[k].itemId == id
              && DeleteItem(s, id).state.log[k].action == Insert
  {
    var log' := DeleteItem(s, id).state.log;
    ReplayedItemsWereInserted(s.log, id);
    var k :| 0 <= k < |s.log| && s.log[k].itemId == id && s.log[k].action == Insert;
    assert log'[..|s.log|] == s.log;
    assert log'[k] == s.log[k];
  }
}
