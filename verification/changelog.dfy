/** The append-only change log `cdc_items` and the three triggers on the
    `items` table that feed it. */
module ChangeLog {
  import opened Wrappers
  import opened Schema

  type Log = seq<Event>

  /** The largest sequence number in a non-empty log. */
  function MaxCdcId(log: Log): (m: int)
    requires |log| > 0
    ensures forall k :: 0 <= k < |log| ==> log[k].cdcId <= m
    ensures exists k :: 0 <= k < |log| && log[k].cdcId == m
  {
    var last := log[|log| - 1].cdcId;
    if |log| == 1 then last
    else
      var rest := MaxCdcId(log[..|log| - 1]);
      if last > rest then last else rest
  }

  /** The sequence number the storage engine assigns to the next appended row:
      one past the largest present, or 1 in an empty table. */
  function NextCdcId(log: Log): (n: int)
    ensures forall k :: 0 <= k < |log| ==> log[k].cdcId < n
    ensures |log| == 0 ==> n == 1
  {
    if |log| == 0 then 1 else MaxCdcId(log) + 1
  }

  /** `log'` is `log` followed by exactly one new event, with a sequence number
      above every earlier one, recording `action` on item `id` with snapshot `image`. */
  ghost predicate AppendedOne(log: Log, log': Log, id: Id, image: Item, action: Action) {
    && |log'| == |log| + 1
    && log'[..|log|] == log
    && log'[|log|].itemId == id
    && log'[|log|].image == image
    && log'[|log|].action == action
    && (forall k :: 0 <= k < |log| ==> log[k].cdcId < log'[|log|].cdcId)
  }

  /** The row a trigger inserts into the change log. */
  function Capture(log: Log, id: Id, image: Item, action: Action): (log': Log)
    ensures AppendedOne(log, log', id, image, action)
  {
    log + [Event(NextCdcId(log), id, image, action)]
  }

  /** AFTER INSERT trigger: records the new row (post-image). */
  function OnInsert(log: Log, id: Id, newRow: Item): (log': Log)
    ensures AppendedOne(log, log', id, newRow, Insert)
  {
    Capture(log, id, newRow, Insert)
  }

  /** AFTER UPDATE trigger: records the row as it is after the update (post-image). */
  function OnUpdate(log: Log, id: Id, newRow: Item): (log': Log)
    ensures AppendedOne(log, log', id, newRow, Update)
  {
    Capture(log, id, newRow, Update)
  }

  /** BEFORE DELETE trigger: records the row as it was before the delete (pre-image). */
  function OnDelete(log: Log, id: Id, oldRow: Item): (log': Log)
    ensures AppendedOne(log, log', id, oldRow, Delete)
  {
    Capture(log, id, oldRow, Delete)
  }

  /** Sequence numbers strictly increase in append order. */
  ghost predicate StrictlyIncreasing(log: Log) {
    forall i, j :: 0 <= i < j < |log| ==> log[i].cdcId < log[j].cdcId
  }

  /** Sequence numbers are exactly 1, 2, ..., |log|. */
  ghost predicate Dense(log: Log) {
    forall k :: 0 <= k < |log| ==> log[k].cdcId == k + 1
  }

  /** Appending through a trigger keeps sequence numbers strictly increasing. */
  lemma AppendKeepsIncreasing(log: Log, log': Log, id: Id, image: Item, action: Action)
    requires StrictlyIncreasing(log)
    requires AppendedOne(log, log', id, image, action)
    ensures StrictlyIncreasing(log')
  {
  }

  /** A trigger appending to a gap-free log keeps it gap-free: the new row gets
      sequence number |log| + 1. */
  lemma CaptureKeepsDense(log: Log, id: Id, image: Item, action: Action)
    requires Dense(log)
    ensures Dense(Capture(log, id, image, action))
  {
  }

  /** Gap-free sequence numbers are strictly increasing. */
  lemma DenseIsStrictlyIncreasing(log: Log)
    requires Dense(log)
    ensures StrictlyIncreasing(log)
  {
  }

  /** The effect of one change event on a reconstructed items table, or None
      when the event cannot follow that table: an insert of an id already
      present, an update of an absent id, or a delete whose pre-image is not
      the row present. */
  function ApplyEvent(items: map<Id, Item>, e: Event): (r: Option<map<Id, Item>>)
    ensures r.Some? <==> match e.action
                         case Insert => e.itemId !in items
                         case Update => e.itemId in items
                         case Delete => e.itemId in items && items[e.itemId] == e.image
    ensures r.Some? ==> r.value.Keys == if e.action == Delete then items.Keys - {e.itemId} else items.Keys + {e.itemId}
    ensures r.Some? && e.action != Delete ==> r.value[e.itemId] == e.image
    ensures r.Some? && e.action == Delete ==> e.itemId in items && items[e.itemId] == e.image
    ensures r.Some? ==> (e.action == Insert <==> e.itemId !in items)
    ensures r.Some? ==> forall id :: id in items && id != e.itemId ==> r.value[id] == items[id]
  {
    match e.action
    case Insert => if e.itemId in items then None else Some(items[e.itemId := e.image])
    case Update => if e.itemId in items then Some(items[e.itemId := e.image]) else None
    case Delete =>
      if e.itemId in items && items[e.itemId] == e.image then Some(items - {e.itemId}) else None
  }

  /** Reference reading of the log as a change stream: replaying its events in
      order, starting from an empty items table, yields the table they describe,
      or None if some event does not fit the table before it. */
  function Replay(log: Log): Option<map<Id, Item>>
  {
    if |log| == 0 then Some(map[])
    else
      match Replay(log[..|log| - 1])
      case None => None
      case Some(items) => ApplyEvent(items, log[|log| - 1])
  }

  /** Replaying a log extended by one event applies that event to the replay of the log. */
  lemma ReplaySnoc(log: Log, e: Event)
    ensures Replay(log + [e]) == match Replay(log) case None => None case Some(items) => ApplyEvent(items, e)
  {
  }

  /** Every item a replay produces was introduced by an insert event in the
      log: the audit trail holds the creation of every row it describes. */
  lemma {:induction false} ReplayedItemsWereInserted(log: Log, id: Id)
    requires Replay(log).Some? && id in Replay(log).value
    ensures exists k :: 0 <= k < |log| && log[k].itemId == id && log[k].action == Insert
  {
    var n := |log| - 1;
    var prefix := log[..n];
    assert log == prefix + [log[n]];
    ReplaySnoc(prefix, log[n]);
    var before := Replay(prefix).value;
    if id in before {
      ReplayedItemsWereInserted(prefix, id);
      var k :| 0 <= k < |prefix| && prefix[k].itemId == id && prefix[k].action == Insert;
      assert log[k] == prefix[k];
    } else {
      assert log[n].itemId == id && log[n].action == Insert;
    }
  }
}
