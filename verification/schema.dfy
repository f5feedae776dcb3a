/** The two tables of the database and the validation applied to request
    payloads before any table is touched. */
module Schema {
  import opened Wrappers

  /** Primary key of the `items` table: a UUID string assigned at insert time. */
  type Id = string

  /** Length limits the request validation enforces on `name` and `description`. */
  const MaxNameLength := 50
  const MaxDescriptionLength := 300

  /** The four mutable fields of an item: both the request payload and the
      non-key columns of an `items` row. Prices and taxes are only compared,
      never computed with, so they are modelled as reals. A `None` description
      or tax in a payload stands for an explicit JSON `null`; an omitted tax
      has already been replaced by its payload default 0, that is `Some(0.0)`. */
  datatype Item = Item(name: string, description: Option<string>, price: real, tax: Option<real>)

  /** The field constraints of the request payload: a name of at most 50
      characters, an absent or at most 300-character description, a strictly
      positive price and an absent or non-negative tax. */
  predicate ValidItem(item: Item) {
    && |item.name| <= MaxNameLength
    && (item.description.Some? ==> |item.description.value| <= MaxDescriptionLength)
    && item.price > 0.0
    && (item.tax.Some? ==> item.tax.value >= 0.0)
  }

  /** The row an INSERT of `payload` stores. An absent tax is left out of the
      INSERT, so the column default 0 applies; every other field is stored as sent. */
  function InsertedRow(payload: Item): (row: Item)
    ensures row.name == payload.name
    ensures row.description == payload.description
    ensures row.price == payload.price
    ensures row.tax.Some?
    ensures payload.tax.Some? ==> row.tax == payload.tax
    ensures payload.tax.None? ==> row.tax == Some(0.0)
    ensures ValidItem(payload) ==> ValidItem(row)
  {
    payload.(tax := if payload.tax.Some? then payload.tax else Some(0.0))
  }

  /** The kind of mutation a change event records. */
  datatype Action = Insert | Update | Delete

  /** The string the triggers write into the `action` column. */
  function Tag(a: Action): (t: string)
    ensures ParseTag(t) == Some(a)
  {
    match a
    case Insert => "insert"
    case Update => "update"
    case Delete => "delete"
  }

  /** Reads an `action` column value back: exactly the three trigger strings
      name an action. */
  function ParseTag(t: string): (r: Option<Action>)
    ensures r.Some? <==> t in {"insert", "update", "delete"}
  {
    if t == "insert" then Some(Insert)
    else if t == "update" then Some(Update)
    else if t == "delete" then Some(Delete)
    else None
  }

  /** One row of the change log `cdc_items`: the sequence number, the item's
      id, a snapshot of the item's fields and the action. The server-side
      timestamp column is not modelled. */
  datatype Event = Event(cdcId: int, itemId: Id, image: Item, action: Action)
}
