/** The record shapes the service exchanges: a stored item, the body of a
    create or full-update request, the body of a partial update, and a
    WebSocket message. Field constraints and defaults are those of the
    request models; request parsing itself is reduced to ParseCreate and
    ParseUpdate, whose failure stands for a validation error (HTTP 422). */
module Models {

  datatype Option<+T> = None | Some(value: T)

  /** The value of an optional field, or the fallback when it is absent. */
  function Pick<T>(o: Option<T>, fallback: T): T
  {
    match o
    case Some(v) => v
    case None => fallback
  }

  /** A price: a number strictly greater than zero. */
  type Price = p: real | p > 0.0 witness 1.0

  /** A stored item; `id` is assigned by the item table. */
  datatype Item = Item(id: int, name: string, price: Price, isActive: bool)

  /** The body of a create or full-update request. */
  datatype ItemCreate = ItemCreate(name: string, price: Price, isActive: bool)

  /** The body of a partial update: every field optional; `None` means the
      client did not set it. */
  datatype ItemUpdate = ItemUpdate(name: Option<string>, price: Option<Price>, isActive: Option<bool>)

  /** A WebSocket message: exactly an event name and a data string. */
  datatype Message = Message(event: string, data: string)

  /** `is_active` when a request leaves it out. */
  const DefaultActive: bool := true

  /** The partial update with nothing set. */
  const EmptyUpdate: ItemUpdate := ItemUpdate(None, None, None)

  /** Validation of a create body: the price must be positive, and an absent
      `is_active` becomes true. */
  function ParseCreate(name: string, price: real, isActive: Option<bool>): (r: Option<ItemCreate>)
    ensures r.Some? <==> price > 0.0
    ensures r.Some? ==> r.value.name == name && r.value.price == price
    ensures r.Some? ==> (r.value.isActive <==> isActive != Some(false))
  {
    if price > 0.0 then Some(ItemCreate(name, price, Pick(isActive, DefaultActive))) else None
  }

  /** Validation of a partial-update body: a price, when given, must be
      positive; every field keeps whether it was set. */
  function ParseUpdate(name: Option<string>, price: Option<real>, isActive: Option<bool>): (r: Option<ItemUpdate>)
    ensures r.Some? <==> (price.Some? ==> price.value > 0.0)
    ensures r.Some? ==> r.value.name == name && r.value.isActive == isActive
    ensures r.Some? ==> (r.value.price.Some? <==> price.Some?)
    ensures r.Some? && price.Some? ==> r.value.price.value == price.value
  {
    match price
    case None => Some(ItemUpdate(name, None, isActive))
    case Some(p) => if p > 0.0 then Some(ItemUpdate(name, Some(p), isActive)) else None
  }

  /** `Item(id=id, **req.model_dump())`: the stored item built from a request body. */
  function FromCreate(id: int, req: ItemCreate): Item
  {
    Item(id, req.name, req.price, req.isActive)
  }

  /** The request body that reproduces an item's fields other than its id. */
  function ToCreate(it: Item): ItemCreate
  {
    ItemCreate(it.name, it.price, it.isActive)
  }

  /** `current.model_copy(update=...)` with the set fields of `u`: the fields
      set in `u` replace those of `current`; the others and the id stay. */
  function Patch(current: Item, u: ItemUpdate): (r: Item)
    ensures r.id == current.id
    ensures u == EmptyUpdate ==> r == current
  {
    Item(current.id,
         Pick(u.name, current.name),
         Pick(u.price, current.price),
         Pick(u.isActive, current.isActive))
  }

  /** Two partial updates applied one after the other, as a single one:
      a field set in the later one wins. */
  function Merge(first: ItemUpdate, later: ItemUpdate): ItemUpdate
  {
    ItemUpdate(
      if later.name.Some? then later.name else first.name,
      if later.price.Some? then later.price else first.price,
      if later.isActive.Some? then later.isActive else first.isActive)
  }

  lemma FromCreateRoundTrip(id: int, req: ItemCreate, it: Item)
    ensures ToCreate(FromCreate(id, req)) == req
    ensures FromCreate(id, req).id == id
    ensures FromCreate(it.id, ToCreate(it)) == it
  {
  }

  /** A partial update keeps the id and every field it does not set, and
      takes every field it sets. */
  lemma PatchFields(current: Item, u: ItemUpdate)
    ensures Patch(current, u).id == current.id
    ensures u.name.None? ==> Patch(current, u).name == current.name
    ensures u.price.None? ==> Patch(current, u).price == current.price
    ensures u.isActive.None? ==> Patch(current, u).isActive == current.isActive
    ensures u.name.Some? ==> Patch(current, u).name == u.name.value
    ensures u.price.Some? ==> Patch(current, u).price == u.price.value
    ensures u.isActive.Some? ==> Patch(current, u).isActive == u.isActive.value
  {
  }

  /** An empty partial update leaves the item as it is. */
  lemma PatchEmpty(current: Item)
    ensures Patch(current, EmptyUpdate) == current
  {
  }

  /** Applying the same partial update twice is the same as applying it once. */
  lemma PatchIdempotent(current: Item, u: ItemUpdate)
    ensures Patch(Patch(current, u), u) == Patch(current, u)
  {
  }

  /** Two partial updates in a row are one merged partial update. */
  lemma PatchCompose(current: Item, first: ItemUpdate, later: ItemUpdate)
    ensures Patch(Patch(current, first), later) == Patch(current, Merge(first, later))
  {
  }

  /** A partial update that sets every field is a full update. */
  lemma PatchAllFieldsIsReplace(current: Item, u: ItemUpdate)
    requires u.name.Some? && u.price.Some? && u.isActive.Some?
    ensures Patch(current, u) == FromCreate(current.id, ItemCreate(u.name.value, u.price.value, u.isActive.value))
  {
  }
}
