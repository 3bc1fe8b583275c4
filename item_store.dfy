/** The in-memory item table of app.py as a value: the dictionary from id to
    item (with the order in which its keys were first inserted, which is the
    order `list_items` reports), and the id counter. Each CRUD handler is a
    step function from a table to the next table, the handler's result and
    the broadcast text it issues, if any. */
module ItemStore {
  import opened Models
  import opened Seqs

  /** A handler's answer: the item, or the 404 "Not found" error. */
  datatype Outcome<+T> = Ok(value: T) | NotFound

  datatype Table = Table(db: map<int, Item>, order: seq<int>, counter: int)

  /** One handler call: the table after it, its result, and the text it
      broadcasts (`None` when it broadcasts nothing). */
  datatype Step = Step(table: Table, result: Outcome<Item>, notice: Option<string>)

  /** The table invariant: the counter is not negative, `order` lists each
      key exactly once, every key lies in 1..counter, and every item is
      stored under its own id. */
  ghost predicate Valid(t: Table)
  {
    && t.counter >= 0
    && NoDup(t.order)
    && (forall k :: k in t.order <==> k in t.db)
    && (forall k :: k in t.db ==> 1 <= k <= t.counter && t.db[k].id == k)
  }

  /** The module-level initial state: no items, counter 0. */
  const Empty: Table := Table(map[], [], 0)

  /** The text every successful mutation broadcasts: `f"Item {verb}: {name}"`. */
  function Notice(verb: string, name: string): string
  {
    "Item " + verb + ": " + name
  }

  /** `db[k] = v`: a new key goes to the end of the insertion order; an
      existing key keeps its place. */
  function Put(t: Table, k: int, v: Item): (r: Table)
    ensures k in r.db && r.db[k] == v
    ensures forall j :: j in t.db && j != k ==> j in r.db && r.db[j] == t.db[j]
    ensures r.db.Keys == t.db.Keys + {k} && r.counter == t.counter
  {
    Table(t.db[k := v], if k in t.db then t.order else t.order + [k], t.counter)
  }

  /** `del db[k]`. */
  function Del(t: Table, k: int): (r: Table)
    ensures r.db.Keys == t.db.Keys - {k} && r.counter == t.counter
    ensures forall j :: j in r.db ==> r.db[j] == t.db[j]
  {
    Table(t.db - {k}, RemoveFirst(t.order, k), t.counter)
  }

  /** `get_item`: the stored item, or NotFound when the id is not a key. */
  function Lookup(t: Table, id: int): (r: Outcome<Item>)
    ensures r.NotFound? <==> id !in t.db
    ensures r.Ok? ==> id in t.db && r.value == t.db[id]
  {
    if id in t.db then Ok(t.db[id]) else NotFound
  }

  /** `list(db.values())`: the stored items in key insertion order. */
  function Values(db: map<int, Item>, order: seq<int>): (r: seq<Item>)
    ensures |r| <= |order|
    ensures forall it :: it in r ==> it in db.Values
  {
    if order == [] then []
    else (if order[0] in db then [db[order[0]]] else []) + Values(db, order[1..])
  }

  /** `list_items`: every stored item exactly once, in insertion order. */
  function Listing(t: Table): (r: seq<Item>)
    requires Valid(t)
    ensures |r| == |t.db| == |t.order|
    ensures forall i :: 0 <= i < |t.order| ==> t.order[i] in t.db && r[i] == t.db[t.order[i]]
    ensures forall k :: k in t.db ==> t.db[k] in r
    ensures forall it :: it in r ==> it.id in t.db && t.db[it.id] == it
  {
    forall i | 0 <= i < |t.order| ensures t.order[i] in t.db {
      var k := t.order[i];
      assert k in t.order;
      assert k in t.order <==> k in t.db;
    }
    ValuesOfKeys(t.db, t.order);
    DistinctCard(t.order);
    assert Elems(t.order) == t.db.Keys;
    Values(t.db, t.order)
  }

  lemma {:induction false} ValuesOfKeys(db: map<int, Item>, order: seq<int>)
    requires forall i :: 0 <= i < |order| ==> order[i] in db
    requires forall k :: k in db ==> db[k].id == k
    ensures |Values(db, order)| == |order|
    ensures forall i :: 0 <= i < |order| ==> Values(db, order)[i] == db[order[i]]
    ensures forall it :: it in Values(db, order) ==> it.id in db && db[it.id] == it
  {
    if order != [] {
      assert forall i :: 0 <= i < |order[1..]| ==> order[1..][i] == order[i + 1];
      ValuesOfKeys(db, order[1..]);
      var rest := Values(db, order[1..]);
      assert Values(db, order) == [db[order[0]]] + rest;
      forall i | 0 < i < |order| ensures Values(db, order)[i] == db[order[i]] {
        assert order[1..][i - 1] == order[i];
      }
    }
  }

  /** `create_item`: the counter goes up by one and the new item is stored
      under the new counter value. */
  function CreateStep(t: Table, req: ItemCreate): (r: Step)
    ensures r.table.counter == t.counter + 1
    ensures r.result == Ok(FromCreate(t.counter + 1, req))
    ensures r.notice == Some(Notice("created", req.name))
  {
    var id := t.counter + 1;
    var it := FromCreate(id, req);
    Step(Put(t.(counter := id), id, it), Ok(it), Some(Notice("created", it.name)))
  }

  /** `update_item`: full replacement that keeps the id. */
  function UpdateStep(t: Table, id: int, req: ItemCreate): (r: Step)
    ensures r.result.NotFound? <==> id !in t.db
    ensures r.result.NotFound? ==> r.table == t && r.notice == None
    ensures r.notice.Some? <==> r.result.Ok?
    ensures id in t.db ==> r.result == Ok(FromCreate(id, req)) && r.notice == Some(Notice("updated", req.name))
  {
    if id !in t.db then Step(t, NotFound, None)
    else
      var it := FromCreate(id, req);
      Step(Put(t, id, it), Ok(it), Some(Notice("updated", it.name)))
  }

  /** `patch_item`: only the fields set in the request change. */
  function PatchStep(t: Table, id: int, u: ItemUpdate): (r: Step)
    ensures r.result.NotFound? <==> id !in t.db
    ensures r.result.NotFound? ==> r.table == t && r.notice == None
    ensures r.notice.Some? <==> r.result.Ok?
    ensures id in t.db ==> r.result == Ok(Patch(t.db[id], u)) && r.notice == Some(Notice("patched", Patch(t.db[id], u).name))
  {
    if id !in t.db then Step(t, NotFound, None)
    else
      var it := Patch(t.db[id], u);
      Step(Put(t, id, it), Ok(it), Some(Notice("patched", it.name)))
  }

  /** `delete_item`: the entry goes; the counter stays. The result carries the
      removed item, whose name the notice uses (the HTTP reply is empty). */
  function DeleteStep(t: Table, id: int): (r: Step)
    ensures r.result.NotFound? <==> id !in t.db
    ensures r.result.NotFound? ==> r.table == t && r.notice == None
    ensures r.notice.Some? <==> r.result.Ok?
    ensures id in t.db ==> r.result == Ok(t.db[id]) && id !in r.table.db
    ensures id in t.db ==> r.notice == Some(Notice("deleted", t.db[id].name))
  {
    if id !in t.db then Step(t, NotFound, None)
    else
      var it := t.db[id];
      Step(Del(t, id), Ok(it), Some(Notice("deleted", it.name)))
  }

  /** `Item(id=i, name=f"Item {i}", price=i * 10.0)`, the startup seed. */
  function SeedItem(i: nat): (r: Item)
    requires i >= 1
    ensures r.id == i && r.isActive && r.price == (i as real) * 10.0
  {
    Item(i, "Item " + Decimal(i), (i as real) * 10.0, DefaultActive)
  }

  /** The decimal digits of a natural number, as `f"{i}"` prints them. */
  function Decimal(n: nat): string
  {
    if n < 10 then [DigitChar(n)] else Decimal(n / 10) + [DigitChar(n % 10)]
  }

  function DigitChar(d: nat): char
    requires d < 10
  {
    ['0', '1', '2', '3', '4', '5', '6', '7', '8', '9'][d]
  }

  /** The table after the startup seeding loop ran on an empty table. */
  function Seeded(): (r: Table)
    ensures r.db.Keys == {1, 2, 3} && r.order == [1, 2, 3] && r.counter == 3
    ensures forall k :: k in r.db ==> r.db[k] == SeedItem(k)
  {
    Table(map i | 1 <= i <= 3 :: SeedItem(i), [1, 2, 3], 3)
  }

  // ---------------------------------------------------------------------------
  // Properties of single handler calls
  // ---------------------------------------------------------------------------

  /** After seeding the table holds exactly ids 1, 2, 3, named "Item 1" ..
      "Item 3", priced 10, 20, 30, all active, with the counter at 3. */
  lemma SeededContents()
    ensures Valid(Seeded())
    ensures Seeded().db.Keys == {1, 2, 3} && Seeded().counter == 3
    ensures Seeded().db[1] == Item(1, "Item 1", 10.0, true)
    ensures Seeded().db[2] == Item(2, "Item 2", 20.0, true)
    ensures Seeded().db[3] == Item(3, "Item 3", 30.0, true)
  {
  }

  /** `list_items` right after startup lists the three seeds in id order. */
  lemma SeededListing()
    ensures Listing(Seeded()) == [Seeded().db[1], Seeded().db[2], Seeded().db[3]]
  {
  }

  /** `create_item` takes the id just after the counter, which is above every
      stored id; it stores the new item there, keeps every other entry, adds
      one key, and announces the creation. */
  lemma CreateFresh(t: Table, req: ItemCreate)
    requires Valid(t)
    ensures var s := CreateStep(t, req);
      && Valid(s.table)
      && s.table.counter == t.counter + 1
      && s.result == Ok(FromCreate(t.counter + 1, req))
      && (forall k :: k in t.db ==> k < s.result.value.id)
      && s.table.db == t.db[s.result.value.id := s.result.value]
      && s.table.order == t.order + [s.result.value.id]
      && s.notice == Some(Notice("created", req.name))
  {
  }

  /** `update_item`: NotFound and no change on an absent id; otherwise the
      stored item is the request under the same id, only that key changes,
      and the key order and the counter stay. */
  lemma UpdateSpec(t: Table, id: int, req: ItemCreate)
    requires Valid(t)
    ensures var s := UpdateStep(t, id, req);
      && Valid(s.table)
      && (id !in t.db ==> s == Step(t, NotFound, None))
      && (id in t.db ==>
            && s.result == Ok(FromCreate(id, req))
            && s.table == Table(t.db[id := FromCreate(id, req)], t.order, t.counter)
            && s.notice == Some(Notice("updated", req.name)))
  {
  }

  /** `patch_item`: NotFound and no change on an absent id; otherwise the
      fields set in the request replace the stored ones, the rest and the id
      stay, and only that key changes. */
  lemma PatchSpec(t: Table, id: int, u: ItemUpdate)
    requires Valid(t)
    ensures var s := PatchStep(t, id, u);
      && Valid(s.table)
      && (id !in t.db ==> s == Step(t, NotFound, None))
      && (id in t.db ==>
            && s.result == Ok(Patch(t.db[id], u))
            && s.table == Table(t.db[id := Patch(t.db[id], u)], t.order, t.counter)
            && s.notice == Some(Notice("patched", Patch(t.db[id], u).name)))
  {
  }

  /** An empty partial update of a stored item leaves the table as it was
      (it still announces the patch). */
  lemma EmptyPatchKeepsTable(t: Table, id: int)
    requires Valid(t) && id in t.db
    ensures PatchStep(t, id, EmptyUpdate).table == t
  {
  }

  /** `delete_item`: NotFound and no change on an absent id; otherwise exactly
      that key goes, the counter stays, a later get gives NotFound, and a
      second delete gives NotFound and changes nothing. */
  lemma DeleteSpec(t: Table, id: int)
    requires Valid(t)
    ensures var s := DeleteStep(t, id);
      && Valid(s.table)
      && (id !in t.db ==> s == Step(t, NotFound, None))
      && (id in t.db ==>
            && s.result == Ok(t.db[id])
            && s.table.db == t.db - {id}
            && s.table.order == RemoveFirst(t.order, id)
            && s.table.counter == t.counter
            && s.notice == Some(Notice("deleted", t.db[id].name)))
      && Lookup(s.table, id) == NotFound
      && DeleteStep(s.table, id) == Step(s.table, NotFound, None)
  {
    RemoveFirstDistinct(t.order, id);
  }

  // ---------------------------------------------------------------------------
  // Sequences of handler calls
  // ---------------------------------------------------------------------------

  /** A mutating request, as it reaches its handler (bodies already valid). */
  datatype Op = Create(req: ItemCreate) | Update(id: int, req: ItemCreate) | PatchOp(id: int, upd: ItemUpdate) | Delete(id: int)

  function Apply(t: Table, op: Op): Step
  {
    match op
    case Create(req) => CreateStep(t, req)
    case Update(id, req) => UpdateStep(t, id, req)
    case PatchOp(id, u) => PatchStep(t, id, u)
    case Delete(id) => DeleteStep(t, id)
  }

  /** Every handler call keeps the table invariant, never lowers the counter,
      and broadcasts exactly when it succeeds. */
  lemma ApplySpec(t: Table, op: Op)
    requires Valid(t)
    ensures Valid(Apply(t, op).table)
    ensures Apply(t, op).table.counter >= t.counter
    ensures Apply(t, op).notice.Some? <==> Apply(t, op).result.Ok?
  {
    match op
    case Create(req) => CreateFresh(t, req);
    case Update(id, req) => UpdateSpec(t, id, req);
    case PatchOp(id, u) => PatchSpec(t, id, u);
    case Delete(id) => DeleteSpec(t, id);
  }

  /** The table after the requests `ops`, handled one after the other. */
  function Run(t: Table, ops: seq<Op>): Table
    decreases |ops|
  {
    if ops == [] then t else Run(Apply(t, ops[0]).table, ops[1..])
  }

  /** The broadcast texts the requests issue, in order. */
  function Notices(t: Table, ops: seq<Op>): seq<string>
    decreases |ops|
  {
    if ops == [] then []
    else
      var s := Apply(t, ops[0]);
      (if s.notice.Some? then [s.notice.value] else []) + Notices(s.table, ops[1..])
  }

  /** How many of the requests succeed. */
  function Successes(t: Table, ops: seq<Op>): nat
    decreases |ops|
  {
    if ops == [] then 0
    else
      var s := Apply(t, ops[0]);
      (if s.result.Ok? then 1 else 0) + Successes(s.table, ops[1..])
  }

  /** The ids assigned by the successful creates among the requests, in order. */
  function CreatedIds(t: Table, ops: seq<Op>): seq<int>
    decreases |ops|
  {
    if ops == [] then []
    else
      var s := Apply(t, ops[0]);
      (if ops[0].Create? then [s.result.value.id] else []) + CreatedIds(s.table, ops[1..])
  }

  /** Over any run: the invariant holds at the end, there is exactly one
      broadcast per successful request, and the counter never goes down. */
  lemma {:induction false} RunSpec(t: Table, ops: seq<Op>)
    requires Valid(t)
    ensures Valid(Run(t, ops))
    ensures |Notices(t, ops)| == Successes(t, ops)
    ensures Run(t, ops).counter >= t.counter
    decreases |ops|
  {
    if ops != [] {
      ApplySpec(t, ops[0]);
      RunSpec(Apply(t, ops[0]).table, ops[1..]);
    }
  }

  /** Ids are never reused: every id a run assigns is above the counter at
      its start (so above every id stored or deleted before), at most the
      counter at its end, and each is larger than the one before. */
  lemma {:induction false} CreatedIdsFresh(t: Table, ops: seq<Op>)
    requires Valid(t)
    ensures forall i :: 0 <= i < |CreatedIds(t, ops)| ==>
      t.counter < CreatedIds(t, ops)[i] <= Run(t, ops).counter
    ensures forall i, j :: 0 <= i < j < |CreatedIds(t, ops)| ==>
      CreatedIds(t, ops)[i] < CreatedIds(t, ops)[j]
    decreases |ops|
  {
    if ops != [] {
      var s := Apply(t, ops[0]);
      ApplySpec(t, ops[0]);
      CreatedIdsFresh(s.table, ops[1..]);
      RunSpec(s.table, ops[1..]);
      var head := if ops[0].Create? then [s.result.value.id] else [];
      var rest := CreatedIds(s.table, ops[1..]);
      assert CreatedIds(t, ops) == head + rest;
      if ops[0].Create? {
        CreateFresh(t, ops[0].req);
        assert s.result.value.id == s.table.counter;
      }
    }
  }
}
