# fast-simple-crud: a Dafny model of the item table, broadcast and echo

This project models the core of `fast-simple-crud`, a small FastAPI demo service. The
service keeps an in-memory item table: a dictionary from integer id to item, plus an id
counter. It offers create, read, full update, partial update and delete. Every successful
mutation broadcasts `"Item <verb>: <name>"` to all registered WebSocket clients, and each
WebSocket connection echoes what it receives.

The model follows the two core files:

- `models.dfy` (module `Models`) holds the request and record shapes of `models.py`.
  `Price` is a real number greater than zero (`Field(gt=0)`). `ItemCreate.isActive`
  defaults to true. Every `ItemUpdate` field is optional and absent by default.
  `ParseCreate` and `ParseUpdate` stand for request validation; their `None` is the 422
  validation error. `Patch` is `model_copy(update=...)` restricted to the fields that
  were set.
- `item_store.dfy` (module `ItemStore`) is the table as a value: `db`, `order` and
  `counter`. `order` holds the dictionary's key insertion order, which `list_items`
  reports. Each handler is a step function that returns the next table, the handler's
  result (`Ok` or `NotFound`) and the broadcast text, if any. `Run` applies a sequence
  of requests one after another.
- `notify.dfy` (module `Notify`) covers the WebSocket side. `Fanout` is the frames a
  broadcast delivers, in registry order, skipping clients whose send fails. It also
  defines the echo reply and its inverse `EchoedData`.
- `app.dfy` (module `App`) holds the class `Server`. Its fields are the module-level
  state of `app.py`: `db`, `order`, `counter` and `clients` (`websocket_clients`). Two
  more fields record what goes out: `sent` holds every frame delivered to a client,
  and ghost `notices` holds every text passed to `broadcast`. Each handler is a method
  that updates the fields in place. Its `ensures` ties the new state, its result, the
  notices and the frames to the `ItemStore` step function and to `Notify.Fanout`.
  A ghost field `noticeTables` records the item table as each broadcast found it.
  `ExampleRequests` checks example requests (a create, a get of the absent id 9999, a
  partial update, a delete and its repeat) against those contracts alone.

Inputs from the environment become parameters. `down` is the set of clients whose
`send_json` raises during a broadcast. `incoming` is the messages a connection receives
before a clean disconnect.

## Model

| member | source | states |
|---|---|---|
| Models.ParseCreate | src/fast_simple_crud/models.py:17-22 | a create body is accepted iff its price is > 0; it keeps name and price, and `is_active` is true unless the client sent false |
| Models.ParseUpdate | src/fast_simple_crud/models.py:25-30 | a partial body is accepted iff its price is absent or > 0; each field stays set exactly when the client set it |
| Models.FromCreateRoundTrip | src/fast_simple_crud/app.py:73 | the item built from a body has the given id and exactly the body's fields; item → body → item is the identity |
| Models.Patch | src/fast_simple_crud/app.py:95-97 | `model_copy(update=...)` keeps the id, and an update with nothing set leaves the item unchanged |
| Models.PatchFields | src/fast_simple_crud/app.py:95-97 | a partial update keeps the id and every unset field and takes every set field |
| Models.PatchEmpty | src/fast_simple_crud/models.py:28-30 | an update with nothing set leaves the item unchanged |
| Models.PatchIdempotent | src/fast_simple_crud/app.py:96-97 | applying the same partial update twice equals applying it once |
| Models.PatchCompose | src/fast_simple_crud/app.py:96-97 | two partial updates in a row equal one merged update in which later fields win |
| Models.PatchAllFieldsIsReplace | src/fast_simple_crud/app.py:84-97 | a partial update that sets every field gives the same item as a full update |
| Seqs.RemoveFirst | src/fast_simple_crud/app.py:161 | `list.remove`: when x occurs, the result is the list with its first occurrence (at `FirstIndex`) cut out and every other element in its order; where Python raises ValueError (x absent) the model returns the list, a case no caller reaches |
| Seqs.RemoveFirstMultiset | src/fast_simple_crud/app.py:161 | removal takes away exactly one occurrence of x (multiset minus {x}), and the list is one shorter when x occurs |
| Seqs.RemoveFirstDistinct | src/fast_simple_crud/app.py:161 | on a list without duplicates, removal drops x entirely, keeps every other element and keeps the list distinct |
| Seqs.RemoveFirstAppended | src/fast_simple_crud/app.py:148-161 | appending a new handle and then removing it restores the list |
| ItemStore.Lookup | src/fast_simple_crud/app.py:58-60 | NotFound iff the id is not a key; otherwise the item stored under it |
| ItemStore.Listing | src/fast_simple_crud/app.py:52 | `list(db.values())`: entry i is the item under the i-th key in insertion order; as many entries as keys; every stored item appears, and every entry is stored under its own id |
| ItemStore.Values | src/fast_simple_crud/app.py:52 | the values along a key order: no more entries than keys, each one a stored item |
| ItemStore.Put | src/fast_simple_crud/app.py:74 | `db[k] = v`: k maps to v, every other entry is kept, the key set gains k, the counter stays |
| ItemStore.Del | src/fast_simple_crud/app.py:109 | `del db[k]`: the key set loses k, every remaining entry is kept, the counter stays |
| ItemStore.SeedItem | src/fast_simple_crud/app.py:30 | seed item i has id i, price 10·i and is active |
| ItemStore.Seeded | src/fast_simple_crud/app.py:29-31 | the startup table: keys {1,2,3} inserted in that order, counter 3, each entry the seed item of its key |
| ItemStore.SeededContents | src/fast_simple_crud/app.py:29-31 | after seeding: keys exactly {1,2,3}, item i is ("Item i", 10·i, active), counter 3, invariant holds |
| ItemStore.SeededListing | src/fast_simple_crud/app.py:29-31 | listing right after startup gives items 1, 2, 3 in that order |
| ItemStore.CreateStep | src/fast_simple_crud/app.py:71-76 | the counter goes up by 1; the result is the body stored under the new counter value; the notice is `"Item created: " + name` with the body's name |
| ItemStore.UpdateStep | src/fast_simple_crud/app.py:82-87 | NotFound iff the id is absent, and then no change and no notice; a notice iff Ok; Ok carries the body under the same id and the notice `"Item updated: " + name` |
| ItemStore.PatchStep | src/fast_simple_crud/app.py:93-100 | NotFound iff the id is absent, and then no change and no notice; a notice iff Ok; Ok carries the stored item patched with the set fields and the notice `"Item patched: " + name` of the patched item |
| ItemStore.DeleteStep | src/fast_simple_crud/app.py:106-110 | NotFound iff the id is absent, and then no change and no notice; a notice iff Ok; Ok carries the removed item, the id is gone and the notice is `"Item deleted: " + name` of the removed item |
| ItemStore.CreateFresh | src/fast_simple_crud/app.py:71-76 | the counter goes up by exactly 1; the new id exceeds every stored key and is stored there; other entries are unchanged; the key goes last in the order; one "created" notice |
| ItemStore.UpdateSpec | src/fast_simple_crud/app.py:82-87 | absent id: NotFound, no change, no notice; present id: the body under the same id, only that key changes, order and counter stay, one "updated" notice |
| ItemStore.PatchSpec | src/fast_simple_crud/app.py:93-100 | absent id: NotFound, no change, no notice; present id: set fields replaced, others and id kept, only that key changes, one "patched" notice |
| ItemStore.EmptyPatchKeepsTable | src/fast_simple_crud/app.py:95-98 | patching a stored item with an empty update leaves the table unchanged |
| ItemStore.DeleteSpec | src/fast_simple_crud/app.py:106-110 | absent id: NotFound, no change; present id: exactly that key removed, the key order is the old one with that key removed (`RemoveFirst`), counter kept, one "deleted" notice with the removed name; a later get and a second delete give NotFound |
| ItemStore.ApplySpec | src/fast_simple_crud/app.py:69-110 | every handler keeps the table invariant, never lowers the counter, and issues a notice iff it succeeds |
| ItemStore.RunSpec | src/fast_simple_crud/app.py:69-110 | over any sequence of requests the invariant holds, the counter never decreases, and there is exactly one broadcast per successful request |
| ItemStore.CreatedIdsFresh | src/fast_simple_crud/app.py:71-74 | over any sequence of requests, created ids strictly increase and all exceed the starting counter, so a deleted id is never reassigned |
| Notify.EchoReply | src/fast_simple_crud/app.py:154-158 | the reply has event "echo" and its data is "Received: " followed by exactly the received data |
| Notify.EchoedData | src/fast_simple_crud/app.py:154-158 | a recovered payload is exactly the reply's data with the "Received: " prefix removed |
| Notify.EchoRoundTrip | src/fast_simple_crud/app.py:154-158 | an echo reply has event "echo" and gives back exactly the data that was sent |
| Notify.EchoFrames | src/fast_simple_crud/app.py:150-158 | one reply per received message, in order, to the sender, each carrying back that message's data |
| Notify.Fanout | src/fast_simple_crud/app.py:139-141 | one send attempt per registered client: never more frames than clients |
| Notify.LiveFanout | src/fast_simple_crud/app.py:139-141 | the loop over the live list as written, when one handle is removed during the send at a given position: never more frames than clients |
| Notify.LiveFanoutSkips | src/fast_simple_crud/app.py:139-161 | on a distinct registry, a removal at or before the iterator's position means the next handle gets no frame from the live loop, although it is live and the broadcast over the registry as it stood reaches it |
| Notify.FanoutAppend | src/fast_simple_crud/app.py:139-141 | delivery follows the list order: broadcasting to a + b is broadcasting to a, then to b |
| Notify.FanoutReaches | src/fast_simple_crud/app.py:139-141 | every registered client whose send does not fail receives the message, whoever else fails |
| Notify.FanoutOnlyLive | src/fast_simple_crud/app.py:139-141 | only the broadcast message is sent, only to registered clients, never to one whose send fails |
| Notify.FanoutCount | src/fast_simple_crud/app.py:139-141 | frames sent = registered clients − clients whose send fails |
| Notify.OneFailure | src/fast_simple_crud/app.py:139-141 | with N clients of which exactly one fails, the other N−1 each receive the message |
| App.Server.constructor | src/fast_simple_crud/app.py:20-22 | empty table, counter 0, no clients, nothing sent |
| App.Server.Startup | src/fast_simple_crud/app.py:26-31 | the seeding loop on the empty dictionary produces exactly the seeded table (ids 1..3, counter 3) |
| App.Server.Shutdown | src/fast_simple_crud/app.py:33 | the dictionary is emptied; the counter keeps its value; the invariant holds |
| App.Server.Broadcast | src/fast_simple_crud/app.py:137-141 | one notice is logged; the frames delivered are exactly the fan-out of the payload `{event: "broadcast", data: text}` over the clients in list order, with failing clients skipped; `noticeTables` records the item table the broadcast sees |
| App.Server.CreateItem | src/fast_simple_crud/app.py:69-76 | the new state and result are those of CreateStep; the id is the old counter + 1; exactly one "created" broadcast, and the table it records in `noticeTables` is the new table, so it is sent after the store change |
| App.Server.UpdateItem | src/fast_simple_crud/app.py:80-87 | the new state and result are those of UpdateStep; the key order and counter are outside its frame; one broadcast on success, none on NotFound; a broadcast records the new table in `noticeTables`, so it is sent after the store change |
| App.Server.PatchItem | src/fast_simple_crud/app.py:91-100 | the new state and result are those of PatchStep; the key order and counter are outside its frame; one broadcast on success, none on NotFound; a broadcast records the new table in `noticeTables`, so it is sent after the store change |
| App.Server.DeleteItem | src/fast_simple_crud/app.py:104-110 | the new state is that of DeleteStep; Ok iff the id was present; the counter is outside its frame; one broadcast on success, none on NotFound; a broadcast records the new table in `noticeTables`, so it is sent after the store change |
| App.Server.Accept | src/fast_simple_crud/app.py:147-148 | the new handle is appended to the registry, which stays duplicate-free |
| App.Server.Echo | src/fast_simple_crud/app.py:154-158 | exactly one frame is sent, the echo reply, to the sender |
| App.Server.Disconnect | src/fast_simple_crud/app.py:160-161 | the handle is removed (`list.remove`), every other handle stays, and the registry stays duplicate-free |
| App.Server.Session | src/fast_simple_crud/app.py:145-161 | one connection's life: one echo per message, in order, and afterwards the registry is as it was before |

## Findings

| source | as written | input that shows it | evidently intended | confidence | as-written member | corrected member |
|---|---|---|---|---|---|---|
| src/fast_simple_crud/app.py:139-141, 161 | `broadcast` loops over the live `websocket_clients`; a disconnect during a pending `send_json` runs `websocket_clients.remove` and shifts the handles after it | registry `[A, B, C]`, no send fails, A disconnects while its send is pending: the list becomes `[B, C]`, the iterator's next position 1 holds C, and B gets nothing | every registered live client receives the broadcast ("to all connected WebSocket clients"), as a loop over a copy of the list gives | medium, not executed | Notify.LiveFanoutSkips | Notify.FanoutReaches |

## Left out

- HTTP routing, integer status codes and JSON parsing are not modelled. NotFound is an
  `Outcome` value; a validation failure is `None` from `ParseCreate` or `ParseUpdate`.
  The handlers require already-validated bodies, since FastAPI calls them only then.
- The SSE tick stream (`event_generator`, `sse_stream`) is left out. It is an endless
  loop driven by the wall clock and `asyncio.sleep`.
- async/await interleaving is not modelled. The store change of each handler
  contains no `await` and is atomic. The sends inside `broadcast` (and the echo send)
  are suspension points where other handlers and disconnects may run; the model runs
  each handler to completion without them. In particular, `App.Server.Session` covers
  one connection with no other request between its steps.
- The WebSocket transport (`accept`, `receive_json`, `send_json`) is left out.
  Delivery failure is the input set `down`. Received messages arrive already parsed as
  `Message`.
- A message that fails to parse, and any receive or send error other than a clean
  disconnect, are left out. In the source they escape the loop uncaught, and the handle
  is then never removed from the registry.
- Floating-point prices are modelled as reals greater than zero. No rounding is
  modelled.
- A client-sent explicit `null` in a partial update is not modelled. `model_copy` does
  not revalidate, so the source would store None in that field. In the model, "set"
  means "present with a value".
- App.Server.DeleteItem: the successful result carries no item, as the 204 reply does.
  The removed item appears only in `ItemStore.DeleteStep` and in the notice.
- App.Server.Accept requires a handle that is not yet registered. Each accepted
  WebSocket is a new object. App.Server.Disconnect requires a registered handle, which
  the endpoint always has when it removes it.
- App.Server.Startup requires an empty dictionary. The lifespan runs on the
  module-level empty dict, or after a shutdown has cleared it.
- Shutdown clears the dictionary but not the counter. The next startup sets the counter
  back to 3, so ids are unique within one lifespan only. The table is empty at that
  point, so no two stored items ever share an id.
- `broadcast` iterates the live `websocket_clients` list, not a copy.
  `App.Server.Broadcast` iterates the registry as it was on entry. The two agree only
  when no handle is added or removed during the loop. A disconnect at a pending send
  removes a handle at or before the iterator's position, and the iterator then skips
  the next, live, handle; see "## Findings".
- `__main__.py` (server launch), `__init__.py` (re-exports) and the test fixture
  `conftest.py` hold no logic and are not part of this model.
