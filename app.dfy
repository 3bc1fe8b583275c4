/** The application state of app.py: the module-level `db` dictionary (with
    its key insertion order), the id `counter`, the `websocket_clients` list,
    and what the handlers do to them. Every mutating handler is proved to
    leave the state that the matching ItemStore step function describes, and
    to hand the transport exactly the broadcast frames Notify.Fanout
    describes. */
module App {
  import opened Models
  import opened Seqs
  import opened ItemStore
  import opened Notify

  class Server {
    var db: map<int, Item>
    var order: seq<int>          // keys of db in insertion order (Python dict order)
    var counter: int
    var clients: seq<ClientId>   // websocket_clients
    var sent: seq<Frame>         // every frame delivered to a client, in order
    ghost var notices: seq<string>  // every text passed to broadcast, in order
    ghost var noticeTables: seq<Table>  // the item table as each broadcast found it

    /** The item table as a value. */
    function Store(): Table
      reads this
    {
      Table(db, order, counter)
    }

    ghost predicate Valid()
      reads this
    {
      ItemStore.Valid(Store()) && NoDup(clients)
    }

    /** The module-level initial values: empty table, counter 0, no clients. */
    constructor ()
      ensures Valid()
      ensures Store() == Empty && clients == [] && sent == [] && notices == [] && noticeTables == []
    {
      db, order, counter := map[], [], 0;
      clients, sent := [], [];
      notices, noticeTables := [], [];
    }

    /** `lifespan` startup: seed ids 1..3 and leave the counter at 3. */
    method Startup()
      requires Valid() && db == map[] && order == []
      modifies this`db, this`order, this`counter
      ensures Valid() && Store() == Seeded()
    {
      for i := 1 to 4
        invariant forall k :: k in db <==> 1 <= k < i
        invariant forall k :: k in db ==> db[k] == SeedItem(k)
        invariant order == [1, 2, 3][..i - 1]
        invariant i > 1 ==> counter == i - 1
      {
        if i !in db {
          order := order + [i];
        }
        db := db[i := SeedItem(i)];
        counter := i;
      }
      assert db == Seeded().db;
      SeededContents();
    }

    /** `lifespan` shutdown: `db.clear()`; the counter is left as it is. */
    method Shutdown()
      requires Valid()
      modifies this`db, this`order
      ensures Valid() && db == map[] && order == []
    {
      db, order := map[], [];
    }

    /** `broadcast`: attempt the message on every registered client in list
        order; a client whose send fails is skipped and the loop goes on. */
    method Broadcast(text: string, down: set<ClientId>)
      modifies this`sent, this`notices, this`noticeTables
      ensures notices == old(notices) + [text]
      ensures noticeTables == old(noticeTables) + [Store()]
      ensures sent == old(sent) + Fanout(clients, down, BroadcastPayload(text))
    {
      notices := notices + [text];
      noticeTables := noticeTables + [Store()];
      var payload := BroadcastPayload(text);
      var i := 0;
      while i < |clients|
        invariant 0 <= i <= |clients|
        invariant notices == old(notices) + [text]
        invariant noticeTables == old(noticeTables) + [Store()]
        invariant sent == old(sent) + Fanout(clients[..i], down, payload)
      {
        var c := clients[i];
        if c !in down {
          sent := sent + [Frame(c, payload)];
        }
        assert clients[..i + 1][..i] == clients[..i];
        i := i + 1;
      }
      assert clients[..i] == clients;
    }

    /** `create_item`. */
    method CreateItem(req: ItemCreate, down: set<ClientId>) returns (r: Item)
      requires Valid()
      modifies this`db, this`order, this`counter, this`sent, this`notices, this`noticeTables
      ensures Valid()
      ensures CreateStep(old(Store()), req) == Step(Store(), Ok(r), Some(Notice("created", r.name)))
      ensures r.id == old(counter) + 1
      ensures notices == old(notices) + [Notice("created", r.name)]
      ensures noticeTables == old(noticeTables) + [Store()]
      ensures sent == old(sent) + Fanout(clients, down, BroadcastPayload(Notice("created", r.name)))
    {
      CreateFresh(Store(), req);
      counter := counter + 1;
      var item := FromCreate(counter, req);
      if counter !in db {
        order := order + [counter];
      }
      db := db[counter := item];
      Broadcast(Notice("created", item.name), down);
      r := item;
    }

    /** `update_item`; the key is present, so its place in the order stays. */
    method UpdateItem(id: int, req: ItemCreate, down: set<ClientId>) returns (r: Outcome<Item>)
      requires Valid()
      modifies this`db, this`sent, this`notices, this`noticeTables
      ensures Valid()
      ensures var s := UpdateStep(old(Store()), id, req);
        && Store() == s.table && r == s.result
        && notices == old(notices) + Announce(s.notice)
        && noticeTables == old(noticeTables) + (if s.notice.Some? then [Store()] else [])
        && sent == old(sent) + Deliveries(clients, down, s.notice)
    {
      UpdateSpec(Store(), id, req);
      if id !in db {
        return NotFound;
      }
      var updated := FromCreate(id, req);
      db := db[id := updated];
      Broadcast(Notice("updated", updated.name), down);
      r := Ok(updated);
    }

    /** `patch_item`. */
    method PatchItem(id: int, upd: ItemUpdate, down: set<ClientId>) returns (r: Outcome<Item>)
      requires Valid()
      modifies this`db, this`sent, this`notices, this`noticeTables
      ensures Valid()
      ensures var s := PatchStep(old(Store()), id, upd);
        && Store() == s.table && r == s.result
        && notices == old(notices) + Announce(s.notice)
        && noticeTables == old(noticeTables) + (if s.notice.Some? then [Store()] else [])
        && sent == old(sent) + Deliveries(clients, down, s.notice)
    {
      PatchSpec(Store(), id, upd);
      if id !in db {
        return NotFound;
      }
      var current := db[id];
      var updated := Patch(current, upd);
      db := db[id := updated];
      Broadcast(Notice("patched", updated.name), down);
      r := Ok(updated);
    }

    /** `delete_item`; success carries no item (the reply is empty). */
    method DeleteItem(id: int, down: set<ClientId>) returns (r: Outcome<()>)
      requires Valid()
      modifies this`db, this`order, this`sent, this`notices, this`noticeTables
      ensures Valid()
      ensures var s := DeleteStep(old(Store()), id);
        && Store() == s.table && (r.Ok? <==> s.result.Ok?)
        && notices == old(notices) + Announce(s.notice)
        && noticeTables == old(noticeTables) + (if s.notice.Some? then [Store()] else [])
        && sent == old(sent) + Deliveries(clients, down, s.notice)
    {
      DeleteSpec(Store(), id);
      if id !in db {
        return NotFound;
      }
      var name := db[id].name;
      db := db - {id};
      order := RemoveFirst(order, id);
      Broadcast(Notice("deleted", name), down);
      r := Ok(());
    }

    /** `websocket_clients.append(websocket)` once a connection is accepted;
        each accepted connection is a new handle. */
    method Accept(c: ClientId)
      requires Valid() && c !in clients
      modifies this`clients
      ensures Valid() && clients == old(clients) + [c]
    {
      AppendDistinct(clients, c);
      clients := clients + [c];
    }

    /** One turn of the receive loop: reply to `m` on its own connection. */
    method Echo(c: ClientId, m: Message)
      modifies this`sent
      ensures sent == old(sent) + [Frame(c, EchoReply(m))]
    {
      sent := sent + [Frame(c, EchoReply(m))];
    }

    /** `websocket_clients.remove(websocket)` on a clean disconnect. */
    method Disconnect(c: ClientId)
      requires Valid() && c in clients
      modifies this`clients
      ensures Valid() && clients == RemoveFirst(old(clients), c)
      ensures c !in clients && forall d :: d in old(clients) && d != c ==> d in clients
    {
      RemoveFirstDistinct(clients, c);
      clients := RemoveFirst(clients, c);
    }

    /** `websocket_endpoint` for one connection that receives `incoming` and
        then disconnects cleanly (with no other request in between): one echo
        per message, in order, and the registry is as it was before. */
    method Session(c: ClientId, incoming: seq<Message>)
      requires Valid() && c !in clients
      modifies this`clients, this`sent
      ensures Valid() && clients == old(clients)
      ensures sent == old(sent) + EchoFrames(c, incoming)
    {
      Accept(c);
      var i := 0;
      while i < |incoming|
        invariant 0 <= i <= |incoming|
        invariant Valid() && clients == old(clients) + [c]
        invariant sent == old(sent) + EchoFrames(c, incoming[..i])
      {
        Echo(c, incoming[i]);
        assert EchoFrames(c, incoming[..i + 1]) == EchoFrames(c, incoming[..i]) + [Frame(c, EchoReply(incoming[i]))];
        i := i + 1;
      }
      assert incoming[..i] == incoming;
      Disconnect(c);
      RemoveFirstAppended(old(clients), c);
    }
  }

  /** Example requests after startup, checked against the class contracts
      alone: a create, a get of the absent id 9999, a partial update, a delete
      and its repeat, and a create that takes the next id. */
  method ExampleRequests()
  {
    var s := new Server();
    s.Startup();
    SeededContents();
    var created := s.CreateItem(ItemCreate("Test", 10.0, DefaultActive), {});
    assert created == Item(4, "Test", 10.0, true);
    assert Lookup(s.Store(), 9999) == NotFound;
    var patched := s.PatchItem(1, ItemUpdate(Some("Patched"), None, None), {});
    assert patched == Ok(Item(1, "Patched", 10.0, true));
    var gone := s.DeleteItem(4, {});
    assert gone.Ok? && Lookup(s.Store(), 4) == NotFound;
    var again := s.DeleteItem(4, {});
    assert again == NotFound;
    var next := s.CreateItem(ItemCreate("Next", 5.0, false), {});
    assert next.id == 5;
  }
}
