/** The WebSocket side of app.py as values: the frames `broadcast` hands to
    the registered clients and the echo reply of a connection's receive loop.
    A client is an opaque handle; whether a send to it raises is an input
    (`down`, the clients whose send fails at that moment). */
module Notify {
  import opened Models
  import opened Seqs

  /** An opaque handle of one accepted WebSocket connection. */
  type ClientId = nat

  /** One JSON message sent to one client. */
  datatype Frame = Frame(to: ClientId, payload: Message)

  /** `{"event": "broadcast", "data": text}`. */
  function BroadcastPayload(text: string): Message
  {
    Message("broadcast", text)
  }

  const EchoPrefix: string := "Received: "

  /** The reply to a received message: `{"event": "echo", "data": "Received: " + data}`. */
  function EchoReply(m: Message): (r: Message)
    ensures r.event == "echo"
    ensures |EchoPrefix| <= |r.data| && r.data[..|EchoPrefix|] == EchoPrefix && r.data[|EchoPrefix|..] == m.data
  {
    Message("echo", EchoPrefix + m.data)
  }

  /** What a client reading an echo reply recovers: the data it sent, or
      `None` if the frame is not an echo reply. */
  function EchoedData(reply: Message): (r: Option<string>)
    ensures r.Some? ==> EchoPrefix + r.value == reply.data
  {
    if reply.event == "echo" && |EchoPrefix| <= |reply.data| && reply.data[..|EchoPrefix|] == EchoPrefix
    then
      assert reply.data == reply.data[..|EchoPrefix|] + reply.data[|EchoPrefix|..];
      Some(reply.data[|EchoPrefix|..])
    else None
  }

  /** The frame one send attempt delivers: nothing when the send fails. */
  function Deliver(c: ClientId, down: set<ClientId>, m: Message): seq<Frame>
  {
    if c in down then [] else [Frame(c, m)]
  }

  /** The frames delivered by attempting `m` on every client, in list order,
      a failed send being skipped. */
  function Fanout(clients: seq<ClientId>, down: set<ClientId>, m: Message): (r: seq<Frame>)
    ensures |r| <= |clients|
    decreases |clients|
  {
    if clients == [] then []
    else Fanout(clients[..|clients| - 1], down, m) + Deliver(clients[|clients| - 1], down, m)
  }

  /** `for client in websocket_clients` as written, when the handle `gone`
      leaves the live list (a disconnect) while the send at position `at` is
      pending: Python's list iterator keeps its position, so it goes on at
      `at + 1` in the shortened list. */
  function LiveFanout(clients: seq<ClientId>, down: set<ClientId>, m: Message, gone: ClientId, at: nat): (r: seq<Frame>)
    requires at < |clients|
    ensures |r| <= |clients|
  {
    var rest := RemoveFirst(clients, gone);
    Fanout(clients[..at + 1], down, m) + (if at + 1 <= |rest| then Fanout(rest[at + 1..], down, m) else [])
  }

  /** A handle removed at or before the iterator's position makes the live
      iteration skip the next handle, which a broadcast over the registry as
      it stood on entry reaches. */
  lemma LiveFanoutSkips(clients: seq<ClientId>, down: set<ClientId>, m: Message, j: nat, at: nat)
    requires NoDup(clients) && j <= at && at + 1 < |clients|
    requires clients[at + 1] !in down
    ensures Frame(clients[at + 1], m) !in LiveFanout(clients, down, m, clients[j], at)
    ensures Frame(clients[at + 1], m) in Fanout(clients, down, m)
  {
    var next := clients[at + 1];
    var rest := RemoveFirst(clients, clients[j]);
    assert rest[at + 1..] == clients[at + 2..] by {
      RemoveDistinctAt(clients, j);
      DropAfterCut(clients, j, at + 1);
    }
    var head, tail := Fanout(clients[..at + 1], down, m), Fanout(clients[at + 2..], down, m);
    assert LiveFanout(clients, down, m, clients[j], at) == head + tail;
    DistinctApart(clients, at + 1);
    assert Frame(next, m) !in head by {
      FanoutOnlyLive(clients[..at + 1], down, m);
    }
    assert Frame(next, m) !in tail by {
      FanoutOnlyLive(clients[at + 2..], down, m);
    }
    FanoutReaches(clients, down, m);
  }

  /** The number of registered clients whose send fails. */
  function Failing(clients: seq<ClientId>, down: set<ClientId>): nat
    decreases |clients|
  {
    if clients == [] then 0
    else Failing(clients[..|clients| - 1], down) + (if clients[|clients| - 1] in down then 1 else 0)
  }

  /** The frames one mutation handler sends: one broadcast when it issues a
      notice, none otherwise. */
  function Deliveries(clients: seq<ClientId>, down: set<ClientId>, notice: Option<string>): seq<Frame>
  {
    match notice
    case Some(text) => Fanout(clients, down, BroadcastPayload(text))
    case None => []
  }

  /** The notices one handler adds to the broadcast log. */
  function Announce(notice: Option<string>): seq<string>
  {
    match notice
    case Some(text) => [text]
    case None => []
  }

  /** The replies a connection sends for the messages it receives, in order. */
  function EchoFrames(c: ClientId, incoming: seq<Message>): (r: seq<Frame>)
    ensures |r| == |incoming|
    ensures forall i :: 0 <= i < |incoming| ==> r[i].to == c && EchoedData(r[i].payload) == Some(incoming[i].data)
  {
    seq(|incoming|, i requires 0 <= i < |incoming| => Frame(c, EchoReply(incoming[i])))
  }

  /** A client reading an echo reply recovers exactly the data it sent. */
  lemma EchoRoundTrip(m: Message)
    ensures EchoReply(m).event == "echo"
    ensures EchoedData(EchoReply(m)) == Some(m.data)
  {
  }

  /** Broadcasting to clients `a` then to clients `b` is broadcasting to
      `a + b`: delivery follows the registry's order. */
  lemma {:induction false} FanoutAppend(a: seq<ClientId>, b: seq<ClientId>, down: set<ClientId>, m: Message)
    ensures Fanout(a + b, down, m) == Fanout(a, down, m) + Fanout(b, down, m)
    decreases |b|
  {
    if b == [] {
      assert a + b == a;
    } else {
      var b' := b[..|b| - 1];
      assert (a + b)[..|a + b| - 1] == a + b';
      assert (a + b)[|a + b| - 1] == b[|b| - 1];
      FanoutAppend(a, b', down, m);
    }
  }

  /** Every registered client whose send does not fail receives the message,
      whichever other clients fail. */
  lemma {:induction false} FanoutReaches(clients: seq<ClientId>, down: set<ClientId>, m: Message)
    ensures forall i :: 0 <= i < |clients| && clients[i] !in down ==> Frame(clients[i], m) in Fanout(clients, down, m)
    decreases |clients|
  {
    if clients != [] {
      var init := clients[..|clients| - 1];
      FanoutReaches(init, down, m);
      forall i | 0 <= i < |init| && init[i] !in down
        ensures Frame(clients[i], m) in Fanout(clients, down, m)
      {
        assert clients[i] == init[i];
      }
    }
  }

  /** Broadcast sends only the message, only to registered clients, and never
      to a client whose send fails. */
  lemma {:induction false} FanoutOnlyLive(clients: seq<ClientId>, down: set<ClientId>, m: Message)
    ensures forall f :: f in Fanout(clients, down, m) ==> f.payload == m && f.to in clients && f.to !in down
    decreases |clients|
  {
    if clients != [] {
      var init := clients[..|clients| - 1];
      FanoutOnlyLive(init, down, m);
      forall f | f in Fanout(init, down, m) ensures f.to in clients {
        var k :| 0 <= k < |init| && init[k] == f.to;
        assert clients[k] == f.to;
      }
    }
  }

  /** Each failed send costs exactly one delivery: the number of frames is
      the number of clients minus the number whose send fails. */
  lemma {:induction false} FanoutCount(clients: seq<ClientId>, down: set<ClientId>, m: Message)
    ensures |Fanout(clients, down, m)| == |clients| - Failing(clients, down)
    decreases |clients|
  {
    if clients != [] {
      FanoutCount(clients[..|clients| - 1], down, m);
    }
  }

  /** With N registered clients of which exactly one fails, the other N - 1
      each receive the message, and N - 1 frames go out. */
  lemma OneFailure(clients: seq<ClientId>, down: set<ClientId>, m: Message, j: nat)
    requires j < |clients|
    requires forall i :: 0 <= i < |clients| ==> (clients[i] in down <==> i == j)
    ensures |Fanout(clients, down, m)| == |clients| - 1
    ensures forall i :: 0 <= i < |clients| && i != j ==> Frame(clients[i], m) in Fanout(clients, down, m)
  {
    FanoutCount(clients, down, m);
    FanoutReaches(clients, down, m);
    FailingOnlyOne(clients, down, j);
  }

  lemma {:induction false} FailingOnlyOne(clients: seq<ClientId>, down: set<ClientId>, j: nat)
    requires j < |clients|
    requires forall i :: 0 <= i < |clients| ==> (clients[i] in down <==> i == j)
    ensures Failing(clients, down) == 1
    decreases |clients|
  {
    var init := clients[..|clients| - 1];
    if j == |clients| - 1 {
      FailingNone(init, down);
    } else {
      FailingOnlyOne(init, down, j);
    }
  }

  lemma {:induction false} FailingNone(clients: seq<ClientId>, down: set<ClientId>)
    requires forall i :: 0 <= i < |clients| ==> clients[i] !in down
    ensures Failing(clients, down) == 0
    decreases |clients|
  {
    if clients != [] {
      FailingNone(clients[..|clients| - 1], down);
    }
  }
}
