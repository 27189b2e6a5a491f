/** The broadcast hub of src/websocket/webSocketManager.ts: a registry of
    connected clients and a keyed queue holding the latest message per key,
    replayed to every client that connects and to all clients after each
    update. Sockets, the listening server and event callbacks are transport;
    what is kept is the effect on the registry, the queue and the sequence of
    sends. */
module WebSocket {
  import opened Wrappers
  import opened Sequences

  /** The topic key and command name of the rule table
      (src/websocket/WebSocketConstants.ts). */
  const RULE_TABLE_MSG := "RULE_TABLE"

  /** A client connection. `isOpen` stands for `readyState === WebSocket.OPEN`. */
  class Socket {
    var isOpen: bool

    constructor (isOpen: bool)
      ensures this.isOpen == isOpen
    {
      this.isOpen := isOpen;
    }

    /** `ws.close()`: the connection leaves the OPEN state. */
    method Close()
      modifies this
      ensures !isOpen
    {
      isOpen := false;
    }
  }

  /** One `ws.send(message)` performed by the hub. */
  datatype Send = Send(client: Socket, message: string)

  // ---------------------------------------------------------------------------
  // What a replay sends

  /** The non-null queued messages in key order: what `forEach` over
      `Object.keys(messageQueue)` hands to `ws.send`. */
  function QueuedMessages(keys: seq<string>, queue: map<string, Option<string>>): seq<string>
    decreases |keys|
  {
    if keys == [] then []
    else
      var k := keys[|keys| - 1];
      QueuedMessages(keys[..|keys| - 1], queue) + (if k in queue && queue[k].Some? then [queue[k].value] else [])
  }

  /** One send of each of `messages`, in order, to `client`. */
  function SendsTo(client: Socket, messages: seq<string>): (r: seq<Send>)
    ensures |r| == |messages|
    ensures forall i :: 0 <= i < |r| ==> r[i] == Send(client, messages[i])
  {
    seq(|messages|, i requires 0 <= i < |messages| => Send(client, messages[i]))
  }

  /** What `sendQueuedMessagesToClient(ws)` sends: the queued messages if the
      client is open, nothing otherwise. */
  function QueuedSendsTo(ws: Socket, keys: seq<string>, queue: map<string, Option<string>>): seq<Send>
    reads ws
  {
    if ws.isOpen then SendsTo(ws, QueuedMessages(keys, queue)) else []
  }

  /** What `sendMessagesToAllClients()` sends: a full replay to each client,
      in registry order. */
  function ReplayToAll(clients: seq<Socket>, keys: seq<string>, queue: map<string, Option<string>>): seq<Send>
    reads clients
    decreases |clients|
  {
    if clients == [] then []
    else ReplayToAll(clients[..|clients| - 1], keys, queue) + QueuedSendsTo(clients[|clients| - 1], keys, queue)
  }

  /** Replaying to one more client appends that client's replay. */
  lemma ReplayToAllStep(clients: seq<Socket>, i: nat, keys: seq<string>, queue: map<string, Option<string>>)
    requires i < |clients|
    ensures ReplayToAll(clients[..i + 1], keys, queue) == ReplayToAll(clients[..i], keys, queue) + QueuedSendsTo(clients[i], keys, queue)
  {
    assert clients[..i + 1][..i] == clients[..i];
  }

  /** The clients in OPEN state, in registry order. */
  function OpenClients(clients: seq<Socket>): seq<Socket>
    reads clients
    decreases |clients|
  {
    if clients == [] then []
    else
      var c := clients[|clients| - 1];
      OpenClients(clients[..|clients| - 1]) + (if c.isOpen then [c] else [])
  }

  /** `clients` without `ws`; the order of the others is kept. */
  function Without(clients: seq<Socket>, ws: Socket): (r: seq<Socket>)
    ensures forall i :: 0 <= i < |r| ==> r[i] in clients && r[i] != ws
    ensures forall i :: 0 <= i < |clients| && clients[i] != ws ==> clients[i] in r
    ensures NoDuplicates(clients) ==> NoDuplicates(r)
    decreases |clients|
  {
    if clients == [] then []
    else
      var c := clients[|clients| - 1];
      Without(clients[..|clients| - 1], ws) + (if c == ws then [] else [c])
  }

  predicate NoDuplicates<T(==)>(s: seq<T>)
  {
    forall i, j :: 0 <= i < j < |s| ==> s[i] != s[j]
  }

  // ---------------------------------------------------------------------------
  // The hub

  class WebSocketManager {
    /** The `Set<WebSocket>` of connected clients, in insertion order. */
    var clients: seq<Socket>
    /** `Object.keys(messageQueue)`, in insertion order. */
    var keys: seq<string>
    /** The latest message per key; `None` stands for `null`. */
    var messageQueue: map<string, Option<string>>
    /** Every `ws.send` the hub has performed, in order. */
    ghost var sent: seq<Send>
    /** Every `client.close()` the hub has performed, in order. */
    ghost var closeRequests: seq<Socket>
    /** How many times `server.close` has been called. */
    ghost var serverCloseCalls: nat

    ghost predicate Valid()
      reads this`clients, this`keys, this`messageQueue
    {
      && NoDuplicates(clients)
      && NoDuplicates(keys)
      && (forall k :: k in messageQueue <==> k in keys)
    }

    /** A new hub: no clients, an empty queue, nothing sent. */
    constructor (port: nat)
      ensures Valid()
      ensures clients == [] && keys == [] && messageQueue == map[]
      ensures sent == [] && closeRequests == [] && serverCloseCalls == 0
    {
      clients := [];
      keys := [];
      messageQueue := map[];
      sent := [];
      closeRequests := [];
      serverCloseCalls := 0;
    }

    /** Sends every non-null queued message, in key order, to `ws` if it is
        open; nothing if it is not. */
    method SendQueuedMessagesToClient(ws: Socket)
      modifies this`sent
      ensures sent == old(sent) + QueuedSendsTo(ws, keys, messageQueue)
    {
      if ws.isOpen {
        ghost var before := sent;
        var i := 0;
        while i < |keys|
          invariant 0 <= i <= |keys|
          invariant sent == before + SendsTo(ws, QueuedMessages(keys[..i], messageQueue))
        {
          var key := keys[i];
          assert keys[..i + 1][..i] == keys[..i];
          if key in messageQueue && messageQueue[key].Some? {
            sent := sent + [Send(ws, messageQueue[key].value)];
          }
          i := i + 1;
        }
        assert keys[..i] == keys;
      }
    }

    /** A full replay of the queue to every registered client. */
    method SendMessagesToAllClients()
      modifies this`sent
      ensures sent == old(sent) + ReplayToAll(clients, keys, messageQueue)
    {
      var i := 0;
      ghost var done: seq<Send> := [];
      while i < |clients|
        invariant 0 <= i <= |clients|
        invariant done == ReplayToAll(clients[..i], keys, messageQueue)
        invariant sent == old(sent) + done
      {
        ghost var step := QueuedSendsTo(clients[i], keys, messageQueue);
        ReplayToAllStep(clients, i, keys, messageQueue);
        SendQueuedMessagesToClient(clients[i]);
        AppendAssociative(old(sent), done, step);
        done := done + step;
        i := i + 1;
      }
      assert clients[..i] == clients;
    }

    /** A new connection: the client joins the registry (a client already in
        it keeps its place) and receives the queued messages; nobody else is
        sent anything. */
    method OnConnection(ws: Socket)
      requires Valid()
      modifies this`clients, this`sent
      ensures Valid()
      ensures clients == if ws in old(clients) then old(clients) else old(clients) + [ws]
      ensures sent == old(sent) + QueuedSendsTo(ws, keys, messageQueue)
    {
      if ws !in clients {
        clients := clients + [ws];
      }
      SendQueuedMessagesToClient(ws);
    }

    /** The client's close event: it leaves the registry; nothing else changes. */
    method OnClientClose(ws: Socket)
      requires Valid()
      modifies this`clients
      ensures Valid()
      ensures clients == Without(old(clients), ws)
    {
      clients := Without(clients, ws);
    }

    /** Sends `message` to `ws` if it is open. */
    method SendMessageToClient(ws: Socket, message: string)
      modifies this`sent
      ensures sent == old(sent) + (if ws.isOpen then [Send(ws, message)] else [])
    {
      if ws.isOpen {
        sent := sent + [Send(ws, message)];
      }
    }

    /** Sends `message` once to each open client; the queue is untouched. */
    method Broadcast(message: string)
      requires Valid()
      modifies this`sent
      ensures sent == old(sent) + SendsToEach(OpenClients(clients), message)
    {
      var i := 0;
      while i < |clients|
        invariant 0 <= i <= |clients|
        invariant sent == old(sent) + SendsToEach(OpenClients(clients[..i]), message)
      {
        assert clients[..i + 1][..i] == clients[..i];
        SendsToEachAppend(OpenClients(clients[..i]), if clients[i].isOpen then [clients[i]] else [], message);
        SendMessageToClient(clients[i], message);
        i := i + 1;
      }
      assert clients[..i] == clients;
    }

    /** Stores `message` under `key`, overwriting any earlier message for that
        key (a new key goes last), then replays the whole queue to every
        client. */
    method QueueMessage(key: string, message: string)
      requires Valid()
      modifies this`keys, this`messageQueue, this`sent
      ensures Valid()
      ensures messageQueue == old(messageQueue)[key := Some(message)]
      ensures keys == if key in old(keys) then old(keys) else old(keys) + [key]
      ensures sent == old(sent) + ReplayToAll(clients, keys, messageQueue)
    {
      if key !in keys {
        keys := keys + [key];
      }
      messageQueue := messageQueue[key := Some(message)];
      SendMessagesToAllClients();
    }

    /** Closes every open client, then the server, once. */
    method Close()
      requires Valid()
      modifies this`closeRequests, this`serverCloseCalls, clients
      ensures forall c :: c in clients ==> !c.isOpen
      ensures closeRequests == old(closeRequests) + old(OpenClients(clients))
      ensures serverCloseCalls == old(serverCloseCalls) + 1
    {
      var i := 0;
      while i < |clients|
        invariant 0 <= i <= |clients|
        invariant forall j :: 0 <= j < i ==> !clients[j].isOpen
        invariant forall j :: i <= j < |clients| ==> clients[j].isOpen == old(clients[j].isOpen)
        invariant closeRequests == old(closeRequests) + old(OpenClients(clients[..i]))
        invariant serverCloseCalls == old(serverCloseCalls)
      {
        var client := clients[i];
        assert clients[..i + 1][..i] == clients[..i];
        if client.isOpen {
          client.Close();
          closeRequests := closeRequests + [client];
        }
        i := i + 1;
      }
      assert clients[..i] == clients;
      serverCloseCalls := serverCloseCalls + 1;
    }
  }

  /** One send of `message` to each of `clients`, in order. */
  function SendsToEach(clients: seq<Socket>, message: string): (r: seq<Send>)
    ensures |r| == |clients|
    ensures forall i :: 0 <= i < |r| ==> r[i] == Send(clients[i], message)
  {
    seq(|clients|, i requires 0 <= i < |clients| => Send(clients[i], message))
  }

  lemma SendsToEachAppend(a: seq<Socket>, b: seq<Socket>, message: string)
    ensures SendsToEach(a + b, message) == SendsToEach(a, message) + SendsToEach(b, message)
  {
  }

  // ---------------------------------------------------------------------------
  // What the queue replays

  /** Replaying keys `a` then keys `b` sends what `a` sends, then what `b` sends. */
  lemma {:induction false} QueuedMessagesAppend(a: seq<string>, b: seq<string>, queue: map<string, Option<string>>)
    ensures QueuedMessages(a + b, queue) == QueuedMessages(a, queue) + QueuedMessages(b, queue)
    decreases |b|
  {
    if b != [] {
      var front := b[..|b| - 1];
      QueuedMessagesAppend(a, front, queue);
      assert (a + b)[..|a + b| - 1] == a + front;
    } else {
      assert a + b == a;
    }
  }

  /** A message is replayed exactly when some key of the queue holds it. */
  lemma {:induction false} QueuedMessagesMembership(keys: seq<string>, queue: map<string, Option<string>>, m: string)
    ensures m in QueuedMessages(keys, queue) <==>
            exists i :: 0 <= i < |keys| && keys[i] in queue && queue[keys[i]] == Some(m)
  {
    if keys != [] {
      var front := keys[..|keys| - 1];
      QueuedMessagesMembership(front, queue, m);
      if exists i :: 0 <= i < |keys| && keys[i] in queue && queue[keys[i]] == Some(m) {
        var i :| 0 <= i < |keys| && keys[i] in queue && queue[keys[i]] == Some(m);
        if i < |keys| - 1 {
          assert front[i] == keys[i];
        }
      }
    }
  }

  /** When no entry is `null` (as is the case for a queue filled only by
      `queueMessage`), the replay is one message per key, in key order. */
  lemma {:induction false} QueuedMessagesOnePerKey(keys: seq<string>, queue: map<string, Option<string>>)
    requires forall i :: 0 <= i < |keys| ==> keys[i] in queue && queue[keys[i]].Some?
    ensures |QueuedMessages(keys, queue)| == |keys|
    ensures forall i :: 0 <= i < |keys| ==> QueuedMessages(keys, queue)[i] == queue[keys[i]].value
  {
    if keys != [] {
      var front := keys[..|keys| - 1];
      QueuedMessagesOnePerKey(front, queue);
    }
  }

  /** Entries under keys outside `keys` do not affect the replay of `keys`. */
  lemma {:induction false} QueuedMessagesOtherKey(keys: seq<string>, queue: map<string, Option<string>>,
                                                  key: string, entry: Option<string>)
    requires key !in keys
    ensures QueuedMessages(keys, queue[key := entry]) == QueuedMessages(keys, queue)
  {
    if keys != [] {
      QueuedMessagesOtherKey(keys[..|keys| - 1], queue, key, entry);
    }
  }

  /** `queueMessage` under a new key: the new message is replayed last, after
      everything that was replayed before. */
  lemma QueueNewKey(keys: seq<string>, queue: map<string, Option<string>>, key: string, message: string)
    requires key !in keys
    ensures QueuedMessages(keys + [key], queue[key := Some(message)]) == QueuedMessages(keys, queue) + [message]
  {
    assert (keys + [key])[..|keys|] == keys;
    QueuedMessagesOtherKey(keys, queue, key, Some(message));
  }

  /** `queueMessage` under a key already queued: the key keeps its place and
      only its message changes. */
  lemma QueueExistingKey(before: seq<string>, key: string, after: seq<string>,
                         queue: map<string, Option<string>>, message: string)
    requires key !in before && key !in after
    ensures QueuedMessages(before + [key] + after, queue[key := Some(message)])
         == QueuedMessages(before, queue) + [message] + QueuedMessages(after, queue)
  {
    var q := queue[key := Some(message)];
    QueuedMessagesAppend(before + [key], after, q);
    QueueNewKey(before, queue, key, message);
    QueuedMessagesOtherKey(after, queue, key, Some(message));
  }

  /** Only the latest message per key is replayed: after `queueMessage(key, m)`,
      a message is replayed exactly when it is `m` or is held by another key. */
  lemma LatestPerKey(keys: seq<string>, queue: map<string, Option<string>>, key: string, m: string, other: string)
    requires key in keys
    ensures other in QueuedMessages(keys, queue[key := Some(m)]) <==>
            other == m || exists i :: 0 <= i < |keys| && keys[i] != key && keys[i] in queue && queue[keys[i]] == Some(other)
  {
    var q := queue[key := Some(m)];
    QueuedMessagesMembership(keys, q, other);
    if other == m {
      var i :| 0 <= i < |keys| && keys[i] == key;
      assert keys[i] in q && q[keys[i]] == Some(other);
    }
  }

  // ---------------------------------------------------------------------------
  // Who receives what

  /** The sends addressed to `client`, in order. */
  function AddressedTo(log: seq<Send>, client: Socket): (r: seq<Send>)
    decreases |log|
  {
    if log == [] then []
    else AddressedTo(log[..|log| - 1], client) + (if log[|log| - 1].client == client then [log[|log| - 1]] else [])
  }

  lemma {:induction false} AddressedToAppend(a: seq<Send>, b: seq<Send>, client: Socket)
    ensures AddressedTo(a + b, client) == AddressedTo(a, client) + AddressedTo(b, client)
    decreases |b|
  {
    if b == [] {
      assert a + b == a;
    } else {
      AddressedToAppend(a, b[..|b| - 1], client);
      assert (a + b)[..|a + b| - 1] == a + b[..|b| - 1];
    }
  }

  lemma {:induction false} AddressedToSendsTo(c: Socket, messages: seq<string>, client: Socket)
    ensures AddressedTo(SendsTo(c, messages), client) == if c == client then SendsTo(c, messages) else []
    decreases |messages|
  {
    if messages != [] {
      var front := messages[..|messages| - 1];
      var sends := SendsTo(c, messages);
      AddressedToSendsTo(c, front, client);
      assert sends[..|sends| - 1] == SendsTo(c, front);
      assert sends[|sends| - 1].client == c;
      if c == client {
        assert sends == SendsTo(c, front) + [sends[|sends| - 1]];
      }
    }
  }

  /** Dropping the last element keeps a sequence free of duplicates. */
  lemma FrontHasNoDuplicates<T>(s: seq<T>)
    requires s != [] && NoDuplicates(s)
    ensures NoDuplicates(s[..|s| - 1])
  {
    var front := s[..|s| - 1];
    forall i, j | 0 <= i < j < |front|
      ensures front[i] != front[j]
    {
      assert front[i] == s[i] && front[j] == s[j];
    }
  }

  /** In a sequence without duplicates the last element does not occur earlier. */
  lemma LastIsNew(s: seq<Socket>)
    requires s != [] && NoDuplicates(s)
    ensures s[|s| - 1] !in s[..|s| - 1]
  {
    forall j | 0 <= j < |s| - 1
      ensures s[j] != s[|s| - 1] && s[..|s| - 1][j] == s[j]
    {
    }
  }

  /** A replay to all clients gives each registered open client the whole
      queue, once, in key order, and sends nothing to anybody else. */
  lemma {:induction false} ReplayReachesEachOpenClient(clients: seq<Socket>, keys: seq<string>,
                                                       queue: map<string, Option<string>>, client: Socket)
    requires NoDuplicates(clients)
    ensures AddressedTo(ReplayToAll(clients, keys, queue), client) ==
            if client in clients && client.isOpen then SendsTo(client, QueuedMessages(keys, queue)) else []
    decreases |clients|
  {
    if clients != [] {
      var front := clients[..|clients| - 1];
      var last := clients[|clients| - 1];
      FrontHasNoDuplicates(clients);
      LastIsNew(clients);
      ReplayReachesEachOpenClient(front, keys, queue, client);
      var messages := QueuedMessages(keys, queue);
      var earlier := ReplayToAll(front, keys, queue);
      var tail := QueuedSendsTo(last, keys, queue);
      assert ReplayToAll(clients, keys, queue) == earlier + tail;
      AddressedToAppend(earlier, tail, client);
      assert AddressedTo(tail, client) == if last == client && last.isOpen then SendsTo(client, messages) else [] by {
        if last.isOpen {
          AddressedToSendsTo(last, messages, client);
        }
      }
      assert client in clients <==> client in front || client == last by {
        assert clients == front + [last];
      }
    }
  }

  /** The open clients are the registered clients in OPEN state, each once. */
  lemma {:induction false} OpenClientsAreOpen(clients: seq<Socket>)
    requires NoDuplicates(clients)
    ensures forall c :: c in OpenClients(clients) <==> c in clients && c.isOpen
    ensures NoDuplicates(OpenClients(clients))
    decreases |clients|
  {
    if clients != [] {
      var front := clients[..|clients| - 1];
      OpenClientsAreOpen(front);
      assert clients == front + [clients[|clients| - 1]];
      LastIsNew(clients);
    }
  }

  /** One send per client: each client of a duplicate-free list gets exactly one. */
  lemma {:induction false} AddressedToSendsToEach(clients: seq<Socket>, message: string, client: Socket)
    requires NoDuplicates(clients)
    ensures AddressedTo(SendsToEach(clients, message), client) ==
            if client in clients then [Send(client, message)] else []
    decreases |clients|
  {
    if clients != [] {
      var front := clients[..|clients| - 1];
      var last := clients[|clients| - 1];
      AddressedToSendsToEach(front, message, client);
      assert SendsToEach(clients, message)[..|clients| - 1] == SendsToEach(front, message);
      assert clients == front + [last];
      LastIsNew(clients);
    }
  }

  /** A broadcast gives each registered open client the message once and
      nobody else anything. */
  lemma BroadcastReachesEachOpenClient(clients: seq<Socket>, message: string, client: Socket)
    requires NoDuplicates(clients)
    ensures AddressedTo(SendsToEach(OpenClients(clients), message), client) ==
            if client in clients && client.isOpen then [Send(client, message)] else []
  {
    OpenClientsAreOpen(clients);
    AddressedToSendsToEach(OpenClients(clients), message, client);
  }

  /** A queue with the single key `key` replays its one message; to one
      open client that is one send. */
  lemma SingleKeyReplay(client: Socket, key: string, queue: map<string, Option<string>>, m: string)
    requires key in queue && queue[key] == Some(m)
    requires client.isOpen
    ensures QueuedMessages([key], queue) == [m]
    ensures QueuedSendsTo(client, [key], queue) == [Send(client, m)]
    ensures ReplayToAll([client], [key], queue) == [Send(client, m)]
  {
    assert [key][..0] == [];
    assert [client][..0] == [];
  }

  /** A hub on which `m` was published under `K` before one open client
      joined: that client has been sent `m`, once. */
  method PublishThenJoin(m: string) returns (hub: WebSocketManager, early: Socket)
    ensures fresh(hub) && hub.Valid()
    ensures hub.clients == [early] && early.isOpen
    ensures hub.keys == ["K"] && hub.messageQueue == map["K" := Some(m)]
    ensures hub.sent == [Send(early, m)]
  {
    hub := new WebSocketManager(8081);
    hub.QueueMessage("K", m);
    assert hub.keys == ["K"] && hub.sent == [];
    early := new Socket(true);
    hub.OnConnection(early);
    SingleKeyReplay(early, "K", hub.messageQueue, m);
  }

  /** A client that joins after `K` was published gets the current message for
      `K` once; a later publication under `K` reaches it, and a client joining
      after that sees only the newer message. */
  method LateJoinerScenario(m1: string, m2: string)
  {
    var hub, early := PublishThenJoin(m1);
    ghost var q := hub.messageQueue["K" := Some(m2)];
    SingleKeyReplay(early, "K", q, m2);
    hub.QueueMessage("K", m2);
    assert hub.sent == [Send(early, m1), Send(early, m2)];

    var late := new Socket(true);
    hub.OnConnection(late);
    SingleKeyReplay(late, "K", q, m2);
    assert hub.sent == [Send(early, m1), Send(early, m2), Send(late, m2)];
  }
}
