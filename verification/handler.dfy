/** The `WsClientHandler` bookkeeping and `Server.route_udp_msg`, as a
    state machine over events, with no sockets. `clients` and
    `jausAddresses` are class attributes, so every handler shares the same
    two lists: a source address that arrives through any client is
    recorded once, and closing any client disconnects every recorded
    address. Effects are what the handler asks of the UDP socket and of the
    WebSocket clients, in order. */
module Handler {
  import opened Results
  import opened Json
  import opened Serializer

  /** One WebSocket connection (one `WsClientHandler` instance). */
  type Client = nat

  /** `WsClientHandler.clients`, the shared `jausAddresses`, and whether
      `WsClientHandler.udpSocket` is set. */
  datatype State = State(clients: seq<Client>, addresses: seq<JausAddress>, udp: bool)

  /** Before `Server.start`: no clients, no addresses, no UDP socket. */
  const Initial := State([], [], false)

  /** What a client is sent: the `' - disconnected'` notice naming the
      closed client, or the JSON of a routed UDP message. */
  datatype Note = Disconnected(who: Client) | Routed(json: Unpacked)

  datatype Effect =
    | Connect(address: JausAddress)                  // udpSocket.connectJausAddress
    | Disconnect(address: JausAddress)               // udpSocket.disconnectJausAddress
    | SendUdp(messageId: Value, message: Outgoing)   // udpSocket.send_queued(Message(messageId))
    | SendWs(client: Client, note: Note)             // client.send_message

  datatype Event =
    | Start                                          // `Server.start` sets `udpSocket`
    | Shutdown                                       // `Server.shutdown` clears it
    | Opened(client: Client)                         // `connected`
    | Received(client: Client, json: Option<Value>)  // `handle`; `None` where `json.loads` raises
    | Closed(client: Client)                         // `handle_close`
    | Udp(message: Incoming)                         // `route_udp_msg`

  datatype Outcome = Outcome(state: State, effects: seq<Effect>)

  predicate NoDuplicates<T(==)>(s: seq<T>) {
    forall p, q :: 0 <= p < q < |s| ==> s[p] != s[q]
  }

  // ---- the three handlers ----

  /** `handle`: parse the text, record and connect its source address if
      it is new, then build, pack and send the message. Packing is not
      checked: what `pack` left in the message is sent even when it
      returned False. An exception ends the handler with what was done. */
  function Handle(st: State, json: Option<Value>, reg: Registry, addrOf: AddressParser): (o: Outcome)
    ensures o.state.clients == st.clients && o.state.udp == st.udp
    ensures st.addresses <= o.state.addresses && |o.state.addresses| <= |st.addresses| + 1
    ensures NoDuplicates(st.addresses) ==> NoDuplicates(o.state.addresses)
    ensures |o.state.addresses| > |st.addresses| ==>
      o.state.addresses[|st.addresses|] !in st.addresses && |o.effects| >= 1
      && o.effects[0] == Connect(o.state.addresses[|st.addresses|])
    ensures forall a :: Connect(a) in o.effects ==> a !in st.addresses && a in o.state.addresses
    ensures st.udp && json.Some? && Has(json.value, "jausIdSrc") && addrOf(Get(json.value, "jausIdSrc")).Some? ==>
      addrOf(Get(json.value, "jausIdSrc")).value in o.state.addresses
    ensures forall k :: 0 <= k < |o.effects| ==> o.effects[k].Connect? || o.effects[k].SendUdp?
    ensures st.udp && json.Some? && Has(json.value, "jausIdSrc") && addrOf(Get(json.value, "jausIdSrc")).Some?
            && Has(json.value, "messageId") ==>
      |o.effects| >= 1 && o.effects[|o.effects| - 1]
        == SendUdp(Get(json.value, "messageId"), Pack(reg, json.value, addrOf, Outgoing(None, None, [])).message)
  {
    if !st.udp || json.None? then Outcome(st, [])
    else
      var env := json.value;
      if !Has(env, "jausIdSrc") || addrOf(Get(env, "jausIdSrc")).None? then Outcome(st, [])
      else
        var a := addrOf(Get(env, "jausIdSrc")).value;
        var st1 := if a in st.addresses then st else st.(addresses := st.addresses + [a]);
        var fx := if a in st.addresses then [] else [Connect(a)];
        if !Has(env, "messageId") then Outcome(st1, fx)
        else
          var p := Pack(reg, env, addrOf, Outgoing(None, None, []));
          Outcome(st1, fx + [SendUdp(Get(env, "messageId"), p.message)])
  }

  /** The position of the first occurrence of `x`. */
  function FirstIndex<T(==)>(s: seq<T>, x: T): (k: nat)
    requires x in s
    ensures k < |s| && s[k] == x && x !in s[..k]
  {
    if s[0] == x then 0
    else
      assert s == [s[0]] + s[1..];
      var k := FirstIndex(s[1..], x);
      assert s[..k + 1] == [s[0]] + s[1..][..k];
      k + 1
  }

  /** `list.remove`: drop the first occurrence and keep the others in order. */
  function RemoveFirst<T(==)>(s: seq<T>, x: T): (r: seq<T>)
    requires x in s
    ensures |r| == |s| - 1
    ensures multiset(r) == multiset(s) - multiset{x}
    ensures exists k :: 0 <= k < |s| && s[k] == x && x !in s[..k] && r == s[..k] + s[k + 1..]
  {
    var k := FirstIndex(s, x);
    assert s == s[..k] + [x] + s[k + 1..];
    s[..k] + s[k + 1..]
  }

  /** A `Disconnect` for each address, in list order. */
  function Disconnects(addrs: seq<JausAddress>): (r: seq<Effect>)
    ensures |r| == |addrs| && forall k :: 0 <= k < |addrs| ==> r[k] == Disconnect(addrs[k])
  {
    if |addrs| == 0 then [] else [Disconnect(addrs[0])] + Disconnects(addrs[1..])
  }

  /** The same note to each client, in list order. */
  function Broadcast(clients: seq<Client>, note: Note): (r: seq<Effect>)
    ensures |r| == |clients| && forall k :: 0 <= k < |clients| ==> r[k] == SendWs(clients[k], note)
  {
    if |clients| == 0 then [] else [SendWs(clients[0], note)] + Broadcast(clients[1..], note)
  }

  /** `handle_close`: remove the client, disconnect every recorded address
      and forget them all, then tell the remaining clients. Removing a
      client that is not in the list raises before anything changes;
      without a UDP socket the first disconnect raises after the removal. */
  function Close(st: State, c: Client): (o: Outcome)
    ensures c !in st.clients ==> o == Outcome(st, [])
    ensures c in st.clients ==> multiset(o.state.clients) == multiset(st.clients) - multiset{c}
    ensures c in st.clients ==> o.state.clients == RemoveFirst(st.clients, c)
    ensures o.state.udp == st.udp
    ensures c in st.clients && !st.udp && |st.addresses| > 0 ==> o.state.addresses == st.addresses && o.effects == []
    ensures c in st.clients && (st.udp || |st.addresses| == 0) ==>
      && o.state.addresses == []
      && |o.effects| == |st.addresses| + |o.state.clients|
      && (forall k :: 0 <= k < |st.addresses| ==> o.effects[k] == Disconnect(st.addresses[k]))
      && forall k :: 0 <= k < |o.state.clients| ==>
           o.effects[|st.addresses| + k] == SendWs(o.state.clients[k], Disconnected(c))
  {
    if c !in st.clients then Outcome(st, [])
    else
      var rest := RemoveFirst(st.clients, c);
      if !st.udp && |st.addresses| > 0 then Outcome(st.(clients := rest), [])
      else Outcome(State(rest, [], st.udp), Disconnects(st.addresses) + Broadcast(rest, Disconnected(c)))
  }

  /** `route_udp_msg`: the message unpacked once and the same JSON sent to
      every client, in list order. */
  function Route(st: State, m: Incoming, reg: Registry): (o: Outcome)
    ensures o.state == st
    ensures |o.effects| == |st.clients|
    ensures forall k :: 0 <= k < |st.clients| ==> o.effects[k] == SendWs(st.clients[k], Routed(Unpack(reg, m)))
  {
    Outcome(st, Broadcast(st.clients, Routed(Unpack(reg, m))))
  }

  // ---- runs ----

  function Step(st: State, e: Event, reg: Registry, addrOf: AddressParser): Outcome {
    match e
    case Start => Outcome(st.(udp := true), [])
    case Shutdown => Outcome(st.(udp := false), [])
    case Opened(c) => Outcome(st.(clients := st.clients + [c]), [])
    case Received(_, json) => Handle(st, json, reg, addrOf)
    case Closed(c) => Close(st, c)
    case Udp(m) => Route(st, m, reg)
  }

  /** The events one after another, the effects of each after the last's. */
  function Run(st: State, events: seq<Event>, reg: Registry, addrOf: AddressParser): Outcome
    decreases |events|
  {
    if |events| == 0 then Outcome(st, [])
    else
      var o := Step(st, events[0], reg, addrOf);
      var rest := Run(o.state, events[1..], reg, addrOf);
      Outcome(rest.state, o.effects + rest.effects)
  }

  // ---- connects and disconnects balance ----

  /** Connects of `a` less disconnects of `a`. */
  function Net(fx: seq<Effect>, a: JausAddress): int
    decreases |fx|
  {
    if |fx| == 0 then 0
    else
      (match fx[0]
       case Connect(b) => if b == a then 1 else 0
       case Disconnect(b) => if b == a then -1 else 0
       case _ => 0) + Net(fx[1..], a)
  }

  function Recorded(st: State, a: JausAddress): int {
    if a in st.addresses then 1 else 0
  }

  lemma {:induction false} NetAppend(x: seq<Effect>, y: seq<Effect>, a: JausAddress)
    ensures Net(x + y, a) == Net(x, a) + Net(y, a)
    decreases |x|
  {
    if |x| > 0 {
      assert (x + y)[1..] == x[1..] + y;
      NetAppend(x[1..], y, a);
    } else {
      assert x + y == y;
    }
  }

  lemma {:induction false} NetDisconnects(addrs: seq<JausAddress>, a: JausAddress)
    requires NoDuplicates(addrs)
    ensures Net(Disconnects(addrs), a) == if a in addrs then -1 else 0
    decreases |addrs|
  {
    if |addrs| > 0 {
      var fx := Disconnects(addrs);
      assert fx[1..] == Disconnects(addrs[1..]);
      NoDuplicatesTail(addrs);
      NetDisconnects(addrs[1..], a);
    }
  }

  /** The tail of a list without duplicates has none and lacks the head. */
  lemma NoDuplicatesTail<T>(s: seq<T>)
    requires NoDuplicates(s) && |s| > 0
    ensures NoDuplicates(s[1..]) && s[0] !in s[1..]
    ensures forall x :: x in s <==> x == s[0] || x in s[1..]
  {
    assert s == [s[0]] + s[1..];
  }

  lemma {:induction false} NetBroadcast(clients: seq<Client>, note: Note, a: JausAddress)
    ensures Net(Broadcast(clients, note), a) == 0
    decreases |clients|
  {
    if |clients| > 0 {
      assert Broadcast(clients, note)[1..] == Broadcast(clients[1..], note);
      NetBroadcast(clients[1..], note, a);
    }
  }

  /** One event changes the connects-less-disconnects of an address by as
      much as it changes whether the address is recorded. */
  lemma StepBalance(st: State, e: Event, reg: Registry, addrOf: AddressParser, a: JausAddress)
    requires NoDuplicates(st.addresses)
    ensures NoDuplicates(Step(st, e, reg, addrOf).state.addresses)
    ensures Net(Step(st, e, reg, addrOf).effects, a)
      == Recorded(Step(st, e, reg, addrOf).state, a) - Recorded(st, a)
  {
    var o := Step(st, e, reg, addrOf);
    match e
    case Start =>
    case Shutdown =>
    case Opened(c) =>
    case Received(_, json) => HandleBalance(st, json, reg, addrOf, a);
    case Closed(c) =>
      if c in st.clients && (st.udp || |st.addresses| == 0) {
        var rest := RemoveFirst(st.clients, c);
        NetAppend(Disconnects(st.addresses), Broadcast(rest, Disconnected(c)), a);
        NetDisconnects(st.addresses, a);
        NetBroadcast(rest, Disconnected(c), a);
      }
    case Udp(m) => NetBroadcast(st.clients, Routed(Unpack(reg, m)), a);
  }

  lemma HandleBalance(st: State, json: Option<Value>, reg: Registry, addrOf: AddressParser, a: JausAddress)
    ensures Net(Handle(st, json, reg, addrOf).effects, a)
      == Recorded(Handle(st, json, reg, addrOf).state, a) - Recorded(st, a)
  {
    var o := Handle(st, json, reg, addrOf);
    if st.udp && json.Some? && Has(json.value, "jausIdSrc") && addrOf(Get(json.value, "jausIdSrc")).Some? {
      var b := addrOf(Get(json.value, "jausIdSrc")).value;
      var fx := if b in st.addresses then [] else [Connect(b)];
      if Has(json.value, "messageId") {
        var p := Pack(reg, json.value, addrOf, Outgoing(None, None, []));
        NetAppend(fx, [SendUdp(Get(json.value, "messageId"), p.message)], a);
      }
      assert a in o.state.addresses <==> a in st.addresses || (b !in st.addresses && a == b);
    }
  }

  /** Over any run, each address has been connected once more than it has
      been disconnected exactly when it ends up recorded, and the record
      never holds an address twice. */
  lemma {:induction false} RunBalance(st: State, events: seq<Event>, reg: Registry, addrOf: AddressParser,
                                      a: JausAddress)
    requires NoDuplicates(st.addresses)
    ensures NoDuplicates(Run(st, events, reg, addrOf).state.addresses)
    ensures Net(Run(st, events, reg, addrOf).effects, a)
      == Recorded(Run(st, events, reg, addrOf).state, a) - Recorded(st, a)
    decreases |events|
  {
    if |events| > 0 {
      var o := Step(st, events[0], reg, addrOf);
      StepBalance(st, events[0], reg, addrOf, a);
      RunBalance(o.state, events[1..], reg, addrOf, a);
      NetAppend(o.effects, Run(o.state, events[1..], reg, addrOf).effects, a);
    }
  }

  /** From the start, the UDP side holds a connection for exactly the
      recorded addresses: connects less disconnects is 1 for a recorded
      address and 0 for any other. */
  lemma ConnectedIffRecorded(events: seq<Event>, reg: Registry, addrOf: AddressParser, a: JausAddress)
    ensures Net(Run(Initial, events, reg, addrOf).effects, a) == Recorded(Run(Initial, events, reg, addrOf).state, a)
  {
    RunBalance(Initial, events, reg, addrOf, a);
  }

  /** The address list is shared: the source address of a message that
      arrived through one client is disconnected when any other client
      closes. */
  lemma SharedAddresses(st: State, c: Client, d: Client, env: Value, a: JausAddress, reg: Registry,
                        addrOf: AddressParser)
    requires st.udp && c in st.clients && d in st.clients && c != d
    requires Has(env, "jausIdSrc") && addrOf(Get(env, "jausIdSrc")) == Some(a)
    ensures Disconnect(a) in Step(Step(st, Received(d, Some(env)), reg, addrOf).state, Closed(c), reg, addrOf).effects
  {
    var st1 := Handle(st, Some(env), reg, addrOf).state;
    StepReceived(st, d, env, reg, addrOf);
    assert st1.udp && c in st1.clients && a in st1.addresses;
    CloseDisconnects(st1, c, a);
    StepClosed(st1, c, reg, addrOf);
  }

  /** A received message is handled. */
  lemma StepReceived(st: State, d: Client, env: Value, reg: Registry, addrOf: AddressParser)
    ensures Step(st, Received(d, Some(env)), reg, addrOf) == Handle(st, Some(env), reg, addrOf)
  {
  }

  /** A closed client is closed. */
  lemma StepClosed(st: State, c: Client, reg: Registry, addrOf: AddressParser)
    ensures Step(st, Closed(c), reg, addrOf) == Close(st, c)
  {
  }

  /** Closing a client with the UDP socket set disconnects every recorded
      address. */
  lemma CloseDisconnects(st: State, c: Client, a: JausAddress)
    requires st.udp && c in st.clients && a in st.addresses
    ensures Disconnect(a) in Close(st, c).effects
  {
    var k :| 0 <= k < |st.addresses| && st.addresses[k] == a;
    assert Close(st, c).effects[k] == Disconnect(a);
  }
}
