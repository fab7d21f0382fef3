/** The switch of `src/switch.rs`: the thread that decides where each transaction,
    user action and topic command goes. Every channel the switch sends on is
    modelled as one log of outputs, in the order they are sent. */
module Switch {
  import opened Wrappers
  import opened Bytes
  import opened Nodes
  import opened Transactions
  import opened Records
  import opened Topics
  import opened Signaling

  /** What travels on a topic's channel (`Command`). */
  datatype Command =
    | Drop(addr: Address)                       // the user's topic went out of scope
    | Broadcast(addr: Address, body: seq<Byte>) // the user publishes on the topic
    | Deliver(t: Transaction)                   // `Command::Message`: an action for the topic
    | Subscriber(addr: Address)                 // a subscriber of the topic

  /** What the user interface sends the switch (`InterfaceAction`). */
  datatype InterfaceAction =
    | Shutdown
    | UserMessage(t: Transaction)      // `InterfaceAction::Message`
    | UserSubscribe(simple: HandlerTopic) // `InterfaceAction::Subscribe`

  /** One thing the switch sends. */
  datatype Output =
    | Send(t: Transaction)               // a complete transaction to the listener
    | Emit(m: Message)                   // `Transaction::new(m)` to the listener
    | Signal(a: SignalingAction)         // to the signalling thread
    | ToUser(t: Transaction)             // `InterfaceAction::Message` to the user
    | ToTopic(channel: nat, command: Command)
    | Learn(n: Node)                     // `table.add(n)` on the routing table

  /** The switch's fixed surroundings: the centre, the two locality tests it calls
      (`Safe::should_be_local` of the routing table and `TopicBucket::is_local`,
      whose bodies are not part of this model) and the length helpers of the node
      codec. */
  datatype Context = Context(center: Center, shouldBeLocal: Address -> bool,
                             isLocal: (seq<HandlerTopic>, Address) -> bool, h: LengthCodec)

  /** The records, the local topics, everything sent so far, and whether the switch
      thread has died of a panic (after which nothing is handled any more). */
  datatype State = State(records: map<Address, Record>, topics: seq<HandlerTopic>, out: seq<Output>, halted: bool)

  // ---------------------------------------------------------------
  // Address lists and message lists
  // ---------------------------------------------------------------

  /** The addresses of `s` other than `x`, in their order. */
  function Others(s: seq<Address>, x: Address): (r: seq<Address>)
    ensures |r| <= |s|
    ensures forall a :: a in r <==> a in s && a != x
  {
    if s == [] then []
    else
      var last := s[|s| - 1];
      assert s == s[..|s| - 1] + [last];
      Others(s[..|s| - 1], x) + (if last != x then [last] else [])
  }

  /** One message of the given class from `source` to each target. */
  function Announce(kind: Class, source: Address, targets: seq<Address>, topic: Address, body: seq<Byte>): seq<Message>
  {
    seq(|targets|, i requires 0 <= i < |targets| => Message(kind, source, targets[i], topic, body))
  }

  /** The messages sent to the listener as new transactions. */
  function EmitAll(ms: seq<Message>): seq<Output>
  {
    seq(|ms|, i requires 0 <= i < |ms| => Emit(ms[i]))
  }

  /** One `Command::Subscriber` on the channel for each address. */
  function Notices(channel: nat, s: seq<Address>): seq<Output>
  {
    seq(|s|, i requires 0 <= i < |s| => ToTopic(channel, Command.Subscriber(s[i])))
  }

  /** The messages among the outputs that go to the listener as new transactions. */
  function Emits(o: seq<Output>): seq<Message>
  {
    if o == [] then []
    else Emits(o[..|o| - 1]) + (if o[|o| - 1].Emit? then [o[|o| - 1].m] else [])
  }

  /** The outputs that go to topic channels. */
  function Notified(o: seq<Output>): seq<Output>
  {
    if o == [] then []
    else Notified(o[..|o| - 1]) + (if o[|o| - 1].ToTopic? then [o[|o| - 1]] else [])
  }

  lemma {:induction false} EmitsAppend(a: seq<Output>, b: seq<Output>)
    ensures Emits(a + b) == Emits(a) + Emits(b)
    ensures Notified(a + b) == Notified(a) + Notified(b)
    decreases |b|
  {
    if b != [] {
      var b' := b[..|b| - 1];
      assert (a + b)[..|a + b| - 1] == a + b';
      assert (a + b)[|a + b| - 1] == b[|b| - 1];
      EmitsAppend(a, b');
    } else {
      assert a + b == a;
    }
  }

  /** Only new transactions are emitted by `EmitAll`, and all of them. */
  lemma {:induction false} EmitsEmitAll(ms: seq<Message>)
    ensures Emits(EmitAll(ms)) == ms && Notified(EmitAll(ms)) == []
    decreases |ms|
  {
    if ms != [] {
      var ms' := ms[..|ms| - 1];
      assert EmitAll(ms)[..|ms| - 1] == EmitAll(ms');
      EmitsEmitAll(ms');
    }
  }

  /** Notices are all topic commands and never new transactions. */
  lemma {:induction false} EmitsNotices(channel: nat, s: seq<Address>)
    ensures Emits(Notices(channel, s)) == [] && Notified(Notices(channel, s)) == Notices(channel, s)
    decreases |s|
  {
    if s != [] {
      var s' := s[..|s| - 1];
      assert Notices(channel, s)[..|s| - 1] == Notices(channel, s');
      EmitsNotices(channel, s');
      assert Notices(channel, s) == Notices(channel, s') + [Notices(channel, s)[|s| - 1]];
    }
  }

  /** `Others` of a longer prefix adds at most the next address. */
  lemma OthersSnoc(s: seq<Address>, i: nat, x: Address)
    requires i < |s|
    ensures Others(s[..i + 1], x) == Others(s[..i], x) + (if s[i] != x then [s[i]] else [])
  {
    assert s[..i + 1][..i] == s[..i];
  }

  lemma OutputsRegroup(a: seq<Output>, b: seq<Output>, c: seq<Output>)
    ensures (a + b) + c == a + (b + c)
  {
  }

  /** The notices for the addresses other than `x` among the first `i + 1`. */
  lemma NoticesSnoc(channel: nat, s: seq<Address>, i: nat, x: Address)
    requires i < |s|
    ensures Notices(channel, Others(s[..i + 1], x)) ==
      Notices(channel, Others(s[..i], x)) + (if s[i] != x then [ToTopic(channel, Command.Subscriber(s[i]))] else [])
  {
    OthersSnoc(s, i, x);
  }

  /** The subscriber lists the switch sends: each address's 32 bytes in turn
      (`subscribers.iter().for_each(... append(as_bytes()))`). */
  method BulkBytes(addrs: seq<Address>) returns (r: seq<Byte>)
    ensures r == Concat(addrs)
    ensures Chunks(r) == addrs
  {
    r := [];
    for i := 0 to |addrs|
      invariant r == Concat(addrs[..i])
    {
      ConcatSnoc(addrs[..i], addrs[i]);
      assert addrs[..i + 1] == addrs[..i] + [addrs[i]];
      r := r + addrs[i].key;
    }
    assert addrs[..|addrs|] == addrs;
    ChunksConcat(addrs);
  }

  lemma {:induction false} ConcatSnoc(addrs: seq<Address>, a: Address)
    ensures Concat(addrs + [a]) == Concat(addrs) + a.key
    decreases |addrs|
  {
    if addrs != [] {
      assert (addrs + [a])[1..] == addrs[1..] + [a];
      ConcatSnoc(addrs[1..], a);
    }
  }

  lemma AnnounceAppend(kind: Class, source: Address, a: seq<Address>, b: seq<Address>, topic: Address, body: seq<Byte>)
    ensures Announce(kind, source, a + b, topic, body) == Announce(kind, source, a, topic, body) + Announce(kind, source, b, topic, body)
  {
  }

  // ---------------------------------------------------------------
  // The handlers, as functions of the state
  // ---------------------------------------------------------------

  /** The centre as a node (`Node::new(center.public, Some(center.link))`). */
  function CenterNode(c: Context, now: int): Node
  {
    Node(now, c.center.public, Some(c.center.link))
  }

  /** `handle_ping` and `handle_lookup`: a Details message to the source whose body
      is the serialised centre node. */
  function DetailsReply(c: Context, t: Transaction, now: int): Output
  {
    Emit(Message(Class.Details, c.center.public, t.message.source, DefaultAddress(), NodeAsBytes(CenterNode(c, now), c.h)))
  }

  /** `handle_pong`: tell the signalling thread the source answered. */
  function PongEffect(s: State, t: Transaction): State
  {
    s.(out := s.out + [Signal(PongAction(t.message.source, t.uuid))])
  }

  /** `handle_details`: a body that decodes as a node adds it to the routing table
      and is reported as a pong; a body `Node::from_bytes` rejects is dropped with a
      warning; a body on which it panics (a link part shorter than eight bytes)
      ends the switch thread. */
  function DetailsEffect(s: State, t: Transaction, now: int): State
  {
    match DecodeNode(t.message.body, now)
    case Ok(node) => s.(out := s.out + [Learn(node), Signal(PongAction(t.message.source, t.uuid))])
    case Err(e) => if e == Panicked then s.(halted := true) else s
  }

  /** `handle_action`: to the topic's channel when the topic is local, otherwise to
      the user. */
  function ActionEffect(s: State, t: Transaction): State
  {
    match FindTopic(s.topics, t.message.topic)
    case Some(simple) => s.(out := s.out + [ToTopic(simple.channel, Deliver(t))])
    case None => s.(out := s.out + [ToUser(t)])
  }

  /** `handle_subscriber`: one `Command::Subscriber` per address in the body other
      than the centre, when the topic is local. */
  function SubscriberOutputs(topics: seq<HandlerTopic>, c: Context, m: Message): seq<Output>
  {
    match FindTopic(topics, m.topic)
    case Some(simple) => Notices(simple.channel, Others(Chunks(m.body), c.center.public))
    case None => []
  }

  /** `handle_unsubscriber`: the source reported on the topic's channel, as a
      `Command::Subscriber`. */
  function UnsubscriberOutputs(topics: seq<HandlerTopic>, t: Transaction): seq<Output>
  {
    match FindTopic(topics, t.message.topic)
    case Some(simple) => [ToTopic(simple.channel, Command.Subscriber(t.message.source))]
    case None => []
  }

  /** What `handle_subscribe` sends for one subscriber of a known topic: the centre
      itself gets every subscriber on the topic's channel (if the topic is local);
      any other subscriber gets a Subscriber message with the list. */
  function SubscribeSend(x: Address, all: seq<Address>, c: Context, found: Option<HandlerTopic>,
                         topic: Address, body: seq<Byte>): seq<Output>
  {
    if x == c.center.public then
      (if found.Some? then Notices(found.value.channel, all) else [])
    else [Emit(Message(Class.Subscriber, topic, x, topic, body))]
  }

  /** The loop of `handle_subscribe` over the subscribers of a known topic. */
  function SubscribeSends(rest: seq<Address>, all: seq<Address>, c: Context, found: Option<HandlerTopic>,
                          topic: Address, body: seq<Byte>): seq<Output>
  {
    if rest == [] then []
    else SubscribeSends(rest[..|rest| - 1], all, c, found, topic, body) +
         SubscribeSend(rest[|rest| - 1], all, c, found, topic, body)
  }

  /** `handle_subscribe`: a known topic gains the source and every subscriber is
      told the full list; an unknown topic gets a record whose only subscriber is
      the source, which alone is answered, with an empty list. */
  function SubscribeEffect(s: State, c: Context, m: Message): State
  {
    var topic := m.topic;
    if topic in s.records then
      var records := SubscribeIn(s.records, s.records[topic].address, m.source);
      var subscribers := records[topic].subscribers;
      s.(records := records,
         out := s.out + SubscribeSends(subscribers, subscribers, c, FindTopic(s.topics, topic), topic, Concat(subscribers)))
    else
      s.(records := s.records[topic := Records.Subscribe(NewRecord(topic), m.source)],
         out := s.out + [Emit(Message(Class.Subscriber, topic, m.source, topic, []))])
  }

  /** `handle_unsubscribe` on the message's target: without a record nothing
      happens; otherwise the source is removed, the local topic (if any) is told
      the remaining subscribers, and every former subscriber other than the source
      gets an Unsubscriber message listing the others. */
  function UnsubscribeEffect(s: State, c: Context, m: Message): State
  {
    var topic := m.target;
    if topic !in s.records then s
    else
      s.(records := UnsubscribeIn(s.records, topic, m.source),
         out := s.out + UnsubscribeSends(s.records[topic].subscribers, s.topics, c, m))
  }

  /** What `handle_unsubscribe` sends for a record with the given subscribers. */
  function UnsubscribeSends(subscribers: seq<Address>, topics: seq<HandlerTopic>, c: Context, m: Message): seq<Output>
  {
    var remaining := Others(subscribers, m.source);
    var body := Concat(remaining);
    var local := if c.isLocal(topics, m.target)
                 then SubscriberOutputs(topics, c, Message(Class.Unsubscriber, m.topic, m.source, m.target, body))
                 else [];
    local + EmitAll(Announce(Class.Unsubscriber, m.source, remaining, m.target, body))
  }

  /** Step 4 of the switch loop: a transaction for the centre goes to the handler of
      its class, except Subscribe and Unsubscribe, which are dropped; any other
      transaction is handled when it is a Subscribe or Unsubscribe and otherwise
      passed back to the listener unchanged. */
  function DispatchEffect(s: State, c: Context, t: Transaction, now: int): State
  {
    if s.halted then s
    else if t.message.target == c.center.public then
      match t.message.kind
      case Ping => s.(out := s.out + [DetailsReply(c, t, now)])
      case Pong => PongEffect(s, t)
      case Lookup => s.(out := s.out + [DetailsReply(c, t, now)])
      case Details => DetailsEffect(s, t, now)
      case Action => ActionEffect(s, t)
      case Subscriber => s.(out := s.out + SubscriberOutputs(s.topics, c, t.message))
      case Unsubscriber => s.(out := s.out + UnsubscriberOutputs(s.topics, t))
      case Subscribe => s
      case Unsubscribe => s
    else
      match t.message.kind
      case Subscribe => SubscribeEffect(s, c, t.message)
      case Unsubscribe => UnsubscribeEffect(s, c, t.message)
      case _ => s.(out := s.out + [Send(t)])
  }

  /** Step 1: a user action. Shutdown stops the switch; a message is passed to the
      listener; a subscription adds the topic and sends a Subscribe message, handled
      here when the topic should be local. The flag says whether the switch goes on;
      a switch that has died handles nothing. */
  function InterfaceEffect(s: State, c: Context, a: InterfaceAction): (State, bool)
  {
    if s.halted then (s, false)
    else
    match a
    case Shutdown => (s, false)
    case UserMessage(t) => (s.(out := s.out + [Send(t)]), true)
    case UserSubscribe(simple) =>
      var topic := simple.address;
      var added := s.(topics := AddTopic(s.topics, simple));
      var m := Message(Class.Subscribe, c.center.public, topic, topic, []);
      if c.shouldBeLocal(topic) then (SubscribeEffect(added, c, m), true)
      else (added.(out := added.out + [Emit(m)]), true)
  }

  /** Step 3: a ping or lookup request of the signalling thread is sent as a
      transaction with the action's uuid; other actions are ignored. */
  function SignalingEffect(s: State, c: Context, a: SignalingAction, now: int): State
  {
    if s.halted then s
    else
    match a.action
    case Ping => s.(out := s.out + [Send(Transaction(a.uuid, now, Message(Class.Ping, c.center.public, a.target, DefaultAddress(), [])))])
    case Lookup => s.(out := s.out + [Send(Transaction(a.uuid, now, Message(Class.Lookup, c.center.public, a.target, DefaultAddress(), [])))])
    case _ => s
  }

  /** What step 2 does for one topic with the command waiting on its channel (if
      any), and which topic it marks for dropping. */
  function PollOne(s: State, c: Context, simple: HandlerTopic, command: Option<Command>, dropper: Option<Address>): (State, Option<Address>)
  {
    var topic := simple.address;
    match command
    case Some(Drop(addr)) =>
      var next := if c.shouldBeLocal(topic)
                  then UnsubscribeEffect(s, c, Message(Class.Unsubscribe, c.center.public, topic, topic, []))
                  else s.(out := s.out + [Emit(Message(Class.Unsubscribe, c.center.public, addr, topic, []))]);
      (next, Some(topic))
    case Some(Broadcast(addr, body)) =>
      (s.(out := s.out + [Emit(Message(Class.Action, c.center.public, addr, topic, body))]), dropper)
    case _ => (s, dropper)
  }

  /** The loop of step 2 over the topics `ts`, each with the command `inbox` holds
      for its channel. */
  function PollFold(s: State, c: Context, ts: seq<HandlerTopic>, inbox: nat -> Option<Command>): (State, Option<Address>)
  {
    if ts == [] then (s, None)
    else
      var (prev, dropper) := PollFold(s, c, ts[..|ts| - 1], inbox);
      PollOne(prev, c, ts[|ts| - 1], inbox(ts[|ts| - 1].channel), dropper)
  }

  /** Step 2: poll every topic, then remove the one marked for dropping. */
  function PollEffect(s: State, c: Context, inbox: nat -> Option<Command>): State
  {
    if s.halted then s
    else
    var (next, dropper) := PollFold(s, c, s.topics, inbox);
    if dropper.Some? then next.(topics := RemoveTopic(next.topics, dropper.value).0) else next
  }

  /** The address of the last topic whose command is a drop. */
  function LastDrop(ts: seq<HandlerTopic>, inbox: nat -> Option<Command>): Option<Address>
  {
    if ts == [] then None
    else if inbox(ts[|ts| - 1].channel).Some? && inbox(ts[|ts| - 1].channel).value.Drop? then Some(ts[|ts| - 1].address)
    else LastDrop(ts[..|ts| - 1], inbox)
  }

  // ---------------------------------------------------------------
  // Properties
  // ---------------------------------------------------------------

  /** The dispatch rule: the topics never change; for the centre, Subscribe and
      Unsubscribe change nothing; elsewhere every class other than those two is
      passed to the listener unchanged and alone; the records change only for a
      Subscribe or Unsubscribe not addressed to the centre; nothing sent before is
      lost; and the switch dies exactly on a Details message for the centre whose
      body makes `Node::from_bytes` panic, and then stays dead. */
  lemma DispatchFacts(s: State, c: Context, t: Transaction, now: int)
    ensures DispatchEffect(s, c, t, now).topics == s.topics
    ensures s.out <= DispatchEffect(s, c, t, now).out
    ensures t.message.target == c.center.public && t.message.kind in {Class.Subscribe, Class.Unsubscribe} ==>
      DispatchEffect(s, c, t, now) == s
    ensures !s.halted && t.message.target != c.center.public && t.message.kind !in {Class.Subscribe, Class.Unsubscribe} ==>
      DispatchEffect(s, c, t, now) == s.(out := s.out + [Send(t)])
    ensures DispatchEffect(s, c, t, now).records != s.records ==>
      t.message.target != c.center.public && t.message.kind in {Class.Subscribe, Class.Unsubscribe}
    ensures DispatchEffect(s, c, t, now).halted <==>
      s.halted || (t.message.target == c.center.public && t.message.kind == Class.Details &&
                   DecodeNode(t.message.body, now) == Err(Panicked))
  {
    if s.halted {
    } else if t.message.target == c.center.public {
      DispatchLocal(s, c, t, now);
    } else {
      EffectFrames(s, c, t.message);
    }
  }

  /** A transaction for the centre changes only the outputs, and only by appending,
      apart from the death of the switch. */
  lemma DispatchLocal(s: State, c: Context, t: Transaction, now: int)
    requires t.message.target == c.center.public
    ensures exists sent :: DispatchEffect(s, c, t, now) == s.(out := s.out + sent, halted := DispatchEffect(s, c, t, now).halted)
    ensures t.message.kind in {Class.Subscribe, Class.Unsubscribe} ==> DispatchEffect(s, c, t, now) == s
  {
    var r := DispatchEffect(s, c, t, now);
    if s.halted {
      assert r == s.(out := s.out + [], halted := r.halted);
      return;
    }
    match t.message.kind {
      case Details =>
        assert r == s.(out := s.out + r.out[|s.out|..], halted := r.halted);
      case Action =>
        assert r == s.(out := s.out + r.out[|s.out|..], halted := r.halted);
      case Pong =>
        assert r == s.(out := s.out + r.out[|s.out|..], halted := r.halted);
      case Subscribe =>
        assert r == s.(out := s.out + [], halted := r.halted);
      case Unsubscribe =>
        assert r == s.(out := s.out + [], halted := r.halted);
      case _ =>
        assert r == s.(out := s.out + r.out[|s.out|..], halted := r.halted);
    }
  }

  /** A ping or lookup for the centre is answered with exactly one Details message
      to the source, whose body reads back as the centre: its address and a fresh
      link with its ip and port. */
  lemma PingReplyFacts(s: State, c: Context, t: Transaction, now: int, later: int)
    requires !s.halted
    requires t.message.target == c.center.public && t.message.kind in {Class.Ping, Class.Lookup}
    ensures DispatchEffect(s, c, t, now) == s.(out := s.out + [DetailsReply(c, t, now)])
    ensures var m := DetailsReply(c, t, now).m;
      m.kind == Class.Details && m.source == c.center.public && m.target == t.message.source &&
      DecodeNode(m.body, later).Ok? && DecodeNode(m.body, later).value.address == c.center.public &&
      DecodeNode(m.body, later).value.link == Some(NewLink(c.center.link.ip, c.center.link.port))
  {
    NodeRoundTrip(CenterNode(c, now), c.h, later);
  }

  /** The Details reply a centre sends is accepted by the node that asked: it
      learns a node with the centre's address and reports a pong from it. */
  lemma DetailsRoundTrip(s: State, server: Context, client: Context, t: Transaction, uuid: Bytes16, now: int, later: int)
    requires !s.halted
    requires t.message.target == server.center.public && t.message.kind in {Class.Ping, Class.Lookup}
    requires t.message.source == client.center.public && server.center.public != client.center.public
    ensures var reply := Transaction(uuid, now, DetailsReply(server, t, now).m);
      DispatchEffect(s, client, reply, later).out ==
        s.out + [Learn(DecodeNode(reply.message.body, later).value), Signal(PongAction(server.center.public, uuid))] &&
      DecodeNode(reply.message.body, later).value.address == server.center.public
  {
    NodeRoundTrip(CenterNode(server, now), server.h, later);
  }

  /** A Details message for the centre whose body is 33 bytes long, or 35 to 41,
      leaves a link part too short for `Link::from_bytes`, which panics: the
      switch dies, whoever sent it. */
  lemma DetailsShortLinkHalts(s: State, c: Context, t: Transaction, now: int)
    requires t.message.target == c.center.public && t.message.kind == Class.Details
    requires |t.message.body| == 33 || 35 <= |t.message.body| <= 41
    ensures DecodeNode(t.message.body, now) == Err(Panicked)
    ensures DispatchEffect(s, c, t, now) == s.(halted := true)
  {
    if |t.message.body| > 34 {
      assert |t.message.body[34..]| < 8;
    }
  }

  /** A dead switch stays dead: no transaction, user action, signalling action or
      topic command changes anything, and the interface reports it stopped. */
  lemma HaltedIsFinal(s: State, c: Context, t: Transaction, a: InterfaceAction, b: SignalingAction,
                      inbox: nat -> Option<Command>, now: int)
    requires s.halted
    ensures DispatchEffect(s, c, t, now) == s
    ensures InterfaceEffect(s, c, a) == (s, false)
    ensures SignalingEffect(s, c, b, now) == s
    ensures PollEffect(s, c, inbox) == s
  {
  }

  /** `handle_action` reaches the topic's channel exactly when the topic is local,
      and the user otherwise. */
  lemma ActionFacts(s: State, t: Transaction)
    ensures HasTopic(s.topics, t.message.topic) ==>
      exists simple :: simple in s.topics && simple.address == t.message.topic &&
        ActionEffect(s, t) == s.(out := s.out + [ToTopic(simple.channel, Deliver(t))])
    ensures !HasTopic(s.topics, t.message.topic) ==> ActionEffect(s, t) == s.(out := s.out + [ToUser(t)])
  {
  }

  /** `handle_subscriber` forwards every body address except the centre's own, in
      order, to the topic's channel, and nothing when the topic is not local. */
  lemma SubscriberFacts(topics: seq<HandlerTopic>, c: Context, m: Message)
    ensures !HasTopic(topics, m.topic) ==> SubscriberOutputs(topics, c, m) == []
    ensures HasTopic(topics, m.topic) ==>
      exists simple :: simple in topics && simple.address == m.topic &&
        SubscriberOutputs(topics, c, m) == Notices(simple.channel, Others(Chunks(m.body), c.center.public))
    ensures forall o :: o in SubscriberOutputs(topics, c, m) ==>
      o.ToTopic? && o.command.Subscriber? && o.command.addr != c.center.public && o.command.addr in Chunks(m.body)
  {
    var r := SubscriberOutputs(topics, c, m);
    forall o | o in r
      ensures o.ToTopic? && o.command.Subscriber? && o.command.addr != c.center.public && o.command.addr in Chunks(m.body)
    {
      var simple := FindTopic(topics, m.topic).value;
      var others := Others(Chunks(m.body), c.center.public);
      var i :| 0 <= i < |r| && r[i] == o;
      assert o == ToTopic(simple.channel, Command.Subscriber(others[i]));
      assert others[i] in others;
    }
  }

  /** One step of the subscribe loop: a subscriber other than the centre gets one
      new transaction, and the centre means the list on the local channel. */
  lemma SubscribeSendFacts(x: Address, all: seq<Address>, c: Context, found: Option<HandlerTopic>, topic: Address, body: seq<Byte>)
    ensures Emits(SubscribeSend(x, all, c, found, topic, body)) ==
      Announce(Class.Subscriber, topic, if x != c.center.public then [x] else [], topic, body)
    ensures Notified(SubscribeSend(x, all, c, found, topic, body)) ==
      (if x == c.center.public && found.Some? then Notices(found.value.channel, all) else [])
  {
    if x == c.center.public {
      if found.Some? { EmitsNotices(found.value.channel, all); }
    } else {
      var e := [Emit(Message(Class.Subscriber, topic, x, topic, body))];
      assert e[..0] == [];
    }
  }

  /** The subscribe loop over one more subscriber. */
  lemma SubscribeSendsSnoc(rest: seq<Address>, all: seq<Address>, c: Context, found: Option<HandlerTopic>, topic: Address, body: seq<Byte>)
    requires rest != []
    ensures SubscribeSends(rest, all, c, found, topic, body) ==
      SubscribeSends(rest[..|rest| - 1], all, c, found, topic, body) + SubscribeSend(rest[|rest| - 1], all, c, found, topic, body)
  {
  }

  /** Every Subscriber message `handle_subscribe` sends for a known topic goes to a
      subscriber other than the centre, one per such subscriber, in order. */
  lemma {:induction false} SubscribeSendsEmits(rest: seq<Address>, all: seq<Address>, c: Context,
                                               found: Option<HandlerTopic>, topic: Address, body: seq<Byte>)
    ensures Emits(SubscribeSends(rest, all, c, found, topic, body)) ==
      Announce(Class.Subscriber, topic, Others(rest, c.center.public), topic, body)
    decreases |rest|
  {
    if rest != [] {
      var rest' := rest[..|rest| - 1];
      var x := rest[|rest| - 1];
      var one := if x != c.center.public then [x] else [];
      SubscribeSendsEmits(rest', all, c, found, topic, body);
      SubscribeSendsSnoc(rest, all, c, found, topic, body);
      EmitsAppend(SubscribeSends(rest', all, c, found, topic, body), SubscribeSend(x, all, c, found, topic, body));
      SubscribeSendFacts(x, all, c, found, topic, body);
      assert Others(rest, c.center.public) == Others(rest', c.center.public) + one;
      AnnounceAppend(Class.Subscriber, topic, Others(rest', c.center.public), one, topic, body);
    }
  }

  /** With no subscriber listed twice, the topic channel gets the full list exactly
      once when the centre is a subscriber and the topic is local, and nothing
      otherwise. */
  lemma {:induction false} SubscribeSendsNotified(rest: seq<Address>, all: seq<Address>, c: Context,
                                                  found: Option<HandlerTopic>, topic: Address, body: seq<Byte>)
    requires NoDuplicates(rest)
    ensures Notified(SubscribeSends(rest, all, c, found, topic, body)) ==
      (if c.center.public in rest && found.Some? then Notices(found.value.channel, all) else [])
    decreases |rest|
  {
    if rest != [] {
      var rest' := rest[..|rest| - 1];
      var x := rest[|rest| - 1];
      assert rest == rest' + [x];
      assert NoDuplicates(rest') by {
        forall i, j | 0 <= i < j < |rest'| ensures rest'[i] != rest'[j] { assert rest'[i] == rest[i] && rest'[j] == rest[j]; }
      }
      assert x !in rest' by {
        forall i | 0 <= i < |rest'| ensures rest'[i] != x { assert rest'[i] == rest[i]; }
      }
      SubscribeSendsNotified(rest', all, c, found, topic, body);
      SubscribeSendsSnoc(rest, all, c, found, topic, body);
      EmitsAppend(SubscribeSends(rest', all, c, found, topic, body), SubscribeSend(x, all, c, found, topic, body));
      SubscribeSendFacts(x, all, c, found, topic, body);
    }
  }

  /** `handle_subscribe` on an unknown topic: a record whose only subscriber is the
      source, and one empty Subscriber message to the source. */
  lemma SubscribeNewTopic(s: State, c: Context, m: Message)
    requires m.topic !in s.records
    ensures var r := SubscribeEffect(s, c, m);
      r.records == s.records[m.topic := Record(m.topic, [m.source])] &&
      r.topics == s.topics &&
      r.out == s.out + [Emit(Message(Class.Subscriber, m.topic, m.source, m.topic, []))]
  {
    assert !Contains(NewRecord(m.topic), m.source);
    assert [] + [m.source] == [m.source];
  }

  /** `handle_subscribe` on a known topic of duplicate-free records: only that record
      changes, it gains the source without duplicates, every subscriber but the
      centre gets one Subscriber message whose body is the list of all subscribers,
      and the local topic channel gets the list when the centre subscribes. */
  lemma SubscribeKnownTopic(s: State, c: Context, m: Message)
    requires Keyed(s.records) && m.topic in s.records && NoDuplicates(s.records[m.topic].subscribers)
    ensures var r := SubscribeEffect(s, c, m);
      var subscribers := Records.Subscribe(s.records[m.topic], m.source).subscribers;
      r.records == s.records[m.topic := Records.Subscribe(s.records[m.topic], m.source)] &&
      r.topics == s.topics && s.out <= r.out &&
      m.source in subscribers && NoDuplicates(subscribers) &&
      Emits(r.out[|s.out|..]) ==
        Announce(Class.Subscriber, m.topic, Others(subscribers, c.center.public), m.topic, Concat(subscribers)) &&
      Notified(r.out[|s.out|..]) ==
        (if c.center.public in subscribers && HasTopic(s.topics, m.topic)
         then Notices(FindTopic(s.topics, m.topic).value.channel, subscribers) else [])
  {
    var r := SubscribeEffect(s, c, m);
    var subscribers := Records.Subscribe(s.records[m.topic], m.source).subscribers;
    var sends := SubscribeSends(subscribers, subscribers, c, FindTopic(s.topics, m.topic), m.topic, Concat(subscribers));
    assert r.out == s.out + sends;
    assert r.out[|s.out|..] == sends;
    SubscribeSendsEmits(subscribers, subscribers, c, FindTopic(s.topics, m.topic), m.topic, Concat(subscribers));
    SubscribeSendsNotified(subscribers, subscribers, c, FindTopic(s.topics, m.topic), m.topic, Concat(subscribers));
  }

  /** What `handle_unsubscribe` sends for a record: one Unsubscriber message per
      subscriber other than the source, listing them, and on a local topic the
      remaining subscribers other than the centre. */
  lemma UnsubscribeSendsFacts(subscribers: seq<Address>, topics: seq<HandlerTopic>, c: Context, m: Message)
    ensures var remaining := Others(subscribers, m.source);
      Emits(UnsubscribeSends(subscribers, topics, c, m)) ==
        Announce(Class.Unsubscriber, m.source, remaining, m.target, Concat(remaining)) &&
      Notified(UnsubscribeSends(subscribers, topics, c, m)) ==
        (if c.isLocal(topics, m.target) && HasTopic(topics, m.target)
         then Notices(FindTopic(topics, m.target).value.channel, Others(remaining, c.center.public)) else [])
  {
    var remaining := Others(subscribers, m.source);
    var body := Concat(remaining);
    var inner := Message(Class.Unsubscriber, m.topic, m.source, m.target, body);
    var local := if c.isLocal(topics, m.target) then SubscriberOutputs(topics, c, inner) else [];
    var sent := EmitAll(Announce(Class.Unsubscriber, m.source, remaining, m.target, body));
    EmitsAppend(local, sent);
    EmitsEmitAll(Announce(Class.Unsubscriber, m.source, remaining, m.target, body));
    ChunksConcat(remaining);
    if c.isLocal(topics, m.target) && HasTopic(topics, m.target) {
      EmitsNotices(FindTopic(topics, m.target).value.channel, Others(remaining, c.center.public));
    }
  }

  /** Neither handler touches the topics or loses an output, and each changes the
      records only through the bucket of `src/record.rs`. */
  lemma EffectFrames(s: State, c: Context, m: Message)
    ensures SubscribeEffect(s, c, m).topics == s.topics && s.out <= SubscribeEffect(s, c, m).out
    ensures UnsubscribeEffect(s, c, m).topics == s.topics && s.out <= UnsubscribeEffect(s, c, m).out
  {
  }

  lemma SubscribeRecords(s: State, c: Context, m: Message)
    requires m.topic in s.records
    ensures SubscribeEffect(s, c, m).records == SubscribeIn(s.records, s.records[m.topic].address, m.source)
  {
  }

  lemma UnsubscribeRecords(s: State, c: Context, m: Message)
    ensures UnsubscribeEffect(s, c, m).records == UnsubscribeIn(s.records, m.target, m.source)
  {
  }

  /** `handle_unsubscribe`: without a record nothing changes; otherwise only that
      record changes, a duplicate-free record loses the source, every other former
      subscriber gets one Unsubscriber message listing the remaining subscribers,
      and a local topic is told the remaining subscribers other than the centre. */
  lemma UnsubscribeFacts(s: State, c: Context, m: Message)
    ensures m.target !in s.records ==> UnsubscribeEffect(s, c, m) == s
    ensures UnsubscribeEffect(s, c, m).topics == s.topics
    ensures m.target in s.records ==>
      var r := UnsubscribeEffect(s, c, m);
      var remaining := Others(s.records[m.target].subscribers, m.source);
      r.records == s.records[m.target := Records.Unsubscribe(s.records[m.target], m.source)] &&
      s.out <= r.out &&
      Emits(r.out[|s.out|..]) == Announce(Class.Unsubscriber, m.source, remaining, m.target, Concat(remaining)) &&
      Notified(r.out[|s.out|..]) ==
        (if c.isLocal(s.topics, m.target) && HasTopic(s.topics, m.target)
         then Notices(FindTopic(s.topics, m.target).value.channel, Others(remaining, c.center.public)) else [])
    ensures m.target in s.records && NoDuplicates(s.records[m.target].subscribers) ==>
      !Contains(UnsubscribeEffect(s, c, m).records[m.target], m.source)
  {
    EffectFrames(s, c, m);
    UnsubscribeRecords(s, c, m);
    if m.target in s.records {
      var r := UnsubscribeEffect(s, c, m);
      var sends := UnsubscribeSends(s.records[m.target].subscribers, s.topics, c, m);
      assert r.out[|s.out|..] == sends;
      UnsubscribeSendsFacts(s.records[m.target].subscribers, s.topics, c, m);
      UnsubscribeInFacts(s.records, m.target, m.source);
    }
  }

  /** Subscribing then unsubscribing a new subscriber on a known topic gives the
      records back. */
  lemma SubscribeThenUnsubscribe(s: State, c: Context, m: Message, n: Message)
    requires Keyed(s.records) && m.topic in s.records && !Contains(s.records[m.topic], m.source)
    requires n.target == m.topic && n.source == m.source
    ensures UnsubscribeEffect(SubscribeEffect(s, c, m), c, n).records == s.records
  {
    var r := SubscribeEffect(s, c, m);
    SubscribeRecords(s, c, m);
    UnsubscribeRecords(r, c, n);
    SubscribeUnsubscribeIn(s.records, m.topic, m.source);
  }

  lemma SubscribeUnsubscribeIn(records: map<Address, Record>, topic: Address, source: Address)
    requires Keyed(records) && topic in records && !Contains(records[topic], source)
    ensures UnsubscribeIn(SubscribeIn(records, records[topic].address, source), topic, source) == records
  {
    var record := records[topic];
    SubscribeUnsubscribe(record, source);
    assert records[topic := record] == records;
  }

  /** Step 3 sends exactly the transaction `SignalingAction::to_transaction` builds
      with the action's uuid. */
  lemma SignalingFacts(s: State, c: Context, a: SignalingAction, now: int)
    requires !s.halted
    ensures a.action in {Type.Ping, Type.Lookup} ==>
      SignalingEffect(s, c, a, now) == s.(out := s.out + [Send(ToTransaction(a, c.center.public, a.uuid, now))])
    ensures a.action !in {Type.Ping, Type.Lookup} ==> SignalingEffect(s, c, a, now) == s
  {
  }

  /** A subscription from the user makes the topic local, and when the topic should
      be local its record lists the centre as a subscriber. */
  lemma InterfaceSubscribeFacts(s: State, c: Context, simple: HandlerTopic)
    requires !s.halted
    requires UniqueTopics(s.topics) && Keyed(s.records)
    ensures var (r, running) := InterfaceEffect(s, c, UserSubscribe(simple));
      running && UniqueTopics(r.topics) && HasTopic(r.topics, simple.address) &&
      (c.shouldBeLocal(simple.address) ==> simple.address in r.records && Contains(r.records[simple.address], c.center.public)) &&
      (!c.shouldBeLocal(simple.address) ==> (r.records == s.records &&
        r.out == s.out + [Emit(Message(Class.Subscribe, c.center.public, simple.address, simple.address, []))]))
  {
    AddTopicFacts(s.topics, simple);
  }

  /** One topic of step 2 leaves the topics alone and marks the topic exactly when
      its command is a drop. */
  lemma PollOneFacts(s: State, c: Context, simple: HandlerTopic, command: Option<Command>, dropper: Option<Address>)
    ensures PollOne(s, c, simple, command, dropper).0.topics == s.topics
    ensures PollOne(s, c, simple, command, dropper).1 ==
      (if command.Some? && command.value.Drop? then Some(simple.address) else dropper)
  {
    EffectFrames(s, c, Message(Class.Unsubscribe, c.center.public, simple.address, simple.address, []));
  }

  /** The loop of step 2 over one more topic. */
  lemma PollFoldSnoc(s: State, c: Context, ts: seq<HandlerTopic>, inbox: nat -> Option<Command>)
    requires ts != []
    ensures var prev := PollFold(s, c, ts[..|ts| - 1], inbox);
      PollFold(s, c, ts, inbox) == PollOne(prev.0, c, ts[|ts| - 1], inbox(ts[|ts| - 1].channel), prev.1)
  {
  }

  /** The loop of step 2 leaves the topics alone and marks the last topic whose
      command is a drop. */
  lemma {:induction false} PollFoldFacts(s: State, c: Context, ts: seq<HandlerTopic>, inbox: nat -> Option<Command>)
    ensures PollFold(s, c, ts, inbox).0.topics == s.topics
    ensures PollFold(s, c, ts, inbox).1 == LastDrop(ts, inbox)
    decreases |ts|
  {
    if ts != [] {
      var ts' := ts[..|ts| - 1];
      var last := ts[|ts| - 1];
      PollFoldFacts(s, c, ts', inbox);
      PollFoldSnoc(s, c, ts, inbox);
      var prev := PollFold(s, c, ts', inbox);
      PollOneFacts(prev.0, c, last, inbox(last.channel), prev.1);
    }
  }

  /** The topic `LastDrop` names is one of the topics. */
  lemma {:induction false} LastDropIn(ts: seq<HandlerTopic>, inbox: nat -> Option<Command>)
    ensures LastDrop(ts, inbox).Some? ==> HasTopic(ts, LastDrop(ts, inbox).value)
    decreases |ts|
  {
    if ts != [] && !(inbox(ts[|ts| - 1].channel).Some? && inbox(ts[|ts| - 1].channel).value.Drop?) {
      LastDropIn(ts[..|ts| - 1], inbox);
      if LastDrop(ts, inbox).Some? {
        var i :| 0 <= i < |ts| - 1 && ts[..|ts| - 1][i].address == LastDrop(ts, inbox).value;
        assert ts[i] == ts[..|ts| - 1][i];
      }
    }
  }

  /** Step 2 removes at most one topic: none when no command is a drop, otherwise
      exactly the last topic whose command is a drop, keeping the others in order. */
  lemma PollRemovesOne(s: State, c: Context, inbox: nat -> Option<Command>)
    requires !s.halted
    requires UniqueTopics(s.topics)
    ensures LastDrop(s.topics, inbox).None? ==> PollEffect(s, c, inbox).topics == s.topics
    ensures LastDrop(s.topics, inbox).Some? ==>
      PollEffect(s, c, inbox).topics == RemoveTopic(s.topics, LastDrop(s.topics, inbox).value).0 &&
      |PollEffect(s, c, inbox).topics| == |s.topics| - 1 &&
      !HasTopic(PollEffect(s, c, inbox).topics, LastDrop(s.topics, inbox).value)
    ensures UniqueTopics(PollEffect(s, c, inbox).topics)
  {
    PollFoldFacts(s, c, s.topics, inbox);
    LastDropIn(s.topics, inbox);
    if LastDrop(s.topics, inbox).Some? {
      RemoveTopicFacts(s.topics, LastDrop(s.topics, inbox).value);
    }
  }

  // ---------------------------------------------------------------
  // The switch
  // ---------------------------------------------------------------

  /** `Switch`: the records and topics it updates in place, the log of what it
      has sent, and whether its thread has died of a panic. */
  class Switch {
    const ctx: Context
    const records: RecordBucket
    const topics: TopicBucket
    var out: seq<Output>
    var halted: bool

    ghost predicate Valid()
      reads this, records, topics
    {
      records.Valid() && topics.Valid()
    }

    /** The state the handlers are specified on. */
    function Snapshot(): State
      reads this, records, topics
    {
      State(records.records, topics.topics, out, halted)
    }

    /** `Switch::new`: no topics yet and nothing sent. */
    constructor (ctx: Context, records: RecordBucket)
      requires records.Valid()
      ensures Valid() && fresh(topics)
      ensures this.ctx == ctx && this.records == records && topics.topics == [] && out == [] && !halted
    {
      this.ctx := ctx;
      this.records := records;
      this.topics := new TopicBucket();
      this.out := [];
      this.halted := false;
    }

    /** `handle_ping`. */
    method HandlePing(t: Transaction, now: int)
      modifies this
      ensures out == old(out) + [DetailsReply(ctx, t, now)]
      ensures halted == old(halted)
    {
      var bytes := NodeAsBytes(CenterNode(ctx, now), ctx.h);
      out := out + [Emit(Message(Class.Details, ctx.center.public, t.message.source, DefaultAddress(), bytes))];
    }

    /** `handle_lookup`: the same answer as a ping. */
    method HandleLookup(t: Transaction, now: int)
      modifies this
      ensures out == old(out) + [DetailsReply(ctx, t, now)]
      ensures halted == old(halted)
    {
      var bytes := NodeAsBytes(CenterNode(ctx, now), ctx.h);
      out := out + [Emit(Message(Class.Details, ctx.center.public, t.message.source, DefaultAddress(), bytes))];
    }

    /** `handle_pong`. */
    method HandlePong(t: Transaction)
      modifies this
      ensures Snapshot() == PongEffect(old(Snapshot()), t)
    {
      out := out + [Signal(PongAction(t.message.source, t.uuid))];
    }

    /** `handle_details`. */
    method HandleDetails(t: Transaction, now: int)
      modifies this
      ensures Snapshot() == DetailsEffect(old(Snapshot()), t, now)
    {
      var node := NodeFromBytes(t.message.body, now);
      if node.Ok? {
        out := out + [Learn(node.value)];
        out := out + [Signal(PongAction(t.message.source, t.uuid))];
      } else if node.error == Panicked {
        halted := true;
      }
    }

    /** `handle_action`. */
    method HandleAction(t: Transaction)
      modifies this
      ensures Snapshot() == ActionEffect(old(Snapshot()), t)
    {
      var simple := topics.Find(t.message.topic);
      if simple.Some? {
        out := out + [ToTopic(simple.value.channel, Deliver(t))];
      } else {
        out := out + [ToUser(t)];
      }
    }

    /** `handle_subscriber`. */
    method HandleSubscriber(m: Message)
      modifies this
      ensures out == old(out) + SubscriberOutputs(topics.topics, ctx, m)
      ensures halted == old(halted)
    {
      var simple := topics.Find(m.topic);
      if simple.Some? {
        var addrs := FromBulk(m.body);
        NotifyOthers(simple.value.channel, addrs, ctx.center.public);
      }
    }

    /** The loop of `handle_subscriber`: every address but `center` on the channel. */
    method NotifyOthers(channel: nat, addrs: seq<Address>, center: Address)
      modifies this
      ensures out == old(out) + Notices(channel, Others(addrs, center))
      ensures halted == old(halted)
    {
      for i := 0 to |addrs|
        invariant halted == old(halted)
        invariant out == old(out) + Notices(channel, Others(addrs[..i], center))
      {
        NoticesSnoc(channel, addrs, i, center);
        if addrs[i] != center {
          out := out + [ToTopic(channel, Command.Subscriber(addrs[i]))];
        }
      }
      assert addrs[..|addrs|] == addrs;
    }

    /** `handle_unsubscriber`. */
    method HandleUnsubscriber(t: Transaction)
      modifies this
      ensures out == old(out) + UnsubscriberOutputs(topics.topics, t)
      ensures halted == old(halted)
    {
      var simple := topics.Find(t.message.topic);
      if simple.Some? {
        out := out + [ToTopic(simple.value.channel, Command.Subscriber(t.message.source))];
      }
    }

    /** The inner loop of `handle_subscribe`: every subscriber on the channel. */
    method NotifyAll(channel: nat, subscribers: seq<Address>)
      modifies this
      ensures out == old(out) + Notices(channel, subscribers)
      ensures halted == old(halted)
    {
      for j := 0 to |subscribers|
        invariant halted == old(halted)
        invariant out == old(out) + Notices(channel, subscribers[..j])
      {
        assert Notices(channel, subscribers[..j + 1]) ==
          Notices(channel, subscribers[..j]) + [ToTopic(channel, Command.Subscriber(subscribers[j]))];
        out := out + [ToTopic(channel, Command.Subscriber(subscribers[j]))];
      }
      assert subscribers[..|subscribers|] == subscribers;
    }

    /** The outer loop of `handle_subscribe` over the subscribers of a known topic. */
    method SendSubscribers(subscribers: seq<Address>, topic: Address, body: seq<Byte>)
      modifies this
      ensures out == old(out) + SubscribeSends(subscribers, subscribers, ctx, FindTopic(topics.topics, topic), topic, body)
      ensures halted == old(halted)
    {
      ghost var local := FindTopic(topics.topics, topic);
      for i := 0 to |subscribers|
        invariant halted == old(halted)
        invariant out == old(out) + SubscribeSends(subscribers[..i], subscribers, ctx, local, topic, body)
      {
        ghost var prev := out;
        assert subscribers[..i + 1][..i] == subscribers[..i];
        SubscribeSendsSnoc(subscribers[..i + 1], subscribers, ctx, local, topic, body);
        if subscribers[i] == ctx.center.public {
          var simple := topics.Find(topic);
          if simple.Some? {
            NotifyAll(simple.value.channel, subscribers);
          }
        } else {
          out := out + [Emit(Message(Class.Subscriber, topic, subscribers[i], topic, body))];
        }
        assert out == prev + SubscribeSend(subscribers[i], subscribers, ctx, local, topic, body);
        OutputsRegroup(old(out), SubscribeSends(subscribers[..i], subscribers, ctx, local, topic, body),
                       SubscribeSend(subscribers[i], subscribers, ctx, local, topic, body));
      }
      assert subscribers[..|subscribers|] == subscribers;
    }

    /** `handle_subscribe`. */
    method HandleSubscribe(m: Message)
      requires Valid()
      modifies this, records
      ensures Valid()
      ensures Snapshot() == SubscribeEffect(old(Snapshot()), ctx, m)
    {
      var topic := m.topic;
      var found := records.Get(topic);
      match found
      case Some(record) =>
        records.SubscribeTo(record.address, m.source);
        var updated := records.Get(topic).value;
        var subscribers := updated.subscribers;
        var body := BulkBytes(subscribers);
        SendSubscribers(subscribers, topic, body);
      case None =>
        var record := Records.Subscribe(NewRecord(topic), m.source);
        records.Add(record);
        out := out + [Emit(Message(Class.Subscriber, topic, m.source, topic, []))];
    }

    /** The subscribers other than the source (the `for_each` of `handle_unsubscribe`). */
    static method OthersOf(subscribers: seq<Address>, source: Address) returns (remaining: seq<Address>)
      ensures remaining == Others(subscribers, source)
    {
      remaining := [];
      for i := 0 to |subscribers|
        invariant remaining == Others(subscribers[..i], source)
      {
        OthersSnoc(subscribers, i, source);
        if subscribers[i] != source {
          remaining := remaining + [subscribers[i]];
        }
      }
      assert subscribers[..|subscribers|] == subscribers;
    }

    /** The last loop of `handle_unsubscribe`: an Unsubscriber message to each former
        subscriber other than the source. */
    method SendUnsubscribers(subscribers: seq<Address>, source: Address, topic: Address, body: seq<Byte>)
      modifies this
      ensures out == old(out) + EmitAll(Announce(Class.Unsubscriber, source, Others(subscribers, source), topic, body))
      ensures halted == old(halted)
    {
      ghost var sent: seq<Address> := [];
      for i := 0 to |subscribers|
        invariant halted == old(halted)
        invariant sent == Others(subscribers[..i], source)
        invariant out == old(out) + EmitAll(Announce(Class.Unsubscriber, source, sent, topic, body))
      {
        OthersSnoc(subscribers, i, source);
        if subscribers[i] != source {
          assert EmitAll(Announce(Class.Unsubscriber, source, sent + [subscribers[i]], topic, body)) ==
            EmitAll(Announce(Class.Unsubscriber, source, sent, topic, body)) +
            [Emit(Message(Class.Unsubscriber, source, subscribers[i], topic, body))];
          out := out + [Emit(Message(Class.Unsubscriber, source, subscribers[i], topic, body))];
          sent := sent + [subscribers[i]];
        }
      }
      assert subscribers[..|subscribers|] == subscribers;
    }

    /** `handle_unsubscribe`. */
    method HandleUnsubscribe(m: Message)
      requires Valid()
      modifies this, records
      ensures Valid()
      ensures Snapshot() == UnsubscribeEffect(old(Snapshot()), ctx, m)
    {
      var topic := m.target;
      var found := records.Get(topic);
      match found
      case Some(record) =>
        var source := m.source;
        records.UnsubscribeFrom(topic, source);
        SendUnsubscribe(record.subscribers, m);
      case None =>
    }

    /** The sends of `handle_unsubscribe` for a record with these subscribers. */
    method SendUnsubscribe(subscribers: seq<Address>, m: Message)
      modifies this
      ensures out == old(out) + UnsubscribeSends(subscribers, topics.topics, ctx, m)
      ensures halted == old(halted)
    {
      var topic := m.target;
      var source := m.source;
      var remaining := OthersOf(subscribers, source);
      var body := BulkBytes(remaining);
      ghost var before := out;
      ghost var sends := UnsubscribeSends(subscribers, topics.topics, ctx, m);
      ghost var local := if ctx.isLocal(topics.topics, topic)
        then SubscriberOutputs(topics.topics, ctx, Message(Class.Unsubscriber, m.topic, source, topic, body))
        else [];
      ghost var notices := EmitAll(Announce(Class.Unsubscriber, source, remaining, topic, body));
      assert sends == local + notices;
      if ctx.isLocal(topics.topics, topic) {
        HandleSubscriber(Message(Class.Unsubscriber, m.topic, source, topic, body));
      }
      assert out == before + local;
      SendUnsubscribers(subscribers, source, topic, body);
      OutputsRegroup(before, local, notices);
    }

    /** Step 4 of the switch loop: one transaction from the listener. */
    method Dispatch(t: Transaction, now: int)
      requires Valid()
      modifies this, records
      ensures Valid()
      ensures Snapshot() == DispatchEffect(old(Snapshot()), ctx, t, now)
    {
      if halted {
        return;
      }
      if t.message.target == ctx.center.public {
        match t.message.kind
        case Ping => HandlePing(t, now);
        case Pong => HandlePong(t);
        case Lookup => HandleLookup(t, now);
        case Details => HandleDetails(t, now);
        case Action => HandleAction(t);
        case Subscriber => HandleSubscriber(t.message);
        case Unsubscriber => HandleUnsubscriber(t);
        case Subscribe =>
        case Unsubscribe =>
      } else {
        match t.message.kind
        case Subscribe => HandleSubscribe(t.message);
        case Unsubscribe => HandleUnsubscribe(t.message);
        case _ => out := out + [Send(t)];
      }
    }

    /** Step 1 of the switch loop: one action from the user; `running` is false
        after a shutdown. */
    method Interface(a: InterfaceAction) returns (running: bool)
      requires Valid()
      modifies this, records, topics
      ensures Valid()
      ensures (Snapshot(), running) == InterfaceEffect(old(Snapshot()), ctx, a)
    {
      if halted {
        return false;
      }
      match a
      case Shutdown =>
        return false;
      case UserMessage(t) =>
        out := out + [Send(t)];
        return true;
      case UserSubscribe(simple) =>
        var topic := simple.address;
        topics.Add(simple);
        var m := Message(Class.Subscribe, ctx.center.public, topic, topic, []);
        if ctx.shouldBeLocal(topic) {
          HandleSubscribe(m);
        } else {
          out := out + [Emit(m)];
        }
        return true;
    }

    /** Step 3 of the switch loop: one action from the signalling thread, sent with
        the creation time `now`. */
    method FromSignaling(a: SignalingAction, now: int)
      modifies this
      ensures Snapshot() == SignalingEffect(old(Snapshot()), ctx, a, now)
    {
      if halted {
        return;
      }
      match a.action
      case Ping =>
        out := out + [Send(Transaction(a.uuid, now, Message(Class.Ping, ctx.center.public, a.target, DefaultAddress(), [])))];
      case Lookup =>
        out := out + [Send(Transaction(a.uuid, now, Message(Class.Lookup, ctx.center.public, a.target, DefaultAddress(), [])))];
      case _ =>
    }

    /** Step 2 of the switch loop: poll each topic with the command `inbox` holds
        for its channel, then drop the marked topic. The initial `dropper` (a
        random address in the source) is never read unless a drop was seen. */
    method PollTopics(inbox: nat -> Option<Command>)
      requires Valid()
      modifies this, records, topics
      ensures Valid()
      ensures Snapshot() == PollEffect(old(Snapshot()), ctx, inbox)
    {
      if halted {
        return;
      }
      var drop := false;
      var dropper := DefaultAddress();
      var ts := topics.topics;
      for i := 0 to |ts|
        invariant Valid() && topics.topics == ts
        invariant (Snapshot(), if drop then Some(dropper) else None) == PollFold(old(Snapshot()), ctx, ts[..i], inbox)
      {
        assert ts[..i + 1][..i] == ts[..i];
        var simple := ts[i];
        var topic := simple.address;
        var command := inbox(simple.channel);
        match command
        case Some(Drop(addr)) =>
          drop := true;
          dropper := simple.address;
          if ctx.shouldBeLocal(topic) {
            HandleUnsubscribe(Message(Class.Unsubscribe, ctx.center.public, topic, topic, []));
          } else {
            out := out + [Emit(Message(Class.Unsubscribe, ctx.center.public, addr, topic, []))];
          }
        case Some(Broadcast(addr, body)) =>
          out := out + [Emit(Message(Class.Action, ctx.center.public, addr, topic, body))];
        case _ =>
      }
      assert ts[..|ts|] == ts;
      if drop {
        var _ := topics.Remove(dropper);
      }
    }
  }
}
