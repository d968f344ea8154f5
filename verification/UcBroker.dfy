/**
 The microcontroller's side: resources with their ids, the keep-alive, the answer to a connect reply,
 the loopback of the uptime topic, and the timer that gives the connection up.
 */
module UcBroker {
  import opened ByteStrings
  import opened BrokerProtocol
  import opened Cbor
  import opened CborStreams
  import opened Ppp
  import opened ProxyPipeline

  /** "src/", "dst/", "src/esp32/", "dst/esp32/", "system/uptime" and "system/latency". */
  const SRC: Blob := [0x73, 0x72, 0x63, 0x2F]
  const DST: Blob := [0x64, 0x73, 0x74, 0x2F]
  const SRC_PREFIX: Blob := [0x73, 0x72, 0x63, 0x2F, 0x65, 0x73, 0x70, 0x33, 0x32, 0x2F]
  const DST_PREFIX: Blob := [0x64, 0x73, 0x74, 0x2F, 0x65, 0x73, 0x70, 0x33, 0x32, 0x2F]
  const UPTIME: Blob := [0x73, 0x79, 0x73, 0x74, 0x65, 0x6D, 0x2F, 0x75, 0x70, 0x74, 0x69, 0x6D, 0x65]
  const LATENCY: Blob := [0x73, 0x79, 0x73, 0x74, 0x65, 0x6D, 0x2F, 0x6C, 0x61, 0x74, 0x65, 0x6E, 0x63, 0x79]

  const LOOPBACK_TIMEOUT: UInt64 := 5000

  datatype Resource = Resource(id: Int32, key: Blob)

  function Topic(name: Blob, prefix: Blob): Blob {
    if SRC <= name || DST <= name then name else Sized(prefix + name)
  }

  // ---- The events, on values ----

  datatype Uc = Uc(
    subs: seq<Resource>, pubs: seq<Resource>, uptime: Int32, latency: Int32, connected: bool, loopback: UInt64)

  datatype Reaction = Reaction(uc: Uc, sent: seq<Msg>)

  function SubscriberOf(r: Resource): Msg {
    Subscriber(r.id, r.key)
  }

  function PublisherOf(r: Resource): Msg {
    Publisher(r.id, r.key)
  }

  function Subscribers(rs: seq<Resource>): seq<Msg> {
    seq(|rs|, i requires 0 <= i < |rs| => SubscriberOf(rs[i]))
  }

  function Publishers(rs: seq<Resource>): seq<Msg> {
    seq(|rs|, i requires 0 <= i < |rs| => PublisherOf(rs[i]))
  }

  /** The declarations that answer a connect reply. */
  function Announcements(uc: Uc): seq<Msg> {
    Subscribers(uc.subs) + Publishers(uc.pubs)
  }

  function OnKeepAlive(uc: Uc, now: UInt64): Reaction {
    Reaction(uc, if uc.connected then [Publish(uc.uptime, EncodeValue(now))] else [Connect(SRC_PREFIX)])
  }

  function OnConnectReply(uc: Uc): Reaction {
    Reaction(uc.(connected := true), Announcements(uc))
  }

  /** The uptime comes back: report the latency, then note the time. The clock is read twice. */
  function OnLoopback(uc: Uc, t: UInt64, now: UInt64, later: UInt64): Reaction {
    Reaction(uc.(loopback := later), [Publish(uc.latency, EncodeValue(Minus64(now, t)))])
  }

  /** A publish from the proxy; one too long for the subscriber's 100-octet buffer is dropped. */
  function OnPublish(uc: Uc, m: Msg, now: UInt64, later: UInt64, stale: UInt64): Reaction
    requires m.Publish?
  {
    if |Encode(m)| <= UC_CAPACITY then OnLoopback(uc, DecodeValue(m.value, stale), now, later)
    else Reaction(uc, [])
  }

  /** What a message from the proxy does. A disconnect has no handler, declarations are never sent this way. */
  function OnMessage(uc: Uc, m: Msg, now: UInt64, later: UInt64, stale: UInt64): Reaction {
    match m
    case Publish(_, _) => OnPublish(uc, m, now, later, stale)
    case Connect(_) => OnConnectReply(uc)
    case _ => Reaction(uc, [])
  }

  function OnConnectTimer(uc: Uc, now: UInt64): Uc {
    if Minus64(now, uc.loopback) > LOOPBACK_TIMEOUT then uc.(connected := false) else uc
  }

  /** A frame from the line through the filters: the variables of the two filters hold `p` and `c`. */
  function OnFrameFrom(uc: Uc, frame: Bytes, p: Int32, c: Int32, now: UInt64, later: UInt64, stale: UInt64, junk: Int32)
    : Reaction
  {
    var d := DecodeMsg(B_PUBLISH, Cut(frame, UC_CAPACITY), junk);
    var first :=
      if Passes(B_PUBLISH, frame, p) && d.ok && d.value.Publish? then
        OnLoopback(uc, DecodeValue(d.value.value, stale), now, later)
      else Reaction(uc, []);
    if Passes(B_CONNECT, frame, c) then
      var second := OnConnectReply(first.uc);
      Reaction(second.uc, first.sent + second.sent)
    else first
  }

  /** The frame of a message has the effect of the message, whatever the variables held. */
  lemma FrameOfMessage(uc: Uc, m: Msg, p: Int32, c: Int32, now: UInt64, later: UInt64, stale: UInt64, junk: Int32)
    ensures OnFrameFrom(uc, Encode(m), p, c, now, later, stale, junk) == OnMessage(uc, m, now, later, stale)
  {
    hide Encode, DecodeValue, DecodeMsg, DecodeBase, OnLoopback, OnConnectReply;
    UniqueFilter(m, B_PUBLISH, p);
    UniqueFilter(m, B_CONNECT, c);
    hide Passes;
    if m.Publish? {
      DecodeExact(m, UC_CAPACITY, junk);
    } else if m.Connect? {
      assert [] + OnConnectReply(uc).sent == OnConnectReply(uc).sent;
    }
  }

  // ---- What goes out ----

  /** One publish under `id`, whose value reads as `reading` exactly if `readable`, whatever the reader held. */
  ghost predicate Reports(sent: seq<Msg>, id: Int32, reading: int, readable: bool) {
    && |sent| == 1 && sent[0].Publish? && sent[0].id == id
    && ((forall stale: UInt64 :: DecodeValue(sent[0].value, stale) == reading) <==> readable)
  }

  lemma ReportOf(id: Int32, reading: int, t: UInt64)
    requires reading >= 0 ==> t == reading
    ensures Reports([Publish(id, EncodeValue(t))], id, reading, 0 <= reading < 0x8000_0000)
  {
    hide EncodeValue, DecodeValue;
    ValueRoundTripIff(t);
    assert DecodeValue(EncodeValue(t), 0) >= 0;
  }

  /** The uptime that comes back is answered with its age, which can be read exactly if it is below 2^31. */
  lemma LatencyIff(uc: Uc, id: Int32, t: UInt64, now: UInt64, later: UInt64, stale: UInt64)
    requires t < 0x8000_0000
    ensures var r := OnMessage(uc, Publish(id, EncodeValue(t)), now, later, stale);
            Reports(r.sent, uc.latency, now - t, 0 <= now - t < 0x8000_0000) && r.uc == uc.(loopback := later)
  {
    hide Encode, EncodeValue, DecodeValue, Reports;
    ValueMessageFits(id, t);
    ValueRoundTripIff(t);
    ReportOf(uc.latency, now - t, Minus64(now, t));
  }

  /** The same of the frame on the line, whatever the filters' variables held. */
  lemma LatencyOnTheLine(uc: Uc, id: Int32, t: UInt64, p: Int32, c: Int32, now: UInt64, later: UInt64, stale: UInt64,
                         junk: Int32)
    requires t < 0x8000_0000
    ensures var r := OnFrameFrom(uc, Encode(Publish(id, EncodeValue(t))), p, c, now, later, stale, junk);
            Reports(r.sent, uc.latency, now - t, 0 <= now - t < 0x8000_0000) && r.uc == uc.(loopback := later)
  {
    hide Encode, EncodeValue, OnMessage, OnFrameFrom, Reports;
    LatencyIff(uc, id, t, now, later, stale);
    FrameOfMessage(uc, Publish(id, EncodeValue(t)), p, c, now, later, stale, junk);
  }

  /**
   A connected microcontroller reports its uptime, and when the value comes back under any id, the
   time since then.
   */
  lemma UptimeComesBack(uc: Uc, t: UInt64, id: Int32, now: UInt64, later: UInt64, stale: UInt64)
    requires uc.connected && t < 0x8000_0000
    ensures var sent := OnKeepAlive(uc, t).sent;
            Reports(sent, uc.uptime, t, true) &&
            Reports(OnMessage(uc, Publish(id, sent[0].value), now, later, stale).sent, uc.latency, now - t,
                    0 <= now - t < 0x8000_0000)
  {
    hide EncodeValue, DecodeValue, OnMessage;
    ReportOf(uc.uptime, t, t);
    LatencyIff(uc, id, t, now, later, stale);
  }

  /** The frame of a connect reply: all subscribers, then all publishers, in the order of their tables. */
  lemma ConnectAnswered(uc: Uc, clientId: Blob, p: Int32, c: Int32, now: UInt64, later: UInt64, stale: UInt64, junk: Int32)
    ensures var r := OnFrameFrom(uc, Encode(Connect(clientId)), p, c, now, later, stale, junk);
            && r.uc == uc.(connected := true) && |r.sent| == |uc.subs| + |uc.pubs|
            && (forall i :: 0 <= i < |uc.subs| ==> r.sent[i] == Subscriber(uc.subs[i].id, uc.subs[i].key))
            && (forall i :: 0 <= i < |uc.pubs| ==>
                  r.sent[|uc.subs| + i] == Publisher(uc.pubs[i].id, uc.pubs[i].key))
  {
    hide Encode, OnFrameFrom;
    FrameOfMessage(uc, Connect(clientId), p, c, now, later, stale, junk);
  }

  // ---- Well-formed tables ----

  /** Ids are handed out once each, counting up, over publishers and subscribers together. */
  ghost predicate IdsHandedOut(subs: seq<Resource>, pubs: seq<Resource>, count: nat) {
    && |subs| + |pubs| == count
    && (forall r :: r in subs || r in pubs ==> 0 <= r.id < count)
    && (forall i, j :: 0 <= i < j < |subs| ==> subs[i].id != subs[j].id)
    && (forall i, j :: 0 <= i < j < |pubs| ==> pubs[i].id != pubs[j].id)
    && (forall r, q :: r in subs && q in pubs ==> r.id != q.id)
  }

  /** Every topic lies below one of the two roots. */
  predicate Rooted(key: Bytes) {
    SRC <= key || DST <= key
  }

  lemma TopicRooted(name: Blob, prefix: Blob)
    requires prefix == SRC_PREFIX || prefix == DST_PREFIX
    ensures Rooted(Topic(name, prefix))
    ensures Rooted(name) ==> Topic(name, prefix) == name
  {
  }

  /** Names outside the two roots keep apart under a prefix. */
  lemma TopicInjective(a: Blob, b: Blob, prefix: Blob)
    requires !Rooted(a) && !Rooted(b) && |prefix| + |a| < TWO_TO_THE_64 && |prefix| + |b| < TWO_TO_THE_64
    ensures prefix <= Topic(a, prefix) && Topic(a, prefix)[|prefix|..] == a && (Topic(a, prefix) == Topic(b, prefix) ==> a == b)
  {
    assert (prefix + a)[|prefix|..] == a && (prefix + b)[|prefix|..] == b;
  }

  lemma OwnTopics()
    ensures Topic(UPTIME, SRC_PREFIX) == SRC_PREFIX + UPTIME
    ensures Topic(LATENCY, SRC_PREFIX) == SRC_PREFIX + LATENCY
    ensures Topic(SRC_PREFIX + UPTIME, DST_PREFIX) == SRC_PREFIX + UPTIME
  {
    var topic := SRC_PREFIX + UPTIME;
    assert SRC_PREFIX[..4] == SRC;
    assert topic[..4] == SRC_PREFIX[..4];
    assert UPTIME[0] != DST[0] && LATENCY[0] != DST[0];
    assert UPTIME[1] != SRC[1] && LATENCY[1] != SRC[1];
  }

  lemma OwnKeysClean()
    ensures |SRC_PREFIX + UPTIME| <= 90 && 0 !in SRC_PREFIX + UPTIME
    ensures |SRC_PREFIX + LATENCY| <= 90 && 0 !in SRC_PREFIX + LATENCY
  {
    assert 0 !in SRC_PREFIX && 0 !in UPTIME && 0 !in LATENCY;
  }

  lemma OwnKeysDeclarable()
    ensures forall id :: Declarable(Resource(id, SRC_PREFIX + UPTIME)) && Declarable(Resource(id, SRC_PREFIX + LATENCY))
  {
    hide Encode, SRC_PREFIX, UPTIME, LATENCY;
    OwnKeysClean();
    forall id: Int32
      ensures Declarable(Resource(id, SRC_PREFIX + UPTIME)) && Declarable(Resource(id, SRC_PREFIX + LATENCY))
    {
      DeclarationSize(Resource(id, SRC_PREFIX + UPTIME));
      DeclarationSize(Resource(id, SRC_PREFIX + LATENCY));
    }
  }

  /** A resource whose declaration fits the buffers and whose key survives a C string. */
  predicate Declarable(r: Resource) {
    |Encode(PublisherOf(r))| <= UC_CAPACITY && 0 !in r.key
  }

  ghost predicate UniqueIds(rs: seq<Resource>) {
    forall i, j :: 0 <= i < j < |rs| ==> rs[i].id != rs[j].id
  }

  ghost predicate HasId(rs: seq<Resource>, id: Int32) {
    exists r :: r in rs && r.id == id
  }

  /** What set-up leaves behind: unambiguous ids, declarable resources, the two own publishers among them. */
  ghost predicate WellFormed(uc: Uc) {
    && UniqueIds(uc.subs) && UniqueIds(uc.pubs)
    && (forall r :: r in uc.subs || r in uc.pubs ==> Declarable(r))
    && HasId(uc.pubs, uc.uptime) && HasId(uc.pubs, uc.latency)
  }

  lemma SetUpWellFormed(uc: Uc, count: nat)
    requires IdsHandedOut(uc.subs, uc.pubs, count) && HasId(uc.pubs, uc.uptime) && HasId(uc.pubs, uc.latency)
    requires forall r :: r in uc.subs || r in uc.pubs ==> Declarable(r)
    ensures WellFormed(uc)
  {
  }

  /**
   Both declarations of a resource are as long: key and id with their heads, and three octets more.
   Keys of up to 90 octets always fit.
   */
  lemma DeclarationSize(r: Resource)
    ensures |Encode(SubscriberOf(r))| == |Encode(PublisherOf(r))| == |WriteInt(r.id)| + |WriteText(r.key)| + 3
    ensures |r.key| <= 90 ==> |Encode(PublisherOf(r))| <= UC_CAPACITY
  {
    IntSize(r.id);
    TagSize(SubscriberOf(r));
    TagSize(PublisherOf(r));
    if |r.key| <= 90 {
      TextSize(r.key);
    }
  }

  lemma DeclarationFits(r: Resource)
    requires Declarable(r)
    ensures |Encode(SubscriberOf(r))| <= UC_CAPACITY && |Encode(PublisherOf(r))| <= UC_CAPACITY
  {
    hide Encode;
    DeclarationSize(r);
  }

  lemma TextSize(b: Blob)
    requires |b| <= 90
    ensures |WriteText(b)| <= 2 + |b|
  {
  }

  lemma ConnectFits()
    ensures |Encode(Connect(SRC_PREFIX))| <= UC_CAPACITY
  {
    SmallHead(SRC_PREFIX);
    TagSize(Connect(SRC_PREFIX));
  }

  lemma SentAppend(a: seq<Msg>, m: Msg)
    ensures OnTheLine(a + [m]) == OnTheLine(a) + Frame(Encode(m))
  {
    hide Frame, Encode;
    assert (a + [m])[..|a|] == a;
  }

  class BrokerSerial {
    var resourceId: nat
    var publishers: seq<Resource>
    var subscribers: seq<Resource>
    var connected: bool
    var loopbackReceived: UInt64
    var uptimePub: Int32
    var latencyPub: Int32
    const publishFilter: MsgFilter
    const connectFilter: MsgFilter
    const toCbor: CborSerializer
    /** Bytes written to the serial line. */
    var serialOut: Bytes

    ghost predicate Wired() {
      && publishFilter.msgType == B_PUBLISH && publishFilter.fromCbor.capacity == PROXY_CAPACITY
      && connectFilter.msgType == B_CONNECT && connectFilter.fromCbor.capacity == PROXY_CAPACITY
      && toCbor.capacity == UC_CAPACITY && publishFilter != connectFilter
    }

    ghost predicate Valid()
      reads this
    {
      && Wired() && IdsHandedOut(subscribers, publishers, resourceId)
      && (forall r :: r in subscribers || r in publishers ==> Rooted(r.key))
    }

    /** Declarations fit the serializer's buffer, as its assertions demand, and hold no NUL. */
    ghost predicate Fits()
      reads this
    {
      forall r :: r in subscribers || r in publishers ==> Declarable(r)
    }

    function View(): Uc
      reads this
    {
      Uc(subscribers, publishers, uptimePub, latencyPub, connected, loopbackReceived)
    }

    /** The fields and variables nobody initialises hold the arguments. */
    constructor (loopback: UInt64, junk: Int32, p: Int32, c: Int32)
      ensures Valid() && Fits() && View() == Uc([], [], junk, junk, false, loopback)
      ensures resourceId == 0 && serialOut == []
    {
      resourceId, publishers, subscribers := 0, [], [];
      connected, loopbackReceived := false, loopback;
      uptimePub, latencyPub := junk, junk;
      publishFilter := new MsgFilter(B_PUBLISH, p);
      connectFilter := new MsgFilter(B_CONNECT, c);
      toCbor := new CborSerializer(UC_CAPACITY);
      serialOut := [];
    }

    method NewPublisher(name: Blob) returns (r: Resource)
      requires Valid() && resourceId < 0x7FFF_FFFF
      modifies this`resourceId, this`publishers
      ensures Valid() && r == Resource(old(resourceId), Topic(name, SRC_PREFIX))
      ensures publishers == old(publishers) + [r] && resourceId == old(resourceId) + 1
    {
      TopicRooted(name, SRC_PREFIX);
      var topic := name;
      if !(SRC <= topic || DST <= topic) {
        topic := Sized(SRC_PREFIX + name);
      }
      r := Resource(resourceId, topic);
      resourceId := resourceId + 1;
      publishers := publishers + [r];
    }

    method NewSubscriber(name: Blob) returns (r: Resource)
      requires Valid() && resourceId < 0x7FFF_FFFF
      modifies this`resourceId, this`subscribers
      ensures Valid() && r == Resource(old(resourceId), Topic(name, DST_PREFIX))
      ensures subscribers == old(subscribers) + [r] && resourceId == old(resourceId) + 1
    {
      TopicRooted(name, DST_PREFIX);
      var topic := name;
      if !(SRC <= topic || DST <= topic) {
        topic := Sized(DST_PREFIX + name);
      }
      r := Resource(resourceId, topic);
      resourceId := resourceId + 1;
      subscribers := subscribers + [r];
    }

    method Init()
      requires Valid() && Fits() && resourceId < 0x7FFF_FFFD
      modifies this`resourceId, this`publishers, this`subscribers, this`connected, this`uptimePub, this`latencyPub
      ensures Valid() && Fits() && !connected
      ensures publishers == old(publishers) + [Resource(old(resourceId), SRC_PREFIX + UPTIME),
                                               Resource(old(resourceId) + 1, SRC_PREFIX + LATENCY)]
      ensures subscribers == old(subscribers) + [Resource(old(resourceId) + 2, SRC_PREFIX + UPTIME)]
      ensures uptimePub == old(resourceId) && latencyPub == old(resourceId) + 1
      ensures WellFormed(View())
    {
      hide IdsHandedOut, Rooted, Topic, Declarable, WellFormed, SRC_PREFIX, DST_PREFIX, UPTIME, LATENCY;
      OwnTopics();
      OwnKeysDeclarable();
      connected := false;
      var uptime := NewPublisher(UPTIME);
      var latency := NewPublisher(LATENCY);
      uptimePub, latencyPub := uptime.id, latency.id;
      var loopback := NewSubscriber(SRC_PREFIX + UPTIME);
      assert uptime in publishers && latency in publishers;
      SetUpWellFormed(View(), resourceId);
    }

    method Send(m: Msg)
      requires Wired() && |Encode(m)| <= UC_CAPACITY
      modifies this`serialOut, toCbor
      ensures serialOut == old(serialOut) + Frame(Encode(m))
    {
      hide Frame, Encode;
      Serialize(m, toCbor);
      var bs := toCbor.ToBytes();
      var frame := PppFrame(bs);
      serialOut := serialOut + frame;
    }

    method KeepAlive(now: UInt64)
      requires Wired()
      modifies this`serialOut, toCbor
      ensures View() == OnKeepAlive(old(View()), now).uc
      ensures serialOut == old(serialOut) + OnTheLine(OnKeepAlive(old(View()), now).sent)
    {
      hide Frame, Encode, EncodeValue;
      if connected {
        ValueMessageFits(uptimePub, now);
        OnTheLineOne(Publish(uptimePub, EncodeValue(now)));
        Send(Publish(uptimePub, EncodeValue(now)));
      } else {
        ConnectFits();
        OnTheLineOne(Connect(SRC_PREFIX));
        Send(Connect(SRC_PREFIX));
      }
    }

    method ConnectReply()
      requires Valid() && Fits()
      modifies this`connected, this`serialOut, toCbor
      ensures View() == OnConnectReply(old(View())).uc
      ensures serialOut == old(serialOut) + OnTheLine(OnConnectReply(old(View())).sent)
    {
      hide Frame, Encode, OnTheLine, IdsHandedOut, Rooted, Declarable;
      connected := true;
      ghost var out0 := serialOut;
      ghost var sent: seq<Msg> := [];
      HandleFromNone(ZenohBroker.NEW_BOOK, 0, n => true);
      var i := 0;
      while i < |subscribers|
        invariant 0 <= i <= |subscribers| && connected
        invariant sent == Subscribers(subscribers[..i]) && serialOut == out0 + OnTheLine(sent)
      {
        var sub := subscribers[i];
        assert sub in subscribers;
        DeclarationFits(sub);
        SentAppend(sent, SubscriberOf(sub));
        Send(Subscriber(sub.id, sub.key));
        sent := sent + [SubscriberOf(sub)];
        assert sent == Subscribers(subscribers[..i + 1]);
        i := i + 1;
      }
      assert subscribers[..i] == subscribers;
      ghost var first := sent;
      i := 0;
      while i < |publishers|
        invariant 0 <= i <= |publishers| && connected
        invariant sent == first + Publishers(publishers[..i]) && serialOut == out0 + OnTheLine(sent)
      {
        var pub := publishers[i];
        assert pub in publishers;
        DeclarationFits(pub);
        SentAppend(sent, PublisherOf(pub));
        Send(Publisher(pub.id, pub.key));
        sent := sent + [PublisherOf(pub)];
        assert sent == first + Publishers(publishers[..i + 1]);
        i := i + 1;
      }
      assert publishers[..i] == publishers;
      assert sent == Announcements(View());
    }

    /** The subscriber to the uptime topic, on a frame its filter let through. */
    method IncomingPublish(frame: Bytes, now: UInt64, later: UInt64, stale: UInt64, junk: Int32)
      requires Wired()
      modifies this`loopbackReceived, this`serialOut, toCbor
      ensures var d := DecodeMsg(B_PUBLISH, Cut(frame, UC_CAPACITY), junk);
              if d.ok && d.value.Publish? then
                var r := OnLoopback(old(View()), DecodeValue(d.value.value, stale), now, later);
                View() == r.uc && serialOut == old(serialOut) + OnTheLine(r.sent)
              else View() == old(View()) && serialOut == old(serialOut)
    {
      hide Frame, Encode, EncodeValue, DecodeMsg;
      var fromCbor := new CborDeserializer(UC_CAPACITY);
      fromCbor.FromBytes(frame);
      var m := Deserialize(B_PUBLISH, fromCbor, junk);
      var ok := fromCbor.Success();
      if ok && m.Publish? {
        fromCbor.FromBytes(m.value);
        fromCbor.Begin();
        var t := fromCbor.MemberUInt64(stale);
        assert t == DecodeValue(m.value, stale);
        var latency := Publish(latencyPub, EncodeValue(Minus64(now, t)));
        ValueMessageFits(latencyPub, Minus64(now, t));
        OnTheLineOne(latency);
        Send(latency);
        loopbackReceived := later;
      }
    }

    method OnFrame(frame: Bytes, now: UInt64, later: UInt64, stale: UInt64, junk: Int32)
      requires Valid() && Fits()
      modifies this`connected, this`loopbackReceived, this`serialOut, toCbor
      modifies publishFilter, connectFilter, publishFilter.fromCbor, connectFilter.fromCbor
      ensures var r := OnFrameFrom(old(View()), frame, old(publishFilter.baseType), old(connectFilter.baseType),
                                   now, later, stale, junk);
              View() == r.uc && serialOut == old(serialOut) + OnTheLine(r.sent)
    {
      hide Frame, Encode, DecodeMsg, DecodeBase, DecodeValue, Passes, IdsHandedOut, Rooted, Declarable, OnTheLine,
           OnLoopback, OnConnectReply;
      ghost var out0, uc0 := serialOut, View();
      ghost var d := DecodeMsg(B_PUBLISH, Cut(frame, UC_CAPACITY), junk);
      HandleFromNone(ZenohBroker.NEW_BOOK, 0, n => true);
      ghost var sent: seq<Msg> := [];
      var passed, out := publishFilter.On(frame);
      if passed {
        IncomingPublish(frame, now, later, stale, junk);
        if d.ok && d.value.Publish? {
          sent := OnLoopback(uc0, DecodeValue(d.value.value, stale), now, later).sent;
        }
      }
      passed, out := connectFilter.On(frame);
      if passed {
        ghost var more := OnConnectReply(View()).sent;
        OnTheLineAppend(sent, more);
        ConnectReply();
        assert out0 + OnTheLine(sent) + OnTheLine(more) == out0 + (OnTheLine(sent) + OnTheLine(more));
      }
    }

    method ConnectTimer(now: UInt64)
      modifies this`connected
      ensures View() == OnConnectTimer(old(View()), now)
    {
      var timeSinceLoopback := Minus64(now, loopbackReceived);
      if timeSinceLoopback > 5000 {
        connected := false;
      }
    }
  }
}
