/**
 The proxy's pipeline: serial bytes to frames, frames through the five type filters to the handlers,
 handlers to the broker and back out on the line; and the end-to-end theorem about it.
 */
module ProxyPipeline {
  import opened ByteStrings
  import opened BrokerProtocol
  import opened CborStreams
  import opened FrameExtraction
  import opened Ppp
  import opened ZenohBroker

  /** The client id of the proxy's connect reply. */
  const CONNECTED: Blob := [0x63, 0x6F, 0x6E, 0x6E, 0x65, 0x63, 0x74, 0x65, 0x64]

  // ---- What handling a message means ----

  /** The broker's tables after the handler of `m`; `ok` is the library's answer to a declaration. */
  function TablesAfter(t: Tables, m: Msg, ok: bool): Tables {
    match m
    case Connect(_) => t
    case Disconnect => EMPTY
    case Subscriber(id, topic) => WithSubscriber(t, id, topic, ok)
    case Publisher(id, topic) => WithPublisher(t, id, topic)
    case Publish(_, _) => t
  }

  /** A publish is written under the key of its id's entry; without an entry nothing is. */
  function PutsBy(b: Book, m: Msg): seq<Put> {
    if m.Publish? && m.id in b.tables.pubs then [Put(b.open, b.tables.pubs[m.id], m.value)] else []
  }

  /** The books after the handler of `m`. */
  function Handle(b: Book, m: Msg, ok: bool): Book {
    Book(TablesAfter(b.tables, m, ok), b.open || (m.Connect? && ok), b.puts + PutsBy(b, m))
  }

  function ReplyTo(m: Msg): seq<Msg> {
    if m.Connect? then [Connect(CONNECTED)] else []
  }

  /** Messages handled one after the other, the first of them being number `n` of the whole run. */
  function HandleFrom(b: Book, ms: seq<Msg>, n: nat, answers: nat -> bool): Book {
    if ms == [] then b
    else Handle(HandleFrom(b, ms[..|ms| - 1], n, answers), ms[|ms| - 1], answers(n + |ms| - 1))
  }

  function RepliesTo(ms: seq<Msg>): seq<Msg> {
    if ms == [] then [] else RepliesTo(ms[..|ms| - 1]) + ReplyTo(ms[|ms| - 1])
  }

  /** The bytes on the line for a series of messages. */
  function OnTheLine(ms: seq<Msg>): Bytes {
    if ms == [] then [] else OnTheLine(ms[..|ms| - 1]) + Frame(Encode(ms[|ms| - 1]))
  }

  /** What the filters' variables hold after a frame. */
  function NextStale(stale: Filters, frame: Bytes): Filters {
    var buffer := Cut(frame, PROXY_CAPACITY);
    Filters(DecodeBase(buffer, stale.connect).value, DecodeBase(buffer, stale.subscriber).value,
            DecodeBase(buffer, stale.publisher).value, DecodeBase(buffer, stale.publish).value,
            DecodeBase(buffer, stale.disconnect).value)
  }

  /** No handler of the run reads from an unset pointer. */
  predicate RunSafe(stale: Filters, frames: seq<Bytes>, junk: Int32) {
    frames == [] ||
    (RunSafe(stale, frames[..|frames| - 1], junk) &&
     DispatchSafe(frames[|frames| - 1], RunFrames(stale, frames[..|frames| - 1], junk).stale))
  }

  datatype FrameRun = FrameRun(stale: Filters, handled: seq<Msg>)

  /** The frames of a run through the filters: what is handled, in order. */
  function RunFrames(stale: Filters, frames: seq<Bytes>, junk: Int32): FrameRun {
    if frames == [] then FrameRun(stale, [])
    else
      var before := RunFrames(stale, frames[..|frames| - 1], junk);
      var frame := frames[|frames| - 1];
      FrameRun(NextStale(before.stale, frame), before.handled + Dispatch(frame, before.stale, junk))
  }

  function PayloadsOf(events: seq<Event>): seq<Bytes> {
    if events == [] then []
    else
      PayloadsOf(events[..|events| - 1]) +
      match events[|events| - 1]
      case Emitted(_, payload) => [payload]
      case Printed(_) => []
  }

  lemma {:induction false} HandleFromAppend(t: Book, a: seq<Msg>, b: seq<Msg>, n: nat, answers: nat -> bool)
    ensures HandleFrom(t, a + b, n, answers) == HandleFrom(HandleFrom(t, a, n, answers), b, n + |a|, answers)
  {
    hide Handle;
    if b == [] {
      assert a + b == a;
    } else {
      assert (a + b)[..|a + b| - 1] == a + b[..|b| - 1];
      HandleFromAppend(t, a, b[..|b| - 1], n, answers);
    }
  }

  lemma {:induction false} RepliesAppend(a: seq<Msg>, b: seq<Msg>)
    ensures RepliesTo(a + b) == RepliesTo(a) + RepliesTo(b)
  {
    if b == [] {
      assert a + b == a;
    } else {
      assert (a + b)[..|a + b| - 1] == a + b[..|b| - 1];
      RepliesAppend(a, b[..|b| - 1]);
    }
  }

  lemma {:induction false} OnTheLineAppend(a: seq<Msg>, b: seq<Msg>)
    ensures OnTheLine(a + b) == OnTheLine(a) + OnTheLine(b)
  {
    hide Frame, Encode;
    if b == [] {
      assert a + b == a;
    } else {
      assert (a + b)[..|a + b| - 1] == a + b[..|b| - 1];
      OnTheLineAppend(a, b[..|b| - 1]);
      var x, y, z := OnTheLine(a), OnTheLine(b[..|b| - 1]), Frame(Encode(b[|b| - 1]));
      assert x + y + z == x + (y + z);
    }
  }

  lemma OnTheLineOne(m: Msg)
    ensures OnTheLine([m]) == Frame(Encode(m)) && RepliesTo([m]) == ReplyTo(m)
  {
    hide Frame, Encode;
    assert [m][..0] == [];
    assert OnTheLine([]) == [] && RepliesTo([]) == [];
  }

  lemma HandleFromOne(t: Book, m: Msg, n: nat, answers: nat -> bool)
    ensures HandleFrom(t, [m], n, answers) == Handle(t, m, answers(n))
  {
    assert [m][..0] == [];
  }

  /** A run so far: the tables, what was handled, and what went out on the line. */
  ghost predicate Progress(t0: Book, n0: nat, answers: nat -> bool, done: seq<Msg>, t: Book, sent: Bytes) {
    t == HandleFrom(t0, done, n0, answers) && sent == OnTheLine(RepliesTo(done))
  }

  lemma ProgressAppend(t0: Book, n0: nat, answers: nat -> bool, a: seq<Msg>, t1: Book, s1: Bytes, b: seq<Msg>, t2: Book, s2: Bytes)
    requires Progress(t0, n0, answers, a, t1, s1) && Progress(t1, n0 + |a|, answers, b, t2, s2)
    ensures Progress(t0, n0, answers, a + b, t2, s1 + s2)
  {
    HandleFromAppend(t0, a, b, n0, answers);
    RepliesAppend(a, b);
    OnTheLineAppend(RepliesTo(a), RepliesTo(b));
  }

  lemma ProgressFive(t0: Book, n0: nat, answers: nat -> bool, a: seq<Msg>, t1: Book, b: seq<Msg>, t2: Book,
                     c: seq<Msg>, t3: Book, d: seq<Msg>, t4: Book, e: seq<Msg>, t5: Book)
    requires t1 == HandleFrom(t0, a, n0, answers) && t2 == HandleFrom(t1, b, n0 + |a|, answers)
    requires t3 == HandleFrom(t2, c, n0 + |a| + |b|, answers)
    requires t4 == HandleFrom(t3, d, n0 + |a| + |b| + |c|, answers)
    requires t5 == HandleFrom(t4, e, n0 + |a| + |b| + |c| + |d|, answers)
    ensures t5 == HandleFrom(t0, a + b + c + d + e, n0, answers)
    ensures OnTheLine(RepliesTo(a + b + c + d + e)) ==
            OnTheLine(RepliesTo(a)) + OnTheLine(RepliesTo(b)) + OnTheLine(RepliesTo(c)) +
            OnTheLine(RepliesTo(d)) + OnTheLine(RepliesTo(e))
  {
    hide HandleFrom, RepliesTo, OnTheLine;
    ProgressAppend(t0, n0, answers, a, t1, OnTheLine(RepliesTo(a)), b, t2, OnTheLine(RepliesTo(b)));
    ProgressAppend(t0, n0, answers, a + b, t2, OnTheLine(RepliesTo(a + b)), c, t3, OnTheLine(RepliesTo(c)));
    ProgressAppend(t0, n0, answers, a + b + c, t3, OnTheLine(RepliesTo(a + b + c)), d, t4, OnTheLine(RepliesTo(d)));
    ProgressAppend(t0, n0, answers, a + b + c + d, t4, OnTheLine(RepliesTo(a + b + c + d)), e, t5, OnTheLine(RepliesTo(e)));
  }

  lemma ReplyFits()
    ensures |Encode(Connect(CONNECTED))| <= PROXY_CAPACITY
  {
    SmallHead(CONNECTED);
    TagSize(Connect(CONNECTED));
  }

  class Proxy {
    const broker: BrokerZenoh
    const connectFilter: MsgFilter
    const subscriberFilter: MsgFilter
    const publisherFilter: MsgFilter
    const publishFilter: MsgFilter
    const disconnectFilter: MsgFilter
    const fromCbor: CborDeserializer
    const toCbor: CborSerializer
    const extractor: FrameExtractor
    /** Bytes written to the serial line. */
    var serialOut: Bytes
    /** Messages acted on so far. */
    var handled: seq<Msg>

    ghost predicate FilterReady(f: MsgFilter, kind: Int32) {
      f.msgType == kind && f.fromCbor.capacity == PROXY_CAPACITY && f.fromCbor != fromCbor
    }

    ghost predicate Wired() {
      && FilterReady(connectFilter, B_CONNECT) && FilterReady(subscriberFilter, B_SUBSCRIBER)
      && FilterReady(publisherFilter, B_PUBLISHER) && FilterReady(publishFilter, B_PUBLISH)
      && FilterReady(disconnectFilter, B_DISCONNECT)
      && fromCbor.capacity == PROXY_CAPACITY && toCbor.capacity == PROXY_CAPACITY
      && connectFilter != subscriberFilter && connectFilter != publisherFilter && connectFilter != publishFilter
      && connectFilter != disconnectFilter && subscriberFilter != publisherFilter && subscriberFilter != publishFilter
      && subscriberFilter != disconnectFilter && publisherFilter != publishFilter && publisherFilter != disconnectFilter
      && publishFilter != disconnectFilter
    }

    ghost predicate Valid()
      reads this, broker, broker.net
    {
      Wired() && broker.Valid()
    }

    ghost function Stale(): Filters
      reads connectFilter, subscriberFilter, publisherFilter, publishFilter, disconnectFilter
    {
      Filters(connectFilter.baseType, subscriberFilter.baseType, publisherFilter.baseType,
              publishFilter.baseType, disconnectFilter.baseType)
    }

    /** The variables nobody initialises hold `garbage` and `since`. */
    constructor (broker: BrokerZenoh, garbage: Filters, since: UInt64)
      requires broker.Valid()
      ensures this.broker == broker && Valid() && Stale() == garbage
      ensures extractor.State() == Rx([], since) && extractor.events == []
      ensures handled == [] && serialOut == []
      ensures fresh(extractor)
    {
      this.broker := broker;
      connectFilter := new MsgFilter(B_CONNECT, garbage.connect);
      subscriberFilter := new MsgFilter(B_SUBSCRIBER, garbage.subscriber);
      publisherFilter := new MsgFilter(B_PUBLISHER, garbage.publisher);
      publishFilter := new MsgFilter(B_PUBLISH, garbage.publish);
      disconnectFilter := new MsgFilter(B_DISCONNECT, garbage.disconnect);
      fromCbor := new CborDeserializer(PROXY_CAPACITY);
      toCbor := new CborSerializer(PROXY_CAPACITY);
      extractor := new FrameExtractor(since);
      serialOut, handled := [], [];
    }

    /** `toSerialMsg` to the line: serialize, frame, write. */
    method Send(m: Msg)
      requires toCbor.capacity == PROXY_CAPACITY && |Encode(m)| <= PROXY_CAPACITY
      modifies this`serialOut, toCbor
      ensures serialOut == old(serialOut) + Frame(Encode(m))
    {
      hide Frame, Encode;
      Serialize(m, toCbor);
      var bs := toCbor.ToBytes();
      var frame := PppFrame(bs);
      serialOut := serialOut + frame;
    }

    /** The broker's part of the handler for the type of `m`. */
    method TellBroker(m: Msg, ok: bool)
      requires broker.Valid()
      modifies broker, broker.net
      ensures broker.Valid() && broker.Account() == Handle(old(broker.Account()), m, ok)
      // To the letter: what a publish writes, and on which session.
      ensures broker.net.written == old(broker.net.written) +
              if m.Publish? && m.id in old(broker.View()).pubs then
                [Written(old(broker.session), old(broker.View()).pubs[m.id], m.value)] else []
      ensures m.Connect? && ok ==> broker.session != NULL
      ensures old(broker.session) != NULL ==> broker.session == old(broker.session)
    {
      hide SubsAccounted, PubsAccounted, DeclaredAs, PutsOf, SubKeys, PubKeys;
      match m {
        case Connect(_) =>
          var rc := broker.Connect(ok);
        case Disconnect =>
          var rc := broker.Disconnect();
        case Subscriber(id, topic) =>
          var rc := broker.Subscriber(id, topic, ok);
        case Publisher(id, topic) =>
          var rc := broker.Publisher(id, topic, ok);
        case Publish(id, value) =>
          var rc := broker.Publish(id, value, 0);
      }
    }

    /** The body of the handler for the type of `m`: a connect is answered after the broker's part. */
    method Act(m: Msg, answers: nat -> bool)
      requires Valid()
      modifies this`serialOut, this`handled, toCbor, broker, broker.net
      ensures Valid() && handled == old(handled) + [m]
      ensures broker.Account() == Handle(old(broker.Account()), m, answers(|old(handled)|))
      ensures serialOut == old(serialOut) + OnTheLine(ReplyTo(m))
      ensures broker.net.written == old(broker.net.written) +
              if m.Publish? && m.id in old(broker.View()).pubs then
                [Written(old(broker.session), old(broker.View()).pubs[m.id], m.value)] else []
      ensures m.Connect? && answers(|old(handled)|) ==> broker.session != NULL
      ensures old(broker.session) != NULL ==> broker.session == old(broker.session)
    {
      hide Encode, Frame, SubsAccounted, PubsAccounted, DeclaredAs, PutsOf, SubKeys, PubKeys, Handle;
      TellBroker(m, answers(|handled|));
      if m.Connect? {
        ReplyFits();
        OnTheLineOne(Connect(CONNECTED));
        Send(Connect(CONNECTED));
      }
      handled := handled + [m];
    }

    /**
     The library calls a subscriber back, with what its handle was given out for: the sample goes out
     under that entry's id. One that the serializer's buffer cannot take stops the program.
     */
    method OnSample(handle: Pointer, data: Blob) returns (id: Int32)
      requires Valid() && handle in broker.net.liveSubscribers
      requires forall i :: i in broker.subscribers && broker.subscribers[i].handle == handle ==>
                 |Encode(Publish(i, data))| <= PROXY_CAPACITY
      modifies this`serialOut, toCbor
      ensures id in broker.subscribers && broker.subscribers[id].handle == handle && id in broker.Account().tables.subs
      ensures serialOut == old(serialOut) + OnTheLine([Publish(id, data)])
    {
      hide Encode, Frame, PubsAccounted;
      assert SubHandle(broker.subscribers, broker.subscribers.Keys, handle);
      id := broker.net.declared[handle].id;
      OnTheLineOne(Publish(id, data));
      Send(Publish(id, data));
    }

    /**
     One filter with its handler behind it. When the handler reads from an unset pointer nothing is
     said of what it does; the model goes on with some text.
     */
    method Offer(filter: MsgFilter, frame: Bytes, answers: nat -> bool, junk: Int32)
      requires Valid() && FilterReady(filter, filter.msgType)
      modifies this`serialOut, this`handled, toCbor, fromCbor, broker, broker.net, filter, filter.fromCbor
      ensures Valid()
      ensures FireSafe(filter.msgType, frame, old(filter.baseType)) ==>
                var done := Fire(filter.msgType, frame, old(filter.baseType), junk);
                handled == old(handled) + done &&
                broker.Account() == HandleFrom(old(broker.Account()), done, |old(handled)|, answers) &&
                serialOut == old(serialOut) + OnTheLine(RepliesTo(done))
      ensures filter.baseType == DecodeBase(Cut(frame, PROXY_CAPACITY), old(filter.baseType)).value
    {
      hide Encode, Frame, Handle, SubsAccounted, PubsAccounted, DeclaredAs, PutsOf, SubKeys, PubKeys, DecodeBase, DecodeMsg, DecodeSafe,
           HandleFrom;
      var pass, out := filter.On(frame);
      if pass {
        fromCbor.FromBytes(out);
        var m := Deserialize(filter.msgType, fromCbor, junk);
        var ok := fromCbor.Success();
        if ok {
          HandleFromOne(broker.Account(), m, |handled|, answers);
          OnTheLineOne(m);
          Act(m, answers);
          return;
        }
      }
      HandleFromNone(broker.Account(), |handled|, answers);
    }

    /** One frame through all five filters, in the order they were attached. */
    method OnFrame(frame: Bytes, answers: nat -> bool, junk: Int32)
      requires Valid()
      modifies this`serialOut, this`handled, toCbor, fromCbor, broker, broker.net
      modifies connectFilter, subscriberFilter, publisherFilter, publishFilter, disconnectFilter
      modifies connectFilter.fromCbor, subscriberFilter.fromCbor, publisherFilter.fromCbor, publishFilter.fromCbor,
               disconnectFilter.fromCbor
      ensures Valid()
      ensures DispatchSafe(frame, old(Stale())) ==>
                var done := Dispatch(frame, old(Stale()), junk);
                handled == old(handled) + done &&
                broker.Account() == HandleFrom(old(broker.Account()), done, |old(handled)|, answers) &&
                serialOut == old(serialOut) + OnTheLine(RepliesTo(done)) &&
                Stale() == NextStale(old(Stale()), frame)
    {
      hide Fire, FireSafe, HandleFrom, RepliesTo, OnTheLine, SubsAccounted, PubsAccounted, DeclaredAs, PutsOf, SubKeys, PubKeys, DecodeBase;
      ghost var s, t0, n0, out0 := Stale(), broker.Account(), |handled|, serialOut;
      ghost var before := handled;
      ghost var f1, f2, f3, f4, f5 :=
        Fire(B_CONNECT, frame, s.connect, junk), Fire(B_SUBSCRIBER, frame, s.subscriber, junk),
        Fire(B_PUBLISHER, frame, s.publisher, junk), Fire(B_PUBLISH, frame, s.publish, junk),
        Fire(B_DISCONNECT, frame, s.disconnect, junk);
      Offer(connectFilter, frame, answers, junk);
      ghost var t1 := broker.Account();
      Offer(subscriberFilter, frame, answers, junk);
      ghost var t2 := broker.Account();
      Offer(publisherFilter, frame, answers, junk);
      ghost var t3 := broker.Account();
      Offer(publishFilter, frame, answers, junk);
      ghost var t4 := broker.Account();
      Offer(disconnectFilter, frame, answers, junk);
      if DispatchSafe(frame, s) {
        ProgressFive(t0, n0, answers, f1, t1, f2, t2, f3, t3, f4, t4, f5, broker.Account());
        Regroup(before, f1, f2, f3, f4, f5);
        Regroup(out0, OnTheLine(RepliesTo(f1)), OnTheLine(RepliesTo(f2)), OnTheLine(RepliesTo(f3)),
                OnTheLine(RepliesTo(f4)), OnTheLine(RepliesTo(f5)));
      }
    }

    /** One chunk from the line: every payload it completes goes through the filters at once. */
    method OnSerial(bs: Bytes, clock: seq<UInt64>, answers: nat -> bool, junk: Int32)
      requires Valid() && |clock| == |bs| + 1
      modifies this`serialOut, this`handled, toCbor, fromCbor, extractor, broker, broker.net
      modifies connectFilter, subscriberFilter, publisherFilter, publishFilter, disconnectFilter
      modifies connectFilter.fromCbor, subscriberFilter.fromCbor, publisherFilter.fromCbor, publishFilter.fromCbor,
               disconnectFilter.fromCbor
      ensures Valid()
      ensures var rx := Run(old(extractor.State()), ChunkTicks(bs, clock));
              var run := RunFrames(old(Stale()), PayloadsOf(rx.events), junk);
              RunSafe(old(Stale()), PayloadsOf(rx.events), junk) ==>
                extractor.State() == rx.rx && Stale() == run.stale &&
                handled == old(handled) + run.handled &&
                broker.Account() == HandleFrom(old(broker.Account()), run.handled, |old(handled)|, answers) &&
                serialOut == old(serialOut) + OnTheLine(RepliesTo(run.handled))
    {
      hide Run, DispatchSafe, RunSafe, ChunkTicks, RunFrames, PayloadsOf, HandleFrom, RepliesTo, OnTheLine, Dispatch, NextStale,
           SubsAccounted, PubsAccounted, DeclaredAs, PutsOf, SubKeys, PubKeys;
      ghost var s, t0, n0, out0, before := Stale(), broker.Account(), |handled|, serialOut, handled;
      ghost var rx := Run(extractor.State(), ChunkTicks(bs, clock));
      var first := |extractor.events|;
      ghost var old0 := extractor.events;
      extractor.HandleRxd(bs, clock);
      ghost var events := rx.events;
      assert extractor.events == old0 + events;
      ghost var run := FrameRun(s, []);
      var i := first;
      HandleFromNone(t0, n0, answers);
      RunFramesNone(s, junk);
      assert old0 + events == extractor.events;
      while i < |extractor.events|
        invariant first <= i <= |extractor.events| && extractor.events == old0 + events && extractor.State() == rx.rx
        invariant Valid() && run == RunFrames(s, PayloadsOf(events[..i - first]), junk)
        invariant RunSafe(s, PayloadsOf(events[..i - first]), junk) ==>
                    Stale() == run.stale && handled == before + run.handled &&
                    broker.Account() == HandleFrom(t0, run.handled, n0, answers) &&
                    serialOut == out0 + OnTheLine(RepliesTo(run.handled))
      {
        ghost var done := events[..i - first];
        assert extractor.events[i] == events[i - first];
        PrefixSnoc(events, i - first);
        PayloadsSnoc(done, events[i - first]);
        match extractor.events[i] {
          case Emitted(raw, payload) =>
            ghost var t1, s1 := broker.Account(), OnTheLine(RepliesTo(run.handled));
            ghost var more := Dispatch(payload, run.stale, junk);
            OnFrame(payload, answers, junk);
            RunFramesSnoc(s, PayloadsOf(done), payload, junk);
            if RunSafe(s, PayloadsOf(done) + [payload], junk) {
              ProgressAppend(t0, n0, answers, run.handled, t1, s1, more, broker.Account(), OnTheLine(RepliesTo(more)));
              assert before + run.handled + more == before + (run.handled + more);
              assert out0 + s1 + OnTheLine(RepliesTo(more)) == out0 + (s1 + OnTheLine(RepliesTo(more)));
            }
            run := FrameRun(NextStale(run.stale, payload), run.handled + more);
          case Printed(raw) =>
            assert PayloadsOf(done) + [] == PayloadsOf(done);
        }
        i := i + 1;
      }
      WholePrefix(events);
    }

    /** A whole stream, chunk by chunk. */
    method OnStream(chunks: seq<Chunk>, answers: nat -> bool, junk: Int32)
      requires Valid() && forall c :: c in chunks ==> |c.clock| == |c.bs| + 1
      modifies this`serialOut, this`handled, toCbor, fromCbor, extractor, broker, broker.net
      modifies connectFilter, subscriberFilter, publisherFilter, publishFilter, disconnectFilter
      modifies connectFilter.fromCbor, subscriberFilter.fromCbor, publisherFilter.fromCbor, publishFilter.fromCbor,
               disconnectFilter.fromCbor
      ensures Valid()
      ensures var payloads := PayloadsOf(Run(old(extractor.State()), TicksOf(chunks)).events);
              var run := RunFrames(old(Stale()), payloads, junk);
              RunSafe(old(Stale()), payloads, junk) ==>
                handled == old(handled) + run.handled &&
                broker.Account() == HandleFrom(old(broker.Account()), run.handled, |old(handled)|, answers) &&
                serialOut == old(serialOut) + OnTheLine(RepliesTo(run.handled))
    {
      hide Run, RunSafe, ChunkTicks, RunFrames, PayloadsOf, HandleFrom, RepliesTo, OnTheLine, TicksOf, SubsAccounted,
           PubsAccounted, DeclaredAs, PutsOf, SubKeys, PubKeys;
      ghost var s, t0, n0, out0, before := Stale(), broker.Account(), |handled|, serialOut, handled;
      ghost var rx0 := extractor.State();
      ghost var run := FrameRun(s, []);
      HandleFromNone(t0, n0, answers);
      RunFramesNone(s, junk);
      NoTicks(rx0);
      var i := 0;
      while i < |chunks|
        invariant 0 <= i <= |chunks| && Valid()
        invariant run == RunFrames(s, PayloadsOf(Run(rx0, TicksOf(chunks[..i])).events), junk)
        invariant RunSafe(s, PayloadsOf(Run(rx0, TicksOf(chunks[..i])).events), junk) ==>
                    extractor.State() == Run(rx0, TicksOf(chunks[..i])).rx && Stale() == run.stale &&
                    handled == before + run.handled &&
                    broker.Account() == HandleFrom(t0, run.handled, n0, answers) &&
                    serialOut == out0 + OnTheLine(RepliesTo(run.handled))
      {
        assert chunks[i] in chunks;
        ghost var t1, s1 := broker.Account(), OnTheLine(RepliesTo(run.handled));
        ghost var rx1 := Run(rx0, TicksOf(chunks[..i])).rx;
        ghost var ticks := ChunkTicks(chunks[i].bs, chunks[i].clock);
        ghost var more := RunFrames(run.stale, PayloadsOf(Run(rx1, ticks).events), junk);
        OnSerial(chunks[i].bs, chunks[i].clock, answers, junk);
        StreamStep(rx0, chunks, i, s, junk);
        if RunSafe(s, PayloadsOf(Run(rx0, TicksOf(chunks[..i + 1])).events), junk) {
          ProgressAppend(t0, n0, answers, run.handled, t1, s1, more.handled, broker.Account(), OnTheLine(RepliesTo(more.handled)));
          assert before + run.handled + more.handled == before + (run.handled + more.handled);
          assert out0 + s1 + OnTheLine(RepliesTo(more.handled)) == out0 + (s1 + OnTheLine(RepliesTo(more.handled)));
        }
        run := FrameRun(more.stale, run.handled + more.handled);
        i := i + 1;
      }
      WholePrefix(chunks);
    }
  }

  datatype Chunk = Chunk(bs: Bytes, clock: seq<UInt64>)

  function TicksOf(chunks: seq<Chunk>): seq<Tick>
    requires forall c :: c in chunks ==> |c.clock| == |c.bs| + 1
  {
    if chunks == [] then []
    else
      var last := chunks[|chunks| - 1];
      TicksOf(chunks[..|chunks| - 1]) + ChunkTicks(last.bs, last.clock)
  }

  lemma NoTicks(rx: Rx)
    ensures TicksOf([]) == [] && Run(rx, []) == Outcome(rx, []) && PayloadsOf([]) == []
  {
  }

  lemma RunFramesNone(stale: Filters, junk: Int32)
    ensures RunFrames(stale, [], junk) == FrameRun(stale, []) && PayloadsOf([]) == []
    ensures RunSafe(stale, [], junk)
  {
  }

  lemma RunFramesSnoc(stale: Filters, frames: seq<Bytes>, frame: Bytes, junk: Int32)
    ensures var before := RunFrames(stale, frames, junk);
            RunFrames(stale, frames + [frame], junk) ==
            FrameRun(NextStale(before.stale, frame), before.handled + Dispatch(frame, before.stale, junk)) &&
            (RunSafe(stale, frames + [frame], junk) <==>
             RunSafe(stale, frames, junk) && DispatchSafe(frame, before.stale))
  {
    hide NextStale, Dispatch, DispatchSafe;
    assert (frames + [frame])[..|frames|] == frames;
  }

  lemma PayloadsSnoc(events: seq<Event>, e: Event)
    ensures PayloadsOf(events + [e]) ==
            PayloadsOf(events) + (match e case Emitted(_, payload) => [payload] case Printed(_) => [])
  {
    assert (events + [e])[..|events|] == events;
  }

  lemma {:induction false} PayloadsAppend(a: seq<Event>, b: seq<Event>)
    ensures PayloadsOf(a + b) == PayloadsOf(a) + PayloadsOf(b)
  {
    if b == [] {
      assert a + b == a;
    } else {
      assert (a + b)[..|a + b| - 1] == a + b[..|b| - 1];
      PayloadsAppend(a, b[..|b| - 1]);
    }
  }

  lemma {:induction false} RunFramesAppend(stale: Filters, a: seq<Bytes>, b: seq<Bytes>, junk: Int32)
    ensures var first := RunFrames(stale, a, junk);
            var second := RunFrames(first.stale, b, junk);
            RunFrames(stale, a + b, junk) == FrameRun(second.stale, first.handled + second.handled) &&
            (RunSafe(stale, a + b, junk) <==> RunSafe(stale, a, junk) && RunSafe(first.stale, b, junk))
  {
    hide NextStale, Dispatch, DispatchSafe;
    if b == [] {
      assert a + b == a;
    } else {
      var c, frame := b[..|b| - 1], b[|b| - 1];
      assert a + b == (a + c) + [frame] && b == c + [frame];
      RunFramesAppend(stale, a, c, junk);
      RunFramesSnoc(stale, a + c, frame, junk);
      var first := RunFrames(stale, a, junk);
      RunFramesSnoc(first.stale, c, frame, junk);
      var second := RunFrames(first.stale, c, junk);
      var more := Dispatch(frame, second.stale, junk);
      assert first.handled + second.handled + more == first.handled + (second.handled + more);
    }
  }

  lemma StreamStep(rx: Rx, chunks: seq<Chunk>, i: nat, stale: Filters, junk: Int32)
    requires i < |chunks| && forall c :: c in chunks ==> |c.clock| == |c.bs| + 1
    ensures var ticks := ChunkTicks(chunks[i].bs, chunks[i].clock);
            var before := Run(rx, TicksOf(chunks[..i]));
            var after := Run(rx, TicksOf(chunks[..i + 1]));
            var chunk := Run(before.rx, ticks);
            var run := RunFrames(stale, PayloadsOf(before.events), junk);
            var more := RunFrames(run.stale, PayloadsOf(chunk.events), junk);
            after.rx == chunk.rx &&
            RunFrames(stale, PayloadsOf(after.events), junk) == FrameRun(more.stale, run.handled + more.handled) &&
            (RunSafe(stale, PayloadsOf(after.events), junk) <==>
             RunSafe(stale, PayloadsOf(before.events), junk) && RunSafe(run.stale, PayloadsOf(chunk.events), junk))
  {
    hide Run, RunFrames, RunSafe, PayloadsOf, ChunkTicks;
    var ticks := ChunkTicks(chunks[i].bs, chunks[i].clock);
    var before := Run(rx, TicksOf(chunks[..i]));
    assert chunks[..i + 1][..i] == chunks[..i];
    RunAppend(rx, TicksOf(chunks[..i]), ticks);
    PayloadsAppend(before.events, Run(before.rx, ticks).events);
    RunFramesAppend(stale, PayloadsOf(before.events), PayloadsOf(Run(before.rx, ticks).events), junk);
  }

  // ---- End to end ----

  /** What the handlers see of a message sent by the other side. */
  function Arrival(m: Msg): seq<Msg> {
    if |Encode(m)| <= PROXY_CAPACITY then [CutText(m)] else []
  }

  function Arrivals(ms: seq<Msg>): seq<Msg> {
    if ms == [] then [] else Arrivals(ms[..|ms| - 1]) + Arrival(ms[|ms| - 1])
  }

  function Encodings(ms: seq<Msg>): seq<Bytes> {
    seq(|ms|, i requires 0 <= i < |ms| => Encode(ms[i]))
  }

  lemma {:induction false} LineIsFrames(ms: seq<Msg>)
    ensures OnTheLine(ms) == FramesOf(Encodings(ms))
  {
    hide Frame, Encode;
    if ms != [] {
      LineIsFrames(ms[..|ms| - 1]);
      assert Encodings(ms)[..|ms| - 1] == Encodings(ms[..|ms| - 1]);
    }
  }

  lemma EncodeNotEmpty(m: Msg)
    ensures Encode(m) != []
  {
    hide *;
    CutKeepsTag(m, 3);
  }

  lemma {:induction false} PayloadsDelivered(ms: seq<Msg>)
    ensures PayloadsOf(DeliveriesOf(Encodings(ms))) == Encodings(ms)
  {
    hide Encode, Body, DeliveryOf;
    if ms != [] {
      var init, m := ms[..|ms| - 1], ms[|ms| - 1];
      PayloadsDelivered(init);
      EncodeNotEmpty(m);
      DeliveryOfEncoded(Encode(m));
      assert Encodings(ms) == Encodings(init) + [Encode(m)];
      FramesSnoc(Encodings(init), Encode(m));
      PayloadsSnoc(DeliveriesOf(Encodings(init)), DeliveryOf(Encode(m)));
    }
  }

  lemma DeliveryOfEncoded(p: Bytes)
    requires p != []
    ensures DeliveryOf(p) == Emitted(Body(p), p)
  {
    hide Body;
  }

  /** The texts of all messages arrive whole. */
  ghost predicate AllTextsArrive(ms: seq<Msg>) {
    forall m :: m in ms ==> TextArrives(m, PROXY_CAPACITY)
  }

  lemma {:induction false} FramesHandled(stale: Filters, ms: seq<Msg>, junk: Int32)
    ensures RunSafe(stale, Encodings(ms), junk) <==> AllTextsArrive(ms)
    ensures AllTextsArrive(ms) ==> RunFrames(stale, Encodings(ms), junk).handled == Arrivals(ms)
  {
    hide Encode, Dispatch, DispatchSafe, TextArrives, NextStale;
    if ms != [] {
      var init, m := ms[..|ms| - 1], ms[|ms| - 1];
      FramesHandled(stale, init, junk);
      assert Encodings(ms) == Encodings(init) + [Encode(m)];
      RunFramesSnoc(stale, Encodings(init), Encode(m), junk);
      DispatchExact(m, RunFrames(stale, Encodings(init), junk).stale, junk);
    }
  }

  /**
   However the line bytes of a series of messages are chunked, and whatever the uninitialised
   variables hold: without a late chunk end inside a frame, the handlers fire once per message that
   fits the deserializer's buffer, in order, with the same fields up to the NULs in text. This holds
   exactly as long as no message is so long that a handler reads from an unset pointer.
   */
  lemma EndToEnd(rx: Rx, ticks: seq<Tick>, ms: seq<Msg>, stale: Filters, junk: Int32)
    requires rx.pending == [] && Received(ticks) == OnTheLine(ms) && Timely(ticks, rx.lastFlag)
    ensures var payloads := PayloadsOf(Run(rx, ticks).events);
            (RunSafe(stale, payloads, junk) <==> AllTextsArrive(ms)) &&
            (AllTextsArrive(ms) ==> RunFrames(stale, payloads, junk).handled == Arrivals(ms))
  {
    hide *;
    LineIsFrames(ms);
    FramesDelivered(rx, ticks, Encodings(ms));
    PayloadsDelivered(ms);
    FramesHandled(stale, ms, junk);
  }

  /** The handlers safely see exactly what was sent if and only if all of it fits and no text has a NUL. */
  lemma HandledAsSentIff(rx: Rx, ticks: seq<Tick>, ms: seq<Msg>, stale: Filters, junk: Int32)
    requires rx.pending == [] && Received(ticks) == OnTheLine(ms) && Timely(ticks, rx.lastFlag)
    ensures var payloads := PayloadsOf(Run(rx, ticks).events);
            RunSafe(stale, payloads, junk) && RunFrames(stale, payloads, junk).handled == ms <==>
            forall m :: m in ms ==> |Encode(m)| <= PROXY_CAPACITY && NulFree(m)
  {
    hide Received, OnTheLine, Timely, Run, RunFrames, RunSafe, PayloadsOf, Arrivals, Encode, NulFree;
    EndToEnd(rx, ticks, ms, stale, junk);
    ArrivalsUnchangedIff(ms);
  }

  /**
   The same from any state and after any garbage: what the garbage leads to is over before the
   first message, apart from at most one event about what it left pending.
   */
  lemma EndToEndAfterGarbage(rx: Rx, garbage: seq<Tick>, ticks: seq<Tick>, ms: seq<Msg>, stale: Filters, junk: Int32)
    returns (before: seq<Event>)
    requires Received(ticks) == OnTheLine(ms) && Timely(ticks, Run(rx, garbage).rx.lastFlag)
    ensures exists pre :: LeftoverEvents(Run(rx, garbage).rx.pending, pre) && |pre| <= 1 &&
                          before == Run(rx, garbage).events + pre
    ensures var first, payloads := PayloadsOf(before), PayloadsOf(Run(rx, garbage + ticks).events);
            (RunSafe(stale, payloads, junk) <==> RunSafe(stale, first, junk) && AllTextsArrive(ms)) &&
            (AllTextsArrive(ms) ==>
               RunFrames(stale, payloads, junk).handled == RunFrames(stale, first, junk).handled + Arrivals(ms))
  {
    hide Received, OnTheLine, Timely, Run, RunFrames, RunSafe, PayloadsOf, Arrivals, AllTextsArrive, LeftoverEvents;
    LineIsFrames(ms);
    var deliveries := DeliveriesOf(Encodings(ms));
    var pre := SelfSynchronises(rx, garbage, ticks, Encodings(ms));
    before := Run(rx, garbage).events + pre;
    assert Run(rx, garbage).events + (pre + deliveries) == before + deliveries;
    PayloadsAppend(before, deliveries);
    PayloadsDelivered(ms);
    RunFramesAppend(stale, PayloadsOf(before), Encodings(ms), junk);
    FramesHandled(RunFrames(stale, PayloadsOf(before), junk).stale, ms, junk);
  }

  /** No message is dropped or cut exactly when all fit the buffer and no text has a NUL. */
  lemma {:induction false} ArrivalsUnchangedIff(ms: seq<Msg>)
    ensures Arrivals(ms) == ms <==> forall m :: m in ms ==> |Encode(m)| <= PROXY_CAPACITY && NulFree(m)
    ensures |Arrivals(ms)| <= |ms|
  {
    hide Encode, CutText, NulFree;
    if ms != [] {
      var init, m := ms[..|ms| - 1], ms[|ms| - 1];
      ArrivalsUnchangedIff(init);
      CutTextIff(m);
      assert ms == init + [m];
      if Arrivals(ms) == ms {
        assert |Arrival(m)| == 1;
        assert Arrivals(init) == Arrivals(ms)[..|init|] == init;
        assert Arrival(m)[0] == Arrivals(ms)[|init|];
      }
    }
  }

  lemma {:induction false} ChunksReceived(chunks: seq<Chunk>)
    requires forall c :: c in chunks ==> |c.clock| == |c.bs| + 1
    ensures Received(TicksOf(chunks)) == Concat(seq(|chunks|, i requires 0 <= i < |chunks| => chunks[i].bs))
  {
    var pieces := seq(|chunks|, i requires 0 <= i < |chunks| => chunks[i].bs);
    if chunks != [] {
      var init, last := chunks[..|chunks| - 1], chunks[|chunks| - 1];
      ChunksReceived(init);
      ReceivedAppend(TicksOf(init), ChunkTicks(last.bs, last.clock));
      ChunkReceived(last.bs, last.clock);
      assert pieces[..|chunks| - 1] == seq(|init|, i requires 0 <= i < |init| => init[i].bs);
    }
  }

  lemma HandleFromNone(t: Book, n: nat, answers: nat -> bool)
    ensures HandleFrom(t, [], n, answers) == t && RepliesTo([]) == [] && OnTheLine([]) == []
  {
  }

  // ---- What is written over a run, told from the messages alone ----

  /** The number of the first message after the last disconnect. */
  function LastReset(ms: seq<Msg>): (d: nat)
    ensures d <= |ms| && (d > 0 ==> ms[d - 1].Disconnect?)
    ensures forall i :: d <= i < |ms| ==> !ms[i].Disconnect?
  {
    if ms == [] then 0 else if ms[|ms| - 1].Disconnect? then |ms| else LastReset(ms[..|ms| - 1])
  }

  datatype Kind = SubscriberKind | PublisherKind

  /** The message declares `id` of this kind; a subscriber must be accepted by the library. */
  predicate Adds(kind: Kind, m: Msg, id: Int32, ok: bool) {
    match kind
    case SubscriberKind => m.Subscriber? && m.id == id && ok
    case PublisherKind => m.Publisher? && m.id == id
  }

  /** Message `j` declares `id`, first of all since the last disconnect. */
  predicate First(kind: Kind, ms: seq<Msg>, j: nat, id: Int32, n: nat, answers: nat -> bool) {
    && LastReset(ms) <= j < |ms| && Adds(kind, ms[j], id, answers(n + j))
    && forall k :: LastReset(ms) <= k < j ==> !Adds(kind, ms[k], id, answers(n + k))
  }

  lemma FirstSnoc(kind: Kind, ms: seq<Msg>, m: Msg, j: nat, id: Int32, n: nat, answers: nat -> bool)
    requires !m.Disconnect?
    ensures First(kind, ms, j, id, n, answers) ==> j < |ms| && First(kind, ms + [m], j, id, n, answers)
    ensures First(kind, ms + [m], j, id, n, answers) ==>
              First(kind, ms, j, id, n, answers) || (j == |ms| && Adds(kind, m, id, answers(n + |ms|)))
    ensures Adds(kind, m, id, answers(n + |ms|)) && (forall i: nat :: !First(kind, ms, i, id, n, answers)) ==>
              First(kind, ms + [m], |ms|, id, n, answers)
  {
    hide Adds;
    var more := ms + [m];
    assert more[..|more| - 1] == ms;
    assert forall k :: 0 <= k < |ms| ==> more[k] == ms[k];
    if Adds(kind, m, id, answers(n + |ms|)) && !First(kind, more, |ms|, id, n, answers) {
      var k :| LastReset(ms) <= k < |ms| && Adds(kind, more[k], id, answers(n + k));
      var i := Earliest(kind, ms, k, id, n, answers);
    }
  }

  /** Where some message declares an id, some message is the first to. */
  lemma {:induction false} Earliest(kind: Kind, ms: seq<Msg>, k: nat, id: Int32, n: nat, answers: nat -> bool) returns (j: nat)
    requires LastReset(ms) <= k < |ms| && Adds(kind, ms[k], id, answers(n + k))
    ensures First(kind, ms, j, id, n, answers)
    decreases k
  {
    if First(kind, ms, k, id, n, answers) {
      j := k;
    } else {
      var i :| LastReset(ms) <= i < k && Adds(kind, ms[i], id, answers(n + i));
      j := Earliest(kind, ms, i, id, n, answers);
    }
  }

  /** The books after a run from power-up. */
  function BookOf(ms: seq<Msg>, n: nat, answers: nat -> bool): Book {
    HandleFrom(NEW_BOOK, ms, n, answers)
  }

  function EntriesOf(kind: Kind, t: Tables): map<Int32, Blob> {
    match kind
    case SubscriberKind => t.subs
    case PublisherKind => t.pubs
  }

  lemma BookSnoc(ms: seq<Msg>, m: Msg, n: nat, answers: nat -> bool)
    ensures var before, after := BookOf(ms, n, answers), BookOf(ms + [m], n, answers);
            after == Handle(before, m, answers(n + |ms|)) && after.puts == before.puts + PutsBy(before, m)
  {
    assert (ms + [m])[..|ms|] == ms;
  }

  /** What one message does to one entry. */
  lemma EntryAfter(kind: Kind, t: Tables, m: Msg, id: Int32, ok: bool)
    ensures var before, after := EntriesOf(kind, t), EntriesOf(kind, TablesAfter(t, m, ok));
            if m.Disconnect? then id !in after
            else if id in before then id in after && after[id] == before[id]
            else (id in after <==> Adds(kind, m, id, ok)) && (id in after ==> after[id] == m.topic)
    ensures Adds(kind, m, id, ok) ==> m.Subscriber? || m.Publisher?
  {
  }

  /**
   After every run from power-up: an id is in a table exactly when some message since the last
   disconnect declared it, a subscriber's with the library's consent, and the key is the first such
   message's.
   */
  lemma {:induction false} TablesExact(kind: Kind, ms: seq<Msg>, n: nat, answers: nat -> bool, id: Int32)
    ensures var t := EntriesOf(kind, BookOf(ms, n, answers).tables);
            && (id in t <==> exists j: nat :: First(kind, ms, j, id, n, answers))
            && (forall j: nat :: First(kind, ms, j, id, n, answers) ==> id in t && (ms[j].Subscriber? || ms[j].Publisher?) && t[id] == ms[j].topic)
  {
    hide First, Adds, EntriesOf, TablesAfter;
    if ms == [] {
      NobodyFirst(kind, id, n, answers);
    } else {
      var init, m, ok := ms[..|ms| - 1], ms[|ms| - 1], answers(n + |ms| - 1);
      assert ms == init + [m];
      TablesExact(kind, init, n, answers, id);
      BookSnoc(init, m, n, answers);
      EntryAfter(kind, BookOf(init, n, answers).tables, m, id, ok);
      if m.Disconnect? {
        ResetForgets(kind, init, m, id, n, answers);
      } else {
        forall j: nat
          ensures First(kind, init, j, id, n, answers) ==> j < |init| && First(kind, ms, j, id, n, answers)
          ensures First(kind, ms, j, id, n, answers) ==>
                    First(kind, init, j, id, n, answers) || (j == |init| && Adds(kind, m, id, ok))
        {
          FirstSnoc(kind, init, m, j, id, n, answers);
        }
        FirstSnoc(kind, init, m, |init|, id, n, answers);
        FirstAlone(kind, ms, |init|, id, n, answers);
        assert forall j: nat :: j < |init| ==> ms[j] == init[j];
      }
    }
  }

  lemma FirstAlone(kind: Kind, ms: seq<Msg>, j: nat, id: Int32, n: nat, answers: nat -> bool)
    ensures forall i: nat :: First(kind, ms, i, id, n, answers) && First(kind, ms, j, id, n, answers) ==> i == j
  {
  }

  lemma NobodyFirst(kind: Kind, id: Int32, n: nat, answers: nat -> bool)
    ensures forall j: nat :: !First(kind, [], j, id, n, answers)
    ensures EntriesOf(kind, EMPTY) == map[]
  {
  }

  lemma ResetForgets(kind: Kind, ms: seq<Msg>, m: Msg, id: Int32, n: nat, answers: nat -> bool)
    requires m.Disconnect?
    ensures forall j: nat :: !First(kind, ms + [m], j, id, n, answers)
  {
  }

  /** A session is open exactly when the library accepted some connect. */
  lemma {:induction false} OpenExact(ms: seq<Msg>, n: nat, answers: nat -> bool)
    ensures BookOf(ms, n, answers).open <==> exists c :: 0 <= c < |ms| && ms[c].Connect? && answers(n + c)
  {
    hide TablesAfter, PutsBy;
    if ms != [] {
      var init, m := ms[..|ms| - 1], ms[|ms| - 1];
      OpenExact(init, n, answers);
      BookSnoc(init, m, n, answers);
      assert ms == init + [m];
      assert forall c :: 0 <= c < |init| ==> ms[c] == init[c];
    }
  }

  predicate TopicIs(m: Msg, key: Blob) {
    m.Publisher? && m.topic == key
  }

  /**
   The write `put` comes from message `i`: its value, under the key of the first declaration of its id
   since the last disconnect before it, on an open session if some connect before it was accepted.
   */
  ghost predicate WrittenFor(ms: seq<Msg>, i: nat, put: Put, n: nat, answers: nat -> bool) {
    && i < |ms| && ms[i].Publish? && put.bs == ms[i].value
    && (exists j: nat :: First(PublisherKind, ms[..i], j, ms[i].id, n, answers) && TopicIs(ms[j], put.key))
    && (put.open <==> exists c :: 0 <= c < i && ms[c].Connect? && answers(n + c))
  }

  /**
   Over every run from power-up, what is written is, in order, one write for each publish whose id was
   declared since the last disconnect, and nothing else. `at` tells which message each write is for.
   */
  lemma {:induction false} PublishedExact(ms: seq<Msg>, n: nat, answers: nat -> bool) returns (at: seq<nat>)
    ensures |at| == |BookOf(ms, n, answers).puts|
    ensures forall k :: 0 <= k < |at| ==> WrittenFor(ms, at[k], BookOf(ms, n, answers).puts[k], n, answers)
    ensures forall k, l :: 0 <= k < l < |at| ==> at[k] < at[l]
    ensures forall i :: 0 <= i < |ms| && ms[i].Publish? && (exists j: nat :: First(PublisherKind, ms[..i], j, ms[i].id, n, answers)) ==> i in at
  {
    hide First, WrittenFor, TablesAfter, Handle, HandleFrom;
    if ms == [] {
      HandleFromNone(NEW_BOOK, n, answers);
      at := [];
    } else {
      var init, m := ms[..|ms| - 1], ms[|ms| - 1];
      assert ms == init + [m];
      var before := PublishedExact(init, n, answers);
      var puts := BookOf(init, n, answers).puts;
      BookSnoc(init, m, n, answers);
      assert forall i :: 0 <= i < |init| ==> ms[..i] == init[..i] && ms[i] == init[i];
      assert ms[..|init|] == init;
      forall k | 0 <= k < |before|
        ensures before[k] < |init| && WrittenFor(ms, before[k], puts[k], n, answers)
      {
        WrittenStill(init, m, before[k], puts[k], n, answers);
      }
      if m.Publish? {
        TablesExact(PublisherKind, init, n, answers, m.id);
      }
      if m.Publish? && m.id in BookOf(init, n, answers).tables.pubs {
        OpenExact(init, n, answers);
        WrittenNow(init, m, n, answers);
        at := before + [|init|];
      } else {
        at := before;
      }
    }
  }

  lemma WrittenStill(init: seq<Msg>, m: Msg, i: nat, put: Put, n: nat, answers: nat -> bool)
    requires WrittenFor(init, i, put, n, answers)
    ensures i < |init| && WrittenFor(init + [m], i, put, n, answers)
  {
    var ms := init + [m];
    assert ms[..i] == init[..i] && forall c :: 0 <= c < |init| ==> ms[c] == init[c];
    var j: nat :| First(PublisherKind, init[..i], j, init[i].id, n, answers) && TopicIs(init[j], put.key);
    assert First(PublisherKind, ms[..i], j, ms[i].id, n, answers) && TopicIs(ms[j], put.key);
  }

  lemma WrittenNow(init: seq<Msg>, m: Msg, n: nat, answers: nat -> bool)
    requires m.Publish? && m.id in BookOf(init, n, answers).tables.pubs
    ensures var b := BookOf(init, n, answers);
            WrittenFor(init + [m], |init|, Put(b.open, b.tables.pubs[m.id], m.value), n, answers)
  {
    hide BookOf;
    var ms := init + [m];
    assert ms[..|init|] == init && forall c :: 0 <= c < |init| ==> ms[c] == init[c];
    TablesExact(PublisherKind, init, n, answers, m.id);
    OpenExact(init, n, answers);
    var j: nat :| First(PublisherKind, init, j, m.id, n, answers);
    assert First(PublisherKind, ms[..|init|], j, ms[|init|].id, n, answers) && TopicIs(ms[j], init[j].topic);
  }

  /** How many of the messages are connects. */
  function Connects(ms: seq<Msg>): nat {
    if ms == [] then 0 else Connects(ms[..|ms| - 1]) + (if ms[|ms| - 1].Connect? then 1 else 0)
  }

  /** The proxy answers each connect with one of its own, "connected", and nothing else. */
  lemma {:induction false} RepliesExact(ms: seq<Msg>)
    ensures RepliesTo(ms) == seq(Connects(ms), _ => Connect([0x63, 0x6F, 0x6E, 0x6E, 0x65, 0x63, 0x74, 0x65, 0x64]))
  {
    if ms != [] {
      RepliesExact(ms[..|ms| - 1]);
    }
  }
}
