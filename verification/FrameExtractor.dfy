/**
 Stream reassembly: the extractor that cuts an arbitrarily chunked byte stream into frames, with a
 flush that is tested only at chunk ends. The clock is read once per byte and once per chunk end.
 */
module FrameExtraction {
  import opened ByteStrings
  import opened FrameCheck
  import opened ShiftRegister
  import opened Ppp
  import opened Wrappers

  const FRAME_TIMEOUT: UInt64 := 1000

  /** What leaves the extractor: a payload for the next stage, or bytes shown on the terminal. */
  datatype Event = Emitted(raw: Bytes, payload: Bytes) | Printed(raw: Bytes)

  /** A byte taken from a chunk, or the end of a chunk, with the clock reading at that moment. */
  datatype Tick = Byte(b: Byte, at: UInt64) | ChunkEnd(at: UInt64)

  datatype Rx = Rx(pending: Bytes, lastFlag: UInt64)

  datatype Outcome = Outcome(rx: Rx, events: seq<Event>)

  function PrintEvents(bs: Bytes): seq<Event> {
    if bs == [] then [] else [Printed(bs)]
  }

  function FrameEvents(bs: Bytes): seq<Event> {
    if bs == [] then []
    else match Deframe(bs)
      case Some(p) => [Emitted(bs, p)]
      case None => [Printed(bs)]
  }

  function Step(rx: Rx, tick: Tick): Outcome {
    match tick
    case Byte(b, at) =>
      if b == FLAG then Outcome(Rx([], at), FrameEvents(rx.pending))
      else Outcome(rx.(pending := rx.pending + [b]), [])
    case ChunkEnd(at) =>
      if Minus64(at, rx.lastFlag) > FRAME_TIMEOUT then Outcome(rx.(pending := []), PrintEvents(rx.pending))
      else Outcome(rx, [])
  }

  function Then(before: Outcome, tick: Tick): Outcome {
    var after := Step(before.rx, tick);
    Outcome(after.rx, before.events + after.events)
  }

  function Run(rx: Rx, ticks: seq<Tick>): Outcome {
    if ticks == [] then Outcome(rx, []) else Then(Run(rx, ticks[..|ticks| - 1]), ticks[|ticks| - 1])
  }

  /** The ticks of one chunk; `clock[i]` is the reading at byte i, the last one at the chunk's end. */
  function ChunkTicks(bs: Bytes, clock: seq<UInt64>): seq<Tick>
    requires |clock| == |bs| + 1
  {
    seq(|bs|, i requires 0 <= i < |bs| => Byte(bs[i], clock[i])) + [ChunkEnd(clock[|bs|])]
  }

  class FrameExtractor {
    var inputFrame: Bytes
    var cleanData: Bytes
    var lastFrameFlag: UInt64
    /** Everything emitted downstream or shown on the terminal, oldest first. */
    var events: seq<Event>

    function State(): Rx
      reads this
    {
      Rx(inputFrame, lastFrameFlag)
    }

    /** The program leaves the time of the last flag uninitialised: any reading may stand there. */
    constructor (garbage: UInt64)
      ensures State() == Rx([], garbage) && events == []
    {
      inputFrame, cleanData, lastFrameFlag, events := [], [], garbage, [];
    }

    method ToStdout(bs: Bytes)
      modifies this`events
      ensures events == old(events) + PrintEvents(bs)
    {
      if |bs| > 0 {
        events := events + [Printed(bs)];
      }
    }

    method HandleFrame(bs: Bytes) returns (ok: bool)
      modifies this`cleanData, this`events
      ensures events == old(events) + FrameEvents(bs)
      ensures ok <==> bs != [] && Accepts(bs)
    {
      if |bs| == 0 {
        return false;
      }
      var accepted, payload, tooShort := PppDeframe(bs);
      cleanData := payload;
      if accepted {
        events := events + [Emitted(bs, cleanData)];
        return true;
      } else {
        ToStdout(bs);
        return false;
      }
    }

    method HandleRxd(bs: Bytes, clock: seq<UInt64>)
      requires |clock| == |bs| + 1
      modifies this
      ensures State() == Run(old(State()), ChunkTicks(bs, clock)).rx
      ensures events == old(events) + Run(old(State()), ChunkTicks(bs, clock)).events
    {
      ghost var start, before := State(), events;
      ghost var ticks := ChunkTicks(bs, clock);
      var i := 0;
      while i < |bs|
        invariant 0 <= i <= |bs|
        invariant State() == Run(start, ticks[..i]).rx
        invariant events == before + Run(start, ticks[..i]).events
      {
        RunPrefix(start, ticks, i);
        if bs[i] == FLAG {
          lastFrameFlag := clock[i];
          var _ := HandleFrame(inputFrame);
          inputFrame := [];
        } else {
          inputFrame := inputFrame + [bs[i]];
        }
        i := i + 1;
      }
      RunPrefix(start, ticks, i);
      assert ticks[..|bs| + 1] == ticks;
      if Minus64(clock[|bs|], lastFrameFlag) > FRAME_TIMEOUT {
        ToStdout(inputFrame);
        inputFrame := [];
      }
    }
  }

  lemma RunPrefix(rx: Rx, ticks: seq<Tick>, i: nat)
    requires i < |ticks|
    ensures Run(rx, ticks[..i + 1]) == Then(Run(rx, ticks[..i]), ticks[i])
  {
    assert ticks[..i + 1][..i] == ticks[..i];
  }

  lemma RunSnoc(rx: Rx, ticks: seq<Tick>, last: Tick)
    ensures Run(rx, ticks + [last]) == Then(Run(rx, ticks), last)
  {
    assert (ticks + [last])[..|ticks|] == ticks;
  }

  /** Events already produced stay in front. */
  function Behind(pre: seq<Event>, o: Outcome): Outcome {
    Outcome(o.rx, pre + o.events)
  }

  lemma ThenBehind(pre: seq<Event>, o: Outcome, tick: Tick)
    ensures Then(Behind(pre, o), tick) == Behind(pre, Then(o, tick))
  {
    var more := Step(o.rx, tick).events;
    assert pre + o.events + more == pre + (o.events + more);
  }

  lemma {:induction false} RunAppend(rx: Rx, a: seq<Tick>, b: seq<Tick>)
    ensures Run(rx, a + b) == Behind(Run(rx, a).events, Run(Run(rx, a).rx, b))
  {
    if b == [] {
      assert a + b == a;
    } else {
      var c, last := b[..|b| - 1], b[|b| - 1];
      assert a + b == (a + c) + [last] && b == c + [last];
      RunSnoc(rx, a + c, last);
      RunSnoc(Run(rx, a).rx, c, last);
      RunAppend(rx, a, c);
      ThenBehind(Run(rx, a).events, Run(Run(rx, a).rx, c), last);
    }
  }

  // ---- Conservation ----

  function Received(ticks: seq<Tick>): Bytes {
    if ticks == [] then []
    else
      Received(ticks[..|ticks| - 1]) +
      match ticks[|ticks| - 1]
      case Byte(b, _) => [b]
      case ChunkEnd(_) => []
  }

  function WithoutFlags(bs: Bytes): Bytes {
    if bs == [] then []
    else WithoutFlags(bs[..|bs| - 1]) + (if bs[|bs| - 1] == FLAG then [] else [bs[|bs| - 1]])
  }

  function RawBytes(events: seq<Event>): Bytes {
    if events == [] then [] else RawBytes(events[..|events| - 1]) + events[|events| - 1].raw
  }

  lemma {:induction false} RawBytesAppend(a: seq<Event>, b: seq<Event>)
    ensures RawBytes(a + b) == RawBytes(a) + RawBytes(b)
  {
    if b == [] {
      assert a + b == a;
    } else {
      assert (a + b)[..|a + b| - 1] == a + b[..|b| - 1];
      RawBytesAppend(a, b[..|b| - 1]);
    }
  }

  lemma RawBytesOfOne(e: Event)
    ensures RawBytes([e]) == e.raw
  {
    assert [e][..0] == [];
  }

  lemma RawOfFlush(bs: Bytes)
    ensures RawBytes(FrameEvents(bs)) == bs && RawBytes(PrintEvents(bs)) == bs
  {
    if bs != [] {
      RawBytesOfOne(FrameEvents(bs)[0]);
      RawBytesOfOne(Printed(bs));
    }
  }

  lemma StepConserves(rx: Rx, tick: Tick)
    ensures RawBytes(Step(rx, tick).events) + Step(rx, tick).rx.pending ==
            rx.pending + WithoutFlags(Received([tick]))
  {
    assert [tick][..0] == [];
    RawOfFlush(rx.pending);
    if tick.Byte? {
      assert Received([tick]) == [tick.b] && [tick.b][..0] == [];
    }
  }

  lemma {:induction false} WithoutFlagsAppend(a: Bytes, b: Bytes)
    ensures WithoutFlags(a + b) == WithoutFlags(a) + WithoutFlags(b)
  {
    if b == [] {
      assert a + b == a;
    } else {
      assert (a + b)[..|a + b| - 1] == a + b[..|b| - 1];
      WithoutFlagsAppend(a, b[..|b| - 1]);
    }
  }

  lemma {:induction false} ReceivedAppend(a: seq<Tick>, b: seq<Tick>)
    ensures Received(a + b) == Received(a) + Received(b)
  {
    if b == [] {
      assert a + b == a;
    } else {
      assert (a + b)[..|a + b| - 1] == a + b[..|b| - 1];
      ReceivedAppend(a, b[..|b| - 1]);
    }
  }

  lemma Telescope(pending: Bytes, first: Bytes, rest: Bytes, a: Bytes, mid: Bytes, b: Bytes, end: Bytes)
    requires a + mid == pending + first && b + end == mid + rest
    ensures (a + b) + end == pending + (first + rest)
  {
    assert (a + b) + end == a + (b + end);
    assert a + (mid + rest) == (a + mid) + rest;
    assert (pending + first) + rest == pending + (first + rest);
  }

  lemma ReceivedLast(ticks: seq<Tick>)
    requires ticks != []
    ensures WithoutFlags(Received(ticks)) ==
            WithoutFlags(Received(ticks[..|ticks| - 1])) + WithoutFlags(Received([ticks[|ticks| - 1]]))
  {
    var init, last := ticks[..|ticks| - 1], ticks[|ticks| - 1];
    assert ticks == init + [last];
    ReceivedAppend(init, [last]);
    WithoutFlagsAppend(Received(init), Received([last]));
  }

  /**
   Over any run, whatever the chunks and the clock: the received bytes other than flags are, in
   order, the raw bytes of the accepted frames and of the terminal output, then what is pending.
   */
  lemma {:induction false} BytesConserved(rx: Rx, ticks: seq<Tick>)
    ensures RawBytes(Run(rx, ticks).events) + Run(rx, ticks).rx.pending ==
            rx.pending + WithoutFlags(Received(ticks))
  {
    if ticks == [] {
      assert [] + rx.pending == rx.pending + [];
    } else {
      var init, last := ticks[..|ticks| - 1], ticks[|ticks| - 1];
      var mid := Run(rx, init);
      var end := Step(mid.rx, last);
      BytesConserved(rx, init);
      StepConserves(mid.rx, last);
      RawBytesAppend(mid.events, end.events);
      ReceivedLast(ticks);
      Telescope(rx.pending, WithoutFlags(Received(init)), WithoutFlags(Received([last])),
                RawBytes(mid.events), mid.rx.pending, RawBytes(end.events), end.rx.pending);
    }
  }

  lemma {:induction false} BytesReceived(bs: Bytes, clock: seq<UInt64>)
    requires |clock| == |bs|
    ensures Received(seq(|bs|, i requires 0 <= i < |bs| => Byte(bs[i], clock[i]))) == bs
  {
    if bs != [] {
      var n := |bs| - 1;
      var ticks := seq(|bs|, i requires 0 <= i < |bs| => Byte(bs[i], clock[i]));
      BytesReceived(bs[..n], clock[..n]);
      assert ticks[..n] == seq(n, i requires 0 <= i < n => Byte(bs[..n][i], clock[..n][i]));
      assert bs == bs[..n] + [bs[n]];
    }
  }

  /** A chunk's ticks carry exactly the chunk's bytes. */
  lemma ChunkReceived(bs: Bytes, clock: seq<UInt64>)
    requires |clock| == |bs| + 1
    ensures Received(ChunkTicks(bs, clock)) == bs
  {
    var n := |bs|;
    BytesReceived(bs, clock[..n]);
    assert seq(n, i requires 0 <= i < n => Byte(bs[i], clock[i])) ==
           seq(n, i requires 0 <= i < n => Byte(bs[i], clock[..n][i]));
    ReceivedAppend(seq(n, i requires 0 <= i < n => Byte(bs[i], clock[i])), [ChunkEnd(clock[n])]);
    assert [ChunkEnd(clock[n])][..0] == [];
  }

  // ---- Delivery ----

  /** The receiver without its timeout: a parser of the bare byte stream. */
  datatype Parsed = Parsed(pending: Bytes, events: seq<Event>)

  function Parse(pending: Bytes, bs: Bytes): Parsed {
    if bs == [] then Parsed(pending, [])
    else
      var before := Parse(pending, bs[..|bs| - 1]);
      if bs[|bs| - 1] == FLAG then Parsed([], before.events + FrameEvents(before.pending))
      else Parsed(before.pending + [bs[|bs| - 1]], before.events)
  }

  /** Has an odd number of flags gone by, that is, is a frame open? */
  predicate Open(bs: Bytes) {
    bs != [] && Open(bs[..|bs| - 1]) != (bs[|bs| - 1] == FLAG)
  }

  /** Nothing but flags outside the frames. */
  predicate Tidy(bs: Bytes) {
    bs == [] || (Tidy(bs[..|bs| - 1]) && (bs[|bs| - 1] != FLAG ==> Open(bs[..|bs| - 1])))
  }

  function LastFlag(ticks: seq<Tick>, since: UInt64): UInt64 {
    if ticks == [] then since
    else match ticks[|ticks| - 1]
      case Byte(b, at) => if b == FLAG then at else LastFlag(ticks[..|ticks| - 1], since)
      case ChunkEnd(_) => LastFlag(ticks[..|ticks| - 1], since)
  }

  /** Every chunk that ends strictly inside a frame ends at most 1000 ms after its opening flag. */
  predicate Timely(ticks: seq<Tick>, since: UInt64) {
    ticks == [] ||
    var init, last := ticks[..|ticks| - 1], ticks[|ticks| - 1];
    Timely(init, since) &&
    (last.ChunkEnd? && Open(Received(init)) ==> Minus64(last.at, LastFlag(init, since)) <= FRAME_TIMEOUT)
  }

  lemma {:induction false} TimelyRunParses(rx: Rx, ticks: seq<Tick>)
    requires rx.pending == [] && Tidy(Received(ticks)) && Timely(ticks, rx.lastFlag)
    ensures var end := Run(rx, ticks);
            var parsed := Parse([], Received(ticks));
            end.rx == Rx(parsed.pending, LastFlag(ticks, rx.lastFlag)) && end.events == parsed.events &&
            (!Open(Received(ticks)) ==> parsed.pending == [])
  {
    hide Deframe;
    if ticks != [] {
      var init, last := ticks[..|ticks| - 1], ticks[|ticks| - 1];
      if last.Byte? {
        assert Received(ticks)[..|Received(ticks)| - 1] == Received(init);
      } else {
        assert Received(ticks) == Received(init);
      }
      TimelyRunParses(rx, init);
    }
  }

  function FramesOf(payloads: seq<Bytes>): Bytes {
    if payloads == [] then [] else FramesOf(payloads[..|payloads| - 1]) + Frame(payloads[|payloads| - 1])
  }

  function DeliveryOf(p: Bytes): Event {
    if p == [] then Printed(Body(p)) else Emitted(Body(p), p)
  }

  function DeliveriesOf(payloads: seq<Bytes>): seq<Event> {
    seq(|payloads|, i requires 0 <= i < |payloads| => DeliveryOf(payloads[i]))
  }

  lemma {:induction false} ParseAppend(pending: Bytes, a: Bytes, b: Bytes)
    ensures Parse(pending, a + b).pending == Parse(Parse(pending, a).pending, b).pending
    ensures Parse(pending, a + b).events ==
            Parse(pending, a).events + Parse(Parse(pending, a).pending, b).events
  {
    if b == [] {
      assert a + b == a;
    } else {
      assert (a + b)[..|a + b| - 1] == a + b[..|b| - 1];
      ParseAppend(pending, a, b[..|b| - 1]);
    }
  }

  lemma {:induction false} ParseBody(pending: Bytes, s: Bytes)
    requires FLAG !in s
    ensures Parse(pending, s) == Parsed(pending + s, [])
  {
    if s == [] {
      assert pending + s == pending;
    } else {
      var init, c := s[..|s| - 1], s[|s| - 1];
      ParseBody(pending, init);
      assert (pending + init) + [c] == pending + s;
    }
  }

  lemma ParseFlag(pending: Bytes)
    ensures Parse(pending, [FLAG]) == Parsed([], FrameEvents(pending))
  {
    assert [FLAG][..0] == [];
  }

  lemma ParseFrame(p: Bytes)
    ensures Parse([], Frame(p)) == Parsed([], [DeliveryOf(p)])
  {
    var body := Body(p);
    UnstuffStuff(p + FrameCheck.Trailer(p));
    FramingRoundTrip(p);
    ParseAppend([], [FLAG] + body, [FLAG]);
    ParseAppend([], [FLAG], body);
    ParseFlag([]);
    ParseBody([], body);
    ParseFlag(body);
    assert [] + body == body;
  }

  lemma {:induction false} OpenAppend(a: Bytes, b: Bytes)
    ensures Open(a + b) == (Open(a) != Open(b))
  {
    if b == [] {
      assert a + b == a;
    } else {
      assert (a + b)[..|a + b| - 1] == a + b[..|b| - 1];
      OpenAppend(a, b[..|b| - 1]);
    }
  }

  lemma {:induction false} TidyAppend(a: Bytes, b: Bytes)
    requires Tidy(a) && !Open(a) && Tidy(b)
    ensures Tidy(a + b)
  {
    if b == [] {
      assert a + b == a;
    } else {
      assert (a + b)[..|a + b| - 1] == a + b[..|b| - 1];
      TidyAppend(a, b[..|b| - 1]);
      OpenAppend(a, b[..|b| - 1]);
    }
  }

  lemma {:induction false} TidyBody(s: Bytes)
    requires FLAG !in s
    ensures Tidy([FLAG] + s) && Open([FLAG] + s)
  {
    if s == [] {
      assert [FLAG] + s == [FLAG] && [FLAG][..0] == [];
    } else {
      var t := [FLAG] + s;
      assert t[..|t| - 1] == [FLAG] + s[..|s| - 1];
      TidyBody(s[..|s| - 1]);
    }
  }

  lemma TidyFrame(p: Bytes)
    ensures Tidy(Frame(p)) && !Open(Frame(p))
  {
    UnstuffStuff(p + FrameCheck.Trailer(p));
    TidyBody(Body(p));
    assert Frame(p)[..|Frame(p)| - 1] == [FLAG] + Body(p);
  }

  lemma OneMoreFrame(stream: Bytes, events: seq<Event>, p: Bytes)
    requires Parse([], stream) == Parsed([], events) && Tidy(stream) && !Open(stream)
    ensures Parse([], stream + Frame(p)) == Parsed([], events + [DeliveryOf(p)])
    ensures Tidy(stream + Frame(p)) && !Open(stream + Frame(p))
  {
    hide Frame, DeliveryOf, Deframe;
    ParseFrame(p);
    ParseAppend([], stream, Frame(p));
    TidyFrame(p);
    TidyAppend(stream, Frame(p));
    OpenAppend(stream, Frame(p));
  }

  lemma FramesSnoc(payloads: seq<Bytes>, p: Bytes)
    ensures FramesOf(payloads + [p]) == FramesOf(payloads) + Frame(p)
    ensures DeliveriesOf(payloads + [p]) == DeliveriesOf(payloads) + [DeliveryOf(p)]
  {
    hide Frame, DeliveryOf, Deframe;
    assert (payloads + [p])[..|payloads|] == payloads;
  }

  /** A series of frames parses to one delivery per payload, in order, with nothing left over. */
  lemma {:induction false} FramesParse(payloads: seq<Bytes>)
    ensures Parse([], FramesOf(payloads)) == Parsed([], DeliveriesOf(payloads))
    ensures Tidy(FramesOf(payloads)) && !Open(FramesOf(payloads))
  {
    hide Frame, DeliveryOf, Deframe;
    if payloads != [] {
      var init, p := payloads[..|payloads| - 1], payloads[|payloads| - 1];
      FramesParse(init);
      OneMoreFrame(FramesOf(init), DeliveriesOf(init), p);
      assert payloads == init + [p];
      FramesSnoc(init, p);
    }
  }

  /**
   However a series of frames is chunked, and whatever timeouts fire between frames: if no chunk
   ends late inside a frame, every non-empty payload is emitted, in order, exactly once; an empty
   payload's body is shown on the terminal.
   */
  lemma FramesDelivered(rx: Rx, ticks: seq<Tick>, payloads: seq<Bytes>)
    requires rx.pending == [] && Received(ticks) == FramesOf(payloads) && Timely(ticks, rx.lastFlag)
    ensures Run(rx, ticks).events == DeliveriesOf(payloads) && Run(rx, ticks).rx.pending == []
  {
    FramesParse(payloads);
    TimelyRunParses(rx, ticks);
  }

  // ---- Self-synchronisation ----

  /** What the bytes left over from before may still cause: nothing, one frame, or one flush. */
  ghost predicate LeftoverEvents(pending: Bytes, pre: seq<Event>) {
    pre == [] || pre == FrameEvents(pending) || pre == PrintEvents(pending)
  }

  lemma {:induction false} QuietRun(rx: Rx, ticks: seq<Tick>)
    requires Received(ticks) == []
    ensures Run(rx, ticks) == Outcome(rx, []) ||
            Run(rx, ticks) == Outcome(rx.(pending := []), PrintEvents(rx.pending))
  {
    if ticks != [] {
      QuietRun(rx, ticks[..|ticks| - 1]);
    }
  }

  lemma FirstFlag(rx: Rx, quiet: seq<Tick>, at: UInt64) returns (pre: seq<Event>)
    requires Received(quiet) == []
    ensures LeftoverEvents(rx.pending, pre) && |pre| <= 1
    ensures Step(Run(rx, quiet).rx, Byte(FLAG, at)) == Outcome(Rx([], at), FrameEvents(Run(rx, quiet).rx.pending))
    ensures Step(Run(rx.(pending := []), quiet).rx, Byte(FLAG, at)) == Outcome(Rx([], at), [])
    ensures Run(rx, quiet).events + FrameEvents(Run(rx, quiet).rx.pending) == pre
    ensures Run(rx.(pending := []), quiet).events == []
  {
    hide Deframe;
    QuietRun(rx, quiet);
    QuietRun(rx.(pending := []), quiet);
    if Run(rx, quiet).events == [] {
      pre := FrameEvents(Run(rx, quiet).rx.pending);
    } else {
      pre := Run(rx, quiet).events;
    }
  }

  lemma RunLast(rx: Rx, ticks: seq<Tick>)
    requires ticks != []
    ensures var before := Run(rx, ticks[..|ticks| - 1]);
            var after := Step(before.rx, ticks[|ticks| - 1]);
            Run(rx, ticks) == Outcome(after.rx, before.events + after.events)
  {
    assert Run(rx, ticks) == Then(Run(rx, ticks[..|ticks| - 1]), ticks[|ticks| - 1]);
  }

  /**
   Once a flag has arrived, the extractor is in the state a clean one would be in, and apart from at
   most one event about the leftover bytes it has produced the same events.
   */
  lemma {:induction false} FlagResynchronises(rx: Rx, ticks: seq<Tick>) returns (pre: seq<Event>)
    requires Received(ticks) != [] ==> Received(ticks)[0] == FLAG
    ensures LeftoverEvents(rx.pending, pre) && |pre| <= 1
    ensures Run(rx, ticks).events == pre + Run(rx.(pending := []), ticks).events
    ensures Received(ticks) != [] ==> Run(rx, ticks).rx == Run(rx.(pending := []), ticks).rx
  {
    hide Deframe;
    if Received(ticks) == [] {
      QuietRun(rx, ticks);
      QuietRun(rx.(pending := []), ticks);
      pre := Run(rx, ticks).events;
    } else {
      pre := ResynchronisedStep(rx, ticks);
    }
  }

  lemma {:induction false} ResynchronisedStep(rx: Rx, ticks: seq<Tick>) returns (pre: seq<Event>)
    requires Received(ticks) != [] && Received(ticks)[0] == FLAG
    ensures LeftoverEvents(rx.pending, pre) && |pre| <= 1
    ensures Run(rx, ticks).events == pre + Run(rx.(pending := []), ticks).events
    ensures Run(rx, ticks).rx == Run(rx.(pending := []), ticks).rx
  {
    hide Run, Step, FrameEvents, PrintEvents, LeftoverEvents;
    var init, last := ticks[..|ticks| - 1], ticks[|ticks| - 1];
    RunLast(rx, ticks);
    RunLast(rx.(pending := []), ticks);
    if Received(init) == [] {
      assert last.Byte? && last.b == FLAG;
      pre := FirstFlag(rx, init, last.at);
    } else {
      assert Received(ticks)[0] == Received(init)[0];
      pre := ResynchronisedStep(rx, init);
      var more := Step(Run(rx, init).rx, last).events;
      assert pre + Run(rx.(pending := []), init).events + more == pre + (Run(rx.(pending := []), init).events + more);
    }
  }

  /**
   From any state and after any garbage, a series of frames without a late chunk end is delivered
   intact, after at most one event caused by what the garbage left pending.
   */
  lemma SelfSynchronises(rx: Rx, garbage: seq<Tick>, ticks: seq<Tick>, payloads: seq<Bytes>)
    returns (pre: seq<Event>)
    requires Received(ticks) == FramesOf(payloads)
    requires Timely(ticks, Run(rx, garbage).rx.lastFlag)
    ensures LeftoverEvents(Run(rx, garbage).rx.pending, pre) && |pre| <= 1
    ensures Run(rx, garbage + ticks).events == Run(rx, garbage).events + (pre + DeliveriesOf(payloads))
  {
    hide Deframe;
    RunAppend(rx, garbage, ticks);
    assert Run(rx, garbage + ticks).events == Run(rx, garbage).events + Run(Run(rx, garbage).rx, ticks).events;
    pre := SynchronisesFrom(Run(rx, garbage).rx, ticks, payloads);
  }

  lemma SynchronisesFrom(rx: Rx, ticks: seq<Tick>, payloads: seq<Bytes>) returns (pre: seq<Event>)
    requires Received(ticks) == FramesOf(payloads) && Timely(ticks, rx.lastFlag)
    ensures LeftoverEvents(rx.pending, pre) && |pre| <= 1
    ensures Run(rx, ticks).events == pre + DeliveriesOf(payloads)
  {
    hide Deframe;
    FirstIsFlag(payloads);
    pre := FlagResynchronises(rx, ticks);
    FramesDelivered(rx.(pending := []), ticks, payloads);
  }

  lemma {:induction false} FirstIsFlag(payloads: seq<Bytes>)
    ensures payloads != [] ==> FramesOf(payloads) != [] && FramesOf(payloads)[0] == FLAG
    ensures payloads == [] ==> FramesOf(payloads) == []
  {
    if payloads != [] {
      FirstIsFlag(payloads[..|payloads| - 1]);
    }
  }

  // ---- Exactly what each byte and each chunk end does, over every run ----

  lemma {:induction false} LastFlagKept(rx: Rx, ticks: seq<Tick>)
    ensures Run(rx, ticks).rx.lastFlag == LastFlag(ticks, rx.lastFlag)
  {
    hide FrameEvents, PrintEvents;
    if ticks != [] {
      LastFlagKept(rx, ticks[..|ticks| - 1]);
    }
  }

  /**
   A chunk that ends more than a second after the last flag puts what is pending on the terminal and
   starts over; any other chunk end does nothing.
   */
  lemma ChunkEndExact(rx: Rx, ticks: seq<Tick>, at: UInt64)
    ensures var before, after := Run(rx, ticks), Run(rx, ticks + [ChunkEnd(at)]);
            if Minus64(at, LastFlag(ticks, rx.lastFlag)) > 1000 then
              after.rx.pending == [] &&
              after.events == before.events + (if before.rx.pending == [] then [] else [Printed(before.rx.pending)])
            else after.rx.pending == before.rx.pending && after.events == before.events
  {
    hide Run;
    LastFlagKept(rx, ticks);
    RunSnoc(rx, ticks, ChunkEnd(at));
  }

  /** A flag: a body that carries a payload is emitted with it, any other is put on the terminal. */
  lemma FlagExact(rx: Rx, ticks: seq<Tick>, at: UInt64)
    ensures var before, after := Run(rx, ticks), Run(rx, ticks + [Byte(0x7E, at)]);
            var s := before.rx.pending;
            after.rx == Rx([], at) &&
            (s == [] ==> after.events == before.events) &&
            (forall p :: Carries(s, p) ==> after.events == before.events + [Emitted(s, p)]) &&
            (s != [] && (forall p :: !Carries(s, p)) ==> after.events == before.events + [Printed(s)])
  {
    hide Run, Carries, Deframe;
    RunSnoc(rx, ticks, Byte(0x7E, at));
    var s := Run(rx, ticks).rx.pending;
    NothingCarried();
    if Deframe(s).Some? {
      DeframeExact(s, Deframe(s).value);
    }
    forall p | Carries(s, p)
      ensures Deframe(s) == Some(p)
    {
      DeframeExact(s, p);
    }
  }

  lemma NothingCarried()
    ensures forall p :: !Carries([], p)
  {
  }

  /** Any other byte is kept. */
  lemma OtherByteExact(rx: Rx, ticks: seq<Tick>, b: Byte, at: UInt64)
    requires b != 0x7E
    ensures var before, after := Run(rx, ticks), Run(rx, ticks + [Byte(b, at)]);
            after.rx.pending == before.rx.pending + [b] && after.events == before.events
  {
    hide Run;
    RunSnoc(rx, ticks, Byte(b, at));
  }

  /** Nothing ever comes out as a payload but what the received body carries, over every run. */
  lemma {:induction false} EmittedCarried(rx: Rx, ticks: seq<Tick>)
    ensures forall e :: e in Run(rx, ticks).events && e.Emitted? ==> Carries(e.raw, e.payload)
  {
    hide Carries, Deframe;
    if ticks != [] {
      var init, last := ticks[..|ticks| - 1], ticks[|ticks| - 1];
      EmittedCarried(rx, init);
      RunLast(rx, ticks);
      var s := Run(rx, init).rx.pending;
      if Deframe(s).Some? {
        DeframeExact(s, Deframe(s).value);
      }
    }
  }

  /** A body hit by a burst of up to 16 bits only ever shows on the terminal. */
  lemma BurstOnlyPrinted(rx: Rx, ticks: seq<Tick>, good: Bytes, p: Bytes, bad: Bytes, at: nat)
    requires Carries(good, p) && Unstuff(bad) != Unstuff(good)
    requires DifferWithin(BitsOf(Unstuff(good)), BitsOf(Unstuff(bad)), at, 16)
    ensures forall e :: e in Run(rx, ticks).events && e.raw == bad ==> e == Printed(bad)
  {
    hide Run, Carries, Unstuff, BitsOf, DifferWithin, Deframe, Accepts;
    DeframeExact(good, p);
    assert Accepts(good);
    BurstRejected(good, bad, at);
    RejectedOnlyPrinted(rx, ticks, bad);
  }

  /** So does a body with an odd number of flipped bits. */
  lemma OddFlipsOnlyPrinted(rx: Rx, ticks: seq<Tick>, good: Bytes, p: Bytes, bad: Bytes)
    requires Carries(good, p) && |Unstuff(bad)| == |Unstuff(good)|
    requires Flips(BitsOf(Unstuff(good)), BitsOf(Unstuff(bad))) % 2 == 1
    ensures forall e :: e in Run(rx, ticks).events && e.raw == bad ==> e == Printed(bad)
  {
    hide Run, Carries, Unstuff, BitsOf, Flips, Deframe, Accepts;
    DeframeExact(good, p);
    assert Accepts(good);
    OddFlipsRejected(good, bad);
    RejectedOnlyPrinted(rx, ticks, bad);
  }

  lemma RejectedOnlyPrinted(rx: Rx, ticks: seq<Tick>, bad: Bytes)
    requires Deframe(bad) == None
    ensures forall e :: e in Run(rx, ticks).events && e.raw == bad ==> e == Printed(bad)
  {
    hide Run, Carries, Deframe;
    EmittedCarried(rx, ticks);
    forall e | e in Run(rx, ticks).events && e.raw == bad
      ensures e == Printed(bad)
    {
      if e.Emitted? {
        DeframeExact(bad, e.payload);
      }
    }
  }
}
