/**
 How long the microcontroller can believe in a connection that has gone quiet: the connect timer
 against the loopbacks and the connect replies it has received, over every run with a punctual timer.
 */
module Watchdog {
  import opened ByteStrings
  import opened BrokerProtocol
  import opened UcBroker
  import opened Wrappers

  /** Period of the connect timer, in milliseconds. */
  const CONNECT_PERIOD: nat := 10000
  const BOUND: nat := 15000

  datatype Event =
    | Tick
    | Received(m: Msg, now: UInt64, stale: UInt64)

  /** An event, and the time its handler ends. */
  datatype Stamped = Stamped(at: UInt64, event: Event)

  /** The microcontroller, the time, and when what was last received. */
  datatype Watch = Watch(uc: Uc, at: UInt64, lastTick: UInt64, lastReply: Option<UInt64>, lastLoopback: Option<UInt64>)

  /** A publish that a subscriber can decode counts as a loopback. */
  predicate IsLoopback(m: Msg) {
    m.Publish? && |Encode(m)| <= UC_CAPACITY
  }

  function Observe(w: Watch, e: Stamped): Watch {
    match e.event
    case Tick => w.(uc := OnConnectTimer(w.uc, e.at), at := e.at, lastTick := e.at)
    case Received(m, now, stale) =>
      Watch(OnMessage(w.uc, m, now, e.at, stale).uc, e.at, w.lastTick,
            if m.Connect? then Some(e.at) else w.lastReply,
            if IsLoopback(m) then Some(e.at) else w.lastLoopback)
  }

  function ObserveAll(w: Watch, events: seq<Stamped>): Watch {
    if events == [] then w else Observe(ObserveAll(w, events[..|events| - 1]), events[|events| - 1])
  }

  /** Time goes on, and no tick is overdue. */
  predicate OnTime(w: Watch, t: UInt64) {
    w.at <= t && w.lastTick <= w.at && t - w.lastTick <= CONNECT_PERIOD
  }

  predicate Punctual(w: Watch, events: seq<Stamped>) {
    events == [] ||
    (Punctual(w, events[..|events| - 1]) &&
     OnTime(ObserveAll(w, events[..|events| - 1]), events[|events| - 1].at))
  }

  lemma ObserveSnoc(w: Watch, events: seq<Stamped>, e: Stamped)
    ensures ObserveAll(w, events + [e]) == Observe(ObserveAll(w, events), e)
    ensures Punctual(w, events + [e]) <==> Punctual(w, events) && OnTime(ObserveAll(w, events), e.at)
  {
    hide Observe, OnTime;
    assert (events + [e])[..|events|] == events;
  }

  /** Nothing has happened yet; the loopback time holds whatever the memory held. */
  predicate PowerUp(w: Watch) {
    !w.uc.connected && w.lastTick == w.at && w.lastReply.None? && w.lastLoopback.None?
  }

  /** `moment` has come, no longer than `limit` milliseconds before `t`. */
  predicate Recent(moment: Option<UInt64>, t: UInt64, limit: nat) {
    moment.Some? && moment.value <= t && t - moment.value <= limit
  }

  /** A loopback or a connect reply was received in the last `limit` milliseconds. */
  predicate Heard(w: Watch, t: UInt64, limit: nat) {
    Recent(w.lastLoopback, t, limit) || Recent(w.lastReply, t, limit)
  }

  /** A message sets `connected` only if it is a connect, and only a loopback moves the loopback time. */
  lemma MessageEffect(uc: Uc, m: Msg, now: UInt64, later: UInt64, stale: UInt64)
    ensures var after := OnMessage(uc, m, now, later, stale).uc;
            after.connected == (uc.connected || m.Connect?) &&
            after.loopback == if IsLoopback(m) then later else uc.loopback
  {
    hide Encode, DecodeValue, EncodeValue;
  }

  /**
   Why the microcontroller still believes, after a start in `start`: a reply or a loopback since the
   last tick, or a tick that found the loopback time recent, be it a loopback's or still the one from
   power-up.
   */
  predicate Grounded(start: Watch, w: Watch) {
    && start.at <= w.lastTick <= w.at
    && w.uc.loopback == (if w.lastLoopback.Some? then w.lastLoopback.value else start.uc.loopback)
    && (w.lastLoopback.Some? ==> start.at <= w.lastLoopback.value <= w.at)
    && (w.lastReply.Some? ==> start.at <= w.lastReply.value <= w.at)
    && (w.uc.connected ==>
          && w.lastReply.Some?
          && (|| w.lastTick <= w.lastReply.value
              || (w.lastLoopback.Some? && w.lastTick <= w.lastLoopback.value)
              || Minus64(w.lastTick, w.uc.loopback) <= LOOPBACK_TIMEOUT))
  }

  lemma {:induction false} StaysGrounded(start: Watch, events: seq<Stamped>)
    requires PowerUp(start) && Punctual(start, events)
    ensures Grounded(start, ObserveAll(start, events))
  {
    hide OnMessage, IsLoopback;
    if events != [] {
      var before, e := ObserveAll(start, events[..|events| - 1]), events[|events| - 1];
      StaysGrounded(start, events[..|events| - 1]);
      if e.event.Received? {
        MessageEffect(before.uc, e.event.m, e.event.now, e.at, e.event.stale);
      }
    }
  }

  /** The time since a loopback, on a clock that wraps, as ordinary time passes. */
  lemma Elapsed(loopback: UInt64, since: UInt64, t: UInt64)
    requires since <= t
    ensures loopback <= since ==> Minus64(since, loopback) == since - loopback
    ensures Minus64(since, loopback) + (t - since) < TWO_TO_THE_64 ==>
              Minus64(t, loopback) == Minus64(since, loopback) + (t - since)
  {
  }

  /**
   Whatever the loopback time held at power-up: while the microcontroller believes it is connected,
   it received a loopback in the last 15 seconds or a connect reply in the last 10, or it never
   received a loopback and mistakes the power-up value for one of the last 15 seconds.
   */
  lemma AnyPowerUpBound(start: Watch, events: seq<Stamped>, t: UInt64)
    requires PowerUp(start) && Punctual(start, events) && OnTime(ObserveAll(start, events), t)
    ensures var w := ObserveAll(start, events);
            w.uc.connected ==>
              || Recent(w.lastLoopback, t, BOUND)
              || Recent(w.lastReply, t, CONNECT_PERIOD)
              || (w.lastLoopback.None? && Minus64(t, start.uc.loopback) <= BOUND)
  {
    hide ObserveAll, Punctual, Minus64;
    StaysGrounded(start, events);
    var w := ObserveAll(start, events);
    Elapsed(w.uc.loopback, w.lastTick, t);
  }

  /** With a power-up value not ahead of the clock, something was received in the last 15 seconds. */
  lemma WatchdogBound(start: Watch, events: seq<Stamped>, t: UInt64)
    requires PowerUp(start) && start.uc.loopback <= start.at
    requires Punctual(start, events) && OnTime(ObserveAll(start, events), t)
    ensures var w := ObserveAll(start, events); w.uc.connected ==> Heard(w, t, BOUND)
  {
    hide ObserveAll, Punctual, Minus64;
    StaysGrounded(start, events);
    var w := ObserveAll(start, events);
    Elapsed(w.uc.loopback, w.lastTick, t);
  }

  /** So after 15 seconds without a loopback or a connect reply, a keep-alive asks for a connection again. */
  lemma SilenceReconnects(start: Watch, events: seq<Stamped>, t: UInt64)
    requires PowerUp(start) && start.uc.loopback <= start.at
    requires Punctual(start, events) && OnTime(ObserveAll(start, events), t)
    requires !Heard(ObserveAll(start, events), t, BOUND)
    ensures OnKeepAlive(ObserveAll(start, events).uc, t).sent == [Connect(SRC_PREFIX)]
  {
    hide ObserveAll, Punctual, OnTime, Heard, PowerUp;
    WatchdogBound(start, events, t);
  }

  // ---- Exactly which power-up values are harmless ----

  /** The bound holds at every moment of every run from `start`. */
  ghost predicate AlwaysBounded(start: Watch) {
    forall events: seq<Stamped>, t: UInt64 ::
      Punctual(start, events) && OnTime(ObserveAll(start, events), t) && ObserveAll(start, events).uc.connected ==>
        Heard(ObserveAll(start, events), t, BOUND)
  }

  /** A tick every millisecond; one more often than every 10 seconds is on time. */
  function Ticks(from: UInt64, n: nat): seq<Stamped>
    requires from + n < TWO_TO_THE_64
  {
    seq(n, i requires 0 <= i < n => Stamped(from + i + 1, Tick))
  }

  lemma {:induction false} TicksPass(start: Watch, n: nat)
    requires PowerUp(start) && start.at + n < TWO_TO_THE_64
    ensures Punctual(start, Ticks(start.at, n))
    ensures ObserveAll(start, Ticks(start.at, n)) == start.(at := start.at + n, lastTick := start.at + n)
  {
    if n > 0 {
      TicksPass(start, n - 1);
      assert Ticks(start.at, n) == Ticks(start.at, n - 1) + [Stamped(start.at + n, Tick)];
      ObserveSnoc(start, Ticks(start.at, n - 1), Stamped(start.at + n, Tick));
    }
  }

  /**
   A power-up value ahead of the clock: a reply just before that moment, and the ticks at that moment
   and 5 seconds later take it for a loopback.
   */
  lemma AheadFools(start: Watch) returns (events: seq<Stamped>)
    requires PowerUp(start) && start.at < start.uc.loopback && start.uc.loopback + BOUND < TWO_TO_THE_64
    ensures var w, t := ObserveAll(start, events), start.uc.loopback + BOUND;
            Punctual(start, events) && OnTime(w, t) && w.uc.connected && !Heard(w, t, BOUND)
  {
    hide Encode, ObserveAll, Punctual;
    var p := start.uc.loopback;
    var quiet := Ticks(start.at, p - 1 - start.at);
    TicksPass(start, p - 1 - start.at);
    var reply, first, second := Stamped(p - 1, Received(Connect([]), 0, 0)), Stamped(p, Tick), Stamped(p + 5000, Tick);
    ObserveSnoc(start, quiet, reply);
    ObserveSnoc(start, quiet + [reply], first);
    ObserveSnoc(start, quiet + [reply] + [first], second);
    events := quiet + [reply] + [first] + [second];
  }

  /** The bound holds over all runs exactly for power-up values not ahead of the clock. */
  lemma AlwaysBoundedIff(start: Watch)
    requires PowerUp(start) && start.uc.loopback + BOUND < TWO_TO_THE_64
    ensures AlwaysBounded(start) <==> start.uc.loopback <= start.at
  {
    hide ObserveAll, Punctual, OnTime, Heard, PowerUp;
    if start.uc.loopback <= start.at {
      forall events: seq<Stamped>, t: UInt64
        | Punctual(start, events) && OnTime(ObserveAll(start, events), t) && ObserveAll(start, events).uc.connected
        ensures Heard(ObserveAll(start, events), t, BOUND)
      {
        WatchdogBound(start, events, t);
      }
    } else {
      var events := AheadFools(start);
      var t: UInt64 := start.uc.loopback + BOUND;
      assert OnTime(ObserveAll(start, events), t);
    }
  }

  /** A line silent for 25 seconds, and the keep-alive still publishes: the power-up value was 10000. */
  lemma SilentLineStaysConnected(uc: Uc)
    requires !uc.connected && uc.loopback == 10000
    ensures var start := Watch(uc, 0, 0, None, None);
            var events := [Stamped(0, Received(Connect([]), 0, 0))] + [Stamped(10000, Tick)] + [Stamped(15000, Tick)];
            var w := ObserveAll(start, events);
            PowerUp(start) && Punctual(start, events) && OnTime(w, 25000) &&
            w.lastLoopback.None? && w.lastReply == Some(0) &&
            OnKeepAlive(w.uc, 25000).sent == [Publish(uc.uptime, EncodeValue(25000))]
  {
    hide Encode, EncodeValue;
    var start := Watch(uc, 0, 0, None, None);
    var reply, tick := Stamped(0, Received(Connect([]), 0, 0)), Stamped(10000, Tick);
    ObserveSnoc(start, [], reply);
    assert [] + [reply] == [reply];
    ObserveSnoc(start, [reply], tick);
    ObserveSnoc(start, [reply] + [tick], Stamped(15000, Tick));
  }

  /** The limit is reached both ways: by a loopback, and by a reply with no loopback ever. */
  lemma BoundsReached(uc: Uc, m: Msg, stale: UInt64)
    requires !uc.connected && uc.loopback == 0 && IsLoopback(m)
    ensures var start := Watch(uc, 0, 0, None, None);
            var reply := [Stamped(0, Received(Connect([]), 0, 0))];
            var v := ObserveAll(start, reply + [Stamped(5000, Tick)]);
            var looped := reply + [Stamped(5000, Received(m, 5000, stale))] + [Stamped(10000, Tick)];
            var w := ObserveAll(start, looped);
            PowerUp(start) && Punctual(start, reply + [Stamped(5000, Tick)]) && Punctual(start, looped) &&
            OnTime(v, 15000) && v.uc.connected && v.lastReply == Some(0) && v.lastLoopback == None &&
            OnTime(w, 20000) && w.uc.connected && w.lastReply == Some(0) && w.lastLoopback == Some(5000)
  {
    assert m.Publish?;
    hide Encode, DecodeValue, EncodeValue, ObserveAll, Punctual, IsLoopback;
    var start := Watch(uc, 0, 0, None, None);
    var reply, loop := Stamped(0, Received(Connect([]), 0, 0)), Stamped(5000, Received(m, 5000, stale));
    assert Punctual(start, []) && ObserveAll(start, []) == start by { Nothing(start); }
    ObserveSnoc(start, [], reply);
    assert [] + [reply] == [reply];
    ObserveSnoc(start, [reply], Stamped(5000, Tick));
    MessageEffect(OnConnectReply(uc).uc, m, 5000, 5000, stale);
    ObserveSnoc(start, [reply], loop);
    ObserveSnoc(start, [reply] + [loop], Stamped(10000, Tick));
  }

  lemma Nothing(start: Watch)
    ensures Punctual(start, []) && ObserveAll(start, []) == start
  {
  }
}
