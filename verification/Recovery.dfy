/**
 What a disconnect of the proxy costs: with punctual timers and a line that loses nothing, the
 microcontroller notices, connects again and declares everything within a fixed time, unless the
 disconnect tore a series of declarations apart.
 */
module Recovery {
  import opened ByteStrings
  import opened BrokerProtocol
  import opened Link
  import opened ProxyPipeline
  import opened UcBroker
  import opened Watchdog
  import opened ZenohBroker

  /** Period of the keep-alive timer, in milliseconds. */
  const KEEP_ALIVE_PERIOD: nat := 1000

  /** The link, the time, and when each timer last fired. */
  datatype Clocked = Clocked(s: State, at: UInt64, lastTick: UInt64, lastKeep: UInt64)

  datatype Timed = Timed(at: UInt64, step: Step)

  function Move(c: Clocked, e: Timed): Clocked {
    Clocked(Next(c.s, e.step), e.at,
            if e.step.ConnectTick? then e.at else c.lastTick,
            if e.step.KeepAlive? then e.at else c.lastKeep)
  }

  function MoveAll(c: Clocked, es: seq<Timed>): Clocked {
    if es == [] then c else Move(MoveAll(c, es[..|es| - 1]), es[|es| - 1])
  }

  /** Time goes on, and no timer is overdue. */
  predicate InTime(c: Clocked, t: UInt64) {
    && c.at <= t && c.lastTick <= c.at && c.lastKeep <= c.at
    && t - c.lastTick <= CONNECT_PERIOD && t - c.lastKeep <= KEEP_ALIVE_PERIOD
  }

  /**
   Timers are punctual, what one timer sets off is over when the next fires, nothing is lost, the
   library accepts, and the proxy does not disconnect again.
   */
  predicate Orderly(c: Clocked, e: Timed) {
    && InTime(c, e.at)
    && match e.step
       case KeepAlive(now) => now == e.at && c.s.up == [] && c.s.down == []
       case ConnectTick(now) => now == e.at && c.s.up == [] && c.s.down == []
       case UcReceive(_, later, _) => later == e.at
       case ProxyReceive(ok) => ok
       case Sample(_, _) => true
       case AppPublish(_, _) => true
       case _ => false
  }

  predicate AllOrderly(c: Clocked, es: seq<Timed>) {
    es == [] ||
    (AllOrderly(c, es[..|es| - 1]) && Orderly(MoveAll(c, es[..|es| - 1]), es[|es| - 1]))
  }

  // ---- The phases of a recovery ----

  ghost predicate NoSubscriber(q: seq<Msg>) {
    forall i :: 0 <= i < |q| ==> !q[i].Subscriber?
  }

  /** A connect, or the reply to one, is on its way. */
  ghost predicate Asked(s: State) {
    || (exists i :: 0 <= i < |s.up| && s.up[i].Connect?)
    || (exists i :: 0 <= i < |s.down| && s.down[i].Connect?)
  }

  ghost predicate HasPublish(q: seq<Msg>) {
    exists i :: 0 <= i < |q| && q[i].Publish?
  }

  /** Each declaration is on its way to the proxy, if the proxy does not know it already. */
  ghost predicate Covered(s: State) {
    forall m :: m in Announcements(s.uc) ==> Known(s.tables, m) || m in s.up
  }

  /**
   No sample comes any more, so the last loopback grows old: since the disconnect at `d` it moved for
   one keep-alive period at most, and the first tick more than 5 seconds after that ends the belief
   in the connection.
   */
  ghost predicate Silent(c: Clocked, d: nat) {
    && c.s.tables.subs == map[] && NoSubscriber(c.s.up)
    && (HasPublish(c.s.down) ==> c.lastKeep <= d)
    && c.s.uc.loopback <= d + 1000 && c.lastTick <= d + 6000
  }

  /** The phases, from the last to the first: done, declaring, asking, giving up, and waiting in silence. */
  ghost predicate Recovering(c: Clocked, d: nat) {
    || c.s.tables == TablesOf(c.s.uc)
    || (c.lastKeep <= d + 17000 && (Covered(c.s) || Asked(c.s)))
    || (c.lastKeep <= d + 16000 && (!c.s.uc.connected || Silent(c, d)))
  }

  lemma CoveredStep(c: Clocked, e: Timed)
    requires WellFormed(c.s.uc) && Agreed(c.s) && Covered(c.s) && Orderly(c, e)
    ensures Covered(Move(c, e).s)
  {
    hide WellFormed, Agreed, Next, Encode, Announcements;
    var t := Next(c.s, e.step);
    AgreedNext(c.s, e.step);
    SameWellFormed(t.uc, c.s.uc);
    TablesGrow(c.s, e.step);
    QueueMoves(c.s, e.step);
    forall m | m in Announcements(t.uc)
      ensures Known(t.tables, m) || m in t.up
    {
      if m in c.s.up {
        var i :| 0 <= i < |c.s.up| && c.s.up[i] == m;
        if e.step.ProxyReceive? {
          assert i > 0 ==> t.up[i - 1] == m;
        } else {
          assert t.up[..|c.s.up|][i] == m;
        }
      }
    }
  }

  /** With nothing left in the queue the tables are complete. */
  lemma CoveredEmpty(s: State)
    requires WellFormed(s.uc) && Agreed(s) && Covered(s) && s.up == []
    ensures s.tables == TablesOf(s.uc)
  {
    hide WellFormed, Agreed, TablesOf;
    assert forall k :: 0 <= k < |Announcements(s.uc)| ==> Announcements(s.uc)[k] in Announcements(s.uc);
    AllKnown(s, Window(0, 0));
  }

  lemma AnsweredCovers(s: State, t: State)
    requires SameResources(s.uc, t.uc) && t.up == s.up + Announcements(s.uc)
    ensures Covered(t)
  {
    hide Known;
    SameWellFormed(t.uc, s.uc);
  }

  lemma AskedStep(c: Clocked, e: Timed)
    requires Agreed(c.s) && Asked(c.s) && Orderly(c, e)
    ensures !e.step.KeepAlive? && !e.step.ConnectTick?
    ensures Asked(Move(c, e).s) || Covered(Move(c, e).s)
  {
    hide OnMessage, Announcements, Encode, Serve, Covered;
    var t := Move(c, e);
    if e.step.UcReceive? && c.s.down != [] {
      var m := c.s.down[0];
      Reactions(c.s.uc, m, e.step.now, e.at, e.step.stale);
      if m.Connect? {
        AnsweredCovers(c.s, t.s);
      } else {
        assert forall i :: 0 < i < |c.s.down| ==> c.s.down[i] == t.s.down[i - 1];
        assert forall i :: 0 <= i < |c.s.up| ==> t.s.up[i] == c.s.up[i];
      }
    } else if e.step.ProxyReceive? && c.s.up != [] {
      ServeEffect(TablesOf(c.s.uc), c.s.tables, c.s.up[0], true);
      assert forall i :: 0 < i < |c.s.up| ==> c.s.up[i] == t.s.up[i - 1];
      assert forall i :: 0 <= i < |c.s.down| ==> t.s.down[i] == c.s.down[i];
      assert c.s.up[0].Connect? ==> t.s.down[|c.s.down|].Connect?;
    } else if e.step.AppPublish? || e.step.Sample? {
      assert forall i :: 0 <= i < |c.s.up| ==> t.s.up[i] == c.s.up[i];
      assert forall i :: 0 <= i < |c.s.down| ==> t.s.down[i] == c.s.down[i];
    }
  }

  /** A keep-alive without a connection asks for one. */
  lemma KeepAliveAsks(c: Clocked, e: Timed)
    requires Orderly(c, e) && e.step.KeepAlive? && !c.s.uc.connected
    ensures Asked(Move(c, e).s)
  {
    assert Move(c, e).s.up[0].Connect?;
  }

  /** Without a connection it takes an answer to a connect to get one. */
  lemma OffStep(c: Clocked, e: Timed)
    requires !c.s.uc.connected && Orderly(c, e)
    ensures !Move(c, e).s.uc.connected || Covered(Move(c, e).s)
  {
    hide OnMessage, Announcements, Encode, Serve, Covered;
    if e.step.UcReceive? && c.s.down != [] {
      Reactions(c.s.uc, c.s.down[0], e.step.now, e.at, e.step.stale);
      if c.s.down[0].Connect? {
        AnsweredCovers(c.s, Move(c, e).s);
      }
    }
  }

  lemma SilentTimers(c: Clocked, e: Timed, d: nat)
    requires Silent(c, d) && Orderly(c, e) && (e.step.KeepAlive? || e.step.ConnectTick?)
    ensures Silent(Move(c, e), d) || !Move(c, e).s.uc.connected
    ensures c.s.uc.connected && e.step.KeepAlive? ==> e.at <= d + 16000
  {
    hide EncodeValue;
  }

  lemma LoopbackIsPublish(m: Msg)
    ensures IsLoopback(m) ==> m.Publish?
  {
  }

  lemma SilentUcReceive(c: Clocked, e: Timed, d: nat)
    requires Silent(c, d) && Orderly(c, e) && e.step.UcReceive?
    ensures Silent(Move(c, e), d) || Covered(Move(c, e).s)
  {
    hide OnMessage, Announcements, Encode, IsLoopback, Covered;
    if c.s.down != [] {
      var m, t := c.s.down[0], Move(c, e);
      Reactions(c.s.uc, m, e.step.now, e.at, e.step.stale);
      MessageEffect(c.s.uc, m, e.step.now, e.at, e.step.stale);
      if m.Connect? {
        AnsweredCovers(c.s, t.s);
      } else {
        assert m.Publish? ==> HasPublish(c.s.down);
        LoopbackIsPublish(m);
        assert forall i :: 0 <= i < |t.s.down| ==> t.s.down[i] == c.s.down[i + 1];
      }
    }
  }

  lemma SilentProxyReceive(c: Clocked, e: Timed, d: nat)
    requires Agreed(c.s) && Silent(c, d) && Orderly(c, e) && e.step.ProxyReceive?
    ensures Silent(Move(c, e), d)
  {
    hide Serve, Encode;
    if c.s.up != [] {
      var t := Move(c, e);
      ServeEffect(TablesOf(c.s.uc), c.s.tables, c.s.up[0], true);
      assert !c.s.up[0].Subscriber?;
      assert forall i :: 0 <= i < |t.s.up| ==> t.s.up[i] == c.s.up[i + 1];
      assert HasPublish(t.s.down) ==> HasPublish(c.s.down);
    }
  }

  lemma SilentPublish(c: Clocked, e: Timed, d: nat)
    requires Silent(c, d) && Orderly(c, e) && (e.step.AppPublish? || e.step.Sample?)
    ensures Silent(Move(c, e), d)
  {
    hide Encode;
  }

  lemma SilentStep(c: Clocked, e: Timed, d: nat)
    requires Agreed(c.s) && Silent(c, d) && Orderly(c, e)
    ensures Silent(Move(c, e), d) || !Move(c, e).s.uc.connected || Covered(Move(c, e).s)
    ensures c.s.uc.connected && e.step.KeepAlive? ==> e.at <= d + 16000
  {
    hide Agreed, Silent, Covered, Next;
    match e.step
    case KeepAlive(_) => SilentTimers(c, e, d);
    case ConnectTick(_) => SilentTimers(c, e, d);
    case UcReceive(_, _, _) => SilentUcReceive(c, e, d);
    case ProxyReceive(_) => SilentProxyReceive(c, e, d);
    case AppPublish(_, _) => SilentPublish(c, e, d);
    case Sample(_, _) => SilentPublish(c, e, d);
  }

  lemma ConvergedStep(s: State, step: Step)
    requires WellFormed(s.uc) && Agreed(s) && s.tables == TablesOf(s.uc) && !step.ProxyDisconnect?
    ensures Next(s, step).tables == TablesOf(Next(s, step).uc)
  {
    hide WellFormed, Agreed, Next, TablesOf;
    AgreedNext(s, step);
    SameWellFormed(Next(s, step).uc, s.uc);
    TablesGrow(s, step);
    GrownIsWhole(s.tables, Next(s, step));
  }

  lemma RecoveringStep(c: Clocked, e: Timed, d: nat)
    requires WellFormed(c.s.uc) && Agreed(c.s) && Recovering(c, d) && Orderly(c, e)
    ensures Recovering(Move(c, e), d)
  {
    hide WellFormed, Agreed, Next, TablesOf, Silent, Covered, Asked;
    if c.s.tables == TablesOf(c.s.uc) {
      ConvergedStep(c.s, e.step);
    } else if c.lastKeep <= d + 17000 && Covered(c.s) {
      CoveredStep(c, e);
      if c.s.up == [] {
        CoveredEmpty(c.s);
      }
    } else if c.lastKeep <= d + 17000 && Asked(c.s) {
      AskedStep(c, e);
    } else if !c.s.uc.connected {
      OffStep(c, e);
      if e.step.KeepAlive? {
        KeepAliveAsks(c, e);
      }
    } else {
      SilentStep(c, e, d);
    }
  }

  lemma {:induction false} StaysRecovering(c: Clocked, es: seq<Timed>, d: nat)
    requires WellFormed(c.s.uc) && Agreed(c.s) && Recovering(c, d) && AllOrderly(c, es)
    ensures Recovering(MoveAll(c, es), d)
    ensures Agreed(MoveAll(c, es).s) && SameResources(MoveAll(c, es).s.uc, c.s.uc)
  {
    hide WellFormed, Agreed, Recovering, Orderly, Next;
    if es != [] {
      var before := MoveAll(c, es[..|es| - 1]);
      StaysRecovering(c, es[..|es| - 1], d);
      SameWellFormed(before.s.uc, c.s.uc);
      AgreedNext(before.s, es[|es| - 1].step);
      RecoveringStep(before, es[|es| - 1], d);
    }
  }

  // ---- Which disconnects heal ----

  function Disconnected(c: Clocked): Clocked {
    c.(s := c.s.(tables := EMPTY))
  }

  /**
   At the disconnect, the queue up holds no subscriber declaration or all declarations, or the
   microcontroller knows it is not connected, or a connect or its reply is on its way.
   */
  ghost predicate Heals(s: State) {
    || NoSubscriber(s.up) || (forall m :: m in Announcements(s.uc) ==> m in s.up)
    || !s.uc.connected || Asked(s)
  }

  const RECOVERY: nat := 18000

  /** From a clock that is past `limit`, the proxy's tables are the microcontroller's, in every orderly run. */
  ghost predicate RecoversBy(c: Clocked, limit: nat) {
    forall es: seq<Timed>, t: UInt64 ::
      AllOrderly(Disconnected(c), es) && InTime(MoveAll(Disconnected(c), es), t) && t > limit ==>
        MoveAll(Disconnected(c), es).s.tables == TablesOf(c.s.uc)
  }

  lemma SilenceStarts(c: Clocked)
    requires NoSubscriber(c.s.up) && c.s.uc.loopback <= c.at && InTime(c, c.at)
    ensures Silent(Disconnected(c), c.at)
  {
    hide NoSubscriber, HasPublish;
  }

  lemma RecoveryStarts(c: Clocked)
    requires Heals(c.s) && c.s.uc.loopback <= c.at && InTime(c, c.at)
    ensures Recovering(Disconnected(c), c.at)
  {
    hide Silent, NoSubscriber, TablesOf, Announcements, Known;
    if NoSubscriber(c.s.up) {
      SilenceStarts(c);
    }
  }

  /** A disconnect that heals: 18 seconds of orderly running later, the tables are whole, and stay so. */
  lemma RecoversInTime(c: Clocked, es: seq<Timed>, t: UInt64)
    requires WellFormed(c.s.uc) && Agreed(c.s) && Heals(c.s) && c.s.uc.loopback <= c.at && InTime(c, c.at)
    requires AllOrderly(Disconnected(c), es) && InTime(MoveAll(Disconnected(c), es), t) && t > c.at + RECOVERY
    ensures MoveAll(Disconnected(c), es).s.tables == TablesOf(c.s.uc)
  {
    hide WellFormed, Agreed, Heals, Silent, Covered, Asked, TablesOf, AllOrderly, MoveAll, Next;
    RecoveryStarts(c);
    DisconnectAgreed(c.s);
    StaysRecovering(Disconnected(c), es, c.at);
    var end := MoveAll(Disconnected(c), es);
    SameWellFormed(end.s.uc, c.s.uc);
  }

  lemma DisconnectAgreed(s: State)
    requires Agreed(s)
    ensures Agreed(s.(tables := EMPTY))
  {
  }

  // ---- A disconnect that tears a series of declarations apart ----

  /** Some orderly run goes on past `limit` with incomplete tables. */
  ghost predicate CanStall(c: Clocked, limit: nat) {
    exists es: seq<Timed>, t: UInt64 ::
      AllOrderly(c, es) && InTime(MoveAll(c, es), t) && t > limit &&
      MoveAll(c, es).s.tables != TablesOf(MoveAll(c, es).s.uc)
  }

  lemma {:induction false} MoveFirst(c: Clocked, e: Timed, es: seq<Timed>)
    ensures MoveAll(c, [e] + es) == MoveAll(Move(c, e), es)
    ensures AllOrderly(c, [e] + es) <==> Orderly(c, e) && AllOrderly(Move(c, e), es)
  {
    hide Move, Orderly;
    if es == [] {
      assert [e] + es == [e] && [e][..0] == [];
      assert MoveAll(c, []) == c && AllOrderly(c, []);
    } else {
      var init, last := es[..|es| - 1], es[|es| - 1];
      MoveFirst(c, e, init);
      assert ([e] + es)[..|es|] == [e] + init && ([e] + es)[|es|] == last;
    }
  }

  lemma StallsEarlier(c: Clocked, e: Timed, limit: nat)
    requires Orderly(c, e) && CanStall(Move(c, e), limit)
    ensures CanStall(c, limit)
  {
    hide Move, Orderly, MoveAll, AllOrderly, InTime, TablesOf;
    var es: seq<Timed>, t: UInt64 :| AllOrderly(Move(c, e), es) && InTime(MoveAll(Move(c, e), es), t) && t > limit &&
      MoveAll(Move(c, e), es).s.tables != TablesOf(MoveAll(Move(c, e), es).s.uc);
    MoveFirst(c, e, es);
  }

  /** Connected and fed by some subscription, while the declaration `m` is neither known nor on its way. */
  ghost predicate Stuck(c: Clocked, m: Msg) {
    && WellFormed(c.s.uc) && Agreed(c.s) && InTime(c, c.at)
    && c.s.uc.connected && !Asked(c.s)
    && (c.s.tables.subs != map[] || !NoSubscriber(c.s.up))
    && m in Announcements(c.s.uc) && !Known(c.s.tables, m) && m !in c.s.up
  }

  lemma StuckIncomplete(c: Clocked, m: Msg)
    requires Stuck(c, m)
    ensures c.s.tables != TablesOf(c.s.uc)
  {
    hide WellFormed, Asked, NoSubscriber, Announcements, Encode, KeyMap;
    AnnouncementsHonest(c.s.uc);
  }

  lemma StuckUcReceive(c: Clocked, m: Msg)
    requires Stuck(c, m) && c.s.down != []
    ensures Stuck(Move(c, Timed(c.at, UcReceive(c.at, c.at, 0))), m)
    ensures var t := Move(c, Timed(c.at, UcReceive(c.at, c.at, 0)));
            t.at == c.at && t.lastKeep == c.lastKeep &&
            |t.s.down| == |c.s.down| - 1 && |t.s.up| <= |c.s.up| + 1 && t.s.tables == c.s.tables &&
            (IsLoopback(c.s.down[0]) ==> t.s.uc.loopback == c.at && |t.s.up| == |c.s.up| + 1)
  {
    hide WellFormed, OnMessage, Announcements, Encode, Known, Agreed;
    MessageEffect(c.s.uc, c.s.down[0], c.at, c.at, 0);
    var e := Timed(c.at, UcReceive(c.at, c.at, 0));
    var t := Move(c, e);
    NextWellFormed(c.s, e.step);
    SameWellFormed(t.s.uc, c.s.uc);
    Reactions(c.s.uc, c.s.down[0], c.at, c.at, 0);
    AnnouncementsAllDeclare(c.s.uc, m);
    assert forall i :: 0 <= i < |t.s.down| ==> t.s.down[i] == c.s.down[i + 1];
    assert forall i :: 0 <= i < |c.s.up| ==> t.s.up[i] == c.s.up[i];
  }

  lemma AnnouncementsAllDeclare(uc: Uc, m: Msg)
    requires m in Announcements(uc)
    ensures m.Subscriber? || m.Publisher?
  {
  }

  lemma StuckProxyReceive(c: Clocked, m: Msg)
    requires Stuck(c, m) && c.s.up != []
    ensures Stuck(Move(c, Timed(c.at, ProxyReceive(true))), m)
    ensures var t := Move(c, Timed(c.at, ProxyReceive(true)));
            t.at == c.at && t.lastKeep == c.lastKeep && t.lastTick == c.lastTick && t.s.uc == c.s.uc &&
            t.s.up == c.s.up[1..] && t.s.down == c.s.down
  {
    hide WellFormed, Announcements, Encode, Serve;
    var e := Timed(c.at, ProxyReceive(true));
    var t := Move(c, e);
    NextWellFormed(c.s, e.step);
    HeadHonest(c.s);
    ServeEffect(TablesOf(c.s.uc), c.s.tables, c.s.up[0], true);
    AnnouncementsHonest(c.s.uc);
    assert !c.s.up[0].Connect?;
    assert forall i :: 0 <= i < |t.s.up| ==> t.s.up[i] == c.s.up[i + 1];
    assert forall i :: 0 < i < |c.s.up| ==> c.s.up[i] == t.s.up[i - 1];
  }

  lemma StuckSample(c: Clocked, m: Msg, id: Int32)
    requires Stuck(c, m) && c.s.up == [] && c.s.down == [] && id in c.s.tables.subs
    ensures var t := Move(c, Timed(c.at, Sample(id, EncodeValue(0))));
            Stuck(t, m) && t == c.(s := c.s.(down := [Publish(id, EncodeValue(0))])) && IsLoopback(t.s.down[0])
  {
    hide WellFormed, Announcements, Encode, EncodeValue, Known, Agreed;
    ValueMessageFits(id, 0);
    NextWellFormed(c.s, Sample(id, EncodeValue(0)));
  }

  lemma StuckTick(c: Clocked, m: Msg)
    requires Stuck(c, m) && c.s.up == [] && c.s.down == [] && c.s.uc.loopback == c.at
    ensures Orderly(c, Timed(c.at, ConnectTick(c.at)))
    ensures var t := Move(c, Timed(c.at, ConnectTick(c.at))); Stuck(t, m) && t == c.(lastTick := c.at)
  {
    hide WellFormed, Announcements, Known, Agreed, Asked, NoSubscriber;
  }

  lemma StuckKeepAlive(c: Clocked, m: Msg, k: UInt64)
    requires Stuck(c, m) && c.s.up == [] && c.s.down == [] && c.lastTick == c.at && k == c.lastKeep + KEEP_ALIVE_PERIOD
    ensures Orderly(c, Timed(k, KeepAlive(k)))
    ensures var t := Move(c, Timed(k, KeepAlive(k))); Stuck(t, m) && t.at == t.lastKeep == k
  {
    hide WellFormed, Announcements, Known, Agreed, EncodeValue;
    NextWellFormed(c.s, KeepAlive(k));
    AnnouncementsAllDeclare(c.s.uc, m);
  }

  /**
   On an empty line: a sample keeps the microcontroller believing over a tick, and the next
   keep-alive comes on time, with the declaration still missing.
   */
  lemma StuckPeriod(c: Clocked, m: Msg, limit: nat) returns (later: Clocked)
    requires Stuck(c, m) && c.s.up == [] && c.s.down == [] && c.lastKeep + KEEP_ALIVE_PERIOD < TWO_TO_THE_64
    ensures Stuck(later, m) && later.at == later.lastKeep == c.lastKeep + KEEP_ALIVE_PERIOD
    ensures CanStall(later, limit) ==> CanStall(c, limit)
  {
    hide Stuck, Move, CanStall, EncodeValue, IsLoopback;
    var id := SomeSubscription(c, m);
    var sample, receive, serve := Timed(c.at, Sample(id, EncodeValue(0))), Timed(c.at, UcReceive(c.at, c.at, 0)),
                                  Timed(c.at, ProxyReceive(true));
    StuckSample(c, m, id);
    var c1 := Move(c, sample);
    StuckUcReceive(c1, m);
    var c2 := Move(c1, receive);
    StuckProxyReceive(c2, m);
    var c3 := Move(c2, serve);
    StuckTick(c3, m);
    var c4 := Move(c3, Timed(c.at, ConnectTick(c.at)));
    StuckInTime(c, m);
    StuckInTime(c1, m);
    StuckInTime(c2, m);
    var k: UInt64 := c.lastKeep + KEEP_ALIVE_PERIOD;
    AfterReceive(c1);
    StuckKeepAlive(c4, m, k);
    later := Move(c4, Timed(k, KeepAlive(k)));
    if CanStall(later, limit) {
      StallsEarlier(c4, Timed(k, KeepAlive(k)), limit);
      StallsEarlier(c3, Timed(c.at, ConnectTick(c.at)), limit);
      StallsEarlier(c2, serve, limit);
      StallsEarlier(c1, receive, limit);
      StallsEarlier(c, sample, limit);
    }
  }

  lemma AfterReceive(c: Clocked)
    ensures Move(c, Timed(c.at, UcReceive(c.at, c.at, 0))).lastTick == c.lastTick
  {
  }

  lemma StuckInTime(c: Clocked, m: Msg)
    requires Stuck(c, m)
    ensures InTime(c, c.at)
  {
  }

  lemma SomeSubscription(c: Clocked, m: Msg) returns (id: Int32)
    requires Stuck(c, m) && c.s.up == []
    ensures id in c.s.tables.subs
  {
    id :| id in c.s.tables.subs;
  }

  lemma {:induction false} Stalls(c: Clocked, m: Msg, limit: nat)
    requires Stuck(c, m) && c.at <= limit + KEEP_ALIVE_PERIOD && limit + KEEP_ALIVE_PERIOD < TWO_TO_THE_64
    ensures CanStall(c, limit)
    decreases limit + KEEP_ALIVE_PERIOD - c.lastKeep, 2 * |c.s.down| + |c.s.up|
  {
    hide Stuck, Move, CanStall;
    StuckInTime(c, m);
    if c.s.up != [] {
      StuckProxyReceive(c, m);
      var e := Timed(c.at, ProxyReceive(true));
      Stalls(Move(c, e), m, limit);
      StallsEarlier(c, e, limit);
    } else if c.s.down != [] {
      StuckUcReceive(c, m);
      var e := Timed(c.at, UcReceive(c.at, c.at, 0));
      Stalls(Move(c, e), m, limit);
      StallsEarlier(c, e, limit);
    } else if c.at > limit {
      StallsNow(c, m, limit);
    } else {
      var later := StuckPeriod(c, m, limit);
      Stalls(later, m, limit);
    }
  }

  lemma StallsNow(c: Clocked, m: Msg, limit: nat)
    requires Stuck(c, m) && c.at > limit
    ensures CanStall(c, limit)
  {
    hide Stuck, TablesOf, InTime;
    StuckIncomplete(c, m);
    StuckInTime(c, m);
    assert AllOrderly(c, []) && MoveAll(c, []) == c;
  }

  /** A disconnect that does not heal leaves some declaration behind for good. */
  lemma TornStalls(c: Clocked, limit: nat)
    requires WellFormed(c.s.uc) && Agreed(c.s) && !Heals(c.s) && InTime(c, c.at)
    requires c.at <= limit && limit + KEEP_ALIVE_PERIOD < TWO_TO_THE_64
    ensures CanStall(Disconnected(c), limit)
  {
    hide WellFormed, Agreed, Asked, NoSubscriber, Announcements, CanStall;
    var m :| m in Announcements(c.s.uc) && m !in c.s.up;
    DisconnectAgreed(c.s);
    AnnouncementsAllDeclare(c.s.uc, m);
    StillAsked(c.s);
    Stalls(Disconnected(c), m, limit);
  }

  lemma StillAsked(s: State)
    ensures Asked(s.(tables := EMPTY)) <==> Asked(s)
  {
  }

  /**
   A disconnect is made good in every orderly run exactly when it heals; from any later moment on
   that is at least 18 seconds after it, the answer is the same.
   */
  lemma RecoversIff(c: Clocked, limit: nat)
    requires WellFormed(c.s.uc) && Agreed(c.s) && c.s.uc.loopback <= c.at && InTime(c, c.at)
    requires c.at + RECOVERY <= limit && limit + KEEP_ALIVE_PERIOD < TWO_TO_THE_64
    ensures RecoversBy(c, limit) <==> Heals(c.s)
  {
    hide WellFormed, Agreed, Heals, TablesOf, AllOrderly, MoveAll, InTime;
    if Heals(c.s) {
      forall es: seq<Timed>, t: UInt64
        | AllOrderly(Disconnected(c), es) && InTime(MoveAll(Disconnected(c), es), t) && t > limit
        ensures MoveAll(Disconnected(c), es).s.tables == TablesOf(c.s.uc)
      {
        RecoversInTime(c, es, t);
      }
    } else {
      TornStalls(c, limit);
      var d := Disconnected(c);
      var es: seq<Timed>, t: UInt64 :| AllOrderly(d, es) && InTime(MoveAll(d, es), t) && t > limit &&
        MoveAll(d, es).s.tables != TablesOf(MoveAll(d, es).s.uc);
      OrderlyKeepsResources(d, es);
    }
  }

  lemma {:induction false} OrderlyKeepsResources(c: Clocked, es: seq<Timed>)
    ensures TablesOf(MoveAll(c, es).s.uc) == TablesOf(c.s.uc)
  {
    hide Next, TablesOf;
    if es != [] {
      var before := MoveAll(c, es[..|es| - 1]);
      OrderlyKeepsResources(c, es[..|es| - 1]);
      ResourcesKept(before.s, es[|es| - 1].step);
      SameWellFormed(Next(before.s, es[|es| - 1].step).uc, before.s.uc);
    }
  }

  lemma ResourcesKept(s: State, step: Step)
    ensures SameResources(Next(s, step).uc, s.uc)
  {
    hide Encode, EncodeValue, OnMessage, Serve;
    if step.UcReceive? && s.down != [] {
      Reactions(s.uc, s.down[0], step.now, step.later, step.stale);
    }
  }

  /**
   Such disconnects happen: in the first handshake of a microcontroller with two subscribers, when the
   proxy has taken just the first declaration.
   */
  lemma HandshakeCanTear(s: State, now: UInt64, ok: bool, later: UInt64, stale: UInt64)
    requires WellFormed(s.uc) && Initial(s) && |s.uc.subs| >= 2
    ensures var answered := Next(Next(Next(s, KeepAlive(now)), ProxyReceive(ok)), UcReceive(now, later, stale));
            !Heals(Next(answered, ProxyReceive(true)))
  {
    hide WellFormed, Agreed, Announcements, Next;
    InitialReady(s);
    ConnectReplied(s, now, ok);
    var replied := Next(Next(s, KeepAlive(now)), ProxyReceive(ok));
    AnswerSent(replied, now, later, stale);
    var answered := Next(replied, UcReceive(now, later, stale));
    TwoSubscribers(s.uc);
    AnnouncementsAreDeclarations(s.uc, 0);
    DeclarationTaken(answered, true);
    SameWellFormed(answered.uc, s.uc);
    TearsAfterFirst(Next(answered, ProxyReceive(true)), s.uc);
  }

  lemma TwoSubscribers(uc: Uc)
    requires WellFormed(uc) && |uc.subs| >= 2
    ensures var q := Announcements(uc); |q| >= 2 && q[1].Subscriber? && q[0] !in q[1..]
  {
    hide Encode;
    var q := Announcements(uc);
    assert q[0] == SubscriberOf(uc.subs[0]) && q[1] == SubscriberOf(uc.subs[1]);
    forall i | 0 < i < |q|
      ensures q[i] != q[0]
    {
      assert i < |uc.subs| ==> q[i] == SubscriberOf(uc.subs[i]) && uc.subs[i].id != uc.subs[0].id;
    }
  }

  lemma TearsAfterFirst(s: State, uc: Uc)
    requires SameResources(s.uc, uc) && s.uc.connected && s.down == []
    requires |Announcements(uc)| >= 2 && Announcements(uc)[1].Subscriber? && Announcements(uc)[0] !in Announcements(uc)[1..]
    requires s.up == Announcements(uc)[1..]
    ensures !Heals(s)
  {
    hide Announcements;
    SameWellFormed(s.uc, uc);
    assert s.up[0].Subscriber?;
    assert Announcements(s.uc)[0] in Announcements(s.uc);
    forall i | 0 <= i < |s.up|
      ensures !s.up[i].Connect?
    {
      AnnouncementsAreDeclarations(uc, i + 1);
    }
  }
}
