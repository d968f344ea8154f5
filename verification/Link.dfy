/**
 The microcontroller and the proxy joined by two queues of messages, as a step system: what every
 run keeps between the proxy's tables and the microcontroller's, with loss and disconnects.
 */
module Link {
  import opened ByteStrings
  import opened BrokerProtocol
  import opened FrameExtraction
  import opened ProxyPipeline
  import opened Queues
  import opened UcBroker
  import opened ZenohBroker

  datatype State = State(uc: Uc, tables: Tables, up: seq<Msg>, down: seq<Msg>)

  datatype Step =
    | KeepAlive(now: UInt64)
    | ConnectTick(now: UInt64)
    | UcReceive(now: UInt64, later: UInt64, stale: UInt64)
    /** `ok` is the library's answer, should the message need one. */
    | ProxyReceive(ok: bool)
    /** The library calls a subscriber of the proxy back. */
    | Sample(id: Int32, value: Blob)
    /** A publisher of the application, which does not look at `connected`. */
    | AppPublish(id: Int32, value: Blob)
    | LoseUp(i: nat)
    | LoseDown(i: nat)
    | ProxyDisconnect

  // ---- One step ----

  datatype Served = Served(tables: Tables, replies: seq<Msg>)

  /**
   The proxy handles the next message; one longer than its buffer comes to nothing. The link only
   carries messages up to 100 octets that way, so the handlers never read astray (see Honest).
   */
  function Serve(t: Tables, m: Msg, ok: bool): Served {
    if |Encode(m)| <= PROXY_CAPACITY then Served(TablesAfter(t, CutText(m), ok), ReplyTo(CutText(m)))
    else Served(t, [])
  }

  /**
   Serving a message is what the proxy's filters and handlers do with its frame, whatever their
   variables held.
   */
  lemma ServeIsPipeline(b: Book, m: Msg, n: nat, answers: nat -> bool, stale: Filters, junk: Int32)
    ensures RunSafe(stale, [Encode(m)], junk) <==> TextArrives(m, PROXY_CAPACITY)
    ensures TextArrives(m, PROXY_CAPACITY) ==>
              var done := RunFrames(stale, [Encode(m)], junk).handled;
              Serve(b.tables, m, answers(n)) == Served(HandleFrom(b, done, n, answers).tables, RepliesTo(done))
  {
    hide Encode, CutText, TablesAfter, PutsBy, ReplyTo, Dispatch, DispatchSafe, TextArrives, NextStale;
    RunFramesNone(stale, junk);
    RunFramesSnoc(stale, [], Encode(m), junk);
    assert [] + [Encode(m)] == [Encode(m)];
    DispatchExact(m, stale, junk);
    assert [] + Dispatch(Encode(m), stale, junk) == Dispatch(Encode(m), stale, junk);
    HandleFromNone(b, n, answers);
    HandleFromOne(b, CutText(m), n, answers);
    OnTheLineOne(CutText(m));
  }

  predicate OwnId(uc: Uc, id: Int32) {
    id == uc.uptime || id == uc.latency
  }

  /** A step that is not possible in a state changes nothing. */
  function Next(s: State, step: Step): State {
    match step
    case KeepAlive(now) =>
      var r := OnKeepAlive(s.uc, now);
      s.(uc := r.uc, up := s.up + r.sent)
    case ConnectTick(now) => s.(uc := OnConnectTimer(s.uc, now))
    case UcReceive(now, later, stale) =>
      if s.down == [] then s
      else
        var r := OnMessage(s.uc, s.down[0], now, later, stale);
        s.(uc := r.uc, up := s.up + r.sent, down := s.down[1..])
    case ProxyReceive(ok) =>
      if s.up == [] then s
      else
        var r := Serve(s.tables, s.up[0], ok);
        s.(tables := r.tables, up := s.up[1..], down := s.down + r.replies)
    case Sample(id, value) =>
      if id in s.tables.subs && |Encode(Publish(id, value))| <= PROXY_CAPACITY then
        s.(down := s.down + [Publish(id, value)])
      else s
    case AppPublish(id, value) =>
      if !OwnId(s.uc, id) && |Encode(Publish(id, value))| <= UC_CAPACITY then
        s.(up := s.up + [Publish(id, value)])
      else s
    case LoseUp(i) => s.(up := Without(s.up, i))
    case LoseDown(i) => s.(down := Without(s.down, i))
    case ProxyDisconnect => s.(tables := EMPTY)
  }

  function Exec(s: State, steps: seq<Step>): State {
    if steps == [] then s else Next(Exec(s, steps[..|steps| - 1]), steps[|steps| - 1])
  }

  // ---- What the proxy should know ----

  function KeyMap(rs: seq<Resource>): map<Int32, Blob> {
    if rs == [] then map[] else KeyMap(rs[..|rs| - 1])[rs[|rs| - 1].id := rs[|rs| - 1].key]
  }

  /** The tables a proxy has when it knows all of the microcontroller's resources and nothing else. */
  function TablesOf(uc: Uc): Tables {
    Tables(KeyMap(uc.subs), KeyMap(uc.pubs))
  }

  lemma UniqueInit(init: seq<Resource>, last: Resource)
    requires UniqueIds(init + [last])
    ensures UniqueIds(init) && !HasId(init, last.id)
  {
    var rs := init + [last];
    assert forall i :: 0 <= i < |init| ==> rs[i] == init[i];
    assert rs[|init|] == last;
  }

  lemma {:induction false} KeyMapExact(rs: seq<Resource>, id: Int32, key: Blob)
    requires UniqueIds(rs)
    ensures id in KeyMap(rs) && KeyMap(rs)[id] == key <==> Resource(id, key) in rs
  {
    hide UniqueIds;
    if rs != [] {
      var init, last := rs[..|rs| - 1], rs[|rs| - 1];
      assert rs == init + [last];
      UniqueInit(init, last);
      KeyMapExact(init, id, key);
      assert Resource(id, key) in rs <==> Resource(id, key) in init || Resource(id, key) == last;
      assert id == last.id ==> Resource(id, key) !in init;
    }
  }

  lemma {:induction false} KeyMapIds(rs: seq<Resource>, id: Int32)
    ensures id in KeyMap(rs) <==> HasId(rs, id)
  {
    if rs != [] {
      var init, last := rs[..|rs| - 1], rs[|rs| - 1];
      KeyMapIds(init, id);
      assert rs == init + [last];
      assert last in rs;
    }
  }

  ghost predicate Within(part: map<Int32, Blob>, whole: map<Int32, Blob>) {
    forall id :: id in part ==> id in whole && part[id] == whole[id]
  }

  lemma WithinBoth(a: map<Int32, Blob>, b: map<Int32, Blob>)
    requires Within(a, b) && Within(b, a)
    ensures a == b
  {
    assert a.Keys == b.Keys;
  }

  ghost predicate Entry(t: map<Int32, Blob>, id: Int32, key: Blob) {
    id in t && t[id] == key
  }

  /** A message on its way up that fits the sender's buffer and does not mislead the proxy. */
  ghost predicate Honest(known: Tables, m: Msg) {
    && |Encode(m)| <= UC_CAPACITY
    && match m
       case Subscriber(id, topic) => Entry(known.subs, id, topic) && 0 !in topic
       case Publisher(id, topic) => Entry(known.pubs, id, topic) && 0 !in topic
       case Disconnect => false
       case _ => true
  }

  ghost predicate AllHonest(known: Tables, q: seq<Msg>) {
    forall i :: 0 <= i < |q| ==> Honest(known, q[i])
  }

  /** Every entry of the proxy's tables is the microcontroller's own, and so is every declaration on its way. */
  ghost predicate Agreed(s: State) {
    && Within(s.tables.subs, TablesOf(s.uc).subs) && Within(s.tables.pubs, TablesOf(s.uc).pubs)
    && AllHonest(TablesOf(s.uc), s.up)
  }

  /** Neither events nor messages touch the microcontroller's tables. */
  predicate SameResources(a: Uc, b: Uc) {
    a.subs == b.subs && a.pubs == b.pubs && a.uptime == b.uptime && a.latency == b.latency
  }

  // ---- Agreement ----

  lemma HonestFits(known: Tables, m: Msg)
    requires Honest(known, m)
    ensures TextArrives(m, PROXY_CAPACITY)
    ensures m.Subscriber? || m.Publisher? ==> CutText(m) == m
  {
    hide Encode, CutText;
    CutTextIff(m);
  }

  lemma ServeEffect(known: Tables, t: Tables, m: Msg, ok: bool)
    requires Honest(known, m)
    ensures m.Subscriber? ==> Serve(t, m, ok) == Served(WithSubscriber(t, m.id, m.topic, ok), [])
    ensures m.Publisher? ==> Serve(t, m, ok) == Served(WithPublisher(t, m.id, m.topic), [])
    ensures m.Publish? ==> Serve(t, m, ok) == Served(t, [])
    ensures m.Connect? ==> Serve(t, m, ok) == Served(t, [Connect(CONNECTED)])
  {
    hide Encode, WithSubscriber, WithPublisher;
    HonestFits(known, m);
  }

  lemma {:induction false} AnnouncementsHonest(uc: Uc)
    requires WellFormed(uc)
    ensures AllHonest(TablesOf(uc), Announcements(uc))
  {
    hide KeyMap, Encode;
    var q := Announcements(uc);
    forall i | 0 <= i < |q|
      ensures Honest(TablesOf(uc), q[i])
    {
      if i < |uc.subs| {
        assert uc.subs[i] in uc.subs && q[i] == SubscriberOf(uc.subs[i]);
        KeyMapExact(uc.subs, uc.subs[i].id, uc.subs[i].key);
        DeclarationFits(uc.subs[i]);
      } else {
        var pub := uc.pubs[i - |uc.subs|];
        assert pub in uc.pubs && q[i] == PublisherOf(pub);
        KeyMapExact(uc.pubs, pub.id, pub.key);
      }
    }
  }

  /** What the microcontroller sends on an event of its own, or on a message. */
  lemma Reactions(uc: Uc, m: Msg, now: UInt64, later: UInt64, stale: UInt64)
    ensures SameResources(OnMessage(uc, m, now, later, stale).uc, uc)
    ensures m.Connect? ==> OnMessage(uc, m, now, later, stale).sent == Announcements(uc)
    ensures !m.Connect? ==>
              var sent := OnMessage(uc, m, now, later, stale).sent;
              sent == [] ||
              (m.Publish? && |Encode(m)| <= UC_CAPACITY && |sent| == 1 && sent[0].Publish? && sent[0].id == uc.latency &&
               |Encode(sent[0])| <= UC_CAPACITY)
    ensures m.Publish? && |Encode(m)| <= UC_CAPACITY ==> OnMessage(uc, m, now, later, stale).sent != []
    ensures OnMessage(uc, m, now, later, stale).uc.connected == (uc.connected || m.Connect?)
  {
    hide Encode, EncodeValue, DecodeValue, Announcements;
    if m.Publish? {
      ValueMessageFits(uc.latency, Minus64(now, DecodeValue(m.value, stale)));
    }
  }

  lemma AgreedNext(s: State, step: Step)
    requires WellFormed(s.uc) && Agreed(s)
    ensures Agreed(Next(s, step)) && SameResources(Next(s, step).uc, s.uc)
  {
    hide Encode, EncodeValue, KeyMap, Serve, OnMessage, Announcements, WellFormed;
    match step
    case KeepAlive(now) =>
      ConnectFits();
      ValueMessageFits(s.uc.uptime, now);
    case UcReceive(now, later, stale) =>
      if s.down != [] {
        Reactions(s.uc, s.down[0], now, later, stale);
        AnnouncementsHonest(s.uc);
      }
    case ProxyReceive(ok) =>
      if s.up != [] {
        ServeEffect(TablesOf(s.uc), s.tables, s.up[0], ok);
      }
    case _ =>
  }

  /** Over every run, with loss both ways, refusals and disconnects, the proxy only knows true entries. */
  lemma {:induction false} Agreement(s: State, steps: seq<Step>)
    requires WellFormed(s.uc) && Agreed(s)
    ensures Agreed(Exec(s, steps)) && SameResources(Exec(s, steps).uc, s.uc)
  {
    hide Agreed, Next, WellFormed;
    if steps != [] {
      var before := Exec(s, steps[..|steps| - 1]);
      Agreement(s, steps[..|steps| - 1]);
      SameWellFormed(before.uc, s.uc);
      AgreedNext(before, steps[|steps| - 1]);
    }
  }

  lemma SameWellFormed(a: Uc, b: Uc)
    requires SameResources(a, b)
    ensures WellFormed(a) <==> WellFormed(b)
    ensures TablesOf(a) == TablesOf(b) && Announcements(a) == Announcements(b)
  {
  }

  // ---- Convergence ----

  /** The first `before` messages of the queue, and `left` declarations of a burst behind them. */
  datatype Window = Window(before: nat, left: nat)

  /** The window after one step: the queue moves under it, the front first. */
  function Slide(w: Window, s: State, step: Step): Window {
    if step.ProxyReceive? && s.up != [] then
      if w.before > 0 then w.(before := w.before - 1) else if w.left > 0 then w.(left := w.left - 1) else w
    else if step.LoseUp? && step.i < w.before then w.(before := w.before - 1)
    else w
  }

  function Track(w: Window, s: State, steps: seq<Step>): Window {
    if steps == [] then w
    else
      var init := steps[..|steps| - 1];
      Slide(Track(w, s, init), Exec(s, init), steps[|steps| - 1])
  }

  /**
   The proxy does not disconnect halfway through the burst, the library refuses none of its
   subscribers, and the link loses none of it.
   */
  predicate Benign(w: Window, s: State, step: Step) {
    && (step.ProxyDisconnect? ==> w.left == |s.uc.subs| + |s.uc.pubs|)
    && (step == ProxyReceive(false) && w.before == 0 < w.left ==> s.up == [] || !s.up[0].Subscriber?)
    && (step.LoseUp? ==> !(w.before <= step.i < w.before + w.left))
  }

  predicate Smooth(w: Window, s: State, steps: seq<Step>) {
    steps == [] ||
    var init := steps[..|steps| - 1];
    Smooth(w, s, init) && Benign(Track(w, s, init), Exec(s, init), steps[|steps| - 1])
  }

  ghost predicate Known(t: Tables, m: Msg) {
    match m
    case Subscriber(id, _) => id in t.subs
    case Publisher(id, _) => id in t.pubs
    case _ => true
  }

  /** The last `w.left` of `burst` are in the queue behind `w.before` messages, the rest the proxy knows. */
  ghost predicate Halfway(s: State, burst: seq<Msg>, w: Window) {
    && w.before + w.left <= |s.up| && w.left <= |burst|
    && s.up[w.before..w.before + w.left] == burst[|burst| - w.left..]
    && (forall k :: 0 <= k < |burst| - w.left ==> Known(s.tables, burst[k]))
  }

  predicate Grows(a: Tables, b: Tables) {
    a.subs.Keys <= b.subs.Keys && a.pubs.Keys <= b.pubs.Keys
  }

  lemma TablesGrow(s: State, step: Step)
    requires WellFormed(s.uc) && Agreed(s) && !step.ProxyDisconnect?
    ensures Grows(s.tables, Next(s, step).tables)
    ensures step.ProxyReceive? && s.up != [] && (step.ok || !s.up[0].Subscriber?) ==>
              Known(Next(s, step).tables, s.up[0])
  {
    hide Encode, EncodeValue, KeyMap, Serve, OnMessage, Announcements, WellFormed;
    if step.ProxyReceive? && s.up != [] {
      ServeEffect(TablesOf(s.uc), s.tables, s.up[0], step.ok);
    }
  }

  /** How the queue up changes: at the front, at a loss, or at the end. */
  lemma QueueMoves(s: State, step: Step)
    ensures var q := Next(s, step).up;
            if step.ProxyReceive? then q == if s.up == [] then [] else s.up[1..]
            else if step.LoseUp? then q == Without(s.up, step.i)
            else |s.up| <= |q| && q[..|s.up|] == s.up
  {
    hide Encode, EncodeValue, Serve, OnMessage, OnKeepAlive;
  }

  /** Whatever the burst has lost to the window, the proxy knows. */
  lemma BurstKnown(s: State, burst: seq<Msg>, w: Window, step: Step)
    requires WellFormed(s.uc) && Agreed(s) && Halfway(s, burst, w) && Benign(w, s, step)
    requires |burst| == |s.uc.subs| + |s.uc.pubs|
    ensures forall k :: 0 <= k < |burst| - Slide(w, s, step).left ==> Known(Next(s, step).tables, burst[k])
  {
    hide Next, Agreed, WellFormed, Encode, Without;
    if !step.ProxyDisconnect? {
      TablesGrow(s, step);
      var v := Slide(w, s, step);
      if v.left < w.left {
        assert s.up[0] == s.up[..w.left][0] == burst[|burst| - w.left..][0] == burst[|burst| - w.left];
      }
      forall k | 0 <= k < |burst| - v.left
        ensures Known(Next(s, step).tables, burst[k])
      {
        assert k < |burst| - w.left || burst[k] == s.up[0];
      }
    }
  }

  lemma BurstQueued(s: State, burst: seq<Msg>, w: Window, step: Step)
    requires Halfway(s, burst, w) && Benign(w, s, step)
    ensures var t, v := Next(s, step), Slide(w, s, step);
            v.before + v.left <= |t.up| && v.left <= |burst| &&
            t.up[v.before..v.before + v.left] == burst[|burst| - v.left..]
  {
    hide Next, Encode, Without, Known;
    QueueMoves(s, step);
    var v := Slide(w, s, step);
    if step.LoseUp? {
      WindowSpared(s.up, step.i, w.before, w.left);
    } else if step.ProxyReceive? {
      WindowPopped(s.up, w.before, w.left);
      if v.left < w.left {
        TailOfTail(burst, w.left);
      }
    } else {
      QueueGrows(s.up, Next(s, step).up, w.before, w.left);
    }
  }

  lemma HalfwayNext(s: State, burst: seq<Msg>, w: Window, step: Step)
    requires WellFormed(s.uc) && Agreed(s) && Halfway(s, burst, w) && Benign(w, s, step)
    requires |burst| == |s.uc.subs| + |s.uc.pubs|
    ensures Halfway(Next(s, step), burst, Slide(w, s, step))
  {
    hide Next, Agreed, WellFormed, Slide, Benign, Known;
    BurstKnown(s, burst, w, step);
    BurstQueued(s, burst, w, step);
  }

  lemma {:induction false} HalfwayAlong(s: State, burst: seq<Msg>, w: Window, steps: seq<Step>)
    requires WellFormed(s.uc) && Agreed(s) && Halfway(s, burst, w) && Smooth(w, s, steps)
    requires |burst| == |s.uc.subs| + |s.uc.pubs|
    ensures Halfway(Exec(s, steps), burst, Track(w, s, steps))
  {
    hide Next, Agreed, WellFormed, Encode, Halfway, Slide, Benign;
    if steps != [] {
      var init := steps[..|steps| - 1];
      var before := Exec(s, init);
      HalfwayAlong(s, burst, w, init);
      Agreement(s, init);
      SameWellFormed(before.uc, s.uc);
      HalfwayNext(before, burst, Track(w, s, init), steps[|steps| - 1]);
    }
  }

  lemma AllKnown(s: State, w: Window)
    requires WellFormed(s.uc) && Agreed(s) && Halfway(s, Announcements(s.uc), w) && w.left == 0
    ensures s.tables == TablesOf(s.uc)
  {
    hide Honest, Encode;
    var uc, q := s.uc, Announcements(s.uc);
    forall id | id in TablesOf(uc).subs
      ensures id in s.tables.subs
    {
      KeyMapIds(uc.subs, id);
      var i :| 0 <= i < |uc.subs| && uc.subs[i].id == id;
      assert q[i] == SubscriberOf(uc.subs[i]);
    }
    forall id | id in TablesOf(uc).pubs
      ensures id in s.tables.pubs
    {
      KeyMapIds(uc.pubs, id);
      var i :| 0 <= i < |uc.pubs| && uc.pubs[i].id == id;
      assert q[|uc.subs| + i] == PublisherOf(uc.pubs[i]);
    }
    WithinBoth(s.tables.subs, TablesOf(uc).subs);
    WithinBoth(s.tables.pubs, TablesOf(uc).pubs);
  }

  /** The burst the microcontroller has just put behind the rest of its queue. */
  function BurstOf(s: State): Window {
    Window(|s.up|, |s.uc.subs| + |s.uc.pubs|)
  }

  /**
   Once all declarations sent for one connect reply are consumed, with no disconnect in between, no
   refusal and no loss among them, the proxy's tables are the microcontroller's: whatever else
   happens meanwhile, further replies, losses elsewhere and lost answers included.
   */
  lemma Convergence(s: State, now: UInt64, later: UInt64, stale: UInt64, steps: seq<Step>)
    requires WellFormed(s.uc) && Agreed(s) && s.down != [] && s.down[0].Connect?
    requires var answered := Next(s, UcReceive(now, later, stale)); Smooth(BurstOf(s), answered, steps)
    ensures var answered := Next(s, UcReceive(now, later, stale));
            Track(BurstOf(s), answered, steps).left == 0 ==> Exec(answered, steps).tables == TablesOf(s.uc)
  {
    hide Agreed, WellFormed, Encode, Smooth, Exec, Track, TablesOf, OnPublish;
    var answered, w, burst := Next(s, UcReceive(now, later, stale)), BurstOf(s), Announcements(s.uc);
    AgreedNext(s, UcReceive(now, later, stale));
    SameWellFormed(answered.uc, s.uc);
    assert Halfway(answered, burst, w);
    HalfwayAlong(answered, burst, w, steps);
    Agreement(answered, steps);
    SameWellFormed(Exec(answered, steps).uc, s.uc);
    if Track(w, answered, steps).left == 0 {
      AllKnown(Exec(answered, steps), Track(w, answered, steps));
    }
  }

  /** Only a disconnect of the proxy undoes it: loss, refusals and repeated declarations do not. */
  lemma {:induction false} StaysConverged(s: State, steps: seq<Step>)
    requires WellFormed(s.uc) && Agreed(s) && s.tables == TablesOf(s.uc)
    requires ProxyDisconnect !in steps
    ensures Exec(s, steps).tables == TablesOf(s.uc)
  {
    hide Agreed, WellFormed, Encode, Next, TablesOf;
    if steps != [] {
      var init, last := steps[..|steps| - 1], steps[|steps| - 1];
      var before := Exec(s, init);
      StaysConverged(s, init);
      Agreement(s, init);
      SameWellFormed(before.uc, s.uc);
      AgreedNext(before, last);
      TablesGrow(before, last);
      SameWellFormed(Next(before, last).uc, before.uc);
      GrownIsWhole(before.tables, Next(before, last));
    }
  }

  lemma GrownIsWhole(t: Tables, s: State)
    requires t == TablesOf(s.uc) && Grows(t, s.tables) && Agreed(s)
    ensures s.tables == t
  {
    hide KeyMap, AllHonest;
    assert s.tables.subs.Keys == t.subs.Keys && s.tables.pubs.Keys == t.pubs.Keys;
    WithinBoth(s.tables.subs, t.subs);
    WithinBoth(s.tables.pubs, t.pubs);
  }

  // ---- Declare before publish ----

  /** The ids of the uptime and latency publishers this message declares. */
  function Declares(uc: Uc, m: Msg): set<Int32> {
    if m.Publisher? && OwnId(uc, m.id) then {m.id} else {}
  }

  /** Ids known once the queue is consumed, if `known` are known already. */
  function After(uc: Uc, known: set<Int32>, q: seq<Msg>): set<Int32>
    decreases q
  {
    if q == [] then known else After(uc, known + Declares(uc, q[0]), q[1..])
  }

  /** Every uptime or latency publish in the queue comes when its id is known. */
  predicate Ordered(uc: Uc, known: set<Int32>, q: seq<Msg>)
    decreases q
  {
    q == [] ||
    ((q[0].Publish? && OwnId(uc, q[0].id) ==> q[0].id in known) && Ordered(uc, known + Declares(uc, q[0]), q[1..]))
  }

  lemma {:induction false} OrderedAppend(uc: Uc, known: set<Int32>, q: seq<Msg>, r: seq<Msg>)
    ensures After(uc, known, q + r) == After(uc, After(uc, known, q), r)
    ensures Ordered(uc, known, q + r) <==> Ordered(uc, known, q) && Ordered(uc, After(uc, known, q), r)
    decreases q
  {
    if q == [] {
      assert q + r == r;
    } else {
      OrderedAppend(uc, known + Declares(uc, q[0]), q[1..], r);
      assert (q + r)[1..] == q[1..] + r;
    }
  }

  lemma {:induction false} OrderedGrows(uc: Uc, known: set<Int32>, more: set<Int32>, q: seq<Msg>)
    requires known <= more
    ensures known <= After(uc, known, q) <= After(uc, more, q)
    ensures Ordered(uc, known, q) ==> Ordered(uc, more, q)
    decreases q
  {
    if q != [] {
      OrderedGrows(uc, known + Declares(uc, q[0]), more + Declares(uc, q[0]), q[1..]);
    }
  }

  lemma OrderedOne(uc: Uc, known: set<Int32>, m: Msg)
    ensures After(uc, known, [m]) == known + Declares(uc, m)
    ensures Declares(uc, m) == {} ==> After(uc, known, [m]) == known
    ensures Ordered(uc, known, [m]) <==> m.Publish? && OwnId(uc, m.id) ==> m.id in known
  {
    assert [m][1..] == [];
  }

  lemma OrderedWithout(uc: Uc, known: set<Int32>, q: seq<Msg>, i: nat)
    requires Ordered(uc, known, q) && (i < |q| ==> Declares(uc, q[i]) == {})
    ensures Ordered(uc, known, Without(q, i)) && After(uc, known, Without(q, i)) == After(uc, known, q)
  {
    hide After, Ordered, Declares;
    if i < |q| {
      var a, m, b := q[..i], q[i], q[i + 1..];
      assert q == a + ([m] + b);
      OrderedAppend(uc, known, a, [m] + b);
      OrderedAppend(uc, After(uc, known, a), [m], b);
      OrderedOne(uc, After(uc, known, a), m);
      OrderedAppend(uc, known, a, b);
    }
  }

  lemma {:induction false} AnnouncementsKnown(uc: Uc, known: set<Int32>, q: seq<Msg>, id: Int32)
    requires forall i :: 0 <= i < |q| ==> q[i].Subscriber? || q[i].Publisher?
    ensures Ordered(uc, known, q)
    ensures OwnId(uc, id) && (exists i :: 0 <= i < |q| && q[i].Publisher? && q[i].id == id) ==> id in After(uc, known, q)
    decreases q
  {
    if q != [] {
      var more := known + Declares(uc, q[0]);
      AnnouncementsKnown(uc, more, q[1..], id);
      OrderedGrows(uc, more, more, q[1..]);
      assert forall i :: 0 < i < |q| ==> q[i] == q[1..][i - 1];
    }
  }

  lemma AnnouncementsDeclare(uc: Uc, known: set<Int32>)
    requires WellFormed(uc)
    ensures Ordered(uc, known, Announcements(uc))
    ensures {uc.uptime, uc.latency} <= After(uc, known, Announcements(uc))
  {
    hide After, Ordered, UniqueIds, Declarable, Encode;
    var q := Announcements(uc);
    forall id | id in {uc.uptime, uc.latency}
      ensures id in After(uc, known, q)
    {
      AnnouncementsKnown(uc, known, q, id);
      assert HasId(uc.pubs, id);
      var i :| 0 <= i < |uc.pubs| && uc.pubs[i].id == id;
      assert q[|uc.subs| + i] == PublisherOf(uc.pubs[i]);
    }
    AnnouncementsKnown(uc, known, q, uc.uptime);
  }

  /** Own ids the proxy knows or is about to hear of. */
  function Coming(s: State): set<Int32> {
    After(s.uc, s.tables.pubs.Keys, s.up)
  }

  /** Something is about that can make the microcontroller report a latency. */
  ghost predicate Voiced(s: State) {
    || s.tables.subs != map[]
    || (exists i :: 0 <= i < |s.down| && s.down[i].Publish? && |Encode(s.down[i])| <= UC_CAPACITY)
    || (exists i :: 0 <= i < |s.up| && s.up[i].Subscriber?)
  }

  /**
   Own publishes in the queue come when their ids are known, and an id is known or on its way as soon
   as anything can lead to another publish under it.
   */
  ghost predicate Prepared(s: State) {
    && Ordered(s.uc, s.tables.pubs.Keys, s.up)
    && (s.uc.connected ==> s.uc.uptime in Coming(s))
    && (Voiced(s) ==> s.uc.latency in Coming(s))
  }

  /** The proxy does not disconnect, and the declarations of the two own publishers are not lost. */
  predicate Careful(s: State, step: Step) {
    !step.ProxyDisconnect? && (step.LoseUp? && step.i < |s.up| ==> Declares(s.uc, s.up[step.i]) == {})
  }

  predicate AllCareful(s: State, steps: seq<Step>) {
    steps == [] ||
    (AllCareful(s, steps[..|steps| - 1]) && Careful(Exec(s, steps[..|steps| - 1]), steps[|steps| - 1]))
  }

  /** Power-up on both sides. */
  predicate Initial(s: State) {
    !s.uc.connected && s.tables == EMPTY && s.up == [] && s.down == []
  }

  lemma PreparedUp(s: State, q: seq<Msg>)
    requires Ordered(s.uc, s.tables.pubs.Keys, s.up) && Ordered(s.uc, Coming(s), q)
    ensures var t := s.(up := s.up + q); Ordered(t.uc, t.tables.pubs.Keys, t.up) && Coming(s) <= Coming(t)
  {
    OrderedAppend(s.uc, s.tables.pubs.Keys, s.up, q);
    OrderedGrows(s.uc, Coming(s), Coming(s), q);
  }

  /** Only what the resources are called matters. */
  lemma {:induction false} OrderedSame(a: Uc, b: Uc, known: set<Int32>, q: seq<Msg>)
    requires SameResources(a, b)
    ensures Ordered(a, known, q) <==> Ordered(b, known, q)
    ensures After(a, known, q) == After(b, known, q)
    decreases q
  {
    if q != [] {
      OrderedSame(a, b, known + Declares(b, q[0]), q[1..]);
    }
  }

  lemma PreparedKeepAlive(s: State, now: UInt64)
    requires Prepared(s)
    ensures Prepared(Next(s, KeepAlive(now)))
  {
    hide After, Ordered, EncodeValue, Encode;
    var sent := OnKeepAlive(s.uc, now).sent;
    OrderedOne(s.uc, Coming(s), sent[0]);
    PreparedUp(s, sent);
    var t := Next(s, KeepAlive(now));
    assert t.up == s.up + sent && !sent[0].Subscriber?;
  }

  lemma PreparedUcReceive(s: State, now: UInt64, later: UInt64, stale: UInt64)
    requires WellFormed(s.uc) && Prepared(s) && s.down != []
    ensures Prepared(Next(s, UcReceive(now, later, stale)))
  {
    hide After, Ordered, OnMessage, Announcements, WellFormed, Declares, Encode;
    var m := s.down[0];
    var r := OnMessage(s.uc, m, now, later, stale);
    var t := Next(s, UcReceive(now, later, stale));
    Reactions(s.uc, m, now, later, stale);
    OrderedSame(r.uc, s.uc, s.tables.pubs.Keys, t.up);
    if m.Connect? {
      AnnouncementsDeclare(s.uc, Coming(s));
      OrderedAppend(s.uc, s.tables.pubs.Keys, s.up, r.sent);
    } else {
      assert Voiced(t) ==> Voiced(s) by {
        assert forall i :: 0 <= i < |t.down| ==> t.down[i] == s.down[i + 1];
        assert forall i :: 0 <= i < |t.up| && t.up[i].Subscriber? ==> i < |s.up| && s.up[i].Subscriber?;
      }
      if r.sent == [] {
        assert t.up == s.up;
      } else {
        assert Voiced(s);
        assert r.sent == [r.sent[0]];
        OrderedOne(s.uc, Coming(s), r.sent[0]);
        PreparedUp(s, r.sent);
      }
    }
  }

  /** Serving a message makes its declaration known, and no other own id. */
  lemma OwnIdsServed(s: State, ok: bool, id: Int32)
    requires Agreed(s) && s.up != [] && OwnId(s.uc, id)
    ensures var t := Next(s, ProxyReceive(ok));
            id in t.tables.pubs <==> id in s.tables.pubs.Keys + Declares(s.uc, s.up[0])
  {
    hide Serve, Encode;
    ServeEffect(TablesOf(s.uc), s.tables, s.up[0], ok);
  }

  /** Only the own ids among the known ones matter. */
  lemma {:induction false} OrderedOwn(uc: Uc, known: set<Int32>, more: set<Int32>, q: seq<Msg>)
    requires forall id :: OwnId(uc, id) ==> (id in known <==> id in more)
    ensures Ordered(uc, known, q) <==> Ordered(uc, more, q)
    ensures forall id :: OwnId(uc, id) ==> (id in After(uc, known, q) <==> id in After(uc, more, q))
    decreases q
  {
    if q != [] {
      OrderedOwn(uc, known + Declares(uc, q[0]), more + Declares(uc, q[0]), q[1..]);
    }
  }

  /** Taking the head of the queue changes nothing about what is to come, and fails only at the head. */
  lemma ServedComing(s: State, ok: bool)
    requires Agreed(s) && s.up != []
    ensures var t := Next(s, ProxyReceive(ok));
            (s.uc.uptime in Coming(t) <==> s.uc.uptime in Coming(s)) &&
            (s.uc.latency in Coming(t) <==> s.uc.latency in Coming(s)) &&
            (Ordered(s.uc, s.tables.pubs.Keys, s.up) <==>
             !UnknownNext(s) && Ordered(t.uc, t.tables.pubs.Keys, t.up))
  {
    hide Serve, Encode;
    var t := Next(s, ProxyReceive(ok));
    var known := s.tables.pubs.Keys + Declares(s.uc, s.up[0]);
    forall id | OwnId(s.uc, id)
      ensures id in known <==> id in t.tables.pubs.Keys
    {
      OwnIdsServed(s, ok, id);
    }
    OrderedOwn(s.uc, known, t.tables.pubs.Keys, t.up);
  }

  lemma StillSilent(s: State, ok: bool)
    requires Agreed(s) && s.up != [] && Voiced(Next(s, ProxyReceive(ok)))
    ensures Voiced(s)
  {
    hide Serve, Encode;
    var t := Next(s, ProxyReceive(ok));
    ServeEffect(TablesOf(s.uc), s.tables, s.up[0], ok);
    assert forall i :: 0 <= i < |t.up| ==> t.up[i] == s.up[i + 1];
    assert t.tables.subs == s.tables.subs || s.up[0].Subscriber?;
    assert forall i :: 0 <= i < |t.down| && t.down[i].Publish? ==> i < |s.down| && t.down[i] == s.down[i];
  }

  lemma PreparedProxyReceive(s: State, ok: bool)
    requires Agreed(s) && Prepared(s) && s.up != []
    ensures Prepared(Next(s, ProxyReceive(ok)))
  {
    hide Serve, Encode, Voiced, After, Ordered;
    ServedComing(s, ok);
    if Voiced(Next(s, ProxyReceive(ok))) {
      StillSilent(s, ok);
    }
  }

  lemma PreparedLosses(s: State, i: nat)
    requires Prepared(s)
    ensures Careful(s, LoseUp(i)) ==> Prepared(Next(s, LoseUp(i)))
    ensures Prepared(Next(s, LoseDown(i)))
  {
    hide After, Ordered, Declares, Encode;
    var up, down := Without(s.up, i), Without(s.down, i);
    assert forall k :: 0 <= k < |up| ==> up[k] == s.up[if k < i then k else k + 1];
    assert forall k :: 0 <= k < |down| ==> down[k] == s.down[if k < i then k else k + 1];
    if Careful(s, LoseUp(i)) {
      OrderedWithout(s.uc, s.tables.pubs.Keys, s.up, i);
    }
  }

  lemma PreparedAppPublish(s: State, id: Int32, value: Blob)
    requires Prepared(s)
    ensures Prepared(Next(s, AppPublish(id, value)))
  {
    hide After, Ordered, Encode;
    var m := Publish(id, value);
    if !OwnId(s.uc, id) {
      OrderedOne(s.uc, Coming(s), m);
      PreparedUp(s, [m]);
    }
  }

  lemma PreparedSample(s: State, id: Int32, value: Blob)
    requires Prepared(s)
    ensures Prepared(Next(s, Sample(id, value)))
  {
    hide After, Ordered, Encode;
  }

  lemma PreparedNext(s: State, step: Step)
    requires WellFormed(s.uc) && Agreed(s) && Prepared(s) && Careful(s, step)
    ensures Prepared(Next(s, step))
  {
    hide Prepared, Agreed, WellFormed, Encode;
    match step
    case KeepAlive(now) => PreparedKeepAlive(s, now);
    case ConnectTick(now) => PreparedTick(s, now);
    case UcReceive(now, later, stale) =>
      if s.down != [] {
        PreparedUcReceive(s, now, later, stale);
      }
    case ProxyReceive(ok) =>
      if s.up != [] {
        PreparedProxyReceive(s, ok);
      }
    case Sample(id, value) => PreparedSample(s, id, value);
    case AppPublish(id, value) => PreparedAppPublish(s, id, value);
    case LoseUp(i) => PreparedLosses(s, i);
    case LoseDown(i) => PreparedLosses(s, i);
    case ProxyDisconnect =>
  }

  lemma PreparedTick(s: State, now: UInt64)
    requires Prepared(s)
    ensures Prepared(Next(s, ConnectTick(now)))
  {
    var t := Next(s, ConnectTick(now));
    OrderedSame(t.uc, s.uc, s.tables.pubs.Keys, s.up);
  }

  lemma {:induction false} StaysPrepared(s: State, steps: seq<Step>)
    requires WellFormed(s.uc) && Agreed(s) && Prepared(s) && AllCareful(s, steps)
    ensures Prepared(Exec(s, steps))
  {
    hide Prepared, Agreed, WellFormed, Next, Careful;
    if steps != [] {
      var init := steps[..|steps| - 1];
      StaysPrepared(s, init);
      Agreement(s, init);
      SameWellFormed(Exec(s, init).uc, s.uc);
      PreparedNext(Exec(s, init), steps[|steps| - 1]);
    }
  }

  lemma InitialReady(s: State)
    requires Initial(s)
    ensures Agreed(s) && Prepared(s)
  {
  }

  /** The publish at the head of the queue up is an uptime or a latency. */
  predicate OwnPublishNext(s: State) {
    s.up != [] && s.up[0].Publish? && OwnId(s.uc, s.up[0].id)
  }

  /** The publish at the head of the queue up meets the proxy's answer ENOENT. */
  predicate UnknownNext(s: State) {
    OwnPublishNext(s) && s.up[0].id !in s.tables.pubs
  }

  /**
   From power-up, whatever is lost on the way down and whatever else is lost on the way up, refused
   or repeated: an uptime or latency publish is only handled when its publisher is known.
   */
  lemma DeclareBeforePublish(s: State, steps: seq<Step>)
    requires WellFormed(s.uc) && Initial(s) && AllCareful(s, steps)
    ensures !UnknownNext(Exec(s, steps))
  {
    hide WellFormed, Next, Agreed, AllCareful, Exec, Prepared, UnknownNext;
    InitialReady(s);
    StaysPrepared(s, steps);
    PreparedKnows(Exec(s, steps));
  }

  /**
   So over every such run, when the proxy's filters and handlers get the frame of an uptime or latency
   publish, its value is written to the network, once, under the microcontroller's own key for that id.
   */
  lemma OwnPublishesWritten(s: State, steps: seq<Step>, b: Book, stale: Filters, junk: Int32, n: nat, answers: nat -> bool)
    requires WellFormed(s.uc) && Initial(s) && AllCareful(s, steps)
    requires OwnPublishNext(Exec(s, steps)) && b.tables == Exec(s, steps).tables
    ensures var m := Exec(s, steps).up[0];
            var handled := RunFrames(stale, [Encode(m)], junk).handled;
            exists key :: Resource(m.id, key) in s.uc.pubs &&
                          HandleFrom(b, handled, n, answers) == b.(puts := b.puts + [Put(b.open, key, m.value)])
  {
    hide Agreed, AllCareful, Exec, Next, UnknownNext, Encode, RunFrames, HandleFrom, KeyMap, UniqueIds, Declarable;
    InitialReady(s);
    DeclareBeforePublish(s, steps);
    Agreement(s, steps);
    OwnPublishServed(Exec(s, steps), b, stale, junk, n, answers);
    var t := Exec(s, steps);
    SameWellFormed(t.uc, s.uc);
  }

  lemma OwnPublishServed(t: State, b: Book, stale: Filters, junk: Int32, n: nat, answers: nat -> bool)
    requires Agreed(t) && OwnPublishNext(t) && !UnknownNext(t) && b.tables == t.tables && UniqueIds(t.uc.pubs)
    ensures var m := t.up[0];
            var handled := RunFrames(stale, [Encode(m)], junk).handled;
            m.id in t.tables.pubs && Resource(m.id, t.tables.pubs[m.id]) in t.uc.pubs &&
            HandleFrom(b, handled, n, answers) == b.(puts := b.puts + [Put(b.open, t.tables.pubs[m.id], m.value)])
  {
    hide Encode, Dispatch, DispatchSafe, NextStale, KeyMap, UniqueIds;
    var m := t.up[0];
    HeadHonest(t);
    HonestFits(TablesOf(t.uc), m);
    KeyMapExact(t.uc.pubs, m.id, t.tables.pubs[m.id]);
    RunFramesNone(stale, junk);
    RunFramesSnoc(stale, [], Encode(m), junk);
    assert [] + [Encode(m)] == [Encode(m)];
    DispatchExact(m, stale, junk);
    assert [] + Dispatch(Encode(m), stale, junk) == [m];
    HandleFromOne(b, m, n, answers);
  }

  // ---- Exactly when ENOENT is out of reach ----

  /** Some run without a disconnect, and without loss of the two own declarations, leads to ENOENT. */
  ghost predicate Doomed(s: State) {
    exists steps :: AllCareful(s, steps) && UnknownNext(Exec(s, steps))
  }

  lemma {:induction false} StepFirst(s: State, step: Step, steps: seq<Step>)
    ensures Exec(s, [step] + steps) == Exec(Next(s, step), steps)
    ensures AllCareful(s, [step] + steps) <==> Careful(s, step) && AllCareful(Next(s, step), steps)
  {
    hide Next, Careful;
    if steps == [] {
      assert [step] + steps == [step];
      assert [step][..0] == [];
      assert Exec(s, []) == s && AllCareful(s, []);
    } else {
      var init, last := steps[..|steps| - 1], steps[|steps| - 1];
      StepFirst(s, step, init);
      assert ([step] + steps)[..|steps|] == [step] + init;
      assert ([step] + steps)[|steps|] == last;
    }
  }

  lemma DoomedEarlier(s: State, step: Step)
    requires Careful(s, step) && Doomed(Next(s, step))
    ensures Doomed(s)
  {
    hide Next, Careful, Exec, AllCareful, UnknownNext;
    var steps :| AllCareful(Next(s, step), steps) && UnknownNext(Exec(Next(s, step), steps));
    StepFirst(s, step, steps);
  }

  lemma DrainFirst(n: nat)
    requires n > 0
    ensures Drain(n) == [ProxyReceive(true)] + Drain(n - 1)
  {
  }

  lemma NextWellFormed(s: State, step: Step)
    requires WellFormed(s.uc) && Agreed(s)
    ensures WellFormed(Next(s, step).uc) && Agreed(Next(s, step)) && SameResources(Next(s, step).uc, s.uc)
  {
    hide WellFormed, Agreed, Next;
    AgreedNext(s, step);
    SameWellFormed(Next(s, step).uc, s.uc);
  }

  /** A publish queued too early comes to light when the proxy takes the messages before it. */
  lemma {:induction false} DisorderShows(s: State) returns (k: nat)
    requires WellFormed(s.uc) && Agreed(s) && !Ordered(s.uc, s.tables.pubs.Keys, s.up)
    ensures AllCareful(s, Drain(k)) && UnknownNext(Exec(s, Drain(k)))
    decreases |s.up|
  {
    hide WellFormed, Agreed, Next;
    if UnknownNext(s) {
      k := 0;
    } else {
      hide Ordered, UnknownNext, Drain, Exec, AllCareful;
      var step := ProxyReceive(true);
      var t := Next(s, step);
      EmptyOrdered(s);
      ServedComing(s, true);
      QueueMoves(s, step);
      NextWellFormed(s, step);
      k := DisorderShows(t);
      DrainFirst(k + 1);
      StepFirst(s, step, Drain(k));
      k := k + 1;
    }
  }

  lemma EmptyOrdered(s: State)
    ensures s.up == [] ==> Ordered(s.uc, s.tables.pubs.Keys, s.up)
  {
  }

  lemma DisorderDooms(s: State)
    requires WellFormed(s.uc) && Agreed(s) && !Ordered(s.uc, s.tables.pubs.Keys, s.up)
    ensures Doomed(s)
  {
    var k := DisorderShows(s);
  }

  /** An own publish joins the queue though its id is not coming. */
  lemma UnannouncedDooms(s: State, step: Step, m: Msg)
    requires WellFormed(s.uc) && Agreed(s) && Careful(s, step)
    requires m.Publish? && OwnId(s.uc, m.id) && m.id !in Coming(s)
    requires Next(s, step).up == s.up + [m] && Next(s, step).tables == s.tables
    ensures Doomed(s) && !Ordered(s.uc, Next(s, step).tables.pubs.Keys, Next(s, step).up)
  {
    hide WellFormed, Agreed, Next, Ordered, After, Careful, Doomed;
    var t := Next(s, step);
    NextWellFormed(s, step);
    OrderedAppend(s.uc, s.tables.pubs.Keys, s.up, [m]);
    OrderedOne(s.uc, Coming(s), m);
    OrderedSame(t.uc, s.uc, t.tables.pubs.Keys, t.up);
    DisorderDooms(t);
    DoomedEarlier(s, step);
  }

  lemma UptimeDooms(s: State)
    requires WellFormed(s.uc) && Agreed(s) && s.uc.connected && s.uc.uptime !in Coming(s)
    ensures Doomed(s)
  {
    hide WellFormed, Agreed, After, EncodeValue, Doomed;
    UnannouncedDooms(s, KeepAlive(0), Publish(s.uc.uptime, EncodeValue(0)));
  }

  /** Whatever stands before it on the way down may be lost. */
  lemma {:induction false} PublishDooms(s: State, i: nat)
    requires WellFormed(s.uc) && Agreed(s) && s.uc.latency !in Coming(s)
    requires i < |s.down| && s.down[i].Publish? && |Encode(s.down[i])| <= UC_CAPACITY
    ensures Doomed(s)
    decreases i
  {
    hide WellFormed, Agreed, After, OnMessage, Encode, Doomed;
    if i > 0 {
      var step := LoseDown(0);
      NextWellFormed(s, step);
      assert Next(s, step).down == s.down[1..];
      PublishDooms(Next(s, step), i - 1);
      DoomedEarlier(s, step);
    } else {
      Reactions(s.uc, s.down[0], 0, 0, 0);
      var sent := OnMessage(s.uc, s.down[0], 0, 0, 0).sent;
      assert sent == [sent[0]];
      UnannouncedDooms(s, UcReceive(0, 0, 0), sent[0]);
    }
  }

  lemma SubscriptionDooms(s: State)
    requires WellFormed(s.uc) && Agreed(s) && s.uc.latency !in Coming(s) && s.tables.subs != map[]
    ensures Doomed(s)
  {
    hide WellFormed, Agreed, After, Encode, EncodeValue, Doomed;
    var id :| id in s.tables.subs;
    ValueMessageFits(id, 0);
    var step := Sample(id, EncodeValue(0));
    NextWellFormed(s, step);
    PublishDooms(Next(s, step), |s.down|);
    DoomedEarlier(s, step);
  }

  lemma HeadHonest(s: State)
    requires Agreed(s) && s.up != []
    ensures Honest(TablesOf(s.uc), s.up[0])
  {
  }

  lemma {:induction false} SubscriberDooms(s: State, i: nat)
    requires WellFormed(s.uc) && Agreed(s) && s.uc.latency !in Coming(s)
    requires i < |s.up| && s.up[i].Subscriber?
    ensures Doomed(s)
    decreases i
  {
    hide WellFormed, Agreed, After, Encode, Doomed, Serve;
    var step := ProxyReceive(true);
    var t := Next(s, step);
    NextWellFormed(s, step);
    ServedComing(s, true);
    if i > 0 {
      SubscriberDooms(t, i - 1);
    } else {
      HeadHonest(s);
      ServeEffect(TablesOf(s.uc), s.tables, s.up[0], true);
      assert s.up[0].id in t.tables.subs;
      SubscriptionDooms(t);
    }
    DoomedEarlier(s, step);
  }

  /**
   ENOENT is out of reach of an uptime or latency publish, over all runs that lose no own declaration
   and see no disconnect, exactly in the prepared states.
   */
  lemma UnreachableIff(s: State)
    requires WellFormed(s.uc) && Agreed(s)
    ensures Doomed(s) <==> !Prepared(s)
  {
    hide WellFormed, Agreed, After, Ordered, Encode, Next, Exec, AllCareful;
    if Prepared(s) && Doomed(s) {
      var steps :| AllCareful(s, steps) && UnknownNext(Exec(s, steps));
      StaysPrepared(s, steps);
      PreparedKnows(Exec(s, steps));
    }
    if !Prepared(s) {
      if !Ordered(s.uc, s.tables.pubs.Keys, s.up) {
        DisorderDooms(s);
      } else if s.uc.connected && s.uc.uptime !in Coming(s) {
        UptimeDooms(s);
      } else if s.tables.subs != map[] {
        SubscriptionDooms(s);
      } else if i :| 0 <= i < |s.down| && s.down[i].Publish? && |Encode(s.down[i])| <= UC_CAPACITY {
        PublishDooms(s, i);
      } else {
        var i :| 0 <= i < |s.up| && s.up[i].Subscriber?;
        SubscriberDooms(s, i);
      }
    }
  }

  lemma PreparedKnows(s: State)
    requires Prepared(s)
    ensures !UnknownNext(s)
  {
    hide Encode;
  }

  /** An application's publisher may speak before the handshake. */
  lemma ApplicationsMayBeEarly(s: State, id: Int32, t: UInt64)
    requires Initial(s) && !OwnId(s.uc, id)
    ensures var early := Next(s, AppPublish(id, EncodeValue(t)));
            early.up == [Publish(id, EncodeValue(t))] && id !in early.tables.pubs
  {
    hide Encode, EncodeValue;
    ValueMessageFits(id, t);
  }

  // ---- The handshake ----

  function Drain(n: nat): seq<Step> {
    seq(n, _ => ProxyReceive(true))
  }

  /** The state just after the connect reply has been answered. */
  ghost predicate Answered(s: State, uc: Uc) {
    s.uc == uc && s.up == Announcements(uc) && s.down == [] && Agreed(s) && WellFormed(uc)
  }

  /** A declaration is taken without an answer. */
  lemma DeclarationTaken(s: State, ok: bool)
    requires Agreed(s) && s.up != [] && (s.up[0].Subscriber? || s.up[0].Publisher?)
    ensures var t := Next(s, ProxyReceive(ok)); t.uc == s.uc && t.up == s.up[1..] && t.down == s.down
  {
    hide Serve, Encode;
    ServeEffect(TablesOf(s.uc), s.tables, s.up[0], ok);
  }

  lemma {:induction false} DrainStep(s: State, uc: Uc, k: nat)
    requires Answered(s, uc) && k <= |Announcements(uc)|
    ensures var t := Exec(s, Drain(k));
            t.uc == uc && t.up == Announcements(uc)[k..] && t.down == []
    ensures Smooth(Window(0, |Announcements(uc)|), s, Drain(k))
    ensures Track(Window(0, |Announcements(uc)|), s, Drain(k)) == Window(0, |Announcements(uc)| - k)
  {
    hide Announcements, Agreed, WellFormed, Next;
    if k > 0 {
      DrainStep(s, uc, k - 1);
      assert Drain(k)[..k - 1] == Drain(k - 1) && Drain(k)[k - 1] == ProxyReceive(true);
      Agreement(s, Drain(k - 1));
      AnnouncementsAreDeclarations(uc, k - 1);
      DeclarationTaken(Exec(s, Drain(k - 1)), true);
    }
  }

  lemma AnnouncementsAreDeclarations(uc: Uc, i: nat)
    requires i < |Announcements(uc)|
    ensures Announcements(uc)[i].Subscriber? || Announcements(uc)[i].Publisher?
  {
  }

  lemma ConnectReplied(s: State, now: UInt64, ok: bool)
    requires WellFormed(s.uc) && Agreed(s) && !s.uc.connected && s.up == [] && s.down == []
    ensures var replied := Next(Next(s, KeepAlive(now)), ProxyReceive(ok));
            replied == State(s.uc, s.tables, [], [Connect(CONNECTED)]) && Agreed(replied)
  {
    hide Agreed, WellFormed, Encode, TablesOf;
    var asked := Next(s, KeepAlive(now));
    ConnectFits();
    AgreedNext(s, KeepAlive(now));
    AgreedNext(asked, ProxyReceive(ok));
  }

  lemma AnswerSent(s: State, now: UInt64, later: UInt64, stale: UInt64)
    requires WellFormed(s.uc) && Agreed(s) && s.up == [] && s.down == [Connect(CONNECTED)]
    ensures var answered := Next(s, UcReceive(now, later, stale));
            Answered(answered, s.uc.(connected := true)) && answered.tables == s.tables
    ensures Announcements(s.uc.(connected := true)) == Announcements(s.uc)
    ensures |Announcements(s.uc)| == |s.uc.subs| + |s.uc.pubs|
    ensures TablesOf(s.uc.(connected := true)) == TablesOf(s.uc)
  {
    hide Agreed, Encode, KeyMap;
    AgreedNext(s, UcReceive(now, later, stale));
    SameWellFormed(s.uc.(connected := true), s.uc);
  }

  lemma Settles(s: State, uc: Uc)
    requires Answered(s, uc)
    ensures |Announcements(uc)| == |uc.subs| + |uc.pubs|
    ensures Exec(s, Drain(|Announcements(uc)|)).tables == TablesOf(uc)
  {
    hide Agreed, WellFormed, Encode, Smooth, Exec, Track, TablesOf, Known;
    var q := Announcements(uc);
    var steps := Drain(|q|);
    DrainStep(s, uc, |q|);
    HalfwayAlong(s, q, Window(0, |q|), steps);
    Agreement(s, steps);
    AllKnown(Exec(s, steps), Window(0, 0));
  }

  /**
   On an empty line, a keep-alive, its answer, the reply and the declarations leave both sides
   connected, the line empty and the tables the same, whatever true entries the proxy had before.
   */
  lemma HandshakeCompletes(s: State, now: UInt64, ok: bool, later: UInt64, stale: UInt64)
    requires WellFormed(s.uc) && Agreed(s) && !s.uc.connected && s.up == [] && s.down == []
    ensures var answered := Next(Next(Next(s, KeepAlive(now)), ProxyReceive(ok)), UcReceive(now, later, stale));
            Exec(answered, Drain(|s.uc.subs| + |s.uc.pubs|)) ==
            State(s.uc.(connected := true), TablesOf(s.uc), [], [])
  {
    hide Agreed, WellFormed, Encode, TablesOf, Exec, Drain, Smooth, Track, Next, Announcements;
    var replied := Next(Next(s, KeepAlive(now)), ProxyReceive(ok));
    ConnectReplied(s, now, ok);
    var answered := Next(replied, UcReceive(now, later, stale));
    AnswerSent(replied, now, later, stale);
    var n := |s.uc.subs| + |s.uc.pubs|;
    DrainStep(answered, answered.uc, n);
    Settles(answered, answered.uc);
  }

  // ---- Losing what the condition protects ----

  /** After the handshake from power-up and one disconnect, the next keep-alive meets ENOENT. */
  lemma DisconnectForgets(s: State, now: UInt64, ok: bool, later: UInt64, stale: UInt64, again: UInt64)
    requires WellFormed(s.uc) && Initial(s)
    ensures var answered := Next(Next(Next(s, KeepAlive(now)), ProxyReceive(ok)), UcReceive(now, later, stale));
            var settled := Exec(answered, Drain(|s.uc.subs| + |s.uc.pubs|));
            settled.tables == TablesOf(s.uc) &&
            UnknownNext(Next(Next(settled, ProxyDisconnect), KeepAlive(again)))
  {
    hide Agreed, WellFormed, TablesOf, Exec, Drain, Next, UnknownNext;
    InitialReady(s);
    HandshakeCompletes(s, now, ok, later, stale);
    DisconnectedForgets(State(s.uc.(connected := true), TablesOf(s.uc), [], []), again);
  }

  lemma DisconnectedForgets(settled: State, again: UInt64)
    requires settled.uc.connected && settled.up == []
    ensures UnknownNext(Next(Next(settled, ProxyDisconnect), KeepAlive(again)))
  {
    hide EncodeValue;
  }

  lemma {:induction false} NotDeclared(uc: Uc, known: set<Int32>, q: seq<Msg>, id: Int32)
    requires id !in known && forall i :: 0 <= i < |q| && q[i].Publisher? ==> q[i].id != id
    ensures id !in After(uc, known, q)
    decreases q
  {
    if q != [] {
      NotDeclared(uc, known + Declares(uc, q[0]), q[1..], id);
    }
  }

  /** Uptime's declaration stands once among the announcements. */
  lemma UptimeAnnounced(uc: Uc) returns (i: nat)
    requires WellFormed(uc)
    ensures i < |Announcements(uc)| && Announcements(uc)[i].Publisher? && Announcements(uc)[i].id == uc.uptime
    ensures forall j :: 0 <= j < |Announcements(uc)| && j != i && Announcements(uc)[j].Publisher? ==>
              Announcements(uc)[j].id != uc.uptime
  {
    hide Encode;
    var q := Announcements(uc);
    var p :| 0 <= p < |uc.pubs| && uc.pubs[p].id == uc.uptime;
    i := |uc.subs| + p;
    assert q[i] == PublisherOf(uc.pubs[p]);
    forall j | 0 <= j < |q| && j != i && q[j].Publisher?
      ensures q[j].id != uc.uptime
    {
      assert j >= |uc.subs| && q[j] == PublisherOf(uc.pubs[j - |uc.subs|]);
    }
  }

  /** Lose just uptime's declaration in the handshake from power-up: keep-alive and draining meet ENOENT. */
  lemma LossForgets(s: State, now: UInt64, ok: bool, later: UInt64, stale: UInt64, again: UInt64) returns (i: nat, k: nat)
    requires WellFormed(s.uc) && Initial(s)
    ensures var answered := Next(Next(Next(s, KeepAlive(now)), ProxyReceive(ok)), UcReceive(now, later, stale));
            i < |answered.up| && answered.up[i].Publisher? && answered.up[i].id == s.uc.uptime &&
            UnknownNext(Exec(Next(Next(answered, LoseUp(i)), KeepAlive(again)), Drain(k)))
  {
    hide Agreed, WellFormed, Encode, EncodeValue, TablesOf, Exec, Drain, After, Ordered, UnknownNext, Announcements;
    InitialReady(s);
    ConnectReplied(s, now, ok);
    var replied := Next(Next(s, KeepAlive(now)), ProxyReceive(ok));
    AnswerSent(replied, now, later, stale);
    var answered := Next(replied, UcReceive(now, later, stale));
    i := UptimeAnnounced(s.uc);
    k := LossShows(answered, i, again);
  }

  lemma LossShows(answered: State, i: nat, again: UInt64) returns (k: nat)
    requires WellFormed(answered.uc) && Agreed(answered) && answered.uc.connected && answered.tables == EMPTY
    requires i < |answered.up|
    requires forall j :: 0 <= j < |answered.up| && j != i && answered.up[j].Publisher? ==>
               answered.up[j].id != answered.uc.uptime
    ensures UnknownNext(Exec(Next(Next(answered, LoseUp(i)), KeepAlive(again)), Drain(k)))
  {
    hide Agreed, WellFormed, Encode, EncodeValue, TablesOf, Exec, Drain, After, Ordered, UnknownNext;
    var lost := Next(answered, LoseUp(i));
    NextWellFormed(answered, LoseUp(i));
    assert forall j :: 0 <= j < |lost.up| ==> lost.up[j] == answered.up[if j < i then j else j + 1];
    NotDeclared(lost.uc, lost.tables.pubs.Keys, lost.up, lost.uc.uptime);
    var asked := Next(lost, KeepAlive(again));
    NextWellFormed(lost, KeepAlive(again));
    UnannouncedDooms(lost, KeepAlive(again), Publish(lost.uc.uptime, EncodeValue(again)));
    k := DisorderShows(asked);
  }

  // ---- The same over the bytes of the line ----

  /** A declaration in a book: only the tables change, as they do on the link. */
  lemma DeclarationHandled(b: Book, known: Tables, m: Msg)
    requires Honest(known, m) && (m.Subscriber? || m.Publisher?)
    ensures Handle(b, m, true) == b.(tables := Serve(b.tables, m, true).tables)
  {
    hide Encode, CutText;
    HonestFits(known, m);
  }

  lemma {:induction false} DrainHandles(s: State, uc: Uc, k: nat, b: Book, n: nat, answers: nat -> bool)
    requires Answered(s, uc) && k <= |Announcements(uc)| && b.tables == s.tables && forall i :: answers(i)
    ensures HandleFrom(b, Announcements(uc)[..k], n, answers) == b.(tables := Exec(s, Drain(k)).tables)
  {
    hide Announcements, Agreed, WellFormed, Honest, Handle, Serve;
    var q := Announcements(uc);
    if k > 0 {
      DrainHandles(s, uc, k - 1, b, n, answers);
      DrainStep(s, uc, k - 1);
      assert Drain(k)[..k - 1] == Drain(k - 1) && q[..k][..k - 1] == q[..k - 1];
      AnnouncementsAreDeclarations(uc, k - 1);
      AnnouncementsHonest(uc);
      DeclarationHandled(b.(tables := Exec(s, Drain(k - 1)).tables), TablesOf(uc), q[k - 1]);
    }
  }

  lemma AnnouncementsArrive(uc: Uc)
    requires WellFormed(uc)
    ensures AllTextsArrive(Announcements(uc)) && Arrivals(Announcements(uc)) == Announcements(uc)
  {
    hide Announcements, WellFormed, Encode, CutText, Arrivals, NulFree, KeyMap;
    var q := Announcements(uc);
    AnnouncementsHonest(uc);
    forall m | m in q
      ensures |Encode(m)| <= PROXY_CAPACITY && NulFree(m)
    {
      var i :| 0 <= i < |q| && q[i] == m;
      AnnouncementsAreDeclarations(uc, i);
      assert Honest(TablesOf(uc), q[i]);
      HonestFits(TablesOf(uc), q[i]);
      CutTextIff(m);
    }
    ArrivalsUnchangedIff(q);
  }

  /**
   The bytes of a connect reply's declarations, chunked in any way that is not late inside a frame,
   make the proxy's tables the microcontroller's, whatever true entries they held before and
   whatever the uninitialised variables hold.
   */
  lemma DeclarationsOverTheLine(uc: Uc, b: Book, rx: Rx, ticks: seq<Tick>, stale: Filters, junk: Int32, n: nat, answers: nat -> bool)
    requires WellFormed(uc) && Within(b.tables.subs, TablesOf(uc).subs) && Within(b.tables.pubs, TablesOf(uc).pubs)
    requires rx.pending == [] && Received(ticks) == OnTheLine(Announcements(uc)) && Timely(ticks, rx.lastFlag)
    requires forall i :: answers(i)
    ensures var payloads := PayloadsOf(Run(rx, ticks).events);
            RunSafe(stale, payloads, junk) &&
            HandleFrom(b, RunFrames(stale, payloads, junk).handled, n, answers) == b.(tables := TablesOf(uc))
  {
    hide WellFormed, Within, TablesOf, Timely, Run, RunFrames, PayloadsOf, Announcements, OnTheLine, Received, HandleFrom,
         AllHonest, Encode, Exec, Drain, RunSafe, AllTextsArrive;
    var q := Announcements(uc);
    AnnouncementsHonest(uc);
    EndToEnd(rx, ticks, q, stale, junk);
    AnnouncementsArrive(uc);
    var s := State(uc, b.tables, q, []);
    DrainHandles(s, uc, |q|, b, n, answers);
    WholePrefix(q);
    Settles(s, uc);
  }
}
