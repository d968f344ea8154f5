/**
 The proxy's broker: idempotent connect, insert-if-absent declarations, wholesale disconnect, over
 a Zenoh library seen only through the handles it gives out and takes back.
 */
module ZenohBroker {
  import opened ByteStrings

  /** An opaque pointer; 0 is the null pointer. */
  type Pointer = nat

  const NULL: Pointer := 0
  const ENOENT: int := 2

  // ---- The library, as an accountant of handles ----

  datatype Written = Written(session: Pointer, key: Blob, bs: Bytes)

  /** What a handle was given out for: a subscriber reports samples on its key under its id. */
  datatype Declared = SubscriberOn(key: Blob, id: Int32) | PublisherOn(key: Blob)

  class ZenohNet {
    var next: Pointer
    var sessionsOpened: nat
    var liveSubscribers: set<Pointer>
    var livePublishers: set<Pointer>
    var declared: map<Pointer, Declared>
    /** Calls that passed a null pointer, and calls that passed a handle not live any more. */
    var nullUndeclares: nat
    var staleUndeclares: nat
    /** What was written to the network, under which key, oldest first. */
    var written: seq<Written>

    constructor ()
      ensures next == 1 && sessionsOpened == 0 && liveSubscribers == {} && livePublishers == {}
      ensures nullUndeclares == staleUndeclares == 0 && written == [] && declared == map[]
    {
      next, sessionsOpened, liveSubscribers, livePublishers := 1, 0, {}, {};
      nullUndeclares, staleUndeclares, written, declared := 0, 0, [], map[];
    }

    /** `ok` is the library's decision. */
    method Open(ok: bool) returns (session: Pointer)
      requires next > NULL
      modifies this`next, this`sessionsOpened
      ensures session == (if ok then old(next) else NULL)
      ensures next == old(next) + (if ok then 1 else 0)
      ensures sessionsOpened == old(sessionsOpened) + (if ok then 1 else 0)
    {
      session := NULL;
      if ok {
        session, next, sessionsOpened := next, next + 1, sessionsOpened + 1;
      }
    }

    method DeclareSubscriber(key: Blob, id: Int32, ok: bool) returns (sub: Pointer)
      requires next > NULL
      modifies this`next, this`liveSubscribers, this`declared
      ensures declared == if ok then old(declared)[sub := SubscriberOn(key, id)] else old(declared)
      ensures sub == (if ok then old(next) else NULL)
      ensures next == old(next) + (if ok then 1 else 0)
      ensures liveSubscribers == if ok then old(liveSubscribers) + {sub} else old(liveSubscribers)
    {
      sub := NULL;
      if ok {
        sub, next := next, next + 1;
        declared := declared[sub := SubscriberOn(key, id)];
        liveSubscribers := liveSubscribers + {sub};
      }
    }

    method DeclarePublisher(key: Blob, ok: bool) returns (pub: Pointer)
      requires next > NULL
      modifies this`next, this`livePublishers, this`declared
      ensures declared == if ok then old(declared)[pub := PublisherOn(key)] else old(declared)
      ensures pub == (if ok then old(next) else NULL)
      ensures next == old(next) + (if ok then 1 else 0)
      ensures livePublishers == if ok then old(livePublishers) + {pub} else old(livePublishers)
    {
      pub := NULL;
      if ok {
        pub, next := next, next + 1;
        declared := declared[pub := PublisherOn(key)];
        livePublishers := livePublishers + {pub};
      }
    }

    method Write(session: Pointer, key: Blob, bs: Bytes)
      modifies this`written
      ensures written == old(written) + [Written(session, key, bs)]
    {
      written := written + [Written(session, key, bs)];
    }

    method UndeclareSubscriber(h: Pointer)
      modifies this`liveSubscribers, this`nullUndeclares, this`staleUndeclares
      ensures liveSubscribers == old(liveSubscribers) - {h}
      ensures nullUndeclares == old(nullUndeclares) + (if h == NULL then 1 else 0)
      ensures staleUndeclares == old(staleUndeclares) + (if h != NULL && h !in old(liveSubscribers) then 1 else 0)
    {
      if h == NULL {
        nullUndeclares := nullUndeclares + 1;
      } else if h !in liveSubscribers {
        staleUndeclares := staleUndeclares + 1;
      }
      liveSubscribers := liveSubscribers - {h};
    }

    method UndeclarePublisher(h: Pointer)
      modifies this`livePublishers, this`nullUndeclares, this`staleUndeclares
      ensures livePublishers == old(livePublishers) - {h}
      ensures nullUndeclares == old(nullUndeclares) + (if h == NULL then 1 else 0)
      ensures staleUndeclares == old(staleUndeclares) + (if h != NULL && h !in old(livePublishers) then 1 else 0)
    {
      if h == NULL {
        nullUndeclares := nullUndeclares + 1;
      } else if h !in livePublishers {
        staleUndeclares := staleUndeclares + 1;
      }
      livePublishers := livePublishers - {h};
    }
  }

  // ---- The tables, as the messages see them ----

  datatype Tables = Tables(subs: map<Int32, Blob>, pubs: map<Int32, Blob>)

  const EMPTY: Tables := Tables(map[], map[])

  function WithSubscriber(t: Tables, id: Int32, key: Blob, ok: bool): Tables {
    if id in t.subs || !ok then t else t.(subs := t.subs[id := key])
  }

  /** The entry is made even when the library refuses the publisher. */
  function WithPublisher(t: Tables, id: Int32, key: Blob): Tables {
    if id in t.pubs then t else t.(pubs := t.pubs[id := key])
  }

  /** A write as the outside sees it: on an open session or not, under which key, which bytes. */
  datatype Put = Put(open: bool, key: Blob, bs: Bytes)

  /** The tables, whether a session is open, and all writes so far. */
  datatype Book = Book(tables: Tables, open: bool, puts: seq<Put>)

  const NEW_BOOK: Book := Book(EMPTY, false, [])

  function PutsOf(written: seq<Written>): seq<Put> {
    seq(|written|, i requires 0 <= i < |written| => Put(written[i].session != NULL, written[i].key, written[i].bs))
  }

  lemma PutsSnoc(written: seq<Written>, w: Written)
    ensures PutsOf(written + [w]) == PutsOf(written) + [Put(w.session != NULL, w.key, w.bs)]
  {
  }

  // ---- The broker object ----

  datatype Sub = Sub(id: Int32, key: Blob, handle: Pointer)
  datatype Pub = Pub(id: Int32, key: Blob, handle: Pointer)

  function SubKeys(subs: map<Int32, Sub>): map<Int32, Blob> {
    map id | id in subs :: subs[id].key
  }

  function PubKeys(pubs: map<Int32, Pub>): map<Int32, Blob> {
    map id | id in pubs :: pubs[id].key
  }

  ghost predicate SubHandle(subs: map<Int32, Sub>, ids: set<Int32>, h: Pointer) {
    exists id :: id in ids && id in subs && subs[id].handle == h
  }

  /** The live handles are exactly those of the entries `ids`, each held once. */
  ghost predicate SubsAccounted(subs: map<Int32, Sub>, ids: set<Int32>, live: set<Pointer>, next: Pointer) {
    && ids <= subs.Keys
    && (forall id :: id in ids ==> subs[id].id == id && NULL < subs[id].handle < next && subs[id].handle in live)
    && (forall i, j :: i in ids && j in ids && subs[i].handle == subs[j].handle ==> i == j)
    && (forall h :: h in live ==> SubHandle(subs, ids, h))
  }

  ghost predicate PubHandle(pubs: map<Int32, Pub>, ids: set<Int32>, h: Pointer) {
    exists id :: id in ids && id in pubs && pubs[id].handle == h
  }

  /** As for subscribers, except that an entry may hold a null handle, which is not live. */
  ghost predicate PubsAccounted(pubs: map<Int32, Pub>, ids: set<Int32>, live: set<Pointer>, next: Pointer) {
    && ids <= pubs.Keys && NULL !in live
    && (forall id :: id in ids ==> pubs[id].id == id && pubs[id].handle < next)
    && (forall id :: id in ids && pubs[id].handle != NULL ==> pubs[id].handle in live)
    && (forall i, j :: i in ids && j in ids && pubs[i].handle == pubs[j].handle != NULL ==> i == j)
    && (forall h :: h in live ==> PubHandle(pubs, ids, h))
  }

  /** Entries whose publisher the library refused. */
  function Refused(pubs: map<Int32, Pub>): set<Int32> {
    set id | id in pubs && pubs[id].handle == NULL
  }

  lemma SubAdded(subs: map<Int32, Sub>, live: set<Pointer>, next: Pointer, id: Int32, key: Blob)
    requires SubsAccounted(subs, subs.Keys, live, next) && id !in subs && next > NULL
    ensures var more := subs[id := Sub(id, key, next)];
            SubsAccounted(more, more.Keys, live + {next}, next + 1)
  {
    var more := subs[id := Sub(id, key, next)];
    forall h | h in live + {next}
      ensures SubHandle(more, more.Keys, h)
    {
      if h == next {
        assert more[id].handle == h;
      } else {
        assert SubHandle(subs, subs.Keys, h);
        var other :| other in subs && subs[other].handle == h;
        assert more[other].handle == h;
      }
    }
  }

  lemma PubDeclared(pubs: map<Int32, Pub>, live: set<Pointer>, next: Pointer, id: Int32, key: Blob)
    requires PubsAccounted(pubs, pubs.Keys, live, next) && id !in pubs && next > NULL
    ensures var more := pubs[id := Pub(id, key, next)];
            PubsAccounted(more, more.Keys, live + {next}, next + 1)
  {
    var more := pubs[id := Pub(id, key, next)];
    forall h | h in live + {next}
      ensures PubHandle(more, more.Keys, h)
    {
      if h in live {
        assert PubHandle(pubs, pubs.Keys, h);
        var other :| other in pubs && pubs[other].handle == h;
        assert more[other].handle == h;
      } else {
        assert more[id].handle == h;
      }
    }
  }

  lemma PubRefused(pubs: map<Int32, Pub>, live: set<Pointer>, next: Pointer, id: Int32, key: Blob)
    requires PubsAccounted(pubs, pubs.Keys, live, next) && id !in pubs && next > NULL
    ensures var more := pubs[id := Pub(id, key, NULL)];
            PubsAccounted(more, more.Keys, live, next)
  {
    var more := pubs[id := Pub(id, key, NULL)];
    forall h | h in live
      ensures PubHandle(more, more.Keys, h)
    {
      assert PubHandle(pubs, pubs.Keys, h);
      var other :| other in pubs && pubs[other].handle == h;
      assert more[other].handle == h;
    }
  }

  lemma NextGrows(subs: map<Int32, Sub>, pubs: map<Int32, Pub>, liveSubs: set<Pointer>, livePubs: set<Pointer>, next: Pointer)
    ensures SubsAccounted(subs, subs.Keys, liveSubs, next) ==> SubsAccounted(subs, subs.Keys, liveSubs, next + 1)
    ensures PubsAccounted(pubs, pubs.Keys, livePubs, next) ==> PubsAccounted(pubs, pubs.Keys, livePubs, next + 1)
  {
  }

  lemma KeysAdded(subs: map<Int32, Sub>, pubs: map<Int32, Pub>, id: Int32, key: Blob, h: Pointer)
    ensures (id in SubKeys(subs) <==> id in subs) && (id in PubKeys(pubs) <==> id in pubs)
    ensures SubKeys(subs[id := Sub(id, key, h)]) == SubKeys(subs)[id := key]
    ensures PubKeys(pubs[id := Pub(id, key, h)]) == PubKeys(pubs)[id := key]
  {
  }

  lemma SubReleased(subs: map<Int32, Sub>, ids: set<Int32>, live: set<Pointer>, next: Pointer, id: Int32)
    requires SubsAccounted(subs, ids, live, next) && id in ids
    ensures id in subs && NULL < subs[id].handle && subs[id].handle in live
    ensures SubsAccounted(subs, ids - {id}, live - {subs[id].handle}, next)
  {
    forall h | h in live - {subs[id].handle}
      ensures SubHandle(subs, ids - {id}, h)
    {
      assert SubHandle(subs, ids, h);
    }
  }

  lemma PubReleased(pubs: map<Int32, Pub>, ids: set<Int32>, live: set<Pointer>, next: Pointer, id: Int32)
    requires PubsAccounted(pubs, ids, live, next) && id in ids
    ensures id in pubs && (pubs[id].handle != NULL ==> pubs[id].handle in live)
    ensures PubsAccounted(pubs, ids - {id}, live - {pubs[id].handle}, next)
  {
    forall h | h in live - {pubs[id].handle}
      ensures PubHandle(pubs, ids - {id}, h)
    {
      assert PubHandle(pubs, ids, h);
    }
  }

  lemma NothingLeft(subs: map<Int32, Sub>, pubs: map<Int32, Pub>, live: set<Pointer>, next: Pointer)
    ensures SubsAccounted(subs, {}, live, next) ==> live == {}
    ensures PubsAccounted(pubs, {}, live, next) ==> live == {}
    ensures SubsAccounted(map[], {}, {}, next) && PubsAccounted(map[], {}, {}, next)
  {
    assert forall h :: !SubHandle(subs, {}, h) && !PubHandle(pubs, {}, h);
  }

  /** Every entry's handle was given out for that entry's key, and for a subscriber its id. */
  ghost predicate DeclaredAs(subs: map<Int32, Sub>, pubs: map<Int32, Pub>, declared: map<Pointer, Declared>, next: Pointer) {
    && (forall h :: h in declared ==> h < next)
    && (forall id :: id in subs ==>
          subs[id].handle in declared && declared[subs[id].handle] == SubscriberOn(subs[id].key, id))
    && (forall id :: id in pubs && pubs[id].handle != NULL ==>
          pubs[id].handle in declared && declared[pubs[id].handle] == PublisherOn(pubs[id].key))
  }

  lemma DeclaredMore(subs: map<Int32, Sub>, pubs: map<Int32, Pub>, declared: map<Pointer, Declared>, next: Pointer,
                     id: Int32, key: Blob)
    requires DeclaredAs(subs, pubs, declared, next) && next > NULL
    ensures DeclaredAs(subs[id := Sub(id, key, next)], pubs, declared[next := SubscriberOn(key, id)], next + 1)
    ensures DeclaredAs(subs, pubs[id := Pub(id, key, next)], declared[next := PublisherOn(key)], next + 1)
    ensures DeclaredAs(subs, pubs[id := Pub(id, key, NULL)], declared, next)
    ensures DeclaredAs(map[], pubs, declared, next) && DeclaredAs(subs, map[], declared, next)
    ensures DeclaredAs(subs, pubs, declared, next + 1)
  {
  }

  /** Refused publishers already passed when `todo` is still to do. */
  function RefusedDone(pubs: map<Int32, Pub>, todo: set<Int32>): nat {
    |Refused(pubs) - todo|
  }

  lemma RefusedStep(pubs: map<Int32, Pub>, todo: set<Int32>, id: Int32)
    requires id in todo && id in pubs
    ensures RefusedDone(pubs, todo - {id}) ==
            RefusedDone(pubs, todo) + (if pubs[id].handle == NULL then 1 else 0)
  {
    var before, after := Refused(pubs) - todo, Refused(pubs) - (todo - {id});
    if pubs[id].handle == NULL {
      assert after == before + {id};
    } else {
      assert after == before;
    }
  }

  lemma RefusedEnds(pubs: map<Int32, Pub>)
    ensures RefusedDone(pubs, pubs.Keys) == 0 && RefusedDone(pubs, {}) == |Refused(pubs)|
  {
    assert Refused(pubs) - pubs.Keys == {};
    assert Refused(pubs) - {} == Refused(pubs);
  }

  class BrokerZenoh {
    const net: ZenohNet
    var session: Pointer
    var subscribers: map<Int32, Sub>
    var publishers: map<Int32, Pub>

    /**
     Pointer accounting: at most one session was ever opened and it is the one held; the live handles
     are exactly the non-null ones in the tables, each in one entry and given out for that entry's
     key; none was given back twice; all writes went to the one session or to none.
     */
    ghost predicate Valid()
      reads this, net
    {
      && net.next > NULL && net.staleUndeclares == 0
      && net.sessionsOpened == (if session == NULL then 0 else 1)
      && SubsAccounted(subscribers, subscribers.Keys, net.liveSubscribers, net.next)
      && PubsAccounted(publishers, publishers.Keys, net.livePublishers, net.next)
      && DeclaredAs(subscribers, publishers, net.declared, net.next)
      && (forall w :: w in net.written ==> w.session == NULL || w.session == session)
    }

    ghost function Account(): Book
      reads this, net
    {
      Book(View(), session != NULL, PutsOf(net.written))
    }

    ghost function View(): Tables
      reads this
    {
      Tables(SubKeys(subscribers), PubKeys(publishers))
    }

    constructor (net: ZenohNet)
      requires net.next > NULL && net.sessionsOpened == 0 && net.staleUndeclares == 0
      requires net.liveSubscribers == {} && net.livePublishers == {} && net.declared == map[] && net.written == []
      ensures this.net == net && Valid() && View() == EMPTY && session == NULL && Account() == NEW_BOOK
    {
      this.net := net;
      session, subscribers, publishers := NULL, map[], map[];
    }

    method Connect(ok: bool) returns (rc: int)
      requires Valid()
      modifies this`session, net`next, net`sessionsOpened
      ensures Valid() && View() == old(View())
      ensures net.sessionsOpened <= 1
      ensures old(session) != NULL ==> session == old(session) && net.sessionsOpened == old(net.sessionsOpened)
      ensures rc == 0 <==> session != NULL
      ensures rc == 0 <==> old(session) != NULL || ok
      ensures net.nullUndeclares == old(net.nullUndeclares)
    {
      if session == NULL {
        session := net.Open(ok);
      }
      rc := if session == NULL then -1 else 0;
    }

    method Subscriber(id: Int32, pattern: Blob, ok: bool) returns (rc: int)
      requires Valid()
      modifies this`subscribers, net`next, net`liveSubscribers, net`declared
      ensures Valid() && View() == WithSubscriber(old(View()), id, pattern, ok)
      ensures rc == (if id in old(subscribers) || ok then 0 else -1)
      ensures id in old(subscribers) ==> subscribers == old(subscribers) && net.next == old(net.next)
      ensures net.nullUndeclares == old(net.nullUndeclares)
    {
      hide SubsAccounted, PubsAccounted, DeclaredAs, SubKeys, PubKeys;
      KeysAdded(subscribers, publishers, id, pattern, net.next);
      if id !in subscribers {
        DeclaredMore(subscribers, publishers, net.declared, net.next, id, pattern);
        NextGrows(subscribers, publishers, net.liveSubscribers, net.livePublishers, net.next);
        SubAdded(subscribers, net.liveSubscribers, net.next, id, pattern);
        var zsub := net.DeclareSubscriber(pattern, id, ok);
        if zsub == NULL {
          return -1;
        }
        subscribers := subscribers[id := Sub(id, pattern, zsub)];
      }
      return 0;
    }

    method Publisher(id: Int32, key: Blob, ok: bool) returns (rc: int)
      requires Valid()
      modifies this`publishers, net`next, net`livePublishers, net`declared
      ensures Valid() && View() == WithPublisher(old(View()), id, key)
      ensures rc == 0
      ensures id in old(publishers) ==> publishers == old(publishers) && net.next == old(net.next)
      ensures id !in old(publishers) ==>
                publishers == old(publishers)[id := Pub(id, key, if ok then old(net.next) else NULL)]
      ensures net.nullUndeclares == old(net.nullUndeclares)
    {
      hide SubsAccounted, PubsAccounted, DeclaredAs, SubKeys, PubKeys;
      KeysAdded(subscribers, publishers, id, key, if ok then net.next else NULL);
      if id !in publishers {
        DeclaredMore(subscribers, publishers, net.declared, net.next, id, key);
        NextGrows(subscribers, publishers, net.liveSubscribers, net.livePublishers, net.next);
        PubDeclared(publishers, net.livePublishers, net.next, id, key);
        PubRefused(publishers, net.livePublishers, net.next, id, key);
        var pub := net.DeclarePublisher(key, ok);
        publishers := publishers[id := Pub(id, key, pub)];
      }
      return 0;
    }

    /** `result` is the library's return code. The resource key stands for the key it was made from. */
    method Publish(id: Int32, bs: Bytes, result: int) returns (rc: int)
      requires Valid()
      modifies net`written
      ensures Valid()
      ensures rc == if id in View().pubs then result else ENOENT
      ensures net.written == old(net.written) + if id in View().pubs then [Written(session, View().pubs[id], bs)] else []
      ensures Account().puts ==
              old(Account()).puts + if id in View().pubs then [Put(session != NULL, View().pubs[id], bs)] else []
    {
      if id in publishers {
        PutsSnoc(net.written, Written(session, publishers[id].key, bs));
        net.Write(session, publishers[id].key, bs);
        rc := result;
      } else {
        rc := ENOENT;
      }
    }

    method ReleaseSubscribers()
      requires Valid()
      modifies this`subscribers, net`liveSubscribers, net`nullUndeclares, net`staleUndeclares
      ensures Valid() && subscribers == map[] && net.liveSubscribers == {}
      ensures net.nullUndeclares == old(net.nullUndeclares)
    {
      hide SubsAccounted, PubsAccounted, DeclaredAs;
      DeclaredMore(subscribers, publishers, net.declared, net.next, 0, []);
      ghost var subs := subscribers;
      var todo := subscribers.Keys;
      while todo != {}
        invariant SubsAccounted(subs, todo, net.liveSubscribers, net.next) && subscribers == subs
        invariant net.nullUndeclares == old(net.nullUndeclares) && net.staleUndeclares == 0
        decreases todo
      {
        var id :| id in todo;
        SubReleased(subs, todo, net.liveSubscribers, net.next, id);
        net.UndeclareSubscriber(subscribers[id].handle);
        todo := todo - {id};
      }
      NothingLeft(subs, publishers, net.liveSubscribers, net.next);
      subscribers := map[];
      assert subscribers.Keys == {};
    }

    method ReleasePublishers()
      requires Valid()
      modifies this`publishers, net`livePublishers, net`nullUndeclares, net`staleUndeclares
      ensures Valid() && publishers == map[] && net.livePublishers == {}
      ensures net.nullUndeclares == old(net.nullUndeclares) + |Refused(old(publishers))|
    {
      hide SubsAccounted, PubsAccounted, RefusedDone, DeclaredAs;
      DeclaredMore(subscribers, publishers, net.declared, net.next, 0, []);
      ghost var pubs := publishers;
      var todo := publishers.Keys;
      RefusedEnds(pubs);
      while todo != {}
        invariant PubsAccounted(pubs, todo, net.livePublishers, net.next) && publishers == pubs
        invariant net.nullUndeclares == old(net.nullUndeclares) + RefusedDone(pubs, todo)
        invariant net.staleUndeclares == 0
        decreases todo
      {
        var id :| id in todo;
        PubReleased(pubs, todo, net.livePublishers, net.next, id);
        RefusedStep(pubs, todo, id);
        net.UndeclarePublisher(publishers[id].handle);
        todo := todo - {id};
      }
      NothingLeft(subscribers, pubs, net.livePublishers, net.next);
      publishers := map[];
      assert publishers.Keys == {};
    }

    /** The two loops of the program, one after the other. The session stays open. */
    method Disconnect() returns (rc: int)
      requires Valid()
      modifies this`subscribers, this`publishers
      modifies net`liveSubscribers, net`livePublishers, net`nullUndeclares, net`staleUndeclares
      ensures Valid() && View() == EMPTY && rc == 0
      ensures net.liveSubscribers == {} && net.livePublishers == {}
      // A null pointer is handed to the library once for each refused publisher, and only then.
      ensures net.nullUndeclares == old(net.nullUndeclares) + |Refused(old(publishers))|
    {
      ReleaseSubscribers();
      ReleasePublishers();
      return 0;
    }
  }
}
