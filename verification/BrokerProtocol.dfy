/**
 The broker messages: what `reflect` writes and reads, the type filter in front of each handler,
 and the round trip from a message through its bytes to the one handler that fires.
 */
module BrokerProtocol {
  import opened ByteStrings
  import opened Cbor
  import opened CborStreams
  import opened FrameCheck
  import opened Octets
  import opened Wrappers

  const B_CONNECT: Int32 := 0
  const B_DISCONNECT: Int32 := 1
  const B_SUBSCRIBER: Int32 := 2
  const B_PUBLISHER: Int32 := 3
  const B_PUBLISH: Int32 := 4

  const PROXY_CAPACITY: nat := 1024
  const UC_CAPACITY: nat := 100

  datatype Msg =
    | Connect(clientId: Blob)
    | Disconnect
    | Subscriber(id: Int32, topic: Blob)
    | Publisher(id: Int32, topic: Blob)
    | Publish(id: Int32, value: Blob)

  function TypeOf(m: Msg): Int32 {
    match m
    case Connect(_) => B_CONNECT
    case Disconnect => B_DISCONNECT
    case Subscriber(_, _) => B_SUBSCRIBER
    case Publisher(_, _) => B_PUBLISHER
    case Publish(_, _) => B_PUBLISH
  }

  // ---- Writing ----

  function FieldsOf(m: Msg): Bytes {
    match m
    case Connect(clientId) => WriteText(clientId)
    case Disconnect => []
    case Subscriber(id, topic) => WriteInt(id) + WriteText(topic)
    case Publisher(id, topic) => WriteInt(id) + WriteText(topic)
    case Publish(id, value) => WriteInt(id) + WriteBytes(value)
  }

  /** The array of the type tag and the fields. */
  function Encode(m: Msg): Bytes {
    [ARRAY] + WriteInt(TypeOf(m)) + (FieldsOf(m) + [BREAK])
  }

  method Serialize(m: Msg, r: CborSerializer)
    modifies r
    ensures r.written == Encode(m) && r.size == |r.written|
    ensures r.err.NoError? <==> |Encode(m)| <= r.capacity
  {
    r.Begin();
    r.MemberInt(TypeOf(m));
    match m {
      case Connect(clientId) =>
        r.MemberText(clientId);
      case Disconnect =>
      case Subscriber(id, topic) =>
        r.MemberInt(id);
        r.MemberText(topic);
      case Publisher(id, topic) =>
        r.MemberInt(id);
        r.MemberText(topic);
      case Publish(id, value) =>
        r.MemberInt(id);
        r.MemberBytes(value);
    }
    r.End();
    EncodeInOrder(m);
  }

  lemma EncodeInOrder(m: Msg)
    ensures var head := [ARRAY] + WriteInt(TypeOf(m));
            Encode(m) ==
            match m
            case Connect(clientId) => head + WriteText(clientId) + [BREAK]
            case Disconnect => head + [BREAK]
            case Subscriber(id, topic) => head + WriteInt(id) + WriteText(topic) + [BREAK]
            case Publisher(id, topic) => head + WriteInt(id) + WriteText(topic) + [BREAK]
            case Publish(id, value) => head + WriteInt(id) + WriteBytes(value) + [BREAK]
  {
    var head := [ARRAY] + WriteInt(TypeOf(m));
    match m
    case Connect(clientId) => Reassociate(head, WriteText(clientId), []);
    case Disconnect => Reassociate(head, [], []);
    case Subscriber(id, topic) => Reassociate(head, WriteInt(id), WriteText(topic));
    case Publisher(id, topic) => Reassociate(head, WriteInt(id), WriteText(topic));
    case Publish(id, value) => Reassociate(head, WriteInt(id), WriteBytes(value));
  }

  lemma Reassociate(head: Bytes, a: Bytes, b: Bytes)
    ensures head + (a + b + [BREAK]) == head + a + b + [BREAK]
    ensures a + [] == a && head + [] == head
  {
  }

  // ---- Reading ----

  /** The outcome of decoding: the final success flag, and whatever the variables then hold. */
  datatype Decoded<T> = Decoded(ok: bool, value: T)

  function DecodeBase(buffer: Bytes, stale: Int32): Decoded<Int32> {
    var c := Enter(buffer);
    Decoded(Advance(c.rest).err.NoError?, IntAt(c, stale))
  }

  /** The fields after the type tag, starting from variables whose id holds `junk`. */
  function ReadFields(kind: Int32, c: Cursor, junk: Int32): Decoded<Msg> {
    if kind == B_CONNECT then
      Decoded(Advance(c.rest).err.NoError?, Connect(Text(c)))
    else if kind == B_DISCONNECT then
      Decoded(c.err.NoError?, Disconnect)
    else
      var next := Advance(c.rest);
      var id := IntAt(c, junk);
      Decoded(
        Advance(next.rest).err.NoError?,
        if kind == B_SUBSCRIBER then Subscriber(id, Text(next))
        else if kind == B_PUBLISHER then Publisher(id, Text(next))
        else Publish(id, Value(next)))
  }

  function Text(c: Cursor): Blob {
    Sized(TextAt(c, []))
  }

  function Value(c: Cursor): Blob {
    Sized(BytesAt(c, []))
  }

  /** No memory holds more than 2^64 octets. */
  function Sized(b: Bytes): Blob {
    if |b| < TWO_TO_THE_64 then b else b[..TWO_TO_THE_64 - 1]
  }

  function DecodeMsg(kind: Int32, buffer: Bytes, junk: Int32): Decoded<Msg> {
    ReadFields(kind, Advance(Enter(buffer).rest), junk)
  }

  /** No text among the fields is read from an unset pointer. */
  predicate FieldsReadSafe(kind: Int32, c: Cursor) {
    if kind == B_CONNECT then TextReadSafe(c)
    else kind == B_SUBSCRIBER || kind == B_PUBLISHER ==> TextReadSafe(Advance(c.rest))
  }

  predicate DecodeSafe(kind: Int32, buffer: Bytes) {
    FieldsReadSafe(kind, Advance(Enter(buffer).rest))
  }

  method ReflectBase(r: CborDeserializer, stale: Int32) returns (msgType: Int32)
    modifies r
    ensures r.buffer == old(r.buffer)
    ensures Decoded(r.err.NoError?, msgType) == DecodeBase(r.buffer, stale)
  {
    r.Begin();
    msgType := r.MemberInt(stale);
  }

  /** The `reflect` of the message type `kind`, run by a deserializer on a default-made message. */
  method Deserialize(kind: Int32, r: CborDeserializer, junk: Int32) returns (m: Msg)
    modifies r
    ensures r.buffer == old(r.buffer)
    ensures DecodeSafe(kind, r.buffer) ==> Decoded(r.err.NoError?, m) == DecodeMsg(kind, r.buffer, junk)
  {
    r.Begin();
    r.MemberConstInt(kind);
    if kind == B_CONNECT {
      var clientId := r.MemberText([]);
      m := Connect(Sized(clientId));
    } else if kind == B_DISCONNECT {
      m := Disconnect;
    } else {
      var id := r.MemberInt(junk);
      if kind == B_SUBSCRIBER {
        var topic := r.MemberText([]);
        m := Subscriber(id, Sized(topic));
      } else if kind == B_PUBLISHER {
        var topic := r.MemberText([]);
        m := Publisher(id, Sized(topic));
      } else {
        var value := r.MemberBytes([]);
        m := Publish(id, Sized(value));
      }
    }
  }

  /** Does the filter for `kind` let the frame through, its message variable holding `stale`? */
  predicate Passes(kind: Int32, frame: Bytes, stale: Int32) {
    DecodeBase(Cut(frame, PROXY_CAPACITY), stale) == Decoded(true, kind)
  }

  class MsgFilter {
    const msgType: Int32
    var baseType: Int32
    const fromCbor: CborDeserializer

    constructor (msgType: Int32, garbage: Int32)
      ensures this.msgType == msgType && baseType == garbage
      ensures fresh(fromCbor) && fromCbor.capacity == PROXY_CAPACITY
    {
      this.msgType, baseType := msgType, garbage;
      fromCbor := new CborDeserializer(PROXY_CAPACITY);
    }

    method On(input: Bytes) returns (pass: bool, out: Bytes)
      requires fromCbor.capacity == PROXY_CAPACITY
      modifies this, fromCbor
      ensures pass <==> Passes(msgType, input, old(baseType))
      ensures pass ==> out == input
      ensures baseType == DecodeBase(Cut(input, PROXY_CAPACITY), old(baseType)).value
    {
      out := [];
      fromCbor.FromBytes(input);
      baseType := ReflectBase(fromCbor, baseType);
      var ok := fromCbor.Success();
      pass := ok && baseType == msgType;
      if pass {
        out := input;
      }
    }
  }

  // ---- Round trip ----

  /** Text fields end at their first NUL when they are read back. */
  function CutText(m: Msg): Msg {
    match m
    case Connect(clientId) => Connect(Sized(CString(clientId)))
    case Disconnect => Disconnect
    case Subscriber(id, topic) => Subscriber(id, Sized(CString(topic)))
    case Publisher(id, topic) => Publisher(id, Sized(CString(topic)))
    case Publish(id, value) => m
  }

  predicate NulFree(m: Msg) {
    match m
    case Connect(clientId) => 0 !in clientId
    case Subscriber(_, topic) => 0 !in topic
    case Publisher(_, topic) => 0 !in topic
    case _ => true
  }

  /** Every field comes back exactly when no text field holds a NUL. */
  lemma CutTextIff(m: Msg)
    ensures CutText(m) == m <==> NulFree(m)
  {
    match m
    case Connect(clientId) => CStringIff(clientId);
    case Subscriber(_, topic) => CStringIff(topic);
    case Publisher(_, topic) => CStringIff(topic);
    case _ =>
  }

  lemma EnterArray(rest: Bytes)
    requires rest != []
    ensures Enter([ARRAY] + rest) == Cursor(NoError, rest)
  {
  }

  /** Whatever the filter's variable held before, it ends with the tag of the message. */
  lemma TagRead(kind: Int32, rest: Bytes, stale: Int32)
    requires rest != []
    ensures DecodeBase([ARRAY] + WriteInt(kind) + rest, stale) == Decoded(true, kind)
    ensures Advance(Enter([ARRAY] + WriteInt(kind) + rest).rest) == Cursor(NoError, rest)
  {
    assert [ARRAY] + WriteInt(kind) + rest == [ARRAY] + (WriteInt(kind) + rest);
    EnterArray(WriteInt(kind) + rest);
    ReadInt(kind, rest, stale);
  }

  lemma FieldsComplete(m: Msg, junk: Int32)
    ensures ReadFields(TypeOf(m), Cursor(NoError, FieldsOf(m) + [BREAK]), junk) == Decoded(true, CutText(m))
  {
    hide Advance, IntAt, TextAt, BytesAt, WriteInt, WriteText, WriteBytes, CString;
    var end := [BREAK];
    match m
    case Connect(clientId) =>
      ReadText(clientId, end, []);
    case Disconnect =>
    case Subscriber(id, topic) =>
      TextFieldsComplete(id, topic, junk);
    case Publisher(id, topic) =>
      TextFieldsComplete(id, topic, junk);
    case Publish(id, value) =>
      assert FieldsOf(m) + end == WriteInt(id) + (WriteBytes(value) + end);
      ReadInt(id, WriteBytes(value) + end, junk);
      ReadBytes(value, end, []);
  }

  lemma TextFieldsComplete(id: Int32, topic: Blob, junk: Int32)
    ensures var c := Cursor(NoError, WriteInt(id) + WriteText(topic) + [BREAK]);
            var next := Advance(c.rest);
            IntAt(c, junk) == id && Advance(next.rest).err.NoError? && TextAt(next, []) == CString(topic)
  {
    var end := [BREAK];
    assert WriteInt(id) + WriteText(topic) + end == WriteInt(id) + (WriteText(topic) + end);
    ReadInt(id, WriteText(topic) + end, junk);
    ReadText(topic, end, []);
  }

  // ---- Messages cut by a buffer that is too small ----

  lemma IncompleteStaysIncomplete(s: Bytes)
    requires ItemSize(s) == None
    ensures Advance(s).rest == s && !Advance(s).err.NoError?
  {
  }

  lemma LastStringCut(major: nat, b: Blob, k: nat)
    requires major == BYTE_STRING || major == TEXT_STRING
    requires k <= |WriteHead(major, |b|) + b|
    ensures !Advance((WriteHead(major, |b|) + b)[..k]).err.NoError?
  {
    hide WriteHead, Advance, ItemSize;
    var x := WriteHead(major, |b|) + b;
    if k < |x| {
      StringPrefix(major, b, k);
      IncompleteStaysIncomplete(x[..k]);
    } else {
      WholeString(major, b);
      WholePrefix(x);
    }
  }

  lemma IdAndStringCut(id: Int32, major: nat, b: Blob, k: nat)
    requires major == BYTE_STRING || major == TEXT_STRING
    requires k <= |WriteInt(id) + (WriteHead(major, |b|) + b)|
    ensures !Advance(Advance((WriteInt(id) + (WriteHead(major, |b|) + b))[..k]).rest).err.NoError?
  {
    var i, x := WriteInt(id), WriteHead(major, |b|) + b;
    if k < |i| {
      assert (i + x)[..k] == i[..k];
      IntPrefix(id, k);
    } else if k == |i| {
      assert (i + x)[..k] == i;
      WholeInt(id);
    } else {
      var j := k - |i|;
      assert (i + x)[..k] == i + x[..j];
      ReadInt(id, x[..j], 0);
      LastStringCut(major, b, j);
    }
  }

  lemma FieldsCut(m: Msg, k: nat, junk: Int32)
    requires !m.Disconnect? && k <= |FieldsOf(m)|
    ensures var c := Cursor(NoError, FieldsOf(m)[..k]);
            FieldsReadSafe(TypeOf(m), c) ==> !ReadFields(TypeOf(m), c, junk).ok
  {
    match m
    case Connect(clientId) => LastStringCut(TEXT_STRING, clientId, k);
    case Subscriber(id, topic) => IdAndStringCut(id, TEXT_STRING, topic, k);
    case Publisher(id, topic) => IdAndStringCut(id, TEXT_STRING, topic, k);
    case Publish(id, value) => IdAndStringCut(id, BYTE_STRING, value, k);
    case Disconnect =>
  }

  lemma TagSize(m: Msg)
    ensures |WriteInt(TypeOf(m))| == 1
  {
  }

  /** The bytes a buffer keeps of an encoded message: the tag, and a non-empty part of the rest. */
  lemma CutKeepsTag(m: Msg, capacity: nat)
    requires capacity >= 3
    ensures var rest := Cut(FieldsOf(m) + [BREAK], capacity - 2);
            rest != [] && Cut(Encode(m), capacity) == [ARRAY] + WriteInt(TypeOf(m)) + rest
    ensures |Encode(m)| == 2 + |FieldsOf(m) + [BREAK]|
  {
    TagSize(m);
    var head, tail := [ARRAY] + WriteInt(TypeOf(m)), FieldsOf(m) + [BREAK];
    assert |head| == 2 && Encode(m) == head + tail;
    if |tail| > capacity - 2 {
      assert (head + tail)[..capacity] == head + tail[..capacity - 2];
    }
  }

  lemma DecodeFields(kind: Int32, rest: Bytes, junk: Int32)
    requires rest != []
    ensures DecodeMsg(kind, [ARRAY] + WriteInt(kind) + rest, junk) == ReadFields(kind, Cursor(NoError, rest), junk)
    ensures DecodeSafe(kind, [ARRAY] + WriteInt(kind) + rest) <==> FieldsReadSafe(kind, Cursor(NoError, rest))
  {
    TagRead(kind, rest, 0);
  }

  lemma FieldsExact(m: Msg, space: nat, junk: Int32)
    requires space > 0
    ensures var tail := FieldsOf(m) + [BREAK];
            var c := Cursor(NoError, Cut(tail, space));
            var d := ReadFields(TypeOf(m), c, junk);
            if |tail| <= space then FieldsReadSafe(TypeOf(m), c) && d == Decoded(true, CutText(m))
            else FieldsReadSafe(TypeOf(m), c) ==> !d.ok
  {
    var tail := FieldsOf(m) + [BREAK];
    if |tail| <= space {
      FieldsComplete(m, junk);
      FieldsIntact(m, tail);
    } else {
      assert Cut(tail, space) == FieldsOf(m)[..space];
      FieldsCut(m, space, junk);
    }
  }

  /** A text field followed by more is safe to read, and so are all fields of a whole message. */
  lemma FieldsIntact(m: Msg, tail: Bytes)
    requires tail == FieldsOf(m) + [BREAK]
    ensures FieldsReadSafe(TypeOf(m), Cursor(NoError, tail))
  {
    hide Advance, ItemSize, NextIs, WriteInt, WriteHead;
    match m
    case Connect(clientId) => ReadString(TEXT_STRING, clientId, [BREAK]);
    case Subscriber(id, topic) => TopicIntact(id, topic);
    case Publisher(id, topic) => TopicIntact(id, topic);
    case _ =>
  }

  lemma TopicIntact(id: Int32, topic: Blob)
    ensures TextReadSafe(Advance(WriteInt(id) + WriteText(topic) + [BREAK]))
  {
    hide Advance, ItemSize, NextIs, WriteInt, WriteHead;
    assert WriteInt(id) + WriteText(topic) + [BREAK] == WriteInt(id) + (WriteText(topic) + [BREAK]);
    ReadInt(id, WriteText(topic) + [BREAK], 0);
    ReadString(TEXT_STRING, topic, [BREAK]);
  }

  /**
   A message decodes from a buffer of a given capacity exactly when all its bytes fit, and then all
   its fields are restored, up to the NULs in text. One that does not fit is refused, unless reading
   it takes the program to an unset pointer (see DecodeSafeIff).
   */
  lemma DecodeExact(m: Msg, capacity: nat, junk: Int32)
    requires capacity >= 3
    ensures var buffer := Cut(Encode(m), capacity);
            var d := DecodeMsg(TypeOf(m), buffer, junk);
            if |Encode(m)| <= capacity then DecodeSafe(TypeOf(m), buffer) && d == Decoded(true, CutText(m))
            else DecodeSafe(TypeOf(m), buffer) ==> !d.ok
  {
    hide *;
    CutKeepsTag(m, capacity);
    DecodeFields(TypeOf(m), Cut(FieldsOf(m) + [BREAK], capacity - 2), junk);
    FieldsExact(m, capacity - 2, junk);
  }

  /** The text of the message, if it has one, arrives whole: at most its closing break is lost. */
  predicate TextArrives(m: Msg, capacity: nat) {
    m.Disconnect? || m.Publish? || |Encode(m)| <= capacity + 1
  }

  lemma CutTopicSafeIff(id: Int32, topic: Blob, space: nat)
    requires space >= 14
    ensures var tail := WriteInt(id) + WriteText(topic) + [BREAK];
            TextReadSafe(Advance(Cut(tail, space))) <==> |tail| <= space + 1
  {
    hide Advance, ItemSize, NextIs, WriteInt, WriteHead, TextReadSafe;
    IntSize(id);
    var tail, text := WriteInt(id) + WriteText(topic) + [BREAK], WriteText(topic) + [BREAK];
    assert tail == WriteInt(id) + text;
    if |tail| <= space {
      TopicIntact(id, topic);
    } else {
      var k := space - |WriteInt(id)|;
      assert tail[..space] == WriteInt(id) + text[..k];
      ReadInt(id, text[..k], 0);
      TextSafeIff(topic, [BREAK], k);
    }
  }

  /**
   For all messages and all buffers that keep the heads: decoding stays clear of the unset pointer
   exactly when the message has no text, or is at most one octet longer than the buffer.
   */
  lemma DecodeSafeIff(m: Msg, capacity: nat)
    requires capacity >= 16
    ensures DecodeSafe(TypeOf(m), Cut(Encode(m), capacity)) <==> TextArrives(m, capacity)
  {
    hide Advance, ItemSize, NextIs, WriteInt, WriteHead, TextReadSafe, Enter, Encode, DecodeSafe;
    var space, tail := capacity - 2, FieldsOf(m) + [BREAK];
    CutKeepsTag(m, capacity);
    DecodeFields(TypeOf(m), Cut(tail, space), 0);
    match m
    case Connect(clientId) =>
      if |tail| <= space {
        FieldsIntact(m, tail);
      } else {
        TextSafeIff(clientId, [BREAK], space);
      }
    case Subscriber(id, topic) => CutTopicSafeIff(id, topic, space);
    case Publisher(id, topic) => CutTopicSafeIff(id, topic, space);
    case _ =>
  }

  /** So a connect with a long client id passes its filter and then makes the handler read astray. */
  lemma LongConnectReadsAstray(clientId: Blob, stale: Int32)
    requires |clientId| > 1024
    ensures Passes(B_CONNECT, Encode(Connect(clientId)), stale)
    ensures !DecodeSafe(B_CONNECT, Cut(Encode(Connect(clientId)), PROXY_CAPACITY))
  {
    hide Passes, DecodeSafe;
    var m := Connect(clientId);
    UniqueFilter(m, B_CONNECT, stale);
    DecodeSafeIff(m, PROXY_CAPACITY);
  }

  /** Exactly the filter of the message's own type lets it through, whatever it held before. */
  lemma UniqueFilter(m: Msg, kind: Int32, stale: Int32)
    ensures Passes(kind, Encode(m), stale) <==> kind == TypeOf(m)
  {
    CutKeepsTag(m, PROXY_CAPACITY);
    TagRead(TypeOf(m), Cut(FieldsOf(m) + [BREAK], PROXY_CAPACITY - 2), stale);
  }

  /** A tagged frame passes exactly the filter of its tag, and only if the array goes on after the tag. */
  lemma TaggedPassesIff(kind: Int32, tag: Int32, rest: Bytes, stale: Int32)
    requires |[ARRAY] + WriteInt(tag) + rest| <= PROXY_CAPACITY
    ensures Passes(kind, [ARRAY] + WriteInt(tag) + rest, stale) <==> rest != [] && tag == kind
  {
    hide WriteInt, Advance, IntAt;
    if rest != [] {
      TagRead(tag, rest, stale);
    } else {
      assert [ARRAY] + WriteInt(tag) + rest == [ARRAY] + WriteInt(tag);
      IntSize(tag);
      EnterArray(WriteInt(tag));
      WholeInt(tag);
    }
  }

  /** A frame with a text in place of the tag passes the filter that last saw its own type. */
  lemma StaleTagDecides(kind: Int32, text: Blob, rest: Bytes, stale: Int32)
    requires rest != [] && |[ARRAY] + WriteText(text) + rest| <= PROXY_CAPACITY
    ensures Passes(kind, [ARRAY] + WriteText(text) + rest, stale) <==> stale == kind
  {
    hide WriteText, Advance, IntAt;
    assert [ARRAY] + WriteText(text) + rest == [ARRAY] + (WriteText(text) + rest);
    EnterArray(WriteText(text) + rest);
    OtherTypeKept(0, text, rest, stale, 0, []);
    ReadText(text, rest, []);
  }

  // ---- Dispatch ----

  /** The variables of the five filters, and the uninitialised ids of the handlers' messages. */
  datatype Filters = Filters(connect: Int32, subscriber: Int32, publisher: Int32, publish: Int32, disconnect: Int32)

  /** One filter and its handler: the message the handler acts on, if it gets that far. */
  function Fire(kind: Int32, frame: Bytes, stale: Int32, junk: Int32): seq<Msg> {
    var d := DecodeMsg(kind, Cut(frame, PROXY_CAPACITY), junk);
    if Passes(kind, frame, stale) && d.ok then [d.value] else []
  }

  /** All handlers that act on a frame, in the order the pipeline was wired. */
  function Dispatch(frame: Bytes, stale: Filters, junk: Int32): seq<Msg> {
    Fire(B_CONNECT, frame, stale.connect, junk) + Fire(B_SUBSCRIBER, frame, stale.subscriber, junk) +
    Fire(B_PUBLISHER, frame, stale.publisher, junk) + Fire(B_PUBLISH, frame, stale.publish, junk) +
    Fire(B_DISCONNECT, frame, stale.disconnect, junk)
  }

  /** A handler whose filter lets the frame through stays clear of the unset pointer. */
  predicate FireSafe(kind: Int32, frame: Bytes, stale: Int32) {
    Passes(kind, frame, stale) ==> DecodeSafe(kind, Cut(frame, PROXY_CAPACITY))
  }

  predicate DispatchSafe(frame: Bytes, stale: Filters) {
    && FireSafe(B_CONNECT, frame, stale.connect) && FireSafe(B_SUBSCRIBER, frame, stale.subscriber)
    && FireSafe(B_PUBLISHER, frame, stale.publisher) && FireSafe(B_PUBLISH, frame, stale.publish)
    && FireSafe(B_DISCONNECT, frame, stale.disconnect)
  }

  lemma FireExact(m: Msg, kind: Int32, stale: Int32, junk: Int32)
    ensures FireSafe(kind, Encode(m), stale) <==> kind == TypeOf(m) ==> TextArrives(m, PROXY_CAPACITY)
    ensures FireSafe(kind, Encode(m), stale) ==>
              Fire(kind, Encode(m), stale, junk) ==
              if kind == TypeOf(m) && |Encode(m)| <= PROXY_CAPACITY then [CutText(m)] else []
  {
    hide Passes, DecodeSafe, DecodeMsg, Encode, CutText;
    UniqueFilter(m, kind, stale);
    DecodeExact(m, PROXY_CAPACITY, junk);
    DecodeSafeIff(m, PROXY_CAPACITY);
  }

  /**
   From a message's bytes exactly one handler acts, the one for its type, with the same fields. None
   acts when the message is longer than the deserializer's buffer, provided that what is missing is
   not text; otherwise, and only then, the handler reads astray.
   */
  lemma DispatchExact(m: Msg, stale: Filters, junk: Int32)
    ensures DispatchSafe(Encode(m), stale) <==> TextArrives(m, PROXY_CAPACITY)
    ensures DispatchSafe(Encode(m), stale) ==>
              Dispatch(Encode(m), stale, junk) == if |Encode(m)| <= PROXY_CAPACITY then [CutText(m)] else []
  {
    hide Fire, FireSafe, Encode, TextArrives, CutText;
    FireExact(m, B_CONNECT, stale.connect, junk);
    FireExact(m, B_SUBSCRIBER, stale.subscriber, junk);
    FireExact(m, B_PUBLISHER, stale.publisher, junk);
    FireExact(m, B_PUBLISH, stale.publish, junk);
    FireExact(m, B_DISCONNECT, stale.disconnect, junk);
  }

  // ---- Nested values ----

  /** A 64-bit reading inside its own array, as the publishers write it: through a 32-bit integer. */
  function EncodeValue(t: UInt64): Blob {
    var bs := [ARRAY] + WriteInt(Wrap32(t)) + [BREAK];
    IntSize(Wrap32(t));
    bs
  }

  /** What a 64-bit subscriber's variable holds after decoding, if it held `stale` before. */
  function DecodeValue(bs: Bytes, stale: UInt64): UInt64 {
    UInt64At(Enter(Cut(bs, UC_CAPACITY)), stale)
  }

  lemma DecodeValueExact(t: UInt64, stale: UInt64)
    ensures DecodeValue(EncodeValue(t), stale) == if Wrap32(t) >= 0 then Wrap32(t) else stale
  {
    var i := Wrap32(t);
    IntSize(i);
    EnteredValue(i, EncodeValue(t));
    ReadIntUnsigned(i, [BREAK], stale);
  }

  lemma EnteredValue(i: Int32, bs: Bytes)
    requires bs == [ARRAY] + WriteInt(i) + [BREAK]
    ensures Enter(bs) == Cursor(NoError, WriteInt(i) + [BREAK])
  {
    assert bs == [ARRAY] + (WriteInt(i) + [BREAK]);
    EnterArray(WriteInt(i) + [BREAK]);
  }

  lemma Wrap32Iff(t: UInt64)
    ensures Wrap32(t) == t <==> t < 0x8000_0000
  {
  }

  /**
   A reading survives the trip exactly when it is below 2^31: from there on the conversion to a
   32-bit integer loses it, and the subscriber gets a smaller number or whatever it held before.
   */
  lemma ValueRoundTripIff(t: UInt64)
    ensures (forall stale: UInt64 :: DecodeValue(EncodeValue(t), stale) == t) <==> t < 0x8000_0000
  {
    Wrap32Iff(t);
    if t < 0x8000_0000 {
      forall stale: UInt64
        ensures DecodeValue(EncodeValue(t), stale) == t
      {
        DecodeValueExact(t, stale);
      }
    } else {
      DecodeValueExact(t, 0);
      assert DecodeValue(EncodeValue(t), 0) != t;
    }
  }

  /** The message around a reading takes at most 16 octets, far below the 100-octet buffers. */
  lemma ValueMessageFits(id: Int32, t: UInt64)
    ensures |Encode(Publish(id, EncodeValue(t)))| <= 16
  {
    IntSize(id);
    IntSize(Wrap32(t));
    TagSize(Publish(id, EncodeValue(t)));
    SmallHead(EncodeValue(t));
  }

  /**
   A reading through its message: the 100-octet buffer of a subscriber gives the id and the nested
   value back, and from these the reading, exactly when it is below 2^31.
   */
  lemma ReadingRoundTripIff(id: Int32, t: UInt64, junk: Int32)
    ensures var m := Publish(id, EncodeValue(t));
            var d := DecodeMsg(B_PUBLISH, Cut(Encode(m), UC_CAPACITY), junk);
            d == Decoded(true, m) &&
            ((forall stale: UInt64 :: DecodeValue(d.value.value, stale) == t) <==> t < 0x8000_0000)
  {
    hide Encode, EncodeValue, DecodeValue, DecodeMsg, DecodeSafe;
    ValueMessageFits(id, t);
    DecodeExact(Publish(id, EncodeValue(t)), UC_CAPACITY, junk);
    ValueRoundTripIff(t);
  }

  /** The serializer's 64-bit overload, had it been chosen, would have kept every reading. */
  lemma WideOverloadKeepsAll(t: UInt64, bs: Blob, stale: UInt64)
    requires bs == [ARRAY] + WriteUInt64(t) + [BREAK]
    ensures DecodeValue(bs, stale) == t
  {
    hide ReadHead;
    assert |WriteUInt64(t)| <= 9;
    assert bs == [ARRAY] + (WriteUInt64(t) + [BREAK]);
    EnterArray(WriteUInt64(t) + [BREAK]);
    ReadUInt64(t, [BREAK], stale);
  }

  lemma SmallHead(b: Blob)
    requires |b| < 24
    ensures |WriteBytes(b)| == 1 + |b| && |WriteText(b)| == 1 + |b|
  {
  }

  // ---- The bytes pinned down by the unit test ----

  lemma ByteOfIs(n: nat, b: Byte)
    requires n < 256 && BitsOfByte(b) == BitsOfNat(n, 8)
    ensures ByteOf(n) == b
  {
    BitsOfByteOf(n);
    BitsOfByteInjective(ByteOf(n), b);
  }

  lemma BitsListed(b: Byte)
    ensures var w := Wide(b);
            BitsOfByte(b) == [BitAt(w, 0), BitAt(w, 1), BitAt(w, 2), BitAt(w, 3),
                              BitAt(w, 4), BitAt(w, 5), BitAt(w, 6), BitAt(w, 7)]
  {
  }

  lemma Byte0()
    ensures ByteOf(0x00) == 0x00
  {
    BitsListed(0x00);
    assert !BitAt(0x00, 0) && !BitAt(0x00, 1) && !BitAt(0x00, 2) && !BitAt(0x00, 3);
    assert !BitAt(0x00, 4) && !BitAt(0x00, 5) && !BitAt(0x00, 6) && !BitAt(0x00, 7);
    ByteOfIs(0x00, 0x00);
  }

  lemma Byte1()
    ensures ByteOf(0x01) == 0x01
  {
    BitsListed(0x01);
    assert BitAt(0x01, 0) && !BitAt(0x01, 1) && !BitAt(0x01, 2) && !BitAt(0x01, 3);
    assert !BitAt(0x01, 4) && !BitAt(0x01, 5) && !BitAt(0x01, 6) && !BitAt(0x01, 7);
    ByteOfIs(0x01, 0x01);
  }

  lemma Byte2()
    ensures ByteOf(0x02) == 0x02
  {
    BitsListed(0x02);
    assert !BitAt(0x02, 0) && BitAt(0x02, 1) && !BitAt(0x02, 2) && !BitAt(0x02, 3);
    assert !BitAt(0x02, 4) && !BitAt(0x02, 5) && !BitAt(0x02, 6) && !BitAt(0x02, 7);
    ByteOfIs(0x02, 0x02);
  }

  lemma Byte3()
    ensures ByteOf(0x03) == 0x03
  {
    BitsListed(0x03);
    assert BitAt(0x03, 0) && BitAt(0x03, 1) && !BitAt(0x03, 2) && !BitAt(0x03, 3);
    assert !BitAt(0x03, 4) && !BitAt(0x03, 5) && !BitAt(0x03, 6) && !BitAt(0x03, 7);
    ByteOfIs(0x03, 0x03);
  }

  lemma Byte4()
    ensures ByteOf(0x04) == 0x04
  {
    BitsListed(0x04);
    assert !BitAt(0x04, 0) && !BitAt(0x04, 1) && BitAt(0x04, 2) && !BitAt(0x04, 3);
    assert !BitAt(0x04, 4) && !BitAt(0x04, 5) && !BitAt(0x04, 6) && !BitAt(0x04, 7);
    ByteOfIs(0x04, 0x04);
  }

  lemma TextByte()
    ensures ByteOf(0x6D) == 0x6D
  {
    BitsListed(0x6D);
    assert BitAt(0x6D, 0) && !BitAt(0x6D, 1) && BitAt(0x6D, 2) && BitAt(0x6D, 3);
    assert !BitAt(0x6D, 4) && BitAt(0x6D, 5) && BitAt(0x6D, 6) && !BitAt(0x6D, 7);
    ByteOfIs(0x6D, 0x6D);
  }

  lemma TinyInt(i: Int32)
    requires 0 <= i < 24
    ensures WriteInt(i) == [ByteOf(i)]
  {
  }

  lemma ShortText(topic: Blob)
    requires |topic| == 13
    ensures WriteText(topic) == [ByteOf(0x6D)] + topic
  {
  }

  /** A publisher with id 2 and a topic of 13 octets: the exact 18 octets. */
  lemma PinnedPublisher(topic: Blob)
    requires |topic| == 13
    ensures Encode(Publisher(2, topic)) == [0x9F, 0x03, 0x02, 0x6D] + topic + [0xFF]
  {
    hide ByteOf, WriteInt, WriteText;
    Byte2();
    Byte3();
    TextByte();
    TinyInt(B_PUBLISHER);
    TinyInt(2);
    ShortText(topic);
    Flattened<Byte>(0x9F, 0x03, 0x02, 0x6D, topic, 0xFF);
  }

  lemma Flattened<T>(a: T, b: T, c: T, d: T, s: seq<T>, e: T)
    ensures [a] + [b] + ([c] + ([d] + s) + [e]) == [a, b, c, d] + s + [e]
  {
  }

  /** The type tags as octets on the wire. */
  lemma TagOctets()
    ensures WriteInt(0) == [0x00] && WriteInt(1) == [0x01] && WriteInt(2) == [0x02]
    ensures WriteInt(3) == [0x03] && WriteInt(4) == [0x04]
  {
    hide ByteOf, WriteInt;
    Byte0();
    Byte1();
    Byte2();
    Byte3();
    Byte4();
    TinyInt(0);
    TinyInt(1);
    TinyInt(2);
    TinyInt(3);
    TinyInt(4);
  }

  /** The octets of every message: array, tag, fields in the order of the declarations, break. */
  lemma WireLayout(m: Msg)
    ensures Encode(m) ==
            match m
            case Connect(clientId) => [0x9F, 0x00] + WriteText(clientId) + [0xFF]
            case Disconnect => [0x9F, 0x01] + [0xFF]
            case Subscriber(id, topic) => [0x9F, 0x02] + WriteInt(id) + WriteText(topic) + [0xFF]
            case Publisher(id, topic) => [0x9F, 0x03] + WriteInt(id) + WriteText(topic) + [0xFF]
            case Publish(id, value) => [0x9F, 0x04] + WriteInt(id) + WriteBytes(value) + [0xFF]
  {
    hide WriteInt, WriteText, WriteBytes, Encode;
    TagOctets();
    EncodeInOrder(m);
  }
}
