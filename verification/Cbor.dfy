/**
 The subset of CBOR (RFC 8949) the broker messages use: shortest heads (section 4.1) for integers,
 byte strings and text strings (section 3.1), inside indefinite-length arrays (section 3.2.2), and
 a read cursor over the elements of such an array.
 */
module Cbor {
  import opened ByteStrings
  import opened Octets
  import opened Wrappers

  const ARRAY: Byte := 0x9F
  const BREAK: Byte := 0xFF

  const UNSIGNED := 0
  const NEGATIVE := 1
  const BYTE_STRING := 2
  const TEXT_STRING := 3

  // ---- Writing ----

  /** Big-endian, `k` octets. */
  function BigEndian(n: nat, k: nat): (s: Bytes)
    ensures |s| == k
    decreases k
  {
    if k == 0 then [] else BigEndian(n / 256, k - 1) + [ByteOf(n % 256)]
  }

  function InfoOf(n: nat): nat {
    if n < 24 then n else if n < 0x100 then 24 else if n < 0x1_0000 then 25 else if n < TWO_TO_THE_32 then 26 else 27
  }

  /** Octets of argument that follow the initial byte. */
  function ArgumentSize(info: nat): nat {
    if info < 24 then 0 else if info == 24 then 1 else if info == 25 then 2 else if info == 26 then 4 else 8
  }

  function InitialByte(major: nat, info: nat): Byte
    requires major < 8 && info < 32
  {
    ByteOf(32 * major + info)
  }

  function MajorOf(b: Byte): nat {
    ValueOf(b) / 32
  }

  function InfoIn(b: Byte): nat {
    ValueOf(b) % 32
  }

  function WriteHead(major: nat, n: UInt64): (s: Bytes)
    requires major < 7
    ensures |s| == 1 + ArgumentSize(InfoOf(n))
  {
    [InitialByte(major, InfoOf(n))] + BigEndian(n, ArgumentSize(InfoOf(n)))
  }

  function WriteInt(i: Int32): Bytes {
    if i >= 0 then WriteHead(UNSIGNED, i) else WriteHead(NEGATIVE, -1 - i)
  }

  function WriteUInt64(n: UInt64): Bytes {
    WriteHead(UNSIGNED, n)
  }

  function WriteBytes(b: Blob): Bytes {
    WriteHead(BYTE_STRING, |b|) + b
  }

  function WriteText(t: Blob): Bytes {
    WriteHead(TEXT_STRING, |t|) + t
  }

  // ---- Reading ----

  datatype Head = Head(major: nat, value: nat, size: nat)

  function FromBigEndian(s: Bytes): nat {
    if s == [] then 0 else 256 * FromBigEndian(s[..|s| - 1]) + ValueOf(s[|s| - 1])
  }

  function ReadHead(s: Bytes): (h: Option<Head>)
    ensures h.Some? ==> 0 < h.value.size <= |s|
  {
    if s == [] then None
    else
      var major, info := MajorOf(s[0]), InfoIn(s[0]);
      var size := 1 + ArgumentSize(info);
      if info > 27 || |s| < size then None
      else if info < 24 then Some(Head(major, info, size))
      else Some(Head(major, FromBigEndian(s[1..size]), size))
  }

  /** The major type of the next element, if there is one. */
  predicate NextIs(s: Bytes, major: nat) {
    ReadHead(s).Some? && ReadHead(s).value.major == major
  }

  /** How many octets the next element takes, when it is complete and of a modelled type. */
  function ItemSize(s: Bytes): (n: Option<nat>)
    ensures n.Some? ==> 0 < n.value <= |s|
  {
    match ReadHead(s)
    case None => None
    case Some(h) =>
      if h.major <= NEGATIVE then Some(h.size)
      else if h.major <= TEXT_STRING && h.size + h.value <= |s| then Some(h.size + h.value)
      else None
  }

  datatype CborError = NoError | UnexpectedEOF | AdvancePastEOF | IllegalType | OutOfMemory

  /** A position among the elements of the array, and the outcome of the last operation. */
  datatype Cursor = Cursor(err: CborError, rest: Bytes)

  function Enter(buffer: Bytes): Cursor {
    if buffer == [] then Cursor(UnexpectedEOF, [])
    else if buffer[0] != ARRAY then Cursor(IllegalType, [])
    else Cursor(if |buffer| == 1 then UnexpectedEOF else NoError, buffer[1..])
  }

  /** Past the next element. The array must go on afterwards, at least with its break. */
  function Advance(s: Bytes): Cursor {
    match ItemSize(s)
    case Some(n) => Cursor(if |s| == n then UnexpectedEOF else NoError, s[n..])
    case None => Cursor(if s != [] && s[0] == BREAK then AdvancePastEOF else UnexpectedEOF, s)
  }

  function IntValue(h: Head): Int32 {
    if h.major == NEGATIVE then -1 - Wrap32(h.value) else Wrap32(h.value)
  }

  /** The argument as a 64-bit number; eight octets hold no more. */
  function Clip64(n: nat): UInt64 {
    if n < TWO_TO_THE_64 then n else TWO_TO_THE_64 - 1
  }

  function StringValue(s: Bytes): Bytes
    requires ItemSize(s).Some?
  {
    s[ReadHead(s).value.size..ItemSize(s).value]
  }

  /** A C string ends at its first NUL. */
  function CString(t: Bytes): Bytes {
    if t == [] || t[0] == 0 then [] else [t[0]] + CString(t[1..])
  }

  /** What each read leaves in its variable; a value of the wrong type leaves it as it was. */
  function IntAt(c: Cursor, t: Int32): Int32 {
    if c.err.NoError? && (NextIs(c.rest, UNSIGNED) || NextIs(c.rest, NEGATIVE)) then IntValue(ReadHead(c.rest).value)
    else t
  }

  function UInt64At(c: Cursor, t: UInt64): UInt64 {
    if c.err.NoError? && NextIs(c.rest, UNSIGNED) then Clip64(ReadHead(c.rest).value.value) else t
  }

  function BytesAt(c: Cursor, t: Bytes): Bytes {
    if c.err.NoError? && NextIs(c.rest, BYTE_STRING) && ItemSize(c.rest).Some? then StringValue(c.rest) else t
  }

  function TextAt(c: Cursor, t: Bytes): Bytes {
    if c.err.NoError? && NextIs(c.rest, TEXT_STRING) && ItemSize(c.rest).Some? then CString(StringValue(c.rest)) else t
  }

  /**
   A text is copied from a pointer that only a complete text sets: with a text that the input cuts
   short, the program copies from wherever the unset pointer leads.
   */
  predicate TextReadSafe(c: Cursor) {
    c.err.NoError? && NextIs(c.rest, TEXT_STRING) ==> ItemSize(c.rest).Some?
  }

  // ---- Heads round trip ----

  lemma {:induction false} BigEndianRoundTrip(n: nat, k: nat, bound: nat)
    requires n < bound && bound == Pow256(k)
    ensures FromBigEndian(BigEndian(n, k)) == n
    decreases k
  {
    if k > 0 {
      BigEndianRoundTrip(n / 256, k - 1, Pow256(k - 1));
      ValueOfByte(n % 256);
      assert BigEndian(n, k)[..k - 1] == BigEndian(n / 256, k - 1);
    }
  }

  function Pow256(k: nat): (p: nat)
    ensures p > 0
  {
    if k == 0 then 1 else 256 * Pow256(k - 1)
  }

  lemma Powers()
    ensures Pow256(1) == 0x100 && Pow256(2) == 0x1_0000 && Pow256(4) == TWO_TO_THE_32 && Pow256(8) == TWO_TO_THE_64
  {
    assert Pow256(3) == 0x100_0000 && Pow256(5) == 0x100_0000_0000;
    assert Pow256(6) == 0x1_0000_0000_0000 && Pow256(7) == 0x100_0000_0000_0000;
  }

  lemma InitialByteRoundTrip(major: nat, info: nat)
    requires major < 8 && info < 32
    ensures MajorOf(InitialByte(major, info)) == major && InfoIn(InitialByte(major, info)) == info
  {
    ValueOfByte(32 * major + info);
  }

  lemma ReadHeadOf(first: Byte, argument: Bytes, rest: Bytes)
    requires InfoIn(first) <= 27 && |argument| == ArgumentSize(InfoIn(first))
    ensures ReadHead([first] + argument + rest) ==
            Some(Head(MajorOf(first), if InfoIn(first) < 24 then InfoIn(first) else FromBigEndian(argument), 1 + |argument|))
  {
    var s := [first] + argument + rest;
    assert s[0] == first;
    assert s[1..1 + |argument|] == argument;
  }

  lemma ArgumentRoundTrip(n: UInt64)
    requires n >= 24
    ensures FromBigEndian(BigEndian(n, ArgumentSize(InfoOf(n)))) == n
  {
    var size := ArgumentSize(InfoOf(n));
    Powers();
    BigEndianRoundTrip(n, size, Pow256(size));
  }

  lemma HeadRoundTrip(major: nat, n: UInt64, rest: Bytes)
    requires major < 7
    ensures ReadHead(WriteHead(major, n) + rest) == Some(Head(major, n, |WriteHead(major, n)|))
  {
    InitialByteRoundTrip(major, InfoOf(n));
    ReadHeadOf(InitialByte(major, InfoOf(n)), BigEndian(n, ArgumentSize(InfoOf(n))), rest);
    if n >= 24 {
      ArgumentRoundTrip(n);
    }
  }

  lemma {:induction false} BigEndianBound(s: Bytes)
    ensures FromBigEndian(s) < Pow256(|s|)
  {
    if s != [] {
      BigEndianBound(s[..|s| - 1]);
      ValueBound(s[|s| - 1]);
    }
  }

  lemma SmallestInfo(n: UInt64, info: nat)
    requires info <= 27 && if info < 24 then n == info else n < Pow256(ArgumentSize(info))
    ensures ArgumentSize(InfoOf(n)) <= ArgumentSize(info)
  {
    Powers();
  }

  /** No head at all that reads as the same type and argument is shorter (RFC 8949, section 4.1). */
  lemma HeadShortest(major: nat, n: UInt64, h: Bytes)
    requires major < 7 && ReadHead(h) == Some(Head(major, n, |h|))
    ensures |WriteHead(major, n)| <= |h|
  {
    hide FromBigEndian, MajorOf, InfoIn, ArgumentSize, InfoOf, Pow256;
    var info := InfoIn(h[0]);
    assert h[1..|h|] == h[1..];
    BigEndianBound(h[1..]);
    SmallestInfo(n, info);
  }

  /** The octets of an argument of `k` octets, most significant first (RFC 8949, section 3). */
  lemma {:induction false} NetworkOrder(n: nat, k: nat, i: nat)
    requires i < k
    ensures ValueOf(BigEndian(n, k)[i]) == (n / Pow256(k - 1 - i)) % 256
    decreases k
  {
    if i == k - 1 {
      ValueOfByte(n % 256);
      assert Pow256(0) == 1;
    } else {
      NetworkOrder(n / 256, k - 1, i);
      Divided(n, Pow256(k - 2 - i));
    }
  }

  lemma Divided(n: nat, d: nat)
    requires d > 0
    ensures 256 * d > 0 && n / 256 / d == n / (256 * d)
  {
    var q, r := n / (256 * d), n % (256 * d);
    assert n == q * (256 * d) + r;
    assert n / 256 == q * d + r / 256 by {
      assert n == 256 * (q * d) + r;
    }
    assert 0 <= r / 256 < d;
    Quotient(n / 256, d, q, r / 256);
  }

  lemma Multiples(a: nat, b: nat, d: nat)
    requires a < b
    ensures a * d + d <= b * d
  {
    assert b * d == a * d + (b - a) * d;
    assert (b - a) * d == d + (b - a - 1) * d;
  }

  lemma Quotient(n: nat, d: nat, q: nat, r: nat)
    requires n == q * d + r && r < d
    ensures n / d == q
  {
    var p, s := n / d, n % d;
    assert n == p * d + s;
    if p > q {
      Multiples(q, p, d);
    } else if p < q {
      Multiples(p, q, d);
    }
  }

  /** Every octet of a head, as a number (RFC 8949, section 3). */
  lemma HeadLayout(major: nat, n: UInt64)
    requires major < 7
    ensures var h := WriteHead(major, n);
            && |h| in {1, 2, 3, 5, 9}
            && ValueOf(h[0]) == 32 * major + (if |h| == 1 then n else if |h| == 2 then 24 else if |h| == 3 then 25
                                              else if |h| == 5 then 26 else 27)
            && forall i :: 1 <= i < |h| ==> ValueOf(h[i]) == (n / Pow256(|h| - 1 - i)) % 256
  {
    hide BigEndian;
    var h := WriteHead(major, n);
    ValueOfByte(32 * major + InfoOf(n));
    forall i | 1 <= i < |h|
      ensures ValueOf(h[i]) == (n / Pow256(|h| - 1 - i)) % 256
    {
      NetworkOrder(n, |h| - 1, i - 1);
    }
  }

  /** The heads of integers and strings, by the numbers of their major types. */
  lemma ElementLayout(i: Int32, b: Blob)
    ensures WriteInt(i) == if i >= 0 then WriteHead(0, i) else WriteHead(1, -1 - i)
    ensures WriteBytes(b) == WriteHead(2, |b|) + b && WriteText(b) == WriteHead(3, |b|) + b
  {
  }

  /** A strict prefix of a head is not a head. */
  lemma HeadPrefix(major: nat, n: UInt64, k: nat)
    requires major < 7 && k < |WriteHead(major, n)|
    ensures ReadHead(WriteHead(major, n)[..k]) == None
  {
    InitialByteRoundTrip(major, InfoOf(n));
    if k > 0 {
      assert WriteHead(major, n)[..k][0] == InitialByte(major, InfoOf(n));
    }
  }

  // ---- Elements round trip ----

  lemma Wrap32Id(i: Int32)
    ensures Wrap32(i) == i
  {
  }

  lemma IntHead(i: Int32, rest: Bytes)
    ensures ReadHead(WriteInt(i) + rest) ==
            Some(Head(if i >= 0 then UNSIGNED else NEGATIVE, if i >= 0 then i else -1 - i, |WriteInt(i)|))
  {
    if i >= 0 {
      HeadRoundTrip(UNSIGNED, i, rest);
    } else {
      HeadRoundTrip(NEGATIVE, -1 - i, rest);
    }
  }

  /** An integer is read back, and the cursor moves to what follows. */
  lemma ReadInt(i: Int32, rest: Bytes, t: Int32)
    requires rest != []
    ensures IntAt(Cursor(NoError, WriteInt(i) + rest), t) == i
    ensures Advance(WriteInt(i) + rest) == Cursor(NoError, rest)
  {
    IntHead(i, rest);
    Wrap32Id(if i >= 0 then i else -1 - i);
  }

  lemma ReadUInt64(n: UInt64, rest: Bytes, t: UInt64)
    requires rest != []
    ensures UInt64At(Cursor(NoError, WriteUInt64(n) + rest), t) == n
    ensures Advance(WriteUInt64(n) + rest) == Cursor(NoError, rest)
  {
    HeadRoundTrip(UNSIGNED, n, rest);
  }

  /** An integer read as a 64-bit number: only a non-negative one is taken. */
  lemma ReadIntUnsigned(i: Int32, rest: Bytes, t: UInt64)
    ensures UInt64At(Cursor(NoError, WriteInt(i) + rest), t) == if i >= 0 then i else t
  {
    IntHead(i, rest);
  }

  lemma IntSize(i: Int32)
    ensures 1 <= |WriteInt(i)| <= 5
  {
  }

  /** At the end of the input an element is complete, but nothing closes the array. */
  lemma WholeInt(i: Int32)
    ensures Advance(WriteInt(i)) == Cursor(UnexpectedEOF, [])
  {
    assert WriteInt(i) + [] == WriteInt(i);
    IntHead(i, []);
  }

  lemma WholeString(major: nat, b: Blob)
    requires major == BYTE_STRING || major == TEXT_STRING
    ensures Advance(WriteHead(major, |b|) + b) == Cursor(UnexpectedEOF, [])
  {
    HeadRoundTrip(major, |b|, b);
  }

  lemma ReadString(major: nat, b: Blob, rest: Bytes)
    requires major == BYTE_STRING || major == TEXT_STRING
    requires rest != []
    ensures var s := WriteHead(major, |b|) + b + rest;
            NextIs(s, major) && ItemSize(s).Some? && StringValue(s) == b && Advance(s) == Cursor(NoError, rest)
  {
    var head := WriteHead(major, |b|);
    assert head + b + rest == head + (b + rest);
    HeadRoundTrip(major, |b|, b + rest);
  }

  lemma ReadBytes(b: Blob, rest: Bytes, t: Bytes)
    requires rest != []
    ensures BytesAt(Cursor(NoError, WriteBytes(b) + rest), t) == b
    ensures Advance(WriteBytes(b) + rest) == Cursor(NoError, rest)
  {
    ReadString(BYTE_STRING, b, rest);
  }

  lemma ReadText(b: Blob, rest: Bytes, t: Bytes)
    requires rest != []
    ensures TextAt(Cursor(NoError, WriteText(b) + rest), t) == CString(b)
    ensures Advance(WriteText(b) + rest) == Cursor(NoError, rest)
  {
    ReadString(TEXT_STRING, b, rest);
  }

  /** A text with a NUL is read back up to the first one. */
  lemma {:induction false} CStringStops(a: Bytes, b: Bytes)
    requires 0 !in a
    ensures CString(a + [0] + b) == a
  {
    if a != [] {
      assert (a + [0] + b)[1..] == a[1..] + [0] + b;
      CStringStops(a[1..], b);
    }
  }

  /** An integer too wide for its 32-bit variable keeps its low bits. */
  lemma WideIntWraps(n: UInt64, rest: Bytes, t: Int32)
    ensures IntAt(Cursor(NoError, WriteHead(0, n) + rest), t) == Wrap32(n)
    ensures IntAt(Cursor(NoError, WriteHead(1, n) + rest), t) == Wrap32(-1 - n)
  {
    hide ReadHead, WriteHead, Wrap32;
    HeadRoundTrip(0, n, rest);
    HeadRoundTrip(1, n, rest);
    WrapNegated(n);
  }

  lemma WrapNegated(n: UInt64)
    ensures -1 - Wrap32(n) == Wrap32(-1 - n)
  {
  }

  /** A read that finds another type leaves its variable alone. */
  lemma OtherTypeKept(i: Int32, b: Blob, rest: Bytes, n: Int32, u: UInt64, t: Bytes)
    ensures BytesAt(Cursor(NoError, WriteInt(i) + rest), t) == t && TextAt(Cursor(NoError, WriteInt(i) + rest), t) == t
    ensures var c := Cursor(NoError, WriteText(b) + rest); IntAt(c, n) == n && UInt64At(c, u) == u && BytesAt(c, t) == t
    ensures var c := Cursor(NoError, WriteBytes(b) + rest); IntAt(c, n) == n && UInt64At(c, u) == u && TextAt(c, t) == t
  {
    hide ReadHead, WriteHead, WriteInt;
    IntHead(i, rest);
    StringHead(TEXT_STRING, b, rest);
    StringHead(BYTE_STRING, b, rest);
  }

  lemma StringHead(major: nat, b: Blob, rest: Bytes)
    requires major < 7
    ensures var h := ReadHead(WriteHead(major, |b|) + b + rest); h.Some? && h.value.major == major
  {
    assert WriteHead(major, |b|) + b + rest == WriteHead(major, |b|) + (b + rest);
    HeadRoundTrip(major, |b|, b + rest);
  }

  /** The C string of `t` is `t` itself exactly when `t` holds no NUL. */
  lemma {:induction false} CStringIff(t: Bytes)
    ensures CString(t) == t <==> 0 !in t
    ensures |CString(t)| <= |t|
  {
    if t != [] {
      CStringIff(t[1..]);
      assert t == [t[0]] + t[1..];
      if t[0] != 0 && CString(t) == t {
        assert CString(t)[1..] == CString(t[1..]);
      }
    }
  }

  // ---- Truncation ----

  /** Cut anywhere inside, a string is not complete. */
  lemma StringPrefix(major: nat, b: Blob, k: nat)
    requires BYTE_STRING <= major <= TEXT_STRING && k < |WriteHead(major, |b|) + b|
    ensures ItemSize((WriteHead(major, |b|) + b)[..k]) == None
  {
    var head := WriteHead(major, |b|);
    if k < |head| {
      HeadPrefix(major, |b|, k);
      assert (head + b)[..k] == head[..k];
    } else {
      var part := b[..k - |head|];
      assert (head + b)[..k] == head + part;
      HeadRoundTrip(major, |b|, part);
    }
  }

  lemma HeadSize(major: nat, n: UInt64)
    requires major < 7
    ensures |WriteHead(major, n)| <= 9
  {
  }

  lemma CutBehindHead(head: Bytes, b: Bytes, rest: Bytes, k: nat)
    requires |head| <= k <= |head + b + rest|
    ensures (head + b + rest)[..k] == head + (b + rest)[..k - |head|]
  {
  }

  /** A text with its head intact is safe to read exactly when all of it is there. */
  lemma PartSafeIff(b: Blob, part: Bytes)
    ensures TextReadSafe(Cursor(NoError, WriteHead(TEXT_STRING, |b|) + part)) <==> |b| <= |part|
  {
    hide WriteHead, ReadHead;
    HeadRoundTrip(TEXT_STRING, |b|, part);
  }

  lemma TextSafeIff(b: Blob, rest: Bytes, k: nat)
    requires 9 <= k <= |WriteText(b) + rest|
    ensures TextReadSafe(Cursor(NoError, (WriteText(b) + rest)[..k])) <==> |WriteText(b)| <= k
  {
    hide WriteHead, ReadHead, TextReadSafe;
    var head := WriteHead(TEXT_STRING, |b|);
    HeadSize(TEXT_STRING, |b|);
    CutBehindHead(head, b, rest, k);
    PartSafeIff(b, (b + rest)[..k - |head|]);
  }

  /** Cut anywhere inside, an integer is not complete. */
  lemma IntPrefix(i: Int32, k: nat)
    requires k < |WriteInt(i)|
    ensures ItemSize(WriteInt(i)[..k]) == None
  {
    var major, n: UInt64 := if i >= 0 then UNSIGNED else NEGATIVE, if i >= 0 then i else -1 - i;
    assert WriteInt(i) == WriteHead(major, n);
    HeadPrefix(major, n, k);
  }
}
