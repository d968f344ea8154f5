/** The serializer and deserializer objects that the message `reflect` methods drive. */
module CborStreams {
  import opened ByteStrings
  import opened Cbor
  import opened Wrappers

  /** What a buffer of the given capacity holds of `bs`. */
  function Cut(bs: Bytes, capacity: nat): (s: Bytes)
    ensures |s| <= capacity && (|bs| <= capacity ==> s == bs)
  {
    if |bs| < capacity then bs else if |bs| == capacity then bs else bs[..capacity]
  }

  class CborSerializer {
    const capacity: nat
    /** All octets asked for since `Begin`; only the first `capacity` of them are stored. */
    var written: Bytes
    var size: nat
    var err: CborError

    constructor (capacity: nat)
      ensures this.capacity == capacity
    {
      this.capacity := capacity;
      written, size, err := [], 0, NoError;
    }

    predicate Fits()
      reads this
    {
      |written| <= capacity
    }

    method Append(s: Bytes)
      modifies this`written, this`err
      ensures written == old(written) + s
      ensures err.NoError? <==> Fits()
    {
      written := written + s;
      err := if |written| <= capacity then NoError else OutOfMemory;
    }

    method Begin()
      modifies this`written, this`err
      ensures written == [ARRAY]
      ensures err.NoError? <==> Fits()
    {
      written := [];
      Append([ARRAY]);
    }

    method MemberInt(t: Int32)
      modifies this`written, this`err
      ensures written == old(written) + WriteInt(t)
      ensures err.NoError? <==> Fits()
    {
      Append(WriteInt(t));
    }

    method MemberUInt64(t: UInt64)
      modifies this`written, this`err
      ensures written == old(written) + WriteUInt64(t)
      ensures err.NoError? <==> Fits()
    {
      Append(WriteUInt64(t));
    }

    method MemberText(t: Blob)
      modifies this`written, this`err
      ensures written == old(written) + WriteText(t)
      ensures err.NoError? <==> Fits()
    {
      Append(WriteText(t));
    }

    method MemberBytes(t: Blob)
      modifies this`written, this`err
      ensures written == old(written) + WriteBytes(t)
      ensures err.NoError? <==> Fits()
    {
      Append(WriteBytes(t));
    }

    method End()
      modifies this`written, this`err, this`size
      ensures written == old(written) + [BREAK] && size == |written|
      ensures err.NoError? <==> Fits()
    {
      Append([BREAK]);
      size := |written|;
    }

    /** After an overflow the program returns bytes beyond its buffer: nothing is said of them. */
    method ToBytes() returns (bs: Bytes)
      ensures size == |written| && Fits() ==> bs == written
    {
      if size == |written| && |written| <= capacity {
        bs := written;
      } else {
        bs := *;
      }
    }
  }

  class CborDeserializer {
    const capacity: nat
    var buffer: Bytes
    var err: CborError
    var rest: Bytes

    constructor (capacity: nat)
      ensures this.capacity == capacity
    {
      this.capacity := capacity;
      buffer, err, rest := [], NoError, [];
    }

    function State(): Cursor
      reads this
    {
      Cursor(err, rest)
    }

    method FromBytes(bs: Bytes)
      modifies this`buffer
      ensures buffer == Cut(bs, capacity)
    {
      var size := if |bs| < capacity then |bs| else capacity;
      buffer := bs[..size];
    }

    method Begin()
      modifies this`err, this`rest
      ensures State() == Enter(buffer)
    {
      if |buffer| == 0 {
        err, rest := UnexpectedEOF, [];
      } else if buffer[0] != ARRAY {
        err, rest := IllegalType, [];
      } else {
        rest := buffer[1..];
        err := if |rest| == 0 then UnexpectedEOF else NoError;
      }
    }

    method Skip()
      modifies this`err, this`rest
      ensures State() == Advance(old(rest))
    {
      var size := ItemSize(rest);
      if size.Some? {
        rest := rest[size.value..];
        err := if |rest| == 0 then UnexpectedEOF else NoError;
      } else {
        err := if |rest| > 0 && rest[0] == BREAK then AdvancePastEOF else UnexpectedEOF;
      }
    }

    method MemberInt(t: Int32) returns (t': Int32)
      modifies this`err, this`rest
      ensures t' == IntAt(old(State()), t) && State() == Advance(old(rest))
    {
      t' := t;
      if err.NoError? && (NextIs(rest, UNSIGNED) || NextIs(rest, NEGATIVE)) {
        t' := IntValue(ReadHead(rest).value);
      }
      Skip();
    }

    /** For a constant: the value is read into a scratch variable and forgotten. */
    method MemberConstInt(t: Int32)
      modifies this`err, this`rest
      ensures State() == Advance(old(rest))
    {
      var x := MemberInt(t);
    }

    method MemberUInt64(t: UInt64) returns (t': UInt64)
      modifies this`err, this`rest
      ensures t' == UInt64At(old(State()), t) && State() == Advance(old(rest))
    {
      t' := t;
      if err.NoError? && NextIs(rest, UNSIGNED) {
        t' := Clip64(ReadHead(rest).value.value);
      }
      Skip();
    }

    method MemberBytes(t: Bytes) returns (t': Bytes)
      modifies this`err, this`rest
      ensures t' == BytesAt(old(State()), t) && State() == Advance(old(rest))
    {
      t' := t;
      if err.NoError? && NextIs(rest, BYTE_STRING) && ItemSize(rest).Some? {
        t' := StringValue(rest);
      }
      Skip();
    }

    /** After a read from the unset pointer nothing is said of anything. */
    method MemberText(t: Bytes) returns (t': Bytes)
      modifies this`err, this`rest
      ensures TextReadSafe(old(State())) ==> t' == TextAt(old(State()), t) && State() == Advance(old(rest))
    {
      t' := t;
      if err.NoError? && NextIs(rest, TEXT_STRING) {
        if ItemSize(rest).Some? {
          t' := CString(StringValue(rest));
        } else {
          t', err, rest := *, *, *;
          return;
        }
      }
      Skip();
    }

    method Success() returns (ok: bool)
      ensures ok <==> err.NoError?
    {
      ok := err.NoError?;
    }
  }
}
