/** Raw octets, as carried by the serial line and by the CBOR buffers, and the integer widths. */
module ByteStrings {
  type Byte = bv8
  type Bytes = seq<Byte>

  const TWO_TO_THE_32 := 0x1_0000_0000
  const TWO_TO_THE_64 := 0x1_0000_0000_0000_0000

  type Int32 = x: int | -0x8000_0000 <= x < 0x8000_0000
  type UInt64 = x: int | 0 <= x < TWO_TO_THE_64

  /** A byte string short enough for its length to be a 64-bit number. */
  type Blob = b: Bytes | |b| < TWO_TO_THE_64

  /** Conversion to a 32-bit signed integer, wrapping around. */
  function Wrap32(x: int): (r: Int32)
    ensures (x - r) % TWO_TO_THE_32 == 0
  {
    (x + 0x8000_0000) % TWO_TO_THE_32 - 0x8000_0000
  }

  /** Unsigned 64-bit subtraction. */
  function Minus64(x: UInt64, y: UInt64): (r: UInt64)
    ensures r == if y <= x then x - y else TWO_TO_THE_64 - (y - x)
  {
    (x - y) % TWO_TO_THE_64
  }

  /** All pieces one after the other. */
  function Concat(pieces: seq<Bytes>): Bytes {
    if pieces == [] then [] else Concat(pieces[..|pieces| - 1]) + pieces[|pieces| - 1]
  }

  lemma PrefixSnoc<T>(s: seq<T>, i: nat)
    requires i < |s|
    ensures s[..i + 1] == s[..i] + [s[i]]
  {
  }

  lemma WholePrefix<T>(s: seq<T>)
    ensures s[..|s|] == s
  {
  }

  lemma Regroup<T>(x: seq<T>, a: seq<T>, b: seq<T>, c: seq<T>, d: seq<T>, e: seq<T>)
    ensures x + a + b + c + d + e == x + (a + b + c + d + e)
  {
  }
}
