/** Octets as numbers below 256, by their bits. */
module Octets {
  import opened ByteStrings
  import opened FcsTable
  import opened FrameCheck
  import opened ShiftRegister

  function NatOf(x: Bits): nat {
    if x == [] then 0 else (if x[0] then 1 else 0) + 2 * NatOf(x[1..])
  }

  function BitsOfNat(n: nat, k: nat): (x: Bits)
    ensures |x| == k
  {
    if k == 0 then [] else [n % 2 == 1] + BitsOfNat(n / 2, k - 1)
  }

  function ByteOf(n: nat): Byte
    requires n < 256
  {
    LowOctet(WordOf(BitsOfNat(n, 8)))
  }

  function ValueOf(b: Byte): nat {
    NatOf(BitsOfByte(b))
  }

  function Pow2(k: nat): nat {
    if k == 0 then 1 else 2 * Pow2(k - 1)
  }

  lemma Pow2Of8(k: nat)
    requires k == 8
    ensures Pow2(k) == 256
  {
    assert Pow2(k - 7) == 2 && Pow2(k - 6) == 4 && Pow2(k - 5) == 8 && Pow2(k - 4) == 16;
    assert Pow2(k - 3) == 32 && Pow2(k - 2) == 64 && Pow2(k - 1) == 128;
  }

  lemma {:induction false} NatRoundTrip(n: nat, k: nat)
    requires n < Pow2(k)
    ensures NatOf(BitsOfNat(n, k)) == n
  {
    if k > 0 {
      NatRoundTrip(n / 2, k - 1);
      assert BitsOfNat(n, k)[1..] == BitsOfNat(n / 2, k - 1);
    }
  }

  lemma {:induction false} NatBound(x: Bits)
    ensures NatOf(x) < Pow2(|x|)
  {
    if x != [] {
      NatBound(x[1..]);
    }
  }

  lemma ValueBound(b: Byte)
    ensures ValueOf(b) < 256
  {
    Pow2Of8(8);
    NatBound(BitsOfByte(b));
  }

  lemma ThreeHalves(w: bv16)
    ensures Half(Half(Half(w >> 8 >> 4))) == w >> 15
  {
  }

  lemma TopBit(w: bv16)
    ensures BitAt(w, 15) == Low(w >> 15)
  {
    BitAtEight(w, 7);
    BitAtFour(w >> 8, 3);
    var v := w >> 8 >> 4;
    assert BitAt(v, 3) == BitAt(Half(v), 2) == BitAt(Half(Half(v)), 1) == BitAt(Half(Half(Half(v))), 0);
    ThreeHalves(w);
  }

  lemma UpAndDown(w: bv16, bit: bool)
    requires !Low(w >> 15)
    ensures Half(Below(w, bit)) == w && (Low(Below(w, bit)) <==> bit)
  {
  }

  lemma {:induction false} WordHasBits(x: Bits, i: nat)
    requires |x| <= 16
    ensures BitAt(WordOf(x), i) <==> i < |x| && x[i]
    decreases |x|
  {
    hide Below, Half, Low;
    if x == [] {
      BitAtZero(i);
    } else {
      WordHasBits(x[1..], 15);
      TopBit(WordOf(x[1..]));
      UpAndDown(WordOf(x[1..]), x[0]);
      if i > 0 {
        WordHasBits(x[1..], i - 1);
      }
    }
  }

  lemma BitsOfByteOf(n: nat)
    requires n < 256
    ensures BitsOfByte(ByteOf(n)) == BitsOfNat(n, 8)
  {
    var x := BitsOfNat(n, 8);
    CellsOfOctets(WordOf(x));
    forall i | 0 <= i < 8
      ensures CellsOf(WordOf(x))[i] == x[i]
    {
      WordHasBits(x, i);
    }
    assert CellsOf(WordOf(x))[..8] == x;
  }

  /** An octet made from a number has that number as its value. */
  lemma ValueOfByte(n: nat)
    requires n < 256
    ensures ValueOf(ByteOf(n)) == n
  {
    Pow2Of8(8);
    NatRoundTrip(n, 8);
    BitsOfByteOf(n);
  }
}
