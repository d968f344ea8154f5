/**
 The frame check sequence of RFC 1662: the table-driven accumulator `Fcs`, proved to be the
 bit-serial register, and the trailer that brings every message to the same residue.
 */
module FrameCheck {
  import opened ByteStrings
  import opened FcsTable
  import opened ShiftRegister

  predicate BitAt(w: bv16, i: nat)
    decreases i
  {
    if i == 0 then Low(w) else BitAt(Half(w), i - 1)
  }

  function LowBits(w: bv16, n: nat): (bits: Bits)
    ensures |bits| == n
    ensures forall i :: 0 <= i < n ==> bits[i] == BitAt(w, i)
  {
    seq(n, i requires 0 <= i < n => BitAt(w, i))
  }

  function Wide(b: Byte): bv16 {
    b as bv16
  }

  function LowOctet(s: bv16): Byte {
    (s & 0xFF) as Byte
  }

  function HighOctet(s: bv16): Byte {
    (s >> 8) as Byte
  }

  /** Bits in transmission order: least significant first. */
  function BitsOfByte(b: Byte): (bits: Bits)
    ensures |bits| == 8
  {
    LowBits(Wide(b), 8)
  }

  function BitsOf(m: Bytes): (bits: Bits)
    ensures |bits| == 8 * |m|
  {
    if m == [] then [] else BitsOf(m[..|m| - 1]) + BitsOfByte(m[|m| - 1])
  }

  function CellsOf(s: bv16): Cells {
    LowBits(s, 16)
  }

  /** The bits of `w` one place up, and a new lowest one. */
  function Below(w: bv16, bit: bool): bv16 {
    (if bit then 1 else 0) | (w << 1)
  }

  function WordOf(x: Bits): bv16 {
    if x == [] then 0 else Below(WordOf(x[1..]), x[0])
  }

  /** The register after all bits of `m`, from the all-ones start of RFC 1662. */
  function FcsAfter(m: Bytes): Cells {
    Register(Ones(16), BitsOf(m))
  }

  /** The two octets that close a frame: the complemented register, low octet first. */
  function Trailer(p: Bytes): (t: Bytes)
    ensures |t| == 2
  {
    var fcs := WordOf(Not(FcsAfter(p)));
    [LowOctet(fcs), HighOctet(fcs)]
  }

  function Index(s: bv16, b: Byte): Byte {
    LowOctet(s) ^ b
  }

  function TableStep(s: bv16, b: Byte): bv16 {
    (s >> 8) ^ TableEntry(Index(s, b))
  }

  /** The accumulator object: it looks the low octet up in the table. */
  class Fcs {
    var fcs: bv16
    ghost var seen: Bytes

    ghost predicate Valid()
      reads this
    {
      CellsOf(fcs) == FcsAfter(seen)
    }

    constructor ()
      ensures Valid() && seen == []
    {
      fcs := 0xFFFF;
      seen := [];
      new;
      AllOnes();
    }

    method Write(b: Byte) returns (ok: bool)
      requires Valid()
      modifies this
      ensures ok && Valid() && seen == old(seen) + [b]
    {
      TableStepIsBitwise(fcs, b);
      FcsSnoc(seen, b);
      fcs := TableStep(fcs, b);
      seen := seen + [b];
      ok := true;
    }

    function Result(): bv16
      reads this
    {
      !fcs
    }
  }

  // ---- Words and cells ----

  lemma XorHalves(s: bv16, t: bv16)
    ensures Half(s ^ t) == Half(s) ^ Half(t)
    ensures Low(s ^ t) == (Low(s) != Low(t))
  {
  }

  lemma {:induction false} BitAtXor(s: bv16, t: bv16, i: nat)
    ensures BitAt(s ^ t, i) == (BitAt(s, i) != BitAt(t, i))
    decreases i
  {
    XorHalves(s, t);
    if i > 0 {
      BitAtXor(Half(s), Half(t), i - 1);
    }
  }

  lemma LowBitsXor(s: bv16, t: bv16, d: bv16, n: nat)
    requires d == s ^ t
    ensures LowBits(d, n) == Xor(LowBits(s, n), LowBits(t, n))
  {
    forall i | 0 <= i < n
      ensures BitAt(d, i) == (BitAt(s, i) != BitAt(t, i))
    {
      BitAtXor(s, t, i);
    }
  }

  lemma CellsOfXor(s: bv16, t: bv16)
    ensures CellsOf(s ^ t) == Xor(CellsOf(s), CellsOf(t))
  {
    LowBitsXor(s, t, s ^ t, 16);
  }

  lemma {:induction false} BitAtZero(i: nat)
    ensures !BitAt(0, i)
  {
    if i > 0 {
      BitAtZero(i - 1);
    }
  }

  lemma FourHalves(w: bv16)
    ensures Half(Half(Half(Half(w)))) == w >> 4
  {
  }

  lemma BitAtFour(w: bv16, i: nat)
    ensures BitAt(w, i + 4) == BitAt(w >> 4, i)
  {
    FourHalves(w);
    var a := Half(w);
    var b := Half(a);
    var c := Half(b);
    assert BitAt(w, i + 4) == BitAt(a, i + 3) == BitAt(b, i + 2) == BitAt(c, i + 1);
  }

  lemma BitAtEight(w: bv16, i: nat)
    ensures BitAt(w, i + 8) == BitAt(w >> 8, i)
  {
    BitAtFour(w, i + 4);
    BitAtFour(w >> 4, i);
    assert w >> 4 >> 4 == w >> 8;
  }

  lemma BitAtBeyond(w: bv16, i: nat)
    requires i >= 16
    ensures !BitAt(w, i)
  {
    BitAtEight(w, i - 8);
    BitAtEight(w >> 8, i - 16);
    assert w >> 8 >> 8 == 0;
    BitAtZero(i - 16);
  }

  lemma AndHalves(s: bv16, t: bv16)
    ensures Half(s & t) == Half(s) & Half(t)
    ensures Low(s & t) == (Low(s) && Low(t))
  {
  }

  lemma {:induction false} BitAtAnd(s: bv16, m: bv16, i: nat)
    ensures BitAt(s & m, i) == (BitAt(s, i) && BitAt(m, i))
    decreases i
  {
    AndHalves(s, m);
    if i > 0 {
      BitAtAnd(Half(s), Half(m), i - 1);
    }
  }

  lemma AllOnes()
    ensures CellsOf(0xFFFF) == Ones(16)
  {
    forall i | 0 <= i < 16
      ensures BitAt(0xFFFF, i)
    {
      LowMask(i);
    }
  }

  lemma LowMask(i: nat)
    ensures BitAt(0xFFFF, i) <==> i < 16
    ensures BitAt(0x00FF, i) <==> i < 8
  {
    if i >= 16 {
      BitAtBeyond(0xFFFF, i);
      BitAtBeyond(0x00FF, i);
    } else if i >= 8 {
      BitAtEight(0xFFFF, i - 8);
      BitAtEight(0x00FF, i - 8);
      BitAtZero(i - 8);
      OctetMask(i - 8);
    } else {
      OctetMask(i);
      assert BitAt(0xFFFF, 0) && BitAt(0xFFFF, 1) && BitAt(0xFFFF, 2) && BitAt(0xFFFF, 3);
      assert BitAt(0xFFFF, 4) && BitAt(0xFFFF, 5) && BitAt(0xFFFF, 6) && BitAt(0xFFFF, 7);
    }
  }

  lemma OctetMask(i: nat)
    requires i < 8
    ensures BitAt(0x00FF, i)
  {
    assert BitAt(0x00FF, 0) && BitAt(0x00FF, 1) && BitAt(0x00FF, 2) && BitAt(0x00FF, 3);
    assert BitAt(0x00FF, 4) && BitAt(0x00FF, 5) && BitAt(0x00FF, 6) && BitAt(0x00FF, 7);
  }

  lemma HalfSmaller(d: bv16)
    ensures d == 0 || Half(d) < d
    ensures !Low(d) && Half(d) == 0 ==> d == 0
  {
  }

  lemma {:induction false} NoBitsIsZero(d: bv16)
    requires forall i: nat :: !BitAt(d, i)
    ensures d == 0
    decreases d
  {
    HalfSmaller(d);
    assert !BitAt(d, 0);
    if d != 0 {
      forall i: nat
        ensures !BitAt(Half(d), i)
      {
        assert !BitAt(d, i + 1);
      }
      NoBitsIsZero(Half(d));
    }
  }

  lemma XorZero(s: bv16, t: bv16)
    requires s ^ t == 0
    ensures s == t
  {
  }

  lemma CellsOfInjective(s: bv16, t: bv16)
    requires CellsOf(s) == CellsOf(t)
    ensures s == t
  {
    var d := s ^ t;
    forall i: nat
      ensures !BitAt(d, i)
    {
      BitAtXor(s, t, i);
      if i < 16 {
        assert CellsOf(s)[i] == CellsOf(t)[i];
      } else {
        BitAtBeyond(s, i);
        BitAtBeyond(t, i);
      }
    }
    NoBitsIsZero(d);
    XorZero(s, t);
  }

  lemma LowBitsOfOctet(w: bv16)
    requires w >> 8 == 0
    ensures LowBits(w, 16) == LowBits(w, 8) + Zeros(8)
  {
    forall i | 8 <= i < 16
      ensures !BitAt(w, i)
    {
      BitAtEight(w, i - 8);
      BitAtZero(i - 8);
    }
  }

  lemma OctetsOf(s: bv16)
    ensures Wide(LowOctet(s)) == s & 0xFF
    ensures Wide(HighOctet(s)) == s >> 8
  {
  }

  lemma WideXor(a: Byte, b: Byte)
    ensures Wide(a ^ b) == Wide(a) ^ Wide(b)
    ensures Wide(a) >> 8 == 0
  {
  }

  lemma CellsOfByte(b: Byte)
    ensures CellsOf(Wide(b)) == BitsOfByte(b) + Zeros(8)
  {
    WideXor(b, b);
    LowBitsOfOctet(Wide(b));
  }

  lemma BitsOfByteXor(a: Byte, b: Byte)
    ensures BitsOfByte(a ^ b) == Xor(BitsOfByte(a), BitsOfByte(b))
  {
    WideXor(a, b);
    LowBitsXor(Wide(a), Wide(b), Wide(a ^ b), 8);
  }

  lemma LowBitsHalves(s: bv16, lo: bv16, hi: bv16)
    requires lo == s & 0xFF && hi == s >> 8
    ensures LowBits(s, 16) == LowBits(lo, 8) + LowBits(hi, 8)
  {
    forall i | 0 <= i < 8
      ensures BitAt(lo, i) == BitAt(s, i) && BitAt(hi, i) == BitAt(s, i + 8)
    {
      BitAtAnd(s, 0xFF, i);
      OctetMask(i);
      BitAtEight(s, i);
    }
    assert LowBits(s, 16) == LowBits(lo, 8) + LowBits(hi, 8) by {
      forall i | 8 <= i < 16
        ensures LowBits(s, 16)[i] == LowBits(hi, 8)[i - 8]
      {
        assert BitAt(hi, i - 8) == BitAt(s, i - 8 + 8);
      }
    }
  }

  lemma CellsOfOctets(s: bv16)
    ensures CellsOf(s) == BitsOfByte(LowOctet(s)) + BitsOfByte(HighOctet(s))
  {
    OctetsOf(s);
    LowBitsHalves(s, Wide(LowOctet(s)), Wide(HighOctet(s)));
  }

  lemma CellsOfComplement(s: bv16)
    ensures CellsOf(!s) == Not(CellsOf(s))
  {
    CellsOfXor(s, 0xFFFF);
    AllOnes();
    assert s ^ 0xFFFF == !s;
  }

  lemma Rejoin(w: bv16)
    ensures w == Below(Half(w), Low(w))
  {
  }

  lemma {:induction false} WordOfBits(w: bv16, x: Bits)
    requires forall i: nat :: BitAt(w, i) <==> i < |x| && x[i]
    ensures WordOf(x) == w
    decreases |x|
  {
    if x == [] {
      NoBitsIsZero(w);
    } else {
      var rest := x[1..];
      forall i: nat
        ensures BitAt(Half(w), i) <==> i < |rest| && rest[i]
      {
        assert BitAt(w, i + 1) <==> i + 1 < |x| && x[i + 1];
      }
      WordOfBits(Half(w), rest);
      assert BitAt(w, 0) <==> x[0];
      Rejoin(w);
    }
  }

  lemma WordOfCells(s: bv16)
    ensures WordOf(CellsOf(s)) == s
  {
    forall i: nat
      ensures BitAt(s, i) <==> i < 16 && CellsOf(s)[i]
    {
      if i >= 16 {
        BitAtBeyond(s, i);
      }
    }
    WordOfBits(s, CellsOf(s));
  }

  // ---- The fast form refines the bit-serial form ----

  lemma CellsOfHalf(s: bv16)
    ensures CellsOf(Half(s)) == CellsOf(s)[1..] + [false]
    ensures CellsOf(s)[0] == Low(s)
  {
    BitAtBeyond(s, 16);
  }

  lemma Taps()
    ensures CellsOf(POLYNOMIAL) == [false, false, false, true, false, false, false, false,
                                    false, false, true, false, false, false, false, true]
  {
    assert !BitAt(0x08, 0) && !BitAt(0x08, 1) && !BitAt(0x08, 2) && BitAt(0x08, 3);
    assert !BitAt(0x84, 0) && !BitAt(0x84, 1) && BitAt(0x84, 2) && !BitAt(0x84, 3);
    assert !BitAt(0x8408, 0) && !BitAt(0x8408, 1) && !BitAt(0x8408, 2) && BitAt(0x8408, 3);
    forall i | 0 <= i < 4
      ensures BitAt(0x8408, i + 4) == BitAt(0x0840, i)
      ensures BitAt(0x8408, i + 8) == BitAt(0x0084, i)
      ensures BitAt(0x8408, i + 12) == BitAt(0x0008, i)
    {
      BitAtFour(0x8408, i);
      BitAtEight(0x8408, i);
      BitAtEight(0x8408, i + 4);
      BitAtFour(0x0084, i);
    }
    assert !BitAt(0x0840, 0) && !BitAt(0x0840, 1) && !BitAt(0x0840, 2) && !BitAt(0x0840, 3);
    var c := CellsOf(0x8408);
    assert c[4] == BitAt(0x8408, 0 + 4) && c[5] == BitAt(0x8408, 1 + 4);
    assert c[6] == BitAt(0x8408, 2 + 4) && c[7] == BitAt(0x8408, 3 + 4);
    assert c[8] == BitAt(0x8408, 0 + 8) && c[9] == BitAt(0x8408, 1 + 8);
    assert c[10] == BitAt(0x8408, 2 + 8) && c[11] == BitAt(0x8408, 3 + 8);
    assert c[12] == BitAt(0x8408, 0 + 12) && c[13] == BitAt(0x8408, 1 + 12);
    assert c[14] == BitAt(0x8408, 2 + 12) && c[15] == BitAt(0x8408, 3 + 12);
  }

  lemma Feedback(h: bv16, r: Cells)
    requires r[0] && CellsOf(h) == r[1..] + [false]
    ensures CellsOf(h ^ POLYNOMIAL) == ShiftIn(r, false)
  {
    CellsOfXor(h, POLYNOMIAL);
    Taps();
  }

  lemma NoFeedback(r: Cells)
    requires !r[0]
    ensures ShiftIn(r, false) == r[1..] + [false]
  {
  }

  lemma ShiftIsShiftIn(s: bv16)
    ensures CellsOf(Shift(s)) == ShiftIn(CellsOf(s), false)
  {
    CellsOfHalf(s);
    if Low(s) {
      Feedback(Half(s), CellsOf(s));
    } else {
      NoFeedback(CellsOf(s));
    }
  }

  lemma {:induction false} ShiftsIsRegister(s: bv16, n: nat)
    ensures CellsOf(Shifts(s, n)) == Register(CellsOf(s), Zeros(n))
    decreases n
  {
    if n > 0 {
      ShiftsIsRegister(s, n - 1);
      ShiftIsShiftIn(Shifts(s, n - 1));
      assert Zeros(n)[..n - 1] == Zeros(n - 1);
    }
  }

  lemma TableIsRegister(i: Byte, n: nat)
    requires n == 8
    ensures CellsOf(TableEntry(i)) == Register(BitsOfByte(i) + Zeros(8), Zeros(8))
  {
    TableIsShifts(i, n);
    ShiftsIsRegister(Wide(i), n);
    CellsOfByte(i);
  }

  lemma TableStepForm(s: bv16, b: Byte)
    ensures TableStep(s, b) == Wide(HighOctet(s)) ^ TableEntry(Index(s, b))
  {
    OctetsOf(s);
  }

  lemma TableStepCells(s: bv16, b: Byte)
    ensures CellsOf(TableStep(s, b)) ==
            Xor(BitsOfByte(HighOctet(s)) + Zeros(8), CellsOf(TableEntry(Index(s, b))))
  {
    TableStepForm(s, b);
    CellsOfXor(Wide(HighOctet(s)), TableEntry(Index(s, b)));
    CellsOfByte(HighOctet(s));
  }

  lemma IndexBits(s: bv16, b: Byte)
    ensures BitsOfByte(Index(s, b)) == Xor(BitsOfByte(LowOctet(s)), BitsOfByte(b))
  {
    BitsOfByteXor(LowOctet(s), b);
  }

  /** One table lookup does the work of eight clocks of the register. */
  lemma TableStepIsBitwise(s: bv16, b: Byte)
    ensures CellsOf(TableStep(s, b)) == Register(CellsOf(s), BitsOfByte(b))
  {
    TableIsRegister(Index(s, b), 8);
    IndexBits(s, b);
    TableStepCells(s, b);
    CellsOfOctets(s);
    OctetSplit(BitsOfByte(LowOctet(s)), BitsOfByte(HighOctet(s)), BitsOfByte(b), CellsOf(TableEntry(Index(s, b))));
  }

  // ---- Whole messages ----

  /** The accumulator after a whole message, by table lookups alone. */
  function TableRun(m: Bytes): bv16 {
    if m == [] then 0xFFFF else TableStep(TableRun(m[..|m| - 1]), m[|m| - 1])
  }

  lemma FcsSnoc(m: Bytes, b: Byte)
    ensures FcsAfter(m + [b]) == Register(FcsAfter(m), BitsOfByte(b))
  {
    assert (m + [b])[..|m|] == m;
    RegisterAppend(Ones(16), BitsOf(m), BitsOfByte(b));
  }

  /** For every byte string the table-driven accumulator equals the bit-serial register. */
  lemma {:induction false} FastFormRefines(m: Bytes)
    ensures CellsOf(TableRun(m)) == FcsAfter(m)
  {
    if m == [] {
      AllOnes();
    } else {
      var init, b := m[..|m| - 1], m[|m| - 1];
      FastFormRefines(init);
      TableStepIsBitwise(TableRun(init), b);
      FcsSnoc(init, b);
      assert init + [b] == m;
    }
  }

  lemma {:induction false} BitsOfInjective(x: Bytes, y: Bytes)
    requires BitsOf(x) == BitsOf(y)
    ensures x == y
  {
    if x == [] {
      assert |y| == 0;
    } else {
      var n := |x| - 1;
      assert BitsOf(x)[..8 * n] == BitsOf(x[..n]) && BitsOf(y)[..8 * n] == BitsOf(y[..n]);
      assert BitsOf(x)[8 * n..] == BitsOfByte(x[n]) && BitsOf(y)[8 * n..] == BitsOfByte(y[n]);
      BitsOfInjective(x[..n], y[..n]);
      BitsOfByteInjective(x[n], y[n]);
      assert x == x[..n] + [x[n]] && y == y[..n] + [y[n]];
    }
  }

  lemma WideInjective(a: Byte, b: Byte)
    requires Wide(a) == Wide(b)
    ensures a == b
  {
  }

  lemma BitsOfByteInjective(a: Byte, b: Byte)
    requires BitsOfByte(a) == BitsOfByte(b)
    ensures a == b
  {
    CellsOfByte(a);
    CellsOfByte(b);
    CellsOfInjective(Wide(a), Wide(b));
    WideInjective(a, b);
  }

  /** Whatever word holds the register, its complement's octets are the trailer. */
  lemma TrailerOctets(p: Bytes, s: bv16)
    requires CellsOf(s) == FcsAfter(p)
    ensures Trailer(p) == [LowOctet(!s), HighOctet(!s)]
    ensures BitsOfByte(Trailer(p)[0]) + BitsOfByte(Trailer(p)[1]) == Not(FcsAfter(p))
  {
    CellsOfComplement(s);
    WordOfCells(!s);
    CellsOfOctets(!s);
  }

  lemma TrailerBits(p: Bytes)
    ensures BitsOfByte(Trailer(p)[0]) + BitsOfByte(Trailer(p)[1]) == Not(FcsAfter(p))
  {
    FastFormRefines(p);
    TrailerOctets(p, TableRun(p));
  }

  // ---- Residue ----

  lemma ResidueWord()
    ensures CellsOf(0xF0B8) == RESIDUE
  {
    var a, b := TableStep(0, 0xFF), 0xF0B8;
    TableStepIsBitwise(0, 0xFF);
    TableStepIsBitwise(0x0F78, 0xFF);
    assert TableStep(0, 0xFF) == 0x0F78;
    assert TableStep(0x0F78, 0xFF) == 0xF0B8;
    OnesAndZeros();
    RegisterAppend(Zeros(16), Ones(8), Ones(8));
    assert Ones(8) + Ones(8) == Ones(16);
  }

  lemma OnesAndZeros()
    ensures CellsOf(0) == Zeros(16) && BitsOfByte(0xFF) == Ones(8)
  {
    forall i: nat
      ensures !BitAt(0, i)
    {
      BitAtZero(i);
    }
    forall i | 0 <= i < 8
      ensures BitAt(0x00FF, i)
    {
      OctetMask(i);
    }
    assert Wide(0xFF) == 0x00FF;
  }

  /** The comparison the receiver makes is the comparison with the residue. */
  lemma ResultIsResidue(s: bv16)
    ensures !s == 0x0F47 <==> CellsOf(s) == RESIDUE
  {
    ResidueWord();
    if CellsOf(s) == RESIDUE {
      CellsOfInjective(s, 0xF0B8);
    }
    assert !s == 0x0F47 <==> s == 0xF0B8;
  }

  lemma OneOctetNotResidue(b: Byte)
    ensures FcsAfter([b]) != RESIDUE
  {
    FastFormRefines([b]);
    assert [b][..0] == [];
    assert TableRun([b]) == TableStep(0xFFFF, b);
    OneLookUp(b);
    ResidueWord();
    if FcsAfter([b]) == RESIDUE {
      CellsOfInjective(TableStep(0xFFFF, b), 0xF0B8);
    }
  }

  lemma OneLookUp(b: Byte)
    ensures TableStep(0xFFFF, b) != 0xF0B8
  {
    TableIsBitwise(Index(0xFFFF, b));
    NoEntry(Index(0xFFFF, b));
    var s: bv16 := 0xFFFF;
    assert s >> 8 == 0xFF;
  }

  lemma NoEntry(i: Byte)
    ensures 0xFF ^ EightShifts(i as bv16) != 0xF0B8
  {
  }

  lemma FcsTwoMore(p: Bytes, x: Byte, y: Byte)
    ensures FcsAfter(p + [x, y]) == Register(FcsAfter(p), BitsOfByte(x) + BitsOfByte(y))
  {
    assert p + [x, y] == (p + [x]) + [y];
    FcsSnoc(p + [x], y);
    FcsSnoc(p, x);
    RegisterAppend(FcsAfter(p), BitsOfByte(x), BitsOfByte(y));
  }

  lemma TwoOctetsToResidue(p: Bytes, x: Byte, y: Byte)
    ensures FcsAfter(p + [x, y]) == RESIDUE <==> [x, y] == Trailer(p)
  {
    var t := Trailer(p);
    var first, second := BitsOfByte(x), BitsOfByte(y);
    FcsTwoMore(p, x, y);
    ComplementIffResidue(FcsAfter(p), first + second);
    TrailerBits(p);
    if first + second == Not(FcsAfter(p)) {
      assert first == (first + second)[..8] && second == (first + second)[8..];
      assert first == BitsOfByte(t[0]) && second == BitsOfByte(t[1]);
      BitsOfByteInjective(x, t[0]);
      BitsOfByteInjective(y, t[1]);
    }
  }

  /**
   The register ends at the residue for exactly the byte strings that are some payload followed by
   its trailer, so a string that passes has at least two octets.
   */
  lemma ResidueIffTrailer(u: Bytes)
    ensures FcsAfter(u) == RESIDUE <==> |u| >= 2 && u[|u| - 2..] == Trailer(u[..|u| - 2])
  {
    if |u| >= 2 {
      var p, x, y := u[..|u| - 2], u[|u| - 2], u[|u| - 1];
      assert u == p + [x, y] && u[|u| - 2..] == [x, y];
      TwoOctetsToResidue(p, x, y);
    } else if |u| == 1 {
      assert u == [u[0]];
      OneOctetNotResidue(u[0]);
    } else {
      assert FcsAfter(u) == Ones(16);
      ResidueWord();
      assert CellsOf(0xF0B8)[0] == BitAt(0xF0B8, 0);
    }
  }
}
