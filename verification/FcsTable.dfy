/**
 The 256-entry lookup table of the frame check sequence, laid out as sixteen rows of sixteen,
 and the proof that each entry is eight steps of the bit-serial shift register of RFC 1662.
 */
module FcsTable {

  const ROW_0: seq<bv16> := [
    0x0000, 0x1189, 0x2312, 0x329B, 0x4624, 0x57AD, 0x6536, 0x74BF,
    0x8C48, 0x9DC1, 0xAF5A, 0xBED3, 0xCA6C, 0xDBE5, 0xE97E, 0xF8F7]
  const ROW_1: seq<bv16> := [
    0x1081, 0x0108, 0x3393, 0x221A, 0x56A5, 0x472C, 0x75B7, 0x643E,
    0x9CC9, 0x8D40, 0xBFDB, 0xAE52, 0xDAED, 0xCB64, 0xF9FF, 0xE876]
  const ROW_2: seq<bv16> := [
    0x2102, 0x308B, 0x0210, 0x1399, 0x6726, 0x76AF, 0x4434, 0x55BD,
    0xAD4A, 0xBCC3, 0x8E58, 0x9FD1, 0xEB6E, 0xFAE7, 0xC87C, 0xD9F5]
  const ROW_3: seq<bv16> := [
    0x3183, 0x200A, 0x1291, 0x0318, 0x77A7, 0x662E, 0x54B5, 0x453C,
    0xBDCB, 0xAC42, 0x9ED9, 0x8F50, 0xFBEF, 0xEA66, 0xD8FD, 0xC974]
  const ROW_4: seq<bv16> := [
    0x4204, 0x538D, 0x6116, 0x709F, 0x0420, 0x15A9, 0x2732, 0x36BB,
    0xCE4C, 0xDFC5, 0xED5E, 0xFCD7, 0x8868, 0x99E1, 0xAB7A, 0xBAF3]
  const ROW_5: seq<bv16> := [
    0x5285, 0x430C, 0x7197, 0x601E, 0x14A1, 0x0528, 0x37B3, 0x263A,
    0xDECD, 0xCF44, 0xFDDF, 0xEC56, 0x98E9, 0x8960, 0xBBFB, 0xAA72]
  const ROW_6: seq<bv16> := [
    0x6306, 0x728F, 0x4014, 0x519D, 0x2522, 0x34AB, 0x0630, 0x17B9,
    0xEF4E, 0xFEC7, 0xCC5C, 0xDDD5, 0xA96A, 0xB8E3, 0x8A78, 0x9BF1]
  const ROW_7: seq<bv16> := [
    0x7387, 0x620E, 0x5095, 0x411C, 0x35A3, 0x242A, 0x16B1, 0x0738,
    0xFFCF, 0xEE46, 0xDCDD, 0xCD54, 0xB9EB, 0xA862, 0x9AF9, 0x8B70]
  const ROW_8: seq<bv16> := [
    0x8408, 0x9581, 0xA71A, 0xB693, 0xC22C, 0xD3A5, 0xE13E, 0xF0B7,
    0x0840, 0x19C9, 0x2B52, 0x3ADB, 0x4E64, 0x5FED, 0x6D76, 0x7CFF]
  const ROW_9: seq<bv16> := [
    0x9489, 0x8500, 0xB79B, 0xA612, 0xD2AD, 0xC324, 0xF1BF, 0xE036,
    0x18C1, 0x0948, 0x3BD3, 0x2A5A, 0x5EE5, 0x4F6C, 0x7DF7, 0x6C7E]
  const ROW_A: seq<bv16> := [
    0xA50A, 0xB483, 0x8618, 0x9791, 0xE32E, 0xF2A7, 0xC03C, 0xD1B5,
    0x2942, 0x38CB, 0x0A50, 0x1BD9, 0x6F66, 0x7EEF, 0x4C74, 0x5DFD]
  const ROW_B: seq<bv16> := [
    0xB58B, 0xA402, 0x9699, 0x8710, 0xF3AF, 0xE226, 0xD0BD, 0xC134,
    0x39C3, 0x284A, 0x1AD1, 0x0B58, 0x7FE7, 0x6E6E, 0x5CF5, 0x4D7C]
  const ROW_C: seq<bv16> := [
    0xC60C, 0xD785, 0xE51E, 0xF497, 0x8028, 0x91A1, 0xA33A, 0xB2B3,
    0x4A44, 0x5BCD, 0x6956, 0x78DF, 0x0C60, 0x1DE9, 0x2F72, 0x3EFB]
  const ROW_D: seq<bv16> := [
    0xD68D, 0xC704, 0xF59F, 0xE416, 0x90A9, 0x8120, 0xB3BB, 0xA232,
    0x5AC5, 0x4B4C, 0x79D7, 0x685E, 0x1CE1, 0x0D68, 0x3FF3, 0x2E7A]
  const ROW_E: seq<bv16> := [
    0xE70E, 0xF687, 0xC41C, 0xD595, 0xA12A, 0xB0A3, 0x8238, 0x93B1,
    0x6B46, 0x7ACF, 0x4854, 0x59DD, 0x2D62, 0x3CEB, 0x0E70, 0x1FF9]
  const ROW_F: seq<bv16> := [
    0xF78F, 0xE606, 0xD49D, 0xC514, 0xB1AB, 0xA022, 0x92B9, 0x8330,
    0x7BC7, 0x6A4E, 0x58D5, 0x495C, 0x3DE3, 0x2C6A, 0x1EF1, 0x0F78]

  const ROWS: seq<seq<bv16>> := [
    ROW_0, ROW_1, ROW_2, ROW_3, ROW_4, ROW_5, ROW_6, ROW_7,
    ROW_8, ROW_9, ROW_A, ROW_B, ROW_C, ROW_D, ROW_E, ROW_F]

  function TableEntry(i: bv8): bv16 {
    ROWS[(i >> 4) as int][(i & 0xF) as int]
  }

  /** The generator x^16 + x^12 + x^5 + 1 with its bits reversed. */
  const POLYNOMIAL: bv16 := 0x8408

  predicate Low(s: bv16) {
    s & 1 == 1
  }

  function Half(s: bv16): bv16 {
    s >> 1
  }

  /** One clock of the shift register: the bit that falls out feeds the polynomial back. */
  function Shift(s: bv16): bv16 {
    if Low(s) then Half(s) ^ POLYNOMIAL else Half(s)
  }

  function Shifts(s: bv16, n: nat): bv16
    decreases n
  {
    if n == 0 then s else Shift(Shifts(s, n - 1))
  }

  function EightShifts(s: bv16): bv16 {
    Shift(Shift(Shift(Shift(Shift(Shift(Shift(Shift(s))))))))
  }

  lemma EightIsEight(s: bv16, n: nat)
    requires n == 8
    ensures Shifts(s, n) == EightShifts(s)
  {
    assert Shifts(s, n - 7) == Shift(s);
    assert Shifts(s, n - 5) == Shift(Shift(Shifts(s, n - 7)));
    assert Shifts(s, n - 3) == Shift(Shift(Shifts(s, n - 5)));
    assert Shifts(s, n - 1) == Shift(Shift(Shifts(s, n - 3)));
  }

  lemma Nibble(j: bv8)
    requires j < 16
    ensures j == 0 || j == 1 || j == 2 || j == 3 || j == 4 || j == 5 || j == 6 || j == 7 ||
            j == 8 || j == 9 || j == 10 || j == 11 || j == 12 || j == 13 || j == 14 || j == 15
  {
  }

  lemma Row0IsBitwise(j: bv8)
    requires j < 16
    ensures ROW_0[j as int] == EightShifts(0x00 ^ (j as bv16))
  {
    Nibble(j);
  }

  lemma Row1IsBitwise(j: bv8)
    requires j < 16
    ensures ROW_1[j as int] == EightShifts(0x10 ^ (j as bv16))
  {
    Nibble(j);
  }

  lemma Row2IsBitwise(j: bv8)
    requires j < 16
    ensures ROW_2[j as int] == EightShifts(0x20 ^ (j as bv16))
  {
    Nibble(j);
  }

  lemma Row3IsBitwise(j: bv8)
    requires j < 16
    ensures ROW_3[j as int] == EightShifts(0x30 ^ (j as bv16))
  {
    Nibble(j);
  }

  lemma Row4IsBitwise(j: bv8)
    requires j < 16
    ensures ROW_4[j as int] == EightShifts(0x40 ^ (j as bv16))
  {
    Nibble(j);
  }

  lemma Row5IsBitwise(j: bv8)
    requires j < 16
    ensures ROW_5[j as int] == EightShifts(0x50 ^ (j as bv16))
  {
    Nibble(j);
  }

  lemma Row6IsBitwise(j: bv8)
    requires j < 16
    ensures ROW_6[j as int] == EightShifts(0x60 ^ (j as bv16))
  {
    Nibble(j);
  }

  lemma Row7IsBitwise(j: bv8)
    requires j < 16
    ensures ROW_7[j as int] == EightShifts(0x70 ^ (j as bv16))
  {
    Nibble(j);
  }

  lemma Row8IsBitwise(j: bv8)
    requires j < 16
    ensures ROW_8[j as int] == EightShifts(0x80 ^ (j as bv16))
  {
    Nibble(j);
  }

  lemma Row9IsBitwise(j: bv8)
    requires j < 16
    ensures ROW_9[j as int] == EightShifts(0x90 ^ (j as bv16))
  {
    Nibble(j);
  }

  lemma RowAIsBitwise(j: bv8)
    requires j < 16
    ensures ROW_A[j as int] == EightShifts(0xA0 ^ (j as bv16))
  {
    Nibble(j);
  }

  lemma RowBIsBitwise(j: bv8)
    requires j < 16
    ensures ROW_B[j as int] == EightShifts(0xB0 ^ (j as bv16))
  {
    Nibble(j);
  }

  lemma RowCIsBitwise(j: bv8)
    requires j < 16
    ensures ROW_C[j as int] == EightShifts(0xC0 ^ (j as bv16))
  {
    Nibble(j);
  }

  lemma RowDIsBitwise(j: bv8)
    requires j < 16
    ensures ROW_D[j as int] == EightShifts(0xD0 ^ (j as bv16))
  {
    Nibble(j);
  }

  lemma RowEIsBitwise(j: bv8)
    requires j < 16
    ensures ROW_E[j as int] == EightShifts(0xE0 ^ (j as bv16))
  {
    Nibble(j);
  }

  lemma RowFIsBitwise(j: bv8)
    requires j < 16
    ensures ROW_F[j as int] == EightShifts(0xF0 ^ (j as bv16))
  {
    Nibble(j);
  }

  lemma TableIsBitwise(i: bv8)
    ensures TableEntry(i) == EightShifts(i as bv16)
  {
    var h := i >> 4;
    Nibble(h);
    Nibble(i & 0xF);
    if h == 0 {
      Row0IsBitwise(i & 0xF);
    } else if h == 1 {
      Row1IsBitwise(i & 0xF);
    } else if h == 2 {
      Row2IsBitwise(i & 0xF);
    } else if h == 3 {
      Row3IsBitwise(i & 0xF);
    } else if h == 4 {
      Row4IsBitwise(i & 0xF);
    } else if h == 5 {
      Row5IsBitwise(i & 0xF);
    } else if h == 6 {
      Row6IsBitwise(i & 0xF);
    } else if h == 7 {
      Row7IsBitwise(i & 0xF);
    } else if h == 8 {
      Row8IsBitwise(i & 0xF);
    } else if h == 9 {
      Row9IsBitwise(i & 0xF);
    } else if h == 10 {
      RowAIsBitwise(i & 0xF);
    } else if h == 11 {
      RowBIsBitwise(i & 0xF);
    } else if h == 12 {
      RowCIsBitwise(i & 0xF);
    } else if h == 13 {
      RowDIsBitwise(i & 0xF);
    } else if h == 14 {
      RowEIsBitwise(i & 0xF);
    } else {
      RowFIsBitwise(i & 0xF);
    }
  }

  /** Every table entry is the register's response to that byte. */
  lemma TableIsShifts(i: bv8, n: nat)
    requires n == 8
    ensures TableEntry(i) == Shifts(i as bv16, n)
  {
    TableIsBitwise(i);
    EightIsEight(i as bv16, n);
  }
}
