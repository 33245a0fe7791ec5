/** The CRC-16 engine of the library: ARISR_crypt_crc16_calculate
    (source/lib_arisr_crypt.c:30-38) and its lookup table crc16_table
    (include/lib_arisr_crypt.h:39-56).

    The table-driven loop of the source is proved against a reference
    function over the input bytes, and that function is proved equal to the
    bitwise definition of CRC-16/CCITT-FALSE: initial register 0xFFFF,
    polynomial 0x1021, no reflection and no final XOR. */
module Crc16 {
  import opened Base
  import opened Crc16Division

  /** CRC16_INITIAL_VALUE (include/lib_arisr_crypt.h:37). */
  const CRC16_INITIAL_VALUE: bv16 := 0xFFFF

  /** crc16_table, verbatim, one constant per source line of sixteen
      entries (include/lib_arisr_crypt.h:40-55). */
  const TableRow0: seq<bv16> :=
    [0x0000, 0x1021, 0x2042, 0x3063, 0x4084, 0x50A5, 0x60C6, 0x70E7,
     0x8108, 0x9129, 0xA14A, 0xB16B, 0xC18C, 0xD1AD, 0xE1CE, 0xF1EF]
  const TableRow1: seq<bv16> :=
    [0x1231, 0x0210, 0x3273, 0x2252, 0x52B5, 0x4294, 0x72F7, 0x62D6,
     0x9339, 0x8318, 0xB37B, 0xA35A, 0xD3BD, 0xC39C, 0xF3FF, 0xE3DE]
  const TableRow2: seq<bv16> :=
    [0x2462, 0x3443, 0x0420, 0x1401, 0x64E6, 0x74C7, 0x44A4, 0x5485,
     0xA56A, 0xB54B, 0x8528, 0x9509, 0xE5EE, 0xF5CF, 0xC5AC, 0xD58D]
  const TableRow3: seq<bv16> :=
    [0x3653, 0x2672, 0x1611, 0x0630, 0x76D7, 0x66F6, 0x5695, 0x46B4,
     0xB75B, 0xA77A, 0x9719, 0x8738, 0xF7DF, 0xE7FE, 0xD79D, 0xC7BC]
  const TableRow4: seq<bv16> :=
    [0x48C4, 0x58E5, 0x6886, 0x78A7, 0x0840, 0x1861, 0x2802, 0x3823,
     0xC9CC, 0xD9ED, 0xE98E, 0xF9AF, 0x8948, 0x9969, 0xA90A, 0xB92B]
  const TableRow5: seq<bv16> :=
    [0x5AF5, 0x4AD4, 0x7AB7, 0x6A96, 0x1A71, 0x0A50, 0x3A33, 0x2A12,
     0xDBFD, 0xCBDC, 0xFBBF, 0xEB9E, 0x9B79, 0x8B58, 0xBB3B, 0xAB1A]
  const TableRow6: seq<bv16> :=
    [0x6CA6, 0x7C87, 0x4CE4, 0x5CC5, 0x2C22, 0x3C03, 0x0C60, 0x1C41,
     0xEDAE, 0xFD8F, 0xCDEC, 0xDDCD, 0xAD2A, 0xBD0B, 0x8D68, 0x9D49]
  const TableRow7: seq<bv16> :=
    [0x7E97, 0x6EB6, 0x5ED5, 0x4EF4, 0x3E13, 0x2E32, 0x1E51, 0x0E70,
     0xFF9F, 0xEFBE, 0xDFDD, 0xCFFC, 0xBF1B, 0xAF3A, 0x9F59, 0x8F78]
  const TableRow8: seq<bv16> :=
    [0x9188, 0x81A9, 0xB1CA, 0xA1EB, 0xD10C, 0xC12D, 0xF14E, 0xE16F,
     0x1080, 0x00A1, 0x30C2, 0x20E3, 0x5004, 0x4025, 0x7046, 0x6067]
  const TableRow9: seq<bv16> :=
    [0x83B9, 0x9398, 0xA3FB, 0xB3DA, 0xC33D, 0xD31C, 0xE37F, 0xF35E,
     0x02B1, 0x1290, 0x22F3, 0x32D2, 0x4235, 0x5214, 0x6277, 0x7256]
  const TableRowA: seq<bv16> :=
    [0xB5EA, 0xA5CB, 0x95A8, 0x8589, 0xF56E, 0xE54F, 0xD52C, 0xC50D,
     0x34E2, 0x24C3, 0x14A0, 0x0481, 0x7466, 0x6447, 0x5424, 0x4405]
  const TableRowB: seq<bv16> :=
    [0xA7DB, 0xB7FA, 0x8799, 0x97B8, 0xE75F, 0xF77E, 0xC71D, 0xD73C,
     0x26D3, 0x36F2, 0x0691, 0x16B0, 0x6657, 0x7676, 0x4615, 0x5634]
  const TableRowC: seq<bv16> :=
    [0xD94C, 0xC96D, 0xF90E, 0xE92F, 0x99C8, 0x89E9, 0xB98A, 0xA9AB,
     0x5844, 0x4865, 0x7806, 0x6827, 0x18C0, 0x08E1, 0x3882, 0x28A3]
  const TableRowD: seq<bv16> :=
    [0xCB7D, 0xDB5C, 0xEB3F, 0xFB1E, 0x8BF9, 0x9BD8, 0xABBB, 0xBB9A,
     0x4A75, 0x5A54, 0x6A37, 0x7A16, 0x0AF1, 0x1AD0, 0x2AB3, 0x3A92]
  const TableRowE: seq<bv16> :=
    [0xFD2E, 0xED0F, 0xDD6C, 0xCD4D, 0xBDAA, 0xAD8B, 0x9DE8, 0x8DC9,
     0x7C26, 0x6C07, 0x5C64, 0x4C45, 0x3CA2, 0x2C83, 0x1CE0, 0x0CC1]
  const TableRowF: seq<bv16> :=
    [0xEF1F, 0xFF3E, 0xCF5D, 0xDF7C, 0xAF9B, 0xBFBA, 0x8FD9, 0x9FF8,
     0x6E17, 0x7E36, 0x4E55, 0x5E74, 0x2E93, 0x3EB2, 0x0ED1, 0x1EF0]

  const TableRows: seq<seq<bv16>> :=
    [TableRow0, TableRow1, TableRow2, TableRow3, TableRow4, TableRow5, TableRow6, TableRow7,
     TableRow8, TableRow9, TableRowA, TableRowB, TableRowC, TableRowD, TableRowE, TableRowF]

  /** crc16_table[i]: entry i & 0xF of source line i >> 4, which is where
      the flat C array places entry i. */
  function TableEntry(i: bv8): bv16 {
    TableRows[(i >> 4) as int][(i & 0xF) as int]
  }

  // ---------------------------------------------------------------------
  // The bitwise definition over bytes

  /** The bitwise CRC register after processing all of s, from register reg:
      each byte is XORed into the top of the register and divided out. */
  function BitwiseOver(reg: bv16, s: Bytes): bv16
    decreases |s|
  {
    if s == [] then reg else Absorb(BitwiseOver(reg, s[..|s| - 1]), s[|s| - 1])
  }

  // ---------------------------------------------------------------------
  // The table-driven definition, as the source computes it

  /** One iteration of the source loop body (lib_arisr_crypt.c:34-35): the
      8-bit index, then the table entry XORed into the register shifted up
      a byte, whose top byte the 16-bit register drops. */
  function TableUpdate(reg: bv16, b: bv8): bv16 {
    (reg << 8) ^ TableEntry(Index(reg, b))
  }

  /** The register after running the source loop over s from register reg. */
  function CrcOver(reg: bv16, s: Bytes): bv16
    decreases |s|
  {
    if s == [] then reg else TableUpdate(CrcOver(reg, s[..|s| - 1]), s[|s| - 1])
  }

  /** The CRC-16 of a byte string, as ARISR_crypt_crc16_calculate returns
      it: the bitwise CRC-16/CCITT-FALSE. */
  function Crc16(s: Bytes): (r: bv16)
    ensures r == BitwiseOver(CRC16_INITIAL_VALUE, s)
  {
    CrcIsBitwise(CRC16_INITIAL_VALUE, s);
    CrcOver(CRC16_INITIAL_VALUE, s)
  }

  /** ARISR_crypt_crc16_calculate: the table-driven loop over data[0..length).
      The result is the CRC of exactly the first length bytes. */
  method Calculate(data: array<bv8>, length: nat) returns (crc: bv16)
    requires length <= data.Length
    ensures crc == Crc16(data[..length])
    ensures length == 0 ==> crc == CRC16_INITIAL_VALUE
  {
    crc := CRC16_INITIAL_VALUE;
    var i := 0;
    while i < length
      invariant i <= length
      invariant crc == CrcOver(CRC16_INITIAL_VALUE, data[..i])
    {
      var index: bv8 := Index(crc, data[i]);
      crc := (crc << 8) ^ TableEntry(index);
      assert data[..i + 1][..i] == data[..i];
      i := i + 1;
    }
  }

  // ---------------------------------------------------------------------
  // The table is the one the polynomial generates

  /** Every crc16_table[i] is i << 8 divided through eight MSB-first steps
      of polynomial 0x1021. */
  lemma TableEntryIsGenerated(i: bv8)
    ensures TableEntry(i) == Generated(i)
  {
    ByteStepIsUnrolled(Lift(i));
  }

  // ---------------------------------------------------------------------
  // Table-driven equals bitwise

  /** The table-driven update XORs the generated entry of the index into
      the shifted register. */
  lemma TableUpdateIsGenerated(reg: bv16, b: bv8)
    ensures TableUpdate(reg, b) == Generated(Index(reg, b)) ^ (reg << 8)
  {
    TableEntryIsGenerated(Index(reg, b));
  }

  /** One table-driven byte update equals the bitwise one. */
  lemma TableUpdateIsBitwise(reg: bv16, b: bv8)
    ensures TableUpdate(reg, b) == Absorb(reg, b)
  {
    TableUpdateIsGenerated(reg, b);
    AbsorbSplit(reg, b);
  }

  /** The table-driven loop computes the bitwise CRC-16/CCITT-FALSE. */
  lemma {:induction false} CrcIsBitwise(reg: bv16, s: Bytes)
    ensures CrcOver(reg, s) == BitwiseOver(reg, s)
    decreases |s|
  {
    if s != [] {
      CrcIsBitwise(reg, s[..|s| - 1]);
      TableUpdateIsBitwise(CrcOver(reg, s[..|s| - 1]), s[|s| - 1]);
    }
  }

  /** Incrementality: the CRC of a ++ b is the loop over b started from the
      register left by a. */
  lemma {:induction false} CrcOverAppend(reg: bv16, a: Bytes, b: Bytes)
    ensures CrcOver(reg, a + b) == CrcOver(CrcOver(reg, a), b)
    decreases |b|
  {
    if b == [] {
      assert a + b == a;
    } else {
      var b' := b[..|b| - 1];
      assert (a + b)[..|a + b| - 1] == a + b';
      CrcOverAppend(reg, a, b');
    }
  }

  /** The catalogue check value of CRC-16/CCITT-FALSE: the CRC of ASCII
      "123456789" is 0x29B1. */
  lemma CheckValue()
    ensures Crc16([0x31, 0x32, 0x33, 0x34, 0x35, 0x36, 0x37, 0x38, 0x39]) == 0x29B1
  {
    var s: Bytes := [0x31, 0x32, 0x33, 0x34, 0x35, 0x36, 0x37, 0x38, 0x39];
    assert s[..1][..0] == [];
    assert CrcOver(CRC16_INITIAL_VALUE, s[..1]) == 0xC782;
    assert s[..2][..1] == s[..1];
    assert CrcOver(CRC16_INITIAL_VALUE, s[..2]) == 0x3DBA;
    assert s[..3][..2] == s[..2];
    assert CrcOver(CRC16_INITIAL_VALUE, s[..3]) == 0x5BCE;
    assert s[..4][..3] == s[..3];
    assert CrcOver(CRC16_INITIAL_VALUE, s[..4]) == 0x5349;
    assert s[..5][..4] == s[..4];
    assert CrcOver(CRC16_INITIAL_VALUE, s[..5]) == 0x4560;
    assert s[..6][..5] == s[..5];
    assert CrcOver(CRC16_INITIAL_VALUE, s[..6]) == 0x2EF4;
    assert s[..7][..6] == s[..6];
    assert CrcOver(CRC16_INITIAL_VALUE, s[..7]) == 0x7718;
    assert s[..8][..7] == s[..7];
    assert CrcOver(CRC16_INITIAL_VALUE, s[..8]) == 0xA12B;
    assert s[..9][..8] == s[..8];
    assert s[..9] == s;
  }

  // ---------------------------------------------------------------------
  // The CRC catches every change of a single byte

  /** Two registers that differ stay different after the same bytes. */
  lemma {:induction false} OverInjectiveReg(r1: bv16, r2: bv16, s: Bytes)
    requires BitwiseOver(r1, s) == BitwiseOver(r2, s)
    ensures r1 == r2
    decreases |s|
  {
    if s != [] {
      AbsorbInjectiveReg(BitwiseOver(r1, s[..|s| - 1]), BitwiseOver(r2, s[..|s| - 1]), s[|s| - 1]);
      OverInjectiveReg(r1, r2, s[..|s| - 1]);
    }
  }

  /** The bitwise CRC of a ++ b continues from the register a leaves. */
  lemma OverAppend(reg: bv16, a: Bytes, b: Bytes)
    ensures BitwiseOver(reg, a + b) == BitwiseOver(BitwiseOver(reg, a), b)
  {
    CrcOverAppend(reg, a, b);
    CrcIsBitwise(reg, a + b);
    CrcIsBitwise(reg, a);
    CrcIsBitwise(CrcOver(reg, a), b);
  }

  /** Changing any one byte of s changes its CRC, from any register. */
  lemma OneByteChangesCrc(reg: bv16, s: Bytes, i: nat, b: bv8)
    requires i < |s| && b != s[i]
    ensures BitwiseOver(reg, s[i := b]) != BitwiseOver(reg, s)
  {
    var t := s[i := b];
    var p, q := s[..i], s[i + 1..];
    assert s == (p + [s[i]]) + q;
    assert t == (p + [b]) + q;
    assert (p + [s[i]])[..|p|] == p && (p + [b])[..|p|] == p;
    OverAppend(reg, p + [s[i]], q);
    OverAppend(reg, p + [b], q);
    if BitwiseOver(reg, t) == BitwiseOver(reg, s) {
      OverInjectiveReg(BitwiseOver(reg, p + [b]), BitwiseOver(reg, p + [s[i]]), q);
      AbsorbInjectiveByte(BitwiseOver(reg, p), b, s[i]);
      assert false;
    }
  }

  /** So the CRC the library computes tells apart two strings that differ
      in one byte. */
  lemma OneByteChangesCrc16(s: Bytes, i: nat, b: bv8)
    requires i < |s| && b != s[i]
    ensures Crc16(s[i := b]) != Crc16(s)
  {
    OneByteChangesCrc(CRC16_INITIAL_VALUE, s, i, b);
  }
}
