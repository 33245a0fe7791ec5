/** The conversion macros of include/lib_arisr_base.h: single-bit test, set
    and clear; big-endian byte-array <-> integer packing; ASCII-hex <->
    nibble; MIN/MAX; and the saturating 32-bit add.

    Bytes are bv8, the fixed-width integers bv16/bv32, so that the
    macros' shifts and masks are the verifier's own bit-vector operations.
    A macro that assigns into its argument (BIT_SET, BIT_CLEAR) is a method
    whose out-parameter is the new value of that argument; one that writes
    through an array pointer (UINTxx_TO_BYTES) is a method on an array and
    an offset, the offset standing for the pointer arithmetic of the caller. */
module Base {
  type Bytes = seq<bv8>

  /** ARISR_UINT32: an unsigned 32-bit value, for the macros that do
      unsigned arithmetic rather than bit operations. */
  type Uint32 = x: int | 0 <= x < 0x1_0000_0000

  // ---------------------------------------------------------------------
  // Bit manipulation (lib_arisr_base.h:142-149)

  /** F_ARISR_BIT_TEST: 1 if the given bit of value is set, else 0. Shifting a
      32-bit 1 by 32 or more is undefined in C, hence bit < 32. */
  function BitTest(value: bv32, bit: bv32): (r: nat)
    requires bit < 32
    ensures r <= 1
  {
    if value & (1 << bit) != 0 then 1 else 0
  }

  /** BitTest reads bit k in the usual sense: 1 means that bit k, shifted
      down to bit 0, is 1 ... */
  lemma BitTestOne(value: bv32, bit: bv32)
    requires bit < 32 && BitTest(value, bit) == 1
    ensures (value >> bit) & 1 == 1
  {
  }

  /** ... and 0 that it is 0. */
  lemma BitTestZero(value: bv32, bit: bv32)
    requires bit < 32 && BitTest(value, bit) == 0
    ensures (value >> bit) & 1 == 0
  {
  }

  /** F_ARISR_BIT_SET: the variable afterwards has the bit set and every
      other bit as it was. */
  method BitSet(value: bv32, bit: bv32) returns (r: bv32)
    requires bit < 32
    ensures BitTest(r, bit) == 1
    ensures forall k: bv32 :: k < 32 && k != bit ==> BitTest(r, k) == BitTest(value, k)
  {
    r := value | (1 << bit);
    forall k: bv32 | k < 32 && k != bit
      ensures BitTest(r, k) == BitTest(value, k)
    {
      SetKeepsOthers(value, bit, k);
    }
  }

  /** Setting one bit leaves every other bit of the value as it was. */
  lemma SetKeepsOthers(value: bv32, bit: bv32, k: bv32)
    requires bit < 32 && k < 32 && k != bit
    ensures (value | (1 << bit)) & (1 << k) == value & (1 << k)
  {
  }

  /** F_ARISR_BIT_CLEAR: the variable afterwards has the bit clear and
      every other bit as it was. */
  method BitClear(value: bv32, bit: bv32) returns (r: bv32)
    requires bit < 32
    ensures BitTest(r, bit) == 0
    ensures forall k: bv32 :: k < 32 && k != bit ==> BitTest(r, k) == BitTest(value, k)
  {
    r := value & !(1 << bit);
    forall k: bv32 | k < 32 && k != bit
      ensures BitTest(r, k) == BitTest(value, k)
    {
      ClearKeepsOthers(value, bit, k);
    }
  }

  /** Clearing one bit leaves every other bit of the value as it was. */
  lemma ClearKeepsOthers(value: bv32, bit: bv32, k: bv32)
    requires bit < 32 && k < 32 && k != bit
    ensures (value & !(1 << bit)) & (1 << k) == value & (1 << k)
  {
  }

  // ---------------------------------------------------------------------
  // Integer -> bytes (lib_arisr_base.h:182-199), as values

  /** The two bytes F_ARISR_UINT16_TO_BYTES writes, most significant first. */
  function Uint16Bytes(v: bv16): (s: Bytes)
    ensures |s| == 2
  {
    [((v >> 8) & 0xFF) as bv8, (v & 0xFF) as bv8]
  }

  /** The three bytes F_ARISR_UINT24_TO_BYTES writes: the low 24 bits of
      v, most significant first. */
  function Uint24Bytes(v: bv32): (s: Bytes)
    ensures |s| == 3
  {
    [((v >> 16) & 0xFF) as bv8, ((v >> 8) & 0xFF) as bv8, (v & 0xFF) as bv8]
  }

  /** The four bytes F_ARISR_UINT32_TO_BYTES writes, most significant first. */
  function Uint32Bytes(v: bv32): (s: Bytes)
    ensures |s| == 4
  {
    [((v >> 24) & 0xFF) as bv8, ((v >> 16) & 0xFF) as bv8,
     ((v >> 8) & 0xFF) as bv8, (v & 0xFF) as bv8]
  }

  // ---------------------------------------------------------------------
  // Bytes -> integer (lib_arisr_base.h:157-173)

  /** F_ARISR_BYTES_TO_UINT16: byte 0 is the high byte, so the two bytes
      read are exactly the ones F_ARISR_UINT16_TO_BYTES writes for it. */
  function BytesToUint16(b: Bytes): (v: bv16)
    requires |b| >= 2
    ensures Uint16Bytes(v) == b[..2]
  {
    ((b[0] as bv16 & 0xFF) << 8) + (b[1] as bv16 & 0xFF)
  }

  /** F_ARISR_BYTES_TO_UINT24: a 24-bit value in a 32-bit integer, byte 0
      most significant. */
  function BytesToUint24(b: Bytes): (v: bv32)
    requires |b| >= 3
    ensures v < 0x100_0000
    ensures Uint24Bytes(v) == b[..3]
  {
    ((b[0] as bv32 & 0xFF) << 16) + ((b[1] as bv32 & 0xFF) << 8) + (b[2] as bv32 & 0xFF)
  }

  /** F_ARISR_BYTES_TO_UINT32: byte 0 most significant. */
  function BytesToUint32(b: Bytes): (v: bv32)
    requires |b| >= 4
    ensures Uint32Bytes(v) == b[..4]
  {
    ((b[0] as bv32 & 0xFF) << 24) + ((b[1] as bv32 & 0xFF) << 16)
      + ((b[2] as bv32 & 0xFF) << 8) + (b[3] as bv32 & 0xFF)
  }

  /** Writing then reading 16 bits gives the value back. */
  lemma Uint16RoundTrip(v: bv16)
    ensures BytesToUint16(Uint16Bytes(v)) == v
  {
  }

  /** Writing then reading 24 bits keeps exactly the low 24 bits. */
  lemma Uint24RoundTrip(v: bv32)
    ensures BytesToUint24(Uint24Bytes(v)) == v & 0xFF_FFFF
    ensures v < 0x100_0000 ==> BytesToUint24(Uint24Bytes(v)) == v
  {
  }

  /** Writing then reading 32 bits gives the value back. */
  lemma Uint32RoundTrip(v: bv32)
    ensures BytesToUint32(Uint32Bytes(v)) == v
  {
  }

  // ---------------------------------------------------------------------
  // Integer -> bytes, in place

  /** F_ARISR_UINT16_TO_BYTES(v, a + off): a[off..off+2) receive the
      bytes of v and nothing else in a changes. */
  method Uint16ToBytes(v: bv16, a: array<bv8>, off: nat)
    requires off + 2 <= a.Length
    modifies a
    ensures a[off..off + 2] == Uint16Bytes(v)
    ensures forall i :: 0 <= i < a.Length && !(off <= i < off + 2) ==> a[i] == old(a[i])
  {
    a[off] := ((v >> 8) & 0xFF) as bv8;
    a[off + 1] := (v & 0xFF) as bv8;
  }

  /** F_ARISR_UINT24_TO_BYTES(v, a + off). */
  method Uint24ToBytes(v: bv32, a: array<bv8>, off: nat)
    requires off + 3 <= a.Length
    modifies a
    ensures a[off..off + 3] == Uint24Bytes(v)
    ensures forall i :: 0 <= i < a.Length && !(off <= i < off + 3) ==> a[i] == old(a[i])
  {
    a[off] := ((v >> 16) & 0xFF) as bv8;
    a[off + 1] := ((v >> 8) & 0xFF) as bv8;
    a[off + 2] := (v & 0xFF) as bv8;
  }

  /** F_ARISR_UINT32_TO_BYTES(v, a + off). */
  method Uint32ToBytes(v: bv32, a: array<bv8>, off: nat)
    requires off + 4 <= a.Length
    modifies a
    ensures a[off..off + 4] == Uint32Bytes(v)
    ensures forall i :: 0 <= i < a.Length && !(off <= i < off + 4) ==> a[i] == old(a[i])
  {
    a[off] := ((v >> 24) & 0xFF) as bv8;
    a[off + 1] := ((v >> 16) & 0xFF) as bv8;
    a[off + 2] := ((v >> 8) & 0xFF) as bv8;
    a[off + 3] := (v & 0xFF) as bv8;
  }

  // ---------------------------------------------------------------------
  // ASCII-hex <-> nibble (lib_arisr_base.h:206-210)

  /** C's % on int, which truncates toward zero: a negative dividend
      gives a remainder that is zero or negative. */
  function CRem(a: int, m: int): (r: int)
    requires m > 0
    ensures -m < r < m
    ensures a >= 0 ==> r == a % m
    ensures a < 0 ==> r <= 0
  {
    if a >= 0 then a % m else -((-a) % m)
  }

  predicate IsDecimalDigit(c: int) {
    '0' as int <= c <= '9' as int
  }

  predicate IsUpperHexLetter(c: int) {
    'A' as int <= c <= 'F' as int
  }

  predicate IsLowerHexLetter(c: int) {
    'a' as int <= c <= 'f' as int
  }

  /** F_ARISR_ASCHEX_2_NIBBLE on a character code. A hex digit of either
      case gives its value; any other character gives some value in
      -9..15 (negative below '0', where C's % keeps the dividend's sign). */
  function AscHexToNibble(c: int): (n: int)
    ensures IsDecimalDigit(c) ==> n == c - '0' as int
    ensures IsUpperHexLetter(c) ==> n == c - 'A' as int + 10
    ensures IsLowerHexLetter(c) ==> n == c - 'a' as int + 10
    ensures -9 <= n <= 15
    ensures c >= '0' as int ==> 0 <= n
  {
    if c >= 'a' as int then CRem(c - 'a' as int, 6) + 10
    else if c >= 'A' as int then CRem(c - 'A' as int, 6) + 10
    else CRem(c - '0' as int, 10)
  }

  /** F_ARISR_NIBBLE_2_ASCHEX: a nibble becomes an upper-case hex digit
      that AscHexToNibble reads back. */
  function NibbleToAscHex(n: int): (c: int)
    ensures 0 <= n <= 9 ==> IsDecimalDigit(c) && c == '0' as int + n
    ensures 10 <= n <= 15 ==> IsUpperHexLetter(c) && c == 'A' as int + (n - 10)
    ensures 0 <= n < 16 ==> AscHexToNibble(c) == n
  {
    if n > 9 then CRem(n - 10, 6) + 'A' as int else n + '0' as int
  }

  /** The other direction: an upper-case hex digit survives reading and
      writing back. */
  lemma UpperHexRoundTrip(c: int)
    requires IsDecimalDigit(c) || IsUpperHexLetter(c)
    ensures 0 <= AscHexToNibble(c) < 16
    ensures NibbleToAscHex(AscHexToNibble(c)) == c
  {
  }

  // ---------------------------------------------------------------------
  // Integer comparison (lib_arisr_base.h:217-219)

  /** MIN: the smaller argument (the second one on a tie). */
  function Min(x: int, y: int): (m: int)
    ensures m == x || m == y
    ensures m <= x && m <= y
  {
    if x < y then x else y
  }

  /** MAX: the larger argument (the second one on a tie). */
  function Max(x: int, y: int): (m: int)
    ensures m == x || m == y
    ensures m >= x && m >= y
  {
    if x > y then x else y
  }

  lemma MinLeMax(x: int, y: int)
    ensures Min(x, y) <= Max(x, y)
  {
  }

  // ---------------------------------------------------------------------
  // Saturating addition (lib_arisr_base.h:226-232)

  /** F_ARISR_UINT32_AddWithLimit: initial + addition, capped at limit.
      The macro's three tests reduce it to one minimum, and when it takes
      the sum the 32-bit addition cannot wrap. The subtraction limit -
      initial runs only once initial < limit, so it cannot wrap either. */
  function AddWithLimit(initial: Uint32, addition: Uint32, limit: Uint32): (r: Uint32)
    ensures r == Min(initial + addition, limit)
    ensures r <= limit
  {
    if initial >= limit || addition >= limit || limit - initial < addition then limit
    else (initial + addition) % 0x1_0000_0000
  }
}
