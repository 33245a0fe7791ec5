/** The communication types of include/lib_arisr_comm.h: the 6-byte
    address ARISR_UINT48 with its two helpers, and the records of a
    logical (unpacked) chunk. */
module Comm {
  import opened Base

  /** ARISR_UINT48: six bytes, as kept in a frame. */
  type Uint48 = s: Bytes | |s| == 6 witness [0, 0, 0, 0, 0, 0]

  /** A four-byte section of a frame (id, aris, a control word, end). */
  type Bytes4 = s: Bytes | |s| == 4 witness [0, 0, 0, 0]

  /** A two-byte CRC field as it travels, high byte first. */
  type Bytes2 = s: Bytes | |s| == 2 witness [0, 0]

  // ---------------------------------------------------------------------
  // ARISR_UINT48_Set (lib_arisr_comm.h:50-54)

  /** ARISR_UINT48_Set: when both pointers are non-null, the six bytes at
      buffer are copied into data; otherwise nothing happens. The copy is
      memcpy, whose source and destination may not overlap. */
  method Uint48Set(data: array?<bv8>, buffer: array?<bv8>)
    requires data != null ==> data.Length == 6
    requires buffer != null ==> buffer.Length >= 6
    requires data != null && buffer != null ==> data != buffer
    modifies data
    ensures data != null && buffer != null ==> data[..] == old(buffer[..6])
    ensures data != null && buffer == null ==> data[..] == old(data[..])
  {
    if data != null && buffer != null {
      var i := 0;
      while i < 6
        invariant 0 <= i <= 6
        invariant data[..i] == buffer[..i]
        invariant buffer[..] == old(buffer[..])
      {
        data[i] := buffer[i];
        i := i + 1;
      }
    }
  }

  // ---------------------------------------------------------------------
  // ARISR_UINT48_GetInt (lib_arisr_comm.h:62-68)

  /** The number whose little-endian bytes are s: byte 0 weighs 1. */
  function LittleEndian(s: Bytes): nat
    decreases |s|
  {
    if s == [] then 0 else s[0] as nat + 256 * LittleEndian(s[1..])
  }

  /** 256 to the power n. */
  function Pow256(n: nat): (p: nat)
    ensures p >= 1
  {
    if n == 0 then 1 else 256 * Pow256(n - 1)
  }

  /** n little-endian bytes hold a number below 256^n. */
  lemma {:induction false} LittleEndianBound(s: Bytes)
    ensures LittleEndian(s) < Pow256(|s|)
    decreases |s|
  {
    if s != [] {
      LittleEndianBound(s[1..]);
    }
  }

  /** Two zero bytes appended at the top add nothing. */
  lemma {:induction false} LittleEndianZeroExtend(s: Bytes)
    ensures LittleEndian(s + [0, 0]) == LittleEndian(s)
    decreases |s|
  {
    if s == [] {
      var z: Bytes := [0, 0];
      assert s + [0, 0] == z;
      assert z[1..][1..] == [];
    } else {
      assert (s + [0, 0])[1..] == s[1..] + [0, 0];
      LittleEndianZeroExtend(s[1..]);
    }
  }

  /** One base-256 digit: a low byte and the rest are fixed by the sum. */
  lemma DigitSplit(x0: int, x: int, y0: int, y: int)
    requires 0 <= x0 < 256 && 0 <= y0 < 256
    requires x0 + 256 * x == y0 + 256 * y
    ensures x0 == y0 && x == y
  {
  }

  /** Equal-length byte strings with the same little-endian value are
      equal: the number determines the bytes. */
  lemma {:induction false} LittleEndianInjective(a: Bytes, b: Bytes)
    requires |a| == |b|
    requires LittleEndian(a) == LittleEndian(b)
    ensures a == b
    decreases |a|
  {
    if a != [] {
      LittleEndianHead(a, b);
      LittleEndianInjective(a[1..], b[1..]);
      assert a == [a[0]] + a[1..];
      assert b == [b[0]] + b[1..];
    }
  }

  /** Equal little-endian values have equal first bytes and equal values
      of the rest. */
  lemma LittleEndianHead(a: Bytes, b: Bytes)
    requires |a| == |b| > 0
    requires LittleEndian(a) == LittleEndian(b)
    ensures a[0] == b[0] && LittleEndian(a[1..]) == LittleEndian(b[1..])
  {
    DigitSplit(a[0] as int, LittleEndian(a[1..]), b[0] as int, LittleEndian(b[1..]));
  }

  /** ARISR_UINT48_GetInt: the six bytes memcpy'd over the low end of an
      int64 that starts at 0, read on a little-endian host (the byte order
      this model fixes). A null pointer gives 0. The value is the
      little-endian number of the six bytes, so it lies in [0, 2^48). */
  function Uint48GetInt(data: array?<bv8>): (r: int)
    requires data != null ==> data.Length == 6
    reads data
    ensures data == null ==> r == 0
    ensures data != null ==> r == LittleEndian(data[..])
    ensures 0 <= r < 0x1_0000_0000_0000
  {
    if data == null then 0
    else
      var memory := data[..] + [0, 0];
      LittleEndianZeroExtend(data[..]);
      LittleEndianBound(data[..]);
      LittleEndian(memory)
  }

  /** Set then GetInt: the number read reflects exactly the bytes set, since
      two addresses read back the same number only when they are equal. */
  lemma GetIntDeterminesBytes(a: array<bv8>, b: array<bv8>)
    requires a.Length == 6 && b.Length == 6
    requires Uint48GetInt(a) == Uint48GetInt(b)
    ensures a[..] == b[..]
  {
    LittleEndianInjective(a[..], b[..]);
  }

  // ---------------------------------------------------------------------
  // Logical chunk records (lib_arisr_comm.h:70-102)

  /** ARISR_CHUNK_CTRL: the fields of control word 1, one byte each. */
  datatype CtrlFields = CtrlFields(
    version: bv8,
    destinations: bv8,
    option: bv8,
    from: bv8,
    sequence: bv8,
    retry: bv8,
    moreData: bv8,
    identifier: bv8,
    moreHeader: bv8)

  /** ARISR_CHUNK_CTRL2: the fields of control word 2, one byte each. */
  datatype Ctrl2Fields = Ctrl2Fields(
    dataLength: bv8,
    feature: bv8,
    negAnswer: bv8,
    freqSwitch: bv8)

  /** ARISR_CHUNK: a frame with its control words unpacked and its data in
      the clear. The pointer members become a sequence (destinationsB) and
      a byte string (data) whose lengths travel with them. */
  datatype Chunk = Chunk(
    id: Bytes4,
    aris: Bytes4,
    ctrl: CtrlFields,
    origin: Uint48,
    destinationA: Uint48,
    destinationsB: seq<Uint48>,
    destinationC: Uint48,
    ctrl2: Ctrl2Fields,
    crcHeader: Bytes2,
    data: Bytes,
    crcData: Bytes2,
    end: Bytes4)
}
