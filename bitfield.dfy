/** The control-word bit-field codec: ARISR_proto_ctrl_getField
    (source/lib_arisr.c:39-43) and ARISR_proto_ctrl_setField (declared at
    include/lib_arisr.h:66-74), with the field table of the two control
    words and their pack/unpack into the ARISR_CHUNK_CTRL/CTRL2 records.

    A control word travels as four bytes; the 32-bit word is assembled
    big-endian with F_ARISR_BYTES_TO_UINT32 and written back with
    F_ARISR_UINT32_TO_BYTES. A field is read as (word >> shift) & mask:
    the mask is right-aligned, applied after the shift. */
module BitField {
  import opened Base
  import opened Errors
  import opened Comm

  // ---------------------------------------------------------------------
  // Field table. Control word 1, most significant field first.

  const VERSION_MASK: bv8 := 0xF
  const VERSION_SHIFT: bv32 := 28
  const DESTS_MASK: bv8 := 0xFF
  const DESTS_SHIFT: bv32 := 20
  const OPTION_MASK: bv8 := 0x7
  const OPTION_SHIFT: bv32 := 17
  const FROM_MASK: bv8 := 0x1
  const FROM_SHIFT: bv32 := 16
  const SEQUENCE_MASK: bv8 := 0x3F
  const SEQUENCE_SHIFT: bv32 := 10
  const RETRY_MASK: bv8 := 0x1
  const RETRY_SHIFT: bv32 := 9
  const MORE_DATA_MASK: bv8 := 0x1
  const MORE_DATA_SHIFT: bv32 := 8
  const IDENTIFIER_MASK: bv8 := 0x7F
  const IDENTIFIER_SHIFT: bv32 := 1
  const MORE_HEADER_MASK: bv8 := 0x1
  const MORE_HEADER_SHIFT: bv32 := 0

  // Control word 2; its low 21 bits are reserved.

  const DATA_LENGTH_MASK: bv8 := 0xFF
  const DATA_LENGTH_SHIFT: bv32 := 24
  const FEATURE_MASK: bv8 := 0x1
  const FEATURE_SHIFT: bv32 := 23
  const NEG_ANSWER_MASK: bv8 := 0x1
  const NEG_ANSWER_SHIFT: bv32 := 22
  const FREQ_SWITCH_MASK: bv8 := 0x1
  const FREQ_SWITCH_SHIFT: bv32 := 21

  /** The bits of control word 2 that belong to some field. */
  const CTRL2_USED_BITS: bv32 := 0xFFE0_0000

  // ---------------------------------------------------------------------
  // getField (lib_arisr.c:39-43)

  /** The 32-bit value of a control word. */
  function Word(ctrl: Bytes4): bv32 {
    BytesToUint32(ctrl)
  }

  /** The field of a word at shift under mask: shifted down, masked, and
      narrowed to a byte. The result has no bit outside the mask, so it
      never exceeds it. */
  function Extract(w: bv32, shift: bv32, mask: bv8): (r: bv8)
    requires shift < 32
    ensures r <= mask
    ensures r & !mask == 0
  {
    ShiftedBelowByte(w, shift, mask);
    ((w >> shift) & mask as bv32) as bv8
  }

  lemma ShiftedBelowByte(w: bv32, shift: bv32, mask: bv8)
    requires shift < 32
    ensures (w >> shift) & mask as bv32 <= mask as bv32
  {
  }

  /** ARISR_proto_ctrl_getField: the field of the big-endian word of the
      four control bytes. */
  function GetField(ctrl: Bytes4, shift: bv32, mask: bv8): (r: bv8)
    requires shift < 32
    ensures r <= mask
    ensures r & !mask == 0
  {
    Extract(Word(ctrl), shift, mask)
  }

  /** For every field of the table, shift-then-mask reads the same bits as
      masking with the field's mask moved into position and then shifting:
      the two conventions for the mask argument agree. */
  lemma PositionedMasks(w: bv32)
    ensures Extract(w, VERSION_SHIFT, VERSION_MASK) as bv32 == (w & 0xF000_0000) >> 28
    ensures Extract(w, DESTS_SHIFT, DESTS_MASK) as bv32 == (w & 0x0FF0_0000) >> 20
    ensures Extract(w, OPTION_SHIFT, OPTION_MASK) as bv32 == (w & 0x000E_0000) >> 17
    ensures Extract(w, FROM_SHIFT, FROM_MASK) as bv32 == (w & 0x0001_0000) >> 16
    ensures Extract(w, SEQUENCE_SHIFT, SEQUENCE_MASK) as bv32 == (w & 0x0000_FC00) >> 10
    ensures Extract(w, RETRY_SHIFT, RETRY_MASK) as bv32 == (w & 0x0000_0200) >> 9
    ensures Extract(w, MORE_DATA_SHIFT, MORE_DATA_MASK) as bv32 == (w & 0x0000_0100) >> 8
    ensures Extract(w, IDENTIFIER_SHIFT, IDENTIFIER_MASK) as bv32 == (w & 0x0000_00FE) >> 1
    ensures Extract(w, MORE_HEADER_SHIFT, MORE_HEADER_MASK) as bv32 == w & 0x0000_0001
    ensures Extract(w, DATA_LENGTH_SHIFT, DATA_LENGTH_MASK) as bv32 == (w & 0xFF00_0000) >> 24
    ensures Extract(w, FEATURE_SHIFT, FEATURE_MASK) as bv32 == (w & 0x0080_0000) >> 23
    ensures Extract(w, NEG_ANSWER_SHIFT, NEG_ANSWER_MASK) as bv32 == (w & 0x0040_0000) >> 22
    ensures Extract(w, FREQ_SWITCH_SHIFT, FREQ_SWITCH_MASK) as bv32 == (w & 0x0020_0000) >> 21
  {
  }

  // ---------------------------------------------------------------------
  // setField (lib_arisr.h:66-74)

  /** A word after data is moved up by shift and OR-ed into it; bits
      already set stay set. */
  function Insert(w: bv32, data: bv8, shift: bv32): bv32
    requires shift < 32
  {
    w | (data as bv32 << shift)
  }

  /** ARISR_proto_ctrl_setField on a four-byte control buffer: the
      buffer afterwards holds the bytes of the word with data inserted. It
      never fails. It does not clear the field first, so a field set twice
      holds the OR of the two values (see SetTwiceOrs). */
  method SetField(ctrl: array<bv8>, data: bv8, shift: bv32) returns (s: Status)
    requires ctrl.Length == 4 && shift < 32
    modifies ctrl
    ensures s == Ok
    ensures ctrl[..] == Uint32Bytes(Insert(BytesToUint32(old(ctrl[..])), data, shift))
  {
    var w := BytesToUint32(ctrl[..]);
    w := w | (data as bv32 << shift);
    Uint32ToBytes(w, ctrl, 0);
    s := Ok;
  }

  /** Reading back the bytes setField writes gives the inserted word, so a
      sequence of setField calls composes on words. */
  lemma SetFieldWord(ctrl: Bytes4, data: bv8, shift: bv32)
    requires shift < 32
    ensures Word(Uint32Bytes(Insert(Word(ctrl), data, shift))) == Insert(Word(ctrl), data, shift)
  {
    Uint32RoundTrip(Insert(Word(ctrl), data, shift));
  }

  /** A field mask that, moved into position, loses no bit off the top of
      the word. */
  predicate FitsWord(mask: bv8, shift: bv32)
    requires shift < 32
  {
    ((mask as bv32) << shift) >> shift == mask as bv32
  }

  /** setField then getField with the same shift and mask: when the field
      was clear (as in a zero-initialised word) and data fits the mask,
      the value read back is data. */
  lemma SetThenGet(w: bv32, data: bv8, shift: bv32, mask: bv8)
    requires shift < 32 && FitsWord(mask, shift)
    requires w & ((mask as bv32) << shift) == 0
    requires data & !mask == 0
    ensures Extract(Insert(w, data, shift), shift, mask) == data
  {
  }

  /** setField changes no bit outside the field, as long as data fits the
      mask. */
  lemma SetKeepsOutside(w: bv32, data: bv8, shift: bv32, mask: bv8)
    requires shift < 32
    requires data & !mask == 0
    ensures Insert(w, data, shift) & !((mask as bv32) << shift) == w & !((mask as bv32) << shift)
  {
  }

  /** setField only adds bits: every bit set before is still set. */
  lemma SetNeverClears(w: bv32, data: bv8, shift: bv32)
    requires shift < 32
    ensures w & !Insert(w, data, shift) == 0
  {
  }

  /** The sharp edge of not clearing: setting the same field twice leaves
      the OR of both values in it. */
  lemma SetTwiceOrs(w: bv32, a: bv8, b: bv8, shift: bv32, mask: bv8)
    requires shift < 32 && FitsWord(mask, shift)
    requires w & ((mask as bv32) << shift) == 0
    requires a & !mask == 0 && b & !mask == 0
    ensures Extract(Insert(Insert(w, a, shift), b, shift), shift, mask) == a | b
  {
  }

  // ---------------------------------------------------------------------
  // Control word 1 <-> ARISR_CHUNK_CTRL

  /** Every field of the record fits the width of its place in the word. */
  predicate CtrlFits(f: CtrlFields) {
    f.version & !VERSION_MASK == 0 && f.destinations & !DESTS_MASK == 0
    && f.option & !OPTION_MASK == 0 && f.from & !FROM_MASK == 0
    && f.sequence & !SEQUENCE_MASK == 0 && f.retry & !RETRY_MASK == 0
    && f.moreData & !MORE_DATA_MASK == 0 && f.identifier & !IDENTIFIER_MASK == 0
    && f.moreHeader & !MORE_HEADER_MASK == 0
  }

  /** The fields of a control-1 word. */
  function CtrlOfWord(w: bv32): (f: CtrlFields)
    ensures CtrlFits(f)
  {
    CtrlFields(
      Extract(w, VERSION_SHIFT, VERSION_MASK),
      Extract(w, DESTS_SHIFT, DESTS_MASK),
      Extract(w, OPTION_SHIFT, OPTION_MASK),
      Extract(w, FROM_SHIFT, FROM_MASK),
      Extract(w, SEQUENCE_SHIFT, SEQUENCE_MASK),
      Extract(w, RETRY_SHIFT, RETRY_MASK),
      Extract(w, MORE_DATA_SHIFT, MORE_DATA_MASK),
      Extract(w, IDENTIFIER_SHIFT, IDENTIFIER_MASK),
      Extract(w, MORE_HEADER_SHIFT, MORE_HEADER_MASK))
  }

  /** Read every field of control word 1 with getField. */
  function UnpackCtrl(ctrl: Bytes4): (f: CtrlFields)
    ensures CtrlFits(f)
    ensures f.destinations == GetField(ctrl, DESTS_SHIFT, DESTS_MASK)
    ensures f.from == GetField(ctrl, FROM_SHIFT, FROM_MASK)
    ensures f.moreHeader == GetField(ctrl, MORE_HEADER_SHIFT, MORE_HEADER_MASK)
  {
    CtrlOfWord(Word(ctrl))
  }

  /** The word of control word 1 built from zero by one setField per
      field, in table order. */
  function CtrlWord(f: CtrlFields): bv32 {
    var w := Insert(0, f.version, VERSION_SHIFT);
    var w := Insert(w, f.destinations, DESTS_SHIFT);
    var w := Insert(w, f.option, OPTION_SHIFT);
    var w := Insert(w, f.from, FROM_SHIFT);
    var w := Insert(w, f.sequence, SEQUENCE_SHIFT);
    var w := Insert(w, f.retry, RETRY_SHIFT);
    var w := Insert(w, f.moreData, MORE_DATA_SHIFT);
    var w := Insert(w, f.identifier, IDENTIFIER_SHIFT);
    Insert(w, f.moreHeader, MORE_HEADER_SHIFT)
  }

  /** Control word 1 of a record, as bytes. Packing then unpacking gives
      every field back when each fits its width. */
  function PackCtrl(f: CtrlFields): (r: Bytes4)
    ensures CtrlFits(f) ==> UnpackCtrl(r) == f
  {
    Uint32RoundTrip(CtrlWord(f));
    Uint32Bytes(CtrlWord(f))
  }

  /** The nine fields cover all 32 bits of control word 1. */
  lemma CtrlFieldsCoverWord(w: bv32)
    ensures CtrlWord(CtrlOfWord(w)) == w
  {
  }

  /** So unpacking then packing gives the same four bytes back. */
  lemma PackUnpackCtrl(ctrl: Bytes4)
    ensures PackCtrl(UnpackCtrl(ctrl)) == ctrl
  {
    CtrlFieldsCoverWord(Word(ctrl));
  }

  // ---------------------------------------------------------------------
  // Control word 2 <-> ARISR_CHUNK_CTRL2

  predicate Ctrl2Fits(f: Ctrl2Fields) {
    f.dataLength & !DATA_LENGTH_MASK == 0 && f.feature & !FEATURE_MASK == 0
    && f.negAnswer & !NEG_ANSWER_MASK == 0 && f.freqSwitch & !FREQ_SWITCH_MASK == 0
  }

  /** The fields of a control-2 word. */
  function Ctrl2OfWord(w: bv32): (f: Ctrl2Fields)
    ensures Ctrl2Fits(f)
  {
    Ctrl2Fields(
      Extract(w, DATA_LENGTH_SHIFT, DATA_LENGTH_MASK),
      Extract(w, FEATURE_SHIFT, FEATURE_MASK),
      Extract(w, NEG_ANSWER_SHIFT, NEG_ANSWER_MASK),
      Extract(w, FREQ_SWITCH_SHIFT, FREQ_SWITCH_MASK))
  }

  /** Read every field of control word 2 with getField. */
  function UnpackCtrl2(ctrl2: Bytes4): (f: Ctrl2Fields)
    ensures Ctrl2Fits(f)
    ensures f.dataLength == GetField(ctrl2, DATA_LENGTH_SHIFT, DATA_LENGTH_MASK)
  {
    Ctrl2OfWord(Word(ctrl2))
  }

  /** The word of control word 2 built from zero by one setField per
      field; the reserved bits stay 0. */
  function Ctrl2Word(f: Ctrl2Fields): bv32 {
    var w := Insert(0, f.dataLength, DATA_LENGTH_SHIFT);
    var w := Insert(w, f.feature, FEATURE_SHIFT);
    var w := Insert(w, f.negAnswer, NEG_ANSWER_SHIFT);
    Insert(w, f.freqSwitch, FREQ_SWITCH_SHIFT)
  }

  /** Control word 2 of a record, as bytes: its reserved bits are always
      0, and packing then unpacking gives every field back when each fits
      its width. */
  function PackCtrl2(f: Ctrl2Fields): (r: Bytes4)
    ensures Word(r) & !CTRL2_USED_BITS == 0
    ensures Ctrl2Fits(f) ==> UnpackCtrl2(r) == f
  {
    Uint32RoundTrip(Ctrl2Word(f));
    Uint32Bytes(Ctrl2Word(f))
  }

  /** The four fields cover exactly the used bits of control word 2. */
  lemma Ctrl2FieldsCoverWord(w: bv32)
    ensures Ctrl2Word(Ctrl2OfWord(w)) == w & CTRL2_USED_BITS
  {
  }

  /** Unpacking then packing control word 2 keeps the used bits and
      clears the reserved ones; a word whose reserved bits are 0 comes
      back unchanged. */
  lemma PackUnpackCtrl2(ctrl2: Bytes4)
    ensures PackCtrl2(UnpackCtrl2(ctrl2)) == Uint32Bytes(Word(ctrl2) & CTRL2_USED_BITS)
    ensures Word(ctrl2) & !CTRL2_USED_BITS == 0 ==> PackCtrl2(UnpackCtrl2(ctrl2)) == ctrl2
  {
    Ctrl2FieldsCoverWord(Word(ctrl2));
    assert Word(ctrl2) & !CTRL2_USED_BITS == 0 ==> Word(ctrl2) & CTRL2_USED_BITS == Word(ctrl2);
  }
}
