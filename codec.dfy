/** The logical layer: ARISR_proto_unpack (include/lib_arisr.h:90-102)
    turns a received RawFrame into an ARISR_CHUNK with its control words
    read field by field and its data decrypted, and ARISR_proto_pack
    (include/lib_arisr.h:104-116) goes back: control words built with
    setField, the marker and the data encrypted, the CRC fields left for
    the send side to compute.

    The all-zero key is the sentinel for "no encryption": with it the data
    passes through unchanged (ARISR_AES_IS_ZERO_KEY). Unpack also removes
    the marker encryption, so that the chunk holds "ARIS" in the clear and
    pack, which encrypts it, is its inverse. */
module Codec {
  import opened Base
  import opened Errors
  import opened Comm
  import opened BitField
  import opened Aes
  import opened Frame

  /** What the chunk holds for an absent address, CRC or control word 2. */
  const NO_ADDRESS: Uint48 := [0, 0, 0, 0, 0, 0]
  const NO_CRC: Bytes2 := [0, 0]
  const NO_CTRL2: Ctrl2Fields := Ctrl2Fields(0, 0, 0, 0)

  /** The byte holding a number below 256: the value of the cast to
      ARISR_UINT8, built by counting up from zero. */
  function ToByte(m: nat): (b: bv8)
    requires m < 256
    ensures b as int == m
  {
    if m == 0 then 0 else ToByte(m - 1) + 1
  }

  /** A count stored in a one-byte field: its low eight bits. */
  function LowByte(n: nat): (b: bv8)
    ensures b as int == n % 256
  {
    ToByte(n % 256)
  }

  /** A byte read as a number and stored back is the same byte. */
  lemma RoundByte(k: bv8)
    ensures (k as int) as bv8 == k
  {
  }

  /** A count below 256 survives being stored in a byte. */
  lemma LowByteOfByte(k: bv8, n: nat)
    requires n == k as nat
    ensures LowByte(n) == k
  {
    RoundByte(k);
    assert n % 256 == n;
  }

  /** A whole number of eight-byte units below 256 units survives being
      stored as a unit count in a byte. */
  lemma LowByteUnits(n: nat)
    requires n % DATA_LENGTH_UNIT == 0 && n < 256 * DATA_LENGTH_UNIT
    ensures LowByte(n / DATA_LENGTH_UNIT) as nat * DATA_LENGTH_UNIT == n
  {
    var m := n / DATA_LENGTH_UNIT;
    assert m * DATA_LENGTH_UNIT == n;
    assert m < 256;
    assert LowByte(m) as int == m;
  }

  /** The data in the clear: decrypted, unless the key is the sentinel. */
  function Plain(c: BlockCipher, key: Key, data: Bytes): Result<Bytes> {
    if IsZeroKey(key) then Success(data) else Decrypt(c, key, data)
  }

  /** The data as sent: encrypted, unless the key is the sentinel. */
  function Cipher(c: BlockCipher, key: Key, data: Bytes): Bytes {
    if IsZeroKey(key) then data else Encrypt(c, key, data)
  }

  /** The chunk of a raw frame whose marker and data in the clear are
      given: every control field read with getField, the fixed sections
      copied, zeros for the absent ones, and the true byte count of the
      data in ctrl2.data_length. */
  function Restore(raw: RawFrame, aris: Bytes4, plain: Bytes): (r: Chunk)
    ensures CtrlFits(r.ctrl) && Ctrl2Fits(r.ctrl2)
    ensures r.ctrl2.dataLength as int == |plain| % 256
    ensures Shaped(raw) ==> |r.destinationsB| == r.ctrl.destinations as nat
  {
    var ctrl2 := if raw.ctrl2.Some? then UnpackCtrl2(raw.ctrl2.value) else NO_CTRL2;
    Chunk(
      raw.id, aris, UnpackCtrl(raw.ctrl),
      raw.origin, raw.destinationA, raw.destinationsB,
      if raw.destinationC.Some? then raw.destinationC.value else NO_ADDRESS,
      ctrl2.(dataLength := LowByte(|plain|)),
      raw.crcHeader, plain, CrcDataOf(raw), raw.end)
  }

  /** ARISR_proto_unpack: the marker decrypted, the data decrypted, and
      the rest restored field by field. AES errors surface unchanged; the
      sentinel key never fails. */
  function Unpack(c: BlockCipher, raw: RawFrame, key: Key): (r: Result<Chunk>)
    ensures r.Failure? <==> raw.data.Some? && !IsZeroKey(key) && Decrypt(c, key, raw.data.value).Failure?
    ensures r.Failure? ==> r.error == Decrypt(c, key, raw.data.value).error
    ensures r.Failure? ==> r.error == InvalidArgument || r.error == InvalidPadding
    ensures r.Success? ==> CtrlFits(r.value.ctrl) && Ctrl2Fits(r.value.ctrl2)
    ensures r.Success? ==> r.value.ctrl2.dataLength as int == |r.value.data| % 256
    ensures r.Success? && raw.data.Some? && IsZeroKey(key) ==> r.value.data == raw.data.value
    ensures r.Success? && raw.data.None? ==> r.value.data == []
    ensures r.Success? && ArisDecrypt(key, raw.aris) == Ok ==> r.value.aris == ARIS
    ensures r.Success? && Shaped(raw) ==> |r.value.destinationsB| == r.value.ctrl.destinations as nat
  {
    var plain := if raw.data.Some? then Plain(c, key, raw.data.value) else Success([]);
    if plain.Failure? then Failure(plain.error)
    else
      ArisDecryptAccepts(key, raw.aris);
      SubEachAddEach(ARIS, key[15]);
      Success(Restore(raw, SubEach(raw.aris, key[15]), plain.value))
  }

  /** The raw frame of a chunk whose marker and data as sent are given:
      control word 1 built from the chunk's fields, destinationC only when
      from a relay, and under more_header control word 2 with data_length
      counting the eight-byte units of the data. The CRC fields are copied
      as they are. */
  function Assemble(chunk: Chunk, aris: Bytes4, data: Bytes): (r: RawFrame)
    ensures r.id == chunk.id && r.aris == aris && r.end == chunk.end
    ensures CtrlFits(chunk.ctrl) ==> UnpackCtrl(r.ctrl) == chunk.ctrl
    ensures r.data.Some? <==> MoreHeaders(r.ctrl)
    ensures r.data.Some? ==> r.data.value == data
    ensures r.crcHeader == chunk.crcHeader && (r.crcData.Some? ==> r.crcData.value == chunk.crcData)
  {
    var ctrl := PackCtrl(chunk.ctrl);
    var more := MoreHeaders(ctrl);
    RawFrame(
      chunk.id, aris, ctrl, chunk.origin, chunk.destinationA, chunk.destinationsB,
      if FromRelay(ctrl) then Some(chunk.destinationC) else None,
      if more then Some(PackCtrl2(chunk.ctrl2.(dataLength := LowByte(|data| / DATA_LENGTH_UNIT)))) else None,
      chunk.crcHeader,
      if more then Some(data) else None,
      if more then Some(chunk.crcData) else None,
      chunk.end)
  }

  /** ARISR_proto_pack: the marker and the data encrypted, the rest
      assembled. A chunk whose end differs from its id is refused with
      kARISR_ERR_NOT_SAME_ID. */
  function Pack(c: BlockCipher, chunk: Chunk, key: Key): (r: Result<RawFrame>)
    ensures r.Failure? <==> chunk.end != chunk.id
    ensures r.Failure? ==> r.error == NotSameId
    ensures r.Success? ==> r.value.ctrl == PackCtrl(chunk.ctrl) && r.value.id == chunk.id && r.value.end == chunk.id
    ensures r.Success? ==> (ArisDecrypt(key, r.value.aris) == Ok <==> chunk.aris == ARIS)
    ensures r.Success? ==> r.value.crcHeader == chunk.crcHeader
    ensures r.Success? && r.value.crcData.Some? ==> r.value.crcData.value == chunk.crcData
  {
    if chunk.end != chunk.id then Failure(NotSameId)
    else
      var aris := AddEach(chunk.aris, key[15]);
      ArisDecryptAccepts(key, aris);
      SubEachAddEach(chunk.aris, key[15]);
      AddEachSubEach(ARIS, key[15]);
      Success(Assemble(chunk, aris, Cipher(c, key, chunk.data)))
  }

  // ---------------------------------------------------------------------
  // Pack and unpack are inverses

  /** A logical chunk the wire format carries without loss: every field
      fits its width, destinationsB holds as many addresses as
      ctrl.destinations says, the sections the control word leaves out are
      zero, and under more_header the data is data_length bytes. */
  predicate Carried(chunk: Chunk) {
    && CtrlFits(chunk.ctrl) && Ctrl2Fits(chunk.ctrl2)
    && |chunk.destinationsB| == chunk.ctrl.destinations as nat
    && (chunk.ctrl.from == 0 ==> chunk.destinationC == NO_ADDRESS)
    && (chunk.ctrl.moreHeader != 0 ==> |chunk.data| == chunk.ctrl2.dataLength as nat)
    && (chunk.ctrl.moreHeader == 0 ==>
          chunk.data == [] && chunk.ctrl2 == NO_CTRL2 && chunk.crcData == NO_CRC)
  }

  /** Carried under key: data in the clear must also be a whole number of
      eight-byte units, the unit data_length counts on the wire. */
  predicate Representable(chunk: Chunk, key: Key) {
    Carried(chunk)
    && (chunk.ctrl.moreHeader != 0 && IsZeroKey(key) ==> |chunk.data| % DATA_LENGTH_UNIT == 0)
  }

  /** A data length data_length can announce. */
  predicate WholeUnits(n: nat) {
    n % DATA_LENGTH_UNIT == 0 && n < 256 * DATA_LENGTH_UNIT
  }

  /** The three shaping fields of a packed control word 1 are the chunk's. */
  lemma PackedCtrl(f: CtrlFields)
    requires CtrlFits(f)
    ensures Destinations(PackCtrl(f)) == f.destinations as nat
    ensures FromRelay(PackCtrl(f)) <==> f.from != 0
    ensures MoreHeaders(PackCtrl(f)) <==> f.moreHeader != 0
  {
  }

  /** Control word 2 as packed announces the length of the data as sent. */
  lemma PackedCtrl2(f: Ctrl2Fields, n: nat)
    requires Ctrl2Fits(f) && WholeUnits(n)
    ensures var g := f.(dataLength := LowByte(n / DATA_LENGTH_UNIT));
      && UnpackCtrl2(PackCtrl2(g)) == g
      && DataLength(PackCtrl2(g)) == n
  {
    var g := f.(dataLength := LowByte(n / DATA_LENGTH_UNIT));
    LowByteUnits(n);
  }

  /** The frame assembled from a carried chunk has the sections its
      control words announce. */
  lemma AssembleShaped(chunk: Chunk, aris: Bytes4, data: Bytes)
    requires Carried(chunk) && (chunk.ctrl.moreHeader != 0 ==> WholeUnits(|data|))
    ensures Shaped(Assemble(chunk, aris, data))
  {
    PackedCtrl(chunk.ctrl);
    if chunk.ctrl.moreHeader != 0 {
      PackedCtrl2(chunk.ctrl2, |data|);
    }
  }

  /** Restoring the frame assembled from a carried chunk, with its marker
      and data in the clear, gives the chunk back. */
  lemma RestoreAssemble(chunk: Chunk, aris: Bytes4, data: Bytes)
    requires Carried(chunk) && (chunk.ctrl.moreHeader != 0 ==> WholeUnits(|data|))
    ensures Restore(Assemble(chunk, aris, data), chunk.aris, chunk.data) == chunk
  {
    if chunk.ctrl.moreHeader != 0 {
      RestoreAssembleLong(chunk, aris, data);
    } else {
      RestoreAssembleShort(chunk, aris, data);
    }
  }

  /** The case with control word 2 and data. */
  lemma RestoreAssembleLong(chunk: Chunk, aris: Bytes4, data: Bytes)
    requires Carried(chunk) && chunk.ctrl.moreHeader != 0 && WholeUnits(|data|)
    ensures Restore(Assemble(chunk, aris, data), chunk.aris, chunk.data) == chunk
  {
    PackedCtrl(chunk.ctrl);
    PackedCtrl2(chunk.ctrl2, |data|);
    LowByteOfByte(chunk.ctrl2.dataLength, |chunk.data|);
  }

  /** The case without control word 2: no data, zero ctrl2 and crc_data. */
  lemma RestoreAssembleShort(chunk: Chunk, aris: Bytes4, data: Bytes)
    requires Carried(chunk) && chunk.ctrl.moreHeader == 0
    ensures Restore(Assemble(chunk, aris, data), chunk.aris, chunk.data) == chunk
  {
    PackedCtrl(chunk.ctrl);
    LowByteOfByte(0, 0);
  }

  /** The data as sent is a whole number of units that a one-byte unit
      count can hold. */
  lemma CipherUnits(c: BlockCipher, key: Key, data: Bytes)
    requires |data| < 256 && (IsZeroKey(key) ==> |data| % DATA_LENGTH_UNIT == 0)
    ensures WholeUnits(|Cipher(c, key, data)|)
  {
  }

  /** Packing a representable chunk whose end is its id succeeds with a
      frame whose sections agree with its control words. */
  lemma PackShaped(c: BlockCipher, chunk: Chunk, key: Key)
    requires Representable(chunk, key) && chunk.end == chunk.id
    ensures Pack(c, chunk, key).Success? && Shaped(Pack(c, chunk, key).value)
  {
    CipherUnits(c, key, chunk.data);
    AssembleShaped(chunk, AddEach(chunk.aris, key[15]), Cipher(c, key, chunk.data));
  }

  /** The data as sent reads back in the clear under the same key. */
  lemma PlainCipher(c: BlockCipher, key: Key, data: Bytes)
    requires Inverts(c)
    ensures Plain(c, key, Cipher(c, key, data)) == Success(data)
  {
    if !IsZeroKey(key) {
      DecryptEncrypt(c, key, data);
    }
  }

  /** Unpacking a frame whose data reads back as plain restores it with
      that data and the marker decrypted. */
  lemma UnpackWith(c: BlockCipher, raw: RawFrame, key: Key, plain: Bytes)
    requires raw.data.Some? ==> Plain(c, key, raw.data.value) == Success(plain)
    requires raw.data.None? ==> plain == []
    ensures Unpack(c, raw, key) == Success(Restore(raw, SubEach(raw.aris, key[15]), plain))
  {
  }

  /** Unpacking a packed representable chunk gives it back, when the block
      cipher's decryption inverts its encryption. */
  lemma UnpackPack(c: BlockCipher, chunk: Chunk, key: Key)
    requires Inverts(c) && Representable(chunk, key) && chunk.end == chunk.id
    ensures Pack(c, chunk, key).Success? && Unpack(c, Pack(c, chunk, key).value, key) == Success(chunk)
  {
    var aris := AddEach(chunk.aris, key[15]);
    var data := Cipher(c, key, chunk.data);
    var raw := Assemble(chunk, aris, data);
    assert Pack(c, chunk, key) == Success(raw);
    CipherUnits(c, key, chunk.data);
    PackedCtrl(chunk.ctrl);
    PlainCipher(c, key, chunk.data);
    UnpackWith(c, raw, key, chunk.data);
    SubEachAddEach(chunk.aris, key[15]);
    RestoreAssemble(chunk, aris, data);
  }

  // ---------------------------------------------------------------------
  // End to end

  /** The data CRC field as a chunk holds it: zeros when absent. */
  function CrcDataOf(f: RawFrame): Bytes2 {
    if f.crcData.Some? then f.crcData.value else NO_CRC
  }

  /** The CRC fields of the chunk restored from a sealed frame are the
      computed ones; nothing else differs. */
  lemma RestoreSealed(raw: RawFrame, aris: Bytes4, plain: Bytes)
    requires raw.data.Some? <==> raw.crcData.Some?
    ensures var g := Seal(raw);
      Restore(g, aris, plain) == Restore(raw, aris, plain).(crcHeader := g.crcHeader, crcData := CrcDataOf(g))
  {
  }

  /** A representable chunk with the plain marker, packed, sent, received
      for its own id and unpacked under the same key, comes back with only
      its CRC fields replaced by the ones the send side computed. */
  lemma ChunkRoundTrip(c: BlockCipher, chunk: Chunk, key: Key, rest: Bytes)
    requires Inverts(c) && Representable(chunk, key)
    requires chunk.end == chunk.id && chunk.aris == ARIS
    ensures Pack(c, chunk, key).Success?
    ensures var got := Decode(Send(Pack(c, chunk, key).value) + rest, key, chunk.id);
      && got.Success?
      && Unpack(c, got.value, key) == Success(chunk.(crcHeader := got.value.crcHeader, crcData := CrcDataOf(got.value)))
  {
    var aris := AddEach(chunk.aris, key[15]);
    var data := Cipher(c, key, chunk.data);
    var raw := Assemble(chunk, aris, data);
    assert Pack(c, chunk, key) == Success(raw);
    PackShaped(c, chunk, key);
    SendThenDecode(raw, key, chunk.id, rest);
    PackedCtrl(chunk.ctrl);
    PlainCipher(c, key, chunk.data);
    UnpackWith(c, Seal(raw), key, chunk.data);
    SubEachAddEach(chunk.aris, key[15]);
    RestoreSealed(raw, chunk.aris, chunk.data);
    RestoreAssemble(chunk, aris, data);
  }
}
