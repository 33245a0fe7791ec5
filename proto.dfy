/** The receive side as the source runs it: ARISR_CHUNK_RAW is an object
    whose fields ARISR_proto_recv (source/lib_arisr.c:69-232) fills
    section by section while a cursor walks the input, and which
    ARISR_proto_raw_chunk_clean (source/lib_arisr.c:45-67) resets. The
    logical ARISR_CHUNK is kept in a buffer of its own, which
    ARISR_proto_chunk_clean (include/lib_arisr.h:48-54) resets.

    Each method is proved against the Frame functions: what Recv leaves in
    the buffer is what Frame.Decode computes, and an error leaves it
    clean. */
module Proto {
  import opened Base
  import opened Errors
  import opened Comm
  import opened Crc16
  import opened BitField
  import opened Aes
  import opened Frame
  import opened Codec

  const ZERO4: Bytes4 := [0, 0, 0, 0]

  /** The frame of a clean buffer: every section zero, the optional ones
      absent. */
  const CLEAN_FRAME: RawFrame :=
    RawFrame(ZERO4, ZERO4, ZERO4, NO_ADDRESS, NO_ADDRESS, [], None, None, NO_CRC, None, None, ZERO4)

  /** ARISR_CHUNK_RAW. The arrays inside the struct are byte strings; the
      pointers (ctrl, destinationsB, ctrl2, data) are Options, None for
      NULL. The source points ctrl and ctrl2 at locals of recv, which are
      gone once it returns; here they hold the bytes themselves. */
  class RawChunk {
    var id: Bytes4
    var aris: Bytes4
    var ctrl: Option<Bytes4>
    var origin: Uint48
    var destinationA: Uint48
    var destinationsB: Option<seq<Uint48>>
    var destinationC: Uint48
    var ctrl2: Option<Bytes4>
    var crcHeader: Bytes2
    var data: Option<Bytes>
    var crcData: Bytes2
    var end: Bytes4

    /** Every field zero, every pointer NULL: the state memset leaves. */
    predicate IsClean()
      reads this
    {
      id == ZERO4 && aris == ZERO4 && ctrl == None && origin == NO_ADDRESS
      && destinationA == NO_ADDRESS && destinationsB == None && destinationC == NO_ADDRESS
      && ctrl2 == None && crcHeader == NO_CRC && data == None && crcData == NO_CRC && end == ZERO4
    }

    /** The sections up to the header CRC of a frame are in the buffer,
        and nothing after it yet. */
    predicate HoldsHeader(f: RawFrame)
      reads this
    {
      id == f.id && aris == f.aris && ctrl == Some(f.ctrl) && origin == f.origin
      && destinationA == f.destinationA && destinationsB == Some(f.destinationsB)
      && destinationC == (if f.destinationC.Some? then f.destinationC.value else NO_ADDRESS)
      && ctrl2 == f.ctrl2 && crcHeader == f.crcHeader
      && data == None && crcData == NO_CRC && end == ZERO4
    }

    /** The buffer holds the frame f: every section, zeros for the absent
        arrays, NULL for the absent pointers. */
    predicate Holds(f: RawFrame)
      reads this
    {
      id == f.id && aris == f.aris && ctrl == Some(f.ctrl) && origin == f.origin
      && destinationA == f.destinationA && destinationsB == Some(f.destinationsB)
      && destinationC == (if f.destinationC.Some? then f.destinationC.value else NO_ADDRESS)
      && ctrl2 == f.ctrl2 && crcHeader == f.crcHeader
      && data == f.data && crcData == CrcDataOf(f) && end == f.end
    }

    /** The frame the buffer describes: absent pointers read as empty,
        destinationC counts when control word 1 says so, and crc_data
        when there is data. A clean buffer describes the all-zero frame
        without optional sections, which is shaped but carries no valid
        marker (CleanViewUnaddressed). */
    function View(): (f: RawFrame)
      reads this
      ensures f.destinationC.Some? == FromRelay(f.ctrl)
      ensures IsClean() ==> f == CLEAN_FRAME && Shaped(f)
    {
      var c := if ctrl.Some? then ctrl.value else ZERO4;
      RawFrame(id, aris, c, origin, destinationA,
               if destinationsB.Some? then destinationsB.value else [],
               if FromRelay(c) then Some(destinationC) else None,
               ctrl2, crcHeader, data,
               if data.Some? then Some(crcData) else None, end)
    }

    /** The memset of the clean operation: NULL pointers (their arrays
        released) and zero bytes. */
    method Zero()
      modifies this
      ensures id == ZERO4 && aris == ZERO4 && ctrl == None && origin == NO_ADDRESS
      ensures destinationA == NO_ADDRESS && destinationsB == None && destinationC == NO_ADDRESS
      ensures ctrl2 == None && crcHeader == NO_CRC && data == None && crcData == NO_CRC && end == ZERO4
    {
      id := ZERO4;
      aris := ZERO4;
      ctrl := None;
      origin := NO_ADDRESS;
      destinationA := NO_ADDRESS;
      destinationsB := None;
      destinationC := NO_ADDRESS;
      ctrl2 := None;
      crcHeader := NO_CRC;
      data := None;
      crcData := NO_CRC;
      end := ZERO4;
    }

    /** A buffer as declared: zeroed. */
    constructor ()
      ensures IsClean()
    {
      id, aris, ctrl, origin, destinationA := ZERO4, ZERO4, None, NO_ADDRESS, NO_ADDRESS;
      destinationsB, destinationC, ctrl2, crcHeader := None, NO_ADDRESS, None, NO_CRC;
      data, crcData, end := None, NO_CRC, ZERO4;
    }
  }

  /** What recv promises for an input the parser computes r for: on
      success the buffer holds the frame and the status is OK; on failure
      the status carries the error and the buffer is clean. */
  predicate Outcome(buffer: RawChunk, s: Status, r: Result<RawFrame>)
    reads buffer
  {
    (r.Success? ==> s == Ok && buffer.Holds(r.value))
    && (r.Failure? ==> s == Fail(r.error) && buffer.IsClean())
  }

  /** ARISR_proto_raw_chunk_clean: kARISR_ERR_GENERIC for NULL; otherwise
      the malloc'd arrays are released and every field zeroed. */
  method Clean(buffer: RawChunk?) returns (s: Status)
    modifies buffer
    ensures buffer == null ==> s == Fail(Generic)
    ensures buffer != null ==> s == Ok && buffer.IsClean()
  {
    if buffer == null {
      return Fail(Generic);
    }
    buffer.Zero();
    s := Ok;
  }

  /** Fail with e after cleaning the buffer. */
  method Reject(buffer: RawChunk, e: Error) returns (s: Status)
    modifies buffer
    ensures s == Fail(e) && buffer.IsClean()
  {
    s := Clean(buffer);
    s := Fail(e);
  }

  /** The id, marker and control word 1 of the input, checked as the
      declared interface asks: the id against the expected one, the
      marker with ARISR_aes_aris_decrypt. */
  method ReadIdentity(input: Bytes, key: Key, id: Bytes4) returns (s: Status, ctrl: Bytes4)
    ensures s != Ok ==> Decode(input, key, id) == Failure(s.error)
    ensures s == Ok ==> |input| >= CRYPT_SIZE + CTRL_SIZE && ctrl == input[CRYPT_SIZE..CRYPT_SIZE + CTRL_SIZE]
    ensures s == Ok ==> Decode(input, key, id) == DecodeHeader(input, ctrl)
  {
    ctrl := ZERO4;
    if |input| < CRYPT_SIZE {
      return Fail(Generic), ctrl;
    }
    if input[..ID_SIZE] != id {
      return Fail(NotSameId), ctrl;
    }
    if ArisDecrypt(key, input[ID_SIZE..CRYPT_SIZE]) != Ok {
      return Fail(NotSameAris), ctrl;
    }
    if |input| < CRYPT_SIZE + CTRL_SIZE {
      return Fail(Generic), ctrl;
    }
    ctrl := input[CRYPT_SIZE..CRYPT_SIZE + CTRL_SIZE];
    s := Ok;
  }

  /** Stores the header sections in a clean buffer; what follows the
      header CRC stays clean. */
  method StoreHeader(buffer: RawChunk, id: Bytes4, aris: Bytes4, ctrl: Bytes4,
                     origin: Uint48, destinationA: Uint48, destinationsB: seq<Uint48>,
                     destinationC: Uint48, ctrl2: Option<Bytes4>, crcHeader: Bytes2)
    requires buffer.IsClean()
    modifies buffer
    ensures buffer.id == id && buffer.aris == aris && buffer.ctrl == Some(ctrl)
    ensures buffer.origin == origin && buffer.destinationA == destinationA
    ensures buffer.destinationsB == Some(destinationsB) && buffer.destinationC == destinationC
    ensures buffer.ctrl2 == ctrl2 && buffer.crcHeader == crcHeader
    ensures buffer.data == None && buffer.crcData == NO_CRC && buffer.end == ZERO4
  {
    buffer.id, buffer.aris, buffer.ctrl := id, aris, Some(ctrl);
    buffer.origin, buffer.destinationA := origin, destinationA;
    buffer.destinationsB, buffer.destinationC := Some(destinationsB), destinationC;
    buffer.ctrl2, buffer.crcHeader := ctrl2, crcHeader;
  }

  /** The header sections laid out by control word 1, read as the cursor
      passes them: id and aris, control word 1, origin and destinationA,
      the destinationsB list, destinationC when from a relay, control
      word 2 under more_header, and the header CRC field. Returns the
      cursor at the header CRC. */
  method ReadHeader(buffer: RawChunk, input: Bytes, ctrl: Bytes4) returns (s: Status, p: nat)
    requires |input| >= CRYPT_SIZE + CTRL_SIZE && input[CRYPT_SIZE..CRYPT_SIZE + CTRL_SIZE] == ctrl
    requires buffer.IsClean()
    modifies buffer
    ensures s != Ok ==> s == Fail(Generic) && |input| < HeaderLength(ctrl) + CRC_SIZE && buffer.IsClean()
    ensures s == Ok ==> p == HeaderLength(ctrl) && |input| >= p + CRC_SIZE
    ensures s == Ok ==> buffer.HoldsHeader(Sections(input, ctrl, None, None, ZERO4))
  {
    p := 0;
    if |input| < HeaderLength(ctrl) + CRC_SIZE {
      s := Reject(buffer, Generic);
      return;
    }
    ghost var f := Sections(input, ctrl, None, None, ZERO4);
    // id and aris, then control word 1
    var id, aris := input[..ID_SIZE], input[ID_SIZE..CRYPT_SIZE];
    p := CRYPT_SIZE + CTRL_SIZE;
    // origin and destinationA
    var origin, destinationA := input[p..p + ADDRESS_SIZE], input[p + ADDRESS_SIZE..p + 2 * ADDRESS_SIZE];
    p := p + 2 * ADDRESS_SIZE;
    // destinationsB
    var n := ADDRESS_SIZE * Destinations(ctrl);
    var destinationsB := Addresses(input[p..p + n]);
    p := p + n;
    assert p == DestinationCAt(ctrl);
    // destinationC
    var destinationC := NO_ADDRESS;
    if FromRelay(ctrl) {
      destinationC := input[p..p + ADDRESS_SIZE];
      p := p + ADDRESS_SIZE;
    }
    assert p == Ctrl2At(ctrl);
    // control word 2
    var ctrl2: Option<Bytes4> := None;
    if MoreHeaders(ctrl) {
      ctrl2 := Some(input[p..p + CTRL2_SIZE]);
      p := p + CTRL2_SIZE;
    }
    assert p == HeaderLength(ctrl);
    // header CRC field
    var crcHeader := input[p..p + CRC_SIZE];
    assert destinationC == (if f.destinationC.Some? then f.destinationC.value else NO_ADDRESS);
    assert ctrl2 == f.ctrl2;
    StoreHeader(buffer, id, aris, ctrl, origin, destinationA, destinationsB, destinationC, ctrl2, crcHeader);
    s := Ok;
  }

  /** The CRC check of recv: the guarded bytes copied into a fresh array
      (header_raw, or the data array), ARISR_crypt_crc16_calculate over
      it, and the result compared with the field read high byte first. */
  method CheckCrc(field: Bytes2, guarded: Bytes) returns (ok: bool)
    ensures ok <==> Guards(field, guarded)
  {
    var raw := new bv8[|guarded|](i requires 0 <= i < |guarded| => guarded[i]);
    assert raw[..|guarded|] == guarded;
    var crc := Calculate(raw, |guarded|);
    CrcIsBitwise(CRC16_INITIAL_VALUE, guarded);
    assert crc == BitwiseOver(CRC16_INITIAL_VALUE, guarded);
    ok := crc == BytesToUint16(field);
  }

  /** Stores what follows the header CRC. */
  method StoreBody(buffer: RawChunk, data: Option<Bytes>, crcData: Bytes2, end: Bytes4)
    modifies buffer
    ensures buffer.data == data && buffer.crcData == crcData && buffer.end == end
    ensures buffer.id == old(buffer.id) && buffer.aris == old(buffer.aris) && buffer.ctrl == old(buffer.ctrl)
    ensures buffer.origin == old(buffer.origin) && buffer.destinationA == old(buffer.destinationA)
    ensures buffer.destinationsB == old(buffer.destinationsB) && buffer.destinationC == old(buffer.destinationC)
    ensures buffer.ctrl2 == old(buffer.ctrl2) && buffer.crcHeader == old(buffer.crcHeader)
  {
    buffer.data, buffer.crcData, buffer.end := data, crcData, end;
  }

  /** The header sections do not depend on what follows the header CRC. */
  lemma SectionsTail(input: Bytes, ctrl: Bytes4, data: Option<Bytes>, crcData: Option<Bytes2>, end: Bytes4)
    requires |input| >= HeaderLength(ctrl) + CRC_SIZE
    ensures Sections(input, ctrl, data, crcData, end)
         == Sections(input, ctrl, None, None, ZERO4).(data := data, crcData := crcData, end := end)
  {
  }

  /** Under more_header: the data, as many bytes as control word 2
      announces, its CRC, checked against the data alone, and the end
      marker. */
  method ReadData(input: Bytes, ctrl: Bytes4, ctrl2: Bytes4)
    returns (s: Status, data: Bytes, crcData: Bytes2, end: Bytes4)
    requires |input| >= HeaderLength(ctrl) + CRC_SIZE && MoreHeaders(ctrl)
    requires ctrl2 == input[Ctrl2At(ctrl)..HeaderLength(ctrl)]
    ensures s != Ok ==> DecodeBody(input, ctrl) == Failure(s.error)
    ensures s == Ok ==> DecodeBody(input, ctrl) == Success(Sections(input, ctrl, Some(data), Some(crcData), end))
  {
    data, crcData, end := [], NO_CRC, ZERO4;
    var p := HeaderLength(ctrl) + CRC_SIZE;
    var q := p + DataLength(ctrl2);
    DecodeBodyData(input, ctrl, ctrl2);
    if |input| < q + CRC_SIZE {
      return Fail(Generic), data, crcData, end;
    }
    data := input[p..q];
    crcData := input[q..q + CRC_SIZE];
    var ok := CheckCrc(crcData, data);
    DecodeDataVerdict(input, ctrl, p, q, ok);
    if !ok {
      return Fail(NotSameCrcData), data, crcData, end;
    }
    if |input| < q + CRC_SIZE + ID_SIZE {
      return Fail(Generic), data, crcData, end;
    }
    end := input[q + CRC_SIZE..q + CRC_SIZE + ID_SIZE];
    s := Ok;
  }

  /** Without more_header: the end marker alone. */
  method ReadEnd(input: Bytes, ctrl: Bytes4) returns (s: Status, end: Bytes4)
    requires |input| >= HeaderLength(ctrl) + CRC_SIZE && !MoreHeaders(ctrl)
    ensures s != Ok ==> DecodeBody(input, ctrl) == Failure(s.error)
    ensures s == Ok ==> DecodeBody(input, ctrl) == Success(Sections(input, ctrl, None, None, end))
  {
    end := ZERO4;
    var p := HeaderLength(ctrl) + CRC_SIZE;
    if |input| < p + ID_SIZE {
      return Fail(Generic), end;
    }
    end := input[p..p + ID_SIZE];
    s := Ok;
  }

  /** What follows the header CRC, by the more_header bit, stored in the
      buffer; an error cleans it. */
  method ReadBody(buffer: RawChunk, input: Bytes, ctrl: Bytes4) returns (s: Status)
    requires |input| >= HeaderLength(ctrl) + CRC_SIZE
    requires buffer.HoldsHeader(Sections(input, ctrl, None, None, ZERO4))
    modifies buffer
    ensures Outcome(buffer, s, DecodeBody(input, ctrl))
  {
    var data: Option<Bytes>, crcData, end := None, NO_CRC, ZERO4;
    if MoreHeaders(ctrl) {
      var bytes;
      s, bytes, crcData, end := ReadData(input, ctrl, buffer.ctrl2.value);
      data := Some(bytes);
    } else {
      s, end := ReadEnd(input, ctrl);
    }
    if s != Ok {
      s := Reject(buffer, s.error);
      return;
    }
    ghost var crc := if MoreHeaders(ctrl) then Some(crcData) else None;
    SectionsTail(input, ctrl, data, crc, end);
    StoreBody(buffer, data, crcData, end);
  }

  /** ARISR_proto_recv: the buffer is cleaned first (kARISR_ERR_GENERIC
      when it is NULL, and when the input is NULL); then the sections are
      read as the cursor passes them, the header CRC checked over every
      byte before it, and the body read. On success the buffer holds
      exactly the frame Frame.Decode finds; on any error it is clean
      again and the status is the error Frame.Decode reports. */
  method Recv(buffer: RawChunk?, input: array?<bv8>, key: Key, id: Bytes4) returns (s: Status)
    modifies buffer
    ensures buffer == null ==> s == Fail(Generic)
    ensures buffer != null && input == null ==> s == Fail(Generic) && buffer.IsClean()
    ensures buffer != null && input != null ==> Outcome(buffer, s, Decode(input[..], key, id))
  {
    s := Clean(buffer);
    if s != Ok {
      return;
    }
    if input == null {
      return Fail(Generic);
    }
    var wire := input[..];
    var ctrl;
    s, ctrl := ReadIdentity(wire, key, id);
    if s != Ok {
      return;
    }
    var p;
    s, p := ReadHeader(buffer, wire, ctrl);
    if s != Ok {
      return;
    }
    var ok := CheckCrc(buffer.crcHeader, wire[..p]);
    if !ok {
      s := Reject(buffer, NotSameCrcHeader);
      return;
    }
    s := ReadBody(buffer, wire, ctrl);
  }

  // -----------------------------------------------------------------------
  // The buffer as a frame again

  /** destinationC is there exactly when control word 1 says so, and
      crc_data exactly when there is data: what the buffer's arrays
      cannot record by themselves. */
  predicate Laid(f: RawFrame) {
    (f.destinationC.Some? <==> FromRelay(f.ctrl)) && (f.crcData.Some? <==> f.data.Some?)
  }

  /** A buffer that recv cleaned after an error describes no frame of any
      network: all four marker bytes are equal, so no key turns them into
      "ARIS". */
  lemma CleanViewUnaddressed(buffer: RawChunk, key: Key, id: Bytes4)
    requires buffer.IsClean()
    ensures !Addressed(buffer.View(), key, id)
  {
  }

  /** A buffer holding such a frame describes exactly that frame, so what
      recv or pack stored is what unpack and send read. */
  lemma ViewOfHolds(buffer: RawChunk, f: RawFrame)
    requires buffer.Holds(f) && Laid(f)
    ensures buffer.View() == f
  {
  }

  /** Frames the parser accepts and frames pack assembles are laid out
      that way. */
  lemma ShapedLaid(f: RawFrame)
    requires Shaped(f)
    ensures Laid(f)
  {
  }

  lemma PackLaid(c: BlockCipher, chunk: Chunk, key: Key)
    requires Pack(c, chunk, key).Success?
    ensures Laid(Pack(c, chunk, key).value)
  {
    assert Pack(c, chunk, key) == Success(Assemble(chunk, AddEach(chunk.aris, key[15]), Cipher(c, key, chunk.data)));
  }

  /** After a successful recv the buffer describes the decoded frame. */
  lemma ViewAfterRecv(buffer: RawChunk, input: Bytes, key: Key, id: Bytes4)
    requires Decode(input, key, id).Success?
    requires buffer.Holds(Decode(input, key, id).value)
    ensures buffer.View() == Decode(input, key, id).value
    ensures WellFormed(buffer.View(), key, id)
  {
    DecodeSound(input, key, id);
    ShapedLaid(Decode(input, key, id).value);
    ViewOfHolds(buffer, Decode(input, key, id).value);
  }

  // -----------------------------------------------------------------------
  // ARISR_CHUNK buffers

  /** ARISR_CHUNK as kept by the caller: the whole record, replaced by
      unpack and clean. NULL pointers inside it read as empty. */
  class ChunkBuffer {
    var chunk: Chunk

    constructor (chunk: Chunk)
      ensures this.chunk == chunk
    {
      this.chunk := chunk;
    }
  }

  /** The record memset leaves: every field zero, the arrays empty. */
  const EMPTY_CHUNK: Chunk := Chunk(ZERO4, ZERO4, CtrlFields(0, 0, 0, 0, 0, 0, 0, 0, 0),
                                    NO_ADDRESS, NO_ADDRESS, [], NO_ADDRESS, NO_CTRL2,
                                    NO_CRC, [], NO_CRC, ZERO4)

  /** ARISR_proto_chunk_clean: kARISR_ERR_GENERIC for NULL; otherwise the
      arrays are released and the record zeroed. */
  method ChunkClean(buffer: ChunkBuffer?) returns (s: Status)
    modifies buffer
    ensures buffer == null ==> s == Fail(Generic)
    ensures buffer != null ==> s == Ok && buffer.chunk == EMPTY_CHUNK
  {
    if buffer == null {
      return Fail(Generic);
    }
    buffer.chunk := EMPTY_CHUNK;
    s := Ok;
  }

  /** ARISR_proto_unpack into its out-parameter: the record Codec.Unpack
      computes from the raw buffer, or its AES error with the record
      clean. */
  method UnpackInto(buffer: ChunkBuffer, data: RawChunk, c: BlockCipher, key: Key) returns (s: Status)
    modifies buffer
    ensures Unpack(c, data.View(), key).Success? ==> s == Ok && buffer.chunk == Unpack(c, data.View(), key).value
    ensures Unpack(c, data.View(), key).Failure? ==>
      s == Fail(Unpack(c, data.View(), key).error) && buffer.chunk == EMPTY_CHUNK
  {
    var r := Unpack(c, data.View(), key);
    if r.Failure? {
      buffer.chunk := EMPTY_CHUNK;
      return Fail(r.error);
    }
    buffer.chunk := r.value;
    s := Ok;
  }

  /** ARISR_proto_pack into its out-parameter: the raw buffer is cleaned
      and then holds the frame Codec.Pack computes, CRC fields as the
      record gives them; a record whose end differs from its id leaves
      it clean. */
  method PackInto(buffer: RawChunk, data: ChunkBuffer, c: BlockCipher, key: Key) returns (s: Status)
    modifies buffer
    ensures Outcome(buffer, s, Pack(c, data.chunk, key))
  {
    buffer.Zero();
    var r := Pack(c, data.chunk, key);
    if r.Failure? {
      return Fail(r.error);
    }
    var f := r.value;
    var destinationC := if f.destinationC.Some? then f.destinationC.value else NO_ADDRESS;
    StoreHeader(buffer, f.id, f.aris, f.ctrl, f.origin, f.destinationA, f.destinationsB,
                destinationC, f.ctrl2, f.crcHeader);
    StoreBody(buffer, f.data, CrcDataOf(f), f.end);
    s := Ok;
  }

  /** The send step: the frame the raw buffer describes, with both CRC
      fields computed, serialised and copied into a fresh byte array of
      the returned length. */
  method Transmit(buffer: RawChunk) returns (raw: array<bv8>, length: nat)
    ensures fresh(raw) && length == raw.Length
    ensures raw[..] == Send(buffer.View())
  {
    var bytes := Send(buffer.View());
    raw := new bv8[|bytes|](i requires 0 <= i < |bytes| => bytes[i]);
    length := raw.Length;
  }

  /** The build step: pack, then send. */
  method Build(data: ChunkBuffer, c: BlockCipher, key: Key) returns (s: Status, raw: array<bv8>, length: nat)
    ensures fresh(raw) && length == raw.Length
    ensures Pack(c, data.chunk, key).Failure? ==> s == Fail(Pack(c, data.chunk, key).error) && length == 0
    ensures Pack(c, data.chunk, key).Success? ==> s == Ok && raw[..] == Send(Pack(c, data.chunk, key).value)
  {
    var buffer := new RawChunk();
    s := PackInto(buffer, data, c, key);
    if s != Ok {
      raw := new bv8[0];
      return s, raw, 0;
    }
    PackLaid(c, data.chunk, key);
    ViewOfHolds(buffer, Pack(c, data.chunk, key).value);
    raw, length := Transmit(buffer);
  }
}
