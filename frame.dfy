/** The wire format of an ARISr frame: the sections ARISR_proto_recv
    (source/lib_arisr.c:69-232) walks with its cursor, as a function from
    the received bytes to a RawFrame or an error, and the serialiser the
    send side writes them with (include/lib_arisr.h:104-116), proved to be
    its inverse.

    The parser checks, in this order: the network id, the ARIS marker,
    the header CRC over every byte before it, and the data CRC over the
    data section alone. A frame too short for the section being read is
    rejected with Generic; the source reads past the end of its buffer
    there. */
module Frame {
  import opened Base
  import opened Errors
  import opened Comm
  import opened Crc16
  import opened BitField
  import opened Aes

  // ---------------------------------------------------------------------
  // Section sizes

  const ID_SIZE: nat := 4          // ARISR_PROTO_ID_SIZE
  const CRYPT_SIZE: nat := 8       // ARISR_PROTO_CRYPT_SIZE: id and aris
  const CTRL_SIZE: nat := 4        // ARISR_CTRL_SECTION_SIZE
  const ADDRESS_SIZE: nat := 6     // ARISR_ADDRESS_SIZE
  const CTRL2_SIZE: nat := 4       // ARISR_CTRL2_SECTION_SIZE
  const CRC_SIZE: nat := 2         // ARISR_CRC_SIZE

  /** The data_length field of control word 2 counts units of eight bytes. */
  const DATA_LENGTH_UNIT: nat := 8

  /** Offset of origin, right after id, aris and control word 1. */
  const ORIGIN_AT: nat := 12
  /** Offset of the destinationsB list, after origin and destinationA. */
  const DESTINATIONS_B_AT: nat := 24

  // ---------------------------------------------------------------------
  // The three fields of control word 1 that shape the frame

  /** Number of destinationsB addresses. */
  function Destinations(ctrl: Bytes4): (n: nat)
    ensures n < 256
  {
    GetField(ctrl, DESTS_SHIFT, DESTS_MASK) as nat
  }

  /** The frame comes from a relay and carries destinationC. */
  predicate FromRelay(ctrl: Bytes4) {
    GetField(ctrl, FROM_SHIFT, FROM_MASK) != 0
  }

  /** The frame carries control word 2, the data and the data CRC. */
  predicate MoreHeaders(ctrl: Bytes4) {
    GetField(ctrl, MORE_HEADER_SHIFT, MORE_HEADER_MASK) != 0
  }

  /** Byte length of the data section announced by control word 2. */
  function DataLength(ctrl2: Bytes4): (n: nat)
    ensures n % DATA_LENGTH_UNIT == 0 && n < 256 * DATA_LENGTH_UNIT
  {
    GetField(ctrl2, DATA_LENGTH_SHIFT, DATA_LENGTH_MASK) as nat * DATA_LENGTH_UNIT
  }

  /** Offset of destinationC (or of what follows when it is absent). */
  function DestinationCAt(ctrl: Bytes4): nat {
    DESTINATIONS_B_AT + ADDRESS_SIZE * Destinations(ctrl)
  }

  /** Offset of control word 2 (or of what follows when it is absent). */
  function Ctrl2At(ctrl: Bytes4): nat {
    DestinationCAt(ctrl) + (if FromRelay(ctrl) then ADDRESS_SIZE else 0)
  }

  /** Offset of the header CRC: the number of bytes it covers. */
  function HeaderLength(ctrl: Bytes4): nat {
    Ctrl2At(ctrl) + (if MoreHeaders(ctrl) then CTRL2_SIZE else 0)
  }

  // ---------------------------------------------------------------------
  // The destinationsB list

  /** Consecutive six-byte addresses, in order. */
  function Addresses(s: Bytes): (r: seq<Uint48>)
    requires |s| % ADDRESS_SIZE == 0
    ensures |r| == |s| / ADDRESS_SIZE
    decreases |s|
  {
    if s == [] then [] else [s[..ADDRESS_SIZE]] + Addresses(s[ADDRESS_SIZE..])
  }

  /** The bytes of a list of addresses, one after the other. */
  function Flatten(a: seq<Uint48>): (r: Bytes)
    ensures |r| == ADDRESS_SIZE * |a|
  {
    if a == [] then [] else a[0] + Flatten(a[1..])
  }

  // ---------------------------------------------------------------------
  // Frames

  /** ARISR_CHUNK_RAW as the parser fills it: every section as its bytes,
      the sections present only under a control bit as Options, and the
      malloc'd arrays as sequences. */
  datatype RawFrame = RawFrame(
    id: Bytes4,
    aris: Bytes4,
    ctrl: Bytes4,
    origin: Uint48,
    destinationA: Uint48,
    destinationsB: seq<Uint48>,
    destinationC: Option<Uint48>,
    ctrl2: Option<Bytes4>,
    crcHeader: Bytes2,
    data: Option<Bytes>,
    crcData: Option<Bytes2>,
    end: Bytes4)

  /** The optional sections are present exactly when control word 1 says
      so, and the lengths agree with the control words. */
  predicate Shaped(f: RawFrame) {
    |f.destinationsB| == Destinations(f.ctrl)
    && (f.destinationC.Some? <==> FromRelay(f.ctrl))
    && (f.ctrl2.Some? <==> MoreHeaders(f.ctrl))
    && (f.data.Some? <==> MoreHeaders(f.ctrl))
    && (f.crcData.Some? <==> MoreHeaders(f.ctrl))
    && (f.ctrl2.Some? && f.data.Some? ==> |f.data.value| == DataLength(f.ctrl2.value))
  }

  /** The bytes the header CRC covers: every section before it. */
  function HeaderBytes(f: RawFrame): Bytes {
    FixedBytes(f) + Flatten(f.destinationsB)
      + (if f.destinationC.Some? then f.destinationC.value else [])
      + (if f.ctrl2.Some? then f.ctrl2.value else [])
  }

  /** The bytes after the header CRC, up to the end marker. */
  function BodyBytes(f: RawFrame): Bytes {
    (if f.data.Some? then f.data.value else [])
      + (if f.crcData.Some? then f.crcData.value else [])
  }

  /** The frame on the wire, section after section: it opens with the
      id and closes with the end marker. */
  function Serialise(f: RawFrame): (r: Bytes)
    ensures |r| >= CRYPT_SIZE + CTRL_SIZE && r[..ID_SIZE] == f.id
    ensures r[|r| - ID_SIZE..] == f.end
  {
    HeaderBytes(f) + f.crcHeader + BodyBytes(f) + f.end
  }

  /** A CRC field holds, high byte first, the CRC-16/CCITT-FALSE of the
      bytes it guards: the bitwise definition, which the table-driven
      ARISR_crypt_crc16_calculate computes (Crc16.CrcIsBitwise). */
  predicate Guards(crc: Bytes2, s: Bytes) {
    BytesToUint16(crc) == BitwiseOver(CRC16_INITIAL_VALUE, s)
  }

  /** Both CRC fields of a frame guard their sections. */
  predicate CrcsMatch(f: RawFrame) {
    Guards(f.crcHeader, HeaderBytes(f))
    && (f.data.Some? && f.crcData.Some? ==> Guards(f.crcData.value, f.data.value))
  }

  /** The frame is for network id and its marker decrypts under key. */
  predicate Addressed(f: RawFrame, key: Key, id: Bytes4) {
    f.id == id && ArisDecrypt(key, f.aris) == Ok
  }

  /** A frame the parser accepts for key and id. */
  predicate WellFormed(f: RawFrame, key: Key, id: Bytes4) {
    Shaped(f) && CrcsMatch(f) && Addressed(f, key, id)
  }

  // ---------------------------------------------------------------------
  // ARISR_proto_recv

  /** The sections of a frame whose header is complete, with the data,
      data CRC and end found by the caller. */
  function Sections(input: Bytes, ctrl: Bytes4, data: Option<Bytes>, crcData: Option<Bytes2>, end: Bytes4): RawFrame
    requires |input| >= HeaderLength(ctrl) + CRC_SIZE
  {
    var c := DestinationCAt(ctrl);
    var h := HeaderLength(ctrl);
    RawFrame(
      input[..ID_SIZE], input[ID_SIZE..CRYPT_SIZE], ctrl,
      input[ORIGIN_AT..ORIGIN_AT + ADDRESS_SIZE],
      input[ORIGIN_AT + ADDRESS_SIZE..DESTINATIONS_B_AT],
      Addresses(input[DESTINATIONS_B_AT..c]),
      if FromRelay(ctrl) then Some(input[c..c + ADDRESS_SIZE]) else None,
      if MoreHeaders(ctrl) then Some(input[h - CTRL2_SIZE..h]) else None,
      input[h..h + CRC_SIZE], data, crcData, end)
  }

  /** Without control word 2 only the end marker follows the header CRC. */
  function DecodeEnd(input: Bytes, ctrl: Bytes4, p: nat): Result<RawFrame>
    requires |input| >= HeaderLength(ctrl) + CRC_SIZE
  {
    if |input| < p + ID_SIZE then Failure(Generic)
    else Success(Sections(input, ctrl, None, None, input[p..p + ID_SIZE]))
  }

  /** The data section at [p, q), its CRC (checked against the data
      alone) and the end marker. */
  function DecodeData(input: Bytes, ctrl: Bytes4, p: nat, q: nat): Result<RawFrame>
    requires |input| >= HeaderLength(ctrl) + CRC_SIZE && p <= q
  {
    if |input| < q + CRC_SIZE then Failure(Generic)
    else if !Guards(input[q..q + CRC_SIZE], input[p..q]) then Failure(NotSameCrcData)
    else if |input| < q + CRC_SIZE + ID_SIZE then Failure(Generic)
    else Success(Sections(input, ctrl, Some(input[p..q]), Some(input[q..q + CRC_SIZE]),
                          input[q + CRC_SIZE..q + CRC_SIZE + ID_SIZE]))
  }

  /** What follows the header CRC: under more_header the data, whose
      length control word 2 gives, its CRC and the end marker; otherwise
      the end marker alone. */
  function DecodeBody(input: Bytes, ctrl: Bytes4): Result<RawFrame>
    requires |input| >= HeaderLength(ctrl) + CRC_SIZE
  {
    var p := HeaderLength(ctrl) + CRC_SIZE;
    if MoreHeaders(ctrl) then
      DecodeData(input, ctrl, p, p + DataLength(input[Ctrl2At(ctrl)..HeaderLength(ctrl)]))
    else
      DecodeEnd(input, ctrl, p)
  }

  /** The header sections laid out by control word 1, closed by the header
      CRC over every byte before it. */
  function DecodeHeader(input: Bytes, ctrl: Bytes4): Result<RawFrame>
    requires |input| >= CRYPT_SIZE + CTRL_SIZE
  {
    var p := HeaderLength(ctrl);
    if |input| < p + CRC_SIZE then Failure(Generic)
    else if !Guards(input[p..p + CRC_SIZE], input[..p]) then Failure(NotSameCrcHeader)
    else DecodeBody(input, ctrl)
  }

  /** ARISR_proto_recv(buffer, input, key, id) as a function. The id and
      marker checks of the declared interface (include/lib_arisr.h:76-88)
      come first; the body in source/lib_arisr.c starts directly with the
      copy of the sections. Every error is one of the five recv reports,
      and an accepted frame is addressed to id under key. */
  function Decode(input: Bytes, key: Key, id: Bytes4): (r: Result<RawFrame>)
    ensures r.Failure? ==> r.error in {Generic, NotSameId, NotSameAris, NotSameCrcHeader, NotSameCrcData}
    ensures r.Success? ==> Addressed(r.value, key, id)
    ensures r.Success? ==>
      |input| >= CRYPT_SIZE + CTRL_SIZE && r.value.ctrl == input[CRYPT_SIZE..CRYPT_SIZE + CTRL_SIZE]
  {
    if |input| < CRYPT_SIZE then Failure(Generic)
    else if input[..ID_SIZE] != id then Failure(NotSameId)
    else if ArisDecrypt(key, input[ID_SIZE..CRYPT_SIZE]) != Ok then Failure(NotSameAris)
    else if |input| < CRYPT_SIZE + CTRL_SIZE then Failure(Generic)
    else DecodeHeader(input, input[CRYPT_SIZE..CRYPT_SIZE + CTRL_SIZE])
  }

  // ---------------------------------------------------------------------
  // The destinationsB list round-trips

  /** Splitting bytes into addresses and joining them again gives the
      bytes back. */
  lemma {:induction false} FlattenAddresses(s: Bytes)
    requires |s| % ADDRESS_SIZE == 0
    ensures Flatten(Addresses(s)) == s
    decreases |s|
  {
    if s != [] {
      FlattenAddresses(s[ADDRESS_SIZE..]);
      assert s == s[..ADDRESS_SIZE] + s[ADDRESS_SIZE..];
    }
  }

  /** Joining addresses and splitting the bytes gives the addresses back. */
  lemma {:induction false} AddressesFlatten(a: seq<Uint48>)
    ensures Addresses(Flatten(a)) == a
  {
    if a != [] {
      var s := Flatten(a);
      assert s[..ADDRESS_SIZE] == a[0];
      assert s[ADDRESS_SIZE..] == Flatten(a[1..]);
      AddressesFlatten(a[1..]);
    }
  }

  /** Address j of the list is the j-th group of six bytes. */
  lemma {:induction false} AddressAt(s: Bytes, j: nat)
    requires |s| % ADDRESS_SIZE == 0 && j < |s| / ADDRESS_SIZE
    ensures Addresses(s)[j] == s[ADDRESS_SIZE * j..ADDRESS_SIZE * j + ADDRESS_SIZE]
    decreases j
  {
    if j > 0 {
      AddressAt(s[ADDRESS_SIZE..], j - 1);
    }
  }

  // ---------------------------------------------------------------------
  // Layout of a serialised frame

  /** A slice that ends inside the first part of a concatenation is a
      slice of that part. */
  lemma PrefixSlice(a: Bytes, b: Bytes, i: nat, j: nat)
    requires i <= j <= |a|
    ensures (a + b)[i..j] == a[i..j]
  {
  }

  /** A slice that starts after the first part is a slice of the rest. */
  lemma SuffixSlice(a: Bytes, b: Bytes, i: nat, j: nat)
    requires |a| <= i <= j <= |a| + |b|
    ensures (a + b)[i..j] == b[i - |a|..j - |a|]
  {
  }

  /** The five fixed sections at the start of every frame. */
  function FixedBytes(f: RawFrame): (r: Bytes)
    ensures |r| == DESTINATIONS_B_AT
  {
    f.id + f.aris + f.ctrl + f.origin + f.destinationA
  }

  /** Where each fixed section lies in the first 24 bytes. */
  lemma FixedLayout(f: RawFrame)
    ensures var h := FixedBytes(f);
      && h[..ID_SIZE] == f.id
      && h[ID_SIZE..CRYPT_SIZE] == f.aris
      && h[CRYPT_SIZE..ORIGIN_AT] == f.ctrl
      && h[ORIGIN_AT..ORIGIN_AT + ADDRESS_SIZE] == f.origin
      && h[ORIGIN_AT + ADDRESS_SIZE..DESTINATIONS_B_AT] == f.destinationA
  {
  }

  /** Where the variable header sections of a shaped frame lie in its
      header bytes. */
  lemma HeaderLayout(f: RawFrame)
    requires Shaped(f)
    ensures var h := HeaderBytes(f); var c := DestinationCAt(f.ctrl);
      && |h| == HeaderLength(f.ctrl)
      && h[..DESTINATIONS_B_AT] == FixedBytes(f)
      && h[DESTINATIONS_B_AT..c] == Flatten(f.destinationsB)
      && (FromRelay(f.ctrl) ==> h[c..c + ADDRESS_SIZE] == f.destinationC.value)
      && (MoreHeaders(f.ctrl) ==> h[Ctrl2At(f.ctrl)..HeaderLength(f.ctrl)] == f.ctrl2.value)
  {
    var b := FixedBytes(f) + Flatten(f.destinationsB);
    var optC: Bytes := if f.destinationC.Some? then f.destinationC.value else [];
    var optC2: Bytes := if f.ctrl2.Some? then f.ctrl2.value else [];
    assert HeaderBytes(f) == b + optC + optC2;
  }

  /** The five fixed sections open the header of a shaped frame, whatever
      follows it. */
  lemma FixedOfHeader(f: RawFrame, tail: Bytes)
    requires Shaped(f)
    ensures var input := HeaderBytes(f) + tail;
      && |input| >= DESTINATIONS_B_AT
      && input[..ID_SIZE] == f.id
      && input[ID_SIZE..CRYPT_SIZE] == f.aris
      && input[CRYPT_SIZE..CRYPT_SIZE + CTRL_SIZE] == f.ctrl
      && input[ORIGIN_AT..ORIGIN_AT + ADDRESS_SIZE] == f.origin
      && input[ORIGIN_AT + ADDRESS_SIZE..DESTINATIONS_B_AT] == f.destinationA
  {
    var fixed := FixedBytes(f);
    var rest := HeaderBytes(f)[DESTINATIONS_B_AT..] + tail;
    HeaderLayout(f);
    assert HeaderBytes(f) + tail == fixed + rest;
    FixedLayout(f);
    PrefixSlice(fixed, rest, 0, ID_SIZE);
    PrefixSlice(fixed, rest, ID_SIZE, CRYPT_SIZE);
    PrefixSlice(fixed, rest, CRYPT_SIZE, ORIGIN_AT);
    PrefixSlice(fixed, rest, ORIGIN_AT, ORIGIN_AT + ADDRESS_SIZE);
    PrefixSlice(fixed, rest, ORIGIN_AT + ADDRESS_SIZE, DESTINATIONS_B_AT);
  }

  /** What the parser reads in the header of a shaped frame followed by
      anything: the sections of the frame itself. */
  lemma SectionsOfHeader(f: RawFrame, tail: Bytes)
    requires Shaped(f) && |tail| >= CRC_SIZE && tail[..CRC_SIZE] == f.crcHeader
    ensures var input := HeaderBytes(f) + tail;
      && |input| >= HeaderLength(f.ctrl) + CRC_SIZE
      && input[..ID_SIZE] == f.id
      && input[ID_SIZE..CRYPT_SIZE] == f.aris
      && input[CRYPT_SIZE..CRYPT_SIZE + CTRL_SIZE] == f.ctrl
      && Sections(input, f.ctrl, f.data, f.crcData, f.end) == f
  {
    var h := HeaderBytes(f);
    var input := h + tail;
    var c := DestinationCAt(f.ctrl);
    var n := HeaderLength(f.ctrl);
    HeaderLayout(f);
    FixedOfHeader(f, tail);
    PrefixSlice(h, tail, DESTINATIONS_B_AT, c);
    AddressesFlatten(f.destinationsB);
    if FromRelay(f.ctrl) {
      PrefixSlice(h, tail, c, c + ADDRESS_SIZE);
    }
    if MoreHeaders(f.ctrl) {
      PrefixSlice(h, tail, Ctrl2At(f.ctrl), n);
    }
    SuffixSlice(h, tail, n, n + CRC_SIZE);
  }

  /** The first two parts of a three-part concatenation, as slices. */
  lemma ThreeParts(a: Bytes, b: Bytes, c: Bytes)
    ensures (a + b + c)[..|a|] == a
    ensures (a + b + c)[|a|..|a| + |b|] == b
    ensures (a + b + c)[|a| + |b|..] == c
  {
  }

  /** A serialised frame followed by anything, regrouped at the header CRC. */
  lemma SerialiseRegroup(f: RawFrame, rest: Bytes)
    ensures Serialise(f) + rest == HeaderBytes(f) + (f.crcHeader + (BodyBytes(f) + f.end + rest))
  {
  }

  /** A header, a two-byte CRC and whatever follows, as slices. */
  lemma HeadTail(h: Bytes, c: Bytes, after: Bytes)
    ensures var x := h + (c + after);
      && x[..|h|] == h
      && x[|h|..|h| + |c|] == c
      && x == x[..|h| + |c|] + after
  {
    var x := h + (c + after);
    assert x[..|h| + |c|] == h + c;
  }

  /** Where the header of a shaped frame lies in its serialisation
      followed by anything, and what comes after the header CRC. */
  lemma SerialisedHeader(f: RawFrame, rest: Bytes)
    requires Shaped(f)
    ensures var input := Serialise(f) + rest; var n := HeaderLength(f.ctrl);
      && |input| >= n + CRC_SIZE
      && input[..ID_SIZE] == f.id
      && input[ID_SIZE..CRYPT_SIZE] == f.aris
      && input[CRYPT_SIZE..CRYPT_SIZE + CTRL_SIZE] == f.ctrl
      && input[..n] == HeaderBytes(f)
      && input[n..n + CRC_SIZE] == f.crcHeader
      && input == input[..n + CRC_SIZE] + (BodyBytes(f) + f.end + rest)
      && Sections(input, f.ctrl, f.data, f.crcData, f.end) == f
  {
    var after := BodyBytes(f) + f.end + rest;
    SerialiseRegroup(f, rest);
    HeaderLayout(f);
    HeadTail(HeaderBytes(f), f.crcHeader, after);
    SectionsOfHeader(f, f.crcHeader + after);
  }

  /** The sections after the header CRC of a frame with control word 2. */
  lemma BodyLayout(f: RawFrame, rest: Bytes)
    requires Shaped(f) && MoreHeaders(f.ctrl)
    ensures var after := BodyBytes(f) + f.end + rest; var d := |f.data.value|;
      && |after| >= d + CRC_SIZE + ID_SIZE
      && after[..d] == f.data.value
      && after[d..d + CRC_SIZE] == f.crcData.value
      && after[d + CRC_SIZE..d + CRC_SIZE + ID_SIZE] == f.end
  {
    var data := f.data.value;
    var after := BodyBytes(f) + f.end + rest;
    assert after == data + f.crcData.value + (f.end + rest);
    ThreeParts(data, f.crcData.value, f.end + rest);
  }

  /** After the header CRC of a frame without control word 2 the parser
      finds the end marker. */
  lemma DecodeBodyShort(f: RawFrame, rest: Bytes)
    requires Shaped(f) && !MoreHeaders(f.ctrl)
    ensures var input := Serialise(f) + rest;
      |input| >= HeaderLength(f.ctrl) + CRC_SIZE && DecodeBody(input, f.ctrl) == Success(f)
  {
    var input := Serialise(f) + rest;
    var p := HeaderLength(f.ctrl) + CRC_SIZE;
    SerialisedHeader(f, rest);
    assert BodyBytes(f) + f.end + rest == f.end + rest;
    SuffixSlice(input[..p], f.end + rest, p, p + ID_SIZE);
  }

  /** Control word 2 of a shaped frame lies right before its header CRC. */
  lemma Ctrl2OnWire(f: RawFrame, rest: Bytes)
    requires Shaped(f) && MoreHeaders(f.ctrl)
    ensures var input := Serialise(f) + rest;
      && |input| >= HeaderLength(f.ctrl)
      && input[Ctrl2At(f.ctrl)..HeaderLength(f.ctrl)] == f.ctrl2.value
  {
    var input := Serialise(f) + rest;
    var n := HeaderLength(f.ctrl);
    SerialisedHeader(f, rest);
    HeaderLayout(f);
    assert input[Ctrl2At(f.ctrl)..n] == input[..n][Ctrl2At(f.ctrl)..n];
  }

  /** The data, data CRC and end marker of a frame with control word 2
      follow its header CRC. */
  lemma BodyOnWire(f: RawFrame, rest: Bytes)
    requires Shaped(f) && MoreHeaders(f.ctrl)
    ensures var input := Serialise(f) + rest;
      var p := HeaderLength(f.ctrl) + CRC_SIZE; var q := p + |f.data.value|;
      && |input| >= q + CRC_SIZE + ID_SIZE
      && input[p..q] == f.data.value
      && input[q..q + CRC_SIZE] == f.crcData.value
      && input[q + CRC_SIZE..q + CRC_SIZE + ID_SIZE] == f.end
  {
    var input := Serialise(f) + rest;
    var p := HeaderLength(f.ctrl) + CRC_SIZE;
    var after := BodyBytes(f) + f.end + rest;
    var d := |f.data.value|;
    SerialisedHeader(f, rest);
    BodyLayout(f, rest);
    SuffixSlice(input[..p], after, p, p + d);
    SuffixSlice(input[..p], after, p + d, p + d + CRC_SIZE);
    SuffixSlice(input[..p], after, p + d + CRC_SIZE, p + d + CRC_SIZE + ID_SIZE);
  }

  /** DecodeData accepts an input whose body sections are those of f. */
  lemma DecodeDataAccepts(input: Bytes, f: RawFrame, p: nat, q: nat)
    requires f.data.Some? && f.crcData.Some?
    requires |input| >= HeaderLength(f.ctrl) + CRC_SIZE && p <= q
    requires |input| >= q + CRC_SIZE + ID_SIZE
    requires input[p..q] == f.data.value && input[q..q + CRC_SIZE] == f.crcData.value
    requires input[q + CRC_SIZE..q + CRC_SIZE + ID_SIZE] == f.end
    requires Guards(f.crcData.value, f.data.value)
    requires Sections(input, f.ctrl, f.data, f.crcData, f.end) == f
    ensures DecodeData(input, f.ctrl, p, q) == Success(f)
  {
    assert f.data == Some(input[p..q]);
    assert f.crcData == Some(input[q..q + CRC_SIZE]);
  }

  /** After the header CRC of a frame with control word 2 whose CRCs hold
      the parser finds the frame's data, data CRC and end marker. */
  lemma DecodeBodyLong(f: RawFrame, rest: Bytes)
    requires Shaped(f) && CrcsMatch(f) && MoreHeaders(f.ctrl)
    ensures var input := Serialise(f) + rest;
      |input| >= HeaderLength(f.ctrl) + CRC_SIZE && DecodeBody(input, f.ctrl) == Success(f)
  {
    var p := HeaderLength(f.ctrl) + CRC_SIZE;
    SerialisedHeader(f, rest);
    Ctrl2OnWire(f, rest);
    BodyOnWire(f, rest);
    DecodeDataAccepts(Serialise(f) + rest, f, p, p + |f.data.value|);
  }

  // ---------------------------------------------------------------------
  // The parser inverts the serialiser

  /** A well-formed frame, followed by anything, parses back to itself:
      the parser reads exactly the sections the serialiser writes. */
  lemma DecodeSerialise(f: RawFrame, key: Key, id: Bytes4, rest: Bytes)
    requires WellFormed(f, key, id)
    ensures Decode(Serialise(f) + rest, key, id) == Success(f)
  {
    var input := Serialise(f) + rest;
    var n := HeaderLength(f.ctrl);
    SerialisedHeader(f, rest);
    assert Guards(input[n..n + CRC_SIZE], input[..n]);
    if MoreHeaders(f.ctrl) {
      DecodeBodyLong(f, rest);
    } else {
      DecodeBodyShort(f, rest);
    }
  }

  /** Adjacent slices join. */
  lemma SliceJoin(s: Bytes, i: nat, j: nat, k: nat)
    requires i <= j <= k <= |s|
    ensures s[i..j] + s[j..k] == s[i..k]
  {
  }

  /** The fixed sections the parser cuts out are the first 24 input bytes. */
  lemma FixedOfInput(input: Bytes, ctrl: Bytes4, data: Option<Bytes>, crcData: Option<Bytes2>, end: Bytes4)
    requires |input| >= HeaderLength(ctrl) + CRC_SIZE && input[CRYPT_SIZE..CRYPT_SIZE + CTRL_SIZE] == ctrl
    ensures FixedBytes(Sections(input, ctrl, data, crcData, end)) == input[..DESTINATIONS_B_AT]
  {
    SliceJoin(input, 0, ID_SIZE, CRYPT_SIZE);
    SliceJoin(input, 0, CRYPT_SIZE, ORIGIN_AT);
    SliceJoin(input, 0, ORIGIN_AT, ORIGIN_AT + ADDRESS_SIZE);
    SliceJoin(input, 0, ORIGIN_AT + ADDRESS_SIZE, DESTINATIONS_B_AT);
  }

  /** The header sections the parser cuts out are exactly the bytes the
      header CRC was checked over, and they have the shape control word 1
      announces. */
  lemma HeaderOfInput(input: Bytes, ctrl: Bytes4, data: Option<Bytes>, crcData: Option<Bytes2>, end: Bytes4)
    requires |input| >= HeaderLength(ctrl) + CRC_SIZE && input[CRYPT_SIZE..CRYPT_SIZE + CTRL_SIZE] == ctrl
    ensures var f := Sections(input, ctrl, data, crcData, end);
      && HeaderBytes(f) == input[..HeaderLength(ctrl)]
      && |f.destinationsB| == Destinations(ctrl)
      && (f.destinationC.Some? <==> FromRelay(ctrl))
      && (f.ctrl2.Some? <==> MoreHeaders(ctrl))
  {
    var f := Sections(input, ctrl, data, crcData, end);
    var c := DestinationCAt(ctrl);
    var c2 := Ctrl2At(ctrl);
    FixedOfInput(input, ctrl, data, crcData, end);
    FlattenAddresses(input[DESTINATIONS_B_AT..c]);
    SliceJoin(input, 0, DESTINATIONS_B_AT, c);
    SliceJoin(input, 0, c, c2);
    SliceJoin(input, 0, c2, HeaderLength(ctrl));
  }

  /** A frame whose parts are consecutive slices of the input serialises
      to the input up to the end of its end marker. */
  lemma SerialiseFromInput(f: RawFrame, input: Bytes, h: nat, q: nat)
    requires h + CRC_SIZE <= q && q + ID_SIZE <= |input|
    requires HeaderBytes(f) == input[..h] && f.crcHeader == input[h..h + CRC_SIZE]
    requires BodyBytes(f) == input[h + CRC_SIZE..q] && f.end == input[q..q + ID_SIZE]
    ensures Serialise(f) == input[..q + ID_SIZE]
  {
    SliceJoin(input, 0, h, h + CRC_SIZE);
    SliceJoin(input, 0, h + CRC_SIZE, q);
    SliceJoin(input, 0, q, q + ID_SIZE);
  }

  /** A frame the parser builds without control word 2 is shaped, its
      header CRC guards its header, and its bytes are those it was read
      from. */
  lemma BodySoundShort(input: Bytes, ctrl: Bytes4)
    requires |input| >= HeaderLength(ctrl) + CRC_SIZE && input[CRYPT_SIZE..CRYPT_SIZE + CTRL_SIZE] == ctrl
    requires Guards(input[HeaderLength(ctrl)..HeaderLength(ctrl) + CRC_SIZE], input[..HeaderLength(ctrl)])
    requires !MoreHeaders(ctrl) && DecodeEnd(input, ctrl, HeaderLength(ctrl) + CRC_SIZE).Success?
    ensures var f := DecodeEnd(input, ctrl, HeaderLength(ctrl) + CRC_SIZE).value;
      && Shaped(f) && CrcsMatch(f)
      && f.id == input[..ID_SIZE] && f.aris == input[ID_SIZE..CRYPT_SIZE]
      && |Serialise(f)| <= |input| && input[..|Serialise(f)|] == Serialise(f)
  {
    var h := HeaderLength(ctrl);
    var p := h + CRC_SIZE;
    var f := Sections(input, ctrl, None, None, input[p..p + ID_SIZE]);
    HeaderOfInput(input, ctrl, None, None, input[p..p + ID_SIZE]);
    assert BodyBytes(f) == input[p..p];
    SerialiseFromInput(f, input, h, p);
  }

  /** The frame the parser builds from a header with control word 2,
      data at [p, q) and the data CRC and end after it. */
  function LongFrame(input: Bytes, ctrl: Bytes4, q: nat): RawFrame
    requires |input| >= HeaderLength(ctrl) + CRC_SIZE
    requires HeaderLength(ctrl) + CRC_SIZE <= q && q + CRC_SIZE + ID_SIZE <= |input|
  {
    Sections(input, ctrl, Some(input[HeaderLength(ctrl) + CRC_SIZE..q]), Some(input[q..q + CRC_SIZE]),
             input[q + CRC_SIZE..q + CRC_SIZE + ID_SIZE])
  }

  /** That frame is shaped and both its CRC fields guard their sections. */
  lemma LongFrameShaped(input: Bytes, ctrl: Bytes4, q: nat)
    requires |input| >= HeaderLength(ctrl) + CRC_SIZE && input[CRYPT_SIZE..CRYPT_SIZE + CTRL_SIZE] == ctrl
    requires Guards(input[HeaderLength(ctrl)..HeaderLength(ctrl) + CRC_SIZE], input[..HeaderLength(ctrl)])
    requires MoreHeaders(ctrl)
    requires q == HeaderLength(ctrl) + CRC_SIZE + DataLength(input[Ctrl2At(ctrl)..HeaderLength(ctrl)])
    requires q + CRC_SIZE + ID_SIZE <= |input|
    requires Guards(input[q..q + CRC_SIZE], input[HeaderLength(ctrl) + CRC_SIZE..q])
    ensures Shaped(LongFrame(input, ctrl, q)) && CrcsMatch(LongFrame(input, ctrl, q))
  {
    var f := LongFrame(input, ctrl, q);
    HeaderOfInput(input, ctrl, f.data, f.crcData, f.end);
    assert f.ctrl2.value == input[Ctrl2At(ctrl)..HeaderLength(ctrl)];
  }

  /** That frame serialises to the input up to its end marker. */
  lemma LongFrameBytes(input: Bytes, ctrl: Bytes4, q: nat)
    requires |input| >= HeaderLength(ctrl) + CRC_SIZE && input[CRYPT_SIZE..CRYPT_SIZE + CTRL_SIZE] == ctrl
    requires HeaderLength(ctrl) + CRC_SIZE <= q && q + CRC_SIZE + ID_SIZE <= |input|
    ensures Serialise(LongFrame(input, ctrl, q)) == input[..q + CRC_SIZE + ID_SIZE]
  {
    var h := HeaderLength(ctrl);
    var p := h + CRC_SIZE;
    var data, crc, end := input[p..q], input[q..q + CRC_SIZE], input[q + CRC_SIZE..q + CRC_SIZE + ID_SIZE];
    var f := Sections(input, ctrl, Some(data), Some(crc), end);
    assert LongFrame(input, ctrl, q) == f;
    HeaderOfInput(input, ctrl, Some(data), Some(crc), end);
    assert BodyBytes(f) == data + crc;
    SliceJoin(input, p, q, q + CRC_SIZE);
    SerialiseFromInput(f, input, h, q + CRC_SIZE);
  }

  /** The same for a frame with control word 2, data and data CRC. */
  lemma BodySoundLong(input: Bytes, ctrl: Bytes4, q: nat)
    requires |input| >= HeaderLength(ctrl) + CRC_SIZE && input[CRYPT_SIZE..CRYPT_SIZE + CTRL_SIZE] == ctrl
    requires Guards(input[HeaderLength(ctrl)..HeaderLength(ctrl) + CRC_SIZE], input[..HeaderLength(ctrl)])
    requires MoreHeaders(ctrl)
    requires q == HeaderLength(ctrl) + CRC_SIZE + DataLength(input[Ctrl2At(ctrl)..HeaderLength(ctrl)])
    requires DecodeData(input, ctrl, HeaderLength(ctrl) + CRC_SIZE, q).Success?
    ensures var f := DecodeData(input, ctrl, HeaderLength(ctrl) + CRC_SIZE, q).value;
      && Shaped(f) && CrcsMatch(f)
      && f.id == input[..ID_SIZE] && f.aris == input[ID_SIZE..CRYPT_SIZE]
      && |Serialise(f)| <= |input| && input[..|Serialise(f)|] == Serialise(f)
  {
    assert DecodeData(input, ctrl, HeaderLength(ctrl) + CRC_SIZE, q) == Success(LongFrame(input, ctrl, q));
    LongFrameShaped(input, ctrl, q);
    LongFrameBytes(input, ctrl, q);
  }

  /** The header stage: what DecodeHeader accepts is shaped, its CRCs
      match, and it is read from the front of the input. */
  lemma HeaderSound(input: Bytes, ctrl: Bytes4)
    requires |input| >= CRYPT_SIZE + CTRL_SIZE && input[CRYPT_SIZE..CRYPT_SIZE + CTRL_SIZE] == ctrl
    requires DecodeHeader(input, ctrl).Success?
    ensures var f := DecodeHeader(input, ctrl).value;
      && Shaped(f) && CrcsMatch(f)
      && f.id == input[..ID_SIZE] && f.aris == input[ID_SIZE..CRYPT_SIZE]
      && |Serialise(f)| <= |input| && input[..|Serialise(f)|] == Serialise(f)
  {
    var h := HeaderLength(ctrl);
    if MoreHeaders(ctrl) {
      BodySoundLong(input, ctrl, h + CRC_SIZE + DataLength(input[Ctrl2At(ctrl)..h]));
    } else {
      BodySoundShort(input, ctrl);
    }
  }

  /** Whatever the parser accepts is a well-formed frame for key and id,
      and it was read from the front of the input: the input starts with
      the frame's serialisation. */
  lemma DecodeSound(input: Bytes, key: Key, id: Bytes4)
    requires Decode(input, key, id).Success?
    ensures var f := Decode(input, key, id).value;
      && WellFormed(f, key, id)
      && |Serialise(f)| <= |input| && input[..|Serialise(f)|] == Serialise(f)
  {
    HeaderSound(input, input[CRYPT_SIZE..CRYPT_SIZE + CTRL_SIZE]);
  }

  // ---------------------------------------------------------------------
  // Consequences: exactly which inputs the parser accepts

  /** The parser accepts input as f exactly when f is well formed for key
      and id and the input starts with f's serialisation. */
  lemma DecodeIff(input: Bytes, key: Key, id: Bytes4, f: RawFrame)
    ensures Decode(input, key, id) == Success(f)
        <==> WellFormed(f, key, id) && |Serialise(f)| <= |input| && input[..|Serialise(f)|] == Serialise(f)
  {
    if Decode(input, key, id) == Success(f) {
      DecodeSound(input, key, id);
    }
    if WellFormed(f, key, id) && |Serialise(f)| <= |input| && input[..|Serialise(f)|] == Serialise(f) {
      var rest := input[|Serialise(f)|..];
      assert input == Serialise(f) + rest;
      DecodeSerialise(f, key, id, rest);
    }
  }

  /** A prefix of a sequence is a prefix of any extension of it. */
  lemma PrefixOfExtension(x: Bytes, more: Bytes, n: nat)
    requires n <= |x|
    ensures (x + more)[..n] == x[..n]
  {
  }

  /** Cutting a sequence in two and joining the halves gives it back. */
  lemma TakeDrop(x: Bytes, k: nat)
    requires k <= |x|
    ensures x[..k] + x[k..] == x + []
  {
  }

  /** Bytes after an accepted frame are never read. */
  lemma DecodeIgnoresTrailing(input: Bytes, more: Bytes, key: Key, id: Bytes4)
    requires Decode(input, key, id).Success?
    ensures Decode(input + more, key, id) == Decode(input, key, id)
  {
    var f := Decode(input, key, id).value;
    DecodeIff(input, key, id, f);
    PrefixOfExtension(input, more, |Serialise(f)|);
    DecodeIff(input + more, key, id, f);
  }

  /** A well-formed frame cut short anywhere is rejected. */
  lemma DecodeTruncated(f: RawFrame, key: Key, id: Bytes4, k: nat)
    requires WellFormed(f, key, id) && k < |Serialise(f)|
    ensures Decode(Serialise(f)[..k], key, id).Failure?
  {
    var s := Serialise(f);
    var cut := s[..k];
    if Decode(cut, key, id).Success? {
      DecodeSound(cut, key, id);
      DecodeIgnoresTrailing(cut, s[k..], key, id);
      TakeDrop(s, k);
      DecodeSerialise(f, key, id, []);
      assert false;
    }
  }

  /** The length of a shaped frame on the wire: 8 bytes of id and marker,
      4 of control word 1, 12 of origin and destinationA, 6 per
      destinationsB address, 6 for destinationC when from a relay, 4 for
      control word 2 under more_header, the 2-byte header CRC, the data and
      its 2-byte CRC under more_header, and the 4-byte end marker. */
  lemma SerialiseLength(f: RawFrame)
    requires Shaped(f)
    ensures |Serialise(f)| ==
      CRYPT_SIZE + CTRL_SIZE + 2 * ADDRESS_SIZE + ADDRESS_SIZE * Destinations(f.ctrl)
      + (if FromRelay(f.ctrl) then ADDRESS_SIZE else 0)
      + (if MoreHeaders(f.ctrl) then CTRL2_SIZE else 0)
      + CRC_SIZE
      + (if MoreHeaders(f.ctrl) then DataLength(f.ctrl2.value) + CRC_SIZE else 0)
      + ID_SIZE
  {
    HeaderLayout(f);
  }

  // ---------------------------------------------------------------------
  // What the parser rejects

  /** A frame for another network is rejected with kARISR_ERR_NOT_SAME_ID. */
  lemma DecodeOtherNetwork(f: RawFrame, key: Key, id: Bytes4, rest: Bytes)
    requires Shaped(f) && f.id != id
    ensures Decode(Serialise(f) + rest, key, id) == Failure(NotSameId)
  {
    SerialisedHeader(f, rest);
  }

  /** Adding the same last key byte to a marker gives the same result only
      for the same byte. */
  lemma AddEachInjective(a: Bytes4, k1: bv8, k2: bv8)
    requires AddEach(a, k1) == AddEach(a, k2)
    ensures k1 == k2
  {
    assert AddEach(a, k1)[0] == AddEach(a, k2)[0];
  }

  /** A frame whose marker was encrypted under one key is rejected with
      kARISR_ERR_NOT_SAME_ARIS under any key with a different last byte. */
  lemma DecodeOtherKey(f: RawFrame, key: Key, id: Bytes4, other: Key, rest: Bytes)
    requires WellFormed(f, key, id) && other[15] != key[15]
    ensures Decode(Serialise(f) + rest, other, id) == Failure(NotSameAris)
  {
    SerialisedHeader(f, rest);
    ArisDecryptAccepts(key, f.aris);
    ArisDecryptAccepts(other, f.aris);
    if ArisDecrypt(other, f.aris) == Ok {
      AddEachInjective(ARIS, key[15], other[15]);
    }
  }

  /** Two CRC fields that differ read as different numbers. */
  lemma Uint16Distinct(a: Bytes2, b: Bytes2)
    requires a != b
    ensures BytesToUint16(a) != BytesToUint16(b)
  {
    assert a[..2] == a && b[..2] == b;
  }

  /** A well-formed frame whose header CRC is replaced by any other value
      is rejected with kARISR_ERR_NOT_SAME_CRC_HEADER. */
  lemma DecodeBadHeaderCrc(f: RawFrame, key: Key, id: Bytes4, c: Bytes2, rest: Bytes)
    requires WellFormed(f, key, id) && c != f.crcHeader
    ensures Decode(Serialise(f.(crcHeader := c)) + rest, key, id) == Failure(NotSameCrcHeader)
  {
    var g := f.(crcHeader := c);
    assert HeaderBytes(g) == HeaderBytes(f);
    SerialisedHeader(g, rest);
    Uint16Distinct(c, f.crcHeader);
  }

  /** DecodeData rejects an input whose data CRC does not guard its data. */
  lemma DecodeDataRejects(input: Bytes, ctrl: Bytes4, p: nat, q: nat)
    requires |input| >= HeaderLength(ctrl) + CRC_SIZE && p <= q
    requires |input| >= q + CRC_SIZE
    requires !Guards(input[q..q + CRC_SIZE], input[p..q])
    ensures DecodeData(input, ctrl, p, q) == Failure(NotSameCrcData)
  {
  }

  /** Under more_header the body is the data section whose length control
      word 2 gives. */
  lemma DecodeBodyData(input: Bytes, ctrl: Bytes4, ctrl2: Bytes4)
    requires |input| >= HeaderLength(ctrl) + CRC_SIZE && MoreHeaders(ctrl)
    requires ctrl2 == input[Ctrl2At(ctrl)..HeaderLength(ctrl)]
    ensures DecodeBody(input, ctrl) ==
      DecodeData(input, ctrl, HeaderLength(ctrl) + CRC_SIZE, HeaderLength(ctrl) + CRC_SIZE + DataLength(ctrl2))
  {
  }

  /** Once the data CRC field is on the wire, the parser's verdict on the
      data section depends only on whether that field guards the data and
      on whether the end marker follows. */
  lemma DecodeDataVerdict(input: Bytes, ctrl: Bytes4, p: nat, q: nat, ok: bool)
    requires |input| >= HeaderLength(ctrl) + CRC_SIZE && p <= q
    requires |input| >= q + CRC_SIZE
    requires ok <==> Guards(input[q..q + CRC_SIZE], input[p..q])
    ensures !ok ==> DecodeData(input, ctrl, p, q) == Failure(NotSameCrcData)
    ensures ok && |input| < q + CRC_SIZE + ID_SIZE ==> DecodeData(input, ctrl, p, q) == Failure(Generic)
    ensures ok && |input| >= q + CRC_SIZE + ID_SIZE ==>
      DecodeData(input, ctrl, p, q) == Success(Sections(input, ctrl, Some(input[p..q]), Some(input[q..q + CRC_SIZE]),
                                                         input[q + CRC_SIZE..q + CRC_SIZE + ID_SIZE]))
  {
  }

  /** After the header CRC of a frame with control word 2 whose data CRC
      does not guard its data the parser stops at the data CRC. */
  lemma DecodeBodyBadData(f: RawFrame, rest: Bytes)
    requires Shaped(f) && MoreHeaders(f.ctrl) && !Guards(f.crcData.value, f.data.value)
    ensures var input := Serialise(f) + rest;
      |input| >= HeaderLength(f.ctrl) + CRC_SIZE && DecodeBody(input, f.ctrl) == Failure(NotSameCrcData)
  {
    var p := HeaderLength(f.ctrl) + CRC_SIZE;
    SerialisedHeader(f, rest);
    Ctrl2OnWire(f, rest);
    BodyOnWire(f, rest);
    DecodeDataRejects(Serialise(f) + rest, f.ctrl, p, p + |f.data.value|);
  }

  /** A well-formed frame with data whose data CRC is replaced by any other
      value is rejected with kARISR_ERR_NOT_SAME_CRC_DATA. */
  lemma DecodeBadDataCrc(f: RawFrame, key: Key, id: Bytes4, c: Bytes2, rest: Bytes)
    requires WellFormed(f, key, id) && MoreHeaders(f.ctrl) && c != f.crcData.value
    ensures Decode(Serialise(f.(crcData := Some(c))) + rest, key, id) == Failure(NotSameCrcData)
  {
    var g := f.(crcData := Some(c));
    var input := Serialise(g) + rest;
    var n := HeaderLength(f.ctrl);
    assert HeaderBytes(g) == HeaderBytes(f);
    SerialisedHeader(g, rest);
    assert Guards(input[n..n + CRC_SIZE], input[..n]);
    Uint16Distinct(c, f.crcData.value);
    DecodeBodyBadData(g, rest);
  }

  /** A well-formed frame with data in which any one data byte is changed
      is rejected with kARISR_ERR_NOT_SAME_CRC_DATA: the data CRC catches
      every single-byte change. */
  lemma DecodeCorruptData(f: RawFrame, key: Key, id: Bytes4, i: nat, b: bv8, rest: Bytes)
    requires WellFormed(f, key, id) && MoreHeaders(f.ctrl)
    requires i < |f.data.value| && b != f.data.value[i]
    ensures Decode(Serialise(f.(data := Some(f.data.value[i := b]))) + rest, key, id) == Failure(NotSameCrcData)
  {
    var g := f.(data := Some(f.data.value[i := b]));
    var input := Serialise(g) + rest;
    var n := HeaderLength(f.ctrl);
    assert HeaderBytes(g) == HeaderBytes(f);
    OneByteChangesCrc(CRC16_INITIAL_VALUE, f.data.value, i, b);
    SerialisedHeader(g, rest);
    assert Guards(input[n..n + CRC_SIZE], input[..n]);
    DecodeBodyBadData(g, rest);
  }

  /** A shaped frame for id under key whose header CRC does not guard its
      header is rejected with kARISR_ERR_NOT_SAME_CRC_HEADER. */
  lemma DecodeHeaderRejects(g: RawFrame, key: Key, id: Bytes4, rest: Bytes)
    requires Shaped(g) && Addressed(g, key, id) && !Guards(g.crcHeader, HeaderBytes(g))
    ensures Decode(Serialise(g) + rest, key, id) == Failure(NotSameCrcHeader)
  {
    SerialisedHeader(g, rest);
  }

  /** Changing byte k of the fixed sections changes that byte of the
      header and no other. */
  lemma FixedByteChanged(f: RawFrame, g: RawFrame, k: nat, b: bv8)
    requires k < DESTINATIONS_B_AT
    requires g.destinationsB == f.destinationsB
    requires g.destinationC == f.destinationC && g.ctrl2 == f.ctrl2
    requires FixedBytes(g) == FixedBytes(f)[k := b]
    ensures k < |HeaderBytes(f)| && HeaderBytes(f)[k] == FixedBytes(f)[k]
    ensures HeaderBytes(g) == HeaderBytes(f)[k := b]
  {
    var tail := Flatten(f.destinationsB)
      + (if f.destinationC.Some? then f.destinationC.value else [])
      + (if f.ctrl2.Some? then f.ctrl2.value else []);
    assert HeaderBytes(f) == FixedBytes(f) + tail;
    assert HeaderBytes(g) == FixedBytes(g) + tail;
    UpdateInFirst(FixedBytes(f), tail, k, b);
  }

  /** Updating a byte of the first part of a concatenation updates that
      part. */
  lemma UpdateInFirst(a: Bytes, t: Bytes, k: nat, b: bv8)
    requires k < |a|
    ensures (a + t)[k] == a[k]
    ensures (a + t)[k := b] == a[k := b] + t
  {
  }

  /** A well-formed frame with any one byte of its origin address changed
      is rejected with kARISR_ERR_NOT_SAME_CRC_HEADER. */
  lemma DecodeCorruptOrigin(f: RawFrame, key: Key, id: Bytes4, j: nat, b: bv8, rest: Bytes)
    requires WellFormed(f, key, id) && j < ADDRESS_SIZE && b != f.origin[j]
    ensures Decode(Serialise(f.(origin := f.origin[j := b])) + rest, key, id) == Failure(NotSameCrcHeader)
  {
    var g := f.(origin := f.origin[j := b]);
    FixedLayout(f);
    assert FixedBytes(f)[ORIGIN_AT + j] == f.origin[j];
    assert FixedBytes(g) == FixedBytes(f)[ORIGIN_AT + j := b];
    FixedByteChanged(f, g, ORIGIN_AT + j, b);
    OneByteChangesCrc(CRC16_INITIAL_VALUE, HeaderBytes(f), ORIGIN_AT + j, b);
    DecodeHeaderRejects(g, key, id, rest);
  }

  /** A well-formed frame with any one byte of destinationA changed is
      rejected with kARISR_ERR_NOT_SAME_CRC_HEADER. */
  lemma DecodeCorruptDestinationA(f: RawFrame, key: Key, id: Bytes4, j: nat, b: bv8, rest: Bytes)
    requires WellFormed(f, key, id) && j < ADDRESS_SIZE && b != f.destinationA[j]
    ensures Decode(Serialise(f.(destinationA := f.destinationA[j := b])) + rest, key, id) == Failure(NotSameCrcHeader)
  {
    var g := f.(destinationA := f.destinationA[j := b]);
    var k := ORIGIN_AT + ADDRESS_SIZE + j;
    FixedLayout(f);
    assert FixedBytes(f)[k] == f.destinationA[j];
    assert FixedBytes(g) == FixedBytes(f)[k := b];
    FixedByteChanged(f, g, k, b);
    OneByteChangesCrc(CRC16_INITIAL_VALUE, HeaderBytes(f), k, b);
    DecodeHeaderRejects(g, key, id, rest);
  }

  // ---------------------------------------------------------------------
  // The send side: CRCs are computed when the frame is sent

  /** The header CRC field that guards s, as ARISR_crypt_crc16_calculate
      computes it and F_ARISR_UINT16_TO_BYTES writes it. */
  function CrcField(s: Bytes): (c: Bytes2)
    ensures Guards(c, s)
  {
    CrcIsBitwise(CRC16_INITIAL_VALUE, s);
    Uint16RoundTrip(Crc16.Crc16(s));
    Uint16Bytes(Crc16.Crc16(s))
  }

  /** A frame with both CRC fields computed: the header CRC over the
      header, the data CRC over the data when there is data. Every other
      section is kept. */
  function Seal(f: RawFrame): (g: RawFrame)
    ensures g == f.(crcHeader := g.crcHeader, crcData := g.crcData)
    ensures g.crcData.Some? <==> f.data.Some?
    ensures HeaderBytes(g) == HeaderBytes(f)
    ensures CrcsMatch(g)
  {
    f.(crcHeader := CrcField(HeaderBytes(f)),
       crcData := if f.data.Some? then Some(CrcField(f.data.value)) else None)
  }

  /** Sealing a shaped, addressed frame makes it well formed. */
  lemma SealWellFormed(f: RawFrame, key: Key, id: Bytes4)
    requires Shaped(f) && Addressed(f, key, id)
    ensures WellFormed(Seal(f), key, id)
  {
  }

  /** A CRC field is determined by the bytes it guards. */
  lemma GuardsUnique(a: Bytes2, b: Bytes2, s: Bytes)
    requires Guards(a, s) && Guards(b, s)
    ensures a == b
  {
    if a != b {
      Uint16Distinct(a, b);
    }
  }

  /** Sealing changes nothing in a frame whose CRCs already hold. */
  lemma SealKeepsWellFormed(f: RawFrame, key: Key, id: Bytes4)
    requires WellFormed(f, key, id)
    ensures Seal(f) == f
  {
    var g := Seal(f);
    GuardsUnique(g.crcHeader, f.crcHeader, HeaderBytes(f));
    if f.data.Some? {
      GuardsUnique(g.crcData.value, f.crcData.value, f.data.value);
    }
  }

  /** The bytes ARISR_proto_send puts on the wire for a packed frame.
      Computing the CRCs changes no length, so a shaped frame is sent in
      as many bytes as it serialises to. */
  function Send(f: RawFrame): (r: Bytes)
    ensures Shaped(f) ==> |r| == |Serialise(f)|
  {
    Serialise(Seal(f))
  }

  /** What is sent for a shaped, addressed frame, followed by anything,
      is received as the sealed frame. */
  lemma SendThenDecode(f: RawFrame, key: Key, id: Bytes4, rest: Bytes)
    requires Shaped(f) && Addressed(f, key, id)
    ensures Decode(Send(f) + rest, key, id) == Success(Seal(f))
  {
    SealWellFormed(f, key, id);
    DecodeSerialise(Seal(f), key, id, rest);
  }
}
