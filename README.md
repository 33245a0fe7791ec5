# ARISr frame codec in Dafny

A model of the core of lib-arisr-c, the C library for the ARISr radio
frame. An ARISr frame is a run of sections that a receive cursor walks in
this order:

- the network id (4 bytes) and the obfuscated marker "ARIS" (4);
- control word 1 (4);
- the origin and destinationA addresses (6 + 6);
- `destinations` further addresses of 6 bytes (destinationsB);
- destinationC (6), only when the frame comes from a relay;
- control word 2 (4), only under `more_header`;
- the header CRC (2);
- under `more_header`, the data and the data CRC (2);
- the end marker (4).

The project models:

- **Crc16** (`crc16.dfy`, with `crc16_division.dfy`):
  - `ARISR_crypt_crc16_calculate` as a loop over an array;
  - its 256-entry lookup table, proved equal to what polynomial 0x1021 generates;
  - a bitwise MSB-first CRC-16/CCITT-FALSE reference, which the table-driven loop is proved to match.
- **Aes** (`aes.dfy`):
  - the zero-key sentinel `ARISR_AES_IS_ZERO_KEY`;
  - the ARIS marker cipher, which adds or subtracts `key[15]` mod 256;
  - ECB encryption and decryption with PKCS#7 padding (section 6.3 of RFC 5652) over an abstract 16-byte block cipher.
- **BitField** (`bitfield.dfy`):
  - `getField` (shift, then mask) and `setField` (OR the value in);
  - the field tables of the two control words;
  - unpack and pack of each control word into its field record.
- **Base** and **Comm** (`base.dfy`, `comm.dfy`):
  - the big-endian byte/integer macros;
  - single-bit test, set and clear;
  - the hex-nibble macros, MIN/MAX and the saturating addition;
  - the 6-byte address helpers `ARISR_UINT48_Set` and `ARISR_UINT48_GetInt`;
  - the chunk records;
  - **Errors** (`errors.dfy`) holds the error codes of lib_arisr_err.h.
- **Frame** (`frame.dfy`): the wire format, in three parts:
  - `Decode`, the parser as a function from the received bytes to a RawFrame or an error;
  - `Serialise` and `Send`, the writer;
  - the round-trip, soundness, iff and rejection lemmas that relate them.
- **Codec** (`codec.dfy`): `ARISR_proto_unpack` and `ARISR_proto_pack`, proved inverse.
- **Proto** (`proto.dfy`), the imperative layer:
  - the `ARISR_CHUNK_RAW` buffer as a class with one field per section;
  - `ARISR_proto_raw_chunk_clean`;
  - `ARISR_proto_recv`, which advances a cursor and stores each section into the buffer, proved to leave exactly the frame `Frame.Decode` finds, or a clean buffer and the same error;
  - `ARISR_proto_chunk_clean`, `ARISR_proto_unpack`/`ARISR_proto_pack` into buffers, and the send/build side.

The following are parameters of the model:

- The AES-128 block primitive is a `BlockCipher` pair of functions. Round trips require the pair to invert each other (`Aes.Inverts`).
- The key is a 16-byte sequence.
- The host byte order used by `ARISR_UINT48_GetInt` is fixed to little-endian.

## Model

| member | source | states |
|---|---|---|
| Errors.Code | include/lib_arisr_err.h:46-53 | each status has its numeric code; only kARISR_OK is 0 and no code exceeds 7 |
| Errors.CodeInjective | include/lib_arisr_err.h:46-53 | distinct statuses have distinct codes |
| Base.BitTest | include/lib_arisr_base.h:142-143 | F_ARISR_BIT_TEST yields 0 or 1 |
| Base.BitTestOne | include/lib_arisr_base.h:142-143 | a test of 1 means the bit is set in the value |
| Base.BitTestZero | include/lib_arisr_base.h:142-143 | a test of 0 means the bit is clear in the value |
| Base.BitSet | include/lib_arisr_base.h:145-146 | after F_ARISR_BIT_SET the bit tests 1 and every other bit tests as before |
| Base.BitClear | include/lib_arisr_base.h:148-149 | after F_ARISR_BIT_CLEAR the bit tests 0 and every other bit tests as before |
| Base.BytesToUint16 | include/lib_arisr_base.h:157-160 | big-endian: the two-byte encoding of the result is the first two input bytes |
| Base.BytesToUint24 | include/lib_arisr_base.h:162-166 | big-endian over three bytes; the result is below 2^24 |
| Base.BytesToUint32 | include/lib_arisr_base.h:168-173 | big-endian: the four-byte encoding of the result is the first four input bytes |
| Base.Uint16RoundTrip | include/lib_arisr_base.h:180-184 | bytes then integer gives back any 16-bit value |
| Base.Uint24RoundTrip | include/lib_arisr_base.h:186-191 | bytes then integer gives back the low 24 bits, hence any value below 2^24 |
| Base.Uint32RoundTrip | include/lib_arisr_base.h:193-199 | bytes then integer gives back any 32-bit value |
| Base.Uint16ToBytes | include/lib_arisr_base.h:180-184 | writes the big-endian bytes at the offset and leaves every other array cell unchanged |
| Base.Uint24ToBytes | include/lib_arisr_base.h:186-191 | writes three big-endian bytes at the offset and leaves every other cell unchanged |
| Base.Uint32ToBytes | include/lib_arisr_base.h:193-199 | writes four big-endian bytes at the offset and leaves every other cell unchanged |
| Base.AscHexToNibble | include/lib_arisr_base.h:206-207 | digits, upper- and lower-case hex letters map to their value; any input from '0' on gives a value in 0..15 |
| Base.NibbleToAscHex | include/lib_arisr_base.h:209-210 | 0..9 map to '0'..'9', 10..15 to 'A'..'F', and converting back gives the nibble |
| Base.UpperHexRoundTrip | include/lib_arisr_base.h:206-210 | a digit or upper-case hex letter survives nibble and back |
| Base.Min | include/lib_arisr_base.h:217 | MIN returns one of its arguments, no larger than either |
| Base.Max | include/lib_arisr_base.h:219 | MAX returns one of its arguments, no smaller than either |
| Base.MinLeMax | include/lib_arisr_base.h:217-219 | MIN never exceeds MAX |
| Base.AddWithLimit | include/lib_arisr_base.h:226-232 | the saturating sum is min(initial + addition, limit), hence never above the limit |
| Comm.Uint48Set | include/lib_arisr_comm.h:50-54 | with both pointers the six source bytes are copied; with a null source the destination is unchanged |
| Comm.Uint48GetInt | include/lib_arisr_comm.h:62-68 | null gives 0; otherwise the little-endian value of the six bytes, in [0, 2^48) |
| Comm.LittleEndianInjective | include/lib_arisr_comm.h:62-68 | equal-length byte strings with equal little-endian values are equal |
| Comm.GetIntDeterminesBytes | include/lib_arisr_comm.h:50-68 | two addresses read back as the same number only when they hold the same bytes |
| Crc16.Calculate | source/lib_arisr_crypt.c:30-38 | the loop returns the CRC of data[0..length), which is 0xFFFF for length 0 |
| Crc16.TableEntryIsGenerated | include/lib_arisr_crypt.h:36-56 | every crc16_table entry i is i << 8 carried through eight MSB-first division steps by 0x1021 |
| Crc16.TableUpdateIsBitwise | source/lib_arisr_crypt.c:34-35 | one table-driven step equals absorbing the byte bit by bit |
| Crc16.Crc16 | source/lib_arisr_crypt.c:30-38 | the CRC the library computes over a byte string is the bitwise MSB-first CRC-16/CCITT-FALSE from 0xFFFF |
| Crc16.CrcIsBitwise | source/lib_arisr_crypt.c:33-36 | from any register, the table-driven CRC equals the bitwise MSB-first CRC-16/CCITT-FALSE |
| Crc16.CrcOverAppend | source/lib_arisr_crypt.c:33-36 | the CRC of a ++ b is the loop over b started from the register left by a |
| Crc16.CheckValue | include/lib_arisr_crypt.h:34-37 | the CRC of ASCII "123456789" is 0x29B1, the catalogue check value of CRC-16/CCITT-FALSE |
| Crc16Division.ByteStepLinear | include/lib_arisr_crypt.h:36 | eight division steps by the polynomial distribute over XOR |
| Crc16Division.AbsorbSplit | source/lib_arisr_crypt.c:34-35 | absorbing a byte is the generated entry at index (crc >> 8) ^ byte XOR the shifted register |
| Crc16Division.StepsInjective | include/lib_arisr_crypt.h:36 | any number of MSB-first division steps by 0x1021 maps different registers to different registers |
| Crc16Division.AbsorbInjectiveReg | source/lib_arisr_crypt.c:34-35 | absorbing the same byte into two different registers gives two different registers |
| Crc16Division.AbsorbInjectiveByte | source/lib_arisr_crypt.c:34-35 | absorbing two different bytes into the same register gives two different registers |
| Crc16.OverInjectiveReg | source/lib_arisr_crypt.c:33-36 | the loop over the same bytes from two different starting registers ends in two different registers |
| Crc16.OverAppend | source/lib_arisr_crypt.c:33-36 | the bitwise CRC of a ++ b is the CRC of b started from the register left by a |
| Crc16.OneByteChangesCrc | source/lib_arisr_crypt.c:30-38 | from any starting register, changing any single byte of the input changes the CRC |
| Crc16.OneByteChangesCrc16 | source/lib_arisr_crypt.c:30-38 | changing any single byte changes the CRC the library computes from 0xFFFF |
| Aes.IsZeroKey | include/lib_arisr_crypt.h:93-99 | holds exactly when all sixteen key bytes are zero |
| Aes.ArisDecrypt | include/lib_arisr_crypt.h:101-115 | OK exactly when every marker byte minus key[15] mod 256 is the matching byte of "ARIS"; otherwise kARISR_ERR_GENERIC |
| Aes.ArisDecryptAccepts | include/lib_arisr_crypt.h:101-115 | the only marker accepted with a key is "ARIS" with key[15] added to each byte |
| Aes.ArisDecryptZeroLast | include/lib_arisr_crypt.h:101-115 | with key[15] = 0 only the literal "ARIS" is accepted |
| Aes.ArisEncrypt | include/lib_arisr_crypt.h:117-132 | a null marker gives kARISR_ERR_GENERIC; otherwise each of the four bytes gets key[15] added mod 256 in place |
| Aes.ArisRoundTrip | include/lib_arisr_crypt.h:123-125 | the encrypted "ARIS" decrypts to OK under the same key |
| Aes.SubEachAddEach | include/lib_arisr_crypt.h:123-125 | subtracting key[15] undoes adding it |
| Aes.EachWithZero | include/lib_arisr_crypt.h:101-132 | with key byte 0 both transforms are the identity |
| Aes.PadCount | include/lib_arisr_crypt.h:134-138 | between 1 and 16 pad bytes, bringing the length to a multiple of 16 |
| Aes.Pad | include/lib_arisr_crypt.h:134-138 | the padded text is the input followed by 1..16 bytes each equal to the count added, and is a multiple of 16 long |
| Aes.Unpad | include/lib_arisr_crypt.h:155-166 | a failure is kARISR_ERR_INVALID_PADDING; a success is what padding turns back into the input |
| Aes.UnpadPad | include/lib_arisr_crypt.h:155-166 | removing PKCS#7 padding after adding it gives the text back |
| Aes.EcbRoundTrip | include/lib_arisr_crypt.h:134-166 | ECB decryption after ECB encryption is the identity when the block cipher inverts |
| Aes.Encrypt | include/lib_arisr_crypt.h:134-153 | the output length is the smallest multiple of 16 strictly above the input length |
| Aes.Decrypt | include/lib_arisr_crypt.h:155-174 | empty or non-multiple-of-16 input gives kARISR_ERR_INVALID_ARGUMENT; the only other failure is kARISR_ERR_INVALID_PADDING; output is shorter than input |
| Aes.DecryptEncrypt | include/lib_arisr_crypt.h:134-174 | decrypting what was encrypted under one key gives the input back |
| Aes.EcbBlocks | include/lib_arisr_crypt.h:134-138 | the block loop writes into a fresh array exactly the ECB image of its input |
| Aes.DataEncrypt | include/lib_arisr_crypt.h:149-153 | returns OK, a fresh output whose length is output_len and whose contents are the padded encryption of input[0..input_len) |
| Aes.CheckPadding | include/lib_arisr_crypt.h:155-166 | the loop accepts exactly the buffers whose padding is valid, and then returns the unpadded length |
| Aes.DataDecrypt | include/lib_arisr_crypt.h:170-174 | OK exactly when decryption succeeds, with the plain text in output[0..output_len); otherwise the error decryption reports |
| BitField.Extract | source/lib_arisr.c:39-43 | the shifted word masked is an 8-bit value within the mask |
| BitField.GetField | source/lib_arisr.c:39-43 | getField over the big-endian word of the four bytes gives a value within the mask |
| BitField.PositionedMasks | include/lib_arisr.h:56-64 | shift-then-mask equals mask-in-place-then-shift for every field of both control words |
| BitField.SetField | include/lib_arisr.h:66-74 | returns OK and the four bytes become the word with data << shift ORed in |
| BitField.SetThenGet | include/lib_arisr.h:66-74 | on a field that was zero, getField after setField returns the value set |
| BitField.SetKeepsOutside | include/lib_arisr.h:66-74 | setField leaves every bit outside the field as it was |
| BitField.SetNeverClears | include/lib_arisr.h:66-74 | setField never clears a bit, since it ORs without clearing first |
| BitField.SetTwiceOrs | include/lib_arisr.h:66-74 | two setFields of one field leave the OR of both values there |
| BitField.UnpackCtrl | include/lib_arisr_comm.h:70-80 | each control-word-1 field fits its width, and destinations, from and more_header are the getField reads recv uses |
| BitField.PackCtrl | include/lib_arisr_comm.h:70-80 | control word 1 built from fields that fit reads back as the same fields |
| BitField.PackUnpackCtrl | include/lib_arisr_comm.h:70-80 | the nine fields cover all 32 bits, so reading and rebuilding control word 1 gives its bytes back |
| BitField.UnpackCtrl2 | include/lib_arisr_comm.h:82-87 | each control-word-2 field fits its width, and data_length is its getField read |
| BitField.PackCtrl2 | include/lib_arisr_comm.h:82-87 | the 21 reserved bits of a built control word 2 are 0, and fields that fit read back as the same fields |
| BitField.PackUnpackCtrl2 | include/lib_arisr_comm.h:82-87 | rebuilding control word 2 keeps its used bits and clears the 21 reserved ones |
| Frame.DataLength | test/main.c:101-104 | the data length announced by control word 2 is a whole number of 8-byte units below 2048 |
| Frame.FlattenAddresses | source/lib_arisr.c:122-132 | destinationsB holds exactly the input bytes that follow destinationA, in order |
| Frame.AddressAt | source/lib_arisr.c:122-132 | address j of destinationsB is input bytes 6j..6j+6 of its run |
| Frame.Decode | source/lib_arisr.c:69-232 | every error is kARISR_ERR_GENERIC, NOT_SAME_ID, NOT_SAME_ARIS, NOT_SAME_CRC_HEADER or NOT_SAME_CRC_DATA; an accepted frame carries the expected id and a marker that decrypts to OK, and its control word 1 is input[8..12] |
| Frame.Serialise | source/lib_arisr.c:92-229 | the wire bytes of a frame, at least 12 long, open with its id and close with its end marker |
| Frame.DecodeSerialise | source/lib_arisr.c:69-232 | a well-formed frame followed by anything parses back to itself |
| Frame.DecodeSound | source/lib_arisr.c:69-232 | every frame recv accepts is well formed, and its serialisation is a prefix of the input |
| Frame.DecodeIff | source/lib_arisr.c:69-232 | recv accepts f exactly when f is well formed for the key and id and its serialisation starts the input |
| Frame.DecodeIgnoresTrailing | source/lib_arisr.c:226-231 | bytes after the end marker do not change an accepted result |
| Frame.DecodeTruncated | source/lib_arisr.c:92-229 | any strict prefix of a well-formed frame is rejected |
| Frame.SerialiseLength | source/lib_arisr.c:92-229 | bytes consumed = 8 + 4 + 12 + 6·destinations + 6·from + 4·more_header + 2 + (more_header ? L + 2 : 0) + 4 |
| Frame.HeaderOfInput | source/lib_arisr.c:122-167 | the parsed header re-serialises to input[0..p), with as many destinationsB as ctrl says; destinationC is present iff from, ctrl2 iff more_header |
| Frame.DecodeBodyShort | source/lib_arisr.c:153-167 | without more_header, ctrl2 and data are absent and only the end marker follows the header CRC |
| Frame.DecodeOtherNetwork | include/lib_arisr.h:76-88 | a frame for another network id is rejected with kARISR_ERR_NOT_SAME_ID |
| Frame.DecodeOtherKey | include/lib_arisr.h:76-88 | a frame read with a key whose last byte differs is rejected with kARISR_ERR_NOT_SAME_ARIS |
| Frame.DecodeBadHeaderCrc | source/lib_arisr.c:171-187 | changing the header CRC of a well-formed frame makes recv fail with kARISR_ERR_NOT_SAME_CRC_HEADER |
| Frame.DecodeBadDataCrc | source/lib_arisr.c:208-220 | changing the data CRC of a well-formed frame with data makes recv fail with kARISR_ERR_NOT_SAME_CRC_DATA |
| Frame.DecodeHeaderRejects | source/lib_arisr.c:171-187 | an addressed, shaped frame whose header CRC does not guard its header bytes is rejected with kARISR_ERR_NOT_SAME_CRC_HEADER |
| Frame.DecodeCorruptOrigin | source/lib_arisr.c:171-187 | changing any one origin byte of a well-formed frame makes recv fail with kARISR_ERR_NOT_SAME_CRC_HEADER |
| Frame.DecodeCorruptDestinationA | source/lib_arisr.c:171-187 | changing any one destinationA byte of a well-formed frame makes recv fail with kARISR_ERR_NOT_SAME_CRC_HEADER |
| Frame.DecodeCorruptData | source/lib_arisr.c:208-220 | changing any one data byte of a well-formed frame with data makes recv fail with kARISR_ERR_NOT_SAME_CRC_DATA |
| Frame.DecodeBodyBadData | source/lib_arisr.c:208-220 | the data CRC is taken over the data section alone; a mismatch is kARISR_ERR_NOT_SAME_CRC_DATA |
| Frame.CrcField | include/lib_arisr.h:104-109 | the CRC field written by the send side guards its bytes |
| Frame.GuardsUnique | source/lib_arisr.c:179-182 | a byte string has only one CRC field guarding it |
| Frame.Seal | include/lib_arisr.h:104-109 | the send side changes only the two CRC fields, and both then guard their sections |
| Frame.SealKeepsWellFormed | include/lib_arisr.h:104-109 | sealing a well-formed frame changes nothing |
| Frame.Send | test/main.c:413-427 | send computes the two CRC fields without changing the length: a shaped frame goes out in as many bytes as it serialises to |
| Frame.SendThenDecode | test/main.c:413-435 | the bytes send writes for a frame with a valid id and marker parse back to the sealed frame |
| Codec.LowByte | include/lib_arisr_comm.h:83 | a count stored in the one-byte data_length field keeps its low eight bits |
| Codec.LowByteUnits | test/main.c:103-104 | a length of whole 8-byte units below 2048 survives storage as a unit count |
| Codec.Restore | include/lib_arisr.h:90-102 | the restored chunk's fields fit their widths, data_length is the true byte count (mod 256), and a shaped frame gives ctrl.destinations addresses |
| Codec.Unpack | include/lib_arisr.h:90-102 | fails exactly when data needs decrypting under a non-zero key and AES fails, with AES's error; the zero key passes data through; no data gives empty data; an accepted marker is restored to "ARIS" |
| Codec.Assemble | include/lib_arisr.h:104-116 | the assembled frame keeps id, end and both CRC fields as the chunk has them, carries the given marker, builds control word 1 so that fields that fit read back, and holds data (the given bytes) exactly under more_header |
| Codec.Pack | include/lib_arisr.h:104-116 | fails with kARISR_ERR_NOT_SAME_ID exactly when end differs from id; otherwise ctrl is built from the fields, the CRC fields are copied, not computed, and the marker decrypts to OK iff the chunk's marker is "ARIS" |
| Codec.PackShaped | include/lib_arisr.h:104-116 | a representable chunk whose end is its id packs into a frame of the shape control word 1 announces |
| Codec.UnpackPack | include/lib_arisr.h:90-116 | unpack after pack gives the chunk back |
| Codec.ChunkRoundTrip | test/main.c:398-435 | pack, send, recv, then unpack gives the chunk back, with the CRC fields the send side computed |
| Codec.RestoreAssemble | include/lib_arisr.h:90-116 | restoring a frame assembled from a carried chunk gives the chunk back |
| Proto.RawChunk.View | source/lib_arisr.c:45-67 | a buffer as clean leaves it shows the all-zero frame without destinationC, ctrl2, data or data CRC, which is shaped |
| Proto.RawChunk.Zero | source/lib_arisr.c:63-64 | every field of the buffer becomes zero or absent |
| Proto.RawChunk.constructor | source/lib_arisr.c:63-64 | a new buffer is clean |
| Proto.Clean | source/lib_arisr.c:45-67 | NULL gives kARISR_ERR_GENERIC; otherwise OK and every field zero or absent |
| Proto.Reject | source/lib_arisr.c:184-186 | an error cleans the buffer and returns that error |
| Proto.ReadIdentity | include/lib_arisr.h:76-88 | the id, then the marker, then the room for control word 1 are checked, with the error the parser reports; on success control word 1 is input[8..12] |
| Proto.StoreHeader | source/lib_arisr.c:92-172 | the header sections are copied into the buffer fields; data, data CRC and end stay clean |
| Proto.ReadHeader | source/lib_arisr.c:89-167 | the cursor stops at the header CRC, p = 8 + 4 + 12 + 6·destinations + 6·from + 4·more_header, and the buffer holds those sections; too short an input gives kARISR_ERR_GENERIC and a clean buffer |
| Proto.CheckCrc | source/lib_arisr.c:175-182 | the stored CRC field matches exactly when it guards the bytes |
| Proto.StoreBody | source/lib_arisr.c:196-229 | data, data CRC and end are set and every header field is unchanged |
| Proto.ReadData | source/lib_arisr.c:196-224 | under more_header, reads data_length × 8 data bytes, the data CRC and the end, with the parser's verdict on each error |
| Proto.ReadEnd | source/lib_arisr.c:226-231 | without more_header, end is the 4 bytes at the cursor |
| Proto.ReadBody | source/lib_arisr.c:194-231 | the buffer then holds the whole frame the parser finds, or is clean with the parser's error |
| Proto.Recv | source/lib_arisr.c:69-232 | NULL buffer or input gives kARISR_ERR_GENERIC; otherwise the buffer holds exactly the frame Frame.Decode finds, or is clean with the same error |
| Proto.ViewAfterRecv | source/lib_arisr.c:69-232 | after a successful recv the buffer shows the decoded frame, which is well formed for key and id |
| Proto.CleanViewUnaddressed | source/lib_arisr.c:184-186 | the clean buffer recv leaves after an error shows a frame whose marker no key accepts, so it is addressed to no network |
| Proto.ViewOfHolds | source/lib_arisr.c:137-167 | a buffer holding a frame whose optional sections follow its control words shows that frame |
| Proto.ChunkBuffer.constructor | include/lib_arisr.h:48-54 | a chunk buffer starts with the given chunk |
| Proto.ChunkClean | include/lib_arisr.h:48-54 | NULL gives kARISR_ERR_GENERIC; otherwise OK and the chunk is empty |
| Proto.UnpackInto | include/lib_arisr.h:90-102 | the buffer receives Codec.Unpack of the raw buffer's frame, or on failure the error and an empty chunk |
| Proto.PackInto | include/lib_arisr.h:104-116 | the raw buffer holds Codec.Pack of the chunk, or is clean with its error |
| Proto.Transmit | test/main.c:413-427 | send writes a fresh array, of the returned length, holding the sealed serialisation of the buffer's frame |
| Proto.Build | test/main.c:516-532 | build returns Pack's error with length 0, or OK and exactly the bytes send writes for the packed frame |

## Left out

- AES-128 itself is outside lib_arisr: include/lib_arisr_crypt.h declares ARISR_aes_data_encrypt and ARISR_aes_data_decrypt, and source/lib_arisr_crypt.c defines only the CRC. A `BlockCipher` parameter stands in for the block primitive, and round trips assume that decryption inverts encryption.
- Aes.DataEncrypt, Aes.DataDecrypt: include/lib_arisr_crypt.h:145 and 166 name kARISR_ERR_INVALID_ARGUMENT and kARISR_ERR_MEMORY only as examples of error codes, without saying when they arise. NULL input or output pointers and allocation failure are not modelled (arrays are never null), so DataEncrypt always returns kARISR_OK.
- Aes.ArisDecrypt: include/lib_arisr_crypt.h:111 says the marker is modified in place by the subtraction, but the prototype at :115 takes it as `const ARISR_UINT8 *`. The model follows the prototype and leaves the marker unchanged.
- A NULL key, as used on the receive side of test/main.c:357, is not modelled; keys are 16-byte values.
- Memory management is not modelled: `malloc`/`free`, and `clean` running on an uninitialised buffer (source/lib_arisr.c:72).
- The source stores pointers to stack copies of the two control words (source/lib_arisr.c:107, 162); they dangle once recv returns. The model stores the words by value.
- The words are read through host-endian pointer casts (source/lib_arisr.c:42). The model assembles them big-endian with F_ARISR_BYTES_TO_UINT32.
- Recv reads a snapshot of the input array as a sequence; it does not model aliasing between the input and the buffer.
- source/lib_arisr.c does not follow include/lib_arisr.h and test/main.c on four points:
  - the 4-argument recv of include/lib_arisr.h:88 checks the id (kARISR_ERR_NOT_SAME_ID) and the ARIS marker (kARISR_ERR_NOT_SAME_ARIS) first, while the body in source/lib_arisr.c:69-232 starts with the copy of the sections; the model follows the declaration;
  - data_length counts 8-byte units, as test/main.c:103-104 reads it, while source/lib_arisr.c:199-206 uses the raw count; the model follows test/main.c;
  - the CRC comparisons at source/lib_arisr.c:182 and 216 compare a 16-bit value with a byte array; the model compares with F_ARISR_BYTES_TO_UINT16 of the field;
  - getField is defined at source/lib_arisr.c:39 as (ctrl, offset, mask) with an 8-bit mask, but declared at include/lib_arisr.h:64 as (ctrl, 32-bit mask, shift), the order test/main.c:75-77 and 101 call it in. BitField.GetField and BitField.Extract follow the definition: shift first, then an 8-bit right-aligned mask. BitField.PositionedMasks shows that for every field of the table this reads the same bits as the declared convention with a mask moved into position.
- Frame.Decode: an input too short for the section being read is rejected with kARISR_ERR_GENERIC, where the source reads past the end of its buffer.
- Frame.Decode does not compare the end marker with the id, since the code has no such check and lib_arisr_err.h has no code for it.
- Frame.Decode does not read the version field. The source reads it with shift 0 (source/lib_arisr.c:110), not at its place in the field table, and never uses it.
- Aes.Decrypt, Aes.DataDecrypt: include/lib_arisr_crypt.h:163 asks for an input length that is a multiple of AES_BLOCKLEN and :166 lists kARISR_ERR_INVALID_ARGUMENT among the possible errors. Rejecting a length that is not whole blocks, and also a length of 0 (which the header leaves open), with kARISR_ERR_INVALID_ARGUMENT is the model's choice.
- source/lib_arisr.c defines none of ARISR_proto_unpack, pack, send, build, parse or chunk_clean. include/lib_arisr.h declares unpack, pack and chunk_clean, and test/main.c calls all six. ARISR_proto_parse (test/main.c:470) is not part of this model; Codec.ChunkRoundTrip states the recv-then-unpack composition it is used for. Design choices:
  - Codec.Unpack restores the marker to "ARIS" so that pack and unpack are inverse;
  - Codec.Pack refuses a chunk whose end is not its id;
  - Proto.UnpackInto leaves an empty chunk when unpacking fails;
  - Codec.Unpack hands a data section to ARISR_aes_data_decrypt whatever its length, so a frame with more_header set and data_length 0 fails with kARISR_ERR_INVALID_ARGUMENT under a non-zero key, because the model's ARISR_aes_data_decrypt rejects a length of 0 (a choice of the model, see Aes.Decrypt above). Codec.Pack never sends such a frame under a non-zero key, since encryption always adds 1 to 16 bytes of padding.
- Frame.DecodeCorruptOrigin, Frame.DecodeCorruptDestinationA: single changed header bytes are stated for origin and destinationA only. A changed id byte or marker byte is caught before the header CRC, as kARISR_ERR_NOT_SAME_ID or kARISR_ERR_NOT_SAME_ARIS (Frame.DecodeOtherNetwork, Frame.DecodeOtherKey state the whole-field versions). A changed control-word byte can move the sections, so the frame is read with another layout. Single changed bytes in destinationsB and destinationC are not stated, although Crc16.OneByteChangesCrc covers them once the layout is fixed.
- Codec.UnpackPack holds in one direction only. A raw frame unpacked and packed again keeps its section contents but not the reserved bits of control word 2, so the other direction is not stated.
- Comm.Chunk: the ARISR_CHUNK of include/lib_arisr_comm.h:90-101 declares id, aris and end as ARISR_UINT32, crc_header as ARISR_UINT16 and crc_data as ARISR_UINT16[2]. The model keeps each of them as the byte string the wire carries (4, 4, 4, 2 and 2 bytes). It does not model that crc_data[2] occupies 4 bytes although its comment and the wire give it 2.
- Codec.ChunkRoundTrip: the chunk comes back with the CRC fields the send side computed, not the ones it held.
- The hex dumps and logging of test/main.c and test/log.h are not modelled; they print only.
- include/lib_arisr_interface.h is not part of this model; it holds no code.
- The platform detection, typedefs and size constants of include/lib_arisr_base.h are not part of this model.
