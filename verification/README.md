# OEM message framing, encoding and definitions: a Dafny model

The project models the part of the SDK that turns message bodies into NovAtel OEM messages and finds
such messages in a byte stream again, and the message definitions that both rest on.  Code that
changes state is written as methods, with loops, arrays and classes; each is proved against a
function of its inputs or old state, and the lemmas beside it prove what that function is for.
`dafny verify dfyconfig.toml` checks the whole project.

* **CRC** (`bits`, `lfsr`, `crc`, `crc_block`, `machine_register`, `register_run`, `zero_polynomial`,
  `oem_crc`, `crc_detection`).  The bit-serial definition of a CRC of any width, polynomial and bit order
  is polynomial division of the message as a bit stream.  The tables, the byte-wise and slice-by-8
  algorithms and the OEM Chorba algorithm compute it.  The generator is that of section 3.2.9 of
  IEEE 802.3, with initial value 0 and no final complement.  Machine integers are bit lists, so shifts
  and casts drop the bits that C++ drops.  The host is little-endian.
* **Framing** (`memory`, `fixed_buffer`, `hex`, `framing`, `arrival`, `streaming`, `candidates`, `chunking`,
  `delivery`, `framer`).  The compacting buffer, the ASCII and binary framers for both header sizes,
  `GetFrame`, and whole streams cut into any writes: when the cuts matter, and that no frame is lost.
* **Definitions** (`definitions`, `definition_objects`).  Heap trees of field definitions: deep copy
  with a ghost footprint, and equality.
* **Storage** (`alignment`, `layout`, `fields`, `values`, `field_size`, `composite_field`,
  `representation`).  Where fields are stored, how they are set and read, and the two forms of a
  FIELD_ARRAY.
* **Encoders** (`writing`, `joining`, `binary_*`, `ascii_*`, `json_*`, `abbreviated_text`, `fast_path`, `plain_layout`,
  `flat_layout`, `flat_values`, `representation_*`, `encoded_values`, `samples`).  What an encoder does is a
  script: texts, alignment gaps, overwrites and refusals.  `Ran` says that a method did what a script says, in the room there was; the scripts are
  then proved to mean what the encoders promise.
* **Messages** (`message_frames`, `oem_encoder`).  The ASCII and binary branches of `EncodeBody`, and
  that the framers take what they write.

Some places where the code does not do what one may expect are stated exactly, each as an
equivalence and with an input:

* The verdict on an ASCII frame can depend on how its bytes arrived: a search from scratch looks one
  maximum length ahead, a resumed one looks further, and an INVALID verdict is given before a `*` that
  is still to come.  It does so if and only if the stream has a gap or a late `*`
  (`Arrival.ArrivalMattersIff`); one frame shows each (`Arrival.LongFrameDependsOnChunks`,
  `Arrival.LateFrameDependsOnArrival`).
* So what an ASCII framer hands out can depend on how a stream is cut into writes, and a valid frame can
  be lost (`Chunking.LateFrameIsLost`).  It does so if and only if the stream is not robust
  (`Chunking.ChunksMatterIffNotRobust`); `Chunking.AsciiChunkIndependence` gives a condition on the bytes
  alone.
* An ASCII framer can come to a stop with a full buffer (`Delivery.AsciiWaits`,
  `Delivery.FullBufferWaits`).
* A `*` in the body of an ASCII message that is followed nine bytes later by CRLF ends the frame early
  (`Framing.AsciiFrameIsFound`, `Framing.TrailerInBody`).
* `GetFrame` hands out the bytes before a sync without regard to the stated size of the caller's
  buffer (`Framers.DiscardExceedsSize`, `Framers.TwoBytesForOne`).
* `EncodeJsonBody` of a body with an empty field list overwrites the opening brace
  (`JsonMeaning.JsonIsStructural`, `JsonMeaning.NoFields`).
* The maximum of a FIELD_ARRAY leaves the alignment gaps of its rows out, so that the length of a
  flattened log depends on the number of rows (`FlatLayout.RowCountsThatFit`,
  `FlatLayout.WithinMeansCountsFit`, `FlatLayout.SampleLogsDiffer`).  Responses are not padded and move
  what follows them (`FlatLayout.ResponseMovesFields`, `FlatLayout.ResponseMovesWord`), and a string
  over its maximum may move what follows it (`FlatLayout.OverfullEndsAt`).
* `SetArrayElement` on a fixed array checks the end of the region but not the array length
  (`FieldValues.ElementStaysInside`, `FieldValues.BehindTheArray`).

`EncodeBody` does not count the byte that the removed separator of an ASCII body leaves free
(`OemEncoder.EncodeAsciiMessage`); of a body that writes nothing it removes the last byte of the header
(`AsciiText.MessageText`).

Values that come from code outside the model are parameters: the converters of values to text
(`Fields.Formats`), the address of a buffer, and the header in front of a body.  A converter is any
function of the definition and the bytes of the value that yields a text or refuses.

## Model

| member | source | states |
|---|---|---|
| Crc.SerialCrcAbsorbs | include/novatel_edie/common/crc.hpp:41-68 | the bit-serial CRC of any width, polynomial and bit order is division of the message, as a bit stream, by the generator |
| Crc.SerialCrcConcat | include/novatel_edie/common/crc.hpp:126-127 | the CRC of A followed by B is the CRC of B started from the CRC of A |
| CrcBlock.MakeCrcTable | include/novatel_edie/common/crc.hpp:41-94 | table t of the eight holds at i the bit-serial CRC of the byte i followed by t zero bytes |
| CrcBlock.EightRounds | include/novatel_edie/common/crc.hpp:49-65 | the innermost loop runs the eight rounds of the bit-serial definition |
| CrcBlock.EntryNext | include/novatel_edie/common/crc.hpp:70-91 | the next table is the CRC of one more zero byte |
| CrcBlock.ZeroByteIndex | include/novatel_edie/common/crc.hpp:74-89 | the three ways the loop forms the next entry all feed one zero byte |
| CrcBlock.ByteByTable | include/novatel_edie/common/crc.hpp:104-121 | one table lookup does what eight bit-serial rounds do |
| CrcBlock.CalculateCharacterCrc | include/novatel_edie/common/crc.hpp:104-121 | a character changes the CRC as its eight bits do in the bit-serial definition |
| CrcBlock.SlicedIsCrc | include/novatel_edie/common/crc.hpp:134-151 | a CRC started at 0 is the sum of one table entry a byte, by its distance from the end |
| CrcBlock.InjectedBits | include/novatel_edie/common/crc.hpp:154-202 | adding the bytes of the running CRC to the block, in either order, adds its bits to the head of the stream |
| CrcBlock.SliceBy8 | include/novatel_edie/common/crc.hpp:152-206 | eight lookups on the block with the CRC added give the CRC of the block from that CRC |
| CrcBlock.CalculateBlockCrc | include/novatel_edie/common/crc.hpp:126-215 | slice-by-8 and its byte-wise rest give the bit-serial CRC of the block from any initial value |
| CrcBlock.CalculateStringCrc | include/novatel_edie/common/crc.hpp:220-225 | the string overload gives the same bit-serial CRC |
| MachineRegister.StepIsFeed | include/novatel_edie/decoders/oem/crc.hpp:35-64 | shifting a 32-bit register by one is multiplication by x modulo the generator |
| ZeroPolynomial.TopBitIdentity | include/novatel_edie/decoders/oem/crc.hpp:55-64 | x^300 = x^155 + x^117 + x^89 + 1 modulo the generator, in stream order, by staged computation |
| ZeroPolynomial.ZeroPolynomialVanishes | include/novatel_edie/decoders/oem/crc.hpp:55-69 | the same identity for every register, by linearity |
| OemCrc.SpreadIsSum | include/novatel_edie/decoders/oem/crc.hpp:85-88 | f[0..3] are the copies of a word at bit offsets 145, 183, 211 and 300, carries between words included |
| OemCrc.SpreadKeepsRemainder | include/novatel_edie/decoders/oem/crc.hpp:55-69 | those four copies leave the remainder that the word itself leaves |
| OemCrc.Chorba | include/novatel_edie/decoders/oem/crc.hpp:55-78 | a word can be removed from a message of at least five more words if its copies are added to what follows |
| OemCrc.IterationKeepsRemainder | include/novatel_edie/decoders/oem/crc.hpp:80-95 | every iteration keeps the CRC of what is left of the input with acc added to its next five words |
| OemCrc.PendingStart | include/novatel_edie/decoders/oem/crc.hpp:48-53 | acc[0] holding the initial CRC is the same as starting from that CRC |
| OemCrc.PatchedTail | include/novatel_edie/decoders/oem/crc.hpp:97-99 | with 41 to 48 bytes left the whole of acc lands inside the tail |
| OemCrc.Iterate | include/novatel_edie/decoders/oem/crc.hpp:82-94 | the assignments of one iteration, in the order of the source |
| OemCrc.CalculateBlockCrc32Chorba | include/novatel_edie/decoders/oem/crc.hpp:46-102 | Chorba returns the bit-serial CRC of the block for every block of more than 48 bytes and every initial CRC |
| OemCrc.CalculateBlockCrc32 | include/novatel_edie/decoders/oem/crc.hpp:111-115 | the dispatching function returns the bit-serial CRC, so Chorba, slice-by-8 and byte-wise agree |
| CrcDetection.TrailerIsCrc | include/novatel_edie/decoders/oem/framer_binary_base.hpp:112-114 | a little-endian trailer equals the CRC of a message just when the CRC of both together is 0 |
| CrcDetection.BurstChangesCrc | include/novatel_edie/decoders/oem/framer_binary_base.hpp:109-115 | an error burst of at most 32 consecutive bits always changes the CRC |
| FixedBuffers.FixedBuffer.constructor | include/novatel_edie/common/fixed_buffer.hpp:54-57 | an empty queue of capacity N over 2N elements |
| FixedBuffers.FixedBuffer.EraseBegin | include/novatel_edie/common/fixed_buffer.hpp:68-75 | removes the oldest elements, as many as there are; the elements erased are counted |
| FixedBuffers.FixedBuffer.CopyOut | include/novatel_edie/common/fixed_buffer.hpp:80-86 | copies the oldest elements out and changes nothing else |
| FixedBuffers.FixedBuffer.Write | include/novatel_edie/common/fixed_buffer.hpp:94-111 | appends all or nothing; contents and order survive compaction, whose regions never overlap, and elements moved plus head never exceed elements erased |
| FixedBuffers.SearchFirst | include/novatel_edie/common/fixed_buffer.hpp:113-152 | the search finds the first place at which the sequence, or a prefix of it cut by the window, stands |
| FixedBuffers.SearchChars | include/novatel_edie/common/fixed_buffer.hpp:124-152 | the memchr and memcmp loop computes that search over the logical contents |
| FixedBuffers.ReadValue | include/novatel_edie/common/fixed_buffer.hpp:169-178 | the little-endian value of the bytes at an index |
| Framing.FindSyncMeaning | include/novatel_edie/decoders/oem/framer_binary_base.hpp:71-75 | no place before the result can become a sync, and a result of 0 is a sync as far as the buffer shows |
| Framing.FindSyncIsExact | include/novatel_edie/decoders/oem/framer_binary_base.hpp:71-75 | the result is the first place in the first 256 bytes where the buffer agrees with the sync bytes as far as these show it, or their end |
| Framing.DiscardsHoldNoSync | include/novatel_edie/decoders/oem/framer_binary_base.hpp:71-75 | no sync starts in a discarded byte, not even one that later bytes complete |
| Framing.ZeroIsSync | include/novatel_edie/decoders/oem/framer_binary_base.hpp:71-75 | with as many bytes as a sync has, a result of 0 sits on a true sync |
| Framing.DelimiterMeaning | include/novatel_edie/decoders/oem/framer_ascii_base.hpp:85-89 | the loop stops at the first * whose trailer is not complete or is closed by CRLF |
| Framing.RejectedMeans | include/novatel_edie/decoders/oem/framer_ascii_base.hpp:124-140 | what is passed over is a * with ten bytes behind it, of which the last two are not CRLF |
| Framing.IncompleteIsClean | include/novatel_edie/decoders/oem/framer_ascii_base.hpp:91-96 | an INCOMPLETE verdict resumes at an index before which every * has been rejected |
| Framing.ResumeIsScratch | include/novatel_edie/decoders/oem/framer_ascii_base.hpp:79-98 | resuming after such an index gives the verdict of a search from the start, unless that one is INVALID |
| Framing.CompleteIsStable | include/novatel_edie/decoders/oem/framer_ascii_base.hpp:79-98 | a COMPLETE verdict is unchanged by any further bytes |
| Framing.ChunksDoNotMatter | include/novatel_edie/decoders/oem/framer_ascii_base.hpp:79-98 | over any sequence of writes, searches resumed from each INCOMPLETE verdict end with the verdict from scratch, unless that one is INVALID |
| Framing.ShortIsNotInvalid | include/novatel_edie/decoders/oem/framer_ascii_base.hpp:91-95 | below the maximum message length there is no INVALID verdict |
| Arrival.ChunksMatterIffGap | include/novatel_edie/decoders/oem/framer_ascii_base.hpp:79-98 | a step to the next: however the stream is cut, the verdict at which resumed searches stop is that of a search from scratch over the same bytes, if and only if the stream has no gap, which is a clean prefix (empty, or with its last trailer below the maximum length) whose next * is a maximum length or more behind it and before twice that length |
| Arrival.ArrivalMattersIff | include/novatel_edie/decoders/oem/framer_ascii_base.hpp:79-98 | for every ASCII framer and every stream: however the stream arrives, searches end with the verdict of one search over all of it, if and only if it has no gap and no late *, which is the next * behind a clean prefix that a search crosses, a maximum length or more into the stream but less than that behind the prefix |
| Arrival.LateStarShows | include/novatel_edie/decoders/oem/framer_ascii_base.hpp:85-95 | a late * shows with two cuts, before and behind it: INVALID, and INCOMPLETE at the * |
| Arrival.GapShows | include/novatel_edie/decoders/oem/framer_ascii_base.hpp:85-95 | a gap shows with two cuts, one below the maximum length and one behind the far *: INVALID from scratch, INCOMPLETE at the * when resumed |
| Arrival.LongFrameDependsOnChunks | include/novatel_edie/decoders/oem/framer_ascii_base.hpp:85-95 | the shortest gap: a frame with its * at the maximum length is INVALID at once and COMPLETE when its first byte came alone |
| Arrival.LateFrameDependsOnArrival | include/novatel_edie/decoders/oem/framer_ascii_base.hpp:85-95 | the shortest late *: a frame with no gap is COMPLETE at once, and INVALID when a maximum length of it was searched before the rest |
| Framing.BinaryIsStable | include/novatel_edie/decoders/oem/framer_binary_base.hpp:85-100 | a binary verdict that is not INCOMPLETE is unchanged by any further bytes |
| Framing.ValidateIsStable | include/novatel_edie/decoders/oem/framer_ascii_base.hpp:107-117 | validation of a frame does not depend on the bytes behind it |
| Framing.BinaryValidIffZeroCrc | include/novatel_edie/decoders/oem/framer_binary_base.hpp:109-115 | a binary frame is valid if and only if the CRC of the whole frame with its trailer is 0 |
| Framing.BurstIsRejected | include/novatel_edie/decoders/oem/framer_binary_base.hpp:109-115 | a valid binary frame altered by a burst of at most 32 bits is rejected |
| Framing.BinaryFrameIsValid | include/novatel_edie/decoders/oem/framer_binary_base.hpp:109-115 | a message followed by its little-endian CRC is valid |
| Framing.AsciiFrameIsFound | include/novatel_edie/decoders/oem/framer_ascii_base.hpp:79-98 | sync, body, *, eight hex digits and CRLF are found at exactly their length whatever follows, if and only if the body has no false trailer |
| Framing.TrailerInBody | include/novatel_edie/decoders/oem/framer_ascii_base.hpp:85-98 | of a frame of 23 bytes whose body looks like a trailer, 12 are found |
| Framing.AsciiFrameIsValid | include/novatel_edie/decoders/oem/framer_ascii_base.hpp:107-117 | and the frame is valid |
| Framing.AsciiValidIffCrc | include/novatel_edie/decoders/oem/framer_ascii_base.hpp:107-117 | with any eight characters as its trailer, a frame is valid if and only if these, read as a number, are the CRC of its body; if they are digits, if and only if the number they spell is; otherwise it loses its sync byte |
| Framing.AsciiBurstIsRejected | include/novatel_edie/decoders/oem/framer_ascii_base.hpp:107-117 | a valid ASCII frame whose body is altered by a burst of at most 32 bits is rejected |
| Framing.WrongCrcIsRejected | include/novatel_edie/decoders/oem/framer_ascii_base.hpp:107-117 | a frame of 13 bytes with the body A and a trailer of zeros is rejected |
| Hex.HexRoundTrip | include/novatel_edie/decoders/common/encoder.hpp:117-144 | eight zero-padded hex digits of a 32-bit value are read back by from_chars as that value |
| Hex.DigitIsLowerCase | include/novatel_edie/decoders/common/encoder.hpp:117-144 | the digits are 0 to 9 and a to f |
| Hex.NoLeadingZero | include/novatel_edie/decoders/common/encoder.hpp:117-144 | a number is converted without leading zeros |
| Hex.DigitMeaning | include/novatel_edie/decoders/oem/framer_ascii_base.hpp:113 | these characters, and A to F, are the digits that are read, each as its place |
| Hex.EightCharacters | include/novatel_edie/decoders/oem/framer_ascii_base.hpp:113 | eight characters are read as the number of the digits that they begin with, if there is one |
| Streaming.DecisionBounds | src/decoders/common/src/framer.cpp:31-88 | every outcome of a call removes or asks for a number of bytes that is there |
| Streaming.PumpConserves | src/decoders/common/src/framer.cpp:31-88 | frames and unknown bytes handed out, in order, and what is left in the buffer are the input |
| Streaming.ChunkIndependence | src/decoders/common/src/framer.cpp:47-87 | a stream cut into any writes gives the same frames and unknown bytes, if no verdict on the way is INVALID for length |
| Streaming.BinaryChunkIndependence | src/decoders/common/src/framer.cpp:47-87 | for the binary framers the same without condition |
| Candidates.CalmRun | src/decoders/common/src/framer.cpp:53-87 | a candidate ends as it does when it arrives at once, however at least `least` bytes of it arrive first, if each late * behind these, and each gap not yet crossed, belongs to a candidate that is thrown away in any case |
| Chunking.ChunksMatterIffNotRobust | src/decoders/common/src/framer.cpp:47-87 | for every ASCII framer and every stream: it gives the same frames, unknown bytes, leftover and resume index however it is cut into writes, if and only if every candidate that the run looks at is calm, with the bytes that are sure to have arrived when it is looked at |
| Chunking.LateFrameIsLost | src/decoders/common/src/framer.cpp:53-87 | a valid frame that is taken when it arrives at once, and thrown away when a maximum length of it arrives first |
| Chunking.LongFrameIsTaken | src/decoders/common/src/framer.cpp:53-87 | a valid frame that is thrown away when it arrives at once, and taken when its first byte arrives first |
| Chunking.AsciiChunkIndependence | src/decoders/common/src/framer.cpp:47-87 | so for the ASCII framers the chunks do not matter in every stream, of any length, in which each maximum length of bytes that begins with a sync byte holds a * whose trailer is closed or cut off by the end |
| Chunking.ShortChunkIndependence | src/decoders/common/src/framer.cpp:47-87 | so for every stream shorter than a maximal message |
| Delivery.NoFrameIsLost | src/decoders/common/src/framer.cpp:47-87 | for a valid frame at any offset of a stream, the run takes it, or takes a frame over it that starts before it; only a binary framer may still wait at an offset before it, for less than a header or a maximal message |
| Delivery.NoFrameIsLostInChunks | src/decoders/common/src/framer.cpp:47-87 | the same for a stream that arrives in any chunks, if it is robust where the framer is an ASCII one |
| Delivery.FramersAreApart | include/novatel_edie/decoders/oem/framer_binary_base.hpp:71-75 | the syncs of the four framers do not overlap themselves, as the two theorems before need |
| Delivery.AsciiWaits | include/novatel_edie/decoders/oem/framer_ascii_base.hpp:85-97 | with a maximum length buffered, an ASCII framer waits at a * if and only if a search comes to it and its trailer is cut off by the end of the buffer |
| Delivery.BinaryWaits | include/novatel_edie/decoders/oem/framer_binary_base.hpp:85-100 | a binary framer waits if and only if the header or the message that its length field announces is not complete; so never with both a header and a maximal message buffered |
| Delivery.WaitRepeats | src/decoders/common/src/framer.cpp:64-77 | a call that waits changes nothing about the decision of the next |
| Delivery.FullBufferWaits | include/novatel_edie/decoders/oem/framer_ascii_base.hpp:85-97 | with a sync and nothing but * in a buffer of any capacity above eleven, an ASCII framer waits at each call, and there is no room to write more |
| Streaming.NoSyncIsSkipped | include/novatel_edie/decoders/common/framer.hpp:164-175 | over any interleaving of writes and discards, no sync of the stream starts in a discarded byte |
| Streaming.ScanProgresses | include/novatel_edie/decoders/common/framer.hpp:164-175 | each discard step removes a byte or finds the buffer at a true sync |
| Framers.Framer.FindSyncIndex | include/novatel_edie/decoders/oem/framer_binary_base.hpp:71-75 | the search over the buffer object computes the specified FindSync |
| Framers.Framer.FindAsciiFrameEnd | include/novatel_edie/decoders/oem/framer_ascii_base.hpp:79-98 | the loop over the buffer object computes the specified verdict |
| Framers.Framer.FindBinaryFrameEnd | include/novatel_edie/decoders/oem/framer_binary_base.hpp:85-100 | the length field read from the buffer object gives the specified verdict |
| Framers.Framer.ValidateFrame | include/novatel_edie/decoders/oem/framer_ascii_base.hpp:107-117 | validation over the buffer object, with the table-driven CRC |
| Framers.Framer.HandleUnknownBytes | include/novatel_edie/decoders/common/framer.hpp:164-175 | hands out and removes the oldest bytes, leaves the rest of the caller's buffer alone, and resets the resume index |
| Framers.Framer.Write | include/novatel_edie/decoders/common/framer.hpp:256 | appends to the stream; the resume index stays valid |
| Framers.Framer.Flush | include/novatel_edie/decoders/common/framer.hpp:266-271 | empties the buffer into the caller's as far as that has room; the resume index is 0 then, and kept if nothing was there |
| Framers.Framer.GetFrame | src/decoders/common/src/framer.cpp:31-88 | buffer, resume index, status, every field of the metadata and the whole of the caller's buffer are those of the specified decision; that buffer needs the stated size, and room for the bytes before the next sync where these are reported |
| Framers.TwoBytesForOne | src/decoders/common/src/framer.cpp:40-51 | two zero bytes are handed out into a buffer that is said to hold one |
| Framers.DiscardExceedsSize | src/decoders/common/src/framer.cpp:40-51 | a call removes more bytes than the stated size if and only if no search is being resumed and more than that stand before the next sync |
| Definitions.FieldEqualIsKeyEqual | include/novatel_edie/decoders/common/message_database.hpp:340 | equality of field definitions is equality of the data that every subclass compares, over recursive trees |
| Definitions.MessageEqualIsKeyEqual | include/novatel_edie/decoders/common/message_database.hpp:616-644 | equality of message definitions likewise, the one-sided map check included |
| Definitions.MessageEqualIsEquivalence | include/novatel_edie/decoders/common/message_database.hpp:616-644 | definition equality is reflexive, symmetric and transitive |
| Definitions.SizeComparisonIsNeeded | include/novatel_edie/decoders/common/message_database.hpp:618-626 | without the size comparison the map check is not symmetric |
| Definitions.CachesDoNotMatter | include/novatel_edie/decoders/common/message_database.hpp:330-340 | replacing every cache of a tree, at any depth, leaves it equal |
| DefinitionObjects.Field.Clone | include/novatel_edie/decoders/common/message_database.hpp:552-557 | the copy of a field shares no object with it and has the same value |
| DefinitionObjects.FieldInfo.Clone | include/novatel_edie/decoders/common/message_database.hpp:502-510 | the same for a field list |
| DefinitionObjects.Field.Equals | include/novatel_edie/decoders/common/message_database.hpp:340 | the recursive comparison decides the specified equality |
| DefinitionObjects.FieldInfo.SlotsEqual | include/novatel_edie/decoders/common/message_database.hpp:567-575 | the loop over two field lists decides their equality, nulls included |
| DefinitionObjects.MessageDefinition.Copy | include/novatel_edie/decoders/common/message_database.hpp:664-668 | the copy compares equal to its source and shares no field or FieldInfo object with it |
| DefinitionObjects.MessageDefinition.Assign | include/novatel_edie/decoders/common/message_database.hpp:670-681 | the same for assignment; self-assignment changes nothing |
| DefinitionObjects.MessageDefinition.Equals | include/novatel_edie/decoders/common/message_database.hpp:616-644 | the comparison of objects decides the specified equality |
| Alignment.AlignmentIsLeast | include/novatel_edie/decoders/oem/common.hpp:132-137 | the least number of bytes that reaches a multiple of the size, or of four for sizes of four and more |
| Layouts.BuildFieldInfo | src/decoders/common/src/message_database.cpp:186-239 | each fixed field at the first aligned offset, each variable field in the next slot |
| Layouts.LaidFieldsAreDisjoint | src/decoders/common/src/message_database.cpp:202-232 | fixed fields are at multiples of their size, or of four, inside the region and disjoint; variable slots are distinct |
| Layouts.LaidFieldsAreTight | src/decoders/common/src/message_database.cpp:202-232 | a fixed field is at the least multiple of its size, or of four, behind the fixed field before it |
| Layouts.FirstFieldIsAtStart | src/decoders/common/src/message_database.cpp:202-232 | the first fixed field is at offset 0 |
| Layouts.SlotsInOrder | src/decoders/common/src/message_database.cpp:202-232 | each variable field has the slot behind that of the variable field before it |
| Layouts.FirstSlotIsZero | src/decoders/common/src/message_database.cpp:202-232 | the first variable field has slot 0 |
| Layouts.NothingBehindLast | src/decoders/common/src/message_database.cpp:202-232 | the region ends with the last fixed field, and the slots with that of the last variable field |
| Layouts.ByteAndShort | src/decoders/common/src/message_database.cpp:202-232 | a byte and a 16-bit value are at offsets 0 and 2, and take four bytes |
| Layouts.PackedLacksGaps | include/novatel_edie/decoders/common/message_database.hpp:533-549 | the size the database gives a row is the stored size less the alignment gaps |
| CompositeFields.FixedFieldRegion.SetFieldValue | include/novatel_edie/decoders/common/message_decoder.hpp:278-284 | stores the bytes, or throws exactly when they pass the end |
| CompositeFields.FixedFieldRegion.Load | include/novatel_edie/decoders/common/message_decoder.hpp:261-267 | the bytes at an offset, for a region of its own and for a view |
| CompositeFields.CompositeField.Resize | include/novatel_edie/decoders/common/message_decoder.hpp:856-860 | the whole new state: both lists cut or filled up, in memory of its own |
| CompositeFields.CompositeField.ViewFixedFields | include/novatel_edie/decoders/common/message_decoder.hpp:779-782 | a row of a flat array seen as a body without a copy |
| CompositeFields.CompositeField.SetScalar | include/novatel_edie/decoders/common/message_decoder.hpp:1215-1246 | the whole new state of a scalar set |
| CompositeFields.CompositeField.SetVar | include/novatel_edie/decoders/common/message_decoder.hpp:1222-1239 | the whole new state of a variable field set |
| CompositeFields.CompositeField.SetFixedElement | include/novatel_edie/decoders/common/message_decoder.hpp:1264-1268 | the whole new state of an element set; the region is checked, the array length is not |
| CompositeFields.CompositeField.SetVarElement | include/novatel_edie/decoders/common/message_decoder.hpp:1269-1287 | the whole new state of an element set in a vector, and when it throws |
| CompositeFields.CompositeField.WriteFieldToBuffer | include/novatel_edie/decoders/common/message_decoder.hpp:1300-1374 | emits exactly GetFieldByteSize bytes, those of the field, when they fit, and nothing otherwise |
| CompositeFields.VarElementReadsBack | include/novatel_edie/decoders/common/message_decoder.hpp:1276-1282 | an element set in a vector is what the get returns; the others are as before |
| FieldValues.ScalarReadsBack | include/novatel_edie/decoders/common/message_decoder.hpp:349-357 | a scalar set is what the matching get returns |
| FieldValues.ElementReadsBack | include/novatel_edie/decoders/common/message_decoder.hpp:409-439 | an element set in a fixed array is what the get returns; the others are as before |
| FieldValues.OtherFieldsUnchanged | include/novatel_edie/decoders/common/message_decoder.hpp:882-937 | in storage laid out by BuildFieldInfo a store in one field leaves every other field as it was |
| FieldValues.OtherSlotsUnchanged | include/novatel_edie/decoders/common/message_decoder.hpp:882-937 | the same for a store of a variable field |
| FieldValues.ElementStaysInside | include/novatel_edie/decoders/common/message_decoder.hpp:1264-1268 | an element store stays inside its field if and only if the field has room for that many elements of the stored size; that is the array length where stored and logged size agree |
| FieldValues.OverlapIsSeen | include/novatel_edie/decoders/common/message_decoder.hpp:278-284 | a store that puts another byte anywhere in a fixed field changes what is read from that field |
| FieldValues.BehindTheArray | include/novatel_edie/decoders/common/message_decoder.hpp:1260-1264 | of two 32-bit BOOLs with a word behind them, elements 2 to 7 are accepted and harmless, and element 8 changes the word |
| FieldValues.ResizeKeepsFields | include/novatel_edie/decoders/common/message_decoder.hpp:856-860 | a resize keeps every field that is within the old and the new size |
| FieldValues.ResizeFills | include/novatel_edie/decoders/common/message_decoder.hpp:856-860 | bytes behind the old size read as zeros, and slots behind the old count are unset |
| FieldValues.RowsReadAlike | include/novatel_edie/decoders/common/message_decoder.hpp:1417-1436 | a field of a row reads the same through FieldArray, flat or composite, or throws in both |
| FieldValues.RowIsViewed | include/novatel_edie/decoders/common/encoder.hpp:787-811 | row i that the encoders see reads as row i through FieldArray, in both forms, and there are as many |
| FieldValues.CompositeRowIsRow | include/novatel_edie/decoders/common/encoder.hpp:787-797 | a composite row is seen as it is |
| FieldValues.ElementIsRead | include/novatel_edie/decoders/common/message_decoder.hpp:406-432 | what the encoders take for element i is what GetFieldValue gives |
| FieldValues.NoElementBehind | include/novatel_edie/decoders/common/message_decoder.hpp:406-432 | and they take all the elements that it gives |
| FieldValues.ScalarIsRead | include/novatel_edie/decoders/common/message_decoder.hpp:349-357 | the same for a scalar |
| FieldValues.ShownMeaning | include/novatel_edie/decoders/common/encoder.hpp:554-559 | the text of a character array ends at the first element that reads as zero; of other arrays, all elements are written |
| FieldValues.ThrowsIff | include/novatel_edie/decoders/common/message_decoder.hpp:882-933 | a read throws if and only if the field does not hold what is asked for, for every kind of field and request |
| FieldValues.VarReadsBack | include/novatel_edie/decoders/common/message_decoder.hpp:1222-1239 | a string, a vector or a field array that is set is what the get returns |
| EncodedValues.ArrayTokenAt | include/novatel_edie/decoders/common/encoder.hpp:539-567 | token i of an array in ASCII is the conversion of what GetFieldValue gives for element i |
| EncodedValues.JsonItemAt | include/novatel_edie/decoders/common/encoder.hpp:720-754 | item i of an array in JSON likewise |
| EncodedValues.ScalarText | include/novatel_edie/decoders/common/encoder.hpp:521-575 | the token and the JSON value of a scalar or enumerator likewise |
| EncodedValues.BytesAreRead | include/novatel_edie/decoders/common/encoder.hpp:447-452 | what the binary encoder copies of a fixed field is what is read from the whole of it |
| EncodedValues.TextsAfterSet | include/novatel_edie/decoders/common/encoder.hpp:539-567 | after element k of a fixed array is set, its text is the conversion of what was set, and the others are as before |
| EncodedValues.VectorTextsAfterSet | include/novatel_edie/decoders/common/encoder.hpp:539-567 | the same for a vector |
| EncodedValues.FirstElementFirst | include/novatel_edie/decoders/common/encoder.hpp:539-567 | the bytes 1 and 2 are two tokens, that of 1 first |
| FieldSizes.GetFieldByteSize | include/novatel_edie/decoders/common/message_decoder.hpp:995-1040 | the nested loops compute the specified size |
| FieldSizes.WritesByteSize | include/novatel_edie/decoders/common/message_decoder.hpp:1300-1350 | WriteFieldToBuffer writes as many bytes as GetFieldByteSize says |
| FieldSizes.SizeIgnoresRepresentation | include/novatel_edie/decoders/common/message_decoder.hpp:995-1040 | both forms of a FIELD_ARRAY have the same size, at any depth |
| FieldSizes.ArraySizeAdds | include/novatel_edie/decoders/common/message_decoder.hpp:1015-1030 | rows one behind the other take the sum of their sizes, and none take nothing |
| FieldSizes.OneRowSize | include/novatel_edie/decoders/common/message_decoder.hpp:1015-1030 | one row takes the size of its fields, or of its fixed region if there are no others |
| FieldSizes.BodySizeAdds | include/novatel_edie/decoders/common/message_decoder.hpp:1020-1027 | fields one behind the other take the sum of their sizes, and one takes its own |
| FieldSizes.TwoRowsTakeFive | include/novatel_edie/decoders/common/message_decoder.hpp:1020-1027 | two rows with three and two bytes in vectors take five |
| Representation.FlatFormHoldsRows | include/novatel_edie/decoders/common/message_decoder.hpp:501-541 | every list of fixed rows has a flat form |
| RepresentationBinary.BinaryIgnoresRepresentation | include/novatel_edie/decoders/common/encoder.hpp:370-444 | the binary encoder, flattened or not, succeeds in the same room with the same bytes for both forms |
| RepresentationAscii.AsciiIgnoresRepresentation | include/novatel_edie/decoders/common/encoder.hpp:634-669 | the ASCII encoder takes the same steps for both forms |
| RepresentationJson.JsonIgnoresRepresentation | include/novatel_edie/decoders/common/encoder.hpp:787-818 | the JSON encoder takes the same steps for both forms |
| Writing.Writer.WriteHexToBuffer | include/novatel_edie/decoders/common/encoder.hpp:117-144 | the padded digits, if there is room for the larger of width and all digits |
| Writing.HexIsWritten | include/novatel_edie/decoders/common/encoder.hpp:117-144 | which are the digits with zeros before them up to the width, and fit if and only if the width and all digits of the type do |
| Writing.Writer.CopyToBuffer | include/novatel_edie/decoders/common/encoder.hpp:184-227 | the text or nothing; advanced plus left stays the capacity and nothing outside the window changes |
| Writing.Writer.CopyAllToBuffer | include/novatel_edie/decoders/common/encoder.hpp:230-253 | each text in turn until one does not fit |
| Writing.Writer.SetInBuffer | include/novatel_edie/decoders/common/encoder.hpp:172-181 | n copies of a byte or nothing |
| Writing.MoreRoomSameOutput | include/novatel_edie/decoders/common/encoder.hpp:103-272 | what succeeds in some capacity succeeds in every larger one with the same output |
| JsonEncoder.EncodeJsonBody | include/novatel_edie/decoders/common/encoder.hpp:765-844 | success, output and room left are those of the specified steps, with the window kept |
| JsonEncoder.EncodeJsonField | include/novatel_edie/decoders/common/encoder.hpp:702-763 | the same for one member: the label, then the value |
| JsonEncoder.EncodeElements | include/novatel_edie/decoders/common/encoder.hpp:729-744 | the element loop, with its early end at a terminating zero |
| JsonMeaning.BodyWrote | include/novatel_edie/decoders/common/encoder.hpp:765-844 | at any depth, the steps write the joined members in braces, one byte short for each body with no field |
| JsonMeaning.FieldArrayWrote | include/novatel_edie/decoders/common/encoder.hpp:775-823 | a FIELD_ARRAY is written as its rows joined by commas in brackets |
| JsonMeaning.ArrayWrote | include/novatel_edie/decoders/common/encoder.hpp:720-754 | an array is written as its elements joined by commas in brackets, or as one string |
| JsonMeaning.JsonIsStructural | include/novatel_edie/decoders/common/encoder.hpp:765-844 | a successful run writes the structural form, and overwrites only commas, if and only if no body it meets has an empty field list |
| JsonMeaning.ListedBodies | include/novatel_edie/decoders/common/encoder.hpp:768-770 | definitions with no empty field list meet that condition for every body |
| BinaryEncoder.EncodeBinaryBody | include/novatel_edie/decoders/common/encoder.hpp:330-456 | success, output with skipped gaps, and room left are those of the specified steps, with the window kept |
| BinaryEncoder.AlignPtr | include/novatel_edie/decoders/common/encoder.hpp:334-341 | skips the alignment gap if there is room |
| BinaryEncoder.EncodeVar | include/novatel_edie/decoders/common/encoder.hpp:370-444 | length prefix, elements, zero fill and padding of a variable field |
| BinaryEncoder.WriteLength | include/novatel_edie/decoders/common/encoder.hpp:391-411 | the count in 1, 2 or 4 bytes, truncated, unless another field holds it |
| BinaryEncoder.FillZero | include/novatel_edie/decoders/common/encoder.hpp:434-439 | the 32-bit arithmetic of the zero fill |
| BinaryEncoder.AddStringFieldPadding | include/novatel_edie/decoders/oem/encoder.hpp:64-68 | one to four zeros up to a multiple of four |
| PlainLayout.PlainVarOutput | include/novatel_edie/decoders/common/encoder.hpp:370-444 | a variable field of a plain log is its alignment gap, its count, its elements, and nothing more but the zeros of a string |
| PlainLayout.PrefixOutput | include/novatel_edie/decoders/common/encoder.hpp:391-411 | the count is aligned, has the width of its field, and reads back modulo that width |
| PlainLayout.PlainFixedOutput | include/novatel_edie/decoders/common/encoder.hpp:447-452 | a fixed field or a response of a plain log is its alignment gap and its bytes |
| PlainLayout.PlainFieldAt | include/novatel_edie/decoders/common/encoder.hpp:355-452 | each field of a plain log stands where those before it end |
| PlainLayout.PlainBodyEnds | include/novatel_edie/decoders/common/encoder.hpp:330-456 | a plain body ends where its fields and the rows of its arrays end, at any depth |
| PlainLayout.VectorEnd | include/novatel_edie/decoders/common/encoder.hpp:413-439 | a vector takes its count times the size of an element |
| PlainLayout.ElementsAreStored | include/novatel_edie/decoders/common/encoder.hpp:413-432 | the elements of a variable field are the bytes stored, in both forms of log |
| PlainLayout.PlainSizeFollowsFromCounts | include/novatel_edie/decoders/common/encoder.hpp:330-456 | plain bodies with the same counts, at any depth, take the same number of bytes at addresses equal modulo four |
| PlainLayout.ElementInPayload | include/novatel_edie/decoders/common/encoder.hpp:413-439 | element i of a vector is at i times its size behind the first |
| PlainLayout.PlainWord | include/novatel_edie/decoders/common/encoder.hpp:434-439 | with one of at most three words a plain log has eight bytes, the count and the word |
| FastPath.FastPathIsFieldLoop | include/novatel_edie/decoders/common/encoder.hpp:343-351 | the single copy of an all-fixed message succeeds when the field loop would and writes the same bytes, but for the skipped gaps |
| FlatLayout.FieldEndsAt | include/novatel_edie/decoders/common/encoder.hpp:355-452 | a flattened field ends where its definition and, for a response, the length of its text say; a filled array that is not a string if and only if it emits no more than its maximum; and every variable field behind its elements, its zero fill and its padding |
| FlatLayout.OverfullEndsAt | include/novatel_edie/decoders/common/encoder.hpp:413-439 | a field that emits more than its maximum is not filled; only a string may then end where its definition says, which it does if and only if the next multiple of four is the same |
| FlatLayout.OffsetsAreFixed | include/novatel_edie/decoders/common/encoder.hpp:355-452 | the address of every top-level field of a flattened log follows from the definitions and the lengths of responses |
| FlatLayout.FlattenedIsDataIndependent | include/novatel_edie/decoders/common/encoder.hpp:330-456 | two flattened logs of one message at addresses equal modulo four, with responses of equal lengths, have the same length and field offsets |
| FlatLayout.ResponseMovesFields | include/novatel_edie/decoders/common/encoder.hpp:447-452 | what follows a response moves if and only if the two texts differ in length |
| FlatLayout.ResponseMovesWord | include/novatel_edie/decoders/common/encoder.hpp:447-452 | a response of one character and a word take 8 bytes, and one of five characters and the word 12 |
| FlatLayout.OverfullLogIsLonger | include/novatel_edie/decoders/common/encoder.hpp:413-439 | a log whose last array emits more than its maximum is longer than every log of the message that stays within |
| FlatLayout.SimpleArraysStayWithin | include/novatel_edie/decoders/common/encoder.hpp:385-389 | strings and simple arrays stay within their maximum if and only if they have at most arrayLength elements |
| FlatLayout.RowsStayWithin | include/novatel_edie/decoders/common/encoder.hpp:413-439 | a FIELD_ARRAY of n fixed rows, flat or composite, emits n times the stored row size, gaps included |
| FlatLayout.RowCountsThatFit | src/decoders/common/src/json_db_reader.cpp:184-186 | every count up to arrayLength stays within the maximum if and only if the rows have no alignment gap; without gaps, no other count does |
| FlatLayout.WithinMeansCountsFit | include/novatel_edie/decoders/common/encoder.hpp:413-439 | a flattened body has its defined layout if and only if the element count of each variable field fits |
| FlatLayout.SampleLogsDiffer | include/novatel_edie/decoders/common/encoder.hpp:413-439 | a message of one array of at most one row of a byte and a word has a flattened log of 12 bytes with the row and of 9 without |
| FlatLayout.SampleRowHasGap | src/decoders/common/src/json_db_reader.cpp:184-186 | that row has three bytes of gap, and a database size of five |
| FlatLayout.FullArrayStaysWithin | src/decoders/common/src/json_db_reader.cpp:184-186 | a full FIELD_ARRAY of fixed rows, flat or composite, stays within its maximum if and only if its rows have no alignment gap |
| FlatLayout.GapsMakeLogsLonger | include/novatel_edie/decoders/common/message_database.hpp:533-549 | so with gaps a full array makes the log longer than the definitions say |
| FlatValues.FlattenedFixedFieldAt | include/novatel_edie/decoders/common/encoder.hpp:447-452 | every fixed field is in the flattened log at the place its definition gives it |
| FlatValues.FlattenedArrayAt | include/novatel_edie/decoders/common/encoder.hpp:413-439 | the elements of every array, in either form, are at the place the definitions give them, zero filled to the maximum |
| FlatValues.ElementCellsAre | include/novatel_edie/decoders/common/encoder.hpp:413-439 | those elements are the bytes stored, or those of the fixed rows one behind the other |
| AsciiEncoder.EncodeAsciiBody | include/novatel_edie/decoders/common/encoder.hpp:578-700 | success, output and room left are those of the specified steps, in full or abbreviated form |
| AsciiEncoder.EncodeAsciiField | include/novatel_edie/decoders/common/encoder.hpp:521-575 | the same for one field |
| AsciiEncoder.EncodeFields | include/novatel_edie/decoders/common/encoder.hpp:594-698 | a new line is begun exactly before the field that follows a FIELD_ARRAY |
| AsciiMeaning.BodyEndsWithSeparator | include/novatel_edie/decoders/common/encoder.hpp:578-700 | a body is one text that is empty or ends with a separator; an abbreviated one is not empty |
| AsciiText.BodyText | include/novatel_edie/decoders/common/encoder.hpp:578-700 | a body in full form is its tokens in order, counts of arrays among them, with a comma behind each |
| AsciiText.ArrayText | include/novatel_edie/decoders/common/encoder.hpp:539-567 | in both forms an array is a count if variable, then one token an element, or one token in all where elements are not separated |
| AsciiText.MessageText | src/decoders/oem/src/encoder.cpp:556-560 | header and body less the last byte are the header and the tokens joined by commas; of a body with no token, the header loses its last byte |
| AsciiText.PlainFieldText | include/novatel_edie/decoders/common/encoder.hpp:578-700 | in both forms a field that is no FIELD_ARRAY is its tokens, with a comma or a space behind each |
| AbbreviatedText.BodyText | include/novatel_edie/decoders/common/encoder.hpp:578-700 | an abbreviated body is its lines with CRLF between: the rows of an array one level deeper behind the line that ends with its count, or an empty line, and a new line before the field that follows |
| AbbreviatedText.LineStart | include/novatel_edie/decoders/common/encoder.hpp:580-610 | a line begins with < and five spaces for each level |
| Samples.InAscii | include/novatel_edie/decoders/common/encoder.hpp:578-700 | a message of a number 7 and two rows with the numbers 1 and 2 is the tokens 7, 2, 1, 2 |
| Samples.InAbbreviatedAscii | include/novatel_edie/decoders/common/encoder.hpp:578-700 | the same message abbreviated: 7 and the count 2 on one line, then a line for each row, one level deeper |
| Samples.InJson | include/novatel_edie/decoders/common/encoder.hpp:765-844 | the same message in JSON: the number, and an array of two objects, with their names |
| Samples.ObjectText | include/novatel_edie/decoders/common/encoder.hpp:765-844 | the text of an object with a number and an array with one object, byte by byte |
| OemEncoder.EncodeAsciiMessage | src/decoders/oem/src/encoder.cpp:554-563 | the message is the ASCII frame of header and body less the last separator; when it fits |
| OemEncoder.EncodeBinaryMessage | src/decoders/oem/src/encoder.cpp:572-600 | the message is the header with the length of the body, the body, and the CRC of both, when it fits; nothing outside header and window changes |
| OemEncoder.StoreLength | src/decoders/oem/src/encoder.cpp:585-594 | the length field, truncated to its width |
| OemEncoder.EncodedIsTaken | src/decoders/oem/src/encoder.cpp:576-600 | a framer that meets an encoded binary message takes exactly that message, whatever follows |
| OemEncoder.EncodedIsNotLost | src/decoders/oem/src/encoder.cpp:576-600 | and wherever it stands in a stream, it is taken, or overlapped by a frame from before it, or something before it is still waited for, less than a maximal message long |
| MessageFrames.AsciiMessageIsNotLost | src/decoders/oem/src/encoder.cpp:554-563 | an ASCII message without a false trailer is taken, or overlapped by a frame from before it, wherever it stands |
| MessageFrames.AsciiMessageIsTaken | src/decoders/oem/src/encoder.cpp:554-563 | the same for an ASCII message without a false trailer |
| MessageFrames.LengthReadsBack | include/novatel_edie/decoders/oem/framer_binary_base.hpp:95-96 | the length field is read back modulo its width |

## Left out

- FramerManager, the abbreviated ASCII, NMEA and SPAN framers, the metadata-only mode of GetFrame, and buffers of 4 GiB or more, where GetFrame truncates indices to 32 bits.
- The decoders, header encoding and decoding, range decompression, filters and the parsing of the JSON database: so there is no encode and decode round trip.
- Runs over chunks with a buffer too small for them: `Streaming.RunChunks` takes each write to succeed; what a full buffer does is in `Framers.Framer.Write` and `Delivery.FullBufferWaits`.
- Floating-point formatting, decimal formatting and the field maps: their texts are an opaque function of the value.
- Escaping of quotes in JSON strings, which the code does not do: a string is the bytes of the field between quotes.
- Exceptions: the conditions that throw are preconditions, except in `CompositeFields`, `FieldValues` and `FixedFieldRegion`, where the result says that the code throws.
- RESPONSE_ID fields in EncodeJsonBody, for which the code throws.
- Dynamic casts that fail because a definition object has the wrong class: a definition is one record with the fields of every class; a missing FieldInfo is modelled.
- What std::to_chars leaves in the window beyond the bytes it returns, when it fails.
- Wrap-around of `size_t` sums in bounds checks, and of the 32-bit product that gives a FIELD_ARRAY its maximum: `FlatLayout.FixedRows` takes the product as exact.
- The default alignment function and the default string padding, which do nothing: the binary encoder is modelled with those of the OEM family.
- BITFIELD and RXCONFIG field types, which no modelled encoder supports.
- Encoders over heap objects: the bodies and definitions they read are values; only the output buffer is mutable state.
- FieldInfo and field objects shared within one definition: the footprint of a definition is a tree.
