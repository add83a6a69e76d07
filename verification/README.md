# EUP: framing, commands and streams

A Dafny model of the Embedded Unified Protocol stack, from the byte stuffing up
to a remote call, with proofs that each layer means what it should and that the
layers compose.

| module | models |
|---|---|
| `Cobs` | `cobs_encode` with its back-patched code byte, `cobs_decode`, and the recursive block functions they refine |
| `Gf2`, `Crc16` | the CRC-16 register, and division of polynomials over the two-element field, which it computes |
| `Period` | the order of x modulo the generator |
| `Framing` | wire packets: `encode_frame`, `decode_region`, `struct Frame` |
| `Receiver` | `FrameReader`, the abstract machine it refines, and splitting a stream at 0x00 |
| `Corruption` | which damaged blocks are refused, and exactly which are not |
| `Line`, `OneLineBit` | the same for damage on the line, where the stuffing stands in between |
| `Codec`, `CodecBuffers` | the typed codecs as functions on schemas, and as they run on buffers |
| `Tables`, `Command`, `Firmware`, `Host` | dispatch tables, dispatch, the device's receive path, `call` |
| `Stream`, `Demux` | stream packets, and the host's `Device` that shares one inbound byte stream between `poll` and `await_reply` |
| `EndToEnd` | `call` over `Device`, with replies arriving among other traffic |
| `Bindings` | the Python module's `encode_frame` |

Reading the model:

- A `const std::uint8_t*` with a length is a read-only view, a `seq<byte>`; a
  buffer that is written is an `array<byte>`, with an offset where the source
  passes `out + off`. Byte values are integers from 0 to 255.
- `std::uint16_t` is an integer below 65536. `^` on it is defined place by place
  on its sixteen bits, `<< 1` with its cast is doubling modulo 65536, and the `|`
  of bytes shifted to disjoint places is addition.
- A template pack is a list of field types, a tuple a list of values of those
  types. Enums are integers of their width; `float` and `double` are 32- and
  64-bit patterns, so they are `Unsigned(4)` and `Unsigned(8)`.
- Command and stream handlers are arbitrary functions that take the state of
  their side to another, so that "called exactly once" is a statement about the
  state. `static_assert`s are preconditions.
- `Device`'s transport is the list of what future reads return; an empty entry is
  a read that timed out. A callback either returns or raises, as any function of
  what it is given and of all invocations before it.
- A block is what a packet carries before it is stuffed; a region is what stands on
  the line between two delimiters. A block's codeword is its bits as one polynomial:
  TYPE, LENGTH and PAYLOAD, then the checksum with its high byte first. In the block
  the low byte comes first.

Where code and comments differ the code is followed. The delimiter trails the
region (src/frame.cpp:46), although include/eup/frame.hpp:77 and
include/eup/cobs.hpp:5 speak of a leading one. `cobs_decode` rejects 0x00 only
where a code byte is expected (src/cobs.cpp:65), so `Cobs.CanonicalExactly` says
exactly which accepted blocks re-encode to themselves.

Three promises hold only under conditions.

The checksum is that of the block, and code bytes carry none. So what `Corruption`
says of damaged blocks holds of damage on the line only where that leaves the code
bytes alone and makes no zero (`Line.DataDamage`, `Line.FewLineBitsRefused`). A zero
it makes splits the region, and the front of it is refused (`Line.MadeZero`). A
changed code byte makes code and data bytes trade places;
`Line.CodeByteUndetectedExactly` says exactly when that passes, and one flipped bit
can do it (`OneLineBit.Passes`, `OneLineBit.Exists`).

The comment "buffering reads so nothing is lost" (bindings/eup_pybind.hpp:222) is
true of `await_reply`, even when a callback raises. (That case is
never observed: `await_reply` is reached only through `call`, which is `noexcept`
(include/eup/host.hpp:74), so a raise in it ends the process.) But `poll` empties
its buffer before it pushes, so when a stream body is malformed or a callback
raises, the rest of the chunk is gone. `Demux.Device.Poll` and
`Demux.PollLosesExactly` state exactly when bytes are lost;
`Demux.MalformedStreamLosesBytes` gives a family of inputs for which they are, and
`Demux.LossExample` one of them.

A transport is to hand back "only the matching Reply frame"
(include/eup/host.hpp:19-24). `Device` hands back the first Reply frame to arrive.
`Demux.ReplyFoundExactly` says when that is the reply to the call just sent;
`Demux.StaleReplyWins` says what happens when a late reply to an earlier call is
still on its way, `Demux.OneBehind` and `EndToEnd.OneCallBehind` that every later
call is then told the outcome of the one before it, and `Demux.PollResynchronises`
that a poll in between puts host and device in step again.

## Model

| member | source | states |
|---|---|---|
| `Cobs.Encode` | src/cobs.cpp:5-55 | an encoding is zero-free and longer than its input |
| `Cobs.EncodeInto` | src/cobs.cpp:5-55 | the back-patching loop writes exactly the encoding, is Ok if and only if that fits, and touches nothing past its length (past the capacity on failure) |
| `Cobs.DecodeInto` | src/cobs.cpp:57-93 | the byte-wise loop agrees with block decoding into bounded room, statuses included |
| `Cobs.DecodeWithinMeaning` | src/cobs.cpp:62-92 | bounded decoding succeeds with d if and only if d is the unbounded meaning and fits; a meaning that does not fit gives OutputTooSmall |
| `Cobs.DecodeWithinExactly` | src/cobs.cpp:62-92 | OutputTooSmall if and only if the decoder would write one byte more than there is room for, even where the input is malformed behind it; otherwise the data, or MalformedInput |
| `Cobs.DecodeNeverTooSmall` | src/cobs.cpp:70-89 | a block of at most one byte more than the room never reports OutputTooSmall |
| `Cobs.Decode` | src/cobs.cpp:57-93 | an accepted non-empty block decodes to at least one byte less |
| `Cobs.RoundTrip` | include/eup/cobs.hpp:39-47 | decoding an encoding returns the input, for every input |
| `Cobs.CanonicalExactly` | src/cobs.cpp:34-47 | an accepted block re-encodes to itself if and only if it is non-empty, zero-free and does not end in a full block followed by a lone 0x01 |
| `Cobs.AcceptedForms` | src/cobs.cpp:83-92 | a zero-free accepted block is an encoding, or an encoding with one redundant 0x01 |
| `Cobs.LoneOneIsLong` | src/cobs.cpp:83-89 | the redundant form needs at least 256 bytes |
| `Cobs.EncodedSize` | include/eup/cobs.hpp:8-9 | one code byte per started run of 254, and exactly one for inputs up to 254 |
| `Cobs.MaxEncodedSizeSuffices` | include/eup/cobs.hpp:22-26 | the published bound covers every input |
| `Cobs.MaxEncodedSizeIsTight` | include/eup/cobs.hpp:22-26 | zero-free inputs meet the bound, except at positive multiples of 254, where they stay one below |
| `Crc16.Crc16Update` | src/crc16.cpp:5-19 | the nested loops compute the register function |
| `Crc16.Crc16Ccitt` | src/crc16.cpp:21-23 | one-shot is incremental from 0xFFFF |
| `CheckValue.ChecksumIsRemainder` | src/crc16.cpp:21-23 | with the seed written out: the checksum is the one remainder of sixteen ones times x^(8n) and the data times x^16 |
| `CheckValue.Published` | include/eup/crc16.hpp:10-11 | the check value: "123456789" gives 0x29B1 |
| `CheckValue.EmptyChecksum` | include/eup/crc16.hpp:28 | no bytes give 0xFFFF |
| `Crc16.UpdateConcat` | include/eup/crc16.hpp:25-32 | updating over a concatenation is updating twice |
| `Crc16.UpdateIsRemainder` | src/crc16.cpp:5-19 | the result is the one remainder of seed x^(8n) + data x^16 on division by x^16+x^12+x^5+1 |
| `Crc16.UpdateLinear` | src/crc16.cpp:8-17 | the difference of two results is the result for the differences of seed and data |
| `Crc16.UpdateByteIsFeed` | src/crc16.cpp:9-16 | eight turns on a byte are eight message bits through the division register |
| `Crc16.RegOfShift` | src/crc16.cpp:11-15 | one turn of the inner loop is one step of the division register |
| `Gf2.RegisterIsTheRemainder` | src/crc16.cpp:8-17 | the register holds the remainder, and nothing else is one |
| `Gf2.RemainderUnique` | src/crc16.cpp:8-17 | quotient and remainder are unique |
| `Gf2.ShiftInjective` | src/crc16.cpp:11-15 | a step loses no information |
| `Gf2.BurstChangesRegister` | src/crc16.cpp:8-17 | different messages that agree outside sixteen consecutive bits end in different registers |
| `Gf2.FeedParity` | src/crc16.cpp:9-15 | the register's parity is the seed's plus the message's |
| `Gf2.ConfusedExactly` | src/crc16.cpp:8-17 | two messages are confused if and only if their difference is a multiple of the generator |
| `Gf2.MultipleExactly` | src/crc16.cpp:8-17 | the messages that leave an empty register empty are the multiples of the generator, and no others |
| `Period.ReturnsExactly` | src/crc16.cpp:11-15 | x^k is 1 modulo the generator if and only if 32767 divides k |
| `Period.TwoBitsExactly` | src/crc16.cpp:8-17 | two lone bits are a multiple of the generator if and only if 32767 divides their distance |
| `Period.MultipleIsNoResidue` | src/crc16.cpp:8-17 | bits are a multiple of the generator if and only if the powers of x they stand for cancel modulo it |
| `Framing.EncodeFrame` | src/frame.cpp:8-48 | status by length and capacity (250, length + 6); the packet; nothing past it written |
| `Framing.AssembleRaw` | src/frame.cpp:15-29 | the scratch block is TYPE, LENGTH, PAYLOAD and the little-endian checksum |
| `Framing.BlockLayout` | src/frame.cpp:15-46 | byte by byte: type, length, payload up to 250, checksum low byte first; and the packet is its stuffing and a 0x00 |
| `Framing.DecodeRegionInto` | src/frame.cpp:50-92 | the verdict of the specification; a refused region leaves the frame alone, an accepted one leaves bytes past `length` alone |
| `Framing.VerdictExactly` | src/frame.cpp:50-92 | the verdict on every region in terms of its bytes: CobsError without a meaning or with more than 254 bytes, Truncated below 4, LengthMismatch unless LENGTH is the size less 4, CrcMismatch with the checksum received, and the frame otherwise |
| `Framing.AnyChecksum` | src/frame.cpp:81-83 | a sendable frame with any checksum put behind it is that frame if the checksum is right and CrcMismatch if not |
| `Framing.FrameRoundTrip` | src/frame.cpp:8-92 | parsing a printed frame returns it with its checksum |
| `Framing.UniqueWireForm` | src/frame.cpp:50-92 | a zero-free region of at most 255 bytes is accepted as f if and only if it is what the printer makes of f |
| `Framing.AcceptedRegion` | src/frame.cpp:50-92 | a longer accepted region is the printed one plus a redundant 0x01 |
| `Framing.PacketSize` | include/eup/frame.hpp:16-19 | region length + 5, packet length + 6, the delimiter last and only there |
| `Framing.ScratchSuffices` | src/frame.cpp:52-58 | on at most 255 bytes the 254-byte scratch block never overflows |
| `Framing.FrameBuffer.Assign` | include/eup/frame.hpp:51-55 | copying a frame copies what counts of it |
| `Receiver.FrameReader.PushByte` | src/frame.cpp:99-129 | buffer, overflow flag, frame and status move as the abstract machine does, and the event is its event |
| `Receiver.FrameReader.Reset` | src/frame.cpp:94-97 | the pending bytes are forgotten, frame and status stay |
| `Receiver.FrameReader.constructor` | include/eup/frame.hpp:109-117 | a fresh reader is the fresh abstract machine |
| `Receiver.NothingYet` | include/eup/frame.hpp:51-117 | until a first frame is decoded an empty one of type 0 is on show, until a first region is closed the status is Ok |
| `Receiver.EventTells` | src/frame.cpp:99-129 | FrameReady and Error follow the verdict on the piece a 0x00 closes, with frame and status to match; everything else asks for more |
| `Receiver.LongPiece` | src/frame.cpp:100-121 | a piece of more than 255 bytes is refused as BufferTooSmall, whatever it says |
| `Receiver.RunOfBytes` | src/frame.cpp:99-129 | after any history, pushing bytes runs the abstract machine |
| `Receiver.ReaderIsSplitter` | src/frame.cpp:99-129 | the reports are the verdicts on the non-empty pieces between delimiters, in order, and the unclosed rest is kept |
| `Receiver.JoinSplit` | README.md:81-83 | splitting at 0x00 loses nothing |
| `Receiver.SplitIsJoinInverse` | README.md:81-83 | and there is only one way to split into zero-free pieces |
| `Receiver.FrameIsLastAccepted` | include/eup/frame.hpp:101-105 | frame() is the last frame decoded and lastStatus() the last verdict, whatever failed in between |
| `Receiver.PushPacket` | src/frame.cpp:125-128 | a packet pushed at a boundary is delivered |
| `Receiver.Delivery` | src/frame.cpp:99-129 | packets with any delimiters between them are delivered in order, without error |
| `Receiver.Resynchronises` | src/frame.cpp:109-128 | from any state and after any garbage, everything behind the next delimiter is delivered |
| `Corruption.SentIsAccepted` | src/frame.cpp:8-92 | the region made of a frame is accepted as the block it was made from, so what follows applies to the block of every packet |
| `Corruption.UndetectedExactly` | src/frame.cpp:65-83 | damage of any kind to a block before stuffing that keeps its size, wherever it falls, passes if and only if LENGTH is intact and the codewords differ by a multiple of the generator |
| `Corruption.BurstRefused` | src/frame.cpp:76-83 | damage within sixteen consecutive bits of the codeword is always refused |
| `Corruption.SeamBurstAccepted` | src/frame.cpp:25-27 | because the checksum's low byte stands first, a certain thirteen-bit burst of the unstuffed block, in the order of its bytes, flipping four bits of the last payload byte and the checksum, passes in every block that has a payload, and only there |
| `Corruption.FewFlippedBitsRefused` | src/frame.cpp:76-83 | one, two or three flipped bits anywhere in an accepted block before stuffing, checksum included, are always refused |
| `Corruption.TwoBitDamageRefused` | src/frame.cpp:76-83 | so are any two of them, because no block is as long as the order of x |
| `Corruption.OddDamageRefused` | src/frame.cpp:76-83 | flipping an odd number of bits anywhere in an accepted block before stuffing is always refused |
| `Corruption.AcceptedIsEven` | src/frame.cpp:76-83 | every accepted block has an even number of ones, checksum included |
| `Line.DecodeIsUnstuffed` | src/cobs.cpp:57-93 | up to 255 bytes, a region whose walk from code byte to code byte closes stands for its own bytes behind the first, every later code byte read as a zero |
| `Line.LineUndetectedExactly` | src/frame.cpp:50-92 | damage of any kind on the line that keeps a region's length passes if and only if the walk still closes, LENGTH reads the same and the two blocks differ by a multiple of the generator |
| `Line.DataDamage` | src/cobs.cpp:62-92 | damage beside the code bytes is the same damage to the block, byte for byte |
| `Line.FewLineBitsRefused` | src/frame.cpp:50-92 | one, two, three or any odd number of bits flipped on the line beside the code bytes are always refused where the reader still sees one region |
| `Line.CodeByteUndetectedExactly` | src/cobs.cpp:62-92 | a changed code byte passes if and only if the new walk closes, LENGTH does not trade places and the code and data bytes that do are a multiple of the generator |
| `Line.PrefixRefused` | src/frame.cpp:65-74 | no region cut short is accepted |
| `Line.MadeZero` | src/frame.cpp:99-129 | a byte of a region turned into zero makes the reader judge two pieces, of which the front one is refused |
| `Line.SeamBurstOnLine` | src/frame.cpp:25-27 | where a region ends in three bytes that are no code bytes, the thirteen-bit burst is one on the line, and the reader still sees one region unless one of the three becomes zero |
| `OneLineBit.Passes` | src/cobs.cpp:62-92 | every accepted region of 22 bytes with 4, 3, 17, 11 and 4 at places 0, 4, 5, 7 and 18 is accepted as another frame when its first byte becomes 5 |
| `OneLineBit.Exists` | src/frame.cpp:50-92 | there is a command packet of which one flipped bit makes an accepted packet of another frame |
| `Codec.FieldRoundTrip` | include/eup/codec.hpp:46-98 | reading a written field back, whatever follows it |
| `Codec.FieldsRoundTrip` | include/eup/codec.hpp:365-395 | the same for a list of fields, using exactly their bytes |
| `Codec.TupleRoundTrip` | include/eup/codec.hpp:381-395 | a tuple survives encoding and decoding |
| `Codec.Ranges` | include/eup/codec.hpp:46-98 | what the integer types hold, in numbers |
| `Codec.ScalarDigit` | include/eup/codec.hpp:50-87 | byte i of an integer of either sign is its base-256 digit of weight 256^i, floor division giving two's complement |
| `Codec.BooleanBytes` | include/eup/codec.hpp:143-168 | a boolean is written as 0 or 1, and every byte but 0 reads as true |
| `Codec.SpanBytes` | include/eup/codec.hpp:262-278 | a span is its count and its elements in order |
| `Codec.FieldReadExactly` | include/eup/codec.hpp:63-302 | a field can be read if and only if its bytes are there and a span's count is within its capacity |
| `Codec.FixedReadExactly` | include/eup/codec.hpp:381-395 | fields of fixed size are read from exactly the inputs of their number of bytes |
| `Codec.DefaultsAreZeros` | include/eup/host.hpp:84 | every byte of a value-initialised tuple is zero |
| `Codec.CanonicalExactly` | include/eup/codec.hpp:158-166 | an accepted input re-encodes to itself if and only if every byte read as a bool is 0 or 1 |
| `Codec.AcceptedExactly` | include/eup/codec.hpp:63-75 | for schemas without bool the accepted inputs are exactly the encodings |
| `Codec.SizeBudget` | include/eup/codec.hpp:331-339 | no tuple exceeds TupleMaxSize |
| `Codec.SizeBudgetAttained` | include/eup/codec.hpp:331-339 | and some tuple needs all of TupleMaxSize |
| `Codec.FieldSize` | include/eup/codec.hpp:7-10 | kMaxSize bounds every value and is exact for fixed-size types |
| `Codec.TotalIsProduct` | include/eup/codec.hpp:260 | a span's elements take count times element size |
| `Codec.FixedDecodes` | include/eup/codec.hpp:381-395 | fields of fixed size can be read from any bytes of the right number |
| `CodecBuffers.EncodeUint` | include/eup/codec.hpp:50-61 | the byte loop writes the little-endian bytes if they fit, else nothing |
| `CodecBuffers.DecodeUint` | include/eup/codec.hpp:63-75 | the byte loop reads the little-endian value if enough bytes are there |
| `CodecBuffers.EncodeScalarInto` | include/eup/codec.hpp:84-87 | integers of either sign and booleans, written whole or not at all |
| `CodecBuffers.DecodeScalarFrom` | include/eup/codec.hpp:89-97 | the same, read back |
| `CodecBuffers.InlineArray.PushBack` | include/eup/codec.hpp:225-232 | appends unless full, in which case nothing changes |
| `CodecBuffers.EncodeSpan` | include/eup/codec.hpp:262-278 | count and elements, Ok if and only if all fit, confined to the given room |
| `CodecBuffers.DecodeSpan` | include/eup/codec.hpp:280-302 | accepts exactly what the span decoder means, into the array |
| `CodecBuffers.EncodeOne` | include/eup/codec.hpp:341-351 | advances the offset by exactly the value's bytes, which never pass the capacity |
| `CodecBuffers.DecodeOne` | include/eup/codec.hpp:353-363 | advances the offset by exactly the bytes consumed, which never pass the length; on failure the offset stays |
| `CodecBuffers.EncodeTuple` | include/eup/codec.hpp:365-379 | succeeds if and only if the exact size fits, and then writes exactly the encoding; the length reported is that of the fields before the first misfit |
| `CodecBuffers.FittingIsPrefix` | include/eup/codec.hpp:365-379 | that length is the size of the longest run of fields from the front that fits |
| `CodecBuffers.DecodeTuple` | include/eup/codec.hpp:381-395 | accepts exactly the inputs used up to the last byte |
| `Command.FindEntry` | src/command.cpp:7-15 | the first entry with the opcode |
| `Tables.FindsFirst` | src/command.cpp:7-15 | the row found is the one with no row of that opcode before it |
| `Command.WriteStatusOnly` | src/command.cpp:17-26 | one status byte, nothing else |
| `Command.DispatchThunk` | include/eup/command.hpp:94-115 | bad arguments never reach the handler; otherwise it runs once and its status and results are what is answered |
| `Command.Refusals` | src/command.cpp:30-59 | in numbers: 1 for no or an unknown opcode and 2 for bad arguments, with the device left alone; 3 with the handler's state for results that do not fit; else the handler's status and results |
| `Command.BadArguments` | include/eup/command.hpp:94-115 | the answer is 2 where fixed-size arguments have the wrong number of bytes, and without booleans where the bytes are nobody's encoding |
| `Command.Dispatch` | src/command.cpp:30-59 | the whole reply payload and the new device state; false only for an empty buffer, and then nothing happens |
| `Command.AnswerIsHandler` | src/command.cpp:50-58 | a registered command given its own arguments answers with the handler's status and results |
| `Command.AnswerFits` | include/eup/command.hpp:145-153 | every answer fits one payload, so the length cast loses nothing |
| `Firmware.DeviceHandlePacket` | examples/rgb_led_adc/device.cpp:109-136 | only the last frame received counts, and only if it is a command; the reply packet, or 0 |
| `Firmware.ReceiveLast` | examples/rgb_led_adc/device.cpp:111-120 | the last frame a fresh reader delivers |
| `Firmware.LastPacketDecides` | examples/rgb_led_adc/device.cpp:115-136 | of several packets in one buffer the last alone decides; commands before it are neither run nor answered |
| `Firmware.HandlePacket` | examples/rgb_led_adc/device.cpp:109-136 | one command packet in, the answer to its payload out |
| `Firmware.TypesAnswered` | examples/rgb_led_adc/device.cpp:122-135 | a frame of type 1 is answered by one of type 2, any other by none and with the device left alone |
| `Firmware.NoFrameNoAnswer` | examples/rgb_led_adc/device.cpp:111-124 | bytes in which no region is a frame have no answer and leave the device alone |
| `Host.Call` | include/eup/host.hpp:72-123 | over the in-process link: device state and result of the remote call; TransportError and an untouched device when the link is down |
| `Host.FrameRequest` | include/eup/host.hpp:86-96 | opcode and arguments always fit and are framed as a command |
| `Host.RequestLayout` | include/eup/host.hpp:86-96 | a request is of type 1 and holds the opcode and the arguments |
| `Host.ParseReply` | include/eup/host.hpp:104-122 | no reply, a wrong frame, a status, or decoded results |
| `Host.ReadsExactly` | include/eup/host.hpp:101-122 | in numbers: 5 without a reply of type 2 that has a status, the device's status if that is not 0, 2 if the results cannot be read, 0 and the results otherwise; default results in all other cases |
| `Host.OkExactly` | include/eup/host.hpp:110-121 | without booleans the caller is told Ok if and only if the device said 0 and what follows is some results' encoding; with fixed sizes if and only if its size is right |
| `Host.ReadsAnothers` | include/eup/host.hpp:104-122 | a caller handed the reply to another call is told that call's status, and its results where the types agree; where only the sizes agree it is told Ok all the same |
| `Host.SerialLink.SendCommand` | examples/rgb_led_adc/main.cpp:34-37 | the device handles the bytes once and is left as that says, whether or not it replied; true if and only if the link is up and there is a reply, whose packet is then kept |
| `Host.SerialLink.AwaitReply` | examples/rgb_led_adc/main.cpp:39-47 | hands back what the kept packet decodes to |
| `Host.RpcTransparency` | include/eup/host.hpp:5-12 | calling over the wire is calling the handler: its state, its status, its results (defaults unless Ok); the device adds no BadArguments or ReplyTooLarge of its own |
| `Host.UnregisteredOpcode` | src/command.cpp:43-48 | an opcode nobody registered gives UnknownCommand and leaves the device as it was |
| `Stream.StreamWriter.Write` | include/eup/stream.hpp:76-100 | the packet for opcode, counter and fields; always Ok with 256 bytes |
| `Stream.FrameLayout` | include/eup/stream.hpp:76-100 | a stream frame is of type 3 and holds the opcode, the counter in four bytes with the low one first, and the fields |
| `Stream.StreamThunk` | include/eup/stream.hpp:120-135 | the handler runs once on exactly what the body says, or not at all |
| `Stream.DispatchStream` | include/eup/stream.hpp:150-162 | at most one handler, the first registered |
| `Stream.DeliveredExactly` | include/eup/stream.hpp:107-162 | no opcode, an unknown one or a body that is not read: false and the consumer as it was; otherwise true and the first handler's doing |
| `Stream.FixedBodyExactly` | include/eup/stream.hpp:120-131 | with fixed-size fields a body is read if and only if it has four bytes more than they take |
| `Stream.StreamDelivered` | include/eup/stream.hpp:107-162 | a packet written under a contract reaches the first matching handler with the same counter and fields |
| `Stream.ReadBodyExactly` | include/eup/stream.hpp:120-131 | without bool fields a handler runs on a body if and only if it is the encoding of what the handler gets |
| `Demux.Device.ReadChunk` | bindings/eup_pybind.hpp:211-220 | one read from the transport |
| `Demux.Device.NextByte` | bindings/eup_pybind.hpp:222-232 | the next byte of buffer and reads, -1 at an empty read, nothing skipped |
| `Demux.WaitEndsAtEmptyRead` | bindings/eup_pybind.hpp:222-232 | a wait reads on through every read that brings something and not past the first that does not |
| `Demux.Device.DispatchStream` | bindings/eup_pybind.hpp:234-253 | fires the callback registered for the stream, skips, or raises |
| `Demux.StreamHandled` | bindings/eup_pybind.hpp:234-253 | a packet of a stream somebody listens to calls the callback once, with that packet's counter and fields, and counts as delivered if and only if it returns |
| `Demux.PacketIgnored` | bindings/eup_pybind.hpp:170-245 | types other than 2 and 3, replies nobody waits for, and streams without opcode, unknown or not listened to change nothing |
| `Demux.PacketEnds` | bindings/eup_pybind.hpp:131-186 | a body that is not read raises with nobody called; a reply that is waited for ends the wait |
| `Demux.Device.Poll` | bindings/eup_pybind.hpp:193-208 | pushes the buffer and one read, fires what their stream frames call for, and conserves bytes if and only if the run used the whole chunk |
| `Demux.Device.AwaitReply` | bindings/eup_pybind.hpp:170-186 | stops right behind the first reply, fires what came before it, and always conserves bytes |
| `Demux.Device.On` | bindings/eup_pybind.hpp:189 | replaces one callback |
| `Demux.Device.SendCommand` | bindings/eup_pybind.hpp:164-168 | hands the packet to the transport |
| `Demux.DecodeStream` | bindings/eup_pybind.hpp:131-148 | counter and fields, or the error |
| `Demux.PumpConcat` | bindings/eup_pybind.hpp:170-208 | a run over two stretches of bytes is the run over the first and, unless that ended it, the run over the second from where it left off |
| `Demux.PumpEnds` | bindings/eup_pybind.hpp:170-208 | a run is cut short if and only if one of the frames it reports is a stream frame that raises or a reply that is waited for |
| `Demux.PumpAccounts` | bindings/eup_pybind.hpp:170-208 | whatever ends a run, the callbacks fired are those of the stream frames in the bytes used, in order |
| `Demux.FiredExactly` | bindings/eup_pybind.hpp:170-208 | over any mix of polls and waits, the callbacks fired are those the pushed bytes call for when cut at delimiters |
| `Demux.Interleave` | bindings/eup_pybind.hpp:157-260 | over any interleaving of polls, waits and registrations and any read chunking: unless something raises, all inbound bytes are pushed, buffered or unread, in order; and the callbacks fired are those the bytes pushed under each set of callbacks call for, set after set |
| `Demux.PollLosesExactly` | bindings/eup_pybind.hpp:195-206 | a chunk loses bytes if and only if a stream frame completed before its last byte raises |
| `Demux.MalformedStreamLosesBytes` | bindings/eup_pybind.hpp:195-206 | a malformed stream packet somebody listens to loses whatever follows it in the chunk |
| `Demux.LossExample` | bindings/eup_pybind.hpp:193-208 | a seven-byte packet of a registered stream without its counter, then one byte: the byte is never pushed |
| `Demux.ReplyFound` | bindings/eup_pybind.hpp:170-186 | behind any bytes that end at a boundary, a wait ends at the reply, with every stream before it delivered and the bytes behind it left alone, unless something in those bytes ended it already, and then that is what it comes to |
| `Demux.ReplyFoundExactly` | include/eup/host.hpp:19-24 | behind any bytes at all, the wait hands back the reply sent behind them if and only if they leave no unfinished piece and contain no earlier Reply frame and no stream frame that raises |
| `Demux.StaleReplyWins` | include/eup/host.hpp:19-24 | with an earlier call's reply still on its way the wait hands back that one, and the next wait gets this call's |
| `Demux.WaitsAreServed` | bindings/eup_pybind.hpp:170-232 | successive waits hand out the replies first come, first served, each wait the next one if all of it has come in, however the bytes are spread over the waits |
| `Demux.OneBehind` | include/eup/host.hpp:19-24 | with one reply late, every wait from then on hands back the reply to the call before |
| `Demux.PollResynchronises` | bindings/eup_pybind.hpp:193-208 | a poll that goes through drops every reply it meets, and the next wait gets the reply sent behind it, under the exact condition as before |
| `EndToEnd.DeviceCall` | bindings/eup_pybind.hpp:264-270 | `call` over `Device`: the request packet is handed to the transport, the result is read from the first reply among the bytes available, no byte is lost; None when a raise ends the process |
| `EndToEnd.RpcAmongStreams` | include/eup/host.hpp:19-27 | a call whose reply arrives behind any bytes gets that reply, and with it the handler's outcome, if and only if those bytes end at a boundary and hold nothing that ends the wait |
| `EndToEnd.TransparentCall` | include/eup/host.hpp:5-12 | a call over `Device` whose answer has come in that way returns the handler's outcome and fires the callbacks of the streams before it |
| `EndToEnd.OneCallBehind` | include/eup/host.hpp:98-122 | with one reply late, every later call is told the status of the call before it, and its results where the types agree |
| `Bindings.EncodeFrame` | bindings/eup_pybind.hpp:304-313 | frames the payload's first bytes, as many as its length modulo 256, and raises if and only if that exceeds 250 |
| `Bindings.FramesWholeExactly` | bindings/eup_pybind.hpp:304-313 | where it does not raise, the receiver gets the whole payload if and only if that is at most 250 bytes |

## Left out

- Host.Call: stated for the in-process `SerialLink`, as `EndToEnd.DeviceCall` is for `Device`; the source takes any type that has the two operations.
- CodecBuffers.DecodeTuple: on failure it yields nothing, where the source leaves a partly assigned tuple that every caller discards.
- Framing.EncodeFrame: does not model a null payload with a non-zero length, which the source sends as zeros.
- Demux.Device.ReadChunk: ignores the size asked for, since a transport may return any number of bytes.
- The caller's input and output buffers are assumed not to overlap; nothing is said about the bytes a failed encoder leaves within its capacity.
- `make_string`, equality of spans, and the std::array overloads: they forward or compare.
- Float arithmetic: only bit patterns travel.
- The concrete LED and ADC handlers, the telemetry emitter and `main`: handlers are arbitrary here.
- pybind11 casters, the interpreter lock, module registration and errors of the transport's own `read` and `write`.
- A callback that itself calls `poll`, `on` or a command on the same device (bindings/eup_pybind.hpp:247): callbacks here return before anything else happens, so a nested wait that takes the outer call's reply is not covered.
- Timeouts and retries: a wait that gets no bytes ends, and what the caller does then is its own affair.
