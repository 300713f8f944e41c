# CaffeineSocket core, modelled in Dafny

CaffeineSocket is a small Java WebSocket server library (RFC 6455). This project models its core and proves properties of that model:

- **`WebSocketFrame.process(byte)`** is the incremental, byte-at-a-time frame decoder. Each call appends one byte to `rawMessage`. It fills in each set-once header field (FIN, RSV1-3, the opcode, MASK, the 7-bit length indicator, the 16- or 64-bit extended length, the masking key) as soon as its bytes are in. Once the declared number of payload bytes has arrived, it XOR-unmasks the payload (section 5.3 of RFC 6455) and reports completion. It also asks its parent WebSocket to close when it decodes a CLOSE frame.
- **`WebSocketMessage.process(Binary)`** is the older bit-level decoder that the listener drives, with its own length arithmetic and its `state` (INCOMPLETE, ERROR, COMPLETE).
- **`ByteList`** is a growable byte array with a cursor. It adds, removes, resizes by a growth step, and reads single bits and bit ranges.
- **`Binary`** is a list of bits with append/prepend, slicing, the `logical*` operators, octet splitting, byte conversion and `toString`.
- **`NumberBaseConverter`** converts an int to an MSB-first bit list padded to whole octets (`decToBin`) and back (`binToDec`).
- **The opcode enums**: `WebSocketFrameType`, `WebSocketControlFrameType`, `WebSocketDataFrameType`, and `WebSocketFrame.Type`.
- **`WebSocket`**: the `State` lifecycle, the `state` changes of `handshake()` and `close()`, and the string work of the opening handshake (key extraction and the 101 response).

The model follows the shape of the Java code:

- **Classes that update their fields in place.** `WebSocketFrame`, `WebSocketMessage`, `ByteList` (over a real `array<byte>`), `Binary` and `WebSocket` are Dafny classes.
- **Frame decoder.** `WebSocketFrame` is specified by functions of the bytes received so far (`FinOf` … `PayloadOf`, `Outcome`). Its class invariant `Valid()` holds every field equal to them.
- **Message decoder.** What `WebSocketMessage` does depends on how the bits were split into calls. It is specified by `Step`, the effect of one call given every bit received so far. The invariant `Reachable` states what holds after any split.
- **Exceptions** become `Result` values (`Err(IllegalState)`, `Err(NullPointer)`, …), and Java `null` becomes `Option`.
- **I/O.** The outcome of each socket or stream step is an `Environment` parameter. The SHA-1/Base64 digest is a function parameter.

Where the code and the intended design disagree, the model follows the code:

- **Missing `Sec-WebSocket-Key`.** The handshake does not abort: `websocketReceivedKey` stays `null` and the string `"null"` is digested with the GUID (`DigestInput`).
- **Unrecognised opcode.** There is no protocol error. The `InvalidOpcodeException` is caught, `frameType` stays `null`, the header never completes and `process` keeps returning `false` (`UnknownOpcodeNeverCompletes`).
- **Zero-length payload.** The frame completes together with its header, with `payload` set to `null` rather than to an empty payload.
- **Control frames.** Their FIN flag and payload length are never checked. A CLOSE frame calls `parent.close()` on every call after its header is complete, even before its payload is complete.
- **Decoder errors** (a MASK mismatch, a missing key) are thrown exceptions, not returned signals.

## Model

| member | source | states |
|---|---|---|
| FrameTypes.WebSocketFrameType.GetOpcode | src/io/t99/caffeinesocket/WebSocketFrameType.java:32-84 | each constant's opcode is a 4-bit value among 0, 1, 2, 8, 9, 10 |
| FrameTypes.GetFrameTypeForOpcode | src/io/t99/caffeinesocket/WebSocketFrameType.java:93-120 | succeeds exactly for the six recognised opcodes, returning the constant with that opcode; every other int throws InvalidOpcodeException |
| FrameTypes.OpcodeRoundTrip | src/io/t99/caffeinesocket/WebSocketFrameType.java:80-120 | getFrameTypeForOpcode(t.getOpcode()) is t for every constant |
| FrameTypes.OpcodeInjective | src/io/t99/caffeinesocket/WebSocketFrameType.java:32-57 | no two constants share an opcode |
| FrameTypes.SixConstants | src/io/t99/caffeinesocket/WebSocketFrameType.java:32-57 | the opcodes of the constants are exactly {0, 1, 2, 8, 9, 10} |
| ControlFrameTypes.WebSocketControlFrameType.GetOpcode | src/io/t99/caffeinesocket/WebSocketControlFrameType.java:33-72 | the control opcodes are 8, 9 and 10, all in the control range of at least 8 |
| ControlFrameTypes.WebSocketControlFrameType.AsFrameType | src/io/t99/caffeinesocket/WebSocketFrameType.java:47-57 | each control constant has the opcode of the same-named WebSocketFrameType constant |
| ControlFrameTypes.ControlOpcodeInjective | src/io/t99/caffeinesocket/WebSocketControlFrameType.java:33-43 | the three control opcodes are distinct |
| ControlFrameTypes.ControlTypesAreHighOpcodes | src/io/t99/caffeinesocket/WebSocketControlFrameType.java:33-43 | a frame type is a control type exactly when its opcode is at least 8 |
| DataFrameTypes.WebSocketDataFrameType.GetOpcode | src/io/t99/caffeinesocket/WebSocketDataFrameType.java:32-71 | the data opcodes are 0, 1 and 2, all below 8 |
| DataFrameTypes.WebSocketDataFrameType.AsFrameType | src/io/t99/caffeinesocket/WebSocketFrameType.java:32-42 | each data constant has the opcode of the same-named WebSocketFrameType constant |
| DataFrameTypes.DataOpcodeInjective | src/io/t99/caffeinesocket/WebSocketDataFrameType.java:32-42 | the three data opcodes are distinct |
| DataFrameTypes.DataControlDisjoint | src/io/t99/caffeinesocket/WebSocketDataFrameType.java:32-42 | no data opcode is a control opcode |
| DataFrameTypes.DataOrControl | src/io/t99/caffeinesocket/WebSocketFrameType.java:32-57 | a frame type is a data type exactly when its opcode is below 8 |
| NumberBaseConverter.DecToBin | src/io/t99/caffeinesocket/util/NumberBaseConverter.java:23-76 | a negative input gives 00000001; otherwise the result is worth dec when read MSB-first and has the width of dec's binary form rounded up to whole octets (eight bits for 0) |
| NumberBaseConverter.FindHighestPower | src/io/t99/caffeinesocket/util/NumberBaseConverter.java:37-51 | the search ends at the power of two with factor <= dec < 2 * factor, having built a one followed by that many zeros |
| NumberBaseConverter.PadToOctets | src/io/t99/caffeinesocket/util/NumberBaseConverter.java:68-72 | the bits are left-padded with false to the least multiple of 8 |
| NumberBaseConverter.BinToDec | src/io/t99/caffeinesocket/util/NumberBaseConverter.java:78-95 | the MSB-first value of the bits, saturated at Integer.MAX_VALUE by the double-to-int cast; 0 for no bits |
| NumberBaseConverter.DecToBinThenBinToDec | src/io/t99/caffeinesocket/util/NumberBaseConverter.java:23-95 | binToDec(decToBin(n)) == n for every non-negative int n |
| NumberBaseConverter.ValueInjective | src/io/t99/caffeinesocket/util/NumberBaseConverter.java:78-95 | two bit lists of one length with the same value are equal, so decToBin's result is the only one of its width |
| NumberBaseConverter.ByteValueWidth | src/io/t99/caffeinesocket/util/NumberBaseConverter.java:23-76 | every value 0..255 is converted to exactly eight bits |
| NumberBaseConverter.WidthFits | src/io/t99/caffeinesocket/util/NumberBaseConverter.java:68-72 | the padded width is a multiple of 8 that holds n and is under 8 bits longer than n's binary form |
| NumberBaseConverter.ValueLeadingZeros | src/io/t99/caffeinesocket/util/NumberBaseConverter.java:68-72 | left-padding with false does not change the value |
| NumberBaseConverter.ValueSetBit | src/io/t99/caffeinesocket/util/NumberBaseConverter.java:57-60 | setting a clear bit adds its power of two to the value |
| NumberBaseConverter.Log2Brackets | src/io/t99/caffeinesocket/util/NumberBaseConverter.java:55 | the integer log puts n between 2^Log2(n) and 2^(Log2(n)+1), standing for (int)(Math.log(n)/Math.log(2)) |
| NumberBaseConverter.ByteBits | src/io/t99/caffeinesocket/util/ByteList.java:78-88 | signedByteToBinary: eight MSB-first bits worth the byte's unsigned value |
| NumberBaseConverter.ByteBitsUnique | src/io/t99/caffeinesocket/util/ByteList.java:78-88 | the eight bits of a byte are the only eight bits with its value |
| NumberBaseConverter.SearchCursorValue | src/io/t99/caffeinesocket/util/NumberBaseConverter.java:37-49 | with 32-bit wrap-around, i1 runs 2^t up to 2^30, then -2^31, then 0 for ever |
| NumberBaseConverter.SearchNeverEnds | src/io/t99/caffeinesocket/util/NumberBaseConverter.java:37-51 | for 2^30 <= dec the search guard `i1 * 2 > dec` is false on every iteration, so the search never leaves its loop |
| Bits.Binary.Empty | src/io/t99/caffeinesocket/util/Binary.java:26 | a new Binary holds no bits |
| Bits.Binary.constructor | src/io/t99/caffeinesocket/util/Binary.java:28-38 | a Binary made from a list or an array holds those bits in order |
| Bits.Binary.Size | src/io/t99/caffeinesocket/util/Binary.java:52-56 | the number of bits |
| Bits.Binary.Append | src/io/t99/caffeinesocket/util/Binary.java:58-62 | the argument's bits, in order, follow the current ones |
| Bits.Binary.AppendBit | src/io/t99/caffeinesocket/util/Binary.java:64-68 | one bit is added at the end |
| Bits.Binary.Prepend | src/io/t99/caffeinesocket/util/Binary.java:70-74 | the argument's bits, in order, precede the current ones |
| Bits.Binary.PrependBit | src/io/t99/caffeinesocket/util/Binary.java:76-80 | one bit is added at the front |
| Bits.GetBit | src/io/t99/caffeinesocket/util/Binary.java:82-86 | bit index, or IndexOutOfBoundsException outside [0, size) |
| Bits.GetSubset | src/io/t99/caffeinesocket/util/Binary.java:96-110 | bits i1 .. i2-1 exactly when 0 <= i1 < i2 <= size, so an empty range throws |
| Bits.GetSubsetFrom | src/io/t99/caffeinesocket/util/Binary.java:88-94 | the bits from i1 on, exactly when 0 <= i1 < size; i1 == size passes the first guard and throws in getSubset(i1, size) |
| Bits.LogicalNot | src/io/t99/caffeinesocket/util/Binary.java:112-124 | every bit flipped, length kept |
| Bits.NotInvolution | src/io/t99/caffeinesocket/util/Binary.java:112-124 | negating twice gives the bits back |
| Bits.LogicalXor | src/io/t99/caffeinesocket/util/Binary.java:158-172 | unequal lengths throw; otherwise bit i is a[i] != b[i] |
| Bits.XorInvolution | src/io/t99/caffeinesocket/util/Binary.java:158-172 | XOR-ing twice with the same operand gives the bits back |
| Bits.XorCommutes | src/io/t99/caffeinesocket/util/Binary.java:158-172 | exclusive or is symmetric |
| Bits.LogicalAnd | src/io/t99/caffeinesocket/util/Binary.java:126-140 | as written: unequal lengths throw; otherwise the bitwise exclusive or |
| Bits.LogicalOr | src/io/t99/caffeinesocket/util/Binary.java:142-156 | as written: unequal lengths throw; otherwise the bitwise exclusive or |
| Bits.LogicalNand | src/io/t99/caffeinesocket/util/Binary.java:174-178 | logicalNot of logicalAnd, so the negated exclusive or |
| Bits.LogicalNor | src/io/t99/caffeinesocket/util/Binary.java:180-184 | logicalNot of logicalOr, so the negated exclusive or |
| Bits.LogicalXnor | src/io/t99/caffeinesocket/util/Binary.java:186-190 | logicalNot of logicalXor |
| Bits.AndOrAsWritten | src/io/t99/caffeinesocket/util/Binary.java:126-156 | on two set bits, logicalAnd and logicalOr as written give false where conjunction and disjunction give true |
| Bits.LogicalAndIntended | src/io/t99/caffeinesocket/util/Binary.java:126-140 | corrected logicalAnd: unequal lengths throw; otherwise bit i is a[i] && b[i] |
| Bits.LogicalOrIntended | src/io/t99/caffeinesocket/util/Binary.java:142-156 | corrected logicalOr: unequal lengths throw; otherwise bit i is a[i] \|\| b[i] |
| Bits.OrIsXorOfXorAndAnd | src/io/t99/caffeinesocket/util/Binary.java:126-172 | the corrected operators and XOR agree: a \| b == (a ^ b) ^ (a & b) |
| Bits.DeMorgan | src/io/t99/caffeinesocket/util/Binary.java:112-156 | the corrected operators obey De Morgan: not(not a and not b) == a or b |
| Bits.Octets | src/io/t99/caffeinesocket/util/Binary.java:204-216 | size/8 octets, octet i being bits 8i .. 8i+7 |
| Bits.OctetsConcat | src/io/t99/caffeinesocket/util/Binary.java:204-216 | the octets put back together are all bits but a trailing partial octet |
| Bits.ToBinaryOctetArray | src/io/t99/caffeinesocket/util/Binary.java:204-216 | the whole octets in order |
| Bits.ToByteArray | src/io/t99/caffeinesocket/util/Binary.java:218-231 | one byte per whole octet, worth the octet's value and with the octet as its bits |
| Bits.OctetToByte | src/io/t99/caffeinesocket/util/Binary.java:225 | binToDec of an octet, cast to byte, keeps the value and the bits |
| Bits.BitString | src/io/t99/caffeinesocket/util/Binary.java:234-246 | one character per bit, '1' exactly for a set bit |
| Bits.BitStringRoundTrip | src/io/t99/caffeinesocket/util/Binary.java:234-246 | toString loses nothing: its text parses back to the bits |
| Bits.ToString | src/io/t99/caffeinesocket/util/Binary.java:234-246 | the '1'/'0' text of the bits, in order |
| ByteLists.ArrayCopy | src/io/t99/caffeinesocket/util/ByteList.java:167-169 | System.arraycopy between two arrays overwrites the target range with the source range and keeps the rest |
| ByteLists.ByteList.constructor | src/io/t99/caffeinesocket/util/ByteList.java:34-38 | ByteList(): ten zero cells, empty, growing one cell at a time |
| ByteLists.ByteList.Sized | src/io/t99/caffeinesocket/util/ByteList.java:46-52 | a list of `size` zero cells, empty, with the given growth step |
| ByteLists.ByteList.New | src/io/t99/caffeinesocket/util/ByteList.java:40-52 | a size of 0 or less throws IllegalArgumentException; otherwise an empty list of that capacity |
| ByteLists.ByteList.Slice | src/io/t99/caffeinesocket/util/ByteList.java:54-70 | the capacity i2 - i1 is an int subtraction: when it wraps to 0 or less (an empty range, a reversed range up to 2^31 long, a forward range of 2^31 or more) IllegalArgumentException is thrown; a longer reversed range gives an empty list of the wrapped capacity; a forward range outside the array throws IndexOutOfBounds; otherwise a list of capacity i2 - i1 holding cells i1 .. i2-1 in order |
| ByteLists.ByteList.Get | src/io/t99/caffeinesocket/util/ByteList.java:72-76 | the raw array cell, readable past the list's end, throwing outside the array |
| ByteLists.BitsOfIndex | src/io/t99/caffeinesocket/util/ByteList.java:78-82 | bit k of the bytes is bit k % 8 (MSB first) of byte k / 8 |
| ByteLists.ByteList.GetBit | src/io/t99/caffeinesocket/util/ByteList.java:78-82 | bit k of the array's bit string, throwing exactly when k lies outside it |
| ByteLists.ByteList.GetBitAt | src/io/t99/caffeinesocket/util/ByteList.java:84-88 | bit `bit` of byte b, throwing outside the array or outside 0..7 |
| ByteLists.ByteList.GetBits | src/io/t99/caffeinesocket/util/ByteList.java:90-102 | the size i2 - i1 is an int subtraction: when it wraps negative the allocation throws NegativeArraySizeException; an empty or reversed range that does not wrap negative gives that many false bits (none for i1 == i2); a forward range gives bits i1 .. i2-1 in order, throwing IndexOutOfBounds when they leave the array |
| ByteLists.RangeSizeWraps | src/io/t99/caffeinesocket/util/ByteList.java:60-92 | the int size i2 - i1 of the slicing constructor and of getBits: a forward range of 2^31 or more wraps to a negative size, a reversed range longer than 2^31 wraps to a non-negative one; so getBits(-2^31, 1) throws and getBits(2^31 - 1, -2^31) yields one false bit |
| ByteLists.ByteList.ResizeUp | src/io/t99/caffeinesocket/util/ByteList.java:104-115 | a fresh array one growth step longer, the old cells first and zeros after |
| ByteLists.ByteList.ResizeDown | src/io/t99/caffeinesocket/util/ByteList.java:117-128 | a fresh array one growth step shorter holding the old leading cells |
| ByteLists.ByteList.Add | src/io/t99/caffeinesocket/util/ByteList.java:130-141 | grows by one step when full, then the contents gain b at the end; size <= capacity is kept |
| ByteLists.ByteList.AddAll | src/io/t99/caffeinesocket/util/ByteList.java:143-159 | grows at most once; appends b's bytes in order when they fit, else stops with the array full and throws |
| ByteLists.ShiftedOut | src/io/t99/caffeinesocket/util/ByteList.java:166-169 | after the two copies the list's cells are the old ones without cell i |
| ByteLists.ByteList.ShiftOut | src/io/t99/caffeinesocket/util/ByteList.java:165-169 | bytes i+1 .. size-1 move one cell left and size drops by one |
| ByteLists.ByteList.Remove | src/io/t99/caffeinesocket/util/ByteList.java:161-175 | throws unless 0 <= i < size; returns the old byte at i, the contents lose exactly that byte, and the array shrinks by a step once a whole step is unused |
| ByteLists.ByteList.Insert | src/io/t99/caffeinesocket/util/ByteList.java:177-181 | the empty stub changes nothing |
| ByteLists.ByteList.Size | src/io/t99/caffeinesocket/util/ByteList.java:184-188 | the number of bytes in the list |
| ByteLists.ByteList.Elements | src/io/t99/caffeinesocket/util/ByteList.java:221-236 | iteration yields exactly the first size() bytes, in order |
| ByteLists.AddZeroToFourteen | src/io/t99/caffeinesocket/CaffeineSocket.java:30-48 | ByteList(10, 5) after adding 0 .. 14 holds them in a 15-cell array |
| ByteLists.RemoveFiveFourNine | src/io/t99/caffeinesocket/CaffeineSocket.java:49-51 | the three removals leave 0,1,2,3,6,7,8,9,10,12,13,14 without shrinking the array |
| ByteLists.MainScenario | src/io/t99/caffeinesocket/CaffeineSocket.java:30-52 | the demonstration ends with contents 0,1,2,3,6,7,8,9,10,12,13,14,15, size 13, capacity 15 |
| Frames.Type.GetOpcode | src/io/t99/caffeinesocket/WebSocketFrame.java:507-533 | each type's opcode is a 4-bit value |
| Frames.GetFrameTypeForOpcode | src/io/t99/caffeinesocket/WebSocketFrame.java:553-580 | succeeds exactly for 0, 1, 2, 8, 9, 10, with the type of that opcode; anything else throws InvalidOpcodeException |
| Frames.TypeRoundTrip | src/io/t99/caffeinesocket/WebSocketFrame.java:529-580 | every type is found again from its opcode |
| Frames.ControlIffHighOpcode | src/io/t99/caffeinesocket/WebSocketFrame.java:507-544 | isControlFrame holds exactly for opcodes of at least 8 (CLOSE, PING, PONG) |
| Frames.WebSocketFrame.constructor | src/io/t99/caffeinesocket/WebSocketFrame.java:210-216 | a new frame has received nothing, every field unset, and meets the class invariant |
| Frames.WebSocketFrame.NewText | src/io/t99/caffeinesocket/WebSocketFrame.java:252-267 | a non-ASCII string throws UnsupportedEncodingException; otherwise FIN and RSV1-3 are false, the type is TEXT, nothing has been received, and MASK, the length indicator, the length, the header size, the key and the payload keep their unset initial values, with the frame neither header-complete nor complete and no close requested |
| Frames.WebSocketFrame.Process | src/io/t99/caffeinesocket/WebSocketFrame.java:269-418 | appends the byte; the result is the decoder's outcome for the bytes so far; the invariant is kept; a CLOSE frame with a complete header asks the parent to close once per call, and an exception from that parent.close() (NullPointerException for a null parent or for a parent that never completed its handshake) propagates out of process with every field already updated |
| Frames.WebSocketFrame.AppendRaw | src/io/t99/caffeinesocket/WebSocketFrame.java:271 | rawMessage gains the byte at its end |
| Frames.WebSocketFrame.Advance | src/io/t99/caffeinesocket/WebSocketFrame.java:273-416 | from fields that describe the earlier bytes, every field afterwards describes all the bytes, and the result or exception is the Outcome |
| Frames.WebSocketFrame.DecodeHeader | src/io/t99/caffeinesocket/WebSocketFrame.java:273-350 | throws exactly on a MASK mismatch; otherwise every header field and headerComplete are those of the bytes so far |
| Frames.WebSocketFrame.DecodeFlags | src/io/t99/caffeinesocket/WebSocketFrame.java:275-312 | FIN, RSV1-3, the type and MASK are those of the bytes so far; reports whether MASK differs from maskRequirement |
| Frames.WebSocketFrame.DecodeLengthAndKey | src/io/t99/caffeinesocket/WebSocketFrame.java:314-348 | the indicator, the length, the key, the header size and headerComplete are those of the bytes so far |
| Frames.WebSocketFrame.DecodeFirstByte | src/io/t99/caffeinesocket/WebSocketFrame.java:275-298 | FIN, RSV1-3 and the type come from the first byte, each read once |
| Frames.WebSocketFrame.KeepOrReadBit | src/io/t99/caffeinesocket/WebSocketFrame.java:277-283 | a set flag is kept, an unset one is read from its bit |
| Frames.WebSocketFrame.ReadFrameType | src/io/t99/caffeinesocket/WebSocketFrame.java:285-298 | the type of the low nibble of byte 0; an unknown opcode's exception is swallowed and the type stays unset |
| Frames.WebSocketFrame.DecodeMask | src/io/t99/caffeinesocket/WebSocketFrame.java:302-312 | MASK is bit 8 once the second byte is in; the call that reads it throws when it differs from maskRequirement |
| Frames.WebSocketFrame.DecodeLength | src/io/t99/caffeinesocket/WebSocketFrame.java:314-339 | the indicator is bits 9-15; the length is the indicator, or the 16- or 64-bit big-endian field once its bytes are in; the header size is 2, 4 or 10 |
| Frames.WebSocketFrame.DecodeLengthField | src/io/t99/caffeinesocket/WebSocketFrame.java:320-339 | exactly one of the three length schemes fires, once its bytes are in |
| Frames.WebSocketFrame.DecodeKey | src/io/t99/caffeinesocket/WebSocketFrame.java:341-346 | for a masked frame, once headerSize + 4 bytes are in, the key is those four bytes and headerSize grows by exactly 4 |
| Frames.WebSocketFrame.RawBit | src/io/t99/caffeinesocket/WebSocketFrame.java:304 | rawMessage.getBit(k) is bit k of the bytes received |
| Frames.WebSocketFrame.RawField | src/io/t99/caffeinesocket/WebSocketFrame.java:316 | binaryToDecimal(getBits(i1, i2)) is the unsigned value of those bits |
| Frames.WebSocketFrame.AreHeadersComplete | src/io/t99/caffeinesocket/WebSocketFrame.java:420-433 | true exactly when every header field is set, the key too when masked |
| Frames.WebSocketFrame.FinishPayload | src/io/t99/caffeinesocket/WebSocketFrame.java:360-390 | an empty payload completes at once with payload null; otherwise completion, the unmasked payload and the missing-key exception are those of the bytes so far |
| Frames.WebSocketFrame.TakePayload | src/io/t99/caffeinesocket/WebSocketFrame.java:369-390 | the call that brings the last payload byte unmasks the payload, or dereferences a missing key |
| Frames.WebSocketFrame.ReadPayload | src/io/t99/caffeinesocket/WebSocketFrame.java:371-380 | the bytes after the header, XOR-unmasked with the key; none when there is no key |
| Frames.WebSocketFrame.UnmaskInto | src/io/t99/caffeinesocket/WebSocketFrame.java:376-380 | payload byte i is raw byte i XOR key[i mod 4] |
| Frames.PrefixFields | src/io/t99/caffeinesocket/WebSocketFrame.java:275-346 | set-once: every header field already set keeps its value when another byte arrives |
| Frames.HeaderStable | src/io/t99/caffeinesocket/WebSocketFrame.java:273-348 | once the header is complete, later bytes change none of it |
| Frames.LengthOfField | src/io/t99/caffeinesocket/WebSocketFrame.java:327-339 | the extended lengths read as bit fields 16 .. 31 and 16 .. 79 are the length of the bytes |
| Frames.MismatchLeavesLengthUnset | src/io/t99/caffeinesocket/WebSocketFrame.java:302-318 | when the MASK check throws, the indicator, length, key and header size stay unset and the header is incomplete |
| Frames.NotCompleteYet | src/io/t99/caffeinesocket/WebSocketFrame.java:360 | until the header is complete, nothing of the payload is set, nothing throws and no close is requested |
| Frames.CompletesOnTime | src/io/t99/caffeinesocket/WebSocketFrame.java:341-348 | the header completes on the call that brings its last byte, one call later only for an unmasked frame whose MASK check threw |
| Frames.CompleteStable | src/io/t99/caffeinesocket/WebSocketFrame.java:360-390 | isComplete, once true, is never reset by later bytes |
| Frames.PayloadStable | src/io/t99/caffeinesocket/WebSocketFrame.java:360-390 | the completion block keeps or sets isComplete and payload as the bytes say |
| FrameLayout.FirstByteFields | src/io/t99/caffeinesocket/WebSocketFrame.java:275-290 | bits 0-3 of byte 0 are its four high bits and bits 4-7 its low nibble |
| FrameLayout.SecondByteFields | src/io/t99/caffeinesocket/WebSocketFrame.java:302-316 | bit 8 is the top bit of byte 1 and bits 9-15 its low seven bits |
| FrameLayout.ExtendedLength | src/io/t99/caffeinesocket/WebSocketFrame.java:327-337 | the bits from 16 are the big-endian value of the bytes from 2 |
| FrameLayout.ValueBitsOf | src/io/t99/caffeinesocket/WebSocketFrame.java:327-337 | the MSB-first value of a byte sequence's bits is its big-endian value |
| FrameLayout.UnmaskInvolution | src/io/t99/caffeinesocket/WebSocketFrame.java:376-380 | unmasking twice with the same key gives the payload back |
| FrameLayout.BigEndianRoundTrip | src/io/t99/caffeinesocket/WebSocketFrame.java:327-337 | a number written in n bytes of network order is read back unchanged when it fits |
| FrameProperties.FirstByteRoundTrip | src/io/t99/caffeinesocket/WebSocketFrame.java:275-298 | the decoder reads back the FIN, RSV1-3 and type that an encoder put in the first byte |
| FrameProperties.LengthRoundTrip | src/io/t99/caffeinesocket/WebSocketFrame.java:314-339 | every length below 2^64 in its shortest scheme reads back with the indicator of its class and header size 2, 4 or 10 |
| FrameProperties.SmallLengthRoundTrip | src/io/t99/caffeinesocket/WebSocketFrame.java:320-325 | a length up to 125 is its own indicator |
| FrameProperties.MediumLengthRoundTrip | src/io/t99/caffeinesocket/WebSocketFrame.java:327-332 | a length of 126 .. 65535 reads back from indicator 126 and the 16-bit field |
| FrameProperties.LargeLengthRoundTrip | src/io/t99/caffeinesocket/WebSocketFrame.java:334-339 | a length of 65536 or more reads back from indicator 127 and the 64-bit field |
| FrameProperties.FrameRoundTrip | src/io/t99/caffeinesocket/WebSocketFrame.java:269-418 | decoding an encoded masked frame with the mask required gives back every header field, completes without throwing, and yields the sender's data (null for an empty payload) |
| FrameProperties.EncodedHeader | src/io/t99/caffeinesocket/WebSocketFrame.java:275-346 | the header half of the round trip: the fields up to the key, and where the key and payload lie |
| FrameProperties.MaskedPayload | src/io/t99/caffeinesocket/WebSocketFrame.java:341-390 | the key half of the round trip: the key, the header size, completion and the unmasked payload |
| FrameProperties.LengthBounds | src/io/t99/caffeinesocket/WebSocketFrame.java:314-339 | each scheme's length lies within its field's range, the 7-bit one at most 125 |
| FrameProperties.UnknownOpcodeNeverCompletes | src/io/t99/caffeinesocket/WebSocketFrame.java:285-298 | an unrecognised opcode leaves the header incomplete for ever, so process never reports completion |
| FrameProperties.UnmaskedPayloadNeverCompletes | src/io/t99/caffeinesocket/WebSocketFrame.java:369-378 | an unmasked non-empty frame never completes and throws NullPointerException exactly at its last byte |
| Messages.WebSocketMessage.constructor | src/io/t99/caffeinesocket/WebSocketMessage.java:68-166 | a new message is INCOMPLETE with no bits and every field unset |
| Messages.Step | src/io/t99/caffeinesocket/WebSocketMessage.java:168-279 | one call's effect on the fields, given every bit received; a key read is always 32 bits |
| Messages.WebSocketMessage.Process | src/io/t99/caffeinesocket/WebSocketMessage.java:168-279 | appends the bits, then the fields and the state returned (or the exception) are Step's; Reachable is kept |
| Messages.WebSocketMessage.ReadHeaderBits | src/io/t99/caffeinesocket/WebSocketMessage.java:172-239 | the header phases before the key |
| Messages.WebSocketMessage.ReadFlagBits | src/io/t99/caffeinesocket/WebSocketMessage.java:172-194 | FIN and RSV1-3 are bits 0-3, each set once it has arrived |
| Messages.WebSocketMessage.ReadFinRsv1 | src/io/t99/caffeinesocket/WebSocketMessage.java:172-182 | FIN and RSV1, each set once its bit has arrived |
| Messages.WebSocketMessage.ReadRsv2Rsv3 | src/io/t99/caffeinesocket/WebSocketMessage.java:184-194 | RSV2 and RSV3, each set once its bit has arrived |
| Messages.WebSocketMessage.ReadOpcodeBits | src/io/t99/caffeinesocket/WebSocketMessage.java:196-200 | the opcode is bits 4-7 as an unsigned number, never validated |
| Messages.WebSocketMessage.ReadMaskBit | src/io/t99/caffeinesocket/WebSocketMessage.java:202-212 | MASK is bit 8; an unmasked message sets ERROR |
| Messages.WebSocketMessage.ReadPayloadLength | src/io/t99/caffeinesocket/WebSocketMessage.java:214-239 | the placeholder is bits 9-15; the length and header size follow the scheme, the extended ones converted from bit 9 |
| Messages.WebSocketMessage.ReadMaskingKey | src/io/t99/caffeinesocket/WebSocketMessage.java:241-246 | once headerSize + 32 bits are in, the key is those 32 bits and headerSize grows by 32; an unset headerSize throws |
| Messages.WebSocketMessage.CompleteIfDone | src/io/t99/caffeinesocket/WebSocketMessage.java:248-265 | the completion check of Step: unmask and set COMPLETE, or throw |
| Messages.WebSocketMessage.FormMessage | src/io/t99/caffeinesocket/WebSocketMessage.java:281-289 | clears FIN and RSV1-3 and nothing else |
| Messages.UnmaskPayload | src/io/t99/caffeinesocket/WebSocketMessage.java:256-263 | payload octet i XOR key octet i mod 4, octet by octet |
| Messages.UnmaskBitsInvolution | src/io/t99/caffeinesocket/WebSocketMessage.java:256-263 | unmasking twice with the same key gives the payload back |
| Messages.InitialReachable | src/io/t99/caffeinesocket/WebSocketMessage.java:68-166 | a new message meets the invariant |
| Messages.HeaderKeepsReachable | src/io/t99/caffeinesocket/WebSocketMessage.java:172-239 | the header phases keep the invariant |
| Messages.KeyKeepsReachable | src/io/t99/caffeinesocket/WebSocketMessage.java:241-246 | reading the key keeps the invariant |
| Messages.FinishKeepsReachable | src/io/t99/caffeinesocket/WebSocketMessage.java:248-265 | the completion check keeps the invariant |
| Messages.StepKeepsReachable | src/io/t99/caffeinesocket/WebSocketMessage.java:168-279 | whatever bits a call brings, and whether or not it throws, the fields afterwards are what all the bits determine |
| Messages.StateTransitions | src/io/t99/caffeinesocket/WebSocketMessage.java:202-277 | process returns the state it leaves; ERROR and COMPLETE are never left; ERROR is exactly an unmasked message |
| Messages.MeaningBounds | src/io/t99/caffeinesocket/WebSocketMessage.java:214-239 | placeholder, length and header size are in range once set, and set together |
| Messages.CompletionCheckExact | src/io/t99/caffeinesocket/WebSocketMessage.java:156-248 | the completion check computes exactly: payloadLengthBytes is a long, so times 8 it cannot wrap, and the int subtraction rawMessage.size() - headerSize never wraps for a message under 2^31 bits |
| Messages.PrefixMeaning | src/io/t99/caffeinesocket/WebSocketMessage.java:214-239 | placeholder and length, once set, keep their values as bits arrive |
| Messages.MaskedFrameLayout | src/io/t99/caffeinesocket/WebSocketMessage.java:172-246 | where the fields of a masked frame with a 7-bit length sit in its bits |
| Messages.MaskedFrameCompletes | src/io/t99/caffeinesocket/WebSocketMessage.java:168-279 | whatever calls came before, the call that ends at the end of a masked frame with a non-empty 7-bit-length payload returns COMPLETE with the sender's data |
| Messages.ShortPayloadThrowsBeforeKey | src/io/t99/caffeinesocket/WebSocketMessage.java:241-256 | a payload of one to three octets reaches the completion check before its key and throws NullPointerException |
| Messages.EmptyPayloadThrows | src/io/t99/caffeinesocket/WebSocketMessage.java:248-250 | an empty payload makes getSubset throw on the empty range and never completes |
| Messages.ExtendedMaskedFrameThrows | src/io/t99/caffeinesocket/WebSocketMessage.java:241-246 | with an extended length still unread, the key guard calls getSubset(-1, 31) and throws |
| Messages.LargeFrameNeverCompletes | src/io/t99/caffeinesocket/WebSocketMessage.java:234-239 | the 64-bit scheme's length saturates, so such a message never completes |
| Messages.MediumLengthAsWritten | src/io/t99/caffeinesocket/WebSocketMessage.java:227-232 | the 16-bit scheme's length as written is 126 * 65536 more than the one the frame carries |
| Messages.LargeLengthAsWritten | src/io/t99/caffeinesocket/WebSocketMessage.java:234-239 | the 64-bit scheme converts 71 bits and always saturates at Integer.MAX_VALUE |
| Messages.MediumFrameMissesItsEnd | src/io/t99/caffeinesocket/WebSocketMessage.java:227-265 | the call that ends a whole 16-bit-length frame returns INCOMPLETE |
| Messages.IntendedLengthMatchesFrameDecoder | src/io/t99/caffeinesocket/WebSocketMessage.java:227-239 | the intended length, read from bit 16, is the length the byte-level decoder reads from the same bytes |
| WebSockets.State.GetOperatingStatus | src/io/t99/caffeinesocket/WebSocket.java:319-343 | true exactly for HANDSHAKING, RUNNING and CLOSING, the states that can advance other than PRESTART |
| WebSockets.State.Advance | src/io/t99/caffeinesocket/WebSocket.java:345-366 | each state but CLOSED and ERRORED moves one step forward in the chronological order; those two throw IllegalStateException |
| WebSockets.Lifecycle | src/io/t99/caffeinesocket/WebSocket.java:319-366 | from PRESTART, advancing visits HANDSHAKING, RUNNING, CLOSING, CLOSED, then throws; the operating states are exactly those one to three steps on |
| WebSockets.RunEnd | src/io/t99/caffeinesocket/WebSocket.java:189 | \S+ is greedy: the run ends at the first whitespace or the end |
| WebSockets.FirstKeyFrom | src/io/t99/caffeinesocket/WebSocket.java:189-193 | Matcher.find: the leftmost position where the pattern matches |
| WebSockets.FindKey | src/io/t99/caffeinesocket/WebSocket.java:189-197 | the key is present exactly when the pattern matches somewhere; then it is the whole non-whitespace run after the first matching "Sec-WebSocket-Key: ", otherwise null |
| WebSockets.FindKeyInRequest | src/io/t99/caffeinesocket/WebSocket.java:189-197 | in headers with no earlier marker, the key extracted is exactly the value written after the marker |
| WebSockets.DigestInput | src/io/t99/caffeinesocket/WebSocket.java:203 | the key, or "null" when none was found, followed by the GUID of section 1.3 of RFC 6455 |
| WebSockets.Response | src/io/t99/caffeinesocket/WebSocket.java:213-219 | the 101 response starts with the status line, carries the accept value after the fixed headers, and ends with a blank line |
| WebSockets.ResponseInjective | src/io/t99/caffeinesocket/WebSocket.java:213-219 | distinct accept values give distinct responses |
| WebSockets.WebSocket.constructor | src/io/t99/caffeinesocket/WebSocket.java:105-111 | a new WebSocket is in PRESTART with no socket or streams |
| WebSockets.WebSocket.Handshake | src/io/t99/caffeinesocket/WebSocket.java:113-240 | returns true exactly when no I/O step fails and the client sends a header token, ending RUNNING; a failing step returns false and leaves ERRORED; with no token Scanner.next throws NoSuchElementException after socket and streams are set, leaving HANDSHAKING (ERRORED after an unknown host); an unknown host alone does not stop it; the response written is the 101 response for the key found |
| WebSockets.WebSocket.Close | src/io/t99/caffeinesocket/WebSocket.java:242-294 | closes input, output and socket in turn; all succeeding gives CLOSED, the first failure ERRORED and false, a null reference an exception with the state left CLOSING |
| WebSockets.CloseOutcome | src/io/t99/caffeinesocket/WebSocket.java:242-294 | close returns true exactly when every reference is set and every close succeeds, and throws only NullPointerException |
| WebSockets.CloseAfterHandshake | src/io/t99/caffeinesocket/WebSocket.java:242-294 | after a successful handshake close cannot throw, and returns true exactly when the three closes succeed |

## Left out

- WebSocketListener's reading thread, the `provideInputStream` hand-over and the thread naming. These are concurrency and I/O.
- Socket and stream I/O. `ServerSocket`, `accept`, `getInputStream`, `getOutputStream`, `write` and `close` are not performed; whether each one fails is a field of the `Environment` parameter. The `Scanner` read of the headers is replaced by its first token in that parameter, or by its absence, which makes `next()` throw. The unknown-host outcome arises only while debug output is on, because `InetAddress.getLocalHost()` is called only then.
- The SHA-1 digest and Base64 encoding. They are a function parameter `accept` of `WebSockets.WebSocket.Handshake`.
- `WebSocket.generateName`, which uses `java.util.Random`. The name is a constructor parameter, so the no-argument, name-only and port-only constructors all reduce to `WebSocket(name, port)`.
- `WebSocket.getState`, a plain field read.
- All debug and print output: `getDebugInfo` of WebSocketFrame and ByteList, `ByteList.hrArray`, `Binary.toFormattedString`, the `textPayload` text built and printed by WebSocketFrame, the `System.out.print` loop of WebSocketMessage, the process-wide debug flag, and CaffeineSocket's `main` printing and `shifter`.
- Floating point. `Math.log(factor)/Math.log(2)` is the exact integer `Log2`. `dec += Math.pow(2, bit)` is the exact sum saturated at Integer.MAX_VALUE (`Saturate`), which is what the compound assignment's double-to-int cast does.
- `NumberBaseConverter.binaryToDecimal`, `signedByteToBinary` and `signedByteToDecimal` are not part of this model's sources. They are given their stated meaning as definitions: `Value`/`Field` (unsigned, MSB-first) and `ByteBits` (eight MSB-first bits).
- OutOfMemoryError. Every allocation succeeds in the model, including the up to 2^31 - 1 false bits that `getBits` allocates when a reversed range's size wraps to a non-negative int.
- `synchronized` on ByteList's methods. The model is sequential.
- The outgoing-frame constructors of WebSocketFrame that take a control type with a String, a ByteList or nothing (WebSocketFrame.java:218-250). They only set fields and are unfinished.
- `StringUtils.isPureASCII` is the predicate `IsPureAscii`: every character is below 128.
- `Binary.toBooleanArray` and the `Binary(Binary, i1)` / `Binary(Binary, i1, i2)` constructors. They wrap the bits that `GetSubsetFrom` and `GetSubset` return.
- WebSocketFrame's `maskingKey` and `payload` are ByteLists in the source; the model holds them as byte sequences. WebSocketMessage's `maskingKey` and `payload` Binaries are likewise held as bit sequences. Aliasing of these objects is not modelled.
- `parent.close()` from a CLOSE frame is modelled as a count of close requests (`closeRequests`) and a parameter of `Frames.WebSocketFrame.Process` holding what that call returns or throws. The effect on the parent WebSocket's state is left to `WebSockets.WebSocket.Close`, whose outcome is `WebSockets.CloseOutcome`.
- Frames.WebSocketFrame.Process: requires fewer than 2^31 - 1 bytes received. This keeps the `(int) payloadLength` cast and the int arithmetic of the size comparison exact. A longer frame, whose 64-bit length exceeds the int range, is not modelled.
- ByteLists.ByteList.New: requires a growth step of at least 1. The source accepts any int, and a step of 0 or less makes a later add into a full array throw.
- ByteLists.ByteList.Slice: requires a growth step of at least 1, for the same reason.
- ByteLists.ByteList.AddAll: requires the argument to be a different list with a different array. Appending a list to itself is not modelled.
- NumberBaseConverter.DecToBin: for 2^30 <= dec the model returns the intended binary form. The source never leaves its search loop there: the list grows by one bit per pass until the JVM runs out of memory (see Findings and `NumberBaseConverter.SearchNeverEnds`).
- NumberBaseConverter.FindHighestPower: the corrected search, whose `i1 * 2` does not wrap, so it ends for every non-negative dec; the search as written is `NumberBaseConverter.SearchCursor`.
- The message reassembly across continuation frames, automatic Pong replies and the control-frame FIN/length checks are not implemented by the source, so there is nothing to model.

## Findings

| source | as written | input that shows it | evidently intended | confidence | as-written member | corrected member |
|---|---|---|---|---|---|---|
| src/io/t99/caffeinesocket/util/NumberBaseConverter.java:37-51 | the search doubles `i1` in 32-bit int arithmetic. Past 2^30 it wraps to -2^31, then to 0, so `i1 * 2 > dec` never holds and the call never leaves the search loop; the list grows by one bit per pass (NumberBaseConverter.java:46) until the JVM runs out of memory | `decToBin(1073741824)`, or any dec of at least 2^30 | stop at the highest power of two not above dec | not executed | NumberBaseConverter.SearchNeverEnds | NumberBaseConverter.DecToBin |
| src/io/t99/caffeinesocket/WebSocketMessage.java:227-239 | the extended payload length is converted from bit 9, so the 7-bit indicator is counted into it | a masked frame with indicator 126 and a 16-bit length of 126 octets: the length reads as 126 * 65536 + 126 and the frame's last call returns INCOMPLETE | the 16- or 64-bit field that starts at bit 16 (section 5.2 of RFC 6455) | not executed | Messages.MediumFrameMissesItsEnd | Messages.IntendedLengthMatchesFrameDecoder |
| src/io/t99/caffeinesocket/util/Binary.java:126-140 | `logicalAnd`'s loop body is `^` | `logicalAnd([true], [true])` gives `[false]` | bitwise conjunction `&` | not executed | Bits.AndOrAsWritten | Bits.LogicalAndIntended |
| src/io/t99/caffeinesocket/util/Binary.java:142-156 | `logicalOr`'s loop body is `^` | `logicalOr([true], [true])` gives `[false]` | bitwise disjunction `\|` | not executed | Bits.AndOrAsWritten | Bits.LogicalOrIntended |
