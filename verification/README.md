# A verified model of the home-proxy repository

This Dafny project models the algorithmic heart of the repository — a WebSocket library and the programs
around it that tunnel HTTP — and proves what that code is for. Each module follows one component of the
source. Code that changes state step by step is a method or a class over arrays, proved against a short
independent definition; the promises about that definition are lemmas over every input or every run.

| files | component | main results |
|---|---|---|
| `Crc32`, `Crc32Combine` | `crc32.c` | the slice-by-four loops in both byte orders equal the bit-at-a-time CRC; combining two CRCs gives that of the concatenation |
| `Adler32` | `adler32.c` | deferred reduction is exact and never overflows; combining two checksums gives that of the concatenation |
| `Sha1`, `Sha1Parts`, `Memory` | `sha-1.c` | the circular sixteen-word schedule and the streaming context compute the digest of FIPS 180-1; input may be divided anywhere |
| `WsFrame`, `WsWire`, `WsReceive`, `WsParser`, `WsWrite` | `output.c`, `parsers.c`, `client-parser.c` | frames written by either side are read back by the other, stated exactly; spills, bounded buffer, any division into reads |
| `WsSend`, `WsFlow` | `output.c`, `parsers.c`, `libwebsockets.c` | partial sends and receive throttling lose, repeat and reorder nothing, end to end |
| `Minilex` | `minilex.c`, `lextable_decode` | a keyword set compiled to bytecode is recognised exactly |
| `UriPath`, `UriTarget` | `libwebsocket_parse` | the stored path of a request is safe at every character, if and only if the first character to reach the path states is a slash; escapes are stored as the bytes they stand for |
| `Bytes`, `Json`, `JsonParse`, `JsonUnicode`, `JsonNumber`, `JsonWords`, `JsonRoundTrip`, `JsonPrint`, `JsonRead`, `JsonLimits` | `cJSON.c` | numbers and escapes are read as RFC 8259 and RFC 3629 have them; printing a value and parsing the text gives it back, every write inside its allocation, if and only if every length counted stays in the range of an int |
| `BufPool`, `ChunkCode`, `Dechunk`, `ChunkWords` | `http_client.c`, `http_parse` | a chunked response is decoded in place over pooled buffers; no buffer is lost or in two places |
| `TunnelCode`, `Tunnel` | `server.js`, `http_client.c`, `http_mgmt_prepare` | tunnel messages are reassembled from any pieces; nineteen buffers are always enough |
| `Proxy`, `ProxyRun` | `simpleproxy.py` | in every run each direction forwards what it receives, in order, through a bounded buffer, and every selected socket is served |

Sockets, `select`, `poll` and user callbacks are parameters: what a call meets is given to it, and what it
received, sent or delivered is kept in ghost logs. C words are 32-bit bit-vectors, a 32-bit newtype whose
range is checked at every operation, or numbers with the wrap-around written out (`CWords`).

Where the code does not do what its comments or documentation promise, the model follows the code, and the
promise is stated with its exact condition:

- `libwebsocket_write` puts every length through an `int`, and the length of a data frame through another, so a
  message arrives if and only if its whole frame, header and key included, is shorter than 2^31 (and it is not an
  overlong control frame or an empty message): `WsWrite.ServerRoundTrip`, `WsWrite.ClientRoundTrip`.
  `WsWrite.LongMessage` is the shortest message of either side that does not arrive, and of the message of
  `WsWrite.OneByteOfMany`, 2^32 + 1 bytes, one is sent. The masking loop has an `int` of its own, which overflows for
  payloads of 2^31 - 4 bytes or more (`WsWrite.GarbledIs`); no message that arrives is that long.
- A client's close frame with a reason puts the key where it belongs without one: what arrives as the reason are key
  bytes exclusive-ored with what was in memory (`WsWrite.ReasonIs`; `WsWrite.ReasonLost` is an instance).
- Control frames of 126 bytes or more are written but cannot be read (`WsWrite.ServerRoundTrip`,
  `WsWrite.LongPing`), and a server does not see an unmasked empty frame whose length is in extended form
  (`WsReceive.FeedFrame`, `WsReceive.EmptyNotSeen`).
- The remainder of a short send is kept in 32 bits (`WsSend.Sender.IssueNew`, `WsSend.RemainderLost`).
- Bytes stashed by a throttled connection stay there when another connection releases it, unless a service
  call was due anyway (`WsFlow.Connection.ReleaseFromOutside`; `WsFlow.Stall` is a run that ends so).
- `adler32` of one byte does not reduce a starting value that is out of range (`Adler32.Adler32`,
  `Adler32.NotReduced`), and combining checksums out of range may not reduce the sums (`Adler32.CombineSums`,
  `Adler32.NotCombined`).
- The stored path of a request is safe exactly if the first character that reaches the path states is a slash
  (`UriPath.SafeIff`); a target of two dots is stored as it is (`UriPath.DotsWithoutSlash`). A question mark
  that finds the store full is written past its end (`UriPath.RunOverrun`, `UriPath.FullAtQuestion`).
- The lengths that the JSON printer and parser count in an `int` can be too long for one: then nothing is
  printed or read, or a write runs past its allocation (`JsonPrint.PrintValue`, `JsonParse.SizedIff`,
  `JsonLimits.PrintThenParse`; `JsonLimits.TooManyEscapes`, `JsonLimits.FiveLongStrings` and
  `JsonLimits.TooLongToScan` are such texts).
- A header that fills its buffer, with data behind it, leaves a buffer one byte longer than the others, and
  nothing else does (`Dechunk.Parse.ParseResponse`; `Dechunk.FillingHeader` is such a header).
- A tunnel message without payload is not delivered (`TunnelCode.DeliveredIff`). One that begins after a
  timeout while another is unfinished is lost, or is written to a buffer already freed (`Tunnel.Mgmt.Prepare`
  says when; `Tunnel.LostAfterTimeout` is such a run).
- The proxy's count of active connections is right exactly if no connection was closed before it was connected
  (`Proxy.ProxyServer.CountRight`); it can be -1 (`Proxy.CountBelowZero`).

## Model

| member | source | states |
|---|---|---|
| Crc32.ShiftBitsLinear | libwebsockets/win32port/zlib/crc32.c:132-134 | any number of shifts of the register distributes over exclusive-or, which every table method rests on |
| Crc32.FeedByte | libwebsockets/win32port/zlib/crc32.c:217 | eight bits of a byte coming in one at a time are eight shifts of the register exclusive-ored with the byte |
| Crc32.RegisterWord | libwebsockets/win32port/zlib/crc32.c:258-260 | four bytes coming in bit by bit are thirty-two shifts of the register exclusive-ored with their little-endian word |
| Crc32.RegisterAppend | libwebsockets/win32port/zlib/crc32.c:221-247 | the register after a concatenation is that after its parts in turn |
| Crc32.NextEntry | libwebsockets/win32port/zlib/crc32.c:141-147 | an entry of table k+1 follows from table k by one byte step |
| Crc32.RevShift | libwebsockets/win32port/zlib/crc32.c:298-300 | a byte-reversed register shifts the other way |
| Crc32.MakePolynomial | libwebsockets/win32port/zlib/crc32.c:122-127 | the list of the polynomial's terms makes 0xedb88320 |
| Crc32.Polynomial | libwebsockets/win32port/zlib/crc32.c:122-127 | with its bits in the other order it is 0x04c11db7, the polynomial of IEEE 802.3 |
| Crc32.CheckValue | libwebsockets/win32port/zlib/crc32.c:239-247 | the CRC-32 of the letter a is 0xe8b7be43 |
| Crc32.MakeEntry | libwebsockets/win32port/zlib/crc32.c:129-135 | entry n of table 0 is n put through eight shifts of the register |
| Crc32.MakeColumn | libwebsockets/win32port/zlib/crc32.c:138-147 | the later entries of a column are n put through 16, 24 and 32 shifts, and the byte reversals of all four; no other column changes |
| Crc32.MakeCrcTable | libwebsockets/win32port/zlib/crc32.c:108-172 | all eight tables are right, entry by entry, against the bit-at-a-time register |
| Crc32.TableByte | libwebsockets/win32port/zlib/crc32.c:217 | a table step is eight bit steps |
| Crc32.TableWord | libwebsockets/win32port/zlib/crc32.c:258-260 | the four-table step is thirty-two shifts of the register |
| Crc32.TableWordRev | libwebsockets/win32port/zlib/crc32.c:298-300 | the same of the byte-reversed tables on a byte-reversed register |
| Crc32.DoLit4 | libwebsockets/win32port/zlib/crc32.c:258-260 | four bytes in one step: the register after those bytes came in bit by bit |
| Crc32.DoLit32 | libwebsockets/win32port/zlib/crc32.c:261 | thirty-two bytes in eight steps, the same |
| Crc32.DoBig4 | libwebsockets/win32port/zlib/crc32.c:298-300 | four bytes in one step on a byte-reversed register |
| Crc32.Crc32Little | libwebsockets/win32port/zlib/crc32.c:264-295 | whatever the alignment, starting value and length: the bit-at-a-time CRC |
| Crc32.Crc32Big | libwebsockets/win32port/zlib/crc32.c:304-337 | the same for the byte-reversed form |
| Crc32.Crc32Bytes | libwebsockets/win32port/zlib/crc32.c:239-247 | the same for the byte-table form |
| Crc32.Crc32 | libwebsockets/win32port/zlib/crc32.c:221-247 | 0 for a null buffer; otherwise the bit-at-a-time CRC on every kind of machine |
| Crc32Combine.ApplyLinear | libwebsockets/win32port/zlib/crc32.c:344-358 | a matrix times a vector is linear in the vector |
| Crc32Combine.Gf2MatrixTimes | libwebsockets/win32port/zlib/crc32.c:344-358 | the loop over the vector's bits computes the product over GF(2) |
| Crc32Combine.Gf2MatrixSquare | libwebsockets/win32port/zlib/crc32.c:361-369 | the square applied to any vector is the matrix applied twice |
| Crc32Combine.SquareShifts | libwebsockets/win32port/zlib/crc32.c:361-369 | squaring an operator of n zero bits gives that of 2n |
| Crc32Combine.MakeOneBit | libwebsockets/win32port/zlib/crc32.c:387-393 | the initial matrix is the operator of one zero bit |
| Crc32Combine.TakeDigit | libwebsockets/win32port/zlib/crc32.c:402-421 | one turn of the loop: a digit of the length taken with the operator of that turn |
| Crc32Combine.Crc32Combine | libwebsockets/win32port/zlib/crc32.c:372-425 | the alternating even and odd matrices apply the operator of 8 len2 zero bits, none for a length of 0 or less, before the second CRC is taken in |
| Crc32Combine.RegisterAffine | libwebsockets/win32port/zlib/crc32.c:344-425 | the register after a string is affine in the register before it |
| Crc32Combine.CrcContinues | libwebsockets/win32port/zlib/crc32.c:221-247 | the CRC of a concatenation is that of its second part continuing from that of its first |
| Crc32Combine.CombineConcat | libwebsockets/win32port/zlib/crc32.c:372-425 | the combination of the CRCs of any two strings is the CRC of their concatenation |
| Adler32.SumAppend | libwebsockets/win32port/zlib/adler32.c:18-22 | both sums over a concatenation continue from those over its first part |
| Adler32.SumModBase | libwebsockets/win32port/zlib/adler32.c:26-57 | both sums depend on their starting values only modulo the base, so reduction may wait |
| Adler32.SumBounds | libwebsockets/win32port/zlib/adler32.c:15-16 | how large the sums over n bytes can be, from any start |
| Adler32.ChecksumOfAbc | libwebsockets/win32port/zlib/adler32.c:60-128 | the checksum of "abc" is 0x024d0127 |
| Adler32.BlockFits | libwebsockets/win32port/zlib/adler32.c:15-16 | within NMAX bytes neither sum reaches 2^32, and within fifteen the short reductions are enough |
| Adler32.ModSubtract | libwebsockets/win32port/zlib/adler32.c:26-45 | the seventeen conditional subtractions compute the remainder of every 32-bit value |
| Adler32.Mod4Subtract | libwebsockets/win32port/zlib/adler32.c:46-53 | the five conditional subtractions compute the remainder of every value below 32 times the base |
| Adler32.DoBytes | libwebsockets/win32port/zlib/adler32.c:18-22 | the unrolled steps compute the two sums, with no 32-bit wrap-around in a block |
| Adler32.SumBlock | libwebsockets/win32port/zlib/adler32.c:95-119 | a block, its odd bytes and the two reductions: the reduced sums |
| Adler32.AdlerOne | libwebsockets/win32port/zlib/adler32.c:74-82 | one byte; the second sum is right if and only if it stays below twice the base |
| Adler32.AdlerShort | libwebsockets/win32port/zlib/adler32.c:88-98 | fewer than sixteen bytes: the reduced sums |
| Adler32.AdlerLong | libwebsockets/win32port/zlib/adler32.c:100-127 | any length: the reduced sums, whatever the number of deferred blocks |
| Adler32.Adler32 | libwebsockets/win32port/zlib/adler32.c:60-128 | 1 for a null buffer; otherwise the modular definition, except for a single byte from a start that is not reduced: stated exactly, in both directions |
| Adler32.NotReduced | libwebsockets/win32port/zlib/adler32.c:74-82 | a zero byte after the largest sums: the result is not the checksum |
| Adler32.CombineSums | libwebsockets/win32port/zlib/adler32.c:139-151 | four conditional subtractions reduce both sums, without overflow, if and only if the first is below three times the base and the second below four times |
| Adler32.NotCombined | libwebsockets/win32port/zlib/adler32.c:139-151 | two checksums out of range for which neither sum is reduced |
| Adler32.CombineSecond | libwebsockets/win32port/zlib/adler32.c:139-147 | reducing the length and the product first gives the same second sum |
| Adler32.SumsCombine | libwebsockets/win32port/zlib/adler32.c:131-152 | the reduced sums of a concatenation from those of its parts, the second started from 1 |
| Adler32.ReducedCombinable | libwebsockets/win32port/zlib/adler32.c:139-151 | as they are for all reduced checksums |
| Adler32.Adler32Combine | libwebsockets/win32port/zlib/adler32.c:131-152 | in 32-bit variables, what combining the two sums means, wherever the subtractions are enough |
| Adler32.CombineConcat | libwebsockets/win32port/zlib/adler32.c:131-152 | the combination of the checksums of any two strings is the checksum of their concatenation |
| Sha1.PourSplit | libwebsockets/lib/sha-1.c:288-311 | input poured in two parts leaves the context that one pouring leaves |
| Sha1.PourPiece | libwebsockets/lib/sha-1.c:298-310 | a piece copied at once is the piece poured byte by byte, with the block compressed when it fills |
| Sha1.PourBlocks | libwebsockets/lib/sha-1.c:288-311 | a fresh context after any input holds the compression of every whole block and the rest of the input |
| Sha1.CircularNext | libwebsockets/lib/sha-1.c:201-230 | sixteen words used in a circle hold the latest words of the eighty-word expansion |
| Sha1.Turn | libwebsockets/lib/sha-1.c:202-208 | one turn of the loop is one round of section 7 of FIPS 180-1, with the word of the expansion |
| Sha1.RunRounds | libwebsockets/lib/sha-1.c:201-230 | the four loops are the eighty rounds over the expansion of the block |
| Sha1.Sha1Ctxt.constructor | libwebsockets/lib/sha-1.c:243-252 | a fresh context: the initial values, nothing counted |
| Sha1.Sha1Ctxt.LoadWords | libwebsockets/lib/sha-1.c:161-197 | the block's bytes swapped in place read as the sixteen big-endian words |
| Sha1.Sha1Ctxt.Step | libwebsockets/lib/sha-1.c:155-239 | the state becomes the compression of the block, and the block is cleared |
| Sha1.Sha1Ctxt.CopyPiece | libwebsockets/lib/sha-1.c:299-309 | a piece no longer than the gap, poured in |
| Sha1.Sha1Ctxt.Loop | libwebsockets/lib/sha-1.c:288-311 | the context is that of the bytes poured in one by one, and the bit counter goes up by eight times their number, modulo 2^64 |
| Sha1.Sha1Ctxt.Pad | libwebsockets/lib/sha-1.c:254-286 | the padding of section 4 of FIPS 180-1 is poured in |
| Sha1.Sha1Ctxt.Result | libwebsockets/lib/sha-1.c:313-334 | the digest bytes of the padded context, most significant first |
| Sha1.DigestByPouring | libwebsockets/lib/sha-1.c:340-350 | pouring a message and its padding into a fresh context gives the digest by blocks |
| Sha1.SHA1 | libwebsockets/lib/sha-1.c:340-350 | for every message whose bit count fits 64 bits, the digest of FIPS 180-1 |
| Sha1Parts.Constants | libwebsockets/lib/sha-1.c:120-121 | the four constants are 2^30 times the roots of 2, 3, 5 and 10, cut to whole numbers |
| Sha1Parts.Initial | libwebsockets/lib/sha-1.c:247-251 | the initial values are nibbles counted up and down |
| Sha1Parts.Chooses | libwebsockets/lib/sha-1.c:124 | the first twenty rounds choose between two words bit by bit |
| Sha1Parts.Majority | libwebsockets/lib/sha-1.c:126 | the third twenty take the majority of three |
| Sha1Parts.Parity | libwebsockets/lib/sha-1.c:125-127 | the others take their parity |
| Sha1Parts.RotateOne | libwebsockets/lib/sha-1.c:129 | a rotation by one brings the top bit round |
| Sha1Parts.RotateFive | libwebsockets/lib/sha-1.c:129 | a rotation by five is five of those |
| Sha1Parts.RotateThirty | libwebsockets/lib/sha-1.c:129 | one by thirty lacks two of a full turn |
| Sha1Parts.WordBytes | libwebsockets/lib/sha-1.c:320-333 | a word of the digest is stored in the bytes that make it, the most significant first |
| Sha1Parts.CountBytes | libwebsockets/lib/sha-1.c:275-285 | so is the bit count |
| WsFrame.AddDigit | libwebsockets/lib/parsers.c:694-752 | adding the next digit of a length back |
| WsWire.BigEndianValue | libwebsockets/lib/output.c:513-531 | the bytes of a length have it as their value, the most significant first |
| WsWire.LengthIs | libwebsockets/lib/output.c:497-533 | the second byte and the length behind it, in the numbers of section 5.2 of RFC 6455 |
| WsWire.Wire | libwebsockets/lib/output.c:451-563 | a frame byte by byte in those numbers: FIN and opcode, mask bit and length, key, and payload exclusive-ored with it |
| WsReceive.Step | libwebsockets/lib/parsers.c:538-823 | one byte takes a valid state to a valid state or ends the connection |
| WsReceive.FeedAppend | libwebsockets/lib/parsers.c:986-1017 | feeding a concatenation is feeding its parts in turn |
| WsReceive.FeedLen16 | libwebsockets/lib/parsers.c:679-692 | the two bytes of a 16-bit length leave that length |
| WsReceive.FeedLen64 | libwebsockets/lib/parsers.c:708-752 | the later bytes of a 64-bit length leave that length |
| WsReceive.FeedLength | libwebsockets/lib/parsers.c:643-752 | every form of length is read back, and an extended one on a control frame ends the connection |
| WsReceive.FeedKey | libwebsockets/lib/parsers.c:754-787 | the four key bytes leave the key, its index reset, and whether it is all zero |
| WsReceive.FeedPayload | libwebsockets/lib/parsers.c:789-823 | the payload bytes deliver exactly the decoded payload, in spills |
| WsReceive.DecodedMask | libwebsockets/lib/parsers.c:792-796 | decoding a masked payload with the key that masked it gives it back, also when the key is all zero |
| WsReceive.FeedHeader | libwebsockets/lib/parsers.c:626-787 | the header of any frame leaves its opcode, FIN, length and masking |
| WsReceive.FeedFrame | libwebsockets/lib/parsers.c:538-961 | a frame from between frames delivers exactly its content if and only if it is not a control frame with an extended length, nor, to a server, an unmasked empty frame with one |
| WsReceive.EmptyNotSeen | libwebsockets/lib/parsers.c:694-752 | a server does not deliver an unmasked empty text frame whose length is in sixteen bits |
| WsReceive.SpillsContents | libwebsockets/lib/parsers.c:789-822 | the spills of a frame concatenate to its payload |
| WsReceive.DataHanded | libwebsockets/lib/parsers.c:820-960 | the user of either side gets the whole payload of frames of opcode 0, 1 or 2 and of no others |
| WsReceive.ControlAnswered | libwebsockets/lib/parsers.c:823-880 | a ping (9) is answered with its payload, a close (8) with its own, a pong (10) shown to a client |
| WsReceive.SpillsShape | libwebsockets/README.coding:94-98 | every spill carries the frame's opcode and FIN, none exceeds the buffer, and only the last one sees nothing remaining |
| WsReceive.FeedKeepsRoom | libwebsockets/lib/parsers.c:812-822 | over every run the head of the receive buffer stays below its size, and at 0 outside a payload |
| WsReceive.FeedStream | libwebsockets/lib/parsers.c:973-1020 | a stream of frames gives each frame's spills in turn |
| WsReceive.AnyDivision | libwebsockets/lib/parsers.c:973-1020 | however a stream is divided into calls, the spills are the same |
| WsParser.Parser.constructor | libwebsockets/lib/parsers.c:538-560 | the parser after the handshake is between frames |
| WsParser.Parser.SpillBuffer | libwebsockets/lib/parsers.c:825-961 | the code at the spill label, on the fields |
| WsParser.Parser.RxNew | libwebsockets/lib/parsers.c:553-641 | the first byte of a frame, on the fields |
| WsParser.Parser.RxHdrLen | libwebsockets/lib/parsers.c:643-677 | the length byte, on the fields |
| WsParser.Parser.RxLen64 | libwebsockets/lib/parsers.c:694-752 | a byte of a 64-bit length, on the fields |
| WsParser.Parser.RxKey | libwebsockets/lib/parsers.c:754-787 | a key byte, on the fields |
| WsParser.Parser.StorePayload | libwebsockets/lib/parsers.c:789-810 | a payload byte unmasked and stored, inside the buffer, the mask index wrapping at 256 |
| WsParser.Parser.RxPayload | libwebsockets/lib/parsers.c:789-823 | a payload byte, and the spill it may complete |
| WsParser.Parser.RxSm | libwebsockets/lib/client-parser.c:27-260 | for both roles, the fields become what the step says, and the parser stays valid |
| WsWrite.MaskedCountRange | libwebsockets/lib/output.c:555 | how many bytes the masking loop reaches: all of them below 2^31 - 4, at least four fewer from there on |
| WsWrite.PutLength8 | libwebsockets/lib/output.c:513-531 | a long length in eight bytes, the most significant first |
| WsWrite.PutHeader | libwebsockets/lib/output.c:498-533 | the header written before the payload: first byte and minimal length, and nothing else written |
| WsWrite.MaskInPlace | libwebsockets/lib/output.c:554-559 | the bytes from the payload on masked in place, as many as the loop reaches for any length, and no others |
| WsWrite.NextIndex | libwebsockets/lib/output.c:556-558 | the wrap-around of the mask index at 256 is harmless |
| WsWrite.BuildMasked | libwebsockets/lib/output.c:451-563 | what a client leaves in memory: header, then two stale bytes if there is a reason, key and masked payload |
| WsWrite.BuildPlain | libwebsockets/lib/output.c:451-533 | what a server leaves in memory: header and reason in front of the payload |
| WsWrite.Totals | libwebsockets/lib/output.c:260-301 | what an int and a size_t make of a frame's length: the length itself below 2^31, and 2^63 or more for a negative one and for an int of a longer one |
| WsWrite.Write | libwebsockets/lib/output.c:376-606 | nothing for an empty data message, an error when not established, else as much of the frame as its length, cut to an int once or twice, comes to, or a length past any buffer; memory around the frame and its padding untouched |
| WsWrite.OpcodeNumbers | libwebsockets/lib/output.c:460-492 | the opcodes of section 5.2 of RFC 6455: 0, 1, 2, 8, 9 and 10 |
| WsWrite.FirstSent | libwebsockets/lib/output.c:460-511 | the first byte of whatever is submitted for a frame has that number and the FIN bit |
| WsWrite.ServerEncodes | libwebsockets/lib/output.c:415-533 | what a server submits of a sendable message is the frame of section 5.2 of RFC 6455, of reason and payload |
| WsWrite.ClientEncodes | libwebsockets/lib/output.c:415-563 | what a client submits of a sendable message without a reason is the frame of its payload, masked with the key |
| WsWrite.GarbledIs | libwebsockets/lib/output.c:555 | the masking loop alone leaves the payload encoded unchanged if and only if it is shorter than 2^31 - 4 or the key is zero |
| WsWrite.HeaderCut | libwebsockets/lib/parsers.c:538-720 | of a long header cut short nothing is delivered |
| WsWrite.FrameRead | libwebsockets/lib/parsers.c:538-961 | a frame that may state another length than its content has delivers the content if it states that length and is not an overlong control frame, and else nothing of that length |
| WsWrite.SendableArrives | libwebsockets/lib/output.c:376-606 | in either direction a sendable message arrives, and of any other nothing of its length does |
| WsWrite.ServerRoundTrip | libwebsockets/lib/client-parser.c:27-260 | a client recovers opcode, by its number, FIN, reason and payload of what a server submits if and only if it is not an empty message, not a control frame of 126 bytes or more, and the whole frame is shorter than 2^31 |
| WsWrite.ClientRoundTrip | libwebsockets/lib/parsers.c:538-961 | a server recovers those of what a client submits without a reason, whatever the key, if and only if the same holds, with the key counted in the frame |
| WsWrite.ClientReason | libwebsockets/lib/output.c:453-487 | a client's close frame with a reason arrives, in the right length |
| WsWrite.ReasonIs | libwebsockets/lib/output.c:453-563 | in place of its reason two key bytes exclusive-ored with stale bytes arrive, and behind them the payload if and only if it is too short to meet a difference between the two |
| WsWrite.ReasonLost | libwebsockets/lib/output.c:453-563 | a client closes with 1000, and 772 arrives |
| WsWrite.LongPing | libwebsockets/lib/output.c:451-533 | a ping of 126 bytes is written by a server and not recovered by a client |
| WsWrite.LongMessage | libwebsockets/lib/output.c:260-301 | 2^31 - 10 bytes on a server, 2^31 - 14 on a client, make a frame of 2^31 bytes, whose length becomes negative; one byte less is sendable |
| WsWrite.OneByteOfMany | libwebsockets/lib/output.c:419-448 | of a message of 2^32 + 1 bytes a server submits a frame of one byte |
| WsSend.Sender.IssueNew | libwebsockets/lib/output.c:93-240 | a submission sent short or not at all: wire and pending tail are all that was submitted if and only if the remainder fits the 32 bits it is kept in; its length is returned in an int |
| WsSend.Sender.Resend | libwebsockets/lib/libwebsockets.c:763-769 | sending the tail on moves bytes from it to the wire, and frees it exactly when it empties |
| WsSend.RemainderLost | libwebsockets/lib/output.c:93-240 | a buffer of 2^32 bytes, none of which is taken, is lost |
| WsSend.MessageIsFrame | libwebsockets/lib/output.c:376-606 | what is submitted of a sendable message that does not close is a frame the reader can read, shorter than 2^31 |
| WsSend.MessagesAreStream | libwebsockets/lib/output.c:376-606 | what is submitted of sendable messages, by either side, is a stream of frames |
| WsSend.EndToEnd | libwebsockets/lib/output.c:93-240 | in either direction, after any sequence of sendable messages and short sends, read in any division, the receiver has a prefix of the messages' spills, and all of them once nothing is pending |
| WsFlow.Connection.constructor | libwebsockets/lib/handshake.c:382 | a new connection: nothing stashed, reading enabled |
| WsFlow.Connection.RxFlowControl | libwebsockets/lib/libwebsockets.c:1777-1787 | the switch is set, and a change is left pending |
| WsFlow.Connection.ApplyRxFlow | libwebsockets/lib/libwebsockets.c:1732-1763 | a pending change reaches the poll entry, or asks for a writable callback while bytes are stashed |
| WsFlow.Connection.UserCallback | libwebsockets/lib/libwebsockets.c:1872-1885 | a callback that throttles or releases its own connection, any number of times, leaves it as the last call says, the switches in agreement, and a released stash due for service |
| WsFlow.Connection.ReleaseFromOutside | libwebsockets/lib/libwebsockets.c:1799-1814 | another connection releasing this one keeps everything in order; its stash is serviced again if and only if a writable callback was asked for before |
| WsFlow.Connection.RxByte | libwebsockets/lib/parsers.c:1013-1016 | one byte parsed, and its callback made exactly if it completes a spill for the user |
| WsFlow.Connection.Interpret | libwebsockets/lib/parsers.c:973-1020 | of the bytes just read, those up to the first callback that leaves the connection throttled are parsed, and the others stashed, in order |
| WsFlow.Connection.Drain | libwebsockets/lib/libwebsockets.c:1115-1222 | draining moves bytes from the stash to the parser, in order, up to the first callback that throttles the connection again, or to the end, where the stash is freed |
| WsFlow.Connection.Take | libwebsockets/lib/libwebsockets.c:1115-1222 | stash and bytes read are one string, taken in as far as the callbacks let it be |
| WsFlow.Connection.Service | libwebsockets/lib/libwebsockets.c:1108-1222 | one service call, poll having something to report: stash and bytes read are taken in exactly up to the callback that throttles, the rest is stashed with reading masked, and none stay stashed that may be drained |
| WsFlow.LetterReach | libwebsockets/lib/parsers.c:973-1020 | a text of one letter whose callback throttles is taken in, and nothing behind it |
| WsFlow.Stall | libwebsockets/lib/libwebsockets.c:1799-1814 | throttled within a chunk and released from outside, a connection keeps its stash with poll having nothing to report |
| WsFlow.NothingLost | libwebsockets/lib/parsers.c:984-1017 | in every reachable state the callbacks are exactly those of the bytes received less the stash |
| WsFlow.AllDelivered | libwebsockets/lib/parsers.c:984-1017 | once the stash is empty, a stream of frames has given each frame's spills in turn |
| Minilex.GrowFormed | libwebsockets/lib/minilex.c:130-136 | a new state added to the trie keeps it well formed: one path to every state, children after their parents |
| Minilex.MarkFormed | libwebsockets/lib/minilex.c:141-143 | a terminal marker makes a leaf of the state a word ends in |
| Minilex.NotAtLeaf | libwebsockets/lib/minilex.c:116-139 | in a prefix-free set no word is walked through the end of another |
| Minilex.EndIsNew | libwebsockets/lib/minilex.c:141-143 | the state a word ends in has no entries that the marker would overwrite |
| Minilex.StateBound | libwebsockets/lib/minilex.c:74-75 | one state for each prefix: the array of states is large enough |
| Minilex.EntryBound | libwebsockets/lib/minilex.c:65-72 | one entry for each next character: a state has room for its entries |
| Minilex.Follow | libwebsockets/lib/minilex.c:118-136 | one character: the walk goes to the child for it, made if it was not there, inside both limits |
| Minilex.AddWord | libwebsockets/lib/minilex.c:107-143 | one word: the trie holds it too, ending in a leaf marked with its number |
| Minilex.Build | libwebsockets/lib/minilex.c:105-144 | the trie of the whole set |
| Minilex.TrieForward | libwebsockets/lib/minilex.c:152-189 | every entry of the trie leads to a later state |
| Minilex.PosForward | libwebsockets/lib/minilex.c:146-150 | a later state begins later, by at least the entries between |
| Minilex.Positions | libwebsockets/lib/minilex.c:146-150 | the byte position of every state |
| Minilex.ToLowerIs | libwebsockets/lib/parsers.c:34-36 | every capital letter is folded to the small one |
| Minilex.ToLowerElse | libwebsockets/lib/parsers.c:34-36 | and nothing else is changed |
| Minilex.EmitState | libwebsockets/lib/minilex.c:154-188 | one state's entries coded, or a jump found that does not fit |
| Minilex.Emit | libwebsockets/lib/minilex.c:152-189 | the bytecode of the trie, unless some jump exceeds 510 bytes: it gives up exactly then |
| Minilex.LextableDecode | libwebsockets/lib/parsers.c:28-44 | from a state's position: its child for the character, case folded, -1 exactly if there is none, the same position at a terminal |
| Minilex.Read | libwebsockets/lib/minilex.c:206-218 | walking the table: word k exactly when the characters so far spell it, -1 at the first character after which no word is possible |
| Minilex.OneReading | libwebsockets/lib/minilex.c:206-218 | that answer is the only one for a prefix-free set |
| Minilex.Generate | libwebsockets/lib/minilex.c:95-191 | build and emit together |
| Minilex.Recognise | libwebsockets/lib/minilex.c:95-218 | from a set with a word in it to the reading of any input, which is what the words alone say, unless some jump exceeds 510 bytes |
| UriPath.CleanSafe | libwebsockets/lib/parsers.c:270-277 | a clean path is safe, also with a dot behind it |
| UriPath.BackLoopCuts | libwebsockets/lib/parsers.c:306-310 | the loop stops before a slash or with only the first character left |
| UriPath.BackUpKeeps | libwebsockets/lib/parsers.c:303-311 | backing up keeps the leading slash and a clean path |
| UriPath.AssessKeeps | libwebsockets/lib/parsers.c:278-338 | a character through the path states keeps the stored path clean |
| UriPath.GiveBackKeeps | libwebsockets/lib/parsers.c:253-263 | a percent sign and a digit given back keep it clean |
| UriPath.StepKeeps | libwebsockets/lib/parsers.c:221-374 | every character keeps the stored path clean while it comes in and safe however it ends |
| UriPath.RunKeeps | libwebsockets/lib/parsers.c:221-374 | over every run: clean while coming in, safe at the end |
| UriPath.BackUpAstray | libwebsockets/lib/parsers.c:303-311 | backing up does not give back the first character, whatever it is |
| UriPath.StepAstray | libwebsockets/lib/parsers.c:221-374 | a path that does not begin with a slash never comes to |
| UriPath.StepFirst | libwebsockets/lib/parsers.c:221-283 | the first character that reaches the path states begins a clean path if it is a slash, and otherwise one that never begins with a slash |
| UriPath.SafeIff | libwebsockets/lib/parsers.c:221-374 | for every target that puts no NUL into the path, at every point: what is stored has a leading slash, no two slashes in a row and no ".." segment, if and only if the first character that reaches the path states is a slash |
| UriTarget.EscapeDecodes | libwebsockets/lib/parsers.c:143-155 | every byte written as a percent sign and two hexadecimal digits, in either case, comes out as that byte |
| UriTarget.StepItem | libwebsockets/lib/parsers.c:233-374 | one byte of the target, written as it is or escaped, is stored as that byte |
| UriTarget.TargetStored | libwebsockets/lib/parsers.c:221-374 | a target in which no slash is before another or before a dot, any of its bytes escaped, is stored as the bytes it stands for |
| UriTarget.TargetEnds | libwebsockets/lib/parsers.c:221-232 | and the blank behind it leaves exactly that as the path |
| UriPath.DotsWithoutSlash | libwebsockets/lib/parsers.c:221-338 | a target of two dots is stored as it is, one of an escaped slash as a slash |
| UriPath.StepOverrun | libwebsockets/lib/parsers.c:346-352 | a character writes past the end of the store if and only if it is a question mark that comes when what is held back for it fills the store |
| UriPath.RunOverrun | libwebsockets/lib/parsers.c:346-352 | so does a run if and only if that happens at some character of it |
| UriPath.RunLetters | libwebsockets/lib/parsers.c:346-352 | letters behind a slash are stored as they are while there is room |
| UriPath.FullAtQuestion | libwebsockets/lib/parsers.c:346-352 | whatever the room, 1024 bytes in the source, a target that fills it and a question mark do |
| UriPath.HeaderStore.constructor | libwebsockets/lib/parsers.c:46-58 | an empty fragment at the start of the target |
| UriPath.HeaderStore.IssueChar | libwebsockets/lib/parsers.c:157-168 | a character stored and, unless NUL, counted, if there is room |
| UriPath.HeaderStore.BackUpLevel | libwebsockets/lib/parsers.c:303-311 | the store after backing up one level, never before its own fragment |
| UriPath.HeaderStore.KeepChar | libwebsockets/lib/parsers.c:340-374 | the store after the end-of-line and argument checks |
| UriPath.HeaderStore.AssessChar | libwebsockets/lib/parsers.c:278-338 | the store after the path states |
| UriPath.HeaderStore.Parse | libwebsockets/lib/parsers.c:211-374 | the store after a character of the target |
| JsonParse.ScanEscape | libwebsockets/test-server/cJSON.c:160-202 | the scan passes over an escape too, and counts at least the bytes it stands for |
| JsonParse.ScanEnough | libwebsockets/test-server/cJSON.c:160-162 | the first scan stays inside the text, and passes at least as much as the string is long |
| JsonParse.SizedIff | libwebsockets/test-server/cJSON.c:157-163 | a string is read if and only if the count of its scan, and one more, is below 2^31, or the string is empty and the count came round to 0; between, there is no memory for it |
| JsonParse.SkipStops | libwebsockets/test-server/cJSON.c:261 | bytes up to the blank are passed, up to the first that is none, or NUL |
| JsonUnicode.Utf8Is | libwebsockets/test-server/cJSON.c:154-202 | the encoding of a code point, and no other text, is its UTF-8 of section 3 of RFC 3629: lead byte, continuation bytes, no more of them than needed |
| JsonUnicode.EscapeReads | libwebsockets/test-server/cJSON.c:140-200 | an escape of four hexadecimal digits, in either case, reads as the UTF-8 of its code point |
| JsonUnicode.PairReads | libwebsockets/test-server/cJSON.c:184-200 | so does a surrogate pair |
| JsonUnicode.NothingReads | libwebsockets/test-server/cJSON.c:179-189 | NUL, and a half of a pair that is alone or second, read as nothing |
| JsonUnicode.LetterReads | libwebsockets/test-server/cJSON.c:172-204 | the escapes of one letter, and every other escaped character, which stands for itself |
| JsonUnicode.EscapeIs | libwebsockets/test-server/cJSON.c:226-246 | how every byte of a string is printed |
| JsonNumber.IntoFraction | libwebsockets/test-server/cJSON.c:103-104 | the digits behind the point, taken into the number, are its fraction times the power of ten |
| JsonNumber.WholeRead | libwebsockets/test-server/cJSON.c:100-102 | the digits before it are read as the whole number they write |
| JsonNumber.FractionRead | libwebsockets/test-server/cJSON.c:103-104 | so are those behind it, with the scale |
| JsonNumber.ExponentRead | libwebsockets/test-server/cJSON.c:105-108 | and the exponent with its sign |
| JsonNumber.NumberReads | libwebsockets/test-server/cJSON.c:96-115 | every number written as section 6 of RFC 8259 has it is read as its value |
| JsonWords.Words | libwebsockets/test-server/cJSON.c:287-300 | null, false and true |
| JsonWords.Signs | libwebsockets/test-server/cJSON.c:320-439 | the signs of JSON |
| JsonWords.DecimalDigits | libwebsockets/test-server/cJSON.c:118-125 | a number is printed in decimal digits, none of them a leading zero |
| JsonWords.ArrayText | libwebsockets/test-server/cJSON.c:348-403 | an array as it is printed, unformatted and formatted |
| JsonWords.MemberIs | libwebsockets/test-server/cJSON.c:442-507 | a member of an object as it is printed |
| JsonWords.ObjectText | libwebsockets/test-server/cJSON.c:442-507 | an object as it is printed |
| JsonRoundTrip.NumberBack | libwebsockets/test-server/cJSON.c:96-115 | the decimal text of any integer reads back as it |
| JsonRoundTrip.CharBack | libwebsockets/test-server/cJSON.c:226-246 | every byte but NUL, escaped or not, reads back as itself |
| JsonRoundTrip.CharsScan | libwebsockets/test-server/cJSON.c:160 | what the scan of a printed string counts |
| JsonRoundTrip.StringBack | libwebsockets/test-server/cJSON.c:155-212 | a NUL-free string reads back if what its scan counts is in the range of an int, and does not read at all otherwise |
| JsonRoundTrip.ItemsBack | libwebsockets/test-server/cJSON.c:320-345 | the items of an array read back, at any depth, formatted or not, or the array does not read |
| JsonRoundTrip.MembersBack | libwebsockets/test-server/cJSON.c:406-439 | the members of an object read back, names and values, or the object does not read |
| JsonRoundTrip.ValueBack | libwebsockets/test-server/cJSON.c:287-300 | every printable value whose strings can all be scanned reads back, whatever follows that cannot belong to a number; no other reads |
| JsonRoundTrip.RoundTrip | libwebsockets/test-server/cJSON.c:280-284 | the text printed for a tree of null, booleans, C ints, NUL-free strings, arrays and objects parses to the same tree, with nothing left over, if and only if every string in it can be scanned |
| JsonPrint.ValueNulFree | libwebsockets/test-server/cJSON.c:302-317 | printed text holds no NUL, so its strlen is its length |
| JsonPrint.StrCpy | libwebsockets/test-server/cJSON.c:393-399 | strcpy of a printed text behind what is written |
| JsonPrint.CountEscaped | libwebsockets/test-server/cJSON.c:220-221 | the counting loop, in an int that wraps around and ends it at 0 |
| JsonPrint.CountedExact | libwebsockets/test-server/cJSON.c:220-221 | in the range of an int, the count is the length of the escaped string |
| JsonPrint.StringSizeIs | libwebsockets/test-server/cJSON.c:220-223 | what is allocated is exactly what is written, or too little or negative where that passes the range of an int |
| JsonPrint.PrintStringPtr | libwebsockets/test-server/cJSON.c:215-248 | the escaped string as a C string, in exactly the bytes counted for it, if and only if their number is in the range of an int |
| JsonPrint.PrintNumber | libwebsockets/test-server/cJSON.c:118-125 | the decimal text of a C int, inside the 21 bytes allocated |
| JsonPrint.PrintValue | libwebsockets/test-server/cJSON.c:302-317 | a value of any kind as its text, a C string, if and only if every length counted for it, at any depth and with its padding, is in the range of an int |
| JsonPrint.PrintItems | libwebsockets/test-server/cJSON.c:372-379 | the entries printed, unless one fails, and the int that their lengths add up to |
| JsonPrint.ItemsSlack | libwebsockets/test-server/cJSON.c:372-402 | how much more is counted for an array than is written |
| JsonPrint.ComposeArray | libwebsockets/test-server/cJSON.c:381-402 | the array composed inside what was allocated, if and only if the length counted is in the range of an int |
| JsonPrint.PrintArray | libwebsockets/test-server/cJSON.c:348-403 | an array as its text, if and only if the lengths counted for it and in it are in range |
| JsonPrint.PrintEmptyObject | libwebsockets/test-server/cJSON.c:451-459 | an empty object inside its own allocation, at any depth whose size is in range |
| JsonPrint.PrintMembers | libwebsockets/test-server/cJSON.c:468-476 | names and values printed, unless one fails, and the int that their lengths add up to |
| JsonPrint.MembersSlack | libwebsockets/test-server/cJSON.c:468-506 | how much more is counted for the members than is written |
| JsonPrint.ComposeObject | libwebsockets/test-server/cJSON.c:478-506 | the object composed inside what was allocated, if and only if the length counted is in the range of an int |
| JsonPrint.PrintObject | libwebsockets/test-server/cJSON.c:442-507 | an object as its text, if and only if the lengths counted for it and in it are in range |
| JsonPrint.Print | libwebsockets/test-server/cJSON.c:283 | a value formatted, as a NUL-terminated text, if and only if its lengths are in range |
| JsonPrint.PrintUnformatted | libwebsockets/test-server/cJSON.c:284 | a value unformatted, likewise |
| JsonRead.SkipBlanks | libwebsockets/test-server/cJSON.c:261 | the pointer past the blanks |
| JsonRead.ReadNumber | libwebsockets/test-server/cJSON.c:96-110 | the loops of parse_number compute the number its text denotes, and stop behind it |
| JsonRead.ScanString | libwebsockets/test-server/cJSON.c:160 | the first scan, in an int that wraps around and ends it at 0 |
| JsonRead.PutUtf8 | libwebsockets/test-server/cJSON.c:192-201 | a code point written backwards is its UTF-8 form |
| JsonRead.ReadUnicode | libwebsockets/test-server/cJSON.c:179-202 | a \u escape, surrogate pair or not |
| JsonRead.ReadString | libwebsockets/test-server/cJSON.c:155-212 | the string its text denotes, with every write inside the buffer, or a refusal where the size of the buffer came out negative |
| JsonRead.ReadArray | libwebsockets/test-server/cJSON.c:320-345 | the array its text denotes |
| JsonRead.ReadMember | libwebsockets/test-server/cJSON.c:418-423 | a name, a colon and a value |
| JsonRead.ReadObject | libwebsockets/test-server/cJSON.c:406-439 | the object its text denotes |
| JsonRead.ReadValue | libwebsockets/test-server/cJSON.c:287-300 | the value its text denotes, or a refusal |
| JsonRead.Parse | libwebsockets/test-server/cJSON.c:264-280 | the value behind leading blanks |
| JsonLimits.FitsReads | libwebsockets/test-server/cJSON.c:160-223 | whatever can be printed can be read: the parser counts no more than the printer did |
| JsonLimits.PrintThenParse | libwebsockets/test-server/cJSON.c:264-284 | printed and parsed, a value comes back if and only if every length counted for it is in the range of an int; otherwise nothing is printed |
| JsonLimits.TooManyEscapes | libwebsockets/test-server/cJSON.c:220-223 | a string of 715827883 bytes 1: five bytes are allocated for more than 2^32 |
| JsonLimits.FiveLongStrings | libwebsockets/test-server/cJSON.c:372-402 | an array of five strings of 900 million letters: 205032729 bytes are allocated for 4500000017 |
| JsonLimits.TooLongToScan | libwebsockets/test-server/cJSON.c:157-163 | a string of 2^31 - 1 letters is refused |
| BufPool.JoinAppend | libwebsockets/test-server/http_client.c:1108-1111 | the contents of two lists one after the other |
| BufPool.JoinSame | libwebsockets/test-server/http_client.c:1142-1145 | writing to other buffers leaves a list's contents alone |
| BufPool.Pool.constructor | libwebsockets/test-server/http_client.c:143-158 | every buffer free, each once |
| BufPool.Pool.AllocBuf | libwebsockets/test-server/http_client.c:353-371 | the first free buffer, its fields cleared, or none |
| BufPool.Pool.FreeBuf | libwebsockets/test-server/http_client.c:373-381 | a buffer back at the head of the free list |
| ChunkCode.ScanLine | libwebsockets/test-server/http_client.c:1114-1116 | the size line of a chunk scans to the length of its data, however its digits are written |
| ChunkCode.RunChunk | libwebsockets/test-server/http_client.c:1048-1184 | a chunk decodes to its data and leaves the machine where it was |
| ChunkCode.Decodes | libwebsockets/test-server/http_client.c:1048-1184 | every chunked body of section 4.1 of RFC 7230, its size lines shorter than 32 bytes, decodes to its data |
| Dechunk.Separate | libwebsockets/test-server/http_client.c:1044-1045 | a buffer counted once is in no second place |
| Dechunk.WriteKeeps | libwebsockets/test-server/http_client.c:1143-1145 | writing behind the read position changes nothing still to be read |
| Dechunk.Sscanf | libwebsockets/test-server/http_client.c:1115 | the leading hexadecimal digits as a number |
| Dechunk.Parse.NextBuf | libwebsockets/test-server/http_client.c:1065-1078 | going to the next buffer: the old one freed unless it is being written to, nothing read or written changed |
| Dechunk.Parse.SizeLine | libwebsockets/test-server/http_client.c:1050-1084 | a turn in a size line keeps what will have been written, or fails on a line too long or an input at its end, with every buffer returned |
| Dechunk.Parse.LineFeed | libwebsockets/test-server/http_client.c:1100-1141 | the end of a size line: the next state, or the whole result |
| Dechunk.Parse.SaveLast | libwebsockets/test-server/http_client.c:1146-1157 | a full buffer is saved and another allocated: there is one |
| Dechunk.Parse.CopyByte | libwebsockets/test-server/http_client.c:1143-1158 | a data byte copied in place, behind the read position |
| Dechunk.Parse.ChunkData | libwebsockets/test-server/http_client.c:1142-1179 | a turn in the data keeps what will have been written |
| Dechunk.Parse.Finish | libwebsockets/test-server/http_client.c:1118-1140 | the written buffers become the context's list, all others go back to the pool |
| Dechunk.Parse.Fail | libwebsockets/test-server/http_client.c:1186-1199 | on an error every buffer in hand goes back to the pool |
| Dechunk.Parse.Loop | libwebsockets/test-server/http_client.c:1048-1184 | the whole loop ends, with the decoded body or an error as the text deserves |
| Dechunk.Parse.ChunkCheck | libwebsockets/test-server/http_client.c:972-1006 | where the header ends and whether it says chunked; the contents of the buffers unchanged |
| ChunkWords.FindIs | libwebsockets/test-server/http_client.c:996-998 | strstr finds the text where it says |
| ChunkWords.ChunkedMeans | libwebsockets/test-server/http_client.c:972-1000 | a header says chunked if and only if the word "chunked" is in it at or behind the name "Transfer-Encoding:", both in letters of whatever case |
| ChunkWords.AsWritten | libwebsockets/test-server/http_client.c:972-1000 | "Transfer-Encoding: chunked" and the empty line are such a header |
| ChunkWords.BodyWritten | libwebsockets/test-server/http_client.c:1014-1190 | a chunk with an extension and the last chunk, as a server writes them, are a well-formed body |
| Bytes.HexOfIs | libwebsockets/test-server/http_client.c:1115 | the hexadecimal digits, in either case, have their values |
| Bytes.HexOfOnly | libwebsockets/test-server/http_client.c:1115 | and nothing else has one |
| Dechunk.HeaderFound | libwebsockets/test-server/http_client.c:981-985 | the header is found whatever follows it |
| Dechunk.Parse.HttpParse | libwebsockets/test-server/http_client.c:1014-1201 | for every input: the outcome, the contents and length of the result, which buffers of it are too long, and every buffer in the result or the pool |
| Dechunk.ResponseDecodes | libwebsockets/test-server/http_client.c:1014-1140 | a well-formed chunked response, split anywhere behind its header, is to come out as header and data |
| Dechunk.Parse.ParseResponse | libwebsockets/test-server/http_client.c:1014-1201 | http_parse leaves header and decoded body, its length right, no buffer lost or in two places, and a buffer longer than its size if and only if the header fills one and data follows |
| Dechunk.FilledDone | libwebsockets/test-server/http_client.c:1142-1158 | some buffer of the result is one byte too long if and only if the header filled the first one and data follows |
| Dechunk.FillingHeader | libwebsockets/test-server/http_client.c:1014-1046 | there is a chunked header that fills its buffer |
| TunnelCode.NumberBack | nodejs-websocket-server/server.js:723-728 | a number written in network order reads back |
| TunnelCode.CreateReq | nodejs-websocket-server/server.js:712-733 | the message: header and payload; an exception exactly when its type, number or length does not fit its field |
| TunnelCode.HeaderBack | nodejs-websocket-server/server.js:758-766 | the header's fields read back as they were written |
| TunnelCode.HeaderBytes | nodejs-websocket-server/server.js:758-766 | the header byte by byte |
| TunnelCode.HeaderTaken | libwebsockets/test-server/http_client.c:484-528 | the piece with the header starts the message it announces |
| TunnelCode.StepTaken | libwebsockets/test-server/http_client.c:535-570 | every piece but the last leaves the reader inside the message, the last one completes it |
| TunnelCode.MessageTaken | libwebsockets/test-server/http_client.c:472-573 | a message with a payload, cut into pieces of which the first holds the header, is delivered once, with its kind, number and payload |
| TunnelCode.EmptyMessage | libwebsockets/test-server/http_client.c:530-532 | an empty message leaves the reader inside it, and the next piece is swallowed |
| TunnelCode.DeliveredIff | libwebsockets/test-server/http_client.c:530-567 | a message in one piece, which has to be shorter than 2048 bytes, is delivered if and only if its payload is not empty |
| Tunnel.TightSum | libwebsockets/test-server/http_client.c:547-552 | buffers no two neighbours of which fit in one hold more than 1024 bytes each on average |
| Tunnel.FewHeld | libwebsockets/test-server/http_client.c:513-552 | a message that is not too long is never spread over more than nineteen buffers |
| Tunnel.Mgmt.ReleasePrepare | libwebsockets/test-server/http_client.c:383-394 | every buffer of the message goes back to the pool |
| Tunnel.Mgmt.SavePrepare | libwebsockets/test-server/http_client.c:396-404 | the buffer goes to the end of the list with what it holds |
| Tunnel.Mgmt.PrepareProcess | libwebsockets/test-server/http_client.c:406-470 | the message and its list handed on, the reader reset |
| Tunnel.Mgmt.ReadHeader | libwebsockets/test-server/http_client.c:484-528 | a header accepted, or turned down with its code |
| Tunnel.Mgmt.Fill | libwebsockets/test-server/http_client.c:554-567 | a piece appended, and a completed message cut to its length and handed on |
| Tunnel.Mgmt.Place | libwebsockets/test-server/http_client.c:535-570 | a piece placed in the buffer at hand or the next one |
| Tunnel.Mgmt.Prepare | libwebsockets/test-server/http_client.c:472-573 | each call does what the reader's step says and keeps every buffer in one place, and nineteen buffers are enough; after a timeout in the middle of a message it does if and only if no message begins, and else loses the bytes or hands on a buffer that is also free |
| Tunnel.Mgmt.ResetSync | libwebsockets/test-server/http_client.c:817-824 | the timeout changes nothing that is collected, and leaves the state in order but for a buffer at hand |
| Tunnel.LostAfterTimeout | libwebsockets/test-server/http_client.c:472-573 | a message broken off after one byte, a timeout, and its first piece again: the byte is lost |
| Tunnel.Mgmt.Receive | libwebsockets/test-server/http_client.c:472-573 | a message received in any pieces is handed on once, as a list of buffers holding its payload, every buffer in one place |
| Proxy.WithoutIs | localproxy/simpleproxy.py:187-201 | list.remove from a list without repetitions |
| Proxy.CloseMapped | localproxy/simpleproxy.py:203-205 | unregistering both sockets of a connection leaves the map and list of the others right |
| Proxy.ProxyConnection.constructor | localproxy/simpleproxy.py:37-50 | a connection with nothing buffered |
| Proxy.ProxyServer.constructor | localproxy/simpleproxy.py:139-150 | a server with no connections, in the lists and as a world |
| Proxy.ProxyServer.Open | localproxy/simpleproxy.py:208-210 | a new connection on the lists it belongs on, the others untouched |
| Proxy.ProxyServer.Close | localproxy/simpleproxy.py:124-132 | both sockets off every list, all other connections as they were |
| Proxy.ProxyServer.Buffer | localproxy/simpleproxy.py:93-100 | the bytes read are buffered, and the lists follow |
| Proxy.ProxyServer.ReadFrom | localproxy/simpleproxy.py:71-100 | the first turn of the server's socket is not read; otherwise the connection closes exactly at the end of the stream, recv being asked for at least one byte |
| Proxy.ProxyServer.Unbuffer | localproxy/simpleproxy.py:108-120 | the bytes sent leave the buffer, and the lists follow |
| Proxy.ProxyServer.WriteTo | localproxy/simpleproxy.py:104-120 | send is given at least one byte; what it takes is logged, an exception leaves everything as it was |
| Proxy.ProxyServer.OneRead | localproxy/simpleproxy.py:164-170 | one readable socket served: an accept opens one connection, bytes go to their connection's buffer and log, the end of a stream closes it; also when it was closed in the same turn |
| Proxy.ProxyServer.OneWrite | localproxy/simpleproxy.py:172-174 | one writable socket served: what send takes of the other side's buffer leaves it for the log; an exception from send stops the run |
| Proxy.ProxyServer.OneError | localproxy/simpleproxy.py:176-178 | one socket in error: its connection is closed, the others stay |
| Proxy.ProxyServer.Lists | localproxy/simpleproxy.py:155-160 | the sockets given to select are those with room in their buffer, those with something buffered for them, and all of the open connections |
| Proxy.ProxyServer.PossibleShown | localproxy/simpleproxy.py:155-160 | what select may return, said of the connections |
| Proxy.ProxyServer.Round | localproxy/simpleproxy.py:155-178 | a turn of the loop keeps every connection in order, and leaves all of them exactly as the reads, writes and errors of the turn, taken in turn, say |
| Proxy.ProxyServer.Run | localproxy/simpleproxy.py:153-178 | so does every run, turn after turn, up to an exception from send |
| ProxyRun.ReadStage | localproxy/simpleproxy.py:163-170 | over the reads of a turn a connection stays open unless recv on one of its sockets comes to an end, and each direction gets what recv returns |
| ProxyRun.WriteStage | localproxy/simpleproxy.py:171-174 | over its writes each direction gives what send takes |
| ProxyRun.ErrorStage | localproxy/simpleproxy.py:175-178 | its errors close their connections, and change nothing else |
| ProxyRun.AcceptStage | localproxy/simpleproxy.py:165-167 | every accept opens one empty connection, and nothing else opens one |
| ProxyRun.TurnServes | localproxy/simpleproxy.py:155-178 | over a turn a connection stays open exactly unless a stream of it ended or a socket of it is in error, and in both directions it received and sent what the calls on its selected sockets took |
| ProxyRun.TurnGone | localproxy/simpleproxy.py:124-132 | what is closed stays closed |
| ProxyRun.RunServes | localproxy/simpleproxy.py:153-178 | over any part of any run, a connection still open received and sent what those calls took, in order |
| ProxyRun.ShownKnown | localproxy/simpleproxy.py:139-210 | this is said of every open connection of a server |
| Proxy.ProxyServer.AlwaysInOrder | localproxy/simpleproxy.py:71-120 | in every direction of an open connection: received is sent and buffered, at most 1024 bytes buffered, the peer written to exactly while there are some, the socket read from exactly while there is room |
| Proxy.ProxyServer.CountRight | localproxy/simpleproxy.py:71-78 | in every state of every run, the count of active connections is that of the open connected ones if and only if none was closed before it was connected |
| Proxy.ProxyServer.CountOff | localproxy/simpleproxy.py:124-132 | otherwise it is too small by the number of those |
| Proxy.CountedClose | localproxy/simpleproxy.py:124-132 | closing a connection keeps the count right or makes it off by one more, as the connection was connected or not |
| Proxy.CountBelowZero | localproxy/simpleproxy.py:71-132 | a client that goes away before the server answers: the count is -1 with nothing open |

## Left out

- WsWrite.Write: extensions, and the build without them, which does not put the lengths through an int; the inside-frame continuation, and the unbuffered mode in which the caller resends. A length of 2^63 or more given to lws_issue_raw is the outcome `Beyond`.
- WsSend.Sender.IssueNew: a single send that takes 2^31 bytes or more, whose count the C code keeps in an int; no socket takes that many at once.
- WsReceive.FeedFrame: masked frames sent to a client, whose length the client's parser reads with the mask bit, and the 04-draft states of the server's parser, which version 13 never enters.
- WsReceive.FeedLength: likewise for masked lengths at the client's parser.
- WsReceive.FeedHeader: likewise for masked frames at the client's parser.
- Adler32.Adler32Combine: lengths below 0, whose remainder the C code turns into an unsigned number; and checksums not reduced for which `CombineSums` leaves a sum that may not fit its field.
- WsFlow.Connection.Service: a connection is served only for what poll reports of what was armed; only a connection's own callbacks throttle it, and callbacks return 0; a pong that cannot be written ends the connection and is not modelled.
- Minilex.Read: the set is prefix-free and lower case and the table has at least one word; for other sets the generator's loop would overwrite entries.
- UriPath.SafeIff: targets that put a NUL into the path, where the count of the fragment no longer tells where its last character is.
- UriPath.HeaderStore.Parse: the arguments behind the first question mark, which go to a fragment of their own; a full store at a question mark is the outcome `Overrun`, since the seal is written unchecked.
- JsonRead.ReadString: text in which an escape is cut short by a quote or by the end, where the C code reads or writes outside its buffers, is excluded as `Undefined`.
- JsonRead.ReadNumber: numbers are exact reals and exponents unbounded, so the rounding of doubles and the range of the exponent's int are not modelled; the int and double copies of a number are one value.
- JsonPrint.PrintArray: more than 2^31 - 1 entries, a count that overflows a signed int, is the outcome `Beyond`; the depth of nesting is unbounded.
- JsonPrint.PrintNumber: numbers that are not C ints are printed by the C library and are not modelled.
- JsonRead.ReadArray: the items are a sequence, not linked nodes with previous and next pointers.
- Dechunk.Parse.HttpParse: the size scanned by sscanf is taken from its digits below 2^31 only; other size lines, and an end of input inside the data, where the C code follows a null pointer, are the outcome `Undefined`. The error codes of a context are not modelled.
- Dechunk.Sscanf: leading blanks, a sign or a 0x prefix, which sscanf also takes, are not read as numbers but are the outcome `Undefined`.
- Tunnel.Mgmt.PrepareProcess: what the handlers of each kind of message do with the list handed on.
- Tunnel.Mgmt.Prepare: a header that announces a length below sixteen, which the C code makes negative, is the outcome `Beyond`; lists are sequences of places, so a buffer freed and saved at once is in two of them, where the C nodes would be linked into one another.
- Proxy.ProxyServer.Run: an exception from send ends the run, as it ends the program; bytes still buffered when a connection closes are dropped, as in the program.
- JsonRead.PutUtf8: bits set with `|` are added, since they do not overlap.
- Sha1.Sha1Ctxt.Step: the union of bytes and words is two arrays, the words loaded from the bytes.
- BufPool.Pool.AllocBuf: buffers are places in the array that is allocated at start, and lists are sequences of places, not linked nodes.
- The poll tables, their swap removal and the descriptor tables of `http_client.c`: easier than the components modelled.
- Handshakes, headers other than the request target, HTTP serving, DNS, TLS, extension callbacks and compression: input and output, or wrappers of libraries.
- `server.js` beyond its message format, the Express routes, the webcam and the test programs: glue and user interface.
- Allocation failure other than an empty buffer pool.
