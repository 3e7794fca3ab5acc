# RLP, RLPx, discovery and receipt watching in Dafny

A model, with proofs, of an Ethereum networking library: multi-word integers, the RLP codec and its streaming
forms, RLPx framing, the Node Discovery v5.1 handshake, dial scheduling, block and receipt watching, and the
typed eth objects on top. `dafny verify dfyconfig.toml` checks the whole project.

## Layout

- Arithmetic: `Words`, `Limbs`, `Multiplication`, `Shifts`, `DivisionPrimitives`, `Reciprocal`, `LongDivision`,
  `WholeDivision`, `Modular`. Numbers are sequences or arrays of words below 2^64; `Limbs.Val` is their value.
- RLP (Appendix B of the Ethereum Yellow Paper): `Bytes`, `RlpFormat` (headers and the recursive encoding of item
  trees), `RlpTree` (decoding inverts encoding), `RlpEncoder`, `RlpRuns` (whole call sequences), `RlpDecoder`,
  `RlpReading`, and the streaming forms `Pieces`, `RlpLargeString`, `RlpChunkedList`.
- RLPx (the Framing section of the devp2p RLPx specification): `RlpxCrypto`, `Framing`, `FrameCipher`, `FramingRuns`,
  `FramingForgery`.
- Discovery (devp2p Node Discovery v5.1): `Discv5Packets`, `Discv5Texts`, `Discv5Node`, `Discv5Client`,
  `Discv5Agreement`, `Discv5Runs`, `Discv5Exchange`, `Discv5Queries`, `Discv5TwoIds`; `Base64Url` for section 5 of
  RFC 4648.
- Dialling: `DialHistory`, `DialScheduling`, `DialScheduler`, `DialRuns`, `DialStalls`, `DialService`.
- Watching: `ChainTracker`, `EventWatching`, `WatchRuns`, `WatchService`.
- eth: `RlpFields`, `EthObjects`, `EthBlocks`, `EthEncoding`, `EthDecoding`, `EthMessages`, `EthLayouts`.

A class such as `RlpEncoder` or `FrameCipher` carries the fields that the C++ object updates; its methods tie the new
state to a function of the old one, and the modules named `...Runs` prove what those functions keep over whole runs.

## Parameters and assumptions

- Keccak, AES, Snappy and the elliptic-curve calls of RLPx are fields of `RlpxCrypto.Primitives`. Snappy is assumed to
  undo itself and not to compress data to nothing; key agreement is assumed to give both sides of a handshake the same
  secret. Nothing is assumed of the hash: what `FramingForgery` leaves open is the one case that a MAC is presented
  for a transcript the sender made none of.
- The calls of discovery are fields of `Discv5Node.Suite`, and a failed call is `None`. Key agreement assumes that a
  signature verifies for no other input than the one signed, that both ways to a shared secret agree, and that keys and
  signatures have their fixed sizes. These are demanded only where signing succeeds. `Discv5Exchange` also assumes that
  own signatures verify; it and `Discv5Queries` assume that what was sealed opens. `Discv5Agreement.AcceptedReads` and
  `Discv5Queries.OtherKeyIsChallenged` assume that it opens under no other key. How a record becomes a node id or a
  peer is a parameter.
- Each end of a connection has its own compression flag. The runs of `FramingRuns` are those in which a message is
  received under the flag it was sent with, as switching after both hellos brings about.
- The clock is a sequence of readings that never goes back, read as often as the code reads it. Random bytes, the peer
  filter, the transport's answer, how logs decode and how signatures hash are arguments.
- A spawned coroutine is a later step; a dial reports back as the documented callback contract says.
- Where the documentation and the code differ, the model follows the code: frames of exactly 2^24 bytes are sealed with
  length 0, a streamed lone byte is written in a form the decoder refuses, and list messages without a request id do not
  read back.

## Model

| member | source | states |
|---|---|---|
| `Words.AddWithCarry` | include/rlp/intx.hpp:157-165 | sum of two words and a carry is exact: value plus 2^64 for the carry out |
| `Words.SubWithCarry` | include/rlp/intx.hpp:193-201 | difference of two words and a borrow is exact |
| `Words.Add128` | include/rlp/intx.hpp:183-186 | 128-bit addition is addition modulo 2^128 |
| `Words.Sub128` | include/rlp/intx.hpp:222-225 | 128-bit subtraction is subtraction modulo 2^128 |
| `Words.Less128` | include/rlp/intx.hpp:292-302 | the word-wise comparison is the comparison of the values |
| `Words.Umul` | include/rlp/intx.hpp:394-425 | the portable half-word multiplication gives the full 128-bit product |
| `Limbs.AddLimbs` | include/rlp/intx.hpp:167-181 | carry-chain addition of numbers of any length, carry out included |
| `Limbs.SubLimbs` | include/rlp/intx.hpp:205-220 | borrow-chain subtraction of numbers of any length, borrow out included |
| `Limbs.BorrowIsLess` | include/rlp/intx.hpp:205-220 | the final borrow is set exactly when the first number is smaller |
| `Multiplication.UmulLimbs` | include/rlp/intx.hpp:1443-1461 | the schoolbook loop gives the full product, for any length |
| `Multiplication.MulLimbs` | include/rlp/intx.hpp:1465-1483 | the truncated loop gives the product modulo 2^N |
| `Shifts.ShiftLeft` | include/rlp/intx.hpp:1252-1271 | left shift by any amount is multiplication by a power of two modulo 2^N |
| `Shifts.ShiftRight` | include/rlp/intx.hpp:1304-1324 | right shift by any amount is division by a power of two |
| `Shifts.PowerOfTwoLimbs` | include/rlp/intx.hpp:1492-1507 | the base-2 shortcut gives 2^exponent modulo 2^N, also for exponents of N and more |
| `Shifts.Exp` | include/rlp/intx.hpp:1492-1507 | square and multiply, shortcut included, gives base^exponent modulo 2^N |
| `DivisionPrimitives.Reciprocal2by1Value` | include/rlp/intx.hpp:635-638 | the reciprocal as used in the proofs is the documented floor (2^128 - 1) / d - 2^64 |
| `DivisionPrimitives.Reciprocal3by2Value` | include/rlp/intx.hpp:659-688 | the two-word reciprocal is the floor (2^192 - 1) / d - 2^64 |
| `Reciprocal.TableError` | include/rlp/intx.hpp:610-633 | the table of 256 starting values is within its error bound for every normalized divisor |
| `Reciprocal.FirstStep` | include/rlp/intx.hpp:638-657 | error bound after the first Newton step |
| `Reciprocal.SecondStep` | include/rlp/intx.hpp:638-657 | error bound after the second Newton step |
| `Reciprocal.ThirdStep` | include/rlp/intx.hpp:638-657 | error bound after the third Newton step |
| `Reciprocal.FinalStep` | include/rlp/intx.hpp:638-657 | the last, wrapping step lands on the exact floor |
| `Reciprocal.Reciprocal2by1` | include/rlp/intx.hpp:638-657 | the table and the four steps compute the exact reciprocal of every normalized word |
| `Reciprocal.Reciprocal3by2` | include/rlp/intx.hpp:659-688 | the exact two-word reciprocal is derived from the one-word reciprocal |
| `DivisionPrimitives.Udivrem2by1` | include/rlp/intx.hpp:690-712 | two words by one: exact quotient digit and remainder despite wrap-around and up to two corrections |
| `DivisionPrimitives.Udivrem3by2` | include/rlp/intx.hpp:714-742 | three words by two: exact quotient digit and remainder despite wrap-around and up to two corrections |
| `LongDivision.UdivremBy1` | include/rlp/intx.hpp:1619-1635 | in-place long division by one word: quotient left in the array, remainder returned |
| `LongDivision.UdivremBy2` | include/rlp/intx.hpp:1643-1659 | in-place long division by two words |
| `LongDivision.SubMul` | include/rlp/intx.hpp:1674-1690 | subtracting a multiple from a window of the array: difference and borrow are exact, the rest of the array is untouched |
| `LongDivision.AddInto` | include/rlp/intx.hpp:1662-1671 | adding into a window of the array: sum and carry are exact |
| `LongDivision.EqualTopStep` | include/rlp/intx.hpp:1707-1712 | the step for equal top words leaves the exact digit and remainder |
| `LongDivision.EstimatedStep` | include/rlp/intx.hpp:1713-1728 | the estimated digit, corrected by at most one add-back, is exact |
| `LongDivision.KnuthStep` | include/rlp/intx.hpp:1702-1730 | one step of Knuth's algorithm, whichever branch it takes |
| `LongDivision.UdivremKnuth` | include/rlp/intx.hpp:1692-1732 | Knuth's long division: u = q * d + r with r < d, q in its own array, r left in u |
| `WholeDivision.Clz` | include/rlp/intx.hpp:499-513 | number of leading zeros: shifting by it puts the top bit in place, and 64 for zero |
| `WholeDivision.Normalize` | include/rlp/intx.hpp:1566-1611 | the normalized arguments are both numbers scaled by one power of two, with significant word counts |
| `WholeDivision.Udivrem` | include/rlp/intx.hpp:1736-1772 | u = q * v + r and r < v for every numerator and every non-zero divisor, through every branch |
| `Modular.AddModFast` | include/rlp/intx.hpp:1978-1996 | the fast path under its top-word guard gives (x + y) mod m, carry included |
| `Modular.AddMod` | include/rlp/intx.hpp:1978-2002 | addmod is (x + y) mod m on either path |
| `Modular.MulMod` | include/rlp/intx.hpp:2004-2007 | mulmod is x * y mod m of the full product |
| `Bytes.FromBigToBig` | src/rlp/endian.cpp:12-29 | the compact form has the value it was made from |
| `Bytes.CompactLength` | src/rlp/endian.cpp:12-29 | the compact form has at most k bytes exactly when the number is below 256^k |
| `Bytes.FromBigCompactExact` | src/rlp/endian.cpp:31-66 | exactly the compact form is accepted for a number of the width, and one zero byte for zero |
| `RlpFormat.EncodeHeader` | src/rlp/rlp_encoder.cpp:10-30 | a header exists exactly for payloads below 2^64 bytes |
| `RlpEncoder.RlpEncoder.Add` | src/rlp/rlp_encoder.cpp:36-48 | one string encoding is appended at the innermost open list, or nothing if too large |
| `RlpEncoder.RlpEncoder.AddRaw` | src/rlp/rlp_encoder.cpp:63-69 | encoded bytes are appended as they are; empty input is refused |
| `RlpEncoder.RlpEncoder.AddUint` | include/rlp/rlp_encoder.hpp:86-147 | an integer of 1, 2, 4 or 8 bytes is appended as the string of its compact form |
| `RlpEncoder.RlpEncoder.AddBool` | include/rlp/rlp_encoder.hpp:74-84 | true is the string 01, false the empty string |
| `RlpEncoder.RlpEncoder.AddUint256` | src/rlp/rlp_encoder.cpp:72-86 | a 256-bit integer is appended as the string of its compact form |
| `RlpEncoder.RlpEncoder.BeginList` | src/rlp/rlp_encoder.cpp:88-91 | an empty level is opened at the end of the buffer |
| `RlpEncoder.RlpEncoder.EndList` | src/rlp/rlp_encoder.cpp:93-107 | the innermost level becomes one list of the level below; the open starts still mark where the levels begin |
| `RlpEncoder.RlpEncoder.GetBytes` | src/rlp/rlp_encoder.cpp:109-128 | the bytes are given out exactly when every list is closed |
| `RlpEncoder.IntegralIsString` | include/rlp/rlp_encoder.hpp:86-147 | the byte tests of add_integral write the string encoding of the compact form |
| `RlpRuns.CallsBuildForest` | src/rlp/rlp_encoder.cpp:36-107 | the calls for a forest of items leave that forest at the innermost level |
| `RlpRuns.RunLeavesTrace` | src/rlp/rlp_encoder.cpp:36-107 | a run is determined by the open lists and finished items it leaves |
| `RlpRuns.ClosedRunIsForest` | src/rlp/rlp_encoder.cpp:36-107 | a run closes every list exactly when it is the calls of a forest, and then of that one |
| `RlpRuns.RunIffNeverUnmatched` | src/rlp/rlp_encoder.cpp:88-107 | a run succeeds exactly when no EndList is unmatched; the open lists are its bracket depth |
| `RlpRuns.Execute` | src/rlp/rlp_encoder.cpp:36-107 | one call on the encoder keeps every level equal to the encoding of its finished siblings |
| `RlpRuns.Replay` | src/rlp/rlp_encoder.cpp:36-128 | any run leaves the concatenated recursive encodings of its forest, and fails exactly when it is not well-bracketed or too large |
| `RlpFormat.DecodeHeader` | src/rlp/rlp_decoder.cpp:13-112 | an accepted header and its payload lie within the view and take at least one byte |
| `RlpFormat.HeaderLengthAgrees` | src/rlp/rlp_decoder.cpp:216-236 | the header length worked out again from the prefix agrees with the decoded one |
| `RlpFormat.HeaderRoundTrip` | src/rlp/rlp_decoder.cpp:13-112 | a written header is read back, whatever follows the payload |
| `RlpFormat.HeaderIsCanonical` | src/rlp/rlp_decoder.cpp:13-112 | an accepted header is the one the encoder writes for that payload |
| `RlpTree.DecodeInvertsEncode` | src/rlp/rlp_decoder.cpp:156-205 | decoding an encoding gives the tree and leaves exactly what followed |
| `RlpTree.EncodeInvertsDecode` | src/rlp/rlp_decoder.cpp:13-112 | accepted bytes re-encode to the bytes consumed |
| `RlpTree.EncodingsPrefixFree` | src/rlp/rlp_decoder.cpp:13-112 | no encoding is a proper prefix of another and none stands for two trees |
| `RlpTree.AcceptedIffEncoding` | src/rlp/rlp_decoder.cpp:13-112 | the accepted complete inputs are exactly the encodings |
| `RlpDecoder.RlpDecoder.SkipHeader` | src/rlp/rlp_decoder.cpp:216-236 | the view moves past the header, or stays when it is too short |
| `RlpDecoder.RlpDecoder.Read` | src/rlp/rlp_decoder.cpp:156-174 | a string is read and the view moves past it; on error the view stays |
| `RlpDecoder.RlpDecoder.ReadListHeader` | src/rlp/rlp_decoder.cpp:183-193 | the payload length of a list, the view left at its first item |
| `RlpDecoder.RlpDecoder.SkipItem` | src/rlp/rlp_decoder.cpp:195-205 | the view moves past one whole item |
| `RlpDecoder.RlpDecoder.ReadIntegral` | include/rlp/rlp_decoder.hpp:264-306 | an unsigned integer is read, with every error of the header and of the payload |
| `RlpDecoder.RlpDecoder.ReadUint256` | src/rlp/rlp_decoder.cpp:245-282 | the 256-bit read gives the value, the rest and the error of the integral reads at a width of 32 bytes |
| `RlpDecoder.RlpDecoder.ReadBoolean` | include/rlp/rlp_decoder.hpp:308-339 | a boolean is read; other payloads are an overflow |
| `RlpDecoder.RlpDecoder.ReadArray` | include/rlp/rlp_decoder.hpp:216-244 | exactly the requested number of bytes is read |
| `RlpDecoder.ReadStrExact` | src/rlp/rlp_decoder.cpp:156-174 | a string read succeeds exactly on the canonical string encoding |
| `RlpDecoder.ListHeaderExact` | src/rlp/rlp_decoder.cpp:183-193 | a list header read succeeds exactly on the canonical header before enough bytes |
| `RlpDecoder.ReadUintExact` | include/rlp/rlp_decoder.hpp:264-306 | an integer read succeeds exactly on the canonical form, and on a literal zero byte for zero |
| `RlpDecoder.ReadBoolExact` | include/rlp/rlp_decoder.hpp:308-339 | 01 is true, 80 and 00 are false, nothing else is accepted |
| `RlpDecoder.ReadFixedExact` | include/rlp/rlp_decoder.hpp:216-244 | a fixed-size read succeeds exactly on the canonical string of that size |
| `RlpReading.ReadItem` | src/rlp/rlp_decoder.cpp:156-205 | reading a tree through the decoder's operations is the recursive decoding |
| `RlpReading.AddUintVector` | include/rlp/rlp_encoder.hpp:28-35 | a vector is written as the list of its integers |
| `RlpReading.ReadUintVector` | include/rlp/rlp_decoder.hpp:183-212 | a vector is read from its payload alone and the view moves past the list |
| `RlpReading.VectorRoundTrip` | include/rlp/rlp_decoder.hpp:183-212 | a written vector reads back element by element |
| `RlpLargeString.Create` | src/rlp/rlp_streaming.cpp:38-65 | nine zero bytes are reserved at the end of the buffer; an open list is an error |
| `RlpLargeString.LargeStringEncoder.AddChunk` | src/rlp/rlp_streaming.cpp:74-89 | the chunk is appended to the payload; errors after finish and with open lists change nothing |
| `RlpLargeString.LargeStringEncoder.Finish` | src/rlp/rlp_streaming.cpp:91-137 | the reserve gives way to the real header and the payload moves up, with no gap and nothing lost |
| `RlpLargeString.GapCloses` | src/rlp/rlp_streaming.cpp:114-130 | copying the header, moving the payload and cutting the end leaves base, header and payload |
| `RlpLargeString.EncodeLargeString` | include/rlp/rlp_streaming.hpp:77-88 | any split of a payload leaves header and payload behind what was in the buffer |
| `RlpLargeString.StreamedIsAdd` | src/rlp/rlp_streaming.cpp:91-137 | streaming equals one add(payload) exactly when the payload is not a lone byte below 0x80, and there it is unreadable |
| `RlpLargeString.LargeStringDecoder.PeekPayloadSize` | src/rlp/rlp_streaming.cpp:266-280 | the size announced is that of the payload then read |
| `RlpLargeString.LargeStringDecoder.ReadChunk` | src/rlp/rlp_streaming.cpp:282-320 | each call gives the next piece of what is pending and leaves the rest pending |
| `RlpLargeString.DecodeLargeString` | include/rlp/rlp_streaming.hpp:306-326 | for a positive chunk size the callback gets the payload cut into pieces; for 0 it gets nothing |
| `RlpLargeString.LargeStringRoundTrip` | src/rlp/rlp_streaming.cpp:282-320 | pieces of any size put together are the payload that was streamed in pieces of any size |
| `RlpChunkedList.ChunkedListEncoder.AddChunk` | src/rlp/rlp_streaming.cpp:167-197 | the data so far is full chunks in the list and a rest in the buffer, for any sequence of calls |
| `RlpChunkedList.ChunkedListEncoder.Finish` | src/rlp/rlp_streaming.cpp:212-242 | one list of the data cut at the chunk size is left in the level where the encoder stood |
| `RlpChunkedList.EncodeChunkedList` | include/rlp/rlp_streaming.hpp:164-175 | the output is the canonical list of the chunks; chunk size 0 is refused |
| `RlpChunkedList.Scan` | src/rlp/rlp_streaming.cpp:361-390 | the scan counts the chunks and their total size, or fails where reading would |
| `RlpChunkedList.ChunkedListDecoder.PeekTotalSize` | src/rlp/rlp_streaming.cpp:344-390 | before reading, the total size of the chunks then read; afterwards the size counted before, or a scan of the view where it then stands; an error changes nothing |
| `RlpChunkedList.ChunkedListDecoder.PeekChunkCount` | src/rlp/rlp_streaming.cpp:392-401 | before reading, the number of the chunks then read; afterwards the number counted before, or a scan of the view where it then stands |
| `RlpChunkedList.ChunkedListDecoder.ReadChunk` | src/rlp/rlp_streaming.cpp:403-491 | the chunks come in order, then empty views |
| `RlpChunkedList.DecodeChunkedListFull` | include/rlp/rlp_streaming.hpp:331-366 | the concatenation of the chunks before the first empty one |
| `RlpChunkedList.ReassemblyComplete` | include/rlp/rlp_streaming.hpp:331-366 | reassembly is complete exactly when only empty chunks follow an empty chunk |
| `RlpChunkedList.ChunkedRoundTrip` | src/rlp/rlp_streaming.cpp:167-242 | any data in chunks of any positive size is reassembled, in ceil(n / size) chunks |
| `RlpxCrypto.HandshakeMirrors` | src/rlpx/auth/auth_handshake.cpp:497-599 | with the same nonces and wire messages on both sides, the derived secrets mirror each other |
| `RlpxCrypto.SeedsHoldNonces` | src/rlpx/auth/auth_handshake.cpp:586-598 | each seed, unmasked by the MAC secret, begins with the other side's nonce and goes on with the message its direction was opened with, for both roles |
| `RlpxCrypto.KeyFormula` | src/rlpx/auth/auth_handshake.cpp:497-599 | the AES and MAC secrets in terms of the shared secret, the nonces and the hash alone |
| `RlpxCrypto.XorStreamInverse` | src/rlpx/framing/frame_cipher.cpp:122-146 | counter mode undoes itself at the same position |
| `FrameCipher.HashMac.Compute` | src/rlpx/framing/frame_cipher.cpp:99-119 | the AES block is mixed into the transcript and the MAC is the front of the hash |
| `FrameCipher.HashMac.ComputeHeader` | src/rlpx/framing/frame_cipher.cpp:78-85 | transcript and MAC after a header |
| `FrameCipher.HashMac.ComputeFrame` | src/rlpx/framing/frame_cipher.cpp:87-97 | transcript and MAC after a frame body |
| `FrameCipher.CtrState.Process` | src/rlpx/framing/frame_cipher.cpp:123-146 | the next stretch of the key stream is used up |
| `FrameCipher.FrameCipher.EncryptFrame` | src/rlpx/framing/frame_cipher.cpp:185-230 | accepted for 1 to 2^24 bytes; wire bytes and new sending state, receiving state untouched |
| `FrameCipher.FrameCipher.DecryptHeader` | src/rlpx/framing/frame_cipher.cpp:234-259 | frame size or error, and the receiving state in each case |
| `FrameCipher.FrameCipher.DecryptFrame` | src/rlpx/framing/frame_cipher.cpp:263-306 | a whole frame, with every error and the state it leaves |
| `FrameCipher.FrameCipher.DecryptFrameBody` | src/rlpx/framing/frame_cipher.cpp:310-334 | a frame body, with every error and the state it leaves |
| `Framing.OpenInvertsSeal` | src/rlpx/framing/frame_cipher.cpp:185-306 | from equal states a frame is opened to its data and both ends stay equal exactly when it is shorter than 2^24 bytes |
| `Framing.PaddedIsLeast` | src/rlpx/framing/frame_cipher.cpp:192-196 | padded data is the least number of whole blocks that holds it |
| `Framing.FrameHeaderLayout` | src/rlpx/framing/frame_cipher.cpp:198-206 | three bytes of big-endian length modulo 2^24, the RLP list of two empty strings, zeros |
| `Framing.MacFormula` | src/rlpx/framing/frame_cipher.cpp:78-119 | both MACs of a frame and the transcript after it in terms of Keccak, AES and exclusive or alone |
| `Framing.HeaderMacRefused` | src/rlpx/framing/frame_cipher.cpp:234-247 | a sealed header with any other MAC is refused as a mismatch |
| `Framing.FrameMacRefused` | src/rlpx/framing/frame_cipher.cpp:310-328 | a sealed body with any other MAC is refused as a mismatch, whatever size it is opened for |
| `Framing.OpenedIsHashed` | src/rlpx/framing/frame_cipher.cpp:310-334 | any body that opens comes with the front of the hash of a transcript that ends in its own ciphertext and one block |
| `Framing.ReceiveInvertsSeal` | src/rlpx/framing/message_stream.cpp:154-215 | a sealed frame at the front of the stream is received whole and nothing behind it is touched |
| `FrameCipher.ParseInvertsData` | src/rlpx/framing/message_stream.cpp:30-132 | message id and payload, compressed or not, come back from the frame data |
| `FrameCipher.PayloadOnWire` | src/rlpx/framing/message_stream.cpp:30-87 | behind the id lies the payload, or its compressed form under compression |
| `FrameCipher.MessageStream.SendMessage` | src/rlpx/framing/message_stream.cpp:30-87 | frame on the wire and new cipher state; too large a message changes nothing |
| `FrameCipher.MessageStream.ReceiveFrameData` | src/rlpx/framing/message_stream.cpp:154-215 | any failure comes out as an empty frame, with the state it leaves |
| `FrameCipher.MessageStream.ReceiveMessage` | src/rlpx/framing/message_stream.cpp:89-132 | the next message or an error, and the state it leaves |
| `FramingRuns.ConnectionFaithful` | src/rlpx/framing/message_stream.cpp:30-215 | over every interleaving of sends and receives in both directions, messages come exactly and in order, and after each the receiver's transcript and keystream position are those the sender had, with later messages still in flight |
| `FramingRuns.AllDelivered` | src/rlpx/framing/message_stream.cpp:89-215 | receiving at least as often as was sent empties the wire and leaves both ends in one state |
| `FramingRuns.FullFrameIsRefused` | src/rlpx/framing/frame_cipher.cpp:185-259 | a message of exactly 2^24 bytes is sent and refused at the other end |
| `FramingForgery.NextFrameOnly` | src/rlpx/framing/message_stream.cpp:154-215 | from the sender's state, whatever bytes arrive, a non-empty frame is the sender's next one byte for byte, unless a MAC of a transcript is presented that the sender made none of |
| `FramingForgery.OnlyWhatWasSent` | src/rlpx/framing/message_stream.cpp:154-215 | whatever bytes arrive at each receive, the frames taken up to the first failure are those sent, in order, unless such a MAC is presented |
| `Discv5Packets.DecodeInvertsEncode` | src/discv5/discv5_client.cpp:569-707 | decoding inverts encoding exactly when the auth data is shorter than 2^16 bytes |
| `Discv5Packets.StaticHeaderParts` | src/discv5/discv5_client.cpp:569-640 | identifier, version, flag, nonce and auth size at their places in the static header |
| `Discv5Packets.EncodedParts` | src/discv5/discv5_client.cpp:569-640 | the IV in clear, static header and auth data under the destination's mask, the message behind them |
| `Discv5Packets.AuthDataParts` | src/discv5/discv5_client.cpp:984-1008 | source address, two sizes, signature, ephemeral key and record at their places in the handshake auth data |
| `Discv5Packets.ParseInvertsAuthData` | src/discv5/discv5_client.cpp:984-1008 | the handshake auth data parses back exactly when signature and key fit one-byte sizes |
| `Discv5Node.AcceptsExactly` | src/discv5/discv5_client.cpp:1327-1590 | an accepted handshake is the only way a handler installs a session; it consumes one challenge and is counted once |
| `Discv5Node.UnopenedEndsSession` | src/discv5/discv5_client.cpp:1549-1568 | a handshake that passes every check but does not open ends the session there was and changes nothing else |
| `Discv5Node.IdInputParts` | src/discv5/discv5_client.cpp:281-300 | what is signed is the prefix, the challenge, the ephemeral key and the destination, in this order |
| `Discv5Node.PrefixTexts` | src/discv5/discv5_client.cpp:288-374 | the two prefixes are the texts of the specification |
| `Discv5Texts.FindnodeNamesRequest` | src/discv5/discv5_client.cpp:824-902 | a FINDNODE text gives back the request id it was made for |
| `Discv5Texts.MakeFindnode` | src/discv5/discv5_client.cpp:824-856 | driving the encoder writes the type byte and the list of request id and distance, or fails where it does not fit |
| `Discv5Texts.NodesNameRequest` | src/discv5/discv5_client.cpp:858-973 | a NODES text gives back the request id and every record in it that parses |
| `Discv5Texts.NodesLayout` | src/discv5/discv5_client.cpp:858-884 | a NODES text is the type byte and the list of request id, 1 and the list of the record |
| `Discv5Texts.MakeNodes` | src/discv5/discv5_client.cpp:858-884 | driving the encoder writes that text, or fails where it does not fit or the record is empty |
| `Discv5Texts.ParseNodes` | src/discv5/discv5_client.cpp:904-973 | the loop over the records is the specified reading: it stops at the end of the list or at a bad item and skips what does not parse |
| `Discv5Queries.MessageOpens` | src/discv5/discv5_client.cpp:1406-1463 | a message sealed under the key a session reads with is handled by its text |
| `Discv5Queries.OtherKeyIsChallenged` | src/discv5/discv5_client.cpp:1397-1422 | a message under any other key, or where there is no session with its sender, is answered by a challenge |
| `Discv5Queries.RequestIsAnswered` | src/discv5/discv5_client.cpp:1452-1463 | a request sent under a session leads its receiver to answer that very request |
| `Discv5Queries.ReplyIsTakenIff` | src/discv5/discv5_client.cpp:1432-1450 | a NODES reply under the session is counted and handed on exactly when it names the request remembered or none is |
| `Discv5Queries.QueryIsSent` | src/discv5/discv5_client.cpp:1592-1650 | while sealing works, a request under a session is always sent, and answered exactly by a node with a session and a record that fits |
| `Discv5Queries.QueryCompletes` | src/discv5/discv5_client.cpp:1905-1971 | under mirrored sessions A asks, B answers that request, and A counts the reply and takes the peers of B's record |
| `Discv5Agreement.SameChallenge` | src/discv5/discv5_client.cpp:281-295 | equal identity-proof inputs come from equal challenges |
| `Discv5Agreement.ProposalAnswers` | src/discv5/discv5_client.cpp:1494-1550 | the checks on a handshake addressed to this node hold only for an answer to the challenge this node keeps |
| `Discv5Agreement.ProposalMirrors` | src/discv5/discv5_client.cpp:1494-1550 | the session such a handshake proposes mirrors the builder's exactly when the builder's pending request was for this node |
| `Discv5Agreement.AcceptedMirrors` | src/discv5/discv5_client.cpp:1470-1590 | in whatever state B accepts a handshake addressed to B, it answers B's challenge, and B installs the mirror of A's session exactly when A's pending request was for B |
| `Discv5Agreement.AcceptedReads` | src/discv5/discv5_client.cpp:1470-1590 | whomever A's pending request was for, B reads with the key A writes with |
| `Discv5Runs.StepKeepsAccount` | src/discv5/discv5_client.cpp:1858-1903 | every step keeps open challenges distinct from each other and from those consumed |
| `Discv5Runs.AnswerIsGenuine` | src/discv5/discv5_client.cpp:1696-1825 | the session installed on sending a handshake is the one it was built with |
| `Discv5Runs.EachChallengeOnce` | src/discv5/discv5_client.cpp:1470-1590 | in every run each WHOAREYOU is used up by at most one accepted handshake |
| `Discv5Runs.KeyAgreementIff` | src/discv5/discv5_client.cpp:1327-1903 | in every run an accepted handshake answers the challenge it used up, and leaves mirrored sessions exactly when the builder's pending request was for the accepting node |
| `Discv5Runs.AcceptedReadsInRuns` | src/discv5/discv5_client.cpp:1327-1903 | in every run the accepting node reads with the key the builder writes with, whatever the pending request was |
| `Discv5Runs.BuiltForAddressee` | src/discv5/discv5_client.cpp:1592-1826 | in every run that asks for one id per endpoint, each handshake is built from a request for the node it is addressed to |
| `Discv5Runs.KeyAgreement` | src/discv5/discv5_client.cpp:1327-1903 | in every run that asks for one id per endpoint, with drops, repeats, reordering and forgery, an accepted handshake leaves mirrored sessions |
| `Discv5TwoIds.HandshakeMixesPeers` | src/discv5/discv5_client.cpp:1592-1826 | asked for two ids at one endpoint, the client sends the second a handshake with the id and keys of the first, whose session mirrors none of the second's |
| `Discv5Exchange.AnsweredIsAccepted` | src/discv5/discv5_client.cpp:1470-1590 | a handshake is accepted when its challenge is still held |
| `Discv5Exchange.RequestIsChallenged` | src/discv5/discv5_client.cpp:1383-1404 | a first request makes the receiver want to challenge its sender |
| `Discv5Exchange.ChallengeIsHeard` | src/discv5/discv5_client.cpp:1351-1381 | the challenge reaches the pending request with the bytes the challenger keeps |
| `Discv5Exchange.ExchangeCompletes` | src/discv5/discv5_client.cpp:1592-1903 | request, challenge and answer, undisturbed, end with mirrored sessions |
| `Discv5Client.Discv5Client.HandlePacket` | src/discv5/discv5_client.cpp:1327-1590 | new maps, counters and spawned task for any bytes from any endpoint |
| `Discv5Client.Discv5Client.HandleWhoareyou` | src/discv5/discv5_client.cpp:1351-1381 | the challenge is stored with the request it answers, and only there |
| `Discv5Client.Discv5Client.HandleMessage` | src/discv5/discv5_client.cpp:1383-1468 | a message that does not open under the session is answered by a challenge; FINDNODE leads to an answer; NODES counts unless a request is remembered and it names another |
| `Discv5Client.Discv5Client.HandleHandshake` | src/discv5/discv5_client.cpp:1470-1589 | session installed, or removed when the message does not open |
| `Discv5Client.Discv5Client.SendFindnode` | src/discv5/discv5_client.cpp:1592-1826 | message under a session, first request, or handshake, with the maps each leaves |
| `Discv5Client.Discv5Client.AnswerFindnodeRequest` | src/discv5/discv5_client.cpp:1905-1971 | the own record under the session with the asker, with every failure |
| `Discv5Client.Discv5Client.SendChallengeTo` | src/discv5/discv5_client.cpp:1858-1903 | the challenge sent is the challenge kept |
| `Discv5Client.ReadU64` | src/discv5/discv5_client.cpp:86-94 | eight shifted-in bytes are the big-endian value |
| `Discv5Client.AppendU64` | src/discv5/discv5_client.cpp:102-108 | eight bytes are appended that read back as the number |
| `Base64Url.Decode` | src/discv5/discv5_enr.cpp:102-144 | the loop with its wrapping 32-bit accumulator is the unbounded bit buffer |
| `Base64Url.DecodeInvertsEncode` | src/discv5/discv5_enr.cpp:102-144 | every byte string comes back from its encoding, with any amount of padding |
| `Base64Url.EncodeInvertsDecodeIff` | src/discv5/discv5_enr.cpp:102-144 | encoding again gives the accepted string back exactly when it has no lone digit and no stray bits |
| `DialHistory.DialHistory.Add` | include/discv4/dial_history.hpp:33-36 | the node's entry is now plus expiry |
| `DialHistory.DialHistory.Expire` | include/discv4/dial_history.hpp:50-60 | exactly the entries whose time has not passed are left |
| `DialHistory.HeldBackIff` | include/discv4/dial_history.hpp:33-60 | for a forward clock a node is held back exactly when its last add was less than the expiry ago |
| `DialScheduling.EnqueueKeeps` | include/discv4/dial_scheduler.hpp:90-118 | enqueue moves both counters together, keeps the caps and the spacing, and queues only without room |
| `DialScheduling.DrainKeeps` | include/discv4/dial_scheduler.hpp:129-141 | draining keeps caps and spacing and stops only at an empty queue or without room |
| `DialService.DrainServes` | include/discv4/dial_scheduler.hpp:129-141 | draining takes the queue from its front: each peer taken is dialled, in order, or was dropped for a dial of that node within the expiry |
| `DialService.DoneServes` | include/discv4/dial_scheduler.hpp:122-142 | a finished dial serves the queue so, and dials nobody whom the expiry holds back |
| `DialService.NobodyForgotten` | include/discv4/dial_scheduler.hpp:90-158 | in every run a wanted peer once enqueued is in the queue, was dialled since, or is held back by a dial within the expiry, unless its scheduler was stopped |
| `DialService.OnlyWantedDialled` | include/discv4/dial_scheduler.hpp:90-142 | in every run a scheduler dials and queues only peers enqueued on it that its filter wants |
| `DialScheduling.DoneKeeps` | include/discv4/dial_scheduler.hpp:122-142 | a finished dial gives its slot back, keeps every count and leaves no queue beside room |
| `DialScheduling.ConnectedKeeps` | include/discv4/dial_scheduler.hpp:177-183 | a confirmed dial is counted exactly once |
| `DialRuns.AlwaysBalanced` | include/discv4/dial_scheduler.hpp:90-186 | in every state of any number of schedulers the pool counter is the sum of dials in flight, no cap is exceeded, dials of one node are the expiry apart |
| `DialRuns.NoDialAfterStop` | include/discv4/dial_scheduler.hpp:90-158 | after stop no dial is started, whatever happens |
| `DialRuns.AloneWaitsOnlyForRoom` | include/discv4/dial_scheduler.hpp:90-142 | a scheduler alone on its pool has a queue only when a cap is reached |
| `DialStalls.AmpleNeverStalls` | include/discv4/dial_scheduler.hpp:90-142 | with one scheduler, no room at all, or room on the pool for every scheduler's own cap, no reachable state keeps a queue beside free room |
| `DialStalls.ScarceStalls` | include/discv4/dial_scheduler.hpp:122-142 | under any other caps a run is built that leaves a queue waiting beside free room |
| `DialStalls.NeverStallsIff` | include/discv4/dial_scheduler.hpp:90-142 | queues wait only without room in every reachable state exactly when count <= 1, a cap is not positive, or the pool's cap is at least count times the scheduler's |
| `DialScheduler.DialScheduler.EnqueuePeer` | include/discv4/dial_scheduler.hpp:90-118 | counters, queue, history and clock after enqueue |
| `DialScheduler.DialScheduler.ReleaseSlot` | include/discv4/dial_scheduler.hpp:122-142 | counters, queue, history and clock after release; the loop is the recursive drain |
| `DialScheduler.DialScheduler.OnDone` | include/discv4/dial_scheduler.hpp:172-176 | the validated count goes down exactly for a dial that was confirmed |
| `DialScheduler.DialScheduler.OnConnected` | include/discv4/dial_scheduler.hpp:177-183 | the dial's flag and both counts |
| `DialScheduler.DialScheduler.StopDialling` | include/discv4/dial_scheduler.hpp:146-158 | stopping is set and the queue emptied |
| `ChainTracker.ChainTracker.MarkSeen` | src/eth/chain_tracker.cpp:14-46 | accepted exactly when not among the last W accepted hashes; ring and set stay the last W in order; tip kept |
| `ChainTracker.ChainTracker.Reset` | src/eth/chain_tracker.cpp:68-75 | nothing accepted, nothing remembered |
| `ChainTracker.TipIsMaximum` | src/eth/chain_tracker.cpp:39-43 | the tip is the highest number accepted and its hash the first block that reached it |
| `ChainTracker.RepeatsFarApart` | src/eth/chain_tracker.cpp:14-46 | between two acceptances of one hash lie at least W others |
| `EventWatching.MatchFilter` | src/eth/event_filter.cpp:13-57 | block range, emitter and every requested topic, position by position |
| `EventWatching.EventWatcher.Watch` | src/eth/event_filter.cpp:63-68 | the subscription is appended under the next id |
| `EventWatching.EventWatcher.Unwatch` | src/eth/event_filter.cpp:70-78 | moving the kept ones forward and erasing the tail leaves exactly the subscriptions under other ids, in their order |
| `EventWatching.EventWatcher.ProcessReceipt` | src/eth/event_filter.cpp:106-131 | each log is offered to every subscription in order, with its index |
| `WatchRuns.StepKeepsLockStep` | src/eth/eth_watch_service.cpp:22-77 | service and watcher hold the same ids in the same order after every step, wrap-around included |
| `WatchRuns.RemovePair` | src/eth/eth_watch_service.cpp:69-77 | unwatch removes the matching pair |
| `WatchRuns.AlwaysSound` | src/eth/eth_watch_service.cpp:22-185 | in every run tables agree, ids stay apart before they wrap, requests are numbered as sent, each is outstanding until it is answered, and answered at most once |
| `WatchRuns.TablesActAsOne` | src/eth/eth_watch_service.cpp:46-60 | the two tables notify exactly as one table of subscriptions with filters would |
| `WatchRuns.NoticesAreDirect` | src/eth/eth_watch_service.cpp:46-60 | in every reachable state before ids wrap, a log reaches exactly the matching subscriptions, in order |
| `WatchRuns.FilterMeets` | src/eth/eth_watch_service.cpp:31-42 | the filter of a subscription lets through exactly the logs in its range, of its contract unless that is zero, whose first topic is the one asked for |
| `WatchRuns.NoticesMeetAsks` | src/eth/eth_watch_service.cpp:22-63 | in every reachable state before ids wrap, a log reaches exactly the subscriptions whose contract, topic and range it meets and whose signature decodes it |
| `WatchRuns.ReplyNamesItsBlock` | src/eth/eth_watch_service.cpp:147-183 | a reply to an outstanding request carries the block asked for; a second one does not |
| `WatchRuns.ReplyNotifiesForItsBlock` | src/eth/eth_watch_service.cpp:147-201 | a reply notifies exactly the subscriptions its logs match, in order: of its first list under the block asked for if its id is outstanding, of all others under the zero block |
| `WatchRuns.NewBlockDroppedIff` | src/eth/eth_watch_service.cpp:133-146 | a NewBlock message, whatever its number, is dropped exactly when one of the last W requests was for the zero hash it is handled under |
| `WatchRuns.NewBlockHidesLater` | src/eth/eth_watch_service.cpp:133-146 | after a NewBlock message led to a request, every later one is dropped until W more requests were sent |
| `WatchRuns.RepeatRequestsFarApart` | src/eth/eth_watch_service.cpp:83-111 | a second request for one block follows at least a window of others |
| `WatchService.EthWatchService.WatchEvent` | src/eth/eth_watch_service.cpp:22-63 | both tables and both counters move; the filter asks for the contract and for the hash of the signature as first topic |
| `WatchService.EthWatchService.UnwatchEvent` | src/eth/eth_watch_service.cpp:69-77 | both tables lose the id |
| `WatchService.EthWatchService.RequestReceipts` | src/eth/eth_watch_service.cpp:83-111 | one request for a new block, none for a known one or without a send callback |
| `WatchService.EthWatchService.ProcessNewBlockHashes` | src/eth/eth_watch_service.cpp:119-131 | the announced blocks are requested in order |
| `WatchService.EthWatchService.ProcessNewBlock` | src/eth/eth_watch_service.cpp:133-146 | the block is requested under the zero hash and its number |
| `WatchService.EthWatchService.ProcessReceiptsMessage` | src/eth/eth_watch_service.cpp:147-184 | pending request settled, notices of all lists made in order |
| `RlpFields.ReadListBack` | src/eth/objects.cpp:176-194 | a list whose elements read back reads back, ending exactly at its declared length |
| `EthObjects.LogBack` | src/eth/objects.cpp:63-110 | a log reads back whatever follows it |
| `EthObjects.AccessBack` | src/eth/objects.cpp:116-161 | an access list entry reads back whatever follows it |
| `EthObjects.TransactionRoundTrip` | src/eth/objects.cpp:235-474 | each of the three kinds decodes to its normal form, so unchanged exactly when in normal form |
| `EthBlocks.ReceiptRoundTrip` | src/eth/objects.cpp:476-557 | a receipt comes back unchanged exactly when it has one of state root and status |
| `EthBlocks.BlockHeaderRoundTrip` | src/eth/objects.cpp:559-625 | every block header comes back, with or without base fee |
| `EthLayouts.LogLayout` | src/eth/objects.cpp:494-504 | a log is the recursive encoding of the list of address, topics, data |
| `EthLayouts.AccessLayout` | src/eth/objects.cpp:116-130 | an access list entry is the recursive encoding of the list of address and storage keys |
| `EthLayouts.TransactionLayout` | src/eth/objects.cpp:235-341 | a legacy transaction is the recursive encoding of its nine fields; a typed one is its type 1 or 2 and that of the fields of EIP-2930 or EIP-1559, each position named |
| `EthLayouts.ReceiptLayout` | src/eth/objects.cpp:476-511 | a receipt is the recursive encoding of the list of outcome, gas used, bloom, logs |
| `EthLayouts.BlockHeaderLayout` | src/eth/objects.cpp:559-586 | a block header is the recursive encoding of its fifteen fields in order and the base fee if there is one |
| `EthDecoding.TakeHashes` | src/eth/messages.cpp:153-183 | the hash loop reads a list to its declared end or reports the mismatch |
| `EthDecoding.TakeLog` | src/eth/objects.cpp:63-110 | the step-by-step reading is the specified one, errors included |
| `EthDecoding.TakeAccessList` | src/eth/objects.cpp:176-194 | the loop over entries is the specified reading, errors included |
| `EthDecoding.ParseTransaction` | src/eth/objects.cpp:343-474 | the cursor-driven decoder computes the decoding that inverts the encoding |
| `EthDecoding.ParseReceipt` | src/eth/objects.cpp:513-557 | the cursor-driven decoder computes the decoding that inverts encode_receipt, errors included |
| `EthDecoding.ParseBlockHeader` | src/eth/objects.cpp:588-625 | the cursor-driven decoder computes the decoding that inverts encode_block_header, errors included |
| `EthEncoding.WriteHashes` | src/eth/messages.cpp:130-151 | driving the encoder writes exactly the list's bytes in place |
| `EthEncoding.WriteLog` | src/eth/objects.cpp:494-504 | driving the encoder writes exactly the log's bytes in place |
| `EthEncoding.WriteAccessList` | src/eth/objects.cpp:164-174 | driving the encoder writes exactly the access list's bytes in place |
| `EthEncoding.BuildTransaction` | src/eth/objects.cpp:235-341 | driving the encoder writes the bytes that the decoding inverts |
| `EthEncoding.BuildReceipt` | src/eth/objects.cpp:476-511 | driving the encoder writes the bytes that decode_receipt inverts; a receipt with neither state root nor status is refused |
| `EthEncoding.BuildBlockHeader` | src/eth/objects.cpp:559-586 | driving the encoder writes the bytes that decode_block_header inverts |
| `EthMessages.TransactionBack` | src/eth/messages.cpp:458-532 | a legacy transaction embedded as it is, and a typed one wrapped in a string, read back in a list |
| `EthMessages.BodyBack` | src/eth/messages.cpp:534-570 | a block body reads back, both lists filling it exactly |
| `EthLayouts.BodyLayout` | src/eth/messages.cpp:534-548 | a block body is the recursive encoding of the list of transactions and ommers |
| `EthLayouts.BlockHeadersLayout` | src/eth/messages.cpp:992-1010 | a headers message is the recursive encoding of request id and list of headers |
| `EthLayouts.BlockBodiesLayout` | src/eth/messages.cpp:1363-1385 | a bodies message is the recursive encoding of request id and list of bodies |
| `EthLayouts.HashListLayout` | src/eth/messages.cpp:1058-1080 | a hash list message is the recursive encoding of request id and list of hashes |
| `EthLayouts.ReceiptsLayout` | src/eth/messages.cpp:1124-1150 | a receipts message is the recursive encoding of request id and list of lists of receipts |
| `EthLayouts.PooledLayout` | src/eth/messages.cpp:1256-1280 | pooled transactions that are items are encoded as request id and the list of those items |
| `EthMessages.BlockHeadersRoundTripIff` | src/eth/messages.cpp:992-1056 | the block headers message comes back exactly when it carries a request id |
| `EthMessages.BlockBodiesRoundTripIff` | src/eth/messages.cpp:1363-1424 | the block bodies message comes back exactly when it carries a request id |
| `EthMessages.ReceiptsRoundTripIff` | src/eth/messages.cpp:1124-1188 | the receipts message, a list of lists, comes back exactly when it carries a request id |
| `EthMessages.ReceiptsOfOneBlockLost` | src/eth/messages.cpp:1124-1188 | one block without receipts and no id is written c1 c0 and read as a message without blocks |
| `EthMessages.HashListRoundTripIff` | src/eth/messages.cpp:1058-1122 | a hash list message comes back exactly when it carries a request id |
| `EthMessages.PooledRoundTripIff` | src/eth/messages.cpp:1256-1320 | pooled transactions come back exactly when there is a request id and each is a single RLP item |
| `EthMessages.PooledTakenForId` | src/eth/messages.cpp:1256-1320 | the items 05 and c0 without an id are written c2 05 c0 and read as request 5 with nothing in it |
| `EthMessages.TypedIsNoItem` | src/eth/messages.cpp:1256-1320 | a typed transaction is not a single item, so it does not come back there |
| `EthMessages.NewBlockRoundTrip` | src/eth/messages.cpp:1427-1495 | a new block comes back, the inner list filled exactly |
| `EthLayouts.NewBlockLayout` | src/eth/messages.cpp:1427-1450 | a new block is the recursive encoding of the list of header, transactions and ommers, and the total difficulty |

## Left out

- Sockets, timers, name resolution, logging, command line, boot node tables: no property of their own.
- secp256k1, Keccak, SHA-256, AES, GCM, HMAC and Snappy internals: parameters with the laws listed above.
- intx conversions, signed division, string and byte-order helpers, the separate 128-bit division and the 256-bit shift overloads: the general forms are modelled.
- Shifts.Exp: lengths are below 2^26 words, because N is an unsigned 32-bit number of bits.
- WholeDivision.Normalize: for a zero numerator the code reads one word before its array; the model takes that word as an argument and the result does not depend on it.
- Words and limbs: the compiler-intrinsic paths of the multiplication and of leading zeros; the portable ones are modelled.
- RlpLargeString.LargeStringEncoder.Finish: other calls on the encoder while a string is being streamed are not modelled.
- RlpChunkedList.ChunkedListDecoder.ReadChunk: the remaining view after the list is not described, because the code does not move it past the payload.
- AuthHandshake::execute end to end: the two sides keep the handshake messages in different forms; the derivation of the secrets alone is modelled.
- Discovery: what the crawler does with the peers of a NODES reply, most counters, failing random number generation, and different spellings of one address as an endpoint key.
- ENR record parsing and building: a record is an argument or a parsed node id.
- DialScheduler.DialScheduler.StopDialling: disconnecting the sessions and their weak references are not modelled.
- DialRuns.NoDialAfterStop: is about starting dials; a coroutine spawned before stop still runs.
- Re-entrant callbacks, such as unwatch inside a callback.
- WatchRuns.AlwaysSound: distinct watch ids and single answers are stated before the 32-bit and 64-bit counters wrap.
- EthMessages.NewBlockRoundTrip and the list messages: the message encoders and decoders are modelled on values, a view and what follows it; the cursor and the encoder buffer are modelled as objects for the eth objects below them.
- Sizes of 2^64 bytes and more in eth objects: such payloads do not exist in memory.
- Status, block header requests, new block hashes, pooled transaction hashes, ABI decoding: easy members.
- The discv4 client, the discv5 crawler, the RLPx session state flag and include/discv4/discovery.hpp: easy or unfinished.
