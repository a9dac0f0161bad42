# walker: a verified model

walker receives an MPEG transport stream over UDP, cuts it into segments that it keeps in memory, and serves segments
and index with a modified single-threaded web server. This project models the parts of it that carry the most logic and
proves what they are for. `dafny verify dfyconfig.toml` checks everything.

| file | part of walker |
|---|---|
| Words.dfy, BlockHash.dfy, Sha1.dfy, Md5.dfy | the two incremental hashes of the web server, against FIPS 180-4 and RFC 1321 |
| KnownAnswers.dfy | the standards' examples for both hashes, round by round |
| WebSocket.dfy | frame reassembly and frame writing, against RFC 6455 |
| Common.dfy | an option type, and the place of a character |
| Glob.dfy | the pattern matcher, against a declarative match relation |
| Ring.dfy | the ring buffer between the UDP thread and the segmenter, against a queue, and its two clients |
| Hls.dfy, HlsCuts.dfy, HlsFailures.dfy | the segmenter's sliding window: segment queue, published playlist; where it cuts; index writes that fail |
| Decimal.dfy, SegmentBuffer.dfy, Playlist.dfy, SegmentQueue.dfy, SegmentOutput.dfy | in-memory files, the text of the index, a player's reading of it, the list of files that the segmenter writes, and lookup by request name |
| IoBuffer.dfy, Requests.dfy, Answers.dfy, Transfer.dfy, FileServer.dfy, Connection.dfy, RangeReply.dfy | connection buffers, request framing, pipelining, file transfers, the life of a connection, the close decision, and Range replies |
| UrlCodec.dfy, PathNormal.dfy, Options.dfy | URL coding, path normalisation, and the option string between main.c and the segmenter |
| LinkedList.dfy | the circular list of connections and of segments |

The code changes things in place, and so does the model: hash contexts, byte buffers, the ring, in-memory files,
connections, the segmenter with its list of buffers, option arrays and list nodes are classes with the source's fields,
or arrays. Each method is proved against a function of the old state, and the laws are lemmas about these functions.
`Hls.Segmenter` records, for the proofs only, every state that the web server's thread could see (`views`), all segments
ever created (`all`) and the cuts; `Connection.Conn` records the bytes spooled and sent and the requests taken.

## Where the code does not do what it is for

Each of these is modelled as the code has it. The lemma named gives the exact condition under which the code is right.

- A ring read that wraps copies its second part over its first one (istb_ringbuffer.c:172): `Ring.ReadExact`. With the
  program's own sizes this happens: `Ring.ProgramReadsWrap`.
- A write that exactly fills the ring makes it read as empty (istb_ringbuffer.c:33): `Ring.WriteExact`. For whole runs
  both are in `Ring.QueueForAllContents`.
- A range that ends behind the file is announced one byte too long (istb_mongoose.c:3931), and without a Range header
  the shared read position is not rewound: `RangeReply.SentExactly` with `AnnouncesRight`. A range that begins behind
  the file, or ends before it begins, makes the announced length negative or the position wrong:
  `RangeReply.Reply.WriteRange` with `Inside`.
- Bytes from the client during a file transfer run the handler again, whose reply then stands in the middle of the file:
  `Transfer.IntactExactly`, and for the connection `FileServer.AnswerIntactExactly`.
- The end of a file transfer leaves CONN_SPOOL_DONE set (istb_mongoose.c:3517), and a request that is taken before all
  has been sent does not clear it, so the connection is closed as soon as the buffer is empty (istb_mongoose.c:1891):
  `FileServer.CompleteExactly`, with the bytes that do it in `FileServer.CutShort`.
- Of a 64-bit WebSocket length the high word is dropped: `WebSocketFrames.AgreesForEver`,
  `HighWordIgnored`; a low word from 2^31 on gives a negative content length: `NegativeLength`.
- An index write that fails while a segment is removed leaves a playlist that lists it:
  `HlsFailures.TaskAgreesExactly`, and for one slide `HlsWindow.FailureAgrees`.
- With a segment duration of zero, segments do not begin with key frames: `HlsWindow.KeysFirstExactly`.
- `mg_url_encode` leaves a hole where an escape does not fit: `UrlCodec.Encode`.
- A prefix with a newline, or with `#` in front, spoils the playlist: `PlaylistText.ReadsBackExactly`.
- A request without keep-alive that has others behind it in the same chunk ends that round, so the requests taken
  depend on the packets: `Requests.ChunksDoNotMatter`.
- An empty file name, a space in front or a space before a hyphen spoils the option string:
  `OptionText.ReadsBackExactly`.

## Model

| member | source | states |
|---|---|---|
| `BlockHash.CarryCounts` | istb_mongoose.c:1678-1681 | adding a chunk to the two-word bit counter, with the carry found by comparison and the high part by `len >> 29`, gives the bit count of the longer message modulo 2^64 |
| `BlockHash.BufferedCount` | istb_mongoose.c:1682 | the low counter word, in bytes, modulo 64, is the number of message bytes that wait in the buffer |
| `BlockHash.Zeros` | istb_mongoose.c:1705-1708 | fewer than 64 zero bytes bring the padded length to 56 modulo 64 (448 bits modulo 512, section 5.1.1 of FIPS 180-4) |
| `BlockHash.Flushed` | istb_mongoose.c:1709 | once the padded message fills whole blocks, the state is the fold of the compression function over all of it |
| `BlockHash.CopyIn` | istb_mongoose.c:1684 | a copy into the 64-byte buffer replaces exactly the bytes at its place |
| `Words.NumberOfBytes` | istb_mongoose.c:1700-1703 | the four bytes of a 32-bit count, as `>> 24`, `>> 16`, `>> 8` and none give them, are its base-256 digits, most significant first |
| `Words.TwoWords` | istb_mongoose.c:1678-1681 | the two counter words together are the bit count modulo 2^64 |
| `Words.WordOfBytes` | istb_mongoose.c:1710-1713 | the four bytes that a digest takes from a state word are its base-256 digits, most significant first |
| `Words.BigWordReads` | istb_mongoose.c:1601-1608 | a big-endian word is the number that its four bytes spell, most significant first |
| `Words.LittleWordReads` | istb_mongoose.c:2694-2760 | a little-endian word is the number that its four bytes spell, least significant first |
| `Sha1.ChooseForm` | istb_mongoose.c:1612-1613 | the rewritten choice function of R0 and R1 is Ch of section 4.1.1 of FIPS 180-4 |
| `Sha1.MajorityForm` | istb_mongoose.c:1615 | the rewritten majority function of R3 is Maj of section 4.1.1 of FIPS 180-4 |
| `Sha1.SwapPacks` | istb_mongoose.c:1604-1605 | two rotations under byte masks reverse the four bytes of a word |
| `Sha1.LoadWord` | istb_mongoose.c:1601-1608 | on hosts of either byte order, a word as blk0 returns it is the big-endian word of the block |
| `Sha1.Blk0` | istb_mongoose.c:1601-1608 | in round `i` < 16 the result is schedule word W(i), and the 16-word window stays right |
| `Sha1.Blk` | istb_mongoose.c:1610-1611 | in round `i` >= 16 the in-place update of slot `i & 15` yields schedule word W(i) of the 80-word definition, and leaves the 16 last words in the window |
| `Sha1.FormIsF` | istb_mongoose.c:1612-1616 | the function that a macro spells is the standard's f of the rounds it is used in |
| `Sha1.R0` | istb_mongoose.c:1612 | with its literal constant and blk0, one round of 0 to 15, on registers under rotated names; the window moves on by one |
| `Sha1.R1` | istb_mongoose.c:1613 | one round of 16 to 19, with blk |
| `Sha1.R2` | istb_mongoose.c:1614 | one round of 20 to 39 |
| `Sha1.R3` | istb_mongoose.c:1615 | one round of 40 to 59 |
| `Sha1.R4` | istb_mongoose.c:1616 | one round of 60 to 79 |
| `Sha1.Rounds0` | istb_mongoose.c:1634-1636 | the ten written-out calls 0 to 9 are those rounds of section 6.1.2 of FIPS 180-4; the register names come back to their start |
| `Sha1.Rounds10` | istb_mongoose.c:1636-1638 | calls 10 to 19 |
| `Sha1.Rounds20` | istb_mongoose.c:1639-1641 | calls 20 to 29 |
| `Sha1.Rounds30` | istb_mongoose.c:1641-1643 | calls 30 to 39 |
| `Sha1.Rounds40` | istb_mongoose.c:1644-1646 | calls 40 to 49 |
| `Sha1.Rounds50` | istb_mongoose.c:1646-1648 | calls 50 to 59 |
| `Sha1.Rounds60` | istb_mongoose.c:1649-1651 | calls 60 to 69 |
| `Sha1.Rounds70` | istb_mongoose.c:1651-1653 | calls 70 to 79 |
| `Sha1.AllRounds` | istb_mongoose.c:1634-1653 | all 80 written-out calls are the 80 rounds of section 6.1.2 of FIPS 180-4 |
| `Sha1.Transform` | istb_mongoose.c:1624-1658 | the state becomes the standard's compression of the old state and the block, in either byte order |
| `Sha1Spec.Pad` | istb_mongoose.c:1703-1709 | the padded message is a whole number of blocks |
| `Sha1Spec.LengthAtEnd` | istb_mongoose.c:1700-1708 | behind the message come 0x80, fewer than 64 zeros, and eight bytes that, read most significant first, are 8 times the length modulo 2^64; the whole is full blocks (section 5.1.1 of FIPS 180-4) |
| `Sha1Example.AbcDigest` | istb_mongoose.c:1595-1716 | SHA-1 of "abc" is a9993e36 4706816a ba3e2571 7850c26c 9cd0d89d, the standard's example, with all 80 schedule words and the registers after each round; every constant, rotation and byte order takes part |
| `Sha1Example.Compressed` | istb_mongoose.c:1624-1658 | the registers after the one block of that example |
| `Sha1.Context.constructor` | istb_mongoose.c:1665-1672 | a fresh context has taken the empty message |
| `Sha1.Context.Count` | istb_mongoose.c:1678-1681 | the counter words count the bits of the message with the new chunk |
| `Sha1.Context.Blocks` | istb_mongoose.c:1686-1688 | the loop folds every whole block of the chunk and stops with fewer than 64 bytes left |
| `Sha1.Context.Absorb` | istb_mongoose.c:1682-1692 | state and buffer then are the fold over the whole blocks of message plus chunk, and the bytes that are left over |
| `Sha1.Context.Update` | istb_mongoose.c:1674-1693 | for any state of the buffer and any chunk, the context has taken old message + chunk: state, buffered tail and counter |
| `Sha1.Context.AppendPadding` | istb_mongoose.c:1703-1708 | the byte-wise padding loop ends and has appended exactly 0x80 and the standard's zeros |
| `Sha1.DigestAt` | istb_mongoose.c:1710-1713 | digest byte `i` is byte `i & 3` of state word `i >> 2`, most significant first |
| `Sha1.Context.WriteDigest` | istb_mongoose.c:1710-1713 | the written digest is the five state words in big-endian order |
| `Sha1.Context.Final` | istb_mongoose.c:1695-1713 | the digest is the one-shot SHA-1 of FIPS 180-4 of everything that was fed in |
| `Sha1.HashChunks` | istb_mongoose.c:1665-1716 | for every way to cut a message into chunks, init, updates and final give SHA-1 of the concatenation |
| `Md5.F1IsF` | istb_mongoose.c:2666 | F1 is the selection function F of section 3.4 of RFC 1321 |
| `Md5.F2IsG` | istb_mongoose.c:2667 | F2 is G of RFC 1321 |
| `Md5.FormIsMix` | istb_mongoose.c:2666-2669 | in each quarter of the 64 steps the macro's function is the one the standard's round uses |
| `Md5.Step` | istb_mongoose.c:2671-2672 | one MD5STEP with its literal word, constant and rotation is the table-driven operation of that number |
| `Md5.Steps0` | istb_mongoose.c:2694-2701 | these eight written-out steps are operations 0 to 7 of the tables of RFC 1321 |
| `Md5.Steps8` | istb_mongoose.c:2702-2709 | these eight written-out steps are operations 8 to 15 of the tables of RFC 1321 |
| `Md5.Steps16` | istb_mongoose.c:2711-2718 | these eight written-out steps are operations 16 to 23 of the tables of RFC 1321 |
| `Md5.Steps24` | istb_mongoose.c:2719-2726 | these eight written-out steps are operations 24 to 31 of the tables of RFC 1321 |
| `Md5.Steps32` | istb_mongoose.c:2728-2735 | these eight written-out steps are operations 32 to 39 of the tables of RFC 1321 |
| `Md5.Steps40` | istb_mongoose.c:2736-2743 | these eight written-out steps are operations 40 to 47 of the tables of RFC 1321 |
| `Md5.Steps48` | istb_mongoose.c:2745-2752 | these eight written-out steps are operations 48 to 55 of the tables of RFC 1321 |
| `Md5.Steps56` | istb_mongoose.c:2753-2760 | these eight written-out steps are operations 56 to 63 of the tables of RFC 1321 |
| `Md5.Transform` | istb_mongoose.c:2686-2766 | the state becomes the table-driven compression of the old state and the 16 words |
| `Md5.ByteReverse` | istb_mongoose.c:2652-2664 | on a big-endian host exactly the first `longs` words have their bytes reversed; on a little-endian host nothing changes |
| `Md5.MirroredWord` | istb_mongoose.c:2655-2663 | the word a host then reads is the little-endian word of the original bytes |
| `Md5.FinalWords` | istb_mongoose.c:2822-2828 | length words stored natively after the rest was byte-reversed give the transform the same 16 words as a block that ends with both length words in little-endian order |
| `Md5.DigestFromMemory` | istb_mongoose.c:2829-2830 | the four state words, byte-reversed in memory where needed, are the little-endian digest |
| `Md5.Context.constructor` | istb_mongoose.c:2676-2684 | a fresh context has taken the empty message |
| `Md5.Context.Count` | istb_mongoose.c:2771-2774 | the counter words count the bits of the message with the new chunk |
| `Md5.Context.TransformInput` | istb_mongoose.c:2787-2788 | byte reversal and transform compress the buffer as a block of RFC 1321 |
| `Md5.Context.Absorb` | istb_mongoose.c:2776-2801 | all three branches leave the fold over the whole blocks and the left-over bytes |
| `Md5.Context.Blocks` | istb_mongoose.c:2793-2799 | the loop folds every whole block of the chunk |
| `Md5.Context.Update` | istb_mongoose.c:2768-2802 | for any buffered state and any chunk, the context has taken old message + chunk |
| `Md5.Context.PadInput` | istb_mongoose.c:2809-2821 | both branches, fewer than 8 bytes left or at least 8, leave the message followed by 0x80 and the standard's zeros |
| `Md5.Context.FinalBlock` | istb_mongoose.c:2822-2828 | the state becomes the fold over the padded message followed by the counter words, low word first |
| `Md5.Context.WriteDigest` | istb_mongoose.c:2829-2830 | the digest bytes are the state in little-endian order, on either host |
| `Md5.Context.Final` | istb_mongoose.c:2804-2831 | the digest is the one-shot MD5 of RFC 1321 of everything that was fed in |
| `Md5Spec.Pad` | istb_mongoose.c:2809-2826 | the padded message is a whole number of blocks |
| `Md5Spec.LengthAtEnd` | istb_mongoose.c:2809-2828 | behind the message come 0x80, fewer than 64 zeros, and eight bytes that, read least significant first, are 8 times the length modulo 2^64; the whole is full blocks (sections 3.1 and 3.2 of RFC 1321) |
| `Md5Example.AbcDigest` | istb_mongoose.c:2666-2832 | MD5 of "abc" is 900150983cd24fb0d6963f7d28e17f72, as appendix A.5 of RFC 1321 has it |
| `Md5Example.Next` | istb_mongoose.c:2671-2672 | one operation of that example, with its literal word number, rotation, constant, function value and new register; all 64 are listed |
| `Md5.BinToStr` | istb_mongoose.c:2839-2847 | two lower-case hexadecimal digits for each byte, in order |
| `Md5.HexDigitsOf` | istb_mongoose.c:2839-2847 | digits `2 * i` and `2 * i + 1` are those of "0123456789abcdef" for the high and the low half of byte `i` |
| `Md5.MgMd5` | istb_mongoose.c:2850-2867 | the result is, in hexadecimal, MD5 of the concatenation of the strings |
| `WebSocketFrames.XorTwice` | istb_mongoose.c:1797 | masking a byte twice with the same key byte restores it (section 5.3 of RFC 6455), because masking is exclusive or |
| `WebSocketFrames.XorIs` | istb_mongoose.c:1797 | masking, computed bit by bit on numbers, is the bitwise exclusive or of the two bytes |
| `WebSocketFrames.MaskedHello` | istb_mongoose.c:1770-1799 | the frame 81 85 37 fa 21 3d 7f 9f 4d 51 58 of section 5.7 of RFC 6455 is delivered as "Hello" |
| `WebSocketFrames.UnmaskedHello` | istb_mongoose.c:1770-1799 | the frame 81 05 48 65 6c 6c 6f of the same section is, too |
| `WebSocketFrames.LongExamples` | istb_mongoose.c:1775-1783 | the 256-byte and the 65536-byte example of that section, with their two- and eight-byte lengths |
| `WebSocketFrames.WrapsToInt` | istb_mongoose.c:1786 | conversion to int is the one 32-bit signed number that differs by a multiple of 2^32 |
| `WebSocketFrames.NegativeLength` | istb_mongoose.c:1781-1787 | a 64-bit length of 2^32 - 1 is taken for -1: a frame of 9 bytes is delivered with that content length |
| `WebSocketFrames.NumberOfBytes` | istb_mongoose.c:1838-1841 | a length written big-endian in `k` bytes is read back |
| `WebSocketFrames.HeaderAgrees` | istb_mongoose.c:1770-1784 | on a complete header whose frame size fits a C int, the header parse is that of section 5.2 of RFC 6455, in all three length forms |
| `WebSocketFrames.CodeAgrees` | istb_mongoose.c:1770-1799 | then what is delivered, or that nothing is, is what RFC 6455 says |
| `WebSocketFrames.CodeFrameLenExact` | istb_mongoose.c:1786-1787 | a positive frame size is free of overflow and comes from a header that was parsed |
| `WebSocketFrames.RfcHeaderStable` | istb_mongoose.c:1770-1784 | a complete header means the same whatever bytes arrive behind it |
| `WebSocketFrames.CodeHeaderStable` | istb_mongoose.c:1770-1784 | and so it does for the code |
| `WebSocketFrames.AgreesForEver` | istb_mongoose.c:1770-1787 | for a header, code and RFC 6455 agree on everything that may ever arrive behind it if and only if the frame size fits a C int, or the size as the code computes it is not positive, when neither ever delivers |
| `WebSocketFrames.HighWordIgnored` | istb_mongoose.c:1781-1782 | a 64-bit length of 2^32 + 5 is taken for 5: a frame that is not there is delivered |
| `WebSocketFrames.CodeFrameStable` | istb_mongoose.c:1770-1799 | a frame that can be delivered is the same frame after more bytes have arrived |
| `WebSocketFrames.DeliverInParts` | istb_mongoose.c:2138-2139 | delivering now and again after more bytes gives the same frames and the same rest as delivering once at the end |
| `WebSocketFrames.WireHeader` | istb_mongoose.c:1770-1784 | the header of a frame of any form, masked or not, is read back |
| `WebSocketFrames.WireContent` | istb_mongoose.c:1794-1799 | its payload is unmasked to the original |
| `WebSocketFrames.WireRoundTrip` | istb_mongoose.c:1770-1799 | a frame at the start of a buffer is read back whole, whatever follows |
| `WebSocketFrames.StreamDelivered` | istb_mongoose.c:2138-2139 | a list of frames followed by an incomplete one yields exactly the payloads, in order, and leaves the incomplete frame as it is |
| `WebSocketFrames.WireFits` | istb_mongoose.c:1786-1787 | for frames up to the largest C int, code and RFC 6455 see the same |
| `WebSocket.Connection.ReadHeader` | istb_mongoose.c:1770-1784 | the three lengths as the branches compute them with 32-bit ints; all zero while the header is incomplete |
| `WebSocket.Connection.Unmask` | istb_mongoose.c:1795-1799 | the loop unmasks every content byte in place with key byte `i % 4` and changes nothing else |
| `WebSocket.Connection.TakeContent` | istb_mongoose.c:1790-1799 | the handler is given the unmasked content; the bytes behind the frame are unchanged |
| `WebSocket.Connection.Deliver` | istb_mongoose.c:1764-1810 | a whole frame is handed over once and removed; without one, no byte and no flag changes; a handler that says so marks the connection as done |
| `WebSocket.Connection.DeliverLoop` | istb_mongoose.c:2138-2139 | the loop ends, and has delivered all whole frames in order and kept the rest |
| `WebSocket.Connection.Receive` | istb_mongoose.c:3425-3450 | receiving a chunk delivers what buffer plus chunk contain |
| `WebSocket.ReceiveAll` | istb_mongoose.c:1764-1810 | for every list of received chunks, what was delivered and what is left depend on the concatenation only |
| `WebSocket.ChunkedFrames` | istb_mongoose.c:1764-1810 | a stream of frames cut anywhere gives exactly the payloads, each once, in order |
| `WebSocket.TwoWords` | istb_mongoose.c:1839-1841 | two big-endian 32-bit stores are one big-endian 64-bit length |
| `WebSocket.Write` | istb_mongoose.c:1812-1852 | the bytes are one final, unmasked frame in the shortest form; reading it gives back opcode and payload, whatever follows |
| `Glob.ReachNext` | istb_mongoose.c:1454-1477 | passing a character that matches in both strings keeps the matches of the whole in step with those of the rest |
| `Glob.ReachVerdict` | istb_mongoose.c:1473 | the answer for the rest, moved by the characters passed, is the answer for the whole |
| `Glob.StarBound` | istb_mongoose.c:1460-1466 | `strlen` and `strcspn` give exactly the longest text that `**` and `*` may stand for |
| `Glob.TryNext` | istb_mongoose.c:1470-1472 | after a failed attempt, all matches give the star less |
| `Glob.StarFound` | istb_mongoose.c:1470-1473 | the first attempt that succeeds is the match with the greatest expansion |
| `Glob.MatchStar` | istb_mongoose.c:1459-1473 | the backtracking loop returns the answer for a pattern that begins with a star, and ends |
| `Glob.MatchPlain` | istb_mongoose.c:1452-1478 | without `|`: -1 exactly when nothing matches, else the length of the match whose stars, from the left, take as much as they can |
| `Glob.MatchPrefix` | istb_mongoose.c:1442-1479 | with `|`: the answer of the first alternative with a positive one, else that of the last |
| `Glob.LaterDecides` | istb_mongoose.c:1446-1449 | after an alternative without a positive answer, the other alternatives decide |
| `Glob.LengthUnique` | istb_mongoose.c:1452-1478 | what the stars stand for fixes the length matched |
| `Glob.VerdictUnique` | istb_mongoose.c:1452-1478 | a pattern and a string have one answer only |
| `Glob.GreatestEmpty` | istb_mongoose.c:1470-1473 | if the greatest expansion matches nothing, no expansion matches anything |
| `Glob.VerdictPositive` | istb_mongoose.c:1452-1478 | the answer is positive if and only if some match has positive length, and not negative if and only if some match exists |
| `Glob.PrefixPositive` | istb_mongoose.c:1446-1449 | with alternatives, the answer is positive if and only if one of them has a match of positive length |
| `Glob.SameCase` | istb_mongoose.c:1416-1418 | two characters are compared as equal if and only if they are the same or the two cases of one of the 26 letters |
| `Glob.PlainFrontVerdict` | istb_mongoose.c:1474-1475 | characters without a meaning in front of a pattern: the string must begin with them, in either case, and the rest decides |
| `Glob.PlainMatch` | istb_mongoose.c:1441-1480 | the answer for a pattern without `? * $ |` is its length if the string begins with it up to letter case, else -1 |
| `Glob.ExactAnswer` | istb_mongoose.c:1457-1458 | with `$` behind it: only for a string of that length |
| `Glob.QuestionAnswer` | istb_mongoose.c:1455-1456 | `?` takes any one character, and needs one |
| `Glob.StarAnswer` | istb_mongoose.c:1459-1469 | a star at the end takes everything up to the first slash, two stars take everything |
| `Glob.SuffixAnswer` | istb_mongoose.c:1459-1473 | `**` + plain text + `$` matches, whole, exactly the strings that end with the text up to letter case |
| `Glob.AlternativesJoin` | istb_mongoose.c:1446-1450 | the alternatives, put together with bars, are the pattern, and none has a bar in it |
| `Ring.Wraps` | istb_ringbuffer.c:29-31 | the modulus in the commit macros is one step around the end |
| `Ring.Gap` | istb_ringbuffer.c:33 | the available-data macro is the distance from the read to the write position around the end |
| `Ring.PacketSlot` | istb_ringbuffer.c:31 | positions on packet boundaries stay on packet boundaries |
| `Ring.PacketsStayWhole` | istb_ringbuffer.c:110-125 | no packet of a write that starts on a boundary is cut in two by the wrap |
| `Ring.WriteQueue` | istb_ringbuffer.c:110-132 | storing `data` behind the unread bytes appends it to the queue, unless the two positions meet: then nothing is left to read |
| `Ring.ReadQueue` | istb_ringbuffer.c:180 | moving the read position drops the first bytes of the queue |
| `Ring.RingBuffer.constructor` | istb_ringbuffer.c:52-63 | an empty ring of the given size |
| `Ring.Create` | istb_ringbuffer.c:38-64 | a ring, and an empty one, exactly for a number of whole packets |
| `Ring.RingBuffer.StoreData` | istb_ringbuffer.c:110-125 | one or two copies put byte `i` at the `i`-th place behind the write position and change no other place |
| `Ring.RingBuffer.Append` | istb_ringbuffer.c:110-132 | the accepted write: queue, position, and packets in one piece |
| `Ring.RingBuffer.Write` | istb_ringbuffer.c:80-138 | refused as a whole (no multiple of 188, or too long) or taken as a whole; the reset of an empty ring does not show in the queue; the write position stays a multiple of 188 |
| `Ring.RingBuffer.CopyOut` | istb_ringbuffer.c:157-173 | what the one or two copies of a read leave in the target: the second part of a wrapping read overwrites the first |
| `Ring.RingBuffer.Read` | istb_ringbuffer.c:140-187 | nothing happens if too little is there, else the queue loses its first `amount` bytes; only the target range is written |
| `Ring.WriteExact` | istb_ringbuffer.c:103-132 | a write is appended if and only if it is whole packets of 188 bytes and leaves room, and refused if and only if it is not whole packets or there is no room; one that exactly fills the ring loses everything |
| `Ring.ReadExact` | istb_ringbuffer.c:157-173 | a read delivers the first `amount` unread bytes, for every content of ring and target, if and only if it does not wrap |
| `Ring.StraightRead` | istb_ringbuffer.c:160-163 | a read that does not wrap delivers the unread bytes |
| `Ring.CopiedIsHanded` | istb_ringbuffer.c:157-173 | what any read hands out, wrapping or not, as a function of the queue and of the distance to the end |
| `Ring.PlayIsQueue` | istb_ringbuffer.c:80-187 | over every interleaving of writes and reads without an exactly filling write or a wrapping read, bytes handed out followed by bytes unread are the accepted bytes, in order |
| `Ring.QueueForAllContents` | istb_ringbuffer.c:80-187 | a run is a queue, whatever is written, if and only if no accepted write exactly fills the ring and no read wraps |
| `Ring.DividingReadsAreStraight` | main.c:52-68 | in every run whose reads are all for an amount that divides the size, no read wraps |
| `Ring.ProgramReadsWrap` | main.c:49 | with the program's sizes (the segmenter asks for 4096*1024 bytes, istb_m3u8.c:343): a run whose 23rd full read wraps, and no operation before |
| `Ring.Run` | istb_ringbuffer.c:80-187 | for every interleaving, the array, the two positions and the very bytes that come out are those of `PlayAll` |
| `Ring.OfferAll` | main.c:70-74 | each datagram is offered once, in order |
| `Ring.Poll` | main.c:62-64 | one poll fills all of the range that is still missing, or nothing |
| `Ring.ReadData` | main.c:52-68 | the buffer is filled by the first poll that finds enough bytes, all at once and, if that read does not wrap, with the first bytes of the queue; when the program ends first, nothing was taken |
| `HlsWindow.SlideKeepsQueue` | istb_m3u8.c:688-705 | after publishing and removing, the queue is the segments from `first_segment` on, whatever the index write did |
| `HlsWindow.AddKeepsQueue` | istb_m3u8.c:707-710 | a new segment is number `output_index` and the last of the queue |
| `HlsWindow.AppendKeepsQueue` | istb_m3u8.c:736 | writing a frame changes the last segment only |
| `HlsWindow.TurnKeepsQueue` | istb_m3u8.c:648-748 | one turn of the loop keeps the queue equal to first_segment..output_index-1 and non-empty, so a removal never meets an empty list |
| `HlsWindow.RunKeepsQueue` | istb_m3u8.c:648-748 | so does every run, with or without failing index writes |
| `HlsWindow.ViewKept` | istb_m3u8.c:680-736 | what a reader saw stays true while the segment that is being written grows |
| `HlsWindow.ViewHolds` | istb_m3u8.c:696-710 | a reader who looks between two sub-steps finds each listed segment in the queue |
| `HlsWindow.SlideSafe` | istb_m3u8.c:688-705 | publish and remove: at both sub-steps every listed segment is in the queue; at most num_segments are listed |
| `HlsWindow.AddSafe` | istb_m3u8.c:707-710 | at most num_segments + 1 segments are held; the new one is not listed |
| `HlsWindow.AppendSafe` | istb_m3u8.c:736 | no listed segment is written to |
| `HlsWindow.TurnSafe` | istb_m3u8.c:648-748 | at the loop head: the playlist is first_segment..last_segment, output_index is last_segment + 2, and all views so far agree with the queue |
| `HlsWindow.StartSafe` | istb_m3u8.c:617-640 | this holds after the first segment and the first, empty index |
| `HlsWindow.RunSafe` | istb_m3u8.c:648-748 | and after every run in which index writes succeed |
| `HlsWindow.TaskSafe` | istb_m3u8.c:617-768 | over the whole task every view of every sub-step agrees with the queue; at the end the playlist lists the window up to the last segment and is marked complete |
| `HlsWindow.SequenceCounts` | istb_m3u8.c:688-704 | MEDIA-SEQUENCE grows by exactly one for each removed segment (section 6.2.2 of RFC 8216) |
| `HlsWindow.FailureAgrees` | istb_m3u8.c:696-704 | when one index write may fail, all listed segments are still in the queue if and only if it succeeds, or no segment is removed, or the old playlist lists none |
| `HlsFailures.ShownIff` | istb_m3u8.c:696-704 | a view with the queue from `from` on shows nothing that is gone if and only if its playlist lists nothing in front of or behind the queue |
| `HlsFailures.SlideShown` | istb_m3u8.c:688-705 | all views so far and those of a slide are right if and only if those before were, and the slide does not remove a segment that the playlist goes on to list |
| `HlsFailures.SlideCounted` | istb_m3u8.c:688-705 | after any slides, in terms of which index writes would succeed: the number of the first that fails decides |
| `HlsFailures.RunCounted` | istb_m3u8.c:648-748 | the same over every run |
| `HlsFailures.HarmlessRun` | istb_m3u8.c:648-748 | if the index was never written, or no segment is ever removed, no view of any run lists a segment that is gone |
| `HlsFailures.TaskAgreesExactly` | istb_m3u8.c:617-768 | a whole task whose index writes may fail at any time: every view at every sub-step agrees with the queue if and only if the first index fails, or num_segments is not positive, or the first failing write comes before anything is listed or before the window is full, or is that of the last slide of all and of the one at which the window is full |
| `HlsWindow.CutContents` | istb_m3u8.c:669-729 | a cut loses no packet, and comes at least segment_duration after the one before |
| `HlsWindow.AppendContents` | istb_m3u8.c:736 | a written packet is the last packet of the last segment |
| `HlsWindow.TurnContents` | istb_m3u8.c:648-748 | one turn keeps the segments a partition of the packets written |
| `HlsWindow.TurnKeys` | istb_m3u8.c:669-736 | with video, a positive duration and successful frame writes, each segment but the first begins with a video key frame |
| `HlsWindow.RunContents` | istb_m3u8.c:648-748 | the same over every run: the packets written are the input's, in order |
| `HlsWindow.RunKeys` | istb_m3u8.c:648-748 | every run keeps key frames first |
| `HlsWindow.TaskPartitions` | istb_m3u8.c:617-768 | all segments ever created, put together, are the packets written, in order, each once; successive cuts are at least segment_duration apart |
| `HlsCuts.TaskCuts` | istb_m3u8.c:648-748 | in every run, whatever index writes and frame writes do: a segment begins in each turn whose packet is due since the last cut (a key frame of the video stream, or any packet without one, segment_duration or more after it), and in no other; it holds the packets taken from that turn on up to the next such turn |
| `HlsCuts.NoLatePackets` | istb_m3u8.c:669-680 | so no segment holds, behind its first packet, a key frame of the video stream (without one, any packet) that comes segment_duration or more after its cut |
| `HlsCuts.FirstPackets` | istb_m3u8.c:680-729 | and, while frame writes succeed, every segment but the first begins with such a packet, at whose time it is cut |
| `HlsCuts.TurnCuts` | istb_m3u8.c:655-748 | one turn keeps this |
| `HlsWindow.TaskExact` | istb_m3u8.c:688-704 | at the end of every run whose index writes succeed, the playlist lists exactly the last num_segments segments (all with 0, none with a negative number), and the queue holds exactly those |
| `HlsWindow.TurnExact` | istb_m3u8.c:688-704 | the window stays exact in every turn |
| `HlsWindow.ZeroDuration` | istb_m3u8.c:680 | with a duration of zero a packet that is no key frame begins a segment |
| `HlsWindow.KeysFirstExactly` | istb_m3u8.c:669-680 | with a video stream, every run whose frame writes succeed begins its segments with key frames if and only if the duration is positive |
| `Hls.Segmenter.QueueRemove` | istb_m3u8.c:1330-1344 | exactly the oldest segment goes, from the list of buffers as well |
| `Hls.Segmenter.QueueAdd` | istb_m3u8.c:707-710 | a new, empty segment named by `output_index++` comes last |
| `Hls.Segmenter.WriteFrame` | istb_m3u8.c:347-356 | what the muxer makes of the packet goes to the buffer of the segment last created |
| `Hls.Segmenter.PublishIndex` | istb_m3u8.c:696-698 | `++last_segment` only while index writes succeed, and the playlist with it |
| `Hls.Segmenter.SlideWindow` | istb_m3u8.c:688-705 | bounds, publication and removal in the source's order, at a cut and at the end |
| `Hls.Segmenter.CutSegment` | istb_m3u8.c:680-729 | a cut: slide, new segment, time of the cut remembered |
| `Hls.Segmenter.ReadPacket` | istb_m3u8.c:648-748 | one turn of the loop is one step of the window machine |
| `Hls.Segmenter.ReadPackets` | istb_m3u8.c:648-748 | the loop is a run of it |
| `Hls.Segmenter.BeginTask` | istb_m3u8.c:617-640 | the state before the loop |
| `Hls.Segmenter.Task` | istb_m3u8.c:617-768 | the whole task is a run from the first segment to the complete playlist, for all inputs and outcomes, and the list, its buffers and the index hold what that run says |
| `Hls.Segmenter.Request` | istb_m3u8.c:1417-1453 | at any point of a run, between publishing and removing too: a request for a whole segment name opens the file with all that the muxer has made of that segment's packets, exactly while the segment is in the queue; a request for the index opens the text of the published playlist |
| `SegmentBuffer.Buffer.constructor` | istb_m3u8.c:1239-1247 | an empty file of 2 MB with both positions at 0 |
| `SegmentBuffer.EncodeIs` | istb_m3u8.c:184-194 | the text of the index goes into the file as one byte for each character |
| `SegmentBuffer.Buffer.Write` | istb_m3u8.c:1249-1272 | the data is appended whole, also across growth by 2 MB or more; the read position stays |
| `SegmentBuffer.Buffer.Read` | istb_m3u8.c:1275-1289 | the next bytes from the read position, at most what is there |
| `SegmentBuffer.Buffer.Seek` | istb_m3u8.c:1477-1484 | the read position is set |
| `Decimal.NumberDec` | istb_m3u8.c:192 | a number is read back from its decimal text |
| `Decimal.DecDigits` | istb_m3u8.c:192 | the text of a number is its usual decimal digits |
| `Decimal.DecLength` | istb_m3u8.c:617 | a number below 10^k takes at most k digits |
| `Decimal.DecPrefixFree` | istb_m3u8.c:1444 | with the same text behind them, no decimal number is the beginning of another |
| `PlaylistText.HeaderText` | istb_m3u8.c:177-182 | the lines of the header are the formatted text `#EXTM3U`, `#EXT-X-TARGETDURATION:` and, only when num_segments is set, `#EXT-X-MEDIA-SEQUENCE:` (sections 4.3.1 to 4.3.3 of RFC 8216) |
| `PlaylistText.EntryText` | istb_m3u8.c:192 | those of an entry are `#EXTINF:`, the duration, a comma, and the URI |
| `PlaylistText.BodyText` | istb_m3u8.c:191-212 | the whole text is the header, one such entry for each number from first to last, and `#EXT-X-ENDLIST` at the end of a task |
| `PlaylistText.PiecesFit` | istb_m3u8.c:617 | no snprintf cuts anything off: 1024 bytes are enough for each piece, and prefix + 15 for the name of any 32-bit index |
| `PlaylistText.LinesText` | istb_m3u8.c:167-212 | splitting at newlines undoes joining |
| `PlaylistText.ReadHeader` | istb_m3u8.c:177-182 | a player reads duration and sequence number from the header |
| `PlaylistText.EntriesRead` | istb_m3u8.c:191-193 | and one entry for each segment, in order |
| `PlaylistText.ReadsBack` | istb_m3u8.c:167-212 | reading the text gives back first..last, the duration, the URIs and the end marker |
| `PlaylistText.ReadsBackExactly` | istb_m3u8.c:167-212 | for a window that lists something, this holds if and only if the two prefixes contain no newline and do not begin with `#` |
| `IndexFiles.WriteHeader` | istb_m3u8.c:177-183 | the buffer holds the header lines |
| `IndexFiles.WriteEntry` | istb_m3u8.c:192-193 | one more entry behind the lines so far |
| `IndexFiles.WriteEntries` | istb_m3u8.c:191-200 | the loop has written the entries first..last |
| `IndexFiles.WriteIndexFile` | istb_m3u8.c:167-215 | the new index holds exactly header, entries and, at the end, the end marker |
| `SegmentQueue.Queue.constructor` | istb_m3u8.c:1316-1321 | an empty list, and no index |
| `SegmentQueue.Queue.Add` | istb_m3u8.c:1323-1328 | the list has one more entry at its tail, with the given buffer; the files in front and the index are untouched |
| `SegmentQueue.Queue.Remove` | istb_m3u8.c:1330-1344 | the entry behind the head goes with its buffer; the other files and the index are untouched |
| `SegmentQueue.Queue.HeadUpdate` | istb_m3u8.c:1302-1314 | the head has the new index; the files are untouched |
| `SegmentQueue.Queue.Append` | istb_m3u8.c:1249-1272 | the newest file is longer by the bytes; the others and the index are untouched |
| `SegmentQueue.Queue.Open` | istb_m3u8.c:1417-1453 | the walk along the links answers with the index for a name that ends in .m3u8, else with the first file whose name begins with the request, else with none; and with the length of what it holds |
| `SegmentOutput.FilesGrow` | istb_m3u8.c:347-356 | one more packet in the last segment is more bytes in the last file and no others |
| `SegmentOutput.Output.WriteIndexFile` | istb_m3u8.c:167-215 | success puts the text of the window at the head of the queue, failure leaves the old one |
| `SegmentOutput.Output.RemoveSegment` | istb_m3u8.c:1330-1344 | the files still are those of the segments of the queue |
| `SegmentOutput.Output.NewBuffer` | istb_m3u8.c:617-620 | the name fits the memory of output_filename |
| `SegmentOutput.Output.AddSegment` | istb_m3u8.c:707-711 | the files are those of the queue with a new, empty segment; the muxer begins again |
| `SegmentOutput.Output.WriteFrame` | istb_m3u8.c:347-356 | the files are those of the queue with one more packet in the last segment |
| `IndexFiles.NamePrefixFree` | istb_m3u8.c:1444 | no segment name begins with another, so comparing `strlen(request)` characters is comparing whole names |
| `IndexFiles.OpensExactly` | istb_m3u8.c:1439-1450 | a request for a segment name opens that segment if it is in the queue, else nothing |
| `IndexFiles.ListedOpens` | istb_httpserver.c:36-39 | for every view of the kind that `HlsWindow.TaskSafe` proves of all runs, each listed URL, stripped of url_prefix, opens exactly the segment it lists, as it will stay |
| `IndexFiles.PublishedOpens` | istb_m3u8.c:1417-1453 | in every view of every task whose index writes succeed: each URL that a player reads from the text of the index, asked for without url_prefix (istb_httpserver.c:36), opens a listed segment, as it will stay |
| `IoBuffer.IoBuf.Spool` | istb_mongoose.c:518-542 | all bytes are appended, also across the growth to 1.2 times the new length, with len <= size; or, beyond what an int can measure, none |
| `IoBuffer.IoBuf.Drop` | istb_mongoose.c:1887-1888 | the first `n` bytes go, the others stay in order |
| `Requests.RequestLenDecides` | istb_mongoose.c:572-590 | the answer is decided at the first malformed byte or end of a header, and is 0 if there is neither |
| `Requests.GetRequestLen` | istb_mongoose.c:572-590 | the loop computes that answer |
| `Requests.RequestLenIs` | istb_mongoose.c:565-590 | with byte values written out: the answer is `n` > 0 if and only if the first empty line (LF LF or LF CR LF) ends at `n` and no byte before it is a control character (below 32 but for 10 and 13, or 127); -1 if and only if a control character comes before the first empty line; 0 if and only if there is neither |
| `Requests.RequestFound` | istb_mongoose.c:583-586 | lines of printable characters, CR, LF and bytes from 128 on, without another empty line, then CR LF CR LF: the answer is the length up to there, whatever follows |
| `Requests.BareRequestFound` | istb_mongoose.c:581-582 | the same with LF LF |
| `Requests.AnswerIsFinal` | istb_mongoose.c:572-590 | an answer other than 0 is the same for every extension |
| `Requests.RequestFits` | istb_mongoose.c:572-590 | the answer lies between -1 and the number of bytes |
| `Requests.ScanInParts` | istb_mongoose.c:3368-3381 | scanning now and again after more bytes takes the same requests as scanning at the end |
| `Requests.ProcessScans` | istb_mongoose.c:3515-3516 | one call with its recursion takes all requests of the buffer if and only if each of them that has another behind it keeps the connection alive |
| `Requests.ChunkedScans` | istb_mongoose.c:3425-3450 | processing after each chunk takes the requests of the whole stream |
| `Requests.ChunksDoNotMatter` | istb_mongoose.c:3425-3450 | for every way to cut a stream into chunks of at most `limit` bytes (8192 here) and after each chunk, the requests taken are those of the bytes so far, if and only if each request that has another behind it keeps the connection alive, or that other one is too long to end in the same chunk |
| `Answers.Handler.HandleTakes` | istb_mongoose.c:3368-3423 | for requests without bodies, the requests taken are those of `Process`, and none waits |
| `Answers.Handler.RefusedWith` | istb_mongoose.c:3389-3400 | which reply refuses what: 400 bytes that are no request and requests without a good URI, 413 more than 16384 bytes without a whole request, 505 another version; and what is left in the buffer |
| `Answers.Handler.ArrivedTakes` | istb_mongoose.c:3425-3450 | the same over all chunks |
| `Answers.Handler.HandleReplies` | istb_mongoose.c:3368-3423 | for orderly requests, the answers of one call are the handler's replies, in order |
| `Answers.Handler.AnswersInOrder` | istb_mongoose.c:3425-3450 | pipelining: for every way the bytes arrive, the answers are the replies to the requests of the stream, each once, in the order of the requests |
| `Transfer.IntactExactly` | istb_mongoose.c:3425-3450 | over all turns of a file transfer, the bytes spooled are exactly the parts read from the file, in order, if and only if no turn brings bytes that complete the request's body and make a handler with a nonempty reply run again |
| `Transfer.PartsOfFile` | istb_mongoose.c:3521-3544 | the parts read from an in-memory file are the file from the start position on; all that was announced or is there, once the transfer has ended |
| `Transfer.NextDecreases` | istb_mongoose.c:3521-3544 | while the endpoint stays open, every transfer step strictly decreases the length still announced, which stays positive |
| `Transfer.EndsInTime` | istb_mongoose.c:3521-3544 | the endpoint is closed after one turn for every 8192 bytes there are to send, and one more |
| `FileServer.LiveSound` | istb_mongoose.c:3565-3645 | one turn, whatever is received, read, sent or fails, keeps that all that was spooled are the answers to the requests taken, in order, all but perhaps the last one complete; that CONN_SPOOL_DONE means that something is still to be sent; and that a close without error comes when all has been sent |
| `FileServer.LivesSound` | istb_mongoose.c:3565-3645 | and so does every run of turns |
| `FileServer.StaysUnfinished` | istb_mongoose.c:3491-3519 | a connection without CONN_SPOOL_DONE gets none, and is closed for an error or a timeout only, until the answer at hand is complete |
| `FileServer.WholeLife` | istb_mongoose.c:3565-3645 | the whole life of a connection: the requests taken are answered in order, all but perhaps the last one completely, and nothing else is spooled; at a close without error or timeout all of it has been sent, and the first answer at least is complete |
| `FileServer.CutShort` | istb_mongoose.c:1891-1893 | with CONN_SPOOL_DONE left over from an earlier answer, a request may be taken and its header sent, and the connection closed without error before any of the file |
| `FileServer.CompleteExactly` | istb_mongoose.c:3515-3518 | a request that is taken is answered completely by every connection that is closed without error or timeout, whatever happens from then on, if and only if CONN_SPOOL_DONE was not set when it was taken |
| `FileServer.Followed` | istb_mongoose.c:3565-3645 | in every run, the answer at hand is what `Transfer.NextAll` makes of it, up to the turn in which the connection is closed |
| `FileServer.AnswerIntactExactly` | istb_mongoose.c:3415-3417 | in every run, what is spooled for a file is the parts read from it, in order, if and only if no turn until its end brings bytes that make a handler with a nonempty reply run again |
| `FileServer.ReplyExactly` | istb_mongoose.c:3521-3544 | for a file in memory and a client that does not disturb: every connection closed without error or timeout has sent the header and all that was asked for, if and only if CONN_SPOOL_DONE was not set when the request was taken, or there was nothing to send |
| `Connection.Conn.SendHttpError` | istb_mongoose.c:648-668 | the error reply is spooled and the connection is to be closed: at once if nothing is pending, else when all is sent |
| `Connection.Conn.EndRequest` | istb_mongoose.c:3510-3518 | without keep-alive: CONN_CLOSE exactly when the remote buffer is empty, else CONN_SPOOL_DONE |
| `Connection.Conn.CloseLocalEndpoint` | istb_mongoose.c:3491-3519 | with keep-alive, all requests already buffered are taken and answered; the recursion ends because each level consumes bytes or a stage; a close flag means an empty remote buffer |
| `Connection.Conn.CallUriHandler` | istb_mongoose.c:2132-2153 | nothing before the body is there; then the handler's reply is spooled behind what is pending, and the next requests follow, or for a file its length is announced |
| `Connection.Conn.CheckRequest` | istb_mongoose.c:3389-3412 | 400, 413 and 505 in the source's order of tests, each with its reply and the end of the connection; otherwise an endpoint is opened |
| `Connection.Conn.TakeRequest` | istb_mongoose.c:3371-3384 | a complete request leaves the buffer, and nothing else does |
| `Connection.Conn.ProcessRequest` | istb_mongoose.c:3368-3423 | requests taken, bytes left, answers spooled and the request that waits for its body are those of `Handler.Handle`; for a server of files, the whole new state, flags included, is that of the machine in FileServer.dfy |
| `Connection.Conn.ReadFromClient` | istb_mongoose.c:3425-3450 | received bytes are processed behind those left over, and a read without bytes spools nothing; during a file transfer, bytes that complete the request's body make the handler run again: its reply is spooled and the transfer length starts over |
| `Connection.Conn.WriteToClient` | istb_mongoose.c:1872-1894 | exactly the bytes that were sent leave the buffer; the connection is to be closed exactly on a socket error, or when all is sent and spooling is done; nothing else changes |
| `Connection.Conn.TransferFileData` | istb_mongoose.c:3521-3544 | the bytes read are spooled and counted down; the endpoint closes exactly on a failed read or when the announced length is reached; nothing else changes |
| `Connection.Conn.PollOnce` | istb_mongoose.c:3565-3645 | one turn, with any results of reads and sends: what is taken, spooled and sent; a connection that is closed without socket error or timeout has had all of it sent; for a server of files, the whole new state and whether the connection is closed |
| `Connection.Serve` | istb_mongoose.c:3565-3645 | over every run of turns, receiving and sending as it comes: the requests taken and the bytes spooled are `Handler.Arrived` of all bytes received, and when the connection is closed without socket error or timeout, exactly these bytes have been sent |
| `Connection.ServeFiles` | istb_mongoose.c:3565-3645 | over every run of turns, a connection of a server of files is where `FileServer.LiveAll` says, and is closed when that says so |
| `Connection.AcceptAndServe` | istb_mongoose.c:1262-1299 | an accepted connection begins with empty buffers and no flags, from where `Serve` goes on |
| `Connection.AcceptAndServeFiles` | istb_mongoose.c:1262-1299 | and in a server of files it is where the laws of `FileServer.WholeLife` begin |
| `RangeReply.SentExactly` | istb_mongoose.c:3921-3939 | what is sent is what was asked for (sections 2.1 and 4.2 of RFC 7233); Content-Length is right if and only if the range ends inside the file or, without a Range header, nobody has read from the file before; Content-Range is then right too |
| `RangeReply.StatusIs` | istb_mongoose.c:3920-3933 | a range is announced with 206, its own positions and the length of what it asks for; the whole file with 200 |
| `RangeReply.StandardRanges` | istb_mongoose.c:3926-3933 | the examples of section 2.1 of RFC 7233 |
| `RangeReply.RangeReplyExactly` | istb_mongoose.c:3913-3960 | from the request bytes to the last byte sent: every connection closed without error or timeout has sent the header with the numbers of mg_write_range and the bytes of the range, if and only if CONN_SPOOL_DONE was not set when the request was taken, or there was nothing to send |
| `RangeReply.Reply.WriteRange` | istb_mongoose.c:3913-3941 | the announced numbers for no range, an open range and a closed range; only a range moves the shared read position; the length stays non-negative and the position inside the file if and only if the range is `Inside` |
| `RangeReply.Reply.UserRequest` | istb_httpserver.c:36-41 | the header and the length are those that the connection's handler spools and announces, and the file is at the start of the range |
| `RangeReply.Reply.TakeTurn` | istb_mongoose.c:3368-3423 | the turn that brings the request: header spooled, length announced, file at its start |
| `RangeReply.Reply.AnswerTurn` | istb_mongoose.c:3521-3544 | a transfer step spools the next bytes of the file; while the endpoint stays open, `cl` strictly decreases and stays positive |
| `RangeReply.Reply.Answer` | istb_mongoose.c:3565-3645 | from the request on, over every run of turns: header and the first part of `Sent` are spooled; all of it once the endpoint is closed, which comes after one turn for every 8192 bytes and one more, unless the connection is closed before; a close without error or timeout comes after all of it has been sent, if CONN_SPOOL_DONE was not set at the beginning |
| `UrlCodec.Encode` | istb_mongoose.c:2290-2308 | the output is terminated inside the buffer and begins with the encoding of as many source bytes as fit; it is the whole encoding if and only if that fits |
| `UrlCodec.EncodeOne` | istb_mongoose.c:2295-2304 | one turn keeps what is encoded, and adds to it as long as nothing was left out |
| `UrlCodec.Put` | istb_mongoose.c:2296-2304 | one turn writes the escape, or leaves a hole when it does not fit; what is before is untouched |
| `UrlCodec.EncodedGrows` | istb_mongoose.c:2295-2305 | encodings of prefixes are prefixes of the encoding |
| `UrlCodec.Decode` | istb_mongoose.c:1338-1361 | decoding gives the decoded bytes and their number, or -1 and a full buffer; the same when source and target are one array (istb_mongoose.c:1409) |
| `UrlCodec.DecodeStep` | istb_mongoose.c:1343-1356 | the write position never passes the read position, so a step in place destroys nothing that is still to be read |
| `UrlCodec.NextByte` | istb_mongoose.c:1344-1355 | which byte is written and how many are read: an escape only with two hexadecimal digits inside the source |
| `UrlCodec.EscapeDecodes` | istb_mongoose.c:2300-2303 | an escape at the front is decoded to its byte |
| `UrlCodec.EncodedThenDecoded` | istb_mongoose.c:2290-2305 | encoded text in front of anything is decoded to the original |
| `UrlCodec.DecodesEncoded` | istb_mongoose.c:1338-1361 | decoding undoes encoding for every byte string, with the form flag on or off (section 2.1 of RFC 3986) |
| `UrlCodec.EncodedByte` | istb_mongoose.c:2290-2304 | letters, digits and `$ ( ) , - . _ ; ~` stay, every other byte becomes `%` and two lower-case hexadecimal digits |
| `UrlCodec.EncodedConcat` | istb_mongoose.c:2295-2305 | the bytes are encoded one by one |
| `UrlCodec.EscapeRead` | istb_mongoose.c:1344-1349 | `%` and two hexadecimal digits, in either case, are read as the one byte they spell |
| `UrlCodec.OtherRead` | istb_mongoose.c:1350-1355 | every other byte, and a `%` without two such digits, stands for itself; in a form, `+` is a space |
| `PathNormal.RemoveDoubleDots` | istb_mongoose.c:1321-1336 | the in-place loop leaves the normal form, with its terminator |
| `PathNormal.CopyOne` | istb_mongoose.c:1325-1333 | one turn in place destroys nothing that is still to be read |
| `PathNormal.SkipRun` | istb_mongoose.c:1328-1332 | the inner loop passes exactly the separators and double dots at the front |
| `PathNormal.Skip` | istb_mongoose.c:1328-1332 | what is left begins with neither a separator nor double dots |
| `PathNormal.NormalIsNormal` | istb_mongoose.c:1321-1336 | the result has no two adjacent separators and no `..` directly behind a separator |
| `PathNormal.UnchangedExactly` | istb_mongoose.c:1321-1336 | a string is left unchanged if and only if it is already like that |
| `PathNormal.Idempotent` | istb_mongoose.c:1321-1336 | normalising twice is normalising once |
| `PathNormal.SkipIsSuffix` | istb_mongoose.c:1328-1332 | the inner loop drops a front part only |
| `PathNormal.NormalIsSubsequence` | istb_mongoose.c:1321-1336 | the result is the input with some characters taken out |
| `PathNormal.SkipDropsRun` | istb_mongoose.c:1328-1332 | behind a separator exactly the run of slashes, backslashes and double dots is dropped |
| `PathNormal.NormalDropsRuns` | istb_mongoose.c:1324-1332 | nothing else is |
| `PathNormal.NoWayUp` | istb_mongoose.c:1321-1336 | in the result no slash or backslash has another one, or double dots, directly behind it |
| `OptionText.StrtolOfSigned` | istb_m3u8.c:448 | strtol reads back every int that %d prints, the sign included, and stops at the space behind it |
| `OptionText.LibraryIs` | istb_m3u8.c:448 | a `long` has 64 bits, and white space is what isspace takes for it |
| `OptionText.CutText` | main.c:235-236 | the text that main hands over is at most 127 characters and a zero |
| `OptionText.SwitchTakesValue` | istb_m3u8.c:405-415 | a value without a space in front of a hyphen is taken whole, up to the next option |
| `OptionText.Switch` | istb_m3u8.c:398-452 | no case of the switch moves the scan backwards |
| `OptionText.NumbersRead` | istb_m3u8.c:398-452 | both numbers of the printed string are read back, whatever the strings are |
| `OptionText.FileNamesRead` | istb_m3u8.c:398-452 | and both file names, when they are not empty, begin with no space and contain no space-hyphen |
| `OptionText.FieldsGrow` | istb_m3u8.c:398-452 | copying over an earlier value never shortens a field and never puts a space at its front |
| `OptionText.BrokenUrl` | istb_m3u8.c:434-446 | a URL prefix that begins with a space or contains a space-hyphen does not come back |
| `OptionText.PrefixNeeded` | istb_m3u8.c:404-418 | an empty output prefix, or one that begins with a space, does not come back |
| `OptionText.IndexNeeded` | istb_m3u8.c:420-432 | nor, behind a clean prefix, does such an index name |
| `OptionText.LengthsCost` | istb_m3u8.c:398-452 | fields that reach their lengths have cost as much text as their lengths and their option letters |
| `OptionText.ParseUpTo` | istb_m3u8.c:388-454 | a text with another option behind it is scanned as if it were all, and what follows starts at that option or is swallowed by a last option letter without a value |
| `OptionText.BrokenPrefix` | istb_m3u8.c:404-418 | an output prefix with a space-hyphen inside does not come back, or something else does not, whatever the other fields are |
| `OptionText.BrokenIndex` | istb_m3u8.c:420-432 | nor does such an index name, behind a clean prefix |
| `OptionText.UrlReadsBackExactly` | istb_m3u8.c:434-446 | with clean file names, all five fields come back if and only if the URL prefix begins with no space and contains no space-hyphen |
| `OptionText.ReadsBackExactly` | main.c:235-236 | all five fields come back if and only if both file names are not empty and none of the three strings begins with a space or contains a space-hyphen; hyphens elsewhere do no harm |
| `OptionParser.StrNCpy` | istb_m3u8.c:409 | a copy without terminator onto a zeroed array: the value, with the tail of a longer earlier one |
| `OptionParser.TakeValue` | istb_m3u8.c:405-415 | spaces are passed, and all before the next option is copied |
| `OptionParser.Options.Store` | istb_m3u8.c:398-452 | the switch stores into the field of its letter and no other |
| `OptionParser.Options.TakeOption` | istb_m3u8.c:391-453 | one turn of the scan always advances |
| `OptionParser.Options.ParseOptions` | istb_m3u8.c:380-455 | the scan ends, and the arrays hold what the text means |
| `LinkedList.Node.constructor` | istb_mongoose.c:149 | an initialised node is a ring of its own |
| `LinkedList.OneList` | istb_mongoose.c:148-160 | the links determine which nodes are in the list and in which order |
| `LinkedList.List.constructor` | istb_m3u8.c:1316-1321 | an empty list |
| `LinkedList.List.IsEmpty` | istb_mongoose.c:152 | empty exactly when the head points to itself |
| `LinkedList.List.AddToFront` | istb_mongoose.c:155-156 | both link directions agree on the node followed by the old list |
| `LinkedList.List.AddToTail` | istb_mongoose.c:157-158 | both link directions agree on the old list followed by the node |
| `LinkedList.List.Remove` | istb_mongoose.c:159-160 | both link directions agree on the list without the node, which is left in a ring of its own |
| `LinkedList.List.Visit` | istb_mongoose.c:3633-3641 | the body may remove the node it is at |
| `LinkedList.List.Sweep` | istb_mongoose.c:153-154 | FOREACH runs its body on every node of the list exactly once, in order, though the body removes some of them; those not removed stay, in order |
| `LinkedList.KeptExactly` | istb_mongoose.c:3633-3641 | what is left is exactly the nodes that were not to be closed |

## Left out

- Sockets, select, accept, SSL, CGI, Lua, directory listings, WebDAV, authentication, logging: foreign calls. A receive,
  a send or a file read is an arbitrary result that the model is given.
- Endpoints for files on disk, CGI and PUT; the model's endpoints are those of the program, EP_USER and EP_USER_FILE.
- Header parsing: what parse_http_message, should_keep_alive and the checks make of a request are arbitrary functions of
  its bytes; so are the handler's reply and the error replies (an error rewrite that quotes the URI is not modelled).
- Request bodies: a request waits until its body is there, but the handler is not given the body, which stays in the
  buffer as in the C code. The laws on the order of answers are about streams whose requests have no body.
- The 500 reply for a large POST, 100-continue, and the WebSocket handshake and ping in the connection engine.
- libav: a packet is its stream, key flag and time; what the muxer makes of it is an arbitrary function of it and of the
  packets before it in the segment, and goes to the buffer at once. Its header, trailer and write buffer are not
  modelled. A muxer that cannot be allocated ends the C task early.
- Time stamps and durations are real numbers; rounding of doubles is not modelled.
- Threads: the model interleaves whole locked ring operations, and readers of the segment queue at every sub-step. The
  life time of a segment or index that the web server still reads while it is freed is not modelled; there is no lock.
- The M3U8_SEGMENT_READY event, signal handlers, starting and stopping of the threads, UDP receive before udp_write_data.
- Allocation failure, except for a failing index write and for buffers that an int cannot measure.
- Disabled code (`#if 0`, `#else` copies), MIME types, dates, ETag, base64, chunked writing, access lists, form variables.
- Wiping of hash contexts and of the transform's locals.
- Sha1.Context.Update: requires less than 2^32 - 63 bytes in one call; beyond that the C index arithmetic wraps.
- Sha1.HashChunks: the same for each of its chunks.
- Md5.MgMd5: requires each string to be shorter than 2^32 bytes, as the C length type does.
- Hls.Segmenter.Task: requires fewer than 2^31 - 2 packets, so that the unsigned segment numbers and their int difference do not wrap; frame writes that append nothing are covered, half-written frames are not.
- Hls.Segmenter.QueueAdd: the name of a segment fits the 128 characters that a buffer has for it, so the output prefix has at most 113; longer names overrun in C.
- Hls.Segmenter.Request: freed buffers, and readers that hold one, are not modelled.
- Glob.MatchPlain: the recursive call of match_prefix is modelled as a call of the part without alternatives, because a pattern that was searched for a bar contains none; and the character behind the pattern, which the C code may look at, is required not to be a star.
- WebSocketFrames.CodeAgrees: header plus payload beyond the largest int is undefined in C and wraps in the model.
- IoBuffer.IoBuf.Spool: the factor 1.2 is 12/10 in integers, where the C code rounds a double.
- Ring.Create: a length of zero, which makes the macros divide by zero, negative lengths, failed allocation and null pointers are not modelled.
- RangeReply.Reply.Answer: a range that is not `Inside` makes istb_m3u8_buffer_read copy a negative number of bytes; `WriteRange` says exactly when. The file is finished and has no other reader during the reply, no answer is going on when the request arrives, and the client sends nothing more until it has the answer; the lemmas of FileServer.dfy are without the last two.
- FileServer.ReplyExactly: what a request names and announces is the same whenever its handler runs.
- SegmentQueue.Queue.Open: requests without a dot, or with 32 characters or more behind the last one, overrun in C and are excluded; so is a request for the index before the first one exists.
- SegmentBuffer.Buffer.Read: a read position behind the end, which a seek can set, makes the C code copy a negative number of bytes; excluded.
- IndexFiles.ListedOpens, IndexFiles.PublishedOpens: names are at most 127 characters, the size of the C arrays.
- UrlCodec.Encode: of the bytes behind the first escape that does not fit, nothing is stated but that they are inside the buffer.
- OptionText.ReadsBackExactly: the printed string fits the buffer of 128, as its 127 characters and a zero.
- OptionText.IndexNeeded: only behind a clean output prefix; together with a broken one, `OptionText.ReadsBackExactly` says that something does not come back.
- OptionParser.Options.ParseOptions: a hyphen that ends the text ends the scan, as main's zeroed buffer has it; a text that fills the buffer and ends in a hyphen is read beyond its end in C. `long` has 64 bits.
- PathNormal.RemoveDoubleDots: the string is given with its length; characters are those before the terminator.
- Connection.Conn.PollOnce: one connection at a time; the sweep over all of them is `LinkedList.List.Sweep`. What is spooled is stated as long as the buffers stay below what an int can measure.
- Connection.Conn.SendHttpError: error rewrites that quote the URI are left out.
- Connection.Conn.CheckRequest: the 100 Continue reply and the WebSocket handshake are left out.
