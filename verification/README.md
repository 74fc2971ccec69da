# A verified model of the LiFi link

The repository sends typed messages from a Raspberry Pi Pico over a light link to a receiver: it
compresses them with heatshrink, seals them with AES-GCM, frames them with a preamble and a CRC-16,
and keeps its session keys in two flash slots. This project models that path in Dafny and proves
what it is for: that what is typed is what arrives, under any chunking, noise between frames, damage,
replay and power loss, and exactly where the code as written falls short of that.

The two codec state machines, the CRC loops, the preamble automaton, the replay ring, the nonce
counter, the flash slots, the sender and the receiver are classes and methods with the source's
fields, loops and branches. Each is proved against a specification function, and the laws are lemmas
about those functions.

| file | what it models |
|---|---|
| `Bits.dfy` | bytes, bit strings, 16-bit wrap-around, bitwise operators, packing |
| `Lzss.dfy` | the token format, the greedy tokenizer and the decoder as functions; the round trip |
| `Output.dfy` | the output buffer of one poll call |
| `HsEncoder.dfy`, `HsDecoder.dfy` | `lib/heatshrink/`: the suspendable encoder and decoder |
| `HsStall.dfy` | where a decoder stops when its output is full |
| `HsDrivers.dfy` | callers of the codec: any schedule of calls, and loops that run it to the end |
| `Crc16.dfy` | `include/crc16.h`: the checksum as loop and as polynomial register; what it detects |
| `Framing.dfy` | the preamble automaton, frames, and parsing a stream of them |
| `Replay.dfy`, `NonceGen.dfy` | the ring of 64 nonces; the salt-and-counter nonces; whole runs of both |
| `KeySlots.dfy` | the A/B key slots in flash with power failing at any step |
| `Sender.dfy`, `Receiver.dfy` | `sender/src/lifi_session_sender.c` and `receiver/src/dash_receiver.c` |
| `EndToEnd.dfy` | both machines together over a noisy link |
| `Options.dfy` | the option type |

The CRC polynomial x^16 + x^12 + x^5 + 1 is that of section 2 of ITU-T V.41, with the register
starting at 0xFFFF. The nonce has the fixed-field and invocation-field shape of section 8.2.1 of
NIST SP 800-38D.

## Results

- **Codec.** For every window size 4..14, every lookahead 3..w-1, every input and every sequence of
  sink, poll and finish calls with any chunk sizes on both sides, what is decoded is a beginning of
  the input, and all of it under every schedule that keeps polling, finishes, and keeps feeding and
  draining. The streaming encoder writes exactly the greedy tokens; the indexed match search and the
  plain scan satisfy the same specification.
- **Frames.** The receiver reads a packet exactly when the bytes sent for it arrive. A sound frame changed within 16 consecutive bits never passes the checksum over the
  same bytes, and the parser drops it unless the change hits its length field, which makes the parser
  check other bytes. Of the wider changes that span 17 bits only the one of the polynomial itself goes
  unnoticed. The preamble automaton is exact. Parsing undoes framing for any payloads, with
  clean noise between the frames, and picks out exactly the intact frames when some are damaged.
- **Freshness.** Whatever bytes arrive, a nonce is accepted twice only with at least 64 acceptances in
  between; a sender that never draws the same salt twice, nor the zero salt, is never taken for a replay.
- **Authenticity.** Whatever bytes arrive, every delivery is the opening of a packet among them under
  the key the receiver holds at that point, in order.
- **Keys.** Losing power at any step of a store leaves a key to load (of a direct slot write, exactly
  unless the other slot is empty), and only pairs whose block was written to its end are ever loaded.
- **Receiver loop.** The decompression loop ends on exactly the contents a pure function of their bits
  names.
- **End to end.** A whole session of typed lines, key announcements and key changes, run on both
  objects over a link that damages some frames, delivers exactly the messages that were sent and not
  damaged, in order.

Properties that one would expect and that do not hold are stated with the exact condition under which
they do:

- A compressed message longer than 256 bytes is cut: the sender sinks once and ignores how much was
  taken. `EndToEnd.IntactIff` gives the exact condition and `EndToEnd.CutTo256` what arrives otherwise.
- A completed key store is loaded back exactly when slot A held a key or slot B held none or that
  very pair (`KeySlots.LoadAfterStoreIff`, over whole runs `KeySlots.StoreAfterRunIff`);
  `KeySlots.OlderPairHidesNewer` is a run after which it is not.
- Indexing a full buffer leaves a right index exactly for w up to 14, though the allocator admits 15,
  where nothing is indexed at all (`HsEncoder.IndexFitsIff`, `HsEncoder.FullBufferNotIndexed`).
- The receiver never gets out of its decompression loop on exactly the contents of `Receiver.Hangs`:
  the decoder stops at the full output after reading p bytes, and the content goes on beyond the
  512-byte block that p falls in (`Receiver.ExpandFile`). `Receiver.RunsHangIff` gives
  files that do it, from 3585 bytes on.
- A file whose decoding fills the receiver's 32768-byte buffer loses its last byte to the terminator
  (`Receiver.ExpandedIntactIff`).
- An all-zero nonce is taken for a replay exactly while the ring has an unused slot
  (`Replay.ZeroRejectedIff`); a sender's nonces are all accepted exactly when none of the first 64 is
  zero (`NonceGen.HonestSenderAcceptedIff`), and the zero salt breaks that (`NonceGen.ZeroSaltRejected`).

Where the code and its documentation disagree, the model follows the code. `docs/PROTOCOL.md` draws
frames without the length and nonce fields; the code sends both. `docs/CRYPTO_AND_KEYS.md` gives the
flash block as 56 bytes and says the last-used slot is tried first; the block has 60 bytes and
`load_session_key` always tries slot B first. It also says the salt is drawn once per boot; it is
drawn again at every key change.

## Model

| member | source | states |
|---|---|---|
| Lzss.RoundTrip | lib/heatshrink/heatshrink_encoder.c:249-370 | decoding what the greedy encoder writes gives back the input, for every input and every window and lookahead size |
| Lzss.GreedyChoice | lib/heatshrink/heatshrink_encoder.c:443-519 | at every position the token is a longest match in the 2^w bytes before it (zeros before the input), capped by 2^l and the bytes left, the nearest one of that length, and a literal exactly when no match passes break-even |
| Lzss.OnlyWhatPays | lib/heatshrink/heatshrink_encoder.c:503-511 | a back-reference is used exactly when its 1 + w + l bits are fewer than eight for each byte it stands for |
| Lzss.BestIsLongestNearest | lib/heatshrink/heatshrink_encoder.c:485-502 | the backward scan finds a match no other position beats, and the nearest of that length |
| Lzss.BestSlice | lib/heatshrink/heatshrink_encoder.c:579-597 | the search result depends only on the bytes it looks at, not on where the buffer holds them, so shifting the backlog changes nothing |
| Lzss.GreedyExtend | lib/heatshrink/heatshrink_encoder.c:249-290 | tokens chosen with a full lookahead stay the greedy ones whatever input is sunk later, so chunking cannot change the output |
| Lzss.CompressBound | lib/heatshrink/heatshrink_encoder.c:503-518 | n bytes compress to at most 9n/8 bytes rounded up, because a back-reference is used only when it costs less than the bytes it replaces |
| Lzss.PaddingIsSilent | lib/heatshrink/heatshrink_common.h:12-15 | at most seven zero bits of padding never complete a token |
| Lzss.ParseInverse | lib/heatshrink/heatshrink_encoder.c:292-349 | reading the bits of a token back gives the token and leaves what follows |
| Lzss.TokenFormat | lib/heatshrink/heatshrink_encoder.c:292-349 | the format: a one and the byte, or a zero, the distance less one in w bits and the length less one in l bits |
| Bits.ByteBitsAt | lib/heatshrink/heatshrink_encoder.c:551-566 | bit strings hold the most significant bit of each byte first |
| Lzss.DecodeTokens | lib/heatshrink/heatshrink_decoder.c:170-270 | decoding the bits of a token sequence expands those tokens, whatever incomplete bits follow |
| Lzss.DecodeMonotone | lib/heatshrink/heatshrink_decoder.c:119-168 | decoding more bits only appends to what fewer bits decode to |
| Lzss.CompressedPrefix | lib/heatshrink/heatshrink_decoder.c:119-168 | decoding a beginning of a stream gives a beginning of its decoding |
| Lzss.CopyFollows | lib/heatshrink/heatshrink_decoder.c:246-270 | a byte-by-byte copy from a distance, overlapping itself or not, reproduces text that repeats at that distance |
| Lzss.ExpandGreedy | lib/heatshrink/heatshrink_encoder.c:249-290 | after every token the decoder's text is the encoder's up to its scan point |
| Lzss.ReadsFirst | lib/heatshrink/heatshrink_decoder.c:170-270 | tokens read from a beginning of a padded stream are the first of the tokens it was made from |
| HsEncoder.IndexFitsIff | lib/heatshrink/heatshrink_encoder.c:391-431 | indexing a full buffer always leaves a right index exactly for window sizes up to 14; the allocator admits 15 |
| HsEncoder.BuildIndex | lib/heatshrink/heatshrink_encoder.c:391-431 | the indexing loop for every admitted size: below its 16-bit end the latest earlier position as a 16-bit entry, from there on what was there before |
| HsEncoder.IndexHoldsIff | lib/heatshrink/heatshrink_encoder.c:418-425 | for any smaller fill the index is right exactly when no position has its predecessor at 32768 or beyond |
| HsEncoder.FullBufferNotIndexed | lib/heatshrink/heatshrink_encoder.c:418-424 | at size 15 the 16-bit loop end of a full buffer is zero: nothing is written, and the index is right only if its old contents happen to be |
| HsEncoder.SearchIsNext | lib/heatshrink/heatshrink_encoder.c:249-290 | the search over the buffer, with its backlog and offset, finds the next greedy token of the whole input |
| HsEncoder.SkipStep | lib/heatshrink/heatshrink_encoder.c:456-481 | the positions the index skips hold another first byte, so skipping them changes no result |
| HsEncoder.FullMatchWins | lib/heatshrink/heatshrink_encoder.c:475-479 | stopping at a match of full length changes no result |
| HsEncoder.MatchCut | lib/heatshrink/heatshrink_encoder.c:464-469 | a candidate whose byte at the current best length differs cannot be longer |
| HsEncoder.FlushIsPack | lib/heatshrink/heatshrink_encoder.c:357-370 | the byte flushed at the end is the pending bits padded with zeros |
| HsEncoder.OutgoingChunk | lib/heatshrink/heatshrink_encoder.c:521-538 | the top eight queued bits followed by the rest are the queued field |
| HsEncoder.Encoder.constructor | lib/heatshrink/heatshrink_encoder.c:57-91 | a new encoder has taken and written nothing |
| HsEncoder.Encoder.Reset | lib/heatshrink/heatshrink_encoder.c:107-124 | reset returns any encoder to the state of a new one |
| HsEncoder.Encoder.Sink | lib/heatshrink/heatshrink_encoder.c:126-155 | takes as many bytes as the buffer has room for, appended to the input, and refuses only while finishing or while output is pending |
| HsEncoder.Encoder.Poll | lib/heatshrink/heatshrink_encoder.c:179-239 | appends to the output, stays within the space given and terminates; MORE means the space is full; EMPTY means it waits for input or, when finishing, that it is done or only the flush byte waits for room |
| HsEncoder.Encoder.Finish | lib/heatshrink/heatshrink_encoder.c:241-247 | finishing ends the input; done is reported exactly in the final state |
| HsEncoder.Encoder.EmittedIsPrefix | lib/heatshrink/heatshrink_encoder.c:179-239 | at any moment the output so far is a beginning of what the input compresses to |
| HsEncoder.Encoder.DoneIsCompressed | lib/heatshrink/heatshrink_encoder.c:357-370 | in the final state the output is exactly what the input compresses to |
| HsEncoder.Encoder.DoIndexing | lib/heatshrink/heatshrink_encoder.c:391-431 | afterwards each index entry is the latest earlier position holding the same byte, or -1 |
| HsEncoder.Encoder.FindLongestMatch | lib/heatshrink/heatshrink_encoder.c:443-519 | the indexed search returns the best match of the window, exactly when eight bits for each of its bytes are more than the 1 + w + l of a back-reference, and not-found otherwise |
| HsEncoder.Encoder.ScanLongestMatch | lib/heatshrink/heatshrink_encoder.c:482-519 | the plain backward scan meets the same specification as the indexed search, with the same break-even |
| HsEncoder.Encoder.NextCandidate | lib/heatshrink/heatshrink_encoder.c:456-481 | following the index goes to the next earlier position with the right first byte and skips nothing that could match |
| HsEncoder.Encoder.PushBits | lib/heatshrink/heatshrink_encoder.c:542-568 | writes exactly the given bits after those already written, through the bit loop or the whole-byte path |
| HsEncoder.Encoder.PutBit | lib/heatshrink/heatshrink_encoder.c:551-566 | one turn of the loop adds one bit and emits a byte exactly when it completes one |
| HsEncoder.Encoder.PushOutgoingBits | lib/heatshrink/heatshrink_encoder.c:521-538 | sends at most eight queued bits and keeps the rest queued; nothing is lost or reordered |
| HsEncoder.Encoder.StStepSearch | lib/heatshrink/heatshrink_encoder.c:249-290 | the match recorded is the next greedy token; the state waits for input exactly when the lookahead is short |
| HsEncoder.Encoder.StYieldTagBit | lib/heatshrink/heatshrink_encoder.c:292-307 | writes the tag bit of the current token or waits for space |
| HsEncoder.Encoder.StYieldLiteral | lib/heatshrink/heatshrink_encoder.c:309-317 | writes the literal that completes the current token |
| HsEncoder.Encoder.StYieldBrIndex | lib/heatshrink/heatshrink_encoder.c:319-333 | writes the distance field over as many calls as it needs |
| HsEncoder.Encoder.StYieldBrLength | lib/heatshrink/heatshrink_encoder.c:335-349 | writes the length field and completes the back-reference |
| HsEncoder.Encoder.StFlushBitBuffer | lib/heatshrink/heatshrink_encoder.c:357-370 | writes the padded last byte and ends in the final state |
| HsEncoder.Encoder.StSaveBacklog | lib/heatshrink/heatshrink_encoder.c:351-355 | shifting the buffer keeps the window and the unread input |
| HsEncoder.Encoder.ShiftBuffer | lib/heatshrink/heatshrink_encoder.c:579-597 | moves the buffer down to the scan point |
| HsEncoder.Encoder.Step | lib/heatshrink/heatshrink_encoder.c:190-238 | one turn of the poll loop keeps the invariant and makes progress in a lexicographic measure, or leaves the state alone |
| HsDecoder.RingPush | lib/heatshrink/heatshrink_decoder.c:192-197 | writing a byte at the masked head keeps the ring equal to the last 2^w bytes |
| HsDecoder.HeadIndexWraps | lib/heatshrink/heatshrink_decoder.c:252-265 | a head index wrapping at 2^16, also with a negative offset, addresses the slot an unbounded one would |
| HsDecoder.StuckIncomplete | lib/heatshrink/heatshrink_decoder.c:161-166 | a decoder that stops for lack of bits holds no complete token |
| HsDecoder.Decoder.constructor | lib/heatshrink/heatshrink_decoder.c:36-58 | a new decoder has taken and produced nothing |
| HsDecoder.Decoder.Reset | lib/heatshrink/heatshrink_decoder.c:68-80 | reset returns any decoder to the state of a new one |
| HsDecoder.Decoder.Sink | lib/heatshrink/heatshrink_decoder.c:83-102 | takes as many bytes as fit the input buffer and reports FULL exactly when none do |
| HsDecoder.Decoder.Poll | lib/heatshrink/heatshrink_decoder.c:119-168 | appends to the output within the space given; EMPTY with room left means everything taken has been decoded and the input buffer is drained |
| HsDecoder.Decoder.Finish | lib/heatshrink/heatshrink_decoder.c:321-345 | reports done exactly when no input is buffered and no copy is under way |
| HsDecoder.Decoder.GetBits | lib/heatshrink/heatshrink_decoder.c:274-319 | the next bits of the stream, or nothing consumed when too few are there |
| HsDecoder.Decoder.EmittedIsPrefix | lib/heatshrink/heatshrink_decoder.c:119-168 | at any moment the output is a beginning of what the bytes taken decode to |
| HsDecoder.Decoder.StuckIsDrained | lib/heatshrink/heatshrink_decoder.c:161-166 | an empty poll with output room left has decoded everything |
| HsDecoder.Decoder.StaysDrained | lib/heatshrink/heatshrink_decoder.c:119-168 | a decoder that has put out all its input stands for has no copy under way |
| HsDecoder.Decoder.StTagBit | lib/heatshrink/heatshrink_decoder.c:170-182 | reads the tag bit or waits |
| HsDecoder.Decoder.StYieldLiteral | lib/heatshrink/heatshrink_decoder.c:184-202 | a literal goes to the output and into the ring, once |
| HsDecoder.Decoder.StBackrefIndexMsb | lib/heatshrink/heatshrink_decoder.c:204-212 | reads the high part of the distance or waits |
| HsDecoder.Decoder.StBackrefIndexLsb | lib/heatshrink/heatshrink_decoder.c:214-224 | completes the distance or waits |
| HsDecoder.Decoder.StBackrefCountMsb | lib/heatshrink/heatshrink_decoder.c:226-234 | reads the high part of the length or waits |
| HsDecoder.Decoder.StBackrefCountLsb | lib/heatshrink/heatshrink_decoder.c:236-244 | completes the back-reference or waits |
| HsDecoder.Decoder.StYieldBackref | lib/heatshrink/heatshrink_decoder.c:246-270 | copies from the ring as far as the output has room; a suspended copy continues where it stopped |
| HsStall.StalledAt | lib/heatshrink/heatshrink_decoder.c:184-270 | a decoder stopped with its output full has read exactly the bits the pure function says: up to a literal's tag or a back-reference, or everything |
| HsStall.BlockMore | lib/heatshrink/heatshrink_decoder.c:184-270 | neither does input added behind |
| HsStall.BlockLess | lib/heatshrink/heatshrink_decoder.c:184-270 | input not read yet does not matter to where it stops |
| HsStall.BlockLate | lib/heatshrink/heatshrink_decoder.c:184-202 | if the room is all the stream needs, it stops within its last byte |
| HsStall.BlockReaches | lib/heatshrink/heatshrink_decoder.c:184-270 | a decoder that stops has filled its room |
| HsDecoder.Decoder.CopyBytes | lib/heatshrink/heatshrink_decoder.c:252-265 | the copy loop puts out the next bytes of the copy, into the output and the ring |
| HsDrivers.RunEncoder | lib/heatshrink/heatshrink_encoder.c:126-247 | under any sequence of calls the output is a beginning of the compression of what was taken, within the space offered; finish is remembered; every sink after enough polling takes something; enough polls at the end leave it waiting, or done with everything |
| HsDrivers.RunDecoder | lib/heatshrink/heatshrink_decoder.c:83-345 | under any sequence of calls the output is a beginning of the decoding of what was taken; every feed after enough draining takes something; enough drains at the end put out everything |
| HsDrivers.RoundTripAnySchedule | lib/heatshrink/heatshrink_encoder.c:126-370 | under any schedule of calls on both sides the decoder's output is a beginning of what the encoder took, all of it once the encoder is done and the decoder fed and drained, and the whole input under every schedule that keeps polling, finishes, and keeps feeding and draining |
| HsDrivers.ReadsGreedy | lib/heatshrink/heatshrink_decoder.c:170-270 | a decoder fed a beginning of compressed data has read the first of the greedy tokens and no others |
| HsDrivers.SameTokens | lib/heatshrink/heatshrink_decoder.c:170-270 | at the same place in the text encoder and decoder have handled the same tokens |
| HsDrivers.TurnsComplete | lib/heatshrink/heatshrink_encoder.c:126-247 | sinking and polling in turn, then finishing and polling, is such a schedule for the encoder |
| HsDrivers.FeedTurnsDecode | lib/heatshrink/heatshrink_decoder.c:83-168 | feeding and draining in turn is such a schedule for the decoder |
| HsDrivers.WindowsAgree | lib/heatshrink/heatshrink_decoder.c:192-197 | between tokens, a decoder fed a beginning of the encoder's output that is at the same place in the text has in its ring, read from its head, the encoder's window before its scan point |
| HsDrivers.CompressAll | lib/heatshrink/heatshrink_encoder.c:126-247 | a looping caller gets the complete compression for any piece sizes and any output space of at least one byte |
| HsDrivers.DecompressAll | lib/heatshrink/heatshrink_decoder.c:83-345 | a looping caller gets the complete decoding, and finish then reports done |
| Crc16.Crc16Ccitt | include/crc16.h:11-24 | the nested loops compute the bit-serial polynomial register |
| Crc16.CrcOfNothing | include/crc16.h:11-12 | the register starts at 0xFFFF |
| Crc16.Append | include/crc16.h:29-33 | puts the checksum after the data, high byte first, and changes nothing else |
| Crc16.Validate | include/crc16.h:39-45 | accepts exactly the frames whose whole register ends at zero, and never one too short |
| Crc16.AcceptsIff | include/crc16.h:39-45 | comparing the stored checksum is the same as running the register over the whole frame to zero |
| Crc16.AppendedAccepted | include/crc16.h:29-45 | what was appended is accepted |
| Crc16.RegisterLinear | include/crc16.h:11-24 | the register of a bitwise difference is the difference of the registers |
| Crc16.ZeroAfter | include/crc16.h:11-24 | running the register over its own contents leaves zero |
| Crc16.OnlyZeroVanishes | include/crc16.h:11-24 | the bit step is invertible: zeros never clear a non-zero register |
| Crc16.UndetectedIff | include/crc16.h:39-45 | two frames of one length are both accepted or both rejected exactly when their difference leaves a zero register |
| Crc16.BurstDetected | include/crc16.h:39-45 | a non-zero change within 16 consecutive bits of an accepted frame of any length, across the checksum boundary too, is rejected |
| Crc16.OnlyThePolynomialIsUnseen | include/crc16.h:11-24 | of all 17-bit patterns that begin with a one the register fails to notice just x^16 + x^12 + x^5 + 1 |
| Crc16.WiderBurstUnseenIff | include/crc16.h:39-45 | a change that spans 17 bits of an accepted frame goes unnoticed exactly when it flips the bits of that polynomial, wherever it is |
| Crc16.OddErrorsDetected | include/crc16.h:39-45 | a change of an odd number of bits is rejected |
| Framing.HuntExact | receiver/src/dash_receiver.c:1816-1859 | the automaton is complete exactly when the preamble has occurred, and before that its state is the longest beginning of it the input ends with |
| Framing.HuntStep | receiver/src/dash_receiver.c:1821-1859 | going back to state 1 on AB and to 0 otherwise is the right failure function for this pattern |
| Framing.FrameBytes | sender/src/lifi_session_sender.c:670-714 | a frame byte by byte: AB CD EF 12, type, length and payload, and the checksum of all but the preamble, high byte first |
| Framing.PacketBounds | receiver/src/dash_receiver.c:1876-2086 | what can be framed, in numbers |
| Framing.ReadPacketIff | receiver/src/dash_receiver.c:1863-2142 | the receiver reads a packet exactly when what arrives begins with the very bytes sent for it |
| Framing.UnknownTypeSkipped | receiver/src/dash_receiver.c:2376-2406 | an unknown type costs it and the fifteen bytes after it |
| Framing.BadLengthSkipped | receiver/src/dash_receiver.c:1868-2086 | a length out of the bounds of its type costs three bytes |
| Framing.TruncatedFrameDropped | receiver/src/dash_receiver.c:2091-2110 | a frame the line breaks off is used up as far as it came |
| Framing.ReadBody | receiver/src/dash_receiver.c:2068-2142 | the parser reads back any frame body it is given, whatever follows |
| Framing.ParseFrame | receiver/src/dash_receiver.c:1816-2142 | one frame after clean noise is parsed as its packet, and parsing goes on behind it |
| Framing.ParseStream | receiver/src/dash_receiver.c:1816-2142 | any sequence of frames with clean noise between them parses to exactly the packets sent, even when payloads contain the preamble |
| Framing.DamagedFrameDropped | receiver/src/dash_receiver.c:2110-2142 | a frame hit by a burst of at most 16 bits anywhere but in its length field never yields a packet, and with its type intact is used up exactly |
| Framing.ParseIntact | receiver/src/dash_receiver.c:1816-2142 | a stream in which some frames are so damaged behind their length parses to exactly the intact ones, in order |
| Replay.ReplayWindow.constructor | receiver/include/replay_window.h:14-21 | a new window has accepted nothing |
| Replay.ReplayWindow.Seen | receiver/src/replay_window.c:6-9 | true exactly for the last cap accepted nonces and, while slots are unused, the zero nonce |
| Replay.ReplayWindow.Add | receiver/src/replay_window.c:11-14 | appends one nonce to the history the ring stands for |
| Replay.RepeatsAreFarApart | receiver/src/dash_receiver.c:2145-2151 | over any run two acceptances of one nonce have at least cap acceptances between them |
| Replay.ZeroComesLate | receiver/src/replay_window.c:6-9 | the zero nonce is not among the first cap acceptances |
| Replay.HonestNeverRejected | receiver/src/dash_receiver.c:2145-2151 | new, pairwise different, non-zero nonces are all accepted |
| Replay.HonestAcceptedIff | receiver/src/dash_receiver.c:2145-2151 | new, pairwise different nonces are all accepted exactly when no zero nonce comes while a slot is unused |
| Replay.ZeroRejectedIff | receiver/include/replay_window.h:14-21 | a zero nonce never used is rejected exactly while a slot is unused |
| NonceGen.Generator.constructor | src/pico_handler.c:73-80 | starts an epoch with a fresh salt and counter zero |
| NonceGen.Generator.Init | src/pico_handler.c:101-104 | a key change starts a new epoch |
| NonceGen.Generator.Generate | src/pico_handler.c:82-99 | returns the salt and the old counter, advances the counter, and reboots when it wraps |
| NonceGen.Be32Value | include/pico_handler.h:144-153 | the counter goes into the nonce high byte first |
| NonceGen.NonceLayout | src/pico_handler.c:96-98 | twelve bytes: the salt, then the counter high byte first |
| NonceGen.RebootsIff | src/pico_handler.c:82-94 | the draw that reboots is that of the last 32-bit counter value |
| NonceGen.NonceOfInjective | src/pico_handler.c:96-98 | salt and counter can be read off a nonce |
| NonceGen.NoncesDistinct | src/pico_handler.c:73-104 | as long as no salt is drawn twice no nonce is ever used twice, across key changes and up to every reboot |
| NonceGen.TraceNonZero | src/pico_handler.c:73-104 | non-zero salts never give the zero nonce |
| NonceGen.HonestSenderNeverRejected | receiver/src/dash_receiver.c:2145-2151 | a receiver starting empty rejects no nonce of such a sender |
| NonceGen.HonestSenderAcceptedIff | receiver/src/dash_receiver.c:2145-2151 | a receiver starting empty accepts every nonce of a sender with new salts exactly when the zero nonce is not among the first cap |
| NonceGen.ZeroNonceIff | src/pico_handler.c:96-98 | the zero nonce is that of the zero salt at counter zero and no other |
| NonceGen.ZeroSaltRejected | src/pico_handler.c:73-80 | a sender that drew the zero salt has its first message taken for a replay |
| KeySlots.PageSize | src/pico_handler.c:166-191 | the page a write stages reads back as the pair |
| KeySlots.PageLayout | src/pico_handler.c:166-177 | the page as it is staged: id, key, the hash of both, the magic number low byte first, zeros |
| KeySlots.ReadSlotIff | src/pico_handler.c:143-164 | a slot reads as a pair exactly when it holds the whole block written for that pair |
| KeySlots.LoadIff | src/pico_handler.c:193-197 | loading gives exactly the pair whose block is in slot B, or, when B holds none, the one whose block is in A |
| KeySlots.TornReads | src/pico_handler.c:143-164 | a write cut short reads as no key until the whole block is there, and as the new pair from then on |
| KeySlots.StoreNeverLosesTheKey | src/pico_handler.c:199-210 | wherever a store is cut off there is still a key to load if there was one, and it is an old or the new one |
| KeySlots.LoadAfterStoreIff | src/pico_handler.c:193-210 | a completed store is loaded back exactly when slot A held a key or slot B held none or that very pair; otherwise slot B's older pair is |
| KeySlots.LoadsOnlyKnownPairs | src/pico_handler.c:193-210 | over any run of stores, direct slot writes and clears with power failing anywhere, only pairs present at the start or written to the end of their block are loaded |
| KeySlots.DirectWriteLosesIff | src/pico_handler.c:410-413 | a direct slot write loses the last key exactly when it is cut short after its erase and the other slot is empty |
| KeySlots.NextStoreIsLoaded | src/pico_handler.c:193-210 | as long as no operation breaks the order of the slots, the next completed store is the one that is loaded |
| KeySlots.RunReads | src/pico_handler.c:143-210 | over any run the two slots read as the operations and their power failures alone say |
| KeySlots.StoreAfterRunIff | src/pico_handler.c:193-210 | after any run, exactly when a completed store is loaded back, in terms of the operations alone |
| KeySlots.OrderKeptIff | src/pico_handler.c:410-413 | which operations break the order: emptying slot A with a key in B, by a clear or a direct write cut short, or completing a direct write to B with A empty; stores never do |
| KeySlots.OlderPairHidesNewer | src/pico_handler.c:193-210 | two stores, slot A lost to a clear or a direct write cut short, then a complete store of another pair: the second pair is loaded |
| KeySlots.KeyFlash.Program | src/pico_handler.c:166-191 | leaves the page programmed as far as power lasted |
| KeySlots.KeyFlash.WriteKeyToSlot | src/pico_handler.c:166-191 | erase then program, cut off wherever power fails, on the chosen slot only |
| KeySlots.KeyFlash.LoadSessionKey | src/pico_handler.c:193-197 | slot B if it holds a block, else slot A, and nothing exactly when neither holds the block of any pair |
| KeySlots.KeyFlash.StoreSessionKey | src/pico_handler.c:199-210 | writes slot B when A holds a block and slot A otherwise, and leaves the other |
| KeySlots.KeyFlash.ClearSlot | src/pico_handler.c:375-380 | erases one slot and leaves the other |
| Sender.AutoCompress | sender/src/lifi_session_sender.c:602-644 | the frame type and content: the compression of one sink's worth of the message when that is smaller than the message, else the message itself |
| Sender.PollSunk | sender/src/lifi_session_sender.c:613-621 | the poll loop collects what the encoder emits, until it waits for more input unless the buffer is full |
| Sender.SmallCompressed | sender/src/lifi_session_sender.c:628-640 | the compressed form is never longer than 288 bytes |
| Sender.OutgoingIff | sender/src/lifi_session_sender.c:604-641 | compressed exactly above 128 bytes, when the encoder could be allocated and the first 256 bytes compress below the length of the message |
| Sender.Pico.Transmit | sender/src/lifi_session_sender.c:670-714 | puts exactly one frame of type, length, nonce, ciphertext, tag and checksum on the link |
| Sender.Pico.SendChunks | sender/src/lifi_session_sender.c:700-706 | sending in 256-byte chunks sends the whole ciphertext once |
| Sender.Pico.SendKeyId | sender/src/lifi_session_sender.c:544-577 | puts exactly the key-id frame on the link |
| Sender.Pico.Submit | sender/src/lifi_session_sender.c:536-714 | what one typed line puts on the link and leaves behind: command, missing key, oversize, counter wrap or one sealed frame with the next nonce |
| Sender.SendableIff | sender/src/lifi_session_sender.c:536-668 | a message is sent exactly when it is no command, at most 8192 bytes are left of it, the key is not sixteen zeros and the counter is not at its end |
| Sender.SilentUnlessSendable | sender/src/lifi_session_sender.c:536-668 | otherwise nothing but a key-id frame leaves the sender and no nonce is used up |
| Sender.SendIdIff | sender/src/lifi_session_sender.c:536-544 | "CMD:", any number of spaces and "send_id" are recognised, whatever follows, and nothing else |
| Sender.CommandEffect | sender/src/lifi_session_sender.c:580-597 | a command that changes the key leaves the new id, the new key and a fresh nonce epoch; any other leaves all as it was |
| Sender.AnnouncesNewKey | sender/src/lifi_session_sender.c:544-593 | the id announced after a key change is that of the key messages are then sealed under |
| Receiver.ReadFrame | receiver/src/dash_receiver.c:1861-2142 | reads, bounds and checks a frame as the parse function says, using up exactly the bytes it says |
| Receiver.PollInto | receiver/src/dash_receiver.c:2188-2193 | the poll loop leaves the decoder drained, or stalled with the buffer full |
| Receiver.ExpandFile | receiver/src/dash_receiver.c:2172-2220 | the decompression loop gets through every content that does not hang, in particular every one that decodes to at most 32768 bytes, and writes what is specified; on one that hangs it never gets through, however many turns it takes |
| Receiver.ShortNeverHangs | receiver/src/dash_receiver.c:2180-2211 | no content that decodes to at most 32768 bytes hangs |
| Receiver.FullMeansHangs | receiver/src/dash_receiver.c:2180-2199 | between turns, a full input buffer with more to come means the decoder has stopped for good |
| Receiver.HangsMeansFull | receiver/src/dash_receiver.c:2180-2199 | a loop that has sunk the last buffer a hanging file lets it fill has the decoder's input buffer full |
| Receiver.RunsHangIff | receiver/src/dash_receiver.c:2180-2211 | a file of n runs of 16 zeros hangs the receiver exactly from n = 2206 on, which is from 3585 bytes on |
| Receiver.ExpandedIntactIff | receiver/src/dash_receiver.c:2213-2218 | the file written is the decoding exactly when that is shorter than the buffer, or fills it and ends in zero |
| Receiver.Receiver.Hunting | receiver/src/dash_receiver.c:1816-1859 | one byte moves the preamble state as the automaton does |
| Receiver.Receiver.OnData | receiver/src/dash_receiver.c:2144-2211 | replay check and bookkeeping, then key check, opening and delivery; nothing is delivered unless the packet opens under the key held; it hangs exactly on a file that hangs |
| Receiver.Receiver.OnPacket | receiver/src/dash_receiver.c:1863-2211 | one packet changes the receiver as specified, and it hangs exactly on a file that hangs |
| Receiver.Receiver.OnStream | receiver/src/dash_receiver.c:1804-2410 | the event loop over any bytes does to the receiver what its packets do one after another, and hangs exactly when one of them is a file that hangs |
| Receiver.DeliversIff | receiver/src/dash_receiver.c:2144-2372 | something is delivered exactly when a data packet with an unseen nonce opens under the key held, and then what it opens to |
| Receiver.KeyIff | receiver/src/dash_receiver.c:1945-1951 | the key changes exactly to the one found for a key-id packet |
| Receiver.DeliveriesOpened | receiver/src/dash_receiver.c:2144-2372 | whatever packets arrive, the deliveries are one by one and in order the openings of packets among them under the key held at that point |
| Receiver.AnyStreamAuthentic | receiver/src/dash_receiver.c:1804-2410 | the same for any bytes on the link |
| Receiver.AcceptedIsRun | receiver/src/dash_receiver.c:2144-2151 | over any packets the accepted nonces are a run of the replay window, and every delivery used up a new nonce |
| Receiver.SeenIff | receiver/src/replay_window.c:6-9 | the receiver remembers exactly the last 64 accepted nonces, and takes twelve zeros for one while there are fewer |
| Receiver.AnyStreamFarApart | receiver/src/dash_receiver.c:2144-2151 | whatever bytes arrive, one nonce is accepted twice only with 64 acceptances in between |
| Receiver.PlaybackIsSilent | receiver/src/dash_receiver.c:2144-2151 | up to 64 recorded new packets played back right after the original deliver nothing more |
| EndToEnd.Reconstructed | receiver/src/dash_receiver.c:2172-2211 | expanding what the sender compressed gives back the bytes it sank |
| EndToEnd.MessageArrives | receiver/src/dash_receiver.c:2153-2211 | what is delivered for a sent frame is the message, or its first 256 bytes when compressed |
| EndToEnd.IntactIff | sender/src/lifi_session_sender.c:602-644 | a message arrives whole exactly when it has at most 256 bytes, the encoder could not be allocated, or its first 256 bytes do not compress below its length |
| EndToEnd.CutTo256 | sender/src/lifi_session_sender.c:611-612 | a longer message that does not arrive whole arrives as exactly its first 256 bytes, and from 289 bytes on that always happens |
| EndToEnd.AdmittedIff | receiver/src/dash_receiver.c:2080-2086 | a frame is within the receiver's bound exactly when its message was compressed or has at most 8164 bytes |
| EndToEnd.TooLongIsDropped | receiver/src/dash_receiver.c:2080-2086 | a longer frame is dropped right after its length field |
| EndToEnd.OneMessage | receiver/src/dash_receiver.c:2144-2211 | a message sealed with a new nonce under the shared key is opened and delivered |
| EndToEnd.SessionDelivers | receiver/src/dash_receiver.c:2144-2211 | over a whole session every message sent and not damaged is delivered once and in order, and nothing else is |
| EndToEnd.AirDelivers | receiver/src/dash_receiver.c:1804-2211 | the same from the bytes on the link, with clean noise around the frames and bursts in some |
| EndToEnd.NewSaltsUnused | src/pico_handler.c:73-104 | new, non-zero salts are enough for a session's nonces to be accepted |
| EndToEnd.AnnouncedSession | receiver/src/dash_receiver.c:1863-1975 | a fresh receiver, a key announcement and then messages is such a session, and every message arrives |
| EndToEnd.ScriptedIsHonest | sender/src/lifi_session_sender.c:580-597 | the key, id and salts the sender uses over such a session are those the lines say |
| EndToEnd.ScriptedSession | sender/src/lifi_session_sender.c:536-714 | sessions with any number of key changes, each announced before the next message: honest, and every message arrives |
| EndToEnd.RunSession | sender/src/lifi_session_sender.c:536-714 | the sender and receiver objects run together deliver exactly the messages typed whose frames were not damaged |

## Left out

- HsEncoder.Encoder: window size 15, which the allocator admits, is outside the class; `HsEncoder.BuildIndex` is its indexing loop, and `HsEncoder.IndexFitsIff` says why the rest is not modelled at that size.
- HsEncoder.Encoder.Sink: the null-pointer returns of sink and poll on both sides, allocation, logging and the debug dumps are not modelled.
- HsDecoder.Decoder.GetBits: takes 1 to 8 bits; no caller asks for more, so its refusal of more than 15 is not modelled.
- Sender.Pico.Submit: commands other than `send_id` reach a handler that is not part of this model; what it may do to the key (a new pair and a new nonce salt) is a parameter. Reading the keyboard into the message buffer, and encryption failing, are not modelled.
- Sender.AutoCompress: whether the encoder can be allocated is a parameter.
- Sender.Aead: AES-GCM is a pair of functions of which only that opening undoes sealing is known.
- Receiver.ExpandFile: takes the number of turns it may loop as a parameter, where the source has no limit; what holds for every number of turns is stated.
- Receiver.ReadFrame: the end of the byte stream stands for every read timeout; a timeout in the middle of a stream that then goes on is not modelled.
- Receiver.Receiver.OnPacket: the key list and Auth are one function from a key-id payload to a key; the handshake that follows a key id, and handshake replies, live in a library that is not part of this model and change neither key nor messages here.
- Receiver.Receiver.OnData: what the receiver does on reading particular texts (new-key requests, ACK, key verification), the statistics, the reporter and the screen are not modelled; allocating the decoder succeeds.
- EndToEnd.SessionDelivers: noise before a frame is assumed not to contain the preamble, and damage to a frame stays within 16 consecutive bits behind its length, so that its preamble, type and length arrive; damage to those, after which the receiver may search on inside the payload, is not modelled.
- NonceGen.Generator.Generate: the interrupt lock around the counter is not modelled; after the counter wraps the sender is down until it is started again.
- Framing.DamagedFrameDropped: a burst that hits the length field is outside it; the receiver then checks another span of bytes, for which no burst bound holds.
- KeySlots.KeyFlash.Program: a slot is its 256-byte page; an interrupted erase is treated as not begun or complete, and flash is programmed from the first byte on. The index page of the last-used slot is not modelled.
- KeySlots.HashOk: the hash is any function with 32-byte results; nothing here needs it to be collision-free.
- The handshake between the two sides, the command handler, the other receivers, the baud, PIO and GPIO code, the network services and the dashboard are not modelled: they are input and output, or libraries whose source is elsewhere.
