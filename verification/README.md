# M-Bus gateway: verified model

A Dafny model of the algorithms and state machines in the middle of the gateway: the wM-Bus CRC and the frame and block formats that rest on it, the mode C link layer and the streaming decoder, the wired framing, the record walk, the compact-frame cache, the device manager, the time-windowed counter and the log throttle, the SIMD checksums, the airwave sweep, the lock-free interrupt statistics and the secondary-address search. `dafny verify dfyconfig.toml` checks all of it.

Every operation that the source performs by changing things step by step is a method or a class here, proved equal to a specification function; the theorems are about those functions, over all inputs, all runs or all interleavings.

| file | content |
|---|---|
| Wrappers, Bytes, Digits | results, bytes and their bits in transmission order, packed decimal digits |
| Crc, CrcErrors, CrcOrder | table-driven CRC = bit-serial register = long division over GF(2); which errors go unnoticed, and the order of x |
| WirelessFrame, Blocks | full and compact frames, 16-byte blocks |
| ModeC, FrameDecoder, Chunking | link-layer frames, the streaming decoder over its buffer, independence from chunking, what arrives of a stream |
| TypeSwap, LinkErrors, StreamErrors, DamagedStreams | what bursts do to a frame, its type byte included, and to a stream, whether or not its frame boundaries move |
| CompactCache, CacheRuns, CacheReference | the LRU cache, runs of it at different sizes, and the cache told from its calls alone |
| Checksum, ChecksumRange, WiredFrame, WiredReceive | SIMD checksums and when their 32-bit sums overflow, wired frames, receiving them from a fragmented stream |
| Records, RecordWalk, RecordEncoding, RecordStandard, RecordPanics, PayloadWalk | one data record, the walk over a payload, the encoder they are inverse to, the field lengths as numbers, and when they index out of range |
| Tables, DeviceStore, DeviceManager, EventReplay, DeviceFold, DeviceAccounts, ImportEffects | key-ordered tables and the persistent device manager on them, its event log, its accounts, its imports |
| WindowedCounter, Throttle | sliding-window totals, message throttling |
| Sweep, SweepSearch | bit-level frame search in raw captures |
| IrqStats | concurrent statistics with relaxed atomics |
| SearchPatterns | search-pattern enumeration with backtracking in place |

## Where the code does less than it seems

Where the code falls short for some inputs, the lemmas named say for exactly which.

- `packet_size` announces a Type A frame two bytes short whenever its application data ends one byte into a block. The streaming decoder then reports a CRC mismatch for a correct frame, and the sweep returns the frame without its last two bytes (`ModeC.TypeAPacketSize`, `Chunking.DeliveredIffWellFormed`, `SweepSearch.TypeAFrameIff`).
- The sweep hands up to 64 bytes behind a sync word to the link-layer decoder. That loses every frame of more than 64 bytes, and also every shorter Type B frame that two or more bytes follow in the window, unless those bytes happen to end in their own CRC: the decoder takes them for a second block. In a continuous capture that is nearly every Type B frame (`SweepSearch.TypeAFrameIff`, `SweepSearch.TypeBFrameIff`; a capture in which a correct frame is lost: `SweepSearch.TypeBFrameIsLost`).
- The streaming decoder clears whatever is buffered behind a bad header, so its output depends on how the stream was cut exactly for streams where that happens (`Chunking.ChunkingIndependentIff`).
- A payload whose last piece is shorter than 14 bytes does not survive block protection: the CRC of the short piece is taken for data (`Blocks.ProtectRoundTrip`).
- A built wireless frame does not parse back if its manufacturer's low byte is 0x79 and its CI is not an application CI: it is taken for a compact frame (`WirelessFrame.ParseOfBuild`).
- Parsing one record indexes out of range, and so panics, exactly in three cases: a manufacturer-specific or more-records DIF with more than 256 bytes after it; a variable-length DIF whose header ends the input; a variable-length DIF with a length byte 0xF0 to 0xFA and that many bytes, 1120 to 1130, behind it (`RecordPanics.ParsePanicsIff`). The walk panics exactly if it comes to such a position, or to one with more than 256 bytes left that is rejected as a variable record and accepted as a fixed one (`RecordPanics.ProcessPanicsIff`). The two bytes 0x0D 0x13 are enough (`RecordPanics.TwoBytesPanic`).
- The data fields 5, 6 and 7 of a DIF, which EN 13757-3 defines as a 32-bit real, a 48-bit and a 64-bit integer, are taken as six, eight and no bytes (`RecordStandard.DataLengthIs`).
- The safety break of the record walk can never be taken (`RecordWalk.ProcessData`).
- A cache of configured size zero holds one entry; the size stays within the configured one in every run exactly if that is at least one (`CacheRuns.ZeroSizeHoldsOne`, `CacheRuns.WithinMaximumIff`).
- The throttle's 32-bit counter wraps around. From a new throttle, no interval of one window length sees more than twice the cap let through in any history of at most n calls exactly if n is less than 2^32 + cap; 2^32 + cap calls at one instant let one more through (`Throttling.BoundedForIff`, `Throttling.OneTooMany`, and per category `Throttling.CategoryBoundedForIff`).
- The 32-bit sum over the SSE2 lanes can overflow exactly from 16,843,024 bytes on and over the AVX2 lanes from 16,843,040; single lanes wrap from 67,372,048 (SSE2, NEON) and 134,744,096 (AVX2) bytes on. The checksum is right all the same where arithmetic wraps (`ChecksumRange.Sse2SumOverflowsIff`, `ChecksumRange.Avx2SumOverflowsIff`, `ChecksumRange.Lane4WrapsIff`, `ChecksumRange.Lane8WrapsIff`).
- The streaming decoder cuts a frame where its own header says, so a burst of at most 16 bits in the header can move the boundary. A burst that spares the type byte never makes it deliver another frame in place of a Type A frame, but in place of a Type B frame it does exactly if the length byte has changed, the announced bytes are there and one CRC holds over them (`StreamErrors.TypeAAlwaysRejected`, `StreamErrors.TypeBAnotherFrameIff`). Two flipped bits are enough: they turn a Type B frame of 13 bytes into one of 15 and back (`StreamErrors.TwoBitsMoveBoundary`). No CRC covers the type byte, but a hit on it is noticed as well unless the boundary moves (`StreamErrors.AnotherFrameIff`; an input where it does: `StreamErrors.TypeHitMovesBoundary`).
- Two flipped bits in a message go unnoticed exactly if their distance is a multiple of 151 (`PowersOfX.TwoFlipsUndetectedIff`).
- A latency of zero counts as "no minimum yet", so the minimum register is right at the end of every execution exactly when no latency is zero or all are (`IrqStats.MinimumIsRightIff`).
- Search patterns start from bytes 0x0F and at most 8 nibbles are narrowed, so only the first four address bytes ever vary, and every pattern of an inner node is also a leaf: of (16^(d+1) - 1) / 15 patterns only 16^d differ (`SearchPatterns.EveryPatternIsALeaf`, `SearchPatterns.DistinctPatternCount`).

## Model

| member | source | states |
|---|---|---|
| WmbusCrc.BuildTable | src/wmbus/crc.rs:35-53 | entry n is the remainder register after shifting n in from the top through eight division steps, for all 256 entries |
| WmbusCrc.CalculateWmbusCrc | src/wmbus/crc.rs:66-73 | the table-driven loop equals the bit-serial CRC on every byte sequence |
| WmbusCrc.TableLoopBody | src/wmbus/crc.rs:66-73 | one lookup, shift and exclusive or has the effect of eight bit-serial steps, and the index is in range |
| WmbusCrc.RegisterIsRemainder | src/wmbus/crc.rs:35-73 | the register after any message is the remainder of the message polynomial times x^16 under long division by the generator |
| WmbusCrc.RemainderLinear | src/wmbus/crc.rs:35-73 | long division is linear over GF(2), in start value and message together |
| ErrorDetection.VerifyIsRemainder | src/wmbus/crc.rs:77-90 | data with CRC is accepted if and only if, as one polynomial, it leaves the all-ones remainder |
| ErrorDetection.UndetectedIffDivisible | src/wmbus/crc.rs:84-90 | a corrupted message is accepted if and only if the difference is divisible by the generator |
| ErrorDetection.BurstDetected | src/wmbus/crc.rs:84-90 | any nonzero error within 16 consecutive bits, at any bit offset and across the data/CRC boundary, is rejected for messages of any length |
| ErrorDetection.SeventeenBitBurst | src/wmbus/crc.rs:84-90 | 16 is sharp: of the bursts spanning 17 bits exactly the generator pattern escapes |
| ErrorDetection.OddErrorsDetected | src/wmbus/crc.rs:84-90 | any odd number of flipped bits is rejected, wherever they are |
| PowersOfX.UnitPowerIff | src/wmbus/crc.rs:30-53 | x^n leaves the remainder 1 modulo the generator if and only if n is a multiple of 151 |
| PowersOfX.TwoFlipsUndetectedIff | src/wmbus/crc.rs:84-90 | two flipped bits go unnoticed if and only if their distance is a multiple of 151 |
| PowersOfX.FewFlipsDetected | src/wmbus/crc.rs:84-90 | in a message of at most 18 bytes, its CRC included, any one, two or three flipped bits are rejected |
| ErrorDetection.AppendedCrcVerifies | src/wmbus/crc.rs:66-90 | every message followed by its big-endian CRC verifies |
| WirelessFrame.Build | src/wmbus/frame.rs:406-438 | pushing the fields one by one gives length byte, header, payload and CRC in wire order |
| WirelessFrame.AddWmbusCrc | src/wmbus/frame.rs:141-149 | the CRC is appended most significant byte first |
| WirelessFrame.AcceptedIff | src/wmbus/frame.rs:207-339 | an input is accepted if and only if its CRC verifies and it is of compact form or at least 13 bytes long with a matching length byte; which of the others are too short or of wrong length |
| WirelessFrame.BurstRejected | src/wmbus/frame.rs:115-128 | no burst of at most 16 bits turns an accepted input, full or compact, into another accepted one |
| WirelessFrame.OddErrorsRejected | src/wmbus/frame.rs:115-128 | no odd number of flipped bits does either |
| WirelessFrame.ParseOfBuild | src/wmbus/frame.rs:203-280 | parsing a built frame returns its fields if and only if the payload has at most 245 bytes and the header is not mistaken for a compact one |
| WirelessFrame.BuildOfParse | src/wmbus/frame.rs:441-452 | `to_bytes` of an accepted frame gives back the input if and only if the input was a full frame |
| WirelessFrame.Layout | src/wmbus/frame.rs:406-438 | the octets of a built frame: L, C, manufacturer and address with the low octet first, version, type, CI, payload, and a CRC that verifies |
| WirelessFrame.CompactFields | src/wmbus/frame.rs:282-339 | a compact frame yields its length, control byte, payload and CRC, its signature, low octet first on the wire, for manufacturer, and nothing else |
| WirelessFrame.CodesAre | src/wmbus/frame.rs:88-96 | encrypted are control bytes with the top bit and CI bytes 122 to 139; the CI ranges that tell a full frame from a compact one |
| Blocks.VerifyBlocks | src/wmbus/block.rs:103-183 | the loop splits off 16-byte blocks and a partial rest, in order, each with its index, data and CRC status |
| Blocks.VerifyBlocksWithVendor | src/wmbus/block.rs:293-391 | the vendor-aware copy agrees block by block, except that a failing full block may be turned valid |
| Blocks.ExtractBlockData | src/wmbus/block.rs:197-203 | the loop concatenates the blocks' data in order |
| Blocks.ProcessTypeABlocks | src/wmbus/block.rs:269-287 | the data of all blocks in order, also of those whose CRC fails |
| Blocks.RawBytesRestorePayload | src/wmbus/block.rs:103-183 | the blocks' raw bytes concatenate back to the payload, for every payload |
| Blocks.BlocksAre | src/wmbus/block.rs:103-183 | block k is the k-th 16 bytes or what is left of them; it is valid if and only if it is full and its last two bytes are the CRC of the first 14, or, with tolerance, if the payload is not encrypted and the vendor agrees |
| Blocks.ProtectRoundTrip | src/wmbus/block.rs:103-203 | appending a CRC to each 14-byte piece, verifying and extracting gives the data back if and only if no piece is short; then all blocks are valid |
| Blocks.BurstInvalidatesTouchedBlocks | src/wmbus/block.rs:103-183 | after a burst of at most 16 bits a formerly valid full block is valid if and only if the burst left it alone, also when it straddles two blocks |
| ModeC.ReadTypeABlocks | src/wmbus/mode_c.rs:128-225 | the data-block loop returns the contents of all blocks and whether every one of them validates, and stops at a missing byte |
| ModeC.DecodeModeC | src/wmbus/mode_c.rs:128-225 | the decoder's branches, error cases and field offsets, as one function of the input |
| ModeC.Bcd4IsWritten | src/wmbus/mode_c.rs:95-101 | the address loop gives the number that the bytes' decimal digits write, two a byte, the first byte's last |
| ModeC.AddressIsWritten | src/wmbus/mode_c.rs:91-101 | of a frame whose four address bytes hold eight digits, the last two first, the address is the number with those digits |
| ModeC.PacketSizeOfPrefix | src/wmbus/radio/rfm69_packet.rs:290-312 | the announced size depends on the first two bytes only |
| ModeC.AnnouncedSize | src/wmbus/radio/rfm69_packet.rs:260-312 | with a sync byte, straight or bit-reversed, and L in the first two bytes in either order the size is L + 2 for Type B and L + 2 + 2(1 + k) for Type A, where k blocks of 16 bytes hold what exceeds ten; otherwise -2 |
| ModeC.TypeBRoundTrip | src/wmbus/mode_c.rs:128-225 | a Type B frame is announced at its true length and decodes to its header and data, for every data length the length byte can carry |
| ModeC.TypeARoundTrip | src/wmbus/mode_c.rs:128-225 | a Type A frame decodes to its header and data, whatever follows it |
| ModeC.TypeAContents | src/wmbus/mode_c.rs:159-182 | a complete Type A frame with any bytes for its CRCs decodes to its header and data, valid if and only if every block's CRC is right, whatever follows |
| ModeC.TypeBContents | src/wmbus/mode_c.rs:183-210 | a complete Type B frame with any CRC and anything behind it decodes to its header, its data and what follows short of two bytes, valid if and only if its CRC is right and less than two bytes follow or end in their own CRC |
| ModeC.TypeBTwoBlocks | src/wmbus/mode_c.rs:183-210 | a Type B frame followed by a second block and its CRC decodes to the data of both |
| ModeC.TypeAPacketSize | src/wmbus/radio/rfm69_packet.rs:274-312 | the announced length of a Type A frame is right if and only if its data does not end one byte into a block; else it is two bytes short |
| ModeC.TypeATruncated | src/wmbus/mode_c.rs:128-225 | a Type A frame cut at that short boundary never validates |
| ModeC.TypeACut | src/wmbus/mode_c.rs:128-225 | nor does one cut anywhere in its data blocks |
| ModeC.TypeBThen | src/wmbus/mode_c.rs:183-210 | a Type B frame followed by anything decodes to its data and what follows short of two bytes, and validates if and only if less than two bytes follow or those end in their own CRC |
| ModeC.TypeBCut | src/wmbus/mode_c.rs:183-210 | a Type B frame that is not there to its end is an error that says how many bytes are needed next, for every cut |
| ModeC.Rejections | src/wmbus/mode_c.rs:128-188 | the other errors: exactly a first byte other than 0xCD and 0x3D, and a Type B length byte of zero; a Type A frame with its header never is one |
| LinkErrors.BurstRejected | src/wmbus/mode_c.rs:128-225 | no burst of at most 16 bits turns an accepted frame into another accepted one of the same length, even over two blocks and even if it hits the type byte |
| TypeSwap.DriftThroughBlocks | src/wmbus/mode_c.rs:150-183 | a changed length byte, carried on through the data blocks of a Type A frame as one Type B message, never ends in the remainder of a valid CRC, for every frame length |
| TypeSwap.NotBothTypes | src/wmbus/mode_c.rs:128-225 | so the bytes of a valid Type A frame with another length byte are never a valid Type B frame of the same length |
| FrameDecoding.IoBuffer.Write | src/util/iobuffer.rs:149-157 | a write appends everything or, beyond the capacity limit, nothing |
| FrameDecoding.IoBuffer.Consume | src/util/iobuffer.rs:172-186 | the returned bytes followed by the remaining ones are the old content, with the counter in step |
| FrameDecoding.IoBuffer.ConsumeExact | src/util/iobuffer.rs:191-203 | takes exactly `count` bytes or leaves the buffer alone |
| FrameDecoding.FrameDecoder.AddBytes | src/wmbus/frame_decode.rs:130-137 | the new bytes join the buffer or the decoder reports the error and stays as it was |
| FrameDecoding.FrameDecoder.DetermineFrameSize | src/wmbus/frame_decode.rs:191-206 | the size comes from the first two bytes; a bad header clears the whole buffer |
| FrameDecoding.FrameDecoder.ProcessFrame | src/wmbus/frame_decode.rs:210-259 | outcome, frame type and every counter after one frame |
| FrameDecoding.FrameDecoder.TryDecodeFrame | src/wmbus/frame_decode.rs:140-188 | one step of the decoder: buffer, remembered size, statistics and result together |
| Chunking.DrainedIsWalk | src/wmbus/frame_decode.rs:140-188 | calling the stateful decoder until it wants more bytes is the same as one stateless walk over the buffer |
| Chunking.WalkInTwo | src/wmbus/frame_decode.rs:140-206 | walking a prefix and then its leftover with the rest is walking the whole |
| Chunking.ChunkingDoesNotMatter | src/wmbus/frame_decode.rs:130-259 | any two ways of cutting a stream into chunks give the same frames and errors, leftover bytes, statistics and state, if no bytes are discarded behind a bad header |
| Chunking.ChunkingIndependentIff | src/wmbus/frame_decode.rs:191-206 | for a stream within the buffer limit, that is the case if and only if no bytes are discarded behind a bad header |
| Chunking.DecoderDeliversStream | src/wmbus/frame_decode.rs:130-259 | a stream of well-formed frames comes out as exactly those frames in order, however it is cut: each with the L, C, manufacturer, address, version, type, CI, payload, last CRC and encryption flag written from what was sent; and the statistics count them by kind |
| Chunking.StreamDeliveredIff | src/wmbus/frame_decode.rs:130-259 | a stream of frames meters can send comes out as exactly those frames, however it is cut, if and only if each of them announces its true length |
| Chunking.DeliveredIffWellFormed | src/wmbus/frame_decode.rs:210-259 | a frame a meter can send is delivered if and only if its announced boundary is right; otherwise the decoder first reports a CRC mismatch that quotes the two bytes before that boundary |
| Chunking.BadHeaderDiscards | src/wmbus/frame_decode.rs:140-206 | without a sync byte in the first two bytes everything buffered is dropped with an error; behind a complete frame whose first byte is not 0xCD or 0x3D everything is dropped in silence and one header error counted |
| Chunking.RefusedIff | src/wmbus/frame_decode.rs:130-137 | bytes are refused if and only if more than 10,485,760 would be buffered, and then the decoder is as before |
| DamagedStreams.DamageCostsOneFrame | src/wmbus/frame_decode.rs:130-259 | of a stream in which any frames are hit by bursts of at most 16 bits behind their length byte, every other frame arrives as sent and each damaged one is reported in its place, however the stream is cut; the statistics say how many of each |
| StreamErrors.DeliversFirst | src/wmbus/frame_decode.rs:140-188 | the front of a stream delivers a frame in the sense of the next rows if and only if the first thing the decoder returns is a frame |
| StreamErrors.SameBoundaryRejected | src/wmbus/frame_decode.rs:140-206 | a burst of at most 16 bits in the front frame that leaves its boundary in place is noticed |
| StreamErrors.TypeAAlwaysRejected | src/wmbus/frame_decode.rs:140-206 | with a Type A frame in front and its type byte spared, a burst that changes the frame is always noticed, also where it changes the announced length |
| StreamErrors.TypeBAnotherFrameIff | src/wmbus/frame_decode.rs:140-206 | with a Type B frame in front and its type byte spared, another frame is delivered if and only if the length byte has changed, at least 13 bytes and as many as announced are there, and the CRC holds up to the new end |
| StreamErrors.AnotherFrameIff | src/wmbus/frame_decode.rs:140-206 | for any burst that changes the front frame, another one is delivered if and only if the boundary has moved, the frame up to there is present with its CRCs right, and it is not Type A in place of Type A |
| StreamErrors.TwoBitsMoveBoundary | src/wmbus/frame_decode.rs:140-206 | for every header, two flipped bits turn a delivered Type B frame of 13 bytes, with the right two bytes after it, into a delivered one of 15, and back |
| StreamErrors.TypeHitMovesBoundary | src/wmbus/frame_decode.rs:140-206 | for every header, a burst over type and length byte turns a delivered Type A frame of 13 bytes into a delivered Type B frame of 15, and back |
| CompactCache.CompactFrameCache.Insert | src/wmbus/compact_cache.rs:138-160 | map, queue and statistics after an insertion, including which entry is evicted |
| CompactCache.CompactFrameCache.Get | src/wmbus/compact_cache.rs:174-199 | the entry as touched by this lookup, moved to the back of the queue; a miss changes only the statistics |
| CompactCache.CompactFrameCache.Remove | src/wmbus/compact_cache.rs:211-220 | the entry leaves map and queue |
| CompactCache.CompactFrameCache.Clear | src/wmbus/compact_cache.rs:223-227 | map and queue become empty |
| CompactCache.CompactFrameCache.RemoveStale | src/wmbus/compact_cache.rs:260-283 | exactly the entries older than the limit leave map and queue, in whatever order they are taken |
| CacheRuns.RunGood | src/wmbus/compact_cache.rs:138-283 | in every reachable cache the queue lists the map's keys without repetition, the size is within capacity (one if configured as zero), and hits plus misses are the lookups |
| CacheRuns.ZeroSizeHoldsOne | src/wmbus/compact_cache.rs:138-160 | with configured size zero the first insertion leaves one entry |
| CacheRuns.WithinMaximumIff | src/wmbus/compact_cache.rs:138-283 | the size stays within the configured maximum in every run if and only if that is at least one |
| CacheRuns.Inclusion | src/wmbus/compact_cache.rs:138-283 | the same trace at sizes k <= l: the small cache's contents are always part of the large one's, its queue is the large queue restricted to its keys, and the gap is at most the difference in capacity |
| CacheRuns.LargerCacheIsBetter | src/wmbus/compact_cache.rs:138-283 | hence subsequence, submap with equal infos, no fewer hits and no more misses at the larger size |
| CacheRuns.QueueIsRecencyOrder | src/wmbus/compact_cache.rs:138-207 | the queue is in order of last insertion or hit, at every point of every trace |
| CacheRuns.EvictsLeastRecent | src/wmbus/compact_cache.rs:138-160 | the evicted key is the one whose last insertion or hit is longest ago |
| CacheReference.CacheIsTransparent | src/wmbus/compact_cache.rs:174-199 | a cached entry is the info inserted last under its key, with the number of lookups since added to its access count and the time of the last of them, at any cache size |
| CacheReference.HitReturnsCurrentInfo | src/wmbus/compact_cache.rs:174-283 | after any run a lookup returns that info, this lookup included, if and only if the key is held, else nothing; a removal says whether the key was held; a sweep counts the keys that went |
| CacheReference.HoldsExactly | src/wmbus/compact_cache.rs:138-283 | after any run the keys held are those that the trace calls for: inserted, and since then neither removed, cleared, older than the limit at a sweep, nor the least recently named key when a new one came to a full cache |
| CacheReference.StatisticsAreCounts | src/wmbus/compact_cache.rs:138-199 | insertions, lookups, hits, misses and evictions are those of the trace |
| Checksum.CalculateChecksumNeon | src/mbus/simd.rs:119-200 | the 64-byte, 16-byte and tail loops return the wrapping byte sum for every length |
| Checksum.CalculateChecksumSse2 | src/mbus/simd.rs:205-241 | so do the SSE2 loop and its horizontal sum |
| Checksum.CalculateChecksumAvx2 | src/mbus/simd.rs:246-303 | and the AVX2 loop with its combination of halves |
| Checksum.CalculateChecksumOptimized | src/mbus/simd.rs:89-108 | whatever the processor offers, the scalar checksum |
| Checksum.ScalarIsSum | src/mbus/simd.rs:112-114 | the wrapping fold is the byte sum modulo 256 |
| ChecksumRange.NoOverflow | src/mbus/simd.rs:119-303 | up to 16,843,009 bytes every lane and the 32-bit sum over the lanes are exact |
| ChecksumRange.Sse2SumOverflowsIff | src/mbus/simd.rs:212-234 | some input of n bytes overflows the 32-bit sum over the SSE2 lanes if and only if its whole 16-byte chunks exceed 16,843,009 bytes, first at n = 16,843,024 |
| ChecksumRange.Avx2SumOverflowsIff | src/mbus/simd.rs:253-295 | the same for the AVX2 lanes and 32-byte chunks, first at n = 16,843,040 |
| ChecksumRange.Lane4WrapsIff | src/mbus/simd.rs:127-234 | some input of n bytes wraps a single NEON or SSE2 lane if and only if the whole chunks exceed four times as much |
| ChecksumRange.Lane8WrapsIff | src/mbus/simd.rs:253-295 | and an AVX2 lane if and only if they exceed eight times as much |
| Checksum.AccumulateNeon | src/mbus/simd.rs:122-190 | after the 64-byte and 16-byte loops lane k holds the sum of every fourth byte from k on, modulo 2^32 |
| Checksum.AccumulateSse2 | src/mbus/simd.rs:208-229 | so do the SSE2 lanes |
| Checksum.AccumulateAvx2 | src/mbus/simd.rs:249-290 | the first four AVX2 lanes do so over the first halves of all 32-byte chunks, the other four over the second |
| WiredFrame.PackFrame | src/mbus/frame.rs:192-235 | the pushed bytes are the wire form of each frame type, with length bytes and checksum |
| WiredFrame.VerifyFrame | src/mbus/frame.rs:238-247 | accepted if and only if the stored checksum is the computed one; the error carries both |
| WiredFrame.ParseOfPack | src/mbus/frame.rs:93-235 | parsing a packed frame followed by anything gives the frame and the rest back if and only if the frame is well formed |
| WiredFrame.PackOfParse | src/mbus/frame.rs:93-235 | an accepted input is what its frame packs to if and only if the checksum verifies and the length byte of a long frame is at least 3 |
| WiredFrame.Layout | src/mbus/frame.rs:192-235 | the octets of each packed frame by position; the length byte is the data length plus three, at most 255, and the checksum the sum of control, address, CI and data modulo 256 |
| WiredFrame.CutFrame | src/mbus/frame.rs:93-188 | a frame cut at any point is rejected, as the end of the input or, inside its data, as too few bytes |
| WiredFrame.WrongByte | src/mbus/frame.rs:93-188 | a wrong start, stop or repeated length byte is rejected as such, whatever follows |
| WiredReceive.FillExact | src/mbus/transport.rs:61-71 | however reads are fragmented, the buffer gets exactly the next bytes, or the stream ends |
| WiredReceive.RecvFrameSingleAttempt | src/mbus/serial.rs:443-490 | result and bytes taken depend on the stream only, not on how it arrives |
| WiredReceive.StreamRoundTrip | src/mbus/serial.rs:443-490 | repeated receives over concatenated packed frames return exactly those frames and leave the rest |
| WiredReceive.PrefixFree | src/mbus/frame.rs:192-235 | no packed frame is a prefix of a different one |
| WiredReceive.UniquelyDecodable | src/mbus/frame.rs:192-235 | two lists of well-formed frames with the same bytes are the same list |
| WiredReceive.ReceivedRepacks | src/mbus/serial.rs:443-490 | a received frame repacks to the bytes taken if and only if its checksum verifies |
| WiredReceive.Disturbed | src/mbus/serial.rs:443-490 | a byte that starts no frame is dropped alone, a frame with a wrong stop byte is taken whole, and a frame that breaks off leaves nothing, each with its own error |
| Records.ReadChain | src/payload/record.rs:323-441 | the extension loop takes bytes up to the first without extension bit, at most ten |
| Records.ParseVariableRecordInner | src/payload/record.rs:323-441 | header fields and remaining input, each rejection, and the panic on oversized data |
| Records.ParseVariableRecordConsumed | src/payload/record.rs:287-316 | record and consumed count, each rejection, and the panics |
| RecordEncoding.ParseOfEncode | src/payload/record.rs:287-441 | an encoded record (fillers, DIF, DIFEs, VIF, text, VIFEs, length byte, data) parses to its contents and consumes exactly its encoding, whatever follows |
| RecordEncoding.ParsedIsEncoding | src/payload/record.rs:287-441 | conversely all accepted bytes are the encoding of the returned record, except a VIFE chain cut off by the end of the input; DIFs that take the whole rest apart |
| RecordStandard.DataLengthIs | src/payload/record.rs:476-496 | the data length by the lower half of the DIF: 1 to 4 that many bytes, 9 to C two digits a byte for 2 to 8 digits, 5 and E six, 6 and F eight, 0, 7 and 8 none, D by a length byte |
| RecordStandard.WellFormedIs | src/payload/record.rs:287-441 | the records of the encoder in numbers: extension bytes of 128 and above up to ten, text of at most 16 bytes after VIF 7C or FC, the data length of the DIF or of a length byte below F0 |
| RecordStandard.EncodingIs | src/payload/record.rs:323-441 | their encoding: fillers 2F, DIF, DIFEs, VIF, text after its length, VIFEs, length byte, data |
| RecordStandard.ReversedAt | src/payload/record.rs:400-417 | the text of a VIF is delivered last byte first |
| RecordStandard.ShortRecord | src/payload/record.rs:287-316 | for every DIF and VIF without extension, except plain text and DIFs of variable length or that take the rest: which bytes are the data, how many are consumed, and when they are too few |
| RecordStandard.LongRecord | src/payload/record.rs:287-316 | the same for a variable-length DIF and every length byte: 00-BF that many bytes, C0-CF two each, D0-DF two each and one, E0-EF 64 more, F0-FA 1120 more, the rest unknown; beyond 256 bytes it panics |
| RecordStandard.RestRecord | src/payload/record.rs:354-371 | DIFs 0F and 1F take the whole rest, up to 256 bytes |
| RecordStandard.BadHeader | src/payload/record.rs:323-441 | a header that breaks off, and a text length over 16 or beyond the input, are rejected |
| RecordStandard.FillerSkipped | src/payload/record.rs:354-356 | one more idle filler in front changes nothing but the number of bytes consumed |
| RecordStandard.FixedIs | src/payload/record.rs:191-280 | the fixed-record fallback accepts exactly 16 to 256 bytes with an eight-digit number, a manufacturer code between 0421 and 6B5A, a medium below 128, and a status of 128 and above or eight more digits |
| RecordWalk.ProcessData | src/mbus/mbus_protocol.rs:357-415 | the loop is the walk, every iteration strictly shortens the rest, and the safety break is dead |
| RecordWalk.ParseConsumes | src/payload/record.rs:287-316 | an accepted record consumes at least one byte and at most all |
| RecordWalk.ValidateRecords | src/mbus/mbus_protocol.rs:483-512 | accepted if and only if no record has VIF 0xFF or more than 255 data bytes |
| RecordPanics.ParsePanicsIff | src/payload/record.rs:287-441 | parsing one record panics if and only if it takes the whole rest and that exceeds 256 bytes, or is of variable length with its length byte missing or 0xF0 to 0xFA with as many bytes present |
| RecordPanics.HeaderThenPanicsIff | src/payload/record.rs:287-316 | behind any well-formed variable-length header it panics if and only if nothing follows, or such a length byte with its bytes |
| RecordPanics.VariableLengthPanics | src/payload/record.rs:287-316 | 0x0D 0x13 panics, and 0x0D 0x13 0xF0 before at least 1120 bytes |
| RecordPanics.FixedPanicsIff | src/payload/record.rs:191-280 | the fixed-record fallback panics if and only if more than 256 bytes are left and their first 16 are accepted |
| RecordPanics.ProcessPanicsIff | src/mbus/mbus_protocol.rs:357-415 | processing a payload panics if and only if the walk comes to a position with one of these |
| RecordPanics.TwoBytesPanic | src/mbus/mbus_protocol.rs:357-415 | the payload 0x0D 0x13 panics |
| RecordPanics.FixedFallbackPanics | src/mbus/mbus_protocol.rs:357-415 | ten given bytes before at least 247 others panic in the fallback |
| PayloadWalk.ProcessOfEncoded | src/mbus/mbus_protocol.rs:357-415 | over any concatenation of encoded records, ended by fillers, by a record that takes the rest or by a variable-length record that breaks off, the walk returns exactly those records in order at exact offsets, or fails or panics exactly for the stated causes |
| PayloadWalk.WalkPlacement | src/mbus/mbus_protocol.rs:357-415 | for any payload at all the records are disjoint, in order and in range, each parses the same with nothing after it, and at no position between them could either parser have started |
| DeviceManagement.DeviceManager.AppendEvents | metermon-rs/src/devices.rs:220-241 | inserting one by one under fresh keys appends and overwrites nothing |
| DeviceManagement.DeviceManager.RecordFrame | metermon-rs/src/devices.rs:243-344 | the whole store after one frame, and whether it was attributed |
| DeviceManagement.DeviceManager.CheckSilence | metermon-rs/src/devices.rs:406-439 | collecting, rewriting and reporting row by row silences exactly the overdue devices, with one event each in key order |
| DeviceManagement.DeviceManager.PruneGhosts | metermon-rs/src/devices.rs:356-393 | removing key by key takes out the ghosts and their events and counts both |
| DeviceManagement.DeviceManager.RecordDiscovery | metermon-rs/src/devices.rs:398-403 | one global event is appended |
| DeviceManagement.DeviceManager.ImportDump | metermon-rs/src/devices.rs:509-588 | all devices merged and all events appended, or nothing and an error |
| EventReplay.LogDeterminesDevice | metermon-rs/src/devices.rs:220-344 | in every run without imports, replaying a device's log gives existence, first-seen time, silence, last reading and sample count as stored |
| EventReplay.DeviceHistory | metermon-rs/src/devices.rs:220-344 | `first_seen` once and first; `silent` and `resumed` alternate and end in the stored flag; readings change each time and end in the stored one; samples = frames_total / sample_every |
| EventReplay.RunIsHealthy | metermon-rs/src/devices.rs:243-393 | without imports every device has a valid frame, total = ok + fail, and pruning changes nothing |
| DeviceFold.TableIsFoldOfCalls | metermon-rs/src/devices.rs:243-344 | without imports the table holds for every meter exactly the record its own frames and the silence checks call for, and unattributed frames are the failed ones of unknown meters |
| DeviceFold.LogIsFoldOfCalls | metermon-rs/src/devices.rs:243-439 | without imports the log of every meter is, event for event with time and content, what its frames, the silence checks and the sweeps call for: first sight, a newly available key, the end and the beginning of silence, new readings, and a sample of every so many frames |
| DeviceAccounts.FramesConserved | metermon-rs/src/devices.rs:243-393 | in every run, imports and pruning included: device totals + unattributed + pruned = recorded + imported |
| DeviceAccounts.EventsOnlyGrow | metermon-rs/src/devices.rs:220-241 | no call but pruning removes, moves or overwrites an event |
| DeviceAccounts.PruneRemovesExactlyGhosts | metermon-rs/src/devices.rs:356-393 | in every reachable store pruning removes the ghosts with their logs and leaves every other device and log as it was |
| DeviceAccounts.ImportsOnce | metermon-rs/src/devices.rs:509-588 | at most one import succeeds, and it is the first |
| ImportEffects.ImportUnites | metermon-rs/src/devices.rs:509-588 | after the first import, for any store and dump, each meter has the sums of the counters of its stored and dumped records, their latest last-seen and earliest nonzero first-seen time, and their first non-empty names; all else comes from the stored device or else its first row; meters not dumped are unchanged; the events are appended in order |
| WindowedCounting.WindowedCounter.CleanupOldWindows | src/instrumentation/stats.rs:120-130 | the retain loop and the drain |
| WindowedCounting.WindowedCounter.Increment | src/instrumentation/stats.rs:88-100 | the last window grows if it is young enough, otherwise a new one opens |
| WindowedCounting.WindowedCounter.GetTotal | src/instrumentation/stats.rs:132-134 | the sum of all window counts |
| WindowedCounting.TotalIsSandwiched | src/instrumentation/stats.rs:79-134 | right after any call the total is at least the number of events at most (max - 1) windows old and at most the number less than max windows old, over every run |
| WindowedCounting.RunNeverDrains | src/instrumentation/stats.rs:120-130 | window starts stay one duration apart and the drain never removes one |
| WindowedCounting.DegenerateCountsOne | src/instrumentation/stats.rs:88-130 | with a zero duration or zero windows the counter only ever holds the last event |
| Throttling.LogThrottle.Allow | src/util/logging.rs:79-90 | reset on expiry, wrapping count, and the answer |
| Throttling.AllowedIff | src/util/logging.rs:79-90 | after any history a call is allowed if and only if the number of calls in its window, modulo 2^32, is within the cap; a window ends when more than its whole milliseconds have passed |
| Throttling.AtMostTwiceTheCap | src/util/logging.rs:79-90 | after any history, calls within one window length let through at most twice the cap, if the counter does not wrap in them or fewer than cap calls come after the wrap |
| Throttling.BoundedForIff | src/util/logging.rs:79-90 | from a new throttle that bound holds for every history of at most n calls if and only if n < 2^32 + cap |
| Throttling.OneTooMany | src/util/logging.rs:79-90 | 2^32 + cap calls at one instant let 2 * cap + 1 through |
| Throttling.TwiceTheCapIsReached | src/util/logging.rs:79-90 | twice the cap does get through, within a millisecond |
| Throttling.WrappedCallIsAllowed | src/util/logging.rs:79-90 | after 2^32 - 1 calls in one window the next is allowed, whatever the cap, even zero |
| Throttling.FewCallsNeverWrap | src/util/logging.rs:79-90 | fewer than 2^32 calls never wrap it |
| Throttling.ThrottleManager.AllowCategory | src/util/logging.rs:138-145 | a throttle is made on a category's first call, and only that category's throttle moves |
| Throttling.CategoryIsOneThrottle | src/util/logging.rs:138-145 | per category the manager is one throttle with the first call's parameters, whatever other categories do |
| Throttling.CategoryAtMostTwiceTheCap | src/util/logging.rs:138-145 | hence the bound per category, with the first call's window and cap and the same condition on its counter |
| Throttling.CategoryBoundedForIff | src/util/logging.rs:138-145 | per category the bound holds for every history with at most n calls of that category, whatever comes between, if and only if n < 2^32 + cap |
| Sweeping.BitOfStream | metermon-rs/src/sweep.rs:22-25 | every bit read is in range and gives the stream's bit at that position |
| Sweeping.ByteAt | metermon-rs/src/sweep.rs:27-34 | the assembled byte has exactly the eight bits of the stream from any bit offset |
| Sweeping.RollFindsSync | metermon-rs/src/sweep.rs:50-54 | the rolling accumulator equals the sync value if and only if the last 24 bits are 54 3D 54 |
| SweepSearch.AnalyzeCt | metermon-rs/src/sweep.rs:44-80 | the rolling search returns the same frames as looking at every bit position afresh, first occurrences in order |
| SweepSearch.FramesReturned | metermon-rs/src/sweep.rs:44-80 | a frame is returned if and only if it stands behind a sync word at some bit position, with at least 13 whole bytes and an accepted decode; each once |
| SweepSearch.DistinctOrder | metermon-rs/src/sweep.rs:44-80 | the result lists first occurrences in increasing position |
| SweepSearch.CountModeBursts | metermon-rs/src/sweep.rs:97-117 | counts exactly the positions where a repeated bit ends 16 or more alternating ones and the burst scores at least 0.90; none below 400 bits |
| SweepSearch.BurstsAre | metermon-rs/src/sweep.rs:97-117 | a position is counted if and only if the capture has 400 bits, its bit repeats the one before, the 16 before it alternate, and the burst there scores 0.90 |
| SweepSearch.TypeAFrameIff | metermon-rs/src/sweep.rs:54-78 | a Type A frame at any bit position is taken from it if and only if it has at most 64 bytes, whatever surrounds it; less its last two bytes where its announced length leaves them out |
| SweepSearch.TypeBFrameIff | metermon-rs/src/sweep.rs:54-78 | a Type B frame at any bit position is taken from it if and only if it has at most 64 bytes and the rest of the window is less than two bytes or ends in its own CRC |
| SweepSearch.TypeAFrameIsRecovered | metermon-rs/src/sweep.rs:44-80 | so a Type A frame of at most 64 bytes behind a sync word is among the frames returned |
| SweepSearch.TypeBFrameIsRecovered | metermon-rs/src/sweep.rs:44-80 | and a Type B frame of at most 64 bytes if the capture or the window ends with it or one byte later |
| SweepSearch.TypeBFrameIsLost | metermon-rs/src/sweep.rs:44-80 | of a capture that holds the sync word, a correct 13-byte Type B frame and two zero bytes nothing is returned |
| IrqStats.NextKeepsMin | examples/pio_irq_demo.rs:85-97 | one step of any call keeps the minimum register below every finished latency, and never raises it once set |
| IrqStats.NextKeepsMax | examples/pio_irq_demo.rs:99-111 | likewise for the maximum, which never falls |
| IrqStats.MinNeverIncreases | examples/pio_irq_demo.rs:85-97 | between any two points of any interleaving with positive latencies |
| IrqStats.FinalValues | examples/pio_irq_demo.rs:72-112 | when all calls have finished: total = valid + filtered = number of calls, the latency sum, the maximum, and for positive latencies the minimum |
| IrqStats.MinimumIsRightIff | examples/pio_irq_demo.rs:85-97 | the minimum is right at the end of every interleaving if and only if no latency is zero or all are |
| IrqStats.ZeroIsForgotten | examples/pio_irq_demo.rs:85-97 | latencies 0 and then 5 leave a minimum of 5 |
| SearchPatterns.WildcardSearchManager.GeneratePatternsRecursive | src/mbus/secondary_addressing.rs:186-234 | the shared array is restored on return and the output extends by the search tree's patterns in order |
| SearchPatterns.WildcardSearchManager.GenerateSearchPatterns | src/mbus/secondary_addressing.rs:174-184 | the search starts from eight bytes 0x0F and leaves nothing else behind than the emitted list |
| SearchPatterns.WildcardSearchManager.WithMaxDepth | src/mbus/secondary_addressing.rs:158-162 | the depth is capped at 8 |
| SearchPatterns.EmittedAreAssigned | src/mbus/secondary_addressing.rs:186-234 | one pattern per nibble string of bounded length, in the order of the strings |
| SearchPatterns.StringsAscend | src/mbus/secondary_addressing.rs:186-234 | and that order is strictly lexicographic, a string before those it begins |
| SearchPatterns.StringsAreAll | src/mbus/secondary_addressing.rs:186-234 | with every string of at most d nibbles and no other |
| SearchPatterns.PatternCount | src/mbus/secondary_addressing.rs:174-184 | (16^(d+1) - 1) / 15 patterns at depth d |
| SearchPatterns.PatternAt | src/mbus/secondary_addressing.rs:174-234 | each pattern has its string's nibbles first, two a byte and the upper one first, and those of bytes 0x0F everywhere else |
| SearchPatterns.LeavesAreAllAssignments | src/mbus/secondary_addressing.rs:174-234 | the leaves list every assignment of the first d nibbles exactly once |
| SearchPatterns.EveryPatternIsALeaf | src/mbus/secondary_addressing.rs:174-234 | every emitted pattern equals one of the leaves |
| SearchPatterns.DistinctPatternCount | src/mbus/secondary_addressing.rs:174-234 | exactly 16^d different patterns are emitted at depth d |

## Left out

- Radio, SPI, serial ports, MQTT, files, the embedded store's own I/O, async scheduling and timeouts. A store transaction is one atomic change; clock readings are parameters; a transport is a stream that delivers any number of its next bytes per read.
- Logging, mutexes, and errors of JSON encoding and decoding in the store. Event details are structured values in place of formatted text.
- The table of device type names (`device_type_name`): the name comes with the frame.
- The store's key table (`store_key`, `remove_key`, `load_keys`), reports and read-only opening.
- Widths of counters: frame counts, event ids, byte counters and statistics are unbounded, except the throttle's count, the checksum lanes and all CRC and header arithmetic, which wrap as in the source.
- Values, units, strings and time stamps derived from raw record bytes, and the normalisation of non-finite values.
- `parse_fixed_record` beyond acceptance: only whether it accepts, rejects or panics matters to the walk, which then advances three bytes.
- Vendor hooks other than the block tolerance; the tolerance is an arbitrary function.
- `WMBusFrame::verify_crc`, which never reads the stored CRC.
- `reset` of decoder and throttle, `append_from`, `split_at`, pattern search and statistics of the buffer.
- Persistence, signature generation and hit rate of the cache; its clock is a parameter.
- The two burst scorers of the sweep and the receiver: the scorer is an arbitrary function to the reals.
- Rates (floating point) of the windowed counter; the multiplication of duration and window number is unbounded.
- `src/wmbus/crypto_hardware.rs`, the wildcard discovery loop, collision and baud statistics, VIF and unit tables, CLI and configuration: finite tables, stubs or I/O.
- Throttling.LogThrottle.Allow: the counter wraps, as in a release build; in a build with overflow checks the call that would wrap it panics instead, which is the 2^32nd in one window.
- Checksum.CalculateChecksumSse2: sums wrap, as in a release build; in a build with overflow checks the 32-bit sum over the lanes panics instead where it overflows, which ChecksumRange.Sse2SumOverflowsIff says when it can.
- Checksum.CalculateChecksumAvx2: the same, with ChecksumRange.Avx2SumOverflowsIff.
- Checksum.CalculateChecksumOptimized: the same on the paths through those two.
- RecordEncoding.ParsedIsEncoding: says nothing of a DIF that takes the whole rest, because there the record is the rest itself.
- IrqStats.FinalValues: relaxed memory is modelled by letting reads return any past value of the register; a call is a sequence of atomic steps.
