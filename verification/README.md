# A model of extract-amr

The program turns captured RTP datagrams that carry AMR or AMR-WB speech (RFC 4867) into AMR storage files. This
project models its parsing, its per-flow timeline, its discovery and selection of flows, its routing and reporting, and
its output transaction, and proves what they promise. `dafny verify dfyconfig.toml` checks everything.

The parts follow the program's own.

- `Models`, `CodecTables`: the records and the codec tables.
- `Bits`, `BitBuffers`: bit sequences, and the integer bit buffer that refines them.
- `Rfc4867`, `Refusals`, `Depacketizer`: both payload formats as functions beside the encoders they invert, what each
  refusal says of the payload, and the parsing loops.
- `Storage`, `StoredRuns`: the storage format, its writer, and a reader to compare it with.
- `Timeline`: the per-flow timeline as a state machine on values. `Run` is a sequence of pushes, `Complete` the run
  followed by finish.
- `Buffering`, `Runs`, `Emitting`, `Windows`, `Histories`, `Capacity`, `Wraps`, `Grids`, `Accounts`, `Reception`,
  `Reordering`, `ReorderWindows`, `FullHistories`: what every run of that machine keeps, drops, releases, emits and
  counts, and how wide its window and its history are.
- `TimelineNormalizers`, `TimelineRouters`: the objects, each method tied to the state machine, so that everything
  proved about runs holds of them.
- `Delivery`, `SentHistories`, `FirstArrivals`, `EndToEnd`, `Filling`, `Speaking`: a sender's packets, what a network may
  do to them, and the restored speech.
- `Rtcp`, `Rtp`: the compound-packet grammar and the RTP header, parsed and serialized.
- `Selectors`, `Discovery`, `Findings`, `Ranking`, `Shuffling`, `Rearranging`, `Selection`, `Ambiguity`, `SecondPass`:
  what a selector lets through, discovery's bounded pass, what its evidence means, the decision made from it, and when
  the evidence cannot decide.
- `FlowStates`, `Extraction`, `Notices`, `Pipeline`: routing datagrams to flows, writing frames, reporting.
- `Captures`, `Automatic`, `Discovered`: extraction of a sender's speech from the wire, and of a flow that discovery has
  to find.
- `FileSystems`, `Transaction`, `Replacing`: output files that are replaced all together or not at all, on a file
  system whose every operation may fail.
- `OutputFiles`: from the capture to the installed file.
- `Maps`, `IntKeys`, `Retention`: maps less one key, sets and maps over integers, and bounded diagnostics.

Exceptions are result values. A packet on the malformed exit still leaves its identity in the history, so that exit is
a state change and an outcome. Timestamps are unbounded integers and may be negative.

Where the code and its promises part ways, the model follows the code.

- Extension of a wrapped value is ambiguous at exactly half a cycle (`Wraps.ExtendExactly` says which way it goes), so
  the recovery results ask for less than half a cycle.
- The late counter counts packets; `Accounts.LateFramesRest` accounts for the frames.
- A full history does not drain by itself (`Histories.OverflowIsPermanent`).
- A malformed packet counts again with every copy once its time is committed (`Reception.MalformedAgain`).
- An RTP packet can be dropped as RTCP (`Rtp.LookalikeLost`); `Rtp.ParseIff` says exactly when, and
  `Rtp.PlainRecordParses` names the payload types to avoid.
- Asking whether an output exists reads an error as absence. When such an error is followed by a failed install, the
  rollback loses the original (`Transaction.MissedOutputLost`); `Transaction.OutputTransaction.Commit` says that this is
  the only way: a rolled back commit leaves every output as it was if and only if no output was installed over an
  original that went unnoticed.
- A payload can read in several formats. `Ambiguity.SeveralIff` says exactly when: in both codecs if it is nothing but
  NO_DATA, in both modes if it is octet-aligned with the length and the zero tail of one bandwidth-efficient frame
  (`Ambiguity.NoDataReadsAsEither` and `Ambiguity.QuietFrameReadsInBothModes` give one of each). Selection reports it as
  ambiguity, and `Ambiguity.FlowResolvedIff` says for which samples.

## Model

| member | source | states |
|---|---|---|
| CodecTables.TablesAgree | extract_amr/codec.py:33-89 | for both codecs the frame types the parsers accept are exactly those with a bit count, so neither half of the type check is ever decisive alone |
| CodecTables.SpeechCarriesRate | extract_amr/codec.py:33-89 | the speech bits of every mode, times 50 frames a second, are the codec's bit rates, 4750 to 12200 for AMR and 6600 to 23850 for AMR-WB, and grow with the mode |
| CodecTables.OtherTypes | extract_amr/codec.py:33-89 | comfort noise is 39 bits in AMR and 40 in AMR-WB, NO_DATA and SPEECH_LOST carry no bits, and every other type is reserved |
| CodecTables.StepIsFrame | extract_amr/codec.py:33-89 | a timestamp step is one fiftieth of a second at the codec's sampling rate |
| CodecTables.HeaderIsText | extract_amr/codec.py:33-89 | the storage headers are the ASCII texts "#!AMR" and "#!AMR-WB" with a line feed |
| BitBuffers.RepresentsContents | extract_amr/bits.py:108-120 | a buffer made of an integer and a length stands for exactly one bit sequence, and the integer stays below two to the length |
| BitBuffers.BufferOf | extract_amr/bits.py:113-120 | the loop that shifts bits in builds the buffer of exactly those bits |
| BitBuffers.FromBytesIsPrefix | extract_amr/bits.py:129-139 | reading bytes with a bit length gives the leading bits of the bytes, most significant first |
| BitBuffers.FromBytesRefusal | extract_amr/bits.py:75-81 | reading bytes is refused exactly when the bit length is negative or exceeds the available bits |
| BitBuffers.AtIsIndexing | extract_amr/bits.py:91-96 | indexing, negative indices included, is sequence indexing, and is refused exactly out of range |
| BitBuffers.SliceIsSlicing | extract_amr/bits.py:99-105 | slicing by shift and mask is sequence slicing with clamped bounds |
| BitBuffers.BoundMeans | extract_amr/bits.py:99-105 | a bound cuts at its place in the sequence, counted from the end if negative, and an absent one at that end |
| BitBuffers.SliceRefusal | extract_amr/bits.py:99-105 | a slice is refused if and only if its step is not one |
| BitBuffers.ConcatIsConcatenation | extract_amr/bits.py:170-173 | concatenation by shift and or is sequence concatenation |
| BitBuffers.ToBytesIsPack | extract_amr/bits.py:183-188 | serializing gives the bits packed into bytes with a zero tail of at most seven bits |
| BitBuffers.BytesRoundTrip | extract_amr/bits.py:129-188 | reading the serialized bytes of a buffer at its own length gives the buffer back |
| Rfc4867.ParseUndoesEncode | extract_amr/rfc4867.py:136-294 | either parser applied to the encoding of any non-empty list of valid frames, behind any mode request, returns exactly those frames |
| Rfc4867.AcceptedIffEncoding | extract_amr/rfc4867.py:136-294 | a payload is accepted with given frames if and only if it is, byte for byte, the encoding of those frames behind its own first four bits (sections 4.3 and 4.4 of RFC 4867) |
| Rfc4867.EncodeModeRequest | extract_amr/rfc4867.py:136-294 | an encoding is never empty and its four mode-request bits can be read back |
| Rfc4867.EncodeInjective | extract_amr/rfc4867.py:136-294 | different mode requests or frame lists never share an encoding, in either format |
| Rfc4867.ModesAgree | extract_amr/rfc4867.py:136-294 | the two wire formats of one frame list parse to identical frames, timestamps included |
| Rfc4867.DepacketizeIff | extract_amr/rfc4867.py:297-330 | depacketizing succeeds with given frames if and only if the payload encodes bodies whose packed, step-spaced frames those are |
| Refusals.EfficientRefusal | extract_amr/rfc4867.py:225-294 | a bandwidth-efficient payload is refused for a reason if and only if its bits show it: fewer than six bits where an entry must follow, an unknown type, fewer speech bits than the entries announce, eight bits or more left over, or a bit set in the rest |
| Refusals.AlignedRefusal | extract_amr/rfc4867.py:136-215 | and an octet-aligned one if and only if its octets do: padding set in the mode request, an entry or the end of a frame, a missing or unknown entry, a frame cut off, or octets left over |
| Depacketizer.DepacketizeOctetAligned | extract_amr/rfc4867.py:136-215 | the octet-aligned loops compute the parser that the bijection is proved about, with the same first error |
| Depacketizer.DepacketizeBandwidthEfficient | extract_amr/rfc4867.py:225-294 | the bandwidth-efficient loops over the integer bit buffer compute the parser over plain bit sequences, with the same first error |
| Depacketizer.BitsToInt | extract_amr/rfc4867.py:218-222 | the shift-and-or loop computes the value of the bits |
| Depacketizer.DepacketizePayload | extract_amr/rfc4867.py:297-330 | dispatch by mode computes the parser for that mode |
| Depacketizer.EntryMasks | extract_amr/rfc4867.py:164-175 | the shifts and masks on a ToC octet read its F, FT, Q and padding bits |
| Depacketizer.PaddingMask | extract_amr/rfc4867.py:190-191 | the mask on the last octet tests exactly the padding bits |
| Storage.SerializeIffPacked | extract_amr/storage.py:23-61 | a frame passes all four checks if and only if it is the packing of some valid frame body |
| Storage.SerializeRefused | extract_amr/storage.py:26-53 | a frame is refused for its type if and only if its codec has no frames of that type, for its length if and only if it is not as long, in bits and bytes, as those are, and otherwise, if it packs no body, for bits set behind its last one |
| Storage.ParsedFramesPack | extract_amr/storage.py:23-61 | every frame either parser produces is such a packing |
| Storage.StorageIffStream | extract_amr/storage.py:64-83 | a reader of the storage format (section 5.3 of RFC 4867) accepts bytes with given frames if and only if the bytes are the magic header followed by those frames |
| Storage.WriteStorage | extract_amr/storage.py:64-83 | the loop writes the header and all frames, or stops at the first unwritable frame with everything before it written and its error |
| Storage.WriteErrorIff | extract_amr/storage.py:69-76 | that error is a codec mismatch if and only if the frame is of another codec, and else why serializing refuses it |
| StoredRuns.RunWritable | extract_amr/storage.py:23-61 | every frame that any run emits, received or synthetic, passes all serialization checks |
| StoredRuns.EmittedAre | extract_amr/timeline.py:183-211 | every emission is a frame that entered the buffer or, under NO_DATA only, a frame of type 15 without quality, bits, data or provenance |
| StoredRuns.StorageRecovers | extract_amr/storage.py:64-83 | from the stored bytes a reader recovers type, quality flag, bit length and data of every frame, for any number of frames |
| Wraps.ExtendExactly | extract_amr/timeline.py:29-41 | a wrapped value is extended to the true one if and only if the true one is less than half a cycle from the reference, or exactly half a cycle away and in the reference's own cycle |
| Wraps.ExtendKeepsValue | extract_amr/timeline.py:29-41 | extension keeps the value modulo the cycle, for negative references too |
| Wraps.PushTracks | extract_amr/timeline.py:252-314 | one push keeps a counter's high mark at the true one plus the offset if that counter is less than half a cycle from it, whatever the other counter does; a packet that is not accepted moves nothing, and extends to its true value plus the offset all the same |
| Wraps.CounterRecovered | extract_amr/timeline.py:252-314 | over any run in which one counter of each packet is less than half a cycle from the highest true value accepted before it, that counter of every accepted packet, and of every packet that meets a high mark, extends to its true value plus one constant whole number of cycles |
| Wraps.TimestampsRecovered | extract_amr/timeline.py:266-314 | timestamps that are near enough are recovered in this way whatever the sequence numbers do |
| Wraps.WrapsRecovered | extract_amr/timeline.py:252-314 | with both counters near, every accepted packet extends to its true sequence number and timestamp plus one constant pair of whole numbers of cycles |
| Buffering.PreferOrder | extract_amr/timeline.py:44-63 | preference is a strict weak order: irreflexive, transitive, and incomparability is transitive |
| Buffering.BestWins | extract_amr/timeline.py:164-181 | the buffer holds, at each timestamp that had a frame, the first of its most preferred frames |
| Buffering.BestIgnoresOrder | extract_amr/timeline.py:44-63 | when provenance tells frames apart, the buffered frames do not depend on arrival order |
| Buffering.InOrderSorted | extract_amr/timeline.py:213-218 | frames released together are strictly increasing in time and are exactly the buffered ones |
| Buffering.ReleaseStep | extract_amr/timeline.py:213-218 | releasing through a watermark continues the sorted sequence of everything ever buffered, leaving exactly the later part |
| Runs.CompleteIsSorting | extract_amr/timeline.py:241-331 | over any run whatever, what is released is the sorted best of the frames that were on time, emissions and gap count are a function of it, and nothing stays pending |
| Emitting.RunOutputIncreases | extract_amr/timeline.py:194-239 | all emitted timestamps of a run, under either policy, are strictly increasing |
| Emitting.RunOutputSteady | extract_amr/timeline.py:194-211 | under NO_DATA consecutive emitted timestamps differ by at most one step |
| Emitting.RunOutputCount | extract_amr/timeline.py:194-211 | a run under NO_DATA whose released frames lie on the grid emits exactly (last - first) / step + 1 frames, one at each grid point |
| Grids.AcceptedOutputCount | extract_amr/timeline.py:194-211 | that count holds whenever the accepted packets' timestamps lie on one grid |
| Grids.SentOutputCount | extract_amr/timeline.py:194-314 | and whenever the sender's true timestamps do and are near enough to be recovered |
| Emitting.RunIgnoresPolicy | extract_amr/timeline.py:241-331 | the policy changes neither states, outcomes nor released frames |
| Emitting.ErasingGivesOmit | extract_amr/timeline.py:194-239 | erasing the synthetic frames of the NO_DATA run gives the OMIT run on the same pushes, with equal gap counts, and the synthetic frames number the gaps |
| Windows.RunInWindow | extract_amr/timeline.py:316-319 | at every reachable state the pending frames are above the committed timestamp and less than reorderWindow steps below the highest one, and the committed timestamp is at least that far below it |
| ReorderWindows.RunLatest | extract_amr/timeline.py:298-313 | the highest timestamp of a run is that of the latest frame of all accepted packets |
| ReorderWindows.PendingIff | extract_amr/timeline.py:316-319 | a frame is held back exactly as long as the window lasts: a time is pending if and only if a frame of it has arrived and none that is reorderWindow steps or more later |
| ReorderWindows.ReleasedIff | extract_amr/timeline.py:316-319 | before finish exactly those times that entered the buffer are released for which a frame reorderWindow steps or more later has arrived |
| ReorderWindows.LatePacketIff | extract_amr/timeline.py:164-181 | a packet counts as late if and only if one of its frames is at or before the time of an arrived frame that is reorderWindow steps or more behind another |
| ReorderWindows.DisplacedOnTime | extract_amr/timeline.py:316-319 | a packet displaced by less than reorderWindow steps from every frame before it is never late |
| ReorderWindows.WindowFull | extract_amr/timeline.py:316-319 | of n frames that arrive one step after the other exactly the last min(n, reorderWindow) are pending |
| ReorderWindows.SentWindowFull | extract_amr/timeline.py:316-319 | and so it is for n frames that a sender sends one step after the other, in any number of packets |
| Histories.RunBounded | extract_amr/timeline.py:145-162 | the history never exceeds its limit and never holds an identity twice |
| Histories.RunCovered | extract_amr/timeline.py:145-181 | every pending frame belongs to a packet whose identity is still held |
| Histories.PendingBound | extract_amr/timeline.py:94 | pending frames never exceed the history limit times the frames of the largest retained payload |
| FullHistories.OverflowIff | extract_amr/timeline.py:271-278 | a packet overflows if and only if it is no duplicate and 4 * reorderWindow identities are held after eviction |
| FullHistories.HistoryFilled | extract_amr/timeline.py:261-293 | of different packets of one time, each of at most one frame, malformed or not, exactly the first 4 * reorderWindow are taken and every further one overflows |
| Histories.OverflowIsPermanent | extract_amr/timeline.py:261-278 | after one overflow every later push is a duplicate or an overflow, nothing more is emitted, and finish releases exactly the frames pending then |
| Histories.ReplayChangesNothing | extract_amr/timeline.py:252-319 | re-pushing an accepted record at any later state, while it extends to the same values, emits nothing and leaves buffer, high marks, committed timestamp and live history alone, whether it is still held, was evicted, or the history is full |
| Capacity.HistorySuffices | extract_amr/timeline.py:94 | for on-grid streams without a malformed payload and with at most three identities per last-frame timestamp, no push overflows the history, and at most the window stays pending |
| SentHistories.SentHistorySuffices | extract_amr/timeline.py:94 | the same from what a sender sent: readable packets on a grid, near enough to be recovered and repeated at will, at most three distinct ones ending at any timestamp |
| Accounts.RunConserved | extract_amr/timeline.py:122-131 | after any run the four exits add up to the packets; observed frames are the frames of the accepted packets; those on time are overlapped, pending or released; late packets are counted once each; kept and dropped diagnostics are late packets and overflows |
| Accounts.FinishConserved | extract_amr/timeline.py:321-331 | the same accounts balance after finish, with nothing pending |
| Accounts.LateFramesRest | extract_amr/timeline.py:164-181 | late frames and frames on time together are the observed frames |
| Accounts.NothingLate | extract_amr/timeline.py:316-319 | if every accepted packet starts less than reorderWindow steps below the highest timestamp before it, no frame is late |
| Accounts.BufferingRefinesSorting | extract_amr/timeline.py:164-218 | then the run releases the sorted best of all accepted frames |
| Reordering.CleanReleases | extract_amr/timeline.py:241-331 | a run whose timestamps are near enough to be recovered and whose accepted packets arrive in the window releases the sorted best of those packets' frames, at the sender's timestamps plus whole cycles, whatever copies it drops |
| Reordering.ArrivalOrderIsIrrelevant | extract_amr/timeline.py:241-331 | two such runs that accept the same packets, in different orders and dropping whatever copies, release the same frames, each up to its own whole number of cycles; which copy of a packet is accepted can matter by its capture alone |
| Reception.DuplicatesAreCopies | extract_amr/timeline.py:133-143 | a packet is dropped as a duplicate only if a packet with the same bytes and the same extended sequence number was accepted or malformed before: no new packet is ever lost as a copy |
| Reception.MalformedAgain | extract_amr/timeline.py:279-290 | a malformed packet that comes again at once is a duplicate if and only if its time is not committed; else every copy is malformed anew |
| Reception.RunReordered | extract_amr/timeline.py:252-297 | after any run the high mark is the highest accepted sequence number, and the packets counted as reordered are those accepted after a higher one |
| Reception.ReleasedIsBest | extract_amr/timeline.py:44-63 | every frame that arrived on time for the timestamp of a released one has no better quality, with equal quality no more speech bits, and with equal bits no earlier capture, by lower packet number, numbered before not, then by lower capture time |
| TimelineNormalizers.TimelineNormalizer.EvictCommittedPacketIdentities | extract_amr/timeline.py:145-154 | the deque keeps, in order, the entries after the committed timestamp, and the set mirrors it |
| TimelineNormalizers.TimelineNormalizer.RetainPacketIdentity | extract_amr/timeline.py:156-162 | an identity is appended if and only if fewer than the limit remain after eviction |
| TimelineNormalizers.TimelineNormalizer.AddFrames | extract_amr/timeline.py:164-181 | the loop buffers the frames on time, best per timestamp, counts overlaps, and reports lateness exactly when some frame was late |
| TimelineNormalizers.TimelineNormalizer.CommitFrame | extract_amr/timeline.py:194-211 | the frame is emitted after its gap, the gap is counted under both policies and filled under NO_DATA only |
| TimelineNormalizers.TimelineNormalizer.CommitThrough | extract_amr/timeline.py:213-218 | everything up to the watermark leaves the buffer in timestamp order and everything above stays |
| TimelineNormalizers.TimelineNormalizer.Push | extract_amr/timeline.py:241-319 | refused pushes (finished, output unread, wrong flow, in that order) change nothing; any other push makes the object the next state of the run, raises exactly on the malformed exit, and hands out exactly that step's emissions |
| TimelineNormalizers.TimelineNormalizer.Finish | extract_amr/timeline.py:321-331 | refused while output is unread; a second finish changes nothing; otherwise everything pending is handed out in order |
| TimelineNormalizers.TimelineNormalizer.Next | extract_amr/timeline.py:220-239 | each step yields the next frame and counts it, and only the step past the end allows the next push |
| TimelineNormalizers.TimelineNormalizer.Drain | extract_amr/timeline.py:220-239 | reading the iterator to its end yields exactly the frames handed out |
| TimelineNormalizers.DrainedCounters | extract_amr/timeline.py:220-239 | once finished and drained, emitted frames number the whole run's emissions and inserted NO_DATA frames the gaps |
| TimelineNormalizers.BadQualityReleased | extract_amr/timeline.py:230-234 | the bad-quality counter numbers the released frames without the quality bit, and no frame put in a gap |
| TimelineRouters.NewRouter | extract_amr/timeline.py:364-381 | a router is built if and only if no flow is selected twice, and each flow has a new timeline with the codec, mode, policy and limits of its own selection |
| TimelineRouters.TimelineRouter.Push | extract_amr/timeline.py:383-389 | a record reaches its own flow's timeline or none, that timeline takes the step, exit and raised error included, that it would take alone, and every other timeline is unchanged |
| TimelineRouters.TimelineRouter.Finish | extract_amr/timeline.py:391-400 | refused exactly while some output is unread; otherwise each flow's frames are those of a run over its own records alone |
| FirstArrivals.FirstsAccepted | extract_amr/timeline.py:241-319 | of packets delivered without copies, each near enough and in the window, every one is accepted and none is late |
| EndToEnd.CompleteErased | extract_amr/timeline.py:260-308 | copies of packets leave no trace in what a run releases and emits, as long as each arrives less than half a cycle from the high marks |
| EndToEnd.DeliveriesAgree | extract_amr/timeline.py:241-331 | two deliveries of the same packets, in any orders and with any copies, release the same frames in the same order, all moved by one whole number of cycles |
| EndToEnd.BestReleased | extract_amr/timeline.py:241-331 | for any delivery, reordered, duplicated and wrapped, with up to three packets ending at one time, what is released is the best of the frames sent for each time, in order, at the sender's timestamps plus one whole number of cycles |
| EndToEnd.TalkReleased | extract_amr/timeline.py:241-331 | when no two packets overlap, those are all the sender's frames in the sender's order |
| EndToEnd.SpeechRestored | extract_amr/api.py:484-496 | speech frames split into packets of either format, numbered modulo 2^16 and 2^32, reordered and duplicated, are stored, without gaps or with gaps omitted, as the magic header and the original frames in order, and a reader of the storage format gets them back |
| Speaking.SpokenStored | extract_amr/api.py:484-496 | under either policy, for packets that say one frame for each time, in as many packets as they like, redundant transmission included, the file is the magic header and those frames in order, with a NO_DATA frame at exactly each step left out if gaps are filled, and a reader gets them back |
| Speaking.SpeechStored | extract_amr/api.py:484-496 | in particular for speech frames split into packets sent one after the other |
| Rtcp.IsRtcp | extract_amr/rtp.py:24-58 | the loop accepts exactly what the block-by-block reading accepts |
| Rtcp.CompoundIff | extract_amr/rtp.py:24-58 | which is exactly the non-empty concatenations of valid blocks with padding in the last only (section 6.1 of RFC 3550) |
| Rtcp.SplitUnique | extract_amr/rtp.py:24-58 | a compound packet splits into blocks in one way only |
| Rtcp.ValidIffWritten | extract_amr/rtp.py:16-58 | a block is valid if and only if it is written by the layouts of sections 6.4.1 and 6.4.2 of RFC 3550, a sender report with SSRC, 20 bytes of sender information and 24 bytes for each report block, a receiver report with SSRC and report blocks, each with any whole words after them, or another packet of types 192 to 223, with its padding counted by its last byte |
| Rtcp.ReportRecognized | extract_amr/rtp.py:24-58 | every such report, alone in a datagram, is recognized, for any count of report blocks from 0 to 31 |
| Rtp.ReportIsNotRtp | extract_amr/rtp.py:79-82 | so a datagram that is a sender or receiver report never becomes an RTP record |
| Rtp.ParseRtp | extract_amr/rtp.py:75-172 | the stepwise parser computes the parser that the round trip is proved about, with the same first error |
| Rtp.ParsePartitions | extract_amr/rtp.py:75-172 | a returned record partitions the datagram into fixed header, CSRCs, extension, payload and padding |
| Rtp.ParseUndoesSerialize | extract_amr/rtp.py:75-172 | parsing undoes serializing, whatever the padding bytes, unless the bytes read as RTCP (sections 5.1 and 5.3.1 of RFC 3550) |
| Rtp.ParseIff | extract_amr/rtp.py:75-172 | a datagram parses to a record if and only if it serializes that record and does not read as RTCP |
| Rtp.MalformedIff | extract_amr/rtp.py:75-172 | an error is raised exactly for version 2 datagrams that neither read as RTCP nor serialize any record; it names a flow if and only if the fixed header is whole, and that flow is the addresses and ports of the datagram, bytes 8 to 11 and the low seven bits of byte 1 |
| Rtp.FaultsExact | extract_amr/rtp.py:83-159 | the error tells what is wrong from the bytes: the fixed header, the CSRC list, the extension header or its data is cut off, the last byte counts no padding, or more than is behind the header |
| Rtp.NetworkOrder | extract_amr/rtp.py:91-128 | two and four byte fields are the values of their bits, most significant byte first |
| Rtp.PlainRecordParses | extract_amr/rtp.py:24-30 | outside marked packets of payload types 64 to 95 a serialized record always parses back |
| Rtp.LookalikeLost | extract_amr/rtp.py:79-80 | inside them it need not: a marked packet of payload type 73 with sequence number 2 and no payload is dropped as a receiver report |
| Selectors.EmptyMatchesAll | extract_amr/models.py:119-133 | a selector with no field given lets every flow through |
| Selectors.SsrcFilters | extract_amr/models.py:119-133 | an SSRC given is a filter and one not given a wildcard |
| Selectors.SourcePortFilters | extract_amr/models.py:119-133 | a source port given is a filter and one not given a wildcard |
| Selectors.DestinationPortFilters | extract_amr/models.py:119-133 | a destination port given is a filter and one not given a wildcard |
| Selectors.SourceAddressFilters | extract_amr/models.py:119-133 | a source address given is a filter and one not given a wildcard |
| Selectors.DestinationAddressFilters | extract_amr/models.py:119-133 | a destination address given is a filter and one not given a wildcard |
| Selectors.PayloadTypeFilters | extract_amr/models.py:119-133 | a payload type given is a filter and one not given a wildcard |
| Selectors.CompleteIff | extract_amr/models.py:68-82 | a selector is complete if and only if it lets one flow through and no other |
| Selectors.PortFilterIff | extract_amr/models.py:84-89 | a port filter is a selector that minds a port and lets more than one flow through |
| Discovery.ProbePayload | extract_amr/discovery.py:56-82 | one verdict for each of the four formats, in order: a frame count exactly when the payload reads, else the reason it does not |
| Discovery.DiscoverStates | extract_amr/discovery.py:165-213 | the loop with its bounded diagnostics keeps exactly the first failures of the unbounded log and counts the rest |
| Findings.FlowView | extract_amr/discovery.py:165-213 | each candidate is what its own flow's records alone would make it, and with no candidate overflow every matching flow has one |
| Findings.CandidateNamed | extract_amr/discovery.py:165-184 | a candidate is named after its flow and the least number its packets bring: their packet numbers, and for the first one without any its position in the stream |
| Findings.FirstFlowsAdmitted | extract_amr/discovery.py:169-179 | the candidates are exactly the first maxCandidates flows seen that the selector lets through |
| Findings.OverflowCounted | extract_amr/discovery.py:169-173 | the candidate overflow is the number of records let through whose flow is no candidate |
| Findings.CandidateWeighed | extract_amr/discovery.py:193-213 | for each candidate and format successes and failures add up to the samples, the samples are the flow's first packets, and the first rejection is the reason of the first failure |
| Findings.ValidIff | extract_amr/models.py:226-230 | a format is valid if and only if each of the flow's first samples, at least one, depacketizes in it |
| Discovery.UnseenNotValid | extract_amr/models.py:226-230 | and one that no sample speaks for is not |
| Ambiguity.CodecsShareIff | extract_amr/discovery.py:56-82 | a payload that reads in one codec reads in the other, in the same mode, if and only if every frame of it is NO_DATA, and then as the same frames |
| Ambiguity.ModesShareIff | extract_amr/discovery.py:56-82 | an octet-aligned payload also reads bandwidth-efficiently in a codec if and only if it has the length of one frame, of type 1 if it holds several and of type 0 if one, and ends in zeros; it then reads as that frame |
| Ambiguity.SingleFrameModes | extract_amr/discovery.py:56-82 | an octet-aligned payload of one frame reads bandwidth-efficiently if and only if both codecs are AMR, the frame is of type 0 and its last six bits are zero |
| Ambiguity.SeveralIff | extract_amr/discovery.py:56-82 | a payload reads in several formats if and only if it is nothing but NO_DATA or looks like both modes in these ways |
| Ambiguity.NoDataReadsAsEither | extract_amr/discovery.py:56-82 | any payload of NO_DATA frames reads as either codec |
| Ambiguity.QuietFrameReadsInBothModes | extract_amr/discovery.py:56-82 | an octet-aligned AMR frame of type 0 that ends in six zero bits, in particular a silent one, reads in both modes |
| Ambiguity.FlowCodecsIff | extract_amr/discovery.py:193-213 | a flow valid in one codec is valid in the other, in the same mode, if and only if its samples hold nothing but NO_DATA |
| Ambiguity.FlowResolvedIff | extract_amr/discovery.py:416-437 | a candidate has exactly one format that fits a request if and only if it has one and its samples neither leave the codec open, being all NO_DATA, nor the mode, reading octet-aligned and all looking bandwidth-efficient |
| Shuffling.DiagnosticsConserved | extract_amr/discovery.py:215-237 | observed packets are those sampled, those beyond the samples and those beyond the candidates; kept and dropped diagnostics are the failures of all candidates in all formats |
| Shuffling.DiagnosticTold | extract_amr/discovery.py:201-228 | each diagnostic names a listed candidate and tells of a packet of its flow whose payload that format refuses for that reason |
| Ranking.Rank | extract_amr/discovery.py:114-145 | the frozen candidates are exactly the states, strictly ascending by the sort key |
| Ranking.SortOrder | extract_amr/discovery.py:114-124 | the sort key is a strict order that tells any two flows apart |
| Ranking.SortsBeforeIff | extract_amr/discovery.py:114-124 | the first difference decides, among packet number, source address and port, destination address and port, SSRC and payload type, in this order, numbers by value and texts alphabetically |
| Ranking.TextBeforeIff | extract_amr/discovery.py:114-124 | one text comes before another if and only if it is lower at their first difference or a proper prefix |
| Ranking.DiscoverCandidates | extract_amr/discovery.py:148-237 | the result reports exactly what one pass over the records finds |
| Rearranging.RecordOrderIsIrrelevant | extract_amr/discovery.py:148-237 | without overflow and with packet numbers, any permutation of the records gives the same candidate list but for first rejection reasons, and overflows no more |
| Selection.SelectCandidates | extract_amr/discovery.py:393-478 | the loop over matching flows stops at the first unresolved one with its error, or returns one selection each |
| Selection.SingleSelectionExact | extract_amr/discovery.py:439-478 | without a port filter and without candidate overflow selection succeeds if and only if exactly one pair of a matching flow and a fitting valid format exists, and returns it |
| Selection.PortSelectionExact | extract_amr/discovery.py:416-437 | with a port filter it succeeds if and only if some flow matches and every matching flow has exactly one fitting valid format, and returns those |
| Selection.SelectionErrorsExact | extract_amr/discovery.py:439-478 | without a port filter the error tells exactly why: no flow matches, flows match but no format fits, or there are several options, and then it lists those and no others |
| Selection.MismatchNames | extract_amr/discovery.py:439-457 | without a port filter a mismatch names a flow if and only if it is the only one that matches and no format at all reads its samples |
| Selection.PortErrorsExact | extract_amr/discovery.py:416-437 | with a port filter the error is that no flow matches, or blames the first matching flow, in candidate order, that has no fitting format or several, naming it or listing exactly its options |
| Selection.RequestFilters | extract_amr/discovery.py:288-298 | a codec or mode not asked for is open and one asked for required |
| SecondPass.SelectionNamed | extract_amr/discovery.py:393-478 | whatever is selected is named after its flow and the least number its packets bring |
| SecondPass.SelectionExtractsCleanly | extract_amr/api.py:245-280 | a selected flow always gets a packet accepted in the second pass over the same records, and no malformed one if nothing of it went unsampled |
| FlowStates.FlowState.RetainError | extract_amr/api.py:73-88 | an error is kept while there is room and counted otherwise |
| FlowStates.FlowState.Take | extract_amr/api.py:268-283 | one record of the flow is pushed and everything it releases handed on; a malformed payload is retained as an error, and nothing else is |
| FlowStates.FlowState.Combined | extract_amr/api.py:342-358 | errors and timeline events together, sorted stably and cut to the limit; kept and dropped ones number the malformed packets, the late packets and the history overflows, and none is dropped while there is room |
| FlowStates.EarliestMeans | extract_amr/api.py:342-358 | the kept diagnostics are in capture order, as many as fit, and no dropped one comes before a kept one, by number and reason or, where these are equal, by the order in which they were noted |
| Notices.RunNotices | extract_amr/timeline.py:271-308 | the timeline keeps the first of its notes and counts the rest: "packet-history-overflow" for each packet that overflows and "late-packet" for each with a late frame, in arrival order and with its capture |
| Notices.PayloadReported | extract_amr/api.py:272-278 | a refused payload is reported once, with its capture, under the name of what its octets show to be wrong |
| Notices.CaptureOrder | extract_amr/api.py:342-358 | capture order is by packet number, reports without one counting as 2 to the 63rd, and with equal numbers by text |
| Extraction.RouteDatagram | extract_amr/api.py:245-280 | after one more datagram every flow has the records, the malformed datagrams, the errors and the frames of the datagrams so far; a flow the datagram does not concern is untouched; a strict policy raises exactly at an error of a selected flow |
| Extraction.FaultByHeader | extract_amr/api.py:188-212 | a malformed datagram of 12 bytes or more counts for the selected flow with its addresses, ports, SSRC and payload type and for no other |
| Extraction.FaultByEndpoints | extract_amr/api.py:188-212 | a shorter one counts for the only selected flow with its addresses and ports, and for none if there are several |
| Notices.DatagramReported | extract_amr/api.py:245-266 | and it is reported there once, as "malformed-rtp", with its capture |
| Extraction.ErrorsCounted | extract_amr/api.py:245-280 | the errors of a flow number its malformed datagrams and its malformed payloads |
| Extraction.IterRoutedFrames | extract_amr/api.py:234-285 | each flow's frames are those of a run over its own records and nothing else; a strict policy raises exactly when a datagram or payload of a selected flow is malformed, at the first such datagram, leaving every flow consistent with the datagrams so far |
| Pipeline.WriteAll | extract_amr/api.py:333-339 | all bytes reach a stream that may accept less than offered, or the stream accepts nothing and holds a proper prefix |
| Pipeline.NewFlowStates | extract_amr/api.py:215-231 | every selected flow gets a state of its own that has seen nothing |
| Pipeline.IdentifiedName | extract_amr/api.py:370-378 | a report names the selected number or, if that was open, the number of the flow's first numbered packet, and the identifier goes with it |
| Pipeline.MakeReport | extract_amr/api.py:361-400 | the report carries the selection, renamed after the flow's first packet when that was unknown; every count is that of the flow's whole run or of the capture; its diagnostics are the earliest of the flow's errors and events, as many as the limit allows, and the rest are counted |
| Pipeline.ExtractPcap | extract_amr/api.py:451-510 | frames are written while the capture is read, and the exits are exact: a write error if and only if the stream refused to go on, with part of the file written; else a strict stop if and only if the flow has an error, at the first one, with what was released until then written; else the whole file is written, and there is a report, its selection included, if and only if a packet was accepted |
| Captures.CaptureRestored | extract_amr/api.py:451-510 | for a capture that holds a sender's packets, reordered and duplicated, among any other traffic, the file is the storage stream of what was said, gaps filled if that is the policy; the only errors are malformed datagrams; and a packet is accepted if there is one |
| Captures.RestoreCapture | extract_amr/api.py:451-510 | extracting such a capture ends with a report and has written exactly that stream, unless the output refuses to go on or a strict policy meets a malformed datagram of the flow, and then a prefix of it is written |
| Automatic.ExplicitIff | extract_amr/api.py:173-185 | a flow is named in full if and only if all six fields, the codec and the mode are given, and then it is that flow in that format with its number left open |
| Automatic.ExtractAutomatically | extract_amr/api.py:403-510 | a flow named in full is extracted in one pass; any other one needs a capture that can be read twice, and selection decides the exit after discovery; either way the extraction has the exact exits and report of ExtractPcap; and a discovered flow never ends without packets or with none accepted: with an output that goes on it is extracted if and only if the policy is not strict or the flow has no error |
| Discovered.ResolvedSelection | extract_amr/discovery.py:393-478 | a flow that is the only one the selector lets through, whose payloads read in a wanted format and whose samples settle what the request leaves open, is selected in that format |
| Discovered.RestoreDiscovered | extract_amr/api.py:403-510 | given a selector that lets through the sender's flow and no other, extraction finds flow and format by itself and ends as RestoreCapture does, with exactly the file of the speech |
| OutputFiles.ExtractToFile | extract_amr/cli.py:503-527 | extracting to a path: a replaced output holds the storage file of the selected flow's whole run; if nothing fails it is replaced if and only if the extraction ends with a report; otherwise the files are as the transaction promises |
| OutputFiles.RestoreToFile | extract_amr/cli.py:503-581 | from the capture of a sender's speech to the file: a replaced output holds exactly the storage file of what was said, which a reader gets back, and it is replaced if nothing fails, the stream does not refuse and no strict policy meets a malformed datagram |
| Transaction.OutputTransaction.Open | extract_amr/cli.py:336-368 | an output is staged under a new temporary name exactly when its path is new, its directory is there and no operation fails; otherwise every output path and every staged byte is as it was |
| Transaction.OutputTransaction.CloseStreams | extract_amr/cli.py:369-373 | however far it gets, no stream gains or loses a byte and no output path changes |
| Transaction.OutputTransaction.BackUpOriginals | extract_amr/cli.py:375-393 | at every point of failure each original is at its final path or at its own backup; when all goes on, only originals whose existence test failed have none |
| Transaction.OutputTransaction.InstallStaged | extract_amr/cli.py:394-396 | at every point of failure each output is installed with its staged bytes or still staged, and every original is safe but those gone unnoticed that an output was installed over |
| Transaction.OutputTransaction.Rollback | extract_amr/cli.py:411-426 | if no step fails every final path is as before the commit, but for unnoticed originals that were installed over, and those are gone; if some do, each other original is still at its final path or its backup |
| Transaction.OutputTransaction.Commit | extract_amr/cli.py:369-409 | for any pattern of failures, a failing existence test included: committed means every final path holds what was written to its stream; staging failed means every final path is as before; rolled back means they are if and only if no unnoticed original was installed over, and no backup is left; rollback failed takes two further failures and means every other original survives; no other output path ever changes; and it commits and cleans up if and only if nothing fails but existence tests |
| Transaction.MissedOutputLost | extract_amr/cli.py:376 | the loss on an input: two existing outputs, the existence test of the first fails and installing the second fails; the rollback removes the first and its original is in no file |
| Transaction.OutputTransaction.Leave | extract_amr/cli.py:428-453 | leaving changes no output path and keeps every surviving original; without an error the temporary names left are exactly those of others, those that earlier failures had left off the record, and after a failed rollback the backups still there |
| Replacing.ReplaceOutputs | extract_amr/cli.py:575-581 | the whole with block: whatever fails, the outputs are all replaced, or all as before, or, after two failures beyond missed existence tests, every original is still in some file, in each case but for the originals lost as above, which takes two failures; with no failure they are replaced and no temporary name is left |

## Left out

- capture.py: reading packets from a capture; the model starts from complete UDP datagrams.
- TimelineSummary, InspectionReport and inspect_pcap: copies of the counters modelled here, and the merging of two diagnostic lists for display.
- extract_flows: its routing is IterRoutedFrames and its writing that of ExtractPcap, once for each flow, after checking that every flow has an output of its own.
- Options for multichannel, CRC, interleaving and robust sorting, and unknown codec or mode names: refused before parsing starts.
- The bitarray backend: plain bit sequences stand in for it.
- candidate_identifier: the digest is modelled as the pair it is computed from, so collisions of the digest are not covered.
- Error messages and details dictionaries: only kinds, reasons, flows and provenance are kept.
- Decimal capture timestamps are reals; Decimal NaN is not covered.
- fsync durability, aliases of output paths and errors other than OSError inside commit; temporary names are a name space of their own.
- The command line, its progress bar and file naming, and everything under scripts and benchmarks.
- TimelineNormalizers.TimelineNormalizer.Next: an iterator that is closed or dropped before its end is not covered; the class asks its callers to read to the end.
- TimelineNormalizers.TimelineNormalizer.Push: the counters of the object are one record value updated in place rather than separate fields.
- Delivery.Delivered: more than three packets that end at one time are not covered, nor packets that say different frames for one time beyond EndToEnd.BestReleased, which says which of them wins.
- Transaction.OutputTransaction.Open: opening or committing again after a commit is not covered; the program does neither.
- Reordering.ArrivalOrderIsIrrelevant: runs that accept different copies of a packet are compared only where frames do not overlap (EndToEnd.DeliveriesAgree): a copy's capture settles ties between overlapping frames.
- EndToEnd.CompleteErased: a copy that arrives half a cycle or more from the high marks extends to other values than the first arrival and is a new packet to the code; `Wraps.ExtendExactly` says exactly when.
- Pipeline.MakeReport: the output path, which is filled in by the caller, and the name of the bit backend, a constant of the installation, are not modelled.
