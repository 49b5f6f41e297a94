# Chassis manager: verified models

Dafny models of the protocol and data-structure cores of an OpenBMC chassis manager: its IPMB bridge and the
FRU, SEL, SDR, system-info, host-command, command-dispatch and VLAN parts of its IPMI daemon. `dafny verify
dfyconfig.toml` checks everything.

The daemons are single-threaded, so everything that happens between two suspension points is one step. The bus,
the I2C driver, timers and the network daemon are environments: they decide when signals arrive, which writes fail
and which log entries or inventory properties change, at any moment and in any order. Code that updates objects is
written as classes and loops, and each method is proved against a function of its inputs or of the old state; the
theorems are then proved about those functions, for every state, every run and every input.

| Component | Files |
|---|---|
| Bytes, checksums, pieces of byte strings, paths, ordered maps | `bytes.dfy`, `chunks.dfy`, `paths.dfy`, `ordered_keys.dfy` |
| IPMB frame codec | `ipmb_frame.dfy` |
| IPMB outstanding requests: one step, whole runs, the channel object | `ipmb_protocol.dfy`, `ipmb_runs.dfy`, `ipmb_bridge.dfy` |
| FRU blob: layout, in-place builders, a reader after the FRU storage definition, the signal-invalidated cache | `fru_area.dfy`, `fru_builder.dfy`, `fru_parser.dfy`, `fru_cache.dfy` |
| SEL: cache protocol, walk, reservations, text form, event round trip, commands | `sel_record.dfy`, `sel_cache.dfy`, `sel_walk.dfy`, `sel_reservation.dfy`, `sel_text.dfy`, `sel_event.dfy`, `sel_store.dfy` |
| SDR repository walk and partial reads | `sdr_walk.dfy`, `sdr_repository.dfy` |
| Host command manager | `host_commands.dfy` |
| System-info parameters | `system_info.dfy` |
| Handler registry, filters, dispatch | `registry.dfy` |
| VLAN reconfiguration | `object_tree.dfy`, `vlan.dfy`, `vlan_reconfigure.dfy`, `vlan_handler.dfy` |

## Where the code meets its purpose only under a condition

Each condition is proved to be exact: an if-and-only-if over all inputs, states or runs.

- A finishing IPMB request gives its slot back exactly if it has at most 257 data bytes (`FinishingEmptiesOwnSlotOnly`).
  A channel refuses every further request for good exactly if all sixty-four slots were lost this way
  (`RefusedForeverExactlyIfAllLeaked`; `SixtyFourLeaksBlockTheChannel` is a run that gets there).
- Some frame answers an IPMB request exactly if its network function is below 64 and its LUN below 4
  (`AnswerableExactlyIfFits`).
- Lengths are cut to eight bits. The validator accepts an encoded request exactly up to 252 data bytes and a response
  exactly up to 251 - or if its bytes before the last 255 happen to sum to zero - and catches every change of a single
  byte exactly in frames of up to 258 bytes.
- Every log entry is on its way into the SEL cache throughout a run - handling the queued signals as they stand gives
  the log's record - exactly if no event loses one (`AlwaysOnTheirWayExactlyIfNothingLost`). Lost is: a cached entry that
  stops being convertible with no removal of it queued; a change of associations, which the update match does not hear,
  if no queued signal makes a handler store the new record; the one read that was due, by the scan or by a handler, if a
  bus call fails.
- A SEL walk is complete exactly if no entry has ID 0xFFFF, or it is alone.
- Adding and getting a system event keeps the sensor number exactly for known sensors (and 0xFF); the rebuilt direction
  bit is set exactly if the event's or the sensor's reading type's is.
- The SDR walk is complete exactly if FRU ids fit a byte and there is a FRU whenever there is an entity.
- The FRU cache is coherent throughout every run - in which no interface appears or vanishes while a reply about it is
  held, and every read is answered - exactly if every object of the table is routed to its FRU
  (`CoherentInTameRunsExactlyIfRouted`). An interface that appears or vanishes later leaves a blob stale exactly if it
  changes what a read would give (`AppearingLeavesStale`). An object stored under its full path is routed exactly if the
  same FRU is the first to list the path behind the inventory's prefix.
- Host commands are never stranded exactly if no alert fails, that is, if the timer starts whenever it must be started
  for a waiting command and no other is running. Stranded commands wait exactly until the host reads successfully or a
  power-on purges them.
- A host that writes all blocks of a system-info string stores it exactly if it has at most 255 bytes.
- VLAN reconfiguration keeps all static IPv6 addresses exactly if there are at most fifteen, and a lookup goes through
  them in the order of their creation exactly if the names that the daemon gives them ascend: lookups iterate by path.
- Reconfiguring an interface deletes another interface's objects exactly if their path contains its name, as `eth10`
  contains `eth1`.
- Two handlers of one command commute exactly if their priorities differ or they are the same.

## Model

| member | source | states |
|---|---|---|
| `IpmbFrame.ChecksumCompute` | devtool-mods/ipmb_directory-mods/ipmbutils.cpp:50-64 | The eight-bit accumulator loop yields the byte that brings the sum of the given stretch to 0 mod 256 |
| `IpmbFrame.ChecksumValidate` | devtool-mods/ipmb_directory-mods/ipmbutils.cpp:27-48 | Valid exactly if the stretch sums to 0 mod 256 |
| `IpmbFrame.IsFrameValid` | devtool-mods/ipmb_directory-mods/ipmbutils.cpp:66-90 | Valid exactly if the first three bytes and the eight-bit remainder of the frame both sum to zero |
| `IpmbFrame.FillFrame` | devtool-mods/ipmb_directory-mods/ipmbbridged.cpp:105-128 | The buffer filled in place is length byte, header, header checksum, body and body checksum, for every body either encoder can have |
| `IpmbFrame.IpmbRequest.I2cToIpmbConstruct` | devtool-mods/ipmb_directory-mods/ipmbbridged.cpp:72-92 | Decoding sets every field but the address from the frame and appends its data |
| `IpmbFrame.IpmbRequest.IpmbToI2cConstruct` | devtool-mods/ipmb_directory-mods/ipmbbridged.cpp:94-131 | Fails with -1 exactly beyond 257 data bytes, else gives the frame of the message |
| `IpmbFrame.IpmbResponse.I2cToIpmbConstruct` | devtool-mods/ipmb_directory-mods/ipmbbridged.cpp:174-194 | The same for responses, which need eight bytes |
| `IpmbFrame.IpmbResponse.IpmbToI2cConstruct` | devtool-mods/ipmb_directory-mods/ipmbbridged.cpp:196-234 | No buffer exactly beyond 256 data bytes, else the frame of the response |
| `IpmbFrame.FramedValidity` | devtool-mods/ipmb_directory-mods/ipmbutils.cpp:66-90 | For every body: the validator accepts the encoder's frame exactly if the body has at most 255 bytes, or all but its last 255 bytes happen to sum to zero |
| `IpmbFrame.RequestFrameAccepted` | devtool-mods/ipmb_directory-mods/ipmbbridged.cpp:94-131 | Encoded requests are accepted exactly up to 252 data bytes, or by luck of the first bytes |
| `IpmbFrame.ResponseFrameAccepted` | devtool-mods/ipmb_directory-mods/ipmbbridged.cpp:196-234 | Encoded responses are accepted exactly up to 251 data bytes, or by luck of the first bytes |
| `IpmbFrame.RequestRoundTrip` | devtool-mods/ipmb_directory-mods/ipmbbridged.cpp:72-131 | Decoding an encoded request gives its fields back, cut to the header's bit widths, with all its data |
| `IpmbFrame.ResponseRoundTrip` | devtool-mods/ipmb_directory-mods/ipmbbridged.cpp:174-234 | Decoding an encoded response gives its fields back, cut to the header's bit widths, with all its data |
| `IpmbFrame.MessagesOnTheWire` | devtool-mods/ipmb_directory-mods/ipmbbridged.cpp:94-131 | Both encoders: the target address comes first and is closed by the header checksum, the length byte is right exactly up to 255 bytes, and the last byte cancels the body, or what of it is beyond 256 bytes |
| `IpmbFrame.TruncationIsIdentityExactlyIfFieldsFit` | devtool-mods/ipmb_directory-mods/ipmbbridged.hpp:91-132 | The cut changes nothing exactly if netFn and seq are below 64 and the LUNs below 4 |
| `IpmbFrame.ResponseRecognised` | devtool-mods/ipmb_directory-mods/ipmbbridged.hpp:137-141 | The receiver takes an encoded response for a response exactly if its netFn is odd |
| `IpmbFrame.OneByteChangeIsRejected` | devtool-mods/ipmb_directory-mods/ipmbutils.cpp:66-90 | A valid frame of at most 258 bytes is no longer valid once any one byte is changed |
| `IpmbFrame.LastByteOfLongFrameUnguarded` | devtool-mods/ipmb_directory-mods/ipmbutils.cpp:72-77 | In a longer valid frame the last byte can be changed unnoticed |
| `IpmbFrame.SingleByteProtection` | devtool-mods/ipmb_directory-mods/ipmbutils.cpp:66-90 | A valid frame is protected against every one-byte change exactly if it has at most 258 bytes |
| `IpmbProtocol.AllocationIsRoundRobin` | devtool-mods/ipmb_directory-mods/ipmbbridged.cpp:313-329 | Allocation fails exactly when all 64 slots are taken, else it gives the first free slot cyclically after the counter |
| `IpmbProtocol.CycleCovers` | devtool-mods/ipmb_directory-mods/ipmbbridged.cpp:313-329 | Sixty-four increments modulo 64 reach every slot from every counter |
| `IpmbProtocol.NextFree` | devtool-mods/ipmb_directory-mods/ipmbbridged.cpp:313-329 | A slot number that is handed out is in range and free |
| `IpmbProtocol.StepKeepsInv` | devtool-mods/ipmb_directory-mods/ipmbbridged.cpp:298-348 | Every event of every interleaving keeps slot ownership: an occupied slot and the in-flight request it names agree, and each in-flight request holds its slot |
| `IpmbProtocol.SequenceNumbersUnique` | devtool-mods/ipmb_directory-mods/ipmbbridged.cpp:306-329 | No two requests that hold a slot share a sequence number |
| `IpmbProtocol.FinishingEmptiesOwnSlotOnly` | devtool-mods/ipmb_directory-mods/ipmbbridged.cpp:727-806 | A finishing request changes no other slot, and empties its own exactly if it has at most 257 data bytes |
| `IpmbProtocol.InterleavingProjects` | devtool-mods/ipmb_directory-mods/ipmbbridged.cpp:331-348 | Whatever is interleaved, each request evolves as if alone: sharing the table and matching by slot lose and add nothing |
| `IpmbProtocol.FinishedStaysFinished` | devtool-mods/ipmb_directory-mods/ipmbbridged.cpp:751-805 | A finished request is never resumed and its outcome never changes |
| `IpmbProtocol.LeakIsForever` | devtool-mods/ipmb_directory-mods/ipmbbridged.cpp:736-740 | A slot kept by the early return stays taken through every later event |
| `IpmbRuns.RunIsExplained` | devtool-mods/ipmb_directory-mods/ipmbbridged.cpp:727-806 | In every run each request's submission, amount of work, pending match and outcome are those the event log accounts for |
| `IpmbRuns.LatestMatchMeaning` | devtool-mods/ipmb_directory-mods/ipmbbridged.cpp:331-348 | What "the latest response that answers a request" means on an event log |
| `IpmbRuns.SuccessIsLatestMatch` | devtool-mods/ipmb_directory-mods/ipmbbridged.cpp:796-801 | Success is reported only with a response whose seq, netFn with the response bit, LUNs and command answer the request, and it is the latest such one |
| `IpmbRuns.MatchIsNeverLost` | devtool-mods/ipmb_directory-mods/ipmbbridged.cpp:751-801 | At a normal wake-up a match that arrived at any time since submission, also during a write, decides; without one the request is sent again or times out |
| `IpmbRuns.LastEchoDecides` | devtool-mods/ipmb_directory-mods/ipmbbridged.cpp:331-348 | While a request waits, the last response since its submission with the same sequence number, LUNs, command and the network function with the response bit is the one it succeeds with |
| `IpmbRuns.TimeoutMeansSixUnansweredWaits` | devtool-mods/ipmb_directory-mods/ipmbbridged.cpp:804-805 | A timeout comes after exactly six waits and no answering response since submission |
| `IpmbRuns.RequestTerminates` | devtool-mods/ipmb_directory-mods/ipmbbridged.cpp:751-805 | At most 12 writes and 6 waits; every resumption uses up a measure that is zero exactly when finished |
| `IpmbRuns.WaitsExactlyAfterWriteOrTwoFailures` | devtool-mods/ipmb_directory-mods/ipmbbridged.cpp:761-785 | In every run a request stops writing and waits exactly once a write since its last wake-up succeeded, or two failed |
| `IpmbRuns.RunRetries` | devtool-mods/ipmb_directory-mods/ipmbbridged.cpp:761-785 | The results of the writes since the last wake-up determine the retry a request is at |
| `IpmbRuns.SlotsOwnedInEveryRun` | devtool-mods/ipmb_directory-mods/ipmbbridged.cpp:298-329 | In every run each slot is empty with no holder, or has one holder with that sequence number in state valid or matched, finished exactly if oversized |
| `IpmbRuns.OversizedFillTheTable` | devtool-mods/ipmb_directory-mods/ipmbbridged.cpp:736-740 | n oversized requests occupy n slots for good |
| `IpmbRuns.SixtyFourLeaksBlockTheChannel` | devtool-mods/ipmb_directory-mods/ipmbbridged.cpp:736-740 | Sixty-four oversized requests one after another make a run after which every further one is refused without effect |
| `IpmbRuns.RefusedForeverExactlyIfAllLeaked` | devtool-mods/ipmb_directory-mods/ipmbbridged.cpp:736-740 | In every reachable state the channel refuses all requests through every continuation exactly if all sixty-four slots are leaked |
| `IpmbRuns.UnleakedCanBeFreed` | devtool-mods/ipmb_directory-mods/ipmbbridged.cpp:787-794 | Any slot that is not leaked has a continuation that frees it |
| `IpmbRuns.AnswerableExactlyIfFits` | devtool-mods/ipmb_directory-mods/ipmbbridged.cpp:331-348 | Some valid response frame answers a request exactly if its fields fit the bits of the header |
| `IpmbRuns.WellFormedAnswerMatches` | devtool-mods/ipmb_directory-mods/ipmbbridged.cpp:196-234 | Every encoded response is taken for a request's answer exactly if its fields, cut to the header, match and it has up to 251 data bytes, or by luck of its first bytes |
| `IpmbRuns.OnlyFittingRequestsSucceed` | devtool-mods/ipmb_directory-mods/ipmbbridged.cpp:350-408 | In every run whose responses come off the bus only requests whose fields fit the header succeed |
| `IpmbBridge.IpmbChannel.constructor` | devtool-mods/ipmb_directory-mods/ipmbbridged.cpp:536-544 | A new channel is the protocol's initial state |
| `IpmbBridge.IpmbChannel.MakeRequestInvalid` | devtool-mods/ipmb_directory-mods/ipmbbridged.cpp:298-304 | Empties the request's slot only |
| `IpmbBridge.IpmbChannel.MakeRequestValid` | devtool-mods/ipmb_directory-mods/ipmbbridged.cpp:306-311 | Fills the request's slot only |
| `IpmbBridge.IpmbChannel.SeqNumGet` | devtool-mods/ipmb_directory-mods/ipmbbridged.cpp:313-329 | The increment loop finds the protocol's next free slot, and leaves the counter there - or where it was if there is none |
| `IpmbBridge.IpmbChannel.Match` | devtool-mods/ipmb_directory-mods/ipmbbridged.cpp:331-348 | A response changes the request in its slot exactly if netFn, both LUNs and the command answer it |
| `IpmbBridge.IpmbChannel.ResponseMatch` | devtool-mods/ipmb_directory-mods/ipmbbridged.cpp:331-348 | Refines the protocol's receive step |
| `IpmbBridge.IpmbChannel.UpdateRqSlaveAddress` | devtool-mods/ipmb_directory-mods/ipmbbridged.cpp:890-907 | The requester address follows the caller except for 40h |
| `IpmbBridge.IpmbChannel.HandleRequest` | devtool-mods/ipmb_directory-mods/ipmbbridged.cpp:896-953 | Refines the protocol's submit step; busy exactly if no slot is free |
| `IpmbBridge.IpmbChannel.RequestAdd` | devtool-mods/ipmb_directory-mods/ipmbbridged.cpp:727-740 | Takes the slot, and finishes at once exactly if the frame cannot be encoded |
| `IpmbBridge.IpmbChannel.ResumeAfterWrite` | devtool-mods/ipmb_directory-mods/ipmbbridged.cpp:761-785 | Refines the protocol's write-done step |
| `IpmbBridge.IpmbChannel.ResumeAfterWait` | devtool-mods/ipmb_directory-mods/ipmbbridged.cpp:785-805 | Refines the protocol's wake-up step |
| `IpmbBridge.IpmbChannel.Return` | devtool-mods/ipmb_directory-mods/ipmbbridged.cpp:787-805 | Answering the caller releases the request's own slot |
| `IpmbBridge.ProcessI2cEvent` | devtool-mods/ipmb_directory-mods/ipmbbridged.cpp:350-408 | Short frames, frames that fail a checksum, and requests match nothing; a valid response frame is the receive step of what it decodes to |
| `FruArea.FinishedArea` | devtool-mods/host-mods/ipmi_fru_info_area.cpp:86-124 | A finished area is whole 8-byte units, says so in its length byte, sums to zero, keeps its content and has only zeros between that and its checksum |
| `FruArea.ChassisAreaConsistent` | devtool-mods/host-mods/ipmi_fru_info_area.cpp:296-323 | For every property map the area has version 1, a true length byte, a zero sum and at most 136 bytes |
| `FruArea.BoardAreaConsistent` | devtool-mods/host-mods/ipmi_fru_info_area.cpp:331-368 | The same with at most 272 bytes |
| `FruArea.ProductAreaConsistent` | devtool-mods/host-mods/ipmi_fru_info_area.cpp:376-414 | The same with at most 328 bytes |
| `FruArea.HeaderOffsets` | devtool-mods/host-mods/ipmi_fru_info_area.cpp:267-288 | The padded offsets are those of an unpadded concatenation, and no byte overflows |
| `FruArea.AssemblyConsistent` | devtool-mods/host-mods/ipmi_fru_info_area.cpp:448-487 | Whatever consistent areas are given, the blob has 0x27E0 bytes, a zero-sum header, every header offset leads to its area, and all bytes behind the areas are FFh |
| `FruArea.LayoutConsistent` | devtool-mods/host-mods/ipmi_fru_info_area.cpp:416-488 | For every inventory: blob size, header checksum, each header byte zero for an absent area and else its true place, and FFh in every byte behind the areas |
| `FruBuilder.FruAreaData.PreFormatProcessing` | devtool-mods/host-mods/ipmi_fru_info_area.cpp:67-79 | Appends version, length placeholder and, where asked, the language |
| `FruBuilder.FruAreaData.AppendDataChecksum` | devtool-mods/host-mods/ipmi_fru_info_area.cpp:86-92 | Appends the byte that brings the sum to zero |
| `FruBuilder.FruAreaData.PadData` | devtool-mods/host-mods/ipmi_fru_info_area.cpp:99-106 | Pads so that the checksum ends an 8-byte unit |
| `FruBuilder.FruAreaData.PostFormatProcessing` | devtool-mods/host-mods/ipmi_fru_info_area.cpp:113-124 | Leaves the finished area, whose meaning FinishedArea states |
| `FruBuilder.FruAreaData.AppendChassisType` | devtool-mods/host-mods/ipmi_fru_info_area.cpp:133-153 | Appends the type, or 0 when missing or unreadable |
| `FruBuilder.FruAreaData.AppendData` | devtool-mods/host-mods/ipmi_fru_info_area.cpp:162-196 | Appends the type/length field of the normalised property, or the empty field |
| `FruBuilder.FruAreaData.AppendMfgDate` | devtool-mods/host-mods/ipmi_fru_info_area.cpp:227-258 | Appends the three bytes of the minutes since 1996 |
| `FruBuilder.FruAreaData.BuildCommonHeaderSection` | devtool-mods/host-mods/ipmi_fru_info_area.cpp:267-288 | Appends the area's header byte and moves the offset behind the area |
| `FruBuilder.BuildChassisInfoArea` | devtool-mods/host-mods/ipmi_fru_info_area.cpp:296-323 | The appended vector is the chassis area |
| `FruBuilder.BuildBoardInfoArea` | devtool-mods/host-mods/ipmi_fru_info_area.cpp:331-368 | The appended vector is the board area |
| `FruBuilder.BuildProductInfoArea` | devtool-mods/host-mods/ipmi_fru_info_area.cpp:376-414 | The appended vector is the product area |
| `FruBuilder.BuildFruAreaData` | devtool-mods/host-mods/ipmi_fru_info_area.cpp:416-488 | The assembled vector is the blob that the layout and round-trip theorems are about |
| `FruParser.ParserUndoesBuilder` | devtool-mods/host-mods/ipmi_fru_info_area.cpp:416-488 | For every inventory a reader written from the storage definition gets back chassis type, minutes and every mandatory field in normalised form, missing ones empty |
| `FruParser.EveryPropertyReadsBack` | devtool-mods/host-mods/ipmi_fru_info_area.cpp:296-414 | For every inventory: which areas a reader finds, and in which field of which area each named property stands, as ASCII, without its 0x or 0X and cut to 63 bytes; missing ones are empty |
| `FruParser.StoredUnchangedExactlyIf` | devtool-mods/host-mods/ipmi_fru_info_area.cpp:162-189 | A value is stored as it is exactly if it has at most 63 bytes and does not start with 0x or 0X |
| `FruParser.ChassisReadsBack` | devtool-mods/host-mods/ipmi_fru_info_area.cpp:296-323 | The chassis area parses to type, part and serial number |
| `FruParser.BoardReadsBack` | devtool-mods/host-mods/ipmi_fru_info_area.cpp:331-368 | The board area parses to the date and its five mandatory fields |
| `FruParser.ProductReadsBack` | devtool-mods/host-mods/ipmi_fru_info_area.cpp:376-414 | The product area parses to its seven mandatory fields |
| `FruParser.FieldsComeBack` | devtool-mods/host-mods/ipmi_fru_info_area.cpp:162-196 | Any list of type/length fields laid out anywhere parses back to its type codes and data, and to the position behind it |
| `FruParser.OneByteValueLooksLikeEndMarker` | devtool-mods/host-mods/ipmi_fru_info_area.cpp:180-189 | A field starts with the end marker exactly when its value has one byte, so fields must be read by position |
| `FruParser.DateToTheMinute` | devtool-mods/host-mods/ipmi_fru_info_area.cpp:227-258 | A date from 1996 on that fits three bytes of minutes comes back to the minute; every other one, an empty and a missing one as unspecified |
| `FruCache.HeardKeepsCoherence` | devtool-mods/host-mods/read_fru_data.cpp:86-186 | Through every event that does not escape the handler, each reply behind a cached or half-built blob stays current or has a signal pending |
| `FruCache.UnheardBreaksCoherence` | devtool-mods/host-mods/read_fru_data.cpp:73-124 | Every event that escapes it leaves a held reply stale with nothing pending |
| `FruCache.CoherentInTameRunsExactlyIfRouted` | devtool-mods/host-mods/read_fru_data.cpp:86-186 | The cache is coherent at every point of every run without unannounced changes of what was read and without failed reads, if and only if every object of the table is routed to its FRU |
| `FruCache.UnroutedRunGoesStale` | devtool-mods/host-mods/read_fru_data.cpp:98-126 | For every object that is not routed there is such a run - publish, build, change, deliver - that ends stale with nothing pending |
| `FruCache.TameRoutedRunsAreHeard` | devtool-mods/host-mods/read_fru_data.cpp:86-126 | In such runs of a routed table nothing ever escapes the handler |
| `FruCache.CoherentExactlyIfAllHeard` | devtool-mods/host-mods/read_fru_data.cpp:86-186 | Event by event, for every table: the cache is coherent throughout a run exactly if each single event leaves it so, with the events that do not listed by kind |
| `FruCache.RoutedTablesMissNoSignal` | devtool-mods/host-mods/read_fru_data.cpp:98-109 | If every listed object is routed to its FRU, no property change and no signal escapes |
| `FruCache.StaleBlobHasSignal` | devtool-mods/host-mods/read_fru_data.cpp:86-126 | In every run in which nothing escapes the handler, a cached blob that differs from the one the inventory would give now has a change signal for one of its paths pending |
| `FruCache.BlobsFollowProtocol` | devtool-mods/host-mods/read_fru_data.cpp:86-186 | The map of blobs kept by the methods below follows the protocol's map of replies through every event |
| `FruCache.BlobsRepresent` | devtool-mods/host-mods/read_fru_data.cpp:86-186 | At the end of every run the stored blobs are those built from the protocol's replies |
| `FruCache.StoredBlobHasSignal` | devtool-mods/host-mods/read_fru_data.cpp:170-186 | So in every such run the stored bytes themselves are current or have a signal pending |
| `FruCache.InvalidatedExactlyIfRouted` | devtool-mods/host-mods/read_fru_data.cpp:86-126 | A property change of an object on the bus, delivered, drops the FRU's blob exactly if the object is in the inventory and the scan's first hit is this FRU; otherwise it stays stale with nothing pending |
| `FruCache.AppearingLeavesStale` | devtool-mods/host-mods/read_fru_data.cpp:118-124 | An interface that appears or vanishes after it was read leaves the blob stale exactly if that changes what a read would give |
| `FruCache.RouteFindsFirst` | devtool-mods/host-mods/read_fru_data.cpp:98-109 | The scan finds the first FRU that lists the path, and none exactly if none does |
| `FruCache.FullPathRoutedExactlyIfTwinListed` | devtool-mods/host-mods/read_fru_data.cpp:57-66 | An object stored under its full path is routed exactly if this FRU is the first to list the path behind the prefix |
| `FruCache.RelativeUniquePathIsRouted` | devtool-mods/host-mods/read_fru_data.cpp:92-109 | A relative path listed by one FRU only is routed to it |
| `FruCache.CachedBlobIsStable` | devtool-mods/host-mods/read_fru_data.cpp:170-186 | While a FRU stays cached its content does not change |
| `FruCache.ConsecutiveRepliesJoin` | devtool-mods/host-mods/storagehandler.cpp:801-851 | Consecutive Read FRU Data replies of any sizes concatenate to the blob |
| `FruCache.Cache.ProcessFruPropChange` | devtool-mods/host-mods/read_fru_data.cpp:86-110 | The scan removes exactly the blob of the first FRU that lists the trimmed path |
| `FruCache.Cache.GetFruAreaData` | devtool-mods/host-mods/read_fru_data.cpp:170-186 | Returns the cached blob, or builds, stores and returns it, or stores nothing when no service is found; nothing else changes |
| `FruCache.Cache.ReadFruData` | devtool-mods/host-mods/storagehandler.cpp:801-851 | Every reply and error, and the cache afterwards, for every id, offset and count |
| `FruCache.ReadInstance` | devtool-mods/host-mods/read_fru_data.cpp:148-166 | One instance's replies are gathered in order; none when a service is missing |
| `FruCache.AddReply` | devtool-mods/host-mods/read_fru_data.cpp:154-164 | The loop adds one reply as ReplyFound says |
| `FruCache.ReadDataFromInventory` | devtool-mods/host-mods/read_fru_data.cpp:134-168 | The nested loops gather the replies of all instances and interfaces, as GatheredExactly says |
| `FruCache.GatherInTwoParts` | devtool-mods/host-mods/read_fru_data.cpp:134-168 | Gathering a list of replies is gathering its parts one after the other |
| `FruCache.GatheredExactly` | devtool-mods/host-mods/read_fru_data.cpp:134-168 | What a blob is built from: a section has a property exactly if some reply has a name mapped to it, with the value of the first such reply and mapping; no section is empty |
| `FruCache.ReplyFound` | devtool-mods/host-mods/read_fru_data.cpp:154-164 | One reply adds the first value that its mappings give a property, unless there is one already |
| `FruCache.QueriesExactly` | devtool-mods/host-mods/read_fru_data.cpp:134-152 | Every interface of every instance is asked for once, in the order of the table, under the full path |
| `FruCache.ServedExactly` | devtool-mods/host-mods/read_fru_data.cpp:170-186 | At the end of every run: a cached FRU is served as built from the replies of its time, another one from what its interfaces are now, and none exactly if a service is missing |
| `FruCache.ReplyExactly` | devtool-mods/host-mods/storagehandler.cpp:824-851 | Out of range exactly at or behind the end of the blob; else as many bytes as asked for, or those that are left, from the offset on |
| `SelCache.OnTheirWayExactlyIfNothingLost` | devtool-mods/host-mods/storagehandler.cpp:94-213 | One event: every id stays on its way to the log's record if and only if the event loses none |
| `SelCache.AlwaysOnTheirWayExactlyIfNothingLost` | devtool-mods/host-mods/storagehandler.cpp:94-213 | In every run, the initial scan racing with changes and signals, failing reads and unannounced changes included: every id is always on its way if and only if no event loses one |
| `SelCache.DisagreementIsAnnounced` | devtool-mods/host-mods/storagehandler.cpp:112-213 | Once initialised and with nothing lost, an id whose cached entry differs from the log has a signal pending, and handling the queue as it stands repairs it |
| `SelCache.QuietCacheIsTheLog` | devtool-mods/host-mods/storagehandler.cpp:112-213 | Once initialised, with an empty queue and nothing lost, the cache is the log |
| `SelCache.LostWhenQuiet` | devtool-mods/host-mods/selutility.cpp:308-367 | From agreement with an empty queue: a change of associations, an update, or an update whose read fails ends in agreement exactly under the stated condition, and in a stale cache with nothing pending otherwise |
| `SelCache.DrainedTo` | devtool-mods/host-mods/storagehandler.cpp:112-162 | What the queued signals come to: nothing for an id that is gone, the log's record if some handler will store it, else what is cached |
| `SelCache.AnnouncedExactly` | devtool-mods/host-mods/storagehandler.cpp:154-187 | An announced change loses an id exactly if it becomes unconvertible while a record is cached and no removal is queued |
| `SelCache.UnannouncedExactly` | devtool-mods/host-mods/selutility.cpp:311-349 | A change of associations loses an id exactly if the record changes and no queued signal makes a handler store it |
| `SelCache.ScanExactly` | devtool-mods/host-mods/storagehandler.cpp:191-213 | A scan step loses an id exactly if its read fails for a convertible entry that nothing else will bring |
| `SelCache.DeliveryExactly` | devtool-mods/host-mods/storagehandler.cpp:92-162 | A delivered signal loses an id exactly if its read fails, the cached record differs, and no later signal makes a handler store it |
| `SelWalk.WalkVisitsAll` | devtool-mods/host-mods/storagehandler.cpp:327-367 | From 0x0000 along next-record IDs every entry is returned exactly once, ascending, in as many steps as there are entries |
| `SelWalk.WalkCompleteExactlyIf` | devtool-mods/host-mods/storagehandler.cpp:327-367 | The walk returns every entry exactly if ID 0xFFFF is not used, or is the only one |
| `SelWalk.TargetMeaning` | devtool-mods/host-mods/storagehandler.cpp:327-355 | 0000h names the least entry, FFFFh the greatest, any other ID its own entry; nothing is named exactly if there is none |
| `SelReservation.NthIdIssued` | devtool-mods/host-mods/ipmid-new.cpp:64-74 | In every run the n-th ID issued is ((n-1) mod 65535)+1, so never 0 |
| `SelReservation.IdsRepeatEvery65535` | devtool-mods/host-mods/ipmid-new.cpp:64-74 | Two issues share an ID exactly if they are a multiple of 65535 apart |
| `SelReservation.NeverMoreAcceptedThanReserved` | devtool-mods/host-mods/storagehandler.cpp:409-538 | Accepted deletes and erasing clears never outnumber the reserves |
| `SelReservation.AcceptedExactlyIfInForce` | devtool-mods/host-mods/storagehandler.cpp:409-538 | A delete or erasing clear is accepted exactly if its ID was issued by a reserve with no add, accepted change or newer reserve since |
| `SelReservation.SelReservations.ReserveSel` | devtool-mods/host-mods/ipmid-new.cpp:64-74 | Issues the next ID and makes it valid |
| `SelReservation.SelReservations.CheckSELReservation` | devtool-mods/host-mods/ipmid-new.cpp:76-79 | True exactly if a delete with this ID would be accepted |
| `SelReservation.SelReservations.CancelSELReservation` | devtool-mods/host-mods/ipmid-new.cpp:81-84 | Ends the reservation and keeps the ID |
| `SelText.DecimalReadsBack` | devtool-mods/host-mods/selutility.cpp:81-86 | Decimal text reads back to the number exactly if it fits an int |
| `SelText.NumberInText` | devtool-mods/host-mods/selutility.cpp:81-86 | A decimal number is read up to the first other character, with its sign, exactly if it fits an int |
| `SelText.HexReadsBack` | devtool-mods/host-mods/selutility.cpp:89-100 | Hexadecimal text reads back to the bytes, for every length |
| `SelText.EitherCaseReads` | devtool-mods/host-mods/selutility.cpp:89-100 | Hexadecimal digits of either case read back to the bytes |
| `SelText.PairReadsBack` | devtool-mods/host-mods/selutility.cpp:60-68 | Splitting KEY=value gives key and value back, whatever the value contains |
| `SelText.ParseAdditionalExactly` | devtool-mods/host-mods/selutility.cpp:60-79 | A text parses exactly if every entry has an equals sign; it has the keys of its entries, each with the value of the first entry that has it |
| `SelText.ToHexStr` | devtool-mods/host-mods/selutility.hpp:177-187 | The loop prints the hexadecimal text that reads back |
| `SelText.ScanDigits` | devtool-mods/host-mods/selutility.cpp:81-86 | The scanning loop gives the value of the leading digits |
| `SelText.Convert` | devtool-mods/host-mods/selutility.cpp:81-86 | The number, or none without digits or beyond an int |
| `SelText.ConvertVec` | devtool-mods/host-mods/selutility.cpp:89-100 | The bytes of all two-character pieces, or none if one has no value |
| `SelText.ParseAdditionalData` | devtool-mods/host-mods/selutility.cpp:70-79 | The loop keeps the first value of every key |
| `SelEvent.TextReadsBack` | devtool-mods/host-mods/elog-errors.hpp:3824-3905 | Any five values attached under the five keys come back under them |
| `SelEvent.LoggedTextRebuilds` | devtool-mods/host-mods/selutility.cpp:129-176 | For every system event request, the record rebuilt from its logged text, field by field |
| `SelEvent.AddThenGetPreservesEvent` | devtool-mods/host-mods/storagehandler.cpp:676-720 | For a known sensor, record type, generator, sensor number and type, revision 04h and data survive add and get; so does the direction up to the sensor's own bit 7 |
| `SelEvent.UnknownSensorRebuilds` | devtool-mods/host-mods/selutility.cpp:138-176 | An event of an unknown sensor comes back with sensor type 0, number FFh and event type 0, and all else as added |
| `SelEvent.RecordNeeds` | devtool-mods/host-mods/selutility.cpp:129-176 | A text gives a record only if all its entries are pairs and it has the four keys, and the direction if the sensor is known |
| `SelEvent.NumberPreservedExactlyIfKnown` | devtool-mods/host-mods/storagehandler.cpp:691-711 | The sensor number survives exactly for known sensors and for 0xFF |
| `SelEvent.ByNumberIsFirst` | devtool-mods/host-mods/storagehandler.cpp:694-701 | The first sensor of the table that has the number is the one that is logged |
| `SelEvent.ByPath` | devtool-mods/host-mods/selutility.cpp:144-149 | The sensor with the path, if there is one |
| `SelEvent.AddSel` | devtool-mods/host-mods/storagehandler.cpp:676-720 | A system record is logged as the text above, a procedure record runs its procedure, others do nothing |
| `SelEvent.SelBuilder.ConstructSEL` | devtool-mods/host-mods/selutility.cpp:129-176 | Filling the record field by field gives the constructed record, and fails exactly when there is none |
| `SelStore.RacingScanIsLoop` | devtool-mods/host-mods/storagehandler.cpp:191-213 | However the log changes between the reads of the init loop, the loop ends with the cache of the protocol's interleaved scan |
| `SelStore.GetReplyExactly` | devtool-mods/host-mods/storagehandler.cpp:292-397 | Every answer in terms of the cache alone: when each error is given; else the named entry's record and the least larger ID, FFFFh exactly if there is none, for entire and partial reads alike, and the partial read's start and length |
| `SelStore.HostIsGivenAll` | devtool-mods/host-mods/storagehandler.cpp:327-397 | A host that follows the next-record IDs of the replies is given every record of the cache exactly once, in the order of their IDs, whatever parts it reads |
| `SelStore.ScannedExactly` | devtool-mods/host-mods/storagehandler.cpp:191-213 | After the scan an ID has what it had in the cache, or else the first record it was converted to, if any |
| `SelStore.InitialisedExactly` | devtool-mods/host-mods/storagehandler.cpp:191-213 | The cache is filled once: left alone when initialised or when the log cannot be read, and else extended by exactly what converts |
| `SelStore.SelRepository.SelAddedCallback` | devtool-mods/host-mods/storagehandler.cpp:112-130 | The cache changes at the signalled id only, as the protocol's added handler says |
| `SelStore.SelRepository.SelRemovedCallback` | devtool-mods/host-mods/storagehandler.cpp:132-152 | The same for removed entries |
| `SelStore.SelRepository.SelUpdatedCallback` | devtool-mods/host-mods/storagehandler.cpp:154-162 | The same for updated entries |
| `SelStore.SelRepository.InitSELCache` | devtool-mods/host-mods/storagehandler.cpp:191-213 | Inserts every convertible entry without overwriting, and is initialised exactly if the log could be read |
| `SelStore.SelRepository.EnsureInitialized` | devtool-mods/host-mods/storagehandler.cpp:315-319 | A failed initialisation is tried again, a successful one never |
| `SelStore.SelRepository.GetSelInfoEntries` | devtool-mods/host-mods/storagehandler.cpp:247-290 | The entry count is the cache's size |
| `SelStore.SelRepository.GetSELEntry` | devtool-mods/host-mods/storagehandler.cpp:292-397 | Every reply and error, as GetReplyExactly says, and the cache afterwards, for every request |
| `SelStore.SelRepository.DeleteSELEntry` | devtool-mods/host-mods/storagehandler.cpp:409-479 | Accepted exactly under the reservation, which it uses up; the answer names the entry; the cache waits for the signal |
| `SelStore.SelRepository.ClearSEL` | devtool-mods/host-mods/storagehandler.cpp:491-538 | Which of the four answers is given, and that only an accepted erasure uses the reservation up |
| `SelStore.SelRepository.ReserveSEL` | devtool-mods/host-mods/storagehandler.cpp:653-656 | Returns the newly issued ID |
| `SelStore.SelRepository.AddSEL` | devtool-mods/host-mods/storagehandler.cpp:676-720 | Any add ends the reservation, and what is logged is the event's text |
| `SelStore.AnyKey` | devtool-mods/host-mods/storagehandler.cpp:321-346 | A cache with an entry has a first and a last one |
| `OrderedKeys.AscendingMeaning` | devtool-mods/host-mods/storagehandler.cpp:357-367 | Iterating from a key on visits exactly the keys in range, once each, ascending |
| `OrderedKeys.FirstIsLeast` | devtool-mods/host-mods/storagehandler.cpp:330-333 | begin() and ++ give the least key of their range, none exactly if it is empty |
| `OrderedKeys.LastIsGreatest` | devtool-mods/host-mods/storagehandler.cpp:334-346 | rbegin() gives the greatest key, none exactly if there is none |
| `OrderedKeys.WalkLength` | devtool-mods/host-mods/storagehandler.cpp:259-261 | An iteration is as long as the map has keys |
| `SdrWalk.WalkVisitsAll` | devtool-mods/host-mods/sensorhandler.cpp:1308-1419 | From record 0 every sensor, FRU and entity record is returned exactly once, in increasing ID order, in as many steps as there are records |
| `SdrWalk.WalkCompleteExactlyIfChained` | devtool-mods/host-mods/sensorhandler.cpp:1385-1394 | The walk returns every record exactly if FRU ids fit a byte and a FRU leads on to the entities |
| `SdrWalk.WalkFrom` | devtool-mods/host-mods/sensorhandler.cpp:1142-1419 | From any record the walk finishes its kind and goes on behind it |
| `SdrWalk.KindListed` | devtool-mods/host-mods/sensorhandler.cpp:1308-1419 | The list of a kind holds exactly its records, increasing, once each |
| `SdrWalk.NamedById` | devtool-mods/host-mods/sensorhandler.cpp:1324-1349 | A record's own ID names it, and is never the end mark |
| `SdrWalk.AfterIsNext` | devtool-mods/host-mods/sensorhandler.cpp:1385-1398 | The next-record ID of an inner record is that of its successor, without truncation |
| `Chunks.ReaderGetsAll` | devtool-mods/host-mods/storagehandler.cpp:824-843 | A reader that is given consecutive pieces of any sizes ends up with the string, as far as it has read; both reassembly theorems are instances |
| `SdrRepository.PartialReadsReassemble` | devtool-mods/host-mods/sensorhandler.cpp:1400-1412 | Consecutive partial reads of any sizes join up to the record |
| `SdrRepository.WalkAsLongAsReported` | devtool-mods/host-mods/storagehandler.cpp:859-880 | The walk has exactly the length that Get Repository Info reports |
| `SdrRepository.ReplyExactly` | devtool-mods/host-mods/sensorhandler.cpp:1142-1419 | Every answer to Get SDR: which error, or the ID of the next record - the least larger one of the kind, or the first of the kind behind it - and bytes of a header with record ID, version, type and length in front of the named record's body |
| `SdrRepository.HostIsGivenAll` | devtool-mods/host-mods/sensorhandler.cpp:1142-1419 | A host that follows the next-record IDs of the replies, at any offsets and counts inside the records, is given its part of every record once, in increasing ID order, in as many replies as there are records |
| `SdrRepository.SdrHandlers.FruGetSdr` | devtool-mods/host-mods/sensorhandler.cpp:1142-1232 | Answers FRU records as ReplyExactly says |
| `SdrRepository.SdrHandlers.EntityGetSdr` | devtool-mods/host-mods/sensorhandler.cpp:1234-1306 | Answers entity records as ReplyExactly says |
| `SdrRepository.SdrHandlers.SenGetSdr` | devtool-mods/host-mods/sensorhandler.cpp:1308-1419 | Answers as ReplyExactly says for every ID; the memo never changes an answer |
| `SdrRepository.SdrHandlers.GetRepositoryInfo` | devtool-mods/host-mods/storagehandler.cpp:859-880 | The record count is that of all three kinds |
| `HostCommands.StepKeepsInv` | devtool-mods/host-mods/host-cmd-manager.cpp:45-191 | Every event keeps: submitted commands are the completed ones followed by the queue |
| `HostCommands.ConservedInOrder` | devtool-mods/host-mods/host-cmd-manager.cpp:45-167 | In every run submitted = completed ++ queue, in FIFO order |
| `HostCommands.CallbackTellsHowItEnded` | devtool-mods/host-mods/host-cmd-manager.cpp:45-106 | The k-th completion is the k-th submission, fired at one event, with success exactly if that event is the host's read |
| `HostCommands.FiredOnce` | devtool-mods/host-mods/host-cmd-manager.cpp:45-106 | No two events fire the same callback |
| `HostCommands.PurgeFailsAll` | devtool-mods/host-mods/host-cmd-manager.cpp:84-106 | A power-on or expiry at the end of any run fires the callbacks of all that wait, in order, each with failure, and leaves the queue empty; a power-on leaves the timer as it was |
| `HostCommands.OthersFireAtMostOne` | devtool-mods/host-mods/host-cmd-manager.cpp:45-81 | Any other event fires the callback of the first command with success if it is a read, and else none; other transitions change nothing |
| `HostCommands.TimerRunsExactlyIf` | devtool-mods/host-mods/host-cmd-manager.cpp:109-145 | After every event the timer runs exactly if a first submission or a read that leaves something started it, or it ran and was not stopped |
| `HostCommands.StrandedExactlyIfAlertFails` | devtool-mods/host-mods/host-cmd-manager.cpp:109-145 | An event strands commands exactly if it has to start the timer for a waiting one, fails to, and leaves none running |
| `HostCommands.NeverStrandedExactlyIfNoAlertFails` | devtool-mods/host-mods/host-cmd-manager.cpp:45-191 | In every run commands are never stranded if and only if no alert ever fails |
| `HostCommands.StrandedExactlyUntilReadOrPurge` | devtool-mods/host-mods/host-cmd-manager.cpp:45-81 | Stranded commands wait on exactly until a read empties the queue or restarts the timer, or a power-on purges them; submitting more does not help |
| `HostCommands.NoCommandStranded` | devtool-mods/host-mods/host-cmd-manager.cpp:84-106 | Where no alert failed a waiting command has an armed timer, whose expiry completes everything, also after a purge |
| `HostCommands.HostDrainsQueue` | devtool-mods/host-mods/host-cmd-manager.cpp:45-81 | A host that reads on gets every queued command, in order, each with success |
| `HostCommands.Manager.GetNextCommand` | devtool-mods/host-mods/host-cmd-manager.cpp:45-81 | Refines the read step; the heartbeat exactly when the queue is empty |
| `HostCommands.Manager.HostTimeout` | devtool-mods/host-mods/host-cmd-manager.cpp:84-89 | Refines the expiry step |
| `HostCommands.Manager.ClearQueue` | devtool-mods/host-mods/host-cmd-manager.cpp:91-106 | The draining loop fails every queued command in order and leaves the queue empty |
| `HostCommands.Manager.CheckQueueAndAlertHost` | devtool-mods/host-mods/host-cmd-manager.cpp:109-145 | Starts the timer exactly if something waits |
| `HostCommands.Manager.Execute` | devtool-mods/host-mods/host-cmd-manager.cpp:148-167 | Refines the submit step; only the first waiting command alerts the host |
| `HostCommands.Manager.ClearQueueOnPowerOn` | devtool-mods/host-mods/host-cmd-manager.cpp:169-191 | Refines the power-on step, whose effect PurgeFailsAll states; the timer is left running |
| `SystemInfo.ReadIsSlice` | devtool-mods/host-mods/apphandler.cpp:1375-1406 | Get block k is the k-th sixteen-byte slice of [0, length] ++ string, block 0 zero-padded, out of range behind the end |
| `SystemInfo.BlocksJoin` | devtool-mods/host-mods/apphandler.cpp:1375-1406 | For every string, block after block gives the layout back, filled up to one block |
| `SystemInfo.WritingAllBlocksStoresString` | devtool-mods/host-mods/apphandler.cpp:1442-1498 | Block 0 and then the others, in any order and repetition, leave exactly the string, whatever was stored before - if and only if it has at most 255 bytes |
| `SystemInfo.LengthIsOneByte` | devtool-mods/host-mods/apphandler.cpp:1474-1486 | The stored length is the string's modulo 256 |
| `SystemInfo.WriteExactly` | devtool-mods/host-mods/apphandler.cpp:1472-1498 | What a write does to every byte: block 0 sets length and first bytes, keeps the others and fills up with zeros; another block sets its own bytes only, and is refused exactly behind the end |
| `SystemInfo.OneMoreBlock` | devtool-mods/host-mods/apphandler.cpp:1487-1497 | One write makes its block right and spoils none that was |
| `SystemInfo.SystemInfoCommands.EnsureStore` | devtool-mods/host-mods/apphandler.cpp:1360-1365 | The store is made once, with the system name in it |
| `SystemInfo.SystemInfoCommands.GetSystemInfo` | devtool-mods/host-mods/apphandler.cpp:1331-1407 | Every reply and error, in the order the code checks |
| `SystemInfo.SystemInfoCommands.SetProgress` | devtool-mods/host-mods/apphandler.cpp:1422-1440 | A second set-in-progress is refused, an unknown value is invalid, else it is stored |
| `SystemInfo.SystemInfoCommands.SetSystemInfo` | devtool-mods/host-mods/apphandler.cpp:1409-1499 | Every reply and error, and the store afterwards |
| `Registry.CmdKeyInjective` | devtool-mods/host-mods/ipmid-new.cpp:105-108 | Commands of clusters up to 24 bits share a key only if they are the same |
| `Registry.FoldKeepsHighest` | devtool-mods/host-mods/ipmid-new.cpp:139-197 | After any registrations each key has the handler of highest priority, the latest among equals |
| `Registry.ChosenExactly` | devtool-mods/host-mods/ipmid-new.cpp:236-281 | After any registrations the chosen handler is the command's own of highest priority, the latest among equals, or only if there is none its cluster's wildcard's |
| `Registry.OrderIndependent` | devtool-mods/host-mods/ipmid-new.cpp:139-197 | Any permutation with distinct priorities per key leaves the same map |
| `Registry.TiesDependOnOrder` | devtool-mods/host-mods/ipmid-new.cpp:153-160 | Two registrations commute exactly if their priorities differ or they are the same |
| `Registry.InsertKeepsDescending` | devtool-mods/host-mods/ipmid-new.cpp:200-215 | A filter inserted where it fits keeps the list sorted and every filter once |
| `Registry.FilterVerdict` | devtool-mods/host-mods/ipmid-new.cpp:219-234 | Success exactly if every filter passes, else the verdict of the first that does not |
| `Registry.Dispatcher.Register` | devtool-mods/host-mods/ipmid-new.cpp:150-160 | The map stays the fold of all registrations; accepted exactly if none of this key has a higher priority |
| `Registry.Dispatcher.RegisterHandler` | devtool-mods/host-mods/ipmid-new.cpp:139-161 | The same behind the check of the network function |
| `Registry.Dispatcher.PlaceFor` | devtool-mods/host-mods/ipmid-new.cpp:200-215 | The found place is behind all filters of higher priority and before all others, except that the first stays first among equals |
| `Registry.Dispatcher.RegisterFilter` | devtool-mods/host-mods/ipmid-new.cpp:200-215 | The filter is inserted at that place; the list stays sorted by descending priority with every filter kept once |
| `Registry.Dispatcher.FilterCommand` | devtool-mods/host-mods/ipmid-new.cpp:219-234 | The loop returns the first objection |
| `Registry.Dispatcher.Execute` | devtool-mods/host-mods/ipmid-new.cpp:236-281 | A handler runs exactly if one is found, exact key before wildcard, all filters pass and the privilege suffices; which error otherwise |
| `ObjectTree.FilterKeepsOrder` | devtool-mods/host-mods/transporthandler.hpp:345-384 | Selecting objects keeps the order of their paths |
| `ObjectTree.InsertedAllKeepsOrder` | devtool-mods/host-mods/include/ipmid/types.hpp:30-31 | Objects with new paths, created in any order, are listed in path order |
| `ObjectTree.OrderIsUnique` | devtool-mods/host-mods/include/ipmid/types.hpp:30-31 | There is one way only to list given objects in path order |
| `Vlan.ObjectLookupCache.Get` | devtool-mods/host-mods/transporthandler.hpp:393-402 | The memoising lookup agrees with a direct one and remembers it |
| `Vlan.FindIfAddr` | devtool-mods/host-mods/transporthandler.hpp:476-518 | The countdown finds the idx-th address of the family and origins |
| `Vlan.CollectStaticV6` | devtool-mods/host-mods/transporthandler.cpp:629-639 | Asking for index 0, 1, 2, ... is filtering and keeping the first fifteen |
| `Vlan.FindStaticNeighbor` | devtool-mods/host-mods/transporthandler.hpp:595-631 | The first permanent neighbor with the address |
| `Vlan.FindGatewayNeighbor` | devtool-mods/host-mods/transporthandler.cpp:395-407 | The gateway's permanent neighbor, if there is a gateway |
| `VlanReconfigure.SettingsKept` | devtool-mods/host-mods/transporthandler.cpp:640-649 | The new logical interface has the old DHCP setting, and the gateways are the old ones |
| `VlanReconfigure.DhcpAfterwards` | devtool-mods/host-mods/transporthandler.cpp:560-588 | DHCP is off on the physical interface once a VLAN is configured; every other setting but the new interface's is kept, or gone exactly if it was of a VLAN whose path contains the name |
| `VlanReconfigure.VlansAfterwards` | devtool-mods/host-mods/transporthandler.cpp:560-610 | Of the VLANs exactly those whose path does not contain the name are left, and the new one is there |
| `VlanReconfigure.SavedExactly` | devtool-mods/host-mods/transporthandler.cpp:626-643 | What is saved: an IPv4 address of origin static or DHCP, none exactly if there is none, and static IPv6 addresses, all of them or fifteen |
| `VlanReconfigure.SavedAreFirst` | devtool-mods/host-mods/transporthandler.hpp:476-518 | They are the first such addresses in path order |
| `VlanReconfigure.StaticNeighborIsFirst` | devtool-mods/host-mods/transporthandler.hpp:595-631 | The neighbor found for a gateway is the first permanent one with its address |
| `VlanReconfigure.IpsRebuilt` | devtool-mods/host-mods/transporthandler.cpp:618-666 | Below the new logical interface there are exactly the saved addresses, each once, as static ones and in path order |
| `VlanReconfigure.NeighborsRebuilt` | devtool-mods/host-mods/transporthandler.cpp:618-666 | Below it there are exactly the gateways' neighbors, in path order |
| `VlanReconfigure.AfterwardsExactly` | devtool-mods/host-mods/transporthandler.cpp:560-666 | The objects afterwards are the old ones whose path does not contain the interface's name, and those made again |
| `VlanReconfigure.ReconfigureKeepsReady` | devtool-mods/host-mods/transporthandler.cpp:618-666 | Everything that a reconfiguration asks of the network, distinct and ordered paths included, holds again for the new interface |
| `VlanReconfigure.NextOneLosesNothing` | devtool-mods/host-mods/transporthandler.cpp:618-666 | What survived one reconfiguration survives every further one, also if re-created objects get their old names again |
| `VlanReconfigure.FirstV4FoundAgain` | devtool-mods/host-mods/transporthandler.cpp:627-653 | Looking up the IPv4 address gives the old address and prefix |
| `VlanReconfigure.StaticV6FoundAgain` | devtool-mods/host-mods/transporthandler.cpp:629-657 | A lookup on the new interface finds exactly the saved static IPv6 addresses, as often as they were saved, whatever names the daemon gives |
| `VlanReconfigure.OrderKeptExactlyIfNamesAscend` | devtool-mods/host-mods/transporthandler.hpp:345-384 | It goes through them in the order of their creation exactly if the daemon's names ascend |
| `VlanReconfigure.EverythingInOrderExactlyIf` | devtool-mods/host-mods/transporthandler.cpp:629-657 | For pairwise different addresses: lookups see all of them in the old order exactly if there are at most fifteen and the names ascend |
| `VlanReconfigure.AllStaticV6PreservedExactlyUpToFifteen` | devtool-mods/host-mods/transporthandler.cpp:629-639 | As a multiset of address and prefix, all static IPv6 addresses survive exactly if there are at most fifteen |
| `VlanReconfigure.GatewayNeighborsFoundAgain` | devtool-mods/host-mods/transporthandler.cpp:641-665 | Both gateways' neighbors keep their hardware addresses |
| `VlanReconfigure.ElsewhereSurvivesExactlyIfNameAbsent` | devtool-mods/host-mods/transporthandler.cpp:569-584 | Away from the new interface an address or neighbor survives exactly if its path does not contain the interface's name |
| `VlanReconfigure.LongerNamesDestroyed` | devtool-mods/host-mods/transporthandler.cpp:571-574 | So the addresses of an interface with a longer name that contains this one are destroyed |
| `VlanReconfigure.TornDown` | devtool-mods/host-mods/transporthandler.cpp:560-588 | Nothing is left below any path that contains the interface's name |
| `VlanHandler.Channel.DeleteOwnObjects` | devtool-mods/host-mods/transporthandler.cpp:569-584 | The loop deletes exactly the objects whose path contains the name, and falls back to the physical interface if its own VLAN is among them |
| `VlanHandler.Channel.DeconfigureChannel` | devtool-mods/host-mods/transporthandler.cpp:560-588 | Then DHCP is turned off there; DhcpAfterwards states what that leaves |
| `VlanHandler.Channel.CreateVLAN` | devtool-mods/host-mods/transporthandler.cpp:596-610 | VLAN 0 changes nothing, any other becomes the logical interface |
| `VlanHandler.Channel.SaveSettings` | devtool-mods/host-mods/transporthandler.cpp:626-643 | What is saved is what direct lookups would give |
| `VlanHandler.Channel.CreateIps` | devtool-mods/host-mods/transporthandler.cpp:650-657 | Each saved address is created in turn and takes its place among the paths |
| `VlanHandler.Channel.RestoreSettings` | devtool-mods/host-mods/transporthandler.cpp:648-665 | Everything saved is created again |
| `VlanHandler.Channel.ReconfigureVLAN` | devtool-mods/host-mods/transporthandler.cpp:618-666 | The calls as a whole are the transformation that the preservation theorems are about, and re-establish what they require |

## Left out

Environment and scope:

- D-Bus, asio, the I2C driver, timers, clocks, logging and configuration files: their answers, failures and signals are
  events or parameters.
- Command handlers that get or set single properties, threshold and sensor-value scaling, DCMI, SOL, the whitelist
  filter, HMAC: easy or not about the cores above.

IPMB:

- One channel is modelled; allocation by another channel, which shares the static counter, is an event.
- `ipmbHandleRequest` dereferences the channel before it tests for a missing one, so the channel is assumed to exist.
- Requests from the bus (the rest of `processI2cEvent`), the command filter, and broadcast signals are not modelled.
- IpmbFrame.IpmbResponse.I2cToIpmbConstruct: needs eight bytes, because on the seven-byte frames that the receiver lets
  through the source's unsigned data length wraps around; IpmbBridge.ProcessI2cEvent requires that no response is so short.
- IpmbBridge.ReceiveResponse and IpmbBridge.IpmbChannel.Admit are parts of the rows' methods and have no row of their own.
- The timer's cancellation on a match only decides when a wake-up happens, and wake-ups may happen at any time.

FRU:

- `std::stoi` and the date patterns of `timeStringToRaw` are arbitrary functions; a missing `std::string` alternative is
  not modelled.
- A property that a table lists twice under one interface is moved from on first use; the model reads it again.
- FRU ids of the cache are the byte that the command carries.

SEL:

- Log ids are the sixteen-bit keys that `getLoggingId` makes of them; two live entries with equal keys are not modelled.
- What a log entry converts to is one value per entry: other than SEL-logger entries, OEM records, procedure log entries
  and time stamps are inside it.
- The few bus calls that convert one log entry are one read of it; the log changes before or after them.
- SelStore.SelRepository.GetSELEntry: a partial read states where it starts (twice the offset, by the source's pointer
  arithmetic) and its length, not its bytes.
- SelStore.SelRepository.ClearSEL: what clearing does to the log is a run of deletions with their signals.
- `std::from_chars` without a value leaves the source's result uninitialised; the model has no value there. A record
  whose assertions fail (`parseEntry`, `constructSEL`) has none either.

SDR:

- SdrRepository.SdrHandlers.SenGetSdr: with no sensors at all record 0 is out of bounds in the source, and excluded.
- How a sensor record's body is populated, and the layout of FRU and entity records behind the header.

Others:

- HostCommands.Manager.GetNextCommand: callbacks do not call back into the manager; the heartbeat code FFh stands for the
  constant of a header that is not part of this model.
- Registry.Dispatcher.RegisterHandler: the group and OEM maps are further instances of the same map with their own
  cluster numbers; filters give one verdict per request; handlers are never null.
- VlanReconfigure.IpsRebuilt: text forms of addresses and failing daemon calls are not modelled.
- VlanHandler.Channel.ReconfigureVLAN: the daemon gives the objects of one reconfiguration different names, and names
  VLANs after their interface, apart from it.
