# A model of the BMS bridge

The bridge polls JK and Pylontech batteries, keeps their history, and answers an inverter as if it were a stack of
Pylontech modules. This project models the parts of it that carry protocols, arithmetic and bookkeeping, and proves
what they guarantee. `dafny verify dfyconfig.toml` checks all of it.

| files | part of the bridge |
|---|---|
| `ScanCoordinator`, `BleProtocol`, `BleProperties`, `BleEquipment`, `BleClient` | any number of BLE clients competing for one scan/connect slot: the coordinator object, the clients as a transition system with every interleaving, what holds in every run, what each client has at hand in each state, and the client object whose handlers are runs of that system |
| `EventQueue` | the queue and eventfd counter between producers and the dispatcher, as an object and with producers and dispatcher interleaved |
| `Samples`, `Paging` | the history queries, and the server that pages through them |
| `Energy`, `History`, `BatteryNames` | trapezoidal energy, daily aggregation and purge over time, row ids and their cache |
| `Framing`, `FrameRoundTrip`, `CapturedFrames`, `FrameStream` | Pylontech frames: builder, parser, two captured requests, extraction from a byte stream |
| `Payload`, `PylontechMaster` | payload codecs, and the receiver that polls a Pylontech battery |
| `Capacity`, `Config`, `AddressMap`, `Advertising`, `Replies`, `Inverter`, `SentLimits` | scaling of capacities, accepted configurations, the modules each battery is split into, the limits they advertise, also against what the batteries have sent, the answers to the inverter |
| `JkAssembler`, `JkProtocol`, `JkLayout` | reassembly and decoding of the 300-byte frames of a JK BMS, and a writer of both layouts that the decoder reads back |
| `Bms`, `Bytes`, `Arith`, `Wrappers` | shared entities, fixed-width integers, division facts, options |

Objects whose methods update their fields are classes here (`BleScanCoordinator`, `BleClient`, `BmsEventQueue`,
`HttpServer`, `History`, `BatteryTable`, `BeReader`, `PylontechMasterProtocol`, `Inverter`, `JkFrameAssembler`,
`JkProtocol`); each method is proved to compute a function of the old state, and the properties are proved of those
functions and of runs made from them. Outcomes of Bluetooth calls, clocks, generated request ids and the freshness of
telemetry are parameters or free choices.

Where the code departs from its own words, or from what one would like to claim, the model follows the code:

- Two clients can be in state `Scan` at once: a stop handler releases the slot before it leaves the state
  (`BleProperties.TwoClientsInScan`); mutual exclusion holds for all clients that are not past that release
  (`BleProperties.ScannerHoldsSlot` is an equivalence).
- A second request by the holder runs its grant callback again (src/ble_scan_coordinator.cpp:15-16), though
  include/ble_scan_coordinator.hpp:19 calls it a no-op (`ScanCoordinator.WhoIsGranted`, equivalences);
  `BleProperties.NoSecondRequest` shows that no client makes one.
- Scaling a total capacity above 2^32 - 65000 mAh divides by zero (`Capacity.ScalingFails`, an equivalence); the inverter
  object then stops with `fault`, which only an undivided monitored battery can cause (`Inverter.OnlyHugePacksFault`). A
  configured capacity whose 32-bit value in mAh is that large, a small negative one for instance
  (`AddressMap.NegativeCapacityHasNoAddress`), gives a battery no address at all (`AddressMap.NoAddress`, an equivalence).
- A negative charge current limit of a Pylontech battery becomes a huge one (src/pylontech_master.cpp:121-122), and each of
  its modules then advertises 3276.7 A (`SentLimits.NegativeLimitLooksHuge`). The advertised sum stays within what the
  battery has sent if and only if that is not negative (`SentLimits.BlockStaysWithinSent`).
- A client that comes online clears its work descriptor after the release, and with it the signal of a disconnect that has
  already happened (`BleProperties.EarlySignalCanBeLost`); signals raised later are kept (`BleProperties.SignalStaysPending`).
- The JK driver handles one frame per chunk: telemetry followed by settings in one chunk is lost
  (`JkProtocol.LongChunkLosesTelemetry`). Chunks of at most 300 bytes lose nothing (`JkProtocol.ShortChunksSkipNothing`).
- A frame cut in two comes out if and only if its first piece has at most 4096 bytes (`FrameStream.CutFrameComesOut`).
- A valid JK frame is completed if and only if the assembler's buffer is empty when its first byte arrives
  (`JkAssembler.CompletedExactly`). So a stray 0x55 in front of it, or a predecessor that was cut short, loses it
  (`JkAssembler.StrayMagicByteLosesFrame`, `JkAssembler.CutFrameLosesNext`).
- The layout of a JK cell frame is guessed from the place of the mask (src/jk_protocol.cpp:147-151). A pack of 25 cells in the
  layout of 32 slots is misread when its last cell is at 4095 mV, or at any other voltage from 15 mV on that is one below a power of two
  (`JkLayout.TwentyFifthCellLooksLikeMask`, `JkLayout.WideReadsBack`, an equivalence).
- The purge of old samples is skipped when no day is pending (src/history.cpp:517, `History.PurgeRunsOnlyWithPendingDays`),
  and samples stay for eight days, while include/history.hpp:70-71 speaks of purging the aggregated days.
- A reserve does not show the 100% of include/inverter.hpp:20 but its mirror's percentage of its own capacity
  (src/inverter.cpp:146-147), and that if and only if capacity in mAh times percentage fits 32 bits
  (`Advertising.ReserveShowsMirrorsCharge`, kept by slicing: `Advertising.SlicedReserveKeepsPercentage`). It always does
  up to 16575 Ah (`Advertising.UsualReservesFit`); a reserve of 42950 Ah with a full mirror shows 327 mAh
  (`Advertising.LargeReserveLooksEmpty`). When a reserve looks full is `Advertising.ReserveLooksFull`, an equivalence.

## Model

| member | source | states |
|---|---|---|
| ScanCoordinator.BleScanCoordinator.Request | src/ble_scan_coordinator.cpp:10-28 | the critical section of a request: the holder and a free slot grant, a queued owner is not queued twice, others join at the end |
| ScanCoordinator.BleScanCoordinator.Release | src/ble_scan_coordinator.cpp:30-48 | the critical section of a release: a holder hands over to the front of the queue, anybody else only withdraws |
| ScanCoordinator.WhoIsGranted | src/ble_scan_coordinator.cpp:13-25 | a request grants if and only if the slot is free or already the owner's, and changes nothing if and only if the owner holds it or is queued |
| ScanCoordinator.WithoutKeepsOrder | src/ble_scan_coordinator.cpp:34-37 | withdrawing removes exactly the owner and moves nobody back |
| BleProtocol.StepKeepsInv | src/ble_client.cpp:166-280 | every step of any client, callback or event keeps the invariant that places each client at the coordinator: away, queued, called, owner, or gone |
| BleProtocol.ReachableInv | src/ble_client.cpp:282-332 | the invariant holds in every state of every run of any number of clients |
| BleClient.BleClient.EnterState | src/ble_client.cpp:166-220 | entering a state, with the states it leads to at once, does to client, slot and grant what the protocol's steps do |
| BleClient.BleClient.EnterSlotState | src/ble_client.cpp:183-214 | the same for the states that request or release the slot |
| BleClient.BleClient.StartScan | src/ble_client.cpp:64-97 | scanning needs an adapter and forgets an old match; a failure drops the adapter |
| BleClient.BleClient.ConnectToPeripheral | src/ble_client.cpp:105-154 | connected exactly if there is a peripheral and the calls succeed; a failure drops it |
| BleClient.BleClient.OnStopEvent | src/ble_client.cpp:230-234 | stopping drops the peripheral, releases the slot and only then installs the state |
| BleClient.BleClient.OnWorkEvent | src/ble_client.cpp:236-262 | a match while scanning connects, a signal while online backs off, anything else is ignored |
| BleClient.BleClient.OnSlotEvent | src/ble_client.cpp:226-228 | a grant is used only while waiting for the slot |
| BleClient.BleClient.OnTimerExpired | src/ble_client.cpp:264-280 | an expired timer probes again, ends the scan, or ends the backoff; a stale one does nothing |
| BleClient.BleClient.HandleEvent | src/ble_client.cpp:311-326 | one iteration of the event loop is the protocol's handler run to its end |
| BleClient.HandlersAreRuns | src/ble_client.cpp:222-280 | in every reachable state what the client object's handler does, undisturbed, is a run of the protocol's steps in which only that client steps, whatever other events are waiting |
| BleProperties.ScannerHoldsSlot | src/ble_client.cpp:188-204 | in every reachable state a client in Scan or Connect is the holder if and only if it has not passed the release in its stop handler |
| BleProperties.MutualExclusion | src/ble_client.cpp:166-280 | of two clients in Scan or Connect one has passed that release |
| BleProperties.TwoClientsInScan | src/ble_client.cpp:230-234 | a run of two clients that ends with both in Scan |
| BleProperties.SlotNeverStranded | src/ble_scan_coordinator.cpp:30-48 | in every reachable state the slot is free with nobody waiting, or held by a client with a grant in flight or unread, scanning with a timer, connecting, or about to release |
| BleProperties.NoSecondRequest | src/ble_client.cpp:183-186 | a client that requests the slot neither holds it, waits for it, nor has a grant on its way |
| BleProperties.SlotMovesOn | src/ble_client.cpp:188-214 | while a client holds the slot some due step is possible; no step takes it farther from its release and the due one, whatever its outcome, brings it closer |
| BleProperties.HolderDueStepsAreBounded | src/ble_client.cpp:188-214 | a holder keeps the slot through at most 45 due steps of any run |
| BleProperties.WaiterMovesUp | src/ble_scan_coordinator.cpp:40-45 | a waiter that is not stopped is never overtaken and moves up at every change of hands |
| BleProperties.FirstComeFirstServed | src/ble_scan_coordinator.cpp:23-45 | in any run without its stop, a waiter at index k has held the slot by the time it has changed hands k + 1 times |
| BleProperties.WaiterPays | src/ble_scan_coordinator.cpp:30-48 | every step due to the holder lowers what a waiter still has to sit through, also the step that hands the slot to somebody else |
| BleProperties.WaitingIsBounded | src/ble_scan_coordinator.cpp:23-45 | in any run without its stop, a waiter at index k has held the slot once the holders have taken 46 * (k + 1) due steps |
| BleProperties.SignalStaysPending | src/ble_client.cpp:236-262 | a work signal raised while a client is in the loop of Online stays readable or reported for as long as the client is Online |
| BleProperties.EarlySignalCanBeLost | src/ble_client.cpp:206-209 | a reachable state and three steps by which one raised in Online before the loop is cleared unhandled |
| BleProperties.OneGrantAtATime | src/ble_client.cpp:184-185 | at most one grant for a client is unread or in flight |
| BleProperties.OneGrantPerRequest | src/ble_scan_coordinator.cpp:10-48 | along any run a client is signalled at most once per request |
| BleEquipment.StepKeepsEquipped | src/ble_client.cpp:166-280 | every step of any client keeps: it probes exactly without a dongle, waits for the slot, scans and connects only with one, has a peripheral exactly from the match to the end of the connection, and has a timer pending where only a timer moves it on |
| BleEquipment.ReachableEquipped | src/ble_client.cpp:264-280 | the same in every reachable state: in particular a client in WaitAdapter has no dongle, and one in WaitSlot, Scan, Connect or Online has one |
| BleEquipment.FailedScanNeedsProbe | src/ble_client.cpp:64-97 | in any run after a failed scan the client is in WaitAdapter, Backoff or Stopping until a probe has found a dongle again |
| BleEquipment.ConnectNeedsMatch | src/ble_client.cpp:236-249 | in any run without a match reported to it a client never connects: a match left over from an earlier scan is not used |
| BleEquipment.HandledIsConsumed | src/ble_client.cpp:311-326 | a handled event's descriptor is quiet afterwards, and handling makes no other readable and silences none but the timer |
| EventQueue.BmsEventQueue.Push | src/event_queue.cpp:20-27 | the event goes to the end of the queue and the counter is nonzero afterwards |
| EventQueue.BmsEventQueue.TryPop | src/event_queue.cpp:29-35 | the front of the queue is returned and removed; nothing if it is empty |
| EventQueue.BmsEventQueue.DrainNotify | src/event_queue.cpp:37-40 | the counter is read down to zero |
| EventQueue.BmsEventQueue.Pump | src/ble_transport.cpp:33-44 | undisturbed, everything queued is delivered in order and queue and counter are empty |
| EventQueue.StepKeepsInv | src/event_queue.cpp:20-40 | every step of any producer or the dispatcher keeps: pushed is delivered followed by queued, and a queued event has a nonzero counter, a producer about to write, or a consumer at work |
| EventQueue.NothingLostOrStranded | src/event_queue.cpp:20-40 | the same in every reachable state |
| EventQueue.StopsOnlyWhenDelivered | src/ble_transport.cpp:33-44 | without new events the system can stop only when everything pushed has been delivered |
| EventQueue.EverythingIsDelivered | src/ble_transport.cpp:33-44 | from any reachable state a run without new events is bounded, and when it ends every event has been delivered in order |
| Samples.BucketHasNewest | src/history.cpp:383-399 | in the decimated query every sample has the newest of its bucket less than a step after it |
| Samples.SelectIsPage | src/history.cpp:374-399 | a query answers, newest first, one sample per bucket, the newest in it, leaves out no bucket unless the limit is reached and then only older ones, and at most `limit` samples |
| Samples.PageIsUnique | src/history.cpp:374-399 | nothing else is such an answer |
| Paging.RangeIsPage | src/history.cpp:345-435 | so `range_by_id` is determined: a page is its answer if and only if it is decimated, complete and within the limit |
| Paging.HttpServer.HandleHistoryInitial | src/http_server.cpp:509-551 | the first page, and a context exactly if something older is left in the window |
| Paging.HttpServer.HandleHistoryNext | src/http_server.cpp:478-507 | the next page with a step computed afresh; the context shrinks, or goes when nothing older is left |
| Paging.HttpServer.OnSweep | src/http_server.cpp:259-270 | exactly the expired contexts are dropped |
| Paging.SmallerBelow | src/http_server.cpp:493-498 | the samples left in a kept context's window are strictly fewer |
| Paging.StepNeverGrows | src/http_server.cpp:487-489 | a shrunken window is never answered with a wider step |
| Paging.PagesDescend | src/http_server.cpp:485-504 | all pages of a window together are strictly descending, so without duplicate or overlap, and hold only samples of the window |
| Paging.PagesCover | src/history.cpp:383-433 | every sample x of the window has a delivered y with 0 <= y - x < max(1, first step) |
| Paging.PagesSpan | src/http_server.cpp:485-504 | the first delivered sample is the window's newest, the last its oldest, no page is empty and there are no more pages than samples |
| Paging.PagesAreDecimated | src/http_server.cpp:485-504 | every page, with the step computed afresh for what is left, has at most one sample per bucket, leaves none out, and has at most `count` samples |
| Paging.StepFillsWindow | src/http_server.cpp:535-537 | as many buckets as samples asked for, 100 by default, span the window up to less than a millisecond each |
| Paging.DeliveredAsRequested | src/http_server.cpp:509-533 | everything delivered is a sample of the battery in the window asked for in seconds, by default the last 24 hours |
| Paging.PageOfIsFirstPage | src/http_server.cpp:489-504 | page and probe are the first page of the window and whether it continues |
| Paging.OthersKeepPromise | src/http_server.cpp:259-270 | newer samples, other requests and sweeps before expiry leave a context's promised pages alone |
| Paging.NextKeepsPromise | src/http_server.cpp:478-507 | a next answers the first promised page and promises the rest |
| Paging.SessionDelivers | src/http_server.cpp:478-507 | over any such interleaving the k-th next answers the k-th promised page, and later ones that the id is unknown |
| Paging.InitialPromises | src/http_server.cpp:509-551 | the initial page and the pages it promises are those of the requested window |
| Paging.FollowingNextDeliversWindow | src/http_server.cpp:478-551 | a request followed by its nexts delivers the pages of the requested window in order, whatever happens between |
| Paging.TimelyNextDeliversWindow | src/http_server.cpp:259-270 | the same if every sweep comes less than 300 seconds after the last answer, as each answer extends the context |
| Paging.LateSweepEndsSession | src/http_server.cpp:259-270 | a sweep 300 seconds or more after the last answer ends the session |
| Energy.Integrate | src/history.cpp:539-566 | the loop over a day's rows sums the positive segments and the negated others |
| Energy.ChargedMinusDischargedIsNet | src/history.cpp:562-563 | both totals are non-negative and their difference is the trapezoid |
| Energy.LinePointAddsNothing | src/history.cpp:559-563 | a sample on the straight line between its neighbours changes neither the net nor charged minus discharged: the sum is the area under the line through the samples |
| Energy.ConstantEnergy | src/history.cpp:548-563 | constant mV and mA over ms give mV * mA * ms / 3.6e12 Wh, all charge for a current into the battery and all discharge for one out of it |
| Energy.DaysAndCrossingsAreWhole | src/history.cpp:531-568 | daily nets and the segments across midnights sum to the trapezoid of the whole history |
| History.History.Append | src/history.cpp:217-280 | a sample is added under its battery and time, rows stay |
| History.History.AggregatePending | src/history.cpp:481-609 | rows for exactly the pending closed days, then the purge; nothing if no day is pending |
| History.StepKeepsInv | src/history.cpp:481-609 | appends, the clock and aggregations keep: samples and rows agree with all samples ever appended |
| History.RowsAreNeverRewritten | src/history.cpp:492-529 | in every history a row keeps its value for good |
| History.RowsAreExact | src/history.cpp:538-568 | every row is the energy over all samples ever appended on its day, and the day is closed |
| History.ConstantDay | src/history.cpp:538-568 | the row of a day of constant readings holds their product over the time between the day's first and last sample, on the right side |
| History.AggregationCoversClosedDays | src/history.cpp:492-515 | after an aggregation every closed day with a sample has its row |
| History.PurgedOnlyAfterAggregation | src/history.cpp:597-608 | a sample leaves only with its day's row in place and eight days after its day |
| History.PurgeRunsOnlyWithPendingDays | src/history.cpp:517-517 | old samples are gone if and only if a day was pending or there were none |
| History.RowsBalanceHistory | src/history.cpp:531-568 | after an aggregation the rows of a battery and the segments across midnights account for the trapezoid over its whole closed history |
| BatteryNames.BatteryTable.LoadBatteryCache | src/history.cpp:294-309 | the cache becomes the table |
| BatteryNames.BatteryTable.BatteryRowId | src/history.cpp:154-191 | known names keep their id, a missing one is numbered exactly on request, the cache agrees with the table |
| BatteryNames.BatteryTable.BatteryName | src/history.cpp:326-331 | the name with that id if the cache holds one, else empty |
| BatteryNames.NameReadsBack | src/history.cpp:154-191 | the name of a name's id is the name |
| Framing.ChecksumOver | src/pylontech.cpp:42-46 | the two's complement of the 16-bit sum |
| Framing.ComputeLengthField | src/pylontech.cpp:36-40 | the arithmetic on nibbles finds the first number with the low twelve bits of the length whose nibbles sum to 0 modulo 16 |
| Framing.LengthFieldChecks | src/pylontech.cpp:36-40 | the nibbles of LENGTH sum to 0 modulo 16; the length can be read back if and only if it fits twelve bits |
| Framing.BuildPylontech | src/pylontech.cpp:121-144 | SOI, the encoded fields, their checksum, EOI |
| Framing.TryParsePylontech | src/pylontech.cpp:50-119 | consumed, discarded or awaited bytes, and the frame, for every buffer |
| FrameRoundTrip.ParseUndoesBuild | src/pylontech.cpp:50-144 | a built frame followed by anything parses to itself, for every INFO |
| FrameRoundTrip.BuildUndoesParse | src/pylontech.cpp:87-144 | rebuilding an accepted frame reproduces its bytes if and only if they are upper-case with a canonical LENGTH |
| FrameRoundTrip.BuiltLengthIsInfoLength | src/pylontech.cpp:130-131 | LENGTH carries the number of INFO digits if and only if it is below 4096 |
| FrameRoundTrip.AnyLengthIsAccepted | src/pylontech.cpp:70-120 | the parser does not look at LENGTH: a frame with any two bytes in its place parses, followed by anything |
| CapturedFrames.AnalogRequestIsBuilt | tests/pylontech_test.cpp:11-15 | the builder writes the captured request byte by byte |
| CapturedFrames.SystemRequestIsAccepted | tests/pylontech_test.cpp:17-22 | the captured request whose LENGTH announces an INFO that is not there is accepted with an empty one |
| FrameStream.ParseMakesProgress | src/pylontech.cpp:50-70 | a nonzero result covers between one byte and the whole buffer |
| FrameStream.ResidueAwaitsFrame | src/pylontech_master.cpp:58-68 | what extraction leaves is a suffix that is empty, or starts with SOI, has no EOI and at most 4096 bytes |
| FrameStream.ExtractInTwo | src/pylontech_master.cpp:53-68 | if no SOI is followed by 4096 bytes without EOI, extraction does not depend on a cut |
| FrameStream.ChunkingIsIrrelevant | src/pylontech_master.cpp:53-68 | nor on any way of cutting the stream into chunks |
| FrameStream.FittingChunksAreIrrelevant | src/inverter.cpp:83-103 | nor on chunks, for any stream, none of which takes the buffer over 4096 bytes |
| FrameStream.ShortChunksFit | src/pylontech.cpp:62-65 | if no SOI is followed by m bytes without EOI, chunks of up to 4096 - m bytes are such chunks |
| FrameStream.BuiltFramesComeOut | src/pylontech.cpp:50-144 | built frames between SOI-free noise are extracted exactly, in order, with nothing left |
| FrameStream.BuiltFramesSurviveChunking | src/pylontech_master.cpp:53-68 | the same under any chunking for frames of at most 4097 bytes |
| FrameStream.CutFrameComesOut | src/pylontech.cpp:62-65 | a frame cut in two at any place comes out if and only if the first piece has at most 4096 bytes |
| Payload.SerializeAnalog | src/pylontech.cpp:238-252 | the analog payload, counts cut to a byte |
| Payload.BeReader.U16 | src/pylontech.cpp:172-177 | a word at the cursor, or 0 and a remembered failure past the end |
| Payload.DeserializeAnalog | src/pylontech.cpp:198-218 | accepted exactly if long enough for the embedded counts, and the fields read |
| Payload.DeserializeSystem | src/pylontech.cpp:220-236 | accepted exactly from 25 bytes on, and the fields read |
| Payload.AnalogRoundTrip | src/pylontech.cpp:198-252 | an analog payload decodes to itself if and only if it has at most 255 cells and 255 temperatures |
| Payload.AnalogReadsBack | src/pylontech.cpp:198-252 | in that case also with anything after it |
| Payload.SystemRoundTrip | src/pylontech.cpp:220-287 | system parameters have 25 bytes and decode to themselves for all values |
| Payload.CountsFitBytes | src/pylontech.cpp:203-209 | a decoded payload has at most 255 cells and temperatures |
| PylontechMaster.FillCellStats | src/pylontech_master.cpp:19-34 | the statistics of the voltages, in 32- and 16-bit arithmetic |
| PylontechMaster.ExtremesAreFirst | src/pylontech_master.cpp:24-29 | the indices are the first of the largest and the first of the smallest voltage |
| PylontechMaster.CellStatsAreExact | src/pylontech_master.cpp:30-33 | up to 255 cells nothing wraps: average between the extremes, spread their distance |
| PylontechMaster.TotalAdds | src/pylontech_master.cpp:24-30 | the sum of a concatenation is the sum of the sums, and of one voltage the voltage |
| PylontechMaster.StateOfChargeIsPercentage | src/pylontech_master.cpp:97-102 | the percentage is the charge rounded down, at most 100, and 0 for no capacity |
| PylontechMaster.PylontechMasterProtocol.Feed | src/pylontech_master.cpp:53-133 | the frames of buffer and data are absorbed in order, later results replacing earlier ones, and the residue stays |
| PylontechMaster.PylontechMasterProtocol.AbsorbFrame | src/pylontech_master.cpp:70-131 | what one frame contributes, and the cell count known after it |
| PylontechMaster.FeedInTwo | src/pylontech_master.cpp:53-133 | feeding in two pieces leaves the same residue and cell count, and the results combine last-wins to that of the whole |
| PylontechMaster.ChunksFeedAlike | src/pylontech_master.cpp:53-133 | the same for any number of chunks |
| PylontechMaster.AnalogAnswerIsDecoded | src/pylontech_master.cpp:76-107 | a battery's analog answer, however cut into chunks, is decoded to the voltage, current, capacities, cycles and temperatures sent, and to a state of charge that is remaining over total as a percentage rounded down, 100 above full and 0 without capacity |
| PylontechMaster.SystemAnswerIsDecoded | src/pylontech_master.cpp:108-127 | its system parameters, however cut into chunks, are decoded to the cell limits, temperatures and currents sent, at the cell count known |
| PylontechMaster.OnlyAnswersCount | src/pylontech_master.cpp:70-131 | frames from other addresses and with other commands can be left out of any stream without a trace |
| PylontechMaster.LastAnswerWins | src/pylontech_master.cpp:107-129 | a later answer replaces an earlier one of its kind and leaves the other kind alone |
| PylontechMaster.SettingsCarryCellCount | src/pylontech_master.cpp:107-126 | system parameters after an analog answer carry the cell count of its telemetry |
| PylontechMaster.LimitsSurvive | src/pylontech_master.cpp:121-125 | the charge limit is decoded to itself if and only if it is not negative, the discharge limit always to its magnitude |
| PylontechMaster.ReceivedCellsFitByte | src/pylontech_master.cpp:76-107 | telemetry decoded from any frames has at most 255 cells |
| Capacity.ScalingFails | src/pylontech.cpp:354-361 | scaling divides by zero if and only if the total exceeds 2^32 - 65000 |
| Capacity.ScalingKeepsCharge | src/pylontech.cpp:346-361 | scaled capacities stay in order and at most 65000; their ratio is off by less than one part in 65000; small packs are unchanged |
| Capacity.RatioSurvives | src/inverter.cpp:156-158 | dividing both capacities and rounding down keeps their order and nearly their ratio |
| Capacity.ModulesRoundUp | src/pylontech.cpp:365-369 | up to 16575 Ah the count is the capacity in modules rounded up, at least one |
| Capacity.SharesFit | src/pylontech.cpp:365-369 | no module if and only if the rounding wraps; otherwise a share fits 65000 mAh if and only if the capacity is below 255 * 65001 mAh |
| Config.LoadBatteries | src/config.cpp:178-233 | the first error in the order of the checks, or all batteries |
| Config.ErrorsAreExact | src/config.cpp:178-233 | no error if and only if there are batteries, names differ, sections are complete and every reserve names a monitored battery |
| Config.ErrorIsTrue | src/config.cpp:178-233 | a reported error is a fault some section has; the sections before it are complete with different names, and mirrors are looked at only if all are |
| AddressMap.BuildAddressMap | src/inverter.cpp:35-61 | the blocks of the batteries, one after the other |
| AddressMap.BlocksInOrder | src/inverter.cpp:51-52 | a battery owns consecutive addresses after its predecessors', as many as its count, all carrying that count |
| AddressMap.EveryAddressHasOwner | src/inverter.cpp:35-61 | every address lies in the block of some battery |
| AddressMap.SourceIsMonitored | src/inverter.cpp:38-46 | in an accepted configuration every module shows a monitored battery: its own or the mirror it names |
| AddressMap.BlocksFitCapacity | src/inverter.cpp:48-52 | up to 16575 Ah a block has max(1, capacity rounded up) modules, and a share fits 65000 mAh |
| AddressMap.NoAddress | src/inverter.cpp:48-52 | a battery has no address if and only if its 32-bit capacity is among the last 64999 values |
| Advertising.ChargeLimitSlices | src/inverter.cpp:159-159 | n modules together advertise no more than the charge limit, and fall short by less than n * 100 mA if and only if the field does not clamp |
| Advertising.DischargeLimitSlices | src/inverter.cpp:160-160 | the same for the magnitude of the discharge limit |
| Advertising.CurrentSlices | src/inverter.cpp:156-156 | n modules together show a current of the right sign and no larger, short by less than n * 100 mA if and only if the field does not clamp |
| Advertising.NeverOverAdvertises | src/inverter.cpp:132-160 | for any telemetry all addressable modules together advertise charge and discharge limits within those of the monitored batteries plus 0.5C per reserve |
| Advertising.BlockUsesBudget | src/inverter.cpp:132-160 | with telemetry at hand the modules of a battery together use its limit, or 0.5C for a reserve, down to less than 100 mA per module, if and only if their fields do not clamp |
| Advertising.ReserveLimitIsHalfC | src/inverter.cpp:149-152 | the limit of a reserve is 500 mA per Ah if and only if tenths of it fit 32 bits and the capacity is not negative |
| Advertising.CurrentStaysWithin | src/inverter.cpp:148-156 | summed over all addressable modules, the current is within the charge and the discharge the monitored batteries carry |
| Advertising.BlockShowsCurrent | src/inverter.cpp:148-156 | the modules of a monitored battery together show its current, cut by less than 100 mA per module if and only if their fields do not clamp; those of a reserve show none |
| Advertising.SlicedChargeStaysInOrder | src/inverter.cpp:146-158 | slicing keeps remaining <= total, also for a reserve at its mirror's state of charge, and moves a monitored battery's ratio by less than the rounding of one share |
| Advertising.ReserveShowsMirrorsCharge | src/inverter.cpp:146-147 | a reserve shows its mirror's percentage of its own capacity if and only if their product fits 32 bits |
| Advertising.ReserveLooksFull | src/inverter.cpp:146-147 | exactly when a reserve's remaining capacity equals its total; for percentages, at 100% with a capacity that does not wrap |
| Advertising.SlicedReserveKeepsPercentage | src/inverter.cpp:146-158 | a reserve's module stays within one mAh of its mirror's percentage if and only if the product fits 32 bits |
| Advertising.UsualReservesFit | src/inverter.cpp:146-147 | it does for every capacity up to 16575 Ah |
| Advertising.LargeReserveLooksEmpty | src/inverter.cpp:146-147 | 42950 Ah and a full mirror yield 327 mAh |
| Replies.SerializeAlarm | src/pylontech.cpp:254-270 | the alarm payload, field by field |
| Replies.SerializeManagement | src/pylontech.cpp:289-304 | the charge management payload with its five status bits |
| Replies.Respond | src/inverter.cpp:162-172 | the answer to each of the four commands as a frame, none to others, and where the program divides by zero |
| Replies.AnswersAreWellFormed | src/pylontech.cpp:322-472 | with at most 255 cells every answer parses back to itself at the request's address, with LENID equal to its INFO digits and nibbles summing to 0 modulo 16 |
| Replies.FaultsExactly | src/pylontech.cpp:388-389 | the program faults if and only if an analog request meets a total above 2^32 - 65000 |
| Replies.TemperatureReadsBack | src/pylontech.cpp:332-334 | temperatures survive the conversion to Kelvin and back for all values |
| Replies.AnalogAnswerReadsBack | src/pylontech.cpp:371-397 | an analog answer echoes the command and decodes to exact cells and temperatures, current cut to 100 mA if and only if not clamped, the scaled capacities and the percentage they stand for |
| Replies.SystemAnswerReadsBack | src/pylontech.cpp:431-453 | a system parameter answer decodes to exact cell and temperature limits, to module limits that are the cell's times the cell count or 65535, and to currents no larger, within 100 mA if and only if not clamped |
| Replies.ManagementAnswerReadsBack | src/pylontech.cpp:454-472 | a charge management answer as bytes: command echoed, module limits as cell limits times cell count or 65535, bit 7 set exactly if charging and bit 6 exactly if discharging is enabled, no other bit |
| Replies.AlarmAnswerIsNormal | src/pylontech.cpp:399-421 | an alarm answer echoes the command and is 0 everywhere but for the two counts and the normal status 0x0E |
| Replies.AlarmCountsMatchAnalog | src/pylontech.cpp:407-411 | alarm and analog answers of a module announce the same numbers of cells and temperatures |
| Replies.LimitsAgree | src/pylontech.cpp:431-472 | both answers with limits agree, signs are right, and the order of the cell limits carries over to the module limits |
| Replies.ManagementIsUnambiguous | src/pylontech.cpp:289-304 | different charge management directives are different on the wire |
| Inverter.Inverter.OnBytes | src/inverter.cpp:79-90 | bytes join the buffer, or replace it on overflow; the requests in it are answered in order, each from the telemetry at its time, and the residue stays |
| Inverter.Inverter.ProcessBuffer | src/inverter.cpp:92-179 | the same for a filled buffer: foreign addresses, missing telemetry and unknown commands are passed over in silence |
| Inverter.BufferAwaitsFrame | src/inverter.cpp:83-103 | between calls the buffer is empty or the beginning of a frame of at most 4096 bytes |
| Inverter.ResynchronisesAfterOneFrame | src/inverter.cpp:83-103 | requests that arrive whole: one behind a broken one is lost unless the buffer overflows; in any case the next one is found |
| Inverter.EndEmptiesBufferInPieces | src/inverter.cpp:83-103 | bytes that end in EOI leave the buffer empty, whatever it held, in any pieces, with or without overflow |
| Inverter.ResynchronisesInPieces | src/inverter.cpp:79-103 | the same loss and recovery for requests in pieces: after a request behind a broken one, however cut, the next of up to 4096 bytes is found, however cut |
| Inverter.PiecesAreServedAlike | src/inverter.cpp:79-103 | without overflow, requests in any list of pieces are answered, from the telemetry at each request, like requests that arrive at once |
| Inverter.UartReadsAreServedAlike | src/uart_transport.cpp:140-144 | any requests of up to 3585 bytes between noise are answered in order however reads of up to 512 bytes cut them |
| Inverter.OnlyHugePacksFault | src/inverter.cpp:132-158 | the program faults if and only if an analog request meets an undivided battery with a total above 2^32 - 65000 |
| Inverter.AnsweredRequests | src/inverter.cpp:105-172 | a request is answered (or ends the program) if and only if it is one of the four commands, at an address from 2 on that is a module's, and that module's source has fresh telemetry |
| Inverter.SourceOnTheWire | src/inverter.cpp:128-165 | an analog answer shows cells, temperatures, voltage and cycles of the module's source as they are |
| Inverter.EveryAnswerIsWellFormed | src/inverter.cpp:128-177 | whatever bytes the telemetry was decoded from, every answer is a well-formed frame that parses back to itself at the address asked for |
| Inverter.AdvertisedIsOnTheWire | src/inverter.cpp:162-167 | limits and current decoded from the answers are those the sums over all modules are about |
| Inverter.ChargeOnTheWireIsInOrder | src/pylontech.cpp:388-391 | the capacities answered for a module are in order, fit, and keep its ratio to one part in 65000 |
| SentLimits.BlockStaysWithinSent | src/pylontech_master.cpp:121-125 | the modules of a monitored battery together advertise no more than it has sent if and only if that is not a negative charge limit |
| SentLimits.NeverOverAdvertisesSent | src/inverter.cpp:132-160 | without negative charge limits all addressable modules together stay within the limits the batteries have sent, plus 0.5C per reserve |
| SentLimits.NegativeLimitLooksHuge | src/pylontech_master.cpp:121-122 | with any negative charge limit each module of the battery advertises 3276.7 A; -1 is decoded to 4294967196 mA |
| JkAssembler.JkCrc8 | src/jk_protocol.cpp:75-79 | the sum modulo 256, though accumulated in 16 bits |
| JkAssembler.Crc8Adds | src/jk_protocol.cpp:75-79 | the check byte of one byte is the byte, and check bytes of consecutive pieces add up modulo 256 |
| JkAssembler.JkFrameAssembler.PushChunk | src/jk_protocol.cpp:87-115 | afterwards partial frame and frame to take are those of all bytes since the reset, in whatever chunks |
| JkAssembler.JkFrameAssembler.TakeCompleteFrame | src/jk_protocol.cpp:117-122 | the latest frame completed since the last take, once; it has the magic and a right sum |
| JkAssembler.FramesAreSlices | src/jk_protocol.cpp:87-115 | every frame ever completed is a contiguous 300-byte slice of the bytes since the reset with magic and sum, and slices do not overlap |
| JkAssembler.FramesComplete | src/jk_protocol.cpp:87-115 | from a reset, valid frames between noise without 0x55 complete exactly, in order |
| JkAssembler.CompletedExactly | src/jk_protocol.cpp:92-113 | after any bytes, a valid frame is completed if and only if the buffer is empty when its first byte arrives |
| JkAssembler.StrayMagicByteLosesFrame | src/jk_protocol.cpp:98-103 | a 0x55 right before a frame loses it, and leaves nothing of it behind if it holds no other 0x55 |
| JkAssembler.CutFrameLosesNext | src/jk_protocol.cpp:96-113 | a frame cut short at any place loses the next one |
| JkAssembler.QuietRegainsAlignment | src/jk_protocol.cpp:92-113 | whatever was received, after 299 bytes without 0x55 the next valid frame is completed |
| JkAssembler.ShortChunkCompletesOne | src/jk_protocol.cpp:87-115 | a chunk of at most 300 bytes completes at most one frame, whatever was received before |
| JkProtocol.BitmaskMeansCells | src/jk_protocol.cpp:147-151 | the layout test recognises exactly the masks of enabled cells from four cells on |
| JkProtocol.ParseCellInfo | src/jk_protocol.cpp:138-205 | all telemetry of a cell frame in either layout, with every read inside the frame |
| JkProtocol.CellsBeforeFirstEmpty | src/jk_protocol.cpp:156-162 | the cells are the slots before the first zero |
| JkProtocol.CellCountIsBounded | src/jk_protocol.cpp:151-162 | at most 32 cells, at most 24 if the mask is recognised |
| JkLayout.NarrowReadsBack | src/jk_protocol.cpp:138-205 | a frame written in the layout of 24 slots, with a mask of at least four cells, decodes to the telemetry written, whatever the other bytes |
| JkLayout.WideReadsBack | src/jk_protocol.cpp:138-205 | a frame written in the layout of 32 slots decodes to the telemetry written if and only if its 25th and 26th cell do not look like a mask; up to 24 cells they never do |
| JkLayout.TwentyFifthCellLooksLikeMask | src/jk_protocol.cpp:147-151 | a pack of 25 cells whose last is at 4095 mV is misread |
| JkLayout.TelemetryCanBeWritten | src/jk_protocol.cpp:153-205 | every telemetry whose cell indices can be counted from 1 in a byte can be written |
| JkLayout.SettingsReadBack | src/jk_protocol.cpp:239-280 | a settings frame with any settings written into it is valid and handled as these settings, whatever its other words |
| JkProtocol.JkProtocol.Feed | src/jk_protocol_driver.cpp:21-52 | a chunk yields what the last frame it completes contributes, and nothing if it completes none |
| JkProtocol.ShortChunksSkipNothing | src/jk_protocol_driver.cpp:21-52 | in chunks of at most 300 bytes every completed frame is handled, in order |
| JkProtocol.LongChunkLosesTelemetry | src/jk_protocol_driver.cpp:21-52 | any cell frame followed by a settings frame in one chunk loses its telemetry, which two chunks would have kept |

## Left out

- Interleaving of `BleClient` handlers: the class runs each handler undisturbed; interleavings are the transition system's, on values.
- BLE environment: matches, disconnects and failed writes may signal at any moment and more often than SimpleBLE would; an adapter scan left running by a stopped client is not modelled.
- Reconnecting after a lost connection: a signal raised before `Online` clears its descriptor can be lost (`BleProperties.EarlySignalCanBeLost`), and no bound is given on when a later one is handled.
- epoll, eventfd, timerfd, signals, threads and failing system calls: only pending signals, armed timers and arriving bytes.
- SQLite: statements succeed, and a day with a failing insert is not modelled, though the purge ignores such failures.
- Floating point: energy is computed in reals, so rounding of the sums is not captured.
- History.History.Append: two samples of one battery in the same millisecond are one row here and two in the database, because samples are known by battery and time; histories are runs without such pairs.
- Samples: cells and the other columns; times below a millisecond.
- Paging while old samples are purged: sessions are followed with appends, other requests and sweeps only.
- Dates: a day is its number since the epoch, not a formatted string.
- The in-memory window of recent samples, the monthly energy query and the sorted list of batteries: easy members.
- libconfuse: parsing and its validation hooks, and a section without `type`, whose link the program leaves unset.
- AddressMap.BuildAddressMap: the address byte logged for each block, which wraps, is not modelled; addresses beyond 255 exist in the map and cannot be asked for.
- Inverter.Inverter.OnBytes: a division by zero ends the call with `fault`; what the buffer holds then is not modelled.
- JK requests, device information and the settings fields the inverter does not use.
- The bridge's own answers carry command byte 0, so its receiver would not dispatch them; they are composed with it at the payload level.
- HTTP routing, JSON, request id generation (an id is assumed not to be in use), the web front end, logging and packaging.
