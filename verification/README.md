# Verified model of the gateway's data kernels

A home-automation gateway reads sensors over serial and radio links, keeps their values in monthly
SQLite files and answers queries over them. This project models its four stateful kernels in Dafny
and proves what they are for.

1. **Statistics engine** (`Stats`, `Lookup`, `Rollup`, `DayRecord`, `RetimedTimes`, `Months`,
   `QueryList`, `QueryMarks`, `QueryMerge`, `Eviction`): raw samples become day records with 48 half-hour slots and two validity
   masks, days become months, days and months become query results, a dead-band filter makes the
   point list, and old month files are evicted.
2. **Serial framing and message codec** (`Frames`, `SerialPort`, `Chunks`, `Packets`, `NetCodec`,
   `Clips`): frames `BC AC len payload AC`, a chunked parser with a cache, a byte-at-a-time parser,
   the printer, typed network messages, and the splitter of oversized device frames with its
   receive loop.
3. **Radio protocol** (`Radio`, `RadioProtocol`, `RadioTransfer`, `Heartbeat`): a message goes out in fragments of at
   most 28 bytes, one per timer tick, crosses a lossy in-order channel and is put together again;
   child nodes age out through a two-stage time-out.
4. **Sampling and queues** (`Sampling`, `Draining`): spike rejection, save-on-change, the sample
   buffer drained in batches of one month, and the reduction of an address queue.

Code that changes objects is modelled by classes with the source's fields and by methods with the
source's loops. Each such method is proved against a specification function or predicate, and the
lemmas prove what that specification means over all inputs, all runs, all cuttings of a stream and
all loss patterns. `dafny verify dfyconfig.toml` checks everything.

## Where the code does not do what its comments or its purpose suggest

The code is modelled as it is. Each of these is stated and proved.

- A statistic merge that is given a time range tests the receiving record instead of the incoming
  one: the range leaves the merge as it is exactly when the receiver's own extreme times are in it
  (`RangedMergeIsPlain`). No caller passes a range here.
- A day statistic with a range takes extremes from the range but sums and counts from all samples it
  is given; the count is that of the range exactly when every valid sample is in it
  (`RangedCountAgrees`). A query up to now loads the samples from 35 minutes before the range to 10
  minutes behind it, day by day, and merges such records: its extremes are those of the range, its count
  is right exactly when every loaded part of a day that holds a valid sample in range holds none out of
  it (`RangedMergeCountAgrees`).
- Re-timing moves the attaining times of a day record onto half hours. They are then up to ten minutes
  before the first samples that attain the extremes, every such distance occurs (`EveryDistanceOccurs`),
  and they are the first times exactly when no earlier slot shows an extreme
  (`RetimingKeepsFirstTimes`). The bound holds for months and queries (`MonthOfDays`, `QueryOverMonths`).
- Hour buckets count exactly the queried window if and only if the bucket length divides the length
  of the window (`BucketsCoverExactly`).
- Marking days without a record breaks the dead-band list exactly when there is a dead band and such a
  day lies between two visited slots (and the list may have a point at all): an unchanged value behind
  it is not listed again and reads as invalid (`GapsFaithfulExactly`).
- A list that was asked to hold no two invalid points side by side may hold them after the marking: it
  never does exactly when at most one marked day lies in front of all visited slots and none behind one,
  but for a single slot with a single marked day behind it (`MarkingKeepsApartExactly`).
- Eviction gets down to the configured maximum exactly when none of the oldest files it would have to
  delete is in use. Otherwise it gives up above it: before each deletion it looks at every older file in
  use once more, each look costs a step, and it has as many steps as there are files above the maximum
  (`DataStoreMgr.DeleteOld`).
- The day-statistics probe of an open database takes a use that nothing gives back, which keeps
  `DBMgr_Check` from ever deleting the file (`ProbedIsPinned`); use counts tell what callers hold exactly
  when no probe has found the file open (`UseIsHeldExactly`, `ProbesRemain`).
- The serial parser looks at the two bytes behind a chunk. A printed stream is delivered intact,
  whatever those bytes hold, if and only if no parsed chunk ends one or two bytes into a frame
  (`DeliveredExactlyWhenCutWell`).
- Reading a string does not subtract its bytes from the size left; the size reaches 0 behind the last
  value exactly when no string of the message has contents (`SizeReachesZero`).
- A lost radio fragment is not noticed: the reassembly still finishes with the last fragment and equals
  the message exactly when nothing was lost (`LossyDelivery`). When the first fragment is lost, a slot
  left over from an earlier message of the same command goes on: it takes each middle fragment in front
  of which as many were lost as its counter says, and it finishes, mixing two messages, exactly when the
  last one arrives and the counter has not wrapped to 0 (`LostFirstFragment`).
- A known child that is discovered again keeps its time-out counter, so it has 8 heartbeat rounds, as a
  new child has, exactly when it arrives online and that counter is 0, or 255 and about to wrap
  (`ArrivalKeepsBound`). A discovery brings it online; a request to add a child, known or new, sets it
  offline and never keeps the bound (`AddedLosesBound`): at the front of the list it is dropped after at
  most 5 rounds (`AddedIsDroppedEarly`).
- The minimum tracker of an address compares like the maximum tracker and always equals it
  (`BothTrackersHoldTheMaximum`, `MinimumOnlyWhenAllEqual`).
- The test whether a time belongs to a save point is a disjunction that every time meets (the `ensures`
  of `IsTimePoint`); after a save in the last minute of a half hour every further reading of it is saved
  (`LastMinuteSavesAll`).
- A split frame of a module whose reception is switched off loses everything behind its first clip, because
  the receive loop returns instead of going on (`SplitAndReceive`).
- A batch of samples whose insert fails is deleted all the same: over every run exactly the samples of
  failed batches are missing, and nothing is missing from a month exactly when all its batches committed
  (`NothingLostOverRuns`).

## Model

| member | source | states |
|---|---|---|
| Stats.Stat.AnalyseSample | gsiot/src/DataStoreMgr.cpp:48-76 | one sample updates extremes, their times and the valid flag, if a range end is 0 or begin <= time <= end, and otherwise changes nothing |
| Stats.Stat.AnalyseSub | gsiot/src/DataStoreMgr.cpp:79-115 | the merge of a sub-statistic, unless both range ends are given and an extreme time of the receiver is not in [begin, end]; then nothing changes |
| Stats.Stat.CalcAvg | gsiot/src/DataStoreMgr.h:92-95 | the average is the quotient of sum and count rounded towards zero, also for a negative sum, and 0 without samples; nothing else changes |
| Stats.OnePass | gsiot/src/DataStoreMgr.cpp:963-980 | folding a list of raw samples gives exactly their valid flag, extremes, first attaining times (before any re-timing) and count, and an average less than 1 from the true mean, never above it for non-negative values |
| Stats.AverageTowardsZero | gsiot/src/DataStoreMgr.h:92-95 | the average of a list of samples never lies farther from 0 than its true mean, on either side of 0 |
| Stats.AbsorbExtremes | gsiot/src/DataStoreMgr.cpp:94-114 | merging the statistics of two sample lists gives the flag and extremes of their concatenation |
| Stats.MergeSummary | gsiot/src/DataStoreMgr.cpp:1142-1180 | merging records keeps flag, extremes and count exact for all raw samples below them and adds less than 1 to the error of the average |
| Stats.MergeFirstTimes | gsiot/src/DataStoreMgr.cpp:97-109 | merging records in time order keeps the times at which the extremes were first attained |
| Stats.PartsToOnePass | gsiot/src/DataStoreMgr.cpp:1041-1058 | statistics made of ordered parts without re-timing, as the hour buckets are, merge to flag, extremes, first attaining times and count of the whole, average less than 2 off |
| RetimedTimes.RetimedDayIsNear | gsiot/src/DataStoreMgr.cpp:988-1032 | the times of a re-timed day record are at most 600 seconds before the first samples that attain its extremes, and never after them |
| RetimedTimes.RetimingKeepsFirstTimes | gsiot/src/DataStoreMgr.cpp:1007-1031 | they are the first attaining times if and only if no earlier slot shows an extreme |
| RetimedTimes.EveryDistanceOccurs | gsiot/src/DataStoreMgr.cpp:1007-1031 | a day whose only sample lies 1 to 600 seconds behind its beginning is recorded with that beginning as the time of both extremes |
| RetimedTimes.MergeNearTimes | gsiot/src/DataStoreMgr.cpp:97-109 | merging rows whose times keep that bound keeps it |
| Stats.SummaryIsUnique | gsiot/src/DataStoreMgr.cpp:48-115 | two statistics that summarise the same samples agree in flag, count, extremes and first times, so the merge is independent of how samples were grouped |
| Stats.AverageIsNear | gsiot/src/DataStoreMgr.h:92-95 | the error bound read over the reals: the stored average is within the number of aggregation levels of sum divided by count |
| Stats.RangedMergeIsPlain | gsiot/src/DataStoreMgr.cpp:81-92 | a range leaves the merge as it is, for every incoming statistic, if and only if the receiver's extreme times are in it; a fresh record takes a valid statistic in if and only if the range does not exclude 0 |
| Lookup.LeftIsBefore | gsiot/src/DataStoreMgr.cpp:118-145 | the upper-bound search yields the latest sample at or before t within the range, and only that |
| Lookup.RightIsAfter | gsiot/src/DataStoreMgr.cpp:149-174 | the lower-bound search yields the earliest sample at or after t within the range, and only that |
| Lookup.NearestRefinesScan | gsiot/src/DataStoreMgr.cpp:844-919 | found exactly when a sample lies within the ranges; exact hit first; the later neighbour only when alone, or nearer and under 60 s away; otherwise the earlier one |
| Lookup.DefaultWindow | gsiot/src/DataStoreMgr.h:8-9 | with the default ranges a sample is found exactly when one lies in [t - 2100, t + 600] |
| Rollup.GetOneStatForSpecTime | gsiot/src/DataStoreMgr.cpp:922-948 | the statistic of a time range is one pass over exactly the samples of that range |
| Rollup.WindowMembers | gsiot/src/DataStoreMgr.cpp:924-928 | the two searches bound exactly the samples whose times are in the range |
| Rollup.DoStatHourLst | gsiot/src/DataStoreMgr.cpp:1041-1058 | an entry for every bucket that holds a valid sample, the one-pass statistic of its samples, and no other entry |
| Rollup.BucketsPartition | gsiot/src/DataStoreMgr.cpp:1043-1050 | consecutive buckets put together are exactly the samples of the whole window and their counts add up to its count |
| Rollup.BucketsMergeToOnePass | gsiot/src/DataStoreMgr.cpp:1041-1058 | merging the buckets in order gives extremes, first attaining times and count of one direct pass |
| Rollup.BucketsCoverExactly | gsiot/src/DataStoreMgr.cpp:1043-1047 | the buckets count exactly the window for every sample list if and only if the bucket length divides its length |
| DayRecord.MaskRoundTrip | gsiot/src/DataStoreMgr.cpp:1034-1035 | bit i of the number made from a mask, read by the bit test or by dividing by 2^i, is slot validity i |
| DayRecord.SlotBits | gsiot/src/DataStoreMgr.cpp:1981-1986 | the validity of slot i < 24 is bit i of the first stored number, that of a later slot bit i - 24 of the second |
| DayRecord.DayRec.DoStatDay | gsiot/src/DataStoreMgr.cpp:952-1038 | the two masks and 48 values record, for every i < 48, validity and value of the sample chosen for dayBegin + i * 1800, none if that is still to come; the extremes are those of the valid samples with begin <= time <= end (all if a range end is 0), the count that of all; re-timing only moves their times earlier, onto slots whose chosen valid sample has that value |
| DayRecord.DayRec.FoldSource | gsiot/src/DataStoreMgr.cpp:963-980 | the folding loop computes the ranged fold of the raw list |
| DayRecord.DayRec.RetimeSlot | gsiot/src/DataStoreMgr.cpp:1008-1031 | one slot of the re-timing pass, as `Retime` says |
| DayRecord.RetimeStep | gsiot/src/DataStoreMgr.cpp:1007-1031 | each slot keeps the invariant of the re-timing pass: the time is the earliest of the original one and the hitting slots so far |
| DayRecord.RangedDay | gsiot/src/DataStoreMgr.cpp:963-980 | with a range, extremes are those of the valid samples with begin <= time <= end, read off the whole list, with the first attaining times among them, while count and average are those of all samples given |
| DayRecord.InRangeMembers | gsiot/src/DataStoreMgr.cpp:50-56 | the samples taking part in the extremes are those with begin <= time <= end, or all if a range end is 0 |
| DayRecord.InRangeInOrder | gsiot/src/DataStoreMgr.cpp:50-56 | each of them takes part once and in the order of the list |
| DayRecord.RangedCountAgrees | gsiot/src/DataStoreMgr.cpp:973-976 | the count of a ranged day is that of the range if and only if every valid sample has begin <= time <= end, or a range end is 0 |
| Months.DoStatMonthAll | gsiot/src/DataStoreMgr.cpp:1142-1180 | there is a record for a key if and only if some valid day has its object, year and month; the record is the merge of exactly the days with that object, year and month, in order; records of different keys are different objects |
| Months.MonthSummarises | gsiot/src/DataStoreMgr.cpp:1142-1180 | a month record summarises all raw samples of exactly the days with its object, year and month, average less than 2 off |
| Months.MonthInOrder | gsiot/src/DataStoreMgr.cpp:1142-1158 | rows and samples of a month are those of the days with its object, year and month, each once and in order |
| Months.RetimingKeepsSummary | gsiot/src/DataStoreMgr.cpp:1007-1031 | re-timed day records still summarise their raw samples, so they may be merged |
| Months.MonthOfDays | gsiot/src/DataStoreMgr.cpp:1142-1180 | a month merged from stored, re-timed day records has flag, extremes and count of all raw samples of exactly the days with its object, year and month, an average less than 2 off, and times at most ten minutes before the first attaining samples |
| Months.QueryOverMonths | gsiot/src/DataStoreMgr.cpp:2251-2269 | a query over such months has flag, extremes and count of all raw samples below it, an average less than 3 off and not above the mean for non-negative values, and the same bound on the times |
| Months.RetimedRangedRow | gsiot/src/DataStoreMgr.cpp:2889-2892 | a day record made for a query range, re-timed, has the extremes of the valid samples with begin <= time <= end and the count of all samples it was made of |
| Months.RangedMerge | gsiot/src/DataStoreMgr.cpp:2872-2907 | merging such records gives flag and extremes of the valid samples of all days with begin <= time <= end, and the whole counts of the loaded days that hold one of them |
| Months.RangedMergeCountAgrees | gsiot/src/DataStoreMgr.cpp:2872-2907 | that count is the count of the samples in range if and only if every loaded day that holds a valid sample with begin <= time <= end holds no valid one outside |
| Months.MonthsToQuery | gsiot/src/DataStoreMgr.cpp:2246-2272 | the query statistic over months is their merge and its running sum is their weighted sum |
| QueryList.FilterIsFaithful | gsiot/src/DataStoreMgr.cpp:1976-2056 | from the first valid slot on, each visited slot has the validity of the latest listed point at or before it and, when valid, the same value or one less than the dead band away (in values, or in grades); adjacent points of equal validity lie at least the dead band apart, one way or the other; every point carries time, flag 2 or 0, and value of a slot; `prev_valid` is the validity of the last listed point; a limited run stops with max + 1 points, and holds at most max otherwise |
| QueryList.StepInv | gsiot/src/DataStoreMgr.cpp:1986-2055 | one slot keeps the whole invariant of the filter, also on the path that skips the update of `prev_valid` |
| QueryList.GapsFaithfulExactly | gsiot/src/DataStoreMgr.cpp:2059-2092 | marking days without a record keeps the list faithful, for all slot contents with which the query stays within its limit, if and only if there is no dead band, or no marked day lies between two visited slots, or the limit is 0 |
| QueryMarks.MarkingKeepsApartExactly | gsiot/src/DataStoreMgr.cpp:2005-2011 | with remove_invalid, marking days keeps invalid points apart for all slot contents if and only if at most one marked day lies in front of all slots and none behind one, but for a single slot with one marked day behind it |
| QueryMerge.QueryStat.TakeSlot | gsiot/src/DataStoreMgr.cpp:1986-2055 | the loop body is one step of the filter on the loop variables and the list |
| QueryMerge.QueryStat.TakeDay | gsiot/src/DataStoreMgr.cpp:1974-2056 | the slot loop of a day runs the filter over every step-th half hour of it within the query range and stops at the limit |
| QueryMerge.QueryStat.FromDays | gsiot/src/DataStoreMgr.cpp:1938-2069 | the result is the merge of the valid days; the list is that of the filter over the visited slots, with an invalid point at every missing day behind the first valid one unless the limit was hit or nothing was valid; the return code tells whether it was |
| QueryMerge.QueryStat.FixInvalidFullDay | gsiot/src/DataStoreMgr.cpp:2071-2092 | for a first day that reaches into the query, adds an invalid point at exactly the times first + k * 86400 < end with k >= 1 that no day record covers, and leaves every other point as it is |
| QueryMerge.MarkedExactly | gsiot/src/DataStoreMgr.cpp:2074-2090 | for first > begin - 86400, a time is marked if and only if it is first + k * 86400 < end for some k >= 1 and no day record covers it |
| QueryMerge.MarkedDays | gsiot/src/DataStoreMgr.cpp:2074-2090 | for any first day, the same among the days the loop looks at: the k-th if (k - 1) * 86400 <= end - begin, or k = 1 and the range does not go back a day |
| QueryMerge.VisitedAscending | gsiot/src/DataStoreMgr.cpp:1944-1984 | the slots of days in order are visited in strictly ascending time order, within their days |
| QueryMerge.VisitedExactly | gsiot/src/DataStoreMgr.cpp:1974-1984 | visited are exactly the slots dayBegin + i * 1800 of valid days with i < 48 a multiple of the step and the time in [begin, end], each with validity i and value i of its day |
| QueryMerge.VisitedShowsSamples | gsiot/src/DataStoreMgr.cpp:1971-1986 | every visited slot of a recorded day has validity and value of the sample chosen from its raw list for the slot's time, at most 2100 s before or 600 s behind it, or none if the time was still to come at the recording: writing and reading the record is a round trip |
| QueryMerge.QueryListIsFaithful | gsiot/src/DataStoreMgr.cpp:1938-2069 | end to end, with or without a limit: the returned list shows every visited slot of the stored days, up to the slot that hit the limit, within the dead band, outside the one failing case; before the marking its neighbouring points lie at least the dead band apart, and the marking puts an invalid point at exactly the missing days |
| Eviction.DataStoreMgr.DeleteOld | gsiot/src/DataStoreMgr.cpp:2516-2552 | terminates; deletes a free file if and only if the steps up to it, one for each free file and one more for every older file in use, are no more than the files above the maximum; never goes below the maximum; reaches it if and only if none of the surplus oldest files is in use |
| Eviction.DataStoreMgr.Check | gsiot/src/DataStoreMgr.cpp:2467-2560 | due when asked for, when there was no check, or 21600000 ms after the last on the 32-bit clock; then the configured number, at least 3, is never undercut, and if none of the surplus oldest files is in use exactly the newest so many are left; which outcomes mark the check as done |
| Eviction.DataStoreMgr.IsStatDay | gsiot/src/DataStoreMgr.cpp:2394-2405 | the probe leaves the use count one higher |
| Eviction.DataStoreMgr.Set | gsiot/src/DataStoreMgr.cpp:2349-2366 | a newly opened database starts with use count 0; one that is open already is refused and left as it is |
| Eviction.DataStoreMgr.Get | gsiot/src/DataStoreMgr.cpp:2414-2431 | taking an open database raises its use count by one |
| Eviction.DataStoreMgr.Release | gsiot/src/DataStoreMgr.cpp:2384-2392 | giving it back lowers the count by one |
| Eviction.EvictionIsSafe | gsiot/src/DataStoreMgr.cpp:2518-2552 | files are kept or deleted, none in use is deleted, and one is deleted only if every older remaining file is in use |
| Eviction.NewestAreLeft | gsiot/src/DataStoreMgr.cpp:2460-2465 | when the maximum is reached, exactly the newest files are left |
| Eviction.ProbedIsPinned | gsiot/src/DataStoreMgr.cpp:2394-2431 | after a probe the file is in use in every later legal run, and every `DBMgr_Check` that would have to delete it stays above the maximum |
| Eviction.ProbesRemain | gsiot/src/DataStoreMgr.cpp:2394-2431 | a run leaves a probe's use of a file behind if and only if there was one before or some probe found the file open |
| Eviction.HeldIsInUse | gsiot/src/DataStoreMgr.h:427-470 | over every run without such a probe a file is in use exactly while some caller holds it |
| Eviction.UseIsHeldExactly | gsiot/src/DataStoreMgr.cpp:2384-2431 | that holds for all such runs from here if and only if no earlier probe has taken a use of the file |
| Frames.ScanIsParse | gsbox/src/hardware.cpp:61-95 | on bytes whose hunting phase never runs out of header bytes, scanning memory is parsing the byte stream |
| Frames.ScanWindow | gsbox/src/hardware.cpp:63-66 | a scan depends on its bytes and at most the two behind them |
| Frames.ScanBlock | gsbox/src/hardware.cpp:72-81 | copying a block at once is copying its bytes one at a time |
| Frames.ScanHunts | gsbox/src/hardware.cpp:62-70 | while no BC AC stands at a position the hunt goes on one byte behind it |
| Frames.ScanFrame | gsbox/src/hardware.cpp:62-95 | at a BC AC the length byte says which bytes are the payload; it is delivered if and only if an AC follows, and the hunt goes on behind that byte either way |
| Frames.DeliveredAreFrames | gsbox/src/hardware.cpp:61-95 | whatever the memory holds, the payloads delivered are those of complete frames BC AC len payload AC in it, in order and without overlap |
| Frames.ParseConcat | gsbox/src/hardware.cpp:61-95 | parsing in two pieces is parsing the whole, state and payloads, where the first piece is clean |
| Frames.StreamRoundTrip | gsbox/src/packet.cpp:219-231 | printed frames of any payloads of 1 to 255 bytes parse to exactly those payloads, in order |
| SerialPort.Hardware.OnEvent | gsbox/src/hardware.cpp:37-97 | caches a short chunk between frames or parses cache and chunk together; the cache stays below 5 bytes and is empty while a frame is open; the payloads delivered are those of the memory scan |
| SerialPort.Hardware.Process | gsbox/src/hardware.cpp:61-95 | the block-copy loop delivers exactly what the byte-at-a-time reading of the same memory delivers and ends in the same state |
| SerialPort.ObsoleteServer.OnDataRead | gsbox/src/obsolete.cpp:301-327 | the byte-at-a-time loop implements the same reading, so both parsers agree from equal states, bad end bytes and zero lengths included |
| Chunks.RunSynced | gsbox/src/hardware.cpp:37-97 | over any chunking in which parsed chunks end well, parser state and cache together account for exactly the bytes arrived |
| Chunks.WellCutIsDelivered | gsbox/src/hardware.cpp:37-97 | a printed stream cut that way is delivered completely and leaves nothing behind |
| Chunks.DeliveredExactlyWhenCutWell | gsbox/src/hardware.cpp:42-66 | delivery is exact, whatever lies behind the chunks, if and only if no parsed chunk ends one or two bytes into a frame |
| Packets.LittleEndian | gsbox/src/packet.cpp:38-95 | 16- and 32-bit values come back over their full ranges |
| Packets.WireLayout | gsbox/src/packet.cpp:104-143 | the bytes of a typed value: type byte 4, 3, 5, 1 or 2, then the value low byte first, a string behind its 16-bit length |
| Packets.TakeWritten | gsbox/src/packet.cpp:104-200 | each typed read returns what the matching typed write stored and leaves the cursor behind it; the size is too large by the bytes of a string |
| Packets.TakeMismatched | gsbox/src/packet.cpp:145-200 | a read of another type than the next byte says yields 0, false or the empty string and moves nothing |
| Packets.Packet.Encode | gsbox/src/packet.cpp:104-143 | a typed write puts tag, length and value at the cursor and changes nothing else |
| Packets.Packet.Decode | gsbox/src/packet.cpp:145-200 | a typed read takes the value off the cursor on a matching tag, the size short by a string's length; a boolean is true for byte 1 only; on another tag it yields zero and leaves the packet as it is |
| Packets.Packet.ReadPacket | gsbox/src/packet.cpp:66-71 | appends all that is left of one packet to another |
| Packets.Packet.ToHardware | gsbox/src/packet.cpp:219-231 | prints BC AC, the low byte of the size, the packet's unread bytes, and AC |
| NetCodec.HeaderRoundTrip | gsbox/src/netpacket.cpp:25-75 | the 18 header bytes decode to the encoded fields, the flag big-endian, the rest little-endian |
| NetCodec.HeaderLayout | gsbox/src/netpacket.cpp:25-75 | the 18 bytes of a header: the flag high byte first, version, id and length low byte first, command and ack at 12 and 13 |
| NetCodec.NetPacket.EncodeBuffer | gsbox/src/netpacket.cpp:63-75 | puts a header with flag 47534B4A and version 65536 in front of the payload; the length field is the payload size |
| NetCodec.NetPacket.Decode | gsbox/src/netpacket.cpp:45-61 | accepts exactly a message of 16 or more bytes with the flag 47534B4A, and then sets every header field and leaves the cursor at the payload |
| NetCodec.ValuesReadBack | gsbox/src/packet.cpp:104-200 | any sequence of typed values is read back equal and in order |
| NetCodec.Compose | gsbox/src/netpacket.cpp:63-75 | typed writes into a fresh message, sealed, leave header and payload in the first bytes of the buffer |
| NetCodec.MessageRoundTrip | gsbox/src/netpacket.cpp:45-75 | such bytes, received, give back id, command, ack and all values; the length field is the payload length and the size left behind the header |
| NetCodec.Exchange | gsbox/src/netpacket.cpp:25-75 | composed, received, decoded and read back: every message is accepted and every header field and value comes back |
| NetCodec.SizeReachesZero | gsbox/src/packet.cpp:188-200 | the size left behind the last value is 0 if and only if no string has contents |
| Radio.RadioPacket.CompareExt | gsbox/src/radiopacket.cpp:28-36 | index 0 of the same command finishes a counter above 0; every other fragment counts the eight-bit counter up and fits if its index is the new counter and its command is the same |
| Radio.RadioPacket.Decode | gsbox/src/radiopacket.cpp:44-60 | a board report gives address, command and payload |
| Radio.Sender.Queue | gsbox/src/radionetwork.cpp:349-362 | a message is set up to go out: its bytes unread, the counter 0, the timer running |
| Radio.Sender.Tick | gsbox/src/radionetwork.cpp:809-829 | one tick sends the next fragment of what is left, or stops when nothing is left |
| Radio.Sender.TakeClip | gsbox/src/radionetwork.cpp:809-823 | at most 28 bytes leave the message, with the next index, or 0 on the last fragment |
| Radio.Sender.SendRadio | gsbox/src/radionetwork.cpp:502-522 | the fragment fits the 64-byte packet and goes out as BC AC len 65 40 address command contents AC |
| Radio.Receiver.OnFragment | gsbox/src/radionetwork.cpp:1033-1054 | restart on index 1, append on a fitting fragment, ignore otherwise |
| RadioProtocol.ClipsBound | gsbox/src/radionetwork.cpp:809-829 | a message of up to 1024 bytes makes at most 37 fragments, so the index never wraps |
| RadioProtocol.FragmentShape | gsbox/src/radionetwork.cpp:810-823 | fragments carry command 8F and the indices 1, 2, ..., the last one 0 and only that; each fits the 32- and 64-byte buffers |
| RadioProtocol.FragmentPayload | gsbox/src/radionetwork.cpp:809-823 | fragment i carries the 28 bytes of the message from 28 i on, the last one the rest |
| RadioProtocol.AfterGap | gsbox/src/radiopacket.cpp:28-36 | after a lost fragment nothing but the last one is ever accepted |
| RadioProtocol.InStep | gsbox/src/radionetwork.cpp:1038-1052 | while no fragment is lost, receiver counter and sender index go in step |
| RadioProtocol.KeptIsAll | gsbox/src/radionetwork.cpp:1038-1052 | leading run plus last fragment is the message if and only if no fragment was lost |
| RadioProtocol.KeptBefore | gsbox/src/radionetwork.cpp:1038-1052 | leading run and last fragment as slices of the message: what stands in front of 28 g, and behind 28 times the number of the last fragment |
| RadioProtocol.LossyDelivery | gsbox/src/radionetwork.cpp:1033-1054 | under any in-order loss after the first fragment, the reassembly finishes exactly when the last fragment arrives, holds the 28 g bytes in front of the first lost fragment g plus the last fragment if it arrives, and is the message if and only if nothing was lost |
| RadioProtocol.LostFirstFragment | gsbox/src/radionetwork.cpp:1038-1052 | when the first fragment is lost: what a slot left over from an earlier message takes, for every counter and every loss, and exactly when it finishes |
| RadioProtocol.MixedEndsWithLast | gsbox/src/radiopacket.cpp:28-36 | what a slot so finished has taken ends with the last fragment of the new message |
| RadioProtocol.LosslessRoundTrip | gsbox/src/radionetwork.cpp:809-829 | without loss every message of up to 1024 bytes is rebuilt with its command |
| RadioTransfer.SendOut | gsbox/src/radionetwork.cpp:761-830 | the ticks for a message hand exactly its packets to the board, in order, and one more tick stops the sender |
| RadioTransfer.Hear | gsbox/src/radionetwork.cpp:1033-1054 | a packet, reported by the board with its signal values and decoded, is received as its fragment |
| RadioTransfer.Deliver | gsbox/src/radionetwork.cpp:1033-1054 | hearing the packets that survive a channel is what `Through` says, so every theorem about it is one about the methods |
| RadioTransfer.Transfer | gsbox/src/radionetwork.cpp:761-1054 | sender and fresh receiver together: the slot is finished if and only if the last fragment arrives, holds the message if and only if nothing was lost, and otherwise the bytes in front of the first lost fragment and the last fragment if it arrives |
| Heartbeat.MainNode.OnTimer | gsbox/src/radionetwork.cpp:1194-1229 | a tick only counts, or makes a round |
| Heartbeat.RoundsInTicks | gsbox/src/radionetwork.cpp:1194-1199 | a round happens at every 61st tick |
| Heartbeat.MainNode.BeatRound | gsbox/src/radionetwork.cpp:1206-1229 | the round's new child list and the probes it sends, as `Round` says, with the eight-bit counter |
| Heartbeat.MainNode.UpdateChild | gsbox/src/radionetwork.cpp:202-216 | a sign of life makes the first child with the id online, clears its counter, and touches no other |
| Heartbeat.MainNode.AddOrUpdateChild | gsbox/src/radionetwork.cpp:379-405 | a known child takes over id and state but keeps its counter, an unknown one goes to the end |
| Heartbeat.MainNode.EditRadio | gsbox/src/radionetwork.cpp:429-450 | an edit changes the address of the first child with the id and no state or counter |
| Heartbeat.MainNode.DeleteRadio | gsbox/src/radionetwork.cpp:452-476 | the first child with the id leaves the list |
| Heartbeat.MainNode.RemoveChild | gsbox/src/radionetwork.cpp:265-285 | unlinks one child, the others keep their order |
| Heartbeat.RoundDropsAtMostOne | gsbox/src/radionetwork.cpp:1208-1229 | at most one child is dropped in a round: the first that is offline and whose counter plus 1, in eight bits, is above 3; those in front of it have their counters raised by 1, or, above 3, are offline with counter 0; those behind it are untouched, all in order; probed are the offline ones up to it |
| Heartbeat.AgesSlowly | gsbox/src/radionetwork.cpp:1206-1229 | one event makes a child older by at most one round, or by at most 4 when a request to add it sets it offline; it is dropped only at age 7, while it is probed |
| Heartbeat.DropTakesAge | gsbox/src/radionetwork.cpp:202-476 | over every run from every child list: at a drop, the child's age at the beginning, the rounds since then, and 4 for every time it was set back, make 8 or more, and likewise the probes 4 or more |
| Heartbeat.DroppedOnlyAfterEightRounds | gsbox/src/radionetwork.cpp:1206-1229 | over every run, a child that gave a sign of life and is not set back is dropped no earlier than in the 8th round from there, after at least 4 probes |
| Heartbeat.FrontChildAges | gsbox/src/radionetwork.cpp:1219-1227 | the bound is met: the front child, left alone, is dropped in exactly the round its age says |
| Heartbeat.ArrivalKeepsBound | gsbox/src/radionetwork.cpp:387-396 | a known child that arrives again is safe for 8 rounds in all runs if and only if it arrives online and its kept counter is 0 or 255 |
| Heartbeat.RediscoveredKeepsBound | gsbox/src/radionetwork.cpp:887-922 | so a discovered one is if and only if that counter is 0 or 255 |
| Heartbeat.AddedLosesBound | gsbox/src/radionetwork.cpp:407-427 | a request to add a child, known or new, never leaves it safe for 8 rounds; its age is then 4 rounds more than its kept counter says |
| Heartbeat.AddedIsDroppedEarly | gsbox/src/radionetwork.cpp:407-427 | at the front of the list and left alone, it is dropped in the round its age says, after at most 5 |
| Heartbeat.NewKeepsBound | gsbox/src/radionetwork.cpp:887-922 | a child discovered for the first time is safe for 8 rounds in all runs |
| Clips.DeviceConnection.OnDataReceived | gsiot/src/DeviceConnection.cpp:1413-1548 | on every input the loop terminates, never takes the size below zero, never reads past the buffer, and dispatches what `Received` says |
| Clips.ReceivedAt | gsiot/src/DeviceConnection.cpp:1418-1456 | a frame BC AC len 65 module data AC with len - 2 bytes of data that fits the buffer is dispatched and passed over; anything else is passed over by its first five bytes |
| Clips.DispatchedAreFrames | gsiot/src/DeviceConnection.cpp:1418-1456 | whatever the buffer holds, what is dispatched are complete such frames of it, in order and without overlap |
| Clips.DeviceConnection.SendData | gsiot/src/DeviceConnection.cpp:1111-1166 | a frame of up to 255 bytes goes out whole, a longer one in clips, until the connection stops, from when on nothing is written; the result counts the bytes written |
| Clips.SentFits | gsiot/src/DeviceConnection.cpp:1111-1158 | a frame of up to 255 bytes goes out as one buffer, and no buffer that goes out is longer |
| Clips.ClipsArrive | gsiot/src/DeviceConnection.cpp:1127-1158 | receiving the clips dispatches one part per clip, each to the frame's module, none empty or over 249 bytes, and the parts join to the data |
| Clips.SplitAndReceive | gsiot/src/DeviceConnection.cpp:1111-1158 | whatever SendData writes for a device frame is received as parts of at most 249 bytes for its module; they join to its data if and only if that module does not make the receive loop give up or the frame was not split |
| Clips.StoppedSplit | gsiot/src/DeviceConnection.cpp:1134-1158 | a split that stops after n clips delivers exactly the first 249 n bytes of the data |
| Sampling.DeviceAddress.SetCurValue | gsiot/src/DeviceAddress.cpp:324-394 | a reading is adopted unless analysed and first, or more than 5 away while the counter is at most 1; what every field then is, in both cases |
| Sampling.FilterIsHistory | gsiot/src/DeviceAddress.cpp:341-369 | from a clear counter, the counter machine decides every reading of every run like a definition by history: near, or third after two refusals |
| Sampling.FarOnlyAsThird | gsiot/src/DeviceAddress.cpp:341-363 | a reading more than 5 away is adopted only as the third in a row, all three far from the same current value |
| Sampling.GlitchesNeverShow | gsiot/src/DeviceAddress.cpp:341-369 | among readings in a band at most 5 wide and outliers more than 5 outside it, the current value never leaves the band if and only if no three outliers follow each other |
| Sampling.FirstReadingPrimes | gsiot/src/DeviceAddress.cpp:332-339 | the first reading sets the value without being reported or tracked, and the rest is a run of its own |
| Sampling.BothTrackersHoldTheMaximum | gsiot/src/DeviceAddress.cpp:381-391 | over every run the maximum tracker holds the greatest adopted value and its first time, and the minimum tracker is equal to it |
| Sampling.MinimumOnlyWhenAllEqual | gsiot/src/DeviceAddress.cpp:387-391 | the minimum tracker bounds the adopted values from below if and only if all of them are equal |
| Sampling.DeviceAddress.DataAnalyse | gsiot/src/DeviceAddress.cpp:401-539 | when a decision is made; it saves exactly if the last save does not stand for the decided value, which is: a last save exists, at the same point, and less than the range away from it on either side, or of the same level for wind; the flag says why; the last save is then the decided value or stands for it |
| Sampling.PointsAgree | gsiot/src/common.cpp:2050-2083 | a save and a reading have the same time point if and only if they are in the same half hour of 1800 s, a save in its last minute counting for the next one when that begins on the same local day |
| Sampling.CoversExactly | gsiot/src/DeviceAddress.cpp:440-500 | a save still stands for a reading if and only if the points agree and the value is less than the range away, higher or lower, or for wind of the same level |
| Sampling.SavesStandForReadings | gsiot/src/DeviceAddress.cpp:438-537 | over every run, the latest save up to a decided value is that value, or stands at the same point less than the range away from it on either side (for wind, at the same level), and no save repeats one that still stood |
| Sampling.LastMinuteSavesAll | gsiot/src/common.cpp:2050-2083 | after a save in the last minute of a half hour, a further reading of that half hour is saved if and only if no local day ends there or the value changed by the range or more, or for wind its level |
| Sampling.DeviceAddress.ValueWindow | gsiot/src/DeviceAddress.cpp:572-606 | a wind window closes exactly when the long time has passed on the 32-bit clock, or more than the short one and the point is not that of the last save; what it accumulates and yields |
| Sampling.WindowYieldsMaximum | gsiot/src/DeviceAddress.cpp:576-601 | what a window yields is one of its readings and none of them is greater |
| Draining.GSIOTClient.Push | gsiot/src/GSIOTClient.cpp:706-716 | a sample is accepted at the end of the buffer exactly while it holds fewer than 10000 |
| Draining.GSIOTClient.DataSaveBufPop | gsiot/src/GSIOTClient.cpp:4789-4822 | a pop takes a non-empty leading run of at most 50 samples of one month, and fewer than 50 only if the buffer or the month ends there |
| Draining.GSIOTClient.InsertData | gsiot/src/DataStoreMgr.cpp:2628-2643 | a batch goes whole to the database of its first sample's month, or not at all |
| Draining.GSIOTClient.DataSave | gsiot/src/GSIOTClient.cpp:4762-4782 | a drain cuts batches off the front until the buffer is empty or the time is up, and each has been inserted in order |
| Draining.GainedPlusLost | gsiot/src/GSIOTClient.cpp:4766-4776 | a month's database gains samples of its own from the drained part, each at most once and in order, and the rest of them are in batches that failed |
| Draining.GainedExactlyWhenCommitted | gsiot/src/GSIOTClient.cpp:4766-4776 | it gains all of them if and only if each of its batches commits |
| Draining.DrainKeeps | gsiot/src/GSIOTClient.cpp:4762-4782 | a drain with any failures keeps the samples of a month in order and loses exactly those of its failed batches |
| Draining.NothingLostOverRuns | gsiot/src/GSIOTClient.cpp:4762-4822 | over any interleaving of arrivals and drains, with any failures: of each month, rows plus waiting samples are accepted samples of that month, each at most once and in order, exactly the samples of failed batches are missing, and none is if and only if every batch of the month committed |
| Draining.OfIsTheMonth | gsiot/src/DataStoreMgr.cpp:2628-2634 | what is called the samples of a month are the samples of the list with that month, each as often as it is there and in order |
| Draining.AddressManager.AddressQueueChangeToOneAddr | gsiot/src/AddressManager.cpp:67-87 | terminates although it pushes back; the last object with the requested address survives, else the first, and all others are deleted from the back |
| Draining.EachDeletedOnce | gsiot/src/AddressManager.cpp:67-87 | survivor and deleted objects together are the queue, each object once |
| Draining.DeletedFromBack | gsiot/src/AddressManager.cpp:69-86 | the objects are deleted from the back of the queue to its front, the survivor being passed over |

## Left out

- 32-bit overflow of counts, times and sums of the statistics, and rounding of `double` sums: integers are unbounded and sums exact. A count or sum near the 32-bit limit is not modelled.
- Calendar and local time: a day has 86400 seconds, the month of a sample and the local day of a time are arguments, and hour entries are keyed by their beginning in seconds instead of a calendar record.
- SQLite: tables are sequences or maps of rows, rows arrive in time order, a batch insert is one transaction. Opening, creating and deleting database files, mutexes and threads are not modelled.
- `Stat_lst_src_v1k_To_QueryStat_ForSpanmin` and `DoStat_minute_lst`: the same look-up and filter over a finer grid of slots.
- The wind-level and type tables behind `rateForType` and `HasChanged`: the level of a value is an argument.
- `CheckCreateDB`, which removes the month file two months back by a shell command whatever its use count.
- QueryMarks.MarkingKeepsApartExactly: requires that a list limit, if there is one, allows two points.
- Months.RangedMerge: says nothing about the attaining times of ranged records, which re-timing may move out of the range.
- Rollup.DoStatHourLst: requires a positive bucket length; with zero or less the source's loop does not end.
- Eviction.DataStoreMgr.Release: requires a handle obtained before, as every caller has; `m_lastUseTs` and the failure of a file deletion are not modelled.
- SerialPort.Hardware.OnEvent: requires that cached and polled bytes together fit the 1024-byte buffer, and reads the bytes behind them as part of the buffer.
- SerialPort.ObsoleteServer.OnDataRead: what a completed frame makes the server do (frequency handling) is not modelled, only that it is passed on.
- Packets.Packet.Encode: strings are C strings shorter than 65536 bytes without a zero byte.
- NetCodec.NetPacket.Decode: requires a buffer of at least 18 bytes; the source tests for 16 and reads 18.
- Clips.DeviceConnection.SendData: the pauses and the transparent mode are not modelled; a written buffer is one entry of `written`, and the stopping of the connection is the number of buffers written before it.
- Clips.SplitAndReceive: the limit of the length byte is an argument of at least 251, because its header file is not part of this model.
- Radio.Receiver.OnFragment: requires that the reassembly fits the buffer; what happens to a finished message (forwarding to a deeper level, replies) and later fragments after it is handed on are not modelled; the child address is fixed for a message.
- RadioTransfer.Transfer: the two boards and the air between them are a channel that loses packets and keeps their order; the signal values are arguments.
- Heartbeat.MainNode.EditRadio: only the address is edited; radio address, channel and signal fields are not modelled, and the bytes behind a stored address are an argument.
- Heartbeat.MainNode.BeatRound: the child list is a sequence instead of linked nodes; frequency switching, pauses, the discovery part of the timer, the persistent file, and the clearing of the list when the node becomes a child itself are not modelled.
- Heartbeat.MainNode.DeleteRadio: requires a non-empty list; on an empty one the source follows a null pointer.
- Sampling.DeviceAddress.SetCurValue: values are real numbers instead of text, the log string and the multi-read hint are not modelled, and `abs` is the real absolute difference.
- Draining.GSIOTClient.DataSave: a missing store manager, in which case nothing is drained, is not modelled; the clock is the number of batches after which the time budget is spent.
- XMPP, XML configuration, HTTP update, users, triggers, Modbus, device editing and the login and shell commands.
