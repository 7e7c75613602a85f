# The gateway's verified model

The Sail Race Tracker gateway stands between a base node on a serial link and a cloud service. This project models
the five parts of it that carry invariants, one on top of the other, and proves what they promise:

- **Wire codec and de-framer.** `Bytes`, `Crc16`, `Framing`, `Deframer` (file `FrameParser.dfy`), `Codec`. The
  incremental parser is a class that keeps, in ghost fields, every byte it has received; its invariant says that
  its state is that of one greedy parse of all of them. About that parse the project proves chunking invariance, a
  sharp resynchronisation bound, the round trip, byte conservation and bounded memory. The CRC is shown to be the
  remainder of a polynomial division. Damage to a frame with LEN intact is undetected exactly when the flips in the
  check bytes are the syndrome of the flips in the bytes they protect; so every burst of up to 16 bits within those
  bytes is detected, but not every burst across the boundary to the check bytes.
- **Reconnecting reader.** `SerialIo`. The connection's state machine, the delays, and the fact that the frames
  dispatched are the greedy parse of all bytes ever read, across any faults and reopenings.
- **Store.** `Storage`, `Dedup`, `NodeSummary`. The append-only table with its wrap-aware dedup slot as a class
  whose invariant says that its tables are a run of the calls made; exactly when the dedup achieves exactly-once;
  exactly when the node summary is that of the newest fix.
- **Uplink.** `UplinkProtocol`, `Uplinker`, `Drain`. A state machine whose steps are single commits, POSTs with any
  outcome, inserts and crashes; the code of `CloudUplinker` refines it, with inserts at any moment; zero loss,
  stable idempotency keys, FIFO, a drain bound, and the backoff in closed form.
- **Downlink.** `Fingerprints`, `Downlink`, `DownlinkRuns`. The JSON fingerprint, the four control frames, and the
  base as four registers fed by the bytes; arming safety, convergence, and exactly when `unchanged` is true,
  reboots included.
- **All layers.** `EndToEnd`, `GatewayRuns` (file `Gateway.dfy`). The dispatcher fills and the uplinker empties one
  store, in any schedule, with restarts of the process; the store is always at rest after a run of the delivery
  protocol whose inserts are those that took effect. So every well-formed UPLINK read, unless it is swallowed by an
  earlier frame or its insert raises, has a row of the same node and sequence number within the window, and that row
  leaves the queue only into the cloud or the dead-letter table. The row may be that of another fix; it is stated
  exactly when the fix has one of its own, and that it always does if fixes of one (node, seq) are spaced.

`Wrappers` and `ExponentialBackoff` (file `Backoff.dfy`) hold what several modules share. Python's `x & mask` is
Euclidean `%`, also for negative `x`. A byte is an integer in 0..255; the 16-bit CRC register is the sequence of
its bits.

## Where the code and its documentation disagree

The model follows the code.

- The dedup is not exactly-once in general. A, B, A with the same (node, seq) and more than the window apart stores
  A twice (`Dedup.ComebackStoresTwice`); two different fixes with the same (node, seq) within the window, as after
  a node's restart, lose the second (`Dedup.NearTwinIsLost`). `Dedup.DedupIsExactIff` gives the exact condition for
  every sequence of deliveries.
- `downlink.py:298-301` says the next poll re-attempts a failed state. If the state is the cached one (a forced
  poll, or the cloud going back to the last applied state) it does not: `DownlinkRuns.RetriedIff`. What the base then
  holds is decided by `DownlinkRuns.ForcedFirstPollDecides` and `DownlinkRuns.UnchangedIsTrueIff`; failing runs are
  `DownlinkRuns.FailedStartIsNotRetried`, `DownlinkRuns.UnchangedAfterReboot` and
  `DownlinkRuns.UnchangedAfterHalfSent`.
- `downlink.py:33-35` orders the frames so that the base is never armed on stale timing. A base that reboots between
  two frames of a poll is armed on blank timing all the same: `DownlinkRuns.ArmingIsSafeIff`.
- `downlink.py:40-41` lists the fields of the fingerprint without `race_id` and `state`; the code includes them.
- `uplink.py:39-41` says the backoff is capped at `backoff_max`; the first sleep is `backoff_base`, uncapped:
  `Uplinker.CapHoldsIff`.
- `store.py:82-84` says every access takes the lock; only `insert_fix` does. Here every store operation is one
  atomic committed transaction.
- `store.py:192-193` keeps out-of-order resends from regressing the node summary, but NODE_STATS reports overwrite
  its time and RSSI whatever they are. `NodeSummary.NewestFixShownIff` says exactly when the summary is that of the
  newest fix; `NodeSummary.NewestFixIsHidden` and `NodeSummary.OlderReportRegresses` are failing runs.
- A CRC of this kind detects every 16-bit burst in a codeword whose check bits follow in order. The frame sends the
  low check byte first, so flips of 0x89 in the last payload byte and 0xA1 in the byte after it go unnoticed:
  `Framing.BoundaryDamageIff`.
- `store.py:103-110` promises to insert any decoded fix. The receive time is a u64 on the wire (`protocol.py:204`), and
  sqlite3 cannot bind 2^63 or more: a new fix with such a time always raises and is dropped by the dispatcher, and a
  NODE_STATS entry with such a time is dropped likewise. `Storage.WireFixRaisesIff` gives the exact condition.
- The encoders mask out-of-range values silently: `Downlink.ProgrammedExactlyIff`.

## Model

| member | source | states |
|---|---|---|
| Bytes.LeRoundTrip | pi-gateway/src/srt_gateway/protocol.py:132-141 | masked little-endian packing loses exactly the multiples of 256^width, so a value survives if and only if it fits |
| Bytes.FromLeRoundTrip | pi-gateway/src/srt_gateway/protocol.py:207-209 | any byte string is the packing of the number it denotes |
| Bytes.LeAt | pi-gateway/src/srt_gateway/protocol.py:132-141 | byte k of a packed value is its digit for 256^k: low byte first |
| Bytes.SignedRoundTrip | pi-gateway/src/srt_gateway/protocol.py:207-209 | signed struct fields survive packing |
| Crc16.Crc16CcittFalse | pi-gateway/src/srt_gateway/protocol.py:87-103 | the two nested loops compute the register function Crc of data[start..end] |
| Crc16.CrcIsRemainder | pi-gateway/src/srt_gateway/protocol.py:87-103 | that value is the remainder, modulo x^16 + x^12 + x^5 + 1, of the message times x^16 with its 16 leading coefficients complemented |
| Crc16.CrcIsBitwise | pi-gateway/src/srt_gateway/protocol.py:96-102 | mixing in a byte and shifting eight times is feeding its bits one by one |
| Crc16.ShiftInjective | pi-gateway/src/srt_gateway/protocol.py:99-102 | one round loses no information |
| Crc16.ShortBurst | pi-gateway/src/srt_gateway/protocol.py:96-102 | from one register, two different strings of at most 16 bits never lead to the same register |
| Crc16.BurstDetected | pi-gateway/src/srt_gateway/protocol.py:87-103 | messages that differ only within 16 consecutive bits, in any alignment, have different CRCs |
| Framing.EncodeFrame | pi-gateway/src/srt_gateway/protocol.py:108-120 | the buffer grown piece by piece is 0xA5, the masked type, the length, the payload and the CRC of what lies between, low bytes first; more than 2048 bytes are refused |
| Framing.DeliverIff | pi-gateway/src/srt_gateway/protocol.py:300-319 | the parser delivers a frame at its cursor if and only if that frame's encoding stands there |
| Framing.DecideStable | pi-gateway/src/srt_gateway/protocol.py:296-322 | a decision is never revised when more bytes arrive |
| Framing.DiscardIsSound | pi-gateway/src/srt_gateway/protocol.py:297-306 | a byte is dropped only where no continuation of the stream could make a frame start |
| Framing.ParseSplit | pi-gateway/src/srt_gateway/protocol.py:290-325 | parsing in two pieces with the kept tail is parsing the whole |
| Framing.RestBounded | pi-gateway/src/srt_gateway/protocol.py:323-324 | the kept tail is undecided, starts with MAGIC, and is shorter than 2054 bytes |
| Framing.Conservation | pi-gateway/src/srt_gateway/protocol.py:290-325 | every byte is in a delivered frame, a counted error, skipped, or in the tail, and counted once |
| Framing.CountedAs | pi-gateway/src/srt_gateway/protocol.py:296-322 | a byte other than 0xA5 is skipped; a 0xA5 before a length above 2048, or before a complete frame with wrong check bytes, is counted as an error |
| Framing.DeliveredAreFrames | pi-gateway/src/srt_gateway/protocol.py:310-319 | everything delivered is a well-formed frame of the stream, in order, without overlap |
| Framing.Resync | pi-gateway/src/srt_gateway/protocol.py:296-322 | a well-formed frame at p is, once p + 2053 bytes have arrived, delivered or starts strictly inside a delivered one |
| Framing.ResyncBoundIsSharp | pi-gateway/src/srt_gateway/protocol.py:302-309 | one byte fewer is not enough: a stray MAGIC can hold everything back until then |
| Framing.StreamRoundTrip | pi-gateway/src/srt_gateway/protocol.py:108-120 | any frames with MAGIC-free garbage around them parse back exactly, without errors or a tail |
| Crc16.CrcDifference | pi-gateway/src/srt_gateway/protocol.py:87-103 | the CRCs of two messages of one length differ by the syndrome of their difference, whatever the messages are |
| Crc16.ByteSyndrome | pi-gateway/src/srt_gateway/protocol.py:96-102 | the only damage to one byte whose syndrome leaves the high check byte alone is 0x89, and it flips 0xA1 in the low one |
| Framing.DamagedFrameIff | pi-gateway/src/srt_gateway/protocol.py:310-322 | a frame damaged anywhere but in LEN is delivered if and only if the flips in its check bytes are the syndrome of the others; else it is rejected at its start |
| Framing.BoundaryDamageIff | pi-gateway/src/srt_gateway/protocol.py:118-120 | damage to the last payload byte and the first check byte is accepted if and only if the flips are exactly 0x89 and 0xA1 |
| Crc16.CrcParity | pi-gateway/src/srt_gateway/protocol.py:96-102 | feeding bits changes the parity of the register by the parity of the bits, since the generator has the factor x + 1 |
| Framing.OddDamageIsRejected | pi-gateway/src/srt_gateway/protocol.py:310-322 | damage outside LEN that flips an odd number of bits in all, check bytes included, is never accepted at its start |
| Framing.DamageIsRejected | pi-gateway/src/srt_gateway/protocol.py:310-322 | a frame with TYPE or PAYLOAD damaged within 16 bits, or with other check bytes only, is never accepted at its start |
| Deframer.FrameParser.constructor | pi-gateway/src/srt_gateway/protocol.py:286-288 | a fresh parser is the parse of nothing |
| Deframer.FrameParser.Push | pi-gateway/src/srt_gateway/protocol.py:290-325 | the nested loops keep the parser in the state of one greedy parse of every byte ever pushed |
| Deframer.ChunkingInvariance | pi-gateway/src/srt_gateway/protocol.py:290-325 | frames, errors, skipped bytes and leftover depend only on the bytes, not on the chunks |
| Deframer.ChunkedRoundTrip | pi-gateway/src/srt_gateway/protocol.py:277-325 | encoded frames with garbage between them, cut anywhere, come back exactly |
| Deframer.PushChunks | pi-gateway/src/srt_gateway/protocol.py:290-325 | the same for the object, chunk by chunk |
| Codec.UnpackPack | pi-gateway/src/srt_gateway/protocol.py:137-142 | each field of a packed struct comes back reduced to its width |
| Codec.EncodeSetSlotmap | pi-gateway/src/srt_gateway/protocol.py:145-154 | the loop builds count byte and entries, framed |
| Codec.ControlBytes | pi-gateway/src/srt_gateway/protocol.py:125-142 | the payload bytes of SET_TIMING, SET_EPOCH and SET_ARMED, one by one |
| Codec.SlotmapBytes | pi-gateway/src/srt_gateway/protocol.py:145-154 | the count byte of SET_SLOTMAP and the three bytes of each entry |
| Codec.TimingRoundTrip | pi-gateway/src/srt_gateway/protocol.py:137-142 | what a base reads from SET_TIMING |
| Codec.EpochRoundTrip | pi-gateway/src/srt_gateway/protocol.py:130-134 | what a base reads from SET_EPOCH |
| Codec.SlotmapRoundTrip | pi-gateway/src/srt_gateway/protocol.py:145-154 | what a base reads from SET_SLOTMAP: as many entries as the count byte, the length modulo 256, says |
| Codec.UplinkRoundTrip | pi-gateway/src/srt_gateway/protocol.py:203-226 | every fix in range that a base packs is decoded to exactly its values |
| Codec.UplinkDecodesExactly | pi-gateway/src/srt_gateway/protocol.py:203-226 | exactly the payloads of 38 bytes decode, each to a fix in range whose packing they are |
| Codec.UplinkFields | pi-gateway/src/srt_gateway/protocol.py:203-226 | each decoded field is read from its own offset of the 38 bytes, the four signed ones in two's complement; the timestamp is 1000 times the GPS time plus the sub-second part |
| Codec.DecodeNodeStats | pi-gateway/src/srt_gateway/protocol.py:229-249 | the loop returns the whole entries announced and present, each read from its own 16 bytes |
| Codec.StatFields | pi-gateway/src/srt_gateway/protocol.py:239-247 | each field of an entry is read from its own offset of the 16 bytes |
| Storage.InsertKeepsTable | pi-gateway/src/srt_gateway/store.py:131-179 | an insert keeps ids consecutive and live (node, seq) unique, and only retires a slot or appends a row |
| Storage.MarkKeepsTable | pi-gateway/src/srt_gateway/store.py:217-226 | marking keeps the table and only sets synced |
| Storage.PendingIff | pi-gateway/src/srt_gateway/store.py:210-215 | the queue is exactly the un-synced rows |
| Storage.PendingIsOldestFirst | pi-gateway/src/srt_gateway/store.py:210-215 | in the queue the ids strictly increase |
| Storage.Store.InsertFix | pi-gateway/src/srt_gateway/store.py:103-188 | one transaction with its branches. Committed, and stated without the definitions of the model: if a row holds the (node, seq) slot, the fix is new if and only if the timestamps are more than 3600000 ms apart, and then that slot becomes NULL; a new fix is appended with its own values, un-synced. Raised, which it is exactly if a statement of its branch fails or cannot take an integer, it changes nothing |
| Storage.InsertMeans | pi-gateway/src/srt_gateway/store.py:141-179 | the same of the specified insert, for every table |
| Storage.WrapIsNew | pi-gateway/src/srt_gateway/store.py:35-37 | a full wrap of 65536 fixes at least 55 ms apart is never taken for a duplicate |
| Storage.WireFixRaisesIff | pi-gateway/src/srt_gateway/store.py:146-176 | of the fixes that the wire can carry, without failing statements, exactly the new ones with a receive time of 2^63 or more raise |
| Storage.WireReportBindsIff | pi-gateway/src/srt_gateway/store.py:266-281 | of the reports, exactly those with a time of 2^63 or more cannot be stored |
| Storage.Store.GetUnsynced | pi-gateway/src/srt_gateway/store.py:210-215 | the first min(limit, n) rows of the queue of n |
| Storage.Store.MarkSynced | pi-gateway/src/srt_gateway/store.py:217-226 | the updates id by id set synced on exactly the rows with the given ids |
| Storage.Store.UpsertNode | pi-gateway/src/srt_gateway/store.py:266-281 | of the one node each given field is overwritten and each other field kept, NULL if there was no row, and every other node is unchanged; if the statement fails or cannot take an integer, nothing changes |
| Dedup.RowsAreStored | pi-gateway/src/srt_gateway/store.py:146-163 | each row keeps the data of its delivery, and its slot is live until a later row with the same (node, seq) |
| Dedup.EveryDeliveryIsCovered | pi-gateway/src/srt_gateway/store.py:141-144 | every delivery has a row of the same (node, seq) within the window, possibly that of another fix |
| Dedup.HasRowIff | pi-gateway/src/srt_gateway/store.py:141-164 | a fix has a row of its own if and only if some reception of it found its slot free or taken more than the window away |
| Dedup.EmissionsHaveRows | pi-gateway/src/srt_gateway/store.py:39-41 | if different fixes of one (node, seq) are more than the window apart, every fix has a row of its own, comebacks or not |
| Dedup.DedupIsExactIff | pi-gateway/src/srt_gateway/store.py:23-37 | for any deliveries: True is returned at first receptions only and always, if and only if those are exactly the deliveries more than the window from the most recent first reception of their (node, seq) |
| Dedup.SpacedDedupIsExactIff | pi-gateway/src/srt_gateway/store.py:23-37 | for spaced fixes that is the case if and only if none comes back after another took its slot |
| Dedup.OrderedCyclesAreExact | pi-gateway/src/srt_gateway/store.py:23-37 | wrap cycles that arrive in order are deduplicated exactly |
| Dedup.ComebackStoresTwice | pi-gateway/src/srt_gateway/store.py:142-164 | a failing family: A, B, A stores A twice |
| Dedup.NearTwinIsLost | pi-gateway/src/srt_gateway/store.py:141-144 | another: two fixes of one (node, seq) within the window, and the second has no row |
| Dedup.RowsAreDistinctIff | pi-gateway/src/srt_gateway/store.py:39-41 | for spaced fixes, no two rows are of one fix if and only if none comes back |
| NodeSummary.NodesAreSummaries | pi-gateway/src/srt_gateway/store.py:181-206 | a node's row depends only on its own fixes and reports, in the table that the store's invariant speaks of |
| NodeSummary.SummaryIsLatestMaximum | pi-gateway/src/srt_gateway/store.py:190-206 | over any inserts the summary is that of the latest-arriving delivery with the largest timestamp |
| NodeSummary.OlderFixesChangeNothing | pi-gateway/src/srt_gateway/store.py:192-193 | out-of-order resends do not regress it |
| NodeSummary.MixedRun | pi-gateway/src/srt_gateway/main.py:117-127 | after any fixes and reports: the newest fix since the last report if it is not older than the reported time, else the reported time and RSSI with the battery on record before |
| NodeSummary.NewestFixShownIff | pi-gateway/src/srt_gateway/store.py:181-206 | the row is that of the newest fix if and only if there was no report, or the fix came after the last one and is not older than its time, or came before and the report repeats its values |
| NodeSummary.NodeShowsNewestIff | pi-gateway/src/srt_gateway/store.py:181-206 | the same of every node in the table, over any run of the store |
| NodeSummary.NewestFixIsHidden | pi-gateway/src/srt_gateway/main.py:117-127 | a failing run: a report of a later time hides a newer fix |
| NodeSummary.OlderReportRegresses | pi-gateway/src/srt_gateway/main.py:117-127 | a failing run: a report of an older time takes last_seen back |
| UplinkProtocol.NextKeepsInv | pi-gateway/src/srt_gateway/uplink.py:249-352 | every step of the protocol keeps its invariant |
| UplinkProtocol.ZeroLossInEveryRun | pi-gateway/src/srt_gateway/uplink.py:18-22 | in every run a row leaves the queue only into the cloud or the dead-letter table, and only fixes rejected alone are in the latter |
| UplinkProtocol.PostsOfOneIdAgree | pi-gateway/src/srt_gateway/uplink.py:79-84 | a later post of an id carries the same fields as an earlier one, except that sequence may have become NULL, which is final |
| UplinkProtocol.RunsGrow | pi-gateway/schema.sql:7-32 | rows are only added and only change as specified; ingested, dead letters, cursor and posts only grow |
| UplinkProtocol.SyncedIsAPrefix | pi-gateway/src/srt_gateway/uplink.py:31-37 | without rejections the synced rows are an initial segment and the cursor never passes its end |
| Uplinker.CloudUplinker.AcceptIds | pi-gateway/src/srt_gateway/uplink.py:297-309 | marks exactly the rows with the ids; the cursor becomes the largest of the ids and itself |
| Uplinker.CloudUplinker.IsolatePoison | pi-gateway/src/srt_gateway/uplink.py:311-354 | the loop is the specified isolation; by the codes: each row is posted alone, 200-299 takes it off the queue, 400-499 but 429 takes it off into dead_letter under its code, all else leaves it, and the counts say so |
| Uplinker.IsolateMeans | pi-gateway/src/srt_gateway/uplink.py:311-354 | the same of the specified isolation, for every cloud |
| Uplinker.CloudUplinker.RunOnceNow | pi-gateway/src/srt_gateway/uplink.py:229-295 | one call is the specified function of the durable state and keeps the protocol's invariant; by the codes: 200-299 accepts the batch, 400-499 but 429 isolates it, no answer or any other code changes no table and reports retry |
| Uplinker.RunOnceMeans | pi-gateway/src/srt_gateway/uplink.py:229-295 | the same of the specified function, for every cloud |
| Uplinker.CloudUplinker.RunLoop | pi-gateway/src/srt_gateway/uplink.py:358-388 | the driver loop makes the calls one after the other, each as the codes say, and sleeps as specified |
| Uplinker.SleepByCode | pi-gateway/src/srt_gateway/uplink.py:368-388 | what is slept after a call, by the codes: the interval on an empty queue, nothing after an accepted or fully isolated batch, the base after an isolation that left something, and the grown backoff after an outage or any other code |
| Uplinker.SleepsAt | pi-gateway/src/srt_gateway/uplink.py:368-388 | the sleeps of the calls stand one after the other |
| Uplinker.BackoffClosedForm | pi-gateway/src/srt_gateway/uplink.py:368-388 | after k consecutive retries the backoff is min(base * factor^k, max), and base after anything else |
| Uplinker.RetrySleep | pi-gateway/src/srt_gateway/uplink.py:374-381 | the k-th consecutive retry, counted from 0, sleeps base for k = 0 and min(base * factor^k, max) after that |
| Uplinker.CapHoldsIff | pi-gateway/src/srt_gateway/uplink.py:39-41 | the cap holds throughout if and only if base is within it |
| Uplinker.RunOnceIsARun | pi-gateway/src/srt_gateway/uplink.py:229-354 | run_once refines the protocol: it is a run of it from rest to rest |
| Uplinker.RunOnceCrashSafe | pi-gateway/src/srt_gateway/uplink.py:18-22 | a crash before any of its commits keeps the invariant |
| Uplinker.RunOnceIsLinearizable | pi-gateway/src/srt_gateway/uplink.py:229-354 | however inserts are woven between its statements, the outcome is that of run_once undisturbed followed by the inserts |
| Drain.StatsAreTrue | pi-gateway/src/srt_gateway/uplink.py:229-245 | whatever the cloud does, the queue shrinks by exactly the synced and dead-lettered counts reported, a retry has changed no table, and retryable says whether anything is left |
| Drain.IsolateSettles | pi-gateway/src/srt_gateway/uplink.py:311-354 | isolation settles each fix of the batch except those whose own post failed transiently |
| Drain.CallProgress | pi-gateway/src/srt_gateway/uplink.py:229-295 | each call with work uses up a batch or transient failures |
| Drain.DrainBound | pi-gateway/src/srt_gateway/uplink.py:229-354 | ceil(n / b) + t calls empty the queue, ingesting all but the poison fixes and dead-lettering exactly those |
| Fingerprints.SortedIsUnique | pi-gateway/src/srt_gateway/downlink.py:96-98 | the sorted slot list depends only on the slots, not their order |
| Fingerprints.FingerprintInjective | pi-gateway/src/srt_gateway/downlink.py:111-113 | different canonical states have different fingerprints, character escapes included |
| Fingerprints.FingerprintIff | pi-gateway/src/srt_gateway/downlink.py:89-113 | documents have equal fingerprints if and only if scalars agree and slots agree as multisets |
| Downlink.TargetIsTheRace | pi-gateway/src/srt_gateway/downlink.py:89-108 | field by field of the race document: absent numbers are 0, an absent flag is disarmed, the slots are in sorted order, and every value is reduced to its field |
| Downlink.TargetIsExact | pi-gateway/src/srt_gateway/downlink.py:89-108 | without loss if every value of the document fits its field |
| Downlink.BuildFrames | pi-gateway/src/srt_gateway/downlink.py:236-247 | the four frames in order, byte by byte: 0x84, 0x82, 0x83 and last 0x81; or an error for more than 682 slots |
| Downlink.ProgrammedExactlyIff | pi-gateway/src/srt_gateway/protocol.py:125-154 | the base decodes exactly the race state if and only if every value fits its field |
| Downlink.FrameSetsRegister | pi-gateway/src/srt_gateway/downlink.py:24-35 | whatever the base holds, the bytes of the k-th frame set the k-th register and no other, and only SET_ARMED arms |
| Downlink.NextFrameProgramsNext | pi-gateway/src/srt_gateway/downlink.py:24-35 | so the frames in their order program one register after the other |
| Downlink.CloudDownlinker.PollOnce | pi-gateway/src/srt_gateway/downlink.py:251-323 | the method is the specified poll; in terms of the race document: applied, the base holds the race, its armed flag included, and was armed on it; errored, the registers of the frames sent hold it; else nothing changed |
| Downlink.PollMeans | pi-gateway/src/srt_gateway/downlink.py:251-323 | the same of the specified poll |
| DownlinkRuns.ArmingIsSafe | pi-gateway/src/srt_gateway/downlink.py:33-35 | over any run, at every SET_ARMED the other registers are already those of the same race state |
| DownlinkRuns.ArmingIsSafeIff | pi-gateway/src/srt_gateway/downlink.py:24-35 | a poll whose frames are all delivered arms the base on the race state if and only if the base did not reboot between its first frame and SET_ARMED |
| DownlinkRuns.ArmedOnBlankTiming | pi-gateway/src/srt_gateway/downlink.py:292-297 | the failing run: a reboot after SET_TIMING, and the base is armed with its timing blank |
| DownlinkRuns.NotInterrupted | pi-gateway/src/srt_gateway/downlink.py:292-297 | without reboots the frames program the base as the specified poll does |
| DownlinkRuns.ArmingMatchesTheRace | pi-gateway/src/srt_gateway/downlink.py:33-35 | at every SET_ARMED of a run the registers hold one race document that was fetched, and without loss if its values fit |
| DownlinkRuns.FailuresKeepTheCache | pi-gateway/src/srt_gateway/downlink.py:62-68 | failed polls leave the cache alone |
| DownlinkRuns.CachedStays | pi-gateway/src/srt_gateway/downlink.py:285-289 | unforced polls of the cached state change nothing |
| DownlinkRuns.Convergence | pi-gateway/src/srt_gateway/downlink.py:276-323 | after any failures the first successful poll programs the base, and it stays programmed |
| DownlinkRuns.RetriedIff | pi-gateway/src/srt_gateway/downlink.py:62-68 | after any failing polls the next unforced poll of a state sends if and only if the cache did not hold its fingerprint |
| DownlinkRuns.UnchangedIsTrueIff | pi-gateway/src/srt_gateway/downlink.py:285-309 | after any run without an applied poll, reboots included, an unforced poll of the cached state says `unchanged`, which is true of the base if and only if each register written since was last left as it should be |
| DownlinkRuns.UnchangedAfterCleanRun | pi-gateway/src/srt_gateway/downlink.py:285-289 | if no frame was delivered and the base did not reboot since, `unchanged` is true |
| DownlinkRuns.UnchangedAfterReboot | pi-gateway/src/srt_gateway/downlink.py:46-49 | a failing run: after a reboot the base is blank and `unchanged` is reported |
| DownlinkRuns.UnchangedAfterHalfSent | pi-gateway/src/srt_gateway/downlink.py:298-309 | a failing run: A applied, B partly sent, back to A; the base keeps B's timing and `unchanged` is reported |
| DownlinkRuns.DownlinkLoop | pi-gateway/src/srt_gateway/main.py:211-226 | the loop forces its first poll only |
| DownlinkRuns.ForcedFirstPollDecides | pi-gateway/src/srt_gateway/main.py:214-223 | with a cache in step, the base is programmed if and only if the registers the first poll did not reach were right already |
| DownlinkRuns.FailedStartIsNotRetried | pi-gateway/src/srt_gateway/main.py:211-226 | a failing run: a blank base, a cache in step, and a first poll that is idle or errors before SET_ARMED; the base is never armed |
| SerialIo.ReconnectsCountsReopenings | pi-gateway/src/srt_gateway/serial_io.py:333-358 | reconnects counts every successful opening but the first connection |
| SerialIo.DelaysGrow | pi-gateway/src/srt_gateway/serial_io.py:340-345 | the delays never shrink and never exceed the maximum |
| SerialIo.DelayDoubles | pi-gateway/src/srt_gateway/serial_io.py:340-345 | the first delay is the base and each next one twice the one before, under the cap |
| SerialIo.DelaysAre | pi-gateway/src/srt_gateway/serial_io.py:337-342 | which delays are slept: none before the very first attempt of the first connection |
| SerialIo.DeliveredIsCount | pi-gateway/src/srt_gateway/serial_io.py:407-412 | the frames counted are those whose dispatch returned True |
| SerialIo.SerialReader.Reconnect | pi-gateway/src/srt_gateway/serial_io.py:333-358 | the loop stops at the first attempt that succeeds, with the delays slept until then |
| SerialIo.SerialReader.PollOnce | pi-gateway/src/srt_gateway/serial_io.py:360-412 | one cycle in plain terms: if the port was usable or could be reopened, a read adds its bytes and a fault leaves no port; else nothing happens. The frames dispatched remain the greedy parse of all bytes read |
| SerialIo.CycleMeans | pi-gateway/src/srt_gateway/serial_io.py:360-402 | the same of the specified cycle |
| SerialIo.SerialReader.Run | pi-gateway/src/srt_gateway/serial_io.py:416-425 | over any number of cycles the bytes read are the concatenation of what the cycles read |
| SerialIo.SerialReader.Send | pi-gateway/src/srt_gateway/serial_io.py:465-488 | a frame is written or refused, never queued; a failing write or flush closes the port, and what of the frame is on the wire by then stays there |
| SerialIo.ReplayByteLog | pi-gateway/src/srt_gateway/serial_io.py:106-128 | a replay delivers the greedy parse of the log, whatever the slice size |
| EndToEnd.CallsAre | pi-gateway/src/srt_gateway/main.py:76-127 | the store calls of a frame in plain terms: only type 0x01 with 38 bytes inserts, only 0x06 reports, each entry's node, time and RSSI and no battery |
| EndToEnd.Ingest.OnChunk | pi-gateway/src/srt_gateway/main.py:76-127 | what the store has recorded is, after what it had before, the fixes and reports of all bytes received, whatever the chunks, less exactly the calls that raised; the table changes by the inserts only, and dead letters and cursors not at all |
| EndToEnd.FaultlessCallRaisesIff | pi-gateway/src/srt_gateway/main.py:94-126 | when no statement fails, exactly the new fixes and the reports with a time of 2^63 or more raise |
| EndToEnd.EffectiveIff | pi-gateway/src/srt_gateway/main.py:94-126 | every call that does not raise takes effect |
| EndToEnd.InsertBeside | pi-gateway/src/srt_gateway/store.py:128-188 | an insert by the reader's thread is the protocol's Insert step, or no step if it raises |
| EndToEnd.RowsOfARun | pi-gateway/src/srt_gateway/store.py:1-8 | in every run of the protocol the table is that of the fixes inserted |
| EndToEnd.PostsReportReceivedFixes | pi-gateway/src/srt_gateway/uplink.py:79-84 | nothing is invented: every fix posted carries, field by field, the values of a fix that was inserted |
| EndToEnd.FromWireToCloud | pi-gateway/README.md:7-14 | for any UPLINK of 38 bytes on the wire that is not swallowed by an earlier frame the dispatcher makes the insert call, and this call raises, by its fault or its integers, or the fix arrives as the next row says in every run with the inserts that took effect |
| EndToEnd.InsertedArrives | pi-gateway/README.md:7-14 | in every run a fix inserted has a row of its (node, seq) within the window, which leaves the queue only into the cloud or the dead-letter table; a row of its own if fixes are spaced, and in general exactly when a reception found its slot free |
| GatewayRuns.IngestIsInserts | pi-gateway/src/srt_gateway/store.py:128-188 | what ingest does to the shared store is a sequence of the protocol's Insert steps |
| GatewayRuns.Gateway.OnRead | pi-gateway/src/srt_gateway/main.py:76-127 | a chunk dispatched extends the run of the protocol that the shared store is in by its inserts |
| GatewayRuns.Gateway.OnUpload | pi-gateway/src/srt_gateway/uplink.py:229-295 | a call of run_once, as the codes say, extends it by that call's steps |
| GatewayRuns.Gateway.Run | pi-gateway/src/srt_gateway/main.py:252-279 | under any schedule, in which every read adds its chunk to the bytes read and every upload is a call of run_once, the shared store is at rest after a run of the protocol whose inserts are the reader's that took effect |
| GatewayRuns.GatewayDelivers | pi-gateway/README.md:7-14 | so, at any time, an UPLINK that the running gateway has read and that is not swallowed was inserted and has arrived, or its insert raised |

## Left out

- SQLite itself (WAL, PRAGMAs, isolation, `latest_per_node`): each store operation is one atomic committed step; a
  statement that raises rolls the transaction back.
- Storage.Store.UpsertNode: a failing COMMIT of `upsert_node` or of the uplinker's store calls, which are not rolled
  back and leave their change in an open transaction, is not modelled; a failing COMMIT of `insert_fix` is.
- GatewayRuns.Gateway.Run: reads and calls of `run_once` take turns as wholes. Inserts between the statements of
  `run_once` are treated in `Uplinker.RunOnceIsLinearizable`, crashes between them in `Uplinker.RunOnceCrashSafe`.
- The boats, races and courses tables and their upserts, the `boat_id`, `race_id` columns, which are NULL at ingest,
  and the `slot`, `fw_version` columns of the nodes table, which the gateway never gives.
- Floating point: positions, speeds, courses and snr are kept as the raw integers; delays are reals. `2 ** attempt`
  overflowing a float from attempt 1024 on is not modelled.
- Uplinker.CloudUplinker.RunLoop: any finite number of iterations; the loop without a bound is not modelled.
- SerialIo.SerialReader.Reconnect: the attempts before success or stop are a finite list.
- `last_error`, `last_sync_ok`, the error strings in the stats, log output and the `/health` snapshots.
- The CRC catalogue's check value 0x29B1 is not computed: the function is fixed as the remainder of a division.
- The response body and the time in a dead-letter row; the status code is kept.
- Downlink.Link.SendFrame: a send delivers the whole frame or none of it; a partially written frame is not
  modelled.
- DownlinkRuns.ArmingIsSafe: in runs the base reboots between polls; reboots between the frames are treated for one
  poll, in `DownlinkRuns.ArmingIsSafeIff`.
- The base's firmware is not part of this model: its registers are the payload layouts of the encoders read back.
- Race documents whose values are not of the expected JSON types, for which `int()` raises.
- HEALTH, ACK and LOG payloads and the bookkeeping of the last ACKs.
- `http_client.py`, `health.py`, `config.py`, thread wiring, signals and the command line. The cloud is an
  arbitrary function from the number of the POST and its body to a reply.
- `base_control_reference.py`, whose codec repeats `protocol.py`, and pyserial with the search for the device.
