# A Byzantine fault-tolerant clock synchronizer: model and proofs

The system keeps clocks synchronized although some of the clocks it listens to are faulty, and
although the network loses, reorders and repeats packets. This project models its state-carrying
parts in Dafny and proves what they promise.

| Files | What they model |
|---|---|
| `StoreSpec`, `TssItem`, `BufferedStore`, `TssQueue`, `TimestampStore` | The server's timestamp store: a map of clients, a binary heap with back-pointers (the operations of Go's `container/heap` written out), and eight slots of receive and transmit times per client. `StoreSpec` says what the store does as a plain map of maps; the classes do it in place and are proved to refine that. |
| `Interleaved`, `RepeatedTime` | Clients and server as steps over a network, with the interleaved mode of RFC 9769, in any order. |
| `NtpTime` | The 64-bit NTP timestamp (section 6 of RFC 5905) and how its era is resolved. |
| `Sorting`, `Measurements`, `Collection`, `Float64`, `SyncLoop` | Collecting measurements until the time is up, the fault-tolerant midpoint with its validity and halving theorems, and the clamped correction of each round, with the rounding of float64. |
| `Sampling`, `Lists`, `PathAssignment`, `LuckyFilter` | Reservoir sampling, the assignment of paths to clients, and the lucky packet filter. |
| `Bytes`, `NtsCodec`, `Cookies`, `KeyProvider`, `CookiePool`, `NtsServer`, `NtsExchange` | Network Time Security (sections 5 and 6 of RFC 8915): extension fields, cookies, keys, the pool of cookies, the server's answer, and whole exchanges over a network that loses packets. |
| `SlewClock` | Stepping and slewing the system clock with timers that fire in any order. |

Conventions:

- An instant is an integer count of nanoseconds; `time.Duration` is an int64 with its wrap-around
  written out (`GoInt`), and `time.Time.Sub` saturates.
- What one lock protects is one step. Interleavings of such steps are sequences of calls, or of
  the steps of a state machine.
- `Float64` rounds every exact result to the nearest value of 53 bits, ties to the even one, which
  is what the conversions and products of core/sync/sync.go do. Exponents are unbounded, and only
  zero and numbers from 1 on occur.
- Readings of clocks, random numbers, the order in which answers arrive and the moment at which a
  wait is cancelled are parameters. `RandIntn` takes the next number of a source modulo its
  bound, and none for the bound 1; `DrawsComeFromSource` shows that every sequence of choices
  comes from some source.
- A panic is a result (`ok == false`, `Panic`) where a caller can cause it by its data, and a
  precondition where it reports a misuse, such as an empty list of measurements.
- Authenticated encryption is an ideal pair of functions: `open` undoes `seal` for the same key,
  nonce and associated data, and sealing adds 16 bytes.
- A slot buffer (`TssItem.buf`) is part of its item in Go, not shared, so it is a field holding a
  sequence of eight slots.
- Sorting is an insertion sort on the array that exposes no more than `slices.SortFunc` promises:
  a rearrangement with ascending keys.
- `container/heap`, `slices` and `math/rand` sources are not part of this model; the heap follows
  their documented algorithm.

Where the program and its comments differ:

- The comment "ensure uniqueness of rx timestamps per clientID" (core/server/server.go:139) holds
  for the receive times that are in the store, not for all that were assigned.
  `StoreSpec.TimeAssignedTwice` gives a time that is assigned twice, `StoreSpec.AssignedIsNew` says
  exactly when the time that a request gets is new, in terms of the store and the time the request
  came with, and `StoreSpec.LaterIsNew` that it is if the request came after all times given to
  its client, by less than an era.
- Interleaved mode relies on new times. `Interleaved.RunIsExact` says for any run which
  measurements are from one exchange: those of basic responses, and those served from a pair that
  was written by the handling which the client remembers. `Interleaved.RunIsSafe` proves that all
  are in runs in which each request that is handled finds the store such that it gets a new time,
  `Interleaved.RunInOrderIsSafe` in runs in which the requests of a client are received in order,
  and `RepeatedTime.RunMixesExchanges` gives a run with one old time whose last measurement mixes
  the stamps of two exchanges.
- `qval` is the greatest receive time of a client except after an overwrite of the slot with the
  greatest time by an earlier one: `StoreSpec.RequestKeepsExact`, both directions.
- Resolving an era only ever moves a timestamp forward: `NtpTime.RoundTrip` gives the exact domain
  on which seconds come back, and `NtpTime.PreviousEraIsLate` what happens before it.
- The midpoint of two offsets is computed with wrap-around: `Measurements.MidOffsetBetween` and
  `SyncLoop.MidOffsetIsBetween` say exactly when it lies between the two. And an offset is compared
  with its bound as a float64, so one above the bound that is rounded down to it is not clamped
  (`SyncLoop.Overshoots`). So a correction can exceed the bounds that clamping sets:
  `SyncLoop.CorrectionAboveBound` and `SyncLoop.CorrectionOvershoots` give a configuration and
  offsets for each cause, and `SyncLoop.CorrectionWithinPeerBound` and its two companions say
  exactly when each of the bounds holds.
- A timer that ends an adjustment does not clear it (driver/clocks/sysclk_linux.go:162-169), so a later step
  sets the base frequency once more; the frequency is the same either way.
- A pool with a single cookie left asks for eight, and that request does not fit into its buffer:
  `CookiePool.FitsWithTwo`. From a full pool this happens exactly after seven losses in a row:
  `NtsExchange.Exchanges`.
- A cookie that is cut off makes decoding read beyond it. `Cookies.PanicsOnCut` and
  `NtsServer.CrashesOnCut` say exactly which cookies and which packets do that.
- A key exchange that fails may leave cookies that the next fetch uses
  (net/ntske/fetcher.go:89-94): `CookiePool.Fetcher.FetchData`.

## Model

| member | source | states |
|---|---|---|
| `NtpTime.Time64.Before` | net/ntp/ntp.go:96-99 | Before compares timestamps as one 64-bit number |
| `NtpTime.Time64.After` | net/ntp/ntp.go:101-104 | After compares timestamps as one 64-bit number |
| `NtpTime.BeforeIsTotalOrder` | net/ntp/ntp.go:96-104 | Before is a strict total order, After its converse |
| `NtpTime.FractionOf` | net/ntp/ntp.go:70-74 | the fraction is the greatest one that is not after the nanoseconds |
| `NtpTime.NanosOf` | net/ntp/ntp.go:90-91 | the nanoseconds are the greatest ones that are not after the fraction |
| `NtpTime.SeventyYears` | net/ntp/ntp.go:9-10 | from 1900 to 1970 there are 70 years of the Gregorian calendar, 17 of them leap years |
| `NtpTime.SecondsSince1900` | net/ntp/ntp.go:66-75 | the seconds of a timestamp are those since 1900 by that calendar, modulo 2^32 |
| `NtpTime.OrderPreserved` | net/ntp/ntp.go:66-104 | within one era conversion to a timestamp preserves the order strictly, in both directions |
| `NtpTime.Time64Injective` | net/ntp/ntp.go:66-75 | different instants less than 2^32 s apart have different timestamps |
| `NtpTime.NanosRoundTrip` | net/ntp/ntp.go:73-91 | a conversion there and back loses no nanosecond if 5^9 divides them, otherwise one |
| `NtpTime.RoundTrip` | net/ntp/ntp.go:66-94 | for every instant and reference time: the seconds come back if and only if the instant is in one of two intervals, and the nanoseconds lose at most one |
| `NtpTime.RoundTripNearReference` | net/ntp/ntp.go:77-94 | an instant not in an earlier era and within half an era of the reference time comes back, up to the rounding |
| `NtpTime.PreviousEraIsLate` | net/ntp/ntp.go:82-88 | an instant of the previous era comes back one era late, or two if that would still be too far in the past |
| `StoreSpec.RunIsShort` | core/server/server.go:122-153 | a run of used instants is no longer than the number of used timestamps (pigeonhole) |
| `StoreSpec.FirstFreeIsNear` | core/server/server.go:138-151 | the search for a free receive time ends after at most as many steps as there are pairs, hence eight |
| `StoreSpec.RequestKeepsInv` | core/server/server.go:102-209 | every request keeps the bounds of the store: clients, 1 to 8 pairs each, receive times not after qval |
| `StoreSpec.UpdateKeepsInv` | core/server/server.go:211-262 | every update keeps these bounds and ends with the receive time before the transmit time |
| `StoreSpec.AssignedTxIs` | core/server/server.go:138-151 | the transmit time is the first one from the reading of the clock on that is after the receive time, if that was moved |
| `StoreSpec.TxMovesAre` | core/server/server.go:138-151 | it is moved once for each receive time on the way that is not before the clock |
| `StoreSpec.RequestTimes` | core/server/server.go:122-153 | the receive time is the first one that is not stored, and stays for a new client; the transmit time is the clock or the nanosecond after it |
| `StoreSpec.RequestAnswer` | core/server/server.go:174-185 | all four times of a response, in interleaved mode and otherwise |
| `StoreSpec.RequestPriority` | core/server/server.go:165-192 | qval becomes the receive time if no stored one is as late, and is left otherwise |
| `StoreSpec.RequestTouches` | core/server/server.go:154-171 | a request changes its client only; another one goes only from a full store, has the least qval of all and is not after the newcomer; a newcomer is not stored only if it is before every qval |
| `StoreSpec.RequestKeepsFull` | core/server/server.go:155-172 | a full store stays full |
| `StoreSpec.RequestRecords` | core/server/server.go:187-208 | the pair of a request is stored; it replaces the pair the request refers to, or the one with the least receive time of eight, or is added; every other pair is an old one, unchanged |
| `StoreSpec.RequestPair` | core/server/server.go:187-208 | where each pair in the store comes from after a request, for every client |
| `StoreSpec.RequestKeepsExact` | core/server/server.go:188-196 | qval stays the greatest receive time if and only if the request does not overwrite the greatest one with an earlier one |
| `StoreSpec.RequestKeepsAllExact` | core/server/server.go:154-196 | the same for all clients of the store, whether the client is known, new, or not admitted |
| `StoreSpec.UpdateKeepsExact` | core/server/server.go:249-256 | an update keeps an exact qval exact |
| `StoreSpec.UpdateKeepsAllExact` | core/server/server.go:211-262 | so it does for all clients of the store |
| `StoreSpec.UpdateTime` | core/server/server.go:215-220 | the transmit time is the measured one, or the nanosecond after the receive time if that is later |
| `StoreSpec.UpdatePriority` | core/server/server.go:248-258 | qval changes only with the removal of the greatest receive time, to the greatest one that is left |
| `StoreSpec.UpdateTouchesPair` | core/server/server.go:237-259 | an update rewrites the transmit time of its pair, or removes that pair and no other one |
| `StoreSpec.UpdatePair` | core/server/server.go:237-259 | where each pair in the store comes from after an update, for every client |
| `StoreSpec.KeepsItsTime` | core/server/server.go:138-151 | a request keeps its receive time if and only if no stored pair of its client has it |
| `StoreSpec.FirstFreeIs` | core/server/server.go:122-153 | the first instant that is not stored, computed |
| `StoreSpec.AssignsFirstFree` | core/server/server.go:122-153 | a request gets the first instant, from its receive time on, that is not stored for its client |
| `StoreSpec.AssignedIsNew` | core/server/server.go:138-151 | a request gets a time that none of its client got before if and only if the first instant not stored has not left the store; and if and only if it gets the first instant that none got |
| `StoreSpec.LaterIsNew` | core/server/server.go:138-151 | a request that came after all times given to its client, by less than an era, gets a new time |
| `StoreSpec.TimeAssignedTwice` | core/server/server.go:139-247 | a receive time that is assigned twice to one client, after its pair was removed in between |
| `TssItems.TssItem.Scan` | core/server/server.go:124-137 | one pass finds a pair with the receive time, or else the pair the request refers to and those with the least and the greatest receive time |
| `TssItems.TssItem.ScanTop` | core/server/server.go:226-236 | one pass finds the pair and the two greatest receive times |
| `TssItems.StampsOfReplaced` | core/server/server.go:193-200 | overwriting a slot replaces its pair and no other one |
| `TssItems.StampsOfSwapRemoved` | core/server/server.go:255-256 | moving the last slot into a removed one loses no other pair |
| `BufferedStores.RecordedRefines` | core/server/server.go:193-207 | what is written into the slots is what the specification records, with distinct receive times |
| `BufferedStores.RaisedRefines` | core/server/server.go:188-192 | qval is raised as specified |
| `BufferedStores.KnownRefines` | core/server/server.go:120-207 | a request of a known client, slot by slot, is a step of the specification |
| `BufferedStores.NewRefines` | core/server/server.go:154-207 | a request of a new client, with or without eviction, is a step of the specification |
| `BufferedStores.RemovedRefines` | core/server/server.go:248-258 | removing a pair and lowering qval is what the specification allows |
| `BufferedStores.UpdateRefines` | core/server/server.go:222-261 | an update, slot by slot, is a step of the specification |
| `TssQueues.UpStep` | core/server/server.go:190-191 | one exchange upward moves the only defect of the heap order to the parent |
| `TssQueues.DownStep` | core/server/server.go:252-253 | one exchange with the least child moves the only defect to that child |
| `TssQueues.DownDone` | core/server/server.go:252-253 | where moving down stops, the item is in order with its children |
| `TssQueues.KeyChanged` | core/server/server.go:190-191 | a changed qval leaves all other items in order |
| `TssQueues.RemovalGap` | core/server/server.go:244 | removing an item leaves a defect at its position only |
| `TssQueues.RootIsLeast` | core/server/server.go:155 | in an ordered queue the first item has the least qval |
| `TssQueues.TssQueue.FirstIsLeast` | core/server/server.go:155-157 | no item of a valid queue is before the first one |
| `TssQueues.TssQueue.Less` | core/server/server.go:78-80 | compares two items by qval |
| `TssQueues.TssQueue.Swap` | core/server/server.go:82-86 | exchanges two items, and every item still knows its position |
| `TssQueues.TssQueue.Up` | core/server/server.go:170-191 | moving up restores the order of the first n items and leaves the others |
| `TssQueues.TssQueue.LeastChild` | core/server/server.go:78-80 | the child that down compares with is the least one |
| `TssQueues.TssQueue.Down` | core/server/server.go:157-253 | moving down restores the order, and reports whether it moved |
| `TssQueues.TssQueue.Fix` | core/server/server.go:188-192 | after a change of one qval the queue is valid again |
| `TssQueues.TssQueue.Rekey` | core/server/server.go:188-192 | sets a qval, and the queue is valid with the same items |
| `TssQueues.TssQueue.Push` | core/server/server.go:88-92 | adds exactly the item |
| `TssQueues.TssQueue.Remove` | core/server/server.go:243-244 | removes exactly the item at the position |
| `TssQueues.TssQueue.Pop` | core/server/server.go:156-157 | removes exactly the first item |
| `TssQueues.TssQueue.PopLast` | core/server/server.go:94-100 | cuts off the last item |
| `TimestampStores.TimestampStore.AssignTimes` | core/server/server.go:111-153 | assigns the first free receive time and the first transmit time from the clock on that is after it, if it was moved, and counts both kinds of moves |
| `TimestampStores.TimestampStore.Admit` | core/server/server.go:154-171 | evicts the client with the least qval if the store is full and it is not after the newcomer, and adds the newcomer if there is room |
| `TimestampStores.TimestampStore.AddItem` | core/server/server.go:165-171 | adds an item to map, queue and gauges |
| `TimestampStores.TimestampStore.RemoveItem` | core/server/server.go:243-247 | removes an item from map, queue and gauges |
| `TimestampStores.TimestampStore.RecordRequest` | core/server/server.go:187-208 | writes the pair into its slot and raises qval |
| `TimestampStores.TimestampStore.HandleRequest` | core/server/server.go:102-209 | keeps map, heap, buffers and gauges consistent, and does what the specification of a request says; the two times and all four times of the response, without the specification: the receive time is the first one not stored, the transmit time the clock or the nanosecond after it; counts in all four counters |
| `TimestampStores.TimestampStore.UpdateTXTimestamp` | core/server/server.go:211-262 | keeps them consistent, and does what the specification of an update says; the transmit time is the measured one or the nanosecond after the receive time; changes only its own counter |
| `Interleaved.SendCarries` | core/client/client_ip.go:149-164 | which remembered stamp goes into which field of an interleaved request, and what a basic one carries |
| `Interleaved.AcceptKeeps` | core/client/client_ip.go:271-338 | which responses are taken, the four stamps of the measurement in either mode, and what is remembered |
| `Interleaved.AcceptIsExact` | core/client/client_ip.go:271-310 | whichever way a client takes a response, three stamps are those of one exchange; all four are if and only if it is taken as a basic one or brings a stamp of the handling that the client remembers |
| `Interleaved.HandleReplyOk` | core/server/server.go:175-185 | a reply carries a transmit time of its own handling, or of the handling that the request quotes |
| `Interleaved.SendKeepsInv` | core/client/client_ip.go:149-164 | sending a request keeps the protocol invariant |
| `Interleaved.HandledIsNew` | core/server/server.go:120-153 | a request that will get a new time gets one |
| `Interleaved.HandleKeepsInv` | core/server/server.go:102-209 | handling any copy of a request keeps the invariant, whatever time it gets |
| `Interleaved.UpdatedKeepsInv` | core/server/server.go:211-262 | updating a transmit time keeps it |
| `Interleaved.AcceptKeepsInv` | core/client/client_ip.go:271-338 | taking a response keeps it |
| `Interleaved.StepKeepsInv` | core/client/client_ip.go:149-338 | every step keeps it |
| `Interleaved.RunKeepsInv` | core/client/client_ip.go:149-338 | in every state of every run: all stamps are traced to the handlings that took them |
| `Interleaved.RunIsExact` | core/client/client_ip.go:271-310 | in every run, also with repeated times: a measurement is from one exchange if and only if its response was basic or came from a pair that the remembered handling wrote, and stays so |
| `Interleaved.StepKeepsUnique` | core/server/server.go:120-153 | with new times only, no two handlings of a client have the same time, and pairs have the writer that has their time |
| `Interleaved.RunIsSafe` | core/client/client_ip.go:299-310 | in every state of every run in which requests find new times all measurements so far are from one exchange each |
| `Interleaved.LaterHasNewTime` | core/server/server.go:120-153 | a request received after all times given to its client, by less than an era, will get a new time |
| `Interleaved.RunInOrderIsSafe` | core/client/client_ip.go:299-310 | the same for every run in which the requests of a client are received in order of time, within an era |
| `RepeatedTime.RunMixesExchanges` | core/client/client_ip.go:299-310 | a run of nine steps in which one request gets an old time: every measurement is from one exchange up to the last step, which adds one whose transmit stamp was taken by the handling of another request, and never by the remembered one |
| `Interleaved.ModesAgree` | core/client/client_ip.go:272-274 | client and server agree on the mode of a response if and only if the request carries two different times |
| `Sorting.Sort` | core/measurements/measurement.go:31-49 | a rearrangement with ascending keys |
| `Sorting.SortedHasKth` | core/measurements/measurement.go:34-53 | position k of the sorted list holds the k-th smallest key, which is defined by counting |
| `Sorting.KthIsUnique` | core/measurements/measurement.go:34-53 | there is one k-th smallest key |
| `Measurements.MidTimeIsHalfWay` | core/measurements/measurement.go:15-23 | the midpoint of two times is between them, half way, or half of the largest int64 after the earlier one |
| `Measurements.MidpointIs` | core/measurements/measurement.go:15-23 | the midpoint has not failed, and has the midpoints of both times and both offsets |
| `Measurements.MidOffsetBetween` | core/measurements/measurement.go:15-23 | the midpoint is between the two offsets if and only if their distance does not overflow, or is the largest there is |
| `Measurements.Median` | core/measurements/measurement.go:26-42 | the middle measurement, or the midpoint of the two middle ones |
| `Measurements.FaultTolerantMidpoint` | core/measurements/measurement.go:44-54 | the midpoint of the measurements with the f-th smallest and the f-th greatest offset |
| `Measurements.FtmPairWithin` | core/measurements/measurement.go:52-53 | dropping f offsets at either end leaves only the range of the correct ones |
| `Measurements.FtmIsValid` | core/measurements/measurement.go:44-54 | validity: the result is in the range of the correct offsets, whatever the at most f others are |
| `Measurements.FtmPairsOverlap` | core/measurements/measurement.go:52-53 | the ranges kept by two nodes overlap |
| `Measurements.FtmHalves` | core/measurements/measurement.go:44-54 | halving: the results of two nodes that disagree on at most f clocks are at most half the range apart, and in it |
| `Collection.CollectMeasurements` | core/client/client.go:77-108 | exactly the successes received before the cancellation, in order of arrival, then zero offsets; received and drained together are all |
| `Collection.SuccessesAre` | core/client/client.go:85-92 | the collected measurements are those that did not fail, at increasing positions, with none left out |
| `Collection.CorrectAreKept` | core/client/client.go:85-92 | collecting neither loses nor repeats a correct answer |
| `Collection.CollectedIsValid` | core/sync/sync.go:35-43 | if all but f clocks are correct and in time, the combined offset is in the range of the correct ones |
| `Collection.MeasureOffset` | core/sync/sync.go:35-43 | the fault-tolerant midpoint of the successes in time and zero offsets for all other clocks, which is in the range of the correct offsets, for every range |
| `Sampling.SlotsAreDistinct` | base/crypto/crypto.go:93-105 | the slots hold different elements of those seen |
| `Sampling.RandIntn` | base/crypto/crypto.go:73-81 | a number in range; no random number is read for a bound below 2 |
| `Sampling.DrawsComeFromSource` | base/crypto/crypto.go:73-81 | every sequence of choices in range comes from a source |
| `Sampling.Sample` | base/crypto/crypto.go:83-106 | the first k places hold the elements that the draws select, and nothing else changes; it fails if and only if the source does |
| `Sampling.KeepsNewest` | base/crypto/crypto.go:97-104 | a draw keeps the newest element if and only if it names a slot |
| `Sampling.KeepsOld` | base/crypto/crypto.go:97-104 | a draw keeps an older element if and only if it was kept and its slot is not drawn |
| `Sampling.SamplingIsUniform` | base/crypto/crypto.go:83-106 | counted over all draws, every element is kept in the same share of them: k of n |
| `PathAssignment.SCIONClient.GiveUpPath` | core/client/client.go:130-135 | a client without its path leaves interleaved mode and forgets its measurements |
| `PathAssignment.ModeIs` | core/client/client_scion.go:108-124 | on its fields: a client is in interleaved mode if it may be, has a reference and had an interleaved response, and has a path to keep only then |
| `PathAssignment.ListedIsNotTaken` | core/client/client.go:115-136 | no earlier client takes the path of a client if none of them was on it |
| `PathAssignment.SettledStay` | core/client/client.go:115-136 | so a client whose path is listed gets it and keeps its mode |
| `PathAssignment.TakePath` | core/client/client.go:120-128 | takes exactly the first path with the fingerprint out of the list, or there is none |
| `PathAssignment.GiveStep` | core/client/client.go:121-127 | giving a path keeps positions distinct and accounted for |
| `PathAssignment.KeepPaths` | core/client/client.go:115-136 | only clients that got their path stay in interleaved mode; if clients and filters are all different, each of them keeps its state too, and the path of any other one was taken by earlier clients |
| `PathAssignment.HoldsSampled` | core/client/client.go:137-139 | sampling leaves different positions of the list |
| `PathAssignment.AssignPaths` | core/client/client.go:146-152 | the remaining clients get all the drawn paths, without indexing out of range |
| `PathAssignment.GivePaths` | core/client/client.go:110-154 | min(clients, paths) clients get a path, no position is given twice, clients in interleaved mode whose path is listed keep it, only those stay in interleaved mode, and the others get the positions that are drawn of those left |
| `LuckyFilters.OffsetError` | net/ntp/ntp.go:106-112 | the delay is exact up to the slack of the stamps, and twice the error of the offset is at most the delay and the slack, up to rounding toward zero |
| `LuckyFilters.ConvertedIsHonest` | core/client/client_ip.go:292-310 | with server stamps that went through the 64-bit timestamp, honest stamps have a slack of 1 ns each way |
| `LuckyFilters.LuckiestFirst` | core/client/filter_flash.go:72-77 | the first elements once sorted by delay have the least delays |
| `LuckyFilters.LuckyPacketFilter.constructor` | core/client/filter_flash.go:40-52 | an empty window; no more are picked than fit |
| `LuckyFilters.LuckyPacketFilter.Do` | core/client/filter_flash.go:54-84 | the measurement is put at the end of the window, in place of the first one if the window is full; the result is the median offset of least-delay measurements in it |
| `LuckyFilters.WindowIs` | core/client/filter_flash.go:54-88 | after k measurements since the last reset the window has the last min(cap, k) of them, in order |
| `LuckyFilters.LuckyPacketFilter.Reset` | core/client/filter_flash.go:86-88 | an empty window |
| `LuckyFilters.MedianOffset` | core/client/filter_flash.go:78-83 | the middle offset, or the midpoint of the two middle ones |
| `LuckyFilters.LuckyDelays` | core/client/filter_flash.go:72-77 | no picked delay is greater than the pick-th smallest of the window |
| `LuckyFilters.FilterError` | core/client/filter_flash.go:54-84 | with a constant true offset and stamps of any slack, the error is at most half of the pick-th smallest delay and the slack, rounded up |
| `Bytes.Put` | net/nts/nts.go:335-338 | copying into the buffer writes what fits |
| `NtsCodec.PutHeader` | net/nts/nts.go:305-309 | writes a header, or panics if and only if there is no room |
| `NtsCodec.PutField` | net/nts/nts.go:323-423 | writes a header and the zero-padded value |
| `NtsCodec.PutCookies` | net/nts/nts.go:117-128 | writes all fields, cookies and placeholders alike as cookies, or panics if and only if a header has no room |
| `NtsCodec.PutAuthenticator` | net/nts/nts.go:445-486 | seals over the buffer up to the position, and writes nonce and ciphertext |
| `NtsCodec.EncodePacket` | net/nts/nts.go:103-134 | panics if and only if the ID is short or the headers do not fit; otherwise the packet is the encoding, cut off at 1024 bytes, and begins with the NTP header as it was |
| `NtsCodec.DecodePacket` | net/nts/nts.go:139-200 | decodes as specified, on any bytes |
| `NtsCodec.Authenticate` | net/nts/nts.go:212-242 | fails exactly if the authenticator does not open over the authenticated prefix, and otherwise reads the sealed cookies |
| `NtsCodec.StallsOnEmpty` | net/nts/nts.go:144-190 | decoding goes on forever if and only if it meets a field of length 0 before an authenticator |
| `NtsCodec.EndlessOnEmpty` | net/nts/nts.go:223-239 | the same for the sealed text, with a field of length 0 of any type |
| `NtsCodec.DecodedHas` | net/nts/nts.go:192-199 | a decoded packet has an ID and an authenticator whose position is in it |
| `NtsCodec.FieldRead` | net/nts/nts.go:305-314 | a written field is read back |
| `NtsCodec.DecodeField` | net/nts/nts.go:152-190 | what one field of any type does: unique identifiers replace each other, cookies are collected, placeholders counted, others ignored |
| `NtsCodec.DecodesFields` | net/nts/nts.go:139-200 | what a packet with any list of fields decodes to, and the error if the identifier or the authenticator is missing |
| `NtsCodec.OpenFields` | net/nts/nts.go:223-239 | the cookies of a sealed text with any list of fields |
| `NtsCodec.DecodeCookies` | net/nts/nts.go:174-180 | cookies are decoded in order |
| `NtsCodec.DecodeAuthenticator` | net/nts/nts.go:164-172 | the authenticator is decoded with its position |
| `NtsCodec.RoundTrip` | net/nts/nts.go:103-200 | decoding undoes encoding for every packet that fits: padded ID and cookies in order, placeholders as further cookies, nonce and ciphertext; the position is the end of the covered part |
| `NtsCodec.OpenCookies` | net/nts/nts.go:223-239 | aligned sealed cookies of at least 24 bytes come back in order |
| `NtsCodec.OpenTooFew` | net/nts/nts.go:223-239 | a shorter last cookie does not come back |
| `NtsCodec.SealedCookiesReturn` | net/nts/nts.go:212-288 | sealed cookies of one length, a multiple of four, come back if and only if they have at least 24 bytes |
| `Cookies.Encode` | net/ntske/cookies.go:33-99 | both cookies are encoded in the layout |
| `Cookies.Decode` | net/ntske/cookies.go:50-127 | decodes as specified, on any bytes |
| `Cookies.PanicsOnCut` | net/ntske/cookies.go:50-127 | decoding reads beyond the bytes if and only if a chunk before the end is cut off |
| `Cookies.DecodesChunks` | net/ntske/cookies.go:50-127 | bytes with any list of chunks decode if and only if there is one of each type, to the last ones; other types are ignored |
| `Cookies.OverrunIsUnexpected` | net/ntske/cookies.go:50-127 | a chunk of another type that is longer than the bytes is unexpected data |
| `Cookies.ValuesAreShort` | net/ntske/cookies.go:54-65 | decoded values have 16-bit lengths |
| `Cookies.RoundTrip` | net/ntske/cookies.go:33-127 | a cookie comes back if and only if both byte strings have 16-bit lengths |
| `Cookies.EncryptWithNonce` | net/ntske/cookies.go:130-153 | seals the encoding, with the key ID cut to 16 bits |
| `Cookies.Decrypt` | net/ntske/cookies.go:156-173 | fails if the ciphertext does not open, and otherwise decodes the text |
| `Cookies.EncryptedRoundTrip` | net/ntske/cookies.go:78-173 | an encrypted cookie of two 32-byte keys has 124 bytes, decodes, and decrypts to the same keys |
| `KeyProvider.Provider.constructor` | net/ntske/provider.go:79-84 | starts with one generated key |
| `KeyProvider.Provider.GenerateNext` | net/ntske/provider.go:48-76 | removes exactly the keys that are not valid and adds one with the next ID |
| `KeyProvider.Provider.Get` | net/ntske/provider.go:87-99 | finds a key if and only if it is held and the time is from its notBefore to its notAfter |
| `KeyProvider.Provider.Current` | net/ntske/provider.go:102-112 | generates a key, valid for 72 hours, exactly if the current one is missing, not valid or older than a day, and returns the current one |
| `KeyProvider.CurrentKeepsInv` | net/ntske/provider.go:48-112 | keys stay consecutive, more than a day apart |
| `KeyProvider.AtMostThreeKeys` | net/ntske/provider.go:48-76 | no more than the last three keys are held |
| `KeyProvider.IDsAreNotReused` | net/ntske/provider.go:56-75 | in every run an ID, once given, is never given to another key |
| `KeyProvider.KeyIsFound` | net/ntske/provider.go:87-112 | a key that Current returned is found for 48 hours, whatever calls come between |
| `KeyProvider.ExpiredIsNotFound` | net/ntske/provider.go:87-99 | in every run, no key is found before or more than 72 hours after it was generated |
| `KeyProvider.FoundIsSame` | net/ntske/provider.go:87-112 | what is found by the ID of a key that was current is that key |
| `KeyProvider.CookieOpens` | net/ntske/provider.go:87-112 | a cookie encrypted under it decodes and decrypts to the same keys in that time, its key being found if and only if its ID has 16 bits |
| `CookiePool.Fetcher.FetchData` | net/ntske/fetcher.go:101-111 | returns the data and takes the first cookie out of the pool, after a key exchange if the pool is empty; what a failed one leaves stays in the pool |
| `CookiePool.Fetcher.StoreCookie` | net/ntske/fetcher.go:114-116 | appends a cookie |
| `CookiePool.Fetcher.ProcessResponse` | net/nts/nts.go:246-260 | stores the sealed cookies of a response to the request, and otherwise nothing; a response whose authenticator does not open is refused |
| `CookiePool.NewRequestPacket` | net/nts/nts.go:71-98 | the first cookie, and as many placeholders as eight lack, of zeros and as long as the cookie |
| `CookiePool.NewResponsePacket` | net/nts/nts.go:264-288 | panics if and only if there is no cookie or no room for a header; otherwise seals the fields as far as the buffer goes, and zeros |
| `CookiePool.AlikeFit` | net/nts/nts.go:264-288 | cookies of one length, a multiple of four, have room and are sealed in full, with no zeros after them |
| `CookiePool.RequestSize` | net/nts/nts.go:71-134 | the size of a request, for a pool of any size with a first cookie of any length |
| `CookiePool.ResponseSize` | net/nts/nts.go:264-288 | the size of a response with any number of 124-byte cookies |
| `CookiePool.FitsWithTwo` | net/nts/nts.go:103-134 | with 124-byte cookies a request fits if and only if the pool had two or more, and encoding it panics otherwise |
| `CookiePool.RequestArrives` | net/nts/nts.go:71-200 | an encoded request decodes to the client's first cookie and 9 - L cookies in all, and is authentic under the client's key |
| `CookiePool.ResponseArrives` | net/nts/nts.go:246-260 | the client authenticates the response and finds all its cookies in order |
| `NtsServer.Admit` | core/server/server_ip.go:98-133 | decodes packet and cookie, finds the key, decrypts and authenticates as specified, on any bytes |
| `NtsServer.CarriedIsAdmitted` | core/server/server_ip.go:98-133 | a packet whose cookie opens under a valid key is rejected if its authenticator does not open, hangs the server on a sealed field of length 0, and is admitted otherwise, with the number of cookies and placeholders |
| `NtsServer.AdmittedCarries` | core/server/server_ip.go:98-133 | no other packet is admitted |
| `NtsServer.ForgedIsRejected` | core/server/server_ip.go:127-133 | so a packet whose authenticator does not open is rejected |
| `NtsServer.CrashesOnCut` | core/server/server_ip.go:98-133 | a packet makes the server panic if and only if it is decoded and its first cookie is cut off, or the text sealed in that cookie under a known key is |
| `NtsServer.MakeCookies` | core/server/server_ip.go:164-174 | so many new cookies, each sealed under the key with its own nonce |
| `NtsServer.Respond` | core/server/server_ip.go:175-181 | for any cookies: no answer without them; otherwise the encoding of the response, or a panic if and only if the text, the ID or the headers do not fit |
| `NtsServer.AnswerTo` | core/server/server_ip.go:98-181 | answers with new cookies under the current key exactly if the packet is admitted and valid; otherwise drops it, and the keys are unchanged; so for a packet whose authenticator does not open |
| `NtsExchange.CallsKeepPool` | net/ntske/provider.go:102-112 | calls of other clients leave a pool good |
| `NtsExchange.CallForOthers` | net/ntske/provider.go:102-112 | any calls of other clients extend the history of the provider, in order of time if their readings of the clock are |
| `NtsExchange.FoundFor48Hours` | net/ntske/provider.go:48-112 | the key of the first cookie of a pool is found for 48 hours after the cookie was made, whatever calls come between |
| `NtsExchange.AdmitsRequest` | core/server/server_ip.go:98-133 | the server admits the request of a good pool if and only if it still has the key of its first cookie, and finds the client's session keys and 9 - L |
| `NtsExchange.NewCookiesAreGood` | core/server/server_ip.go:164-174 | every new cookie has 124 bytes and opens to the same session keys under the key it names |
| `NtsExchange.AnswerArrives` | net/nts/nts.go:246-260 | the answer fits, decodes, is authentic, and has all the new cookies |
| `NtsExchange.MakeRequest` | core/client/client_ip.go:164-171 | encodes the request, or panics if and only if the pool had one cookie |
| `NtsExchange.TakeResponse` | core/client/client_ip.go:244-269 | stores the cookies of an authentic response, and otherwise leaves the pool |
| `NtsExchange.Serve` | core/server/server_ip.go:98-181 | for a served client: an answer under the current key if and only if the key of its first cookie is found and the header is valid, by one more call of Current |
| `NtsExchange.Exchange` | core/client/client_ip.go:131-269 | on the fetcher and the provider themselves: an exchange is answered if and only if both packets arrive, the header is valid and the key is found; then the pool is 8 again with the new cookies at the end, otherwise it has one cookie less; all cookies stay good |
| `NtsExchange.NextExchange` | core/client/client_ip.go:131-269 | the same after calls of other clients; every cookie of the pool was there at first or was made in one of the last eight exchanges |
| `NtsExchange.Exchanges` | core/client/client_ip.go:131-269 | for any sequence of answered and lost exchanges from a full pool, with calls of other clients between them: one panics if and only if the seven before it were all lost; and if clocks go forward and requests arrive within 48 hours of the eight exchanges before, those are answered whose packets arrive with a valid header, and no others |
| `SlewClock.SystemClock.Step` | driver/clocks/sysclk_linux.go:129-141 | adds the offset to the clock, sets the base frequency if an adjustment is pending and drops that, and counts the epoch, or panics if that overflows |
| `SlewClock.SystemClock.Adjust` | driver/clocks/sysclk_linux.go:143-170 | sets the frequency at which the clock gains the offset in the duration, cut to whole seconds; the offset of the clock stays |
| `SlewClock.SystemClock.Fire` | driver/clocks/sysclk_linux.go:162-169 | sets the base frequency of the newest adjustment; a stale timer changes nothing; the offset of the clock stays |
| `SlewClock.SystemClock.Epoch` | driver/clocks/sysclk_linux.go:112-116 | the number of steps |
| `SlewClock.OffsetsAdd` | driver/clocks/sysclk_linux.go:129-170 | any more events add the sum of the offsets of the steps among them to the clock, and their number to the epoch |
| `SlewClock.OverStaysOver` | driver/clocks/sysclk_linux.go:129-170 | an adjustment that is over stays over, whatever timers fire |
| `SlewClock.FrequencyAfter` | driver/clocks/sysclk_linux.go:129-170 | in any interleaving the frequency is the base one of the newest adjustment if and only if its own timer fired or a step followed, else its slew frequency |
| `Float64.RoundIsNearest` | core/sync/sync.go:69-105 | a float64 conversion or product is rounded to a value that no other one is nearer than |
| `Float64.RoundedIsFloat` | core/sync/sync.go:69-105 | the rounded number is a value of the type |
| `Float64.FloatHasBits` | core/sync/sync.go:69-105 | every value of the type is a number of 53 bits, scaled |
| `Float64.BitsAreFloat` | core/sync/sync.go:69-105 | every such number is a value of the type |
| `Float64.IntegersAreFloats` | core/sync/sync.go:98-105 | integers up to 2^53 are converted without an error |
| `Float64.RoundIsMonotone` | core/sync/sync.go:69-105 | rounding preserves the order |
| `SyncLoop.ClampIs` | core/sync/sync.go:98-112 | an offset whose size is above the bound is set to the bound, rounded toward zero, with its sign; any other one is left |
| `SyncLoop.SizeIs` | core/sync/sync.go:98-105 | the size is the absolute value up to 2^53, and as near to it as a float64 beyond |
| `SyncLoop.ClampBounds` | core/sync/sync.go:98-112 | clamping keeps the sign and does not enlarge; the result is within the bound if and only if the offset is not above it while its float64 is not |
| `SyncLoop.LeastIsClamped` | core/sync/sync.go:98-105 | the least int64, whose absolute value saturates, is clamped by every bound below it |
| `SyncLoop.OvershootIsSmall` | core/sync/sync.go:98-112 | only bounds of 2^53 or more are overshot, by at most 512 ns |
| `SyncLoop.ClampWithinLimit` | core/sync/sync.go:98-112 | a clamped offset is within a bound below 2^53, and within 512 ns more of any other |
| `SyncLoop.BoundIsProduct` | core/sync/sync.go:69-76 | a bound is the product of its factor and the drift, up to the rounding of a float64 |
| `SyncLoop.PeerBoundIsLarger` | core/sync/sync.go:49-76 | the checks of the configuration make the peer bound no smaller than the reference bound, and larger if the reference factor is at most 2^51 |
| `SyncLoop.CorrectionOf` | core/sync/sync.go:96-122 | computes the correction of a round as specified |
| `SyncLoop.CorrectionIs` | core/sync/sync.go:107-122 | without the specification: the clamped reference offset, the clamped peer offset if that is above the cutoff, or half of their sum, rounded toward the first |
| `SyncLoop.MidOffsetIsBetween` | base/timemath/timemath.go:33-35 | the midpoint in either order is between if and only if the distance does not overflow, and without an overflow is half the sum, rounded toward the first |
| `SyncLoop.CorrectionIsBetween` | core/sync/sync.go:113-122 | the correction is the clamped reference or peer offset, or zero; with both it is between the two if and only if their distance does not overflow |
| `SyncLoop.SmallBoundsFit` | core/sync/sync.go:69-76 | bounds that, with what they may be overshot by, together fit an int64 rule out every overflow |
| `SyncLoop.MidOffsetOverflows` | base/timemath/timemath.go:33-35 | what the midpoint is if the distance overflows |
| `SyncLoop.CorrectionWithinPeerBound` | core/sync/sync.go:96-122 | for any offsets: the correction is within the peer bound if and only if the offset that applies does not overshoot it, or, with both, the clamped offsets neither overflow nor overshoot, or are such that their midpoint is small all the same |
| `SyncLoop.CorrectionWithinReferenceBound` | core/sync/sync.go:96-122 | while no peer applies it is within the reference bound if and only if there is no reference clock or the offset does not overshoot; it is zero without reference clocks |
| `SyncLoop.CorrectionWithinMeanBound` | core/sync/sync.go:96-122 | while both apply, twice the correction is at most the sum of both bounds and 1 ns if and only if a condition as for the peer bound holds |
| `SyncLoop.CorrectionIsBounded` | core/sync/sync.go:96-122 | for all offsets the correction is within the peer bound, the reference bound or their mean, each plus 512 ns from 2^53 on, if both together fit an int64, or the reference bound is larger than any offset |
| `SyncLoop.CorrectionOvershoots` | core/sync/sync.go:98-112 | a configuration with the reference bound 2^53, and the offset 2^53 + 1, which is applied as it is |
| `SyncLoop.CorrectionAboveBound` | core/sync/sync.go:113-122 | a configuration and offsets within the bounds whose correction exceeds the peer bound |
| `SyncLoop.Run` | core/sync/sync.go:77-141 | in every round the offsets are the fault-tolerant midpoints of the clocks that answered, which are valid, with the local clock among the peers, and the correction is computed from them |
| `SyncLoop.CorrectionFollowsClocks` | core/sync/sync.go:96-122 | with enough correct clocks of each kind that there is, the correction is in every range that contains zero and the correct offsets of both kinds, if its width is an int64 |

## Left out

- Sockets, kernel timestamps, DSCP, TLS and QUIC, the SCION packet layers and daemon, DRKey, Prometheus, logging, configuration and the command line. Of the metrics, the gauges and counters of the timestamp store are kept.
- The handling of retries, deadlines and validation of responses in `measureClockOffsetIP`: a client may give up at any time, and takes only the responses that it classifies.
- The three-second age limit of an interleaved request: a client may send either kind of request.
- Several servers: there is one server in `Interleaved`. A client that turns to another server forgets the last exchange, which is the step `Forget`.
- Whether the client's own stamps are right: they are any two different ones.
- `NtimedFilter`, `PIController` and `Pll`, which are floating-point control laws.
- `timemath.Median` and `timemath.FaultTolerantMidpoint` on durations: they are those of `Measurements` on offsets alone.
- The encoders of 48-byte NTP packets and of CSPTP, and the CSPTP server.
- Reference clock drivers.
- The cipher itself: `Aead` assumes that opening undoes sealing. Rejection of forgeries is not assumed or stated.
- The frequency in parts per million that the kernel is given: `SlewClock` has real numbers for float64.
- Infinities and NaN: a product in `SyncLoop` that exceeds every float64 stays a number, which no offset exceeds either; and the factors are taken to be numbers.
- Sampling.RandIntn: does not model the rejection loop, whose exact distribution over words is not uniform; only its range and all sequences of choices are used.
- Sampling.Sample: does not say how the list is left when the source of randomness fails, as the caller then drops it.
- PathAssignment.GivePaths: says that clients keep their whole state, and whose paths were taken, only if no two clients are the same or share a filter; and of a failing source of randomness only that it fails.
- LuckyFilters.LuckyPacketFilter.Do: the scratch buffer `luckyPkts` is allocated in each call instead of being kept; its contents never outlive a call.
- NtsCodec.EncodePacket: does not say what the buffer holds after a panic; and the cipher is taken to accept every key and the random source not to fail, which would be further panics.
- NtsCodec.DecodePacket: gives `Stalled` where a field of length 0 would repeat the loop forever.
- Cookies.Decode: a value that reaches beyond the bytes gives `Panic`; Go gives the error for unexpected data instead if the slice has spare capacity.
- NtsServer.AnswerTo: the random source is taken not to fail.
- Of runIPServer: packets without extension fields, the timestamps of the response (see `TimestampStores`), and the check of the header, which is a parameter.
- CookiePool.Fetcher.FetchData: the key exchange itself is a parameter, which gives at least one cookie if it succeeds, and anything if it fails.
- SlewClock.SystemClock.Step: after the panic at epoch 2^64, which ends the program, only the fields are stated; the same holds for a negative duration in `Adjust`.
- SyncLoop.Run: the endless loop is cut to as many rounds as are given.
- TimestampStores.TimestampStore.HandleRequest: the other header fields of the response, which are constants or copies, are left out.
- Interleaved.RunIsSafe: is stated for runs in which requests get new times, without which it is false (see above; `Interleaved.RunIsExact` is for all runs), and in which a client's receive stamp differs from its transmit stamp, without which `Interleaved.ModesAgree` shows the modes to be ambiguous.
- NtsExchange.Exchanges: the calls that other clients make come between two exchanges, not within the answer to a request; and key IDs are taken to stay within the 16 bits that a cookie keeps of them (see `KeyProvider.CookieOpens`).
