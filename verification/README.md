# Onestein, modelled and proved

Onestein is a messaging stack whose crates compute without I/O: bytes and
times come in, bytes and new states go out. This project models the parts of
it that are algorithms in their own right and proves what they are for.

- **Binary Data Format** (`crates/bdf`): the cursor-driven reader in its
  strict and lenient modes, and the appending writer. Strict reading accepts
  exactly one byte string per value, and the writer is the unique shortest
  encoder.
- **Streams and keys** (`crates/transport`): the 32-bit reordering window with
  its two slide loops, which refines a plain set of accepted numbers; the
  sender's counter; and forward rotation of a period's keys.
- **Relay** (`crates/relay`): the store, the single-use challenges and the
  wire, over whole runs. A queue holds exactly what the log of events says,
  every checked proof has its own earlier grant, and every answer can be sent.
- **Sync** (`crates/sync`, `crates/record`): record framing, one opportunity
  to send in three modes, the backoff between sends, delivery behind a
  horizon, and retention.
- **Contact** (`crates/contact`): base32, contact links and contact bundles,
  with the exact set of texts and bytes that read as each.

Code that changes state in place is modelled as methods on classes and loops
with invariants (`BdfCursor.Reader`, `BdfWriter.Buffer`, `Window.Window`,
`StreamCounter.StreamCounter`, `Framing.Reader`, `RelayStore.Store`,
`RelayApi.Challenges`, `Peer.PeerMessageState`, the loops of `Plan`,
`Rotation`, `Base32Codec`, `SyncRecords`, `Delivery` and `Retention`). Each is
tied to a function or relation of its inputs and old state, and the theorems
are about those, over all inputs and all runs.

Hashing, key derivation and proof checking are parameters (`Kdf`, `Namer`,
`Verifier`, `Hash`): nothing is assumed of them. The clock and the fresh
challenge are arguments of each step.

## What the proofs found

Where a property fails, the code is kept as it is, a concrete input shows the
failure, and the exact condition under which the property holds is proved.

- The window accepts stream number 2^64 - 1 again once its base stands there,
  because the saturating slide cannot move past it. This is the only replay
  (`WindowRuns.ReplayOnlyAtTheEnd`, `WindowRuns.LastNumberIsAcceptedAgain`).
- `StreamCounter::restore` forgets that a counter was exhausted, so the last
  number can be handed out twice (`StreamCounter.RestoreContinues`,
  `StreamCounter.RestoreRepeatsTheLast`).
- `rotate_to` the current period changes nothing, except in period 2^64 - 1,
  where every key is derived once more (`Rotation.RotateInPlace`).
- The base32 tail check admits one surplus `A`: "MYA" reads as "MY" does. It
  suffices exactly when the number of symbols modulo 8 is not 1, 3 or 6
  (`Base32Theorems.TailCheckSuffices`). A contact link's length rules that
  out.
- A contact bundle is committed to by encoding it again, and its reader passes
  over dictionary keys it does not know. `spec/35-contact.md` section 3 says
  the received bundle is hashed. The two agree exactly when four fields
  arrived (`ContactBundle.CommitsToWhatArrived`).
- The relay's queue expiry can take a blob that is not yet old. A store is
  safe from that at every time exactly when no blob in it outlives its queue,
  which a clock that never runs back keeps so
  (`RelayLimits.ClockRunningBackLosesABlob`, `RelayLimits.SafeFromExpiryWhen`,
  `RelayLimits.ExpiryIsExact`).
- Expiry takes a queue and leaves its challenges. A proof can then be checked
  against the keys of a queue registered since, with a challenge granted to
  the one before, exactly when one was outstanding at that registration and
  none has been granted after it (`RelayRuns.ChallengeOutlivesItsQueue`,
  `RelayRuns.GrantIsOlderThanItsQueueWhen`).
- The relay's store accepts blobs of 64 KiB, but a response carries at most
  48 KiB less 32 bytes. A blob in between is accepted, and the read that
  should hand it out has no answer that can be encoded
  (`RelayWire.UnsendableFromEmpty`, `RelayWire.WrittenButNotReadable`). An
  answer fails so exactly when the request is a read with a good proof and its
  queue's oldest blob is that long (`RelayWire.AnswerDoesNotFitWhen`). Over
  the wire no such blob can arrive (`RelayWire.EveryResponseIsWritable`).
- A second plan at the same moment is quiet except at 2^64 - 1 ms, where the
  saturated backoff is already over (`PlanTheorems.SecondPlanIsQuiet`,
  `PlanTheorems.OfferedTwiceAtTheEnd`).
- The code departs from the table of modes in section 9 of
  `spec/50-sync.md`. Batch and Eager send a message that was requested although
  the peer has seen it, and report a message gone although nobody asked
  (`PlanTable.RequestedAfterSeenIsSent`, `PlanTable.GoneIsReportedUnasked`).
  Apart from those two the code is the table, if a message still counts as
  shared once its body is gone, as `Shared` in `crates/sync/src/session.rs`
  has it (`PlanTable.FollowsTheTableUnless`). The design has it otherwise: a
  message is shared or deleted (`spec/50-sync.md` line 23), and an offer names
  what the sender holds (line 144). By that, Interactive departs too, when it
  offers a message that is gone (`PlanTable.GoneIsOffered`,
  `PlanTable.FollowsTheDesignUnless`). The model follows the code.

## Model

| member | source | states |
|---|---|---|
| `BdfTheorems.StrictIsTheCanonicalImage` | crates/bdf/src/read.rs:114-292 | strict reading yields a value from some bytes if and only if the value is canonical, nests at most 64 containers, and the bytes are what the writer writes for it |
| `BdfOrder.StrictAcceptsExactly` | crates/bdf/src/read.rs:114-292 | the same without naming the reader: in every dictionary at every depth each key comes before every later one byte by byte, at most 64 containers nest, and the bytes are the writer's |
| `BdfOrder.WiderIntegers` | crates/bdf/src/read.rs:224-233 | an integer in any width that holds it reads leniently, and strictly in the least width only |
| `BdfOrder.WiderRawLengths` | crates/bdf/src/read.rs:200-215 | so does a byte string whose length is written in any width that holds it |
| `BdfOrder.WiderTextLengths` | crates/bdf/src/read.rs:200-215 | so does a text |
| `BdfTheorems.StrictIsInjective` | crates/bdf/src/read.rs:104-116 | no two byte strings strictly decode to one value |
| `BdfTheorems.WriterIsShortest` | crates/bdf/src/write.rs:13-70 | of all bytes that read leniently as a value, the writer's are the shortest, the only ones of that length, and read back as the value |
| `BdfTheorems.ReadsBack` | crates/bdf/src/read.rs:217-292 | at any depth with room for its nesting, a written value followed by any bytes reads back with the cursor exactly at its end, strictly too when it is canonical |
| `BdfTheorems.ValueShape` | crates/bdf/src/read.rs:217-304 | whatever is read nests within the limit from the depth it was read at, took at least as many bytes as its own encoding, took exactly those when equally many, and in strict mode is canonical and took exactly its encoding |
| `BdfTheorems.EntriesShape` | crates/bdf/src/read.rs:265-288 | strict reading of dictionary entries yields keys each before the next, starting after the key already read |
| `BdfTheorems.LenientReadsWhatIsWritten` | crates/bdf/src/read.rs:123-139 | a written value reads back leniently if and only if it nests at most 64 containers |
| `BdfTheorems.StrictRefinesLenient` | crates/bdf/src/read.rs:104-125 | strict mode accepts exactly the lenient inputs that are the encoding of a canonical value, and yields the same value |
| `BdfTheorems.WrittenObjectsArePrefixFree` | crates/bdf/src/write.rs:21-56 | no written object is a proper prefix of another's encoding |
| `Bdf.MinimalIntLength` | crates/bdf/src/lib.rs:19-29 | the width is one of 1, 2, 4 and 8, and is the least of them that holds the number |
| `Bdf.AdjacentSortedIsSorted` | crates/bdf/src/lib.rs:82-94 | comparing only neighbouring keys orders all keys and makes each unique |
| `BdfOrder.BeforeIsLexicographic` | crates/bdf/src/read.rs:275-281 | one key comes before another if and only if it is a proper prefix of it or is less at the first byte where they differ |
| `BdfOrder.KeyFaultMeans` | crates/bdf/src/read.rs:275-281 | a strict reader reports a key as repeated if and only if it equals the one before, and as out of order if and only if it comes before it |
| `BdfOrder.FirstDifferenceDecides` | crates/bdf/src/lib.rs:82-94 | at the first byte where two keys differ the order of those bytes is the order of the keys |
| `BdfOrder.CanonicalMeans` | crates/bdf/src/lib.rs:82-94 | a value is canonical if and only if the keys of every dictionary within it ascend byte by byte |
| `BdfText.Utf8Means` | crates/bdf/src/read.rs:245-251 | the text predicate accepts exactly the byte strings that spell out some sequence of Unicode scalar values in UTF-8 |
| `BigEndian.IntRoundTrip` | crates/bdf/src/write.rs:67-70 | an integer written in any width that holds it reads back through two's complement |
| `BigEndian.BytesRoundTrip` | crates/bdf/src/read.rs:181-198 | 1, 2, 4 or 8 bytes read as an integer that fits them, and writing it gives the same bytes |
| `BdfCursor.TwosComplementStep` | crates/bdf/src/read.rs:187-196 | shifting a sign-extended integer by a byte and putting the next in never loses bits, and is the two's complement of one byte more |
| `BdfCursor.Reader.Byte` | crates/bdf/src/read.rs:150-154 | takes the next byte and moves past it, or reports truncation and stays |
| `BdfCursor.Reader.Take` | crates/bdf/src/read.rs:162-179 | yields exactly the next bytes asked for and moves past them, or reports how many there are |
| `BdfCursor.Reader.Signed` | crates/bdf/src/read.rs:181-198 | the sign-extending loop yields the two's complement of the bytes it moves past, for the four widths only |
| `BdfCursor.Reader.Length` | crates/bdf/src/read.rs:200-215 | a length is non-negative and in strict mode no wider than it need be |
| `BdfCursor.Reader.Value` | crates/bdf/src/read.rs:217-292 | the recursive reader yields and leaves ahead what the specification of reading says, for every input, mode and depth, and a value read moves the cursor on by at least one byte and never past the end |
| `BdfCursor.Reader.Items` | crates/bdf/src/read.rs:256-264 | the list loop yields every item up to the end byte and moves past it |
| `BdfCursor.Reader.Entries` | crates/bdf/src/read.rs:265-288 | the dictionary loop compares each key with the one before it and yields the entries in wire order |
| `BdfCursor.Reader.Deeper` | crates/bdf/src/read.rs:297-304 | no container opens below depth 64 |
| `BdfCursor.DecodeOne` | crates/bdf/src/read.rs:127-139 | one object and nothing after it, else the number of bytes left over |
| `BdfWriter.PushBe` | crates/bdf/src/write.rs:67-70 | appends the low bytes of the number, most significant first |
| `BdfWriter.WriteSized` | crates/bdf/src/write.rs:58-65 | appends header, minimal length and bytes, leaving what was there |
| `BdfWriter.WriteInto` | crates/bdf/src/write.rs:21-56 | appends exactly the value's encoding to what was there |
| `BdfWriter.ToBytes` | crates/bdf/src/write.rs:13-17 | the encoding of the value, about which the theorems speak |
| `BdfOrder.ScalarsWritten` | crates/bdf/src/write.rs:21-38 | the bytes of null, of truth values, of floats, and of every number of one byte and every positive one of two |
| `BdfOrder.ShortsWritten` | crates/bdf/src/write.rs:34-65 | the bytes of texts and byte strings whose length takes one byte |
| `BdfOrder.ContainersWritten` | crates/bdf/src/write.rs:40-55 | the bytes of a list of two and of a dictionary of one, around those of what they hold |
| `Window.Window.constructor` | crates/transport/src/window.rs:71-73 | a new window stands at 0 with nothing seen |
| `Window.Window.Restore` | crates/transport/src/window.rs:77-79 | a restored window is the one stored |
| `Window.Window.Slide` | crates/transport/src/window.rs:110-115 | one place up, no further than 2^64 - 1, dropping the lowest bit |
| `Window.Window.MarkSeen` | crates/transport/src/window.rs:121-152 | the verdict is the source's, and a refused number changes nothing, and an accepted one leaves the window slid past everything overtaken by 16 and then past the run of seen numbers, no further, with the same numbers marked above |
| `Window.BitsDetermine` | crates/transport/src/window.rs:63-66 | a mask is the set of its bits, so arithmetic on it is a set operation |
| `WindowRuns.ClosedForm` | crates/transport/src/window.rs:110-152 | after any run from a fresh window, base and mask are the settled form of the set of numbers accepted so far |
| `WindowRuns.SeenIsAccepted` | crates/transport/src/window.rs:95-98 | in every run a number shows as seen if and only if it was accepted, is not below the base, and the base is below 2^64 - 1 |
| `WindowRuns.FrontIsLeast` | crates/transport/src/window.rs:132-149 | the place that form stands at is the least number not accepted among those no more than 15 below the largest accepted |
| `WindowRuns.SettledIsUnique` | crates/transport/src/window.rs:110-152 | a set of numbers has one settled form |
| `WindowRuns.OrderDoesNotMatter` | crates/transport/src/window.rs:121-152 | two runs that accepted the same set end in the same state |
| `WindowRuns.VerdictOf` | crates/transport/src/window.rs:95-130 | the bitmask's verdict is the plain set's: not accepted yet, not passed, and within 32 of the base |
| `WindowRuns.ReplayOnlyAtTheEnd` | crates/transport/src/window.rs:121-152 | an accepted number is accepted again if and only if it is 2^64 - 1 and the base already stands there |
| `WindowRuns.LastNumberIsAcceptedAgain` | crates/transport/src/window.rs:110-115 | a window standing at 2^64 - 1 accepts that number and stays as it is |
| `WindowRuns.PassedOnlyByTheTopHalf` | crates/transport/src/window.rs:121-152 | an unseen number is refused as passed if and only if a number at least 16 above it was accepted |
| `WindowRuns.RefusalsSayWhy` | crates/transport/src/window.rs:121-138 | in every run a number is refused as passed, too far ahead or already seen exactly when it is below the base, 32 or more above it, or accepted and still covered |
| `WindowRuns.EverythingArrivedIsAccepted` | crates/transport/src/window.rs:121-152 | under mild reordering the set accepted is the set that arrived, whatever is duplicated |
| `WindowRuns.ExactlyOnce` | crates/transport/src/window.rs:121-152 | under mild reordering an arrival is accepted if and only if it is the first of its number, or the last number at the end |
| `StreamCounter.StreamCounter.Take` | crates/transport/src/window.rs:207-219 | hands out the next number and moves on, the last one once, then reports exhaustion |
| `StreamCounter.TakesInOrder` | crates/transport/src/window.rs:180-219 | from any start the numbers come in order without a gap up to 2^64 - 1, and none after it |
| `StreamCounter.RestoreContinues` | crates/transport/src/window.rs:189-200 | a counter restored from peek gives the same numbers and errors for ever as the counter itself if and only if that was not exhausted, which is when 2^64 - 1 has not been taken |
| `StreamCounter.RestoreRepeatsTheLast` | crates/transport/src/window.rs:189-219 | after the last number, restoring from peek hands it out again |
| `StreamCounter.ExactlyOnceFromCounter` | crates/transport/src/window.rs:121-219 | numbers taken from a fresh counter and mildly reordered, with any duplication, are each accepted on first arrival and never again |
| `Rotation.RotateTo` | crates/transport/src/lib.rs:203-228 | the loop over the four keys is one derivation per period crossed in each, with the source's two refusals |
| `Rotation.FoldJoins` | crates/transport/src/lib.rs:214-224 | deriving up to a period and on from there is deriving all the way |
| `Rotation.ChainIsOneFold` | crates/transport/src/lib.rs:203-228 | any chain of accepted hops gives the keys of one derivation per period from start to end |
| `Rotation.RotateInPlace` | crates/transport/src/lib.rs:214-226 | rotating to the current period changes nothing, except at 2^64 - 1, where each key is derived once more, as a derivation of 32-byte keys shows |
| `Rotation.BothSidesAgree` | crates/transport/src/lib.rs:158-228 | from one root key and timestamp, A sends with what B receives with and the other way round, in any period both reach by whatever hops |
| `Rotation.ReceivedInANeighbouringPeriod` | crates/transport/src/lib.rs:153-155 | with a period of D + L, a receive clock between D before and D + L after the send clock is in the same period or one next to it |
| `Rotation.PeriodContains` | crates/transport/src/lib.rs:153-155 | a timestamp in period p lies between p and p + 1 times the period's length |
| `Rotation.FirstKeys` | crates/transport/src/lib.rs:165-196 | the first keys are of the period before the timestamp's, each side's outgoing ones derived under its own two labels, and a timestamp in the first period is refused |
| `Rotation.HopIsAcceptedWhen` | crates/transport/src/lib.rs:203-213 | a hop is accepted if and only if it goes between 0 and 1024 periods forward, and the refusal says which way it erred |
| `Rotation.OneHop` | crates/transport/src/lib.rs:214-226 | one period forward derives each of the four keys once, from the label and the new period in eight bytes |
| `Rotation.ListedTransportsReceiveNearby` | crates/transport/src/lib.rs:71-99 | for every transport in the table, between clocks a day apart and within the listed latency, a stream arrives in the period it was sent in or one next to it |
| `RelayStore.Store.Register` | crates/relay/src/store.rs:72-84 | a new queue starts empty at the present time, an existing one stays as it is |
| `RelayStore.Store.Write` | crates/relay/src/store.rs:97-115 | refusals in the source's order, else the blob goes to the end and the queue's clock is set |
| `RelayStore.Store.Delete` | crates/relay/src/store.rs:135-143 | every blob with that identifier goes from that queue, and nothing else changes |
| `RelayStore.Store.Expire` | crates/relay/src/store.rs:150-160 | old blobs go from every queue, then queues too long without a write |
| `RelayLog.QueueIsItsSurvivors` | crates/relay/src/store.rs:72-160 | over every run, a queue exists if and only if the log says it was born and lives, and holds in write order exactly the accepted writes since its birth that no later delete or expiry removed |
| `RelayLog.SurvivorsStep` | crates/relay/src/store.rs:97-160 | how one more event changes the survivors, though each survivor is defined by the whole log after it |
| `RelayLog.QueueExists` | crates/relay/src/store.rs:72-84 | a queue exists exactly while some registration or write has touched it recently enough |
| `RelayLimits.LimitsHold` | crates/relay/src/store.rs:97-115 | in every reachable store no blob exceeds 64 KiB and no queue 16 MiB |
| `RelayLimits.OrderHolds` | crates/relay/src/store.rs:97-115 | with a clock that never runs back, no blob is newer than its queue's last write, nor that than the clock |
| `RelayLimits.ExpiryTakesOnlyTheStale` | crates/relay/src/store.rs:150-160 | in such a store expiry removes exactly the blobs past 30 days, and a queue it drops held nothing else |
| `RelayLimits.ExpiryIsExact` | crates/relay/src/store.rs:150-160 | no expiry in a run with such a clock takes a blob that is not old |
| `RelayLimits.SafeFromExpiryWhen` | crates/relay/src/store.rs:150-160 | no expiry at whatever time takes a fresh blob from a store if and only if no blob in it outlives its queue |
| `RelayLimits.ClockRunningBackLosesABlob` | crates/relay/src/store.rs:97-160 | a three-event log with a clock that ran back, after which expiry takes a fresh blob |
| `RelayRights.ExpiryKeeps` | crates/relay/src/store.rs:150-160 | a queue stays if and only if its last write is no more than 60 days past, and a blob in one that stays if and only if it is no more than 30, to the millisecond |
| `RelayApi.Challenges.Remove` | crates/relay/src/api.rs:370-384 | the challenge is gone once looked at, whatever comes of it |
| `RelayApi.Spend` | crates/relay/src/api.rs:370-384 | the proof is checked against the outstanding challenge for that queue and right, which is used up either way |
| `RelayApi.Handle` | crates/relay/src/api.rs:301-363 | for each request its answer and the whole new store and challenges: what it has to prove, what it does once that is proved, and the challenge it uses up either way |
| `RelayRights.DeleteTakesTheReadKey` | crates/relay/src/api.rs:351-363 | a delete removes the blob if and only if its proof answers the outstanding read challenge under the read key; either way that challenge is gone, and a refusal says what was missing |
| `RelayRights.ReadTakesTheReadKey` | crates/relay/src/api.rs:342-350 | a read so proved answers with the oldest blob or that there is none, and never changes the store |
| `RelayRights.WriteTakesTheWriteKey` | crates/relay/src/api.rs:331-341 | a write so proved with the write key is refused if and only if the blob is over 64 KiB or the queue would exceed 16 MiB, and else goes to the end of the queue |
| `RelayRights.StoreRefusesWhen` | crates/relay/src/store.rs:97-115 | when the store refuses a write and for which of its three reasons, the length of the blob first |
| `RelayRights.ChallengeTakesAQueue` | crates/relay/src/api.rs:301-330 | a challenge is handed out for any queue there is, in place of the one before, and refused for any other |
| `RelayRights.RegisteringTakesNothing` | crates/relay/src/api.rs:301-330 | registering is never refused and leaves an existing queue and all challenges alone |
| `RelayRights.OnlyTheKeysChangeAQueue` | crates/relay/src/api.rs:301-384 | in every run, a request changes a queue only if it is a delete proved with the read key or a write proved with the write key the queue was registered with, against the latest grant |
| `RelayRuns.OutstandingComesFrom` | crates/relay/src/api.rs:301-384 | every outstanding challenge is the most recent grant for its key, not checked since |
| `RelayRuns.EachCheckHasItsGrant` | crates/relay/src/api.rs:370-384 | every proof checked is checked against the most recent earlier grant |
| `RelayRuns.GrantBetweenChecks` | crates/relay/src/api.rs:370-384 | between two checks for one key lies a grant |
| `RelayRuns.ChecksNeverOutnumberGrants` | crates/relay/src/api.rs:301-384 | proofs checked, good or bad, plus the challenge still outstanding never exceed the challenges granted |
| `RelayRuns.GrantIsOlderThanItsQueueWhen` | crates/relay/src/store.rs:150-160 | a proof is checked against a challenge older than its queue if and only if one was outstanding when the queue was registered and none has been granted since |
| `RelayRuns.ChallengeOutlivesItsQueue` | crates/relay/src/store.rs:150-160 | a run of five steps in which a challenge granted to an expired queue is checked against the keys of its successor |
| `RelayRuns.QueuesAreTheLogs` | crates/relay/src/api.rs:301-363 | the store behind any run of requests and expiries is that of the log of what the requests came to |
| `RelayRuns.BlobHandedOut` | crates/relay/src/api.rs:335-350 | a blob is handed out only to a read whose proof holds for the registered key and an earlier grant, and it is the oldest survivor of the queue's log |
| `RelayWire.Single` | crates/relay/src/api.rs:151-158 | exactly one record and nothing after it |
| `RelayWire.SingleIsEncoded` | crates/relay/src/api.rs:151-158 | bytes hold one record if and only if they are what framing it writes |
| `RelayWire.RequestBodyInverts` | crates/relay/src/api.rs:181-232 | type and payload read as a request if and only if the request is written as them |
| `RelayWire.RequestWireInverse` | crates/relay/src/api.rs:113-232 | bytes decode to a request if and only if the request encodes to those bytes |
| `RelayWire.ResponseWireInverse` | crates/relay/src/api.rs:238-290 | bytes decode to a response if and only if the response encodes to those bytes |
| `RelayWire.RequestsAre` | crates/relay/src/api.rs:113-140 | the type number and the layout of every request |
| `RelayWire.ResponsesAre` | crates/relay/src/api.rs:238-251 | the type number and the layout of every response, and the number of every refusal |
| `RelayWire.VersionIs` | crates/relay/src/api.rs:113-140 | each is one record of version 1, or malformed when over 48 KiB |
| `RelayWire.StoredBlobsFit` | crates/relay/src/api.rs:181-232 | over any run of decoded requests every stored blob is at most 48 KiB less 96 bytes |
| `RelayWire.AnswerDoesNotFitWhen` | crates/relay/src/api.rs:238-363 | in any state, the answer to a request cannot be encoded if and only if the request is a read with a good proof and the oldest blob of its queue is over 48 KiB less 32 bytes |
| `RelayWire.WrittenButNotReadable` | crates/relay/src/api.rs:331-350 | a blob of such a length, up to 64 KiB, is accepted into an empty queue, and the next read of the queue has an answer that cannot be encoded |
| `RelayWire.UnsendableFromEmpty` | crates/relay/src/api.rs:301-363 | five requests that bring an empty relay there |
| `RelayWire.EveryResponseIsWritable` | crates/relay/src/api.rs:238-363 | over any run of decoded requests every answer encodes, and none refuses a blob as too large |
| `Framing.Encode` | crates/record/src/lib.rs:63-77 | version, type, length and payload, refused when the payload is over 48 KiB |
| `Framing.Reader.Next` | crates/record/src/lib.rs:114-168 | yields the record ahead and moves past it, or the error and then nothing more |
| `Framing.ReadsBackAll` | crates/record/src/lib.rs:63-168 | records written one after another read back as they were |
| `Framing.ReadingIsAPrefix` | crates/record/src/lib.rs:114-168 | of any input, the accepted records write back to a prefix of it, to all of it if and only if no error was met, and the one error is last |
| `Framing.LayoutIs` | crates/record/src/lib.rs:63-77 | version, type, length with the higher byte first, then the payload |
| `Framing.CutRecordIsTruncated` | crates/record/src/lib.rs:127-155 | a record cut anywhere is reported as truncated, with what was wanted and what was there |
| `SyncMessage.EncodeMessage` | crates/sync/src/message.rs:74-86 | the 168-byte header and the body, refused when the body is over 32 KiB |
| `SyncMessage.MessageWireInverse` | crates/sync/src/message.rs:74-155 | a payload decodes to a signed message if and only if that message encodes to the payload |
| `SyncMessage.LayoutIs` | crates/sync/src/message.rs:74-86 | where each field lies in the 168 bytes, and the body after them |
| `SyncRecords.Identifiers` | crates/sync/src/records.rs:68-77 | the identifiers one after another, refused when there are none |
| `SyncRecords.IdentifiersInverse` | crates/sync/src/records.rs:68-91 | a payload parses to identifiers if and only if they are written as it |
| `SyncRecords.EncodeRecord` | crates/sync/src/records.rs:51-66 | the framed record, or why it cannot be written |
| `SyncRecords.EncodesMeansWritten` | crates/sync/src/records.rs:51-77 | a record can be written if and only if it is a message with a body of at most 32 KiB, or of another known type and names between 1 and 1536 identifiers |
| `SyncRecords.DecodeRecords` | crates/sync/src/records.rs:99-114 | the records in order, or the first error |
| `SyncRecords.RecordsWireInverse` | crates/sync/src/records.rs:51-114 | for lists of known records, bytes decode to a list if and only if the list encodes to the bytes |
| `SyncRecords.UnknownIsPassedOver` | crates/sync/src/records.rs:99-114 | a record of a type above 4 reads as unknown whatever it holds, and the rest is read as if it were not there |
| `SyncRecords.IdentifiersLieInOrder` | crates/sync/src/records.rs:68-77 | the identifier in place i lies at 32 times i |
| `SyncRecords.WrittenAs` | crates/sync/src/records.rs:51-63 | the version, type and payload of every record that can be written |
| `SyncRecords.PlanEncodesWhen` | crates/sync/src/session.rs:89-106 | with bodies that fit, a plan can be written if and only if none of its four identifier lists exceeds 1536 |
| `SyncRecords.PlanSurvivesTheWire` | crates/sync/src/session.rs:45-106 | with at most 1536 entries and offers and bodies that fit, every plan encodes and decodes to the same list |
| `Peer.DelayDoubles` | crates/sync/src/peer.rs:67-79 | the wait is the latency after the first send, twice the wait before after each of the next ten, as far as the clock goes, and the same from then on |
| `Peer.PeerMessageState.OnSent` | crates/sync/src/peer.rs:67-79 | every field of the new state, the next send time as the source computes it in saturating steps |
| `Backoff.SentRests` | crates/sync/src/peer.rs:67-79 | the next send time is exactly the latency, doubled for each earlier send up to ten times, at least 1 ms, after this one, short of saturation; the count goes up by one, the request is settled, the latency recorded, and nothing else changes |
| `Backoff.ActsAgainWhen` | crates/sync/src/peer.rs:57-79 | a message acted on is acted on again if and only if the peer has not seen it and the mode is Eager or that time has come |
| `Backoff.RetriedInTime` | crates/sync/src/peer.rs:72-78 | an unseen message is always tried again within 1024 latencies |
| `Peer.PeerMessageState.OnPeerOffered` | crates/sync/src/peer.rs:88-91 | the peer has it and is owed an acknowledgement, and nothing else changes |
| `Plan.Turn` | crates/sync/src/session.rs:57-86 | what one entry sends in each of the three modes and what becomes of its state, decided before that state changes |
| `Plan.PlanSend` | crates/sync/src/session.rs:45-106 | the records that go out and every entry's new state, for any list of distinct entries |
| `PlanTheorems.PlanConserves` | crates/sync/src/session.rs:57-106 | every entry accounts for at most one item sent, and the send counts together grow by exactly the items that went out, less those already saturated |
| `PlanTheorems.AcksAreOwed` | crates/sync/src/session.rs:57-61 | an identifier is acknowledged if and only if an entry with it owes one |
| `PlanTheorems.AcksGoOutOnce` | crates/sync/src/session.rs:57-94 | all acknowledgements owed go out first, in order, and none is owed afterwards |
| `PlanTheorems.NothingEmptyGoesOut` | crates/sync/src/session.rs:89-106 | no identifier record is empty |
| `PlanTheorems.ListsKeepOrder` | crates/sync/src/session.rs:57-87 | acknowledgements, messages, what is gone and offers each follow the order of the entries |
| `PlanTheorems.PlanComesInOrder` | crates/sync/src/session.rs:89-106 | the records come in the order acknowledgement, request, unavailable, messages, offer, and the request is for exactly what the peer offered |
| `PlanTheorems.SecondPlanIsQuiet` | crates/sync/src/session.rs:57-106 | a second plan at the same moment sends nothing but its request, if and only if the peer has seen everything or the mode is not Eager and the moment is below 2^64 - 1 |
| `PlanTheorems.OfferedTwiceAtTheEnd` | crates/sync/src/peer.rs:57-79 | at 2^64 - 1 ms an entry is offered twice at one moment |
| `PlanTable.TableActionIsItsRows` | spec/50-sync.md:220-228 | the rows of the table of modes that apply to an entry are one action or none, but for an offer of a message that is answered anyway |
| `PlanTable.FollowsTheTableUnless` | spec/50-sync.md:220-228 | where a deleted message keeps its place among the shared, an entry sends what the table says except if and only if the backoff allows it, the mode is Batch or Eager, and the message is held, requested and seen, or gone, not requested and unseen |
| `PlanTable.FollowsTheDesignUnless` | crates/sync/src/session.rs:64-86 | the same where only what is held counts as shared: Interactive departs then too, if and only if the message is gone, not requested and unseen |
| `PlanTable.PlannedForOne` | crates/sync/src/session.rs:57-106 | the records a plan makes of a single entry |
| `PlanTable.RequestedAfterSeenIsSent` | crates/sync/src/session.rs:64-81 | a message acknowledged and then requested is sent by Batch and Eager, where no row of the table applies |
| `PlanTable.GoneIsReportedUnasked` | crates/sync/src/session.rs:64-81 | a message gone before it was sent is reported unavailable by Batch and Eager unasked, where no row applies |
| `PlanTable.GoneIsOffered` | crates/sync/src/session.rs:82-86 | the same message is offered by Interactive, where no row applies to a message that is not held |
| `Backoff.HistoryIsSpaced` | crates/sync/src/peer.rs:57-79 | over any history of sends and peer messages that waits for the backoff, each send comes no earlier after the one before than its place allows, and the next send time is no earlier either |
| `Backoff.SteadyIsExact` | crates/sync/src/peer.rs:67-79 | over transports of one latency the next send time is exactly that bound |
| `Backoff.SpacingAddsUp` | crates/sync/src/peer.rs:67-79 | sends so spaced are as far from the first as the waits between them add up to |
| `Backoff.BackoffBound` | crates/sync/src/peer.rs:39-79 | with every latency at least l, each send comes at least l after the one before, doubled for each earlier send up to ten times; so the send in place k comes at least l * (2^k - 1) after the first for k up to 11, and 1024 * l later for each one more, short of saturation |
| `Delivery.Deliverable` | crates/sync/src/records.rs:138-156 | ready if and only if every dependency is delivered or in the horizon, and then flagged if and only if one was flagged itself or is only in the horizon |
| `Delivery.DeliverableWhen` | crates/sync/src/records.rs:138-156 | after any log of deliveries a message may come next if and only if each dependency was delivered before or lies in the horizon |
| `Delivery.DependenciesComeFirst` | crates/sync/src/records.rs:138-156 | in every run, whatever horizon each delivery is given, each dependency was delivered earlier or lies in the horizon of that delivery |
| `Delivery.NoFlagMeansWhole` | crates/sync/src/records.rs:138-156 | a message delivered without the flag has every ancestor, however far back, delivered before it |
| `Delivery.FlagMeansGap` | crates/sync/src/records.rs:138-156 | the flag is set if and only if some path of ancestors ends at one that was not delivered by then and lay in the horizon of the moment |
| `Retention.Droppable` | crates/sync/src/retention.rs:95-129 | the sort, take and filter list, in given order, exactly the entries the policy drops |
| `Retention.DropListKeepsOrder` | crates/sync/src/retention.rs:112-116 | the list has every dropped entry at its place among the dropped, in the order given, and nothing else |
| `Retention.CountKeepsTheLatest` | crates/sync/src/retention.rs:104-115 | whatever a count keeps was received later than what it drops, or as late and given before |
| `Retention.AgeDropsTheOld` | crates/sync/src/retention.rs:118-127 | an age drops exactly what was received more than so many days ago, to the millisecond, and keeping all drops nothing |
| `Retention.PlaceIsNewerCount` | crates/sync/src/retention.rs:104-109 | an entry's place after sorting is the number of entries received later, or as late and given before |
| `Retention.KeptMeansFewNewer` | crates/sync/src/retention.rs:104-115 | an entry is kept if and only if fewer entries than the count are newer |
| `Retention.CountDropsTheExcess` | crates/sync/src/retention.rs:98-115 | exactly what is over the count is dropped |
| `Retention.RetentionIsIdempotent` | crates/sync/src/retention.rs:95-129 | applying a policy to what it left drops nothing |
| `RetentionWire.FieldsAreThePolicys` | crates/sync/src/retention.rs:58-83 | canonical fields that read as a policy are the ones it is written with |
| `RetentionWire.PolicyWireInverse` | crates/sync/src/retention.rs:36-83 | bytes decode to a policy if and only if the policy encodes to them |
| `RetentionWire.PolicyBytes` | crates/sync/src/retention.rs:36-52 | the bytes of every policy: its kind by name under "k", and its number, if it has one, under "n" |
| `BdfFields.FindsWhatIsThere` | crates/sync/src/retention.rs:58-70 | in canonical fields, searching for a key finds a value if and only if that field is there |
| `Base32Codec.Encode` | crates/contact/src/base32.rs:27-45 | the loop with its overflowing buffer writes the bits of the bytes in groups of five, the last filled with zeros |
| `Base32Codec.EncodedIsTheOnly` | crates/contact/src/base32.rs:27-45 | symbols that carry the bytes and fewer than five zero bits are the encoder's |
| `Base32Codec.Decode` | crates/contact/src/base32.rs:61-91 | the loop skips whitespace, refuses the first other character outside the alphabet, and yields the whole bytes whose leftover bits are zero |
| `Base32Theorems.DecodesTo` | crates/contact/src/base32.rs:61-91 | a text decodes to bytes if and only if, upper-cased and without whitespace, it is their encoding, or that with one surplus A where the encoding's padding leaves room for it |
| `Base32Theorems.RoundTrip` | crates/contact/src/base32.rs:27-91 | every encoding decodes, so does its lower case, and so does any text that spells it with letters in either case and whitespace anywhere |
| `Base32Theorems.WhitespaceMakesNoDifference` | crates/contact/src/base32.rs:66-69 | whitespace put into any text at any place changes neither what it decodes to nor the error |
| `Base32Theorems.NormalDecodesAlike` | crates/contact/src/base32.rs:61-75 | case and whitespace make no difference to decoding |
| `Base32Theorems.FirstForeignIsNamed` | crates/contact/src/base32.rs:66-74 | the first character that is neither whitespace nor of the alphabet is the one reported |
| `Base32Theorems.WrongTailWhen` | crates/contact/src/base32.rs:84-90 | without such a character a text is refused for its tail if and only if it spells no bytes |
| `Base32Theorems.TailCheckSuffices` | crates/contact/src/base32.rs:83-91 | a text that decodes is the encoding if and only if its symbol count modulo 8 is not 1, 3 or 6 |
| `Base32Theorems.SurplusLetterIsAccepted` | crates/contact/src/base32.rs:83-91 | "MYA" and "MY" decode to the same byte |
| `ContactLink.ToText` | crates/contact/src/lib.rs:169-174 | the prefix and the base32 of key and commitment |
| `ContactLink.Parse` | crates/contact/src/lib.rs:181-196 | trimmed, prefixed, decoded and 64 bytes long, else the error for the first of these that fails |
| `ContactLink.ReadsAs` | crates/contact/src/lib.rs:181-196 | a text parses to a link if and only if after trimming and prefix its normal payload is the link's own encoding |
| `ContactLink.RefusalsSayWhy` | crates/contact/src/lib.rs:181-196 | each refusal is reported exactly when its check fails and those before it hold |
| `ContactLink.PayloadLength` | crates/contact/src/lib.rs:169-174 | the payload of every link is 103 symbols |
| `ContactLink.LayoutIs` | crates/contact/src/lib.rs:169-174 | after the prefix the contact key comes first and the commitment second |
| `ContactLink.ParsingIsInjective` | crates/contact/src/lib.rs:181-196 | two texts parse to one link if and only if their normal payloads are equal |
| `ContactLink.LinkRoundTrip` | crates/contact/src/lib.rs:169-196 | a rendered link parses back, whatever whitespace stands around it |
| `ContactBundle.Encode` | crates/contact/src/lib.rs:78-97 | the four fields in canonical order, refused when the ML-DSA key is not its size |
| `ContactBundle.Decode` | crates/contact/src/lib.rs:103-129 | the bundle in a strictly read dictionary, or which check failed first |
| `ContactBundle.FieldsReadAs` | crates/contact/src/lib.rs:103-129 | canonical fields read as a bundle if and only if they carry its four, whatever else they hold |
| `ContactBundle.FieldsAreNamed` | crates/contact/src/lib.rs:103-129 | in any bytes that read as a bundle, which of its keys is under which name |
| `ContactBundle.WrongLengthsAreNamed` | crates/contact/src/lib.rs:112-128 | the first key of a wrong length, in the order ML-DSA, Ed25519, X25519, is the one refused, with both lengths |
| `ContactBundle.ReadsBack` | crates/contact/src/lib.rs:78-129 | a bundle encodes to some bytes if and only if they decode to it and hold four fields |
| `ContactBundle.CommitsToWhatArrived` | crates/contact/src/lib.rs:136-152 | the commitment to a bundle read is the hash of what arrived if and only if that held four fields |
| `ContactBundle.ExtraFieldIsReadOver` | crates/contact/src/lib.rs:103-129 | for every bundle, bytes with a fifth field that decode to it and are not its encoding |

## Left out

- Cryptographic primitives: hashing, key derivation, signatures, key agreement and sealing are foreign; where the model needs one it is a parameter of which nothing is assumed.
- `crates/handshake` and `crates/identity`: transcripts and epochs over foreign primitives; their record codecs repeat the framing argument proved here.
- `crates/transport/src/wire.rs`: the sealed stream format.
- `tag` and `expected` of the transport crate: a tag is one hash of a stream number, and `expected` maps it over the window.
- `crates/relayd` and `scripts`: sockets, threads, the system clock and repository checkers. A relay run interleaves requests and expiries in any order, which covers the daemon's expire-then-handle.
- Identifiers, signing input and verification of messages, and the derivation of a relay queue's keys and proofs: each is one call of a foreign primitive.
- Rendezvous keys, address seeds and fingerprints of the contact crate: hashes and formatting.
- Error display texts, and the meaning of a floating-point number: a float is its eight bytes.
- Panics: the places where the source would panic on a period length of zero seconds or on running out of memory.
- Which of several BDF errors is reported first: the reader follows the source's order, and of the errors only those about keys are characterised.
- Memory: a byte string handed to the reader is at most 2^63 - 1 bytes long, as every Rust slice is.
- Window.Window.MarkSeen: the mask is a number below 2^32, and shifts and ors on it are halving and adding an absent power of two.
- Text on its way in and out of base32 and links is a sequence of characters; its UTF-8 form is not modelled.
- Plan.PlanSend: the loop body is the method `Turn`; entries hold distinct states, as exclusive references do in the source.
- RelayStore.Store.Write: queues are values in a map field that is reassigned, so updating one queue's vector in place through a reference is not captured.
- Rotation.RotateTo: the four keys are four local variables instead of an array of references to them.
- Retention.Droppable: the in-place sort is a function that inserts each index among those sorted; the order it yields is unique.
- BdfCursor.Reader.Value: the scalar kinds are read by a helper method `Scalar` and the two containers by `Items` and `Entries`, where the source has one match.
