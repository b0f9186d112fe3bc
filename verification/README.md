# A model of the node, its protocols and the relay

This project models the replication, messaging and gateway logic of a local-first chat node and of its
store-and-forward relay, and proves what holds over whole runs of them.

`dafny verify dfyconfig.toml` verifies everything.

| file | models |
|---|---|
| `Events.dfy` | signed events and their verification |
| `Causality.dfy` | what a replica should hold, without any replica: the least closure, draining, tips, causal logs |
| `RoomDag.dfy`, `EventStore.dfy`, `DeviceNode.dfy` | one device: room DAGs with child index, durable log, event map, inbox, outbox |
| `Replication.dfy` | theorems about replicas that exchange events: confluence, convergence, the fanout certificate |
| `Session.dfy` | authoring, fanout, the local clock, restart |
| `Megolm.dfy`, `GroupProtocol.dfy` | shared-room sessions on one device and in its file, and runs of many devices with restarts |
| `FixedWindow.dfy`, `RateLimit.dfy`, `Recovery.dfy` | both rate limiters and the recovery-code throttle |
| `Relay.dfy` | the relay's envelope table and request handler |
| `Mailbox.dfy`, `MailCourse.dfy` | one poll of the mailbox and the size of its response; courses of polls |
| `Noise.dfy` | chunked writes, buffered reads and frames over a Noise connection |
| `Base64.dfy` | the two base64 codecs |
| `Rooms.dfy` | room membership as a state machine |
| `Wrappers.dfy`, `Sorting.dfy` | option and result types, sequences, bytes, sorting |

How the model is built:

- Objects that the program updates in place are classes with the same fields. Each method's contract ties the new
  state to a function or relation on values, and the theorems are lemmas about those.
- Cryptography is symbolic. A blake3 digest is the value it digests, so an id determines its contents; this gives
  "an id determines its event" for events and envelopes. The outcome of the ed25519 checks is a field of the event.
  A Megolm ratchet is a session id and an index, an inbound session the first index it decrypts. Pickles round-trip.
- Clocks, drawn session ids, the outcome of file writes, the JSON length of an envelope without its ciphertext, and
  whether an envelope can be opened and its event accepted are parameters. A map that the program walks in hash order
  is walked in arbitrary order.
- An event may name a parent in another room. The node looks parents up across all rooms and the room's DAG does not,
  so such an event is refused late, and the error loses the parked events set aside so far. The contracts say exactly
  when this happens (`Blocked`, `Refuses`) instead of excluding it.

Results about the code that its comments or documents do not say, or say otherwise:

- The order by parent count and timestamp is called parent-before-child (`crates/td-node/src/sync.rs:222`) and a
  causal load order (`crates/td-event/src/store.rs:82`). It is so exactly for collections
  in which every event compares strictly after its parents (`EventStores.ListsParentsFirstExactly`), and ordinary events
  need not (`EventStores.ListOrderIsNotCausal`). Replay and sync work nevertheless, because of the parking queue alone.
- `drain_inbox` fails exactly when a parked event gets all its parents and its room refuses it, and it succeeds
  exactly when no parked event is lost (`DeviceNodes.DeviceNode.DrainInbox`). A failure can lose an unrelated event that
  was parked ahead of the refused one (`DeviceNodes.UnrelatedIsLost`). It takes a parent in another room
  (`Replication.SameRoomsNeverRefuse`).
- Imported sessions are not written to the device's file: only creating a session and encrypting write it. A device
  that has received messages and restarts can no longer decrypt them (`GroupProtocol.LostImport`), and one that has sent
  before resumes at an index that somebody may have joined beyond (`GroupProtocol.ResumedBehindLatecomer`). Exactly which
  restarts are safe is `GroupProtocol.HarmlessExactly`; those of a device that has learned and advanced nothing since it
  last wrote its file are (`GroupProtocol.CleanIsHarmless`).
- Readability in a group also rests on every package reaching everybody who takes part so far before the next step. A
  receiver can decrypt a message exactly unless it knew the session already from beyond the message's index
  (`GroupProtocol.DecryptsExactly`), and leaving out one device once is enough for that
  (`GroupProtocol.PartialSharingFails`). A package whose ratchet lags behind the index it claims can take a session back
  (`Megolm.ImportRegressesExactly`, `Megolm.LaggingPackage`); an exported one cannot.
- Polling is sure to empty a mailbox of openable mail exactly if fewer than 64 unopenable envelopes are in the way and no
  batch met on the way exceeds the 16 MiB frame limit (`Courses.DrainsExactly`). Bytes are written as JSON numbers, so
  sixteen envelopes of the greatest accepted size block a mailbox for good (`Courses.SixteenLargeEnvelopes`).
- An opened envelope is acked whether or not the node then accepts its event (`Mailboxes.PollOnce`).
- A frame above 16 MiB can be written but not read, and everything sent after it is lost (`Noise.OversizeStopsReader`).
- The request limiter counts all methods of a path in one window, each against its own limit, so reads can use up the
  window of a tighter rule; its bound of twice the limit holds all the same (`RateLimits.RouteIntervalBound`).
- The recovery throttle is tighter than five codes per minute plus a remainder: 5 for each started minute, and that
  many are reached (`Recovery.ThrottleBound`, `Recovery.BoundIsReached`).
- A refused invite of a banned device has entered the room's DAG when the call fails, so the cached tips fall behind
  (`Rooms.CachedTipsAreFresh`). An invite of a joined device moves it back to invited. Bans hold over authored events;
  an arbitrary leave event lifts one (`Rooms.OnlyLeaveLiftsBan`). The very same invite of a banned device again is
  answered as a success, and has no effect either (`Rooms.RoomRegistry.MembershipEvent`).

## Model

| member | source | states |
|---|---|---|
| Events.VerifyEvent | crates/td-event/src/event.rs:151-180 | accepts exactly the events with a valid key, the key's device as author, a valid signature and the digest of their contents as id, and names the first of these that fails |
| Events.SignEvent | crates/td-event/src/event.rs:126-149 | succeeds exactly for the signer's own events, and what it makes verifies and carries the given body |
| Causality.Closure | crates/td-node/src/sync.rs:171-200 | what a drain should accept: contains what was accepted, is contained in that plus the pool, and takes in every pool event that is ready |
| Causality.ClosureIsLeast | crates/td-node/src/sync.rs:171-200 | no set that contains the accepted events and is closed under the pool is smaller |
| Causality.ClosureIncremental | crates/td-node/src/sync.rs:139-200 | draining what an earlier drain left plus new events ends where draining all of them at once ends |
| Causality.AcceptThenDrain | crates/td-node/src/sync.rs:153-167 | accepting a ready event and then draining is draining with it in the pool, failures included |
| Causality.DrainedInPortions | crates/td-node/src/sync.rs:251-259 | a successful drain followed by any drain is one drain of both portions |
| Causality.FailureIsFinal | crates/td-node/src/sync.rs:157-166 | a pool that fails keeps failing whatever is added to it |
| Causality.TipsAfterAccept | crates/td-event/src/dag.rs:45-77 | a new event replaces exactly its parents among the tips |
| Causality.NoCycle | crates/td-event/src/dag.rs:64-77 | no walk along child edges of an accepted history returns to its start |
| Causality.ReachesTip | crates/td-event/src/dag.rs:45-77 | every accepted event reaches some tip along child edges |
| Causality.TipsCertifyHistory | crates/td-node/src/rpc.rs:1804 | a parent-closed set that holds one event authored on all tips of a history holds the history |
| RoomDags.RoomDag.Tips | crates/td-event/src/dag.rs:45-52 | lists, each once, exactly the events that no event names as a parent |
| RoomDags.RoomDag.Ingest | crates/td-event/src/dag.rs:55-77 | each error has its cause and changes no events; a duplicate changes nothing; an insertion adds the event, keeps the DAG valid and replaces its parents among the tips |
| RoomDags.RoomDag.IndexUnderParents | crates/td-event/src/dag.rs:72-74 | the child index lists a child under a parent exactly as often as the child names it |
| RoomDags.RoomDag.KidsDecideTip | crates/td-event/src/dag.rs:45-52 | an event is a tip exactly when the child index lists nothing under it |
| RoomDags.RoomDag.IsParentClosed | crates/td-event/src/dag.rs:67-71 | every parent of an event in the DAG is in it and belongs to the same room |
| EventStores.EventStore.Put | crates/td-event/src/store.rs:111-119 | inserts a verified event unless its id has a row; a row is never overwritten; anything else is an error and changes nothing |
| EventStores.EventStore.ListAll | crates/td-event/src/store.rs:83-100 | every row once, fewer parents first and with as many parents the earlier time |
| EventStores.ListsParentsFirstExactly | crates/td-event/src/store.rs:93-98 | every list that the sort can produce puts all parents before their children if and only if each event compares strictly after its parents |
| EventStores.ChainsInOrder | crates/td-event/src/store.rs:93-98 | in a list an event without parents precedes all that have some, and a chain with rising times stands in its order |
| EventStores.ListOrderIsNotCausal | crates/td-node/src/sync.rs:222-228 | two verified events of one room that fail this condition |
| DeviceNodes.DeviceNode.DrainPass | crates/td-node/src/sync.rs:173-197 | one pass accepts only events of the closure and loses nothing unless it fails; progress makes the inbox shorter, and a pass without progress leaves nothing that could be accepted; the accepted set and the inbox, in order, for success and failure |
| DeviceNodes.PassLoses | crates/td-node/src/sync.rs:175-197 | a failing pass keeps exactly what stood behind the refused event |
| DeviceNodes.UnrelatedIsLost | crates/td-node/src/sync.rs:175-197 | a verified event of another room is refused, and an unrelated one parked ahead of it is lost |
| Replication.SameRoomsNeverRefuse | crates/td-event/src/dag.rs:67-71 | where all parents are of the event's own room nothing is refused |
| DeviceNodes.DeviceNode.DrainInbox | crates/td-node/src/sync.rs:171-200 | terminates; on success it has accepted the closure and parks exactly the rest; it fails exactly when a parked event is refused by its room, which is exactly when parked events are lost; the inbox it leaves in either case |
| DeviceNodes.DeviceNode.IngestEvent | crates/td-node/src/sync.rs:139-169 | the accepted and parked sets and the outbox after taking in one event, and what each reply means; the only error is a missing parent in the room, and then the event itself has not been accepted before and all its parents are known |
| DeviceNodes.DeviceNode.CommitLocal | crates/td-node/src/sync.rs:128-131 | as for taking in, with the event queued for the relay exactly if it is accepted; an unverified event changes nothing and is answered with the failed check |
| DeviceNodes.DeviceNode.CommitRemote | crates/td-node/src/sync.rs:134-137 | as for taking in, leaving the outbox alone; an unverified event changes nothing and is answered with the failed check |
| DeviceNodes.DeviceNode.MissingForPeer | crates/td-node/src/sync.rs:211-230 | exactly the room's accepted events that the peer lacks, each once, fewer parents first and with as many parents the earlier time |
| DeviceNodes.DeviceNode.ListEvents | crates/td-node/src/sync.rs:368-383 | exactly the room's accepted events, each once, fewer parents first and with as many parents the earlier time |
| DeviceNodes.DeviceNode.BuildOffer | crates/td-node/src/sync.rs:232-240 | offers the room's accepted ids and its tips |
| DeviceNodes.DeviceNode.RespondToOffer | crates/td-node/src/sync.rs:242-249 | answers with exactly the room's accepted events that the offer does not list |
| DeviceNodes.DeviceNode.ApplySyncResponse | crates/td-node/src/sync.rs:251-259 | handing over a list, parents first or not, is one drain of the whole set; the count is of events accepted as they were handed over; an error stops it at the first entry that does not verify or is refused, with all before it taken in |
| DeviceNodes.DeviceNode.SyncIngest | crates/td-node/src/rpc.rs:2466-2491 | an event whose parents were there is accepted whatever errors the others give; if no room refuses any of the verified entries, the view becomes that of receiving them all, the errors are as many as the other entries, and the count is of events accepted as they were handed over; any more errors mean a refusal |
| DeviceNodes.DeviceNode.ConvergeWith | crates/td-node/src/sync.rs:322-334 | both views become those of one exchange round, and it fails exactly if a room refuses what one side is sent, before the second side has changed if it is the first |
| DeviceNodes.DeviceNode.ConvergeRepeatedly | crates/td-node/src/sync.rs:322-334 | repeated exchanges fail exactly if some round meets a refusal, and never if all parked events have their parents in their own rooms; otherwise they are the rounds of the theorems below, so with more of them than parked events both nodes agree on the room and its tips |
| Replication.NoRoundRefuses | crates/td-node/src/sync.rs:322-334 | no round ever refuses unless a parked event names a parent of another room |
| DeviceNodes.DeviceNode.CommitAll | crates/td-node/src/sync.rs:128-169 | any mix of own and others' events in any order, forged ones included, yields the view of receiving the verified ones, and fails more often than there are forged ones exactly if a room refuses any of them |
| DeviceNodes.DeviceNode.SameEventsSameView | crates/td-node/src/sync.rs:128-200 | two nodes that meet the same verified events, authored by either, in any order and repetition and with any forged ones in between, meet a refusal both or neither, and if neither end in the same view |
| DeviceNodes.DeviceNode.WithSqlite | crates/td-node/src/sync.rs:77-90 | reopening a log yields the view of receiving all its rows, with an empty outbox and the log unchanged, and fails exactly if a room refuses one |
| DeviceNodes.DeviceNode.RestartIsTransparent | crates/td-node/src/sync.rs:77-90 | the log holds exactly the accepted events, and reopening it accepts them again, parks nothing and is not refused |
| DeviceNodes.DeviceNode.IsFounded | crates/td-node/src/sync.rs:139-169 | the accepted events of every reachable node can be rebuilt from nothing with parents first |
| DeviceNodes.DeviceNode.SettledIsQuiet | crates/td-node/src/sync.rs:171-200 | the replication theorems apply to every node with nothing left to drain |
| Replication.OrderDoesNotMatter | crates/td-node/src/sync.rs:139-200 | handing over events one at a time is receiving their set, whatever the order and repetitions |
| Replication.StrongEventualConsistency | crates/td-node/src/sync.rs:139-200 | two delivery sequences over the same set end in the same accepted set, parked set and tips; the accepted set is the least closed one, and the parked set is the rest |
| Replication.FailureDoesNotDependOnOrder | crates/td-node/src/sync.rs:139-200 | whether some delivery of a run fails depends on the set delivered alone |
| Replication.OneRoundSuffices | crates/td-node/src/sync.rs:322-334 | with nothing of the room parked, one round makes both sides' room events the union and their tips equal |
| Replication.RoundShrinks | crates/td-node/src/sync.rs:322-334 | a round that leaves the sides different has released a parked event |
| Replication.BoundedConvergence | crates/td-node/src/sync.rs:322-334 | one round more than there are parked events always makes both sides equal in the room |
| Replication.AgreedIsStable | crates/td-node/src/sync.rs:322-334 | once the sides agree on the room, further rounds change nothing |
| Replication.FanoutCertificate | crates/td-node/src/rpc.rs:1899-1925 | any node that has accepted a message authored on all tips of a history holds that history, whatever else it has parked or lost |
| Sessions.NodeSession.NextTs | crates/td-node/src/rpc.rs:676-681 | the timestamp is one above the last, whether or not it is saved |
| Sessions.NodeSession.Author | crates/td-node/src/rpc.rs:1804-1858 | signs just the given kind and payload in its own name on the given parents under a timestamp above all the device ever used, and accepts and queues the event |
| Sessions.NodeSession.SendMessage | crates/td-node/src/rpc.rs:1792-1868 | the message carries the given payload, is new, covers all tips of the history its author saw, becomes the only tip on top of it, and is accepted and queued even if a parked event it releases is refused; strangers to an empty room are refused |
| Sessions.MessageIsNew | crates/td-node/src/rpc.rs:1804 | an event on top of all tips of a room has not been accepted before and becomes the room's only tip |
| Sessions.NodeSession.Fanout | crates/td-node/src/rpc.rs:1899-1925 | a peer that accepts the message alone holds it and all its author saw, in whatever state it was; after the full push so does a settled peer whose rooms refuse none of it, and the full push happens exactly if the peer had the message or lacked a parent |
| Sessions.DeltaCertifies | crates/td-node/src/rpc.rs:1899-1917 | if the delta got anything accepted, the message and its whole history are there |
| Sessions.PushInTwoSteps | crates/td-node/src/rpc.rs:1899-1925 | the message and then the full DAG end where the full DAG alone would, with no step refused |
| Sessions.NodeSession.IngestRemote | crates/td-node/src/rpc.rs:804-815 | a remote event changes the view as receiving it does and leaves the clock and the authored list alone |
| Sessions.NodeSession.LoadFromDataDir | crates/td-node/src/rpc.rs:542-579 | whatever counter was saved, the reloaded counter is above every timestamp in the log and no higher than that or the saved one asks for, so authored timestamps keep rising across restarts |
| Sessions.NodeSession.CanReload | crates/td-node/src/rpc.rs:542-579 | a session meets what reloading from its own log asks for at every moment |
| Sessions.NodeSession.CreateRoom | crates/td-node/src/rpc.rs:1743-1752 | authors a create event that names the device and the room's name, without parents and under a timestamp above all the device ever used, and accepts it |
| Sessions.NodeSession.WholeLife | crates/td-node/src/rpc.rs:542-579 | over any life of rooms created, sends, received events and restarts from an empty log, with any counter writes lost, no restart fails, the authored events are exactly those asked for, in order, with their payloads and in the device's name, their timestamps rise strictly and every one is in the log |
| Sessions.NodeSession.CounterAbove | crates/td-node/src/rpc.rs:562-569 | the two loops lift the counter above every accepted timestamp and no further |
| Megolm.E2eeDevice.CreateGroupSession | crates/td-crypto/src/e2ee.rs:219-233 | keeps an existing outbound session, otherwise starts one that the device can also read |
| Megolm.E2eeDevice.ExportRoomOutbound | crates/td-crypto/src/e2ee.rs:259-275 | succeeds exactly with an outbound session, and the package's fields agree with each other |
| Megolm.E2eeDevice.ImportGroupSessionKey | crates/td-crypto/src/e2ee.rs:312-321 | an inbound session is never overwritten |
| Megolm.E2eeDevice.ImportRoomOutbound | crates/td-crypto/src/e2ee.rs:279-310 | first writer wins, a ratchet further along stays, and the inbound key is installed even when the rest is refused |
| Megolm.E2eeDevice.MegolmEncrypt | crates/td-crypto/src/e2ee.rs:324-339 | uses the current index and advances it by one |
| Megolm.E2eeDevice.MegolmDecrypt | crates/td-crypto/src/e2ee.rs:341-352 | decrypts exactly from the first known index of a known session on |
| Megolm.E2eeDevice.ExportDurable | crates/td-crypto/src/e2ee.rs:359-392 | the saved lists stand for exactly the device's sessions |
| Megolm.E2eeDevice.ImportDurable | crates/td-crypto/src/e2ee.rs:395-452 | gives back the saved sessions, to the device that saved them and to no other |
| Megolm.KeyFile.Save | crates/td-node/src/persist.rs:218-228 | the file holds the device's sessions, or what it held before if the write fails |
| Megolm.KeyFile.Load | crates/td-node/src/persist.rs:205-216 | the device is what its file holds, or new without a file; a file of another device is an error |
| Megolm.SessionsAreMonotone | crates/td-crypto/src/e2ee.rs:219-339 | over any run, with saving and restoring in one instant, a room's session id never changes, its index never falls, and what is decryptable stays so |
| Megolm.IndicesAreUsedOnce | crates/td-crypto/src/e2ee.rs:324-339 | within a run a device never encrypts twice at the same index of a session |
| Megolm.SharingBrings | crates/td-crypto/src/e2ee.rs:279-321 | what an exported package changes at its receiver, session by session: who goes on with which outbound session at which index, and from where it can decrypt |
| Megolm.RestoreAdvancesExactly | crates/td-node/src/persist.rs:205-216 | restoring an earlier save takes nothing back exactly if nothing has changed since |
| Megolm.ImportRegressesExactly | crates/td-crypto/src/e2ee.rs:279-310 | exactly which packages can take a session back, and that an exported one is not among them |
| Megolm.LaggingPackage | crates/td-crypto/src/e2ee.rs:300-307 | a package that claims the local index, carries a ratchet behind it and takes the session back |
| Megolm.ExportBeforeEncrypt | crates/td-node/src/rpc.rs:1808-1814 | a package from before the encryption lets a new receiver decrypt, one from after does not |
| GroupProtocol.EncryptForRoom | crates/td-node/src/rpc.rs:1807-1827 | the sender's device and its file move as the run's step says, with that step's package and ciphertext |
| GroupProtocol.ReceivePackage | crates/td-node/src/rpc.rs:2746-2767 | a receiver's device moves as the run's step says, the import succeeds, and the file stays as it was |
| GroupProtocol.Reopen | crates/td-node/src/rpc.rs:550-552 | a restarted device is what the run's step says |
| GroupProtocol.RunKeepsInv | crates/td-crypto/src/e2ee.rs:279-321 | in every run with harmless restarts nobody knows a session only from beyond where anybody will next encrypt with it, and every file holds an earlier state of its device |
| GroupProtocol.GroupReadability | crates/td-node/src/rpc.rs:1807-1814 | with rival sessions, latecomers and harmless restarts, every ciphertext of a run is decryptable by its sender and all its receivers from then on |
| GroupProtocol.RestartLosesExactly | crates/td-node/src/rpc.rs:2746-2808 | a restart loses nothing that was sent to the device exactly if its file lists every session it knows |
| GroupProtocol.HarmlessExactly | crates/td-node/src/rpc.rs:686-697 | a restart is safe, whatever the device sends next, exactly if in addition nobody has joined a session beyond the index at which the file resumes it |
| GroupProtocol.CleanIsHarmless | crates/td-node/src/rpc.rs:1826-1827 | a device whose file holds exactly its sessions restarts safely |
| GroupProtocol.CleanUntilImport | crates/td-node/src/rpc.rs:1826-1827 | a device is so after each of its sends, and until it imports a package or a write fails |
| GroupProtocol.CarelessRestartBreaks | crates/td-node/src/rpc.rs:2746-2808 | after any run with harmless restarts, one that is not harmless and at most one send more leave somebody unable to decrypt |
| GroupProtocol.LostImport | crates/td-node/src/rpc.rs:2756-2767 | a message, a restart of its receiver, and the message is lost to it |
| GroupProtocol.ResumedBehindLatecomer | crates/td-node/src/rpc.rs:1826-1827 | a run with all writes succeeding in which a restarted sender is not understood by a latecomer |
| GroupProtocol.DecryptsExactly | crates/td-crypto/src/e2ee.rs:312-321 | in any world a receiver can decrypt a message exactly unless it knew the session already from beyond the message's index |
| GroupProtocol.SendRecordsCiphertext | crates/td-node/src/rpc.rs:1807-1815 | every send of a run is among the ciphertexts the previous theorem speaks of |
| GroupProtocol.PartialSharingFails | crates/td-node/src/rpc.rs:1882-1892 | a run of three sends in which one participant is left out once, and a ciphertext that its receiver cannot decrypt |
| FixedWindow.SlidingBound | relays/td-relay/src/main.rs:52-62 | with fixed windows that are reset lazily, any interval of one window length sees at most twice a limit admitted of the requests under it, whatever requests under larger limits share the window |
| FixedWindow.RetryIsExact | crates/td-node/src/rpc.rs:322-328 | an idle client is denied before the wait is over and admitted from then on |
| RateLimits.RateLimitBook.Check | crates/td-node/src/rpc.rs:312-337 | the decision, the wait and the new book, pruning included |
| RateLimits.RateRuleFor | crates/td-node/src/rpc.rs:340-377 | every rule admits something and its window is within the prune cutoff |
| RateLimits.PruneTransparency | crates/td-node/src/rpc.rs:331-335 | on every trace in time order a book that prunes decides and waits like one that never does |
| RateLimits.RpcIntervalBound | crates/td-node/src/rpc.rs:311-338 | at most twice the limit per key and rule in any interval of one window length, whatever other keys do and whatever other rules the key is used under |
| RateLimits.RouteIntervalBound | crates/td-node/src/rpc.rs:1262-1275 | from one address a path gets at most twice a limit admitted in any minute of the methods under that limit, although methods with larger limits share the window |
| RateLimits.RouteLimits | crates/td-node/src/rpc.rs:340-377 | the limit per minute of every path and method, in numbers |
| RateLimits.RouteBounds | crates/td-node/src/rpc.rs:1262-1275 | from one address in any minute at most 20 recovery logins, 20 claims although status reads share their window, 40 pairings, 240 streams and as many long polls, and of any path 360 writes and 1200 requests |
| RateLimits.ServeAll | crates/td-node/src/rpc.rs:1262-1275 | the answers to any list of requests are those that the following rows speak of |
| RateLimits.AnswersAreOnesOwn | crates/td-node/src/rpc.rs:312-337 | all answers to an address for a path, waits included, are those it would get if nobody else had asked for anything |
| RateLimits.OthersDoNotMatter | crates/td-node/src/rpc.rs:313 | inserting or removing requests of other addresses, or for other paths, changes no answer |
| RateLimits.LimitIsExact | crates/td-node/src/rpc.rs:314-329 | of the requests of an address for a path under one rule exactly as many as the limit are admitted in the minute that the first begins, and any further one is told to wait for its end |
| RateLimits.IdleClientRetry | crates/td-node/src/rpc.rs:322-328 | the returned wait is exact for a client that stays away from the path, whatever other addresses ask for in between and itself elsewhere, pruning included |
| RateLimits.RateLimiter.Allow | relays/td-relay/src/main.rs:52-62 | the decision and the new shared window |
| RateLimits.RelayIntervalBound | relays/td-relay/src/main.rs:43-63 | at most twice the limit per sender in any second, for every interleaving of senders |
| RateLimits.RefusedForOnesOwnPuts | relays/td-relay/src/main.rs:52-62 | a put is refused exactly if its own sender has had as many admitted as the limit since the current second began |
| Recovery.SameHash | crates/td-node/src/rpc.rs:1475-1481 | comparing without early exit is equality |
| Recovery.RecoveryGuard.LockedFor | crates/td-node/src/rpc.rs:653-661 | a wait is named exactly while locked, at least one second and short of the truth by less than one |
| Recovery.RecoveryGuard.Login | crates/td-node/src/rpc.rs:1427-1492 | each reply exactly when it is due, with the wait; a code is compared only when not locked; a success clears count and lock, the fifth failure locks for a minute, any other failure counts one, and nothing else changes the guard |
| Recovery.ThrottleBound | crates/td-node/src/rpc.rs:653-674 | in any closed interval without a successful login at most five wrong codes are compared per started minute |
| Recovery.BoundIsReached | crates/td-node/src/rpc.rs:663-669 | that many are compared when five are tried at the start of every minute |
| Recovery.SuccessClearsTheCount | crates/td-node/src/rpc.rs:671-674 | after a granted login, whatever came before, up to four wrong codes in any pattern leave the next right code granted |
| Recovery.FiveWrongCodesLock | crates/td-node/src/rpc.rs:663-669 | five wrong codes with no success among them lock an open node for exactly a minute from the fifth |
| Relays.EnvelopeStore.Put | relays/td-relay/src/main.rs:115-146 | inserts or ignores up to 262144 bytes under the digest of ciphertext, recipient, sender and time; anything else is an error and stores nothing |
| Relays.SameIdSameEnvelope | crates/td-net/src/relay_proto.rs:24-46 | two acceptable envelopes with one id agree in ciphertext, recipient, sender and time |
| Relays.EnvelopeStore.Fetch | relays/td-relay/src/main.rs:148-206 | the oldest rows of the recipient from the given time on, oldest first, each once, as many as the limit asks for but at least one and at most 64, and all of them if there are fewer |
| Relays.EnvelopeStore.Ack | relays/td-relay/src/main.rs:208-219 | removes exactly the listed rows of that recipient and counts them |
| Relays.RelayState.Handle | relays/td-relay/src/main.rs:250-280 | the new table and limiter for every request, what each reply means, and that a refused put stores nothing |
| Relays.RowIsKept | relays/td-relay/src/main.rs:115-219 | a row keeps all its fields until its own recipient acks its id |
| Relays.Conservation | relays/td-relay/src/main.rs:115-280 | after any run the relay holds exactly the envelopes deposited and not since acked by their own recipient |
| Mailboxes.PollOnce | crates/td-node/src/rpc.rs:4263-4319 | hands over exactly the openable part of the oldest 64, acks exactly that whatever the node accepts of it, and counts what it accepts; a response that does not fit changes nothing |
| Mailboxes.BatchProgress | relays/td-relay/src/main.rs:148-206 | a batch that fits holds all openable mail, or 64 envelopes less those in the way |
| Mailboxes.JsonLengthIs | crates/td-net/src/relay_proto.rs:86-101 | the length reckoned for a byte string is that of its decimal JSON array |
| Courses.Drain | crates/td-node/src/rpc.rs:4321-4342 | polls with no put in between are a course, and exactly what the course hands over leaves the relay |
| Courses.CourseHandsOver | crates/td-node/src/rpc.rs:4263-4319 | every course hands over each openable envelope at most once, in time order, and none behind 64 older unopenable ones |
| Courses.DrainsExactly | crates/td-node/src/rpc.rs:4263-4319 | enough polls are sure to hand over all openable mail, however equal times are ordered, exactly if fewer than 64 obstacles are in the way and no batch met on the way is too large |
| Courses.SmallMailIsNeverTooLarge | crates/td-net/src/relay_proto.rs:88-101 | if each envelope takes at most a 64th of a response, no batch is ever too large |
| Courses.AllIsHandedOver | crates/td-node/src/rpc.rs:4263-4319 | with u obstacles and nothing too large, as many polls as make 64 - u each cover the openable mail hand over exactly that |
| Courses.PollsNeeded | crates/td-node/src/rpc.rs:4263-4319 | with distinct times and nothing unopenable, polls hand over all n envelopes exactly if there are ceil(n / 64) of them and each chunk of 64 fits |
| Courses.CourseIsUnique | relays/td-relay/src/main.rs:157-162 | with distinct times there is one course, given by times and sizes alone |
| Courses.DrainsOrIsWalled | crates/td-node/src/rpc.rs:4275-4278 | with distinct times, 64 envelopes are in the way exactly if some openable mail is behind a wall |
| Courses.NothingFitsNothingComes | crates/td-net/src/relay_proto.rs:88-101 | if no batch of the mail fits, no number of polls hands over anything |
| Courses.SixteenLargeEnvelopes | crates/td-net/src/relay_proto.rs:86-101 | sixteen accepted, openable envelopes of different times are such a mailbox |
| Noise.NoiseStream.WriteMsg | crates/td-net/src/noise.rs:91-105 | refuses exactly what would exceed a Noise message with its tag |
| Noise.NoiseStream.WriteAll | crates/td-net/src/noise.rs:131-141 | never fails on size and sends the chunks of the data |
| Noise.ChunksAreWhole | crates/td-net/src/noise.rs:131-141 | the chunks join to the data, are as few as 65515 bytes each allow, none is empty and none exceeds the limit of section 3 of the Noise Protocol Framework |
| Noise.NoiseStream.ReadExact | crates/td-net/src/noise.rs:144-163 | fills the buffer with the next bytes of the stream exactly if there are enough, whatever the chunk boundaries and earlier reads; what a failed read has consumed |
| Noise.WriteKeepsInStep | crates/td-net/src/noise.rs:131-163 | at every moment of an interleaving of writes and reads, what was read and what can still be read are what was written |
| Noise.NoiseStream.WriteFrame | crates/td-net/src/noise.rs:216-225 | sends the chunks of the body behind its length in 32 bits |
| Noise.NetworkOrder | crates/td-net/src/noise.rs:216-225 | the length of a frame stands most significant byte first |
| Noise.NoiseStream.ReadFrame | crates/td-net/src/noise.rs:227-239 | the body, or the error, and the rest of the stream |
| Noise.NoiseStream.ReadFrames | crates/td-node/src/rpc.rs:4234-4243 | the read loop returns the bodies before the first error |
| Noise.FramedRoundTrip | crates/td-net/src/noise.rs:216-239 | a sequence of bodies comes back unchanged through frames, chunks and reads exactly if each is at most 16 MiB |
| Noise.OversizeStopsReader | crates/td-net/src/noise.rs:233-235 | at the first longer body the reader stops, and all after it is lost |
| Base64.EncodeConfig | crates/td-crypto/src/passkey.rs:390-428 | computes the encoding in either alphabet |
| Base64.Base64Std | crates/td-net/src/quic.rs:314-338 | computes the padded standard encoding, so the two encoders agree on every input |
| Base64.TextOfGroup | crates/td-crypto/src/passkey.rs:390-428 | the length of the text and each of its characters, from the printed tables of RFC 4648, with `=` for what is missing at the end or nothing in the URL-safe encoding |
| Base64.DecodeConfig | crates/td-crypto/src/passkey.rs:430-477 | computes the decoding, or the first bad character |
| Base64.DecodesExactly | crates/td-crypto/src/passkey.rs:430-477 | text without padding and line breaks is decoded exactly if it has only characters of the table and no group of a single one, and the length of the result |
| Base64.RoundTrip | crates/td-crypto/src/passkey.rs:382-477 | decoding an encoding gives back every byte sequence in both modes, sections 4 and 5 of RFC 4648; the URL-safe decoder also reads standard text |
| Base64.StandardReadsUrlSafe | crates/td-crypto/src/passkey.rs:430-447 | the standard decoder reads URL-safe text exactly if it has no character of its own alphabet |
| Base64.NewlinesAreIgnored | crates/td-crypto/src/passkey.rs:431 | a line break anywhere changes nothing |
| Rooms.RoomState.ApplyMembership | crates/td-event/src/room.rs:242-276 | the room after a membership event and each reply; a refused invite or join has entered the DAG |
| Rooms.StartRoom | crates/td-event/src/room.rs:224-239 | a new room holds its create event, which must name no parents, and its creator joined |
| Rooms.RoomRegistry.ApplyEvent | crates/td-event/src/room.rs:212-294 | the event's room and the reply for every kind of event, every other room unchanged |
| Rooms.RoomRegistry.CreateRoom | crates/td-event/src/room.rs:119-149 | succeeds exactly for the creator's own signature; the new room has the given name and creator, who alone is joined; a known room keeps its name, creator and members |
| Rooms.RoomRegistry.MembershipEvent | crates/td-event/src/room.rs:151-210 | fails exactly on a failed check, a foreign signature or a new invite of a banned device, and never for a missing parent; every call is a step of the membership machine, and every success but that of a repeated invite of a banned device moves its target as asked |
| Rooms.RoomRegistry.AssertCanMessage | crates/td-event/src/room.rs:297-304 | lets exactly the joined devices of a known room through |
| Rooms.RoomRegistry.LeaveForGood | crates/td-event/src/room.rs:151-304 | a joined or invited device can leave, and then, after any local calls on any rooms, it may not send unless a device joined at that moment has invited it again |
| Rooms.RoomRegistry.AuthorAll | crates/td-event/src/room.rs:119-210 | any list of local calls on any rooms takes the members of a room, from the beginning or its creation on, through a run of the membership machine with one step for each call on it |
| Rooms.EveryoneIsVouchedFor | crates/td-event/src/room.rs:151-276 | over any run of authored events each joined or invited device is linked to the creator by a chain of invites, each by a device joined at that moment |
| Rooms.ChangesHaveAuthors | crates/td-event/src/room.rs:163-189 | over any run the last change of a device's state was an invite or a ban by a device joined at that moment, its own join on an invite, or its own leave |
| Rooms.LetInByInvite | crates/td-event/src/room.rs:163-189 | over any run a device that is neither joined nor invited, as after leaving, gets in again only through such an invite, and is joined only after its own join |
| Rooms.BanIsPermanent | crates/td-event/src/room.rs:151-276 | over any run of authored events a banned device stays banned |
| Rooms.OnlyLeaveLiftsBan | crates/td-event/src/room.rs:250-273 | of arbitrary events exactly a leave takes a device out of its ban |
| Rooms.EventsAndMembers | crates/td-event/src/room.rs:212-294 | only a membership event that is taken in changes a room's members, and only its target's state, to the one it names; only joined devices can write anything else |
| Rooms.CachedTipsAreFresh | crates/td-event/src/room.rs:251-274 | fresh cached tips stay fresh exactly unless an invite or join is refused |

## Left out

- Real cryptography: ed25519, blake3, vodozemac, AEAD, snow, p256 and TLS appear as symbolic values and as parameters.
- I/O: sockets, HTTP, SQL, files, JSON text, the web UI, widgets, the bot, Wi-Fi, OTA and QUIC configuration. Store writes
  do not fail; a failing one between the event map and the log is not part of the model.
- 64-bit overflow of event timestamps and counters, and 32-bit wrap-around of Megolm indices. Relay timestamps do wrap
  to signed 64-bit numbers as in the program, so mail dated at or above 2^63 is not among what a poll can see.
- Sessions.NodeSession.Fanout: one reachable peer and no HTTP failure, because those only skip a peer or its second push.
- Sessions.NodeSession.SendMessage: the payload is given; encrypting it is modelled with the group protocol.
- GroupProtocol.GroupReadability: a send delivers its package before the next step, because with packages still in
  flight, partial sharing or the legacy inbound-only import the property does not hold.
- GroupProtocol.HarmlessExactly: a send is one step, so a crash between its writes is not a restart of its own.
- Sharing a session outside a send, which can also create one.
- Uniqueness of Megolm indices across the members of a room, which the program does not provide.
- Olm sessions, the account and one-time keys.
- Courses.Drain: what can be opened stays the same during a drain and the acks arrive; opening an Olm envelope really
  advances a session.
- Mailboxes.PollOnce: the cut of a response's length to 32 bits, which 64 envelopes of 256 KiB do not reach.
- Relays.EnvelopeStore.Fetch: rows of malformed column length are not modelled, because puts cannot create them.
- Recovery.RecoveryGuard.Login and RateLimits.RateLimiter.Allow: one clock reading a call, where the program takes two.
- Recovery.ThrottleBound: one process; a restart clears the guard.
- Noise.NoiseStream.ReadExact: a peer that keeps the connection open makes the program wait where the model sees the end.
- Noise: the handshake, and ciphertexts that do not decrypt.
- Base64.EncodeConfig: the two 64-character tables are one function from six-bit values to characters.
- Membership over arbitrary events and on reload: `apply_event` is last-applied-wins and depends on arrival order.
- The outbox push to the relay, which drops events popped before it finds no recipients.
- Peer URIs, link registry, owner sessions, pair tokens and passkey challenges: short one-shot checks.
