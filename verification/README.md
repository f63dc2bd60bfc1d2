# Peerman: a verified model of its protocols and wire formats

Peerman manages the WireGuard tunnels and BGP sessions of a DN42 router, alone or in a cluster. This project
models the parts of its Rust backend that carry state or parse bytes, and proves what they guarantee.

* **BGP listener** (`Nlri`, `PathAttributes`, `Update`, `MessageStream`, `Resend`): the hand-written parser of RFC 4271,
  sections 4.1 and 4.3, from a byte stream to path changes. Decoding is proved exact in both directions for every
  byte string, and a session fed with framed UPDATE messages reports what they say, in order.
* **Flap detector** (`FlapStore`, `FlapDetector`, `FlapRuns`, `FlapEviction`): the sliding window of change times,
  the flap events it opens, counts up and resolves, and the eviction of idle trackers. The window is proved to
  be the recent part of the full history, and a detector that evicts is compared with one that never does.
* **Configuration apply** (`ConfigApply`, `ConfigProgress`): request handlers, the debounce task and apply-on-demand callers as
  freely interleaved atomic steps around one lock and one dirty flag.
* **Cluster** (`NodeTable`, `Gossip`, `HealthCheck`, `OnlinePeers`): the nodes table with its two unique keys,
  the two sides of an anti-entropy exchange, the failure streaks, and how the two tasks depend on each other.
* **Tunnel addresses** (`Bits`, `TunnelAllocator`, `NodeInit`, `TunnelCollision`): bit masks, first-fit search, first start.
* **Login rate limiter** (`RateLimit`): a fixed window and the sliding bound that follows from it.
* **Framing** (`BirdReply`, `GrpcWebFrame`, `InterfaceName`): BIRD replies, gRPC-Web responses, interface names.
* **Shared** (`Basics`, `Bytes`, `Text`, `Sorting`): big-endian integers, printed numbers, sorting.

Every format is also described on plain octets, without the model's own encoders (lemmas called `Reads...`,
`Renders...`, `Writes...`), and every statement on a table column by column, so that the functions the methods are
proved against are themselves pinned down. Appliers are shown to be able to finish, not only to do no harm.

Code that updates fields or buffers step by step is a class or a method with loops, proved equal to a function of
its input or of the old state; the lemmas are about those functions. Clock readings, ids, database failures and
health results are inputs. Arithmetic that wraps in a release build wraps in the model.

`dafny verify dfyconfig.toml` checks everything.

## Where the code falls short of what one would expect

Each item is an exact condition, with an input or run on which the expectation fails, or a statement about all runs.

* A NLRI entry is reported unambiguously if and only if its length is at most 128 bits (`Nlri.TextIdentifiesExactly`).
* The read loop of a listener session panics if and only if it comes to a header, other than a NOTIFICATION's, that
  gives a length below 19 (`MessageStream.PanicsExactly`); nineteen octets are enough
  (`MessageStream.ShortUpdatePanics`).
* A repeated UPDATE is never counted as a change, however many ticks later, if and only if it does not both withdraw
  and announce a prefix, or its hash is 0 (`Resend.RepeatedUpdateIsSilentExactly`).
* Evicting a tracker adds one extra change to a later count exactly while the sighting that re-created it, of a hash
  already known, lies in the window (`FlapEviction.EvictionCountsExactly`, `FlapEviction.ExtraChangeHappens`).
* A tick can evict the tracker of an event that stays active if and only if more than 300 seconds pass between its
  two clock readings (`FlapRuns.TickKeepsTrackersExactly`, `FlapRuns.SlowTickLosesTracker`).
* An apply that fails drops an update if and only if the flag is clear, bird.conf does not have it, and no other
  apply is about to bring it (`ConfigApply.StepDropsExactly`, `ConfigApply.FailedReadLosesUpdate`). The next time
  the flag is set heals every earlier failure, and so does an apply that read the peers after all flagged writes
  (`ConfigApply.CoveredExactly`, `ConfigApply.NextFlagHeals`).
* A removed interface file comes back stale if and only if some apply holds an older snapshot and has yet to write
  that file (`ConfigApply.RemovedFileReturnsExactly`, `ConfigApply.RemovedFileReturns`).
* The project's own README.md, line 112, says that public keys are exchanged by gossip. Every caller sends empty
  keys and takes nothing but names and addresses from the answer, so keys never travel (`Gossip.KeysNeverTravel`).
* Rows start offline and only a recovery from two failed checks marks one online, so in a cluster whose checks never
  fail the periodic anti-entropy task never starts an exchange (`OnlinePeers.HealthyClusterNeverGossips`). A node
  without online peers gets one if and only if another node recovers (`OnlinePeers.RecoveryMakesPeerExactly`).
* Offline and online marks of an address alternate in step with its failures if and only if no check finds it
  healthy after 2^32 or more failures in a row, or failing after exactly 2^32 + 1 (`HealthCheck.MarksAlternateExactly`,
  `HealthCheck.WrapMarksOfflineTwice`).
* Granted login attempts five apart lie in windows sixty seconds apart if and only if no window counts 2^32 attempts
  (`RateLimit.SpacedExactly`); otherwise eleven can be granted at one instant (`RateLimit.FloodIsAdmittedAgain`).
* The advice given to a rejected login is the least sufficient wait if and only if the next attempt would not wrap
  the counter (`RateLimit.RetryAfterIsExact`).
* However much nodes gossip, two of one range assign themselves the same tunnel address if and only if the lowest
  address free by one table was the lowest free by the other before (`TunnelCollision.GossipCannotSeparate`); in a
  new cluster, with a prefix length of 1 to 30, each takes the first host address (`TunnelCollision.NewClusterCollides`).
* A tunnel range has the promised size if and only if its prefix length is at least 1; length 0 yields a single
  address (`TunnelAllocator.RangeSizeExactly`).
* A gRPC body of frames is passed on unchanged if and only if it is empty or one uncompressed frame; several are
  wrapped once more, and a compressed one loses its flag (`GrpcWebFrame.PassedOnExactly`).
* Reading printed BIRD records panics if and only if a line is cut inside a character (`BirdReply.ReadsPrinted`,
  `BirdReply.EuroSignPanics`). A record comes back unchanged if and only if it is not empty, is not cut, has no
  carriage return at a line's end and no new line behind a line continued with a plus sign
  (`BirdReply.RoundTripExactly`, `BirdReply.PlusSwallowsLineFeed`).

## Model

| member | source | states |
|---|---|---|
| Nlri.ParseNlri | src/services/bgp_listener.rs:360-407 | the loop returns the rendered texts of exactly the entries that decode from the data, in order |
| Nlri.DecodeIsMaximal | src/services/bgp_listener.rs:360-374 | for every byte string: entries and remainder are the result if and only if the data is their encoding, every entry is whole and the remainder is empty or one truncated entry |
| Nlri.Decomposes | src/services/bgp_listener.rs:360-374 | every byte string is the encoding of its parsed entries followed by a remainder that cannot be parsed |
| Nlri.Recomposes | src/services/bgp_listener.rs:360-374 | encoded entries followed by a truncated rest are parsed back, with that rest left over |
| Nlri.ParsingDistributes | src/services/bgp_listener.rs:364-371 | parsing distributes over concatenation when the left part is consumed to its end |
| Nlri.TextIdentifiesExactly | src/services/bgp_listener.rs:376-401 | the reported text identifies an entry of a given length if and only if that length is at most 128 bits |
| Nlri.RenderInjective | src/services/bgp_listener.rs:376-401 | two entries, one of at most 128 bits, with the same text are the same entry, across both address families |
| Nlri.ReadsEntry | src/services/bgp_listener.rs:364-374 | a length octet and the least number of octets that hold so many bits are read as one entry, and reading goes on behind them |
| Nlri.ReadsCutEntry | src/services/bgp_listener.rs:368-371 | with fewer octets nothing more is read |
| Nlri.RendersV4 | src/services/bgp_listener.rs:376-384 | up to 32 bits the text is four decimal octets with dots, missing ones as 0, and the length |
| Nlri.RendersV6 | src/services/bgp_listener.rs:385-401 | beyond 32 bits it is eight hexadecimal groups with colons, the high octet of each first, and the length |
| Text.NumeralIsValue | src/services/bgp_listener.rs:381-397 | printed numbers stand for themselves in base ten or sixteen, without leading zeros |
| PathAttributes.HashPathAttributes | src/services/bgp_listener.rs:310-356 | the loop computes the digest of the sorted digests of the (type, value) pairs found in the block |
| PathAttributes.AttributesExactly | src/services/bgp_listener.rs:319-347 | every block is whole attributes and at most one broken one, which counts with the octets it has if it has a header |
| PathAttributes.AttributesOfEncoding | src/services/bgp_listener.rs:319-347 | encoded attributes followed by any broken one are read as their pairs in order, then the cut-short pair |
| PathAttributes.AttributesRoundTrip | src/services/bgp_listener.rs:319-347 | encoding attributes with any flags and either length form and reading them gives their pairs back |
| PathAttributes.HashIgnoresOrder | src/services/bgp_listener.rs:349-355 | blocks with the same multiset of pairs have the same hash, whatever the hasher |
| PathAttributes.HashDistinguishes | src/services/bgp_listener.rs:339-355 | with collision-free digests, hashes are equal if and only if the multisets of pairs are |
| PathAttributes.HashOfEncoding | src/services/bgp_listener.rs:315-355 | permuting attributes, changing other flag bits or switching the length form leaves the hash unchanged |
| PathAttributes.ReadsShortForm | src/services/bgp_listener.rs:321-347 | on plain octets: with flag bit 0x10 clear, one length octet, then the value |
| PathAttributes.ReadsExtendedForm | src/services/bgp_listener.rs:323-332 | with the bit set, two length octets, the high one first, then the value |
| PathAttributes.ReadsCutShortForm | src/services/bgp_listener.rs:340-347 | a value shorter than its length octet says counts with the octets there are |
| PathAttributes.ReadsCutExtendedForm | src/services/bgp_listener.rs:340-347 | the same for two length octets |
| PathAttributes.ReadsNoHeader | src/services/bgp_listener.rs:319-329 | less than a header is no attribute |
| PathAttributes.MapKeepsMultiset | src/services/bgp_listener.rs:341-344 | equal multisets of pairs give equal multisets of digests |
| PathAttributes.MapReflectsMultiset | src/services/bgp_listener.rs:341-344 | with an injective digest, equal multisets of digests come from equal multisets of pairs |
| Sorting.SortedIffSameMultiset | src/services/bgp_listener.rs:349-350 | sorted digests are equal if and only if their multisets are: sorting removes the order and nothing else |
| Sorting.Sorted | src/services/bgp_listener.rs:350 | the result is ascending and a permutation of the input |
| Update.ParseUpdate | src/services/bgp_listener.rs:260-308 | for every payload: withdrawn prefixes with hash 0, then announced ones with the attribute hash or 0, where an overrunning length reads as an empty field |
| Update.UpdateRoundTrip | src/services/bgp_listener.rs:260-308 | encoding any withdrawn list, attributes and announced list and parsing gives exactly those routes with those hashes, in order |
| Update.FieldRoundTrip | src/services/bgp_listener.rs:268-281 | a field behind its two-octet length is separated from whatever follows it |
| Update.EquivalentAttributesSameMeaning | src/services/bgp_listener.rs:291-305 | two messages whose attributes differ in order or form only are reported identically |
| Update.ReadsSections | src/services/bgp_listener.rs:268-305 | on plain octets: two lengths, high octet first, each with its field, and announced routes to the end, hashed with the attributes in front or with 0 |
| Update.ReadsWithdrawnOnly | src/services/bgp_listener.rs:264-285 | without room for a length nothing more is read |
| Update.ReadsOverrun | src/services/bgp_listener.rs:272-281 | a withdrawn length that overruns the message counts as 0 |
| Update.ReadsAttributeOverrun | src/services/bgp_listener.rs:291-305 | behind an attribute length that overruns, routes are read with hash 0 |
| Update.ChangesAt | src/services/bgp_listener.rs:274-279 | each entry of a field is reported in its place with its text and the hash |
| MessageStream.BuildBgpMsg | src/services/bgp_listener.rs:233-252 | fills the buffer with marker, length, type and body, and refuses messages above 4096 octets |
| MessageStream.HandleSession | src/services/bgp_listener.rs:114-176 | the read loop sends the changes of exactly the UPDATE messages delivered by the stream, up to the send at which the channel is closed, and ends for the stated reason |
| MessageStream.Accounted | src/services/bgp_listener.rs:188-206 | every stream is the framing of the messages read from it followed by the bytes the loop stopped at |
| MessageStream.FramingRoundTrip | src/services/bgp_listener.rs:114-176 | concatenated frames of messages other than NOTIFICATION are read back one by one, whatever follows |
| MessageStream.DeliveredExactly | src/services/bgp_listener.rs:114-206 | messages and remaining bytes are the outcome if and only if the stream is their framing and the rest holds no further message |
| MessageStream.ReadsFrame | src/services/bgp_listener.rs:188-252 | a written message is the first one read, with type and body intact |
| MessageStream.StreamMeaning | src/services/bgp_listener.rs:114-147 | a session fed with framed, encoded UPDATE messages reports exactly their routes, in order, and then closes |
| MessageStream.PanicsExactly | src/services/bgp_listener.rs:121-174 | a session panics if and only if, behind whole messages, it comes to a header other than a NOTIFICATION's with a length below 19 |
| MessageStream.ShortUpdatePanics | src/services/bgp_listener.rs:122-125 | nineteen octets, an UPDATE header of length 0, make it panic |
| MessageStream.WritesOctets | src/services/bgp_listener.rs:239-249 | a frame is sixteen octets 255, the whole length, high octet first, the type and the body |
| MessageStream.ReadsOrStops | src/services/bgp_listener.rs:121-174 | by marker, type octet and length alone: the first message is delivered and reading goes on behind it, or the loop ends as notified, panicked, failed or closed |
| MessageStream.ClosesWithoutHeader | src/services/bgp_listener.rs:188-200 | without nineteen octets or with another marker it closes |
| MessageStream.ChangesAre | src/services/bgp_listener.rs:121-147 | messages of type 2 are parsed, and no others |
| Resend.ResendIsSilentExactly | src/services/flap_detector.rs:80-135 | from any trackers, sending a list of routes again, any ticks later, is never counted if and only if no prefix comes with two hashes |
| Resend.RepeatedUpdateIsSilentExactly | src/services/bgp_listener.rs:133-140 | from parser to detector: an UPDATE sent again, any ticks later and its attributes in any order and form, is never counted if and only if it does not both withdraw and announce a prefix, or the hash is 0 |
| Resend.TypeOfRoute | src/services/flap_detector.rs:119-123 | a parsed route is tracked as IPv6 if and only if its length is above 32 |
| FlapStore.Latest | src/models/flap_event.rs:155-173 | the result is a matching active row and no matching row was detected later; none only if no row matches |
| FlapStore.ActiveComplete | src/models/flap_event.rs:61-73 | the listing is ordered latest first and holds each active row as often as the table does, and nothing else |
| FlapStore.CreateKeepsSound | src/models/flap_event.rs:37-59 | inserting an event after a lookup that found none keeps ids unique and one active row per prefix and node |
| FlapStore.UpdatesKeepSound | src/models/flap_event.rs:91-114 | counting up and resolving keep both invariants |
| FlapStore.PurgeKeepsSound | src/tasks/retention.rs:34-36 | the retention task keeps ids unique and one active row per prefix and node |
| FlapStore.PurgedRow | src/tasks/retention.rs:34-36 | it removes exactly the resolved rows that are old by its measure |
| FlapDetector.FlapDetector.ProcessChange | src/services/flap_detector.rs:86-175 | new trackers and new table are those of one change step, whatever the store answers |
| FlapDetector.FlapDetector.ResolveStale | src/services/flap_detector.rs:177-200 | the loop resolves the stale active events, latest first, up to the first failed write |
| FlapDetector.FlapDetector.Run | src/services/flap_detector.rs:45-78 | the loop's state is that of the event sequence, each tick resolving before it evicts |
| FlapRuns.NeverTwoActive | src/services/flap_detector.rs:137-172 | at every point of every run, with any store failures and purges in between, ids are unique and a prefix has at most one active event per node |
| FlapRuns.WindowRefinesHistory | src/services/flap_detector.rs:99-135 | after every run each tracker is the recent part of a tracker that keeps every change time; histories are sorted and end at the last change |
| FlapRuns.BumpIsRecent | src/services/flap_detector.rs:103-106 | pushing and retaining in the window gives the recent part of the extended full history |
| FlapRuns.WithinTwice | src/services/flap_detector.rs:106 | what an earlier window has dropped a later window drops as well |
| FlapRuns.WithinExactly | src/services/flap_detector.rs:106 | the window holds exactly the times at most sixty seconds old, as often as they occur |
| FlapRuns.WithinKeepsOrder | src/services/flap_detector.rs:106 | and in order |
| FlapRuns.ChangeIsReportedExactly | src/services/flap_detector.rs:99-172 | after any run: from ten changes within 60 seconds of the full history on, the prefix's event shows exactly that number, a new one with every column as stated, and no other row changes; below ten the table is untouched |
| FlapRuns.ReportExact | src/services/flap_detector.rs:142-165 | reporting sets count and window end of the prefix's active event and nothing else, or, if there is none, adds an event with all its columns as stated |
| FlapRuns.FailedReportWritesNothing | src/services/flap_detector.rs:142-164 | if the lookup or the write fails, the table stays and the trackers move on all the same |
| FlapRuns.KeyIdentifiesNode | src/services/flap_detector.rs:90 | a prefix on another node has another key |
| FlapRuns.KeyIdentifiesPrefix | src/services/flap_detector.rs:90 | on one node, equal tracker keys mean equal prefixes |
| FlapRuns.TrackersStayKeyed | src/services/flap_detector.rs:124-133 | in every run each tracker sits under the key of its own prefix and its last change time ends its window |
| FlapRuns.SweepHits | src/services/flap_detector.rs:181-197 | with a working store the pass closes exactly the rows hit by a stale listed event |
| FlapRuns.TickResolvesExactly | src/services/flap_detector.rs:177-200 | with a working store a tick resolves every stale active event and leaves every other row alone |
| FlapRuns.TickClosesExactly | src/services/flap_detector.rs:181-197 | a tick on a working store closes an active event if and only if its tracker's last change, or without a tracker its detection, is more than 300 seconds back, by the trackers before the tick |
| FlapRuns.OrphanIsClosed | src/services/flap_detector.rs:186-191 | after any run, an active event without a tracker is closed by the first tick more than 300 seconds after its detection and by no earlier one |
| FlapRuns.TickForgetsExactly | src/services/flap_detector.rs:80-84 | a tick forgets exactly the trackers whose last change is more than 600 seconds back |
| FlapRuns.SweepClosesFirst | src/services/flap_detector.rs:181-197 | if only so many writes succeed, exactly that many stale events are closed, the latest first |
| FlapRuns.FailedListingWritesNothing | src/services/flap_detector.rs:179 | if the listing fails, a tick writes nothing |
| FlapRuns.PurgeTakesExactly | src/tasks/retention.rs:34-36 | between two turns of the detector the retention task takes away exactly the closed rows that are old by its measure, and no tracker |
| FlapRuns.TickKeepsTrackersExactly | src/services/flap_detector.rs:70-75 | no tick evicts the tracker of an event that stays active if and only if at most 300 seconds pass between its two clock readings |
| FlapRuns.SlowTickLosesTracker | src/services/flap_detector.rs:70-84 | for every longer gap, a run of one change and one tick after which an active event has lost its tracker |
| FlapEviction.EvictingIsTheDetector | src/services/flap_detector.rs:45-84 | the evicting trackers that are compared are those of the detector's own runs |
| FlapEviction.AlwaysRelated | src/services/flap_detector.rs:80-135 | over every run the evicting tracker shows the other one's window behind the change of its re-creation, while that lies in the window, or has just been re-created |
| FlapEviction.EvictionCountsExactly | src/services/flap_detector.rs:80-135 | whenever the evicting detector counts a change the other one does, and the counts are equal, or one apart exactly while the uncounted sighting that re-created the tracker lies within 60 seconds; a change only the other counts is the first of its window |
| FlapEviction.EvictionIsTransparent | src/services/flap_detector.rs:80-135 | hence the evicting count is never smaller and at most one larger |
| FlapEviction.NoFlapIsMissed | src/services/flap_detector.rs:80-135 | whenever the detector that never evicts reaches the threshold, the evicting one does too |
| FlapEviction.ExtraChangeHappens | src/services/flap_detector.rs:80-135 | the extra change is real: a concrete run on which the counts are 2 and 1 |
| ConfigApply.StepKeepsInv | src/grpc/peer_service.rs:29-163 | every step keeps mutual exclusion, running implies pending, no file newer than the newest snapshot, and every interface file that bird.conf goes with at its version or later unless removed since by a write that apply had not seen flagged |
| ConfigApply.RunKeepsInv | src/grpc/peer_service.rs:35-44 | the same over every interleaving |
| ConfigApply.NeverBackwards | src/grpc/peer_service.rs:35-154 | over every interleaving with failed applies and removals, each file written comes from a snapshot at least as new as the one it replaces |
| ConfigApply.StepDropsExactly | src/tasks/apply.rs:33-45 | a step ends the prospect of a write reaching bird.conf if and only if an apply fails before it is there, with the flag clear and no other apply waiting, reading or holding a snapshot that has it |
| ConfigApply.LostExactly | src/tasks/apply.rs:33-45 | over every interleaving a write stays installed or owed at all times if and only if no step drops it |
| ConfigApply.StepCoversExactly | src/tasks/apply.rs:33-45 | after a step all flagged writes are covered if and only if it sets the flag or replaces bird.conf with peers read after all of them, or they were covered and no debounced apply fails with the flag clear and one of them unsettled |
| ConfigApply.CoveredExactly | src/tasks/apply.rs:33-45 | over every interleaving all flagged writes are settled, or going to be, if and only if no failure of a debounced apply is left unhealed |
| ConfigApply.NextFlagHeals | src/grpc/peer_service.rs:403-404 | whatever failed before, setting the flag heals it if no debounced apply fails afterwards |
| ConfigApply.QuietMeansInstalled | src/grpc/peer_service.rs:71-154 | with no failure left unhealed, once the flag is clear and the task idle, every flagged write is in bird.conf, and every interface file of that version is installed at it or later unless a delete that has not set the flag has removed it |
| ConfigApply.AtRestInstalledIsCurrent | src/grpc/peer_service.rs:302-310 | when besides no handler is between its commit and the flag, bird.conf and all its interface files are those of the current database |
| ConfigApply.FailedReadLosesUpdate | src/grpc/peer_service.rs:46-50 | a run in which a failed read leaves a flagged write uninstalled, everything idle and pending set |
| ConfigApply.RemovedFileReturnsExactly | src/grpc/peer_service.rs:71-98 | after a delete has removed its file, a stale one can reappear if and only if some apply holds an older snapshot and has yet to write that file |
| ConfigApply.ReadsPeers | src/grpc/peer_service.rs:42-50 | a run to the state in which an apply has read a peer |
| ConfigApply.RemovedFileReturns | src/grpc/peer_service.rs:430-439 | and its continuation: the peer is deleted, its file removed, and the apply writes it again |
| ConfigProgress.ApplyFinishes | src/grpc/peer_service.rs:35-162 | whoever waits while the lock is free can run, step by step, to bird.conf and every interface file of the current version installed, the lock free, the announcement withdrawn, and nothing else changed |
| ConfigProgress.TaskFinishes | src/tasks/apply.rs:33-45 | with the flag set, the task idle and the lock free, the task's next turn can do so, and the flag is clear |
| ConfigProgress.RequestFinishes | src/grpc/management_service.rs:85-100 | so can an apply on demand |
| ConfigProgress.WriteIsFlagged | src/grpc/peer_service.rs:302-310 | a create, update or toggle commits a version and then sets the flag, and does nothing else |
| ConfigProgress.DeleteIsFlagged | src/grpc/peer_service.rs:430-442 | a delete commits, removes the peer's file and then sets the flag |
| ConfigProgress.EarlyFailuresLeave | src/grpc/peer_service.rs:46-98 | a failed read or interface file is possible at its place and leaves the lock free, the announcement standing and all else as it was |
| ConfigProgress.CancelLeaves | src/grpc/peer_service.rs:37-40 | an on-demand caller that waits for the lock may go away, and leaves nothing behind |
| ConfigProgress.BirdFailureLeaves | src/grpc/peer_service.rs:148-154 | an error around bird.conf, before or after it was replaced, withdraws the announcement |
| ConfigProgress.HolderFinishes | src/grpc/peer_service.rs:37-40 | the holder of the lock can always get to its end |
| ConfigProgress.RestIsReachable | src/grpc/peer_service.rs:29-163 | from every reachable state, without any failure, a state at rest with the current database installed can be reached: there is no dead end |
| NodeTable.NodeRepository.Create | src/models/node.rs:63-92 | inserts a blank offline row unless name or address is taken |
| NodeTable.NodeRepository.UpsertByName | src/models/node.rs:235-257 | inserts, or updates the row of that name, unless another row holds the address |
| NodeTable.NodeRepository.UpsertSelf | src/models/node.rs:204-224 | inserts, or renames the row of that address, unless another row holds the name |
| NodeTable.NodeRepository.Update | src/models/node.rs:94-116 | replaces the row with the id except its online flag, and succeeds if and only if it exists and both keys are free |
| NodeTable.NodeRepository.Delete | src/models/node.rs:118-128 | removes the row with the id unless flap events refer to it, and reports whether it did |
| NodeTable.UpsertKeepsValid | migrations/002_cluster.sql:4 | an upsert by name keeps all three unique |
| NodeTable.EditsKeepValid | src/models/node.rs:94-128 | self-registration, update and deletion keep all three unique |
| NodeTable.UpsertForgetsExactly | src/models/node.rs:235-257 | an upsert forgets an address if and only if a known name moves to an address nobody holds |
| NodeTable.CreateLearns | src/models/node.rs:63-92 | a successful insert adds exactly its address to the known ones; an unknown name is never refused for an unknown address |
| NodeTable.CreatesRow | src/models/node.rs:63-92 | an insert adds exactly one blank offline row with the given columns, or changes nothing if name or address is there |
| NodeTable.UpsertsRow | src/models/node.rs:235-257 | an upsert by name is refused if and only if a row of another name has the address; otherwise it sets four columns of the row of the name, or adds a row, and returns it |
| NodeTable.RegistersRow | src/models/node.rs:204-224 | self-registration gives the row of the address the name and ASN, or adds a row, unless another row has the name |
| NodeTable.UpdatesRow | src/models/node.rs:94-116 | an update replaces the row with the id, its online flag apart, unless another row has its name or address |
| NodeTable.DeletesRow | src/models/node.rs:118-128 | a deletion takes out that row, and none that flap events refer to |
| Gossip.ExchangeNodes | src/grpc/cluster_service.rs:415-521 | the responder's table is the entry-by-entry upsert of the request, skipping refused entries, and the reply lists it |
| Gossip.LearnNodes | src/tasks/cluster.rs:206-224 | the caller's table gains exactly the reply's unknown addresses whose names are free |
| Gossip.AbsorbAllLearns | src/grpc/cluster_service.rs:423-464 | with one address per name, the responder ends up knowing what it knew and what was sent |
| Gossip.LearnAllLearns | src/tasks/cluster.rs:206-224 | with one address per name, the caller ends up knowing what it knew and what was answered |
| Gossip.ExchangeUnites | src/tasks/cluster.rs:185-224 | one exchange leaves both sides knowing the union; a lost answer leaves the caller as it was; other sites are untouched |
| Gossip.LessonsRaiseTotal | src/tasks/cluster.rs:199-224 | each exchange of a run that teaches anyone anything raises the total knowledge, which is bounded |
| Gossip.FewLessons | src/tasks/cluster.rs:199-224 | in any run over N sites and N addresses at most N * (N - 1) exchanges teach anyone anything |
| Gossip.NoLessonsNothingLearned | src/tasks/cluster.rs:199-224 | a run in which no exchange counts as a lesson leaves all knowledge as it was |
| Gossip.QuietMeansAgreed | src/tasks/cluster.rs:199-224 | when no answered exchange would teach anything, all sites know the same addresses |
| Gossip.KeysNeverTravel | src/tasks/cluster.rs:185-224 | in any run no site learns a key or a tunnel address of another one, and rows added are offline |
| Gossip.ReplyShowsRow | src/grpc/cluster_service.rs:506-518 | the reply has each row's seven public columns in its place |
| Gossip.ReplyHidesPrivateKeys | src/grpc/cluster_service.rs:506-518 | tables that differ in private keys alone give the same reply |
| Gossip.RequestShowsRow | src/tasks/cluster.rs:185-197 | the request has name, address, ASN and description of each row, and blank keys |
| Gossip.AbsorbsRow | src/grpc/cluster_service.rs:423-464 | an entry is refused if a row of another name has its address; otherwise the row of its name, or a new one, holds what was sent, and an empty key or tunnel address leaves the old one |
| Gossip.LearnsRow | src/tasks/cluster.rs:207-224 | an entry of a reply adds one blank row with its columns, unless it is the caller's own or its name or address is known |
| HealthCheck.HealthChecker.Tick | src/tasks/cluster.rs:87-136 | the loop leaves streaks and table as checking each listed node in order does |
| HealthCheck.StreakCountsTrailingFailures | src/tasks/cluster.rs:98-123 | over any run a stored streak is the number of trailing failed checks of its address, modulo 2^32 |
| HealthCheck.MarkExactly | src/tasks/cluster.rs:100-134 | an offline mark falls exactly on the second failure in a row, an online mark exactly on the first success after two or more |
| HealthCheck.MarksAlternateExactly | src/tasks/cluster.rs:100-134 | after every check of a run the marks alternate, the last one being an offline mark exactly while the address keeps failing, if and only if no check finds it healthy after 2^32 or more failures, or failing after exactly 2^32 + 1 |
| HealthCheck.WrapMarksOfflineTwice | src/tasks/cluster.rs:122-125 | 2^32 + 2 failures in a row mark an address offline twice |
| HealthCheck.TickIsItsChecks | src/tasks/cluster.rs:87-136 | the streaks after a tick are those of its checks appended to the history |
| HealthCheck.TickMarksExactly | src/tasks/cluster.rs:87-136 | a tick changes nothing but online flags, each as its own row's streak and result demand |
| HealthCheck.TickOnRow | src/tasks/cluster.rs:87-136 | per row: the node itself is left alone; a success after two or more failures puts it online and clears the streak; the second failure puts it offline; nothing else changes |
| OnlinePeers.NobodyToGossipWith | src/tasks/cluster.rs:167-174 | from a table without online rows, over all statements that write the table and restarts of the process, anti-entropy finds no peer until some node recovers from two failures |
| OnlinePeers.HealthyMeansNobodyRecovers | src/tasks/cluster.rs:100-110 | if no check ever fails, no node ever recovers |
| OnlinePeers.HealthyClusterNeverGossips | src/tasks/cluster.rs:167-174 | from an empty table, if checks never fail, the periodic task never has a peer to start an exchange with |
| OnlinePeers.RecoveryMakesPeerExactly | src/tasks/cluster.rs:100-110 | while nobody is online, a tick leaves a peer to contact if and only if another node recovers in it |
| OnlinePeers.ExpiresRow | src/models/node.rs:195-202 | expiry puts the stale online rows offline and changes nothing else |
| OnlinePeers.WritesAre | src/main.rs:189-210 | each event of a run is the statement it stands for, and a restart empties the streaks |
| OnlinePeers.WritesColumns | src/cluster/tunnel.rs:21-48 | expiry and start-up change just the columns they name, of just the rows they name |
| Bits.MaskIsBlockStart | src/cluster/tunnel.rs:69-70 | masking off low bits gives the start of the aligned block that holds the address |
| Bits.FillIsBlockEnd | src/cluster/tunnel.rs:71 | setting the low bits of that start gives the block's last address |
| Bits.BlockContains | src/cluster/tunnel.rs:70 | a block holds the address it was made from |
| Bits.BlockAligned | src/cluster/tunnel.rs:70 | every address of a block has the same block |
| Bits.BlockStartIsArithmetic | src/cluster/tunnel.rs:69-70 | the start of a block is the address less its remainder by the block's size |
| TunnelAllocator.MasksAreIntervals | src/cluster/tunnel.rs:68-71 | network and broadcast are the ends of the block around the base address, for both widths and every prefix octet |
| TunnelAllocator.RangeSizeExactly | src/cluster/tunnel.rs:69-71 | the range has the size its prefix length promises if and only if that length is at least 1 |
| TunnelAllocator.FindFree | src/cluster/tunnel.rs:85-95 | returns the lowest unused address strictly between the ends; fails only if every one is used |
| TunnelAllocator.AssignTunnelIp | src/cluster/tunnel.rs:57-96 | the lowest address strictly between network and broadcast that is no row's, or none if each is some row's |
| TunnelAllocator.AssignTunnelIpv6 | src/cluster/tunnel.rs:99-141 | the same for the IPv6 column, among the first 65535 addresses behind the network address |
| TunnelAllocator.UsedBySomeRow | src/cluster/tunnel.rs:73-83 | an address is in use if and only if it is some row's, in either column |
| TunnelAllocator.ShiftExactly | src/cluster/tunnel.rs:69 | for every prefix octet the shift is what brings the prefix to a multiple of the width |
| TunnelAllocator.ShowsOctets | src/cluster/tunnel.rs:86-87 | an IPv4 address is shown as its four octets, the highest first |
| TunnelAllocator.ShowV4Injective | src/cluster/tunnel.rs:86-87 | different IPv4 addresses have different texts, so comparing texts compares addresses |
| TunnelAllocator.CandidateCount | src/cluster/tunnel.rs:85-88 | the candidate texts are as many as the host addresses |
| TunnelAllocator.EnoughHosts | src/cluster/tunnel.rs:85-95 | fewer used texts than candidates guarantee success |
| TunnelAllocator.AssignmentSucceeds | src/cluster/tunnel.rs:57-96 | for prefix lengths 1 to 32, a table with fewer rows than host addresses always gets an address |
| TunnelAllocator.Ipv6AssignmentSucceeds | src/cluster/tunnel.rs:99-141 | the same for 1 to 128 under the cap, for address texts that tell addresses apart |
| NodeInit.InitLocalNode | src/cluster/tunnel.rs:13-54 | only this node's row changes; existing keys and addresses stay; a missing half replaces the key pair; a missing address becomes the lowest free one of a readable range, IPv6 only after IPv4; it succeeds if and only if all that is required is then there, and returns it |
| NodeInit.EnsureKeys | src/cluster/tunnel.rs:21-31 | a missing half replaces the whole key pair; a full pair stays |
| NodeInit.EnsureTunnelIp | src/cluster/tunnel.rs:33-42 | an existing address stays; otherwise the lowest free one of the range is stored, and failure means the range is unreadable or full |
| NodeInit.EnsureTunnelIpv6 | src/cluster/tunnel.rs:45-48 | the same for IPv6 |
| TunnelCollision.CollideExactly | src/cluster/tunnel.rs:85-95 | two searches of one range give the same address if and only if the lowest offset free in one set is the lowest free in the other |
| TunnelCollision.GossipCannotSeparate | src/cluster/tunnel.rs:57-96 | that is so for two sites after any run of exchanges if and only if it was so before it |
| TunnelCollision.NewClusterCollides | src/cluster/tunnel.rs:57-96 | a site that knows no tunnel address assigns itself the first host address, whatever exchanges come before |
| RateLimit.LoginRateLimiter.Check | src/http/rate_limit.rs:16-33 | the address's entry is reset or counted up and decides the answer; other entries stay |
| RateLimit.AddressesAreIndependent | src/http/rate_limit.rs:19 | over any run an address's entry depends on its own attempts only |
| RateLimit.EntryIsWindow | src/http/rate_limit.rs:21-25 | the stored counter is the number of attempts of the current window modulo 2^32, the stored instant its start |
| RateLimit.AdmittedExactly | src/http/rate_limit.rs:26-32 | an attempt is admitted if and only if it is among the first five of its window, modulo 2^32 |
| RateLimit.SpacedExactly | src/http/rate_limit.rs:16-33 | admitted attempts five apart lie in different windows, which begin at least 60 seconds apart, if and only if no window counts 2^32 attempts |
| RateLimit.SlidingBound | src/http/rate_limit.rs:16-33 | at most ten attempts of an address are admitted in any 60 seconds of any run, unless a window counts 2^32 |
| RateLimit.FloodIsAdmittedAgain | src/http/rate_limit.rs:25-26 | of 2^32 + 5 attempts at one instant eleven are admitted |
| RateLimit.RetryAfterIsExact | src/http/rate_limit.rs:26-29 | the advice is always between 1 and 60, and it is the least whole number of seconds after which a retry is admitted if and only if the next attempt would not wrap the counter |
| RateLimit.RetryAdmittedExactly | src/http/rate_limit.rs:16-33 | a retry is admitted if and only if the advised time has passed or it wraps the counter |
| RateLimit.WindowRestartsExactly | src/http/rate_limit.rs:19-25 | an attempt begins a new window exactly if the last one began at least sixty seconds before, to the nanosecond |
| RateLimit.AdviceExactly | src/http/rate_limit.rs:27-29 | the advice is the rest of the sixty seconds, rounded up to whole seconds |
| RateLimit.RejectedInWindow | src/http/rate_limit.rs:21-28 | a rejection happens within the first 60 seconds of a window |
| BirdReply.ReadResponse | src/services/bird_socket.rs:77-144 | the loop over lines returns the records, the error or the panic of reading the text line by line |
| BirdReply.LinesOfJoined | src/services/bird_socket.rs:83-87 | a text of whole lines is split into exactly those lines |
| BirdReply.TrimPrinted | src/services/bird_socket.rs:93 | of a printed line the reader drops the line feed and any carriage returns before it, and nothing of its head |
| BirdReply.ReadsContinued | src/services/bird_socket.rs:118-127 | continuation lines are joined to the record, with a line feed until the first plus sign and without one from then on, or one of them panics |
| BirdReply.ReadsPrinted | src/services/bird_socket.rs:95-142 | reading printed records gives the non-empty texts among them in order, or a panic if and only if a character is cut |
| BirdReply.SeenTextExactly | src/services/bird_socket.rs:93-127 | a record's text survives if and only if none of its lines ends in a carriage return and no new line follows a line continued with a plus sign |
| BirdReply.KeptExactly | src/services/bird_socket.rs:104-107 | all texts come back if and only if each survives and is not empty |
| BirdReply.RoundTripExactly | src/services/bird_socket.rs:77-144 | printing coded records, with both kinds of continuation, and reading them returns the same texts if and only if every record is non-empty, no line ends in a carriage return, no new line follows a plus sign and no character is cut |
| BirdReply.EuroSignPanics | src/services/bird_socket.rs:95 | a continuation line with a three-octet character at its fourth octet makes the reader panic |
| BirdReply.PlusSwallowsLineFeed | src/services/bird_socket.rs:118-127 | a record whose line feed behind a plus sign is lost |
| BirdReply.SplitsAtLineFeed | src/services/bird_socket.rs:83-91 | lines end at line feeds, and the last one may lack it |
| BirdReply.TrimExactly | src/services/bird_socket.rs:93 | of a line exactly the line feeds and carriage returns at its end are dropped |
| BirdReply.ReadsCoded | src/services/bird_socket.rs:95-117 | codes 1xxx and 2xxx open a record, 8xxx and 9xxx are errors with their text, all others end the reply |
| BirdReply.ReadsBareCode | src/services/bird_socket.rs:108-113 | a code without text opens an empty record or ends the reply; of an error it panics |
| BirdReply.ReadsUncoded | src/services/bird_socket.rs:118-136 | an empty line closes the record, a space or plus sign continues it, any other line is a new line of it |
| BirdReply.ReadsCutCharacter | src/services/bird_socket.rs:95-113 | a character across the fourth octet, or the fifth behind a code, panics |
| BirdReply.ReadsEnd | src/services/bird_socket.rs:89-143 | when the stream ends the open record counts |
| BirdReply.ReadsContinuationFirst | src/services/bird_socket.rs:79-124 | a reply that begins with a continuation has a record that begins with a line feed |
| GrpcWebFrame.Call | src/grpc_web.rs:105-163 | the output is one data frame, unless the body is empty, and one trailer frame with the header texts |
| GrpcWebFrame.DecodesExactly | src/grpc_web.rs:133-136 | framed parts are read back if and only if each payload is shorter than 2^32 |
| GrpcWebFrame.ResponseDecodesExactly | src/grpc_web.rs:105-163 | a receiver recovers the parts of every response if and only if body and trailer are shorter than 2^32 |
| GrpcWebFrame.TrailerRoundTrip | src/grpc_web.rs:141-158 | status and message are recovered from the trailer, whatever the headers held |
| GrpcWebFrame.PassedOnExactly | src/grpc_web.rs:114-131 | a body of gRPC frames is passed on unchanged if and only if it is empty or one uncompressed frame |
| GrpcWebFrame.HeaderIsTaken | src/grpc_web.rs:142-151 | a header of tabs and visible ASCII is taken as it is, any other or none gives the default |
| GrpcWebFrame.ResponseOctets | src/grpc_web.rs:105-163 | the whole response in plain octets: flag 0, four length octets and the unwrapped body unless it is empty; flag 128, four length octets and the two trailer lines |
| InterfaceName.SanitizeInterfaceName | src/services/dn42.rs:19-48 | the collapse loop, trimming and truncation give "wg-" and the words of the name joined by single dashes, cut to 15 characters |
| InterfaceName.CollapseJoinsWords | src/services/dn42.rs:25-40 | collapsing dashes and trimming is joining the maximal words by single dashes |
| InterfaceName.CollapsedShape | src/services/dn42.rs:25-38 | the collapsed text is the joined words with at most one dash in front and one behind |
| InterfaceName.JoinIsClean | src/services/dn42.rs:28-38 | joined words have no leading dash and no two adjacent dashes |
| InterfaceName.WordComesFirst | src/services/dn42.rs:23 | a run of letters and digits is one word, unchanged |
| InterfaceName.GapIsSkipped | src/services/dn42.rs:25-40 | other characters in front of a word are skipped, however many |
| InterfaceName.NameFromWords | src/services/dn42.rs:25-42 | words are joined by one dash each |
| InterfaceName.NameIsCut | src/services/dn42.rs:41-47 | the name is "wg-" and the joined words, and its first fifteen characters if it is longer |
| InterfaceName.NamesAreValid | src/services/validation.rs:120-140 | every derived name starts with "wg-", has at most 15 characters from a-z, 0-9 and dash, no two adjacent dashes, and passes the program's own check |
| InterfaceName.AcceptsExactly | src/services/validation.rs:120-140 | the check accepts exactly 1 to 15 letters, digits, dashes and underscores |

## Left out

What the program does and the model does not:

- the web frontend, static files, installation script and build script
- login tokens, password hashing, key generation and the cluster key: cryptography from libraries
- the text of WireGuard and BIRD configuration files; an installed file is the number of its snapshot
- processes and files (`wg`, `wg-quick`, `ip`, `birdc`, `ping`, renames): single steps that may fail
- SQL text, the row order of node listings, timestamps of node rows
- the foreign key of flap events: an insert that it refuses is a failed write, and a delete is told whether it holds
- the OPEN exchange and the keepalive sender
- RFC 4271 error handling: the program sends no NOTIFICATION, so there is none to model
- `std`'s hasher: two unknown functions; the last lemmas assume them injective where they say so
- reading clocks: inputs that do not run backwards, one per change and two per tick
- when ticks happen: the tick timer restarts with every change, so steady traffic postpones ticks indefinitely
- the settings snapshot an apply reads, its status texts and times, the list of managed interfaces
- rebuilding configuration after an exchange (`sync_cluster_wg`, `sync_cluster_bird`), which bypasses the apply lock
- deriving an interface file's path from a peer: a version of the database is the list of the paths it asks for
- a restart of the process between a commit and its apply, which loses the flag
- the exchange with configured peers at start-up, which does not look at the online flag
- `push_peer`, the aggregator's fan-out and its cache, probes, community matching, settings, protobuf conversions
- parsing of configured address ranges and the text form of IPv6 addresses: library code, taken as inputs
- the UTF-8 check of BIRD replies and Unicode lower-casing: library code
- `listen_port_from_asn` and `link_local_from_asn`: one-line arithmetic
- ids from a random generator: fresh numbers
- the cast of a window's length to 32 bits before it is compared and stored
- the interval between `find_by_id` and `update` when an operator edits a node: one step
- interleaving inside one gossip request or one health check tick: each is one step on the table
- a failed write while gossiping or marking nodes, which the program ignores
- HealthCheck.HealthChecker.Tick: does not model the latency probe and the cache invalidation beside the marks
- RateLimit.SlidingBound: needs that no window counts 2^32 attempts, because the bound fails there
