# Litecast in Dafny

Litecast distributes immutable weight blobs from an origin through caching middles to clients.
This project models the algorithms underneath its transports and proves what they promise: where
shards are placed and how a cluster of middles fills, what the bounded checkpoint store keeps and
counts and when a middle's assignment fits in it, how frames, manifests and batched transfers are checked, how a download is put together
from completions in any order, what an origin advertises and can still serve, who holds the lease
on a run, and what a middle's session advertises.

The modules follow the program:

- `Wrappers`, `StableSort`: option and result types, bytes, and the one stable sort that ranks
  members, orders owners and lists versions.
- `Placement`, `Greedy`, `Disruption`, `Cluster`: replica placement over failure domains, what its
  two-phase pick amounts to, its stability when a member leaves, and the streaming cluster as a
  system of interleaved steps.
- `Sharding`, `Merkle`, `Manifest`: shard arithmetic, the Merkle root, the shard manifest.
- `StoreModel`, `CheckpointStore`, `StoreProofs`, `StoreContents`: the store as functions of a
  ledger, the object that updates its fields in place and refines them, its properties over whole
  runs, and what every operation refuses and leaves to read.
- `MiddleStore`: the store behind a middle, and a cluster that runs on such stores.
- `Framing`: the frame codec and the incremental decoder object.
- `Exchange`, `Reassembly`, `Download`: the batched shard exchange; the client's grouping, completion
  loop and final check over its preallocated buffer; and the whole download from them, with the
  client's refusals, owners asked in turn and batches running side by side.
- `VersionNames`, `Distribution`, `Publication`, `OriginServer`, `PublicationProofs`,
  `PublicationRuns`, `PublicationOutcomes`, `Retention`: version names, the distribution file, the
  origin object, its runs, and what each publication leaves.
- `Lease`, `RunPublisher`, `Offering`, `Session`: the expiring publisher record with any number of
  publishers, the publisher object, its publications when they overlap or fail halfway, and the
  middle's session loop.

Objects of the program that update fields are classes here (`CheckpointStore.Store`,
`Framing.FrameDecoder`, `OriginServer.Server`, `RunPublisher.Publisher`, `Session.MiddleSession`);
each method is proved to do what a function of the abstract state says, and the properties are
lemmas about those functions. For each of the main functions one of them says what it does in other
terms: by the tables and URLs given, the bytes on the wire, what a reader then reads, what is
refused and why. Digests are byte strings and `hash` is a parameter: where a
result needs an ideal hash, the lemma asks that the inputs at hand do not collide. Scores of the
rendezvous ranking are opaque integers that do not depend on who else is a member. Network replies,
damage in transit and the interleaving of workers are arbitrary inputs or steps. A lease is over at the
instant its time is up.

Places where the code does less than one might expect, each stated exactly:

- A shard put onto a version that is held as one buffer adds to the store's running byte count for
  good (`StoreProofs.LedgerIsStoredPlusLeaked`, `StoreProofs.LedgerCanExceedCapacity`). The bytes
  really retained stay within the capacity in every run.
- A mirrored publication that displaces an unmirrored version from memory leaves it advertised with
  no copy anywhere (`PublicationProofs.BufferStepExact`, `PublicationRuns.MixedModesBreak`).
- A manifest beyond 16 MiB is refused only after its buffer was stored, which can displace an
  advertised version for good (`PublicationRuns.UnmirroredStaysServable`,
  `PublicationRuns.RefusedManifestLoses`).
- An oversized file with a negative shard size is advertised without its shards
  (`PublicationProofs.FileStepExact`).
- With a limit below one version, version numbers are used again
  (`PublicationRuns.PublicationNumber`).
- Cutting the lease to whole milliseconds can use up all the slack its configuration check
  demands (`Lease.ConfigurationExact`, `Lease.RoundingLosesTheBound`).
- A publisher fenced by a publication keeps its heartbeats and renews the record once the
  replacement's lease has expired (`Lease.FencedWritesAgain`); being fenced does not keep one from
  being started again either. `Lease.WritesAgainExactly` says when a publisher is done unless it is
  started again.
- Of two publications of one publisher that overlap, the later step can join the list first, which
  leaves the steps out of order (`Offering.OrderSurvivesExactly`, `Offering.OverlapBreaksOrder`).
- A publisher lists an adapter only after its origin has broadcast and its registry has registered
  it. In between, and for good if the registration fails, a full list names a version that the
  origin has dropped (`Offering.AllHeldExactly`, `Offering.ListOutlivesMemory`).
- A middle tries a shard again when its store refuses it, but a refusal for want of room is final
  (`MiddleStore.AllAssignedHeldExactly`, `MiddleStore.RefusedForGood`).
- An adapter whose bytes are published again under a new version is withdrawn for a round when its
  old version leaves the middle's store, although the new version is there
  (`Session.RepublishedIsWithdrawn`, `Session.RepublicationGap`).
- A session never reports ready while a descriptor lists the same bytes twice
  (`Session.RepeatedIsNeverReady`, `Session.RepeatedAdapterSession`).
- An odd Merkle level duplicates its last node, so a list of odd length above one and the same list
  with its last element repeated share a root (`Merkle.OddListExtends`).

## Model

| member | source | states |
|---|---|---|
| StableSort.SortFilter | litecast/streaming.py:263-269 | ranking commutes with dropping members: the order of the rest never depends on who left, and equal keys keep their order |
| Placement.CanonicalMembersSound | litecast/streaming.py:238-242 | an accepted membership is non-empty, without duplicates or empty names, trailing slashes stripped |
| Placement.CanonicalMembersIdempotent | litecast/streaming.py:238-242 | canonicalising an accepted membership again returns it unchanged |
| Placement.CanonicalMemberProfiles | litecast/streaming.py:289-326 | the profile loop yields one validated profile for each member in order, or the refusal of the first bad table |
| Placement.MembershipExactly | litecast/streaming.py:238-242 | a list of URLs is a membership exactly if there are some, none is empty and no two are equal, trailing slashes aside |
| Placement.ProfilesExactly | litecast/streaming.py:289-326 | a table is accepted exactly if it names members only and describes each with positive bandwidth and capacity and no negative load, defaults one, one and zero; the profiles are the described ones, the URL being the default failure domain |
| Placement.ShardOwners | litecast/streaming.py:245-286 | the placement call with all its refusals equals the reference placement |
| Placement.PlacementRefuses | litecast/streaming.py:253-262 | the call refuses exactly a bad membership, a factor below one, or a table that is not accepted, in this order |
| Placement.TablePlacement | litecast/streaming.py:245-286 | by the tables as supplied: min(replication factor, members) distinct members, led by one of the best own score, and no choice of as many reaches more of the given failure domains |
| Placement.RankAndPick | litecast/streaming.py:263-286 | ranking and picking yields the first count members of each domain's best followed by the rest |
| Placement.PickOwners | litecast/streaming.py:270-280 | the first pass takes new failure domains in rank order and stops at the count |
| Placement.FillOwners | litecast/streaming.py:281-286 | the second pass fills up with the best members not yet picked |
| Placement.OwnersShape | litecast/streaming.py:258-286 | exactly min(replication factor, members) owners, distinct, all of them members |
| Placement.TopRankedLeads | litecast/streaming.py:258-286 | the first owner has the top score |
| Placement.OwnersClassCount | litecast/streaming.py:270-286 | owners reach min(count, number of failure classes) classes, an empty domain being its own class |
| Placement.OwnersSpreadOverDomains | litecast/streaming.py:245-286 | the owners are led by the top member and no choice of as many members reaches more failure classes |
| Greedy.OwnersAreGreedy | litecast/streaming.py:263-286 | each owner in turn is the best of the members left: a failure class not yet represented first, then the score, then the membership's order |
| Greedy.PlacementIsGreedy | litecast/streaming.py:245-286 | the same for the whole call, by the URLs, tables and scores it is given |
| Disruption.MinimalDisruption | litecast/streaming.py:258-286 | removing any member keeps every other owner, adds at most one, and changes nothing if it owned nothing |
| Disruption.RemovingAMiddle | litecast/streaming.py:245-286 | the same for the placement call when a URL leaves with its profile |
| Disruption.LocalOwnersFirst | litecast/streaming.py:329-346 | asking order is local owners, then the others, both in owner order, nobody lost or added |
| Cluster.PlacementFits | litecast/middle_node.py:523-530 | a placement over an agreed membership gives every shard min(replication factor, members) distinct owners |
| Cluster.PlacedByOwnScores | litecast/middle_node.py:523-530 | each shard's owners are picked by the scores of that shard |
| Cluster.Assign | litecast/middle_node.py:521-537 | a middle's primary and replica lists, in shard order with their sources |
| Cluster.AssignmentsAre | litecast/middle_node.py:531-536 | primaries are fetched from the origin and replicas from the first owner |
| Cluster.TasksAre | litecast/middle_node.py:523-536 | a middle's tasks in a role are exactly the shards it has that role for, each once |
| Cluster.StepKeepsInv | litecast/middle_node.py:408-484 | every worker step keeps: held shards are published ones, missing tasks are waiting or running, the origin counts agree |
| Cluster.StepWork | litecast/middle_node.py:443-484 | a start or a verified answer takes one unit off the remaining work, a rejected answer changes nothing |
| Cluster.NeverStuck | litecast/middle_node.py:544-563 | with separate primary and replica pools some productive step exists until every placed shard is held |
| Cluster.EveryRunIsSafe | litecast/middle_node.py:408-563 | in any interleaving held shards are the manifest's at placed middles, the origin serves none twice, productive steps are bounded |
| Cluster.ReplicasFollowPrimaries | litecast/middle_node.py:408-484 | in every run whoever holds a shard, its first owner holds it too: replicas are relayed and never come before the primary copy |
| Cluster.EveryRunFills | litecast/middle_node.py:486-563 | a run that can make no progress has every copy in place, shards times owners of them, each shard served once by the origin |
| Sharding.CeilDivLeast | litecast/utils.py:187-197 | the shard count is the least number of shards of that size that covers the file |
| Sharding.ShardSpan | litecast/streaming.py:33-36 | every shard is a non-empty span inside the buffer of the manifest's length for it |
| Sharding.JoinShards | litecast/streaming.py:199-205 | the shards of a buffer concatenate to it |
| Sharding.InferredSizeReproduces | litecast/middle_node.py:379-389 | a middle's inferred shard size reproduces an honest shard count and is no larger than the publisher's |
| Sharding.CountCheckExact | litecast/middle_node.py:379-389 | the count check passes exactly for counts that some shard size produces |
| Merkle.MerkleRoot | litecast/streaming.py:216-235 | the level loop terminates and computes the recursive root |
| Merkle.RootIsTopNode | litecast/streaming.py:216-235 | the root is the top node of the tree defined from the top: a node is the tagged pair of the two below it, the right one repeated from the left where its level ends |
| Merkle.RootBinds | litecast/streaming.py:216-235 | equally long digest lists with equal roots are equal unless hashed nodes collide |
| Merkle.OddListExtends | litecast/streaming.py:226-228 | duplicating the last element of an odd list of more than one keeps the root |
| Manifest.ManifestRoundTrip | litecast/streaming.py:38-186 | a consistent manifest of either schema is read back as written if its document is within 16 MiB, and refused otherwise |
| Manifest.AcceptedIsConsistent | litecast/streaming.py:100-186 | what is accepted, of either schema, is consistent in counts, digests, members, profiles and root, and writes back to its fields |
| Manifest.AcceptedExactly | litecast/streaming.py:100-186 | a document is accepted as a manifest exactly if it is within the limit, written like that consistent manifest, and its profile table names and describes that manifest's members |
| Manifest.BuiltExactly | litecast/streaming.py:189-213 | a manifest is built exactly for a name and a positive shard size; its digests are those of the buffer's pieces in order, which cover it, and it names no middles |
| Manifest.BuiltManifestAccepted | litecast/streaming.py:91-213 | a built manifest is consistent, and is written and read back exactly if its name and numbers fit |
| Manifest.BuiltSizeIs | litecast/streaming.py:91-97 | the size of a built manifest in bytes, from its name and numbers |
| Manifest.ManyShardsDoNotFit | litecast/streaming.py:91-97 | 67 bytes for each shard are too many from about a quarter of a million shards on |
| Manifest.AcceptedFixesShards | litecast/streaming.py:143-148 | an accepted manifest with the built one's root and sizes has its shard digests |
| CheckpointStore.Store.constructor | litecast/store.py:60-70 | a new store is empty |
| CheckpointStore.Store.Put | litecast/store.py:89-131 | put with its refusals does exactly what the ledger function says |
| CheckpointStore.Store.PutVerified | litecast/store.py:133-172 | the same without rehashing |
| CheckpointStore.Store.Insert | litecast/store.py:174-195 | replaces the name, evicts oldest first until the buffer fits, appends |
| CheckpointStore.Store.EvictFromFront | litecast/store.py:188-190 | the eviction loop drops exactly the counted number of oldest versions |
| CheckpointStore.Store.BeginVersion | litecast/store.py:197-223 | begin_version with its mismatch errors and late checksums |
| CheckpointStore.Store.PutShard | litecast/store.py:243-284 | shard checks, eviction of older versions only, accounting, and the state left by a refusal |
| CheckpointStore.Store.IsComplete | litecast/store.py:304-310 | complete means a buffer or as many shards as the count |
| CheckpointStore.Store.GetShardWithChecksum | litecast/store.py:327-382 | reads of either representation with their errors |
| CheckpointStore.Store.Remove | litecast/store.py:384-391 | removal pays back what the version counted |
| CheckpointStore.Store.Clear | litecast/store.py:402-406 | clearing empties the store |
| StoreProofs.StepSound | litecast/store.py:89-406 | one operation keeps the store sound and moves the ledger's surplus by its leak alone |
| StoreProofs.EveryRunIsSound | litecast/store.py:45-49 | over every run retained bytes exceed neither the capacity nor the ledger |
| StoreProofs.LedgerIsStoredPlusLeaked | litecast/store.py:272-284 | the ledger is stored bytes plus leaked ones, and is exact if and only if nothing leaked since the last clear |
| StoreProofs.InProgressRunsAreExact | litecast/store.py:272-284 | runs that put shards on in-progress versions only leak nothing |
| StoreProofs.LedgerCanExceedCapacity | litecast/store.py:272-284 | put, put_shard, remove and put from an empty store leave a count half as large again as the capacity |
| StoreProofs.PutKeepsNewestThatFit | litecast/store.py:184-195 | after put the survivors are the longest newest run that fits, then the new version |
| StoreProofs.ShardEvictsOldestOnly | litecast/store.py:272-284 | a shard evicts the shortest sufficient run of versions older than its own and is refused exactly if that cannot make room |
| StoreProofs.RunsFillFaithfully | litecast/store.py:243-284 | honest operations in any order, with repeats, leave only the published shards |
| StoreProofs.CompleteMeansEveryShard | litecast/store.py:304-310 | counting shards is exact: complete if and only if every index is present |
| StoreProofs.AssembledReadsLikeWhole | litecast/store.py:327-382 | an assembled version answers every read like the same version stored whole, and its shards join to the data |
| StoreProofs.RunsReadLikeWhole | litecast/store.py:243-382 | after any honest run that makes a version complete, every read is answered as by a store that was given the whole buffer |
| StoreContents.WholeOutcome | litecast/store.py:89-172 | which puts are refused, in which order and with which error, and that a refusal changes nothing |
| StoreContents.WholeThenRead | litecast/store.py:89-195 | after a put the version is complete and every shard reads as its span of the data, with the digest given for it or its own |
| StoreContents.BeginOutcome | litecast/store.py:197-223 | a version is begun exactly if its arguments are good and it is not held with other metadata or digests |
| StoreContents.BeginThenRead | litecast/store.py:197-223 | a version begun anew has nothing to read; one that was held reads as before, with the digests now recorded |
| StoreContents.ShardRefused | litecast/store.py:243-271 | a shard is refused exactly for an unknown version, an index outside it, a wrong length or a wrong digest, and nothing changes |
| StoreContents.ShardThenRead | litecast/store.py:271-284 | after a shard is taken it reads as its bytes and every other one as before |
| StoreContents.GoneAfterwards | litecast/store.py:384-406 | what was removed or cleared cannot be read |
| StoreContents.OthersReadAsBefore | litecast/store.py:89-406 | whatever an operation leaves of other versions reads as before |
| MiddleStore.PutOutcome | litecast/store.py:272-284 | a shard that passes its checks is refused exactly if its version with it and what cannot be evicted exceed the capacity, and eviction never changes what that is |
| MiddleStore.FixedIsNewer | litecast/store.py:273-281 | in a store whose count is exact, what cannot be evicted is the newer versions |
| MiddleStore.AllAssignedHeldExactly | litecast/middle_node.py:449-470 | once good bytes have come for every assigned shard, in any order, with repeats and bad bytes among them, the store holds all of them exactly if there was room for all next to the newer versions |
| MiddleStore.RefusedForGood | litecast/middle_node.py:455-483 | a shard refused for want of room stays missing and refused, however often it is tried again and whatever else arrives |
| MiddleStore.StoresFollow | litecast/middle_node.py:408-484 | in every run of a cluster, a middle's store with room for its assignment holds at every moment what the middle is modelled to hold, and refuses exactly the answers that do not verify |
| MiddleStore.StoresFill | litecast/middle_node.py:486-563 | when a run can make no more progress such a store holds exactly the shards placed on its middle, as published |
| Framing.HeaderRoundTrip | litecast/protocol.py:91-110 | an encoded header decodes to its fields |
| Framing.FrameRoundTrip | litecast/protocol.py:68-128 | an encoded valid frame decodes unchanged, and no proper prefix or extension of it decodes |
| Framing.WrittenExactly | litecast/protocol.py:68-110 | a frame is written exactly if its size, flags and version are in range, as magic, version, code, flags and size in network byte order, and payload |
| Framing.DecodedExactly | litecast/protocol.py:91-128 | bytes decode to a frame exactly if they are that frame on the wire in version one, within the limit, with a payload its type allows |
| Framing.FrontExactly | litecast/protocol.py:143-159 | the decoder takes a frame exactly where one decodes, waits exactly while a readable header announces more, and drops a bad payload with its header |
| Framing.ParseInTwo | litecast/protocol.py:143-159 | parsing a stream in two parts, keeping the leftover, is parsing it whole |
| Framing.ChunkingIrrelevant | litecast/protocol.py:143-159 | any split into feeds yields the frames, leftover or failure of a single feed |
| Framing.LeftoverBounded | litecast/protocol.py:143-159 | after a normal return the leftover is shorter than a header and the maximum payload |
| Framing.KeptIsLeftover | litecast/protocol.py:143-159 | what the decoder keeps is the unparsed rest |
| Framing.FrameDecoder.constructor | litecast/protocol.py:131-141 | a new decoder holds nothing |
| Framing.FrameDecoder.Feed | litecast/protocol.py:143-159 | the feed loop yields the parse of the held bytes and the new ones |
| Framing.DecodeFrames | litecast/protocol.py:400-408 | a whole buffer decodes to the frames parsed from it, or is rejected if bytes are left over |
| Framing.StreamRoundTrip | litecast/protocol.py:400-435 | a concatenation of encoded valid frames parses to exactly that list |
| Framing.ChunkRoundTrip | litecast/protocol.py:364-378 | an encoded chunk decodes to its index and bytes |
| Exchange.CheckItems | litecast/transport/ucxx.py:511-529 | the loop over announced shards accepts exactly the well-formed lists of requested, unrepeated, rightly sized ones |
| Exchange.ReadControl | litecast/transport/ucxx.py:494-544 | the control reply with all its rejections |
| Exchange.ReplyReadExactly | litecast/transport/ucxx.py:501-544 | a reply is read exactly if it has its three fields, announces distinct requested shards of the targets' sizes, and lists all the others once as plain integers |
| Exchange.ControlExactly | litecast/transport/ucxx.py:486-544 | which requests are not sent, and the error for each kind of reply |
| Exchange.ReceivedExactly | litecast/transport/ucxx.py:545-558 | reception succeeds exactly if each announced shard's own message arrives with its size and both digests, empty shards taking none |
| Exchange.HexIsExact | litecast/transport/ucxx.py:550 | digests are written as two lower-case digits a byte, the high one first |
| Exchange.ReceiveAll | litecast/transport/ucxx.py:545-558 | the receive loop fills each target in place and stops at the first mismatch |
| Exchange.ExchangeShards | litecast/transport/ucxx.py:486-559 | the whole client side does what the outcome function says, targets included |
| Exchange.BrokenReason | litecast/transport/ucxx.py:545-558 | a reception that fails says why the first shard that did not arrive did not: no message of its size, or bytes that are not the announced and expected ones |
| Exchange.EveryIndexAccountedFor | litecast/transport/ucxx.py:530-559 | against any reply a successful exchange accounts for every index once, and completed targets have their digests |
| Exchange.ServeShards | litecast/transport/ucxx.py:863-899 | the server's lists and bulk messages |
| Exchange.AnnouncesWhatIsStored | litecast/transport/ucxx.py:863-891 | announced are, in request order, exactly the shards the store can read, each with its stored bytes and reported digest; the others are unavailable, in order |
| Exchange.ServerSplits | litecast/transport/ucxx.py:863-899 | the server's two lists split the request without repeating or losing an index |
| Exchange.Lockstep | litecast/transport/ucxx.py:545-559 | when a client expects what the store would read, every readable requested shard is completed with its stored bytes, the others are unavailable, and the messages sent are exactly those received |
| Reassembly.GroupByFirstOwner | litecast/client_node.py:476-488 | grouping gives each first owner one group and partitions the selected shards |
| Reassembly.MakeBatches | litecast/client_node.py:489-503 | slicing keeps every shard once, in batches of at most the batch size |
| Download.AskOwner | litecast/client_node.py:367-414 | one owner is asked over RDMA if it can be and then over HTTP, writes to the target in that order, and delivers only what has the digest |
| Download.ReceiveShard | litecast/client_node.py:351-419 | the owners are asked in turn, round after round, up to the first that delivers; it succeeds exactly if one does before the deadline |
| Download.ReceiveEach | litecast/client_node.py:431-461 | single receipts succeed exactly if every shard can be had, and leave all their targets holding verified shards |
| Download.TryExchange | litecast/client_node.py:439-449 | the exchange's completed targets hold its verified shards and its unavailable ones are left; after a failure everything is to be received again |
| Download.ReceiveBatch | litecast/client_node.py:421-462 | a batch returns exactly if each of its shards is exchanged or can be had from an owner, each index once, its targets holding verified shards also when a failed exchange had them rewritten |
| Download.EveryInterleaving | litecast/client_node.py:489-505 | whatever turns the batches take, what comes of it is something the event loop admits, and exactly the batches that end well return |
| Download.Interleave | litecast/client_node.py:489-505 | the batches run as any schedule says, and then each to its end |
| Download.RunDownload | litecast/client_node.py:332-542 | the transfer: it succeeds exactly if all shards were received and the final check passes; then every span has the right digest and was visited in order once; and all are received when each can be had from some owner |
| Download.Fetch | litecast/client_node.py:332-542 | the transfer into a new buffer, with its two ways to fail |
| Download.PlacementAccepts | litecast/client_node.py:341-360 | an accepted manifest and the client's servers never make the placement refuse |
| Download.MembershipExact | litecast/client_node.py:325-342 | a manifest is for the client exactly if its servers are a membership and, where it names members, these and the factor are its own |
| Download.AskingOrder | litecast/client_node.py:353-361 | the client asks each of the placed owners once, those the manifest puts in its own locality first, both kinds in the order of placement |
| Download.DownloadStreaming | litecast/client_node.py:320-542 | the client's download: nothing beyond its size limit, a refusal for another membership; a success has passed every check; and when each shard is handed over in time by one of its placed owners it succeeds, but for the whole-buffer checksum of a manifest without a root |
| Download.DownloadIsPublished | litecast/client_node.py:320-542 | a successful download under an accepted manifest with the published root and sizes is the published buffer unless hashed inputs collide |
| Reassembly.WriteSpan | litecast/client_node.py:332-339 | a target is its shard's span of the shared buffer |
| Reassembly.AdvanceFrontier | litecast/client_node.py:506-512 | the frontier loop takes every consecutive ready shard to the digest and stops at the first missing one |
| Reassembly.AllReturned | litecast/client_node.py:504-512 | once every batch is back the frontier has visited all shards in order, each once |
| Reassembly.Assemble | litecast/client_node.py:504-542 | for every completion order, and targets rewritten until their batch returns, the download succeeds exactly if all batches return and the final check passes |
| Reassembly.AssembledIsPublished | litecast/client_node.py:529-542 | a successful download is the published buffer unless shards collide |
| Reassembly.OverlapCheckExact | litecast/client_node.py:311-313 | comparing neighbours in address order finds every overlap |
| VersionNames.NameRoundTrip | litecast/origin_server.py:136-146 | a version's name gives back its number |
| VersionNames.NumberExactly | litecast/origin_server.py:137-145 | a name counts as a version exactly if it is the prefix followed by a decimal number, leading zeros allowed |
| VersionNames.NextIsFresh | litecast/origin_server.py:136-146 | the name after the largest number is not among the known names |
| Distribution.UpdateDistribution | litecast/utils.py:120-164 | deleting the excess one by one and sorting yields the rest of the sorted table and the removed names |
| Distribution.RemoveVersions | litecast/utils.py:167-184 | removal leaves the other entries, sorted, and an empty request rewrites nothing |
| Distribution.UpdatePartitions | litecast/utils.py:139-162 | kept and removed versions partition the old ones and the new one, no removed one is newer than a kept one |
| Distribution.NewestKept | litecast/utils.py:139-162 | a version newer than all others is kept exactly if the limit admits one |
| OriginServer.Server.constructor | litecast/origin_server.py:55-76 | a new origin advertises nothing |
| OriginServer.Server.NextVersion | litecast/origin_server.py:136-146 | the next name over memory, file and disk |
| OriginServer.Server.ShardFiles | litecast/origin_server.py:188-191 | a mirror writes the shards read back from the store, which are the buffer's |
| OriginServer.Server.BroadcastBuffer | litecast/origin_server.py:153-219 | a buffer publication does what the state function says to memory, disk and file |
| OriginServer.Server.BroadcastUnlocked | litecast/origin_server.py:161-219 | the same without the default for mirroring: name, manifest, store, evictions, then the write-out with its refusal |
| OriginServer.Server.WriteOut | litecast/origin_server.py:182-187 | the manifest is written after the store was changed, and one beyond the limit stops the publication there |
| OriginServer.Server.Release | litecast/origin_server.py:188-207 | mirrors the stored shards if asked to and announces the version |
| OriginServer.Server.Advertise | litecast/origin_server.py:182-207 | folder and file are written, then evicted versions are withdrawn and those beyond the limit removed |
| OriginServer.Server.BroadcastLarge | litecast/origin_server.py:249-274 | an oversized file is cut up on disk only, with the empty folder a zero shard size leaves |
| OriginServer.Server.Broadcast | litecast/origin_server.py:221-274 | a file publication, small or oversized, with its errors |
| OriginServer.Server.Discard | litecast/origin_server.py:203-207 | versions beyond the limit leave memory and disk |
| OriginServer.CutFile | litecast/origin_server.py:254-260 | the writing loop cuts a file into its shards, also for negative shard sizes |
| PublicationProofs.BufferStepExact | litecast/origin_server.py:161-219 | whatever its outcome, publishing a buffer keeps everything servable exactly unless a refused manifest or a mirrored publication displaces a version that stays advertised without a copy on disk, a condition on the state before the call |
| PublicationProofs.FileStepExact | litecast/origin_server.py:249-274 | an oversized file keeps everything servable exactly if it is cut whole or not advertised |
| PublicationProofs.NegativeCount | litecast/utils.py:187-197 | a negative shard size counts one shard for a single byte and none for more |
| PublicationRuns.PublicationNumber | litecast/origin_server.py:136-146 | a publication takes the next number and uses it up exactly if the limit admits a version |
| PublicationRuns.FailureKeeps | litecast/origin_server.py:161-261 | a failed publication leaves the distribution file alone, and the memory too unless its manifest was refused; then exactly the storing of the buffer and an empty folder remain |
| PublicationRuns.NumbersRise | litecast/origin_server.py:136-146 | over every run version numbers strictly increase |
| PublicationRuns.NewestIsAdvertised | litecast/utils.py:120-164 | over every run the last published version is advertised as the newest |
| PublicationRuns.MirroredStaysServable | litecast/origin_server.py:161-274 | in every run that mirrors all buffers whatever is advertised is fully on disk, failed publications included |
| PublicationRuns.UnmirroredStaysServable | litecast/origin_server.py:161-274 | a run that mirrors no buffer stays servable at all times exactly while no refused manifest displaces an advertised version without a copy on disk |
| PublicationRuns.RefusedManifestLoses | litecast/origin_server.py:170-187 | a buffer in 300000 one-byte shards is refused after it has displaced the advertised version, which is then in neither memory nor disk |
| PublicationRuns.MixedModesBreak | litecast/origin_server.py:196-202 | two buffers that fill the memory, only the second mirrored, leave the first advertised and lost |
| PublicationOutcomes.NextNameExactly | litecast/origin_server.py:136-146 | the next name has the number after the largest in memory, in the file or on disk |
| PublicationOutcomes.BufferOutcome | litecast/origin_server.py:161-219 | which buffers are refused, in which order and with which error, and that the first two refusals change nothing |
| PublicationOutcomes.BufferPublished | litecast/origin_server.py:161-219 | a published buffer is listed with its checksum and shard count, whole in memory, and on disk shard by shard if mirrored; with a limit below one nothing of it is left |
| PublicationOutcomes.FileOutcome | litecast/origin_server.py:221-253 | a missing file, one that fits in memory, a zero shard size and a large file each end as they should |
| PublicationOutcomes.LargeFilePublished | litecast/origin_server.py:249-274 | a file beyond the memory is listed and on disk shard by shard, and nothing new is in memory |
| Retention.LastOnesStayPublished | litecast/registry/distribution.py:43-49 | an origin sized for the retained versions lists exactly the last ones and holds each in memory, for payloads whose manifests can be written |
| Lease.NoLeaseIsStolen | litecast/registry/distribution.py:82-96 | in every interleaving no write replaces another owner's unexpired record |
| Lease.HolderIsShown | litecast/registry/distribution.py:82-96 | a publisher whose own write has not run out is the one shown, so at most one holds the lease |
| Lease.RefreshShowsList | litecast/registry/distribution.py:70-96 | a refresh puts the publisher's own list into the record for the length of its lease unless another's record is live, and no other step touches the record |
| Lease.ListIsCommitted | litecast/registry/distribution.py:163-164 | a publisher's list is the last ones it added, as many as it retains |
| Lease.RecordListsLastWrite | litecast/registry/distribution.py:70-96 | over every run the record is from the last refresh that no live record of another stood against, and lists the last ones its publisher had added until then |
| Lease.FencedExactly | litecast/registry/distribution.py:82-96 | over every run a publisher is fenced exactly if one of its refreshes saw another's live record |
| Lease.ClaimsExactly | litecast/registry/distribution.py:62-68 | a publisher is about to claim the run exactly if its start-up found no live record and it has not tried since |
| Lease.BeatsExactly | litecast/registry/distribution.py:110-118 | heartbeats go on exactly if the publisher was started and none of them has raised since with a refusal at hand |
| Lease.FlightsExactly | litecast/registry/distribution.py:120-166 | publications in flight are those begun and neither ended nor given up, a refresh that fails short of a refusal ends none, and one begins only while no refresh was refused |
| Lease.AttemptNoted | litecast/registry/distribution.py:110-118 | a heartbeat counts as missed exactly if no script of it wrote, and only start-ups and heartbeats count as attempts |
| Lease.PunctualKeepsLease | litecast/registry/distribution.py:110-118 | a lease over two intervals survives any heartbeats that miss at most one in a row |
| Lease.ShortLeaseLapses | litecast/registry/distribution.py:110-118 | with a shorter lease one missed heartbeat loses it |
| Lease.ConfigurationExact | litecast/registry/config.py:32-33 | a valid configuration survives one missed heartbeat in every run exactly if the whole milliseconds of its lease exceed two intervals |
| Lease.RoundingLosesTheBound | litecast/registry/distribution.py:92 | a valid configuration whose lease lapses after one miss because the script is given whole milliseconds |
| Lease.WritesAgainExactly | litecast/registry/distribution.py:62-166 | from any state a publisher writes in some continuation without being started again exactly unless it is fenced, neither beating nor starting up, and has no publication in flight; if it may be started again it always does in some |
| Lease.FencedWritesAgain | litecast/registry/distribution.py:110-131 | a publisher fenced by a publication renews the record later by its heartbeat |
| RunPublisher.KeptIsLastTaken | litecast/registry/distribution.py:134-165 | of publications made one after the other steps increase, and cutting the list to the retained number never changes which are taken |
| RunPublisher.DecisionExact | litecast/registry/distribution.py:134-138 | a publication is taken exactly if its step is beyond every listed one, and answered with an earlier one exactly if that is the newest and has its step and bytes |
| RunPublisher.Registry.Eval | litecast/registry/distribution.py:84-93 | the script writes the caller's list for the length of its lease exactly if no other's record is live, and else changes nothing |
| RunPublisher.Publisher.constructor | litecast/registry/distribution.py:37-60 | a new publisher has published nothing |
| RunPublisher.Publisher.Start | litecast/registry/distribution.py:62-68 | starting never overwrites a live record |
| RunPublisher.Publisher.Refresh | litecast/registry/distribution.py:70-108 | a refresh that reaches the registry puts the current list into the record unless another's is live, which fences; it drops exactly the sources no longer stored, and can fail before the script, after it without a reply, or between registration calls |
| RunPublisher.Publisher.Beat | litecast/registry/distribution.py:110-118 | a refresh that raises stops the heartbeats only if the publisher is fenced |
| RunPublisher.Publisher.RetryRefresh | litecast/registry/distribution.py:120-127 | the refresh is tried until it succeeds, is refused or time is up, and each try may have written |
| RunPublisher.Publisher.Publish | litecast/registry/distribution.py:129-166 | publishing with its fencing check, the repeat of the last step, a registration that can fail and leaves all as it was, the retried refresh, and the list whatever comes of it |
| Offering.CallAsSteps | litecast/registry/distribution.py:134-165 | a call that meets no other adds its adapter to the list as the publisher's method does, or leaves the list alone when the registration fails |
| Offering.OrderSurvivesExactly | litecast/registry/distribution.py:134-164 | however calls overlap and fail, the listed steps increase at all times exactly if no call joins behind one with a later or the same step, or only one is retained |
| Offering.SerialKeepsOrder | litecast/registry/distribution.py:134-164 | calls made one after the other keep the order |
| Offering.OverlapBreaksOrder | litecast/registry/distribution.py:134-164 | two overlapping calls leave the steps 2, 1, and the adapter of step 2, still listed, would be taken again |
| Offering.ListedIsHeldExactly | litecast/registry/distribution.py:43-50 | however calls overlap and fail, the origin holds a listed adapter exactly if its broadcast is among the last ones, as many as are retained, and then with bytes of its digest |
| Offering.AllHeldExactly | litecast/registry/distribution.py:139-164 | of calls made one after the other, at every moment, the origin holds all that is listed exactly if the listed ones, the broadcasts lost since the oldest of them and the one not yet registered are at most as many as are retained |
| Offering.FailedRegistrationLoses | litecast/registry/distribution.py:146-164 | from any full list at rest, one more call whose registration fails leaves a listed adapter the origin has dropped |
| Offering.ListOutlivesMemory | litecast/registry/distribution.py:146-164 | for every number retained, a run of successful calls the origin holds all of, and the failed registration after which it does not |
| Session.MiddleSession.constructor | litecast/registry/middle.py:23-33 | a new session has no owner, cache or registrations |
| Session.MiddleSession.Turn | litecast/registry/middle.py:35-117 | one turn of the loop; a failure ends the session and withdraws everything |
| Session.MiddleSession.Advance | litecast/registry/middle.py:54-107 | the loop over publications up to the first failure |
| Session.MiddleSession.Withdraw | litecast/registry/middle.py:108-115 | only wanted registrations remain whose recorded version is in the store |
| Session.RoundAdvertises | litecast/registry/middle.py:35-115 | exactly which adapters a completed round leaves advertised, and under which version |
| Session.RoundFailsExactly | litecast/registry/middle.py:35-91 | a round fails exactly for an unknown schema, a publisher other than the cache's, a publication of another run or beyond the limit, or a cached one not yet advertised whose download is not what was announced; the first of these is reported |
| Session.RoundStartsCache | litecast/registry/middle.py:50-75 | a completed round takes over the publisher and has started the cache exactly if it was started or an origin offers some publication, cached or not |
| Session.RepublishedIsWithdrawn | litecast/registry/middle.py:76-113 | with the new version of its bytes cached, verified and stored, an adapter advertised before stays advertised exactly if its recorded version is still stored, and otherwise comes back under the new version in the next such round |
| Session.RepublicationGap | litecast/registry/middle.py:76-113 | for every adapter that can be advertised at all, a session of three rounds that advertises it in the first and the third and not in the second |
| Session.AdvertisedIsVerified | litecast/registry/middle.py:69-113 | whatever is advertised was verified against its digest, is wanted, and its recorded version is stored |
| Session.OnePublisherPerCache | litecast/registry/middle.py:47-50 | once the cache exists every later descriptor has the same owner |
| Session.ChangeRefusedExactly | litecast/registry/middle.py:47-50 | a change of publisher is refused exactly if the cache exists |
| Session.ReadyMeansAll | litecast/registry/middle.py:116-117 | ready is reported exactly if every publication is advertised and no digest repeats |
| Session.RepeatedIsNeverReady | litecast/registry/middle.py:35-117 | a completed round whose descriptor lists a digest twice is never reported ready |
| Session.RepeatedAdapterSession | litecast/registry/middle.py:35-117 | a session that advertises all its descriptor lists, the same bytes twice, and is not reported ready |

## Left out

- HTTP, sockets, UCXX endpoints, event loops and threads: their effects are arbitrary replies or atomic steps.
- Deadlines, backoff and retry counts: retrying is a free choice of steps; only the lease has a clock.
- BLAKE3, SHA-256, JSON and UTF-8: a hash parameter, parsed values, and an opaque predicate on message payloads.
- Hexadecimal text of digests: a digest is the bytes it denotes, so letter case and Python's looser number syntax are not modelled, except that the batched exchange insists on 64 lower-case digits.
- Weighted rendezvous scores: the logarithms and averages are an opaque key for each member and shard.
- In-place change and aliasing of a stored version's shard table, zero-copy buffer ownership and memory views: a version is a value inside the store's list.
- Locks of the store and the origin: their methods are atomic.
- Deadlines of single receipts: the number of rounds before each is an input.
- The text of floating-point numbers in manifests: the size of a profile table that is not empty is a parameter; all other bytes of a manifest are counted.
- Starting a publisher again while it is running: only one that has not started or has stopped is started.
- The version prefix set by the environment (litecast/envs.py:54): it is the default, the letter v.
- VersionNames.NumberExactly: the decimal digits are the ten of ASCII; those of other scripts, which Python's pattern also matches, are not modelled.
- What a middle's store does while a version is streamed besides taking its shards: the stores of `MiddleStore.StoresFollow` change by puts alone, each of which hashes what it is given.
- The fallbacks of a client after a streaming download: the single-version UCXX transfer and plain HTTP.
- Downloads of selected shards share the grouping and batch members; their loop without a frontier is not modelled separately.
- The text of the distribution file: entries are values and their text form is not modelled.
- Restarting an origin over an existing distribution file: a run starts with nothing advertised, over any folders.
- Foreign entries in the distribution file whose names are not version names.
- The directory of a middle's own mirrored shards and its use of the distribution file.
- The filesystem registry branch of the publisher's refresh, which has no fencing.
- Server registrations of a publisher's sources beyond the table of digests and versions.
- Overlapping calls as method calls: `RunPublisher` runs one at a time; in `Lease` and `Offering` they interleave as steps.
- The supervisor that starts and stops a session for each subscribed run, and the session's logging.
- Version metadata of the single-version UCXX transfer, endpoints, configuration, environment and adapter bundle formats: field checks and short round trips.
- Metrics, measurements, event logs, command lines, benchmarks and plots.
