# A verified model of rados-rs

This project models, in Dafny 4.11, the deterministic core of a Ceph RADOS client written in Rust: the
code that decides where an object lives, how a cluster map changes, what a sealed CephX message looks
like, how a pool is listed, and how concurrent calls share one client. It proves properties of that model
for every input, every run or every reachable state. `dafny verify dfyconfig.toml` checks all of it.

| module | what it models |
|---|---|
| `CrushMap` | the CRUSH bucket graph and the memoised depth-first search that admits it |
| `Straw2`, `Shuffle` | the two ways to draw an item of a bucket: the weighted draw, and the lazily cached Fisher-Yates shuffle |
| `FirstN`, `Indep` | what the two retrying descents choose, and what is true of every choice |
| `DrawOrder` | which of a replica's or a shard's numbered draws decides it |
| `CrushPlace`, `CrushRule` | the loops themselves, on arrays, and rule admission, interpretation and placement around them |
| `StableMod`, `ObjectPlacement` | from an object's hash to its placement group and on to its up and acting sets |
| `PlacementDetail` | those sets, their primaries and the overrides slot by slot |
| `OsdMap`, `Incremental`, `CrushCache` | the cluster map, incremental updates to it, and the decode cache its clones share |
| `IncrementalDetail` | what an update makes of each field, each OSD and each pool |
| `RenameOrder` | in which iteration orders of a hash table the renames of an update are accepted |
| `Cts`, `CtsBlocks` | ciphertext stealing (CBC-CS3, section 5 of RFC 8009), its ciphertext block by block, and the sealed envelope around it |
| `HObject`, `Enumeration`, `SplitCursor` | the order of object positions, the paged listing, and the splitting of a listing |
| `EnumerationSuccess` | which listings succeed, and how many calls list a pool |
| `WatchProtocol`, `ClientLifecycle` | two concurrent protocols as state machines whose steps lie between lock operations |
| `LifecycleCalls` | what each call on a client comes to when none interrupts it |
| `Duration`, `DurationUnits` | the printer and the parser of configured durations, and what each unit and form denotes |
| `Wrappers`, `Arithmetic` | shared results and integer types, and a few facts of non-linear arithmetic |

Code that loops or updates in place is a method or a class, proved equal to a specification function;
the theorems are about those functions. Code that only computes is a function.

## Main results

- `validate_graph` accepts exactly the graphs without dangling items, cycles or chains of more than 64
  buckets, whatever order buckets are visited in, and each refusal names a defect that is there.
- Every first-n placement under a certified rule terminates and yields at most the requested number of
  different usable devices, under different buckets for chooseleaf; asking for more replicas only appends.
  An erasure placement has one slot per shard; a filled slot never changes, and the count of empty slots
  never underflows.
- Replica `n` is the device of the first of the 51 draws numbered from `n` on that is free and not out, and is
  skipped exactly when there is none; chooseleaf the same with the bucket and the device below it. Shard `i` of
  `n` is the device of draw `i + n * f` for the pass `f` that fills it.
- The cached shuffle answers every history of calls as a shuffle from scratch would.
- Objects of one placement group share one placement seed, although it is computed from each object's
  own hash, and hence one placement; growing the number of groups keeps a hash in its group or moves it
  to a new one.
- Up and acting sets satisfy invariants that no single stage of the pipeline enforces, and each slot and primary
  of them is told from the raw placement, the overrides, the OSD states and the temporary mappings.
- A successful incremental keeps the pool index an exact inverse and the four OSD vectors in step; any two
  iteration orders that succeed agree; and for every update without a full map it is stated exactly when every order, and when
  some order, succeeds. What becomes of every field, OSD and pool is told from the map and the update alone.
- Decryption and encryption are inverse in both directions, for every length; bytes that open are exactly
  what sealing their payload with that key gives. Every block of the ciphertext is told from the plaintext and the
  block cipher.
- Successive listings return every object of a range, and no other; and each once, in order, for all ranges and
  limits exactly when no two objects of the pool compare equal. An honest server never makes a listing fail, and
  from the begin cursor on as many calls as there are objects return them all.
- In every interleaving, nothing registers a watch after an UNWATCH was sent; once a close has returned, the
  client's slots never hold an open session; no session is ever lost; in neither protocol is anything under way
  ever deadlocked; and no lifecycle call takes more than eighteen steps.
- Reading back a printed duration gives that duration, exactly for 1 ns to `i64::MAX` ns.

## Where the code differs from what one would expect

- `compare_hobject` is a total preorder and not an order: it is not antisymmetric. `CompareEqualIff` says exactly
  which positions compare equal; `TwinsCompareEqual` shows two that differ, an empty key and a key that
  repeats the name.
- Therefore a listing can repeat objects and stand still. An object without a locator and one of the same name
  with that name as its locator have one position (`TwinObjects`). A limit of one that falls between them makes
  the listing resume where it began, for ever (`TwinsListed`, `TwinsStall`). `ExactIffUntied` says that this
  is the only obstacle, `ListedExact` says for each call when it is met, and `ResumedCovers` that nothing is ever lost.
- `split_cursor` does not always return its boundaries in cursor order. `SplitAscendsIff` gives the exact
  condition. `FirstPartitionRefused` says exactly when the first partition runs backwards, so that the listing
  refuses it; `SplitRunsBackwards` shows one.
- Whether a set of pool renames is accepted can depend on the iteration order of a hash table
  (`OrderMatters`, `EmptyNamesAlternate`). `EveryOrderSucceedsIffSafe` and `SomeOrderSucceedsIff` say when every and
  when some order is accepted, `OrderMattersIff` when it depends on the order, and `UpdateSucceedsIff` says the same
  of whole updates. Exchanging two names is never accepted (`SwapIsRefused`).
- The acting primary of an erasure pool can be the empty slot. `PlacementIsGood` says exactly when, and
  `EmptySlotAsPrimary` says exactly when such a placement is returned; `EmptySlotIsReached` shows one.
- A shutdown that is dropped while it waits for the flush has not closed the client
  (`DroppedShutdownClosesNothing`); every other shutdown and every close has.
- In `rule`, the result of `choose_first_n` is an absolute position but is added to the output size. Certified
  rules start from an empty output and a working set of one bucket, and the two then agree.
- In `choose_indep`, the branches that give up a slot without filling it still count it as filled. Certified
  erasure rules look for devices on an admitted graph, and never reach them.

## What is taken as given

- The integer hashes, the logarithm table (at most 2^48), the AES block permutation and the MAC are arbitrary
  functions; the object hash is a parameter.
- Buckets are as the decoder builds them: filed under their own negative id, with one weight per item. New
  pools in an incremental have no name yet, as `decode_pool` builds them. The map an incremental is applied to
  has an exact name index and vectors of equal length.
- A server is any function from round and cursor to a page; a page is honest when it holds exactly the objects
  from the cursor up to its `next`. The objects of a pool are in ascending position; they may compare equal unless
  a result says otherwise. Deadlines end a listing after an arbitrary number of rounds.
- Outcomes of waits, network replies and cancellation are inputs of the state machines.

## Model

| member | source | states |
|---|---|---|
| `CrushMap.ValidateGraph` | src/crush/map.rs:289-297 | Ok exactly for graphs where every item names an existing bucket or a device in range, no bucket is its own descendant and no chain is longer than 64; Malformed only if an item dangles or there is a cycle, DepthExceeded only if a chain is too long; for every visiting order |
| `CrushMap.GraphWalk.VisitBucket` | src/crush/map.rs:299-340 | at any depth and with any earlier memo, success returns the exact height of the bucket and keeps every recorded height; each error names a real defect |
| `CrushMap.GraphWalk.VisitItems` | src/crush/map.rs:321-340 | the loop over a bucket's items measures the longest chain below it |
| `CrushMap.GraphWalk.ItemsMeasured` | src/crush/map.rs:323-338 | one more than the greatest height among the items is the length of the longest chain from the bucket |
| `CrushMap.CycleUnwinds` | src/crush/map.rs:299-340 | a cycle yields chains of any length, so bounding chains excludes cycles |
| `CrushMap.AllMeasured` | src/crush/map.rs:289-297 | if every bucket has an exact height of at most 64 the whole graph is admissible |
| `CrushMap.BackEdge` | src/crush/map.rs:309-310 | meeting a bucket that is still being visited exhibits a cycle |
| `CrushMap.LongDescent` | src/crush/map.rs:306-317 | a memoised height that does not fit below the current depth exhibits a chain that is too long |
| `CrushMap.HeightDrops` | src/crush/map.rs:299-340 | on an admitted graph every step down lowers the height: the measure on which every descent ends |
| `CrushMap.BelowOn` | src/crush/map.rs:299-340 | lying below is transitive |
| `Straw2.Straw2Choose` | src/crush/place.rs:626-646 | the loop with a running best returns the item of the first slot with the longest straw |
| `Straw2.Draw` | src/crush/place.rs:629-639 | a zero weight draws the least 64-bit integer and any other weight draws strictly more |
| `Straw2.DrawIsQuotient` | src/crush/place.rs:629-639 | the straw of a weighted item is the logarithm of its hash less 2^48, divided by the weight and rounded toward zero: d * w >= ln - 2^48 > (d - 1) * w |
| `Straw2.LongestStraw` | src/crush/place.rs:640-644 | no slot has a longer straw than the chosen one, and every slot before it has a shorter one |
| `Straw2.FirstMax` | src/crush/place.rs:626-646 | the first of the greatest draws |
| `Straw2.Straw2Raise` | src/crush/place.rs:626-646 | raising one weight leaves the choice or moves it to that slot |
| `Straw2.Straw2Lower` | src/crush/place.rs:626-646 | lowering one weight leaves the choice or moves it away from that slot |
| `Straw2.Straw2NeverZero` | src/crush/place.rs:626-646 | a slot of weight zero is never chosen while another has weight |
| `Shuffle.ShuffledIsPermutation` | src/crush/place.rs:541-597 | every stage of the eager shuffle is a permutation of the slots |
| `Shuffle.SlotSettled` | src/crush/place.rs:579-592 | a settled slot keeps its occupant through every later stage |
| `Shuffle.SlotDrawn` | src/crush/place.rs:579-592 | settling a slot exchanges it with the one that the hash of seed, bucket and slot number picks among those not settled |
| `Shuffle.PermutationCovers` | src/crush/place.rs:541-597 | a settled shuffle holds every slot |
| `Shuffle.ConsecutiveReplicasDiffer` | src/crush/place.rs:541-597 | no two of as many consecutive replicas as the bucket has items visit the same slot |
| `Shuffle.ConsecutiveReplicasCover` | src/crush/place.rs:541-597 | and every slot is visited by one of them: together, each slot exactly once |
| `Shuffle.ExpandFirst` | src/crush/place.rs:570-577 | the one-item shortcut state expands to the first stage of the shuffle |
| `Shuffle.Advance` | src/crush/place.rs:579-592 | the lazy loop reaches exactly a stage of the eager shuffle that settles the position |
| `Shuffle.ChooseFrom` | src/crush/place.rs:541-597 | from any cached state the answer is the eager shuffle's, and the new state is again one the shuffle reaches |
| `CrushPlace.Placement.PermutationChoose` | src/crush/place.rs:541-597 | for any history of earlier calls the cache answers as an eager shuffle from scratch |
| `FirstN.VerdictIsGood` | src/crush/place.rs:436-511 | an accepted draw is of the wanted type, below the root, not taken, and usable with its leaf |
| `FirstN.SearchIsGood` | src/crush/place.rs:398-539 | so is whatever the search finds, after any number of local retries, shuffled draws and restarts |
| `FirstN.LeafIsGood` | src/crush/place.rs:477-507 | the leaf search yields a usable device below the chosen bucket that no other replica uses |
| `FirstN.OutOrUsable` | src/crush/place.rs:606-623 | a device in range that is not out has a weight |
| `FirstN.OutByWeight` | src/crush/place.rs:606-623 | a device is out exactly for the seeds whose hash has low 16 bits of at least its weight |
| `FirstN.SelectedIsGood` | src/crush/place.rs:398-539 | all replicas differ, as do their devices; each device is usable and lies below its own bucket |
| `FirstN.FullStays` | src/crush/place.rs:419-422 | stopping when the output is full loses nothing |
| `FirstN.MoreReplicasExtend` | src/crush/place.rs:398-539 | the selection for fewer replicas is a prefix of the selection for more |
| `CrushPlace.Placement.DrawOnce` | src/crush/place.rs:436-511 | one turn of the inner loop, with the leaf search, computes the specified verdict of the draw with number base and total, and disturbs no filled leaf slot |
| `CrushPlace.Placement.FindLeaf` | src/crush/place.rs:478-503 | the recursive call fills the leaf slot with the specified device or reports that there is none |
| `CrushPlace.Placement.PlaceReplica` | src/crush/place.rs:423-533 | the two nested retry loops compute the specified search |
| `CrushPlace.Placement.ChooseFirstN` | src/crush/place.rs:398-539 | the output and leaf arrays hold exactly the specified selection, of which `DrawOrder` tells each replica by its first draw that succeeds |
| `DrawOrder.SearchFollowsTrial` | src/crush/place.rs:426-535 | where no retry stays in a bucket, the plain descent of each numbered draw decides the search or hands it to the next draw from the root |
| `DrawOrder.SearchIsFirstTrial` | src/crush/place.rs:426-535 | the search finds an item exactly when some draw within the tries accepts it and every draw before that one fails |
| `DrawOrder.LeafIsOneDescent` | src/crush/place.rs:477-507 | under the certified tunables a bucket is represented by a device exactly when the one descent below it, numbered like the draw that chose the bucket, gives that device and it is free and not out |
| `DrawOrder.DeviceSearch` | src/crush/place.rs:398-539 | the search for a device finds the device of the first of 51 draws, numbered from the replica on, that is free and not out |
| `DrawOrder.BucketSearch` | src/crush/place.rs:398-539 | the search for a bucket finds the bucket and device of the first such draw that gives both, unless a draw before it meets a device above the type |
| `DrawOrder.NextReplica` | src/crush/place.rs:398-539 | one more replica of a choose rule appends exactly that device, and nothing where no draw gives one |
| `DrawOrder.NextLeaf` | src/crush/place.rs:398-539 | one more replica of a chooseleaf rule appends exactly that bucket and device |
| `Indep.DescentIsBelow` | src/crush/place.rs:324-353 | what a descent draws is in range and lies below the root |
| `Indep.PassKeepsGood` | src/crush/place.rs:319-392 | a pass keeps filled slots as they are and adds only different usable devices |
| `Indep.PassesAreGood` | src/crush/place.rs:295-395 | after any number of passes filled slots hold different usable devices below the root |
| `Indep.FilledSlotStays` | src/crush/place.rs:320-323 | a filled slot keeps its device through all later passes |
| `DrawOrder.PassDraws` | src/crush/place.rs:320-390 | in pass f an empty slot k receives exactly the device of draw number position + k + replicas * f, if no slot holds it at that moment and it is not out |
| `DrawOrder.SlotFilledBy` | src/crush/place.rs:318-390 | after any number of passes a slot holds a device exactly when one of them has filled it so |
| `DrawOrder.ShardFilledBy` | src/crush/place.rs:295-395 | a shard of a certified erasure rule is the device of draw number i + n * f for the one of 100 passes that fills it |
| `Indep.FillOne` | src/crush/place.rs:385-390 | filling an empty slot lowers the number of empty slots by exactly one |
| `Indep.FullIsFinal` | src/crush/place.rs:318-319 | passes over full slots change nothing, so leaving the loop early loses nothing |
| `CrushPlace.Placement.FillSlot` | src/crush/place.rs:324-391 | the descent of one slot computes the specified filling |
| `CrushPlace.Placement.OnePass` | src/crush/place.rs:320-392 | one pass computes the specified slots and leaves exactly the count of empty ones, so the count never underflows |
| `CrushPlace.Placement.ChooseIndep` | src/crush/place.rs:295-395 | the slots are those of all tries, and no other part of the output changes |
| `CrushRule.ReplicatedPlacement` | src/crush/place.rs:84-170 | a certified replicated rule places at most the requested replicas, on different usable devices that lie below its root, with chooseleaf as without |
| `CrushRule.ChooseleafSpreads` | src/crush/place.rs:97-112 | with chooseleaf the devices lie under different buckets of the requested type |
| `CrushRule.PlacementIsPrefix` | src/crush/place.rs:398-539 | raising the replica count never moves or reorders a replica |
| `CrushRule.ErasurePlacement` | src/crush/place.rs:115-145 | a certified erasure rule yields exactly one slot per shard, filled with different usable devices |
| `CrushRule.ChooseStep` | src/crush/place.rs:212-280 | the choose step over the working set produces the placement the rule defines |
| `CrushRule.InterpretRule` | src/crush/place.rs:175-292 | interpreting the steps one by one yields that placement |
| `CrushRule.PlaceValidated` | src/crush/place.rs:59-82 | succeeds exactly for an admitted replica count and a certified rule |
| `CrushRule.ValidateCertifiedRule` | src/crush/place.rs:84-173 | the checks, one after another, admit exactly the certified rules and tunables |
| `CrushRule.Place` | src/crush/place.rs:47-57 | succeeds exactly when the graph is admissible too |
| `StableMod.AndIsMod` | src/crush/hash.rs:15-28 | masking with 2^k - 1 takes the remainder by 2^k |
| `StableMod.ModuloIs` | src/crush/hash.rs:15-28 | the bit masks compute the remainder by the covering power of two, or by half of it |
| `StableMod.ModuloInRange` | src/crush/hash.rs:15-28 | the result is below the count, and values below it are fixed |
| `StableMod.ModuloNested` | src/crush/hash.rs:15-28 | reducing first by a greater count changes nothing |
| `StableMod.GrowthKeepsOrSplits` | src/crush/hash.rs:15-28 | when the count grows a hash keeps its group or moves to a new one |
| `ObjectPlacement.SameGroupSameSeed` | src/maps/placement.rs:57-80 | hashes of one placement group have one placement seed, though each seed is computed from its hash |
| `ObjectPlacement.ApplyUpmap` | src/maps/placement.rs:214-275 | the overrides in sequence, with the early return of a replacement that names a weightless OSD |
| `ObjectPlacement.ApplyRemap` | src/maps/placement.rs:233-254 | one remap replaces the first occurrence, unless its target is present or carries no weight |
| `ObjectPlacement.PromotePrimary` | src/maps/placement.rs:257-272 | a weighted OSD of the set changes places with the first |
| `ObjectPlacement.UpmapKeepsDistinct` | src/maps/placement.rs:214-275 | overrides introduce no repeated OSD |
| `ObjectPlacement.OnlyUpIsUp` | src/maps/placement.rs:293-306 | what remains is up, or an empty slot where slots are kept, and comes from the source without repetition |
| `ObjectPlacement.OnlyUpKeepsUp` | src/maps/placement.rs:293-306 | no OSD that is up is lost, and kept slots stay in place |
| `ObjectPlacement.FirstOsd` | src/maps/placement.rs:408-413 | the first entry that is not an empty slot, -1 where there is none |
| `ObjectPlacement.AffinityChoice` | src/maps/placement.rs:321-357 | the first OSD that accepts; where none accepts the first eligible one; none exactly where none is eligible |
| `ObjectPlacement.ApplyPrimaryAffinity` | src/maps/placement.rs:321-362 | the loop picks the first OSD that accepts, or else the first eligible one, and rotates where it must |
| `ObjectPlacement.AffinityPermutes` | src/maps/placement.rs:321-362 | primary affinity permutes a replicated set and moves no erasure slot; a new primary is from the set and comes first |
| `ObjectPlacement.ValidatePlacementSet` | src/maps/placement.rs:378-405 | accepts exactly the sets of existing OSDs, without repetition unless that is allowed |
| `ObjectPlacement.ValidateUpmap` | src/maps/placement.rs:277-291 | accepts exactly the overrides that name existing OSDs |
| `ObjectPlacement.FindShard` | src/maps/placement.rs:165-179 | the primary shard is the first position of the acting primary, refused past 127 |
| `ObjectPlacement.PlaceMapped` | src/maps/placement.rs:107-182 | succeeds exactly where a placement is defined, and returns it; `PlacementDetail` tells every slot and both primaries of it |
| `ObjectPlacement.UpIsGood` | src/maps/placement.rs:141-145 | the up set has no repetition and only OSDs that are up; its primary belongs to it, and is -1 exactly when it has no OSD |
| `ObjectPlacement.UpIsExact` | src/maps/placement.rs:141-145 | the up set holds exactly the OSDs that CRUSH and the overrides chose and that are up; an erasure set slot by slot |
| `ObjectPlacement.ActingIsGood` | src/maps/placement.rs:147-158 | the acting set, temporary or not, holds only OSDs that are up, without repetition in replicated pools; its primary is -1 exactly when the set has no OSD and no temporary primary is named, and otherwise belongs to the set or is the one named |
| `PlacementDetail.OnlyUpIsExact` | src/maps/placement.rs:293-306 | what is left of a set is its members that are up in order, or slot by slot with empty slots for what is down |
| `PlacementDetail.ActingIsExact` | src/maps/placement.rs:144-158 | the acting set is the temporary set without what is down where that is not empty, else the up set; the acting primary is the temporary primary where one is set, else the first OSD of the temporary set, else the primary of the up set |
| `PlacementDetail.AcceptsByAffinity` | src/maps/placement.rs:333-349 | an OSD accepts the primary role exactly when the top 16 bits of its hash lie below its affinity |
| `PlacementDetail.UpIsAffined` | src/maps/placement.rs:138-142 | the up set is what CRUSH and the overrides give without what is down, with its first OSD as primary; where affinity picks another, that one is primary and leads a replicated set, the rest in order |
| `PlacementDetail.UpmapIs` | src/maps/placement.rs:214-275 | a full override replaces the set before exchanges and promotion; one that names an OSD without weight switches all overrides off |
| `PlacementDetail.ExchangeIs` | src/maps/placement.rs:233-256 | each exchange puts its new OSD exactly where the old one stands first, unless the new one is there already or has no weight |
| `PlacementDetail.PromotionIs` | src/maps/placement.rs:258-272 | a preferred primary with a weight exchanges its first place behind the front with the front |
| `PlacementDetail.MappingIs` | src/maps/placement.rs:41-88 | the group is the hash reduced by the group count; hashes that agree when reduced by the placement group count share a seed |
| `PlacementDetail.MappingRefused` | src/maps/placement.rs:41-62 | a hash is refused exactly for a missing pool, another object hash, a missing flag or unusable group counts |
| `PlacementDetail.StateBits` | src/maps/placement.rs:364-376 | an OSD exists by its first state bit and is up by its first two |
| `ObjectPlacement.PlacementIsGood` | src/maps/placement.rs:107-182 | every placement satisfies all of this; the acting primary belongs to the acting set and is found at its shard; it is the empty slot exactly when a temporary primary names it, and -1 exactly when the set has no OSD otherwise |
| `ObjectPlacement.EmptySlotAsPrimary` | src/maps/placement.rs:147-182 | an admitted erasure pool without a temporary set whose temporary primary names the empty slot is placed exactly when the up set has an empty slot among its first 128, which then is the acting primary |
| `ObjectPlacement.EmptySlotIsReached` | src/maps/placement.rs:107-182 | a map with one device that is down, for which every hash and seed gives a placement whose acting primary is the empty slot |
| `ObjectPlacement.SameGroupSamePlacement` | src/maps/placement.rs:41-182 | objects of one placement group are placed alike |
| `Incremental.InsertAll` | src/maps/incremental.rs:324-350 | inserting entries in any order gives the merged table |
| `Incremental.RemoveAll` | src/maps/incremental.rs:321-353 | removing listed keys removes exactly those |
| `Incremental.ApplyChanges` | src/maps/incremental.rs:382-403 | in any order, entries are replaced or added, and deleted where the change is the deleting value |
| `Incremental.ResizeOsds` | src/maps/incremental.rs:360-368 | all vectors take the new size; what fits is kept, and new entries are zero, empty or the default affinity |
| `Incremental.ApplyWeights` | src/maps/incremental.rs:285-291 | in any order: new weights, cleared marks, and an error exactly for an OSD outside the map |
| `Incremental.ApplyAffinities` | src/maps/incremental.rs:292-296 | in any order, creating the vector where there is none |
| `Incremental.ApplyStates` | src/maps/incremental.rs:297-312 | in any order: toggled states, and destroyed OSDs reset |
| `Incremental.ApplyUp` | src/maps/incremental.rs:313-318 | in any order: OSDs marked up at their new addresses |
| `Incremental.AddPools` | src/maps/incremental.rs:261-267 | a replaced pool keeps its name |
| `Incremental.ApplyRenames` | src/maps/incremental.rs:268-279 | the loop computes the renames of its order, or refuses |
| `Incremental.RenamesKeep` | src/maps/incremental.rs:268-279 | every order that succeeds gives the same pools and keeps the index right |
| `RenameOrder.SafeRenamesSucceed` | src/maps/incremental.rs:268-279 | safe renames succeed in every order |
| `RenameOrder.UnsafeRenamesFail` | src/maps/incremental.rs:268-279 | unsafe renames fail in some order |
| `RenameOrder.EveryOrderSucceedsIffSafe` | src/maps/incremental.rs:268-279 | renames succeed in every order exactly when none targets a name that another pool holds or another rename wants |
| `RenameOrder.SuccessIsPossible` | src/maps/incremental.rs:268-279 | an order that succeeds shows known pools, distinct targets save the empty name, every wanted name given up by its holder, no group of renames that waits for itself, and at most one more rename to the empty name than nameless pools that get a name |
| `RenameOrder.EmptiedSoFar` | src/maps/incremental.rs:268-279 | during any successful order at most one pool more has lost its name than nameless ones have been named |
| `RenameOrder.Ancestors` | src/maps/incremental.rs:268-279 | what a rename waits for, directly or not, is a group closed under waiting in which at most the last takes the empty name |
| `RenameOrder.NextEmptied` | src/maps/incremental.rs:268-279 | a rename to the empty name can be chosen after which a nameless pool can be named, if one remains |
| `RenameOrder.PossibleSucceeds` | src/maps/incremental.rs:268-279 | under that condition an order that succeeds is built rename by rename |
| `RenameOrder.SomeOrderSucceedsIff` | src/maps/incremental.rs:268-279 | some order succeeds exactly under that condition, for every table of renames |
| `RenameOrder.OrderMattersIff` | src/maps/incremental.rs:268-279 | acceptance depends on the order exactly when the renames are possible and not safe, for every table of renames |
| `RenameOrder.OrderMatters` | src/maps/incremental.rs:268-279 | handing a name on succeeds in one order and fails in the other |
| `RenameOrder.EmptyNamesAlternate` | src/maps/incremental.rs:268-279 | two pools that lose their names are accepted with a nameless one named between them, and refused without |
| `RenameOrder.SwapIsRefused` | src/maps/incremental.rs:268-279 | two pools that exchange their names are refused in every order |
| `RenameOrder.EmptyNameIsRemoved` | src/maps/incremental.rs:268-356 | a rename to the empty name is part of a successful update only if the update removes that pool |
| `RenameOrder.UpdateSucceedsIff` | src/maps/incremental.rs:238-358 | a whole update succeeds in every order, or in some, exactly when the rest of it is valid and its renames are safe, or possible |
| `Incremental.RemovePools` | src/maps/incremental.rs:280-284 | removed pools leave the index right |
| `Incremental.UpdatePools` | src/maps/incremental.rs:261-284 | the pool steps together: success exactly when the renames succeed |
| `Incremental.UpdateOsds` | src/maps/incremental.rs:285-318 | the OSD steps together: success exactly when every changed OSD is inside the map |
| `Incremental.UpdateMappings` | src/maps/incremental.rs:319-353 | the loops over temporary mappings, overrides and profiles compute the tables in closed form, whatever their iteration order |
| `Incremental.MappingsSettle` | src/maps/incremental.rs:319-353 | for every entry of the six tables, whether it is there and with which value: removing an override wins over setting it, setting a profile over removing it, a deleting change deletes, the rest stays |
| `Incremental.ApplyDelta` | src/maps/incremental.rs:238-358 | exactly when the update succeeds, and that both map invariants are kept; `IncrementalDetail` tells every field, OSD and pool of the result |
| `Incremental.ApplyIncremental` | src/maps/incremental.rs:209-358 | the whole of it: the identity and sequence checks first; what is accepted has the cluster's identity and the next epoch; a replacement full map is taken exactly when its identity, epoch and checksum agree |
| `Incremental.StampMap` | src/maps/incremental.rs:238-262 | the fields outside the tables are updated, and a CRUSH version that would overflow is refused |
| `IncrementalDetail.FieldsSettle` | src/maps/incremental.rs:238-262 | for each field outside the tables, its value from map and update: the CRUSH bytes and version change exactly when the update brings bytes, and then to those bytes and one more |
| `IncrementalDetail.NextMapDecodes` | src/maps/osdmap.rs:41-57 | a lookup on the next map decodes the CRUSH bytes of the update where it brings any, and the map before goes on decoding its own |
| `IncrementalDetail.OsdSettles` | src/maps/incremental.rs:281-318 | the state, weight, addresses and affinity of every OSD: the weight first, then the toggled bits, with zero for the up bit and a wipe where the exists bit meets one, then what comes up |
| `IncrementalDetail.PoolSettles` | src/maps/incremental.rs:256-280 | which pools there are, and for each its properties, new ones where the update brings them, and its name, the old one unless it is renamed |
| `Incremental.OrdersAgree` | src/maps/incremental.rs:238-358 | any two iteration orders that both succeed give the same map |
| `Incremental.InverseUnique` | src/maps/incremental.rs:268-284 | the pools determine an exact name index |
| `Incremental.UntouchedOsdStays` | src/maps/incremental.rs:250-318 | an OSD that is not mentioned keeps its state, weight, addresses and affinity |
| `Incremental.RaisedOsdIsUp` | src/maps/incremental.rs:313-318 | an OSD that is brought up exists and is up at its new addresses, whatever else changes |
| `Incremental.DestroyedOsdIsGone` | src/maps/incremental.rs:297-312 | an existing OSD whose exists bit is toggled is gone, without address and with the default affinity |
| `Incremental.UntouchedPoolStays` | src/maps/incremental.rs:261-284 | a pool that is not mentioned keeps its properties, name and index entry |
| `CrushCache.CrushState.Decoded` | src/maps/osdmap.rs:41-50 | the answer is a fresh decode of the bytes, and the cell is written once |
| `CrushCache.Handles.Apply` | src/maps/osdmap.rs:12-57 | loading, cloning, replacing and looking up change the held bytes as they would without a cache |
| `CrushCache.Handles.Run` | src/maps/placement.rs:184-212 | over any history every lookup answers as a fresh decode of that handle's current bytes, errors included |
| `Cts.CbcInverse` | src/cephx/crypto.rs:281-301 | block chaining is inverted, in both directions |
| `Cts.CbcSplits` | src/cephx/crypto.rs:202-301 | chaining a message in two parts is chaining it whole |
| `Cts.StealInverse` | src/cephx/crypto.rs:202-231 | unstealing undoes stealing for a last block of any length |
| `Cts.UnstealInverse` | src/cephx/crypto.rs:233-279 | stealing undoes unstealing |
| `Cts.DecryptUndoesEncrypt` | src/cephx/crypto.rs:202-279 | decryption undoes encryption for every length of 16 bytes or more |
| `Cts.EncryptUndoesDecrypt` | src/cephx/crypto.rs:202-279 | encryption undoes decryption, so no two ciphertexts decrypt alike |
| `Cts.CbcEncryptBlocks` | src/cephx/crypto.rs:212-222 | the encryption loop computes block chaining |
| `Cts.CbcDecryptNoPadding` | src/cephx/crypto.rs:281-301 | the decryption loop undoes block chaining, and refuses a partial block |
| `Cts.SwapLast` | src/cephx/crypto.rs:223-228 | the exchange byte by byte swaps the last two blocks |
| `Cts.SwappedIsStolen` | src/cephx/crypto.rs:202-231 | padding, chaining, swapping and cutting is the same as stealing |
| `Cts.UnswapsWhole` | src/cephx/crypto.rs:238-248 | for whole blocks, swapping back and unchaining is the same as unstealing |
| `Cts.CtsEncrypt` | src/cephx/crypto.rs:202-231 | the method computes CBC-CS3, told block by block by `CtsBlocks`, and refuses less than a block |
| `Cts.CtsDecrypt` | src/cephx/crypto.rs:233-279 | the method computes its inverse, the one plaintext with that ciphertext, and refuses less than a block |
| `CtsBlocks.OneBlockCiphertext` | src/cephx/crypto.rs:202-231 | one block is encrypted as it is |
| `CtsBlocks.TwoBlockCiphertext` | src/cephx/crypto.rs:202-231 | up to two blocks: the second, filled with zeros, encrypted over the first, then the first one cut |
| `CtsBlocks.LongCiphertext` | src/cephx/crypto.rs:202-231 | more blocks: the first front block is encrypted as it is, each later one mixed with the ciphertext block before it, and the last two as above |
| `CtsBlocks.XorIs` | src/cephx/crypto.rs:212-222 | mixing is exclusive or, byte by byte |
| `CtsBlocks.DecryptsExactly` | src/cephx/crypto.rs:233-279 | decryption gives a plaintext exactly if encrypting it gives that ciphertext |
| `Cts.EncryptRfc8009` | src/cephx/crypto.rs:68-96 | the sealed message, or the error of an unsupported key or a payload over the limit |
| `Cts.DecryptRfc8009` | src/cephx/crypto.rs:153-189 | the opened message, with the checks in the order of the source |
| `CtsBlocks.SealedLayout` | src/cephx/crypto.rs:68-96 | a sealed message is the ciphertext of confounder and payload, then 24 bytes of the MAC over sixteen zero bytes and that ciphertext |
| `Cts.OpenUndoesSeal` | src/cephx/crypto.rs:68-189 | opening returns the sealed payload exactly when it is within the decryption limit |
| `Cts.OnlySealedOpens` | src/cephx/crypto.rs:153-189 | bytes that open are exactly what sealing the opened payload with that key and some confounder gives |
| `Cts.MagicRoundTrip` | src/cephx/crypto.rs:303-354 | the version and magic prefix survives the round trip |
| `Cts.OnlyEnvelopesOpen` | src/cephx/crypto.rs:329-354 | nothing without that prefix is accepted |
| `CtsBlocks.EnvelopeVerdict` | src/cephx/crypto.rs:329-354 | for any sealed payload: over the limit, under nine bytes, another version, another magic than 0xff009cad8826aa55 in little-endian, or what follows it |
| `HObject.ReverseBitsTwice` | src/osd/backoff.rs:206-224 | reversing the bits of a hash twice gives the hash |
| `HObject.CompareLaws` | src/osd/backoff.rs:206-232 | positions are totally preordered, with the maximum on top |
| `HObject.BytesLexicographic` | src/osd/backoff.rs:206-232 | byte strings compare at their first difference, and a prefix comes first |
| `HObject.CompareIs` | src/osd/backoff.rs:206-232 | below the maximum the first that differs of pool, reversed hash, namespace, effective key, name and snapshot decides |
| `HObject.CompareEqualIff` | src/osd/backoff.rs:206-232 | two positions compare equal exactly when both are the maximum or they agree in pool, hash, namespace, name, snapshot and effective key |
| `HObject.TwinsCompareEqual` | src/osd/backoff.rs:206-232 | an empty key and a key that repeats the name are different positions that compare equal |
| `Enumeration.ValidatePage` | src/client.rs:2045-2067 | accepts exactly the pages whose entries are in order from the cursor on and before `next`, which lies beyond the cursor |
| `Enumeration.ClipPage` | src/client.rs:2069-2089 | how many entries remain and where the listing resumes, for an end inside the page and for a limit |
| `Enumeration.ListObjectsRange` | src/client.rs:1933-2038 | the listing loop computes the specified listing; `PoolListed` says when it succeeds and what it then returns |
| `Enumeration.CheckCursor` | src/client.rs:2114-2134 | a cursor is admitted exactly at the end, at the begin position, or inside the pool |
| `Enumeration.ObjectPosition` | src/client.rs:2045-2067 | the position of an entry: its pool, namespace, locator and name, at the hash of the locator or, without one, of the name |
| `EnumerationSuccess.HonestPageOk` | src/client.rs:2045-2067 | a page that holds exactly the objects up to where it leaves off is always accepted |
| `EnumerationSuccess.ResumedSucceeds` | src/client.rs:1933-2038 | resumed listings of honest servers, between any two cursors in order, fail only when their rounds run out |
| `EnumerationSuccess.WholeListed` | src/client.rs:1933-2038 | what one call returns of a server that sends everything: the next objects up to the limit and the position after them, or all that are left and the end |
| `EnumerationSuccess.BeginIsFirst` | src/client.rs:1810-1827 | the begin cursor is admitted, fits, and lies before every object |
| `EnumerationSuccess.PoolListed` | src/client.rs:1810-2038 | from the begin cursor to the end every call succeeds, whatever the limits; where no two objects compare equal, one call for each object returns exactly the pool and reports the end |
| `Enumeration.ListedInOrder` | src/client.rs:1955-2038 | for any pages the validator accepts, results are in order, inside the range, within the limit and resumable; a listing with more to come advances when its last value lies before where it ends, and in any case unless all its values compare equal to where it began |
| `Enumeration.RangeSplits` | src/client.rs:1955-2038 | adjacent ranges list what their union lists |
| `Enumeration.ClipExact` | src/client.rs:2069-2089 | clipping an honest page leaves exactly the objects up to where it resumes if and only if the cut separates no two that compare equal |
| `Enumeration.ListedExact` | src/client.rs:1955-2038 | one listing from an honest server returns exactly the objects up to where it ends if and only if its last value lies before that; always if it reports the end, or if no objects compare equal |
| `Enumeration.ListedCovers` | src/client.rs:1955-2038 | with ties as without, one listing from an honest server begins with everything up to where it ends and returns nothing from outside its range |
| `Enumeration.ResumedExact` | src/client.rs:1933-2038 | where no two objects compare equal, successive listings with any limits return every object of the range once, in order |
| `Enumeration.ResumedCovers` | src/client.rs:1933-2038 | for every pool and any limits, resumed listings that report the end have returned every object of the range and no other: ties are repeated at most, never lost |
| `Enumeration.EntriesTieIff` | src/crush/hash.rs:3-13 | two objects have one position exactly when they agree in namespace, name and hashed key |
| `Enumeration.UntiedIff` | src/osd/backoff.rs:206-232 | no two objects compare equal exactly when no two agree so |
| `Enumeration.TwinObjects` | src/crush/hash.rs:3-13 | an object without locator and one with its name as locator are different and agree so |
| `Enumeration.TwinsListed` | src/client.rs:2069-2089 | from the position of two such objects a listing of one from an honest server returns the first, reports more, and resumes at that same position |
| `Enumeration.TwinsStall` | src/client.rs:1933-2038 | any number of such listings returns that object as many times |
| `Enumeration.ExactIffUntied` | src/client.rs:1933-2038 | for listable objects, resumed listings are exact for all ranges, limits and honest servers if and only if no two objects compare equal |
| `SplitCursor.SplitQuotient` | src/client.rs:1886-1888 | dividing first gives the exact rounded fraction |
| `SplitCursor.SplitFits` | src/client.rs:1884-1888 | no intermediate value leaves 64 bits |
| `SplitCursor.PositionsMonotone` | src/client.rs:1883-1888 | positions never decrease |
| `SplitCursor.PositionsSpan` | src/client.rs:1883-1888 | they run from the start to the finish |
| `SplitCursor.WidthsEven` | src/client.rs:1883-1888 | partition widths differ by at most one |
| `SplitCursor.PositionsOrdered` | src/client.rs:1872-1880 | the subtraction of positions cannot underflow |
| `SplitCursor.PositionFits` | src/client.rs:1889-1890 | the branch for a boundary past the greatest hash is never taken |
| `SplitCursor.Split` | src/client.rs:1851-1911 | the method returns the exact boundaries, or refuses exactly the invalid requests |
| `SplitCursor.SplitAscendsIff` | src/client.rs:1851-1911 | the boundaries are in cursor order exactly if the split is trivial, or the end is past the minimum and the first cut moves off the first hash or the first cursor stands before all of it |
| `SplitCursor.FirstCut` | src/client.rs:1882-1888 | exactly when the first boundary is not before the begin |
| `SplitCursor.LastCut` | src/client.rs:1883-1909 | exactly when the last boundary is not after the end |
| `SplitCursor.PartitionsCover` | src/client.rs:1851-1911 | consecutive intervals between ascending cursors list exactly what the whole interval lists |
| `SplitCursor.SplitCovers` | src/client.rs:1851-1911 | the partitions of a split in cursor order start at the begin, stop at the end and together list exactly that range |
| `SplitCursor.SplitListsAll` | src/client.rs:1851-1911 | listing every partition of a split in cursor order to its end, in any calls from honest servers, returns every object of the range once, in order, where no two compare equal |
| `SplitCursor.FirstPartitionRefused` | src/client.rs:1851-1911 | the first partition can be listed exactly when the begin is the minimum, stands before all of its hash, or the split is not finer than the hashes between; otherwise it runs backwards and listing it is an error |
| `SplitCursor.SplitRunsBackwards` | src/client.rs:1881-1909 | two cursors on objects of one hash, split in two, give a cut before the first |
| `WatchProtocol.WorkerKeeps` | src/client.rs:3860-3998 | every worker step keeps the lock, generation and log invariant |
| `WatchProtocol.CloserKeeps` | src/client.rs:2444-2477 | so does every step of any of the concurrent closers |
| `WatchProtocol.EveryRunIsSound` | src/client.rs:3860-3998 | in every interleaving: no RECONNECT or REGISTER after an UNWATCH, every RECONNECT and PING carries the right generation, no UNWATCH after an acknowledged one, and a close that reports success has an acknowledged UNWATCH behind it |
| `WatchProtocol.NothingRegistersAfterUnwatch` | src/client.rs:2444-2477 | the same for any two messages of the log |
| `WatchProtocol.NeverStuck` | src/client.rs:3860-3998 | in every reachable state the worker until it has stopped, and every close under way, can take a step of its own, or the lock is held by another of them that can; new closes, giving up and leaving the loop do not count as steps |
| `WatchProtocol.RecoveryReconnects` | src/client.rs:3949-3998 | an undisturbed recovery sends a RECONNECT with the next generation and goes on from it |
| `WatchProtocol.RecoveryRegisters` | src/client.rs:3973-3998 | after a failed RECONNECT a registration starts at generation zero again, or stops the worker |
| `WatchProtocol.RecoveryStops` | src/client.rs:3955-3958 | a recovery that finds a close under way sends nothing and stops |
| `WatchProtocol.GenerationsEnd` | src/client.rs:3949-3953 | after the last generation the worker stops |
| `WatchProtocol.PingExchange` | src/client.rs:3926-3946 | a ping carries the current generation, and one that fails starts a recovery |
| `WatchProtocol.CloseUnwatches` | src/client.rs:2444-2477 | an undisturbed close sends UNWATCH and returns the answer; the watch is gone exactly if that is yes |
| `WatchProtocol.CloseAgain` | src/client.rs:2444-2477 | a close on a watch that is gone succeeds without a message |
| `ClientLifecycle.CloseIsGood` | src/client.rs:925-990 | every step of close and shutdown, dropped wherever it waits or not, keeps its own guarantees and disturbs no other call's |
| `ClientLifecycle.ConnectIsGood` | src/client.rs:166-222 | so does every step of connect, whatever its waits bring |
| `ClientLifecycle.ManageIsGood` | src/client.rs:1090-1139 | so does every step of obtaining a manager, also where the manager read is closed, or replaced in the slot, before it is tested |
| `ClientLifecycle.OthersKeep` | src/client.rs:1043-1139 | what one call does to flag, slots and locks never breaks what another relies on |
| `ClientLifecycle.NextKeeps` | src/client.rs:1043-1139 | every step of every call keeps the invariant |
| `ClientLifecycle.ClosedForGood` | src/client.rs:981-990 | in every interleaving, from the moment a close has returned neither slot ever holds an open session |
| `ClientLifecycle.NoSessionLost` | src/client.rs:1090-1139 | every open monitor or manager is in its slot or in the hands of a call that will install or close it |
| `ClientLifecycle.NothingLeftOpen` | src/client.rs:925-990 | after a close, or a shutdown not dropped in its flush, once all calls have ended everything ever built is closed |
| `ClientLifecycle.FlagSetIff` | src/client.rs:925-990 | the closed flag is set exactly when some close, or some shutdown past its flush, has been called |
| `ClientLifecycle.DroppedShutdownClosesNothing` | src/client.rs:943-953 | a run in which a shutdown dropped in its flush leaves the connected monitor open |
| `ClientLifecycle.NeverStuck` | src/client.rs:925-1139 | no reachable state is deadlocked: unless all calls have ended, some call can move whatever its wait brings |
| `ClientLifecycle.CallsAreShort` | src/client.rs:166-222 | no call takes more than eighteen steps in any run |
| `LifecycleCalls.CloseAlone` | src/client.rs:981-990 | an undisturbed close sets the flag and closes what the slots hold |
| `LifecycleCalls.ShutdownAlone` | src/client.rs:925-978 | a shutdown also empties both slots and releases the lifecycle lock |
| `LifecycleCalls.ConnectInstalls` | src/client.rs:166-222 | a connect without a monitor builds one and installs it |
| `LifecycleCalls.ConnectReuses` | src/client.rs:166-222 | a connect that finds a ready monitor changes nothing |
| `LifecycleCalls.ConnectReplaces` | src/client.rs:166-222 | a monitor that is not ready is closed with its manager and replaced |
| `LifecycleCalls.ConnectFails` | src/client.rs:166-222 | a new monitor that does not become ready is taken out and closed, and so is its manager |
| `LifecycleCalls.ConnectRefused` | src/client.rs:166-222 | a connect on a closed client changes nothing |
| `LifecycleCalls.ManageAlone` | src/client.rs:1090-1139 | an open manager is found; otherwise one is built and installed in place of one that is shut |
| `LifecycleCalls.ManageRefused` | src/client.rs:1120-1139 | on a closed client the manager just built is closed again |
| `Duration.ParseNumber` | src/config.rs:827-873 | the fraction loop computes the number of nanoseconds; none of its checked operations can overflow |
| `Duration.ParseDuration` | src/config.rs:778-825 | the segment loop computes the sum of number and unit pairs, or refuses |
| `Duration.Parse` | src/config.rs:778-825 | a parsed duration is at least 1 ns and fits a signed 64-bit count |
| `Duration.Decimal` | src/config.rs:875-909 | a printed number reads back as that number |
| `Duration.TrimScales` | src/config.rs:900-909 | trimming zeros divides by a power of ten |
| `Duration.FractionReads` | src/config.rs:851-871 | the padded and trimmed fraction reads back exactly |
| `Duration.NumberReads` | src/config.rs:827-873 | a number printed in a unit reads back as the same nanoseconds |
| `Duration.SegmentReads` | src/config.rs:785-815 | a number and unit in front of a text add exactly their value |
| `Duration.RoundTrip` | src/config.rs:778-909 | for every duration the type can hold, parsing what was printed gives it back exactly if it is from 1 ns to `i64::MAX` ns, and is refused otherwise |
| `Duration.CanonicalText` | src/config.rs:778-909 | printing what any accepted text denotes gives a text that denotes the same |
| `DurationUnits.WholeUnitsRead` | src/config.rs:802-810 | a whole number of each of the seven units denotes exactly that many nanoseconds of it, within the bounds of a duration |
| `DurationUnits.OtherUnitsRefused` | src/config.rs:802-810 | no other unit is read |
| `DurationUnits.PointedNumber` | src/config.rs:827-873 | a number with a point: its integer part, and its fraction to the nineteenth digit rounded down; digits may be missing on one side, not on both |
| `DurationUnits.TwoPointsRefused` | src/config.rs:827-843 | a second point is refused |
| `DurationUnits.PlusSign` | src/config.rs:779-782 | one leading plus changes nothing, a second is refused |
| `DurationUnits.ShortForms` | src/config.rs:875-887 | whole nanoseconds, microseconds and milliseconds are written in that unit |
| `DurationUnits.ClockForms` | src/config.rs:888-898 | whole seconds are written after minutes and hours where there are any, and the minutes stay after hours |

## Left out

- The integer hashes, the logarithm table, AES, HMAC, key derivation and PKCS7: only that the cipher permutes blocks is used.
- The older AES-CBC format with PKCS7 padding: it is a library call.
- The wire decoders of maps, buckets, pools and messages: reading field by field. `WellShaped`, `Nameless` and the map invariants state what the model uses of them.
- The leaf recursion of `choose_indep`: its only caller never asks for it.
- Rules and tunables outside the certified profile: `place_validated` refuses them. First-n selection itself is modelled with local retries, fallback, vary-r and stable left general.
- Messenger, monitor and OSD sessions, timers and the manager command loop: network behaviour. Where a protocol waits for them their outcome is an input.
- Clearing the authority cache and closing the objecter in the client lifecycle: they touch neither slot.
- Configuration files, keyrings and arguments other than durations: text handling that would only add easy members.
- `ReadOp` and `WriteOp` builders, identity types, error mapping, `MapStore`, receive budget and banner: they would only add easy members.
- Enumeration.ListObjectsRange: the loop is bounded by an arbitrary number of rounds in place of the deadline that ends it, so a listing that a slow server never finishes appears as an error.
- Incremental.ApplyIncremental: the iteration order of the renames is a parameter and the other tables are taken in arbitrary order; which of several errors a refused update reports is not stated.
- WatchProtocol.EveryRunIsSound: the delivery of watch events to the application is not part of this model.
