# Cable-bus host and tick tracker, modelled in Dafny

This project models two parts of Applied Energistics 2.

The first is the cable-bus host, `CableBusContainer`: one block position that holds up to
six face parts and one centre cable. It places, replaces and removes parts under the rule
that every face part must fit the cable. It keeps derived state:

- the sides the cable is exposed on;
- the dynamic-render flag;
- three shape caches that are always cleared together;
- a lazily decided redstone tri-state.

It also writes and reads its parts in two layouts: the network stream and the saved
(NBT) document.

The second is the scheduler's per-device record, `TickTracker`. It holds a rate that is
clamped into the device's band, the tick at which the device last ran, and the total
order the scheduler's priority queue uses.

Files and modules:

- `tick_tracker.dfy`, module `Ticking`: class `TickTracker` with Java `int`/`long`
  semantics written out (32-bit wrap of the midpoint sum, division truncating toward
  zero, `Long.compare`), and lemmas that the order is a total preorder.
- `bus_types.dfy`, module `BusModel`: the values. These are a slot (`Face(d)` or
  `Center`), the abstract part record, the storage as a map from slot to part, and the
  pure functions that say what the host's operations compute. Those cover
  compatibility, the outcome of an attach, exposure, the stream tokens and decoder, and
  the document a save produces.
- `bus_lemmas.dfy`, module `BusLemmas`: properties of those functions. They cover what
  the compatibility check means, what a failed attach leaves behind, that the stream and
  the document can be read back, and the step lemmas the host's loops use.
- `cable_bus_container.dfy`, module `CableBus`: class `CableBusContainer`. Its fields
  are the storage, the faces carrying a facade, the redstone state, the blocked sides,
  the render flag, the in-world flag, the three caches and the set of grid links. Every
  mutator is a method with a `modifies` frame, and every loop of the modelled
  operations is a loop with invariants. The module also holds client methods for the two round trips and for
  removing a part twice.

The grid is reduced to a set of links between node ids. `GridConnection.create` is the
parameter `connect: (NodeId, NodeId) -> bool`, which may refuse any pair. A part that
leaves the world (`removeFromWorld`) takes every link touching its node ids with it;
node ids come from the catalog and need not be unique (see "## Left out").
`Item.byId` followed by `createPart` is the parameter `catalog: ItemId -> Stack`.
`CatalogConsistent(catalog)` says that the catalog creates parts of the item they were
asked for; the contents-level round trips hold under it. `FromCatalog(st, catalog)` says
that every part in the host is of the kind the catalog creates for its item. Under both,
and when every connection succeeds, reading another host's stream or document into an
empty host cannot fail.

Behaviour of the code that the model keeps:

- `addPart` does not check that a face slot is free. A face part replaces whatever the
  face held. Only `canAddPart` checks that the side is free.
- The saved document's face keys use the enum name, such as `def:NORTH`, not a
  lower-case id. The centre's key is `def:center`.
- `addPart` of a part that is not a cable with the centre as its side places nothing, yet
  still runs `updateAfterPartChange` and returns true (the outcome `Unplaced`).
- `readFromStream` and `readFromNBT` look the re-added part up at the original slot.
  When the item creates a cable for a face slot, the cable goes to the centre; when it
  creates a face part for the centre, the part is not placed. Either way the lookup
  yields `null`, so the next call throws. The model reports this as the `MissingPart`
  error of each reader.
- A failed re-add in `readFromNBT` logs a warning and leaves the slot empty. The model
  returns the set of such slots.
- `updateDynamicRender` looks at the six face parts only, not at the cable.

## Model

| member | source | states |
|---|---|---|
| Ticking.AddInt32 | src/main/java/appeng/me/service/helpers/TickTracker.java:46 | Java `int` addition: the sum when it fits in 32 bits, otherwise the sum shifted by 2^32 into range |
| Ticking.DivJava | src/main/java/appeng/me/service/helpers/TickTracker.java:46 | Java `/` by a positive divisor truncates toward zero: the remainder `a - q*b` lies in [0, b) for a non-negative dividend and in (-b, 0] for a negative one |
| Ticking.CompareJava | src/main/java/appeng/me/service/helpers/TickTracker.java:53-65 | `Long.compare`/`Integer.compare` return -1, 0 or 1; negative exactly when a < b; 0 exactly when equal |
| Ticking.Clamp | src/main/java/appeng/me/service/helpers/TickTracker.java:85-88 | `min(max, max(min, r))` lies in [min, max] for a well-formed band and keeps a rate already inside; below the band gives min, above gives max; an inverted band gives max |
| Ticking.CompareKeys | src/main/java/appeng/me/service/helpers/TickTracker.java:51-67 | the three-step comparison is -1, 0 or 1; 0 exactly on equal keys; negative exactly when the first key is lexicographically before the second, positive exactly when after |
| Ticking.TickTracker.constructor | src/main/java/appeng/me/service/helpers/TickTracker.java:42-49 | a new tracker has `lastTick == currentTick` and the rate clamped from the Java-evaluated midpoint of the band |
| Ticking.TickTracker.SetCurrentRate | src/main/java/appeng/me/service/helpers/TickTracker.java:85-88 | the stored rate is the clamp of the argument, so it lies in [minTickRate, maxTickRate] when min <= max |
| Ticking.TickTracker.SetLastTick | src/main/java/appeng/me/service/helpers/TickTracker.java:98-100 | only `lastTick` changes, to the argument |
| Ticking.TickTracker.NextTick | src/main/java/appeng/me/service/helpers/TickTracker.java:90-92 | the next due tick is one current interval after the last tick, so for a valid tracker with a well-formed band it lies between lastTick + minTickRate and lastTick + maxTickRate |
| Ticking.TickTracker.CompareTo | src/main/java/appeng/me/service/helpers/TickTracker.java:51-67 | the result is -1, 0 or 1; 0 exactly when next tick, last tick and rate all agree; negative exactly when this tracker's key is before the other's |
| Ticking.ReclampIsIdempotent | src/main/java/appeng/me/service/helpers/TickTracker.java:85-88 | `setCurrentRate(getCurrentRate())` leaves the rate unchanged |
| Ticking.ClampIdempotent | src/main/java/appeng/me/service/helpers/TickTracker.java:85-88 | clamping twice equals clamping once |
| Ticking.MidpointInBand | src/main/java/appeng/me/service/helpers/TickTracker.java:42-49 | when the band's sum fits in an `int`, the truncated midpoint lies in the band and the constructor starts exactly there |
| Ticking.OverflowingBandStartsAtMinimum | src/main/java/appeng/me/service/helpers/TickTracker.java:46 | for a non-negative band whose sum overflows an `int`, the wrapped midpoint is negative and the constructor starts at the minimum rate |
| Ticking.CompareKeysAntisymmetric | src/main/java/appeng/me/service/helpers/TickTracker.java:51-67 | sign(cmp(a, b)) == -sign(cmp(b, a)) |
| Ticking.CompareKeysTransitive | src/main/java/appeng/me/service/helpers/TickTracker.java:51-67 | "before" and "not after" are both transitive |
| Ticking.CompareKeysTotal | src/main/java/appeng/me/service/helpers/TickTracker.java:51-67 | every key compares equal to itself, and every two keys are comparable |
| Ticking.CompareToZeroIffSameSchedule | src/main/java/appeng/me/service/helpers/TickTracker.java:51-67 | two trackers compare as 0 exactly when their last tick and rate agree (the next tick then agrees too) |
| Ticking.RateTieBreakNeverDecides | src/main/java/appeng/me/service/helpers/TickTracker.java:59-65 | equal next tick and equal last tick force an equal rate, so the last comparison always yields 0 |
| Ticking.OlderWaiterFirst | src/main/java/appeng/me/service/helpers/TickTracker.java:59-63 | among trackers due at the same tick, the one with the smaller last tick sorts first, in both directions of the comparison |
| Ticking.EarlierDueFirst | src/main/java/appeng/me/service/helpers/TickTracker.java:53-57 | a tracker due earlier sorts first whatever its other keys |
| Ticking.MoveLastTick | src/main/java/appeng/me/service/helpers/TickTracker.java:90-100 | `setLastTick` keeps the rate, and the next tick becomes the new last tick plus the rate (it moves by the change in last tick) |
| BusModel.Lookup | src/main/java/appeng/parts/CableBusContainer.java:116-126 | `getPart`/`getCable`: the slot's part, or nothing exactly when the slot is empty |
| BusModel.ExposedSides | src/main/java/appeng/parts/CableBusContainer.java:483-495 | a direction is exposed exactly when its face holds no part and the host does not block it |
| BusModel.LiveFrom | src/main/java/appeng/parts/CableBusContainer.java:508-515 | bringing the parts at indices x.. into the world keeps the slots and the parts' nodes |
| BusModel.YesNoAt | src/main/java/appeng/parts/CableBusContainer.java:816-818 | `YesNo.values()[n]` exists exactly for 0 <= n < 3 and is the value whose ordinal is n, with the ordinals YES 0, NO 1, UNDECIDED 2 |
| BusLemmas.CanAttachIff | src/main/java/appeng/parts/CableBusContainer.java:129-153 | under the compatibility invariant, a part item can be added exactly when its target slot exists and is free and the invariant still holds with the part placed |
| BusLemmas.CanAttachMeansNotRefused | src/main/java/appeng/parts/CableBusContainer.java:129-153 | whatever `canAddPart` accepts, `addPart` attaches or fails to connect, never refuses; on a free target slot the converse holds as well; `addPart` leaves the part unplaced exactly for a non-cable with the centre as side, which `canAddPart` refuses |
| BusLemmas.AttachableIsAttached | src/main/java/appeng/parts/CableBusContainer.java:156-248 | when every grid connection succeeds, a part that `canAddPart` accepts is attached |
| BusLemmas.NoCableLinkFails | src/main/java/appeng/parts/CableBusContainer.java:189-208 | when every grid connection succeeds, connecting a new cable to the face parts never fails |
| BusLemmas.CableLinkFailsMono | src/main/java/appeng/parts/CableBusContainer.java:191-207 | once one of the cable's connections has failed, the attempt as a whole fails |
| BusLemmas.DetachUndoesCableLinks | src/main/java/appeng/parts/CableBusContainer.java:196-204 | when a cable's connection fails, its leaving the world removes every link it made while connecting |
| BusLemmas.FaceLinksFromExactly | src/main/java/appeng/parts/CableBusContainer.java:517-536 | `addToWorld` links the cable node to exactly the face parts that have a node and whose connection succeeds |
| BusLemmas.DetachUpToExactly | src/main/java/appeng/parts/CableBusContainer.java:553-558 | `removeFromWorld` on every part keeps exactly the links that touch none of their nodes |
| BusLemmas.RefreshedKeepsParts | src/main/java/appeng/parts/CableBusContainer.java:284-291 | `updateConnections` and `partChanged` change only the sides nodes are exposed on, so contents, invariants and the render flag are kept |
| BusLemmas.RefreshedExposesCable | src/main/java/appeng/parts/CableBusContainer.java:483-495 | after a refresh the cable is exposed on all sides except the occupied and blocked ones |
| BusLemmas.WithLiveKeeps | src/main/java/appeng/parts/CableBusContainer.java:497-561 | bringing every part into or out of the world keeps the contents, the compatibility invariant and the render flag, and makes liveness match the new in-world flag |
| BusLemmas.AttachKeepsInvariant | src/main/java/appeng/parts/CableBusContainer.java:156-248 | every outcome of `addPart` keeps the host well formed and compatible (faces hold no cable, every face part fits the cable) |
| BusLemmas.FailedAttachTouchesOnlyTarget | src/main/java/appeng/parts/CableBusContainer.java:172-240 | an `addPart` that returns false changes nothing when refused, and when its connection failed leaves its target slot empty and every other slot unchanged |
| BusLemmas.CableRollbackRestoresStorage | src/main/java/appeng/parts/CableBusContainer.java:196-204 | a cable whose connection failed is taken out of the centre, so the storage is as before |
| BusLemmas.AttachContents | src/main/java/appeng/parts/CableBusContainer.java:172-248 | an attached part adds exactly its entry at its target slot and every other slot keeps its part; an unplaced part leaves the contents unchanged |
| BusLemmas.FailedAttachKeepsLinks | src/main/java/appeng/parts/CableBusContainer.java:196-240 | a failed attach of a part that had no links leaves the host's links unchanged |
| BusLemmas.AttachedFaceLinksToCable | src/main/java/appeng/parts/CableBusContainer.java:226-242 | an attached face part is linked to the cable exactly when both have nodes |
| BusLemmas.ReplacedSlot | src/main/java/appeng/parts/CableBusContainer.java:266-269 | when the re-added part lands in the slot it was asked for, the slot holds that part, live when the host is, and every other slot keeps its part up to exposure |
| BusLemmas.LandsIff | src/main/java/appeng/parts/CableBusContainer.java:156-248 | adding to an empty slot puts a part in that very slot exactly when the attempt attaches the part and its target is that slot |
| BusLemmas.AttemptIgnoresExposure | src/main/java/appeng/parts/CableBusContainer.java:156-248 | the outcome of `addPart` does not depend on the sides nodes are exposed on, so the refresh in `removePart` does not change what the following add does |
| BusLemmas.ItemsInstallable | src/main/java/appeng/parts/CableBusContainer.java:129-153 | a valid host whose parts the catalog made lists, for each slot, an item whose part is a cable exactly at the centre and fits the cable there |
| BusLemmas.InstallsIntoFresh | src/main/java/appeng/parts/CableBusContainer.java:156-248 | filling a host in slot order, with every connection succeeding, each next listed part is attached in its own slot |
| BusLemmas.FreshSlotReadable | src/main/java/appeng/parts/CableBusContainer.java:738-765 | reading a fitting stream into a host that was empty, every slot whose bit is set can be read |
| BusLemmas.FreshSlotLoads | src/main/java/appeng/parts/CableBusContainer.java:820-851 | loading a fitting document into a host that was empty, each slot to be replaced is empty and its saved part is attached there |
| BusLemmas.SavedItemsOfSaved | src/main/java/appeng/parts/CableBusContainer.java:775-797 | the items a saved document would reinstall are exactly the saved host's items, slot by slot |
| BusLemmas.FromCatalogStep | src/main/java/appeng/parts/CableBusContainer.java:738-765 | changing one slot to a part the catalog made, and nothing else but exposure, keeps every part one the catalog made |
| BusLemmas.MaskUpToBits | src/main/java/appeng/parts/CableBusContainer.java:709-715 | bit x of the partial mask is set exactly when x is below the loop counter and slot x is occupied |
| BusLemmas.MaskBits | src/main/java/appeng/parts/CableBusContainer.java:709-716 | bit x of the leading byte is set exactly when the slot at index x (the centre at index 6) is occupied |
| BusLemmas.ParseEncoded | src/main/java/appeng/parts/CableBusContainer.java:718-743 | reading where the entries of slots x.. were written yields exactly those slots' item ids and payloads |
| BusLemmas.DecodeEncodedStream | src/main/java/appeng/parts/CableBusContainer.java:708-773 | decoding what `writeToStream` writes gives back every occupied slot's item id and payload, and no other slot |
| BusLemmas.ParsedSlots | src/main/java/appeng/parts/CableBusContainer.java:738-765 | every entry the reader decodes belongs to a slot whose bit is set |
| BusLemmas.ParsedSlotsComplete | src/main/java/appeng/parts/CableBusContainer.java:738-765 | every slot whose bit is set is present in what the reader decodes |
| BusLemmas.KeysDistinct | src/main/java/appeng/parts/CableBusContainer.java:790-824 | the `def:` keys of different slots differ, as do their `extra:` keys; no `def:` key equals an `extra:` key; neither equals `hasRedstone` |
| BusLemmas.RedstoneOrdinalRoundTrip | src/main/java/appeng/parts/CableBusContainer.java:776-818 | reading back the saved ordinal of the redstone state gives that state |
| BusLemmas.SavedDocumentSlots | src/main/java/appeng/parts/CableBusContainer.java:775-797 | the saved document holds the redstone ordinal and, for every part, two compounds under its slot's keys, with the part's item and state; a slot without a part keeps what the document had |
| BusLemmas.SavedDocumentKeepsOtherKeys | src/main/java/appeng/parts/CableBusContainer.java:775-797 | keys that belong to no slot and are not `hasRedstone` survive the save |
| BusLemmas.InPlaceChangeStep | src/main/java/appeng/parts/CableBusContainer.java:736-751 | the change flag after x + 1 slots is the flag after x slots or an in-place change at slot x |
| CableBus.CableBusContainer.constructor | src/main/java/appeng/parts/CableBusContainer.java:84-99 | a new host is empty, not in the world, with redstone undecided, no caches, no links and the render flag off |
| CableBus.CableBusContainer.ArePartsCompatibleWithCable | src/main/java/appeng/parts/CableBusContainer.java:250-263 | true exactly when every face part can be placed on the cable's bus kind |
| CableBus.CableBusContainer.CanAddPart | src/main/java/appeng/parts/CableBusContainer.java:129-153 | true exactly for a facade the side accepts, a cable when the centre is free and every face part fits it, or a face part on a free face that fits the cable (if any); a non-cable with no side is refused |
| CableBus.CableBusContainer.IsEmpty | src/main/java/appeng/parts/CableBusContainer.java:429-447 | true exactly when none of the seven slots holds a part and none of the six faces holds a facade |
| CableBus.CableBusContainer.GetLightValue | src/main/java/appeng/parts/CableBusContainer.java:695-706 | the maximum light level over the parts: at least 0 and at least every part's level, and either 0 or some part's level |
| CableBus.CableBusContainer.GetGridNode | src/main/java/appeng/parts/CableBusContainer.java:564-578 | a side whose part has an outward node reports that node; any other side reports the cable's node, and nothing without a cable (or with a node-less cable); a node returned belongs to one of the host's parts |
| CableBus.CableBusContainer.GetCableConnectionType | src/main/java/appeng/parts/CableBusContainer.java:581-593 | a side whose part has an outward node reports its outward type; any other side reports the cable's connection type when there is a cable, with or without a node, and NONE without a cable |
| CableBus.CableBusContainer.InvalidateShapes | src/main/java/appeng/parts/CableBusContainer.java:1069-1073 | all three caches are empty afterwards |
| CableBus.CableBusContainer.GetShape | src/main/java/appeng/parts/CableBusContainer.java:1016-1022 | a filled cache is returned unchanged; an empty one is filled with the shape of the current parts and facades |
| CableBus.CableBusContainer.GetCollisionShape | src/main/java/appeng/parts/CableBusContainer.java:1027-1043 | item entities use one cache and everything else the other; each is filled only when empty, and the other cache is untouched |
| CableBus.CableBusContainer.HasRedstone | src/main/java/appeng/parts/CableBusContainer.java:421-471 | the tri-state is decided from the neighbour signal only while undecided; afterwards it is decided and the result is whether it is YES |
| CableBus.CableBusContainer.OnNeighborChanged | src/main/java/appeng/parts/CableBusContainer.java:658-670 | redstone becomes undecided and all three caches are empty |
| CableBus.CableBusContainer.UpdateDynamicRender | src/main/java/appeng/parts/CableBusContainer.java:473-481 | the flag is set exactly when some face part requires dynamic rendering |
| CableBus.CableBusContainer.UpdateConnections | src/main/java/appeng/parts/CableBusContainer.java:483-495 | with a cable present, it is exposed on exactly the six directions minus the occupied and blocked faces; without one nothing changes; no slot is added or lost |
| CableBus.CableBusContainer.DropFacades | src/main/java/appeng/parts/CableBusContainer.java:388-404 | every facade is removed; since the facade container calls `invalidateShapes` (line 113), the three caches are emptied when a facade was there and kept when none was |
| CableBus.CableBusContainer.ExposeFaceNodes | src/main/java/appeng/parts/CableBusContainer.java:406-416 | every face part with an outward node is exposed on its own side only; nothing else changes |
| CableBus.CableBusContainer.PartChanged | src/main/java/appeng/parts/CableBusContainer.java:387-419 | without a cable the facades are dropped, emptying the caches when there were any; with a cable, or with no facade, facades and caches are kept; the face nodes are re-exposed |
| CableBus.CableBusContainer.UpdateAfterPartChange | src/main/java/appeng/parts/CableBusContainer.java:284-291 | caches emptied, render flag recomputed, cable exposure and face nodes refreshed, facades dropped when there is no cable |
| CableBus.CableBusContainer.AttachCable | src/main/java/appeng/parts/CableBusContainer.java:172-208 | the cable is placed and linked to every face node; on the first failed connection the centre is cleared and the cable's links are dropped; success exactly when no connection fails |
| CableBus.CableBusContainer.AttachFace | src/main/java/appeng/parts/CableBusContainer.java:209-243 | the part is placed at its face and linked to the cable; if that connection fails the face is cleared and the part's links are dropped |
| CableBus.CableBusContainer.AddPart | src/main/java/appeng/parts/CableBusContainer.java:156-248 | the result is true exactly when the attempt attaches the part or leaves a non-cable for the centre unplaced. The new storage and links are those the attempt determines: refused changes nothing, a failed connection clears only the target, success places the part and refreshes, unplaced only refreshes. The invariant is kept, and the facades, render flag and caches change only when the result is true |
| CableBus.CableBusContainer.AddCable | src/main/java/appeng/parts/CableBusContainer.java:172-208 | the cable branch of `addPart`: refused when the centre is taken or some face part does not fit; otherwise the new storage and links are those the attempt determines, the invariant is kept, and on success the host is refreshed |
| CableBus.CableBusContainer.AddFace | src/main/java/appeng/parts/CableBusContainer.java:209-243 | the face branch of `addPart`: refused when the part does not fit the cable; otherwise the new storage and links are those the attempt determines, the invariant is kept, and on success the host is refreshed |
| CableBus.CableBusContainer.RemovePartWithoutUpdates | src/main/java/appeng/parts/CableBusContainer.java:293-305 | the slot becomes empty, nothing else changes, and exactly the links touching one of the removed part's node ids are dropped |
| CableBus.CableBusContainer.RemovePart | src/main/java/appeng/parts/CableBusContainer.java:272-282 | the slot is removed and the host refreshed; cleanup is requested exactly when the host is in the world and now empty |
| CableBus.CableBusContainer.RefreshValid | src/main/java/appeng/parts/CableBusContainer.java:284-291 | `updateAfterPartChange`: the storage becomes its refreshed form (exposure recomputed, facades dropped without a cable), the contents are unchanged, the dynamic-render flag is recomputed and the shape caches are emptied |
| CableBus.CableBusContainer.ReplacePart | src/main/java/appeng/parts/CableBusContainer.java:266-269 | remove then add, with no refresh in between: the result, the storage and the links are those of `addPart` on the emptied slot, starting from the links without the removed part's; a failed add leaves the slot empty with no restore, every other slot, the facades and the render flag unchanged |
| CableBus.CableBusContainer.BringPartsLive | src/main/java/appeng/parts/CableBusContainer.java:508-541 | every part is live afterwards; the links gained are exactly the successful cable-to-face connections |
| CableBus.CableBusContainer.AddToWorld | src/main/java/appeng/parts/CableBusContainer.java:497-543 | a second call changes nothing; the first makes every part live, adds the cable-to-face links, re-exposes face nodes and drops facades without a cable, emptying the caches exactly when a facade was dropped |
| CableBus.CableBusContainer.TakePartsOffline | src/main/java/appeng/parts/CableBusContainer.java:553-558 | every part is out of the world, and every link touching one of their nodes is gone |
| CableBus.CableBusContainer.RemoveFromWorld | src/main/java/appeng/parts/CableBusContainer.java:545-561 | when not in the world nothing changes; otherwise every part goes offline with its links, the caches are emptied and the parts are refreshed |
| CableBus.CableBusContainer.OccupancyMask | src/main/java/appeng/parts/CableBusContainer.java:709-715 | bit x of the mask is set exactly when the slot at index x is occupied |
| CableBus.CableBusContainer.WriteToStream | src/main/java/appeng/parts/CableBusContainer.java:708-731 | the tokens are the occupancy byte, then an item id and a payload for each occupied slot in slot order |
| CableBus.CableBusContainer.LoadPayload | src/main/java/appeng/parts/CableBusContainer.java:749-843 | the part at the slot takes the new state; nothing else changes and the invariant is kept |
| CableBus.CableBusContainer.ReplaceFromStream | src/main/java/appeng/parts/CableBusContainer.java:752-760 | remove then re-add: the invalid-stream error exactly when the add returns false; no error exactly when the part attaches in this very slot, which then holds the catalog's part for the item, live when the host is; the other slots keep their parts |
| CableBus.CableBusContainer.ReadPresentSlot | src/main/java/appeng/parts/CableBusContainer.java:740-761 | succeeds exactly when the payload token is there and the slot either keeps a part of the streamed item or the re-added part lands in it. A kept part reads the payload in place and nothing else changes; a replaced slot holds the catalog's part with the payload. A change is reported exactly when the same item read a different payload in place |
| CableBus.CableBusContainer.ClearSlot | src/main/java/appeng/parts/CableBusContainer.java:762-764 | a clear bit leaves the slot empty and the other slots with their parts |
| CableBus.CableBusContainer.ReadSlot | src/main/java/appeng/parts/CableBusContainer.java:738-765 | succeeds exactly when a set bit's slot can be read; consumes exactly that slot's entry and reconciles the slot with it; keeps every part one the catalog made |
| CableBus.CableBusContainer.ReadFromStream | src/main/java/appeng/parts/CableBusContainer.java:733-773 | a stream that cannot be decoded is an error. On success the slots are exactly those whose bit was set, each with the streamed payload, and the contents equal the decoded stream under a consistent catalog. The result is true exactly when some kept part read a changed payload, and the caches are empty. Into an empty host a fitting stream always succeeds |
| CableBus.CableBusContainer.ReadSlots | src/main/java/appeng/parts/CableBusContainer.java:738-765 | the slot loop of `readFromStream`: on success the entries read, joined with the rest of the tokens, are the decoded stream, every slot is reconciled with its decoded entry, and the flag is true exactly when some kept part read a changed payload; into an empty host a fitting stream always succeeds |
| CableBus.CableBusContainer.ReadNextSlot | src/main/java/appeng/parts/CableBusContainer.java:738-765 | one turn of the slot loop of `readFromStream`: on success the entries read so far, joined with the rest of the tokens, are still the decoded stream, one more slot is reconciled, and the flag gains exactly that slot's in-place change; a fitting stream into an empty host cannot fail at this slot |
| CableBus.CableBusContainer.WriteToNBT | src/main/java/appeng/parts/CableBusContainer.java:775-797 | the document gains the redstone ordinal and, for every part, its item and state under `def:`/`extra:` plus the slot id |
| CableBus.CableBusContainer.LoadSlot | src/main/java/appeng/parts/CableBusContainer.java:820-851 | one slot of the loader: without both compounds the slot is cleared; an empty stack leaves it alone; otherwise it holds the saved state, or it is empty and warned about exactly when the add returned false, or the error exactly when the add succeeded but not in this slot; other slots keep their parts; parts stay ones the catalog made |
| CableBus.CableBusContainer.LoadSavedPart | src/main/java/appeng/parts/CableBusContainer.java:834-848 | the saved-stack branch of the loader: a part of the saved item reads the saved state in place; otherwise the slot holds the saved state, or is empty and warned about exactly when the add returned false, or the error exactly when the add succeeded but not in this slot; other slots keep their parts; parts stay ones the catalog made |
| CableBus.CableBusContainer.InstallPart | src/main/java/appeng/parts/CableBusContainer.java:840-848 | the replace branch of the loader: `Ok(true)` exactly when the add returns false, the error exactly when it succeeds but not in this slot; every other slot is unchanged; a part left in the slot is the stack's part, live when the host is, with the saved payload |
| CableBus.CableBusContainer.ReadFromNBT | src/main/java/appeng/parts/CableBusContainer.java:813-855 | the caches are emptied and an out-of-range redstone ordinal is an error; otherwise the redstone state is restored when present, every slot is loaded as one slot of the loader promises, and the warned slots are returned. Into an empty host a fitting document loads with no error and no warned slot |
| CableBus.StreamRoundTrip | src/main/java/appeng/parts/CableBusContainer.java:708-773 | a host reading another host's stream ends with the same slots holding the same payloads, and the same contents under a consistent catalog; into an empty host, with parts the catalog made and every connection succeeding, the read succeeds |
| CableBus.NbtRoundTrip | src/main/java/appeng/parts/CableBusContainer.java:775-855 | saving into an empty document and loading restores the redstone state with no ordinal error. Each saved slot is either restored with its state (and item, under a consistent catalog) or reported; no other slot is occupied. Into an empty host, with parts the catalog made and every connection succeeding, nothing is reported and the contents are restored |
| CableBus.AttachedFaceLinksToGridNode | src/main/java/appeng/parts/CableBusContainer.java:564-578 | a face part attached to a free side is reached there through the cable, and the one link `addPart` makes for it joins that side's grid node to the part's node |
| CableBus.AttachedFaceServesItsSide | src/main/java/appeng/parts/CableBusContainer.java:564-593 | after `addPart` attaches a face part with an outward node, that side's grid node is the part's outward node and its connection type the part's outward type |
| CableBus.RemoveWithoutUpdatesTwice | src/main/java/appeng/parts/CableBusContainer.java:293-305 | removing a slot's part twice has the effect of removing it once |

## Left out

- BusModel.YesNoAt: the `YesNo` enum's declaration is not part of this model; its ordinals are taken to be YES 0, NO 1, UNDECIDED 2, the order of its declaration.
- CableBus.CableBusContainer.RemovePartWithoutUpdates: node ids come from `catalog`, so two parts made from one item share them, and removing one drops every link touching those ids, the other part's included; in the source each created part has its own grid node and only the removed part's node is destroyed (CableBusContainer.java:300-301). The same holds for the rollbacks in `AttachCable` and `AttachFace`, for `ReplacePart` and for `TakePartsOffline`. A fresh-id supply is not modelled because the round trips compare parts by their catalog identity.
- The blocked sides are fixed when the host is built. `isBlocked` is a query to the host block each time `updateConnections` runs (CableBusContainer.java:488), so a block whose blocking changes over time is not captured.
- Geometry and floating point: `createShape` unions part boxes into a `VoxelShape`. The model's `Shape` records only which parts and facades were united for which query. `selectPart` and `getCableConnectionLength` are not modelled.
- Rendering (`getRenderState`, `getFacadeRenderState`) is client-side assembly and is not modelled.
- The facade container's own stream and document layout: `writeToStream`, `readFromStream`, `writeToNBT` and `readFromNBT` of `FacadeContainer` are not part of this model. The host keeps only the set of faces carrying a facade.
- CableBus.CableBusContainer.ReadFromStream: the returned flag omits the facade container's contribution (`updateBlock |=` its stream read). A part's own `readFromStream` is taken to report a change exactly when its payload differs.
- The thread-local `IS_LOADING` re-entrancy flag is not modelled; it only guards callers outside the host.
- The host callbacks `markForUpdate`, `markForSave`, `notifyNeighbors` and `tcb.partChanged` are not modelled. `cleanup` is kept as a ghost counter.
- Facade drops: `Platform.spawnDrops` is a world side effect. Only the removal of the facades is modelled.
- `setPartHostInfo` and `onPlacement` (player and hand) are not modelled. The readers pass no player, and the host-info wiring is foreign code.
- The redstone signal (`getBestNeighborSignal`) is the parameter `neighborSignal`. The per-part neighbour callbacks in `onNeighborChanged` are foreign and left out.
- Item stacks are reduced to item ids. `isEqualItemType` and the `Item.getId`/`Item.byId` registry are modelled as identity on ids plus the `catalog` parameter.
- A failed grid connection inside `addToWorld` is only logged, so the model drops that link silently, as the code does. The exception object and the log are not modelled.
- Ticking.TickTracker.NextTick: `lastTick + currentRate` is unbounded here; the 64-bit `long` overflow is not modelled, because ticks never approach 2^63.
- The adaptive scheduler loop (rate modulation, sleep and wake) is not part of this model; only `TickTracker` itself is.
- `addEntityCrashInfo`, the tracker's statistics and its node and device references are diagnostics or foreign references and are not modelled.
- `activate`, `clicked`, `onEntityCollision`, `animateTick`, `isLadder`, `getDrops` and `recolourBlock` only delegate to the parts and are not modelled.
