# Verified core of the Motr storage engine

A Dafny model of the parts of Motr that keep data in place: the extent map, the
two allocators, backend I/O, log discard, and the trace format with its storage.
Each part that the C code updates in place is a class whose methods follow the
code branch by branch; each method is proved against functions on values, and
the properties of those functions, of runs, and of interleavings are lemmas.

| files | models |
|---|---|
| `ExtMapModel.dfy`, `ExtMap.dfy` | the extent map: b-tree records keyed by segment end, cursor, split, merge, paste |
| `AllocModel.dfy`, `Alloc.dfy`, `AllocRuns.dfy` | the segment allocator: chunks, free lists, aligned split, merge, zones; runs with a ledger of regions |
| `BallocModel.dfy`, `BallocDb.dfy`, `BallocSearch.dfy`, `Balloc.dfy`, `BallocRuns.dfy` | the block allocator: free lists, their tree, the search context, the allocator, interleaved runs |
| `Addb2Model.dfy`, `Addb2.dfy` | trace encoding, decoding cursor, the machine with its buffers |
| `Addb2Storage.dfy` | packing traces into frames, the frame ring on a device, the reading iterator, reading back what a run wrote |
| `BeIoModel.dfy`, `BeIo.dfy` | I/O vectors shared by parts, coalescing, winding round a window in place |
| `IoSched.dfy` | the ordered I/O scheduler |
| `LogDiscard.dfy` | the state machine that discards log records |
| `BeList.dfy` | the persistent doubly linked ring |
| `Prelude.dfy` | what the others share |

`dafny verify dfyconfig.toml` checks all of it.

Conventions. A b-tree is a map, searched by least key. A C list is a sequence,
except in `BeList`, where the pointers are the subject. One critical section of a
lock is one method; what happens while the lock is given up is another step, and
the runs (`AllocRuns.Run`, `BallocRuns.Run`, `IoSched.Run`, `LogDiscard.Run`,
`Addb2Storage.Run`) let the steps come in any order the code allows. Clocks,
granted buffers and sensor readings are parameters. Histories and the device of
the trace storage do not exist as such in the C code. Where C leaves the result
undefined (an index past the group array, a shift of an `int` by too much, an
underflow), the operation returns an outcome of its own there and is not followed
further; its contract says exactly when.

Where the code and what one would expect of it differ:

- A paste with a left but no right call-back stores the left call-back's value in
  the right remainder too, because both are taken from the same segment record.
  `ExtMapModel.PasteWithoutRightCut` says exactly when this is harmless, and
  `RightValueLost` gives a paste where it is not.
- Reserving an empty extent between two free blocks of a group cuts a free extent
  into two that touch. `Balloc.Allocator.ReserveExtent` and
  `BallocModel.EmptyReservation` say exactly when the invariant survives;
  `EmptyReservationCuts` is an input for which it does not.
- The buddy search starts from a minimum of 0xffffffff blocks and returns it when
  no extent it looks at is shorter: `BallocSearch.ShortestMeans`, with the input
  in `SentinelReturned`. An allocator is taken to have groups shorter than that.
- A request reduced to 2^31 blocks makes the exact search shift an `int` by 31
  places once a group has so long an extent: `Balloc.ShiftFailsAtLimit`, with the
  input in `ShiftFailsSomewhere`.
- The range test of a free compares group numbers and lets a run through that
  ends inside the group behind the last one: `Balloc.RangeTestExact`, with the
  input in `RangeTestPasses`; `Balloc.Allocator.FreeInternal` says what then happens.
- A flush while the first item is still starting ends in a failed check;
  `LogDiscard.Discarder.CheckSync` and `Flush` say exactly when, and
  `FlushWhileStarting` is such a run.
- Winding an element round a window is only right if the wrapped piece is no
  longer than the window, which the code does not test: `BeIoModel.PlacedInside`,
  with the input in `PlacedOutside`; `BeIo.Io.StobMove` says what then happens.

## Model

| member | source | states |
|---|---|---|
| `ExtMapModel.Slant` | be/extmap.c:1351-1366 | The slant search returns the least key not below the one asked for, or nothing when every key is below it. |
| `ExtMapModel.SlantFindsSegment` | be/extmap.c:1263-1277 | In a partition the least key not below offset + 1 belongs to the one segment that contains the offset. |
| `ExtMapModel.InsertPartition` | be/extmap.c:911-963 | An insert makes one segment over the whole range, every offset with the given value, and touches no other prefix; an existing map is not changed. |
| `ExtMapModel.PartitionIffCoversOnce` | be/extmap.c:1420-1451 | The record-by-record invariant holds if and only if every offset of [0, M0_BINDEX_MAX + 1) lies in exactly one non-empty segment. |
| `ExtMapModel.SplitKeepsPartition` | be/extmap.c:1515-1567 | Splitting a segment into pieces of its own length meets no taken key, keeps the partition, and changes no offset outside the segment and no other prefix. |
| `ExtMapModel.SplitValues` | be/extmap.c:1515-1567 | After a split every offset of piece i has the value given for piece i, empty pieces being skipped. |
| `ExtMapModel.MergeFindsNext` | be/extmap.c:549-565 | From the shrunk or deleted segment the tree searches of merge reach its old successor. |
| `ExtMapModel.MergeKeepsPartition` | be/extmap.c:567-605 | Merge keeps the partition and changes just the last delta offsets, which take the value of the next segment. |
| `ExtMapModel.PasteKeepsPartition` | be/extmap.c:664-830 | After a paste the map is a partition again; every offset has the new value, a cut value or its old value, depending only on where it lies. |
| `ExtMapModel.PasteMeaning` | be/extmap.c:664-830 | The result offset by offset, call-backs written out: inside the extent the new value; before it what the left call-back made of the first segment with its clip; behind it what the right call-back made of the last segment, whose record holds the left call-back's value already if both sides survive; elsewhere the old value. |
| `ExtMapModel.PasteWithoutRightCut` | be/extmap.c:752-769 | With no right call-back the right part keeps its value if and only if no left part of the same segment survives, there is no left call-back, or the left call-back leaves the value alone. |
| `ExtMapModel.RightValueLost` | be/extmap.c:752-769 | A concrete paste with a left but no right call-back whose right remainder changes value. |
| `ExtMapModel.RightCutCalled` | be/extmap.c:752-769 | A concrete paste whose right remainder has the value the right call-back returns. |
| `ExtMapModel.PasteConsumes` | be/extmap.c:721-800 | An iteration that does not reach the end of the extent turns the map that is hollow up to x into the one that is hollow up to the end of the segment. |
| `ExtMapModel.PasteAdvances` | be/extmap.c:803-821 | In the porous map the searches of the loop still reach the next old segment. |
| `ExtMapModel.PasteInserts` | be/extmap.c:721-800 | The last iteration meets no taken key and turns the porous map into the result of the paste. |
| `ExtMapModel.PasteResultIs` | be/extmap.c:721-821 | The values the loop collects are those the paste is meant to store. |
| `ExtMapModel.PasteAccounting` | be/extmap.c:721-821 | The clips of the visited segments are disjoint with union the pasted extent; a segment is visited once if it meets the extent and else never, deleted iff wholly covered, cut on a side iff a non-empty part survives there. |
| `ExtMapModel.SegmentVisited` | be/extmap.c:721-821 | Every segment that meets the extent is visited. |
| `ExtMapModel.StepKeepsMaps` | be/extmap.c:567-1007 | Insert, delete, split, merge and paste each keep every prefix absent or a partition and touch no other prefix. |
| `ExtMapModel.RunKeepsMaps` | be/extmap.c:567-1007 | The same over every run; a prefix that no operation names keeps its records. |
| `ExtMap.Emap.ObjInsert` | be/extmap.c:911-963 | Creates the one-segment map, or reports that the prefix exists and changes nothing. |
| `ExtMap.Cursor.Lookup` | be/extmap.c:1351-1366 | Lands on the segment that contains the offset; its two errors tell an absent prefix with and without a later one. |
| `ExtMap.Cursor.Next` | be/extmap.c:512-524 | Whatever was done to the map since, as long as it is a partition, the cursor lands on the segment containing the end of the one it stood on. |
| `ExtMap.Iterate` | be/extmap.c:512-524 | A whole walk with Next from offset 0, the map being changed between the steps in any way that leaves it a partition: every offset is in some visited segment, each segment was in the map at the version it was read from, and between visits of one version nothing is visited twice. |
| `ExtMap.Cursor.SplitAt` | be/extmap.c:1515-1567 | The loop over the vector performs the specified split and leaves the cursor where the last search puts it. |
| `ExtMap.Cursor.Split` | be/extmap.c:607-622 | A split of the whole segment under the cursor. |
| `ExtMap.Cursor.Merge` | be/extmap.c:567-605 | The tree becomes the specified merge and the cursor stands on the grown successor. |
| `ExtMap.Cursor.PasteStep` | be/extmap.c:721-821 | One iteration: keeps the porous-map invariant, or completes the paste. |
| `ExtMap.Cursor.Paste` | be/extmap.c:664-830 | The loop yields the specified result, and the visits it records are those PasteAccounting speaks about. |
| `ExtMap.Cursor.ObjDelete` | be/extmap.c:965-1007 | Removes a map in its initial state; fails for an absent one. |
| `AllocModel.SplitKeepsZone` | be/alloc.c:625-675 | Splitting a chunk at an aligned start keeps the zone tiled by its chunks, no two neighbours free, sizes and addresses multiples of 8, at most one header lost in front. |
| `AllocModel.SplitKeepsUsers` | be/alloc.c:625-675 | Every chunk in use keeps its address and at least its size. |
| `AllocModel.SplitWaste` | be/alloc.c:625-675 | What a split does with the space: the new chunk is at the asked place with at most one header of slack; a rest behind it is a free chunk up to the old end; a gap in front of it is a free chunk, or slack of the chunk before when it is too small. |
| `AllocModel.FreeKeepsZone` | be/alloc.c:1138-1186 | Freeing and merging with both neighbours keeps the same zone invariant. |
| `AllocModel.FreeKeepsUsers` | be/alloc.c:1138-1186 | Every other chunk in use is unchanged. |
| `AllocModel.FreeReleases` | be/alloc.c:1138-1186 | The freed space lies in one free chunk afterwards, and no chunk in use is at the freed address. |
| `AllocModel.StartAtMin` | be/alloc.c:686-711 | At minimum alignment the computed place of a block is the start of the chunk, in both alignment modes. |
| `AllocModel.FreeUndoesSplit` | be/alloc.c:716-740 | At minimum alignment freeing what was just carved at the computed place restores the chunk list, slack absorbed or not. |
| `AllocModel.PaddedSizeFits` | be/alloc.c:1072-1085 | A chunk of the padded size can be split at every alignment, in both alignment modes. |
| `AllocModel.UnroundedTestSuffices` | be/alloc.c:686-711 | The size test, made before rounding, is enough for the split that is made after rounding. |
| `AllocModel.ZoneSeparate` | be/alloc.c:86-101 | User regions of the chunks are disjoint and inside the zone. |
| `AllocModel.RunKeepsZone` | be/alloc.c:86-101 | Over every run of splits and merges of a chunk list the zone invariant and the separation of user regions hold; AllocRuns.Run states it for the allocator. |
| `Alloc.IndexBounds` | be/fl.c:128-141 | How the two roundings of the size class compare any request with any chunk. |
| `Alloc.FreeLists.Add` | be/fl.c:151-163 | Puts a chunk into the list of its class; the lists hold that set of chunks, each once. |
| `Alloc.FreeLists.Del` | be/fl.c:165-176 | Takes a chunk out of the list of its class. |
| `Alloc.FreeLists.Pick` | be/fl.c:178-216 | Returns a large enough chunk: the first one of the least non-empty class not below the class of the request, in the last class the best fit of the first ones. For sizes that are multiples of 8 it fails if and only if no free chunk is large enough (strictly larger, in the last class). |
| `Alloc.LeastClass` | be/fl.c:178-216 | The least class is the best fit: no free chunk outside the last class that is large enough is smaller. |
| `Alloc.FreeLists.ScanLarge` | be/fl.c:178-216 | The scan of the last class fails if and only if no chunk is strictly larger, and is best-fit among the first ones. |
| `Alloc.Zone.AddAfter` | be/alloc.c:547-582 | Inserts a chunk behind another, with its place in the free lists. |
| `Alloc.Zone.TryAddFreeAfter` | be/alloc.c:603-622 | Turns left-over space into a free chunk, or into slack of the chunk before it when it is too small for a header. |
| `Alloc.Zone.Split` | be/alloc.c:625-675 | Removes and inserts chunks so that list and free lists become those of the specified split. |
| `Alloc.Zone.TrySplit` | be/alloc.c:678-714 | Splits if and only if the chunk is free and the aligned request fits. |
| `Alloc.Zone.TryMerge` | be/alloc.c:716-740 | Joins two chunks if and only if both are free. |
| `Alloc.Zone.Free` | be/alloc.c:1138-1186 | Marks the chunk free and merges on both sides; the list becomes the specified one. |
| `Alloc.Allocator.AllocAligned` | be/alloc.c:1047-1121 | Fails exactly when no zone of the mask has a large enough chunk; else takes the first such zone and there a best-fitting chunk, the pointer is aligned as asked, the new chunk is in use, long enough and at most one header longer than the rounded request, the chunk list is the specified split, the other zone untouched; the split after a pick cannot fail. |
| `Alloc.InMaskMeans` | be/alloc.c:1074-1079 | Zones are asked for by the two lowest bits of the mask. |
| `Alloc.Allocator.FreeAligned` | be/alloc.c:1138-1186 | Finds the one zone the pointer is in use in and frees its chunk there: the pointer is in use nowhere afterwards and its space lies in a free chunk. The other zone is left alone. |
| `AllocRuns.SoundMeans` | be/alloc.c:86-101 | If every region of the ledger is a used chunk, the regions are aligned as promised, each inside one zone, and no two overlap, across zones too. |
| `AllocRuns.HonouredAfterSplit` | be/alloc.c:1047-1121 | A split keeps every region of the ledger, and the new pointer is none of them. |
| `AllocRuns.HonouredAfterFree` | be/alloc.c:1138-1186 | A free keeps every other region of the ledger. |
| `AllocRuns.Serve` | be/alloc.c:1047-1121 | A request fails exactly when every zone of the mask is exhausted; else the ledger gains a region that was in nobody's hands. |
| `AllocRuns.TakeBack` | be/alloc.c:1138-1186 | Giving a region back removes it from the ledger and nothing else. |
| `AllocRuns.Run` | be/alloc.c:86-101 | Over every run of requests and frees: after every call the free lists are exact and the regions handed out and not given back are used chunks at their address, no smaller, aligned as asked, inside a zone and disjoint. |
| `AllocRuns.ThereAndBack` | be/alloc.c:1047-1186 | An allocation at minimum alignment that is freed at once leaves the chunk lists of both zones as they were, but for the alignment noted in one free chunk. |
| `BallocModel.AllocatedOk` | balloc/balloc.c:1717-1774 | Taking an extent out of a free one keeps the list sorted, disjoint and coalesced and reduces its total by just that length. |
| `BallocModel.AllocatedBlock` | balloc/balloc.c:1717-1774 | Exactly the blocks of the extent stop being free. |
| `BallocModel.EmptyReservation` | balloc/balloc.c:2915-2979 | Reserving an empty extent leaves the list coalesced if and only if it starts where its free extent starts. |
| `BallocModel.EmptyReservationCuts` | balloc/balloc.c:2915-2979 | A concrete empty reservation that leaves two touching extents. |
| `BallocModel.FirstOfExtent` | balloc/balloc.c:1654-1673 | A free block starts its extent if and only if the block before it is not free. |
| `BallocModel.ApartMeans` | balloc/balloc.c:1840-1857 | Comparing with the two neighbours decides whether any block of the extent is free already. |
| `BallocModel.FreedOk` | balloc/balloc.c:1861-2020 | Freeing, with joins on either side, keeps the list coalesced; total and longest extent are as expected. |
| `BallocModel.FreedBlock` | balloc/balloc.c:1861-2020 | Exactly the blocks of the extent become free. |
| `BallocModel.CoalescedUnique` | balloc/balloc.c:1803-2050 | The set of free blocks determines the list: two coalesced lists with the same blocks are equal. |
| `BallocModel.FreeUndoesAlloc` | balloc/balloc.c:1803-2050 | Freeing what was allocated restores the list. |
| `BallocDb.DbAllocOk` | balloc/balloc.c:1717-1774 | The tree of free extents follows an allocation and is unchanged outside the group. |
| `BallocDb.DbFreeOk` | balloc/balloc.c:1861-2020 | The tree of free extents follows a free and is unchanged outside the group. |
| `BallocSearch.StepTo` | balloc/balloc.c:1588-1589 | The first aligned place not before the best extent. |
| `BallocSearch.FindExtentBuddy` | balloc/balloc.c:1516-1581 | Of the aligned extents that are long enough it looks at those up to the first exact fit or the eleventh, and returns how many and the shortest, starting from the sentinel. |
| `BallocSearch.ShortestMeans` | balloc/balloc.c:1516-1581 | The sentinel comes back if and only if every extent looked at is as long as it; else a shortest of those looked at does. |
| `BallocSearch.SentinelReturned` | balloc/balloc.c:1516-1581 | One free extent of 2^32 blocks for which the sentinel comes back, far from any free block. |
| `BallocSearch.NoSentinel` | balloc/balloc.c:1516-1581 | In groups shorter than the sentinel a search that finds anything finds an extent of the list. |
| `BallocSearch.Context.UseBestFound` | balloc/balloc.c:1583-1604 | The final extent is a piece of the best one, of exactly the goal length or the whole of it if it is shorter, at the first aligned place if an aligned piece fits. |
| `BallocSearch.Context.NewPreallocation` | balloc/balloc.c:1606-1614 | Trims the final extent to the request. |
| `BallocSearch.Context.CheckLimits` | balloc/balloc.c:2259-2295 | Stops the search, or uses the best extent only if it belongs to the group that is locked and is long enough. |
| `BallocSearch.Context.MeasureExtent` | balloc/balloc.c:2297-2342 | The best extent afterwards is the measured one or the old one: a longer one while the goal is not reached, then a shorter one that is longer than the goal. Below the goal the longest is kept; the search ends only with a long enough extent. |
| `BallocSearch.Context.MeasureAll` | balloc/balloc.c:2398-2417 | The loop over the extents of a group: the best one is never worse than any of them. |
| `BallocSearch.Context.WildScan` | balloc/balloc.c:2348-2417 | Whatever the context remembered before, an extent chosen here is in the list as it is now; if the goal is not reached, no extent of the list is longer than the best one; the list is never reported corrupt. |
| `BallocSearch.Context.SimpleScan` | balloc/balloc.c:2183-2227 | Succeeds if and only if there is a buddy-aligned extent that is long enough; the best one is the shortest of those looked at, and its aligned beginning of the goal length is taken, or a piece of the sentinel exactly when all extents looked at are as long as that. |
| `Balloc.GroupChanged` | balloc/balloc.c:1675-2050 | A change confined to one group keeps tree, caches, summaries and super-block in agreement. |
| `Balloc.NextMax` | balloc/balloc.c:1702-1712 | The longest extent apart from the one being cut. |
| `Balloc.CutList` | balloc/balloc.c:1717-1774 | The cached list, fragment count and longest length after an allocation. |
| `Balloc.CutDb` | balloc/balloc.c:1717-1774 | The same in the tree; keys deleted or updated are present, keys inserted are not. |
| `Balloc.FindSlot` | balloc/balloc.c:1827-1836 | The first extent that does not start before the freed one. |
| `Balloc.JoinList` | balloc/balloc.c:1861-2020 | The cached list after a free, in all the cases of the code. |
| `Balloc.JoinDb` | balloc/balloc.c:1861-2020 | The same in the tree. |
| `Balloc.Join` | balloc/balloc.c:1803-2050 | Refuses the free or brings group and tree to the freed state. |
| `Balloc.CoveredByOne` | balloc/balloc.c:1654-1673 | A run of blocks is free as a whole if and only if one extent of the list covers it. |
| `Balloc.IsExtentFree` | balloc/balloc.c:1654-1673 | The first extent that covers the target. |
| `Balloc.FindEqual` | balloc/balloc.c:2456-2465 | Finds the extent if it is in the list, though the scan stops early. |
| `Balloc.LoadList` | balloc/balloc.c:1434-1466 | The slant searches read back the whole list of the group, with its total and its longest extent. |
| `Balloc.Allocator.constructor` | balloc/balloc.c:772-852 | A formatted device: every block free, everything in agreement. |
| `Balloc.Allocator.Load` | balloc/balloc.c:1389-1482 | Caches the extents of a group. |
| `Balloc.Allocator.ReleaseExtents` | balloc/balloc.c:418-429 | Drops the cache of a group; nothing else changes. |
| `Balloc.Allocator.AllocDbUpdate` | balloc/balloc.c:1675-1801 | Cached list, tree, group summary and super-block all follow; exactly the blocks of the extent stop being free. |
| `Balloc.Allocator.FreeDbUpdate` | balloc/balloc.c:1803-2050 | Refused if and only if a block is free already, then nothing changes; else exactly the blocks of the extent become free. |
| `Balloc.Allocator.FreeInternal` | balloc/balloc.c:2765-2845 | Frees a run over several groups, with the exact condition of each outcome: out of range, a block of it free already, done, or past the device because it ends inside the group behind the last one; and what has been freed by then. |
| `Balloc.Allocator.Free` | balloc/balloc.c:3037-3058 | The same for an extent; remembers where, if all of it was freed. |
| `Balloc.RangeTestExact` | balloc/balloc.c:2792-2794 | The range test rejects exactly the ends past the device, unless the end lies strictly inside the group behind the last one. |
| `Balloc.RangeTestPasses` | balloc/balloc.c:2792-2794 | One group of four blocks, and an end at 5 that the test lets through. |
| `Balloc.Allocator.ReserveExtent` | balloc/balloc.c:2915-2979 | Succeeds if and only if the extent lies in one group and its first block and all its blocks are free, then takes just those; else changes nothing. The invariant is kept if and only if the extent is not an empty one between two free blocks of a group. |
| `Balloc.Allocator.CutNothing` | balloc/balloc.c:1675-1801 | The update with an empty target: blocks, counters and summary stay, and the state stays valid if and only if the target stands at the start of its extent. |
| `Balloc.CutAgrees` | balloc/balloc.c:1675-1801 | The same for tree, caches and summaries as values. |
| `Balloc.Allocator.HandOut` | balloc/balloc.c:2672-2680 | The final extent lies inside one extent that is free at this moment, with the exact length for that extent, and is handed out. |
| `Balloc.Allocator.AllocateBlocks` | balloc/balloc.c:2655-2682 | A scan of one locked group hands out a free extent or nothing. |
| `Balloc.Allocator.ScanGroup` | balloc/balloc.c:2572-2608 | One critical section of the search, whatever other requests did before: the exact round succeeds if and only if the group has a buddy and takes the shortest one looked at; the last round leaves no longer extent in the group than the best one. |
| `Balloc.Allocator.TryBestFound` | balloc/balloc.c:2424-2483 | Uses the remembered extent if and only if it is a free extent now. |
| `Balloc.Allocator.ScanAll` | balloc/balloc.c:2556-2612 | A pass looks at every group once, from the preferred one round the end. The exact round serves the request from the first group that has a buddy, or there is none; after the last one the best extent is as long as any, and nothing is found only if nothing is free. |
| `Balloc.Allocator.UseBestOrFirst` | balloc/balloc.c:2615-2645 | After the limits: the best extent with its exact length, or any, whenever a block is free. |
| `Balloc.Allocator.RegularAllocator` | balloc/balloc.c:2513-2653 | Without interference it terminates, succeeds if and only if a block is free, and never takes the repeat branch. A shorter extent than asked for is a longest one; a power-of-two request that some group has a buddy for is served from the first such group. |
| `Balloc.Allocator.Alloc` | balloc/balloc.c:2986-3031 | Fails if and only if no block is free; stops at the undefined shift if and only if the reduced length is a power of two of at least 2^31 and some group has an extent that long. Else hands out free blocks of exactly the reduced length, or fewer only if no free extent is longer than that; a power-of-two length with a buddy somewhere is cut aligned from a shortest buddy looked at in the first group, from the goal or the last allocation on, that has one. |
| `Balloc.Halved` | balloc/balloc.c:2724-2727 | The reduced length is at most the request and the free space, and at least half the free space when the request exceeds it. |
| `Balloc.HalvedIs` | balloc/balloc.c:2724-2727 | It is the request halved, rounding down, as often as it takes to be no more than the free space, and not once more. |
| `Balloc.ShiftFailsAtLimit` | balloc/balloc.c:2543-2546 | On every valid allocator of all lengths only 2^31 reaches the undefined shift, and only when a group has so long an extent. |
| `Balloc.ShiftFailsSomewhere` | balloc/balloc.c:2543-2546 | A free group of 2^31 blocks: the request for all of it fails, one block more or less does not. |
| `BallocRuns.GivenOnce` | balloc/balloc.c:2424-2483 | In the log of a run a block that is given out twice was taken back in between. |
| `BallocRuns.Do` | balloc/balloc.c:2512-2682 | One critical section of any request, or a release, reservation, load or eviction: what it gives or takes is exactly what the section says, given or taken if and only if the free blocks of the moment allow it, and the free blocks change by just that. |
| `BallocRuns.Run` | balloc/balloc.c:2512-2682 | In every interleaving no block is given out while it is held, held blocks are not free, and the super-block counter accounts for all of it. |
| `Addb2Model.TagParts` | addb2/addb2.c:1047-1051 | Operation, count and identifier packed into a tag word can be read back. |
| `Addb2Model.DecodeOne` | addb2/addb2.c:704-763 | Decoding one encoded operation pushes the label, pops it, or yields the record with its time and all labels of the moment; nothing else. |
| `Addb2Model.DecodeAppend` | addb2/addb2.c:704-763 | Decoding a concatenation is decoding the parts one after the other, with the label stack carried over. |
| `Addb2Model.DecodeSnoc` | addb2/addb2.c:934-948 | Appending an operation to a readable trace appends its effect. |
| `Addb2Model.ExpectedUnderLabel` | addb2/addb2.c:412-478 | Push a label, add a record: what is expected is that record under that label, with the time of the add. |
| `Addb2.Cursor.Interpret` | addb2/addb2.c:704-763 | One turn of the cursor loop yields just the item the decoding function does, or the same error and no movement. |
| `Addb2.Cursor.Next` | addb2/addb2.c:704-763 | Returns the next record of the decoded trace, its end, or an error. |
| `Addb2.ReadTrace` | addb2/addb2.c:688-763 | Reading with a fresh cursor yields the decoded records. |
| `Addb2.Machine.Put` | addb2/addb2.c:955-961 | Words are appended and decode to the effect of the operation. |
| `Addb2.Machine.Rebuild` | addb2/addb2.c:808-868 | A new buffer gets every label again and, in rotation from the sensor at which the last buffer had to stop, the readings of the sensors that find room, each under the labels up to its own; it leaves room, never packs again, and adds no data. |
| `Addb2.Machine.PlaceSensors` | addb2/addb2.c:838-855 | The sensors of one label: just those whose turn it is are read, in order, until room runs short, and then the place to go on from is noted. |
| `Addb2.Machine.PlaceSensor` | addb2/addb2.c:1065-1079 | A reading with the labels of the moment is written. |
| `Addb2.Machine.MachBuffer` | addb2/addb2.c:808-868 | A buffer is provided if the machine is granted one. |
| `Addb2.Machine.Room` | addb2/addb2.c:791-800 | After it there is room for the item in the current buffer. |
| `Addb2.Machine.Emit` | addb2/addb2.c:934-948 | The record is written with its operation, value, the labels and the time of the moment, behind everything else, or dropped only when no buffer is granted. |
| `Addb2.Machine.Push` | addb2/addb2.c:412-438 | The label stack grows by the label and every later record carries it. |
| `Addb2.Machine.Pop` | addb2/addb2.c:440-464 | Every sensor of the label is read once more, in order and under the label, and then label and sensors go. |
| `Addb2.Machine.DropSensors` | addb2/addb2.c:454-457 | The last readings of the sensors of the innermost label. |
| `Addb2.Machine.Add` | addb2/addb2.c:466-478 | A record with the value, the labels and the time of the moment is wanted in the output. |
| `Addb2.Machine.SensorAdd` | addb2/addb2.c:480-502 | The sensor is attached behind the others of its label and read once at once. |
| `Addb2.Do` | addb2/addb2.c:412-502 | One call on the machine: the labels, the sensors and what is wanted in the output change as the call says. |
| `Addb2.Machine.Force` | addb2/addb2.c:589-600 | The current buffer is shipped. |
| `Addb2.Run` | addb2/addb2.c:412-502 | For every well-nested sequence of calls the shipped traces, each read with a fresh cursor, give exactly the added records, in order, with value, time and full label stack as computed from the calls alone, if every buffer is granted, and else a subsequence of them; then also every reading asked for by attaching a sensor or popping its label is there in order; in any case every sensor record is a true reading of an attached sensor. Every trace is readable. |
| `BeIoModel.AddedFlat` | be/io.c:132-173 | Coalesced or not, adding a piece appends its bytes to the transfer. |
| `BeIoModel.PlacedInside` | be/io.c:448-466 | An element put at an offset stays inside the window if and only if what is wrapped round is no longer than the window. |
| `BeIoModel.PlacedOutside` | be/io.c:448-466 | A concrete element of nine places in a window of four whose rest leaves the window. |
| `BeIoModel.NextLeaves` | be/io.c:448-466 | The element that ends the fitting ones is too long for the place it would go to. |
| `BeIoModel.ShortFits` | be/io.c:416-468 | A transfer no longer than the window fits and has at most one element cut. |
| `BeIoModel.MovedByte` | be/io.c:416-468 | Byte k keeps its user address and goes to window start + (offset - window start + k) mod window size. |
| `BeIoModel.MovedLength` | be/io.c:416-468 | The move keeps the number of bytes and adds just the cut elements. |
| `BeIo.ForkWindows` | be/io.c:358-372 | The window with the forked element grows, those behind it move, all windows still tile the vectors. |
| `BeIo.Shift` | be/io.c:345-350 | Elements are moved up in place by one. |
| `BeIo.ShiftParts` | be/io.c:358-372 | The windows of all parts are adjusted. |
| `BeIo.Io.Add` | be/io.c:280-311 | A new part is opened if and only if the last one is for another stob; the bytes go behind those of the last part, joined to its last element if and only if they continue it in memory and on the stob, as a new element otherwise; all earlier parts keep theirs. |
| `BeIo.Io.OpenPart` | be/io.c:293-303 | An empty part for the stob behind the others; neighbouring parts are for different stobs. |
| `BeIo.Io.AddToLast` | be/io.c:304-311 | The bytes behind those of the last part, coalesced or not. |
| `BeIo.Io.PartAdd` | be/io.c:132-173 | Coalesces or appends in the shared vectors. |
| `BeIo.Io.Fork` | be/io.c:325-374 | Duplicates one element of one part; every other part keeps its elements though its window moves. |
| `BeIo.Io.MoveOne` | be/io.c:448-466 | Rewrites one element, cutting it when it leaves the window. |
| `BeIo.Io.StobMove` | be/io.c:416-468 | The part becomes the wound one, byte for byte, if and only if every element fits; else it is known which element leaves the window and whether one behind it would underflow. The other parts keep their content; one credit is used per cut. |
| `BeIo.Io.MoveFitting` | be/io.c:445-466 | The loop winds just the elements that fit. |
| `BeIo.Io.Size` | be/io.c:500-514 | The number of bytes of all parts. |
| `IoSched.FindPlace` | be/io_sched.c:145-174 | The place behind everything that ends before the I/O starts. |
| `IoSched.InsertedOrder` | be/io_sched.c:145-174 | Inserting there keeps the queue in extent order and reads behind the writes they wait for. |
| `IoSched.Sched.Add` | be/io_sched.c:176-208 | The queue gets the I/O at its place, never in front of a running one; a read stands at the end of the last queued I/O. Nothing launchable is left waiting. |
| `IoSched.Sched.LaunchNext` | be/io_sched.c:93-116 | Launches the head if and only if nothing runs and it continues the log; a read only when all writes added before it are done. |
| `IoSched.Sched.Complete` | be/io_sched.c:125-143 | The running I/O leaves the queue and the position moves to its end. |
| `IoSched.NoGapMeans` | be/io_sched.h:47-63 | Each I/O that ran starts where the one before it ended, from the configured start. |
| `IoSched.WrittenOnce` | be/io_sched.h:47-63 | Every place of the log up to the position was written by exactly one I/O. |
| `IoSched.Do` | be/io_sched.c:93-208 | One critical section: an addition that the callers may make is queued with its extent, and a finish ends the running I/O. |
| `IoSched.Run` | be/io_sched.h:47-63 | Over every run the launched I/Os are the finished ones in order and at most one running; a read comes behind every write added before it. |
| `LogDiscard.SafeMore` | be/log_discard.c:250-292 | A history stays safe when a discard of the next started item is added behind its own finish and a later launch that has completed with no other launch between. |
| `LogDiscard.LaunchKeeps` | be/log_discard.c:203-223 | Launching a sync covers finished items only. |
| `LogDiscard.FinishKeeps` | be/log_discard.c:423-435 | A starting item is neither covered by the running sync nor marked synced. |
| `LogDiscard.PopKeeps` | be/log_discard.c:259-270 | The handler finds an item that has finished and belongs to the completed sync. |
| `LogDiscard.DiscardKeeps` | be/log_discard.c:226-248 | The discarded item is the next started one; its own finish stands before the launch of the sync that has completed. |
| `LogDiscard.Discarder.CheckSync` | be/log_discard.c:189-224 | Launches a sync of the longest finished prefix when one is due; fails if and only if a flush is pending and the first item is still starting. |
| `LogDiscard.Discarder.ItemStarting` | be/log_discard.c:406-421 | Queues the item. |
| `LogDiscard.Discarder.ItemFinished` | be/log_discard.c:423-435 | Never discards the item under the lock. |
| `LogDiscard.Discarder.Flush` | be/log_discard.c:381-389 | Brings the process down if and only if no sync runs and the first item is still starting. |
| `LogDiscard.Discarder.SyncCompleted` | be/log_discard.c:294-315 | Posts the handler, or drops the completion while it is busy. |
| `LogDiscard.Discarder.AstPop` | be/log_discard.c:259-267 | The checks of the handler hold. |
| `LogDiscard.Discarder.AstDiscard` | be/log_discard.c:226-248 | Discards the held item, which is the one started next after those already discarded. |
| `LogDiscard.Discarder.AstPut` | be/log_discard.c:458-465 | The item returns to the pool; the handler ends after the last covered item. |
| `LogDiscard.Discarder.AstEnd` | be/log_discard.c:272-279 | The sync is over; a new one may be launched with the lock given up. |
| `LogDiscard.Discarder.AstLeave` | be/log_discard.c:280-292 | The handler leaves. |
| `LogDiscard.Do` | be/log_discard.c:189-315 | A step of a run: a start, finish or discard that can happen is logged with its item. |
| `LogDiscard.Run` | be/log_discard.c:189-315 | Over every run the items discarded are a prefix of the items started, in order; each discard comes after the finish of that same start, after a launch behind that finish, and after the completion of that launch. What is started and not discarded is held by the handler or queued, in order. |
| `LogDiscard.FlushWhileStarting` | be/log_discard.c:381-389 | A concrete run that ends in the failed check. |
| `Addb2Storage.RoundUp` | addb2/storage.c:852-856 | The least multiple of the block size that is not smaller. |
| `Addb2Storage.FitsMeans` | addb2/storage.c:558-564 | A trace fits into a frame of fewer than 128 traces if and only if header, traces and it, each with its length word, are no longer than the largest frame. |
| `Addb2Storage.SubmittedPlace` | addb2/storage.c:671-679 | The position after a frame leaves room for the largest frame, wrap included. |
| `Addb2Storage.ReaderFollowsWriter` | addb2/sit.c:388-397 | The place where the reader expects the next frame is the one where the writer puts it. |
| `Addb2Storage.LaunchedOk` | addb2/storage.c:689-739 | After a launch every frame that was written undisturbed and is not touched by the new one is on the device as before. |
| `Addb2Storage.EndedOk` | addb2/storage.c:781-798 | After a write ends the same holds with that frame among the written ones. |
| `Addb2Storage.ChainedMore` | addb2/storage.c:637-648 | A submitted frame continues the chain of numbers, offsets and back offsets. |
| `Addb2Storage.Storage.FrameSubmit` | addb2/storage.c:637-648 | The current frame gets the next number and place, the place of the frame before it and its own count, and stands behind all others. |
| `Addb2Storage.Storage.TraceTryAdd` | addb2/storage.c:537-553 | If a frame is there, the trace goes into the current frame if and only if it fits; else the current frame is submitted as it is and the trace starts the next one. Order is kept. |
| `Addb2Storage.Storage.Drain` | addb2/storage.c:504-510 | Takes queued traces while there are frames; submission is asked for if and only if a trace that was taken asks for it. |
| `Addb2Storage.Storage.Balance` | addb2/storage.c:499-531 | Queued traces move into frames in order while frames are idle; the last frame is handed over too if and only if the storage is stopping or a trace asked for it. |
| `Addb2Storage.Storage.Submit` | addb2/storage.c:448-459 | The trace is accepted behind all earlier ones; if it is to be forced out and the queue could be emptied, everything accepted is in submitted frames. |
| `Addb2Storage.Storage.Stop` | addb2/storage.c:437-446 | When a frame is idle everything accepted is in submitted frames. |
| `Addb2Storage.Storage.Launch` | addb2/storage.c:689-739 | The first pending frame is laid out and in flight with its image; what it overlaps on the device cannot be read any more. |
| `Addb2Storage.Storage.LaunchFails` | addb2/storage.c:653-665 | A frame whose write cannot start is given up and idle again. |
| `Addb2Storage.Storage.EndIo` | addb2/storage.c:781-798 | After the queue was looked at, the image can be read at its offset, what it overlaps cannot, and the frame is idle. |
| `Addb2Storage.LayoutAt` | addb2/storage.c:716-727 | Where each trace lies in the layout of its frame. |
| `Addb2Storage.FrameTry` | addb2/storage.c:689-739 | The write area holds the header and the traces one by one. |
| `Addb2Storage.Run` | addb2/storage.c:499-575 | Over every run frames are consecutive, chained and inside [BSIZE, stob size); frames, current frame and queue hold just the acceptable traces handed in before the stop, in order; pending frames are the last ones, those in flight carry their image, and the device holds every frame written undisturbed and not overlapped since. |
| `Addb2Storage.Iterator.Get` | addb2/sit.c:462-470 | The trace under the iterator is the one that was laid out. |
| `Addb2Storage.Iterator.Step` | addb2/sit.c:300-307 | Moves to the next trace of the frame. |
| `Addb2Storage.Iterator.Follow` | addb2/sit.c:308-326 | Goes to the next frame if and only if the next header is there with the next number. |
| `Addb2Storage.ReadAll` | addb2/sit.c:292-326 | Following the headers of a device that holds the frames yields the traces of all of them in submission order. |
| `Addb2Storage.PairApart` | addb2/storage.c:671-679 | Two frames of the ring are disjoint when all from the first to the second fit into it with room for one more. |
| `Addb2Storage.ClearIfShort` | addb2/storage.c:671-679 | A frame overlaps none in flight when all from the oldest of those on fit into the ring. |
| `Addb2Storage.ShortRunApart` | addb2/storage.c:671-679 | Frames that together fit into the ring with room for one more are pairwise disjoint. |
| `Addb2Storage.SurvivorsOnDisk` | addb2/storage.c:671-798 | After any run the frames of a disjoint suffix whose writes have ended, none launched over one in flight, are on the device. |
| `Addb2Storage.ReadBack` | addb2/sit.c:292-326 | Reading what a run left, from the first frame of such a suffix, yields the matching suffix of what was handed in. |
| `Addb2Storage.DrainedSurvives` | addb2/storage.c:437-446 | After stop and drain without failure, if the frames fit into the ring, all of them survive and hold everything handed in. |
| `Addb2Storage.Recover` | addb2/sit.c:292-326 | Then reading from the first frame yields exactly the traces handed in. |
| `BeList.List.constructor` | be/list.c:134-154 | An empty ring. |
| `BeList.List.EmptyMeans` | be/list.c:171-183 | The pointer test for emptiness agrees with the abstract sequence. |
| `BeList.List.DetachedMeans` | be/list.c:230-233 | A link that points back to itself is in no list. |
| `BeList.List.SameItems` | be/list.c:218-320 | The pointers determine the abstract sequence. |
| `BeList.List.SplicedValid` | be/list.c:326-486 | Putting a link between two neighbours keeps both chains. |
| `BeList.List.CutValid` | be/list.c:488-538 | Pointing past a link keeps both chains. |
| `BeList.List.Add` | be/list.c:326-361 | Insert at the front, touching only the head, the old first and the new link. |
| `BeList.List.AddAfter` | be/list.c:363-405 | Insert behind an item. |
| `BeList.List.AddBefore` | be/list.c:407-449 | Insert in front of an item. |
| `BeList.List.AddTail` | be/list.c:451-486 | Insert at the end. |
| `BeList.List.Del` | be/list.c:488-538 | Take an item out; its link points to itself again. |
| `BeList.List.Head` | be/list.c:259-276 | The first item or nothing. |
| `BeList.List.Tail` | be/list.c:235-257 | The last item or nothing. |
| `BeList.List.Next` | be/list.c:300-320 | The next item or nothing. |
| `BeList.List.Prev` | be/list.c:278-298 | The previous item or nothing. |
| `BeList.List.ForEach` | be/list.h:358-369 | Deleting the current item while iterating visits every item once, in order, and leaves the others. |

## Left out

- B-tree internals, transaction capture and credits, mutexes, stob I/O, xcode and on-disk format headers.
- Extent map: checksum buffers, the caret, moving a cursor backwards, `extent_update` used alone, counting segments, and wrap-around of the version counter.
- Segment allocator: byte statistics, clearing of memory, and creation of the on-disk header.
- Block allocator: spare zones, preallocation and request normalisation (not used by default), the stripe-size case of the exact search, memory and tree errors while loading.
- Balloc.Allocator.FreeInternal: the code asserts that no step is refused; the model returns `Busy` instead.
- Balloc.Allocator.constructor: groups of 0xffffffff blocks and more, for which the exact search may hand out the sentinel (`BallocSearch.ShortestMeans`).
- BeIo.Io.Add: packing of addresses, offsets and sizes by the block shift; the model counts in the units of the part.
- I/O scheduler: writes with empty extents.
- Log discard: liveness; a completion that is dropped while the handler is busy is modelled, what it costs is not claimed. The item pool, timers and deadlines are reduced to the question whether a sync is due.
- Trace machine: the times of labels, which a new buffer notes anew; the debug check of whole traces, removing a sensor, the accounting of idle and busy buffers, kernel-space buffers.
- Trace storage: the search for the first frame when an iterator is opened, the marker trace, completion call-backs, the surrogate records between traces, checksums of headers.
- Trace storage: writes that complete with an error, the copy of the latest header at offset 0, and what a reader sees of a place while it is being written.
- `be/engine.c`, the transaction layers and the remaining addb2 services.
