# Verified model of the libdrm containers and buffer managers, and of the display pipelines

This project models the stateful algorithms of the repository in Dafny and proves what they keep and
compute.

| file | models |
|---|---|
| `Random.dfy` | the Lehmer generator and its q/r decomposition |
| `SkipList.dfy` | the skip list: entries with forward pointers, changed in place, against a finite map |
| `VaManager.dfy` | the GPU virtual-address manager: a list of holes against the set of free addresses |
| `AtomicRequest.dfy` | atomic mode-set requests: building, sorting, duplicate removal, regrouping, against "last write wins" |
| `FormatModifiers.dfy` | the resumable iterator over (format, modifier) pairs |
| `CardState.dfy`, `FakeBufmgr.dfy` | the fake Intel buffer manager: blocks on three lists under a cyclic fence counter |
| `CmdStream.dfy` | etnaviv command streams: index caching across streams, relocations, submission |
| `MultiBuffer.dfy` | the multi-buffer pipeline of threads, queues, mutexes and semaphores |
| `RingBuffer.dfy` | the bounded buffer with two semaphores and a mutex |
| `HashTable.dfy` | the self-organising hash table |
| `BoCache.dfy` | the ageing buffer cache |
| `Options.dfy` | a value that may be missing |

Code that changes structures step by step is modelled by classes whose methods do the same steps; the
methods are proved against functions on values, and what the source promises is proved about those.
The two thread protocols are state machines: a step function per thread, and theorems about every
schedule. C integer widths are written out where they matter: 64-bit words in the address manager and
the generator, 32-bit words in the comparator, the fences, the tables and the page rounding.

Where the code does not do what one would expect, the model follows the code and a lemma says so:

* the duplicate removal of a commit leaves a property twice if it was set three times
  (`AtomicItems.ThreeSettingsLeaveTwo`), which does not change the meaning; of n settings (n + 1) / 2 are
  sent (`AtomicRequest.SentHalf`);
* the comparator of a commit misplaces ids that are 2^31 or more apart (`AtomicItems.CompareIsBeforeIff`), and
  is then not even an order (`AtomicItems.CompareCanCycle`);
* the format iterator misjudges bit 31 of a window (`FormatModifiers.Bit31IsSmeared`,
  `FormatModifiers.DocumentedIff`);
* the address manager hands out ranges that are not free when the end of a required range, or the rounded
  start of a hole, wraps at 2^64 (`VaManager.RequiredBaseWraps`, `VaManager.RoundedStartWraps`; exactly when is
  said by `VaSearch.BaseTestIsExact` and `VaSearch.BottomTestIsExact`), and an empty request may tear a hole in
  two (`VaManager.ZeroSizeRequestTearsHole`);
* freeing an address range that starts at 0 does nothing (`VaManager.RangeFree`);
* a hash enumeration visits chain 0 twice and chain 511 never (`HashTable.VisitsEachOnceIff`);
* `drmSLLookup` hands out the entry, not its value (`SkipList.SkipList.Lookup`);
* page rounding and byte offsets wrap at 32 bits (`BoCache.PageRoundIsExact`, `CmdTables.OffsetsKeepOrder`);
* a fence that passed 2^24 emissions ago looks pending for the rest of its cycle (`Fences.OldFenceLooksPending`),
  and so `evict_all` may fail its assertion (`FakeBufmgr.BufMgr.EvictAll`);
* the display pipeline loses a task that lacks a callback (`MultiBuffer.SurvivesIff`).

## Model

| member | source | states |
|---|---|---|
| `Random.Clamp` | third/libdrm/libdrm-2.4.117/xf86drmRandom.c:97-101 | the seed taken is legal (1 .. m-1) and no legal value is closer to the one given |
| `Random.Decomposition` | third/libdrm/libdrm-2.4.117/xf86drmRandom.c:119-131 | for a legal seed the q/r form differs from a*seed by a multiple of m, lies strictly between -m and m, and neither product reaches 2^31 |
| `Random.InverseUndoesLehmer` | third/libdrm/libdrm-2.4.117/xf86drmRandom.c:119-131 | a step never leads to 0 and multiplying by one fixed constant modulo m takes it back |
| `Random.StepIsInjective` | third/libdrm/libdrm-2.4.117/xf86drmRandom.c:119-131 | two legal seeds with the same successor are equal |
| `Random.StepIsSurjective` | third/libdrm/libdrm-2.4.117/xf86drmRandom.c:119-131 | every legal seed is the successor of a legal seed |
| `Random.NthIsPower` | third/libdrm/libdrm-2.4.117/xf86drmRandom.c:119-131 | the i-th number after a legal seed is a^i * seed mod m, and legal |
| `Random.WrappedDifference` | third/libdrm/libdrm-2.4.117/xf86drmRandom.c:125-128 | unsigned wrap-around in the subtraction is cancelled by the correction, for all operands below 2^31 |
| `Random.State.Next` | third/libdrm/libdrm-2.4.117/xf86drmRandom.c:119-131 | the value returned is the new seed, a*seed mod m, whether or not the subtraction wraps; the seed stays legal |
| `SkipList.SkipList.Locate` | third/libdrm/libdrm-2.4.117/xf86drmSL.c:138-153 | on every level up to the list's, update holds the last entry with a smaller key; the result is the first entry whose key is not smaller, or NULL |
| `SkipList.RandomLevel` | third/libdrm/libdrm-2.4.117/xf86drmSL.c:90-99 | of the generator's numbers after its seed, all but the level-th are odd up to there, and the level-th is even or the level is 16; the generator's seed is then the last one drawn |
| `SkipList.DrawsOneLevel` | third/libdrm/libdrm-2.4.117/xf86drmSL.c:90-99 | a seed has only one such level |
| `SkipList.SkipList.Insert` | third/libdrm/libdrm-2.4.117/xf86drmSL.c:155-186 | the list stays well formed and its map gains exactly the binding, at an entry as tall as the numbers drawn say but at most one level above the list's, the generator standing at the last of them; if the key was bound nothing changes, the result is 1 and no number is drawn |
| `SkipList.SkipList.RaiseLevel` | third/libdrm/libdrm-2.4.117/xf86drmSL.c:171-174 | a level above the list's raises it by exactly one, and update names the predecessors on every level that will be spliced |
| `SkipList.SkipList.Add` | third/libdrm/libdrm-2.4.117/xf86drmSL.c:176-185 | every forward pointer of every entry again names the next entry at least that tall; the count grows by one |
| `Heights.NextOfInserted` | third/libdrm/libdrm-2.4.117/xf86drmSL.c:179-182 | the spliced entry's successor on a level is its predecessor's old successor |
| `SkipList.SplicedIsLinked` | third/libdrm/libdrm-2.4.117/xf86drmSL.c:179-182 | when all levels have been spliced no forward pointer of any entry is stale |
| `SkipList.MapOfInserted` | third/libdrm/libdrm-2.4.117/xf86drmSL.c:155-186 | inserting an entry at its place adds its binding to the map and changes no other |
| `SkipList.SkipList.Delete` | third/libdrm/libdrm-2.4.117/xf86drmSL.c:188-213 | the map loses exactly the key, with result 0, or nothing, with result 1; the list stays well formed |
| `SkipList.SkipList.Remove` | third/libdrm/libdrm-2.4.117/xf86drmSL.c:201-212 | after unlinking the entry on its own levels and lowering the list's level, all pointers and the count are right for the remaining entries |
| `SkipList.StartUnsplicing` | third/libdrm/libdrm-2.4.117/xf86drmSL.c:201-205 | an entry's pointers are what each of its predecessors needs once it is gone |
| `SkipList.MapOfRemoved` | third/libdrm/libdrm-2.4.117/xf86drmSL.c:188-213 | removing an entry takes its binding from the map and changes no other |
| `SkipList.SkipList.LowerLevel` | third/libdrm/libdrm-2.4.117/xf86drmSL.c:208-210 | the level reached is the height of the tallest entry, or 0 when the list is empty |
| `SkipList.SkipList.Lookup` | third/libdrm/libdrm-2.4.117/xf86drmSL.c:215-229 | succeeds exactly on the keys of the map; what it hands out is the entry, which carries the map's value |
| `SkipList.SkipList.LookupNeighbors` | third/libdrm/libdrm-2.4.117/xf86drmSL.c:231-255 | gives the greatest binding strictly below the key and the least one not below it, and says 2 exactly if the latter exists |
| `SkipList.SkipList.Next` | third/libdrm/libdrm-2.4.117/xf86drmSL.c:257-274 | gives the entry iteration stands on and moves to the one after, or says there is none |
| `SkipList.SkipList.Enumerate` | third/libdrm/libdrm-2.4.117/xf86drmSL.c:257-284 | first and next give every binding of the map once, in ascending key order, and nothing else |
| `SkipList.VisitsChain` | third/libdrm/libdrm-2.4.117/xf86drmSL.c:138-153 | following forward pointers on one level visits exactly the entries at least that tall, in order |
| `SkipList.LevelsAreNestedChains` | third/libdrm/libdrm-2.4.117/xf86drmSL.c:138-213 | in every valid list each level's chain is strictly key-ordered and a sublist of the level below |
| `SkipList.LevelsInUse` | third/libdrm/libdrm-2.4.117/xf86drmSL.c:171-174 | levels above the list's are empty, its top level is not unless it is 0, and the count is the bottom chain's length |
| `SkipList.Apply` | third/libdrm/libdrm-2.4.117/xf86drmSL.c:155-229 | one operation on the list gives the result and the map that the same operation gives on a finite map |
| `SkipList.Run` | third/libdrm/libdrm-2.4.117/xf86drmSL.c:155-229 | every sequence of inserts, deletes and lookups from an empty list gives the results of a finite map, for every generator state |
| `Holes.Canonical` | third/libdrm/libdrm-2.4.117/amdgpu/amdgpu_vamgr.c:44-60 | separated, non-empty, descending holes are determined by the addresses they free |
| `Holes.FreeRangeIsInOneHole` | third/libdrm/libdrm-2.4.117/amdgpu/amdgpu_vamgr.c:100-165 | a range is free exactly if a single hole contains it, so searching hole by hole misses nothing |
| `Holes.CutFrees` | third/libdrm/libdrm-2.4.117/amdgpu/amdgpu_vamgr.c:72-98 | carving a range out of a hole frees exactly the old free addresses outside the range |
| `Holes.CutSeparates` | third/libdrm/libdrm-2.4.117/amdgpu/amdgpu_vamgr.c:72-98 | holes stay apart after a cut exactly unless an empty range is cut from a hole's inside |
| `Holes.FreedFrees` | third/libdrm/libdrm-2.4.117/amdgpu/amdgpu_vamgr.c:185-216 | growing, merging or adding a hole frees exactly the old free addresses and the range |
| `Holes.FreedSeparates` | third/libdrm/libdrm-2.4.117/amdgpu/amdgpu_vamgr.c:185-216 | after a range returns, holes are again descending and no two touch |
| `Alignment.AlignRoundsUpExactly` | third/libdrm/libdrm-2.4.117/amdgpu/amdgpu_vamgr.c:111 | the 64-bit rounding gives the least multiple not below the value exactly if value + alignment is at most 2^64; otherwise it falls below the value |
| `Alignment.AlignTwice` | third/libdrm/libdrm-2.4.117/amdgpu/amdgpu_vamgr.c:111 | rounding to a power of two once more changes nothing, so callers may round before |
| `Alignment.RoundUpIsLeast` | third/libdrm/libdrm-2.4.117/amdgpu/amdgpu_vamgr.c:125-127 | the rounded start is the least aligned address not below the hole's start |
| `Alignment.RoundDownIsGreatest` | third/libdrm/libdrm-2.4.117/amdgpu/amdgpu_vamgr.c:148-150 | the rounded start is the greatest aligned address not above the limit |
| `VaSearch.LowestFit` | third/libdrm/libdrm-2.4.117/amdgpu/amdgpu_vamgr.c:115-137 | a hole offers an admissible address exactly if its rounded start fits, and then that is the lowest |
| `VaSearch.HighestFit` | third/libdrm/libdrm-2.4.117/amdgpu/amdgpu_vamgr.c:139-162 | a hole offers an admissible address exactly if its rounded end fits, and then that is the highest |
| `VaManager.VaManager.constructor` | third/libdrm/libdrm-2.4.117/amdgpu/amdgpu_vamgr.c:44-60 | one hole covers the managed range and nothing is live |
| `VaSearch.BaseTestIsExact` | third/libdrm/libdrm-2.4.117/amdgpu/amdgpu_vamgr.c:119-123 | the test for a required base agrees with the base's range lying in the hole if and only if base + size stays below 2^64, or the base lies below the hole, or the wrapped sum lies above the hole's end |
| `VaSearch.BottomTestIsExact` | third/libdrm/libdrm-2.4.117/amdgpu/amdgpu_vamgr.c:125-131 | the test from the bottom agrees with the rounded start fitting the hole if and only if that start stays below 2^64, or wraps to where too little of the hole's end is above it |
| `VaSearch.TopTestIsExact` | third/libdrm/libdrm-2.4.117/amdgpu/amdgpu_vamgr.c:146-153 | the test from the top is right for every hole and request, and its 64-bit start is the rounded one |
| `VaSearch.OfferIsRight` | third/libdrm/libdrm-2.4.117/amdgpu/amdgpu_vamgr.c:115-154 | for every request, of size 0 too: what a hole offers lies in it if and only if its test can be trusted |
| `VaSearch.ChosenIsBestIff` | third/libdrm/libdrm-2.4.117/amdgpu/amdgpu_vamgr.c:115-162 | the address of the first hole that offers one is the lowest (highest) admissible address if and only if that hole's test can be trusted; if not, it is not even free |
| `VaSearch.NoneChosen` | third/libdrm/libdrm-2.4.117/amdgpu/amdgpu_vamgr.c:115-165 | if no hole offers anything no address is admissible, wraps or not |
| `VaManager.VaManager.SearchFromBottom` | third/libdrm/libdrm-2.4.117/amdgpu/amdgpu_vamgr.c:115-137 | the hole chosen is the lowest that passes the test, and none only if none does |
| `VaManager.VaManager.SearchFromTop` | third/libdrm/libdrm-2.4.117/amdgpu/amdgpu_vamgr.c:139-162 | the hole chosen is the highest that passes the test, and none only if none does |
| `VaManager.VaManager.SubtractHole` | third/libdrm/libdrm-2.4.117/amdgpu/amdgpu_vamgr.c:72-98 | for any two words, inside the hole or not, the list becomes what 64-bit arithmetic cuts; it fails only when two parts remain without memory |
| `VaSearch.CutInWordsIsCut` | third/libdrm/libdrm-2.4.117/amdgpu/amdgpu_vamgr.c:72-98 | for a range inside the hole that is the cut of the range, and two parts remain exactly if something is left on both sides |
| `VaManager.VaManager.FindVa` | third/libdrm/libdrm-2.4.117/amdgpu/amdgpu_vamgr.c:100-165 | for every request, wrapping or empty too: the hole, address, list and result of the code; if the chosen test can be trusted, the lowest (from the top: highest) admissible address or the required base exactly if free, with holes and live ranges still a partition; if not, an address that is not free; -ENOMEM only if nothing is admissible or a split lacks memory; an empty request changes no free address and tears a hole exactly if it falls inside one |
| `VaSearch.CandidatesAreAdmissible` | third/libdrm/libdrm-2.4.117/amdgpu/amdgpu_vamgr.c:115-162 | what the holes offer one by one is what is admissible for the whole free set |
| `VaManager.CutIsConsistent` | third/libdrm/libdrm-2.4.117/amdgpu/amdgpu_vamgr.c:72-98 | after an allocation holes and live ranges again partition the range, without overlap |
| `VaManager.VaManager.FreeVa` | third/libdrm/libdrm-2.4.117/amdgpu/amdgpu_vamgr.c:167-221 | the range becomes free and nothing else changes; the holes stay apart and in order; nothing changes for address -1, nor when calloc fails and no hole touches the range, and only then |
| `VaManager.JoinsWhatTouches` | third/libdrm/libdrm-2.4.117/amdgpu/amdgpu_vamgr.c:185-207 | the two holes the loop looks at are the only ones that can touch the range, so memory is asked for only if none does |
| `VaManager.FreedIsConsistent` | third/libdrm/libdrm-2.4.117/amdgpu/amdgpu_vamgr.c:167-221 | after a free holes and live ranges again partition the range |
| `VaManager.RangeFree` | third/libdrm/libdrm-2.4.117/amdgpu/amdgpu_vamgr.c:285-297 | a range is returned exactly if it does not start at address 0 |
| `VaManager.AllocThenFree` | third/libdrm/libdrm-2.4.117/amdgpu/amdgpu_vamgr.c:100-221 | freeing what was just allocated restores the identical list of holes, whenever the request has a size and the search can be trusted |
| `VaManager.FreeAll` | third/libdrm/libdrm-2.4.117/amdgpu/amdgpu_vamgr.c:167-221 | freeing all live ranges, in any order, restores the single initial hole |
| `VaManager.ZeroSizeRequestTearsHole` | third/libdrm/libdrm-2.4.117/amdgpu/amdgpu_vamgr.c:100-165 | find_va, asked for nothing, leaves a new manager with two holes that touch |
| `VaManager.RoundedStartWraps` | third/libdrm/libdrm-2.4.117/amdgpu/amdgpu_vamgr.c:125-137 | find_va on a new manager at the top of the address space hands out address 0, which was never free, and loses the only hole |
| `VaManager.RequiredBaseWraps` | third/libdrm/libdrm-2.4.117/amdgpu/amdgpu_vamgr.c:119-136 | find_va succeeds for a required base that is not managed, its end wrapping to the start of the only hole, and leaves two holes that overlap |
| `VaManager.RoundedStartIsExact` | third/libdrm/libdrm-2.4.117/amdgpu/amdgpu_vamgr.c:125-127 | the start computed in 64 bits is the rounded one exactly if it does not reach 2^64 |
| `AtomicItems.DifferenceOrders` | third/libdrm/libdrm-2.4.117/xf86drmMode.c:1493-1504 | the sign of the 32-bit difference orders two ids exactly if the first minus the second is at least -2^31 and below 2^31 |
| `AtomicItems.CompareCanCycle` | third/libdrm/libdrm-2.4.117/xf86drmMode.c:1493-1504 | three ids beyond that distance of which each sorts before the next |
| `AtomicItems.CompareIsBeforeIff` | third/libdrm/libdrm-2.4.117/xf86drmMode.c:1493-1504 | the comparator orders two items by object, property and age, either way round, if and only if the numbers in which they differ first are less than 2^31 apart |
| `AtomicItems.ArrangementsMeanTheSame` | third/libdrm/libdrm-2.4.117/xf86drmMode.c:1533-1534 | any rearrangement that keeps settings of one property in order of age has the same meaning |
| `AtomicItems.ReduceKeepsMeaning` | third/libdrm/libdrm-2.4.117/xf86drmMode.c:1537-1553 | removing neighbours with the same key, as the loop does it, leaves the resulting settings as they were, on top of any state |
| `AtomicItems.ReduceLeavesPairs` | third/libdrm/libdrm-2.4.117/xf86drmMode.c:1537-1553 | two equal keys remain next to each other exactly if three were |
| `AtomicItems.ReduceHalves` | third/libdrm/libdrm-2.4.117/xf86drmMode.c:1537-1553 | of n settings of a property that stand together, (n + 1) / 2 are left |
| `AtomicItems.SentTwiceIffSetThrice` | third/libdrm/libdrm-2.4.117/xf86drmMode.c:1537-1553 | of a sorted list some property is sent twice exactly if some property was set three times or more |
| `AtomicItems.ThreeSettingsLeaveTwo` | third/libdrm/libdrm-2.4.117/xf86drmMode.c:1537-1553 | a request with three settings of one property of which two reach the kernel |
| `AtomicArrays.GroupingStep` | third/libdrm/libdrm-2.4.117/xf86drmMode.c:1571-1593 | one more item extends the last group or opens the next, and the groups opened never exceed the first pass's count |
| `AtomicArrays.TightNext` | third/libdrm/libdrm-2.4.117/xf86drmMode.c:1571-1593 | items that come by object are told apart by object: one more item leaves every object named once, in ascending order, with at least one property |
| `AtomicArrays.WritesMean` | third/libdrm/libdrm-2.4.117/xf86drmMode.c:1571-1593 | writing the regrouped arrays out one by one has the meaning of the items |
| `AtomicArrays.Regroup` | third/libdrm/libdrm-2.4.117/xf86drmMode.c:1555-1593 | every index stays in bounds, the per-object counts sum to the number of items, and expanding the four arrays gives the items back in order |
| `AtomicRequest.AtomicReq.AddProperty` | third/libdrm/libdrm-2.4.117/xf86drmMode.c:1450-1481 | appends the item stamped with its position, or changes nothing on an error; items beyond the cursor are overwritten one at a time |
| `AtomicRequest.AtomicReq.Merge` | third/libdrm/libdrm-2.4.117/xf86drmMode.c:1403-1435 | appends the other request's items restamped with their new positions, or changes nothing; the other request is not changed |
| `AtomicRequest.MergedMeaning` | third/libdrm/libdrm-2.4.117/xf86drmMode.c:1403-1435 | a merged request means the first followed by the second |
| `AtomicRequest.AtomicReq.Duplicate` | third/libdrm/libdrm-2.4.117/xf86drmMode.c:1374-1401 | a new request with the same contents, cursor and capacity |
| `AtomicRequest.AtomicReq.SetCursor` | third/libdrm/libdrm-2.4.117/xf86drmMode.c:1444-1448 | rolling back keeps exactly the first items |
| `AtomicRequest.AddThenRollBack` | third/libdrm/libdrm-2.4.117/xf86drmMode.c:1437-1481 | adding and rolling the cursor back leaves the request as it was |
| `AtomicRequest.AtomicReq.QSort` | third/libdrm/libdrm-2.4.117/xf86drmMode.c:1533-1534 | sorted by the comparator and a permutation of the request |
| `AtomicRequest.SortIsDetermined` | third/libdrm/libdrm-2.4.117/xf86drmMode.c:1533-1534 | stamps being distinct, there is only one sorted arrangement, so the sorting algorithm does not matter |
| `AtomicRequest.AtomicReq.Deduplicate` | third/libdrm/libdrm-2.4.117/xf86drmMode.c:1537-1553 | the in-place loop leaves the reduced list and counts the objects in it |
| `AtomicRequest.AtomicReq.Commit` | third/libdrm/libdrm-2.4.117/xf86drmMode.c:1506-1610 | what the kernel is sent, applied in order, sets exactly what the request sets, last write winning; it is told of exactly the request's objects, each once, ascending, none without a property; the request itself is unchanged; an empty one is not sent |
| `AtomicRequest.SentObjects` | third/libdrm/libdrm-2.4.117/xf86drmMode.c:1537-1593 | sorting and duplicate removal lose no object: those named are those of the request, ascending |
| `AtomicRequest.SentHalf` | third/libdrm/libdrm-2.4.117/xf86drmMode.c:1506-1553 | of n settings of a property in a request, a commit sends (n + 1) / 2 |
| `AtomicRequest.SentTwiceIffRequestedThrice` | third/libdrm/libdrm-2.4.117/xf86drmMode.c:1506-1553 | a commit sends some property twice exactly if the request sets some property three times or more |
| `FormatModifiers.GetNext` | third/libdrm/libdrm-2.4.117/xf86drmMode.c:768-830 | yields the next matching pair after the iterator's place in (format, modifier) order, or ends with none left to yield |
| `FormatModifiers.IterNext` | third/libdrm/libdrm-2.4.117/xf86drmMode.c:832-859 | each call takes the first of the remaining matching pairs whose modifier is valid, and says false exactly when there is none, now and ever after |
| `FormatModifiers.PositionsAreExact` | third/libdrm/libdrm-2.4.117/xf86drmMode.c:768-859 | the remaining places are exactly the matching ones not before the iterator |
| `FormatModifiers.PositionsAscend` | third/libdrm/libdrm-2.4.117/xf86drmMode.c:768-859 | the remaining places come by format and then modifier, none twice |
| `FormatModifiers.Drain` | third/libdrm/libdrm-2.4.117/xf86drmMode.c:768-859 | from a zeroed iterator the calls yield exactly the pairs at the matching places, in order, and then end |
| `FormatModifiers.DocumentedIff` | third/libdrm/libdrm-2.4.117/xf86drmMode.c:768-859 | with no format beyond the 32nd of a window, the places delivered are exactly the documented ones if and only if, wherever a window has a 32nd format, its bit is set or no higher one is |
| `FormatModifiers.ExactShiftDelivers` | third/libdrm/libdrm-2.4.117/xf86drmMode.c:768-859 | if the shift were exact for all 64 bits, exactly the documented places would be delivered whenever no window ends at 2^32 or beyond |
| `FormatModifiers.Enumerate` | third/libdrm/libdrm-2.4.117/xf86drmMode.c:768-859 | the whole iteration yields the matching pairs once each in ascending order, and these are the documented ones under exactly that condition |
| `FormatModifiers.WindowIsTested` | third/libdrm/libdrm-2.4.117/xf86drmMode.c:793-802 | for the first 31 formats of a modifier's window the code tests the documented bit |
| `FormatModifiers.OutsideWindow` | third/libdrm/libdrm-2.4.117/xf86drmMode.c:793-802 | a format outside the window never matches |
| `FormatModifiers.WrappedWindow` | third/libdrm/libdrm-2.4.117/xf86drmMode.c:793-802 | a window whose end wraps at 2^32 matches nothing at all |
| `FormatModifiers.Bit31IsSmeared` | third/libdrm/libdrm-2.4.117/xf86drmMode.c:793-802 | bit 31 is judged right exactly if the bits above it agree with it, because the mask is an int |
| `FormatModifiers.Bit31CanBeWrong` | third/libdrm/libdrm-2.4.117/xf86drmMode.c:793-802 | a modifier that matches a format whose bit is clear |
| `Fences.FenceLteIsCyclic` | third/libdrm/libdrm-2.4.117/intel/intel_bufmgr_fake.c:229-242 | for fences 1 .. 0x7fffffff the test holds exactly if (b - a) mod 0x7fffffff is below 2^24 |
| `Fences.TestOfCookies` | third/libdrm/libdrm-2.4.117/intel/intel_bufmgr_fake.c:229-242 | for the n-th and the c-th fence ever emitted the test says whether (c - n) mod 0x7fffffff is below 2^24 |
| `Fences.TestIsRightIff` | third/libdrm/libdrm-2.4.117/intel/intel_bufmgr_fake.c:229-242 | two fences are compared by age if and only if their distance modulo 0x7fffffff is below 2^24, where the first should have passed, or neither 0 nor within 2^24 of a full cycle, where not |
| `Fences.OldFenceLooksPending` | third/libdrm/libdrm-2.4.117/intel/intel_bufmgr_fake.c:407-413 | a fence of any age looks as if it had not passed exactly if its age modulo 0x7fffffff is 2^24 or more |
| `CardState.OnExactlyOneList` | third/libdrm/libdrm-2.4.117/intel/intel_bufmgr_fake.c:418-488 | in every good state a block occurs once on exactly one of the three lists, its flags name that list, and an idle block has a buffer |
| `CardState.IdleHasBuffer` | third/libdrm/libdrm-2.4.117/intel/intel_bufmgr_fake.c:535-583 | eviction never meets an orphaned block nor a pinned buffer |
| `CardState.AllocIsOk` | third/libdrm/libdrm-2.4.117/intel/intel_bufmgr_fake.c:418-450 | a new block keeps all invariants of the manager |
| `CardState.EvictIsOk` | third/libdrm/libdrm-2.4.117/intel/intel_bufmgr_fake.c:535-583 | evicting an idle block keeps all invariants and touches neither of the other lists |
| `CardState.ReleaseOwnedIsOk` | third/libdrm/libdrm-2.4.117/intel/intel_bufmgr_fake.c:588-627 | returning a fenced block to the idle list keeps all invariants |
| `CardState.ReleaseOrphanIsOk` | third/libdrm/libdrm-2.4.117/intel/intel_bufmgr_fake.c:588-627 | the delayed free of an orphan keeps all invariants |
| `CardState.FenceFirstIsOk` | third/libdrm/libdrm-2.4.117/intel/intel_bufmgr_fake.c:631-651 | fencing a block of the batch keeps all invariants, among them that fenced blocks are ordered by age |
| `CardState.ToHardwareIsOk` | third/libdrm/libdrm-2.4.117/intel/intel_bufmgr_fake.c:1215-1221 | moving a block into the batch from any list keeps all invariants |
| `CardState.KickFirstIsOk` | third/libdrm/libdrm-2.4.117/intel/intel_bufmgr_fake.c:1134-1153 | freeing a block of the batch and telling its buffer keeps all invariants |
| `CardState.UnreferenceIsOk` | third/libdrm/libdrm-2.4.117/intel/intel_bufmgr_fake.c:916-941 | dropping a buffer, with its block freed or orphaned, keeps all invariants |
| `FakeBufmgr.BufMgr.AllocBlock` | third/libdrm/libdrm-2.4.117/intel/intel_bufmgr_fake.c:418-450 | the state becomes one with a fresh idle block for the buffer, or stays the same |
| `FakeBufmgr.BufMgr.FreeBlock` | third/libdrm/libdrm-2.4.117/intel/intel_bufmgr_fake.c:455-488 | card data is copied back unless that is off, the copy always has a destination, and the block is freed or, while the card may use it, orphaned |
| `FakeBufmgr.BufMgr.EvictLru` | third/libdrm/libdrm-2.4.117/intel/intel_bufmgr_fake.c:535-560 | evicts the oldest idle block whose buffer may be evicted, provided its fence is old enough, and says no exactly if there is none or it is not |
| `FakeBufmgr.BufMgr.EvictMru` | third/libdrm/libdrm-2.4.117/intel/intel_bufmgr_fake.c:562-583 | evicts the youngest idle block whose buffer may be evicted, and says no exactly if there is none |
| `FakeBufmgr.BufMgr.ClearFenced` | third/libdrm/libdrm-2.4.117/intel/intel_bufmgr_fake.c:588-627 | for fences of any age: releases the leading blocks that pass the test and no others, orphans freed, the rest to the end of the idle list; these are exactly the blocks not younger than the given fence if and only if the last one released and the first one kept were judged by age |
| `FakeBufmgr.SplitIff` | third/libdrm/libdrm-2.4.117/intel/intel_bufmgr_fake.c:617-622 | blocks being ordered by fence, stopping at the first that has not passed is right for all if and only if the test is right about the two blocks where it stops |
| `FakeBufmgr.BufMgr.EvictAndAllocBlock` | third/libdrm/libdrm-2.4.117/intel/intel_bufmgr_fake.c:653-715 | with outstanding fences of any age: a buffer without memory gets the youngest idle block, or is unchanged with nothing left to wait for or to evict; of any two idle buffers that may be evicted the older goes first when not thrashing, the younger when thrashing; the batch being built is untouched, and the loops end |
| `FakeBufmgr.EvictedInOrder` | third/libdrm/libdrm-2.4.117/intel/intel_bufmgr_fake.c:535-583 | evicting the oldest (youngest) evictable buffer that is left keeps it so that of any two the older (younger) went first |
| `FakeBufmgr.BufMgr.WaitIdle` | third/libdrm/libdrm-2.4.117/intel/intel_bufmgr_fake.c:724-732 | after a new fence has passed no block is fenced if and only if every outstanding fence was, modulo 0x7fffffff, less than 2^24 older than the new one |
| `FakeBufmgr.OldHeadKeepsAll` | third/libdrm/libdrm-2.4.117/intel/intel_bufmgr_fake.c:588-627 | a block at the front whose age modulo 0x7fffffff is 2^24 or more keeps the whole fenced list as it is |
| `FakeBufmgr.BufMgr.FenceValidated` | third/libdrm/libdrm-2.4.117/intel/intel_bufmgr_fake.c:1227-1237 | the whole batch moves behind the fenced blocks in order, each stamped with the newest fence, and the hardware list is empty |
| `FakeBufmgr.BufMgr.BoAlloc` | third/libdrm/libdrm-2.4.117/intel/intel_bufmgr_fake.c:798-893 | a new buffer, without memory, that no other record mentions |
| `FakeBufmgr.BufMgr.DisableBackingStore` | third/libdrm/libdrm-2.4.117/intel/intel_bufmgr_fake.c:958-988 | the buffer gives up its backing store and is dirty; all invariants stay |
| `FakeBufmgr.BufMgr.Validate` | third/libdrm/libdrm-2.4.117/intel/intel_bufmgr_fake.c:1155-1225 | the buffer ends the batch, clean, with its own block; or nothing could be evicted for it and fail is set; or it was dirty without a backing store; a dirty buffer is uploaded with nothing on the fenced list, unless a fence too old to look passed was outstanding; buffers already in the batch are untouched |
| `FakeBufmgr.BufMgr.KickAll` | third/libdrm/libdrm-2.4.117/intel/intel_bufmgr_fake.c:1134-1153 | the batch is empty, its buffers have no block and are not marked validated, their card data copied back; nothing else changes |
| `FakeBufmgr.NothingIsLost` | third/libdrm/libdrm-2.4.117/intel/intel_bufmgr_fake.c:455-488 | whichever way a buffer leaves the card, it has no block, stays dirty if it was, and data that only the card had is in the backing store and due for upload, unless it is pinned or has none |
| `FakeBufmgr.BufMgr.Unreference` | third/libdrm/libdrm-2.4.117/intel/intel_bufmgr_fake.c:916-941 | the buffer's record goes; its block is freed, or stays on its list as an orphan while the card may use it |
| `FakeBufmgr.BufMgr.ValidateAll` | third/libdrm/libdrm-2.4.117/intel/intel_bufmgr_fake.c:1328-1382 | on success every buffer of the batch is placed, up to date and marked written if it will be, and no other is marked |
| `FakeBufmgr.BufMgr.Exec` | third/libdrm/libdrm-2.4.117/intel/intel_bufmgr_fake.c:1425-1490 | a successful submission leaves the hardware list empty, no buffer marked, and every buffer of the batch waiting, clean, under the newest fence; the batch is thrown out at most once, and it aborts only after that over a buffer for which nothing can be evicted, or over one that has nothing to upload; every outcome keeps the invariants |
| `FakeBufmgr.BufMgr.EvictAll` | third/libdrm/libdrm-2.4.117/intel/intel_bufmgr_fake.c:1535-1568 | nothing is left on the card, every buffer with data only there has it in its backing store, and fail is cleared; its assertions fail exactly if a batch was not submitted or an outstanding fence is too old to look passed |
| `CmdTables.GrowMakesRoom` | third/libdrm/libdrm-2.4.117/etnaviv/etnaviv_cmd_stream.c:34-45 | a full table gets room for another entry exactly while its size plus five fits 32 bits |
| `CmdTables.OffsetsKeepOrder` | third/libdrm/libdrm-2.4.117/etnaviv/etnaviv_cmd_stream.c:257-259 | offsets in bytes order the words of a stream exactly if it has at most 2^30 |
| `CmdTables.RoomFor` | third/libdrm/libdrm-2.4.117/etnaviv/etnaviv_drmif.h:150-161 | after a reserve there is room and clearance exactly if the clearance was intact and the stream is large enough at all |
| `CmdTables.SearchIsUnique` | third/libdrm/libdrm-2.4.117/etnaviv/etnaviv_cmd_stream.c:157-160 | in a table without duplicates the place of a buffer is the one a search finds |
| `CmdTables.EnteredIsConsistent` | third/libdrm/libdrm-2.4.117/etnaviv/etnaviv_cmd_stream.c:128-142 | appending a buffer keeps both tables parallel, free of duplicates, with the access asked for so far |
| `CmdTables.AskedIsConsistent` | third/libdrm/libdrm-2.4.117/etnaviv/etnaviv_cmd_stream.c:169-172 | tables stay in agreement when an entry's flags take up one more request |
| `CmdTables.FlagsAreAsked` | third/libdrm/libdrm-2.4.117/etnaviv/etnaviv_cmd_stream.c:169-172 | an entry has the read (write) bit exactly if some request since the last flush asked for its buffer with it |
| `CmdTables.RelocatedIsConsistent` | third/libdrm/libdrm-2.4.117/etnaviv/etnaviv_cmd_stream.c:247-263 | a relocation names its own buffer and comes after all earlier ones |
| `CmdStream.RelocAddsItsOwn` | third/libdrm/libdrm-2.4.117/etnaviv/etnaviv_cmd_stream.c:247-263 | a relocation adds one entry with the offset given, at the stream's place, naming the given buffer, and leaves those before it |
| `CmdStream.PerfAddsItsOwn` | third/libdrm/libdrm-2.4.117/etnaviv/etnaviv_cmd_stream.c:265-279 | a performance request adds one entry as given, but for the index, which names the given buffer, and leaves those before it |
| `CmdStream.RememberedIsSearched` | third/libdrm/libdrm-2.4.117/etnaviv/etnaviv_cmd_stream.c:152-167 | whenever a buffer remembers a stream, the remembered index is what a search of that stream's table finds |
| `CmdStream.RequestedIsOk` | third/libdrm/libdrm-2.4.117/etnaviv/etnaviv_cmd_stream.c:144-175 | looking a buffer up in one stream keeps the memory of every buffer right for every stream |
| `CmdStream.RequestTakesOne` | third/libdrm/libdrm-2.4.117/etnaviv/etnaviv_cmd_stream.c:128-167 | a stream takes one reference to a buffer that it starts to use and no other, so the callers' references are not touched |
| `CmdStream.NewcomersAreOk` | third/libdrm/libdrm-2.4.117/etnaviv/etnaviv_cmd_stream.c:58-97 | a new stream or buffer leaves tables, memories and references in agreement, so they are from the start |
| `CmdStream.FlushedIsOk` | third/libdrm/libdrm-2.4.117/etnaviv/etnaviv_cmd_stream.c:213-218 | flushing one stream, which makes buffers forget other streams too, keeps tables, memories and references in agreement |
| `CmdStream.FlushGivesBack` | third/libdrm/libdrm-2.4.117/etnaviv/etnaviv_cmd_stream.c:213-218 | a flush gives back exactly the stream's own references, and its buffers, and no others, forget their stream |
| `CmdStream.SubmitIsAcceptable` | third/libdrm/libdrm-2.4.117/etnaviv/etnaviv_drm.h:132-141 | of consistent tables, relocation offsets increase strictly and lie inside the stream, and no index is out of range |
| `CmdStream.Stream.FindIdx` | third/libdrm/libdrm-2.4.117/etnaviv/etnaviv_cmd_stream.c:150-167 | fast path, search and append all give the index a search would, and the buffer gains a reference exactly if it was new to the table |
| `CmdStream.Stream.Bo2Idx` | third/libdrm/libdrm-2.4.117/etnaviv/etnaviv_cmd_stream.c:144-175 | as FindIdx; the request is recorded and no bit of any entry is ever cleared, and with FlagsAreAsked each entry has exactly the bits asked for |
| `CmdStream.Stream.Reloc` | third/libdrm/libdrm-2.4.117/etnaviv/etnaviv_cmd_stream.c:247-263 | in any number of streams: a relocation of the buffer's own entry is appended at the current offset, and all streams and buffers stay in agreement |
| `CmdStream.Stream.Perf` | third/libdrm/libdrm-2.4.117/etnaviv/etnaviv_cmd_stream.c:265-279 | a performance request names its buffer's entry, which counts as read and written; all streams and buffers stay in agreement |
| `CmdStream.Stream.Flush` | third/libdrm/libdrm-2.4.117/etnaviv/etnaviv_cmd_stream.c:177-228 | what is submitted is the stream's own buffers, relocations, requests and words and meets the kernel's rules; the stream is empty, its buffers have one reference less and remember no stream, and all others are untouched |
| `CmdStream.Stream.Reserve` | third/libdrm/libdrm-2.4.117/etnaviv/etnaviv_drmif.h:150-161 | flushes or not, and leaves room for the words and the clearance exactly if that is possible and the clearance was intact |
| `MultiBuffer.StepConserves` | src/display/m_buffer.cpp:98-140 | no step of any thread makes or unmakes a task |
| `MultiBuffer.NoTaskIsLost` | src/display/m_buffer.cpp:54-140 | in every run at all times a task with both callbacks is in exactly one queue or one hand, whatever callbacks other tasks have |
| `MultiBuffer.SurvivesIff` | src/display/m_buffer.cpp:54-156 | for any number of producers and tasks: every run keeps a task if and only if it has both callbacks, or there is no producer |
| `MultiBuffer.LosingSchedule` | src/display/m_buffer.cpp:98-156 | for any task that lacks a callback, and any producers and other tasks, there is a run that loses it |
| `MultiBuffer.CallbacksAlternate` | src/display/m_buffer.cpp:98-140 | in every run each task's callbacks alternate, produce first |
| `MultiBuffer.CallKeepsPhases` | src/display/m_buffer.cpp:104-140 | a callback changes its own task's phase only, because the task is in no other place |
| `MultiBuffer.ConsumedInOrder` | src/display/m_buffer.cpp:104-140 | tasks are consumed in the order in which they came into the consumer's queue; the rest is in its hand or still queued |
| `MultiBuffer.StepKeepsOwners` | src/display/m_buffer.cpp:98-140 | each mutex belongs to the one thread between locking and unlocking it |
| `MultiBuffer.WaitsWithEmptyHands` | src/display/m_buffer.cpp:98-140 | a thread that is blocked owns no mutex |
| `MultiBuffer.MutexesAreSafe` | src/display/m_buffer.cpp:98-140 | in every run a mutex has at most one owner, its owner can always go on, and who is blocked owns none |
| `MultiBuffer.StaysIff` | src/display/m_buffer.cpp:98-140 | a worker is held up exactly if it has no token, or wants a mutex that is taken: the consumer both queues', a producer the consumer's only |
| `MultiBuffer.TickKeepsInv` | src/display/m_buffer.cpp:142-156 | the clock thread changes nothing but semaphore tokens |
| `MultiBuffer.TokensAreCounted` | src/display/m_buffer.cpp:98-156 | in every run the tokens a worker has left and the rounds it began are what it had and the clock gave |
| `MultiBuffer.RoundsFollowTicks` | src/display/m_buffer.cpp:98-156 | from the start no worker goes round more often than the clock has ticked for it |
| `MultiBuffer.RunKeepsInv` | src/display/m_buffer.cpp:98-156 | every interleaving, of any length and with any number of producers and tasks, keeps all of this |
| `RingBuffer.StepKeepsAccounts` | src/examples/input_show/product_consume_model.c:16-60 | semaphore tokens and threads in flight together account for every slot, free or unread |
| `RingBuffer.TokensAndThreads` | src/examples/input_show/product_consume_model.c:16-60 | tokens of both semaphores and threads past their wait add up to the buffer size |
| `RingBuffer.SlotIsReady` | src/examples/input_show/product_consume_model.c:25-53 | a producer about to write has a slot that is not unread, a consumer about to read has an item, and the index points to it |
| `RingBuffer.StepKeepsOrder` | src/examples/input_show/product_consume_model.c:25-53 | no step overwrites an unread item, and a read takes the oldest |
| `RingBuffer.StepKeepsIndices` | src/examples/input_show/product_consume_model.c:25-53 | in, out and count agree with what was written and read, but for what the thread in the critical section still owes |
| `RingBuffer.EveryRunIsFifo` | src/examples/input_show/product_consume_model.c:16-60 | in every run with any number of producers and consumers the items consumed are a prefix of those written, the rest is in the ring, count stays in range, and in == (out + count) mod size when the mutex is free |
| `RingBuffer.ItemsInOrder` | src/examples/input_show/product_consume_model.c:16-60 | the items consumed of one producer are its 1, 2, 3, ... in turn, without gaps |
| `RingBuffer.NoTwoInside` | src/examples/input_show/product_consume_model.c:22-56 | two threads are never in the critical section together |
| `RingBuffer.NeverStuck` | src/examples/input_show/product_consume_model.c:16-60 | with a producer and a consumer some thread can always go on |
| `RingBuffer.StaysIff` | src/examples/input_show/product_consume_model.c:16-60 | a thread is held up exactly if it waits for a token of its semaphore and there is none, or for the mutex and somebody has it |
| `RingBuffer.ConsumerRound` | src/examples/input_show/product_consume_model.c:39-60 | with the mutex free, one round of a consumer takes the oldest unread item and frees a slot; without an item it stays |
| `RingBuffer.ProducerRound` | src/examples/input_show/product_consume_model.c:16-37 | with the mutex free, one round of a producer puts its next item behind the others; without a free slot it stays |
| `RingBuffer.FillsFreeSlots` | src/examples/input_show/product_consume_model.c:16-37 | a producer alone fills every free slot, all ten of a new ring |
| `Scattering.HashHash` | third/libdrm/libdrm-2.4.117/xf86drmHash.c:80-103 | the loop over the key's bytes, with the table it makes once, gives the key's chain, below 512 |
| `Scattering.HashIsWeightedSum` | third/libdrm/libdrm-2.4.117/xf86drmHash.c:80-103 | the chain is, modulo 512, the sum over the key's bytes b of the (b+1)-th number after seed 37, doubled once for each byte above: the 64-bit wrap is never noticed |
| `Chains.ToFrontKeeps` | third/libdrm/libdrm-2.4.117/xf86drmHash.c:151-159 | moving a bucket to the head changes no binding of the chain |
| `Chains.TouchedFirst` | third/libdrm/libdrm-2.4.117/xf86drmHash.c:151-159 | a chain in order of last touches stays so when the bucket touched becomes the head |
| `HashTable.FoundIsProper` | third/libdrm/libdrm-2.4.117/xf86drmHash.c:139-165 | after a successful search every key is still in its own chain once, chains are in order of last touches, and the map is the same |
| `HashTable.Table.MoveToHead` | third/libdrm/libdrm-2.4.117/xf86drmHash.c:153-158 | relinking two pointers and the head gives the chain with the bucket in front |
| `HashTable.Table.SearchChain` | third/libdrm/libdrm-2.4.117/xf86drmHash.c:139-165 | finds the key's bucket exactly if the chain has it and makes it the head; one of hits, partials and misses is counted, hits exactly if it was the head |
| `HashTable.Table.FindIn` | third/libdrm/libdrm-2.4.117/xf86drmHash.c:139-165 | succeeds exactly on the map's keys, with the map's value, and leaves the bucket at the head of its chain; no binding changes |
| `HashTable.Table.Lookup` | third/libdrm/libdrm-2.4.117/xf86drmHash.c:167-178 | 0 and the map's value, or 1, exactly by whether the key is bound; the key becomes the most recently touched |
| `HashTable.Table.Insert` | third/libdrm/libdrm-2.4.117/xf86drmHash.c:180-197 | adds the binding, or leaves an existing one as it is and says 1 |
| `HashTable.Table.Delete` | third/libdrm/libdrm-2.4.117/xf86drmHash.c:199-214 | removes exactly the asked key although it unlinks the chain's head without looking |
| `HashTable.Table.Next` | third/libdrm/libdrm-2.4.117/xf86drmHash.c:216-231 | visits the rest of the current chain and then the chains from p0 to 510 |
| `HashTable.Table.Enumerate` | third/libdrm/libdrm-2.4.117/xf86drmHash.c:216-242 | an enumeration visits chain 0, then chains 0 to 510 |
| `HashTable.Run` | third/libdrm/libdrm-2.4.117/xf86drmHash.c:167-214 | every sequence of inserts, lookups and deletes on a new table returns what a finite map returns and leaves the same bindings |
| `HashTable.VisitsEachOnceIff` | third/libdrm/libdrm-2.4.117/xf86drmHash.c:216-242 | every binding is visited exactly once if and only if no key hashes to the first or the last chain |
| `BoCache.BoCache.constructor` | third/libdrm/libdrm-2.4.117/etnaviv/etnaviv_bo_cache.c:44-67 | 55 buckets fit the array of 56, in strictly increasing sizes, all empty |
| `BoCache.SizesGrow` | third/libdrm/libdrm-2.4.117/etnaviv/etnaviv_bo_cache.c:46-66 | each size is larger than the one before, and by at most a quarter from four pages on |
| `BoCache.SizesHaveThreeBits` | third/libdrm/libdrm-2.4.117/etnaviv/etnaviv_bo_cache.c:46-66 | the bucket sizes are exactly the page counts c * 2^n with c from 1 to 7 and n up to 12 |
| `BoCache.PageRoundIsExact` | third/libdrm/libdrm-2.4.117/etnaviv/etnaviv_bo_cache.c:164 | the 32-bit rounding is the least whole number of pages not below the size exactly if it does not wrap |
| `BoCache.BucketFits` | third/libdrm/libdrm-2.4.117/etnaviv/etnaviv_bo_cache.c:96-111 | the smallest bucket for a page-rounded size is less than a quarter larger |
| `BoCache.BoCache.GetBucket` | third/libdrm/libdrm-2.4.117/etnaviv/etnaviv_bo_cache.c:96-111 | the least bucket size that is large enough, or none if even the last is too small |
| `BoCache.BoCache.FindInBucket` | third/libdrm/libdrm-2.4.117/etnaviv/etnaviv_bo_cache.c:121-152 | takes the oldest buffer with the flags if it is idle, and otherwise nothing, not even a younger idle one |
| `BoCache.BoCache.Alloc` | third/libdrm/libdrm-2.4.117/etnaviv/etnaviv_bo_cache.c:158-179 | the size is the least bucket size not below the request's pages, or these if there is none; it is not below the request exactly if rounding does not wrap, and then less than a quarter above its pages; a buffer of that size and these flags is recycled exactly if the oldest such is idle |
| `BoCache.TrimIsExact` | third/libdrm/libdrm-2.4.117/etnaviv/etnaviv_bo_cache.c:77-90 | with the oldest first, stopping at the first buffer that may stay drops exactly those that must go |
| `BoCache.BoCache.Cleanup` | third/libdrm/libdrm-2.4.117/etnaviv/etnaviv_bo_cache.c:70-94 | keeps exactly the buffers freed at most a second ago, or none at time 0, also when it returns early |
| `BoCache.BoCache.Free` | third/libdrm/libdrm-2.4.117/etnaviv/etnaviv_bo_cache.c:181-204 | the buffer joins the bucket of its own size, and nothing freed more than a second ago is left; it is refused exactly if larger than every bucket |

## Left out

Contracts that are weaker than the code, or ask more:

- VaManager.VaManager.FindVa: all arguments are words, and nothing else is asked; a size that ALIGN wraps is served as the size it wraps to, as in the code (AlignRoundsUpExactly says when). The alignment of the manager is any positive number, rounded as the code's mask does for powers of two.
- AtomicRequest.AtomicReq.Commit: of any two items the numbers in which they differ first are less than 2^31 apart, exactly where the comparator is right about them (CompareIsBeforeIff); beyond that `qsort` promises nothing. `qsort` is an insertion sort, which SortIsDetermined shows not to matter; the ioctl itself and its answer are not modelled.
- FormatModifiers.IterNext: what a compiler makes of a shift by more than 30 is a parameter.
- FormatModifiers.DocumentedIff: says nothing of formats beyond the 32nd of a window, where C does not define the shift.
- FakeBufmgr.BufMgr.Exec: the tree of relocations is given as the list of its buffers in the order in which they are reached; the batch before was submitted successfully, since a refused one stays on the hardware list.
- FakeBufmgr.BufMgr.FreeBlock: whether there is a copy and where it is, not the bytes.
- CmdStream.Stream.Flush: the kernel's rules are met for streams of at most 2^30 words; the kernel's answer and `last_timestamp` are not modelled.
- CmdStream.Stream.Reloc: room for one more word has been reserved, and tables can always grow.
- MultiBuffer.RunKeepsInv: one consumer, as in the source; the start and the end of the threads are not modelled.
- BoCache.BoCache.Free: the clock is positive and does not go back, and the buffer's size is one the cache chose, as for every buffer that may be reused.
- HashTable.Table.Next: the table is not changed during an enumeration.

Not modelled:

- Pointers between the fake manager's blocks and buffers, and between lists and their members, are addresses in maps and sequences, not heap objects; the same holds for the buffers in the ageing cache.
- Mapping and unmapping of buffers, reference counts and the heap `mm.c` of the fake manager; allocation there may fail at any time.
- The kernel's wait loop of the fake manager (the callback path is modelled), and `contended_lock_take`.
- Magic-number checks, destruction and dumping of the skip list, the hash table and the generator.
- Removing, during an iteration of the skip list, the entry the iteration stands on.
- Failing allocations, except where a contract names them.
- The choice among the four managers of `amdgpu_va_range_alloc`.
- Import of etnaviv buffers by name, which may take a buffer out of the cache, and its device references.
- `flash_fb.c`, `flash_buffer.c` and `triple_buffer_model.c`, whose threads share counters without locks.
- All ioctl, mmap, sysfs and device-node code, the input examples, chip tables and name printing, and the freedreno copies of the etnaviv code.
