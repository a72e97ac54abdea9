# A verified model of a B+tree over a swizzling page cache

The program keeps a B+tree of 64-bit keys and values in 1 KB pages of a backend, and works on it
through a buffer pool in the style of LeanStore: child slots of resident pages hold tagged pointers
to other resident pages, a bitmap per page says which, and a randomised sampler cools and recycles
pages whenever a frame is needed. This project states what that machinery must do and proves that
it does it: whatever pages the sampler picks and whatever frames are recycled, the tree behaves as
a plain sorted map.

`dafny verify dfyconfig.toml` checks everything.

## Layers

| files | what they hold |
|---|---|
| `Types.dfy`, `Word.dfy` | addresses, tagged slots and their 64-bit words; a `uint64_t` as 64 bits with shifts, masks, `tzcnt`, `lzcnt` |
| `Node.dfy`, `BtreeNode.dfy` | pages as values and what the page operations compute; the page layouts changed in place, proved against those functions |
| `BPlusTree.dfy`, `TreeShape.dfy` | the tree as the pages at backend addresses describe it; its leaves and entries from left to right, its height |
| `CacheState.dfy`, `CacheSteps.dfy`, `LoadSteps.dfy`, `SplitSteps.dfy` | pool, indexes and backend as one value, the invariant, and every step that moves between states |
| `Backend.dfy`, `PageTable.dfy`, `CoolingTable.dfy`, `CoolingFifo.dfy` | the backend, the bump allocator, the two indexes, and a cooling bucket over whole runs |
| `SampleSteps.dfy`, `SplitWindow.dfy` | one pass of the sampler as steps on the state, on a sound cache and in the window of an inner split |
| `CacheManager.dfy`, `CacheFacts.dfy` | the code that obtains a frame, cools, evicts and flushes; what the invariant means |
| `TreeFacts.dfy`, `TreeDescent.dfy`, `TreeGrowth.dfy`, `SplitCount.dfy`, `WarmUp.dfy`, `LeanStoreTree.dfy` | the tree operations over the cache; the pages an insert adds; the phase in which nothing is cooled |
| `Runs.dfy`, `DirectTraversal.dfy` | whole runs against a map; the reader over the backend alone |
| `WindowRuns.dfy`, `HazardRun.dfy` | calls of the sampler pick by pick, what they come to in the window of an inner split, and a run of inserts that meets a harmful one |
| `SampleProgress.dfy` | when a call of the sampler can cool a page |

A state `s` satisfies `Inv(s, st, hand)` when every frame is in exactly one place, the page table
names only frames that hold the address asked for, bitmap bits, tags, parent pointers, levels and
limits agree in every resident page, and the pages together say the logical store `st`: the
resident page of an address, unswizzled, if there is one, and the backend page otherwise. Steps of
the cache keep `Inv` for the same `st`; steps of the tree change `st` the way a B+tree should.
Random choices are left open, so each proof covers every choice. A run ends early only with
`Halted`. Then the pages still hold the map of the operations answered and the pool still shows a
sound state (`Intact`), and `Exhausted` says what is the matter: no frame was at hand and a call of
`sample_page` has used up its thousand tries on a pool with a frame it cannot cool; the backend has
no room for a page; or an inner page has been cut, no frame was at hand, and a pass of `sample_page`
is about to do harm: to cool a page that a slot still names, or to fail an assertion. The last is a
defect of the code (see `WindowRuns.OneCallIff`), so the model stops at that pass instead of
following it; passes that do no harm are followed, also where others would. `Runs.Ends` says which
operation may halt for what. A search halts only when the sampler gives up, and only if frames for the
pages missing on its way cannot be had without it (`Served`). An insert halts for another reason only
with full pages on its way: when the backend has not got the pages these splits take (`AllDue`), or at
a full inner page. While the pool still has a frame for every page the backend can give out (`Roomy`),
only an insert that finds the backend full halts.

## Model

| member | source | states |
|---|---|---|
| Runs.Run | include/tree/LeanStoreTree.h:241-312 | every answer of a run of inserts, lookups, updates, removes, scans and flushes is the one a plain map gives after the operations before it, and every moment of it follows from the one before as its operation says (`Follows`); a run that ends early has answered right so far, its pages still hold that map on a sound pool, and it ends at an operation that may end for that reason (`Ends`): by a full backend or a hazard at an insert only, and only with full pages on its way; with a frame for every backend page it ends early only at an insert into a full backend |
| Runs.RunFromScratch | include/tree/LeanStoreTree.h:42-55 | the same for a tree built on a fresh backend, starting from the empty map; a run answered to its end has taken no backend page that the tree does not use; if the pool has a frame for every page the backend can give out, every run is answered to its end or to the first insert that finds the backend full |
| Runs.Perform | include/tree/LeanStoreTree.h:241-312 | one operation answers and acts as on the map: a scan has num entries or all from its key to the end of that leaf; an insert adds exactly the pages its full pages ask for; an update or remove changes one leaf; reading changes no page, and with every page on the way in the pool nothing at all |
| LeanStoreTree.LeanStoreTree.constructor | include/tree/LeanStoreTree.h:42-55 | a sound cache over a tree of one empty leaf, storing the empty map |
| LeanStoreTree.LeanStoreTree.AllocateLeaf | include/tree/LeanStoreTree.h:63-73 | a never used address now holds an empty leaf with the given limits and nothing else changed; on a full backend the null address comes back and no allocated page changes |
| LeanStoreTree.LeanStoreTree.Insert | include/tree/LeanStoreTree.h:241-264 | m becomes m[k := v], and the answer is true exactly for a new key; a leaf or inner page more for every page on the way to k that holds 59 keys, a root more if the root does, and no other page taken from the backend; with none of them full only the leaf of k changes, and it halts only if the sampler gives up on a page not in the pool; it finds the backend full only if that has not got these pages, and meets a hazard only with a full inner page on the way |
| LeanStoreTree.LeanStoreTree.FindRoomyLeaf | include/tree/LeanStoreTree.h:241-258 | insert's descent ends in the leaf responsible for k, that leaf is not full, and every full page on the way has been split, each once |
| LeanStoreTree.LeanStoreTree.StepDownSplitting | include/tree/LeanStoreTree.h:248-258 | from a page with room to the child responsible for k with room, one level down; the child is split if it holds 59 keys and else left as it is |
| LeanStoreTree.LeanStoreTree.Lookup | include/tree/LeanStoreTree.h:266-275 | the value of a present key, nothing for an absent one; the tree is unchanged, and with every page on the way to k in the pool so is the pool; it halts only if the sampler gives up, and never if frames for the missing pages can be had without it |
| LeanStoreTree.LeanStoreTree.Update | include/tree/LeanStoreTree.h:277-288 | changes the value of a present key only, in one leaf; halts as Lookup does |
| LeanStoreTree.LeanStoreTree.Remove | include/tree/LeanStoreTree.h:290-301 | takes out a present key and nothing else, in one leaf; halts as Lookup does |
| LeanStoreTree.LeanStoreTree.RangeScan | include/tree/LeanStoreTree.h:303-312 | a stretch of the whole tree's in-order entries from k on, with no key left out; it has num entries, or all there are up to the end of k's leaf; nothing when k is absent; halts as Lookup does |
| LeanStoreTree.LeanStoreTree.Flush | include/tree/LeanStoreTree.h:57-60 | afterwards every backend page is the unswizzled logical page, no frame is dirty, and the tree and the pool are otherwise as they were |
| LeanStoreTree.LeanStoreTree.LoadChild | include/tree/LeanStoreTree.h:92-124 | the frame of the child in that slot, now swizzled; the tree, its contents and the logical store are unchanged; a hit never halts |
| LeanStoreTree.LeanStoreTree.LoadMissing | include/tree/LeanStoreTree.h:97-123 | the page read sits in a frame obtained while the parent was pinned, HOT and as it was read, and no other page has come into the pool; with a frame at hand it takes that one and never halts; else it halts only if the sampler gives up |
| LeanStoreTree.LeanStoreTree.SplitLeafChild | include/tree/LeanStoreTree.h:138-167 | the child's slot is divided at the separator, the sibling is loaded, the tree stores the same map |
| LeanStoreTree.LeanStoreTree.HalveInnerChild | include/tree/LeanStoreTree.h:168-196 | an inner page, its bits and the parents of its swizzled children are divided together, and the tree stores the same map, also when the sampler runs between the cut and the sibling's admission; it halts there only when the sampler gives up or a pass of it would do harm |
| LeanStoreTree.LeanStoreTree.CutInner | include/tree/LeanStoreTree.h:176-187 | the sibling's frame is obtained as if the sampler had run before the cut, on the page still whole, and had left alone everything the split moves but parent pointers; otherwise the sampler gave up, or the pool shows a window with a pass that does harm |
| LeanStoreTree.LeanStoreTree.SplitRoot | include/tree/LeanStoreTree.h:243-246 | a full root is split under a new one: same map, one level higher, room at the top, two backend pages more |
| LeanStoreTree.LeanStoreTree.MakeNewRoot | include/tree/LeanStoreTree.h:201-238 | a page over the two halves completes the tree, and height and inner count follow, although acquiring its frame may run the sampler |
| LeanStoreTree.LeanStoreTree.CountsAndHeight | include/tree/LeanStoreTree.h:36-40 | the counters are the true numbers of leaves and inner pages and the true height; height h >= 2 means at least 2 * 29^(h-2) leaves |
| LeanStoreTree.LeanStoreTree.WordsAndLevelsFit | include/GlobalAddress.h:9-16 | on a backend of at most 2^47 bytes the stored word of every slot decodes to that slot, and levels stay far below 255 |
| TreeShape.HeightBound | include/tree/LeanStoreTree.h:237 | a sound tree of height h >= 2 has at least 2 * 29^(h-2) leaves |
| TreeShape.LevelsFitInAByte | include/cache/BtreeNode.h:19 | with page-aligned offsets below 2^47 no page reaches level 9 |
| TreeShape.LeavesDivide | include/cache/BtreeNode.h:162-166 | the leaves under a page divide its interval of keys without gap or overlap |
| TreeShape.RunHasAllLeaves | include/tree/LeanStoreTree.h:154 | the leaves under the root, left to right, are all leaves there are, each once |
| TreeShape.EveryPageHangs | include/tree/LeanStoreTree.h:135-197 | every page but the root hangs from exactly one slot |
| TreeShape.InOrderListsMap | include/cache/BtreeNode.h:42 | read left to right the leaves list the tree's map in key order |
| TreeShape.LeafScanIsTreeScan | include/cache/BtreeNode.h:86-95 | scanning the leaf of k is scanning the in-order listing, stopping where that leaf stops |
| TreeShape.ScanHasNoGap | include/tree/LeanStoreTree.h:303-312 | such a scan is sorted, starts at k and leaves out no key up to its end |
| TreeShape.ScanEndsWithLeaf | include/cache/BtreeNode.h:86-95 | it has num entries or every key of the map from k to the upper limit of k's leaf |
| BPlusTree.OnlyCover | include/cache/BtreeNode.h:162-166 | on one level at most one page is responsible for a key |
| BPlusTree.OnlyParent | include/tree/LeanStoreTree.h:135-197 | no page hangs from two slots |
| BPlusTree.LeafAnswers | include/tree/LeanStoreTree.h:273-274 | the one leaf covering k answers for the whole tree |
| BPlusTree.InsertAtLeaf | include/cache/BtreeNode.h:97-120 | inserting into the leaf that covers k turns the tree's map into m[k := v] and keeps the shape |
| BPlusTree.UpdateAtLeaf | include/cache/BtreeNode.h:138-146 | updating there changes the map at a present key only |
| BPlusTree.RemoveAtLeaf | include/cache/BtreeNode.h:122-136 | removing there takes k out of the map |
| BPlusTree.SplitUnderKeepsTree | include/tree/LeanStoreTree.h:135-197 | splitting a full child keeps the shape (sorted keys, strict separators, exact child limits, equal depth, 28 keys) and the map |
| BPlusTree.GrowRootKeepsTree | include/tree/LeanStoreTree.h:201-238 | so does splitting a full root under a new one, one level higher |
| TreeDescent.DescendStep | include/cache/BtreeNode.h:200-210 | the slot lowerBound picks leads to the child responsible for k, one level down |
| TreeDescent.SplitThenDescend | include/tree/LeanStoreTree.h:252-256 | after a split the second search lands on a half that covers k and has room |
| TreeDescent.MissReady | include/tree/LeanStoreTree.h:97-112 | while the parent is pinned the sampler leaves the slot to be filled alone |
| TreeDescent.MissDone | include/tree/LeanStoreTree.h:112-123 | after a miss the same tree stands over the same store, with the child swizzled |
| TreeDescent.MissMade | include/tree/LeanStoreTree.h:97-123 | a miss brings its page into the pool and no other; with a frame at hand it costs exactly that frame |
| TreeFacts.MissServed | include/cache/LeanStoreCache.h:233-283 | while frames for all pages missing on the way can be had without the sampler, one at a time, a miss is served so, and the rest still can be |
| SplitCount.PaidSplit | include/tree/LeanStoreTree.h:135-197 | a split of the full page on a level pays for that page and leaves every level below as it was |
| SplitCount.PaidRoot | include/tree/LeanStoreTree.h:201-238 | a full root costs a page for its sibling and one for the new root |
| SplitCount.AllPaid | include/tree/LeanStoreTree.h:241-264 | once the leaf is reached, the leaves and inner pages added are the full pages that were on the way |
| TreeGrowth.LeafSplitDone | include/tree/LeanStoreTree.h:138-161 | a leaf split under its parent, cache and tree together, keeps the map |
| TreeGrowth.InnerSplitDone | include/tree/LeanStoreTree.h:168-194 | an inner split under its parent keeps the map, whatever harmless sampling happens between the cut and the sibling's admission |
| TreeGrowth.InnerHalved | include/tree/LeanStoreTree.h:168-194 | the same for an inner root, up to the new root |
| TreeGrowth.WindowKeepsChild | include/cache/LeanStoreCache.h:174-186 | that sampling leaves the cut page in its parent's slot |
| TreeGrowth.RootDone | include/tree/LeanStoreTree.h:201-237 | the new root completes a halved tree |
| TreeFacts.UnswizzledIsNotResident | include/tree/LeanStoreTree.h:92-112 | a child behind an untagged slot has no resident frame, so loading it cannot make a second one |
| TreeFacts.SlotsDecode | include/Types.h:15-16 | with offsets below 2^47 a stored slot word decodes to the slot |
| SplitWindow.JudgedRight | include/cache/LeanStoreCache.h:147-171 | without a hazard every walk in the window ends under super_root_ or at a frame that may be cooled and has not moved: no orphan, no stale parent, no failing check |
| SplitWindow.JudgedInWindow | include/cache/LeanStoreCache.h:147-199 | in the window a walk ends under super_root_, or at a frame that may be cooled and has not moved, or at a moved child that loses its parent pointer; an orphan or a failing check comes up exactly at a moved child already cleared and at the cut page below a pool frame, and then there is a hazard |
| SplitWindow.ChosenKeeps | include/cache/LeanStoreCache.h:174-186 | cooling such a frame after the cut comes to the same as cooling it before the cut, and changes nothing the split moves |
| WindowRuns.OneCallIff | include/cache/LeanStoreCache.h:136-201 | one call of sample_page between the cut and the admission of the sibling can abort or cool a frame that is still pointed to exactly when a moved slot names a frame with no swizzled child, or the cut page has none and hangs from a pool frame |
| WindowRuns.TwoCallsIff | include/cache/LeanStoreCache.h:204-209 | the two calls of one sample_multiple_pages can go wrong exactly when that holds, or cooling one page makes it hold: the last swizzled child of a moved page, or the last one below the cut |
| WindowRuns.OneTurnIff | include/cache/LeanStoreCache.h:233-272 | one turn of try_get_empty_page in the window can go wrong exactly when no frame is at hand and its two calls can |
| WindowRuns.AnyCallsIff | include/cache/LeanStoreCache.h:136-201 | some number of calls in a row, however they come about, can go wrong exactly when a moved child is swizzled or the cut page hangs from a pool frame |
| WindowRuns.LastPick | include/cache/LeanStoreCache.h:136-201 | picks tried in vain only use up tries: what a call comes to is decided by its last pick, on the state they leave |
| SampleProgress.SampleCanCoolIff | include/cache/LeanStoreCache.h:136-201 | on a sound pool some pick cools a page exactly when some resident frame is off the way from the root to the pinned frame |
| SampleProgress.SamplerCanWork | include/cache/LeanStoreCache.h:136-201 | so with more frames than cooling table, local_page_set and tree height together some pick always does |
| SampleProgress.TreeCanBeServed | include/tree/LeanStoreTree.h:92-112 | the same for the tree between operations and with any parent pinned by a miss |
| SampleProgress.RestsAfter | include/cache/LeanStoreCache.h:204-209 | and what one call leaves is such a pool again, so it holds for every further call |
| WindowRuns.SafeCallIsEarlier | include/cache/LeanStoreCache.h:136-201 | every call that returns, hazard or not, leaves the state the cut would have made of a sound state sampled before the split, up to parent pointers of moved children; without a hazard not even these differ |
| WindowRuns.ReturnedIsEarlier | include/cache/LeanStoreCache.h:204-209 | the same for any number of calls in a row, each of which has cooled one page |
| SplitWindow.FreedAdopted | include/cache/NodeWR.h:113-124 | update_all_parent_ptr sets exactly these pointers again, so the split ends as if they had never been cleared |
| WindowRuns.DeadlyIff | include/cache/LeanStoreCache.h:147-199 | in such a window some next pass does harm exactly when some HOT frame without swizzled children is judged an orphan or fails the check |
| WindowRuns.MovedChildIsCooled | include/cache/LeanStoreCache.h:164-168 | two picks of a moved bottom child: the first orphans it, the second cools it while its new slot still names it |
| WindowRuns.CutPageAborts | include/cache/NodeWR.h:239-251 | a cut page without swizzled children fails check_parent_child_info, since its upper limit no longer matches its slot |
| HazardRun.HazardIsReached | include/tree/LeanStoreTree.h:176-187 | a pool of 61 frames and inserts with ascending keys come to it: the full root is cut, no frame is at hand, and two picks of a moved leaf leave a COOL frame behind a swizzled pointer |
| HazardRun.FullRootIsReached | include/tree/LeanStoreTree.h:241-264 | those inserts, step by step from the constructor on, fill the root while every page stays resident |
| WarmUp.FrameForEveryPage | include/cache/LeanStoreCache.h:258-262 | while warming up with a frame for every page, a page that is not resident finds a frame never handed out |
| CacheManager.CacheManager.GetEmptyPage | include/cache/LeanStoreCache.h:275-283 | returns a frame no one uses, turn after turn of try_get_empty_page, without sampling whenever one is at hand; terminates because every failed try cools two pages; changes no logical page and moves no pinned or top page; with no frame the pool is still sound, and the sampler gave up or, in the window of an inner split, has come to a pass that does harm |
| CacheManager.CacheManager.TryGetEmptyPage | include/cache/LeanStoreCache.h:233-272 | a frame taken at hand; or, with none, exactly two calls that cool a page each, and then the last frame of local_page_set if there is one |
| CacheManager.CacheManager.TakeWithoutSampling | include/cache/LeanStoreCache.h:236-266 | the allocator while warming up, then local_page_set, and only when that is empty the oldest entry of the first non-empty bucket probed |
| CacheManager.CacheManager.TakeFromCooling | include/tree/HashTable.h:320-337 | the frame evicted last from a probed bucket also leaves the page table if that still names it |
| CacheManager.CacheManager.SampleMultiplePages | include/cache/LeanStoreCache.h:204-209 | exactly that many pages leave the tree by that many calls, with no logical page changed, on a sound cache and in the window of an inner split; or a call gives up or comes to a pass that does harm, and what was cooled before is fewer |
| CacheManager.CacheManager.CacheInsert | include/cache/LeanStoreCache.h:116-132 | the page sits PINNED in a frame no one used, obtained as get_empty_page does (`WindowRuns.Obtained`), and the page table maps its address to that frame |
| CacheManager.CacheManager.SamplePage | include/cache/LeanStoreCache.h:136-201 | the call its picks make (`WindowRuns.Call`): one HOT page becomes COOL, no other page leaves the tree and no logical page changes; or 999 picks have been tried and each cooled nothing; or the last pick does harm |
| CacheManager.CacheManager.SelectFrame | include/cache/LeanStoreCache.h:147-171 | the branch is the one its pick leads to, and a pick is skipped only if it cools nothing; without a hazard the pass is skipped or cools: the orphan, stale-parent and failing-check branches are not taken, and the frame chosen is HOT, has no swizzled child and hangs from the slot returned; with one, a stale parent is found only at a moved child, and an orphan or a failing check only where the pass does harm |
| CacheManager.CacheManager.CoolDown | include/cache/LeanStoreCache.h:174-186 | unhook, write back if dirty, file as newest, recycle what the bucket gives up |
| CacheManager.CacheManager.Chill | include/tree/HashTable.h:144-168 | the frame is filed and becomes COOL, and what its bucket gives up leaves the page table |
| CacheManager.CacheManager.RecursiveIterate | include/cache/NodeWR.h:166-187 | the walk goes from the frame it starts at through set bits and tagged slots, dropping a level each step, to a frame with empty bitmap; it returns that frame and its true slot if the frame is HOT, and nothing if not |
| CacheManager.CacheManager.UpdateAllParentPtr | include/cache/NodeWR.h:113-124 | exactly the frames the slots name get the page as parent; a leaf changes nothing |
| CacheManager.CacheManager.RemoteWrite | include/cache/NodeWR.h:67-94 | the backend page becomes the frame's page as it is, without parent, position and dirty flag, and the frame is clean |
| CacheManager.CacheManager.FullyUnswizzle | include/cache/NodeWR.h:189-201 | each tagged child gives way to its backend address, and nothing else changes |
| CacheManager.CacheManager.FlushAll | include/cache/LeanStoreCache.h:778-797 | afterwards no frame is dirty and every backend page is the unswizzled logical page |
| SampleSteps.CheckPasses | include/cache/NodeWR.h:204-284 | the parent-child check passes for every frame the invariant hangs from a slot, and findIdx finds that slot |
| SampleSteps.SampledKeeps | include/cache/LeanStoreCache.h:174-186 | cooling a page keeps the invariant and the logical store and takes exactly that frame out of the tree |
| CacheManager.Settings | include/cache/LeanStoreCache.h:26-27 | two pages are sampled at a time and eight buckets probed; a cooling bucket has six entries, a page-table bucket three, a call a thousand tries; pages are 1 KB |
| CacheManager.CleanMeansStored | include/cache/LeanStoreCache.h:778-797 | with no dirty frame left the backend alone holds the logical store |
| CacheSteps.WriteBackKeeps | include/cache/NodeWR.h:67-94 | writing a resident page back changes no logical page |
| CacheSteps.DemoteKeeps | include/cache/LeanStoreCache.h:174-186 | HOT to COOL changes no logical page |
| CacheSteps.TakesKeeps | include/tree/HashTable.h:296-337 | taking a frame in any of these ways, also by evicting a stale copy of a page that was reloaded, changes no logical page |
| CacheSteps.LastReleasedFirst | include/cache/LeanStoreCache.h:214-230 | local_page_set is a stack: the frame put in last is taken first |
| LoadSteps.LoadKeeps | include/tree/LeanStoreTree.h:106-118 | loading an absent page into a slot changes no logical page |
| SplitSteps.WriteLeafKeeps | include/cache/BtreeNode.h:97-120 | writing a resident leaf changes the logical store at its address only |
| SplitSteps.SplitLeafUnderKeeps | include/tree/LeanStoreTree.h:142-162 | a leaf split changes the logical store exactly as SplitUnder says |
| SplitSteps.SplitInnerUnderKeeps | include/tree/LeanStoreTree.h:170-194 | so does an inner split: bits, tags and parent pointers of both halves stay in step |
| SplitSteps.NewRootKeeps | include/tree/LeanStoreTree.h:209-235 | a new root over two resident or stored halves keeps the invariant |
| CacheFacts.InvFixesLogicalPage | include/cache/LeanStoreCache.h:116-201 | the logical page of an address is its resident frame unswizzled if there is one, else the backend page |
| CacheFacts.Transparency | include/cache/LeanStoreCache.h:116-201 | sound states over one store show the same page at every address |
| CacheFacts.OneHome | include/tree/PageTable.h:146-230 | an address has at most one resident frame, and the page table names it, whatever COOL copies remain |
| CacheFacts.CleanFramesAgree | include/cache/LeanStoreCache.h:176-177 | a clean resident frame agrees with the backend up to swizzling |
| CacheFacts.CoolFramesAreClean | include/tree/HashTable.h:62-69 | the assertion in evict_last never fails |
| CacheFacts.BackendIsUntagged | include/cache/NodeWR.h:189-201 | no backend page holds a swizzled pointer |
| CacheFacts.NoSharing | include/cache/LeanStoreCache.h:147-186 | no two slots of the pool name one frame |
| CacheFacts.OneTree | include/cache/LeanStoreCache.h:147-186 | the resident frames form one tree under super_root_: a path of set bits and tagged slots leads from the root's frame to each, every frame on it the parent the next one names |
| CacheFacts.OnePath | include/cache/LeanStoreCache.h:147-186 | and only one such path |
| CacheFacts.Conservation | include/cache/LeanStoreCache.h:215-272 | every frame is never allocated, free, cooling or resident, in one place only, and the counts add up to the pool |
| BtreeNode.BTreeLeaf.Search | include/cache/BtreeNode.h:64-75 | binary search finds the first key not below k |
| BtreeNode.BTreeLeaf.Find | include/cache/BtreeNode.h:77-84 | the value stored for k, if any |
| BtreeNode.BTreeLeaf.RangeScan | include/cache/BtreeNode.h:86-95 | copies the entries from k on, at most num, into a buffer that holds them, and touches nothing else of it |
| BtreeNode.BTreeLeaf.Insert | include/cache/BtreeNode.h:97-120 | upsert in place; a full leaf without k is left alone and the answer is false |
| BtreeNode.BTreeLeaf.Remove | include/cache/BtreeNode.h:122-136 | takes k's entry out in place, dirty only if there was one |
| BtreeNode.BTreeLeaf.Update | include/cache/BtreeNode.h:138-146 | overwrites k's value in place, dirty only if there was one |
| BtreeNode.BTreeLeaf.Halve | include/cache/BtreeNode.h:148-160 | the two leaves and the separator are the split of the old leaf: of 59 entries 29 stay and 30 move, and the separator is the last key staying |
| BtreeNode.BTreeInner.Search | include/cache/BtreeNode.h:200-210 | binary search over the separators |
| BtreeNode.BTreeInner.Position | include/cache/BtreeNode.h:212-218 | the first slot holding the word, or -1 |
| BtreeNode.BTreeInner.SetBitmap | include/cache/BtreeNode.h:220 | sets that bit and no other |
| BtreeNode.BTreeInner.UnsetBitmap | include/cache/BtreeNode.h:221 | clears that bit and no other |
| BtreeNode.BTreeInner.TestBitmap | include/cache/BtreeNode.h:222 | tells whether the bit is set |
| BtreeNode.BTreeInner.ClosestSet | include/cache/BtreeNode.h:224-252 | the nearest set bit, of two the left one, exactly when that bit is left of pos or at most count; so always when all set bits are at most count; from pos 64 on it looks from bit 63 but counts from pos |
| BtreeNode.BTreeInner.Halve | include/cache/BtreeNode.h:254-268 | keys, children and bits are split as one sequence |
| BtreeNode.BTreeInner.Insert | include/cache/BtreeNode.h:275-292 | separator, child right after the chosen one, and bitmap bit go in together; the assertion holds, and both memmoves stay inside their arrays |
| BtreeNode.InsertBits | include/cache/BtreeNode.h:286-289 | the two shifts and the mask move the bits above the slot up by one |
| BtreeNode.SplitBits | include/cache/BtreeNode.h:265-266 | shift and mask part the bits as the children are parted |
| BtreeNode.NoBitLost | include/cache/BtreeNode.h:286-289 | in a page with room every bit goes where its child goes, and none falls off |
| Word.LowMaskIsPowerLessOne | include/cache/BtreeNode.h:235 | (1 << n) - 1 is the mask of the n low bits |
| Word.ClosestFrom | include/cache/BtreeNode.h:224-252 | searching at growing distance, left before right, finds the nearest bit |
| Word.NearestUnique | include/cache/BtreeNode.h:224-252 | there is only one nearest bit, so both searches agree |
| Node.Capacities | include/cache/BtreeNode.h:39-42 | 59 entries in a leaf, 60 slots in an inner page, full at 59 keys, at least 28 after a split |
| Node.FullAt59 | include/cache/BtreeNode.h:62 | a sound page is full exactly with 59 entries or 59 separators |
| Node.SplitSizes | include/cache/BtreeNode.h:148-160 | a leaf's halves differ by at most one with the larger on the right, and the separator is the last key staying |
| Node.FindReadsMap | include/cache/BtreeNode.h:77-84 | find in a leaf storing m is lookup in m |
| Node.InsertUpdatesMap | include/cache/BtreeNode.h:97-120 | insert turns the stored map m into m[k := v] and grows by one exactly for a new key |
| Node.UpdateUpdatesMap | include/cache/BtreeNode.h:138-146 | update changes a present key only |
| Node.RemoveShrinksMap | include/cache/BtreeNode.h:122-136 | remove turns m into m - {k} |
| Node.SplitOk | include/cache/BtreeNode.h:254-268 | a full page splits into two sound pages with room and a separator strictly inside: 29 and 30 entries of a leaf, 28 and 30 separators of an inner page |
| Node.SplitIsPartition | include/cache/BtreeNode.h:148-160 | left ++ separator ++ right is the page that was split |
| Node.InnerInsertOk | include/cache/BtreeNode.h:275-292 | a separator strictly inside slot p divides that slot at positions p and p + 1 |
| Node.InnerInsertSlot | include/cache/BtreeNode.h:275-292 | every other slot keeps its child and its interval |
| Node.SearchFindsSlot | include/cache/BtreeNode.h:200-210 | a slot is the one lowerBound picks if and only if its interval holds k |
| PageTable.PageTable.constructor | include/tree/PageTable.h:40-48 | an empty mapping |
| PageTable.PageTable.Get | include/tree/PageTable.h:280-290 | the mapping's value |
| PageTable.PageTable.Insert | include/tree/PageTable.h:79-120 | adds a new key, reports the page of an existing one |
| PageTable.PageTable.Upsert | include/tree/PageTable.h:146-197 | adds or replaces, and reports the page replaced |
| CacheManager.CacheManager.Place | include/cache/LeanStoreCache.h:119-131 | the page is copied before the page table learns of the frame, so the frame carries the address it is filed under |
| PageTable.PageTable.Remove | include/tree/PageTable.h:210-230 | removes the pair; a key mapped to another page stays |
| PageTable.PageTable.CheckAndRemove | include/tree/PageTable.h:241-277 | removes the key, although the scan stops at the first frame bearing the address whether live or not |
| PageTable.PageTable.Update | include/tree/PageTable.h:332-352 | replaces the page of an existing key only |
| PageTable.PageTable.ReadModifyWrite | include/tree/PageTable.h:362-375 | replaces it only when it is the expected one |
| PageTable.FirstBearerIsLive | include/tree/PageTable.h:95-119 | no cleared frame bearing a live key's address comes before its live frame |
| PageTable.FillOk | include/tree/PageTable.h:95-106 | first-free placement keeps that order, count_ and uniqueness |
| PageTable.ClearOk | include/tree/PageTable.h:210-230 | clearing removes one mapping, and an overflow bucket leaves the chain exactly when it becomes empty |
| CoolingTable.PackRoundTrip | include/tree/HashTable.h:144-157 | fingerprint and frame address come back from the packed word, the address exactly if it has 48 bits |
| CoolingTable.Bucket.Insert | include/tree/HashTable.h:74-84 | newest in front; a full bucket gives up its last word |
| CoolingTable.Bucket.EvictLast | include/tree/HashTable.h:62-69 | gives up the last word, fails only when empty |
| CoolingTable.Bucket.Remove | include/tree/HashTable.h:54-59 | takes one word out and keeps the order of the rest |
| CoolingTable.Bucket.MatchValue | include/tree/HashTable.h:45-52 | the first word with this fingerprint and this frame |
| CoolingTable.HashTable.Insert | include/tree/HashTable.h:144-158 | files the frame as newest of the key's bucket and reports what was given up |
| CoolingTable.HashTable.TryPromoteUsingValue | include/tree/HashTable.h:248-266 | takes out the first entry of that frame under the key's fingerprint, or reports that there is none |
| CoolingTable.HashTable.RandomEvict | include/tree/HashTable.h:296-323 | the oldest entry of the first non-empty bucket probed; nothing only if every probed bucket is empty |
| CoolingFifo.BucketIsFifo | include/tree/HashTable.h:36-84 | over every run evictions come in filing order and no entry is lost or given back twice |
| CoolingFifo.EvictsEarliest | include/tree/HashTable.h:62-84 | an eviction gives back the entry cooled earliest of those still there |
| CoolingFifo.StepsAreTheTables | include/tree/HashTable.h:36-84 | each step of such a run does to the bucket what the table's filing, evicting and removing do |
| CoolingFifo.BucketTells | include/tree/HashTable.h:36-84 | in every such run a bucket's trace has exactly the calls filed under its keys, in order, tells what it holds, and tells the frames it gave back, in order |
| CoolingFifo.RunTable | include/tree/HashTable.h:129-337 | over every sequence of calls on a new table each answer is one the code may give on the table left by the calls before it, and each bucket holds, has given back and has lost by promotion exactly what was filed under its keys, in filing order |
| DirectTraversal.Lookup | include/cache/Btree.h:10-35 | on a memory node of any number: 0 when the path leaves it, -1 exactly when the start page does not cover k, else 1 with the map's value or 2 |
| DirectTraversal.Update | include/cache/Btree.h:40-64 | the same codes; the value of a present key changes in place, the leaf's address is handed out on 1, and no other page of the tree or the backend changes |
| DirectTraversal.Insert | include/cache/Btree.h:69-93 | 0 when the path leaves the node; -1 when the start page does not cover k or the leaf it leads to holds 59 entries; else 1 for a new key and 2 for a present one, and that leaf gets the entry |
| DirectTraversal.Remove | include/cache/Btree.h:98-120 | 1 when k was there, 2 when not; the tree stores m - {k}, only the leaf the path ends in changes, and only its page is written |
| DirectTraversal.StepKeepsCover | include/cache/Btree.h:14-23 | the chosen child covers k if and only if its parent does |
| DirectTraversal.FlushThenLookup | include/cache/Btree.h:10-35 | after a flush the backend alone answers 1 with the value of a present key and 2 for an absent one, never 0 or -1 |
| Backend.InMemoryBackend.constructor | include/memory/InMemoryBackend.h:17-18 | nothing allocated, the first page reserved |
| Backend.InMemoryBackend.Read | include/memory/InMemoryBackend.h:20-25 | fails exactly past the end, else returns the block at that offset, which for an allocated address is what was last written |
| Backend.InMemoryBackend.Write | include/memory/InMemoryBackend.h:26-31 | changes that block only, allocated or not, fails exactly past the end |
| Backend.InMemoryBackend.Alloc | include/memory/InMemoryBackend.h:32-39 | whole pages, each address once, NULL exactly when the store is used up |
| Backend.CacheAllocator.Allocate | util/CacheAllocator.h:91-105 | frames in order, each once, with the last one flagged |
| Types.SlotRoundTrip | include/Types.h:15-16 | a stored slot word decodes to the slot, and bit 63 tells the two kinds apart |
| Types.TagNeedsSmallOffsets | include/GlobalAddress.h:9-16 | an untagged address decodes to itself if and only if its offset is below 2^47 |

## Assumptions and readings

- Frame addresses are modelled as frame numbers below 2^48, page addresses as page-aligned offsets,
  `nullptr` as the absent value.
- Arithmetic on `uint64_t` words is written out on 64 bits where it matters (bitmap, slot words,
  packed cooling words); keys and values are numbers below 2^64.
- What `std::_Hash_bytes` returns, what the random generators draw and where `murmur64` points are
  arbitrary.
- One tree per process: `CacheAllocator::initialize` does nothing once an instance exists and
  `local_page_set` is a static of the thread, so a second tree would not start from a fresh pool as the
  modelled constructor does.
- `exit(0)` on the thousandth try of `sample_page` is `Halted(SamplerGaveUp)`; a backend without
  room is `Halted(BackendFull)`; both end the run.
- Where code and comments disagree the code is followed. `include/cache/Btree.h:66-68` does not say
  that -1 also answers a full leaf; `include/cache/BtreeNode.h:25` calls the page header 64 bytes,
  the fields add up to 48; `include/cache/LeanStoreCache.h:188` says a page without parent is the
  root, but the root's parent is the heap node `super_root_`.

## Left out

- LeanStoreTree.LeanStoreTree.HalveInnerChild: stops with `SplitHazard` at a pass of `sample_page` that does harm, because what follows a frame cooled behind a swizzled pointer is no longer a tree, and a failing assertion ends the program; `WindowRuns` says exactly when that can happen. The same holds for an inner root.
- LeanStoreTree.LeanStoreTree.constructor: asks for room for one backend page, at least one frame and at least one cooling entry, because the code then indexes with NULL or divides by zero.
- LeanStoreTree.LeanStoreTree.Insert: on a backend that has run out the program goes on with the null address as a page's address; the model stops with `BackendFull`.
- PageTable.PageTable.Upsert: leaves out the assertion that a new page carries the key as its address, because the table does not look into pages; for its one caller the address is right (`CacheManager.Place`).
- PageTable.PageTable.Update: leaves out the endless loop on a page that carries another address, because nothing calls it.
- Backend.InMemoryBackend.Read: whole page-aligned blocks only, because pages are values; the program reads no other sizes.
- Backend.InMemoryBackend.Write: whole page-aligned blocks only, for the same reason.
- CoolingTable.HashTable.Insert: marks no frame and drops no page-table entry, because the table holds frame numbers only; `CacheManager.Chill` does both, and the write-back of a dirty frame there is never taken.
- CoolingTable.HashTable.RandomEvict: drops no page-table entry; `CacheManager.TakeFromCooling` does.
- PageTable.PageTable.ReadModifyWrite: takes no null expected page, because no caller passes one.
- A buffer pool reset: it clears neither `local_page_set` nor the swizzled slot of `super_root_`, so no invariant survives it.
- RPC, admission, `cache_get`, `cold_to_hot*`, `get_exclusive_node`, `updatest_replace`, `swizzling` and `unswizzling`: not on the tree's path.
- `Bucket::match`, `HashTable::try_promote` and `check_existence` by key: not called.
- The `next_leaf` chain: split overwrites it and nothing reads it.
- `allocate_inner`, `recursive_iterate_without_bitmap`, `new_check_limit_match` as code: never called.
- Statistics, printing, locks, epochs, the benchmark and its Zipf generator.
- Raw memory: pages are values in an array of frames, copied whole; the tree uses the functions of `Node.dfy` for page bodies, and `BtreeNode.dfy` proves the in-place code against the same functions.
- The `next_` pointers of page-table chains: a chain is a sequence of buckets, an unlinked bucket is dropped from it.
- The cooling ratio as a floating-point number: the number of cooling entries is a parameter.
- The two bytes of `GlobalAddress` arithmetic beyond 48-bit offsets, and backends other than the in-memory one.
