# OpenDB storage core, verified in Dafny

OpenDB is a small SQL storage engine. This project models its storage and concurrency core in Dafny 4.11 and
proves what that core is for:

* **The multi-version B+tree** (`Versions`, `Bands`, `TreeShape`, `TreeGrowth`, `AccessPaths`, `BTrees`,
  `StoreRuns`, `PageBytes`, `Scripts`, `TreeCapacity`). Versions are ordered by key ascending, commit stamp
  descending, transaction ascending, in leaves linked by right siblings. Lookups route through the root, scans
  follow the sibling chain. Every put that returns conserves the stored versions, whatever happens to the other
  tables of the file. The two access paths agree all along a run if and only if no split cut through the
  versions of one key.
* **Pages** (`BitMath`, `BuddyPool`, `BuddySnapshot`, `BuddyAllocation`, `FreeOrder`, `Paging`, `Tables`, `Crc`,
  `PageFiles`). The buddy allocator keeps an exact account of free pages and coalesces fully; dropping a table
  returns exactly its own pages; any free-run snapshot loads without putting a page of the file in two runs, and
  the account is exact if and only if no loaded run overhangs the file; page checksums detect every change
  confined to four payload bytes.
* **Transactions** (`MemoryStore`, `Erasure`, `AutoKeys`, `MemoryEngines`, `Transactions`, `Dispatcher`,
  `SessionRuns`). The in-memory engine is a run of operations over version lists; auto-commit sessions are an
  interleaved step machine over locks, transaction states and that engine, whose data is what their calls wrote
  and committed.
* **Locks** (`Locks`, `LockProtocol`, `LockManagers`, `DeadlockDetection`). Compatibility, the waiter table and
  wake-ups as a step machine whose steps are the critical sections of the lock manager, which is proved to take
  exactly those steps.
* **Two engines and a sharded one** (`LocalStore`, `CommitTrails`, `LocalEngines`, `Sharding`,
  `ShardedEngines`). The B+tree engine over all tables of a file answers non-writing readers as the in-memory
  one does, and the sharded engine simulates an unsharded one.
* **Codecs** (`ValueCodec`, `NodeCodec`, `NodePages`, `Json`). Values, tuples and tree nodes come back from
  their bytes, tree nodes also from the pages of the file; JSON strings come back from their escaped form.

Code that updates state step by step is a class or a method with loops, proved against a function on values; the
theorems about all runs are lemmas about those functions. Where a property one would expect is false of the
code, the model keeps the code, shows a concrete input, and states the exact condition under which the property
holds.

Conventions. Keys are ranks in a total order, with rank 0 for Null, so `==` and `compare` on values are assumed
to agree on the keys in use. Automatic keys are used as ranks themselves, so in histories that draw them the
keys in use are Null and positive Int64 values, ranked by value. A row is its `_id` and an opaque body. An entry
carries the byte size the codec gives it. Exceptions are result values. The file is a map from page id to page.

The code checks the bytes of a leaf page and not those of an internal one. The results about trees and stores
are therefore about the code wherever the root's separators fit their page: a Null key, the keys and four bytes
per child within 4080 bytes. `PageBytes.PutFitsIff` says exactly which put ends that,
`PageBytes.FitNowFitAlways` that separators which fit now have fit all along, and `PageBytes.SmallKeyRunsFit`
that keys of at most 28 encoded bytes always fit (an Int64 key takes 9); with 127 keys of 29 bytes they do not
(`NodeCodec.LongKeysOverflow`).

A run, or the engine, is clean when no split so far cut through the versions of one key. A history is
disciplined when every operation belongs to an open transaction, every write names its key and finds no staged
version of it, and every commit brings a greater stamp.

## Model

| member | source | states |
|---|---|---|
| `Versions.InsertedSorted` | src/BTree.cpp:266-278 | inserting a version that is not there keeps the order (key ascending, stamp descending, transaction ascending) and adds exactly that version |
| `Versions.LookupFails` | src/BTree.cpp:217-243 | a lookup finds nothing if and only if no version of the key is visible to the reader |
| `Versions.FirstVisibleIsNewest` | src/BTree.cpp:217-243 | on sorted entries the version a lookup returns comes before every other visible version of the key |
| `Versions.OwnStagedWriteFound` | src/BTree.cpp:219-240 | a reader gets its own staged write if and only if no committed version of the key is at or below its cut |
| `Versions.OwnStagedWriteHidden` | includes/opendb/storage/BTree.hpp:74-77 | a concrete reader whose staged write is hidden by a committed version, against the comment that the staged one wins |
| `Versions.CutHidesVersions` | src/BTree.cpp:398-423 | of a sorted list cut in two, the right half answers a lookup as the whole does if and only if the left half holds no visible version of the key |
| `Versions.ScanAgreesWithLookup` | src/BTree.cpp:459-518 | on sorted entries a scan emits keys strictly ascending, and emits a version if and only if a lookup of its key returns it |
| `Bands.BandedLookup` | src/BTree.cpp:184-244 | when separators bound their leaves, looking a key up in the routed leaf is looking it up in all leaves together |
| `Bands.BandedInsert` | src/BTree.cpp:248-278 | inserting into the routed leaf keeps the bounds and equals inserting into the sorted whole |
| `Bands.BandedSplit` | src/BTree.cpp:398-423 | a split keeps the separators bounding their leaves if and only if it does not cut through the versions of one key |
| `Bands.BandedScan` | src/BTree.cpp:459-518 | scanning leaf by leaf emits each visible key once, ascending, with the version a lookup in the whole returns |
| `Bands.BandedHolds` | src/BTree.cpp:259-264 | the duplicate test on the routed leaf answers for the whole tree |
| `TreeShape.SmallEntriesFit` | src/BTree.cpp:280-301 | if every entry takes at most 313 bytes, both halves of any overflowing leaf fit their pages; `PageBytes.LeafBoundSharp` has a leaf with 314 |
| `PageBytes.LeafBoundSharp` | src/BTree.cpp:280-301 | a full leaf of entries of at most 314 bytes and one more of 314 make a right half of 4082 bytes, two over the page |
| `TreeShape.SplitConserves` | src/BTree.cpp:398-423 | a leaf split neither loses nor repeats a version along the sibling chain |
| `TreeShape.SplitLinked` | src/BTree.cpp:398-423 | after a split the sibling chain still visits each leaf once and ends at page 0 |
| `TreeShape.SepInsertedCovers` | src/BTree.cpp:367-381 | after a separator goes in, the root's children are exactly the leaves of the chain, leftmost first |
| `TreeGrowth.OrderedSplit` | src/BTree.cpp:398-423 | in an ordered tree the promoted key routes to the split leaf, the contents are the sorted insert, and the bounds survive if and only if the cut is clean |
| `TreeGrowth.GrowRoot` | src/BTree.cpp:323-333 | an overflowing root leaf becomes a two-leaf tree with the same versions and the new one, ordered if and only if the cut is clean |
| `TreeGrowth.AddChild` | src/BTree.cpp:367-382 | a split under an internal root with room gives a well-formed tree with the new version, ordered if and only if the cut is clean; this is what the code does wherever the separators fit the root's page (`PageBytes.PutFitsIff`) |
| `TreeGrowth.LoseParentStep` | src/BTree.cpp:363-394 | when the root already has 128 children the put throws, yet the chain is intact and holds the old versions and the new one |
| `AccessPaths.LostParentLookup` | src/BTree.cpp:384-394 | after that put, if the cut was clean, every key below the first separator the root lost is found as before, and every key from it on is found no more |
| `TreeGrowth.OverflowLeft` | src/BTree.cpp:414-418 | a put that throws because the left half does not fit leaves the tree and its contents as they were |
| `TreeGrowth.OverflowRight` | src/BTree.cpp:414-422 | a put that throws because the right half does not fit cuts the chain: exactly the leaves before the split one and the left half remain readable |
| `AccessPaths.SplitAgreement` | src/BTree.cpp:398-423 | after a split of bounded leaves routed lookups agree with the chain, and scans with routed lookups, if and only if the split does not cut through the versions of one key |
| `AccessPaths.CutKeyRoute` | src/BTree.cpp:184-206 | the promoted key, and with it every key whose versions were cut, is routed to the right half |
| `AccessPaths.ScansOnceIff` | src/BTree.cpp:459-518 | after a split every scan emits keys once and ascending if and only if no committed version of the promoted key stays on the left |
| `AccessPaths.StepAgreement` | src/BTree.cpp:248-305 | a put that returns, into an ordered tree, leaves lookups and chain, and lookups and scans, in agreement if and only if it does not split through the versions of one key |
| `AccessPaths.OrderedAgrees` | src/BTree.cpp:184-244 | in an ordered tree routed lookups equal lookups along the chain, and scans emit exactly what lookups return |
| `AccessPaths.StaleLookup` | src/BTree.cpp:401-406 | 65 versions of one key, put one after the other into a new table: a lookup then returns version 33 and a scan emits the key twice |
| `AccessPaths.SeparatorsIncrease` | src/BTree.cpp:367-381 | in an ordered tree without empty leaves the separators strictly increase |
| `AccessPaths.StepKeepsPacked` | src/BTree.cpp:398-423 | a put leaves no leaf empty unless it is the first one and its entry alone exceeds 4024 bytes |
| `StoreRuns.RunConserves` | src/BTree.cpp:248-305 | at every point of every run of creations, drops and returning puts over a shared file, each table's chain holds exactly the multiset of versions its puts stored, and its leaves are exactly its root's children; this is what the code does wherever the separators fit the root's page (`PageBytes.PutFitsIff`) |
| `StoreRuns.StepKeepsStore` | includes/opendb/storage/LocalFileStorageProvider.hpp:231-287 | every event keeps all tables well-formed on disjoint pages and leaves every other table as it was |
| `StoreRuns.AgreeIffClean` | src/BTree.cpp:398-423 | at every point of every run and for every table: its trees have been ordered, its lookups have agreed with its chain and its scans with its lookups all along, each if and only if none of its splits cut through the versions of one key |
| `StoreRuns.CleanRunSorted` | src/BTree.cpp:248-305 | after a clean run a table's chain is sorted and holds exactly the versions its puts stored |
| `StoreRuns.CleanRunDuplicate` | src/BTree.cpp:259-264 | in a clean run a put returns false if and only if the table stored the same version before |
| `StoreRuns.CleanRunSeparators` | src/BTree.cpp:373-376 | after a clean run a table's separators strictly increase, unless an entry over 4024 bytes was put into the empty table |
| `StoreRuns.CleanRunLookup` | src/BTree.cpp:210-244 | after a clean run, a reader without a staged version of the key gets the stored version with the greatest stamp at or below its cut, or nothing when there is none, whatever was done to other tables |
| `StoreRuns.InsertionOrderIrrelevant` | src/BTree.cpp:248-305 | two clean runs that store the same versions in any order, in any tables of any files, store the same sequence |
| `PageBytes.PutFitsIff` | src/BTree.cpp:148-155 | after a put the separators fit the root's page if and only if there was room for the promoted key and its four bytes |
| `PageBytes.FitNowFitAlways` | src/BTree.cpp:148-155 | along every run, a table's separators have fit their page at every point since its creation if and only if they fit it now |
| `PageBytes.SmallKeysFit` | src/BTree.cpp:148-155 | with a Null first key and keys of at most 28 encoded bytes the separators of any tree fit the page |
| `PageBytes.SmallKeyRunsFit` | src/BTree.cpp:148-155 | with such keys they fit all along every run |
| `PageBytes.RunStaysSafe` | src/BTree.cpp:280-301 | at every point of every run whose puts into a table bring entries of 26 to 342 bytes, each leaf is below the split threshold or has at most 14 entries |
| `PageBytes.SmallRunsNeverOverflow` | src/BTree.cpp:280-301 | so no put of an entry of at most 342 bytes into such a tree overflows a page, and it throws only when it would bring a 129th child |
| `PageBytes.FillerOverflows` | src/BTree.cpp:280-301 | the bound is sharp: 22 entries of at most 340 bytes go into one leaf without a split, and one of 343 makes a right half of 4081 bytes |
| `Scripts.FillerPut` | src/BTree.cpp:280-301 | a program that makes those 23 puts on a new tree: the last one throws |
| `Scripts.StaleGet` | src/BTree.cpp:401-406 | a program that puts versions 1 to 65 of one key into a new tree and looks the key up: it gets version 33 |
| `Scripts.Play` | includes/opendb/storage/LocalFileStorageProvider.hpp:231-404 | playing a script of creations, drops and puts over a file yields a run in the sense of `RunConserves` and `AgreeIffClean`, up to the first event that cannot be taken: a name taken or missing, or a put the tree does not accept |
| `BTrees.BTree.CreateNew` | src/BTree.cpp:18-21 | a new tree is empty and ordered, owns one fresh page and leaves every owned page alone |
| `BTrees.BTree.NewPage` | src/BTree.cpp:447-455 | the page had no owner before and now has one; no other page's owner or contents change |
| `BTrees.BTree.FindLeaf` | src/BTree.cpp:184-206 | the descent ends at the leaf the separators route to, and that leaf is on the sibling chain |
| `BTrees.BTree.Get` | src/BTree.cpp:210-244 | the result is the first visible version of the key in the routed leaf, which in an ordered tree is the first of the whole tree |
| `BTrees.BTree.LeftmostLeaf` | src/BTree.cpp:522-532 | the descent along first children ends at the head of the sibling chain |
| `BTrees.BTree.ScanAll` | src/BTree.cpp:522-544 | every stored version is emitted once, in chain order, also in a tree whose last put lost its parent |
| `BTrees.BTree.ScanLeaf` | src/BTree.cpp:480-512 | the group-skipping loop over one leaf emits one visible version per key group, the first |
| `BTrees.BTree.Scan` | src/BTree.cpp:459-518 | in an ordered tree the scan emits keys ascending, and a version if and only if a lookup returns it |
| `BTrees.BTree.IsDuplicate` | src/BTree.cpp:259-264 | true if and only if the leaf holds the same key, stamp and transaction |
| `BTrees.BTree.SplitLeaf` | src/BTree.cpp:398-423 | it succeeds if and only if both halves fit; then exactly the leaf and one fresh right sibling change; a failure after the left half was written leaves the right page empty |
| `BTrees.BTree.FindParent` | src/BTree.cpp:335-361 | the stack walk finds the root if and only if the child is one of its children, and otherwise nothing |
| `BTrees.BTree.InsertIntoParent` | src/BTree.cpp:309-395 | it succeeds if and only if the root is a leaf or has fewer than 128 children, with the exact pages written in each case; this is what the code does wherever the separators fit the root's page (`PageBytes.PutFitsIff`) |
| `BTrees.BTree.Put` | src/BTree.cpp:248-305 | each of the four outcomes occurs under its exact condition, a full root being one of 128 children; a stored version changes the tree by exactly that version, a duplicate changes nothing, an overflow takes an entry over 313 bytes and leaves the tree as it was or cut after the left half, and no other owner's page is touched; this is what the code does wherever the separators fit the root's page (`PageBytes.PutFitsIff`) |
| `BTrees.BTree.PutVersion` | src/BTree.cpp:248-305 | a put returns if and only if the tree accepts the version; it then takes exactly one step of a run, and otherwise leaves what a lost parent or an overflow leaves |
| `BTrees.BTree.FreeAllPages` | src/BTree.cpp:555-582 | every page of the tree loses its owner, no other page does, and the free count rises by exactly the number of pages |
| `BTrees.OverflowNeedsLargeEntry` | src/BTree.cpp:283-301 | no put into any reachable tree overflows a leaf page unless some entry takes more than 313 bytes |
| `TreeCapacity.AcceptsInNumbers` | src/BTree.cpp:248-382 | in every well-formed tree a put returns if and only if the version is there already, or its leaf has fewer than 64 entries and stays within 4024 bytes, or both halves stay within 4080 bytes and there are fewer than 128 leaves; no tree has more than 128 |
| `TreeCapacity.GrowTo128` | src/BTree.cpp:367-382 | a program that puts 129 entries of 1400 bytes into a new tree: every put returns, and the tree has 128 leaves |
| `TreeCapacity.OneTooMany` | src/BTree.cpp:363-394 | one such put more would bring a 129th leaf, and it throws |
| `BuddyPool.PushRun` | src/BuddyPageAllocator.cpp:99-103 | parking a run covers exactly its pages once more and raises the page sum by its length |
| `BuddyPool.PullRun` | src/BuddyPageAllocator.cpp:112-117 | unparking a run uncovers exactly its pages and lowers the page sum by its length |
| `BuddyPool.RunsDisjoint` | src/BuddyPageAllocator.cpp:33-126 | no page lies in two parked runs |
| `BuddyPool.RunIsFree` | src/BuddyPageAllocator.cpp:33-126 | every parked run lies inside the file and all its pages are marked free |
| `BuddyPool.FreePageHasRun` | src/BuddyPageAllocator.cpp:33-126 | every page marked free lies in some parked run |
| `BuddyPool.BuddyIsAdjacent` | src/BuddyPageAllocator.cpp:19-21 | a run and its XOR-buddy are different, buddies of each other, and together exactly the run of the next class at the lower start |
| `BitMath.ClassForLeast` | src/BuddyPageAllocator.cpp:12-17 | the class of n is the least whose run length is at least n |
| `BuddyAllocation.BuddyAllocator.ClassOf` | src/BuddyPageAllocator.cpp:12-17 | the search loop finds that class |
| `BuddyAllocation.BuddyAllocator.AllocatePages` | src/BuddyPageAllocator.cpp:33-78 | the file is extended if and only if no class large enough has a run; otherwise the pages handed out were free, leave the pool, and the page sum falls by the class length; exactness and full coalescing survive if and only if the file was extended or n is a power of two |
| `BuddyAllocation.BuddyAllocator.TakeRun` | src/BuddyPageAllocator.cpp:44-58 | splitting down hands out the top of the run and parks the rest without creating a pair of buddies, because every class it parks into was empty |
| `BuddyAllocation.BuddyAllocator.OnFileExtended` | src/BuddyPageAllocator.cpp:150-156 | the pages belong to the caller and the pool keeps its runs, whatever the alignment; the account stays exact if and only if none of them was marked free, as past the end of the file |
| `BuddyAllocation.BuddyAllocator.FreePages` | src/BuddyPageAllocator.cpp:88-126 | the freed run joins the pool, and the lists afterwards are exactly those of merging upward run by run; the page sum rises by the class length, no run and its buddy remain in one class; the account stays exact if and only if n is a power of two, page 0 is not freed and every page freed was owned |
| `FreeOrder.FreedComesBackIff` | src/BuddyPageAllocator.cpp:44-126 | a page that is freed is the next single page handed out if and only if no smaller run is parked than the one it has become part of, and it is the last page of that one |
| `FreeOrder.LoneFreedComesBack` | src/BuddyPageAllocator.cpp:48-53 | a freed page without a free buddy comes back first |
| `FreeOrder.FreeTwo` | src/BuddyPageAllocator.cpp:48-53 | a program that frees pages 2 and 3 of a file of three, in either order, and asks for two pages: it gets 3 and then 2, so the last page freed first only if that was 3, against the comment that it always is |
| `BuddyAllocation.BuddyAllocator.Coalesce` | src/BuddyPageAllocator.cpp:105-125 | merging a parked run with its buddies changes neither the pages covered nor the sum and leaves no run beside its buddy |
| `BuddyAllocation.BuddyAllocator.FreePageCount` | src/BuddyPageAllocator.cpp:128-135 | the sum over the classes equals the number of pages marked free |
| `BuddyAllocation.BuddyAllocator.SaveFreeRuns` | src/BuddyPageAllocator.cpp:158-166 | the snapshot lists every parked run with its class, in class order |
| `BuddyAllocation.BuddyAllocator.LoadFreeRuns` | src/BuddyPageAllocator.cpp:168-196 | the loop over the runs leaves exactly the pool that loading them one by one specifies |
| `BuddySnapshot.AnySnapshotIsSafe` | src/BuddyPageAllocator.cpp:168-196 | any snapshot, even a corrupt one, loaded into a fresh allocator puts no page of the file in two runs, marks free exactly the covered pages and never frees page 0 |
| `BuddySnapshot.LoadedPoolIff` | src/BuddyPageAllocator.cpp:168-196 | the loaded pool is an exact account if and only if no loaded run overhangs the end of the file, and meets every invariant of the allocator if and only if, besides, no run stands beside its buddy |
| `BuddySnapshot.InsideRunsFit` | src/BuddyPageAllocator.cpp:168-196 | no loaded run overhangs when every run of the snapshot that starts inside the file ends inside it |
| `BuddySnapshot.OverhangingRun` | src/BuddyPageAllocator.cpp:168-196 | a concrete overhanging run: 256 pages at page 1 of a two-page file are parked whole, and the next allocation of one page hands out page 256 |
| `BuddySnapshot.NineClasses` | src/BuddyPageAllocator.cpp:105-196 | runs have 1 to 256 pages: nine classes, merging below the last one, and a snapshot run of a greater class is skipped |
| `BuddySnapshot.CleanSnapshotLoads` | src/BuddyPageAllocator.cpp:168-196 | a snapshot of disjoint runs inside the file loads completely |
| `BuddySnapshot.SnapshotRoundTrip` | src/Pager.cpp:319-333 | saving and loading at most 507 runs rebuilds the same classes and bitmap; a truncated snapshot frees only pages that were free; either way the pool meets every invariant of the allocator |
| `Paging.Pager.AllocatePage` | src/Pager.cpp:164-168 | the page is not page 0, had no owner and gets one; the free count falls by one, or stays 0 and the file grows |
| `Paging.Pager.FreePage` | src/Pager.cpp:170-173 | freeing an owned page removes its owner and raises the free count by one; page 0 and pages past the end are ignored; the pool stays sound if and only if the page is one of these |
| `Tables.TreeFrame` | includes/opendb/storage/LocalFileStorageProvider.hpp:268-287 | a tree whose pages keep owner and contents keeps its shape, contents and order whatever happens to other pages |
| `Tables.StoreFrame` | includes/opendb/storage/LocalFileStorageProvider.hpp:231-287 | a change confined to one table's pages keeps all tables disjoint and well-formed and every other table's rows and pages |
| `Tables.PutKeepsStore` | includes/opendb/storage/LocalFileStorageProvider.hpp:381-404 | a stored version adds exactly itself to its table and leaves every other table as it was |
| `Tables.CreatedKeepsStore` | includes/opendb/storage/LocalFileStorageProvider.hpp:231-266 | one more leaf on a page nobody owned keeps every table well-formed, on disjoint pages, and as it was |
| `Tables.DropKeepsStore` | includes/opendb/storage/LocalFileStorageProvider.hpp:268-287 | giving back the pages of one table does the same |
| `Tables.OthersFrame` | includes/opendb/storage/LocalFileStorageProvider.hpp:231-287 | a change that keeps the pages of the other tables keeps the other tables, whatever state it leaves the named one in |
| `Tables.PutFailedKeepsOthers` | includes/opendb/storage/LocalFileStorageProvider.hpp:381-404 | a put that throws leaves every other table alone |
| `Tables.PutRefusedKeepsStore` | includes/opendb/storage/LocalFileStorageProvider.hpp:381-404 | a put that throws because the left half does not fit leaves the store intact and the table's rows as they were |
| `Tables.TableStore.CreateTable` | includes/opendb/storage/LocalFileStorageProvider.hpp:231-266 | it fails if and only if the table exists; the new table is empty and ordered, on a page no other table owns, and no other table changes |
| `Tables.TableStore.Put` | includes/opendb/storage/LocalFileStorageProvider.hpp:381-404 | it returns if and only if the table's tree accepts the version; returning or throwing, it takes exactly the step of that tree and no other table changes |
| `Tables.TableStore.DropTable` | includes/opendb/storage/LocalFileStorageProvider.hpp:268-287 | the free count rises by exactly the table's page count, exactly its pages lose their owner, and every other table keeps pages and rows |
| `Crc.TableStep` | src/Pager.cpp:145-160 | one table lookup advances the register as eight single-bit steps do |
| `Crc.ComputeCrc32` | src/Pager.cpp:142-162 | the table-driven loop equals the bit-by-bit CRC-32 of section 8 of RFC 1952 on every byte string |
| `Crc.CheckValue` | src/Pager.cpp:142-162 | the checksum of the bytes FF FF FF FF 80 is 12477CDF |
| `Crc.ShiftInjective` | src/Pager.cpp:150-150 | the register step is injective |
| `Crc.BurstDetected` | src/Pager.cpp:142-162 | any change confined to 32 consecutive message bits changes the checksum register |
| `Crc.WindowChangeDetected` | src/Pager.cpp:142-162 | any change confined to four consecutive bytes changes the checksum |
| `PageFiles.SealRoundTrip` | src/Pager.cpp:51-96 | reading a written page gives back the payload |
| `PageFiles.SealedLayout` | src/Pager.cpp:69-96 | a page has 4096 bytes: the checksum, low byte first, four zeros and the 4088 bytes of payload |
| `PageFiles.DamageRejected` | src/Pager.cpp:51-67 | a change confined to four payload bytes, or any change of the stored checksum, is rejected; the reserved bytes do not matter |
| `PageFiles.PageFile.WritePage` | src/Pager.cpp:69-96 | it fails if and only if the size or the page id is wrong, and then changes nothing; otherwise only that page changes |
| `PageFiles.PageFile.ReadPage` | src/Pager.cpp:51-67 | page 0 and pages past the end give nothing, any other page its payload when the checksum matches |
| `ValueCodec.ValueRoundTrip` | includes/opendb/types/Value.hpp:242-340 | every value of every type comes back from its bytes wherever they stand, and exactly they are consumed |
| `ValueCodec.ValueFormat` | includes/opendb/types/Value.hpp:242-286 | the exact bytes of small values of every type: a tag from 0 to 8, integers and lengths low byte first |
| `ValueCodec.TupleRoundTrip` | src/BTree.cpp:30-70 | a tuple with distinct column names comes back from its bytes |
| `ValueCodec.TupleDecodes` | src/BTree.cpp:30-70 | decoding the bytes of any tuple sets its columns one after another, so that of columns with one name the first place and the last value remain |
| `ValueCodec.TupleComesBackIff` | src/BTree.cpp:30-70 | a tuple comes back from its bytes if and only if its column names are distinct |
| `ValueCodec.DecodedNamesDistinct` | includes/opendb/types/Tuple.hpp:78-86 | whatever bytes are decoded, the columns have distinct names |
| `ValueCodec.RepeatedNameLost` | includes/opendb/types/Tuple.hpp:78-86 | a concrete tuple with a repeated name comes back with one column fewer |
| `ValueCodec.TupleToBytes` | src/BTree.cpp:30-47 | the encoding loop produces exactly the encoding the round trips are about |
| `ValueCodec.TupleFromBytes` | src/BTree.cpp:49-70 | the decoding loop computes exactly the decoding the round trips are about, on all bytes |
| `NodeCodec.NodeRoundTrip` | src/BTree.cpp:76-179 | a leaf or internal node that fits its page, with distinct column names per tuple, comes back from the page |
| `NodeCodec.PageLayout` | src/BTree.cpp:134-179 | where a node page of 4088 bytes has its kind, count, right sibling and entries, and zeros after them |
| `NodeCodec.RecordLayout` | src/BTree.cpp:157-175 | where a leaf entry has key, stamp, writer, tombstone flag, payload size and payload |
| `NodeCodec.RecordAtLeast26` | src/BTree.cpp:157-175 | no leaf entry takes fewer than 26 bytes |
| `NodeCodec.SmallestRecord` | src/BTree.cpp:157-175 | the bound of 26 bytes is attained |
| `NodeCodec.LeafFits` | src/BTree.cpp:157-175 | a leaf fits its page if and only if its entry sizes sum to at most 4080 |
| `NodeCodec.InternalFits` | src/BTree.cpp:148-155 | an internal node fits its page if and only if its key sizes, and four bytes each, sum to at most 4080 |
| `NodeCodec.LongKeysOverflow` | src/BTree.cpp:148-155 | 128 children under a Null key and 127 Text keys fit with keys of 28 encoded bytes and not with keys of 29 |
| `NodeCodec.BytesAreSizes` | src/BTree.cpp:284-292 | the byte count the split test works with is the encoded size of the leaf's records, each at least 26 |
| `NodeCodec.SmallRecordsFit` | src/BTree.cpp:280-301 | records of at most 313 encoded bytes never overflow a page: both halves of a leaf that splits can be saved |
| `NodeCodec.SaveLeaf` | src/BTree.cpp:134-179 | saving fails if and only if the leaf does not fit, and otherwise yields the page the round trip is about |
| `NodeCodec.LoadNode` | src/BTree.cpp:76-132 | the loading loops compute exactly the decoding the round trip is about, on every page |
| `NodePages.NodeFits` | src/BTree.cpp:134-179 | the page image of a tree node fits if and only if the bytes the tree counts for its entries, or its separators, are at most 4080 |
| `NodePages.TreeFitsIff` | src/BTree.cpp:134-179 | all pages of a well-formed tree fit if and only if the root's separators do |
| `NodePages.StoredNodeLoads` | src/BTree.cpp:76-179 | a node encoded, sealed with its checksum and stored at a page of the file is what reading, checking and decoding that page gives, and every other page reads as before |
| `NodePages.ImageDeterminesNode` | src/BTree.cpp:134-179 | as far as the codec tells entries and keys apart, two tree nodes with the same page image are the same node |
| `NodePages.WriteNode` | src/BTree.cpp:134-179 | writing a node through the pager's page write makes it the node at that page and leaves every other page; it fails if and only if the page id is wrong |
| `NodePages.ReadNode` | src/BTree.cpp:76-132 | reading a page through the pager gives the node that stands there |
| `MemoryStore.StepByKey` | includes/opendb/storage/InMemoryStorageEngine.hpp:70-187 | what each operation does to the version list of any one key: append, stamp in place, or drop the staged ones |
| `MemoryStore.RunStampsBelow` | includes/opendb/storage/InMemoryStorageEngine.hpp:133-146 | after any run no version has a stamp above the cut |
| `MemoryStore.CommitPublishes` | includes/opendb/storage/InMemoryStorageEngine.hpp:133-146 | after any run, a commit with a positive stamp shows every reader without staged writes exactly what the committer saw just before |
| `MemoryStore.StampZeroPublishesNothing` | includes/opendb/storage/InMemoryStorageEngine.hpp:133-146 | a commit with stamp 0 changes no version and no cut |
| `MemoryStore.AbortInvisible` | includes/opendb/storage/InMemoryStorageEngine.hpp:156-187 | an abort changes no other reader's view of any key |
| `MemoryStore.AbortDropsIff` | includes/opendb/storage/InMemoryStorageEngine.hpp:156-187 | an abort takes a table and its automatic key counter away if and only if the transaction staged all its versions, and leaves no key without a version |
| `Erasure.EraseIff` | includes/opendb/storage/InMemoryStorageEngine.hpp:156-187 | for a transaction that has not committed: along a whole history its staged versions are all that tells a table from the history without its writes, if and only if every other transaction draws the automatic keys it would have drawn without it |
| `Erasure.SettledDraws` | includes/opendb/storage/InMemoryStorageEngine.hpp:77-82 | that holds when no other transaction puts with a Null key into the table, or when the transaction does not and no other writer of the table aborts |
| `Erasure.AbortErases` | includes/opendb/storage/InMemoryStorageEngine.hpp:156-187 | after the abort of a transaction that has not committed, every other reader sees a table as if the transaction had never written, provided the other transactions' Null-key puts into the table draw the same keys with and without it |
| `Erasure.AbortKeepsDraw` | includes/opendb/storage/InMemoryStorageEngine.hpp:77-82 | a concrete history whose abort shows: an automatic key the transaction drew is not given back, so another transaction's row has a different key |
| `Erasure.AbortKeepsCounterAlive` | includes/opendb/storage/InMemoryStorageEngine.hpp:180-184 | a second one: a named row of the transaction keeps the table and its counter alive through another transaction's abort |
| `AutoKeys.DrawCounts` | includes/opendb/storage/InMemoryStorageEngine.hpp:77-82 | after every run the next automatic key of a table is one more than the number of keys drawn from it since it was last dropped |
| `AutoKeys.DrawsRise` | includes/opendb/storage/InMemoryStorageEngine.hpp:77-82 | a key drawn later from a table is greater, unless the table was dropped in between |
| `AutoKeys.InsertsLand` | includes/opendb/storage/InMemoryStorageEngine.hpp:70-146 | n rows put with a Null key into a new table and committed are looked up by every reader under 1 to n and scanned in that order |
| `AutoKeys.InsertAll` | includes/opendb/storage/InMemoryStorageEngine.hpp:70-146 | the program that makes those puts, commits and scans returns exactly these rows |
| `MemoryStore.ScanIsLookups` | includes/opendb/storage/InMemoryStorageEngine.hpp:105-122 | a scan emits exactly the non-empty lookups, one per key, in key order |
| `MemoryEngines.MemoryEngine.Get` | includes/opendb/storage/InMemoryStorageEngine.hpp:53-68 | the reverse walk returns the row of the newest visible version, nothing for a tombstone |
| `MemoryEngines.MemoryEngine.Put` | includes/opendb/storage/InMemoryStorageEngine.hpp:70-90 | the new state is the old one with one staged version appended under the given or next automatic key |
| `MemoryEngines.MemoryEngine.Remove` | includes/opendb/storage/InMemoryStorageEngine.hpp:92-103 | the new state is the old one with one staged tombstone appended |
| `MemoryEngines.MemoryEngine.Scan` | includes/opendb/storage/InMemoryStorageEngine.hpp:105-122 | the emitted rows are the ones `ScanIsLookups` characterises |
| `MemoryEngines.MemoryEngine.Commit` | includes/opendb/storage/InMemoryStorageEngine.hpp:133-146 | the nested loops stamp exactly the transaction's staged versions in all tables and raise the cut to the larger of the two |
| `MemoryEngines.MemoryEngine.Abort` | includes/opendb/storage/InMemoryStorageEngine.hpp:156-187 | the nested loops drop exactly the transaction's staged versions, empty rows, and empty tables with their counters |
| `Transactions.StepKeepsOk` | includes/opendb/core/TransactionManager.hpp:37-64 | each call keeps the commit sequence equal to the number of committed transactions, counters only grow and ended transactions stay ended |
| `Transactions.RunKeepsOk` | includes/opendb/core/TransactionManager.hpp:37-64 | the same over every run of calls |
| `Transactions.TransactionManager.BeginTxn` | includes/opendb/core/TransactionManager.hpp:37-44 | the id was never known before and is active now |
| `Transactions.TransactionManager.CommitTxn` | includes/opendb/core/TransactionManager.hpp:49-56 | it succeeds if and only if the transaction is active, and exactly then the sequence advances |
| `Transactions.TransactionManager.AbortTxn` | includes/opendb/core/TransactionManager.hpp:58-64 | it succeeds if and only if the transaction is active |
| `Dispatcher.RunKeepsInv` | src/EngineDispatcher.cpp:153-296 | in every interleaving: locks cover the sessions past them, staged versions belong to the lock-holding writer of their table, committed versions are in the log, and stamps rise per table |
| `Dispatcher.StampsIncreasePerTable` | src/EngineDispatcher.cpp:282-289 | successive committed writers of one table get strictly increasing stamps |
| `Dispatcher.StampSharedAcrossTables` | src/EngineDispatcher.cpp:282-289 | a concrete interleaving in which writers of two tables get the same stamp |
| `Dispatcher.VersionsInStampOrder` | includes/opendb/storage/InMemoryStorageEngine.hpp:133-146 | in every reachable state each key's stamps never decrease, staged versions come last and all belong to one transaction |
| `Dispatcher.ReadsLastCommit` | includes/opendb/storage/InMemoryStorageEngine.hpp:61-66 | a reader that stages nothing gets the last committed version of the key, which is in the commit log and has the greatest stamp |
| `Dispatcher.SelectSeesNoStaging` | src/EngineDispatcher.cpp:163-188 | a Select that holds its lock never runs beside staged writes to its table |
| `Dispatcher.WriterAlone` | src/EngineDispatcher.cpp:167-188 | a session that holds a table lock for writing is the only session holding a lock on the table |
| `SessionRuns.EngineFollowsCalls` | src/EngineDispatcher.cpp:153-296 | in every interleaving the engine's state is the one that the writes and commits read off the list of calls give, in that order: each write with its row, under the transaction counted by the commands fetched, each commit under the number of transactions marked when the stamp was read |
| `SessionRuns.CommittedRowRead` | src/EngineDispatcher.cpp:215-289 | once a write has been committed, and nobody has written the key since the write, every reader gets exactly the row of that write, with its drawn key if it named none, or nothing if it was a removal |
| `SessionRuns.StagedRowHidden` | src/EngineDispatcher.cpp:215-269 | a write changes no other reader's lookup of any key |
| `SessionRuns.OwnRowSeen` | src/EngineDispatcher.cpp:215-269 | the writer looks its own write up at once |
| `SessionRuns.TakesLockIff` | src/EngineDispatcher.cpp:167-189 | in every reachable state a waiting session gets its table lock if and only if all sessions that hold a lock on the table are Selects, and so is it |
| `SessionRuns.TimeoutAborts` | src/EngineDispatcher.cpp:183-188 | a session whose lock request times out is idle and its transaction aborted; locks, data and all other sessions are as before |
| `SessionRuns.AllFinish` | src/EngineDispatcher.cpp:153-296 | from every reachable state there is a way on to one in which every command has ended, none of them by a timeout |
| `Locks.GrantKeepsOk` | includes/opendb/core/LockManager.hpp:269-306 | a grant keeps holder lists non-empty, duplicate-free and exclusive ones single if and only if it is not an upgrade beside other holders |
| `Locks.UpgradeBesideSharer` | includes/opendb/core/LockManager.hpp:272-297 | a concrete upgrade that leaves an Exclusive lock with two holders |
| `Locks.GrantableIff` | includes/opendb/core/LockManager.hpp:269-278 | a request is granted if and only if the caller holds the resource already, or all holders share it and the caller asks to share it; it is refused if and only if another transaction holds it and one of the two is exclusive |
| `Locks.GrantAdds` | includes/opendb/core/LockManager.hpp:281-306 | a grant adds the caller to the holders and takes nobody away |
| `Locks.ReleaseKeepsOk` | includes/opendb/core/LockManager.hpp:152-173 | after release the transaction holds nothing, and every other holding and its mode is unchanged |
| `Locks.ReleaseKeyKeepsOk` | includes/opendb/core/LockManager.hpp:181-195 | after the release of one resource the transaction does not hold it, and every other holding is unchanged |
| `Locks.RunKeepsOk` | includes/opendb/core/LockManager.hpp:152-306 | over every run in which only sole holders upgrade, the lock table is sound |
| `Locks.ExclusiveGrantIsSole` | includes/opendb/core/LockManager.hpp:281-306 | a transaction granted Exclusive is the only holder |
| `Locks.ExclusiveUntilReleased` | includes/opendb/core/LockManager.hpp:152-306 | it stays the only holder through every run that does not release it |
| `LockProtocol.StepKeepsTable` | includes/opendb/core/LockManager.hpp:81-148 | every step keeps the waiter table listing exactly the sleeping calls, each once |
| `LockProtocol.StepKeepsWakeups` | includes/opendb/core/LockManager.hpp:81-195 | every step keeps: a sleeper not yet notified cannot be granted, or a notify is pending |
| `LockProtocol.StepIsEvent` | includes/opendb/core/LockManager.hpp:81-195 | where only sole holders upgrade, every step changes the lock table as one allowed grant, one release or nothing does |
| `LockProtocol.RunKeepsWakeups` | includes/opendb/core/LockManager.hpp:81-195 | no wake-up is lost and the waiter table is exact in every reachable state, through timeouts, spurious wakes and upgrades of any kind |
| `LockProtocol.RunKeepsInv` | includes/opendb/core/LockManager.hpp:81-306 | where only sole holders upgrade, every reachable state also has a sound lock table |
| `LockProtocol.QuiescentSleepersBlocked` | includes/opendb/core/LockManager.hpp:81-195 | once all notifies are delivered, whoever still sleeps is blocked by another transaction that holds the resource, one of the two being exclusive |
| `LockProtocol.AcquireBlocksIff` | includes/opendb/core/LockManager.hpp:81-148 | at every point of every run, whoever enters or wakes in an acquire call is asleep afterwards if and only if another transaction holds the resource, it does not itself, and one of the two is exclusive; otherwise it holds the resource beside all who held it before |
| `LockProtocol.SharersJoin` | includes/opendb/core/LockManager.hpp:269-278 | whoever asks to share what others only share gets it at once, and they keep it |
| `LockManagers.LockManager.CanGrant` | includes/opendb/core/LockManager.hpp:269-278 | it refuses if and only if another transaction holds the resource, the caller does not, and the request or the lock is exclusive |
| `LockManagers.LockManager.GrantNow` | includes/opendb/core/LockManager.hpp:281-306 | the lock table becomes the granted one the invariants are proved about |
| `LockManagers.LockManager.EnterAcquire` | includes/opendb/core/LockManager.hpp:81-126 | entering an acquire call up to its wait is exactly one step of the protocol |
| `LockManagers.LockManager.WakeBlocking` | includes/opendb/core/LockManager.hpp:83-92 | one wake of the untimed call is exactly one step |
| `LockManagers.LockManager.WakeTimed` | includes/opendb/core/LockManager.hpp:125-147 | one wake of the timed call is exactly one step |
| `LockManagers.LockManager.GiveUp` | includes/opendb/core/LockManager.hpp:126-134 | a timeout is exactly one step: the call leaves the waiter table and is granted nothing |
| `LockManagers.LockManager.ReleaseEverything` | includes/opendb/core/LockManager.hpp:152-173 | the loop over all resources is one release step; it notifies if and only if the lock table changed |
| `LockManagers.LockManager.ReleaseResource` | includes/opendb/core/LockManager.hpp:181-195 | releasing one resource is one step; it notifies if and only if the lock table changed |
| `LockManagers.LockManager.WaiterTable` | includes/opendb/core/LockManager.hpp:226-237 | the answer is a table the transaction waits for, or empty when there is none |
| `LockManagers.TableOrRows` | includes/opendb/core/LockManager.hpp:199-237 | a transaction counts as holding, or waiting for, a table through the table itself or any of its rows |
| `DeadlockDetection.DeadlockDetector.Hop` | includes/opendb/core/DeadlockDetector.hpp:49-57 | one hop closes the cycle, follows a real wait edge, or shows that no holder waits |
| `DeadlockDetection.DeadlockDetector.DetectCycle` | includes/opendb/core/DeadlockDetector.hpp:41-61 | its verdict is that of one of the walks the orders of holders and waits allow; a reported victim is the origin and lies on a closed wait chain; when every table has at most one holder and every transaction waits for at most one table, a cycle is reported if and only if one of at most 1024 tables exists |
| `DeadlockDetection.MissedCycle` | includes/opendb/core/DeadlockDetector.hpp:49-57 | a concrete lock table with two holders of one table, a cycle, one walk that reports it and another that ends at a dead end without it |
| `DeadlockDetection.MissesIff` | includes/opendb/core/DeadlockDetector.hpp:41-61 | some walk reports no cycle, whatever cycles there are, if and only if the origin may be named as waiting for nothing, some walk reaches a table all of whose holders may be, or some walk exceeds 1024 tables |
| `DeadlockDetection.RingFoundIff` | includes/opendb/core/DeadlockDetector.hpp:41-61 | in a ring of n transactions, each waiting for a table the next one holds, every walk reports the cycle if n is at most 1024, and none does if n is greater |
| `DeadlockDetection.ThreeDeadlock` | includes/opendb/core/DeadlockDetector.hpp:41-61 | three transactions waiting for each other over three tables: every walk reports the first one |
| `DeadlockDetection.TooLong` | includes/opendb/core/DeadlockDetector.hpp:47-60 | when the walk runs out of hops, every closed chain is longer than 1024 |
| `LocalStore.CommittedMember` | includes/opendb/storage/LocalFileStorageProvider.hpp:451-463 | after a commit the tree holds the old entries and, for each staged entry of the transaction, the same entry under the stamp, nothing else |
| `LocalStore.RunMatches` | includes/opendb/storage/LocalFileStorageProvider.hpp:381-496 | over every disciplined history the engine's specification on sorted lists and the in-memory engine hold matching versions of every key, though commit puts again and abort removes nothing |
| `LocalStore.SameGets` | includes/opendb/storage/LocalFileStorageProvider.hpp:370-379 | over every disciplined history a non-writing reader's lookup in the sorted lists equals the in-memory engine's; `LocalEngine.Get` carries this to the trees |
| `LocalStore.SameScans` | includes/opendb/storage/LocalFileStorageProvider.hpp:419-432 | over every disciplined history a non-writing reader's scan of the sorted lists equals the in-memory engine's, rows and order; `LocalEngine.Scan` carries this to the trees |
| `LocalStore.SerialIsDisciplined` | includes/opendb/storage/LocalFileStorageProvider.hpp:370-496 | serial histories with fresh transactions, non-null keys, increasing stamps and one write per key and transaction are disciplined |
| `LocalStore.SecondWriteDiffers` | includes/opendb/storage/LocalFileStorageProvider.hpp:381-404 | a transaction that writes one key twice publishes its first write in the tree engine and its last in the in-memory one |
| `AutoKeys.LocalDrawCounts` | includes/opendb/storage/LocalFileStorageProvider.hpp:391-398 | in the B+tree engine the next automatic key is one more than the number of keys drawn, whatever was committed or aborted |
| `AutoKeys.LocalDrawsRise` | includes/opendb/storage/LocalFileStorageProvider.hpp:391-398 | a key the B+tree engine draws later from a table is greater |
| `AutoKeys.SameAnswers` | includes/opendb/storage/LocalFileStorageProvider.hpp:370-432 | the two engines answer lookups and scans alike also over histories that draw keys, if they are disciplined once the drawn keys are written out and no table is dropped between draws |
| `AutoKeys.LocalInsertsLand` | includes/opendb/storage/LocalFileStorageProvider.hpp:381-463 | rows put with a Null key into a table of the B+tree engine and committed are scanned one by one under the keys from 1 on |
| `CommitTrails.PutRows` | includes/opendb/storage/LocalFileStorageProvider.hpp:381-404 | a returning put into a file of ordered tables that does not split through a key inserts into one sorted list and changes no other |
| `CommitTrails.TrailRows` | includes/opendb/storage/LocalFileStorageProvider.hpp:451-463 | after any puts without such a split every table stores its list with the entries put into it inserted one after the other |
| `CommitTrails.TrailCommits` | includes/opendb/storage/LocalFileStorageProvider.hpp:451-463 | once the staged entries of all tables are put again, every table is the one the specification commits to |
| `CommitTrails.FailedCommitLeaves` | includes/opendb/storage/LocalFileStorageProvider.hpp:451-463 | when a put throws, every table but that one holds a first part, possibly all or none, of its staged entries again under the stamp |
| `CommitTrails.FailedCommitShows` | includes/opendb/storage/LocalFileStorageProvider.hpp:475-477 | nobody sees that part while the cut is below the stamp; as soon as another commit moves the cut there, every reader does |
| `LocalEngines.LeafwiseScan` | includes/opendb/storage/LocalFileStorageProvider.hpp:425-431 | the tree's scan along the leaves equals the specification's scan of the sorted list |
| `LocalEngines.CreatedLate` | includes/opendb/storage/LocalFileStorageProvider.hpp:231-266 | creating a table late is the same as creating it first when nothing was written to it before |
| `LocalEngines.LocalEngine.Get` | includes/opendb/storage/LocalFileStorageProvider.hpp:370-379 | as long as no split cut through a key, the specification's lookup; and over a disciplined history, for a reader that never writes, the in-memory engine's lookup after the same history |
| `LocalEngines.LocalEngine.Scan` | includes/opendb/storage/LocalFileStorageProvider.hpp:419-432 | as long as no split cut through a key, the specification's scan; and over a disciplined history, for a reader that never writes, the in-memory engine's scan, rows and order |
| `LocalEngines.LocalEngine.CreateTable` | includes/opendb/storage/LocalFileStorageProvider.hpp:231-266 | it fails if and only if the table exists; the state stays the specification's for the same history |
| `LocalEngines.LocalEngine.Put` | includes/opendb/storage/LocalFileStorageProvider.hpp:381-404 | it refuses unknown tables, throws if and only if the tree does not accept the staged entry, and otherwise extends the history by one operation of the specification; when it throws because a left half does not fit, the engine stays what it was, but for the automatic key a Null key drew |
| `LocalEngines.LocalEngine.Remove` | includes/opendb/storage/LocalFileStorageProvider.hpp:406-417 | the same for a staged tombstone; when it throws because a left half does not fit, the engine stays what it was |
| `LocalEngines.LocalEngine.Abort` | includes/opendb/storage/LocalFileStorageProvider.hpp:481-496 | nothing changes but the history |
| `LocalEngines.LocalEngine.CollectStaged` | includes/opendb/storage/LocalFileStorageProvider.hpp:452-458 | all staged entries of the transaction in one table and no others, in tree order |
| `LocalEngines.LocalEngine.Commit` | includes/opendb/storage/LocalFileStorageProvider.hpp:445-479 | over all tables of the file: it fails exactly at the first re-put a tree does not accept and then leaves the cut; otherwise the state is the one the specification commits to |
| `Sharding.RouteByPolicy` | includes/opendb/storage/ShardedStorageEngine.hpp:155-204 | a row is pinned only by a column it has: to the hash shard of that value, to a range that holds it, or to a list that contains it; it is pinned whenever some range or list does, and by every Hash policy with shards whose column it has |
| `ShardedEngines.ShardedEngine.KeyShard` | includes/opendb/storage/ShardedStorageEngine.hpp:142-153 | the hash loop routes a key as the simulation does, to no shard if and only if there is none |
| `Sharding.HashParity` | includes/opendb/storage/ShardedStorageEngine.hpp:146-151 | the parity of the hash is that of one plus the number of odd bytes |
| `Sharding.HashValues` | includes/opendb/storage/ShardedStorageEngine.hpp:142-153 | the hashes of the empty string and of the bytes 0 and 1, and the shards they name among two, five and seven |
| `Sharding.HashOnKeyFindable` | includes/opendb/storage/ShardedStorageEngine.hpp:51-66 | on unpartitioned tables, and Hash tables whose partition column is the key, put and get agree on the shard |
| `Sharding.RunSimulates` | includes/opendb/storage/ShardedStorageEngine.hpp:40-114 | over every such history the shard a key routes to holds exactly the unsharded engine's versions of it, every other shard none, and all cuts agree |
| `Sharding.SameLookups` | includes/opendb/storage/ShardedStorageEngine.hpp:40-49 | lookups equal the unsharded engine's, removes included |
| `Sharding.SameScanRows` | includes/opendb/storage/ShardedStorageEngine.hpp:78-83 | scans emit the same multiset of rows as the unsharded engine |
| `Sharding.MisroutedPutLost` | includes/opendb/storage/ShardedStorageEngine.hpp:40-66 | after any history that can be found again, a lookup by the writer returns a new row if and only if policy and key route to the same shard, and otherwise what it returned before |
| `Sharding.RangePutLost` | includes/opendb/storage/ShardedStorageEngine.hpp:179-190 | the Int64 key 1 with partition value 3 among two ranges: the row is put on shard 0 and a get asks shard 1 |
| `ShardedEngines.ComputeHash` | includes/opendb/storage/ShardedStorageEngine.hpp:146-151 | the loop computes the 64-bit FNV-1a hash of the bytes, wrap-around included |
| `ShardedEngines.ShardedEngine.Get` | includes/opendb/storage/ShardedStorageEngine.hpp:40-49 | the row of the shard the key routes to, as the simulation looks it up |
| `ShardedEngines.ShardedEngine.Put` | includes/opendb/storage/ShardedStorageEngine.hpp:51-66 | it fails if and only if there are no shards, and is one step of the simulated run |
| `ShardedEngines.ShardedEngine.Remove` | includes/opendb/storage/ShardedStorageEngine.hpp:68-76 | it fails if and only if there are no shards, and is one step of the simulated run |
| `ShardedEngines.ShardedEngine.Scan` | includes/opendb/storage/ShardedStorageEngine.hpp:78-83 | the rows of all shards in shard order |
| `ShardedEngines.ShardedEngine.Commit` | includes/opendb/storage/ShardedStorageEngine.hpp:101-107 | every shard commits with the same stamp |
| `ShardedEngines.ShardedEngine.Abort` | includes/opendb/storage/ShardedStorageEngine.hpp:109-114 | every shard aborts |
| `Json.EscapeJson` | includes/opendb/frontend/JsonEncoder.hpp:172-193 | the loop produces exactly the escaped text the round trip is about |
| `Json.EscapedHasNoControls` | includes/opendb/frontend/JsonEncoder.hpp:172-193 | escaped text holds no byte below 0x20, as section 7 of RFC 8259 demands |
| `Json.EscapesOnlyThese` | includes/opendb/frontend/JsonEncoder.hpp:172-193 | a string is its own escape if and only if it has no control byte, quote or backslash |
| `Json.StringRoundTrip` | includes/opendb/frontend/JsonEncoder.hpp:297-351 | parsing the quoted escape of any byte string, anywhere in a text, succeeds, returns the string and consumes exactly it |
| `Json.ParsesGrammar` | includes/opendb/frontend/JsonEncoder.hpp:297-351 | the parser accepts a string at a position if and only if one stands there, each character raw, as one of the eight short escapes or by a four-digit code in either case; it reads what they mean and stops after the quote |
| `Json.EscapeInjective` | includes/opendb/frontend/JsonEncoder.hpp:172-193 | two different strings never escape to the same text |
| `Json.Utf8RoundTrip` | includes/opendb/frontend/JsonEncoder.hpp:330-340 | the UTF-8 bytes of any code point below 0x10000 decode to it |
| `Json.JsonParser.ParseEscape` | includes/opendb/frontend/JsonEncoder.hpp:304-344 | it succeeds if and only if a valid escape stands there, and then yields its bytes and position |
| `Json.JsonParser.ParseStringHere` | includes/opendb/frontend/JsonEncoder.hpp:297-351 | it succeeds if and only if a string stands at the position, on all inputs, and then yields its text and end |

## Left out

- Sockets, the HTTP server and API, the REPL, the SQL parser, joins, projection and LIMIT: front ends around the core.
- Schema checks, ALTER TABLE, the metadata page, metrics, query timeouts and wall-clock time; a lock timeout is a step that may happen at any time.
- `includes/opendb/storage/CachingStorageEngine.hpp`: a read between a put and its commit leaves a stale entry.
- Explicit transactions in the dispatcher, its deadlock pre-check (a fresh transaction waits for nothing) and the HTTP path, which releases the lock before the commit.
- The WHERE evaluation and the scan inside Update and Delete: a writing session puts and removes any keys, one step each.
- Commit without a stamp, whose sequence number is private to each engine.
- Crash durability: the B+tree engine saves its metadata before it advances the cut, so nothing is claimed about a crash after a commit.
- Reopening a file with a fresh transaction manager, whose ids and stamps restart.
- Floating point: a Double is 64 opaque bits in the codec, and keys on which `==` and `compare` disagree are outside the key order.
- Integer widths of page ids, stamps and transaction ids: these counters do not wrap around in the model; the hash, the checksum and the codec widths are exact.
- The 64-bit header word of the allocator and the upgrade of version-1 files.
- What happens after an internal page is written past its end: the code has no check there, so nothing is defined; `PageBytes.PutFitsIff` states when it happens.
- Reading past the end of a buffer in `Value::fromBytes`: the model decodes to nothing there, where the code has no check.
- Scan callbacks that stop early: all callers in the engine continue to the end.
- Where the code and its comments disagree the code is followed: freeing all pages resets the root to 0, although includes/opendb/storage/BTree.hpp:70-71 says it keeps its value.
- Range and List policies beyond routing: put and get may disagree on the shard, which `MisroutedPutLost` states exactly.
- LocalEngines.LocalEngine.Commit: after a failure the engine is not used on; what the tables then hold and show is stated, not what later writes do to the tree that threw.
- LocalEngines.LocalEngine.Put: after any other throw than that of a left half the engine is not used on, because the tree that threw is not well-formed; the same holds of Remove.
- LocalEngines.LocalEngine.CreateTable: does not model the rejection of column types outside the vocabulary; histories in which a table is dropped and created again are outside the comparison with the in-memory engine, which has no tables to drop.
- Tables.TableStore.CreateTable: does not model the rejection of column types outside the vocabulary, because the model has no schemas.
- PageFiles.PageFile.WritePage: does not model the call without a page id, which allocates a page first.
- Json.JsonParser.ParseStringHere: does not state the position and text after a failure, which callers discard.
- Json.JsonParser.ParseEscape: does not state the bytes after a failure, which callers discard.
- DeadlockDetection.DeadlockDetector.DetectCycle: not complete when a table has several holders or a transaction several waits, because the walk follows one chain only.
- LocalEngines.LocalEngine.Get: equals the in-memory engine only for readers that never write, because the tree finds a committed version before the reader's own staged one.
