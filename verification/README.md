# MiniSQL's storage and index engine

A Dafny model of the storage and index engine of MiniSQL, with proofs of what it is for.  Every layer is
proved against a much simpler object:

- the **B+ tree** (`BPlusTree.dfy` and `Tree*.dfy`, `InternalPage.dfy`, `LeafPage.dfy`, `BPlusTreePages.dfy`,
  `IndexIterator.dfy`) is a finite map from keys to values.  Pages are objects with an entry array, found by
  page id; splits and repairs recurse up the parent ids as in the program.  A tree is described page by page:
  each live page has a level and a key range, and is checked against its children, its parent and its right
  neighbour only.  `TreeReading.dfy` shows what these local conditions amount to: one balanced search tree,
  whose leaf chain is its in-order sequence of leaves and whose parent ids are true;
- the **slotted page** (`TablePage.dfy`, `SlottedPage.dfy`) is a list of byte strings, each possibly marked as
  deleted.  The page is 4096 bytes, with header words and slot directory at one end and the tuples at the other;
- the **table heap** (`TableHeap.dfy`, `TableIterator.dfy`, `TableRuns.dfy`, `HeapOrder.dfy`) is a map from record ids
  to tuples, kept in a chain of such pages and scanned in chain-then-slot order;
- the **reader-writer latch** (`LatchProtocol.dfy`, `RWLatch.dfy`) is a protocol of atomic critical sections among
  any number of threads;
- the **page cache** (`BufferPoolManager.dfy`, `PoolState.dfy`, `PoolHistory.dfy`, `PoolRuns.dfy`, `LRUReplacer.dfy`)
  is a map from page ids to bytes, of which as many can be pinned as there are frames, and which gives up the page
  that has been idle for longest;
- the **allocation bitmap** (`BitmapPage.dfy`) is a set of page numbers of which the least free one is taken;
- **rows and index keys** (`RowCodec.dfy`, `RowLayout.dfy`, `Row.dfy`, `GenericKey.dfy`, `KeyOrder.dfy`,
  `RankedRuns.dfy`) are lists of fields, read back as they were written and ordered lexicographically.

## Where the code departs from its intent

- `Coalesce` swaps only its own two parameters when the short page is the first child
  (MiniSQL/src/index/b_plus_tree.cpp:338-341), so its caller frees the page that its sibling has been emptied into.
  The model's `Coalesce` returns the page that has been emptied; `TreeRemove.FreedPageStillNamed` says that the
  program frees a page that is still in use exactly if the index is 0, `TreeRepair.FreedOut` says so of a whole
  removal, and `TreeRemove.RootFreed` shows such a page.
- `Begin(key)` can leave the iterator behind the last entry of a leaf
  (MiniSQL/src/index/b_plus_tree.cpp:458-463).  `IndexIterators.BeginAt` says exactly when, and
  `IndexIterators.BeginAtMisses` shows it.
- `TableHeap::InsertTuple` promises to refuse a row that is too large (MiniSQL/src/include/storage/table_heap.h:29).
  It does, but only after it has appended every page there was to be had; `TableHeaps.TableHeap.InsertTuple` says so.
- A reader can sleep on beside a free latch (`LatchProtocol.ReaderForgotten`).  `LatchProtocol.StepForgetsNone` says
  which step loses the wakeup: a reader leaving a latch filled to its limit while two threads sleep on `reader_`.
- `UnpinPage` sets the pin count to 0 where it would have to count down, which differs exactly if the count is above 1
  (`PoolState.UnpinCounts`); a page another client still uses can then be evicted (`PoolState.PinOfOtherClientLost`).
  What a client may write, and what it has to say when it unpins, is stated as the exact condition for the pool to stay
  in order (`PoolState.UnpinnedOk`, `PoolState.ChangedOk`), and `PoolState.DishonestUnpinLoses` shows a page being lost.
  `NewPage` marks the zeroed frame as clean; when that does no harm is in `PoolState.NewPageUnpinned`.
- `DeletePage` and `FlushPage` of the buffer pool give a frame to the free list that the replacer still has
  (MiniSQL/src/buffer/buffer_pool_manager.cpp:170-178 and 207-212).  The pool is consistent afterwards if and only if
  the page was not an unpinned resident one; `PoolState.FrameGivenTwice` shows what happens otherwise.  `FlushPage`
  besides drops what has been written to a pinned page that is not marked as dirty.
- `DeletePage` gives the page id back to the disk before it refuses a pinned page
  (MiniSQL/src/buffer/buffer_pool_manager.cpp:156-166), so that `NewPage` can be given the id of a resident page; the pool
  is in order then exactly if that page is the one that is evicted (`PoolState.PlacedOk`).
- A null in an index key compares equal to everything.  `KeyOrder.NullsBreakTheOrder` says that this breaks the order at
  exactly the keys with nulls, and `KeyOrder.SameNullsAreOrdered` where it is still an order.
- A row with a string of 2048 bytes or more can be written but not read back (MiniSQL/src/include/record/field.h:53);
  `RowCodec.RoundTrip` says that this is exactly when.

## Model

| member | source | states |
|---|---|---|
| `BPlusTrees.BPlusTree.Insert` | MiniSQL/src/index/b_plus_tree.cpp:81-87 | On any whole tree: the result is true exactly if the key was absent; the contents become `old[k := v]` then and stay as they are otherwise; the tree is whole again, through any cascade of splits and a new root. A page is split only if it is full: the tree gets as many pages as there are full ones in a row from the leaf in charge on upwards, and a new root if they reach up to the root |
| `BPlusTrees.BPlusTree.Remove` | MiniSQL/src/index/b_plus_tree.cpp:238-272 | On any whole tree: the contents become the old ones without the key, and the tree is whole again, through any mix of redistribution, coalescing to either side and loss of the root; the page table holds no page that is not part of the tree. Of the pages the program frees, as many as have left the tree, each is still part of it exactly if it was the first child of its parent and not the root. How many they are is read off the sizes before: one for each page in a row from the leaf on upwards that is left below its minimum and fits into one page with its sibling, and a root left with one child or nothing |
| `BPlusTrees.BPlusTree.GetValue` | MiniSQL/src/index/b_plus_tree.cpp:48-68 | Finds a key exactly if it is in the contents, and its value; visits v pages where there are at least 2 * (I/2)^(v-2) * (L/2) keys |
| `BPlusTrees.BPlusTree.FindLeafPage` | MiniSQL/src/index/b_plus_tree.cpp:484-504 | Ends at the leaf whose key range the key lies in, or at the leaf with no lower end, having visited one page of each level |
| `BPlusTrees.BPlusTree.constructor` | MiniSQL/src/index/b_plus_tree.cpp:9-25 | A new tree is empty and whole |
| `BPlusTrees.BPlusTree.StartNewTree` | MiniSQL/src/index/b_plus_tree.cpp:95-107 | An empty tree becomes one leaf with the entry |
| `BPlusTrees.BPlusTree.InsertIntoLeaf` | MiniSQL/src/index/b_plus_tree.cpp:118-142 | The contract of Insert for a tree that is not empty |
| `BPlusTrees.BPlusTree.InsertAbsent` | MiniSQL/src/index/b_plus_tree.cpp:135 | The leaf in charge gets the entry and may be one too long; everything else about the tree is in order and the contents are `old[k := v]` |
| `BPlusTrees.BPlusTree.SplitPage` | MiniSQL/src/index/b_plus_tree.cpp:153-182 | The page keeps its lower half, a new page with a fresh id gets the upper half, children and leaf links included; the key returned is the one at the cut; the cut is at half the maximum size |
| `BPlusTrees.BPlusTree.SplitUpwards` | MiniSQL/src/index/b_plus_tree.cpp:136-139 | An overfull page is split and the tree is whole afterwards with the same contents; terminates on the distance to the root |
| `BPlusTrees.BPlusTree.InsertIntoParent` | MiniSQL/src/index/b_plus_tree.cpp:194-225 | After a split the tree is made whole again without a change of contents, one level up at a time |
| `BPlusTrees.BPlusTree.LinkBelow` | MiniSQL/src/index/b_plus_tree.cpp:213-217 | With the separator in the parent and both parent ids set, only the parent may be too long |
| `BPlusTrees.BPlusTree.GrowRoot` | MiniSQL/src/index/b_plus_tree.cpp:196-211 | A new root above both halves makes the tree whole |
| `BPlusTrees.BPlusTree.RemovePresent` | MiniSQL/src/index/b_plus_tree.cpp:257 | The leaf in charge loses the entry and may be one too short; the contents are the old ones without the key |
| `BPlusTrees.BPlusTree.CoalesceOrRedistribute` | MiniSQL/src/index/b_plus_tree.cpp:283-318 | From a tree in which one page is short to a whole tree with the same contents; which page is left for the caller to delete is not part of the tree any more, all lower pages still are, and the page it was called for is among those exactly if it was its parent's first child; terminates on the distance to the root |
| `BPlusTrees.BPlusTree.Coalesce` | MiniSQL/src/index/b_plus_tree.cpp:334-358 | The right one of the two siblings is emptied, which is the sibling if and only if the index is 0; that page leaves the tree, every other page of that level and below stays |
| `BPlusTrees.BPlusTree.Redistribute` | MiniSQL/src/index/b_plus_tree.cpp:371-402 | One entry moves between the siblings and the separator follows: the tree is whole, no page comes or goes, the contents stay; the short page has one entry more and its sibling one less |
| `BPlusTrees.BPlusTree.AdjustRoot` | MiniSQL/src/index/b_plus_tree.cpp:415-433 | A root with one child is replaced by it, an empty root leaf leaves the empty tree, and otherwise nothing happens; the contents stay; the page goes exactly if it has one child, or is a leaf without entries |
| `BPlusTrees.BPlusTree.DeletePage` | MiniSQL/src/index/b_plus_tree.cpp:267-270 | A page that is not live may go: tree and contents do not notice |
| `TreeInsert.LeafInsertKeeps` | MiniSQL/src/page/b_plus_tree_leaf_page.cpp:87-105 | An absent key put in its place in the leaf in charge keeps the tree but for that leaf's length, and adds just that key to the contents |
| `TreeInsert.LinkedTree` | MiniSQL/src/index/b_plus_tree.cpp:194-225 | Splitting a page other than the root and linking the new half keeps the tree but for the parent's length, and the contents: ranges, parent ids, leaf chain and occupancy of every page |
| `TreeInsert.GrownTree` | MiniSQL/src/index/b_plus_tree.cpp:196-211 | Splitting the root and putting a new root above the halves gives a whole tree one level higher with the same contents |
| `TreeInsert.SplitKeepsTree` | MiniSQL/src/index/b_plus_tree.cpp:153-182 | All pages are in order after a split that has been linked, the parent apart |
| `TreeInsert.SplitKeepsContents` | MiniSQL/src/page/b_plus_tree_leaf_page.cpp:114-118 | A split loses and invents no entry |
| `TreeGrowth.LinkedCome` | MiniSQL/src/index/b_plus_tree.cpp:135-219 | How many pages come above a page that is split, told from the tree before: none if its parent has room, and otherwise one more than come above the parent |
| `TreeRemove.LeafRemoveKeeps` | MiniSQL/src/page/b_plus_tree_leaf_page.cpp:170-181 | A key taken out of the leaf in charge keeps the tree but for that leaf's length, and takes just that key from the contents |
| `TreeRemove.RecutKeepsTree` | MiniSQL/src/index/b_plus_tree.cpp:371-402 | Joining two neighbouring siblings and cutting them at another place, the parent getting the key at the cut, keeps the tree and mends both sizes |
| `TreeRemove.RecutKeepsContents` | MiniSQL/src/index/b_plus_tree.cpp:371-402 | Redistribution keeps the contents |
| `TreeRemove.FirstMovedRecuts` | MiniSQL/src/page/b_plus_tree_internal_page.cpp:214-237 | Moving the first entry of the right sibling, with the separator as its key, is such a cut one place further right |
| `TreeRemove.LastMovedRecuts` | MiniSQL/src/page/b_plus_tree_internal_page.cpp:247-271 | Moving the last entry of the left sibling, its key becoming the separator, is such a cut one place further left |
| `TreeRemove.MergeKeepsTree` | MiniSQL/src/index/b_plus_tree.cpp:334-358 | Emptying a page into its left neighbour and dropping its entry from the parent keeps the tree without that page, but for the parent's length |
| `TreeRemove.MergeKeepsContents` | MiniSQL/src/index/b_plus_tree.cpp:334-358 | Coalescing keeps the contents |
| `TreeRemove.JoinedStoreMerges` | MiniSQL/src/page/b_plus_tree_internal_page.cpp:195-200 | MoveAllTo together with the removal of the entry from the parent is such a coalescing: all children adopted, leaf chain closed |
| `TreeRemove.RootReplaced` | MiniSQL/src/index/b_plus_tree.cpp:416-426 | With the only child in its place the tree is one level lower, whole, and holds the same |
| `TreeRemove.LastEntryGone` | MiniSQL/src/index/b_plus_tree.cpp:427-431 | An empty root leaf is the only page, and the contents are empty |
| `TreeRemove.FreedPageStillNamed` | MiniSQL/src/index/b_plus_tree.cpp:338-341 | The program's caller frees the page that was short; after coalescing, the parent still names that page if and only if the index was 0 |
| `TreeRepair.FreedOut` | MiniSQL/src/index/b_plus_tree.cpp:238-358 | What the program frees in a whole removal is out of the tree if and only if no page of it, other than a root that has been given up, was a first child |
| `TreeRemove.FirstChildrenKept` | MiniSQL/src/index/b_plus_tree.cpp:338-357 | Coalescing makes no difference to which pages of higher levels are first children, so that this can be told from the tree before the removal |
| `TreeRemove.RootFreed` | MiniSQL/src/index/b_plus_tree.cpp:314 | A tree in which the page that is then freed is the one that becomes the root |
| `TreeGrowth.GoStep` | MiniSQL/src/index/b_plus_tree.cpp:288-315 | A page below its minimum takes none with it if it and its sibling, the left one unless it is a first child, do not fit into one page; otherwise one more than its parent does, left with one entry less |
| `TreeGrowth.JoinedGo` | MiniSQL/src/index/b_plus_tree.cpp:334-358 | Coalescing makes no difference to how many pages go higher up |
| `TreeReading.UnderLists` | MiniSQL/src/index/b_plus_tree.cpp:48-68 | The in-order traversal of the raw pages below any page lists its part of the contents in key order |
| `TreeReading.LeavesChained` | MiniSQL/src/page/b_plus_tree_leaf_page.cpp:191-195 | The next-page links run through the leaves in exactly the in-order sequence, below every page |
| `TreeReading.ReadsAsSearchTree` | MiniSQL/src/page/b_plus_tree_page.cpp:50-61 | Read from the root without any further knowledge, the pages are a balanced search tree with true parent ids and sizes within the limits |
| `TreeReading.ParentIds` | MiniSQL/src/page/b_plus_tree_internal_page.cpp:144-155 | Just the root has no parent id, and a page's parent id is the one page that points to it |
| `TreeReading.LiveIsReachable` | MiniSQL/src/index/b_plus_tree.cpp:267-270 | The live pages are exactly those that can be reached from the root, so a deleted page never can |
| `TreeReading.HeightBound` | MiniSQL/src/page/b_plus_tree_page.cpp:50-61 | With an internal root of level h there are at least 2 * (I/2)^(h-1) * (L/2) keys |
| `TreeRuns.Run` | MiniSQL/src/index/b_plus_tree.cpp:81-272 | After any sequence of insertions and removals on a new tree the contents are those of a map under the same operations, and a scan lists them |
| `TreeRuns.PagesAreTheTree` | MiniSQL/src/index/b_plus_tree.cpp:283-318 | Between operations the pages in the table are exactly the reachable ones, form one balanced search tree, and it is as low as the height bound says |
| `InternalPage.Lookup` | MiniSQL/src/page/b_plus_tree_internal_page.cpp:72-86 | Finds the child whose key range the key lies in |
| `InternalPage.GetValueIndex` | MiniSQL/src/page/b_plus_tree_internal_page.cpp:41-50 | The first position of a child, or -1 |
| `InternalPage.PopulateNewRoot` | MiniSQL/src/page/b_plus_tree_internal_page.cpp:98-104 | Two children with the separator between them |
| `InternalPage.InsertNodeAfter` | MiniSQL/src/page/b_plus_tree_internal_page.cpp:112-122 | The entry right behind the one for the old child, all others in their order |
| `InternalPage.MoveHalfTo` | MiniSQL/src/page/b_plus_tree_internal_page.cpp:131-137 | The entries from the minimum size on go over, and exactly the pages they name, and no others in the whole table, get the new parent id |
| `InternalPage.CopyNFrom` | MiniSQL/src/page/b_plus_tree_internal_page.cpp:144-155 | Appends the entries and adopts exactly the pages they name |
| `InternalPage.MoveAllTo` | MiniSQL/src/page/b_plus_tree_internal_page.cpp:195-200 | All entries go over, the first with the separator as its key; their pages are adopted |
| `InternalPage.MoveFirstToEndOf` | MiniSQL/src/page/b_plus_tree_internal_page.cpp:214-237 | The first child goes over with the separator as its key and is the only page to get another parent id |
| `InternalPage.MoveLastToFrontOf` | MiniSQL/src/page/b_plus_tree_internal_page.cpp:247-271 | The last child goes to the front, the former first one gets the separator as its key; only the moved child gets another parent id |
| `InternalPage.Remove` | MiniSQL/src/page/b_plus_tree_internal_page.cpp:166-171 | One entry less, the others in their order |
| `InternalPage.RemoveAndReturnOnlyChild` | MiniSQL/src/page/b_plus_tree_internal_page.cpp:178-182 | The one child, and no entry left |
| `LeafPage.KeyIndex` | MiniSQL/src/page/b_plus_tree_leaf_page.cpp:44-57 | The number of keys below the given one |
| `LeafPage.Lookup` | MiniSQL/src/page/b_plus_tree_leaf_page.cpp:141-158 | Finds a key exactly if it is there, and its value |
| `LeafPage.Insert` | MiniSQL/src/page/b_plus_tree_leaf_page.cpp:87-105 | An absent key is put where the order wants it, a present one changes nothing |
| `LeafPage.RemoveAndDeleteRecord` | MiniSQL/src/page/b_plus_tree_leaf_page.cpp:170-181 | Takes out the key if it is there |
| `LeafPage.MoveHalfTo` | MiniSQL/src/page/b_plus_tree_leaf_page.cpp:114-130 | Lower part stays, upper part goes |
| `LeafPage.MoveAllTo` | MiniSQL/src/page/b_plus_tree_leaf_page.cpp:191-195 | All entries are appended and the link to the next leaf is handed on |
| `LeafPage.MoveFirstToEndOf` | MiniSQL/src/page/b_plus_tree_leaf_page.cpp:205-221 | The first entry becomes the last of the other leaf |
| `LeafPage.MoveLastToFrontOf` | MiniSQL/src/page/b_plus_tree_leaf_page.cpp:227-244 | The last entry becomes the first of the other leaf |
| `IndexIterators.Begin` | MiniSQL/src/index/b_plus_tree.cpp:444-450 | Stands at the least key of all |
| `IndexIterators.BeginAt` | MiniSQL/src/index/b_plus_tree.cpp:458-463 | Stands at the least key from the given one on if and only if the leaf in charge has such a key; otherwise just behind the last entry of that leaf |
| `IndexIterators.BeginAtMisses` | MiniSQL/src/index/b_plus_tree.cpp:458-463 | A tree in which it does not, although there is a greater key |
| `IndexIterators.IndexIterator.Next` | MiniSQL/src/index/index_iterator.cpp:25-45 | Moves to the least key of the tree above the present one, also from behind the last entry of a leaf, or to the end if there is none |
| `IndexIterators.IndexIterator.Item` | MiniSQL/src/index/index_iterator.cpp:21-23 | The entry of the contents at the present key |
| `IndexIterators.Scan` | MiniSQL/src/index/index_iterator.cpp:25-55 | From Begin() to End() the entries are the contents, each key once, in increasing order, and the walk ends |
| `TreeReading.LeastAtPosition` | MiniSQL/src/index/index_iterator.cpp:25-45 | The least key from k on is at the position that parts the leaf at k, or first in the next leaf, or there is none |
| `SlottedPage.InsertedOk` | MiniSQL/src/page/table_page.cpp:11-45 | A tuple put in front of the others keeps them disjoint and without gaps, and changes or adds just the one slot |
| `SlottedPage.FreeByContents` | MiniSQL/src/include/page/table_page.h:75-77 | No byte is wasted: the free-space pointer is as far from the end of the page as there are bytes in stored tuples |
| `SlottedPage.ReplacedOk` | MiniSQL/src/page/table_page.cpp:65-133 | Replacing or dropping the bytes of one tuple, the ones in front closing up, keeps all tuples disjoint and without gaps up to the end of the page and the directory apart from them, and changes exactly the one slot |
| `SlottedPage.ReplacedElsewhere` | MiniSQL/src/page/table_page.cpp:97-102 | Every other tuple reads back byte for byte |
| `SlottedPage.ResizedOk` | MiniSQL/src/page/table_page.cpp:47-63 | Setting or clearing a mark changes just that |
| `TablePages.SpaceInWords` | MiniSQL/src/include/page/table_page.h:66-77 | A tuple fits, by the two words of the header, exactly if header, directory with one more slot, and tuple end in front of the free-space pointer |
| `TablePages.SpaceByContents` | MiniSQL/src/include/page/table_page.h:75-77 | A tuple fits, by what is stored, exactly if 24 + 8 * (slots + 1) + bytes stored + its own bytes are 4096 at most |
| `TablePages.ContentsInWords` | MiniSQL/src/include/page/table_page.h:79-99 | What a slot holds, by its two words: nothing if the size is 0, otherwise the bytes from the offset on, marked if the top bit of the size is set |
| `TablePages.TablePage.Init` | MiniSQL/src/page/table_page.cpp:3-9 | An empty page with its id and links, word by word |
| `TablePages.TablePage.InsertTuple` | MiniSQL/src/page/table_page.cpp:11-45 | Succeeds exactly if header, directory with one more slot, stored tuples and the new one fit into 4096 bytes, both by the words of the page and by its contents; then the tuple is in the first vacant slot, or a new one, and no other changes |
| `TablePages.TablePage.FindVacant` | MiniSQL/src/page/table_page.cpp:19-27 | The first slot of size 0, or the number of slots |
| `TablePages.TablePage.MarkDelete` | MiniSQL/src/page/table_page.cpp:47-63 | Succeeds exactly for a live tuple, and marks it; otherwise no byte changes |
| `TablePages.TablePage.UpdateTuple` | MiniSQL/src/page/table_page.cpp:65-104 | The status as a function of slot, mark and space, -2 being exactly for a live tuple in whose place the new bytes do not fit, by the words of the page and by its contents; on success the old bytes are returned and exactly that slot holds the new ones; otherwise no byte changes |
| `TablePages.TablePage.ApplyDelete` | MiniSQL/src/page/table_page.cpp:106-133 | Exactly the given slot becomes vacant, whether its tuple was marked or not |
| `TablePages.TablePage.RollbackDelete` | MiniSQL/src/page/table_page.cpp:135-144 | Takes the mark off, if there is a tuple |
| `TablePages.TablePage.GetTuple` | MiniSQL/src/page/table_page.cpp:146-165 | The bytes of a live tuple, and only of one |
| `TablePages.TablePage.GetFirstTupleRid` | MiniSQL/src/page/table_page.cpp:167-177 | The first live slot, if any |
| `TablePages.TablePage.GetNextTupleRid` | MiniSQL/src/page/table_page.cpp:179-191 | The first live slot after the given one, if any |
| `TablePages.TablePage.FixOffsets` | MiniSQL/src/page/table_page.cpp:97-102 | Just the slots in use in front of the limit move, by delta |
| `TablePages.TablePage.MoveFront` | MiniSQL/src/page/table_page.cpp:92-95 | The bytes in front of a tuple arrive unharmed at their new place, overlap or not, and those behind it stay |
| `TablePages.SizedSlotShifted` | MiniSQL/src/page/table_page.cpp:97-102 | The comparison in the loop moves the slot itself and those in front of it, and no others |
| `Bytes.Memmove` | MiniSQL/src/page/table_page.cpp:92-93 | The bytes that were there arrive, overlapping or not, and no others change |
| `Bytes.WordOfBytes` | MiniSQL/src/include/common/macros.h:21-34 | A word can be read from its four bytes wherever they are |
| `TableHeaps.TableHeap.constructor` | MiniSQL/src/include/storage/table_heap.h:99-112 | One empty page, which is first page and insert page |
| `TableHeaps.TableHeap.InsertTuple` | MiniSQL/src/storage/table_heap.cpp:3-34 | For every row: it is stored if and only if it fits beside what some page from the insert page on holds, or fits into an empty page and there is one to be had; then there is just one more record, under an id that was not in use, in the first page with room or in one new page at the end, and pages before that have no room; the page ids of the chain and those still to be had are the same sequence as before, and the chain grows by exactly the pages that takes; a row above the maximum size is refused after using up all pages there are |
| `TableHeaps.TableHeap.Advance` | MiniSQL/src/storage/table_heap.cpp:11-28 | On to the next page, or to a new one linked both ways behind the last |
| `TableHeaps.TableHeap.MarkDelete` | MiniSQL/src/storage/table_heap.cpp:36-49 | The map of records gets the mark, if there is such a record, and is the same otherwise; reports success either way |
| `TableHeaps.TableHeap.RollbackDelete` | MiniSQL/src/storage/table_heap.cpp:79-88 | The map of records loses the mark and is the same otherwise |
| `TableHeaps.TableHeap.ApplyDelete` | MiniSQL/src/storage/table_heap.cpp:71-77 | The map of records loses the record and is the same otherwise |
| `TableHeaps.TableHeap.GetTuple` | MiniSQL/src/storage/table_heap.cpp:101-108 | The bytes of the record replace the given ones exactly if it is live; success is reported either way |
| `HeapOrder.AppendedOk` | MiniSQL/src/storage/table_heap.cpp:20-28 | A page appended as the program links it keeps the chain: distinct ids, previous and next links inverse to each other, ends invalid |
| `HeapOrder.SearchFailed` | MiniSQL/src/storage/table_heap.cpp:11-23 | What is known when no page is to be had: none from the start on has room, and for a row of at most the maximum size no page has been added |
| `HeapOrder.SearchSucceeded` | MiniSQL/src/storage/table_heap.cpp:29-33 | What is known when there is room: one page has been added at most, and the row is no larger than the maximum |
| `HeapOrder.WhetherStored` | MiniSQL/src/storage/table_heap.cpp:3-34 | The page at which the search ends has room if and only if the row could be stored by the state before the search, and the pages added are as many as that state says |
| `HeapOrder.StoredFirstByContents` | MiniSQL/src/storage/table_heap.cpp:11-33 | The page chosen by its contents: the first one from the insert page on that the row fits into beside what is stored, and in it the first slot without a tuple, or a new one |
| `HeapOrder.NoRoomByContents` | MiniSQL/src/storage/table_heap.cpp:11 | A row of pages has no room if and only if the row fits beside the contents of none of them |
| `HeapOrder.StoredRecord` | MiniSQL/src/page/table_page.cpp:11-45 | Storing a tuple gives one record, which was not there, and leaves every other record as it was |
| `HeapOrder.ScanLists` | MiniSQL/src/storage/table_iterator.cpp:39-65 | A scan lists a record exactly if the map has it without a mark |
| `HeapOrder.ScanExact` | MiniSQL/src/storage/table_iterator.cpp:39-65 | The order of a scan lists every live record exactly once, and nothing else |
| `HeapOrder.LiveFromOrdered` | MiniSQL/src/storage/table_iterator.cpp:39-65 | Chain first, slot second |
| `TableIterators.Begin` | MiniSQL/src/storage/table_heap.cpp:110-124 | Stands at the first live record, having read it, or at the end |
| `TableIterators.TableIterator.Next` | MiniSQL/src/storage/table_iterator.cpp:39-65 | Moves to the next live record in chain-then-slot order, over pages without any, or to the end |
| `TableIterators.Scan` | MiniSQL/src/storage/table_iterator.cpp:39-65 | From Begin() to End(): exactly the records of the map that are not marked, once each, in chain-then-slot order, each with its bytes |
| `TableRuns.Run` | MiniSQL/src/storage/table_heap.cpp:3-124 | After any sequence of insertions, marks, removals and rollbacks on a new table its records are those of a map under the same operations, no insertion overwrites a record, and a scan lists the ones that are not marked. No page id is lost. A row above the maximum size is always refused; one that is not is refused only if no page is left; and while all rows so far fit into a page, the n-th insertion succeeds whenever there are n - 1 pages besides the first |
| `LatchProtocol.StepKeepsSafe` | MiniSQL/src/include/common/rwlatch.h:28-78 | Every step of any thread keeps the invariant: one owner of the write side, a writer only beside no reader, the count equal to the number of readers |
| `LatchProtocol.MutualExclusion` | MiniSQL/src/include/common/rwlatch.h:28-78 | In every state of every run of any number of threads: at most one writer, no reader beside a writer, and reader_count_ is the number of read holders |
| `LatchProtocol.StepMovesOne` | MiniSQL/src/include/common/rwlatch.h:28-78 | A step leaves every other thread in its call, waking it at most; the thread itself begins a call, goes on in it, returns from it holding the latch, or gives the latch up |
| `LatchProtocol.LoopsDecide` | MiniSQL/src/include/common/rwlatch.h:28-57 | Whether a thread gets past a wait loop is decided by the loop's condition: WLock past its first loop has the flag set, asleep or writing as there are readers or not; RLock reads exactly if no writer has entered and the count is below the limit |
| `LatchProtocol.StepShutsOut` | MiniSQL/src/include/common/rwlatch.h:33-56 | While a writer is in, no step makes a thread a reader, and only its own WUnlock ends that |
| `LatchProtocol.WriterShutsOut` | MiniSQL/src/include/common/rwlatch.h:33-56 | In every run: from the step in which a writer enters until its WUnlock no thread becomes a reader and no other writer enters |
| `LatchProtocol.WriterGetsIn` | MiniSQL/src/include/common/rwlatch.h:34-36 | In every run: once the readers are gone, the writer that has entered is awake and writes with its next step |
| `LatchProtocol.StepForgetsNone` | MiniSQL/src/include/common/rwlatch.h:28-78 | A step leaves a sleeper whose loop condition has become false exactly if it is a reader leaving a latch that is filled to the limit, with no writer in and two threads asleep on reader_ |
| `LatchProtocol.RunForgetsNone` | MiniSQL/src/include/common/rwlatch.h:28-78 | A run never has such a sleeper exactly if it has no such step |
| `LatchProtocol.RunAwaitsWriters` | MiniSQL/src/include/common/rwlatch.h:28-46 | In every run, even with such steps, no wakeup of a writer is lost |
| `LatchProtocol.NoDeadlock` | MiniSQL/src/include/common/rwlatch.h:28-78 | While there has been no such step: if nobody holds the latch and somebody waits, some waiting thread is awake and its next step gets it the latch |
| `LatchProtocol.DeadlockExactly` | MiniSQL/src/include/common/rwlatch.h:28-78 | In any run, if nobody holds the latch and somebody waits: nobody can go on exactly if no writer has entered and all that wait are readers asleep |
| `LatchProtocol.LosslessBelowLimit` | MiniSQL/src/include/common/rwlatch.h:16 | Below the limit there is no such step |
| `LatchProtocol.ReaderForgotten` | MiniSQL/src/include/common/rwlatch.h:62-78 | For every limit from 2 on, so for UINT_MAX too: a run at whose end a reader sleeps beside a free latch and everybody else is outside |
| `RWLatch.ReaderWriterLatch.EnterWrite` | MiniSQL/src/include/common/rwlatch.h:28-37 | The first critical section of WLock is the step of the protocol, and safe: the flag is set afterwards in any case, and the thread sleeps if it was before, and otherwise waits for the readers or writes |
| `RWLatch.ReaderWriterLatch.DrainReaders` | MiniSQL/src/include/common/rwlatch.h:34-36 | The second loop of WLock: the step of the protocol, and safe: the writer sleeps while there are readers and writes otherwise |
| `RWLatch.ReaderWriterLatch.WUnlock` | MiniSQL/src/include/common/rwlatch.h:42-46 | WUnlock: the step of the protocol, and safe: the flag is cleared and nobody sleeps on `reader_` any more |
| `RWLatch.ReaderWriterLatch.EnterRead` | MiniSQL/src/include/common/rwlatch.h:51-57 | The loop of RLock: the step of the protocol, and safe: the reader is counted in exactly if no writer has entered and the count is below the limit, and sleeps otherwise |
| `RWLatch.ReaderWriterLatch.RUnlock` | MiniSQL/src/include/common/rwlatch.h:62-78 | RUnlock: the step of the protocol, and safe: the count is one less; it never wraps around below zero, which the program only asserts |
| `LRUReplacers.LRUReplacer.Victim` | MiniSQL/src/buffer/lru_replacer.cpp:9-18 | The last of the list, which loses it; fails exactly on the empty list |
| `LRUReplacers.LRUReplacer.Pin` | MiniSQL/src/buffer/lru_replacer.cpp:20-23 | The list without the frame |
| `LRUReplacers.LRUReplacer.Unpin` | MiniSQL/src/buffer/lru_replacer.cpp:29-50 | The frame in front unless it is on the list; what is left in `buffer` makes no difference |
| `LRUReplacers.VictimIsLeastRecent` | MiniSQL/src/buffer/lru_replacer.cpp:9-54 | After any history the list is in the order in which the frames became evictable, latest first |
| `PoolState.PlacedConsistent` | MiniSQL/src/buffer/buffer_pool_manager.cpp:48-93 | Bringing a page in keeps the table injective and in agreement with the frames, frames parted between table and free list, and evictable exactly what is mapped and not pinned |
| `PoolState.PlacedContent` | MiniSQL/src/buffer/buffer_pool_manager.cpp:64-87 | Whatever frame has to go, written back or not, no other page changes |
| `PoolState.PlacedClean` | MiniSQL/src/buffer/buffer_pool_manager.cpp:64-87 | What may be dropped without writing still equals the disk |
| `PoolState.PlacedOk` | MiniSQL/src/buffer/buffer_pool_manager.cpp:98-148 | Placing a new page keeps the pool in order exactly if its id is not that of a page which stays resident |
| `PoolState.PlacedTable` | MiniSQL/src/buffer/buffer_pool_manager.cpp:48-93 | While a frame is free, a page brought in goes into one from the free list and every other page stays where it is; otherwise exactly the page in the last evictable frame goes |
| `PoolState.PinnedStays` | MiniSQL/src/buffer/buffer_pool_manager.cpp:48-93 | Whatever page is brought in, a pinned page keeps its frame, the bytes, count and mark in it, and its copy on disk, and no other page gets to be pinned |
| `PoolState.NewPageUnpinned` | MiniSQL/src/buffer/buffer_pool_manager.cpp:117 | A new page, its frame not being marked as dirty, may be unpinned as clean exactly if the disk has zeroes there |
| `PoolState.UnpinnedOk` | MiniSQL/src/buffer/buffer_pool_manager.cpp:184-195 | Unpinning changes no page, and keeps the pool in order exactly if the client has not kept back a change |
| `PoolState.DishonestUnpinLoses` | MiniSQL/src/buffer/buffer_pool_manager.cpp:184-195 | If it has, the next page to be brought in costs the page what was written to it |
| `PoolState.UnpinCounts` | MiniSQL/src/buffer/buffer_pool_manager.cpp:188 | Unpinning agrees with counting the pins down if and only if the count is 1 at most |
| `PoolState.PinOfOtherClientLost` | MiniSQL/src/buffer/buffer_pool_manager.cpp:188 | A page pinned by two clients and unpinned by one is evicted by the next page to be brought in; counting down would have kept it |
| `PoolState.ChangedOk` | MiniSQL/src/buffer/buffer_pool_manager.cpp:29-47 | Writing into a resident page keeps the pool in order exactly if the page is pinned, or marked as dirty, or gets the bytes that the disk has |
| `PoolState.AvailableUnlessPinned` | MiniSQL/src/buffer/buffer_pool_manager.cpp:64-90 | There is a frame to be had unless every frame is mapped and pinned |
| `PoolState.GivenBackOk` | MiniSQL/src/buffer/buffer_pool_manager.cpp:170-178 | Taking a page out of the table and its frame to the free list without telling the replacer keeps the pool consistent if and only if the page was pinned |
| `PoolState.FrameGivenTwice` | MiniSQL/src/buffer/buffer_pool_manager.cpp:170-178 | Otherwise the frame can be handed out twice: a page that is pinned loses its frame to the next one |
| `BufferPoolManagers.BufferPoolManager.FetchPage` | MiniSQL/src/buffer/buffer_pool_manager.cpp:29-94 | Null exactly if the page is absent and every frame is pinned; otherwise its frame is pinned and shows the page's content; no page's content changes. Field by field: a resident page stays in its frame with one pin more, the frame leaving the replacer; another one takes the last free frame, nothing else changing, or, with none free, the replacer's last frame, whose page leaves the table and goes to the disk if it is dirty |
| `BufferPoolManagers.BufferPoolManager.NewPage` | MiniSQL/src/buffer/buffer_pool_manager.cpp:98-148 | Fails exactly if every frame is pinned; otherwise the new page is zeroes and no other page changes, exactly if the id is not that of a page which stays; that cannot be if only pages that the disk has given out are resident. It takes the last free frame, nothing else changing, or, with none free, the replacer's last one, whose page leaves the table and goes to the disk if it is dirty |
| `BufferPoolManagers.BufferPoolManager.UnpinPage` | MiniSQL/src/buffer/buffer_pool_manager.cpp:184-195 | The pin count becomes 0 and the frame evictable, after all that were evictable before; no page changes, and the pool is in order exactly if the client has not kept back a change |
| `BufferPoolManagers.BufferPoolManager.WriteTo` | MiniSQL/src/buffer/buffer_pool_manager.cpp:29-47 | Writing into a resident page changes just its content, neither pin counts nor marks; the pool is in order then exactly if the page is pinned, or marked as dirty, or gets the bytes that the disk has |
| `BufferPoolManagers.BufferPoolManager.DeletePage` | MiniSQL/src/buffer/buffer_pool_manager.cpp:150-182 | As written: the pool is consistent afterwards if and only if the page was not an unpinned resident one; a page that is pinned or absent leaves it as it is, but its id goes back to the disk in any case; the frame goes to the end of the free list, and neither replacer nor disk changes |
| `BufferPoolManagers.BufferPoolManager.FlushPage` | MiniSQL/src/buffer/buffer_pool_manager.cpp:197-214 | As written: the pool is consistent afterwards if and only if the page was not an unpinned resident one; the page keeps its content if and only if it was marked as dirty or the same on disk, and no other page changes; the frame goes to the end of the free list, and the replacer does not change |
| `PoolRuns.Run` | MiniSQL/src/buffer/buffer_pool_manager.cpp:29-195 | Over any sequence of fetches, new pages, writes and unpins of a client that unpins as dirty what it has changed, every result and every page's content is that of a plain map of pages, of which as many can be pinned as there are frames; a request is refused exactly if that many are |
| `PoolRuns.PinsCounted` | MiniSQL/src/buffer/buffer_pool_manager.cpp:64-90 | Every frame is pinned if and only if as many pages are pinned as there are frames |
| `PoolRuns.Perform` | MiniSQL/src/buffer/buffer_pool_manager.cpp:29-195 | After any history of a client: the page that has to go, if one has, is not pinned, no frame is free, and of all resident pages it is the one for which the history shows the longest time since it was first unpinned after its last pin |
| `PoolHistory.PlacedInOrder` | MiniSQL/src/buffer/buffer_pool_manager.cpp:48-148 | A page brought in keeps the evictable frames in the order in which their pages became idle, and costs the oldest of these its place, if any |
| `PoolHistory.UnpinnedInOrder` | MiniSQL/src/buffer/buffer_pool_manager.cpp:184-195 | So does an unpin: the page comes after all that were idle before |
| `BitmapPages.BitmapPage.AllocatePage` | MiniSQL/src/page/bitmap_page.cpp:21-54 | Fails exactly if the bitmap is full; otherwise takes the least free page, by the counter or by the scan, and changes no other bit; the count goes up by one, and the mark exactly if the two were equal |
| `BitmapPages.BitmapPage.FindByte` | MiniSQL/src/page/bitmap_page.cpp:36-38 | The scan bounded by page_allocated_ always finds the first byte with a free bit |
| `BitmapPages.BitmapPage.FindHole` | MiniSQL/src/page/bitmap_page.cpp:33-45 | Byte and bit together are the least free page, below next_free_page_ |
| `BitmapPages.BitmapPage.DeAllocatePage` | MiniSQL/src/page/bitmap_page.cpp:57-69 | Succeeds exactly for a page in use, and frees just that one; the count goes down then, and the mark stays |
| `BitmapPages.CountBelow` | MiniSQL/src/page/bitmap_page.cpp:28-31 | If no page from m on is in use, the count is m exactly if all below are |
| `BitmapPages.InUseIs` | MiniSQL/src/page/bitmap_page.cpp:39-49 | Page i is in use exactly if bit i % 8, from the lowest on, of byte i / 8 is set |
| `RowCodec.RoundTrip` | MiniSQL/src/record/row.cpp:3-84 | Wherever a row has been written, reading gives the same types, nulls and values and ends where the row ends, if and only if every string is shorter than the limit |
| `RowCodec.SizeOfEncoding` | MiniSQL/src/record/row.cpp:86-96 | The size announced is the size written, for any number of fields and bitmap width |
| `RowLayout.EncodingLaidOut` | MiniSQL/src/record/row.cpp:3-42 | Every word, bit and string of a written row is where the layout says, wherever the row is |
| `RowLayout.SizeLaidOut` | MiniSQL/src/record/row.cpp:86-96 | The size by the fields alone |
| `RowLayout.DecodeExactly` | MiniSQL/src/record/row.cpp:44-84 | Reading any memory yields certain fields and a certain end if and only if the memory reads as them by the layout |
| `RowLayout.DecodeFailsExactly` | MiniSQL/src/record/row.cpp:44-84 | Reading fails if and only if the memory reads as no row |
| `RowCodec.NullBitmapRead` | MiniSQL/src/record/row.cpp:18-24 | Bit i of the bitmap tells whether field i is null |
| `RowCodec.ValueRoundTrip` | MiniSQL/src/record/types.cpp:84-107 | Each type's value is read back, a string only below the limit |
| `Rows.Row.SerializeTo` | MiniSQL/src/record/row.cpp:3-42 | Page id, slot, number of fields and size of the bitmap as the first four words, then the bitmap bit by bit, then each field: the type word 1, 2 or 3 and the value behind it; the number of bytes, and no byte elsewhere |
| `Rows.Row.DeserializeFrom` | MiniSQL/src/record/row.cpp:44-84 | From any memory: succeeds exactly if it reads as a row by the layout, the bitmap not being longer than the fields need and no string of 2048 bytes or more, and then the fields and the length are those |
| `Rows.Row.GetSerializedSize` | MiniSQL/src/record/row.cpp:86-96 | The length of what SerializeTo writes: 16, the bitmap, and 4 bytes for each field besides its value |
| `Rows.Row.MakeNullBitmap` | MiniSQL/src/record/row.cpp:16-24 | The bitmap of the nulls |
| `Rows.WriteAndRead` | MiniSQL/src/record/row.cpp:3-84 | Written and read again: the same fields and the same length, exactly if every string is short enough |
| `KeyOrder.CompareStringsSign` | MiniSQL/src/record/types.cpp:6-16 | The sign of CompareStrings is the dictionary order of unsigned bytes, zero on equal strings only |
| `KeyOrder.CompareIsLexicographic` | MiniSQL/src/include/index/generic_key.h:55-75 | The comparator's sign is the lexicographic order of the rows |
| `KeyOrder.ComparatorIsTotalOrder` | MiniSQL/src/include/index/generic_key.h:55-75 | On keys of one schema without nulls and floats: zero exactly on equal keys, antisymmetric, transitive |
| `KeyOrder.NullsBreakTheOrder` | MiniSQL/src/record/types.cpp:125-147 | For a key without floats: whatever compares equal to it on one side compares equal to whatever does so on the other, exactly if it has no null |
| `KeyOrder.EqualApartFromNulls` | MiniSQL/src/include/index/generic_key.h:55-75 | Keys of one schema compare equal exactly if they are the same in every column in which neither has a null |
| `KeyOrder.SameNullsAreOrdered` | MiniSQL/src/include/index/generic_key.h:55-75 | Among keys with their nulls in the same columns the comparator is a total order |
| `KeyOrder.RanksOrder` | MiniSQL/src/include/index/generic_key.h:55-75 | Any finitely many keys are ordered as integers, their ranks, are |
| `RankedRuns.Run` | MiniSQL/src/index/b_plus_tree.cpp:81-272 | After any operations on keys that are rows, each going by its rank, the tree holds what a map from rows would, and a scan meets the rows in lexicographic order |
| `GenericKeys.GenericKey.SerializeFromKey` | MiniSQL/src/include/index/generic_key.h:12-19 | The row in front, zeroes behind, byte by byte |
| `GenericKeys.GenericKey.DeserializeToKey` | MiniSQL/src/include/index/generic_key.h:21-25 | The fields of the row are read back |
| `GenericKeys.CompareKeys` | MiniSQL/src/include/index/generic_key.h:55-75 | Comparing the blocks is comparing the rows they carry |
| `GenericKeys.CompareSerialized` | MiniSQL/src/include/index/generic_key.h:12-75 | Serialized keys compare as the rows do lexicographically |

## Left out

- BPlusTrees.BPlusTree.Insert: a page is always to be had; the program throws when the buffer pool has none.
- BPlusTrees.BPlusTree.constructor: a tree whose root page id is already recorded is not opened again.
- TablePages.TablePage.ApplyDelete: a slot without a tuple is not modelled; the program asserts that there is one.
- TableHeaps.TableHeap.ApplyDelete: an id without a record is not modelled, for the same reason.
- IndexIterators.Begin: an empty tree is not modelled; the program then fetches the invalid page.
- RankedRuns.Run: keys of the tree are integers, which is one of the program's own instantiations.  The results are
  carried over to rows without nulls and floats by their ranks; that the program does with rows what it does with their
  ranks, since it only compares and copies keys, is not part of the model.
- The two size limits of the tree are parameters, at least 2 for leaves and 4 for internal pages; with less, an internal
  page below the root could be left with one child and no sibling to be repaired with.
- The record of the root page id on the index roots page; the tree goes by its own field.
- Pins and unpins within the tree and the heap: every page of theirs is taken to be fetched when it is asked for.
- The disk: a map from page ids to bytes and a set of page ids given out.  The extents of the disk manager and its address
  arithmetic, and a disk that is full.
- Comparison of floats.
- Alignment; memory is a sequence of bytes and words are little-endian.
- TableHeap::UpdateTuple and TableHeap::FreeHeap.
- Catalog, schema and column codecs and the index roots page: simpler instances of the row codec.
- Parser, syntax tree and executor, and the debug output of the tree.
- Lock, log and transaction managers, which are empty classes, and their parameters.
- The prime tables among the vendored samples.
