# A verified model of a teaching storage engine

This project models the core of a small relational storage engine written
in C++, together with the two Python scripts that build and run its tests:

- the B+-tree index: the `Key` byte layout and order, the binary-search
  descent `search`, and `find`, `insert` (leaf copy-up and index push-up
  splits), `erase` (borrowing and merging) and `bulkLoad` (layer building)
  (ix/ix.cc, modules `IxKey`, `BTreeNode`, `BTree`);
- the index file handle's page allocator: page reads and writes, page
  appends, the page cache and the free-page set (`IxFile`);
- the slotted record page: directory words packing a 20-bit page id and a
  12-bit offset, the two `findNextSlotID` variants, free-space accounting,
  `insertData`, `parseMeta`, `initPage` and `dump` (rbf/rbfm.h and
  rbf/page.cc, module `RecordPage`);
- the paged file handle and manager: the open/closed state, the read, write
  and append counters stored in a header, and the page-count checks
  (rbf/pfm.cc, module `PagedFile`);
- the query layer: the `Filter` selection operator, the `TableScan` and
  `IndexScan` attribute renaming to `rel.attr`, and the grace-hash-join
  helpers `getHash` and `getPartitionFileName` (qe/qe.cc and qe/qe.h,
  module `Query`);
- the relation manager's catalog registry (rm/rm.cc, module `Catalog`);
- the logger (rbf/logger.h, module `Log`);
- the test runners rbf/run_test.py and rm/run_test.py (module `TestRun`).

Shared vocabulary lives in `Wrappers` and `Types`:

- `Outcome<T>` has four cases: `Returns(v)`, `Raises(message)` for a thrown
  exception, `FallsOff` for control reaching the end of a non-void function,
  and `Undefined` for undefined behaviour. Undefined behaviour covers a null
  dereference, an out-of-range container access and a signed `int` overflow.
- `Types` provides bytes, the fixed-width integer ranges with explicit
  wrap-around, little-endian `int`/`unsigned` layouts, `memcpy`, and
  `PAGE_SIZE` = 4096.

Objects whose methods update fields in place are classes:

| class | fields it holds |
|---|---|
| `BTree.BPlusTree` | a map from page id to node contents, and the root |
| `IxFile.IXFileHandle` | counters, free pages, cached pages, disk image |
| `RecordPage.Page` | buffer `array`, slot table, data end, free space |
| `PagedFile.FileHandle` | counters and the open file in a `FileStore` |
| `Query.Filter` | its input and condition |
| `Catalog.RelationManager` | the catalog state |
| `Log.Logger` | the logger state |
| `TestRun.Processes` | the processes started so far |

Expressions such as the key order, the directory-word encoding and the
file-name rules are functions. Each loop of the source is a method with loop
invariants, proved against a specification function.

Bugs in the source are kept as written. Examples:

- The three `createNode` checks at ix/ix.cc:426, 474 and 626 are inverted:
  - insert into an empty tree returns -1 and leaves the root null;
  - a root split returns -1 with `root_` unchanged;
  - bulkLoad with more than one leaf returns -1 after the first index node.
- `insert` and a single-leaf `bulkLoad` fall off the end without returning.
- `createTableImpl` returns -1 even after it registers a table.
- `createCatalog` registers "Tables" twice.

Because of the inverted checks, every tree the public operations can reach
has a single leaf as its root. The split, borrow and merge code for deeper
trees is still modelled and verified: its contracts only assume the
structural invariant `Valid`, not that the root is a leaf.

Where a header's documented contract and the code disagree, the model
follows the code:
- ix/ix.h:479-484 documents `find` as returning a node and an index; the
  code at ix/ix.cc:574-578 returns whether the key was found.
- ix/ix.h declares fields that ix/ix.cc does not use, such as a `MAX_ENTRY()`
  method. `MAX_ENTRY` is modelled as the field set to `2 * order` at
  ix/ix.cc:416.
- rbf/page.h and rbf/rbfm.h declare two different `Page` types. rbf/page.cc
  uses the member names of the one in rbf/rbfm.h, but departs from that
  header in two places, and the model follows rbf/page.cc in both:
  - rbf/rbfm.h:77 declares `records_offset` as a vector of page-id and
    offset pairs with 0xfff as the deleted marker (rbf/rbfm.h:130), while
    rbf/page.cc:31, 60-62 and 74 treat it as plain offsets with -1 for a
    deleted slot. The model's `recordsOffset` is a `seq<int>` with
    `DELETED == -1`.
  - rbf/rbfm.h:96 declares `insertData` with a third parameter `sid`,
    while rbf/page.cc:24 defines it with two. The model's `InsertData` has
    no `sid`.

Nothing here was executed: the only evidence is the Dafny verifier.

## Model

| member | source | states |
|---|---|---|
| IxKey.DecodeVal | ix/ix.cc:254-261 | the value field read from the front of the bytes has the requested type and takes 4 bytes for an int, 4 + len for a varchar; None when the read runs past the bytes or the varchar length is negative |
| IxKey.DecodeValEncodeVal | ix/ix.cc:254-261 | reading the value field back gives the value and its length, whatever follows |
| IxKey.FromRid | ix/ix.cc:252-263 | the key's value is read from the bytes as DecodeVal reads it, and its page and slot numbers are the record id's; None exactly when that read fails |
| IxKey.FromRidEncodeVal | ix/ix.cc:252-263 | given the bytes of a value, the key holds exactly that value and the record id |
| IxKey.FromRidAgreesWithDecode | ix/ix.cc:252-281 | where the layout decodes, both constructors read the same value, and the record-id key is the decoded key with the id's page and slot |
| IxKey.Decode | ix/ix.cc:265-281 | a decoded key has the requested attribute type and the value DecodeVal reads (its inverse property is DecodeEncode) |
| IxKey.DecodeEncode | ix/ix.cc:265-301 | decoding the bytes `serialize` wrote gives back the key (value, page number and slot number) whatever bytes follow |
| IxKey.EncodedSize | ix/ix.cc:283-301 | the layout is 4+4+4 bytes for an int key and 4+len+4+4 for a varchar key |
| IxKey.EncodeVal | ix/ix.cc:283-292 | the value field is 4 bytes for an int and 4 plus the length for a varchar |
| IxKey.Serialize | ix/ix.cc:283-301 | after the stepwise writes, `dst` holds the key's layout at `off` and is unchanged elsewhere |
| IxKey.Less | ix/ix.cc:316-327 | throws exactly when the key types differ, with the mismatch message |
| IxKey.Equal | ix/ix.cc:329-340 | throws exactly when the key types differ, with the mismatch message |
| IxKey.ComparisonIgnoresRid | ix/ix.cc:316-340 | `<` and `==` depend on the values only, never on page or slot number |
| IxKey.EqualIsValueEquality | ix/ix.cc:329-340 | for keys of one type, `==` holds exactly when the values are equal |
| IxKey.KeyTrichotomy | ix/ix.cc:316-340 | for keys of one type, exactly one of a<b, a==b, b<a holds |
| IxKey.LexLessWitness | ix/ix.cc:316-327 | the varchar order is the common-prefix lexicographic order on bytes |
| IxKey.LexLessIrreflexive | ix/ix.cc:316-327 | no byte string is below itself |
| IxKey.LexLessTransitive | ix/ix.cc:316-327 | the byte-string order is transitive |
| IxKey.LexLessTotal | ix/ix.cc:316-327 | two byte strings are equal or ordered one way |
| IxKey.ValLessIrreflexive | ix/ix.cc:316-327 | the value order is irreflexive |
| IxKey.ValLessTransitive | ix/ix.cc:316-327 | the value order is transitive |
| IxKey.ValLessTotal | ix/ix.cc:316-327 | two values of one type are equal or ordered one way |
| IxFile.GetPos32 | ix/ix.h:188-190 | the position as written is page-aligned, and equals (n+1)*PAGE_SIZE while that fits 32 bits |
| IxFile.GetPos32WrapsOntoHeader | ix/ix.h:188-190 | as written, page 0xFFFFF is placed at byte 0 (the header) and page 0x100000 on top of page 0 |
| IxFile.GetPosAgreesBelowWrap | ix/ix.h:188-190 | the written and the intended positions agree up to page 0xFFFFE |
| IxFile.GetPosRegionsDisjoint | ix/ix.h:188-190 | with `size_t` arithmetic, every page lies past the header page, is aligned, and distinct pages occupy disjoint regions |
| IxFile.IxPage.constructor | ix/ix.cc:242 | a new cached page has its id, no buffer and is not modified |
| IxFile.IXFileHandle.constructor | ix/ix.cc:61-65 | zero counters, no file open, no free or cached pages |
| IxFile.IXFileHandle.OpenFile | ix/ix.cc:77-117 | -1 and no change for a missing file, an open handle or a failed stream; otherwise the counters and free pages are loaded from the file |
| IxFile.IXFileHandle.CollectCounterValues | ix/ix.cc:70-75 | returns 0 and the three counters |
| IxFile.IXFileHandle.GetNumberOfPages | ix/ix.cc:201-203 | the append counter |
| IxFile.IXFileHandle.ReadPage | ix/ix.cc:165-173 | -1 and no change past the page count or on a closed file; otherwise the stored page and only the read counter grows |
| IxFile.IXFileHandle.WritePage | ix/ix.cc:175-183 | -1 and no change past the page count or on a closed file; otherwise the page is stored and only the write counter grows |
| IxFile.IXFileHandle.AppendPage | ix/ix.cc:185-199 | -1 on a closed file; otherwise a cached page whose id is the old append counter, which grows by one |
| IxFile.IXFileHandle.GetPage | ix/ix.cc:205-217 | -1 for a page id at or past the page count; otherwise the cached page, or a new cache entry read from disk |
| IxFile.IXFileHandle.RequestNewPage | ix/ix.cc:219-227 | with no free page, an appended page; otherwise a free page id is taken out of the free set and loaded as getPage does (the cached page, or a fresh page read from disk with one more read counted, or -1 and no page past the page count), with the write counter, open flag, meta flag and disk unchanged |
| IxFile.IXFileHandle.ReleasePage | ix/ix.cc:229-237 | -1 and no change for a page id already free; otherwise exactly that id joins the free set |
| IxFile.ReleasedPageIsReused | ix/ix.cc:219-237 | a released page is the one the next request hands out, and the page count stays the same |
| BTreeNode.BinarySearch | ix/ix.cc:658-670 | on sorted entries of the key's type, the loop stops at the lower-bound position; it throws on entries of another type |
| BTreeNode.LeafStep | ix/ix.cc:673-682 | the leaf tail throws exactly when the probed entry has another type |
| BTreeNode.LeafStepCorrect | ix/ix.cc:656-682 | on a sorted leaf, (i, true) with entry i equal to the key when present, else (number of entries below the key, false), which is the size when the key exceeds all |
| BTreeNode.ChildStep | ix/ix.cc:683-693 | the child index is at most the number of separators, and the step throws exactly on a type mismatch |
| BTreeNode.ChildStepCorrect | ix/ix.cc:683-693 | in an index node, the descent goes to the child indexed by the number of separators <= key |
| BTreeNode.NumLessSplits | ix/ix.cc:656-682 | in sorted entries, the entries below the key come first and all others are not below it |
| BTreeNode.PresentIffBlock | ix/ix.cc:673-675 | a key is present exactly when the block of entries equal to it is non-empty |
| BTreeNode.InsertAt | ix/ix.cc:441 | the element goes in at index i and everything else shifts by one |
| BTreeNode.RemoveAt | ix/ix.cc:497 | index i is removed and everything else is kept in order |
| BTreeNode.InsertRemoveInverse | ix/ix.cc:441 | removing what was inserted at i gives back the sequence |
| BTreeNode.InsertKeepsStrict | ix/ix.cc:436-441 | inserting an absent key at the search position keeps the entries strictly sorted |
| BTreeNode.RemoveKeepsStrict | ix/ix.cc:497 | removing an entry keeps the entries strictly sorted and leaves that key absent |
| BTreeNode.SplitLeaf | ix/ix.cc:455-458 | the left part keeps exactly M entries, the right part starts with the copied-up mid key, and they concatenate to the node |
| BTreeNode.SplitIndex | ix/ix.cc:459-466 | M entries and M+1 children stay, the mid key is pushed up, and the children from index M+1 on move to the new node |
| BTreeNode.SplitSeparates | ix/ix.cc:453-466 | both halves of a split of strictly sorted entries stay strictly sorted; in an index split the left keys are below the pushed-up mid key and the right keys above it; in a leaf split the left keys are below the copied-up first right key |
| BTreeNode.AddSeparator | ix/ix.cc:483-484 | the mid key goes in at i and the new child pid right after child i; removing them gives back the parent |
| BTreeNode.DropSeparator | ix/ix.cc:560-561 | a merge removes one separator and one right child pid, keeping the children before it |
| BTreeNode.AddDropInverse | ix/ix.cc:483-484 | dropping the separator just added gives back the node |
| BTreeNode.BorrowRightLeaf | ix/ix.cc:520-523 | the left leaf gains one entry, the right loses one, the in-order entries are unchanged and the parent separator becomes the right node's new first key |
| BTreeNode.BorrowLeftLeaf | ix/ix.cc:535-538 | the right leaf gains the left's last entry, the in-order entries are unchanged and the separator becomes the right node's new first key |
| BTreeNode.BorrowRightIndex | ix/ix.cc:525-529 | the separator rotates left through the parent: entries with separator and children are preserved in order |
| BTreeNode.BorrowLeftIndex | ix/ix.cc:540-544 | the separator rotates right through the parent: entries with separator and children are preserved in order |
| BTreeNode.Merge | ix/ix.cc:552-558 | the merged node holds the left entries, the separator for an index node, and the right entries; it links to the right node's right sibling |
| BTreeNode.BorrowLeafKeepsOrder | ix/ix.cc:518-548 | a leaf borrow keeps both leaves strictly sorted and every left key below the new separator |
| BTreeNode.InsertSorted | ix/ix.cc:589 | one insertion step of the sort adds exactly the element |
| BTreeNode.SortEntries | ix/ix.cc:589 | the sort is a permutation of its input |
| BTreeNode.SortEntriesSorted | ix/ix.cc:589 | the sort's result is sorted and keeps the key type |
| BTreeNode.ChunkSizes | ix/ix.cc:592-608 | the leaf sizes bulkLoad produces sum to the number of entries |
| BTreeNode.ChunkSizesSound | ix/ix.cc:592-608 | each leaf holds 1 to MAX_ENTRY entries; with more than MAX_ENTRY entries, each holds at least half of MAX_ENTRY because the last two are balanced; there is one leaf exactly when the input fits one |
| BTreeNode.FlattenChunk | ix/ix.cc:592-608 | the leaf chunks concatenate back to the sorted input |
| BTreeNode.LeafGroup | ix/ix.cc:594-605 | one loop step takes 1 to MAX_ENTRY entries, and is undefined exactly when the `int` sum `i + 2 * MAX_ENTRY` overflows |
| BTreeNode.LeafLayerSound | ix/ix.cc:580-608 | the leaves of bulkLoad concatenate to the sorted input and each holds between 1 and 2M entries (at least M with more than one leaf) |
| BTree.SearchLeaf | ix/ix.cc:656-682 | the search step in a leaf gives the lower-bound position and whether the key is there, or throws on a type mismatch |
| BTree.SearchIndex | ix/ix.cc:656-670 | the search step in an index node gives the child as ChildStep does, or throws |
| BTree.SplitLower | ix/ix.cc:455-469 | the split node keeps its first M entries (M+1 children) and links to the new node |
| BTree.SplitUpper | ix/ix.cc:455-468 | the new node keeps the upper part and inherits the old right link (cur -> new -> old right) |
| BTree.SplitKeepsShape | ix/ix.cc:450-469 | a split keeps every node's shape invariant (kind, child count = entries + 1, heights) |
| BTree.BorrowFromRight | ix/ix.cc:519-530 | only parent, left and right change, as BorrowRightLeaf or BorrowRightIndex say |
| BTree.BorrowFromLeft | ix/ix.cc:534-545 | only parent, left and right change, as BorrowLeftLeaf or BorrowLeftIndex say |
| BTree.MergeInto | ix/ix.cc:552-561 | left becomes the merge and the parent loses the separator and right child; nothing else changes |
| BTree.BorrowRightShape | ix/ix.cc:519-530 | borrowing from the right keeps the tree's shape invariant |
| BTree.BorrowLeftShape | ix/ix.cc:534-545 | borrowing from the left keeps the tree's shape invariant |
| BTree.MergeShape | ix/ix.cc:549-567 | merging keeps the shape invariant, both with the old root and with left as the new root |
| BTree.BPlusTree.constructor | ix/ix.cc:415-416 | an empty tree of order M with MAX_ENTRY = 2M |
| BTree.BPlusTree.CreateNode | ix/ix.cc:697-707 | a fresh page id gets an empty node of the requested kind; a failed page request changes no node and happens exactly on a closed file when no free page exists |
| BTree.BPlusTree.Search | ix/ix.cc:656-695 | the path grows by parent-child links down to a leaf, where the index and flag satisfy the leaf contract; a mismatch raises, an empty node is undefined |
| BTree.BPlusTree.SetLeafEntries | ix/ix.cc:441-443 | only that leaf's entries change |
| BTree.ReplaceDataKeepsOrder | ix/ix.cc:436-438 | replacing an entry's data keeps the entries strictly sorted and of the same key type |
| BTree.BPlusTree.Insert | ix/ix.cc:423-489 | on a null root -1, leaving the root null with exactly one new empty leaf in the node map, or undefined; on a sorted root leaf (duplicates allowed, as after a bulk load) a present key gets only the data of an entry holding it replaced, an absent one goes in at the search index, an overfull leaf is split (-1); on a strictly sorted root leaf the replaced entry is the one at the search index, and a completed insert keeps the root strictly sorted and of the key's type; the invariants and the MAX_ENTRY bound are kept |
| BTree.BPlusTree.InsertIntoLeaf | ix/ix.cc:436-486 | at the found index only the data changes; otherwise the entry is inserted there and overfull nodes are split to the root |
| BTree.BPlusTree.SplitNode | ix/ix.cc:450-469 | cur keeps M entries, a new node of the same kind takes the rest, and the link chain is cur -> new -> old right; a failed createNode is undefined |
| BTree.BPlusTree.AddToParent | ix/ix.cc:483-484 | the parent gains the separator and the new child as AddSeparator says; nothing else changes |
| BTree.BPlusTree.SplitRoot | ix/ix.cc:450-477 | the root split returns -1 (inverted check at ix/ix.cc:474) with the root unchanged, or is undefined |
| BTree.BPlusTree.SplitInner | ix/ix.cc:450-484 | a split below the root moves to the parent, which then holds at most one too many entries while all others are within MAX_ENTRY |
| BTree.BPlusTree.SplitUp | ix/ix.cc:444-486 | after the split loop no node holds more than MAX_ENTRY entries; it falls off the end, returns -1 at the root, or is undefined |
| BTree.BPlusTree.PickSiblings | ix/ix.cc:506-516 | node and its right neighbour, or its left neighbour and node when node is the last child; undefined exactly on a null right link or index -1 |
| BTree.BPlusTree.BorrowRight | ix/ix.cc:519-530 | the nodes become BorrowFromRight of the old nodes |
| BTree.BPlusTree.BorrowLeft | ix/ix.cc:534-545 | the nodes become BorrowFromLeft of the old nodes |
| BTree.BPlusTree.MergeStep | ix/ix.cc:549-567 | the nodes become MergeInto of the old ones; when the parent is left empty, left becomes the root and the loop stops (the assert at ix/ix.cc:564 is proved) |
| BTree.BPlusTree.Rebalance | ix/ix.cc:500-569 | one underflow step borrows when the sibling has more than M entries and merges otherwise, keeping the invariant |
| BTree.BPlusTree.RebalanceUp | ix/ix.cc:499-570 | the underflow loop keeps the invariant and does nothing at the root |
| BTree.BPlusTree.EraseFromLeaf | ix/ix.cc:496-570 | the entry leaves its leaf and the tree is rebalanced upward |
| BTree.BPlusTree.Erase | ix/ix.cc:491-572 | false with no change on an empty tree or an absent key; on a sorted root leaf (duplicates allowed) an entry holding a present key is removed (true), on a strictly sorted one the entry at the search index, and the root stays strictly sorted and of the key's type; a type mismatch raises |
| BTree.BPlusTree.BuildLeaves | ix/ix.cc:591-608 | the created leaves hold the chunks of the sorted input in order; it completes exactly when every chunk got a leaf |
| BTree.BPlusTree.LeafStep | ix/ix.cc:594-607 | one leaf-loop iteration adds one fresh leaf holding the next chunk, or changes nothing on a failed createNode |
| BTree.BPlusTree.AddLeaf | ix/ix.cc:594-607 | one new leaf receives the group LeafGroup picks; the `int` overflow of `i + MAX_ENTRY` is undefined |
| BTree.BPlusTree.SetRight | ix/ix.cc:352-354 | only that leaf's right link changes |
| BTree.BPlusTree.LinkLeaves | ix/ix.cc:617-619 | each leaf links to the next and no other node changes |
| BTree.BPlusTree.BulkLoad | ix/ix.cc:580-654 | -1 with no change on a non-empty tree or empty input; a mixed-type input raises; one chunk becomes the root leaf (falling off the end); more chunks give fresh linked leaves and -1 with the root null |
| BTree.BPlusTree.LoadSorted | ix/ix.cc:591-654 | one leaf becomes the root; with more leaves the result is -1 (inverted check at ix/ix.cc:626) |
| BTree.BPlusTree.LinkAndIndex | ix/ix.cc:614-627 | the leaf layer is linked left to right; the first index node returns -1 or is undefined |
| BTree.BPlusTree.Find | ix/ix.cc:574-578 | false on a null root; on a sorted root leaf, whether the key is present; true implies the key is in some node |
| RecordPage.DecodeDirectory | rbf/rbfm.h:164-170 | the page id fits 20 bits, the offset 12 bits, and together they rebuild the word |
| RecordPage.EncodeDirectory | rbf/rbfm.h:172-179 | throws exactly for a page id above 0xfffff; otherwise a word whose high 20 bits are the page id and low 12 the offset |
| RecordPage.DecodeEncode | rbf/rbfm.h:164-179 | decoding an encoded pair gives it back when the page id and offset fit their fields |
| RecordPage.EncodeDecode | rbf/rbfm.h:164-179 | every word is the encoding of its decoding |
| RecordPage.EncodeSpillsLargeOffset | rbf/rbfm.h:172-179 | an offset of 4096 spills into the page id |
| RecordPage.EntryDirectoryOverheadLength | rbf/rbfm.h:321-323 | 2*(n+1) for small n, narrowed to `short` otherwise, and undefined for the largest `int` |
| RecordPage.FreeSlotOrder | rbf/rbfm.h:186-188 | the order is strict and weak, compares sizes only, and ignores the page |
| RecordPage.FirstDeleted | rbf/page.cc:72-77 | the smallest index holding the deleted marker, or the count when there is none |
| RecordPage.InsertAppendsSlot | rbf/page.cc:27-31 | with no deleted slot, insertData appends the offset as a new slot |
| RecordPage.InsertReusesFirstDeleted | rbf/page.cc:32-35 | otherwise the first deleted slot gets the offset; the length is kept and one deleted slot fewer remains |
| RecordPage.InsertSlotWraps | rbf/page.cc:27-35 | with 2^16 live slots the 16-bit SID wraps and slot 0 is overwritten |
| RecordPage.Parse | rbf/page.cc:50-70 | the meta parse is undefined when the size table starts before the buffer or a sum overflows `int`; otherwise the offsets are appended and data end and free space are set |
| RecordPage.ParsedOffsets | rbf/page.cc:58-66 | one offset per size; a deleted size gives -1 |
| RecordPage.ParsedRecordsAdjacent | rbf/page.cc:58-67 | live records are packed from 0: each starts where the previous live one ends, and the data end is the end of the last |
| RecordPage.ParseOutcome | rbf/page.cc:50-70 | once the running sums fit, the parse is defined exactly when `PAGE_SIZE - data_end` fits, and free space is PAGE_SIZE - data_end - 4*(1 + slots) |
| RecordPage.ParseAfterInit | rbf/page.cc:88-91 | after initPage, parsing adds no slots, the data end is 0 and the free space is PAGE_SIZE - 4*(1 + known slots) |
| RecordPage.ParseFreshPage | rbf/page.cc:50-91 | an initialised page parsed into an empty table gives 0 slots, data end 0 and free space PAGE_SIZE - 4 |
| RecordPage.Page.constructor | rbf/page.cc:7 | the page id, no buffer, an empty slot table |
| RecordPage.Page.FindNextSlotIdInSet | rbf/rbfm.h:153-158 | with no invalid slot, the slot count and no change; otherwise a member of the invalid set, and exactly that member is removed |
| RecordPage.Page.MaintainFreeSpace | rbf/rbfm.h:160-162 | free space is the real free space less 4 when no slot can be reused, the real free space otherwise |
| RecordPage.Page.FindNextSlotId | rbf/page.cc:72-77 | the first deleted index (or the count) as a SID; undefined when the `int` counter overflows |
| RecordPage.Page.InsertData | rbf/page.cc:24-39 | the bytes land at the old data end and nothing else changes; a new slot costs size+4 bytes and a reused one size; the result is (pid, sid) |
| RecordPage.Page.ParseMeta | rbf/page.cc:50-70 | the slot offsets, data end and free space become those of Parse |
| RecordPage.Page.InitPage | rbf/page.cc:88-91 | the last four bytes become the slot count 0; nothing else changes |
| RecordPage.Page.FreeMem | rbf/page.cc:19-22 | the buffer is released |
| RecordPage.Page.Dump | rbf/page.cc:41-48 | throws with no buffer and changes nothing; otherwise the page is written through the handle (one more write counted when the page number is in range and the file open) and the buffer released, with the slot directory, free space and invalid-slot set kept and the handle's file and other counters unchanged |
| RecordPage.ScanSizes | rbf/page.cc:54-66 | the loop yields ParsedOffsets and the live sum, or undefined on `int` overflow |
| PagedFile.HeaderRoundTrip | rbf/pfm.cc:80-84 | reading the header back gives the counters last written, whatever the handle held |
| PagedFile.ReadCounter | rbf/pfm.cc:80-84 | a full read gives the stored counter and an empty one keeps the old value |
| PagedFile.FileHandle.constructor | rbf/pfm.cc:55-59 | zero counters, closed |
| PagedFile.FileHandle.OpenFile | rbf/pfm.cc:63-86 | -1 and no change for a missing file, an open handle or a failed stream; otherwise open with the counters from the header |
| PagedFile.FileHandle.UpdateCounterToFile | rbf/pfm.cc:100-108 | -1 when closed; otherwise the counters are written over the header |
| PagedFile.FileHandle.CloseFile | rbf/pfm.cc:88-98 | -1 when closed; otherwise the counters are flushed and the handle closes |
| PagedFile.FileHandle.CreateFile | rbf/pfm.cc:110-127 | -1 when the file exists, the handle is open or the stream fails; otherwise a new file whose header holds the handle's counters |
| PagedFile.FileHandle.GetNumberOfPages | rbf/pfm.cc:159-161 | the append counter |
| PagedFile.FileHandle.ReadPage | rbf/pfm.cc:129-137 | -1 and no change past the page count or when closed; otherwise the page and only the read counter grows |
| PagedFile.FileHandle.WritePage | rbf/pfm.cc:139-146 | -1 and no change past the page count or when closed; otherwise the page is stored and only the write counter grows |
| PagedFile.FileHandle.AppendPage | rbf/pfm.cc:148-157 | -1 when closed; otherwise the page is stored at the old page count, which grows by exactly 1 |
| PagedFile.FileHandle.CollectCounterValues | rbf/pfm.cc:163-168 | returns 0 and the three counters and changes nothing |
| PagedFile.FileHandle.WriteRecord | rbf/pfm.cc:170-178 | -1 when closed; otherwise the first `size` bytes land at the position |
| PagedFile.ReopenRestoresCounters | rbf/pfm.cc:63-108 | close followed by open of the same file restores all three counters |
| PagedFile.PagedFileManager.CreateFile | rbf/pfm.cc:30-33 | -1 for an existing file; a new file has three zero counters |
| PagedFile.PagedFileManager.DestroyFile | rbf/pfm.cc:35-41 | -1 for a missing file; otherwise it is removed |
| PagedFile.NewFileHasNoPages | rbf/pfm.cc:30-33 | a new file, once opened, has zero counters and so no pages |
| Query.TupleSource.GetNextTuple | qe/qe.h:56-64 | the next input tuple and 0, or QE_EOF at the end |
| Query.FindAttr | qe/qe.cc:10-17 | the index of the first attribute with the name, or None when no attribute has it |
| Query.IndicatorBytes | qe/qe.cc:32 | ceil(n/8) |
| Query.FixedFieldOffset | qe/qe.cc:39-49 | with no varchar before k, the offset is the indicator bytes plus the lengths of earlier non-null fields |
| Query.NullFieldsTakeNoBytes | qe/qe.cc:39-49 | null fields add nothing to the offset |
| Query.ConditionOffset | qe/qe.cc:39-49 | the pointer loop computes FieldOffset |
| Query.UndefinedStays | qe/qe.cc:39-49 | once a field read runs past the tuple, later offsets stay undefined |
| Query.Accept | qe/qe.cc:28-49 | NO_OP accepts every tuple; otherwise an unset field index is undefined and a null condition field rejects |
| Query.NextMatch | qe/qe.cc:27-57 | the first accepted tuple from the position on, all skipped tuples rejected |
| Query.SelectedIsKeep | qe/qe.cc:27-57 | repeated calls return exactly the accepted tuples of the remaining input |
| Query.KeepIsSubsequence | qe/qe.cc:28-55 | the returned tuples form an order-preserving subsequence of the input, each accepted |
| Query.Filter.constructor | qe/qe.cc:4-23 | an attribute right-hand side leaves no attributes and no index; otherwise the input's attributes and the index of the first attribute named lhsAttr |
| Query.Filter.GetNextTuple | qe/qe.cc:27-57 | 0 with the next accepted tuple, or QE_EOF once the input is exhausted, as NextMatch says; at QE_EOF the buffer holds the last tuple pulled, or is untouched when none was |
| Query.Filter.GetAttributes | qe/qe.cc:59-61 | exactly the input's attributes |
| Query.AttrNames | qe/qe.h:84-87 | one name per attribute, in order |
| Query.Qualify | qe/qe.h:121-126 | the name `rel + "." + name`, with type and length unchanged |
| Query.QualifyAll | qe/qe.h:116-127 | each attribute renamed by Qualify, same count |
| Query.QualifyRoundTrip | qe/qe.h:116-127 | stripping the prefix gives back the attribute |
| Query.TableScan.constructor | qe/qe.h:76-95 | the scan is on the real table; tableName becomes the alias when there is one |
| Query.TableScan.GetAttributes | qe/qe.h:116-127 | the attributes renamed under tableName (the alias when given) |
| Query.EntryScan.GetNextEntry | qe/qe.h:171-172 | the next index entry, or QE_EOF at the end |
| Query.IndexScan.constructor | qe/qe.h:145-161 | the index scan is on the real table; tableName becomes the alias when given |
| Query.IndexScan.GetNextTuple | qe/qe.h:171-177 | readTuple is called only when getNextEntry returns 0; otherwise that code is returned |
| Query.IndexScan.GetAttributes | qe/qe.h:179-191 | the attributes renamed under tableName |
| Query.GetHash | qe/qe.h:342-344 | undefined exactly for zero partitions; in [0, n) when n fits `int` |
| Query.GetHashNegativeBucket | qe/qe.h:342-344 | with more than 2^31 partitions the `int` result can be negative |
| Query.DigitsRoundTrip | qe/qe.h:346-351 | the decimal digits of n read back as n |
| Query.IntStringRoundTrip | qe/qe.h:346-351 | `to_string` is injective: the decimal form reads back as the number |
| Query.PartitionFileName | qe/qe.h:346-351 | undefined exactly when the side's attribute index is out of range; otherwise "left_"/"right_" + name + "_" + number |
| Query.PartitionFilesDistinct | qe/qe.h:346-351 | two partitions get the same file name only when side and number agree |
| Catalog.TableFileName | rm/rm.cc:126-130 | the name + ".db", and ".catalog" after it for a system table |
| Catalog.TableFileNameInjective | rm/rm.cc:126-130 | different tables of one kind get different files |
| Catalog.UserAndSystemFilesDiffer | rm/rm.cc:126-130 | a user table's file never has a system table's file name |
| Catalog.RelationManager.CreateTableImpl | rm/rm.cc:119-136 | a duplicate changes nothing; otherwise exactly the table's entry is added and a system file joins the system set; always -1 |
| Catalog.RelationManager.CreateCatalog | rm/rm.cc:18-51 | the catalog file is created, "Tables" registered once as a system table (the second attempt is a duplicate); always 0 |
| Catalog.RelationManager.DeleteCatalog | rm/rm.cc:53-57 | -1 with no change when the check fails; otherwise the catalog file is removed and 0 |
| Catalog.RelationManager.CreateTable | rm/rm.cc:59-62 | -1 always; a user-table registration when the check passes |
| Catalog.RelationManager.ReadTuple | rm/rm.cc:84-86 | -1 when the check fails; otherwise control falls off the end |
| Catalog.RelationManager.Scan | rm/rm.cc:97-105 | -1 on every path |
| Catalog.RelationManager.DropAttribute | rm/rm.cc:107-111 | -1 on every path |
| Catalog.RelationManager.AddAttribute | rm/rm.cc:113-117 | -1 on every path |
| Log.LastSeparator | rbf/logger.h:42-44 | the last `/` or `\` position, or -1, with no separator after it |
| Log.FileName | rbf/logger.h:42-44 | a suffix with no separator, preceded by a separator unless it is the whole path |
| Log.FileNameIdempotent | rbf/logger.h:42-44 | applying the rule twice changes nothing |
| Log.LogConfig.SetGlobalLogLevel | rbf/logger.h:75 | the global level becomes the given one |
| Log.LogConfig.GetGlobalLogLevel | rbf/logger.h:77 | the global level |
| Log.PutStep | rbf/logger.h:61-73 | gated: nothing emitted and no change; otherwise the header once when closed, then the value, and the logger is open |
| Log.PutAllGated | rbf/logger.h:63 | a gated statement emits nothing and changes nothing |
| Log.PutAllOpened | rbf/logger.h:64-71 | once open, each value is emitted alone |
| Log.HeaderOnceFirst | rbf/logger.h:64-71 | a whole statement emits one header first, then the values in order |
| Log.CloseOutput | rbf/logger.h:57-59 | a newline exactly when the logger is open |
| Log.StatementOutput | rbf/logger.h:51-73 | construction through destruction emits nothing when gated or given no value, otherwise one header, the values in order and a newline |
| Log.Logger.constructor | rbf/logger.h:51-55 | a logger starts closed with the position given |
| Log.Logger.Put | rbf/logger.h:61-73 | the state and the console output advance as PutStep says |
| Log.Logger.Destroy | rbf/logger.h:57-59 | the console gains CloseOutput of the state |
| Log.JoinLength | rbf/logger.h:81-90 | the joined text is the items plus two characters per separator |
| Log.PrintVector | rbf/logger.h:81-90 | "[" + items joined by ", " + "]\n", and "[]\n" for an empty vector |
| TestRun.Processes.Run | rbf/run_test.py:19-24 | the command is recorded as started and its status is the oracle's |
| TestRun.TestPhasePrefix | rbf/run_test.py:23-24 | the invoked tests are a prefix of the list; all of it when nothing failed |
| TestRun.TestPhaseStopsAtFailure | rbf/run_test.py:23-24 | every invoked test but the last passed, and a failure is the last one invoked |
| TestRun.TestPhaseRaisesIffFailure | rbf/run_test.py:23-24 | the loop raises exactly when some test fails |
| TestRun.RunTests | rbf/run_test.py:23-24 | the loop starts and reports what TestPhase says |
| TestRun.RunRbf | rbf/run_test.py:19-26 | the processes started and the exception raised are RbfScript of the oracle |
| TestRun.RunRbfList | rbf/run_test.py:19-26 | the same for any test list |
| TestRun.RunRm | rm/run_test.py:23-27 | the processes started and the exception raised are RmScript of the oracle |
| TestRun.RunRmList | rm/run_test.py:23-27 | the same for any test list |
| TestRun.TestLists | rm/run_test.py:3-22 | 15 and 20 test programs; create_tables at positions 0 and 2 and delete_tables at 1 |
| TestRun.BuildBeforeTests | rbf/run_test.py:19-20 | clean and then the build run before any test, `make -j` for rbf and `make` for rm |
| TestRun.RbfBuildFailureStopsEarly | rbf/run_test.py:19-22 | a failing clean or build raises, with no test and no final clean |
| TestRun.RbfCleansOnceAfterBuild | rbf/run_test.py:22-26 | after a good build, the final clean runs exactly once, last |
| TestRun.RbfAllPass | rbf/run_test.py:3-26 | with everything passing, every test runs once in order, then clean |
| TestRun.RbfFailFast | rbf/run_test.py:22-26 | the tests up to the first failure run, then clean; a failing clean replaces the exception |
| TestRun.RmNoFinalClean | rm/run_test.py:23-27 | no clean follows the build on any path |
| TestRun.RmAllPass | rm/run_test.py:3-27 | with everything passing, all 20 entries run once in order and nothing is raised |
| TestRun.FirstFailureStops | rm/run_test.py:26-27 | the invoked tests are the prefix up to and including the first failure |
| TestRun.RmFailFast | rm/run_test.py:23-27 | the tests up to the first failure run and that failure is raised |

## Left out

- File streams, `malloc`/`free`/`shared_ptr` and console output are not modelled. Files are an abstract map from name to contents, and the logger writes abstract emissions.
- After `getPos`, a page of index file is addressed by its number: the index disk image is a map from page number, which is the corrected layout of the Findings table below.
- `TypeReal` keys and every floating-point value are out of scope. Key operations require a `TypeInt` or `TypeVarChar` type.
- `IXFileHandle::closeFile` and `createFile` (ix/ix.cc:119-163) are not modelled, because they only stream counters and pages. The loaded free-page list is taken as given.
- `Node`'s on-disk constructor and `getNode` are not modelled: nodes live in the tree's map.
- `BTree.BPlusTree.CreateNode`: a page id of 2^31 or more is treated as undefined instead of being narrowed to `int`.
- The occupancy lower bound of ix/ix.h is not proved for insert and erase. Reachable trees have a single root leaf, and the root is exempt. For bulkLoad the bound is proved as `BTreeNode.ChunkSizesSound`.
- `BTree.BPlusTree.constructor`: requires `1 <= order` and `2 * order < 2^31`, while ix/ix.cc:415-416 accepts any `int`. ix/ix.cc:370 and ix/ix.h:425 define a node's occupancy as [M, 2M], which is only meaningful for an order of at least 1. With order 0, `MAX_ENTRY` is 0 and the bulkLoad leaf loop (ix/ix.cc:593-608) creates nodes without ever advancing; with a negative order, `entries.begin() + j` lies before `begin() + i`, which is undefined behaviour. The second bound rules out the signed overflow of `order * 2`. The model's termination of `BuildLeaves` rests on these bounds.
- `BTree.BPlusTree.BulkLoad`: the model sorts by insertion (`BTreeNode.SortEntries`), so the order among equal keys may differ from the one `std::sort` leaves. The separators of upper index layers, which the inverted check at ix/ix.cc:626 makes unreachable, are not modelled.
- `BTree.BPlusTree.BuildLeaves` and `AddLeaf` state when their `int` sums overflow, but not the exact set of inputs that make the whole loop undefined.
- `PagedFile.PagedFileManager.DestroyFile`: `remove` is taken to succeed.
- The byte layout of pages inside a paged file is abstract. The stream error state after a short header read is not modelled.
- `Page::load` and `ToString` are left out (I/O and printing).
- `RecordPage.Page.constructor` initialises the fields rbf/page.cc:7 leaves uninitialised.
- `RecordPage.Page.ParseMeta` appends the scanned offsets once, after the loop, rather than one `push_back` at a time. The result is the same.
- `Query.Filter.GetNextTuple`: reading past a tuple's bytes yields Undefined. `cmpAttr`, `parseNullIndicator`, `KeyHash` and `checkCatalog` are not shown, so they appear as parameters.
- `setIterator`, `Project`, and the bodies of `BNLJoin`, `INLJoin`, `GHJoin` and `Aggregate` are not modelled: they are declarations without definitions, or outside the modelled core.
- The RM index iterator is a given sequence of results. `rm.h`'s declarations that conflict with `rm.cc` are ignored.
- `Log.Logger.Put`: a value is given by its printed form. `PutAll` holds the global level fixed during one statement. The ANSI prefix, `setw` and the header's text formatting are abstract. The `DB_TRACE` macro names a level that does not exist (rbf/logger.h:92), so it is not modelled.
- run_test.py: processes are an oracle from (start index, command) to exit status. A raised exception is the returned `Option<Command>` naming the failing command.

## Findings

| source | as written | input that shows it | evidently intended | confidence | as-written member | corrected member |
|---|---|---|---|---|---|---|
| ix/ix.h:188-190 | `getPos` computes `(page_num + 1) * PAGE_SIZE` in 32-bit `unsigned` arithmetic before widening to `size_t` | page number 0xFFFFF gives position 0, overwriting the header page; 0x100000 lands on page 0 | the product computed in `size_t`, so each page lies past the header in its own region | medium (not executed) | IxFile.GetPos32, IxFile.GetPos32WrapsOntoHeader | IxFile.GetPos, IxFile.GetPosRegionsDisjoint |
