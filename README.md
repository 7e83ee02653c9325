# bboxdb storage and request core in Dafny

This project models the storage core of bboxdb, a distributed store for
multi-dimensional data, and proves properties of the model. It covers:

- **SSTable files.**
  - File names are derived from the table name and a sequence number (`SSTableHelper`).
  - A reader validates the magic bytes of a table file, decodes tuples record by record, and scans a sorted file for a key (`SSTableReader`).
- **Compaction.** The merge of several sorted SSTables into one (`SSTableCompactor`). The newest version of every key wins, and a major compaction drops deletion markers.
- **The R-tree index builder** (`RTreeSpatialIndexBuilder`):
  - insertion with descent to a leaf and refresh of the covering boxes;
  - node splits that distribute the elements of a quadratic split;
  - upward adjustment;
  - serialisation of the tree to a stream.
- **The storage registry** (`StorageRegistry`). It maps tables to storage directories, picks the least used directory for a new table, caches one storage manager per table and deletes tables.
- **The CPU-core placement strategy.** It walks the candidate systems in list order. The first system with no placed instance is taken at once. Otherwise, among the systems with a known core count, the one with the most CPU cores per placed instance wins, the earlier one on a tie.
- **Two network request codecs.**
  - Query by bounding box: encode, decode, and rejection of malformed packages.
  - Delete table: encode, decode, `equals` and `hashCode`.
- **The lock entry of the server's lock manager.**

**How the source is rendered.** Each Java class keeps its own form:

- Objects whose fields change become Dafny classes with `modifies` clauses. These are the reader, the compactor and its writer, the builder, the registry and the byte buffers.
- Loops become methods with loop invariants.
- Each method is proved against a function that states what it computes: `ScanFrom`, `Lowest`, `Consume`, `Descend`, `Refresh`, `SplitNodes`, `Distribute`, `NodeStream`, `Usage`, `Decode` and the like.
- The properties the system relies on are lemmas about those functions:
  - a sorted table file answers a lookup exactly;
  - compaction output is the unique newest-wins merge;
  - splits keep the tree well formed;
  - decode inverts encode.

**Java behaviour modelled explicitly.**

- Integers are unbounded, so Java's fixed widths are written out where they matter:
  - the signed 16- and 32-bit length fields of the codecs;
  - the 32-bit sequence numbers parsed by `Integer.parseInt`;
  - `int` division that truncates toward zero in the placement strategy.
- Java exceptions are values of a `Result` datatype. Each error path returns the exception the source throws.

Collaborators whose source is not part of this model are parameters with fixed, uninterpreted behaviour:

- the bounding box geometry (`cover`, `enlargement`, seed picking);
- the package header codec;
- the outcome of starting a storage manager (`SSTableManager.init`), a flag passed to `getSSTableManager`;
- the room of an output stream, which stands for a full disk or a peer that stops reading.

## Model

| member | source | states |
|---|---|---|
| Strings.ParseInt | src/main/java/de/fernunihagen/dna/scalephant/storage/sstable/SSTableHelper.java:41 | `Integer.parseInt`: a result is always a 32-bit value; every failure is a `NumberFormatException` |
| Strings.ParseIntToString | src/main/java/de/fernunihagen/dna/scalephant/storage/sstable/SSTableHelper.java:41 | parsing the decimal text of any 32-bit integer gives it back |
| Strings.IntToStringInjective | src/main/java/de/fernunihagen/dna/scalephant/storage/sstable/SSTableHelper.java:41 | two 32-bit integers with the same decimal text are equal, so sequence numbers name files uniquely |
| Strings.ParseIntNeedsFinalDigit | src/main/java/de/fernunihagen/dna/scalephant/storage/sstable/SSTableHelper.java:41 | text not ending in a digit is rejected with `NumberFormatException` |
| Strings.ReplaceAbsent | src/main/java/de/fernunihagen/dna/scalephant/storage/sstable/SSTableHelper.java:36-39 | `String.replace` leaves a string unchanged when a character of the pattern does not occur in it |
| Strings.ReplaceSkipsPrefix | src/main/java/de/fernunihagen/dna/scalephant/storage/sstable/SSTableHelper.java:36-39 | replacing in `d + t` leaves a prefix `d` that cannot start the pattern untouched |
| Strings.ReplaceLeading | src/main/java/de/fernunihagen/dna/scalephant/storage/sstable/SSTableHelper.java:36-39 | a leading occurrence of the pattern is replaced and replacement continues after it |
| Strings.LastSegment | src/main/java/de/fernunihagen/dna/jkn/scalephant/storage/sstable/SSTableReader.java:225-238 | the file's local name: it has no separator, is a suffix of the path, and follows the last separator |
| Strings.LastSegmentAfterSeparator | src/main/java/de/fernunihagen/dna/jkn/scalephant/storage/sstable/SSTableReader.java:225-238 | the local name of `dir/name` is `name` when `name` has no separator |
| SSTableHelper.ExtractSequenceFromFilename | src/main/java/de/fernunihagen/dna/scalephant/storage/sstable/SSTableHelper.java:33-47 | the sequence number of a file name: always a 32-bit value, every failure a `StorageManagerException` |
| SSTableHelper.DataFilenameRoundTrip | src/main/java/de/fernunihagen/dna/scalephant/storage/sstable/SSTableHelper.java:33-47 | the sequence number extracted from the local name of `getSSTableFilename(dir, name, n)` is `n` |
| SSTableHelper.IndexFilenameRoundTrip | src/main/java/de/fernunihagen/dna/scalephant/storage/sstable/SSTableHelper.java:33-47 | the same round trip holds for the index file name, whose suffix the helper also strips |
| SSTableHelper.ExtractRejectsNonNumber | src/main/java/de/fernunihagen/dna/scalephant/storage/sstable/SSTableHelper.java:33-47 | a file name whose number part does not start with a digit or sign is rejected with `StorageManagerException` |
| SSTableHelper.InTableDir | src/main/java/de/fernunihagen/dna/scalephant/storage/sstable/SSTableHelper.java:57-91 | every file of a table lies in the table directory: `<dir>/<fullname>/<prefix><fullname>_<n><suffix>` |
| SSTableHelper.LastSegmentIsLocalName | src/main/java/de/fernunihagen/dna/scalephant/storage/sstable/SSTableHelper.java:71-91 | the local name of a table file is the part after the table directory |
| SSTableHelper.CompanionFilesDistinct | src/main/java/de/fernunihagen/dna/scalephant/storage/sstable/SSTableHelper.java:88-130 | data, index, Bloom filter and metadata file names share the base name and are pairwise distinct |
| SSTableHelper.DistinctNumbersDistinctNames | src/main/java/de/fernunihagen/dna/scalephant/storage/sstable/SSTableHelper.java:71-130 | different 32-bit sequence numbers give different file names of each kind |
| Entities.CompareKeys | src/main/java/de/fernunihagen/dna/jkn/scalephant/storage/sstable/SSTableReader.java:99-105 | `String.compareTo` reduced to its sign: zero exactly for equal keys |
| Entities.CompareKeysAntisymmetric | src/main/java/de/fernunihagen/dna/jkn/scalephant/storage/sstable/SSTableReader.java:99-105 | swapping the keys negates the comparison |
| Entities.KeyLessTransitive | src/main/java/de/fernunihagen/dna/jkn/scalephant/storage/sstable/SSTableReader.java:99-105 | the key order is transitive |
| Entities.Compare | src/main/java/org/bboxdb/storage/sstable/compact/SSTableCompactor.java:175-179 | tuple order used by the compactor: by key, and for equal keys the newer timestamp first |
| Entities.CompareTransitive | src/main/java/org/bboxdb/storage/sstable/compact/SSTableCompactor.java:175-179 | the tuple order is transitive, strictly where either step is strict |
| Entities.CompareAntisymmetric | src/main/java/org/bboxdb/storage/sstable/compact/SSTableCompactor.java:175-179 | `a > b` exactly when `b < a` |
| SSTableReader.ReadInto | src/main/java/de/fernunihagen/dna/jkn/scalephant/storage/sstable/SSTableReader.java:152-178 | a `read` into a buffer: the bytes at the position when enough remain, and the position advances by the buffer length |
| SSTableReader.ReadIntoFits | src/main/java/de/fernunihagen/dna/jkn/scalephant/storage/sstable/SSTableReader.java:152-178 | reading where a piece is stored returns exactly that piece |
| SSTableReader.DecodeEncoded | src/main/java/de/fernunihagen/dna/jkn/scalephant/storage/sstable/SSTableReader.java:152-178 | `decodeTuple` inverts the record layout: a stored record decodes to its tuple and the position moves past it |
| SSTableReader.HeaderOfEncoded | src/main/java/de/fernunihagen/dna/jkn/scalephant/storage/sstable/SSTableReader.java:152-178 | the four length and timestamp fields read back from a stored record are the record's own |
| SSTableReader.SignedHeader | src/main/java/de/fernunihagen/dna/jkn/scalephant/storage/sstable/SSTableReader.java:152-178 | the header fields of an encodable tuple decode to its key, box and data lengths and its timestamp |
| SSTableReader.BodyOfEncoded | src/main/java/de/fernunihagen/dna/jkn/scalephant/storage/sstable/SSTableReader.java:152-178 | after the header, key, box and data are read back exactly |
| SSTableReader.ScanStep | src/main/java/de/fernunihagen/dna/jkn/scalephant/storage/sstable/SSTableReader.java:87-113 | one scan step: stop with no tuple past the key, return the tuple on the key, otherwise continue after it |
| SSTableReader.ScanFirst | src/main/java/de/fernunihagen/dna/jkn/scalephant/storage/sstable/SSTableReader.java:87-113 | the same step for a stored record: the result depends only on the record's key |
| SSTableReader.ScanSorted | src/main/java/de/fernunihagen/dna/jkn/scalephant/storage/sstable/SSTableReader.java:87-113 | scanning records in ascending key order returns exactly the lookup of the key in them |
| SSTableReader.LookupInTableFile | src/main/java/de/fernunihagen/dna/jkn/scalephant/storage/sstable/SSTableReader.java:87-113 | in a table file (magic bytes then ascending records) `scanForTuple` finds a tuple with the key if one exists, and otherwise reports none |
| SSTableReader.AboveFirstMissing | src/main/java/de/fernunihagen/dna/jkn/scalephant/storage/sstable/SSTableReader.java:99-105 | a key below the first of an ascending table is not in it, so stopping early is correct |
| SSTableReader.Lookup | src/main/java/de/fernunihagen/dna/jkn/scalephant/storage/sstable/SSTableReader.java:87-113 | the reference answer: a tuple of the table with the key, or none when no tuple has it |
| SSTableReader.MagicCheck | src/main/java/de/fernunihagen/dna/jkn/scalephant/storage/sstable/SSTableReader.java:194-199 | a file at least as long as the magic bytes passes the check exactly when it starts with them |
| SSTableReader.SequenceFromFilename | src/main/java/de/fernunihagen/dna/jkn/scalephant/storage/sstable/SSTableReader.java:225-238 | the reader's own extraction: a 32-bit value or a `StorageManagerException` |
| SSTableReader.SequenceFromDataFilename | src/main/java/de/fernunihagen/dna/jkn/scalephant/storage/sstable/SSTableReader.java:225-238 | the reader recovers `n` from the data file name of table number `n` |
| SSTableReader.SequenceFromIndexFilenameFails | src/main/java/de/fernunihagen/dna/jkn/scalephant/storage/sstable/SSTableReader.java:225-238 | unlike the helper, the reader rejects index file names, since it does not strip the index suffix |
| SSTableReader.SSTableReader.Open | src/main/java/de/fernunihagen/dna/jkn/scalephant/storage/sstable/SSTableReader.java:64-70 | construction fails exactly when the file name yields no sequence number; otherwise the reader holds that number, with no open stream |
| SSTableReader.SSTableReader.Read | src/main/java/de/fernunihagen/dna/jkn/scalephant/storage/sstable/SSTableReader.java:152-178 | a read fills the buffer and moves the position as `ReadInto` says |
| SSTableReader.SSTableReader.ReadHeaderFields | src/main/java/de/fernunihagen/dna/jkn/scalephant/storage/sstable/SSTableReader.java:153-156 | the four header buffers hold the next 18 bytes and the position moves past them |
| SSTableReader.SSTableReader.ReadFresh | src/main/java/de/fernunihagen/dna/jkn/scalephant/storage/sstable/SSTableReader.java:163-170 | a negative length fails with `NegativeArraySizeException` before reading; otherwise a fresh buffer of that length is read |
| SSTableReader.SSTableReader.DecodeTuple | src/main/java/de/fernunihagen/dna/jkn/scalephant/storage/sstable/SSTableReader.java:152-178 | the decoded tuple, the new position and the header buffers are those of `DecodeAt` |
| SSTableReader.SSTableReader.ScanForTuple | src/main/java/de/fernunihagen/dna/jkn/scalephant/storage/sstable/SSTableReader.java:87-113 | without an open stream: `NullPointerException`, nothing moves; otherwise the result of `ScanFrom` after the magic bytes |
| SSTableReader.SSTableReader.GetTupleAtPosition | src/main/java/de/fernunihagen/dna/jkn/scalephant/storage/sstable/SSTableReader.java:122-133 | without a stream: `NullPointerException`; a negative position: `IllegalArgumentException`; otherwise the tuple decoded there |
| SSTableReader.SSTableReader.OpenAndValidateFile | src/main/java/de/fernunihagen/dna/jkn/scalephant/storage/sstable/SSTableReader.java:186-208 | a missing file fails with `StorageManagerException`; otherwise the stream is open past the magic bytes and succeeds exactly when they match |
| SSTableReader.SSTableReader.Init | src/main/java/de/fernunihagen/dna/jkn/scalephant/storage/sstable/SSTableReader.java:253-259 | an existing file is opened and positioned after the magic bytes; a missing one leaves the reader as it was |
| SSTableCompactor.LowestIsFirstMinimal | src/main/java/org/bboxdb/storage/sstable/compact/SSTableCompactor.java:157-183 | the lowest tuple exists exactly when some slot is filled; it is the first slot whose tuple no other filled slot precedes |
| SSTableCompactor.FirstMinimalUnique | src/main/java/org/bboxdb/storage/sstable/compact/SSTableCompactor.java:157-183 | that slot and tuple are unique |
| SSTableCompactor.FindInAscending | src/main/java/org/bboxdb/storage/sstable/compact/SSTableCompactor.java:157-183 | in a table of strictly ascending keys, a key's lookup is its one position |
| SSTableCompactor.WinnerIsNewest | src/main/java/org/bboxdb/storage/sstable/compact/SSTableCompactor.java:104-120 | the merged tuple for a key exists exactly when some input holds the key, and carries the largest timestamp, taken from the first input holding it |
| SSTableCompactor.MergedUnique | src/main/java/org/bboxdb/storage/sstable/compact/SSTableCompactor.java:81-129 | the merge specification determines the output: two outputs satisfying it are equal |
| SSTableCompactor.CompactingOneTable | src/main/java/org/bboxdb/storage/sstable/compact/SSTableCompactor.java:81-129 | a minor compaction of one sorted table reproduces it |
| SSTableCompactor.ConsumeEmptiesKey | src/main/java/org/bboxdb/storage/sstable/compact/SSTableCompactor.java:136-149 | `consumeTuplesForKey` empties exactly the slots holding the key and leaves the others |
| SSTableCompactor.RefreshAccounting | src/main/java/org/bboxdb/storage/sstable/compact/SSTableCompactor.java:193-213 | a refresh moves as many tuples from the inputs into slots as it counts as read |
| SSTableCompactor.SumBound | src/main/java/org/bboxdb/storage/sstable/compact/SSTableCompactor.java:193-213 | the read cursors never pass the input sizes and reach their total when all are exhausted |
| SSTableCompactor.PickIsWinner | src/main/java/org/bboxdb/storage/sstable/compact/SSTableCompactor.java:104-120 | the tuple picked in a round is the newest version of its key, and its key is above every key already written |
| SSTableCompactor.RefreshKeepsMerging | src/main/java/org/bboxdb/storage/sstable/compact/SSTableCompactor.java:104-106 | a refresh keeps the merge invariant and the read balance |
| SSTableCompactor.RoundKeepsMerging | src/main/java/org/bboxdb/storage/sstable/compact/SSTableCompactor.java:104-120 | a round (refresh, pick, consume, write unless a major compaction drops a deletion) keeps the merge invariant and strictly advances |
| SSTableCompactor.SSTableWriter.AddNextTuple | src/main/java/org/bboxdb/storage/sstable/compact/SSTableCompactor.java:116 | the writer appends the tuple, and fails with nothing written once full |
| SSTableCompactor.SSTableCompactor.constructor | src/main/java/org/bboxdb/storage/sstable/compact/SSTableCompactor.java:66-74 | a compactor over the given inputs, in minor mode, with zero counters |
| SSTableCompactor.SSTableCompactor.SetMajorCompaction | src/main/java/org/bboxdb/storage/sstable/compact/SSTableCompactor.java:243-245 | sets the mode and nothing else |
| SSTableCompactor.SSTableCompactor.ConsumeTuplesForKey | src/main/java/org/bboxdb/storage/sstable/compact/SSTableCompactor.java:136-149 | the loop computes `Consume` |
| SSTableCompactor.SSTableCompactor.GetTupleWithTheLowestKey | src/main/java/org/bboxdb/storage/sstable/compact/SSTableCompactor.java:157-183 | the loop returns the lowest tuple, none exactly when all slots are empty |
| SSTableCompactor.SSTableCompactor.RefreshTuple | src/main/java/org/bboxdb/storage/sstable/compact/SSTableCompactor.java:193-213 | every empty slot is refilled from its input while it has tuples; the read counter grows by the tuples taken; `done` exactly when all slots stay empty |
| SSTableCompactor.SSTableCompactor.CompactionStep | src/main/java/org/bboxdb/storage/sstable/compact/SSTableCompactor.java:104-120 | one loop round: pick the lowest head, consume its key, and write it unless a major compaction drops a deletion marker |
| SSTableCompactor.SSTableCompactor.ExecuteCompactation | src/main/java/org/bboxdb/storage/sstable/compact/SSTableCompactor.java:81-129 | fails with nothing done when the writer cannot open; succeeds whenever open and close succeed and the output fits; on success every input tuple is read once and the output is the newest-wins merge of sorted inputs; a major compaction writes no deletion marker |
| RTree.StackStreamAppend | src/main/java/org/bboxdb/storage/sstable/spatialindex/rtree/RTreeSpatialIndexBuilder.java:97-132 | writing a queue of nodes is writing its front then its back |
| RTree.SlotItemsStream | src/main/java/org/bboxdb/storage/sstable/spatialindex/rtree/RTreeSpatialIndexBuilder.java:123-131 | the child slots pushed for a node write as the node's child section: each existing child, then a marker for each absent slot |
| RTree.PresentStep | src/main/java/org/bboxdb/storage/sstable/spatialindex/rtree/RTreeSpatialIndexBuilder.java:100-131 | writing a node is its marker, id and entry slots, followed by what its pushed child slots write |
| RTreeDistribution.Distribute | src/main/java/org/bboxdb/storage/sstable/spatialindex/rtree/RTreeSpatialIndexBuilder.java:287-396 | the quadratic distribution: every element ends in exactly one of the two nodes, after the seeds, and nothing is invented |
| RTreeDistribution.FirstTakesTheRest | src/main/java/org/bboxdb/storage/sstable/spatialindex/rtree/RTreeSpatialIndexBuilder.java:287-396 | minimum fill: a node that needs every remaining element to reach half the capacity receives them all |
| RTreeDistribution.SeedsTwice | src/main/java/org/bboxdb/storage/sstable/spatialindex/rtree/RTreeSpatialIndexBuilder.java:287-396 | because the source walks the whole list after placing the seeds, both seeds end up in the new nodes twice |
| RTreeUpdates.Refresh | src/main/java/org/bboxdb/storage/sstable/spatialindex/rtree/RTreeSpatialIndexBuilder.java:202-205 | refreshing boxes along a path changes no links and no node off the path |
| RTreeUpdates.RefreshCovers | src/main/java/org/bboxdb/storage/sstable/spatialindex/rtree/RTreeSpatialIndexBuilder.java:202-205 | bottom-up, every node of an upward path ends with the cover of its children or entries |
| RTreeUpdates.Descend | src/main/java/org/bboxdb/storage/sstable/spatialindex/rtree/RTreeSpatialIndexBuilder.java:186-197 | descent reaches a leaf by an upward chain of children from the base node, or fails |
| RTreeUpdates.DescendPath | src/main/java/org/bboxdb/storage/sstable/spatialindex/rtree/RTreeSpatialIndexBuilder.java:186-197 | the descent path ends at the base node and is a chain of parent-child links |
| RTreeUpdates.InsertBelow | src/main/java/org/bboxdb/storage/sstable/spatialindex/rtree/RTreeSpatialIndexBuilder.java:177-208 | insertion fails only with the source's `NullPointerException`; otherwise it returns a leaf of the same arena |
| RTreeUpdates.RemoveFirst | src/main/java/org/bboxdb/storage/sstable/spatialindex/rtree/RTreeSpatialIndexBuilder.java:252 | `removeDirectoryNodeChild`: the first occurrence goes, every other child stays |
| RTreeUpdates.SplitNodes | src/main/java/org/bboxdb/storage/sstable/spatialindex/rtree/RTreeSpatialIndexBuilder.java:240-274 | a split adds two new nodes and one new parent; it fails only with `IndexOutOfBoundsException` from seed picking |
| RTreeUpdates.DistributeLeaves | src/main/java/org/bboxdb/storage/sstable/spatialindex/rtree/RTreeSpatialIndexBuilder.java:345-396 | leaf distribution fills only the two new nodes and keeps every link |
| RTreeUpdates.DistributeChildren | src/main/java/org/bboxdb/storage/sstable/spatialindex/rtree/RTreeSpatialIndexBuilder.java:287-337 | index distribution fills only the two new nodes, with children of the split node only |
| RTreeUpdates.SplitNodesShape | src/main/java/org/bboxdb/storage/sstable/spatialindex/rtree/RTreeSpatialIndexBuilder.java:240-274 | the links after a split: the new parent replaces the split node under its old parent, or becomes the root |
| RTreeUpdates.SplitSound | src/main/java/org/bboxdb/storage/sstable/spatialindex/rtree/RTreeSpatialIndexBuilder.java:240-274 | a split keeps the tree well formed: links in the arena, ranks decreasing downward, parents at the top, every node a leaf or an index node |
| RTreeUpdates.SplitTidy | src/main/java/org/bboxdb/storage/sstable/spatialindex/rtree/RTreeSpatialIndexBuilder.java:240-274 | a split of an attached leaf keeps the parent pointers and child lists in agreement |
| RTreeAdjustment.AdjustStep | src/main/java/org/bboxdb/storage/sstable/spatialindex/rtree/RTreeSpatialIndexBuilder.java:223-232 | one step of `adjustTree`: an overfull node splits the inserted node and continues at the new parent; otherwise it continues at the parent |
| RTreeAdjustment.NeverSettles | src/main/java/org/bboxdb/storage/sstable/spatialindex/rtree/RTreeSpatialIndexBuilder.java:214-233 | with capacity one, once the loop is stuck it never reaches the root |
| RTreeAdjustment.SecondInsertNeverSettles | src/main/java/org/bboxdb/storage/sstable/spatialindex/rtree/RTreeSpatialIndexBuilder.java:214-233 | with capacity one, a leaf holding two entries never lets `adjustTree` finish |
| RTreeAdjustment.AdjustSettles | src/main/java/org/bboxdb/storage/sstable/spatialindex/rtree/RTreeSpatialIndexBuilder.java:214-233 | with capacity at least two, the loop finishes within three steps and yields `Adjusted` |
| RTreeAdjustment.AdjustedKeeps | src/main/java/org/bboxdb/storage/sstable/spatialindex/rtree/RTreeSpatialIndexBuilder.java:214-233 | adjustment after an insert keeps the tree well formed and tidy |
| RTreeAdjustment.InsertBelowEffect | src/main/java/org/bboxdb/storage/sstable/spatialindex/rtree/RTreeSpatialIndexBuilder.java:177-208 | insertion adds the entry to the leaf reached by descent only, refreshes exactly the boxes on the path, and fails exactly when descent fails |
| RTreeAdjustment.InsertBelowKeeps | src/main/java/org/bboxdb/storage/sstable/spatialindex/rtree/RTreeSpatialIndexBuilder.java:177-208 | insertion keeps the tree well formed and tidy, and returns an attached leaf |
| RTreeAdjustment.InsertedKeeps | src/main/java/org/bboxdb/storage/sstable/spatialindex/rtree/RTreeSpatialIndexBuilder.java:159-169 | `insert` refuses entries with no box and answers false for them; it fails only when descent fails; otherwise the tree stays well formed |
| RTreeAdjustment.BulkInsertedFails | src/main/java/org/bboxdb/storage/sstable/spatialindex/rtree/RTreeSpatialIndexBuilder.java:139-151 | a bulk insert can fail only with the single insert's `NullPointerException` |
| RTreeAdjustment.BulkInsertedAnswer | src/main/java/org/bboxdb/storage/sstable/spatialindex/rtree/RTreeSpatialIndexBuilder.java:139-151 | `bulkInsert` answers true exactly when no element was refused |
| RTreeAdjustment.BulkReachedOnSuccess | src/main/java/org/bboxdb/storage/sstable/spatialindex/rtree/RTreeSpatialIndexBuilder.java:139-151 | when `bulkInsert` ends normally, the tree left is the one it answers with |
| RTreeAdjustment.BulkAfterFirst | src/main/java/org/bboxdb/storage/sstable/spatialindex/rtree/RTreeSpatialIndexBuilder.java:139-151 | after an entry that goes in normally, `bulkInsert` of the list succeeds exactly when it succeeds on the rest, leaving the same tree |
| RTreeAdjustment.BulkReachedOnFailure | src/main/java/org/bboxdb/storage/sstable/spatialindex/rtree/RTreeSpatialIndexBuilder.java:139-151 | when `bulkInsert` throws, there is a first entry whose insertion throws; the entries before it succeed, and the tree left is the one they give |
| RTreeBuilders.LeavesDistributed | src/main/java/org/bboxdb/storage/sstable/spatialindex/rtree/RTreeSpatialIndexBuilder.java:345-396 | the leaf loop produces the quadratic distribution of the entries after the seeds |
| RTreeBuilders.ChildrenDistributed | src/main/java/org/bboxdb/storage/sstable/spatialindex/rtree/RTreeSpatialIndexBuilder.java:287-337 | the index loop produces the quadratic distribution of the children after the seeds |
| RTreeBuilders.SplitNodesFilled | src/main/java/org/bboxdb/storage/sstable/spatialindex/rtree/RTreeSpatialIndexBuilder.java:240-274 | a split is the linking step, the distribution, then the three box refreshes of lines 269-271 |
| RTreeBuilders.NewParentSettles | src/main/java/org/bboxdb/storage/sstable/spatialindex/rtree/RTreeSpatialIndexBuilder.java:226-229 | with capacity at least two, the new parent of a split is a node without a parent pointer that is not overfull |
| RTreeBuilders.CapacityOneAccepted | src/main/java/org/bboxdb/storage/sstable/spatialindex/rtree/RTreeSpatialIndexBuilder.java:72-82 | as written the constructor accepts capacity one, and with it the second insert never finishes adjusting |
| RTreeBuilders.Create | src/main/java/org/bboxdb/storage/sstable/spatialindex/rtree/RTreeSpatialIndexBuilder.java:72-82 | corrected constructor: rejects capacities below two with `IllegalArgumentException`, otherwise an empty tree of one leaf root |
| RTreeBuilders.RTreeSpatialIndexBuilder.Default | src/main/java/org/bboxdb/storage/sstable/spatialindex/rtree/RTreeSpatialIndexBuilder.java:68-70 | the default builder has capacity 64 and an empty root |
| RTreeBuilders.RTreeSpatialIndexBuilder.GetMaxNodeSize | src/main/java/org/bboxdb/storage/sstable/spatialindex/rtree/RTreeSpatialIndexBuilder.java:402-404 | the capacity of a valid builder is at least two |
| RTreeBuilders.RTreeSpatialIndexBuilder.BulkInsert | src/main/java/org/bboxdb/storage/sstable/spatialindex/rtree/RTreeSpatialIndexBuilder.java:139-151 | the loop performs the inserts in order, as `BulkInserted` says; on every path, including an exception, the builder stays valid and holds the tree `BulkReached` gives: the entries before the one that threw are inserted |
| RTreeBuilders.RTreeSpatialIndexBuilder.Insert | src/main/java/org/bboxdb/storage/sstable/spatialindex/rtree/RTreeSpatialIndexBuilder.java:159-169 | refuse, or descend, insert and adjust, as `Inserted` says; a failure leaves the tree unchanged |
| RTreeBuilders.RTreeSpatialIndexBuilder.InsertAt | src/main/java/org/bboxdb/storage/sstable/spatialindex/rtree/RTreeSpatialIndexBuilder.java:177-208 | the descent loop, the add and the refresh loop compute `InsertBelow` |
| RTreeBuilders.RTreeSpatialIndexBuilder.Descent | src/main/java/org/bboxdb/storage/sstable/spatialindex/rtree/RTreeSpatialIndexBuilder.java:186-197 | the loop computes `Descend` |
| RTreeBuilders.RTreeSpatialIndexBuilder.RefreshPath | src/main/java/org/bboxdb/storage/sstable/spatialindex/rtree/RTreeSpatialIndexBuilder.java:202-205 | the loop computes `Refresh` |
| RTreeBuilders.RTreeSpatialIndexBuilder.AdjustTree | src/main/java/org/bboxdb/storage/sstable/spatialindex/rtree/RTreeSpatialIndexBuilder.java:214-233 | the loop terminates, yields `Adjusted`, and keeps the builder valid |
| RTreeBuilders.RTreeSpatialIndexBuilder.Link | src/main/java/org/bboxdb/storage/sstable/spatialindex/rtree/RTreeSpatialIndexBuilder.java:241-259 | the linking half of `splitNode` computes `Linked` |
| RTreeBuilders.RTreeSpatialIndexBuilder.SplitNode | src/main/java/org/bboxdb/storage/sstable/spatialindex/rtree/RTreeSpatialIndexBuilder.java:240-274 | computes `SplitNodes`; on failure the links are already made |
| RTreeBuilders.RTreeSpatialIndexBuilder.DistributeLeafData | src/main/java/org/bboxdb/storage/sstable/spatialindex/rtree/RTreeSpatialIndexBuilder.java:345-396 | seeds, then every entry to one node by the quadratic rule, as `DistributeLeaves` says |
| RTreeBuilders.RTreeSpatialIndexBuilder.DistributeIndexData | src/main/java/org/bboxdb/storage/sstable/spatialindex/rtree/RTreeSpatialIndexBuilder.java:287-337 | seeds, then every child to one node, as `DistributeChildren` says; the children are added without their parent pointers being set |
| RTreeBuilders.RTreeSpatialIndexBuilder.WriteToStream | src/main/java/org/bboxdb/storage/sstable/spatialindex/rtree/RTreeSpatialIndexBuilder.java:85-136 | succeeds exactly when the whole stream fits, and then the stream receives the magic bytes, the capacity as four bytes and the pre-order serialisation `NodeStream` of the tree; otherwise `StorageManagerException`, with a prefix of that stream written |
| RTreeBuilders.RTreeSpatialIndexBuilder.WriteConfiguration | src/main/java/org/bboxdb/storage/sstable/spatialindex/rtree/RTreeSpatialIndexBuilder.java:90-95 | the magic bytes, then the capacity as four bytes, or a failure with a prefix of them written |
| RTreeBuilders.RTreeSpatialIndexBuilder.WriteTop | src/main/java/org/bboxdb/storage/sstable/spatialindex/rtree/RTreeSpatialIndexBuilder.java:101-131 | one round of the loop: the bytes written plus the stream of the new stack are the stream of the old stack, which gets strictly shorter; or the round fails with a prefix of the remaining stream written |
| RTreeBuilders.RTreeSpatialIndexBuilder.WriteNodeHead | src/main/java/org/bboxdb/storage/sstable/spatialindex/rtree/RTreeSpatialIndexBuilder.java:108-121 | the presence marker, the node id as four bytes and the entry slots, or a failure with a prefix of them written |
| RTreeBuilders.RTreeSpatialIndexBuilder.WriteEntrySlots | src/main/java/org/bboxdb/storage/sstable/spatialindex/rtree/RTreeSpatialIndexBuilder.java:114-121 | one slot per capacity unit: a marker and the entry, or the absent marker; on a failed write, a prefix of the slots is written and the slots do not fit |
| RTreeBuilders.RTreeSpatialIndexBuilder.PushChildSlots | src/main/java/org/bboxdb/storage/sstable/spatialindex/rtree/RTreeSpatialIndexBuilder.java:125-131 | the queue gains one item per child slot, in child order, ahead of what was queued |
| StorageRegistries.CountUsage | src/main/java/org/bboxdb/storage/StorageRegistry.java:180-187 | the loop counts, for every storage directory, the tables stored in it |
| StorageRegistries.ZeroUsage | src/main/java/org/bboxdb/storage/StorageRegistry.java:180-182 | every directory starts with count zero |
| StorageRegistries.LowestUsage | src/main/java/org/bboxdb/storage/StorageRegistry.java:190-194 | the lowest count of the directories is attained by one of them |
| StorageRegistries.FirstWithUsage | src/main/java/org/bboxdb/storage/StorageRegistry.java:197-202 | the first directory, in configuration order, with that count |
| StorageRegistries.UsageAfterRecord | src/main/java/org/bboxdb/storage/StorageRegistry.java:139-144 | recording a new table in a directory raises its count by one and no other |
| StorageRegistries.UsageAfterRemove | src/main/java/org/bboxdb/storage/StorageRegistry.java:212-230 | removing a table lowers its directory's count by one and no other |
| StorageRegistries.StorageRegistry.GetLowestUtilizedDataLocation | src/main/java/org/bboxdb/storage/StorageRegistry.java:177-205 | a configured directory whose count is not above any other's |
| StorageRegistries.StorageRegistry.GetSSTableManager | src/main/java/org/bboxdb/storage/StorageRegistry.java:122-151 | an invalid name fails; a cached manager is returned; otherwise a manager is made in the table's known directory, or, for a new table, in a least used directory that is recorded; if starting it fails, `StorageManagerException` with nothing cached but the new directory still recorded, else it is cached and returned |
| StorageRegistries.StorageRegistry.Shutdown | src/main/java/org/bboxdb/storage/StorageRegistry.java:158-171 | the manager is removed from the cache; the answer says whether one was running |
| StorageRegistries.StorageRegistry.DeleteTable | src/main/java/org/bboxdb/storage/StorageRegistry.java:212-230 | an invalid name fails; otherwise the table leaves both the cache and the location map |
| StorageRegistries.StorageRegistry.GetAllTables | src/main/java/org/bboxdb/storage/StorageRegistry.java:315-319 | exactly the known tables |
| StorageRegistries.StorageRegistry.GetAllTablesForDistributionGroup | src/main/java/org/bboxdb/storage/StorageRegistry.java:402-409 | exactly the known tables of the group |
| StorageRegistries.StorageRegistry.GetAllTablesForDistributionGroupAndRegionId | src/main/java/org/bboxdb/storage/StorageRegistry.java:364-373 | exactly the known tables of the group and region |
| StorageRegistries.StorageRegistry.GetStorageDirForSSTable | src/main/java/org/bboxdb/storage/StorageRegistry.java:435-442 | a known table's own directory, otherwise the least used one |
| StorageRegistries.NewStorageRegistry | src/main/java/org/bboxdb/storage/StorageRegistry.java:77-97 | an empty directory list is rejected with `IllegalArgumentException`; otherwise an empty cache over the scanned tables |
| Placement.JavaDiv | src/main/java/org/bboxdb/distribution/placement/CPUCoreUtilizationPlacementStrategy.java:84-88 | Java `int` division: rounds toward zero for either sign |
| Placement.CalculateUsageFactor | src/main/java/org/bboxdb/distribution/placement/CPUCoreUtilizationPlacementStrategy.java:84-88 | the cores per placed instance, rounded down for a non-negative core count |
| Placement.BestIsUnique | src/main/java/org/bboxdb/distribution/placement/CPUCoreUtilizationPlacementStrategy.java:46-76 | the first system with the best factor is unique |
| Placement.GetSystemWithLowestUsage | src/main/java/org/bboxdb/distribution/placement/CPUCoreUtilizationPlacementStrategy.java:46-76 | the first unused system wins; otherwise the first system with the best factor among those with cores, none when no system has cores |
| QueryBoundingBoxRequests.Block | src/main/java/org/bboxdb/network/packages/request/QueryBoundingBoxRequest.java:73-89 | the fixed block has the size the decoder reads |
| QueryBoundingBoxRequests.BlockFields | src/main/java/org/bboxdb/network/packages/request/QueryBoundingBoxRequest.java:73-89 | the block carries the query type, paging flag, page size, table length and box length at the positions the decoder reads |
| QueryBoundingBoxRequests.Decode | src/main/java/org/bboxdb/network/packages/request/QueryBoundingBoxRequest.java:115-158 | a bad header is rejected; an accepted package has the query byte, its paging flag and its sequence number, and ends with the table and the box |
| QueryBoundingBoxRequests.DecodeEncoded | src/main/java/org/bboxdb/network/packages/request/QueryBoundingBoxRequest.java:67-158 | decoding an encoded request returns it |
| QueryBoundingBoxRequests.TrailingBytesRejected | src/main/java/org/bboxdb/network/packages/request/QueryBoundingBoxRequest.java:152-154 | bytes after the box are rejected with `PackageEncodeException` |
| QueryBoundingBoxRequests.Layout | src/main/java/org/bboxdb/network/packages/request/QueryBoundingBoxRequest.java:67-106 | the encoding is header, block, table and box, at the offsets the decoder uses |
| QueryBoundingBoxRequests.WriteToOutputStream | src/main/java/org/bboxdb/network/packages/request/QueryBoundingBoxRequest.java:67-106 | succeeds exactly when the encoding fits the stream, and then the stream receives exactly the encoding; otherwise `PackageEncodeException`, with a prefix of the encoding written |
| QueryBoundingBoxRequests.GetBlockRest | src/main/java/org/bboxdb/network/packages/request/QueryBoundingBoxRequest.java:130-142 | reading the block either takes its fields and advances past them, or fails with `BufferUnderflowException` when fewer bytes remain |
| QueryBoundingBoxRequests.DecodeTuple | src/main/java/org/bboxdb/network/packages/request/QueryBoundingBoxRequest.java:115-158 | the buffer-driven decoder computes `Decode` |
| DeleteTableRequests.Encode | src/main/java/de/fernunihagen/dna/jkn/scalephant/network/packages/request/DeleteTableRequest.java:33-65 | a request without a table fails with `NullPointerException`; otherwise header then body |
| DeleteTableRequests.Decode | src/main/java/de/fernunihagen/dna/jkn/scalephant/network/packages/request/DeleteTableRequest.java:73-88 | fails only by underflow or a negative length; a decoded name is the one stored after its 16-bit length |
| DeleteTableRequests.DecodeEncoded | src/main/java/de/fernunihagen/dna/jkn/scalephant/network/packages/request/DeleteTableRequest.java:33-88 | decoding an encoded request with a name shorter than 32768 bytes returns it, with any trailing bytes ignored |
| DeleteTableRequests.LongNameNotDecoded | src/main/java/de/fernunihagen/dna/jkn/scalephant/network/packages/request/DeleteTableRequest.java:73-88 | a name of 32768 to 65535 bytes encodes to a negative length and fails with `NegativeArraySizeException` |
| DeleteTableRequests.GetByteArray | src/main/java/de/fernunihagen/dna/jkn/scalephant/network/packages/request/DeleteTableRequest.java:33-65 | the stream-driven encoder computes `Encode` |
| DeleteTableRequests.DecodeTuple | src/main/java/de/fernunihagen/dna/jkn/scalephant/network/packages/request/DeleteTableRequest.java:73-88 | the buffer-driven decoder computes `Decode` |
| DeleteTableRequests.Equals | src/main/java/de/fernunihagen/dna/jkn/scalephant/network/packages/request/DeleteTableRequest.java:110-124 | equal exactly to another request with the same table, never to null |
| DeleteTableRequests.HashCode | src/main/java/de/fernunihagen/dna/jkn/scalephant/network/packages/request/DeleteTableRequest.java:101-106 | the hash is a 32-bit value |
| DeleteTableRequests.HashCodeConsistent | src/main/java/de/fernunihagen/dna/jkn/scalephant/network/packages/request/DeleteTableRequest.java:101-124 | equal requests have equal hashes |
| DeleteTableRequests.EqualsEquivalence | src/main/java/de/fernunihagen/dna/jkn/scalephant/network/packages/request/DeleteTableRequest.java:110-124 | `equals` is reflexive, symmetric and transitive |
| LockEntries.NewLockEntry | bboxdb-server/src/main/java/org/bboxdb/network/server/connection/lock/LockEntry.java:47-55 | the entry keeps holder, sequence, table, key and timeout flag |
| LockEntries.VersionIsDiscarded | bboxdb-server/src/main/java/org/bboxdb/network/server/connection/lock/LockEntry.java:47-55 | the version argument does not affect the entry |
| LockEntries.NewEntryMatches | bboxdb-server/src/main/java/org/bboxdb/network/server/connection/lock/LockEntry.java:103-115 | a new entry matches a table and key, or a holder and sequence, exactly when they are its own |
| LockEntries.MatchesAreIndependent | bboxdb-server/src/main/java/org/bboxdb/network/server/connection/lock/LockEntry.java:103-115 | the two matches test different fields |

## Left out

- Streams, files and logging are left out. A table file is its byte contents; a missing file is `None`; an output stream is the bytes written to it, with the room a bounded stream has.
- `synchronized` blocks, thread safety and the registry's singleton lifecycle are left out; every operation is modelled as running alone.
- `StorageRegistry.scanDirectory` is not modelled. The registry is built from its result, a map from table to directory.
- `StorageRegistry.finalize` and the on-disk deletion in `deleteTable` are not modelled. Only the registry's own maps are.
- `StorageRegistry.deleteAllTablesInDistributionGroup` and `getSizeOfDistributionGroupAndRegionId` are not modelled. They walk the file system.
- `StorageRegistry.isStorageManagerActive` is a plain predicate with no contract.
- Lists the source updates in place (compactor slots, node children, node entries) are sequences that methods return or fields that methods reassign. Aliasing between Java lists is not modelled.
- Iterators over the input tables are cursors into sorted sequences.
- A writer I/O failure is a flag or a capacity. The exception's cause is not modelled.
- `Tuple.compareTo` is not part of this model. It is assumed to order by key and, for equal keys, newer first (`Entities.Compare`).
- Entities.CompareKeys: compares keys as byte sequences in lexicographic order. It does not model Java's UTF-16 `compareTo` difference values, only their sign.
- Bounding boxes, their cover and enlargement, and the seed picker are uninterpreted parameters. Enlargement is an integer rather than a `double`.
- `BoundingBox.EMPTY_BOX` is compared by value rather than by reference.
- Character set encoding is not modelled. Table names and keys are byte sequences.
- The placement strategy walks its list of candidate systems in order, as the model does. The registry counts directory usage in a `HashMap`, whose iteration order is not modelled; directories are walked in configuration order.
- R-tree nodes are indices into an arena. Node ids are those indices.
- `QuadraticSeedPicker` is not part of this model. The model assumes that it does not remove the seeds from the list it is given, so the whole list, seeds included, is handed out after them (`RTreeDistribution.SeedsTwice` rests on this assumption).
- After a seed failure, the state is the linked state the source leaves.
- `getEntriesForRegion` is left out. It belongs to the node class, which is not part of this model.
- The `null` check at the head of `adjustTree` is dead, because `insert` never returns `null`. It is not modelled.
- A `ByteArrayOutputStream` never throws, so `DeleteTableRequest.getByteArray` writes to an unbounded stream.
- A stream that throws is modelled only as one that runs out of room; which bytes a failing `write` has already passed on is not modelled (a failed write adds nothing).
- SpatialIndexEntry.writeToStream is not part of this model; an entry's bytes are one write.
- DeleteTableRequests.GetByteArray: does not model the `null` returned on `IOException`, which a `ByteArrayOutputStream` never raises.
- The values of `REQUEST_TYPE_*`, the SSTable magic bytes and the package header codec are not part of this model. They are uninterpreted constants and a parameter.
- RTreeBuilders.Create: rejects capacities below two, where the source rejects only capacities below one (see Findings).
- `SSTableReader.getTablebumber`, `toString` and the reader's shutdown are accessors or resource handling and are not modelled.
- The `LockEntry` getters are the datatype's fields.
- `null` fields of a `LockEntry` are not modelled: its table, key and lock object are always values, so the `NullPointerException` that `tableAndKeyMatches` and `lockObjectAndSequenceMatches` throw on a `null` field cannot arise.
- SSTableCompactor.SSTableCompactor.ExecuteCompactation: promises success only when the output fits the writer's capacity, which stands in for disk space.
- Strings.ParseInt: takes only the ASCII digits `0`-`9` as digits; Java's `Character.digit`, which `Integer.parseInt` uses, also takes the decimal digits of other scripts (such as `\u0660`-`\u0669`), which the model rejects with `NumberFormatException`.
- Strings.ParseIntNeedsFinalDigit: its "digit" is an ASCII digit only, as in `Strings.ParseInt`.
- SSTableHelper.ExtractSequenceFromFilename: inherits the ASCII-only digits of `Strings.ParseInt`; a file name numbered in another script's digits is rejected.
- SSTableHelper.ExtractRejectsNonNumber: its "digit" is an ASCII digit only, as in `Strings.ParseInt`.
- SSTableReader.SequenceFromFilename: inherits the ASCII-only digits of `Strings.ParseInt`.
- `RTreeDirectoryNode` is not part of this model. The model assumes that `isLeafNode` means "has no child nodes" and that `getSize` counts child nodes and entries together. It assumes that `addDirectoryNodeChild` does not set the child's parent pointer, and that `findBestNodeForInsert` returns one of the node's children or `null`, modelled as a position, with an out-of-range position for `null`. RTreeUpdates.SplitSound, RTreeUpdates.SplitTidy, RTreeAdjustment.AdjustSettles and RTreeBuilders.NewParentSettles rest on the assumption about `addDirectoryNodeChild`.
- The `RuntimeException` that `insert` throws for a non-leaf node without children is dead only under the assumption about `isLeafNode`, and is not modelled.
- SSTableCompactor.SSTableCompactor.ExecuteCompactation: counts read and written tuples as unbounded naturals; the source's `readTuples` and `writtenTuples` are Java `int`s, whose wrap-around past 2^31 - 1 is not modelled.

## Findings

| source | as written | input that shows it | evidently intended | confidence | as-written member | corrected member |
|---|---|---|---|---|---|---|
| src/main/java/org/bboxdb/storage/sstable/spatialindex/rtree/RTreeSpatialIndexBuilder.java:72-82 | the constructor rejects only capacities of zero or less, so a capacity of one is accepted; `adjustTree` (lines 214-233) then splits the inserted node forever, since each split gives the new parent the two new nodes | `new RTreeSpatialIndexBuilder(1)`, then two inserts | reject capacities below two, so a split always settles | not executed | RTreeBuilders.CapacityOneAccepted | RTreeBuilders.Create |
