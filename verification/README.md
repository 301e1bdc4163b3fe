# CINST, verified

CINST traces Java containers. An agent tags sampled objects and writes binary
records from every instrumented thread; afterwards scripts turn addresses into
object ids, merge the streams of a thread, pair each container call with its call
site, and report what the program did with its containers. Each stage rebuilds
facts from streams that were recorded apart from one another. This project models
the stages that do the rebuilding and proves when what they rebuild is right.

Verify everything with `dafny verify dfyconfig.toml`.

## What the project models

Code that changes state is modelled by classes, arrays and loops; every such
method is proved against a function of the old state, and the theorems are about
those functions.

| file | part of the program |
|---|---|
| `AddrMap.dfy` | the versioned address map, its two-form slots, and the two-phase build |
| `OnlineHeap.dfy`, `InsertionLog.dfy` | the heap that sees the traced events in time order; what a log of insertions answers |
| `OfflineReading.dfy`, `HeapReconstruction.dfy`, `ReadingOrder.dfy` | the build against that heap, for every order of reading the files |
| `NewFileOrder.dfy`, `GcFileOrder.dfy` | what the order in which files are read can change |
| `Identity.dfy` | where ids come from, and how tags join the ALLOCATIONS table |
| `Layout.dfy`, `Records.dfy` | C structure layout with padding; the records as declared in C++ and again in ctypes |
| `Recorder.dfy` | the buffered recorder |
| `StdioTransform.dfy`, `Translation.dfy` | the in-place file transformer over a stdio file, and the callbacks addr2id registers |
| `Merge.dfy`, `Matcher.dfy`, `Pairing.dfy` | the two-stream selector, the call-site matcher, and what its pairs are |
| `Emission.dfy`, `ThreadTracer.dfy` | what a thread emits under its flags; the thread with its recorders |
| `HeldReferences.dfy` | translated files against the online heap |
| `EndToEnd.dfy`, `ContainersTable.dfy` | from a thread's calls to the rows of the CONTAINERS table, and what their columns name |
| `Sequences.dfy`, `Permutation.dfy`, `Machine.dfy` | concatenation, positions, reordering, and machine integers |
| `TagCache.dfy`, `TagProgress.dfy`, `TagsJoin.dfy` | thread-local tag caches over the shared tag table, all interleavings; that calls finish, and with what; their answers in the database |
| `Coalesce.dfy`, `Loops.dfy`, `Stretch.dfy` | loop coalescing, its inverse, its canonical form, and what an entry covers |
| `Traversal.dfy`, `TraversalReport.dfy` | the traversal report and its soundness and conservation |

## Main results

1. **Offline equals online, exactly when.** The build reads all NEW files, then the
   gc files one after another; every collector thread writes a gc file of its own
   (`cinst/preload/preload.cpp:49-94`), so relocations are not read in time order. For
   every reading order, all queries from an address's first write on name objects as
   an event-by-event heap does if and only if each relocation's lookup is answered by
   a placement of the very object moved, or by none while nothing of that object has
   been read (`ReconstructionIff`, `BuildReconstructsIff`). Which placement answers is
   decided by the times read so far alone. It is enough that each relocation is read
   after what put its object where it moves from, and that no source the heap does not
   hold shows exactly one placement (`ReadInTimeReconstructs`). Neither is guaranteed:
   an object moved twice, the file with the second move read first, leaves no naming
   (`LateFileHappens`). Even in time order, a relocation of an untraced object out of an
   address that is allocated exactly once in the whole trace takes that future
   allocation's id, because a slot written once ignores the query time
   (`PhantomHappens`); in time order nothing else goes wrong (`TimeOrderedIff`). Where
   every lookup goes right, the translated files inherit it: each reference in each
   record names the object that was at that address at the record's own time
   (`FilesNameHeldObjects`).
2. **File order.** In whatever order NEW records with distinct address-time pairs
   are read, and whatever relocations follow, all answers are the same up to one
   one-to-one renaming of ids (`FileOrderOnlyRenames`); gc files with known sources and
   no cross-file dependencies can be read in any order (`GcFilesAnyOrder`).
3. **Producer to consumer.** For any run of a thread's calls with increasing
   timestamps, under any flags: emission, buffering, splitting into three files,
   in-place translation, loading, merging and matching give exactly the latest emitted
   operation of each emitted line (`RunIsExact`); if every call is followed by its own
   line, the loader's rows are exactly the sampled calls with their own call sites
   (`RunOfCallsIsExact`). `TraceTranslateLoad` chains the methods themselves and returns
   those rows. Column by column, each loaded row says what its sampled call and that
   call's line said, in the call's and the line's own values
   (`LoadedRowsTellTheirCalls`).
4. **Tag cache.** In every interleaving a lookup answers -1 or the object's one
   tag, which is 10 plus the number of tags minted before it (`TagIsMintNumber`); a call
   in progress always has exactly one next step and at most three more, whatever other
   threads do (`MidCallStep`, `CallsAreShort`), and run to its end a lookup answers the
   published tag unless the thread holds a -1 (`LookupAnswers`). Answers are stable
   until the thread tags the object itself; a first lookup
   after tagging completed sees the tag; each answer is what the shared table held
   at one step of the answering thread (`AnswerLinearizes`). The cache is not
   coherent: `StaleAnswer` is a run in which a lookup answers -1 for an object whose
   tag is already in the shared table. Exactly when: a lookup started after the
   tagging completed answers the tag if and only if its thread has not answered -1 for
   the object before, or has tagged it itself since (`LookupIsFreshIff`). Recorded and
   translated, any answer other than -1 names the object's own row of ALLOCATIONS
   (`AnswersJoinAllocations`), and so do the holder, reference, key and value columns
   of a call's row (`RowNamesObjects`).
5. **Matching.** Without any assumption on times, rows use operations and lines
   in order and none twice (`MatchingIsSafe`), and each line takes the last of exactly
   the operations it consumes (`PairsWalk`). For operations and lines each in strict
   time order, the pairs are exactly the latest operations between consecutive lines if
   and only if no operation ties with a line (`ExactIffNoTies`); a tied line takes the
   tied operation or the one before it (`TiedLineTakes`).
6. **In-place rewriting.** Each record the buffer holds is taken through every
   registered transformer once, in order (`ComposeApplies`, `MappedApplies`).
   `transform_local` leaves the whole-file map exactly for
   those file lengths that are a whole number of records, or whose last block is
   shorter than one record (`FaithfulIff`). On any other length the read consumes
   the bytes of the cut-off record, the seek goes back by whole records only, and
   the last block's records end up behind the bytes that make no record.
7. **Coalescing.** It can be undone, its output is canonical, and there is only
   one canonical form; every entry's fields are those its stretch of rows gives it
   (`EntriesAreStretches`). A group is the holder's rows in their order
   (`OfHolderIsGroup`); every traversal reported is two passes with nothing recorded in
   between, none is missed (`HitsExactly`), each record is the sum of its hits
   (`TallySumsItsHits`), and counts are conserved.

Where the code and its own text differ, the code is followed: the holders' test
for tag 0 in `addTagPutFieldRecord` and `addTagAASTORERecord` can never succeed,
because lookups answer -1 and never 0 (`AnswerIsTagOrMinusOne`).

## Model

| member | source | states |
|---|---|---|
| AddrMap.QueryMeaning | cinst/scripts/src/addr2id.cpp:78-123 | for every insertion history: unknown if never inserted, the sole id whatever the time if inserted once, otherwise the id with the greatest time not after the query, the earliest insertion winning among equals, or unknown |
| AddrMap.BestAnswers | cinst/scripts/src/addr2id.cpp:91-101 | the recursive choice of a version is the declarative one: none exactly if all are later, else latest and first among equals |
| AddrMap.UpperBound | cinst/scripts/src/addr2id.cpp:92-92 | the position found separates the times up to the query from the later ones |
| AddrMap.EmplaceMeans | cinst/scripts/src/addr2id.cpp:122-122 | emplace keeps the map ordered, keeps every entry, and adds the new one only if its time is not there yet |
| AddrMap.Floor | cinst/scripts/src/addr2id.cpp:92-101 | the entry found is the latest one not after the query; none only if all are later |
| AddrMap.FloorAfterEmplace | cinst/scripts/src/addr2id.cpp:92-122 | one insertion changes a lookup exactly if it is in time and later than what answered before |
| AddrMap.FloorIsBest | cinst/scripts/src/addr2id.cpp:91-122 | a lookup in the map built from any insertions answers as the insertion history says |
| AddrMap.SlotAnswers | cinst/scripts/src/addr2id.cpp:85-101 | both stored forms answer as the insertion history says |
| AddrMap.AddressMap.constructor | cinst/scripts/src/addr2id.cpp:71-77 | a fresh map holds address 0 as id 0 and hands out id 1 next |
| AddrMap.AddressMap.Query | cinst/scripts/src/addr2id.cpp:78-102 | answers what the insertion history says, in either form |
| AddrMap.AddressMap.InsertWithId | cinst/scripts/src/addr2id.cpp:105-123 | extends the history by exactly this write, switching forms on the second, and keeps the slots in step with it |
| AddrMap.AddressMap.Insert | cinst/scripts/src/addr2id.cpp:126-130 | writes and returns the next id |
| AddrMap.AddressMap.InsertGc | cinst/scripts/src/addr2id.cpp:131-134 | writes the next id with the GC bit set |
| AddrMap.AddressMap.Move | cinst/scripts/src/addr2id.cpp:136-147 | copies the id the source answers with at that time, or mints a masked one if it is unknown |
| AddrMap.AddressMap.InsertNewRecords | cinst/scripts/src/addr2id.cpp:149-156 | inserts the buffer's records in order and writes one row for each |
| AddrMap.AddressMap.ProcessNewFile | cinst/scripts/src/addr2id.cpp:181-196 | reading in chunks amounts to inserting the whole file, rows included |
| AddrMap.AddressMap.MoveAll | cinst/scripts/src/addr2id.cpp:210-213 | applies a chunk's relocations in order |
| AddrMap.AddressMap.ProcessGcFile | cinst/scripts/src/addr2id.cpp:198-217 | reading in chunks amounts to applying the whole file's relocations |
| AddrMap.BuildAddrMap | cinst/scripts/src/addr2id.cpp:219-233 | the map is that of all NEW files followed by all gc files, and the rows are those of the NEW files |
| InsertionLog.QueryIsLatest | cinst/scripts/src/addr2id.cpp:91-101 | a write later than every other one up to a time answers the query for it |
| InsertionLog.QueryIsSole | cinst/scripts/src/addr2id.cpp:85-89 | the only write to an address answers the query for every time |
| OnlineHeap.HeldIsLast | cinst/scripts/src/addr2id.cpp:126-147 | the online heap holds, at each address, what was placed there last |
| OfflineReading.ReadIsBuilt | cinst/scripts/src/addr2id.cpp:219-233 | reading all records one by one is what the build computes from its NEW and gc files, in the order it reads them |
| OfflineReading.SkeletonAt | cinst/scripts/src/addr2id.cpp:105-147 | at every point of the reading the log holds exactly one write per placement read |
| OfflineReading.AnswerIsFound | cinst/scripts/src/addr2id.cpp:85-101 | a lookup returns the id of the placement that the times read so far single out: the latest in time, or a sole one |
| OfflineReading.NothingIsFound | cinst/scripts/src/addr2id.cpp:81-96 | where no placement answers, the lookup is unknown |
| HeapReconstruction.GoodReadsReconstruct | cinst/scripts/src/addr2id.cpp:136-147 | if every relocation's lookup goes right, one injective naming of objects explains every query at and after the first write to an address, and names the i-th NEW record i + 1 |
| HeapReconstruction.BadReadBreaks | cinst/scripts/src/addr2id.cpp:136-147 | one lookup gone wrong rules out every injective naming, whatever is read afterwards |
| HeapReconstruction.ReconstructionIff | cinst/scripts/src/addr2id.cpp:136-147 | for records read in any order, the queries can be explained by the heap if and only if each relocation's lookup finds a placement of the object moved, or nothing while nothing of it has been read |
| HeapReconstruction.BuildReconstructsIff | cinst/scripts/src/addr2id.cpp:219-233 | the same for the build, with relocations in the order its gc files are read |
| HeapReconstruction.BeforeFirstWrite | cinst/scripts/src/addr2id.cpp:85-96 | before its first write an address is unknown, unless it is written once in the whole trace and then answers all the same |
| HeldReferences.FilesNameHeldObjects | cinst/scripts/src/addr2id.cpp:241-259 | where every relocation's lookup goes right, one injective naming that follows the NEW files explains all container files at once: read back after rewriting, each holder, reference, key and value is the name of what the heap held at that address at the record's own time, if anything, and no other member changed |
| ReadingOrder.ReadInTimeReconstructs | cinst/scripts/src/addr2id.cpp:219-233 | the build reconstructs the heap if each relocation is read after what put its object where it moves from, and no untraced source shows exactly one placement |
| ReadingOrder.TimeOrderedIff | cinst/scripts/src/addr2id.cpp:227-232 | with relocations read in time order that is so if and only if none takes an object the heap does not hold out of an address allocated exactly once |
| ReadingOrder.PhantomStoresFutureId | cinst/scripts/src/addr2id.cpp:85-89 | such a phantom relocation stores the id of an allocation that lies in its future |
| ReadingOrder.PhantomHappens | cinst/scripts/src/addr2id.cpp:85-89 | a recorded trace with a phantom, and no naming for it |
| ReadingOrder.LateFileHappens | cinst/preload/preload.cpp:49-94 | two gc files, each in time order, and a trace without phantoms that no naming explains, because the later move is read first |
| NewFileOrder.FileOrderOnlyRenames | cinst/scripts/src/addr2id.cpp:149-156 | NEW records with distinct address-time pairs, read in any order and followed by any relocations: one one-to-one renaming turns each answer into the other's, keeps null, the unknown marker and masked ids, and takes each table row to an equal one |
| NewFileOrder.BuildOrderOnlyRenames | cinst/scripts/src/addr2id.cpp:219-233 | so the order of the NEW files only renames ids in the whole build, in its answers and in the rows it writes |
| GcFileOrder.MovesCommute | cinst/scripts/src/addr2id.cpp:136-147 | relocations with known sources commute, down to the stored form, unless one feeds the other or they clash |
| GcFileOrder.GcFilesCommute | cinst/scripts/src/addr2id.cpp:198-217 | two gc files without dependencies leave the same stored forms in either order |
| GcFileOrder.GcFilesAnyOrder | cinst/scripts/src/addr2id.cpp:227-232 | any number of gc files without cross-file dependencies and with known sources leave the same stored forms in every order |
| GcFileOrder.GcFileOrderIsIrrelevant | cinst/scripts/src/addr2id.cpp:227-232 | and so the same answer to every query |
| Identity.MintedIdsApart | cinst/scripts/src/addr2id.cpp:126-134 | below 2^31 - 1 mints the n-th id is n, or n with the GC bit, and never the unknown marker |
| Identity.MintedIdsDistinct | cinst/scripts/src/addr2id.cpp:126-134 | no two events mint the same id |
| Identity.StoredIdsTraceable | cinst/scripts/src/addr2id.cpp:136-147 | every stored id is null's or goes back through relocations to a mint |
| Identity.LimitIsTight | cinst/scripts/src/addr2id.cpp:131-134 | a relocation of an unknown source after 2^31 - 2 mints stores the unknown marker |
| Identity.LimitIsReached | cinst/scripts/src/addr2id.cpp:126-134 | some run gets there |
| Identity.TagJoinsItsAllocation | cinst/scripts/src/addr2id.cpp:126-156 | every tag answers with its own record's id at all times; 0 stays 0 and the unknown marker stays unknown |
| Identity.ReferenceEqualityPreserved | cinst/scripts/src/addr2id.cpp:241-259 | two recorded references translate alike exactly if they are equal |
| Identity.RowPerAllocation | cinst/scripts/src/addr2id.cpp:149-156 | each NEW record has one row, under an id of its own, with its site, size and type |
| Layout.DecodeEncode | cinst/scripts/build_container_db.py:19-25 | little-endian bytes read back as the number written, if it fits |
| Layout.LeavesApart | cinst/native/recorder.hpp:280-340 | however structures nest, members do not overlap and none sticks out |
| Layout.LoadStore | cinst/native/native.cpp:531-539 | after any assignments each member reads back as assigned, whatever the padding holds |
| Layout.ConcatChunk | cinst/scripts/build_container_db.py:131-137 | the i-th record-sized slice of a file is the i-th image written, even with part of a record at the end |
| Layout.ConcatCount | cinst/scripts/build_container_db.py:161-161 | the number of whole records in a file is the number written, a trailing part not counted |
| Records.ImageMembers | cinst/native/recorder.hpp:280-340 | where in a record's 40 bytes each of its members lies, byte by byte |
| Records.LineImageMembers | cinst/native/recorder.hpp:280-340 | likewise in a line record's 16 bytes |
| Records.NativeLayouts | cinst/native/recorder.hpp:280-340 | sizes and member offsets of the three native records, tail padding of the nested one included |
| Records.CtypesLayouts | cinst/scripts/build_container_db.py:19-55 | the ctypes declarations put every member where the native ones do |
| Records.OpRoundTrip | cinst/scripts/build_container_db.py:136-136 | a container record read back through ctypes is the record that was written |
| Records.LineRoundTrip | cinst/scripts/build_container_db.py:168-168 | likewise a line record |
| Records.FileOfOps | cinst/scripts/build_container_db.py:120-137 | a file of images, whole or cut off inside the last record, parses to exactly its records |
| Records.FileOfLines | cinst/scripts/build_container_db.py:161-168 | likewise for a line file |
| Recorder.BufferedRecorder.constructor | cinst/native/recorder.hpp:394-400 | nothing added and no file yet |
| Recorder.BufferedRecorder.SyncBin | cinst/native/recorder.hpp:419-436 | afterwards the file holds everything added and the buffer is empty |
| Recorder.BufferedRecorder.Add | cinst/native/recorder.hpp:459-466 | the file followed by the live buffer grows by exactly this record; the file is touched only when the buffer is full |
| Recorder.BufferedRecorder.Destroy | cinst/native/recorder.hpp:444-458 | the file holds exactly the history of adds; there is none if nothing was ever added |
| StdioTransform.StdioFile.Fread | cinst/scripts/include/record_reader.hpp:55-56 | whole records are counted and stored, a partial one is consumed without being counted, end of file is flagged exactly on a short read |
| StdioTransform.StdioFile.Fseek | cinst/scripts/include/record_reader.hpp:64-64 | moves the position and clears the end-of-file flag |
| StdioTransform.StdioFile.Fwrite | cinst/scripts/include/record_reader.hpp:65-65 | overwrites the file from the position on |
| StdioTransform.SeekOffsetIsMinus | cinst/scripts/include/record_reader.hpp:64-64 | the unsigned product that the offset is computed by wraps to minus the bytes read |
| StdioTransform.RecordReader.constructor | cinst/scripts/include/record_reader.hpp:33-39 | a reader at the start of its file with no transformers |
| StdioTransform.RecordReader.RegisterTransformer | cinst/scripts/include/record_reader.hpp:70-74 | appends the transformer |
| StdioTransform.ComposeApplies | cinst/scripts/include/record_reader.hpp:57-63 | a rewritten record is the end of a chain of states from the old bytes, one per registered transformer, each the next transformer's image of the one before |
| StdioTransform.MappedApplies | cinst/scripts/include/record_reader.hpp:57-63 | so is every record of a rewritten stretch of the file |
| StdioTransform.RecordReader.TransformBuffer | cinst/scripts/include/record_reader.hpp:57-63 | every record in the buffer has been taken through all transformers, each once and in order |
| StdioTransform.RecordReader.ReadAndRewrite | cinst/scripts/include/record_reader.hpp:55-63 | one read takes a full block or all complete records left, rewritten in the buffer |
| StdioTransform.RecordReader.WriteBack | cinst/scripts/include/record_reader.hpp:64-66 | the buffer overwrites the bytes before the position, which ends where it was |
| StdioTransform.RecordReader.TransformChunk | cinst/scripts/include/record_reader.hpp:53-67 | one round keeps what is done, rewrites one block, and says what is left |
| StdioTransform.RecordReader.TransformLocal | cinst/scripts/include/record_reader.hpp:50-68 | terminates and leaves the block-wise rewriting of the file, for every content and buffer |
| StdioTransform.RewrittenIsWholeFile | cinst/scripts/include/record_reader.hpp:50-68 | that is the whole-file map if the file ends with a complete record or its last block holds none |
| StdioTransform.WholeRecordsMapped | cinst/scripts/include/record_reader.hpp:50-68 | in particular for any whole number of records, an exact multiple of the buffer included |
| StdioTransform.TailDisplaces | cinst/scripts/include/record_reader.hpp:55-65 | for every other length a file and a transformer on which the result differs |
| StdioTransform.FaithfulIff | cinst/scripts/include/record_reader.hpp:50-68 | the exact lengths on which the rewriting is the whole-file map for all contents and transformers |
| Translation.AllAccessors | cinst/scripts/src/addr2id.cpp:250-256 | after all callbacks, in any order, each registered member holds the id of what it held and every other member is untouched |
| Translation.TranslatesRecord | cinst/scripts/src/addr2id.cpp:285-294 | a rewritten record parses to the translated record, for every registration order of its members |
| Translation.TranslatesFile | cinst/scripts/src/addr2id.cpp:241-259 | a rewritten file parses to the translated records and nothing else |
| Translation.ProcessDataFile | cinst/scripts/src/addr2id.cpp:246-258 | registering and rewriting one file leaves the block-wise rewriting, and the record-wise map if it holds whole records |
| Merge.MergeConserves | cinst/scripts/build_container_db.py:138-148 | every record of both streams comes out once and each stream keeps its order |
| Merge.MergeSorts | cinst/scripts/build_container_db.py:145-145 | sorted streams give a sorted result with list records first on ties |
| Merge.MergeUnique | cinst/scripts/build_container_db.py:138-148 | only the merge has these properties |
| Merge.ContainerBuffer.constructor | cinst/scripts/build_container_db.py:121-126 | positioned on the first record |
| Merge.ContainerBuffer.Next | cinst/scripts/build_container_db.py:131-137 | drops one record, and shows the next or none |
| Merge.ContainerBufferSelector.constructor | cinst/scripts/build_container_db.py:139-140 | what is pending is the merge of the files that exist |
| Merge.ContainerBufferSelector.Read | cinst/scripts/build_container_db.py:141-148 | returns the head of the merge and leaves its tail; None exactly when nothing is left |
| Matcher.LookAhead | cinst/scripts/build_container_db.py:173-176 | ends on the latest operation the lookahead accepts, with the next one in the slot |
| Matcher.MatchLine | cinst/scripts/build_container_db.py:162-178 | one line is skipped without consuming anything, or takes its operation |
| Matcher.MatchLines | cinst/scripts/build_container_db.py:159-178 | the loop, early return included, yields the specified matching of the pending operations |
| Matcher.MatchRecords | cinst/scripts/build_container_db.py:151-178 | from raw buffers, present or not, the matching of the merged operations with the lines |
| Pairing.MatchingIsSafe | cinst/scripts/build_container_db.py:161-178 | for any times: a strictly monotone partial matching in which no operation is later than its line |
| Pairing.TakeStartsAnywhere | cinst/scripts/build_container_db.py:173-176 | for any times the lookahead steps over exactly the run of strictly later operations before the line |
| Pairing.PairsWalk | cinst/scripts/build_container_db.py:161-178 | for any times: what each line consumes, and that it is paired with the last of it, or with none |
| Pairing.MatchesExactly | cinst/scripts/build_container_db.py:161-178 | with distinct increasing times an operation and a line are paired if and only if it is the latest one between that line and the one before |
| Pairing.TiedLineTakes | cinst/scripts/build_container_db.py:169-176 | a line tied with an operation takes that operation or the one before it |
| Pairing.ExactIffNoTies | cinst/scripts/build_container_db.py:161-178 | for streams in strict time order the rows are exactly the latest operations between consecutive lines if and only if no operation ties with a line |
| Pairing.TiesDiffer | cinst/scripts/build_container_db.py:169-174 | both happen: the tied operation is taken from the first slot but not by the lookahead, and neither pairing is exact |
| Emission.OneMore | cinst/native/native.cpp:516-591 | one more call adds its own output and flag change to those of the run before |
| Emission.FlagsMean | cinst/native/native.cpp:518-528 | the enable flag says that no disable came since the last enable, the container flag that the latest call noticed while enabled was on a sampled holder, the right-after flag that a line went out and the flag was not unset since |
| Emission.EmittedExactly | cinst/native/native.cpp:516-826 | of any run, a call is emitted exactly if enabled and on a sampled holder, a line exactly if enabled and the latest noticed call was on a sampled holder |
| Emission.MatchPairsUp | cinst/scripts/build_container_db.py:151-178 | the matcher over an ordered run's operations and lines gives each line its latest operation since the previous line |
| Emission.StreamsPairUp | cinst/native/native.cpp:516-826 | splitting a run into list, map and line streams and merging and matching them again loses nothing |
| Emission.EmissionsInOrder | cinst/native/native.cpp:516-826 | from calls with increasing timestamps, whatever the flags let through is in time order |
| Emission.EveryCallGetsItsLine | cinst/native/native.cpp:516-826 | with recording enabled and each call followed by its line, pairing what is emitted gives exactly the sampled calls with their own lines |
| Emission.OwnRowsExactly | cinst/native/native.cpp:516-826 | those rows are at exactly the sampled calls, in order, each with the line number, class and time of the line after it |
| ThreadTracer.Tracer.constructor | cinst/native/native.cpp:35-40 | the flags a thread starts with, and three empty recorders |
| ThreadTracer.Tracer.AddContainerRecord | cinst/native/native.cpp:516-777 | flags and recorders after the call are those of the run extended by it |
| ThreadTracer.Tracer.Record | cinst/native/native.cpp:539-539 | a record goes to the recorder of its kind and to no other |
| ThreadTracer.Tracer.AddContainerLineInfoRecord | cinst/native/native.cpp:816-826 | likewise for a call-site record |
| ThreadTracer.Tracer.SetEnable | cinst/native/native.cpp:791-799 | likewise for enabling and disabling |
| ThreadTracer.Tracer.UnsetRightAfter | cinst/native/native.cpp:779-789 | likewise for clearing the flag |
| ThreadTracer.Tracer.Exit | cinst/native/recorder.hpp:444-458 | the three files a thread leaves hold exactly what its run emits |
| EndToEnd.MatchTranslated | cinst/scripts/build_container_db.py:151-178 | matching translated operations gives the translated rows |
| EndToEnd.InPlaceTranslates | cinst/scripts/include/record_reader.hpp:50-68 | the recorders' files are translated completely, whatever the buffer size |
| EndToEnd.PipelineIsExact | cinst/scripts/build_container_db.py:184-202 | through the files, the loader inserts exactly one row per emitted line with an emitted operation before it, translated at that operation's time |
| EndToEnd.RunIsExact | cinst/scripts/build_container_db.py:184-202 | the same for any run of a thread's calls with increasing timestamps |
| EndToEnd.RunOfCallsIsExact | cinst/scripts/build_container_db.py:184-202 | if each call is followed by its line, the loader's rows are exactly the sampled calls, translated, with their own lines |
| EndToEnd.PerformAll | cinst/native/native.cpp:516-826 | performing a run's calls leaves flags and recorders as the run says |
| EndToEnd.TraceThread | cinst/native/native.cpp:516-826 | performing a run's calls and exiting leaves the three files of what the run emits |
| EndToEnd.TranslateFile | cinst/scripts/src/addr2id.cpp:246-258 | a recorder's file is translated completely; a missing one stays missing |
| EndToEnd.TraceTranslateLoad | cinst/scripts/build_container_db.py:184-202 | tracing, translating in place, loading, merging and matching, one after another, return those rows |
| EndToEnd.RowsJoinAllocations | cinst/scripts/build_container_db.py:199-202 | with tags, a row's holder id is the id of the holder's own ALLOCATIONS row |
| TagCache.StepKeepsInv | cinst/native/native.cpp:952-1004 | every atomic step of any thread keeps the invariant on shared table, caches and threads in the middle of a call |
| TagCache.Reachable | cinst/native/native.cpp:952-1004 | the invariant holds in every state of every interleaving |
| TagCache.AnswerIsTagOrMinusOne | cinst/native/native.cpp:952-974 | a lookup answers -1 or the object's minted tag, never 0 |
| TagCache.AnswersIdentify | cinst/native/native.cpp:981-1003 | equal positive answers, to any threads at any times, are about one object |
| TagCache.AnswersStable | cinst/native/native.cpp:952-980 | after its first answer for an object a thread keeps to it unless it tags the object itself |
| TagCache.AnswerLinearizes | cinst/native/native.cpp:963-973 | each answer is what the shared table held at the answering thread's last decision, or the tag it was giving itself |
| TagCache.FirstLookupAfterTagging | cinst/native/native.cpp:952-980 | a thread's first lookup started after tagging completed answers the tag |
| TagCache.CachedMinusOneIff | cinst/native/native.cpp:963-979 | -1 is cached for an object exactly if the thread has answered -1 for it and not tagged it itself since |
| TagCache.LookupIsFreshIff | cinst/native/native.cpp:952-974 | a lookup started after the tagging completed answers the tag if and only if its thread has not answered -1 before, or has tagged the object itself since |
| TagCache.StaleAnswer | cinst/native/native.cpp:970-973 | a run in which a lookup answers -1 although the tag is in the shared table |
| TagProgress.MidCallStep | cinst/native/native.cpp:952-1003 | a thread in the middle of a call has exactly one next step, and it brings the call nearer to its end |
| TagProgress.CallsAreShort | cinst/native/native.cpp:952-1003 | whatever other threads do in between, a call takes at most three steps after its first |
| TagProgress.TagIsMintNumber | cinst/native/native.cpp:994-996 | an object's tag is 10 plus the number of tags minted before it |
| TagProgress.SharedIffPublished | cinst/native/native.cpp:981-1003 | the shared table holds exactly the tags whose tagging has completed |
| TagProgress.LookupAnswers | cinst/native/native.cpp:952-974 | every run in which a thread is idle extends by at most four of its steps to one in which its lookup answers: the tag if that is published and the thread holds no -1 for the object, -1 otherwise |
| TagProgress.TaggingEnds | cinst/native/native.cpp:987-1003 | and by at most three to one in which it has tagged an object, with the next number in both tables |
| TagCache.TagsFitAddresses | cinst/native/native.cpp:994-996 | tags below 2^32 - 1 fit the 32-bit members, apart from null and the unknown marker and from each other |
| TagCache.AnswerInRecord | cinst/native/native.cpp:534-535 | an answer stored in a record is the tag itself or the unknown marker |
| TagsJoin.MintedTagsAreTagged | cinst/native/native.cpp:987-1003 | the tags of any run are what the offline join asks of a tagged trace |
| TagsJoin.AnswersJoinAllocations | cinst/native/native.cpp:952-1004 | in any interleaving an answer of -1 is not sampled and translates to unknown; any other is sampled and translates, at all times, to the id of the object's own row |
| TagsJoin.SameIdSameObject | cinst/scripts/src/addr2id.cpp:241-259 | two sampled references in the database are equal exactly if the objects were the same |
| ContainersTable.RowNamesObjects | cinst/scripts/build_container_db.py:29-57 | for every kind of call and any line, the holder, reference, key and value columns of the row name the objects the call was about by their own ALLOCATIONS ids, or are unknown or null; the other columns carry the call's values and the line's number and class |
| ContainersTable.LoadedRowsTellTheirCalls | cinst/scripts/build_container_db.py:184-202 | the rows loaded for a thread whose calls are each followed by their line: one per sampled call, in order, all ten columns saying what that call and that line said |
| Coalesce.ContainerOp.constructor | cinst/scripts/RT_query.py:119-128 | the fields as given |
| Coalesce.ContainerOp.AddOpForLoop | cinst/scripts/RT_query.py:137-149 | a loop is extended in place and returned; a get is left as it was and becomes a new loop; marker, count, last index and the fields kept are stated one by one |
| Coalesce.ContainerOp.CreateLoopOp | cinst/scripts/RT_query.py:154-157 | a new object with the loop marker and the same fields |
| Coalesce.CoalesceGroup | cinst/scripts/RT_query.py:170-186 | the pass over mutable operations, aliasing included, emits the specified entries, and an emitted one is not changed afterwards |
| Loops.AdvanceExpands | cinst/scripts/RT_query.py:173-185 | one step adds to the expansion exactly what the new row did |
| Loops.CoalescingIsInvertible | cinst/scripts/RT_query.py:170-186 | expanding every entry gives back each get at its index and position and of each run of mutations the last |
| Loops.CoalescedIsCanonical | cinst/scripts/RT_query.py:173-186 | no two neighbouring gets could be merged and no two neighbours are both mutations |
| Loops.CanonicalIsUnique | cinst/scripts/RT_query.py:173-186 | canonical lists with the same expansion are the same in ranges, counts and positions |
| Loops.CoalescedIsTheCompression | cinst/scripts/RT_query.py:173-186 | the output is the one canonical compression of the history |
| Stretch.EntriesAreStretches | cinst/scripts/RT_query.py:173-186 | the rows behind the entries are consecutive stretches that together are the group; two or more gets give an entry marked -2 with the first row's fields, their number and the last index, one get or a run of mutations the last row's fields |
| Stretch.CountsAreGets | cinst/scripts/RT_query.py:143-149 | counts of get entries sum to the number of gets |
| Traversal.GroupByHolder | cinst/scripts/RT_query.py:163-166 | each holder's group is what the rows hold at exactly the holder's positions, in increasing order; holders appear once, and only those with a row |
| Traversal.CollectGroups | cinst/scripts/RT_query.py:163-166 | the loop builds exactly these groups |
| Traversal.OfHolderIsGroup | cinst/scripts/RT_query.py:163-166 | a strictly increasing sequence of positions, exactly those of the holder's rows, reads the group off the rows |
| Traversal.CoalesceAll | cinst/scripts/RT_query.py:169-189 | every group is coalesced, and none disturbs another |
| Traversal.Bump | cinst/scripts/RT_query.py:207-211 | adds one hit to the record of its key and to no other, creating it if needed |
| Traversal.CountGroup | cinst/scripts/RT_query.py:201-212 | adds exactly the group's hits to the records |
| Traversal.CountAll | cinst/scripts/RT_query.py:200-212 | the records are the sums over all hits of all groups, key by key |
| Traversal.FindTraversals | cinst/scripts/RT_query.py:163-212 | the records of the report are those of the coalesced groups of the rows |
| TraversalReport.HitsExactly | cinst/scripts/RT_query.py:202-211 | the hits are at exactly the neighbouring entries that are both gets or loops of more than five, in order, with their own sites and counts |
| TraversalReport.AllHitsAreAll | cinst/scripts/RT_query.py:200-212 | the hits of the report are those of all groups one after the other |
| TraversalReport.TallySumsItsHits | cinst/scripts/RT_query.py:207-211 | a key's record sums first and second counts over exactly the hits of that key, and counts those hits |
| TraversalReport.HitsAreBackToBackPasses | cinst/scripts/RT_query.py:206-211 | each counted pair is two passes of more than five gets at consecutive indices from one site each, with no recorded row between them |
| TraversalReport.HitsAreOfTheHistory | cinst/scripts/RT_query.py:202-212 | the hits are exactly the long neighbours of any canonical description of the history; none is missed |
| TraversalReport.KeysShareTheHits | cinst/scripts/RT_query.py:207-211 | over all keys the records hold exactly the hits, over fewer keys no more |
| TraversalReport.ReportCountsLongLoops | cinst/scripts/RT_query.py:206-211 | for each key both counts are at least six times its loop count |
| TraversalReport.GroupsShareTheGets | cinst/scripts/RT_query.py:163-166 | grouping neither loses nor repeats a get |
| TraversalReport.ReportConservesGets | cinst/scripts/RT_query.py:192-212 | over any keys the first counts, and likewise the second, sum to no more than the gets recorded |

## Assumptions

- Timestamps are given numbers. Where a theorem needs them distinct or increasing,
  its `requires` says so; one thread's monotonic clock and the collector's clock are
  taken as one order, as the program takes them.
- C structures are laid out by the usual rule (a member at the next multiple of its
  alignment, a structure padded to its own), the machine is little-endian, and
  `fread`, `fseek` and `fwrite` on one file behave as in the C standard, with a
  partial last item consumed but not counted.
- An object is tagged at most once, and references passed to a lookup are not null.

## Left out

- JVMTI and JNI set-up, class retransformation, call traces and agent callbacks: foreign calls; GetTag and SetTag are reads and writes of per-environment maps.
- The socket client and its bytecode server, the clock sources and the memmove interposer: they produce bytes and times that are taken as given.
- SQLite and every SQL query: the traversal model starts from the time-ordered rows the query returns, and the loader model ends at the rows handed to the insert.
- RecordBuffer in build_container_db.py: no caller uses what it returns, and it reads a field the line record does not have.
- PutField, AASTORE, Use, Construct, Free and field, string and CSV records: the same recorder and the same translation, with fewer members.
- Directory scanning and file names: files are given as sequences; the order in which they are read is a parameter that the file-order theorems quantify over.
- Sampling: whether an allocation is tagged is a nondeterministic choice of the step relation.
- Sorting and printing the report: conservation is stated over any keys, so also over the twenty-one printed.
- The string form of a traversal position: the class name and line are kept as a pair.
- Traversal.Bump: models the records of the report as values in a map; the original updates one object per key, to which nothing else refers.
- Translation.ProcessDataFile: does not capture the callbacks' reference to the live map; each callback is a function of the map's insertion history, which no longer changes when files are rewritten.
- EndToEnd.TraceTranslateLoad: chains in one method what the agent, addr2id and the loader do as separate programs, with the address map given by its insertion history.
- Matcher.MatchRecords: parses the line buffer before the loop instead of one record at a time.
- StdioTransform.RecordReader.constructor: does not cover buffers of 2^31 records or more, whose count the program keeps in an int.
- StdioTransform.RecordReader.TransformLocal: covers buffers shorter than 2^31 records whose bytes fit half of the 64-bit range, so that the count and the seek offset do not overflow; the program uses 1024 records.
- Recorder.BufferedRecorder.constructor: asks for a limit of at least 1, because with 0 the first record is written past the buffer; the program uses 4096.
- TagCache.Reachable: the tag counter does not wrap at 64 bits.
- GC relocation of tags held by the virtual machine: tags do not depend on addresses, so only the address-based records go through relocations.
