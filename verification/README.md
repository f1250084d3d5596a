# littlefs_v2, modelled in Dafny

This project models the core of the littlefs_v2 file system and proves what it promises: that the log of a
directory means the same however it is read or rewritten, that a commit either happens or does not, that files
are copied on write, and that the caches between them and the device cannot be told from the device.

It follows the program from the bytes up:

| modules | what they model |
|---|---|
| Bits, Words, Device, Options, Popcount, Crc | words, bytes on a block device, counting ones, the checksum |
| Tags, TagLog | 32-bit tags, and logs of entries: replaying one, and looking back through one |
| RawLog, Lookup, Match, Fetch, FetchMatch, Find | the log in a block: the chain of tags, looking up, comparing names, fetching, searching a pair and a directory of several pairs |
| Commit, PowerLoss, Flash, Pairs | writing a commit, and what a fetch finds when power is lost on the way |
| Compaction, Traverse, Splitting, Attributes, LogReader, CompactedLog, CommitMeaning | rewriting a log, alone or over several pairs, and what it means afterwards |
| Directory, DirCommit, GlobalState, Mounting, Rename | a directory in memory and on disk, the state that is spread over all pairs, moving a file |
| CtzIndex, CtzList, CowFile, Allocator, Reached | the skip-list of the blocks of a file, writing files, handing out blocks and finding those in use |
| BlockCache, PageCache | the block caches, and the page cache of the example's file objects |

Code that changes things in place is modelled by classes and methods with loops; each is proved against a function
of its inputs or of the old state, and the theorems are about those functions. The configuration is the one that
the repository builds (src/example/lfs_interface.cpp:467-476): little-endian, read_size = write_size = 1,
erase_size = block_size, metadata_max = 0, block_cycles = -1. Words are natural numbers below 2^32; wherever the
program's arithmetic wraps around, so does the model's.

A `Dir` is what a log says: one slot of entries for each file id, in the order of their ids. `Replay` is the plain
meaning of a log: apply its entries one after the other, where a create or a delete moves the later slots up or
down. `Compact(items, begin, end)` is what a traversal of a log and its pending attributes keeps.

## Model

| member | source | states |
|---|---|---|
| Crc.TableIsPolynomialDivision | include/lfs_utility.h:411-425 | for every state and every message the nibble table computes bit-by-bit division by the reflected CRC-32 polynomial |
| Crc.Compute | include/lfs_utility.h:411-425 | the loop over the buffer equals the fold that TableIsPolynomialDivision, BurstDetected and Residue are about |
| Crc.BurstDetected | src/littlefs_v2/lfs_commit.cpp:151-179 | messages that differ only within four consecutive bytes never have the same checksum, whatever surrounds them |
| Crc.Residue | src/littlefs_v2/lfs_commit.cpp:151-179 | a message followed by its own checksum divides to zero, which the check after a commit relies on |
| TagLog.LookBackIsReplay | src/littlefs_v2/lfs_metadata.cpp:19-62 | for every well-formed log, with creates and deletes that shift ids, walking back with a shifting id finds what a plain replay from the front leaves in that slot, and nothing where it leaves nothing |
| Lookup.GetSlice | src/littlefs_v2/lfs_metadata.cpp:5-77 | the walk over the bytes finds, for every slice, what replaying the log leaves for the file that users see under the id, that is without one that is being moved away; the answer is the entry's bytes and then zeros |
| Lookup.WantedIsSeen | src/littlefs_v2/lfs_metadata.cpp:13-18 | starting the walk one id further from the file that is being moved away on finds what is left once that file is taken out of the list, for every id and every moved file |
| Lookup.Get | src/littlefs_v2/lfs_metadata.cpp:79-82 | the same from offset 0, as much as the tag has room for |
| Lookup.GetAnyId | src/littlefs_v2/lfs_metadata.cpp:5-77 | under a mask without an id (as for the global state) the last entry of the type is found, if it is not a deletion |
| Match.BlockCmp | src/littlefs_v2/lfs_device.cpp:177-206 | comparing in pieces of 256 bytes is comparing the whole, and the first difference decides |
| Fetch.FetchedIsLongest | src/littlefs_v2/lfs_metadata.cpp:457-577 | what a fetch believes is an intact log, and every intact log in the block is a prefix of it |
| Fetch.FetchBlock | src/littlefs_v2/lfs_metadata.cpp:457-660 | the scan of one block yields end, tag, count, tail and split of that longest log, whether the rest is erased, and the best match for a name as of its last intact commit |
| Pairs.FetchPair | src/littlefs_v2/lfs_metadata.cpp:411-708 | of the two blocks the one with the newer revision is taken, by wrapping sequence comparison, and the other one if it holds nothing intact |
| Pairs.LatestIsFound | src/littlefs_v2/lfs_metadata.cpp:427-455 | the block that is up to 2^31 - 1 revisions ahead is the one that is found, across the wrap-around, and the other one exactly if nothing in it is intact |
| FetchMatch.FindsOrPlaces | src/littlefs_v2/lfs_metadata.cpp:579-696 | in a sorted directory, for every order in which names, creates and deletes came, the match is valid exactly if the name is there and then is its only tag under its current id; if not, inserting at its id keeps the order |
| FetchMatch.FetchMatch | src/littlefs_v2/lfs_metadata.cpp:411-708 | the same for the whole operation, with a file that is being moved away hidden; the search is to go on in the next pair exactly if all names here are less, unless a pending move shifts the gap behind the last file into the pair |
| Find.FindName | src/littlefs_v2/lfs_metadata.cpp:897-919 | over all pairs of a split directory: a file that users see is found if and only if no pair before it overlooks what follows, and then under its id; if there is none, the place keeps all names in order unless the search ended at such a pair |
| Find.FileIsOverlooked | src/littlefs_v2/lfs_metadata.cpp:664-695 | the input: files "a" and "c", "c" deleted, then "a" being moved away: the search for "c" ends here although all names are less |
| Find.GetByName | src/littlefs_v2/lfs_metadata.cpp:884-919 | a lookup under the id that was found yields what belongs to the one file of that name, whatever is pending, for every type and mask |
| FetchMatch.CountIsReplay | src/littlefs_v2/lfs_metadata.cpp:579-596 | the count that a fetch keeps step by step is the number of files that replaying the log leaves |
| FetchMatch.RenamedInPlaceIsMisplaced | src/littlefs_v2/lfs_metadata.cpp:647-653 | why a file is to be named once: after "c" was written over "b" a search for "b" gives up its place as well |
| Commit.Writer.Attribute | src/littlefs_v2/lfs_commit.cpp:22-79 | an entry is appended to the log on disk exactly if it fits; checksum, last tag and offset stay in step with the bytes |
| Commit.Writer.Close | src/littlefs_v2/lfs_commit.cpp:81-190 | the commit becomes an intact log that the next fetch stops at: whatever word follows, it reads as invalid; a fetch takes the rest for erased exactly if that word did so before; the check that reads it back passes, also where the entry does not fit the block and nothing was committed |
| Commit.ZerosAreNotErased | src/littlefs_v2/lfs_metadata.cpp:498 | an input where the rest is not taken for erased: the first commit to a block that is left all zeros |
| Commit.NothingIsCommittedIffItFits | src/littlefs_v2/lfs_commit.cpp:81-190 | a commit without entries is found by a fetch if and only if 16 bytes are left in the block |
| Commit.FullBlockLosesEmptyCommit | src/littlefs_v2/lfs_commit.cpp:81-101 | an input where they are not: a block of 128 bytes after the commit of a name of 96 bytes |
| PowerLoss.TornCommitIsOldOrNew | src/littlefs_v2/lfs_commit.cpp:22-190 | power lost after any number of bytes: the old log is found, or all of the new bytes are there; tears within the checksum need no assumption |
| PowerLoss.AbandonedOnBlank | src/littlefs_v2/lfs_commit.cpp:22-60 | whole entries without a checksum over erased flash are never taken for a commit |
| PowerLoss.StaleUnderNewRevision | src/littlefs_v2/lfs_commit.cpp:374-387 | an old log under another revision is not intact: its first checksum vouches for the revision |
| Flash.TornOnBlank | src/littlefs_v2/lfs_commit.cpp:22-79 | over erased flash nothing that is torn before the tag of the checksum passes for a commit, wherever within an entry the programming stopped |
| Pairs.AppendIsAtomic | src/littlefs_v2/lfs_commit.cpp:705-797 | an append torn at any byte leaves the pair with its old directory, or whole |
| Pairs.CompactIsAtomic | src/littlefs_v2/lfs_commit.cpp:346-485 | a compaction into the other block, erased or not, torn at any byte leaves the old directory, or is whole |
| Pairs.NoEraseIsHarmless | include/lfs_block_device.h:151-154 | where an erase does nothing, tears within the revision need no assumption |
| Pairs.BlankTearIsHarmless | src/littlefs_v2/lfs_commit.cpp:22-190 | over erased flash no tear needs one, except within the tag of the checksum |
| Pairs.OtherIsNotSeen | src/littlefs_v2/lfs_metadata.cpp:427-455 | the block that is being erased is not seen, whatever revision its remains claim |
| Pairs.FinishedCompactIsFetched | src/littlefs_v2/lfs_metadata.cpp:427-455 | a finished compaction is what a fetch finds, wherever the revisions wrap around |
| Compaction.CompactionPreservesMeaning | src/littlefs_v2/lfs_metadata.cpp:151-409 | for every file that is kept and every lookup no coarser than its class, the compacted log answers as the old log followed by the attributes does, renumbered, if and only if what is asked for is not hidden behind a later entry of its class |
| Compaction.CompactionPreservesFiles | src/littlefs_v2/lfs_metadata.cpp:151-409 | lookups of a name and of a struct as a class, and of each of the 256 user attributes by itself, are preserved without condition |
| Compaction.NothingTwice | src/littlefs_v2/lfs_metadata.cpp:151-190 | a compacted log is as small as it can be: of each file one name, one struct, and one entry of each user attribute |
| Compaction.RemovalIsKeptIffLast | src/littlefs_v2/lfs_metadata.cpp:151-190 | entries that remove something are not kept, except for one that nothing follows at all |
| Compaction.CompactedLogAnswersAlike | src/littlefs_v2/lfs_commit.cpp:389-398 | the same, from a log on disk and the attributes in memory |
| Compaction.OutlinedFileForgetsInline | src/littlefs_v2/lfs_metadata.cpp:169-173 | where the condition fails: an inline struct that was replaced by a ctz struct is found by its exact type before a compaction and not after |
| Compaction.CreateSurvivesIffLast | src/littlefs_v2/lfs_metadata.cpp:151-190 | a create on disk since the last compaction survives the next one exactly if it was at the end of the list |
| Compaction.DeleteSurvivesIffLast | src/littlefs_v2/lfs_metadata.cpp:151-190 | a delete on disk survives the next compaction exactly if it removed the last file |
| Compaction.SplicedLogLosesNames | src/littlefs_v2/lfs_metadata.cpp:175 | the smallest input: "b" is created, then "a" before it, then a compaction keeps only "a" |
| Traverse.TraverseFilter | src/littlefs_v2/lfs_metadata.cpp:151-190 | the filter on words, with the bit that tells disk from memory, is the filter on entries |
| Traverse.Traverse | src/littlefs_v2/lfs_metadata.cpp:192-409 | the traversal with its stack of frames calls its callback with exactly the entries of `Compact`, in their order, whatever was created and deleted on disk |
| Traverse.RoomToTraverse | src/littlefs_v2/lfs_metadata.cpp:171-183 | all it takes is that ids leave room for the files that are still to be created |
| Splitting.SplitPoint | src/littlefs_v2/lfs_commit.cpp:534-587 | the halving ends; nothing is split off if and only if there is one file, or there are less than 255 whose entries take at most half a block and leave 72 bytes; what is split off fits or is a single file |
| Splitting.SplitIsFirstThatFits | src/littlefs_v2/lfs_commit.cpp:541-581 | it is the first of the places half way to the end, half way from there and so on, from which on the files fit |
| Splitting.SplitPreservesMeaning | src/littlefs_v2/lfs_commit.cpp:530-653 | however the files are spread over pairs, each lookup is answered by the pair that got the file as compaction would |
| CompactedLog.FitsIsEnough | src/littlefs_v2/lfs_commit.cpp:534-587 | what the split loop adds up is enough: header, entries, tail, global state and checksum all find room, so a compaction after it cannot run out |
| CompactedLog.CompactedDirAnswersAlike | src/littlefs_v2/lfs_commit.cpp:346-468 | a lookup in the new log, with its tail, global state and checksum, answers as the old log followed by the attributes, under the same condition |
| CompactedLog.CountIsNamed | src/littlefs_v2/lfs_commit.cpp:389-484 | the count kept in memory is the one a fetch will count if the last file has a name, and only then if all names are whole |
| Directory.MetadataDir.Append | src/littlefs_v2/lfs_commit.cpp:705-797 | succeeds exactly if there is room, or nothing to write; then memory says what a fetch decodes and power loss at any byte is safe, except that a commit of nothing that runs over the end of the block is not found; if it fails the log persists, and is the current one if what was written does not pass for a commit |
| Directory.MetadataDir.Compact | src/littlefs_v2/lfs_commit.cpp:328-485 | whatever the history of the log: succeeds exactly if the entries fit, and then the new log is current and crash-safe at every byte; the count in memory is right if (and, for whole names, only if) the last file has a name; if it fails, the old directory is found |
| Directory.MetadataDir.ValidAgrees | src/littlefs_v2/lfs_metadata.cpp:471-557 | offset, tag, count, tail and split in memory are what a fresh fetch decodes |
| CommitMeaning.AppendedAnswersAlike | src/littlefs_v2/lfs_commit.cpp:705-797 | after an append, looking back in the new log finds what the old log followed by the attributes says |
| CommitMeaning.SplitAnswersAlike | src/littlefs_v2/lfs_commit.cpp:530-653 | after a compaction with splits, each file is answered for by the directory or by one new pair, as before |
| DirCommit.CompactFresh | src/littlefs_v2/lfs_commit.cpp:267-301 | a split writes an intact log into a fresh pair, which takes up the whole change of the global state |
| DirCommit.SplitFiles | src/littlefs_v2/lfs_commit.cpp:530-653 | files are split off from the back, each time as many as SplitAt says, into the spare pairs in turn, and it stops only where no split is needed, no pair is left, or the pair cannot take the files |
| DirCommit.NewPairsAreLinked | src/littlefs_v2/lfs_commit.cpp:267-301 | fetched again, each new pair says that the directory goes on in the one after it, and the last one leads where the directory led |
| DirCommit.Volume.TryAppend | src/littlefs_v2/lfs_commit.cpp:705-797 | appending stores the change of the global state with the attributes; the pairs then add up to the new state; what lay in the block does not matter |
| DirCommit.Volume.SplitCompact | src/littlefs_v2/lfs_commit.cpp:530-653 | the new pairs are linked by their tails and to the old successor, each is intact, and their deltas and the directory's add up to the new state; it succeeds exactly if what was not split off fits |
| DirCommit.Volume.RelocatingCommit | src/littlefs_v2/lfs_commit.cpp:655-811 | a commit is appended exactly if it fits, and else compacted, whatever the history of the log and the rest of its block; it ends with the old directory or with the attributes in effect, and with conserved global state; after running out of space, exactly when no file was split off or nothing had changed |
| DirCommit.Volume.DropNext | src/littlefs_v2/lfs_commit.cpp:240-265 | a pair is taken off the list: appended exactly if the tail and the change fit, and else compacted exactly if that fits; the pairs that are left add up to the new state, and the directory leads on; if there is no space and nothing was split off, the sum is right exactly if the pair stored no delta |
| GlobalState.CommitConserves | src/littlefs_v2/lfs_commit.cpp:431-492 | a commit to any number of pairs that take up the change leaves the xor of all stored deltas equal to the state in memory, up to the count of orphans |
| GlobalState.DropConserves | src/littlefs_v2/lfs_commit.cpp:240-265 | a dropped pair's delta, kept in memory, keeps the sum |
| GlobalState.GetGstate | src/littlefs_v2/lfs_metadata.cpp:718-738 | xors in what the last stored delta of the log decodes to |
| GlobalState.DecodeEncodes | include/lfs_utility.h:398-409 | a state that is stored is read back, tag and addresses each from its place |
| GlobalState.CancelledIffSame | src/littlefs_v2/lfs_commit.cpp:428-465 | a compaction stores no delta exactly if the change takes back what was stored |
| Mounting.Mount | src/littlefs_v2/lfs_general.cpp:685-876 | on every disk whose pairs can be fetched: following the tails from blocks 0 and 1 rebuilds the state that all pairs on the list add up to, with one orphan more if its bit is set, and fails exactly if the list goes on for as many pairs as there are blocks for |
| Mounting.WalkExists | src/littlefs_v2/lfs_general.cpp:685-705 | every such disk, with cycles or without, has a list of tails as Mount and Report ask for |
| GlobalState.PrepMoveClears | src/littlefs_v2/lfs_operations.cpp:214-221 | clearing the move leaves no move exactly if there are no orphans, and their count as it was |
| GlobalState.PrepMoveSets | src/littlefs_v2/lfs_operations.cpp:214-221 | a move that was noted is seen with its file and its pair, and the count of orphans stays |
| GlobalState.MoveHereIffShared | include/lfs_utility.h:388-390 | a move is out of a pair exactly if the two have a block in common, in whatever order |
| Rename.MovedIsWhole | src/littlefs_v2/lfs_metadata.cpp:298-345 | from a log whose creates and deletes were at the end of the list a move takes along the struct of the file and each of its user attributes of the types 0x300 to 0x3ff, as replay has them |
| Rename.AttributeIsMoved | src/littlefs_v2/lfs_metadata.cpp:343-344 | an input: of a file with a name, a struct and the user attribute 0x374 the last two are moved |
| Rename.MovesSurviveCreateIffLast | src/littlefs_v2/lfs_metadata.cpp:298-345 | after one create on disk in such a log, every file can be moved whole if and only if it was at the end of the list |
| Rename.MovesSurviveDeleteIffLast | src/littlefs_v2/lfs_metadata.cpp:298-345 | after one delete, if and only if it removed the last file |
| Rename.MoveTakesNext | src/littlefs_v2/lfs_metadata.cpp:175 | what is moved instead, after a create below the file: all there is of the file that comes next |
| Rename.SplicedLogMovesAnother | src/littlefs_v2/lfs_metadata.cpp:175 | an input: "b" and "c" are created, then "a" before both; a move of "b" takes the struct of "c" |
| Rename.SplicedLogMovesNothing | src/littlefs_v2/lfs_metadata.cpp:175 | an input where no file comes next: "b" is created, then "a" before it; a move of "b" takes nothing |
| Rename.NewFileIsOld | src/littlefs_v2/lfs_general.cpp:396-406 | the file under its new name has the new name, and the struct and each user attribute that it had |
| Rename.OthersStay | src/littlefs_v2/lfs_general.cpp:396-425 | two pairs: every other file keeps all it has, under the id that the create and the delete leave it |
| Rename.OthersStayHere | src/littlefs_v2/lfs_general.cpp:346-406 | one pair: the same, with both shifts in one commit, whichever of the two ids is less |
| Rename.Mover.Rename | src/littlefs_v2/lfs_general.cpp:325-438 | at every commit boundary users see the file under the new name only, and all others as they were |
| Rename.Mover.RenameFile | src/littlefs_v2/lfs_general.cpp:296-438 | with what the move takes from the log of the old pair: every lookup at the old name before is the lookup at the new name after, at every commit boundary |
| Rename.Mover.Demove | src/littlefs_v2/lfs_operations.cpp:223-260 | repairing a cut-short move changes nothing that users see, at any boundary |
| Rename.Mover.CrashedRename | src/littlefs_v2/lfs_operations.cpp:223-260 | a rename that stopped after its first commit, the mount and the repair: users see the rename done all along |
| Popcount.Popc64 | include/lfs_utility.h:222-227 | counting in fields with masks, shifts and one wrapping multiplication counts the ones of every 64-bit word |
| CtzIndex.PopcStep | src/littlefs_v2/lfs_file_index.cpp:4-17 | the identity behind the closed form: popc(n) + ctz(n) == popc(n - 1) + 1 |
| CtzIndex.Ctz64 | include/lfs_utility.h:212-220 | finds the lowest bit that is set |
| CtzIndex.LiesOnce | src/littlefs_v2/lfs_file_index.cpp:4-17 | a byte lies at one place only when bytes are laid out after ctz(n) + 1 pointers in each block n |
| CtzIndex.Index | src/littlefs_v2/lfs_file_index.cpp:4-17 | the division with one correction finds that place for every 64-bit size, without underflow; the number of the block is right exactly if it fits an int |
| CtzList.Find | src/littlefs_v2/lfs_file_index.cpp:19-56 | ends at the block of the position, reads only pointers that the block holds, never overshoots, and hops at most as often as HopsLeft says |
| CtzList.HopsBound | src/littlefs_v2/lfs_file_index.cpp:19-56 | that is at most two hops for each binary digit of the distance |
| CtzList.Extend | src/littlefs_v2/lfs_file_index.cpp:58-181 | only the new block changes, all its pointers are right, the file reads as before, and the next byte goes to the place returned |
| CtzList.Traverse | src/littlefs_v2/lfs_file_index.cpp:183-231 | the blocks are visited in the given order, read through the first two pointers only |
| CtzList.VisitsEach | src/littlefs_v2/lfs_file_index.cpp:183-231 | that order has every block once, except that the one below a last block with an odd number comes twice |
| CowFile.FlushedRead | src/littlefs_v2/lfs_file.cpp:476-546 | reads a stretch of the bytes that the chain holds, across blocks |
| CowFile.File.FlushedWrite | src/littlefs_v2/lfs_file.cpp:566-676 | the bytes go to fresh blocks, after a copy of what came before; the old chain still reads the same, also when blocks run out, and that is exactly if the bytes reach into more new blocks than there are |
| CowFile.File.CopyRest | src/littlefs_v2/lfs_file.cpp:346-396 | copying over what follows does not change what the file will hold |
| CowFile.File.Flush | src/littlefs_v2/lfs_file.cpp:322-413 | the new chain replaces the old one only when it is whole; the content is unchanged either way; it fails exactly if the copy of the rest takes more blocks than there are |
| CowFile.File.Read | src/littlefs_v2/lfs_file.cpp:548-564 | reads the content at the cursor, after flushing what was written, and fails exactly if that does, never if nothing was written |
| CowFile.File.Seek | src/littlefs_v2/lfs_file.cpp:731-792 | moves the cursor and nothing else, with the same condition unless it is there already |
| CowFile.File.Write | src/littlefs_v2/lfs_file.cpp:678-729 | the content becomes the old one with the bytes spliced in at the cursor, and zeros in a gap; it fails exactly if gap and bytes reach into more new blocks than there are, and then holds what came before that |
| CowFile.KeptReads | src/littlefs_v2/lfs_file.cpp:322-413 | until the directory entry is written every chain that it may still lead to reads as it did then |
| Allocator.WindowOffsetIsDistance | src/littlefs_v2/lfs_allocator.cpp:4-18 | the subtraction that may wrap around yields the distance of a block from the start of the window |
| Allocator.Lookahead.Alloc | src/littlefs_v2/lfs_allocator.cpp:33-89 | between two acknowledgements no block is handed out twice nor one that is in use; no space is reported only after every block was examined, and a failed traversal only after the rest of the window; the loops end |
| Reached.Report | src/littlefs_v2/lfs_operations.cpp:4-113 | follows the list of tails, looks up the struct of every file that users see, and goes through what is open: what is reported is InUse; fails exactly if the list goes on for too long |
| Reached.PairsAreInUse | src/littlefs_v2/lfs_operations.cpp:23-31 | that includes both blocks of every pair on the list |
| Reached.FilesAreInUse | src/littlefs_v2/lfs_operations.cpp:40-80 | all blocks of every file whose struct is found to be a skip-list, by whatever chain it is known, and with orphans the pairs of directories |
| Reached.StructIsRead | src/littlefs_v2/lfs_file.cpp:441-456 | the struct that a sync writes, and the one that makes a directory, are read back with head and size, or both blocks, in their places |
| Reached.OpenFileIsInUse | src/littlefs_v2/lfs_operations.cpp:84-110 | of an open file the chain that is being written, even if nothing was flushed yet, and the one it had before while its directory entry does not refer to it |
| Reached.OnlyNeededIsInUse | src/littlefs_v2/lfs_operations.cpp:4-113 | and nothing else |
| Reached.ChainIsUnique | src/littlefs_v2/lfs_file_index.cpp:183-231 | the pointers in the blocks leave one way back from the last block of a file |
| Reached.NewBlock | src/littlefs_v2/lfs_allocator.cpp:33-89 | a block that is handed out was not in use when the window was filled, nor handed out since |
| BlockCache.Read | src/littlefs_v2/lfs_device.cpp:86-174 | reads the device overlaid by the write cache, wherever the two caches lie and however they overlap, and ends |
| BlockCache.Compare | src/littlefs_v2/lfs_device.cpp:177-206 | comparing in pieces through the read cache tells exactly whether the device holds the bytes |
| BlockCache.Write | src/littlefs_v2/lfs_device.cpp:261-312 | device and write cache together hold the bytes at once, whatever was flushed on the way, and even if the read cache is stale; it becomes stale at most without the check, and if it lies in that block |
| BlockCache.Flush | src/littlefs_v2/lfs_device.cpp:208-243 | the device becomes what device and write cache held; with the check the read cache is good afterwards, without it exactly if it agrees with what was programmed |
| BlockCache.Sync | src/littlefs_v2/lfs_device.cpp:245-259 | the same, and the read cache is good even if it was stale, because it is dropped first |
| BlockCache.UncheckedKeepsCopies | src/littlefs_v2/lfs_device.cpp:208-243 | without the check the read cache stays good if and only if it lies elsewhere or agrees where the two overlap |
| PageCache.PageFile.Read | src/example/lfs_interface.cpp:179-210 | reads the array's bytes at the cursor |
| PageCache.PageFile.Write | src/example/lfs_interface.cpp:212-239 | splices the bytes into the array at the cursor |
| PageCache.PageFile.Seek | src/example/lfs_interface.cpp:265-282 | moves the cursor, and fails exactly before the beginning |
| PageCache.PageFile.Flush | src/example/lfs_interface.cpp:152-177 | the file below becomes the array, and no page is dirty |
| PageCache.HandOnKeeps | src/example/lfs_interface.cpp:152-177 | handing on the dirty pages in ascending order never leaves a hole, and users see no change at any step |
| PageCache.CleanIsDisk | src/example/lfs_interface.cpp:152-177 | when no page is dirty the file below is the array, because every page that reaches past the file below must be dirty |

## Findings

Where the code does not keep what it promises, the model follows the code; each entry names the input and the exact
condition.

- Names are lost by compaction. The filter's splice shift (src/littlefs_v2/lfs_metadata.cpp:175) compares a type that
  keeps bit 31 (include/lfs_utility.h:307-317), and a traversal sets bit 31 on every tag it reads from disk
  (src/littlefs_v2/lfs_metadata.cpp:230), so creates and deletes on disk shift nothing. Input: create "b", create "a"
  before it, compact: "b" is gone (`SplicedLogLosesNames`). After any history at the end of the list, the first create
  or delete somewhere else is the one that matters: a compaction after it preserves all lookups if and only if it was at
  the end of the list as well (`CreateSurvivesIffLast`, `DeleteSurvivesIffLast`). The meaning theorems ask for such logs
  by `CanTakeAll`, and a log that was just compacted is one; everything else about compaction holds for all logs.
- A move takes along the wrong entries, for the same reason: those that are on disk under the id of the file, which after
  a create below it are the ones of the next file (`MoveTakesNext`). Input: create "b" and "c", create "a" before both,
  move "b": the struct of "c" is moved (`SplicedLogMovesAnother`); if "b" was the last file nothing is
  (`SplicedLogMovesNothing`). After one create or delete on disk every file can be moved whole if and only if it was at
  the end of the list (`MovesSurviveCreateIffLast`, `MovesSurviveDeleteIffLast`).
- A struct looked up by its exact type is hidden by a later struct of another type once the log is compacted
  (`OutlinedFileForgetsInline`); the exact condition is `Shows` in `CompactionPreservesMeaning`.
- After a commit a fetch takes the rest of the block for erased if and only if the word that follows there read as an
  invalid tag before it (`Writer.Close`), because the type of the last tag is compared with the reset bit in it
  (src/littlefs_v2/lfs_metadata.cpp:498). Input: a block that is left all zeros (`ZerosAreNotErased`); in memory `erased`
  stays true, so that commits go on being appended until the next fetch.
- Clearing a move leaves a move as long as there are orphans, because the orphan bit is read as part of the move's type
  (include/lfs_utility.h:384-389): `PrepMoveClears` holds if and only if there are none.
- When a commit runs out of space after files were already split off, `gdisk` says that the new global state is on disk
  although the old directory is still the one in use (src/littlefs_v2/lfs_commit.cpp:487-492). The sum of the deltas
  is then right if and only if nothing was pending (`RelocatingCommit`, case NoSpace).
- A flush without validation leaves the read cache stale if and only if the two overlap in the same block and differ
  there (`UncheckedKeepsCopies`).
- A traversal of a file visits the block below a last block with an odd number twice
  (src/littlefs_v2/lfs_file_index.cpp:222, `VisitsEach`).
- The number of a block is truncated to an int (src/littlefs_v2/lfs_file_index.cpp:4): `Index` is right if and only if
  the number is less than 2^31.
- Closing a commit does not check for room (src/littlefs_v2/lfs_commit.cpp:81-101). The entry of the checksum
  of a commit without other entries ends beyond the block if and only if fewer than 16 bytes are left in it; if at least
  8 are, closing succeeds but a fetch finds no commit (`NothingIsCommittedIffItFits`, `Append`). Input: a block of 128 bytes after the commit of
  one name of 96 bytes (`FullBlockLosesEmptyCommit`). With fewer than 8 bytes the program's own assertion fails.
- A drop that fails for lack of space keeps the delta of the pair in memory although the pair still stores it: the sum is
  right if and only if that delta is zero (`DropNext`, case NoSpace without splits).
- While a file is being moved out of a pair, a search for a name can end there too early. Input: a directory of two
  pairs; the first has "a", and "c" after it was deleted, the second has a new file "c". Once "a" is being moved away
  the gap that the old "c" left behind the last file is shifted into the pair (src/littlefs_v2/lfs_metadata.cpp:666-676),
  and "c" passes for a name that belongs there (`FileIsOverlooked`). A file is found if and only if in no pair before it
  the best match for its name is a gap behind the last file while a move out of that pair is pending (`FindName`,
  `Overlooks`). Such a move is pending between a power loss and the first write after it.
- A name written over another one under the same id would make a search lose its place (`RenamedInPlaceIsMisplaced`);
  the file system names every file once, which is what `Ordered` asks for.

## Left out

- Device errors, bad blocks and relocation: the device stores what is programmed, apart from power loss.
- Orphans and their repair, and directories being moved or removed.
- Growing the disk, and expanding the superblock: allocating past the end answers that there is no space.
- The lists of open files and directories that a commit fixes up (src/littlefs_v2/lfs_commit.cpp:813-870).
- LFS_FROM_USERATTRS, and LFS_FROM_MOVE inside the traversal of a compaction: their entries are modelled as ordinary attributes, and the copying by TraverseMove on its own.
- Inline files, their outlining, and the lookups with an id mask of nine bits that serve them (src/littlefs_v2/lfs_file.cpp:253, 520).
- Paths: only the search for one name in one directory is modelled, not the steps from one directory to the next; so is no matching other than by name.
- Truncating a file, and in the page cache truncating, appending and writing past the end, where reads of holes are counted as full (src/example/lfs_interface.cpp:198-205).
- Blocks smaller than 544 bytes, for which one correction of the block number is not enough for all sizes; an erase size other than the block size; windows of more blocks than the bitmap of the lookahead has bits.
- Decorators of the block device, host files, drivers and threads.
- The decision of a commit to drop its own pair once the last file is deleted (src/littlefs_v2/lfs_commit.cpp:687-704): the drop itself is modelled.
- Lookup.GetSlice: ids beyond the files of the log are asked for only as far as the deletes in the log cannot carry them out of the range of ids.
- FetchMatch.FindsOrPlaces: logs in which a file is named twice; see the findings.
- Traverse.Traverse: ids have to leave room for the files that are to be created, and see LFS_FROM_MOVE above.
- Directory.MetadataDir.Append: a commit of nothing where not even 8 bytes are left, which fails the program's own assertion.
- PowerLoss.TornCommitIsOldOrNew: a tear before the checksum assumes that what lay in the block does not pass for a commit by accident (`NoTornCommit`); over erased flash that is proved but for tears within the tag of the checksum.
- Mounting.Mount: the superblock, and pairs of which neither block can be fetched.
- Reached.Report: what lies at the addresses of pairs is given beside the blocks of files. While a move is pending the ids of a pair have to leave room for the deletes in its log.
- Find.FindName: pairs that can all be fetched, in which names are in order.
- Allocator.Lookahead.Alloc: the disk cannot grow.
- Rename.Mover.Rename: a commit is one step here; that it is one is what the atomicity theorems of Pairs and Directory say. Orphans are not pending.
- CowFile.File.Write: the cache of the file is the block itself here; that a cache cannot be told from the device is what BlockCache states.
- PageCache.PageFile.Write: asks for a cursor that is not past the end.
