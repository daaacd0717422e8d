# Algorithmic engines of MySQL 5.0.15

A Dafny model of seven small engines inside the server's storage layer, its clients and its tools,
and proofs of what each of them is for. `dafny verify dfyconfig.toml` checks everything.

**HEAP storage engine.** `LinearHash`, `HashWalk`, `HashDelete`, `HashWrite` and `HashIndex` are the in-place
linear hash of a key (`hp_hash.c`, `hp_delete.c`, `hp_write.c`): slots hold a record position and a link, and each
change of the record count moves records between slots. The invariant is `Chained`: every slot either is
the home of its record or is linked from a slot of the same home, no record is twice in the index. `HashCheck` shows
that the executable check of `_check.c` accepts exactly this. `HeapTable` puts several indexes, the record positions
and the list of deleted positions together, `RecordBytes` is one position as bytes. `BlockTree`, `BlockLevels`, `BlockGrow`,
`BlockFree` and `HeapBlock` are the radix tree that stores slots and records (`hp_block.c`): the tree as a value, how it lies
in memory, how it grows and how it is released. `BlockSize` is the choice of how many records go into a block.

**mysqltest.** `BlockScript` has scripts as nested `if` and `while` blocks and as flat lines, `BlockMachine` the block stack
and line counter as a state machine, `BlockTheorem` the equivalence of the two, `Mysqltest` the interpreter object itself.
Commands and tests are arbitrary functions of an arbitrary state; they may end or kill the program.

**replace.** `ReplaceSpec` is the naive scanner. `ReplaceProgress` says what a prefix of the text tells about its
occurrences, `ReplaceStates`, `ReplaceBits` and `ReplaceSets` connect this with the bit sets of the program, `ReplaceEntries` says
what the tables promise, `ReplaceCount` how large they get, `ReplaceInit` is the subset construction, `ReplaceRun` the driver.

**innochecksum.** `PageFold` is the fold arithmetic, `Innochecksum` the page checksums and what a changed byte does.
`PageBits` is the fold on machine words, for computing with it; `PageWitness` has a page that is accepted, and an
accepted change of each kind that there is.

**dbug_analyze.** `ProfileSpec` is the profile event by event, `ProfileAccounts` the totals on any trace, `ProfileNested`
the meaning on matched calls, `ProfileClock` the report on any trace as the clock gives it, `SymbolTree` the search tree in
an array, `DbugAnalyze` the program's arrays, `ProfileReport` the report.

**readline.** `LineReader` is the batch line buffer, with reads that return as many bytes as they like.

**completion hash.** `CompletionHash` is the prefix index over an arbitrary hash function, `CompletionIterator` the
word generator of the client.

`Prelude` has the few definitions that several engines share.

Code that works step by step is modelled by classes and loops whose contracts tie the new state to the old one; the main
results are lemmas about the functions in these contracts. Where the program does not quite meet its purpose, the exact
condition is proved, and an input is given for which it fails:

- The release of a block tree never frees anything but allocations, and none twice, but it may leave one behind when a block
  holds a single record. That is so exactly when a record is longer than its share of the read buffer; `OneRecordLeaks` runs
  such a table, with an allocator that leaves no gap between two allocations.
- A leaf of the block tree fits the memory it is asked with unless `records_in_block * recbuffer` reaches 2^32; `LeafFitsIff` says
  for which limits of a table that is, and `RecordsMeet` runs a table where it is exactly 2^32.
- The tables of replace are right if and only if their numbers fit a `short`: `TableFits` says when, by the number of different
  beginnings of the from-strings; `TooLong` builds the table of one from-string of 40000 bytes.
- check_one_key does not end on chains that run into a circle of slots of other homes; `CheckEnds` says exactly when it does.
- The sum of calls printed by dbug_analyze differs from the number counted when a function was called 2^32 times;
  `ManyCallsLost` has the trace.
- innochecksum accepts three kinds of one-byte changes of a page with a checksum, and more of one without; `OneByteChanged` lists
  them all, `EachChangeOccurs` has a page with these three.

## Model

| member | source | states |
|---|---|---|
| LinearHash.MaskShrinks | mysql-5.0.15/heap/hp_delete.c:112-121 | going from n slots to n-1 changes the address only of keys addressed to slot n-1 and sends all of them to one slot; which of the keys of that slot come from slot n-1 is the half-buffer bit |
| LinearHash.MaskGrows | mysql-5.0.15/heap/hp_write.c:337-338 | the old `blength` already gives the addresses of the table with one record more |
| LinearHash.BLengthStep | mysql-5.0.15/heap/hp_delete.c:57-60 | the least power of two above the record count is what heap_delete and heap_write make of `blength` when the count changes by one |
| LinearHash.ShrinkReaddresses | mysql-5.0.15/heap/hp_delete.c:163-164 | the same for all records at once: the addresses of an index under the two counts that hp_delete_key uses |
| HashDelete.UnlinkInner | mysql-5.0.15/heap/hp_delete.c:145-147 | taking a member out of the middle of a chain leaves an index of all other records with one free slot |
| HashDelete.UnlinkHead | mysql-5.0.15/heap/hp_delete.c:148-153 | taking out the head pulls the second member into the home slot and frees that member's slot |
| HashDelete.UnlinkOnly | mysql-5.0.15/heap/hp_delete.c:154-155 | taking out the only member removes one bucket head and frees the home slot |
| HashDelete.NothingToMove | mysql-5.0.15/heap/hp_delete.c:157-158 | exit 1: the free slot is the last one, and the index on n-1 slots is in order |
| HashDelete.MoveToHole | mysql-5.0.15/heap/hp_delete.c:165-168 | exit 2: the last slot copied to the free slot gives an index of the same records on n-1 slots |
| HashDelete.EvictForeigner | mysql-5.0.15/heap/hp_delete.c:174-180 | exit 3: the foreign member is moved away, its predecessor's link redirected, the last record put at home; same records, n-1 slots |
| HashDelete.RelinkMember | mysql-5.0.15/heap/hp_delete.c:182-189 | exit 4: the last record stays a member of its chain, only the link to it is redirected; same records, n-1 slots |
| HashDelete.SpliceOwnMember | mysql-5.0.15/heap/hp_delete.c:190-200 | exit 5: a member of the last slot's own chain is spliced behind the new head; same records, n-1 slots |
| HashDelete.MergeChains | mysql-5.0.15/heap/hp_delete.c:192-200 | exit 6: two chains become one, with one bucket head less; same records, n-1 slots |
| HashDelete.MergeWalk | mysql-5.0.15/heap/hp_hash.c:226-236 | hp_movelink with a null target walks from the last slot to the end of its chain |
| HashWalk.WalkUndisturbed | mysql-5.0.15/heap/hp_hash.c:226-236 | the walk of hp_movelink finds the one slot that links to a given slot, also after the writes that precede it |
| HashIndex.KeyDef.MoveLink | mysql-5.0.15/heap/hp_hash.c:226-236 | hp_movelink changes the link of the first node on the path that points to `pos`, and nothing else |
| HashIndex.KeyDef.Search | mysql-5.0.15/heap/hp_delete.c:118-133 | the search by record position finds the slot and its predecessor, or reports a crash exactly when the record is not in the index |
| HashIndex.KeyDef.Unlink | mysql-5.0.15/heap/hp_delete.c:135-155 | the three ways to unlink; what is left is an index with one hole and the right bucket count |
| HashIndex.KeyDef.MoveLast | mysql-5.0.15/heap/hp_delete.c:157-201 | the six exits together: an index on one slot less, same records, right bucket count |
| HashIndex.KeyDef.DeleteKey | mysql-5.0.15/heap/hp_delete.c:104-202 | from a good index on n slots: fails exactly if the record is not there; otherwise a good index on n-1 slots with exactly that record gone and `hash_buckets` right |
| HashIndex.KeyDef.SplitChain | mysql-5.0.15/heap/hp_write.c:224-334 | the splitting loop with its four flags: the chain of the low slot is divided between the low slot and the new last one, one slot is left free, buckets counted |
| HashWrite.Take | mysql-5.0.15/heap/hp_write.c:249-311 | one turn of the loop keeps the division invariant, whichever half the record goes to |
| HashWrite.SplitHeads | mysql-5.0.15/heap/hp_write.c:315-322 | the bucket count goes up exactly when both halves have a member |
| HashWrite.Place | mysql-5.0.15/heap/hp_write.c:337-363 | the new record at its address: alone, as the new head of the chain there, or in place of a foreign member that is moved to the free slot |
| HashIndex.KeyDef.WriteKey | mysql-5.0.15/heap/hp_write.c:189-381 | from a good index on n slots, any record not in it: a good index on n+1 slots with exactly that record more; the duplicate error exactly when a checked key is there already (and the record is added then too) |
| HashIndex.KeyDef.SearchKey | mysql-5.0.15/heap/hp_hash.c:101-170 | a plain key search returns a record with that key exactly when the index has one |
| HashIndex.KeyDef.Clear | mysql-5.0.15/heap/hp_clear.c:96-101 | afterwards the index is a good one of no records |
| HashIndex.Rehash | mysql-5.0.15/heap/hp_delete.c:161-173 | an index only depends on the hashes of the records it holds |
| HashCheck.CheckEnds | mysql-5.0.15/heap/_check.c:110-135 | on in-range links: the loops end if and only if no chain runs into a circle of slots of other homes, or an earlier chain runs in a circle with slots of its own home, on which more slots are counted than there are and the guard stops all later walks |
| HashCheck.SomeTrap | mysql-5.0.15/heap/_check.c:119-131 | three slots on which they do not end |
| HashCheck.CheckOneKey | mysql-5.0.15/heap/_check.c:99-160 | wherever the loops end: 0 if and only if every slot lies on the chain of its own home, homes head their chains, all chains have an end, and `hash_buckets` is the number of chains |
| HashCheck.AcyclicIff | mysql-5.0.15/heap/_check.c:119-131 | where every slot is on the chain of its home, all chains have an end if and only if no links run in a circle |
| HashCheck.Verdict | mysql-5.0.15/heap/_check.c:110-140 | no chain has a foreign member and as many slots are counted as there are records: if and only if the index is well chained |
| HashCheck.ChainedIsWellChained | mysql-5.0.15/heap/_check.c:110-135 | what deletion and insertion keep implies what the check looks for ... |
| HashCheck.WellChainedIsChained | mysql-5.0.15/heap/_check.c:110-135 | ... and conversely, on links without cycles |
| HeapTable.PushFree | mysql-5.0.15/heap/hp_delete.c:49-54 | a deleted position goes to the front of the list of exactly the positions whose flag is off, without repeats |
| HeapTable.PopFree | mysql-5.0.15/heap/hp_write.c:136-143 | the head of that list is taken for a new record, the rest is the list of what is left |
| HeapTable.Table.HeapDelete | mysql-5.0.15/heap/hp_delete.c:21-61 | succeeds exactly if every index has the record; then records falls and deleted rises by one, the position is pushed on the free list and out of all indexes; on failure counters and list are as before, and the record is out of exactly the indexes before the first that lacks it |
| HeapTable.Table.HeapWrite | mysql-5.0.15/heap/hp_write.c:33-91 | a duplicate is reported for the first unique key that a live record has already and that has no NULL here, and then every index holds the same records as before, and the position is on the free list; otherwise the record is in the table and in every index, at the position deleted last, or behind all others if none is deleted; data, del_link, deleted and records are stated in full for each case |
| HeapTable.Perform | mysql-5.0.15/heap/hp_write.c:365-378 | no sequence of heap_write and heap_delete leaves two live records with the same key in a unique index without null parts, nor with null parts two of which neither has NULL in it |
| HeapTable.Table.NextFreeRecordPos | mysql-5.0.15/heap/hp_write.c:129-161 | the position at del_link, with the link stored there as the new del_link and deleted one less; only without one a position behind all others; no live position is touched |
| HeapTable.Table.Rollback | mysql-5.0.15/heap/hp_write.c:70-83 | the record is out of all indexes again, which hold what they held |
| HeapTable.Table.CheckHeap | mysql-5.0.15/heap/_check.c:43-96 | on any table with in-range links on which the key checks end: no error if and only if every index is well chained, its chains have an end, the bucket count is right, and the stored counters are those of the flags |
| HeapTable.Table.ConsistentPasses | mysql-5.0.15/heap/_check.c:43-96 | a table that only heap_write and heap_delete have changed meets all of that |
| HeapTable.CountPositions | mysql-5.0.15/heap/_check.c:64-86 | the scan with its moving block limit visits every position once and counts flags on and off |
| HeapTable.Table.Find | mysql-5.0.15/heap/hp_hash.c:101-170 | on a consistent table a key search over an index finds a live record with the key exactly when there is one |
| RecordBytes.RecordLength | mysql-5.0.15/heap/hp_create.c:45-49 | the least length that is as long as the record and as a pointer |
| RecordBytes.FlagKept | mysql-5.0.15/heap/hp_create.c:45-49 | writing a link leaves the flag byte alone, whatever is in the record, if and only if the record is at least as long as a pointer |
| RecordBytes.CellsWritten | mysql-5.0.15/heap/hp_delete.c:47-49 | with the record length that heap_create chooses, the bytes written by heap_delete read back as a deleted position with that link, and those written by heap_write as the record |
| BlockTree.Locate | mysql-5.0.15/heap/hp_block.c:35-39 | in a tree whose blocks are full but for the last on each level, division by the weight finds the child that has a leaf |
| BlockTree.AppendShape | mysql-5.0.15/heap/hp_block.c:103-115 | hanging a chain into the lowest level with a free pointer keeps that shape |
| BlockTree.AppendLeaves | mysql-5.0.15/heap/hp_block.c:103-121 | the new leaf comes behind all others, which keep their places |
| BlockLevels.OccupiedKept | mysql-5.0.15/heap/hp_block.c:103-121 | the writes of hp_get_new_block below a level keep tree, memory, last_blocks and free_ptrs_in_block in agreement |
| BlockLevels.ToppedKept | mysql-5.0.15/heap/hp_block.c:91-102 | so does putting a new block on top of the whole tree |
| BlockSize.ChooseSizes | mysql-5.0.15/heap/hp_create.c:217-228 | the steps of init_block compute the record length and the number of records that the other rows are about |
| BlockSize.WantedOf | mysql-5.0.15/heap/hp_create.c:216-222 | 100 records are wanted when no limits are given, 10 in a table of less than 100 records, otherwise a tenth of the larger limit |
| BlockSize.SizesOf | mysql-5.0.15/heap/hp_create.c:223-226 | all of them are put into a block if they fit what the cache has beside four blocks of pointers, exactly filled included; otherwise one more than fit |
| BlockSize.OneRecordIff | mysql-5.0.15/heap/hp_create.c:216-226 | a block has one record if and only if a record is longer than its share of the cache and the product in `unsigned int` is larger than the share too; the second follows unless that product overflows |
| BlockSize.CutDown | mysql-5.0.15/heap/hp_create.c:222-226 | records that do not fit are cut down to one more than fits, and never to none |
| BlockSize.LeafFitsIff | mysql-5.0.15/heap/hp_block.c:78 | the product hp_get_new_block asks malloc for is not cut off by `unsigned int` if and only if the number of records wanted, or the one left after the cut, times the record length is below 2^32 |
| BlockSize.LeafWithin | mysql-5.0.15/heap/hp_create.c:216-226 | that is so where the records wanted fit `unsigned int` and the cache leaves room for one record more; then a leaf and all blocks above it are no longer than that |
| HeapBlock.Block.constructor | mysql-5.0.15/heap/hp_create.c:211-235 | init_block chooses the number of records and their length, and computes the weights records_in_block * N^(i-1), cut off by `unsigned int` at each step |
| HeapBlock.RecordPlace | mysql-5.0.15/heap/hp_block.c:40 | a position is in leaf pos / records_in_block, (pos mod records_in_block) * recbuffer behind its start |
| HeapBlock.Block.FindBlock | mysql-5.0.15/heap/hp_block.c:30-41 | for every position below the number of leaves times records_in_block, if no weight in use was cut off: only pointers that were stored are followed, and the result is leaf pos / records_in_block at (pos mod records_in_block) * recbuffer |
| HeapBlock.Block.GetNewBlock | mysql-5.0.15/heap/hp_block.c:57-123 | one leaf more, at the end; every leaf before it stays where it was; the tree is good again and is the old one with a chain hung into the lowest level with a free pointer, or under a new top block; the memory asked for is that of the level found, with its product in `unsigned int`, and the leaf fits into it if and only if that product is not cut off |
| HeapBlock.PositionsApart | mysql-5.0.15/heap/hp_block.c:30-41 | records of different positions never overlap, unless the product is cut off |
| HeapBlock.RecordsMeet | mysql-5.0.15/heap/hp_block.c:78 | a run: with MIN_ROWS of 2684354560 a hash key asks for a leaf of 2^28 slots of 16 bytes with no bytes at all, and two positions get the same address |
| HeapBlock.WeightsFitIff | mysql-5.0.15/heap/hp_create.c:231-234 | no weight in use was cut off if and only if there are at most N^k leaves, for the last level k whose weight fits `unsigned int` |
| HeapBlock.WeightsFitPositions | mysql-5.0.15/heap/hp_create.c:231-234 | and none was as long as there are no more than 2^32 positions |
| HeapBlock.AllFullCapacity | mysql-5.0.15/heap/hp_block.c:62-78 | growth only ends when the levels hold all N^HP_MAX_LEVELS leaves |
| HeapBlock.Block.FreeLevel | mysql-5.0.15/heap/hp_block.c:128-152 | the recursion frees and returns what the recursive function on the tree says; the number of children visited is right for every block |
| BlockFree.ExactRelease | mysql-5.0.15/heap/hp_block.c:128-152 | on every tree: nothing is freed that is not the start of an allocation, and nothing twice; all allocations are freed if and only if no later child begins where the memory of the inline child is taken to end; always with two or more records in a block |
| BlockFree.FreeWithin | mysql-5.0.15/heap/hp_block.c:128-152 | the same for any block and any `last_pos`: what is freed is among the allocations under the block, each at most once, and the block's own not if it is taken for the continuation of what came before |
| BlockFree.FreeClean | mysql-5.0.15/heap/hp_block.c:131-152 | under that condition the list of what is freed is the list of allocations, and the position returned is the end of the block |
| BlockFree.FreeFewer | mysql-5.0.15/heap/hp_block.c:147-151 | never more is freed than allocated, and less exactly where the condition fails |
| HeapBlock.OneRecordLeaks | mysql-5.0.15/heap/hp_block.c:147-151 | a run: a table with records of 4112 bytes under a read buffer of 8200 gets three blocks, and hp_clear frees only some of its three allocations |
| HeapBlock.Block.Clear | mysql-5.0.15/heap/hp_clear.c:34-37 | the whole tree is released: where leaves fit, never anything but allocations, none twice, all exactly in the clean trees; and the block is as new: it may grow again |
| ReplaceSpec.FirstMatchIsBest | mysql-5.0.15/extra/replace.c:20-25 | the scanner that tries position after position, keeping the longest from-string, finds the leftmost longest occurrence, the first listed of equals |
| ReplaceSpec.BestIsUnique | mysql-5.0.15/extra/replace.c:20-25 | there is only one such occurrence |
| ReplaceStates.BuildFollow | mysql-5.0.15/extra/replace.c:449-519 | the follow table numbers every byte place and end of every from-string once |
| ReplaceStates.NumberedOnce | mysql-5.0.15/extra/replace.c:449-519 | no two states have the same number |
| ReplaceBits.GetNextBit | mysql-5.0.15/extra/replace.c:787-807 | the next bit set, 0 if there is none |
| ReplaceBits.Advance | mysql-5.0.15/extra/replace.c:569-587 | the states after a byte, and the length of the longest string it completes |
| ReplaceBits.Prune | mysql-5.0.15/extra/replace.c:588-615 | of the states that started early enough all stay, but only the first completed one |
| ReplaceProgress.NextMatch | mysql-5.0.15/extra/replace.c:588-615 | after one more byte the best occurrence is the old one, or of the strings just completed the longest, first listed |
| ReplaceProgress.NextProgress | mysql-5.0.15/extra/replace.c:598-614 | which strings are still in progress after one more byte |
| ReplaceProgress.DecidedStays | mysql-5.0.15/extra/replace.c:529-540 | when nothing in progress can start earlier, no later byte changes the occurrence found: rewinding to it is right |
| ReplaceSets.SomeCompleted | mysql-5.0.15/extra/replace.c:588-615 | the pruned set describes the text read, one byte longer, when strings were completed |
| ReplaceSets.NoneCompleted | mysql-5.0.15/extra/replace.c:564-587 | and when none was |
| ReplaceEntries.SameBitsSameSet | mysql-5.0.15/extra/replace.c:812-831 | find_set may compare the bits only: two sets with equal bits agree on the occurrence to be replaced |
| ReplaceInit.FindSet | mysql-5.0.15/extra/replace.c:812-831 | an earlier set with the same bits, or the new one at the end |
| ReplaceInit.ByteCompletes | mysql-5.0.15/extra/replace.c:588-625 | one state left means that the replacement is decided, more that it is not |
| ReplaceInit.FillRow | mysql-5.0.15/extra/replace.c:557-629 | all 256 entries of a set are right for every text the set describes |
| ReplaceInit.SeesMore | mysql-5.0.15/extra/replace.c:522-524 | every set that is added has new bits, so that the unseen bit patterns are a decreasing measure of the outer loop |
| ReplaceCount.SetsCount | mysql-5.0.15/extra/replace.c:522-629 | there are exactly two start sets and one set for each different non-empty proper beginning of a from-string |
| ReplaceCount.FoundCount | mysql-5.0.15/extra/replace.c:843-857 | there is exactly one found entry for each from-string that is the first of its like and that no other begins with, and one for each occurrence and distance found within such a beginning |
| ReplaceCount.FoundFits | mysql-5.0.15/extra/replace.c:431-432 | the found table never outgrows the memory allocated for it |
| ReplaceCount.StoredOk | mysql-5.0.15/extra/replace.c:342 | kept in `short` entries, the table is right if and only if there are at most 32768 sets and 32767 found entries |
| ReplaceCount.ShortEnough | mysql-5.0.15/extra/replace.c:342 | from-strings of 32767 bytes together always fit |
| ReplaceInit.TooLong | mysql-5.0.15/extra/replace.c:812-831 | one from-string of 40000 bytes makes 40001 sets, and the table built is wrong |
| ReplaceInit.InitReplace | mysql-5.0.15/extra/replace.c:393-672 | refuses exactly the lists with an empty from-string; otherwise a machine of the size above, each of whose entries is right if and only if that fits |
| ReplaceRun.DecisionIsRight | mysql-5.0.15/extra/replace.c:903-906 | when the machine stops at a replacement, it is the scanner's first match of the text from there on |
| ReplaceRun.Scan | mysql-5.0.15/extra/replace.c:889-902 | the inner loop copies what it reads and stops at the end without a match, or at a decided one |
| ReplaceRun.ReplaceStrings | mysql-5.0.15/extra/replace.c:881-925 | for every NUL-free text the output is the naive scanner's, and `updated` is set exactly if something was replaced |
| ReplaceRun.Replace | mysql-5.0.15/extra/replace.c:393-672 | building the machine and running it: leftmost, longest-first, non-overlapping replacement for all plain from-strings whose table fits |
| BlockScript.EnoughRoom | mysql-5.0.15/client/mysqltest.c:2253-2255 | the limit on nesting changes nothing for a script that is not nested deeper |
| BlockScript.MoreFuel | mysql-5.0.15/client/mysqltest.c:2226-2231 | a meaning found with some number of blocks entered is the meaning with more |
| BlockScript.StructureMeans | mysql-5.0.15/client/mysqltest.c:2219-2243 | a list of lines is the written form of at most one structured script, and the parser finds it exactly then |
| BlockMachine.Skips | mysql-5.0.15/client/mysqltest.c:2260-2268 | a block that is not executed is passed over without running anything in it; it still needs room on the stack |
| BlockMachine.Simulates | mysql-5.0.15/client/mysqltest.c:2219-2296 | wherever the structured meaning of a part of the script comes to an effect, the machine arrives behind that part with the same effect and the same enclosing blocks |
| BlockTheorem.Diverges | mysql-5.0.15/client/mysqltest.c:2226-2231 | where it does not within some number of blocks, the machine is busy for as many rounds |
| BlockTheorem.MachineIsStructured | mysql-5.0.15/client/mysqltest.c:3997-4256 | the flat machine ends (at the end of the file, by exit, or by dying) in a state if and only if the structured script does |
| BlockTheorem.NestedUpTo31 | mysql-5.0.15/client/mysqltest.c:3941 | a script nested at most 31 deep has the meaning it has with any more room on the block stack |
| BlockTheorem.NestedTooDeeply | mysql-5.0.15/client/mysqltest.c:2253-2255 | 31 blocks in one another whose tests succeed come to the end of the file, 32 die |
| BlockTheorem.FinishesIff | mysql-5.0.15/client/mysqltest.c:2400-2407 | any file of lines: the end is reached in a state if and only if the lines are a structured script that means that state; a stray or missing `}` never gets there |
| Mysqltest.Interpreter.ReadQuery | mysql-5.0.15/client/mysqltest.c:2566-2573 | a cached line or the next of the file, and the error when the file ends inside a block |
| Mysqltest.Interpreter.OpenBlock | mysql-5.0.15/client/mysqltest.c:2246-2296 | do_block is the machine's step |
| Mysqltest.Interpreter.CloseBlock | mysql-5.0.15/client/mysqltest.c:2219-2243 | do_done is the machine's step |
| Mysqltest.Interpreter.Rounds | mysql-5.0.15/client/mysqltest.c:3997-4256 | any number of rounds of the main loop is as many steps of the machine |
| Mysqltest.Mysqltest | mysql-5.0.15/client/mysqltest.c:3940-4256 | the whole program on a written-down script ends as the nested blocks say |
| PageFold.FoldPairKeeps | mysql-5.0.15/extra/innochecksum.c:65-75 | for a fixed byte the fold step is injective in the running value modulo 2^32, with a ulint of 32 or 64 bits |
| PageFold.FoldPairSees | mysql-5.0.15/extra/innochecksum.c:65-75 | for a fixed running value it is injective in the byte |
| PageFold.XorBits | mysql-5.0.15/extra/innochecksum.c:73-74 | the lowest bits of an exclusive or depend on the lowest bits of its operands only |
| Innochecksum.FoldBinary | mysql-5.0.15/extra/innochecksum.c:76-94 | the loop is the fold over the bytes |
| Innochecksum.FoldSees | mysql-5.0.15/extra/innochecksum.c:76-94 | a byte string changed in one place has another fold |
| Innochecksum.NewChecksumChanged | mysql-5.0.15/extra/innochecksum.c:96-119 | changing one byte of a page changes the new checksum if and only if the byte is at 4..25 or 38..16375 |
| Innochecksum.OldChecksumChanged | mysql-5.0.15/extra/innochecksum.c:121-134 | and the old checksum if and only if it is at 0..25 |
| Innochecksum.CheckPage | mysql-5.0.15/extra/innochecksum.c:273-304 | the three tests in their order |
| Innochecksum.JudgeMeans | mysql-5.0.15/extra/innochecksum.c:273-304 | which bytes decide each verdict: the low log sequence numbers at 20 and 16380, before any checksum; then the old field at 16376 against the number at 16 and the old checksum; then the new checksum against the first four bytes, unless they are 0 |
| Innochecksum.OneByteChanged | mysql-5.0.15/extra/innochecksum.c:273-304 | exactly which one-byte changes of any accepted page are accepted: those of the flush LSN at 26..37, those that make the checksum field 0 or right while the old checksum passes, those that swap the two good values of the old field, and on a page without a checksum those of the data and those of the header, but for the log sequence number at 20..23, that the old checksum passes; all others are rejected |
| PageWitness.EachChangeOccurs | mysql-5.0.15/extra/innochecksum.c:273-304 | there is a page with a checksum that is accepted, and on which each of these three changes is accepted too |
| PageBits.StepValue | mysql-5.0.15/extra/innochecksum.c:65-75 | the fold step on words of bits is the fold step on numbers, with a ulint of 32 bits |
| Innochecksum.CheckFile | mysql-5.0.15/extra/innochecksum.c:261-327 | 0 if and only if every page looked at is complete and good |
| Innochecksum.GoodFileMeans | mysql-5.0.15/extra/innochecksum.c:261-327 | these are the pages from the first to the last asked for, or to the end of the file, and the first one in any case |
| Innochecksum.GoodPageMeans | mysql-5.0.15/extra/innochecksum.c:261-272 | a page is good if all its 16384 bytes are there and pass the three tests |
| Innochecksum.ByteInFileDetected | mysql-5.0.15/extra/innochecksum.c:261-327 | in a file that is accepted, any byte changed in a log sequence number of a page, or in the covered part of a page with a checksum, makes the program fail |
| ProfileAccounts.RunAccounted | mysql-5.0.15/dbug/dbug_analyze.c:319-400 | after every event of any trace tot_time is the bottom time plus all children times on the stack, and the sum of all m_time; tot_calls is the sum of all m_calls; in unsigned long arithmetic |
| ProfileAccounts.DrainedAccounted | mysql-5.0.15/dbug/dbug_analyze.c:407-416 | and after the final drain |
| ProfileAccounts.RunCalls | mysql-5.0.15/dbug/dbug_analyze.c:319-400 | calls counted plus functions on the stack are the entries plus the unmatched exits |
| ProfileAccounts.TotalCalls | mysql-5.0.15/dbug/dbug_analyze.c:302-418 | at the end tot_calls is the number of entries plus the number of unmatched exits |
| ProfileNested.Nested | mysql-5.0.15/dbug/dbug_analyze.c:321-351 | for matched calls, from any state: the frames below are untouched, the caller's children grow by the time inside, and each function's time and calls grow by what it spent itself and how often it was called |
| ProfileNested.NestedReport | mysql-5.0.15/dbug/dbug_analyze.c:302-418 | the report on a program with matched calls: time in each function less what it called, number of calls, and the total is the time of the outermost calls |
| ProfileClock.ReportIsClock | mysql-5.0.15/dbug/dbug_analyze.c:302-418 | for any trace, and every function: m_time is the time between one record and the next while it was the innermost function open, and, at an exit without an entry, the time since the last such exit while nothing was open; m_calls is the number of its entries and of its exits without one; what is open at the end is left at the last time read |
| ProfileClock.TotalIsClock | mysql-5.0.15/dbug/dbug_analyze.c:302-418 | tot_time is the last time read less what belongs to nobody at the end |
| ProfileClock.LastTimeIs | mysql-5.0.15/dbug/dbug_analyze.c:402-416 | the time the drain uses is that of the last entry or exit record |
| ProfileClock.OrphanRecord | mysql-5.0.15/dbug/dbug_analyze.c:336-363 | after an exit at t without an entry tot_time is t, and the function has got t less what was accounted for when all open functions had been left |
| ProfileClock.SessionReport | mysql-5.0.15/dbug/dbug_analyze.c:302-418 | the report on matched calls with exits between them that have no entry: each of these gets the time since the one before, less the calls between them |
| ProfileClock.ReadToTheEnd | mysql-5.0.15/dbug/dbug_analyze.c:136-140 | a trace is read to its end if and only if never more than 100 functions are open and it has no more than 10000 names |
| SymbolTree.StrcmpOrder | mysql-5.0.15/dbug/dbug_analyze.c:250 | the order of the tree is that of the first byte that differs, a beginning coming first |
| SymbolTree.SearchFinds | mysql-5.0.15/dbug/dbug_analyze.c:250-295 | the search finds a name exactly if it is in the tree |
| SymbolTree.InsertRepresents | mysql-5.0.15/dbug/dbug_analyze.c:252-262 | writing one link and one new node in the array puts the name into the tree, and moves nothing else |
| SymbolTree.InsertOrdered | mysql-5.0.15/dbug/dbug_analyze.c:250-295 | the tree stays ordered by strcmp |
| SymbolTree.InOrderIncreasing | mysql-5.0.15/dbug/dbug_analyze.c:515-538 | the traversal comes in strictly increasing order |
| DbugAnalyze.Analyzer.Add | mysql-5.0.15/dbug/dbug_analyze.c:233-296 | the index of the name, the same for the same name; a new one goes behind all others; the exit exactly when there are too many |
| DbugAnalyze.Analyzer.Push | mysql-5.0.15/dbug/dbug_analyze.c:129-147 | a new top frame, or the exit on overflow |
| DbugAnalyze.Analyzer.PopAndCharge | mysql-5.0.15/dbug/dbug_analyze.c:155-176 | pop and the bookkeeping for the function popped |
| DbugAnalyze.Analyzer.Leave | mysql-5.0.15/dbug/dbug_analyze.c:327-364 | an exit record: functions left down to the matching one, or all of them and an orphaned call |
| DbugAnalyze.Analyzer.Process | mysql-5.0.15/dbug/dbug_analyze.c:302-418 | the arrays hold what the events mean one after the other, drained at the last time read |
| ProfileReport.OutBody | mysql-5.0.15/dbug/dbug_analyze.c:515-538 | prints the traversal and adds up exactly what it prints |
| ProfileReport.SumsOfAll | mysql-5.0.15/dbug/dbug_analyze.c:515-538 | whatever the order, the sums over all functions are the sums over the table |
| ProfileReport.Output | mysql-5.0.15/dbug/dbug_analyze.c:544-559 | every function once, in strictly increasing order; the times add up to tot_time |
| ProfileReport.CallsReported | mysql-5.0.15/dbug/dbug_analyze.c:474-474 | out_item keeps the calls in an unsigned int, so they add up to tot_calls if and only if what that cuts off makes whole unsigned longs: while all calls are less than one, if and only if no function was called 2^32 times |
| ProfileReport.ManyCallsLost | mysql-5.0.15/dbug/dbug_analyze.c:474-474 | a trace of 2^32 unmatched exits of one function: the calls printed add up to 0, the number counted is not 0 unless an unsigned long has 32 bits |
| ProfileReport.ProfileTrace | mysql-5.0.15/dbug/dbug_analyze.c:302-559 | a whole run from empty tables: every function printed once in strictly increasing order, the times adding up to tot_time, the calls to the sum of what is printed, and the number of calls counted; the functions are those named in the trace, with the times, calls and total that the clock gives them |
| LineReader.LineBuffer.FillBuffer | mysql-5.0.15/client/readline.cc:136-185 | keeps the line begun at the start of the buffer, adds the bytes read, or a newline once at the end of the file; `end` and its sentinel stay inside bufread + 1 bytes |
| LineReader.LineBuffer.GrowToFit | mysql-5.0.15/client/readline.cc:146-159 | the buffer doubles until a block fits and no further, keeping the line begun |
| LineReader.AllBlocks | mysql-5.0.15/client/readline.cc:149-151 | as many whole blocks are read as there is room for |
| LineReader.LineBuffer.InternReadLine | mysql-5.0.15/client/readline.cc:189-215 | a piece of the text up to its newline, up to the end, or cut where it has reached max_size; nothing exactly at the end of the text; the buffer never grows beyond 2 * (max_size + IO_SIZE) |
| LineReader.LineBuffer.BatchReadline | mysql-5.0.15/client/readline.cc:46-58 | for lines of any length, however the reads are cut: nothing is lost or read twice, only a newline is dropped between what is returned and what is left; no piece is longer than 2 * (max_size + 4096), however long the line is |
| LineReader.ShortLine | mysql-5.0.15/client/readline.cc:189-215 | where lines are shorter than max_size there is only one way to split them off |
| LineReader.ReadAll | mysql-5.0.15/client/readline.cc:46-58 | successive calls return exactly the lines of the text, then nothing, whatever the reads returned |
| CompletionHash.HashTable.Update | mysql-5.0.15/client/completion_hash.cc:62-113 | the word is in front of the entries of the key, the entries of all other keys are as before, for any hash function; the empty key is refused |
| CompletionHash.HashTable.AddWord | mysql-5.0.15/client/completion_hash.cc:221-227 | the index of the words so far becomes the index of the new word and these |
| CompletionHash.HashTable.FindAllMatches | mysql-5.0.15/client/completion_hash.cc:160-173 | nothing if and only if the key is empty or no word starts with it; otherwise exactly the words that do, newest first, and their number |
| CompletionHash.HashTable.FindLongestMatch | mysql-5.0.15/client/completion_hash.cc:175-204 | the length is that of the longest prefix shared by all words that start with the string |
| CompletionHash.LongerPrefix | mysql-5.0.15/client/completion_hash.cc:193-201 | a longer prefix with as many words has the same words: comparing the counts is enough |
| CompletionIterator.Generator.Generate | mysql-5.0.15/client/mysql.cc:1463-1539 | one call yields the next word of what is left, in both modes; a first call without text on a table with no bucket goes on with what an earlier enumeration left |
| CompletionIterator.TableTimes | mysql-5.0.15/client/mysql.cc:1463-1539 | the entries as long as their key, over all slots, chains and lists, are each word as often as it was added |
| CompletionIterator.EnumerateAll | mysql-5.0.15/client/mysql.cc:1463-1539 | with no text the calls yield every word once per add_word, then nothing, and never an empty word; only on a table with no bucket they yield what an earlier enumeration left |
| CompletionIterator.EnumerateMatches | mysql-5.0.15/client/mysql.cc:1475-1496 | with a text they yield exactly the words that start with it, newest first |

## Left out

- HashIndex.KeyDef.DeleteKey: does not model the correction of `current_hash_ptr` and `current_ptr` under `flag`; cursor positions are not part of the model, nor is hp_search in the directions next, previous and same.
- B-tree keys of HEAP tables, heap_rnext and heap_rprev, heap_update, auto-increment, locking and signals.
- The hash and comparison functions of keys: any hash of a record, any relation "same key" under which equal keys have equal hashes. Hash numbers are unbounded; `& (2^k - 1)` and `& 2^k` are written with remainder and division.
- Slot pointers and record pointers are numbers, -1 for null; the flag byte and the link of a deleted record are the two cases of one datatype, which `RecordBytes` justifies from the bytes.
- HeapTable.Table.HeapWrite: the test that the table is full, and that malloc fails, is a parameter; a failure inside hp_write_key for lack of memory is not modelled.
- HeapTable.Table.HeapDelete: the errors for a record that changed since it was read, or that is not the current one, are not modelled.
- HashCheck.CheckOneKey: links in range are required, and that the loops end, as `CheckEnds` says.
- HeapBlock.Block.GetNewBlock: malloc succeeds, and the call with all levels full, which would write behind level_info, is excluded. The blocks above a leaf are added without cut-off: with 32-bit `size_t` that needs the bound of `LeafWithin`.
- HeapBlock.Block.constructor: the cache is required to have room for one block of pointers per level; below that the subtraction in init_block wraps around.
- The records themselves are not stored in the model: where a leaf does not fit its allocation, writing them may overwrite the blocks that the other results are about.
- The bookkeeping of hp_clear other than that of block trees and indexes.
- ReplaceStates.BuildFollow: no escapes in from-strings (backslash sequences for line ends and word boundaries); from-strings have no backslash and no NUL.
- ReplaceInit.InitReplace: the same from-strings only. From 65535 found entries on a `default_state` may become 0, which the source takes for none; the model goes on as if it were not, in a table that is wrong already.
- ReplaceRun.Replace: the same; reading files and standard input is not modelled.
- Bit sets of replace are sequences of booleans, not packed words.
- In mysqltest: the syntax of lines, sourced files, queries, connections, expected errors, disabled parsing, results. One line is one command, a block header or an end.
- BlockScript.Run: takes a bound on the blocks entered, because a script need not terminate; the theorems quantify over it.
- Printing, options and seeking in innochecksum; an unreadable file.
- An `unsigned long` has 32 or 64 bits: `ProfileSpec.ULONG` is either, and nothing more is assumed of it.
- Stack use and percentages in the profile; names are non-empty, and times are read correctly from the trace; lines that are no records are skipped.
- NUL bytes, read errors and the string-fed mode of the line buffer; a max_size of 0.
- Allocation failure and freeing in the completion hash, completion_hash_exists, and overflow of its counters. Its linked lists are sequences.
- CompletionIterator.Generator.Generate: to go on from an entry its bucket must be there; after a text that was not found it is null, and the source would follow the null pointer.
