# mylldb, verified

A Dafny model of mylldb, a partial re-implementation of LevelDB, and proofs of what its storage layer is for:
a skip list that always stands for one sorted sequence, a checksum that is the one it claims to be, reads that see
the newest version a snapshot allows, blocks and tables that give back what was put into them.

## How the model is laid out

| module | source | what it holds |
|---|---|---|
| `Bytes`, `Arithmetic` | | bytes, mutable byte strings, division lemmas |
| `RandomNumbers` | `util/random.h` | the Lehmer generator as a class, and its step as a permutation of the seeds |
| `KeyOrder`, `Towers` | `db/skiplist.h` | the two sequences a skip list stands for: sorted keys, and tower heights |
| `SkipList` | `db/skiplist.h` | nodes, list and iterator as classes in the heap, with the source's loops |
| `SkipListRace` | `db/skiplist.h` | one writer and any number of readers, one store or read at a time |
| `SkipListProgress` | `db/skiplist.h` | how many reads a search needs beside concurrent insertions, and that it is answered |
| `SkipListInsertion` | `db/skiplist.h` | how many steps an insertion needs beside concurrent searches, and what it has then done |
| `Crc32cSpec` | | CRC32C as a bit-serial shift register (section 12.1 of RFC 3720) and its algebra |
| `Crc32cTables` | `util/crc32c.cpp` | the five literal tables, shown to tabulate multiples of the shift |
| `Crc32c` | `util/crc32c.cpp`, `util/crc32c.h` | the strided `Extend`, masking |
| `Crc32cAnswers` | `util/crc32c.cpp` | known checksums, as literals |
| `Coding` | `util/coding.cpp`, `util/coding.h` | fixed-width numbers and varints (unsigned LEB128, section 7.6 of DWARF 4) |
| `BytewiseComparator` | `util/comparator.cpp`, `include/leveldb/slice.h` | byte order, separators, successors |
| `DbFormat` | `db/dbformat.cpp`, `db/dbformat.h` | internal keys, their order, their separators, lookup keys |
| `MemTable` | `db/memtable.cpp` | `Add` and `Get` over the skip list |
| `MemTableRace` | `db/memtable.cpp` | `Get` beside concurrent calls of `Add` |
| `BlockFormat` | `table/block_builder.cpp`, `table/block.cpp` | the bytes of a block in closed form, and the decoder |
| `BlockBuilder` | `table/block_builder.cpp` | the builder as a class |
| `BlockIterator` | `table/block.cpp` | the block iterator as a class, with its binary search |
| `Format` | `table/format.cpp`, `table/format.h` | handles, footer, `ReadBlock` |
| `Table`, `TableBuilder` | `table/table_builder.cpp` | data blocks, index entries and handles, while a table is being written |
| `TableReader` | `table/table.cpp` | a lookup in the bytes of index block and file |
| `Arena` | `util/arena.cpp`, `util/arena.h` | the bump allocator |

What the source changes in place is a class here; each of its methods is proved against a function of the old state, and
the lemmas are about those functions. Loops are the source's loops. `seq` stands for `std::string`, `Slice` and `vector`;
`ByteString` is a string that callees change. Numbers are unbounded unless the width matters: then the truncation is
written out (`ToUint32`, `% TWO_64`), or the checksum's words are `bv32`.

Five files of the repository carry comments in a Chinese encoding and are not UTF-8: `util/coding.cpp`, `db/memtable.cpp`,
`db/dbformat.h`, `table/block.cpp` and `table/table_builder.cpp`. Their code is modelled like the rest; in the table below such
members are listed with the header that declares them, and the lines of the body are given in the last column.

## Results to read first

- `SkipListRace.RunsAreSafe`, `AnswerIsRight`, `RunIsSequentialList`: every interleaving of `Insert` and the three searches;
  `SkipListInsertion.InsertionIsCarriedOut`, `SkipListProgress.SearchIsAnswered`: each of them comes to its end.
- `SkipList.SkipList.Insert`, `LevelIsChained`, `LevelHoldsTallNodes`: the linked towers refine insertion into a sorted
  sequence.
- `Crc32c.Extend`: the fast checksum is the bit-serial one, for every buffer at every address, with the literal tables;
  `Crc32cAnswers.ChecksumOfDigits`: the bit-serial one is CRC32C.
- `MemTable.MemTable.Get`: after any writes, a read returns the newest write that the snapshot may see, over any order of
  user keys; `MemTableRace.ConcurrentGet`: so it does beside a writer.
- `BlockIterator.BlockIterator.Seek`, `BlockFormat.BlockRoundTrip`: searching and decoding what a builder wrote.
- `TableBuilder.TableLookup`, `TableReader.Find`: index, handle, checksum and block together lead to the place of a key, also
  from their bytes.
- `Format.DamagedBlockRefused`, `Format.OddDamageRefused`, `Format.StoredBlockReadBackIff`.
- `TableBuilder.BlocksAreShortest`, `TableBuilder.RunIsSound`: how `Add` cuts entries into blocks, over whole runs.
- `Arena.RunsAreSafe`, `Arena.SpaceBound`.

## Promises that the code does not keep

- A block written under `kSnappyCompression`, the documented default, is stored uncompressed and marked as compressed, because
  the branch that resets the type is commented out; `ReadBlock` answers such a block with OK and no data. A block is read
  back exactly if its type is `kNoCompression` or it is empty (`Format.StoredBlockReadBackIff`, `TableBuilder.TableLookup`);
  `Format.StoredBlockLost` gives one that is lost.
- The check in `DecodeEntry` compares with the sum of two lengths that wraps around at 2^32. An entry that passes ends inside its
  block if and only if the sum does not wrap (`BlockFormat.CheckedIffNoOverflow`). `BlockFormat.OverflowPasses` gives seven
  bytes that pass and announce 2^32 bytes, and `BlockIterator.OverflowingBlock` a whole block that holds them; in
  `BlockFormat.OverflowInValue` the key still lies inside. `ParseNextKey` copies a key from outside exactly if the key ends
  outside. If it does not, the key is right, the value lies inside exactly if the sum does not wrap, and the next offset
  moves on in any case, so that reading any block comes to an end (`BlockIterator.BlockIterator.ReadToEnd`).
- The length check in `ReadBlock` compares with `n + 5`, a sum that wraps around at 2^64. An answer that passes it holds the type
  and the checksum if and only if the sum does not wrap (`Format.LengthCheckIff`). If it does, `ReadBlock` reads outside,
  except for size 2^64 - 1 under verification: there the checksum of no bytes is compared, and a mismatch is the answer. A
  handle of size 2^64 - 5 can be decoded, and an empty answer passes (`Format.LengthCheckFails`).
- `Footer::EncodeTo` pads the string that it appends to, not the footer. Its assertion on the length holds if and only if the
  string was empty (`Format.Footer.EncodeTo`); a footer behind a single byte is not read back (`Format.FooterAfterByteLost`).
- `MemTable::Add` checks no more than the length of what it has written. An entry keeps its write exactly if the sequence
  number fits into 56 bits and both lengths into 32 (`MemTable.EntryKeptIff`); `MemTable.EntryNotKept` gives a write that is
  not kept.
- `InternalKeyComparator::FindShortSuccessor` shortens the raw internal key, tag and all. Over byte-wise user keys the contract of
  `include/leveldb/comparator.h` holds exactly on keys that are all 0xff (`DbFormat.SuccessorContractIff`), which no key of a valid
  type is (`DbFormat.SuccessorContractNeverMet`); `DbFormat.SuccessorContractFails` gives a key on which it fails.
- `SkipList::Iterator::Prev` undoes `Next` exactly if the two keys differ (`KeyOrder.PrevUndoesNextIff`); with equal keys it
  skips the whole run (`KeyOrder.BackwardVisitsRunEnds`), as it does in `KeyOrder.PrevSkipsEqualKey`.
- `AllocateAligned` adds the slop to the size without looking for overflow. The bytes it hands out lie in a block exactly if
  the sum did not wrap around to a size that fits (`Arena.OwnedIffFits`); `Arena.WrappedRequest` gives two requests after which
  they do not.

## Assumptions

- A little-endian machine, as `DecodeFixed32` and `DecodeFixed64` take it; pointers and `size_t` of 64 bits.
- `GetVarint64` is declared but has no body in the repository. Whatever reads handles is therefore a parameter, of which only
  `Coding.ReadsVarints` is asked: it takes back what `PutVarint64` writes, and does not go past the end.
  `Coding.ParseVarint64ReadsVarints` shows a reader that does. A reader that fails is taken to change nothing, like `GetVarint32`.
- In varints the groups of bits do not overlap, so `|=` of a shifted group is an addition, truncated to 32 bits.
- What the operating system answers (file reads, appends, flushes) and where `new char[n]` puts a block are parameters. An append
  that fails leaves nothing behind.
- The skip list's comparator is any total preorder (`KeyOrder.TotalPreorder`). A user comparator is any total order, with any
  separator that meets the contract (`KeyOrder.TotalOrder`, `KeyOrder.Separates`); `BytewiseComparator.BytewiseOrder`,
  `DbFormat.InternalOrderIsTotal` and `MemTable.EntryOrderIsPreorder` show what is needed of the comparators in use.

## Model

| member | source | states |
|---|---|---|
| `RandomNumbers.Random.constructor` | util/random.h:13-20 | every argument gives a seed in [1, 2^31 - 2]; seeds in that range are kept |
| `RandomNumbers.Random.Next` | util/random.h:22-35 | the division-free reduction computes seed * 16807 mod 2^31 - 1, and the seed stays in range |
| `RandomNumbers.FirstNumbers` | util/random.h:22-35 | 16807, 282475249 and 1622650073 are the first numbers after seed 1 |
| `RandomNumbers.ProductReduces` | util/random.h:26-32 | the sum of the product's halves is never M itself, so one conditional subtraction with `>` reduces it |
| `RandomNumbers.PreviousUndoesNext` | util/random.h:22-35 | the step stays among the good seeds and is injective there, by an explicit inverse |
| `RandomNumbers.NextUndoesPrevious` | util/random.h:22-35 | the step is onto the good seeds |
| `RandomNumbers.SeedStaysGood` | util/random.h:13-35 | over runs of any length the seed stays good, and the n-th number is s * 16807^n mod M |
| `RandomNumbers.RunsStayApart` | util/random.h:13-35 | runs from different seeds differ at every step |
| `Towers.NextAfterInsert` | db/skiplist.h:157-161 | an insertion changes the next tower of a level only at the last tower before it that reaches the level |
| `Towers.LevelMembers` | db/skiplist.h:140-162 | following the links of a level visits exactly the towers that reach above it |
| `Towers.LevelsThinOut` | db/skiplist.h:140-162 | each level is a subsequence of the level below |
| `KeyOrder.InsertKeySorted` | db/skiplist.h:140-162 | inserting a key before the first that is not less keeps the sequence sorted and adds just that key |
| `KeyOrder.InsertAllSorts` | db/skiplist.h:140-162 | after any run of insertions the sequence is a sorted permutation of what was inserted |
| `KeyOrder.SeekFindsBest` | db/skiplist.h:188-215 | a seek after any run of insertions finds the least key not before the target, and of equal ones the last inserted |
| `KeyOrder.FoundIff` | db/skiplist.h:24-35 | some key equals the one sought if and only if the key at the lower bound does |
| `KeyOrder.PrevUndoesNextIff` | db/skiplist.h:49-59 | `Prev` undoes `Next` if and only if the two keys differ |
| `KeyOrder.PrevSkipsEqualKey` | db/skiplist.h:51-59 | two equal keys: `Prev` from the second does not lead to the first |
| `KeyOrder.BackwardVisitsRunEnds` | db/skiplist.h:51-59 | a walk by `Prev` visits the last key of each run of equal keys, and nothing else |
| `KeyOrder.BackwardWalk` | db/skiplist.h:51-72 | the walk by `Prev` from the last key visits the last key of every run, from the last run to the first |
| `KeyOrder.BackwardIsReverse` | db/skiplist.h:51-72 | with pairwise different keys the positions of the walk by `Prev` from the last key are those of the walk by `Next`, reversed |
| `SkipList.SkipList.constructor` | db/skiplist.h:126-138 | a new list is valid and empty, with one level in use, twelve slots in the head, and the given seed |
| `SkipList.SkipList.FindGreaterOrEqual` | db/skiplist.h:188-215 | returns the first node whose key is not before the target, and fills `prev` with the last node before it on each level in use |
| `SkipList.SkipList.FindLessThan` | db/skiplist.h:217-243 | returns the last node before the target, or the head |
| `SkipList.SkipList.FindLast` | db/skiplist.h:245-271 | returns the last node, or the head |
| `SkipList.SkipList.Contains` | db/skiplist.h:24-35 | true if and only if some key in the list compares equal |
| `SkipList.SkipList.RandomHeight` | db/skiplist.h:174-186 | a height in 1..12, the one that the generator's next numbers determine |
| `SkipList.HeightIff` | db/skiplist.h:174-186 | a node is higher than k if and only if k < 12 and the next k numbers of the generator are multiples of four |
| `SkipList.SkipList.LinkBehind` | db/skiplist.h:159-160 | the new node takes over its predecessor's link, and the predecessor then links to it |
| `SkipList.SkipList.Splice` | db/skiplist.h:157-161 | after the publishing loop every slot holds its old value, or the one that the insertion calls for |
| `SkipList.SkipList.Insert` | db/skiplist.h:140-162 | keeps the whole invariant; the keys become the old ones with the new key before the first that is not less; height and `max_height_` are as drawn |
| `SkipList.SkipList.Inserted` | db/skiplist.h:140-162 | the spliced links are the links of the longer list: sorted, linked on each level up to the height, NULL-terminated |
| `SkipList.SkipList.LevelIsChained` | db/skiplist.h:112-124 | the pointers of each level, from the head on, run through increasing nodes and end in NULL |
| `SkipList.SkipList.LevelHoldsTallNodes` | db/skiplist.h:112-162 | a node is on exactly the levels below its height, and each level is a subsequence of the one below |
| `SkipList.SkipList.UnusedLevelsEmpty` | db/skiplist.h:126-138 | the head's links at and above `max_height_` are NULL |
| `SkipList.Iterator.Next` | db/skiplist.h:49-49 | moves to the next position of the sequence |
| `SkipList.Iterator.Prev` | db/skiplist.h:51-59 | moves to the last position whose key is smaller, or becomes invalid |
| `SkipList.Iterator.Seek` | db/skiplist.h:61-61 | moves to the first position whose key is not before the target |
| `SkipList.Iterator.SeekToFirst` | db/skiplist.h:63-63 | moves to the first position, if there is one |
| `SkipList.Iterator.SeekToLast` | db/skiplist.h:65-72 | moves to the last position, if there is one |
| `SkipList.Traverse` | test/skiplist_test.cpp:58-61 | `SeekToFirst` and repeated `Next` yield exactly the keys of the list, in order, and stop |
| `SkipList.TraverseBackward` | db/skiplist.h:51-72 | `SeekToLast` and repeated `Prev` yield the last key of each run, from the last run to the first, and with pairwise different keys the exact reverse of the list |
| `SkipList.SeekKey` | db/skiplist.h:37-61 | a search through an iterator yields the key at the lower bound, if there is one |
| `SkipListRace.ReadOnLevel` | db/skiplist.h:195-271 | in each of the three searches: from a node on its level and in front of the goal, one read finds a set slot, and leads to such a node or shows that there is none |
| `SkipListRace.LevelAfterPublish` | db/skiplist.h:157-161 | the store that publishes a node on a level inserts it into that level, sorted, and touches no other link of it |
| `SkipListRace.StepKeepsInv` | db/skiplist.h:140-162 | every store of the writer and every read of a reader keeps the invariant of memory, writer and readers |
| `SkipListRace.RunsAreSafe` | db/skiplist.h:140-271 | in no interleaving is an unset slot read; every level stays sorted and NULL-terminated; every search stands on its level in front of its goal |
| `SkipListRace.AnswerIsRight` | db/skiplist.h:188-271 | a search returns the first node with key >= target, the last node with key < target, or the last node, in the level-0 list as of its last read |
| `SkipListRace.AnswerMeans` | db/skiplist.h:188-271 | these answers in plain terms, for each of the three searches, on any sorted level |
| `SkipListRace.EarlierInsertIsSeen` | db/skiplist.h:140-215 | a search that ends after a key was published at level 0 does not miss it, whenever it began |
| `SkipListRace.PublishedNodeCanBeLeft` | db/skiplist.h:49-49 | an iterator on a published node can always go on, to the node that is next at that moment |
| `SkipListRace.StepInserts` | db/skiplist.h:157-161 | the level-0 list changes in exactly one kind of step, and then as an insertion into the sorted sequence |
| `SkipListRace.RunIsSequentialList` | db/skiplist.h:140-162 | in every interleaving level 0 is what a sequential list holds after the keys published so far (that each insertion publishes its key: `SkipListInsertion.InsertionIsCarriedOut`) |
| `SkipListProgress.StepKeepsOrder` | db/skiplist.h:140-162 | every step of the writer and the readers keeps the nodes of each level in the order of level 0, also among equal keys |
| `SkipListProgress.RunsAreOrdered` | db/skiplist.h:140-162 | so do all interleavings |
| `SkipListProgress.ReadMoves` | db/skiplist.h:188-271 | a read begins a search, goes on to a node further behind in level 0, goes down one level, or ends the search |
| `SkipListProgress.StepMakesProgress` | db/skiplist.h:140-271 | a read lowers the number of reads that may still be needed; a publication at level 0 raises it by at most one, any other step not at all |
| `SkipListProgress.SearchEnds` | db/skiplist.h:140-271 | in every interleaving a search is over after at most one read, one for each of the 12 levels, one for each node of level 0, and one for each key published meanwhile |
| `SkipListProgress.SearchIsAnswered` | db/skiplist.h:188-271 | after any run, in every interleaving: a search that is begun is answered within the same number of reads, for its goal and for the list at the last of them |
| `SkipListInsertion.WriteGoesForward` | db/skiplist.h:140-162 | every read and store of the writer brings its insertion forward: search, `max_height_` and node, then two stores for each level below the height |
| `SkipListInsertion.InsertionIsCarriedOut` | db/skiplist.h:140-162 | after any run, in every interleaving: an insertion that is taken on is over after `max_height_` + nodes of level 0 + 1 + 2 * height steps of the writer; then the key is where a sequential list has it, it is the one insertion since, the node has `height` slots and is on exactly the levels below, and `max_height_` is the greater of the two |
| `Crc32cTables.ByteExtensionIsTable` | util/crc32c.cpp:20-63 | all 256 literals: entry b is byte b followed by one zero byte |
| `Crc32cTables.StrideExtension0IsTable` | util/crc32c.cpp:65-108 | all 256 literals: entry b is byte b of the fourth lane followed by 16 zero bytes |
| `Crc32cTables.StrideExtension1IsTable` | util/crc32c.cpp:110-153 | all 256 literals: the same for the third lane |
| `Crc32cTables.StrideExtension2IsTable` | util/crc32c.cpp:155-198 | all 256 literals: the same for the second lane |
| `Crc32cTables.StrideExtension3IsTable` | util/crc32c.cpp:200-243 | all 256 literals: the same for the first lane |
| `Crc32cSpec.ShiftLinear` | util/crc32c.cpp:287-291 | extending by zero bits is linear over exclusive-or |
| `Crc32cSpec.ShiftInjective` | util/crc32c.cpp:287-291 | extending by zero bits loses nothing |
| `Crc32cSpec.CrcAppend` | util/crc32c.h:14-17 | the checksum of A continued over B is the checksum of A followed by B |
| `Crc32cSpec.BurstDetected` | util/crc32c.h:14-17 | messages that differ only inside 32 neighbouring bits leave different registers, whatever surrounds them |
| `Crc32cSpec.UndetectedIff` | util/crc32c.h:14-17 | an alteration goes unnoticed if and only if its pattern leaves a zero register zero |
| `Crc32cSpec.FeedParity` | util/crc32c.h:14-17 | the parity of the register changes with every one that is fed, and with nothing else |
| `Crc32cSpec.OddErrorsDetected` | util/crc32c.h:14-17 | an odd number of altered bits, wherever they are, changes the checksum |
| `Crc32c.Step1Feeds` | util/crc32c.cpp:287-291 | STEP1 is eight steps of the bit-serial register |
| `Crc32c.Step4Shifts` | util/crc32c.cpp:293-300 | STEP4 moves a partial remainder on by 16 bytes and adds its next word |
| `Crc32c.Step4W` | util/crc32c.cpp:312-320 | STEP4W adds the register to a word and moves on by four bytes |
| `Crc32c.StridesStart` | util/crc32c.cpp:332-338 | the first 16 bytes, with the register in the first word, combine to the real remainder |
| `Crc32c.RotateFeeds` | util/crc32c.cpp:294-300 | giving the oldest partial remainder the next word and making it the newest feeds that word to the combined remainder |
| `Crc32c.CombineStrides` | util/crc32c.cpp:360-365 | the combining step yields the remainder that the four partial ones stand for |
| `Crc32c.Extend` | util/crc32c.cpp:276-377 | for every initial value, buffer and address the result is the bit-serial CRC32C (whose known answers are in `Crc32cAnswers`) |
| `Crc32c.Value` | util/crc32c.h:19-22 | the checksum of a buffer |
| `Crc32cAnswers.ChecksumOfDigits` | util/crc32c.h:19-22 | the checksum of the digits 1 to 9 is 0xe3069283 |
| `Crc32cAnswers.ChecksumOfZeros` | util/crc32c.h:19-22 | the checksum of 32 zero bytes is 0x8a9136aa (section B.4 of RFC 3720) |
| `Crc32cAnswers.ChecksumOfZero` | util/crc32c.h:19-22 | the checksum of one zero byte is 0x527d5351 |
| `Crc32c.ExtendTwice` | util/crc32c.h:14-17 | streaming through the fast form: any split, any two addresses |
| `Crc32c.WindowDetected` | util/crc32c.cpp:276-377 | equal-length buffers that differ only inside four neighbouring bytes have different checksums |
| `Crc32c.MaskRoundTrip` | util/crc32c.h:24-40 | `Mask` and `Unmask` are inverse to each other |
| `Crc32c.MaskExamples` | util/crc32c.h:24-40 | the masks of 0, of 1 and of the checksum of the digits, as literals |
| `Coding.FixedRoundTrip` | util/coding.h:25-40 | a number is read back from its little-endian bytes (body: util/coding.cpp, 99-107) |
| `Coding.FixedExamples` | util/coding.h:25-33 | the lowest byte comes first (body: util/coding.cpp, 99-107) |
| `Coding.FixedOfValue` | util/coding.h:28-40 | bytes are written back from the number they spell, so reading them is injective |
| `Coding.EncodeVarint32` | util/coding.h:22-22 | the five branches write the base-128 groups of the number (body: util/coding.cpp, 45-71) |
| `Coding.EncodeVarint64` | util/coding.h:23-23 | the loop writes the same groups (body: util/coding.cpp, 87-97) |
| `Coding.VarintLength` | util/coding.h:20-20 | the number of bytes that the encoders write (body: util/coding.cpp, 6-14) |
| `Coding.VarintSizes` | util/coding.h:16-17 | at most 5 and 10 bytes, the sizes of the buffers (body: util/coding.cpp, 28-38) |
| `Coding.VarintExamples` | util/coding.h:22-23 | the examples of the DWARF standard (body: util/coding.cpp, 45-97) |
| `Coding.VarintRoundTrip` | util/coding.h:48-59 | a varint is read back whatever follows it |
| `Coding.Varint32RoundTrip` | util/coding.h:48-59 | the same for the 32-bit reader |
| `Coding.ParsedIff` | util/coding.h:48-59 | a number is read if and only if one of the first five bytes ends it, and it ends at the first that does (body: util/coding.cpp, 109-130) |
| `Coding.LostBits` | util/coding.h:46-46 | bits above the 32nd are lost, and a sixth byte is not read (body: util/coding.cpp, 109-130) |
| `Coding.GetVarint32Ptr` | util/coding.h:48-59 | fast path and loop read the number at the front, modulo 2^32, or fail if it does not end in five bytes |
| `Coding.GetVarint32PtrFallback` | util/coding.h:46-46 | the loop alone (body: util/coding.cpp, 109-130) |
| `Coding.GetVarint32` | util/coding.h:42-42 | the number, and a slice advanced past it, or an unchanged slice (body: util/coding.cpp, 132-143) |
| `Coding.ParseVarint64ReadsVarints` | util/coding.h:43-43 | the 64-bit counterpart of the 32-bit reader takes back what `PutVarint64` writes, so the assumption on the missing body can be met |
| `BytewiseComparator.CompareIsLess` | include/leveldb/slice.h:76-85 | `compare` is the lexicographic order of unsigned bytes, and 0 exactly on equal strings |
| `BytewiseComparator.LessTransitive` | include/leveldb/slice.h:76-85 | that order is transitive |
| `BytewiseComparator.BytewiseOrder` | include/leveldb/comparator.h:15-40 | the byte-wise comparator is a total order, and its separator lies in [start, limit) or is start |
| `BytewiseComparator.FindShortestSeparator` | util/comparator.cpp:22-44 | the in-place edit leaves the separator, and its assertion holds |
| `BytewiseComparator.SeparatorContract` | include/leveldb/comparator.h:32-38 | the result lies in [start, limit) if and only if start < limit |
| `BytewiseComparator.SeparatorBetween` | util/comparator.cpp:22-44 | never longer than start, and strictly between the two if changed, for any two strings |
| `BytewiseComparator.SeparatorShortest` | util/comparator.cpp:36-42 | a changed result is as short as any string in [start, limit) |
| `BytewiseComparator.SeparatorLeast` | util/comparator.cpp:36-42 | a changed result is the first among the shortest strings strictly between |
| `BytewiseComparator.SeparatorChangesIff` | util/comparator.cpp:22-42 | it changes if and only if the strings differ where both have a byte and some byte lies between the two; it then ends in the byte of start plus one |
| `BytewiseComparator.SeparatorExample` | util/comparator.cpp:22-44 | between "helloworld" and "hellozzz" it is "hellox" |
| `BytewiseComparator.FindShortSuccessor` | util/comparator.cpp:46-58 | the in-place edit leaves the successor |
| `BytewiseComparator.SuccessorIsShortest` | include/leveldb/comparator.h:40-43 | after the key unless the key is all 0xff; no string after the key is shorter, and none as short is smaller |
| `DbFormat.MadeKeyParts` | db/dbformat.cpp:9-13 | user key, sequence number and type are recovered from a packed key |
| `DbFormat.PackedBytes` | db/dbformat.cpp:9-13 | the bytes of a packed key: user key, type, seven bytes of sequence number |
| `DbFormat.InternalCompareIsLess` | db/dbformat.cpp:43-60 | over any total order of user keys the comparator's sign is the order: user key ascending, tag descending; 0 exactly on equal keys |
| `DbFormat.InternalOrderIsTotal` | db/dbformat.cpp:43-60 | over any total order of user keys it is a total order on internal keys, fit for the skip list |
| `DbFormat.PackedOrder` | db/dbformat.cpp:9-60 | on packed keys, over any user comparator: user key ascending, then sequence descending, then type descending |
| `DbFormat.FindShortestInternalSeparator` | db/dbformat.cpp:62-78 | over any user comparator and separator that meet their contracts the edit leaves the separator, and both assertions hold |
| `DbFormat.InternalSeparatorBetween` | db/dbformat.cpp:69-77 | a changed result is strictly shorter, strictly between the two, and not after any version of its user key |
| `DbFormat.InternalSeparatorChangesIff` | db/dbformat.cpp:62-78 | it changes if and only if the user separator is shorter and after the user key, and then is that separator and the eight bytes 01 ff ff ff ff ff ff ff |
| `DbFormat.InternalSeparatorContract` | include/leveldb/comparator.h:32-38 | in internal order the result lies in [start, limit) if and only if start < limit, and is start otherwise |
| `DbFormat.ExtendedOrderIsTotal` | db/dbformat.cpp:43-78 | extended to strings of less than eight bytes, the internal comparator and its separator meet the contracts that a table asks for |
| `DbFormat.FindShortInternalSuccessor` | db/dbformat.cpp:80-95 | it is the byte-wise successor of the raw key |
| `DbFormat.SuccessorContractIff` | db/dbformat.cpp:80-95 | the result is an internal key not before the given one if and only if the given one is all 0xff (byte-wise user keys) |
| `DbFormat.SuccessorContractNeverMet` | db/dbformat.cpp:80-95 | no key with a valid type meets the contract |
| `DbFormat.SuccessorContractFails` | db/dbformat.cpp:80-95 | a key on which the contract fails |
| `DbFormat.LookupKey.constructor` | db/dbformat.cpp:15-36 | the buffer is length prefix, user key and tag; its parts are where the accessors look; it fits the reserved space |
| `DbFormat.SeekFindsNewestVisible` | db/dbformat.cpp:9-60 | over any total order of user keys, in any sorted list of well-typed keys a seek lands on the visible version with the greatest tag, or on a greater user key, or on the end |
| `MemTable.EntryOrderIsPreorder` | db/memtable.h:29-34 | comparing the length-prefixed keys of entries is a total preorder (body: db/memtable.cpp, 95-101) |
| `MemTable.EncodeEntry` | db/memtable.h:22-22 | for any lengths and sequence number: the bytes that are written, and the space reserved before (body: db/memtable.cpp, 70-91) |
| `MemTable.EntryBytes` | db/memtable.h:22-22 | the bytes of an entry: key length, key, type, sequence number, value length, value (body: db/memtable.cpp, 76-91) |
| `MemTable.EntryKeptIff` | db/memtable.h:22-22 | key, sequence, type and value are found again in the entry if and only if they fit into its fields (body: db/memtable.cpp, 76-91) |
| `MemTable.EntryNotKept` | db/memtable.h:22-22 | a write with a sequence number of 57 bits, which its entry does not keep (body: db/memtable.cpp, 82) |
| `MemTable.ValidIff` | db/memtable.h:22-22 | which writes are kept, in numbers: sequence numbers below 2^56, types 0 and 1, lengths of 32 bits |
| `MemTable.TargetBytes` | db/dbformat.cpp:15-36 | what `Get` seeks with has type 1 |
| `MemTable.NewestIsNewest` | db/memtable.h:24-24 | what a read should find: a visible write than which no visible write is newer, and every later visible one is older |
| `MemTable.ReadAtIsRight` | db/memtable.h:24-24 | the answer in terms of the writes: the value if the newest visible one has type 1, deleted if it has type 0, missing if there is none; and there is one if any is visible (body: db/memtable.cpp, 118-132) |
| `MemTable.SeekResult` | db/memtable.h:24-24 | a seek with the lookup key stops at the entry of the newest visible write, or at another user key, or at the end (body: db/memtable.cpp, 103-109) |
| `MemTable.MemTable.Add` | db/memtable.h:22-22 | for every write that passes the assertions: the table holds the entries of all writes (body: db/memtable.cpp, 70-93) |
| `MemTable.MemTable.Get` | db/memtable.h:24-24 | after any writes that their entries keep: the value of the newest visible write if its type is 1, deleted if it is 0, or missing, for every lookup key that passes the comparator's assertion (body: db/memtable.cpp, 103-134) |
| `MemTableRace.ConcurrentGet` | db/memtable.h:24-24 | in every interleaving with `Add` the search of `Get` decides as a sequential read would after exactly the writes published before its last read, with the same meaning of the types (body: db/memtable.cpp, 103-134) |
| `BlockFormat.FastPathAgrees` | table/block_builder.cpp:50-53 | the fast path for three one-byte lengths reads the same header (body: table/block.cpp, 39-52) |
| `BlockFormat.DecodesHeader` | table/block_builder.cpp:50-55 | an encoded entry's header is decoded, and the 32-bit length check passes (body: table/block.cpp, 36-58) |
| `BlockFormat.CheckedIffNoOverflow` | table/block_builder.cpp:50-55 | an entry that passes the length check ends inside the data if and only if its two lengths do not overflow 32 bits (body: table/block.cpp, 54-56) |
| `BlockFormat.WrappedSumFits` | table/block_builder.cpp:50-55 | what the check does ensure: the wrapped sum of the lengths fits (body: table/block.cpp, 54-56) |
| `BlockFormat.OverflowPasses` | table/block_builder.cpp:50-55 | seven bytes that pass the check and announce a key and a value of 2^32 bytes together (body: table/block.cpp, 54-56) |
| `BlockFormat.OverflowInValue` | table/block_builder.cpp:50-55 | eight bytes that pass the check, hold their key, and announce a value of 2^32 - 1 bytes (body: table/block.cpp, 54-56) |
| `BlockFormat.OffsetsGrow` | table/block_builder.cpp:51-55 | every entry takes space |
| `BlockFormat.RestartAt` | table/block_builder.cpp:36-48 | restart i is the byte offset of entry i * interval |
| `BlockFormat.RestartsIncrease` | table/block_builder.cpp:36-48 | restart points strictly increase |
| `BlockFormat.SharedIsLongest` | table/block_builder.cpp:32-48 | at restart points a key shares nothing, elsewhere the longest prefix that it has in common with the key before |
| `BlockFormat.BlockExamples` | table/block_builder.cpp:32-74 | two whole blocks, byte by byte |
| `BlockFormat.BlockSplits` | table/block_builder.cpp:63-74 | the last four bytes of a block lead to exactly its restart array and its entries |
| `BlockFormat.BlockRoundTrip` | table/block_builder.cpp:32-74 | decoding the entry area of a finished block yields exactly what was added |
| `BlockFormat.RestartRoundTrip` | table/block_builder.cpp:36-60 | decoding from restart i, with no key before it, yields exactly the entries from i * interval on |
| `BlockFormat.BlockDeterminesEntries` | table/block_builder.cpp:32-74 | equal blocks hold equal entries, whatever the intervals |
| `BlockBuilder.ScanShared` | table/block_builder.cpp:38-42 | the scan finds the longest common prefix |
| `BlockBuilder.BlockBuilder.constructor` | table/block_builder.cpp:13-20 | an empty builder |
| `BlockBuilder.BlockBuilder.Reset` | table/block_builder.cpp:22-30 | an empty builder again, finished or not |
| `BlockBuilder.BlockBuilder.Add` | table/block_builder.cpp:32-61 | buffer, restarts, counter and last key describe the entries with the new one; the assertion holds |
| `BlockBuilder.BlockBuilder.Finish` | table/block_builder.cpp:63-74 | the finished block is the encoding of all entries |
| `BlockBuilder.BlockBuilder.Empty` | table/block_builder.h:26-26 | empty if and only if nothing was added |
| `BlockBuilder.BlockBuilder.CurrentSizeEstimate` | table/block_builder.cpp:76-81 | the estimate is the exact size of the block |
| `BlockIterator.OverflowingBlock` | table/block.h:22-22 | a block of 15 bytes that an iterator opens and whose entry reaches outside (body: table/block.cpp, 54-56 and 234-249) |
| `BlockIterator.BlockIterator.constructor` | table/block.h:22-22 | an iterator over any bytes with room for their restart array stands at no entry (body: table/block.cpp, 100-105) |
| `BlockIterator.BlockIterator.ParseNextKey` | table/block.h:34-34 | on any block: the end, a corruption error, or the decoded entry with its key rebuilt; a read outside exactly if the key ends outside; the value lies inside exactly if the lengths do not overflow; and the next offset moves on and stays inside (body: table/block.cpp, 201-231) |
| `BlockIterator.BlockIterator.ReadToEnd` | table/block.h:34-34 | stepping through any block comes to an end, after no more entries than bytes (body: table/block.cpp, 201-231) |
| `BlockIterator.BlockIterator.RestartKey` | table/block.h:34-34 | on any block: the key at a restart point, a corruption error, or a read outside exactly if the key ends there (body: table/block.cpp, 146-155) |
| `BlockIterator.BlockIterator.SeekToRestartPoint` | table/block.h:34-34 | on any block: the next offset is the restart point, and there is no key to share (body: table/block.cpp, 90-97) |
| `BlockIterator.BlockIterator.SeekToFirst` | include/leveldb/iterator.h:20-20 | at the first entry, if there is one (body: table/block.cpp, 179-183) |
| `BlockIterator.BlockIterator.Next` | include/leveldb/iterator.h:26-26 | at the next entry (body: table/block.cpp, 115) |
| `BlockIterator.BlockIterator.Prev` | include/leveldb/iterator.h:28-28 | at the entry before, or at none (body: table/block.cpp, 117-136) |
| `BlockIterator.BlockIterator.SeekToLast` | include/leveldb/iterator.h:22-22 | at the last entry, if there is one (body: table/block.cpp, 185-189) |
| `BlockIterator.BlockIterator.Seek` | include/leveldb/iterator.h:24-24 | binary search over restart points and linear search behind them find the lower bound among all keys (body: table/block.cpp, 138-177) |
| `Format.HandleRoundTrip` | table/format.cpp:12-27 | a handle is read back whatever follows it |
| `Format.BlockHandle.EncodeTo` | table/format.cpp:12-18 | appends the handle |
| `Format.BlockHandle.DecodeFrom` | table/format.cpp:20-27 | status, handle and input after success, and after either failure |
| `Format.HandleReadIff` | table/format.cpp:20-27 | a handle is read if and only if two numbers stand one behind the other |
| `Format.Footer.EncodeTo` | table/format.cpp:29-38 | what any destination holds afterwards; the assertion on its length holds if and only if it was empty, and then it holds the footer: both handles whole, zero padding, the magic number |
| `Format.Footer.DecodeFrom` | table/format.cpp:40-60 | the outcomes in the order of the checks, with the handles and the input that each leaves; on success exactly the bytes after the footer |
| `Format.FooterRoundTrip` | table/format.cpp:29-60 | both handles are read back from an encoded footer followed by anything |
| `Format.FooterExample` | table/format.cpp:29-38 | the bytes of one footer: offset, size, metaindex, index, zeros and magic number in their places |
| `Format.FooterEndsInMagic` | table/format.cpp:29-38 | every footer has 48 bytes, and ends in the eight bytes of the magic number |
| `Format.OtherMagicRefused` | table/format.cpp:40-48 | a bad magic number is reported, with nothing changed, if and only if those eight bytes are others |
| `Format.FooterReadIff` | table/format.cpp:49-60 | behind the right number the footer is read if and only if both handles are, in their order, and what follows its 48 bytes is left |
| `Format.FooterAfterByteLost` | table/format.cpp:29-60 | a footer encoded behind one byte is not read back |
| `Format.WordRoundTrip` | util/coding.h:25-33 | the stored checksum word is read back (body: util/coding.cpp, 99-102) |
| `Format.ReadBlock` | table/format.cpp:62-119 | status and contents for every size and every answer of the file, with or without verification, or a read outside the answer |
| `Format.ReadAnswers` | table/format.cpp:62-119 | the answers one by one: a failed read, a wrong length, a wrong checksum, each type, and the two flags |
| `Format.LengthCheckIff` | table/format.cpp:71-93 | an answer that passes the length check holds type and checksum if and only if the size plus five does not wrap around; if it wraps, a read outside, except for a checksum mismatch at size 2^64 - 1 |
| `Format.LengthCheckFails` | table/format.cpp:71-82 | a handle that can be decoded, and an empty answer that passes |
| `Format.ChecksumHoldsIff` | table/format.cpp:85-93 | for every body exactly one trailer is accepted, the one that is written |
| `Format.StoredBlockReadBackIff` | table/format.cpp:95-118 | a stored block (of less than 2^64 bytes) always reads OK, and with its contents if and only if it is marked uncompressed, or empty |
| `Format.StoredBlockLost` | table/format.cpp:95-118 | one byte stored under the default compression reads OK and is lost |
| `Format.DamagedBlockRefused` | table/format.cpp:85-93 | damage within four neighbouring bytes under an intact trailer is a checksum mismatch |
| `Format.OddDamageRefused` | table/format.cpp:85-93 | so is any odd number of flipped bits under an intact trailer, wherever they are |
| `Format.DamagedTrailerRefused` | table/format.cpp:85-93 | so is any damage to the trailer alone |
| `Table.HandleLeadsToBlock` | include/leveldb/table_builder.h:71-71 | the handle of a block leads to its stored bytes, however the file grows (body: table/table_builder.cpp, 171-190) |
| `Table.IndexSorted` | include/leveldb/table_builder.h:35-38 | index keys strictly increase (body: table/table_builder.cpp, 89-97) |
| `Table.TwoLevelSeek` | include/leveldb/table_builder.h:35-38 | a search in the index and one in the block it leads to find the lower bound among all entries (body: table/table_builder.cpp, 89-97) |
| `Table.PlaceInBlock` | include/leveldb/table_builder.h:35-38 | the search of the block finds the first entry of all not before the target, or no entry has the target as its key (body: table/table_builder.cpp, 89-97) |
| `TableBuilder.SetupsExist` | include/leveldb/comparator.h:15-40 | what the builder asks of comparator and separator is met byte-wise, and by internal keys over any user comparator |
| `TableBuilder.AddIsSound` | include/leveldb/table_builder.h:35-38 | adding the next key, with the index entry that waited for it, keeps file, blocks and index in agreement and adds just that entry (body: table/table_builder.cpp, 79-106) |
| `TableBuilder.FlushIsSound` | include/leveldb/table_builder.h:40-44 | so does writing out the data block, which adds nothing (body: table/table_builder.cpp, 115-133) |
| `TableBuilder.TableBuilder.WriteRawBlock` | include/leveldb/table_builder.h:71-71 | the handle, and for every outcome of the appends the bytes that reach the file (data, type and masked checksum), the offset and the status (body: table/table_builder.cpp, 171-190) |
| `TableBuilder.TableBuilder.WriteBlock` | include/leveldb/table_builder.h:70-70 | the finished block is stored as it is under the configured type, and its builder is empty again (body: table/table_builder.cpp, 135-169) |
| `TableBuilder.TableBuilder.Flush` | include/leveldb/table_builder.h:40-44 | nothing, or one block more, or the first error (body: table/table_builder.cpp, 115-133) |
| `TableBuilder.TableBuilder.Add` | include/leveldb/table_builder.h:35-38 | keeps the invariant, and as long as the status is OK the table holds all entries added; a block is written, whole, if and only if it has reached the block size, and then the status is that of writing it (body: table/table_builder.cpp, 79-113) |
| `TableBuilder.AddedTo` | include/leveldb/table_builder.h:35-38 | what an `Add` without errors does: the entry is added, and the data block is written and emptied if and only if it has reached the block size (body: table/table_builder.cpp, 104-112) |
| `TableBuilder.BlocksAreShortest` | include/leveldb/table_builder.h:35-38 | over whole runs: every block written is the shortest run of entries that reaches the block size, the open one is below it, and together they are the entries added, in order (body: table/table_builder.cpp, 108-112) |
| `TableBuilder.RunIsSound` | include/leveldb/table_builder.h:35-38 | over whole runs with ascending keys: file, handles and index agree, and each index key is the separator of its block's last key and the next block's first (body: table/table_builder.cpp, 79-113) |
| `TableBuilder.StatusIsFirstError` | include/leveldb/table_builder.h:40-44 | the status after writing a block is the first error of data, trailer and flush (body: table/table_builder.cpp, 115-133 and 171-190) |
| `TableBuilder.TableLookup` | include/leveldb/table_builder.h:35-44 | at every moment, index search, handle, file, checksum and block search find the place of any target, the searches being lower bounds in the sequences of index and block entries (from bytes: `TableReader.Find`), if and only if blocks are marked uncompressed (body: table/table_builder.cpp, 79-190) |
| `TableReader.Find` | table/table.cpp:85-120 | from the bytes of index block and file, by the steps that find a filter: an entry found is the first of all not before the target, and an entry with the target as its key is found |
| `Arena.RunsAreSafe` | util/arena.cpp:19-62 | after any mix of requests every range given lies in one block, apart from all others and from the unallocated rest |
| `Arena.RunIsAligned` | util/arena.cpp:37-54 | aligned requests get multiples of 8 if new blocks are, and keep them |
| `Arena.OwnedIffFits` | util/arena.cpp:37-54 | a range lies in a block if and only if the size did not wrap around |
| `Arena.WrappedRequest` | util/arena.cpp:37-54 | a legal run after which a request wraps around and gets bytes that no block holds |
| `Arena.SpaceBound` | util/arena.cpp:19-35 | three times the blocks are at most four times the bytes requested, counting seven more for each aligned request, plus three blocks |
| `Arena.BlocksMade` | util/arena.cpp:19-62 | when a block is made, of which size, and what it costs: none for a request that fits, its own for more than 1024 bytes, one of 4096 otherwise |
| `Arena.SlopIsLeast` | util/arena.cpp:37-41 | an aligned request skips to the next multiple of 8 and no further |
| `Arena.UsageIsExact` | util/arena.cpp:56-62 | `MemoryUsage` is the sum of the block sizes and a pointer for each |
| `Arena.Arena.Allocate` | util/arena.h:41-53 | one step of the allocator, which keeps it safe |
| `Arena.Arena.AllocateAligned` | util/arena.cpp:37-54 | the same for aligned requests; the assertion holds |
| `Arena.Arena.AllocateFallback` | util/arena.cpp:19-35 | a block of its own for more than 1024 bytes, else a new standard block |
| `Arena.Arena.AllocateNewBlock` | util/arena.cpp:56-62 | one block more, and its cost |
| `Arena.Arena.MemoryUsage` | util/arena.h:22-24 | the exact footprint |

## Left out

- Weak memory: `next_` pointers are plain and `max_height_` is accessed without barriers; only sequentially consistent
  interleavings are covered.
- Node memory: skip-list nodes are objects whose slots are a sequence; their layout in the arena is not modelled, and neither
  are `malloc` failures.
- The accelerated branch of `Extend` and `CanAccelerateCRC32C`: they call an overload that the repository does not declare.
- The layout of the CRC tables: sixteen rows of sixteen literals here, 256 in a row in the source.
- `Random::Uniform`, `OneIn` and `Skewed`, `Status` messages beyond those shown, cleanup lists, `InitOnce`, port headers.
- Snappy: the repository neither compresses nor decompresses.
- BlockBuilder.BlockBuilder.Add: not after `Finish`, and with a restart interval that does not change between calls.
- BlockFormat.BlockRoundTrip: for blocks below 2^32 bytes, since restart points and lengths are stored in 32 bits.
- `Block::Block` and `NewIterator` on contents too short for their restart array, which give an error or empty iterator.
- DbFormat.LookupKey.constructor: where the buffer lies, in the object or on the heap, is not modelled.
- BlockIterator.BlockIterator.ParseNextKey: what happens after a key has been copied from outside the block, or to the next
  offset after a corruption error, where the source's pointer is meaningless. A value that reaches outside is a range here,
  and nobody reads it. Where seeking and moving lead is proved on blocks that a builder finished.
- Coding.ParseVarint64ReadsVarints: `GetVarint64` itself has no body to compare with.
- MemTable.MemTable.Add: a write on which an assertion of `Add` or of the comparator fails; the arena's part is in `Arena`.
- MemTable.MemTable.Get: what is found if a write was not kept by its entry (see `MemTable.EntryKeptIff`), and a lookup key
  whose length prefix announces less than eight bytes, on which the comparator's assertion fails.
- MemTable.SeekResult: user keys below 2^32 - 8 bytes; the length prefix of others is truncated (`MemTable.MemTable.Get` covers
  them).
- MemTableRace.ConcurrentGet: user keys below 2^32 - 8 bytes, as in `MemTable.SeekResult`.
- `MemTableIterator`, which forwards to the skip list's iterator.
- The default constructor of `BlockHandle`, declared without a body: handles are made with given fields here.
- Format.ReadBlock: what happens after a read outside the answer; who owns the buffer is reduced to the two flags of the result.
- TableBuilder.TableBuilder.Add: files stay below 2^64 - 1 bytes.
- TableReader.Find: blocks below 2^32 bytes; the two-level iterator that would go on to the next block is not in the repository.
- `TableBuilder::Finish`: it writes no footer and returns nothing, so a finished table is not modelled; nor are filter blocks,
  `ChangeOptions` and `Abandon`.
- `Table::Open`, `ReadMeta`, `ReadFilter`, caches, filter policies, environments and files: input and output around code that is
  not in the repository.
