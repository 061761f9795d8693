# Verified core of the filesystem toolkit

`ferrosys` reads and writes filesystem images. This project models the parts of its ext4 side whose
correctness is not visible from any one function, and proves what they promise:

* **Hash-indexed directories** (`DirRecord`, `Tiling`, `Filling`, `DirPack`, `DirReader`, `DirLinear`,
  `HtreeBlocks`, `Htree`, `HashIndex`, `HtreeLaws`, `HtreeIndex`, `HtreeListing`, `DirLookup`, `DirFound`,
  `DirJudged`, `DirComplete`, `DirScan`, `DirSealed`). Names are sorted by hash, packed into leaf blocks byte by
  byte, and indexed by one or two levels of entries whose low hash bit marks a hash continued from the leaf
  before. The main theorem follows a lookup through the bytes of the blocks that were built: of the entries
  after the dots that are in use and at no fault, it finds the first that has the name, exactly when there is
  one. Listing and the scan for misplaced names are followed through the same bytes, and all three through the
  checksums then written into the blocks.
* **CRC-32C** (`Words`, `Crc`, `Csum`). The slicing-by-8 loop equals division a bit at a time, and for each
  checksum recipe it is known exactly which identities share a checksum.
* **The bitmap allocator** (`Bitmap`, `AllocSpec`, `Alloc`, `AllocRuns`). A class over a packed bitmap and a
  cursor: exact success and failure, no double allocation in any run, and conserved counts.
* **The block cache** (`Cache`). A class of stamped slots that refines a list of keys in order of use, and
  from it the stack property over every trace.
* **Boundary formats** (`Acls`, `AclText`, `Text`, `Records`, `PaxTime`, `Percent`, `PaxRecords`, `PaxLaws`,
  `PaxFrame`, `PaxSink`, `Escape`). Access control lists in binary and in text, PAX times, records and their
  framing, and escaped text: round trips, canonical forms, and exactly when a parser refuses. From the records
  an archive is written with for a member, its ids, its carried times, its attributes and its ACLs come back.

Generic modules (`Tiling`, `Filling`, `StableSort`, `Records`, `HashIndex`) carry the inductions with sizes,
writers, readers and orders as parameters; the others instantiate them.

`dafny verify dfyconfig.toml` checks the project.

## How the model reads

* Machine words are integers with a range, and shifts and exclusive or are functions on them (`Words`). A
  cast that can truncate is written out (`Htree.AsU32`, `RecLenToDisk`).
* An operation the source runs in place, or as a loop over locals, is a method proved equal to a function of
  its inputs or of the old state; the theorems are about those functions. Two loops of one source function
  may be two methods here (`PackOneBlock` calls `WriteEntries` and `CloseBlock`, for instance).
* Errors are values. Their order is the source's: each method's result equals its function's on the error
  paths too.
* `Sized` states the block sizes the directory format has: a multiple of four up to 64 KiB, with a
  twelve-byte tail or none. Building needs only `Builds`, which keeps the source's subtractions and its
  division by a node's capacity defined.
* The name hash is a parameter. What is used of it is what `dir_hash` promises: the low bit of the major
  hash is clear and the end of the hash space is never a hash (`Htree.Hasher`). A lookup computes it with the
  algorithm the index root records (`DirLookup.HashFor`).
* `DirReader.Reader` is what a reader brings to a directory: how many inodes there are, and whether its policy
  refuses an entry at fault or leaves it out.
* The decoder of UTF-8 is a parameter. What is used of it is that it keeps ASCII as it is
  (`PaxSink.KeepsAscii`).

Where the code and its comments differ, the code is followed:

* The seed of an inode is documented to make a block moved between two inodes fail its checksum.
  `Csum.InodeNumberBinds`, `Csum.GenerationBinds` and `Csum.BlockNumberBinds` prove it where one identity word
  differs. Of an extent node, a directory block or an orphan block it is false where both do:
  `Csum.MovedBlockCanVerify` gives, for any two inode numbers, the generation under which the block verifies,
  and `Csum.MovedBlockCollides` the exact condition. This library writes every generation as zero, so of the
  blocks it writes the promise holds. Of an inode itself it always holds at full width (`Csum.InodeMoveFails`),
  since its generation is one of the bytes that move. Where an inode stores sixteen bits it is false, whatever
  the bytes: `Csum.NarrowMoveCollides` is the exact condition, and `Csum.NarrowInodeCanVerifyElsewhere` gives
  an inode in whose place they verify.
* A copied attribute block fails its checksum below 2^32 (`Csum.BlockNumberBinds`); past it
  `Csum.FarBlockCanVerify` gives block numbers that an inode can store and under which it verifies. Sixteen
  stored bits bind a group descriptor to no group (`Csum.GroupDescriptorCanVerifyElsewhere`).
* A PAX time written for a timestamp whose carried fraction passes the greatest second saturates, so it
  names another instant; `PaxTime.PrintedInstant` states exactly when it does not.
* The root of an index stores `.` and `..` as directories whatever type the caller's entries had, so
  `HtreeListing.IndexedListed` lists them as directories.

## Model

| member | source | states |
|---|---|---|
| DirRecord.RecLenReadsBack | crates/ferrosys/src/ondisk/dirent.rs:46-84 | a record length within its block reads back as itself if and only if the block is below 64 KiB or the length is a positive multiple of four |
| DirRecord.ReadRecord | crates/ferrosys/src/ondisk/dirent.rs:184-262 | a record written with any readable length is read back as its entry and that length, whatever follows it |
| DirRecord.ReadTail | crates/ferrosys/src/ondisk/dirent.rs:265-289 | the checksum tail reads as an unused slot of twelve bytes |
| DirRecord.WriteTo | crates/ferrosys/src/ondisk/dirent.rs:184-217 | an entry written in place changes only its header and name, or faults on exactly a long name, a bad length or too little room and changes nothing |
| DirRecord.WriteDirTail | crates/ferrosys/src/ondisk/dirent.rs:274-289 | the tail written in place, or the fault of too little room and nothing changed |
| DirPack.CloseBlock | crates/ferrosys/src/dir.rs:134-153 | the last record's length rewritten to span the usable area and the tail written after it, nothing else changed |
| DirPack.PackOneBlock | crates/ferrosys/src/dir.rs:157-174 | the buffer filled in place holds the entries tiled over the usable area and then the tail; the first long name, or a tail too small, is the error |
| DirPack.WalkPacked | crates/ferrosys/src/dir.rs:134-174 | stepping by record length from the start of a packed block stands on exactly its entries in order, then the tail, and ends at the block's end |
| DirPack.PackedTiles | crates/ferrosys/src/dir.rs:140-147 | the records and the tail of a packed block add up to the block |
| DirReader.ReadBlock | crates/ferrosys/src/read.rs:4598-4659 | the walk of any bytes lists, leaves out or refuses each entry in turn, and stops at the first error |
| DirReader.ListedIs | crates/ferrosys/src/read.rs:4625-4650 | a listing is the entries in use at no fault, in order; a strict reader answers the first fault instead if and only if there is one |
| DirReader.PackedListed | crates/ferrosys/src/read.rs:4598-4659 | a packed block read back lists what the reader makes of its entries, in order |
| DirLinear.FitsInOneBlock | crates/ferrosys/src/dir.rs:178-197 | whether the records fit one block, or the error of the first that fits none |
| DirLinear.BuildLinear | crates/ferrosys/src/dir.rs:210-254 | the loop's blocks and its error, in the order it meets them, are those of the fold that packs a group when the next entry does not fit |
| DirLinear.LinearIs | crates/ferrosys/src/dir.rs:210-254 | building succeeds if and only if the tail leaves room and is one, every entry fits a block and every name a record; the blocks are then the greedy split of the entries, losing none, each group packed |
| DirLinear.LinearListed | crates/ferrosys/src/dir.rs:199-255 | the blocks of a linear directory list what a reader of either policy makes of the entries it was built from, in the order given |
| Tiling.GreedyUnique | crates/ferrosys/src/dir.rs:227-243 | groups that fit, none empty, each closed only because the next item did not fit: there is only one such split of a list |
| Tiling.GroupsAre | crates/ferrosys/src/dir.rs:324-338 | the fill loop's groups are that split, and flatten to the items |
| Filling.FillGroups | crates/ferrosys/src/dir.rs:322-338 | the loop that fills leaves computes the greedy groups |
| Filling.BuildIs | crates/ferrosys/src/dir.rs:225-253 | interleaving packing with splitting succeeds if and only if no item is too large and every group packs, and yields the groups packed |
| Htree.RecordLeafHashes | crates/ferrosys/src/dir.rs:340-358 | each leaf's recorded hash: zero for the first, else its lowest hash, marked if and only if that hash ends the leaf before |
| Htree.ChunkBegins | crates/ferrosys/src/dir.rs:412-418 | the i-th run of leaves begins at leaf i times the node capacity, so the root's entry has its first leaf's hash |
| Htree.BuildNodes | crates/ferrosys/src/dir.rs:388-411 | the interior nodes are one over each run of leaves, the first hash of each implied |
| Htree.BuildRootEntries | crates/ferrosys/src/dir.rs:412-417 | the root's entries over the nodes |
| Htree.BuildIndex | crates/ferrosys/src/dir.rs:360-437 | the index built level by level is the index of the leaf hashes, or the error of one too large |
| Htree.PackLeaves | crates/ferrosys/src/dir.rs:439-444 | the leaves packed in turn, up to the first that does not pack |
| Htree.BuildBlocks | crates/ferrosys/src/dir.rs:307-446 | the whole build: linear when one block holds the directory, else index blocks then leaves, with every error in the order it is met |
| HtreeLaws.SortedByHash | crates/ferrosys/src/dir.rs:289-301 | the sorted names are a rearrangement of the given ones, each with its own hash, in order of major hash, minor hash and name |
| HtreeLaws.HashesRecorded | crates/ferrosys/src/dir.rs:344-358 | the hashes recorded for ordered leaves are those the search's continued bit relies on |
| HtreeBlocks.IndexBlockRead | crates/ferrosys/src/ondisk/htree.rs:172-311 | the entries an index block was written with are what its bytes read back as |
| HtreeBlocks.RootWalk | crates/ferrosys/src/ondisk/htree.rs:98-136 | the root's bytes walk as `.` and then `..` spanning the index |
| HtreeBlocks.NodeWalk | crates/ferrosys/src/ondisk/htree.rs:147-161 | a node's bytes walk as one unused slot spanning the block, at 64 KiB too |
| HtreeIndex.IndexBuilt | crates/ferrosys/src/dir.rs:360-437 | an index is built if and only if there is a leaf and the needed nodes are within the root's capacity; it is too large if and only if they are not; and what is built reads back as its entries, within both limits, with an interior level if and only if the leaves exceed the root's capacity |
| HtreeIndex.EveryLeafNamed | crates/ferrosys/src/dir.rs:371-411 | the lowest level names the position of every leaf among the blocks exactly once, in order, with no number truncated |
| HtreeIndex.EveryNodeNamed | crates/ferrosys/src/dir.rs:412-417 | the root over nodes names the position of each exactly once, in order |
| HtreeIndex.StoredHashesRise | crates/ferrosys/src/dir.rs:340-418 | the hashes stored at every level never fall |
| HtreeIndex.DivCeilCovers | crates/ferrosys/src/dir.rs:363-377 | rounding up a division covers every leaf and is the usual quotient |
| HtreeListing.IndexedListed | crates/ferrosys/src/ondisk/htree.rs:4-9 | a reader of either policy that walks every block without the index lists what it makes of the dots and then of every entry, in hash order |
| HtreeListing.HashOrderHoldsAll | crates/ferrosys/src/dir.rs:289-301 | hash order holds each given entry exactly once |
| HtreeListing.HtreeBuilt | crates/ferrosys/src/dir.rs:307-446 | a directory is built if and only if every entry fits a block and every name a record, and, where one block does not hold it, it begins with the dots, holds more, and its leaves can be addressed |
| HtreeListing.HtreeTooLarge | crates/ferrosys/src/dir.rs:360-368 | the index is refused as too large if and only if the leaves exceed the root's capacity and so do the nodes they need |
| HashIndex.NoneBefore | crates/ferrosys/src/dir.rs:340-358 | no leaf before the one a descent lands on holds the hash |
| HashIndex.MarkedUpTo | crates/ferrosys/src/dir.rs:340-358 | past that leaf, every leaf up to one that holds the hash is marked as continuing it |
| HashIndex.FindIs | crates/ferrosys/src/read.rs:4748-4791 | descending and then following marked leaves finds the first item of a name among all leaves if and only if there is one |
| HashIndex.TwoLevels | crates/ferrosys/src/read.rs:4710-4727 | descending through the first of each run and then through the run lands where a search of the whole list of leaf hashes does |
| HashIndex.PointUnique | crates/ferrosys/src/read.rs:4715-4717 | the partition point is the only place a list splits into hashes at or below the target and hashes above |
| HashIndex.PositionNext | crates/ferrosys/src/read.rs:4864-4884 | the next position of a list in runs is the next in its run, or the first of the next run, or there is none |
| DirLookup.DescendFrom | crates/ferrosys/src/read.rs:4702-4729 | the descent's loop over levels computes the path of last entries at or below the hash |
| DirLookup.FindFrom | crates/ferrosys/src/read.rs:4760-4790 | the bounded loop over leaves computes the search: found, absent, unusable or the read error |
| DirLookup.FindIndexed | crates/ferrosys/src/read.rs:4664-4791 | a lookup from the bytes of the blocks, where there is an index, chooses the hash by the root's code, descends from the root and then searches so, by either policy |
| DirComplete.HashNamed | crates/ferrosys/src/read.rs:4674-4686 | the root of a built index names the very hash it was built with |
| DirFound.DescendNodes | crates/ferrosys/src/read.rs:4702-4729 | in a two-level index, the descent reads the node the root leads to and lands on the leaf a flat search of the leaf hashes does |
| DirFound.NextNodes | crates/ferrosys/src/read.rs:4864-4884 | stepping from any leaf moves to the next in tree order, across nodes, and answers the hash recorded for it; at the last there is no next |
| DirFound.LoopIs | crates/ferrosys/src/read.rs:4760-4790 | the search through paths and bytes is the search of the leaves they lead to |
| DirFound.LeafLooked | crates/ferrosys/src/read.rs:4767-4778 | reading a packed leaf for a name answers with the first of its entries in use that has it |
| DirComplete.SortedPick | crates/ferrosys/src/dir.rs:289-301 | the first entry of a name in hash order is the first of it in the order given |
| DirJudged.FindAlike | crates/ferrosys/src/read.rs:4625-4645 | in any blocks at all, a strict lookup gives the lenient answer or refuses an entry at fault, and a lenient one leaves such entries out |
| DirComplete.StoredNamesFound | crates/ferrosys/src/read.rs:4731-4791 | in every indexed directory that is built, a lookup that hashes with the algorithm its root records finds the first entry in use at no fault with the name, and answers absent if and only if there is none; it is never unusable, and errs only where a strict reader refuses an entry at fault, never where there is none |
| HashIndex.WithinRecorded | crates/ferrosys/src/read.rs:4796-4797 | every item of a leaf lies from its recorded hash up to the next one's, and at that one only where it is marked |
| DirScan.FirstDescent | crates/ferrosys/src/read.rs:4702-4729 | the descent without a hash takes the first entry of every level |
| DirScan.CollectLeaves | crates/ferrosys/src/read.rs:4812-4821 | the stepping loop gathers each leaf with the hash its range begins at |
| DirScan.ScanIndex | crates/ferrosys/src/read.rs:4799-4859 | the scan over any blocks answers the first misplaced name of the leaves in order |
| DirScan.ScanReports | crates/ferrosys/src/read.rs:4799-4859 | in any blocks, reading leniently, it reports if and only if some leaf that is there holds a name in use, at no fault and out of the leaf's range, before any record there that cannot be read |
| DirScan.EveryLeafVisited | crates/ferrosys/src/read.rs:4812-4821 | of a built directory it visits every leaf once, in order, with the hash recorded for it |
| DirScan.BuiltPasses | crates/ferrosys/src/read.rs:4793-4859 | every indexed directory that is built passes the scan, whatever the policy |
| DirSealed.WriteDirChecksums | crates/ferrosys/src/materialize.rs:1870-1906 | every block's tail is filled in place with the writer's checksum of that block and nothing else changes; nothing changes where checksums are off |
| DirSealed.BuiltUnsealed | crates/ferrosys/src/dir.rs:307-446 | where checksums are on, every block of every directory that is built is one with a tail: entries packed before it, or an index block whose slots leave room for it |
| DirSealed.SealedSound | crates/ferrosys/src/read.rs:2907-2964 | the reader finds every such block sound once the writer's checksum is in it, though it folds an index block's tail as it finds it and the writer as it will be |
| DirSealed.BuiltSound | crates/ferrosys/src/materialize.rs:1870-1906 | so of every block of every directory that is built |
| DirSealed.SealedListed | crates/ferrosys/src/read.rs:4598-4659 | whatever checksums are in its tails, a directory that was built lists as it was built, by either policy |
| DirSealed.SealedFound | crates/ferrosys/src/read.rs:4664-4859 | and where it has an index, answers every lookup of any name with any hash, and every scan, as it was built |
| Crc.StepsInverse | crates/ferrosys/src/crc32c.rs:97-112 | every number of bit steps is invertible |
| Crc.StepsByte | crates/ferrosys/src/crc32c.rs:29-60 | eight steps shift a byte out and fold in what that byte alone divides to |
| Crc.BitwiseConcat | crates/ferrosys/src/crc32c.rs:139-146 | continuing a checksum over the pieces of a message at any split is one pass over it |
| Crc.BitwiseSeeds | crates/ferrosys/src/crc32c.rs:97-112 | what two seeds differ by is only divided, by eight steps a byte, whatever the message |
| Crc.BitwiseInjective | crates/ferrosys/src/crc32c.rs:97-112 | two states give one checksum over a message if and only if they are equal |
| Crc.SlicedIsZeroPadded | crates/ferrosys/src/crc32c.rs:156-165 | table k holds at b the checksum of b followed by k zero bytes |
| Crc.DivideByte | crates/ferrosys/src/crc32c.rs:33-46 | the bit loop of the first table divides its index by eight steps |
| Crc.BuildTables | crates/ferrosys/src/crc32c.rs:29-60 | all eight tables hold what their definition asks |
| Crc.FoldWord | crates/ferrosys/src/crc32c.rs:70-84 | eight lookups fold an eight-byte word as bit-at-a-time division does |
| Crc.Crc32c | crates/ferrosys/src/crc32c.rs:68-90 | for every seed and every message of any length, slicing-by-8 equals bit-at-a-time division by the reflected polynomial |
| Csum.InodeSeedCollides | crates/ferrosys/src/csum.rs:182-191 | two inode identities share a seed if and only if their generations differ by the division of what their numbers differ by |
| Csum.InodeCollides | crates/ferrosys/src/csum.rs:204-225 | the exact condition under which two identities give the same bytes one full inode checksum |
| Csum.OrphanBlockCollides | crates/ferrosys/src/csum.rs:249-266 | the same of orphan blocks, with the block number in it |
| Csum.XattrBlockCollides | crates/ferrosys/src/csum.rs:268-276 | the same of attribute blocks |
| Csum.GroupDescriptorCollides | crates/ferrosys/src/csum.rs:193-202 | the same of the sixteen bits a group descriptor stores |
| Csum.NarrowInodeCollides | crates/ferrosys/src/csum.rs:204-225 | the same of the sixteen bits a small inode stores |
| Csum.MovedBlockCollides | crates/ferrosys/src/csum.rs:182-191 | a block that chains from its owner's seed, its place unchanged, keeps its checksum under another owner if and only if the generations differ by the division of what the numbers differ by |
| Csum.InodeNumberBinds | crates/ferrosys/src/csum.rs:182-266 | distinct inode numbers, all else equal, give distinct inode, owned block and orphan block checksums |
| Csum.InodeMoveFails | crates/ferrosys/src/read.rs:2372-2400 | at full width, an inode's bytes, its generation among them, always fail their checksum under another number |
| Csum.NarrowMoveCollides | crates/ferrosys/src/read.rs:2372-2400 | where sixteen bits are compared, they verify under another number if and only if the low half of what the numbers differ by, divided over the generation and the bytes, is zero |
| Csum.NarrowInodeCanVerifyElsewhere | crates/ferrosys/src/csum.rs:204-225 | there, for any inode and any bytes, is another number under which they verify |
| Csum.GenerationBinds | crates/ferrosys/src/csum.rs:182-266 | distinct generations, all else equal, give distinct checksums by the inode, owned block and orphan block recipes |
| Csum.BlockNumberBinds | crates/ferrosys/src/csum.rs:249-276 | distinct block numbers below 2^32, all else equal, give distinct orphan and attribute block checksums |
| Csum.MovedBlockCanVerify | crates/ferrosys/src/csum.rs:182-191 | for any other inode number there is a generation under which the same extent node, directory block or orphan block verifies, so one word must be unchanged |
| Csum.FarBlockCanVerify | crates/ferrosys/src/csum.rs:268-276 | for every attribute block below 2^32 and every nonzero high half there is a block number below 2^48 under which it verifies |
| Csum.GroupDescriptorCanVerifyElsewhere | crates/ferrosys/src/csum.rs:193-202 | for any descriptor there is another group under which its stored sixteen bits verify |
| Bitmap.UsedInPrefix | crates/ferrosys/src/alloc.rs:291-305 | population counts with a masked last byte count the used bits of a prefix |
| Alloc.Allocator.constructor | crates/ferrosys/src/alloc.rs:89-121 | a new allocator has used exactly the padding and the metadata, and its cursor is at the first data block |
| Alloc.Allocator.New | crates/ferrosys/src/alloc.rs:89-121 | it is refused if and only if the bitmap exceeds what the platform addresses |
| Alloc.Allocator.IsUsed | crates/ferrosys/src/alloc.rs:135-141 | a block is reported used if and only if its bit is set or it is outside the bitmap |
| Alloc.Allocator.MarkUsed | crates/ferrosys/src/alloc.rs:124-132 | marking uses exactly the range's blocks besides those used, and keeps the allocator valid |
| Alloc.Allocator.Allocate | crates/ferrosys/src/alloc.rs:148-180 | it succeeds if and only if the free count is enough, taking exactly the lowest free blocks as runs apart; else it reports the free count and changes nothing |
| Alloc.Allocator.AllocateContiguous | crates/ferrosys/src/alloc.rs:192-216 | it takes the lowest run of free blocks that is long enough and only that, or nothing if and only if no such run exists anywhere |
| Alloc.Allocator.AllocateOne | crates/ferrosys/src/alloc.rs:224-229 | it takes the lowest free block, or fails if and only if there is none |
| Alloc.Allocator.FreeCount | crates/ferrosys/src/alloc.rs:244-247 | the popcount free count is the number of free blocks counted one by one |
| Alloc.Allocator.GroupBitmap | crates/ferrosys/src/alloc.rs:232-241 | a group's slice of the bitmap says of each of its blocks whether it is used |
| Alloc.Allocator.GroupFreeCount | crates/ferrosys/src/alloc.rs:251-265 | a group's free count is the number of its free blocks, in a partial last group too |
| AllocSpec.AllocatedConserves | crates/ferrosys/src/alloc.rs:148-180 | a successful allocation of n lowers the free count by exactly n |
| AllocSpec.AllocatedRunConserves | crates/ferrosys/src/alloc.rs:192-216 | so does a contiguous one |
| AllocSpec.GroupsSumToWhole | crates/ferrosys/src/alloc.rs:244-265 | the groups' free counts add up to the filesystem's |
| AllocRuns.NextKeepsInv | crates/ferrosys/src/alloc.rs:64-78 | every call keeps everything from the first data block to the cursor used, and frees nothing |
| AllocRuns.NoDoubleAllocation | crates/ferrosys/src/alloc.rs:124-229 | in any run of any calls, no block is handed out twice |
| AllocRuns.HandedIsData | crates/ferrosys/src/alloc.rs:89-229 | every block handed out is a data block, never metadata, padding, or one marked used before |
| AllocRuns.RunConserves | crates/ferrosys/src/alloc.rs:244-247 | over any run that marks nothing, the free count and the blocks handed out add up to the free count at the start |
| Cache.BlockCache.constructor | crates/ferrosys/src/cache.rs:35-42 | a new cache holds nothing |
| Cache.BlockCache.Within | crates/ferrosys/src/cache.rs:45-47 | as many blocks as the budget holds and never fewer than the floor |
| Cache.BlockCache.Get | crates/ferrosys/src/cache.rs:50-56 | a held key gives its value and becomes the most recently used; another gives nothing and changes nothing held |
| Cache.BlockCache.Insert | crates/ferrosys/src/cache.rs:61-76 | after a miss, the key and value are held in front and only the least recently used is given up, and only when full |
| Cache.ReadThrough | crates/ferrosys/src/read.rs:1999-2015 | a read through a cache over a source returns what the source does |
| Cache.Hits | crates/ferrosys/src/cache.rs:85-97 | over a whole trace, every value is the uncached one and the hits are those of the recency list |
| Cache.AfterIsRecent | crates/ferrosys/src/cache.rs:9-13 | what is held after a trace is exactly the most recently used keys, as many as the capacity, in order |
| Cache.RecentDistinct | crates/ferrosys/src/cache.rs:9-13 | that list has every key of the trace exactly once |
| Cache.RecentOrder | crates/ferrosys/src/cache.rs:9-13 | a key before another in it was used after the other's last use |
| Cache.AfterFills | crates/ferrosys/src/cache.rs:9-13 | a cache holds the smaller of its capacity and the number of distinct keys, each once |
| Cache.StackProperty | crates/ferrosys/src/cache.rs:11-13 | after any trace a smaller cache's keys are among a larger one's |
| Cache.LargerNeverMisses | crates/ferrosys/src/cache.rs:122-136 | at no access of any trace does the larger miss where the smaller hits |
| Acls.Validate | crates/ferrosys/src/acl.rs:202-281 | the validation pass reports the first fault in the order it checks |
| Acls.ValidateNamed | crates/ferrosys/src/acl.rs:202-281 | its pass over the named entries, with the ids it has seen, reports the first of theirs |
| Acls.FaultIs | crates/ferrosys/src/acl.rs:202-281 | there is no fault if and only if each qualifier is there at most once, the required ones are there, ids are real, and a named one has a mask |
| Acls.New | crates/ferrosys/src/acl.rs:184-193 | the constructor checks permissions, sorts and validates, in that order |
| Acls.NewIs | crates/ferrosys/src/acl.rs:184-193 | it succeeds if and only if the entries are an ACL's, and returns them in strictly increasing order, losing none |
| Acls.NewIgnoresOrder | crates/ferrosys/src/acl.rs:184-193 | any rearrangement succeeds alike and gives the same value |
| Acls.Encode | crates/ferrosys/src/acl.rs:286-298 | the encoding loop writes the version and each entry's record |
| Acls.Decode | crates/ferrosys/src/acl.rs:315-346 | the decoding loop's value and its error, whichever it meets first |
| Acls.DecodeEncode | crates/ferrosys/src/acl.rs:286-346 | every valid ACL encodes to bytes that decode to it |
| Acls.EncodeDecode | crates/ferrosys/src/acl.rs:286-346 | whatever decodes re-encodes to the same length and decodes alike |
| AclText.RenderAcl | crates/ferrosys-cli/src/render.rs:260-280 | the printing loop joins the entries' texts with commas |
| AclText.ParsePermission | crates/ferrosys/src/archive.rs:751-763 | a permission text is the set of its letters, refused if and only if it holds another character |
| AclText.ParseAclText | crates/ferrosys/src/archive.rs:673-724 | the token loop's ACL, or the first fault among the tokens, or the ACL's own |
| AclText.ParseRender | crates/ferrosys/src/archive.rs:673-763 | every valid ACL's printed text parses to the same ACL, ids and permissions included |
| PaxTime.ParsePaxTime | crates/ferrosys/src/archive.rs:604-657 | the parse with its borrow is the parse by its definition |
| PaxTime.ParseIsExact | crates/ferrosys/src/archive.rs:604-657 | an accepted text gives nanoseconds within a second and exactly the signed decimal it spells, cut toward zero at nine digits, `-0.x` included |
| PaxTime.RefusedOnlyBelowLeast | crates/ferrosys/src/archive.rs:645-655 | with an `i64` before the point and digits after, it is refused if and only if flooring needs a second below the least |
| PaxTime.ParsePrint | crates/ferrosys/src/archive/sink.rs:481-503 | every stored time's record reads back as that time with its fraction carried |
| PaxTime.PrintedInstant | crates/ferrosys/src/archive/sink.rs:474-503 | the record names the time's own instant if and only if carrying does not pass the greatest second |
| Percent.PercentDecode | crates/ferrosys/src/archive.rs:551-567 | the loop decodes every escape within the name and leaves any other `%` |
| Percent.DecodeEncode | crates/ferrosys/src/archive.rs:547-567 | any writer that escapes at least `%`, in either case of digit, is read back exactly |
| Percent.DecodeUnescaped | crates/ferrosys/src/archive.rs:547-550 | a name is left as it is if and only if no escape stands in it |
| PaxLaws.SparseWhen | crates/ferrosys/src/archive.rs:475-482 | exactly the records of a sparse map are refused as sparse |
| PaxLaws.HeldWhen | crates/ferrosys/src/archive.rs:483-485 | exactly the encoded attribute records hold a name, the rest of the key decoded |
| PaxLaws.AttributeWhen | crates/ferrosys/src/archive.rs:486-508 | exactly the raw attribute records under no ACL's name give an attribute, the rest of the key with the value as it is |
| PaxLaws.AclFormsAgree | crates/ferrosys/src/archive.rs:486-512 | a valid ACL in binary under its attribute's name and in text under its own key is read as the same field |
| PaxRecords.Place | crates/ferrosys/src/archive.rs:500-511 | an attribute replaces the one of its name where the index says it stands, or is pushed and indexed; the index agrees with the list before and after |
| PaxRecords.Reconcile | crates/ferrosys/src/archive.rs:527-543 | one lookup a name decides whether every held name is carried |
| PaxRecords.CollectPax | crates/ferrosys/src/archive.rs:458-545 | the loop with its index gathers what the records say one after another, or the first error |
| PaxLaws.FieldsAreLast | crates/ferrosys/src/archive.rs:512-524 | every field has the value of the last record that sets it, the binary and the text form of an ACL alike |
| PaxLaws.AttributesAre | crates/ferrosys/src/archive.rs:498-511 | the attributes are each name once, in order of first appearance, with the last value given |
| PaxLaws.CollectSucceeds | crates/ferrosys/src/archive.rs:527-545 | collecting succeeds if and only if every record can be read and every held name is carried by some record, before or after it; the first unreadable record is the error |
| PaxLaws.CollectPairs | crates/ferrosys/src/archive.rs:460-465 | an archive that writes each attribute twice, raw and under a percent-encoded name, gives back the attributes it was written from |
| PaxFrame.ParseRecords | crates/ferrosys/src/archive/blocks.rs:378-424 | the walk over a header's body gathers its records, or refuses it |
| PaxFrame.ReadsExactly | crates/ferrosys/src/archive/blocks.rs:372-416 | a body reads as a list of records if and only if it is their pieces in order, each counting its own length, then only zeros; the least pair is three bytes |
| PaxFrame.FrameSpells | crates/ferrosys/src/archive/blocks.rs:374-375 | every record has a length that counts its own digits, so every record of three bytes or more can be framed |
| PaxFrame.FramesRead | crates/ferrosys/src/archive/blocks.rs:372-416 | records framed one after another and padded are read back, whatever bytes their values hold |
| PaxSink.WriteRecords | crates/ferrosys/src/archive/sink.rs:184-202 | the records of a member in the order written, or the first attribute name no keyword spells |
| PaxSink.RefusedNames | crates/ferrosys/src/archive/sink.rs:505-525 | an attribute is refused if and only if its name is empty, is not UTF-8 or holds `=`, a newline or a NUL |
| PaxSink.ArchiveRoundTrip | crates/ferrosys/src/archive/sink.rs:180-202 | what is written for a member parses to the same records and gathers to its ids, its times carried, its attributes and ACLs; it is refused if and only if an attribute under an ACL's name is no ACL |
| PaxSink.UnrepeatedRestored | crates/ferrosys/src/archive/sink.rs:180-202 | with no name repeated, exactly the attributes that are no ACLs come back as attributes, as they stood and in their order |
| PaxSink.StoredAclRestored | crates/ferrosys/src/archive/sink.rs:180-202 | with no name repeated, an ACL stored under its name comes back as that ACL |
| Escape.Printable | crates/ferrosys/src/escape.rs:54-70 | the loop escapes character by character |
| Escape.UnprintPrintable | crates/ferrosys/src/escape.rs:28-30 | an explicit reader recovers the text from its terminal form |
| Escape.PrintableInjective | crates/ferrosys/src/escape.rs:235-242 | two texts never share a terminal form |
| Escape.PrintableInert | crates/ferrosys/src/escape.rs:38-44 | the terminal form holds no control and no direction-control character |
| Escape.PrintablePassesThrough | crates/ferrosys/src/escape.rs:212-216 | a text is its own terminal form if and only if it holds no backslash and nothing a terminal acts on |
| Escape.PushJsonString | crates/ferrosys/src/escape.rs:114-128 | the loop appends the literal to what was there |
| Escape.PushJsonEscape | crates/ferrosys/src/escape.rs:161-168 | the nibble loop appends the four digits of the character's number |
| Escape.UnjsonJson | crates/ferrosys/src/escape.rs:96-128 | the literal read by the string grammar of section 7 of RFC 8259 is the text |
| Escape.JsonInert | crates/ferrosys/src/escape.rs:99-106 | the literal is as inert as the terminal form |
| Escape.Hex | crates/ferrosys/src/escape.rs:143-154 | two lower-case digits a byte |
| Escape.UnhexHex | crates/ferrosys/src/escape.rs:130-136 | hexadecimal states the bytes exactly |

## Left out

- The concrete name hash (half-MD4, TEA, legacy): a parameter with the two promises `dir_hash` makes.
- Directory indexes that other writers made, beyond what lookup, listing and the scan make of any bytes.
- The map from a directory's blocks to the disk: blocks it leaves out or names twice, and the cap on how many entries one read gathers.
- The debug assertions of `min_rec_len` and `rec_len_to_disk`: the model has the arithmetic that runs without them.
- Block sizes so small that building subtracts below zero or divides by a node capacity of zero: outside `HtreeDir.Builds`.
- In-place writing of index blocks: their bytes are functions here, and the entry blocks alone are arrays.
- The sort of names, of ACL entries: a stable insertion sort stands for the standard library's.
- Alloc.Allocator.MarkUsed: does not model a range whose end passes the greatest 64-bit number; block numbers are unbounded.
- Cache.BlockCache.Get: does not model the clock's wrap; it is unbounded.
- Escape.Printable: does not model the lossy decoding of bytes that are no text, because UTF-8 decoding is not modelled; it starts from text.
- The pass that tells a directory's index blocks from its leaves before it verifies them, and which fault it names where a checksum does not verify.
- Metadata bitmaps' own checksums, which cover bytes and bind no identity.
- Deriving the checksum seed from the UUID: a checksummer is given its seed.
- The value of CRC-32C on the standard check string is not evaluated.
- UTF-8 decoding: text is a sequence of Unicode scalar values, and records take the decoder as a parameter.
- The writer that frames PAX records belongs to another crate: `PaxFrame.Frame` is the format's own framing, and the parser is held to every framing.
- Tar headers, the pairing of headers with members, path normalisation and the narrowing of ids to 32 bits.
- Other families' facades, command-line modules and probes: they select among parts not modelled.
