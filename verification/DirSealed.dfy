/** The checksums written over a directory's blocks once they are built: what reading them is like
    afterwards, and why the reader's own computation agrees. */
module DirSealed {
  import opened Wrappers
  import opened Words
  import opened Crc
  import opened Csum
  import opened DirRecord
  import opened Tiling
  import opened Filling
  import opened DirPack
  import opened DirReader
  import opened DirLinear
  import opened HtreeBlocks
  import opened Htree
  import opened HtreeIndex
  import opened HtreeListing
  import opened DirLookup
  import opened DirFound
  import opened DirComplete
  import opened DirScan
  import HashIndex

  const DX_TAIL_LEN := 8

  // ----- writing -----

  /** Where an index block's tail stands. */
  function TailOffset(countOffset: nat, limit: nat): nat {
    countOffset + DX_ENTRY_LEN * limit
  }

  /** There is a tail to write, and what it covers is within the block. */
  predicate HasTail(block: DirBlock) {
    match block.kind
    case EntryBlock => |block.bytes| >= DIR_TAIL_LEN
    case IndexBlockKind(off, limit) =>
      && TailOffset(off, limit) + DX_TAIL_LEN <= |block.bytes|
      && TailOffset(off, Word16(block.bytes[off + 2..off + 4])) <= |block.bytes|
  }

  /** The block with this checksum in its tail. */
  function Seal(block: DirBlock, sum: u32): (sealed: DirBlock)
    requires HasTail(block)
    ensures sealed.kind == block.kind && |sealed.bytes| == |block.bytes|
  {
    match block.kind
    case EntryBlock => DirBlock(Splice(block.bytes, |block.bytes| - 4, LittleEndian(sum)), block.kind)
    case IndexBlockKind(off, limit) =>
      DirBlock(Splice(block.bytes, TailOffset(off, limit), LittleEndian(0) + LittleEndian(sum)), block.kind)
  }

  /** The checksum the writer computes: an entry block up to its tail; an index block through the entries it
      holds, then a tail of zeros. */
  function WriterSum(csum: Checksummer, seed: u32, block: DirBlock): u32
    requires HasTail(block)
  {
    match block.kind
    case EntryBlock => csum.Crc32c(seed, block.bytes[..|block.bytes| - DIR_TAIL_LEN])
    case IndexBlockKind(off, limit) =>
      var covered := TailOffset(off, Word16(block.bytes[off + 2..off + 4]));
      csum.Crc32c(csum.Crc32c(seed, block.bytes[..covered]), Zeros(DX_TAIL_LEN))
  }

  /** The blocks with these checksums in their tails. */
  function SealAll(blocks: seq<DirBlock>, sums: seq<u32>): (sealed: seq<DirBlock>)
    requires |sums| == |blocks| && forall i :: 0 <= i < |blocks| ==> HasTail(blocks[i])
    ensures |sealed| == |blocks|
  {
    seq(|blocks|, i requires 0 <= i < |blocks| => Seal(blocks[i], sums[i]))
  }

  /** The block with the writer's checksum in its tail. */
  function Sealed(csum: Checksummer, seed: u32, block: DirBlock): DirBlock
    requires HasTail(block)
  {
    Seal(block, WriterSum(csum, seed, block))
  }

  /** The writer's checksum of each block. */
  function WriterSums(csum: Checksummer, seed: u32, blocks: seq<DirBlock>): (sums: seq<u32>)
    requires forall i :: 0 <= i < |blocks| ==> HasTail(blocks[i])
    ensures |sums| == |blocks|
  {
    seq(|blocks|, i requires 0 <= i < |blocks| => WriterSum(csum, seed, blocks[i]))
  }

  /** The loop over the blocks, whatever is done to each. */
  method SealEach(blocks: array<DirBlock>, seal: DirBlock -> DirBlock)
    modifies blocks
    ensures forall i :: 0 <= i < blocks.Length ==> blocks[i] == seal(old(blocks[i]))
  {
    var i := 0;
    while i < blocks.Length
      invariant 0 <= i <= blocks.Length
      invariant forall j :: i <= j < blocks.Length ==> blocks[j] == old(blocks[j])
      invariant forall j :: 0 <= j < i ==> blocks[j] == seal(old(blocks[j]))
    {
      blocks[i] := seal(blocks[i]);
      i := i + 1;
    }
  }

  /** Every block's tail filled in place, where checksums are written; inodes here have generation zero. */
  method WriteDirChecksums(csum: Checksummer, ino: u32, blocks: array<DirBlock>)
    requires forall i :: 0 <= i < blocks.Length ==> HasTail(blocks[i])
    modifies blocks
    ensures csum.NullCsum? ==> blocks[..] == old(blocks[..])
    ensures csum.Crc32cSum? ==>
      blocks[..] == SealAll(old(blocks[..]), WriterSums(csum, InodeSeed(csum, ino, 0), old(blocks[..])))
  {
    if csum.NullCsum? { return; }
    var seed := InodeSeed(csum, ino, 0);
    SealEach(blocks, (block: DirBlock) => if HasTail(block) then Sealed(csum, seed, block) else block);
  }

  // ----- verifying -----

  /** Whether the reader finds a block's checksum sound; `index` says where an index block counts. */
  function Sound(csum: Checksummer, seed: u32, block: Bytes, index: Option<nat>): bool
    requires index.Some? ==> index.value + 4 <= |block|
  {
    match index
    case None =>
      |block| < DIR_TAIL_LEN + 4
      || csum.Crc32c(seed, block[..|block| - DIR_TAIL_LEN]) == WordAt(block, |block| - 4)
    case Some(off) =>
      var limit, count := Word16(block[off..off + 2]), Word16(block[off + 2..off + 4]);
      var covered, tail := TailOffset(off, count), TailOffset(off, limit);
      && covered <= |block| && tail + DX_TAIL_LEN <= |block|
      && csum.Crc32c(csum.Crc32c(csum.Crc32c(seed, block[..covered]), block[tail..tail + 4]), Zeros(4))
         == WordAt(block, tail + 4)
  }

  function CountOffset(kind: BlockKind): Option<nat> {
    match kind
    case EntryBlock => None
    case IndexBlockKind(off, _) => Some(off)
  }

  // ----- the blocks that are built -----

  /** The header of a root or of a node stands at the block's beginning. */
  ghost predicate Headed(bytes: Bytes, off: nat, blockSize: nat) {
    || (off == DX_NODE_COUNT_OFFSET && NodeHeader(blockSize) <= bytes)
    || (off == DX_ROOT_COUNT_OFFSET && 12 <= blockSize && exists dir, parent, version, levels ::
          RootHeader(dir, parent, version, levels, blockSize) <= bytes)
  }

  ghost predicate PackedFrom(bytes: Bytes, es: seq<DirEntry>, blockSize: nat) {
    && es != [] && DIR_TAIL_LEN <= blockSize && Used(es) <= blockSize - DIR_TAIL_LEN && Named(es)
    && bytes == Packed(es, blockSize, DIR_TAIL_LEN)
  }

  /** A block as it is built where checksums are on. */
  ghost predicate Unsealed(block: DirBlock, blockSize: nat) {
    && |block.bytes| == blockSize
    && match block.kind
       case EntryBlock => exists es :: PackedFrom(block.bytes, es, blockSize)
       case IndexBlockKind(off, limit) =>
         && TailOffset(off, limit) + DX_TAIL_LEN <= blockSize && Headed(block.bytes, off, blockSize)
         && Word16(block.bytes[off..off + 2]) == limit && 0 < Word16(block.bytes[off + 2..off + 4]) <= limit
  }

  lemma SpliceAround(s: Bytes, off: nat, b: Bytes)
    requires off + |b| <= |s|
    ensures Splice(s, off, b)[..off] == s[..off] && Splice(s, off, b)[off..off + |b|] == b
  {
  }

  lemma PrefixKept(a: Bytes, b: Bytes, n: nat, i: nat, j: nat)
    requires i <= j <= n <= |a| && n <= |b| && a[..n] == b[..n]
    ensures a[i..j] == b[i..j] && a[..j] == b[..j]
  {
    assert a[i..j] == a[..n][i..j] && b[i..j] == b[..n][i..j];
    assert a[..j] == a[..n][..j] && b[..j] == b[..n][..j];
  }

  // ----- what is verified -----

  lemma EntrySound(csum: Checksummer, seed: u32, block: DirBlock)
    requires csum.Crc32cSum? && block.kind == EntryBlock && HasTail(block)
    ensures Sound(csum, seed, Sealed(csum, seed, block).bytes, None)
  {
    var n, sum := |block.bytes|, WriterSum(csum, seed, block);
    var sealed := Seal(block, sum).bytes;
    SpliceAround(block.bytes, n - 4, LittleEndian(sum));
    PrefixKept(sealed, block.bytes, n - 4, 0, n - DIR_TAIL_LEN);
  }

  /** Sealing an index block leaves its counts and its entries, and puts the sum past them. */
  lemma IndexKept(bytes: Bytes, off: nat, limit: nat, sum: u32)
    requires 0 < limit && TailOffset(off, limit) + DX_TAIL_LEN <= |bytes|
    ensures var tail := TailOffset(off, limit); var sealed := Splice(bytes, tail, LittleEndian(0) + LittleEndian(sum));
      && sealed[..tail] == bytes[..tail] && off + 4 <= tail
      && sealed[tail..tail + 4] == LittleEndian(0) && WordAt(sealed, tail + 4) == sum
  {
    var tail := TailOffset(off, limit);
    var before, after := bytes[..tail], bytes[tail + DX_TAIL_LEN..];
    Middle(before, LittleEndian(0), LittleEndian(sum) + after, tail, tail + 4);
    WordBack(before + LittleEndian(0), sum, after, tail + 4);
    var sealed := Splice(bytes, tail, LittleEndian(0) + LittleEndian(sum));
    assert sealed == before + LittleEndian(0) + LittleEndian(sum) + after;
    assert sealed == before + LittleEndian(0) + (LittleEndian(sum) + after);
  }

  /** A tail of zeros folds alike whole and in halves. */
  lemma TailFolds(csum: Checksummer, c: u32)
    ensures csum.Crc32c(csum.Crc32c(c, LittleEndian(0)), Zeros(4)) == csum.Crc32c(c, Zeros(DX_TAIL_LEN))
  {
    assert LittleEndian(0) == Zeros(4) && Zeros(4) + Zeros(4) == Zeros(DX_TAIL_LEN);
    BitwiseConcat(c, Zeros(4), Zeros(4));
  }

  lemma IndexSound(csum: Checksummer, seed: u32, bytes: Bytes, off: nat, limit: nat, count: nat, sum: u32)
    requires TailOffset(off, limit) + DX_TAIL_LEN <= |bytes| && 0 < count <= limit
    requires Word16(bytes[off..off + 2]) == limit && Word16(bytes[off + 2..off + 4]) == count
    requires sum == csum.Crc32c(csum.Crc32c(seed, bytes[..TailOffset(off, count)]), Zeros(DX_TAIL_LEN))
    ensures Sound(csum, seed, Splice(bytes, TailOffset(off, limit), LittleEndian(0) + LittleEndian(sum)), Some(off))
  {
    var tail, covered := TailOffset(off, limit), TailOffset(off, count);
    var sealed := Splice(bytes, tail, LittleEndian(0) + LittleEndian(sum));
    IndexKept(bytes, off, limit, sum);
    assert Word16(sealed[off..off + 2]) == limit by { PrefixKept(sealed, bytes, tail, off, off + 2); }
    assert Word16(sealed[off + 2..off + 4]) == count by { PrefixKept(sealed, bytes, tail, off + 2, off + 4); }
    assert sealed[..covered] == bytes[..covered] by { PrefixKept(sealed, bytes, tail, 0, covered); }
    TailFolds(csum, csum.Crc32c(seed, bytes[..covered]));
  }

  /** Every block that is built and then sealed with the writer's checksum is one the reader finds sound,
      though the two compute an index block's differently. */
  lemma SealedSound(csum: Checksummer, seed: u32, block: DirBlock, blockSize: nat)
    requires csum.Crc32cSum? && Unsealed(block, blockSize)
    ensures HasTail(block)
    ensures Sound(csum, seed, Sealed(csum, seed, block).bytes, CountOffset(block.kind))
  {
    if block.kind.EntryBlock? {
      EntrySound(csum, seed, block);
    } else {
      var off := block.kind.countOffset;
      IndexSound(csum, seed, block.bytes, off, block.kind.limit, Word16(block.bytes[off + 2..off + 4]),
                 WriterSum(csum, seed, block));
    }
  }

  // ----- reading what has been sealed -----

  /** The entries of an index block are read from before its tail. */
  lemma {:induction false} EntriesKept(a: Bytes, b: Bytes, off: nat, n: nat, tail: nat)
    requires off + 8 * n <= tail <= |a| == |b| && a[..tail] == b[..tail]
    ensures EntriesAt(a, off, n) == EntriesAt(b, off, n)
  {
    if n > 0 {
      var at := off + 8 * (n - 1);
      assert WordAt(a, at) == WordAt(b, at) && WordAt(a, at + 4) == WordAt(b, at + 4) by {
        PrefixKept(a, b, tail, at, at + 4);
        PrefixKept(a, b, tail, at + 4, at + 8);
      }
      if n > 1 { EntriesKept(a, b, off, n - 1, tail); }
    }
  }

  lemma IndexReadsAlike(a: Bytes, b: Bytes, off: nat, limit: nat)
    requires TailOffset(off, limit) <= |a| == |b| && a[..TailOffset(off, limit)] == b[..TailOffset(off, limit)]
    requires off + 4 <= TailOffset(off, limit)
    requires ReadDxEntries(a, off).Ok? && |ReadDxEntries(a, off).value| <= limit
    ensures ReadDxEntries(b, off) == ReadDxEntries(a, off)
  {
    var tail := TailOffset(off, limit);
    PrefixKept(a, b, tail, off, off + 2);
    PrefixKept(a, b, tail, off + 2, off + 4);
    EntriesKept(a, b, off, Word16(a[off + 2..off + 4]), tail);
  }

  /** A sealed index block reads as it did. */
  lemma SealedReads(block: DirBlock, off: nat, limit: nat, entries: seq<DxEntry>, sum: u32)
    requires Reads(block, off, limit, entries) && HasTail(block)
    ensures Reads(Seal(block, sum), off, limit, entries)
    ensures |block.bytes| >= off + 4 && Seal(block, sum).bytes[..off] == block.bytes[..off]
  {
    IndexKept(block.bytes, off, limit, sum);
    IndexReadsAlike(block.bytes, Seal(block, sum).bytes, off, limit);
    PrefixKept(Seal(block, sum).bytes, block.bytes, TailOffset(off, limit), 0, off);
  }

  lemma TailReplaced(tiled: Bytes, header: Bytes, was: Bytes, now: Bytes, off: nat)
    requires |was| == |now| && off == |tiled| + |header|
    ensures Splice(tiled + (header + was), off, now) == tiled + (header + now)
  {
    assert tiled + (header + was) == tiled + header + was + [];
    SpliceOver(tiled + header, was, [], now);
    assert tiled + (header + now) == tiled + header + now + [];
  }

  lemma PackedTail(bytes: Bytes, es: seq<DirEntry>, blockSize: nat, sum: u32)
    requires PackedFrom(bytes, es, blockSize)
    ensures Splice(bytes, blockSize - 4, LittleEndian(sum)) ==
      Tiled(es, blockSize - DIR_TAIL_LEN, Need, RecordOf(blockSize)) + Tail(sum)
  {
    var usable := blockSize - DIR_TAIL_LEN;
    var tiled := Tiled(es, usable, Need, RecordOf(blockSize));
    RecordLengths(es, blockSize);
    TiledLength(es, usable, Need, RecordOf(blockSize));
    assert Tail(0) + Zeros(0) == Tail(0);
    TailReplaced(tiled, Header(0, DIR_TAIL_LEN, 0, DIR_TAIL_FT), LittleEndian(0), LittleEndian(sum), blockSize - 4);
  }

  lemma TailWalk(sum: u32, blockSize: nat)
    requires DIR_TAIL_LEN <= blockSize <= MAX_BLOCK
    ensures WalkBlock(Tail(sum), blockSize) == Ok([(UNUSED, DIR_TAIL_LEN)])
  {
    ReadTail(sum, blockSize, []);
    assert Tail(sum) + [] == Tail(sum);
    WalkLast(Tail(sum), UNUSED, blockSize);
  }

  /** A sealed entry block walks as it did. */
  lemma SealedEntriesWalk(block: DirBlock, es: seq<DirEntry>, blockSize: nat, sum: u32)
    requires block.kind.EntryBlock? && PackedFrom(block.bytes, es, blockSize) && Sized(blockSize, DIR_TAIL_LEN)
    ensures HasTail(block)
    ensures WalkBlock(Seal(block, sum).bytes, blockSize) == WalkBlock(block.bytes, blockSize)
    ensures WalkBlock(block.bytes, blockSize).Ok?
  {
    PackedTail(block.bytes, es, blockSize, sum);
    TailWalk(sum, blockSize);
    AlignedMinus(blockSize, DIR_TAIL_LEN);
    WalkEntries(es, blockSize - DIR_TAIL_LEN, blockSize, Tail(sum), [(UNUSED, DIR_TAIL_LEN)]);
    WalkPacked(es, blockSize, DIR_TAIL_LEN);
  }

  lemma SameHeader(header: Bytes, a: Bytes, b: Bytes)
    requires header <= a && |header| <= |b| && a[..|header|] == b[..|header|]
    ensures a == header + a[|header|..] && b == header + b[|header|..]
  {
  }

  lemma NodesWalkAlike(a: Bytes, b: Bytes, blockSize: nat)
    requires NodeHeader(blockSize) <= a && |a| == |b| == blockSize <= MAX_BLOCK && Aligned(blockSize)
    requires a[..DX_NODE_COUNT_OFFSET] == b[..DX_NODE_COUNT_OFFSET]
    ensures WalkBlock(a, blockSize) == WalkBlock(b, blockSize) && WalkBlock(a, blockSize).Ok?
  {
    SameHeader(NodeHeader(blockSize), a, b);
    NodeWalk(a[DX_NODE_COUNT_OFFSET..], blockSize);
    NodeWalk(b[DX_NODE_COUNT_OFFSET..], blockSize);
  }

  lemma RootsWalkAlike(a: Bytes, b: Bytes, blockSize: nat, dir: u32, parent: u32, version: u8, levels: u8)
    requires 12 <= blockSize && RootHeader(dir, parent, version, levels, blockSize) <= a
    requires |a| == |b| == blockSize <= MAX_BLOCK && Aligned(blockSize)
    requires a[..DX_ROOT_COUNT_OFFSET] == b[..DX_ROOT_COUNT_OFFSET]
    ensures WalkBlock(a, blockSize) == WalkBlock(b, blockSize) && WalkBlock(a, blockSize).Ok?
  {
    SameHeader(RootHeader(dir, parent, version, levels, blockSize), a, b);
    RootWalk(dir, parent, version, levels, a[DX_ROOT_COUNT_OFFSET..], blockSize);
    RootWalk(dir, parent, version, levels, b[DX_ROOT_COUNT_OFFSET..], blockSize);
  }

  /** Blocks that begin with the same index header walk alike. */
  lemma HeadedWalk(a: Bytes, b: Bytes, off: nat, blockSize: nat)
    requires Headed(a, off, blockSize) && off <= |a| == |b| == blockSize <= MAX_BLOCK && Aligned(blockSize)
    requires a[..off] == b[..off]
    ensures WalkBlock(a, blockSize) == WalkBlock(b, blockSize) && WalkBlock(a, blockSize).Ok?
  {
    if off == DX_NODE_COUNT_OFFSET {
      NodesWalkAlike(a, b, blockSize);
    } else {
      var dir, parent, version, levels :| RootHeader(dir, parent, version, levels, blockSize) <= a;
      RootsWalkAlike(a, b, blockSize, dir, parent, version, levels);
    }
  }

  /** Whatever its checksum, a block that is built walks as it did. */
  lemma SealedWalk(block: DirBlock, blockSize: nat, sum: u32)
    requires Unsealed(block, blockSize) && Sized(blockSize, DIR_TAIL_LEN)
    ensures HasTail(block)
    ensures WalkBlock(Seal(block, sum).bytes, blockSize) == WalkBlock(block.bytes, blockSize)
    ensures WalkBlock(block.bytes, blockSize).Ok?
  {
    if block.kind.EntryBlock? {
      var es :| PackedFrom(block.bytes, es, blockSize);
      SealedEntriesWalk(block, es, blockSize, sum);
    } else {
      var (off, limit) := (block.kind.countOffset, block.kind.limit);
      IndexKept(block.bytes, off, limit, sum);
      PrefixKept(Seal(block, sum).bytes, block.bytes, TailOffset(off, limit), 0, off);
      HeadedWalk(block.bytes, Seal(block, sum).bytes, off, blockSize);
    }
  }

  // ----- the blocks that are built have tails to seal -----

  lemma IndexUnsealed(header: Bytes, limit: u16, entries: seq<DxEntry>, blockSize: nat)
    requires entries != [] && |entries| <= limit && entries[0].hash == 0
    requires TailOffset(|header|, limit) + DX_TAIL_LEN <= blockSize && Headed(header, |header|, blockSize)
    ensures WriteIndex(header, limit, entries, blockSize).Ok?
    ensures Unsealed(WriteIndex(header, limit, entries, blockSize).value, blockSize)
  {
    var bytes := IndexBlock(header, limit, entries, blockSize);
    IndexBlockCounts(header, limit, entries, blockSize, |header|);
    assert header <= bytes;
    HeadedFurther(header, bytes, blockSize);
  }

  lemma HeadedFurther(header: Bytes, bytes: Bytes, blockSize: nat)
    requires header <= bytes && Headed(header, |header|, blockSize)
    ensures Headed(bytes, |header|, blockSize)
  {
    if |header| == DX_ROOT_COUNT_OFFSET {
      var dir, parent, version, levels :| RootHeader(dir, parent, version, levels, blockSize) <= header;
      assert RootHeader(dir, parent, version, levels, blockSize) <= bytes;
    }
  }

  lemma NodeUnsealed(d: HtreeDir, run: seq<DxEntry>, blockSize: nat)
    requires d.Builds(blockSize) && d.checksums && run != [] && |run| <= d.NodeLimit(blockSize)
    ensures WriteNode(d.NodeLimit(blockSize), blockSize)(run).Ok?
    ensures Unsealed(WriteNode(d.NodeLimit(blockSize), blockSize)(run).value, blockSize)
  {
    DxTailFits(blockSize, DX_NODE_COUNT_OFFSET);
    IndexUnsealed(NodeHeader(blockSize), d.NodeLimit(blockSize), Implied(run), blockSize);
  }

  lemma RootUnsealed(d: HtreeDir, dir: u32, parent: u32, levels: u8, entries: seq<DxEntry>, blockSize: nat)
    requires d.Builds(blockSize) && d.checksums
    requires entries != [] && |entries| <= d.RootLimit(blockSize) && entries[0].hash == 0
    ensures var root := WriteRoot(dir, parent, d.version, levels, d.RootLimit(blockSize), entries, blockSize);
      root.Ok? && Unsealed(root.value, blockSize)
  {
    DxTailFits(blockSize, DX_ROOT_COUNT_OFFSET);
    var header := RootHeader(dir, parent, d.version, levels, blockSize);
    assert header <= header;
    IndexUnsealed(header, d.RootLimit(blockSize), entries, blockSize);
  }

  /** Every block as it is built. */
  ghost predicate AllUnsealed(blocks: seq<DirBlock>, blockSize: nat) {
    forall i :: 0 <= i < |blocks| ==> Unsealed(blocks[i], blockSize)
  }

  lemma NodesUnsealed(d: HtreeDir, runs: seq<seq<DxEntry>>, blockSize: nat)
    requires d.Builds(blockSize) && d.checksums && forall run <- runs :: run != [] && |run| <= d.NodeLimit(blockSize)
    ensures var nodes := PackEach(runs, WriteNode(d.NodeLimit(blockSize), blockSize));
            nodes.Ok? ==> AllUnsealed(nodes.value, blockSize)
  {
    var write := WriteNode(d.NodeLimit(blockSize), blockSize);
    PackEachIs(runs, write);
    if PackEach(runs, write).Ok? && runs != [] {
      PackAllAt(runs, write, 0);
      forall i | 0 <= i < |runs| ensures Unsealed(PackAll(runs, write)[i], blockSize) {
        PackAllAt(runs, write, i);
        assert runs[i] in runs;
        NodeUnsealed(d, runs[i], blockSize);
      }
    }
  }

  lemma UnsealedJoined(a: seq<DirBlock>, b: seq<DirBlock>, blockSize: nat)
    requires AllUnsealed(a, blockSize) && AllUnsealed(b, blockSize)
    ensures AllUnsealed(a + b, blockSize)
  {
  }

  lemma IndexParts(d: HtreeDir, dir: u32, parent: u32, hashes: seq<u32>, blockSize: nat)
    requires d.Builds(blockSize) && IndexSpec(d, dir, parent, hashes, blockSize).Ok?
    ensures Addressable(d, |hashes|, blockSize)
    ensures NodesOf(d, hashes, blockSize).Ok? && RootOf(d, dir, parent, hashes, blockSize).Ok?
    ensures IndexSpec(d, dir, parent, hashes, blockSize).value ==
      [RootOf(d, dir, parent, hashes, blockSize).value] + NodesOf(d, hashes, blockSize).value
  {
  }

  lemma WrittenIndexUnsealed(d: HtreeDir, dir: u32, parent: u32, hashes: seq<u32>, blockSize: nat)
    requires d.Builds(blockSize) && d.checksums && hashes != [] && hashes[0] == 0
    requires IndexSpec(d, dir, parent, hashes, blockSize).Ok?
    ensures AllUnsealed(IndexSpec(d, dir, parent, hashes, blockSize).value, blockSize)
  {
    IndexParts(d, dir, parent, hashes, blockSize);
    assert AllUnsealed(NodesOf(d, hashes, blockSize).value, blockSize) by {
      EntriesFit(d, hashes, blockSize);
      NodesUnsealed(d, Runs(d, hashes, blockSize), blockSize);
    }
    assert AllUnsealed([RootOf(d, dir, parent, hashes, blockSize).value], blockSize) by {
      EntriesFit(d, hashes, blockSize);
      RootUnsealed(d, dir, parent, Levels(d, |hashes|, blockSize), RootEntries(d, hashes, blockSize), blockSize);
    }
    UnsealedJoined([RootOf(d, dir, parent, hashes, blockSize).value], NodesOf(d, hashes, blockSize).value, blockSize);
  }

  lemma GroupUnsealed(g: seq<DirEntry>, bytes: Bytes, blockSize: nat)
    requires Sized(blockSize, DIR_TAIL_LEN) && g != [] && Used(g) <= blockSize - DIR_TAIL_LEN
    requires PackGroup(blockSize, DIR_TAIL_LEN)(g) == Ok(bytes)
    ensures Unsealed(DirBlock(bytes, EntryBlock), blockSize)
  {
    assert PackedFrom(bytes, g, blockSize);
  }

  lemma LeavesUnsealed(leaves: seq<seq<Hashed>>, blockSize: nat)
    requires Sized(blockSize, DIR_TAIL_LEN) && Packable(leaves, PackLeaf(blockSize, DIR_TAIL_LEN))
    requires forall leaf <- leaves :: leaf != [] && Used(EntriesOf(leaf)) <= blockSize - DIR_TAIL_LEN
    ensures AllUnsealed(PackAll(leaves, PackLeaf(blockSize, DIR_TAIL_LEN)), blockSize)
  {
    var pack := PackLeaf(blockSize, DIR_TAIL_LEN);
    if leaves != [] { PackAllAt(leaves, pack, 0); }
    forall i | 0 <= i < |leaves| ensures Unsealed(PackAll(leaves, pack)[i], blockSize) {
      PackAllAt(leaves, pack, i);
      assert leaves[i] in leaves;
      var es, block := EntriesOf(leaves[i]), PackAll(leaves, pack)[i];
      assert es != [] && PackGroup(blockSize, DIR_TAIL_LEN)(es) == Ok(block.bytes);
      GroupUnsealed(es, block.bytes, blockSize);
    }
  }

  lemma EntriesUnsealed(blocks: seq<Bytes>, blockSize: nat)
    requires forall i :: 0 <= i < |blocks| ==> Unsealed(DirBlock(blocks[i], EntryBlock), blockSize)
    ensures AllUnsealed(EntryBlocks(blocks), blockSize)
  {
  }

  lemma GroupsUnsealed(groups: seq<seq<DirEntry>>, blockSize: nat, tailLen: nat)
    requires Sized(blockSize, tailLen) && tailLen == DIR_TAIL_LEN && Packable(groups, PackGroup(blockSize, tailLen))
    requires forall g <- groups :: g != [] && Used(g) <= blockSize - tailLen
    ensures AllUnsealed(EntryBlocks(PackAll(groups, PackGroup(blockSize, tailLen))), blockSize)
  {
    var all := PackAll(groups, PackGroup(blockSize, tailLen));
    if groups != [] { PackAllAt(groups, PackGroup(blockSize, tailLen), 0); }
    forall i | 0 <= i < |all| ensures Unsealed(DirBlock(all[i], EntryBlock), blockSize) {
      PackAllAt(groups, PackGroup(blockSize, tailLen), i);
      assert groups[i] in groups;
      GroupUnsealed(groups[i], all[i], blockSize);
    }
    EntriesUnsealed(all, blockSize);
  }

  lemma LinearUnsealed(es: seq<DirEntry>, blockSize: nat, tailLen: nat)
    requires Sized(blockSize, tailLen) && tailLen == DIR_TAIL_LEN && LinearSpec(es, blockSize, tailLen).Ok?
    ensures AllUnsealed(EntryBlocks(LinearSpec(es, blockSize, tailLen).value), blockSize)
  {
    LinearParts(es, blockSize, tailLen);
    SplitFits(es, blockSize - tailLen);
    GroupsUnsealed(Groups(es, blockSize - tailLen, Need), blockSize, tailLen);
  }

  lemma BuiltIndexUnsealed(d: HtreeDir, dir: u32, parent: u32, hashes: seq<u32>, blockSize: nat)
    requires d.Builds(blockSize) && d.checksums && (hashes != [] ==> hashes[0] == 0)
    requires IndexSpec(d, dir, parent, hashes, blockSize).Ok?
    ensures AllUnsealed(IndexSpec(d, dir, parent, hashes, blockSize).value, blockSize)
  {
    IndexBuilt(d, dir, parent, hashes, blockSize);
    WrittenIndexUnsealed(d, dir, parent, hashes, blockSize);
  }

  lemma BuiltLeavesUnsealed(es: seq<DirEntry>, hash: Bytes -> DirHash, blockSize: nat, usable: nat)
    requires Sized(blockSize, DIR_TAIL_LEN) && usable + DIR_TAIL_LEN == blockSize && AllSmall(es, usable, Need)
    requires Packable(Leaves(es, usable, hash), PackLeaf(blockSize, DIR_TAIL_LEN))
    ensures AllUnsealed(PackAll(Leaves(es, usable, hash), PackLeaf(blockSize, DIR_TAIL_LEN)), blockSize)
  {
    LeavesHold(es, hash, usable);
    LeavesUnsealed(Leaves(es, usable, hash), blockSize);
  }

  lemma PackedLeavesUnsealed(d: HtreeDir, es: seq<DirEntry>, blockSize: nat)
    requires d.Builds(blockSize) && d.checksums && Sized(blockSize, d.TailLen())
    requires AllSmall(es, blockSize - d.TailLen(), Need)
    requires Packable(Leaves(es, blockSize - d.TailLen(), d.hash), PackLeaf(blockSize, d.TailLen()))
    ensures AllUnsealed(PackAll(Leaves(es, blockSize - d.TailLen(), d.hash), PackLeaf(blockSize, d.TailLen())),
                        blockSize)
  {
    BuiltLeavesUnsealed(es, d.hash, blockSize, blockSize - DIR_TAIL_LEN);
  }

  lemma IndexedUnsealed(d: HtreeDir, es: seq<DirEntry>, blockSize: nat)
    requires d.Builds(blockSize) && d.checksums && Sized(blockSize, d.TailLen()) && HasDots(es)
    requires AllSmall(es[2..], blockSize - d.TailLen(), Need) && IndexedSpec(d, es, blockSize).Ok?
    ensures AllUnsealed(IndexedSpec(d, es, blockSize).value, blockSize)
  {
    var rest, dir, parent := es[2..], es[0].inode, es[1].inode;
    var leaves := Leaves(rest, blockSize - d.TailLen(), d.hash);
    IndexedParts(d, es, blockSize);
    BuiltIndexUnsealed(d, dir, parent, LeafHashes(leaves), blockSize);
    PackedLeavesUnsealed(d, rest, blockSize);
    UnsealedJoined(IndexSpec(d, dir, parent, LeafHashes(leaves), blockSize).value,
                   PackAll(leaves, PackLeaf(blockSize, d.TailLen())), blockSize);
  }

  /** Where checksums are on, every block of every directory that is built has a tail to seal. */
  lemma BuiltUnsealed(d: HtreeDir, es: seq<DirEntry>, blockSize: nat)
    requires d.Builds(blockSize) && d.checksums && Sized(blockSize, d.TailLen()) && HtreeSpec(d, es, blockSize).Ok?
    ensures AllUnsealed(HtreeSpec(d, es, blockSize).value, blockSize)
  {
    if FitsSpec(es, blockSize - d.TailLen(), blockSize) == Ok(true) {
      LinearUnsealed(es, blockSize, d.TailLen());
    } else {
      RestSmall(es, blockSize - d.TailLen(), blockSize);
      IndexedUnsealed(d, es, blockSize);
    }
  }

  lemma AllTails(blocks: seq<DirBlock>, blockSize: nat)
    requires AllUnsealed(blocks, blockSize)
    ensures forall i :: 0 <= i < |blocks| ==> HasTail(blocks[i])
  {
  }

  /** Sealed with the writer's checksums, every block of a directory that is built is sound to the reader. */
  lemma BuiltSound(d: HtreeDir, es: seq<DirEntry>, blockSize: nat, csum: Checksummer, seed: u32)
    requires d.Builds(blockSize) && d.checksums && Sized(blockSize, d.TailLen()) && HtreeSpec(d, es, blockSize).Ok?
    requires csum.Crc32cSum?
    ensures var blocks := HtreeSpec(d, es, blockSize).value;
      && (forall i :: 0 <= i < |blocks| ==> HasTail(blocks[i]))
      && var sealed := SealAll(blocks, WriterSums(csum, seed, blocks));
         forall i :: 0 <= i < |blocks| ==> Sound(csum, seed, sealed[i].bytes, CountOffset(blocks[i].kind))
  {
    var blocks := HtreeSpec(d, es, blockSize).value;
    BuiltUnsealed(d, es, blockSize);
    AllTails(blocks, blockSize);
    forall i | 0 <= i < |blocks|
      ensures Sound(csum, seed, SealAll(blocks, WriterSums(csum, seed, blocks))[i].bytes, CountOffset(blocks[i].kind))
    {
      SealedSound(csum, seed, blocks[i], blockSize);
    }
  }

  // ----- what a sealed directory reads as -----

  /** Another block in the place of each, that walks as it does. */
  ghost predicate WalkAlike(a: seq<DirBlock>, b: seq<DirBlock>, blockSize: nat) {
    && |a| == |b|
    && forall i :: 0 <= i < |a| ==>
         WalkBlock(a[i].bytes, blockSize).Ok? && WalkBlock(b[i].bytes, blockSize) == WalkBlock(a[i].bytes, blockSize)
  }

  lemma SealedWalkAlike(blocks: seq<DirBlock>, sums: seq<u32>, blockSize: nat)
    requires AllUnsealed(blocks, blockSize) && Sized(blockSize, DIR_TAIL_LEN) && |sums| == |blocks|
    ensures forall i :: 0 <= i < |blocks| ==> HasTail(blocks[i])
    ensures WalkAlike(blocks, SealAll(blocks, sums), blockSize)
  {
    AllTails(blocks, blockSize);
    forall i | 0 <= i < |blocks|
      ensures WalkBlock(blocks[i].bytes, blockSize).Ok?
      ensures WalkBlock(SealAll(blocks, sums)[i].bytes, blockSize) == WalkBlock(blocks[i].bytes, blockSize)
    {
      SealedWalk(blocks[i], blockSize, sums[i]);
    }
  }

  lemma {:induction false} ListAllAlike<T, B, E>(a: seq<B>, b: seq<B>, list: B -> Result<seq<T>, E>)
    requires |a| == |b| && forall i :: 0 <= i < |a| ==> list(a[i]) == list(b[i])
    ensures ListAll(a, list) == ListAll(b, list)
  {
    if a != [] { ListAllAlike(a[..|a| - 1], b[..|b| - 1], list); }
  }

  /** Blocks that walk alike list alike. */
  lemma ListedAlike(a: seq<DirBlock>, b: seq<DirBlock>, blockSize: nat, reader: Reader)
    requires WalkAlike(a, b, blockSize)
    ensures ListAll(a, ListDir(blockSize, reader)) == ListAll(b, ListDir(blockSize, reader))
  {
    forall i | 0 <= i < |a| ensures ListDir(blockSize, reader)(a[i]) == ListDir(blockSize, reader)(b[i]) {
      WalkListed(a[i].bytes, blockSize, reader);
      WalkListed(b[i].bytes, blockSize, reader);
    }
    ListAllAlike(a, b, ListDir(blockSize, reader));
  }

  lemma SeekAlike<U>(a: Bytes, b: Bytes, blockSize: nat, pick: ((DirEntry, nat)) -> Option<U>)
    requires WalkBlock(a, blockSize).Ok? && WalkBlock(b, blockSize) == WalkBlock(a, blockSize)
    ensures Seek(a, ReadSlot(blockSize), BadDirectory, pick) == Seek(b, ReadSlot(blockSize), BadDirectory, pick)
  {
    SeekWalk(a, ReadSlot(blockSize), BadDirectory, pick);
    SeekWalk(b, ReadSlot(blockSize), BadDirectory, pick);
  }

  /** Blocks that walk alike are looked in alike. */
  lemma LooksSame(a: seq<DirBlock>, b: seq<DirBlock>, blockSize: nat, name: Bytes, reader: Reader, k: nat)
    requires WalkAlike(a, b, blockSize)
    ensures LookIn(BytesOf(a), blockSize, name, reader)(k) == LookIn(BytesOf(b), blockSize, name, reader)(k)
  {
    if k < |a| { SeekAlike(a[k].bytes, b[k].bytes, blockSize, JudgeNameSlot(name, reader)); }
  }

  /** The search is the same along paths that lead alike, if leaves are looked in alike. */
  lemma {:induction false} LoopSame(node: NodeReader, node': NodeReader, look: LeafReader, look': LeafReader,
                                    goesOn: nat -> bool, pathAt: nat -> Path, hashes: seq<u32>, first: nat, k: nat,
                                    fuel: nat)
    requires k < |hashes| && Leads(node, pathAt, hashes, first) && Leads(node', pathAt, hashes, first)
    requires forall b: nat :: look(b) == look'(b)
    ensures FindLoop(node, look, goesOn, pathAt(k), fuel) == FindLoop(node', look', goesOn, pathAt(k), fuel)
    decreases fuel
  {
    if fuel > 0 {
      assert LeadsAt(node, pathAt, hashes, first, k) && LeadsAt(node', pathAt, hashes, first, k);
      if k + 1 < |hashes| { LoopSame(node, node', look, look', goesOn, pathAt, hashes, first, k + 1, fuel - 1); }
    }
  }

  /** Searches along the same paths come to the same, if leaves are looked in alike. */
  lemma SearchesSame(a: seq<Bytes>, b: seq<Bytes>, hash: Bytes -> DirHash, name: Bytes, look: LeafReader,
                     look': LeafReader, pathAt: nat -> Path, hashes: seq<u32>, first: nat, k: nat)
    requires |a| == |b| && forall block: nat :: look(block) == look'(block)
    requires Searches(a, hash, name, look, pathAt, hashes, first, k)
    requires Searches(b, hash, name, look', pathAt, hashes, first, k)
    ensures FindWith(a, hash, name, look) == FindWith(b, hash, name, look')
  {
    LoopSame(NodeAt(a), NodeAt(b), look, look', GoesOn(hash(name).major), pathAt, hashes, first, k, |a|);
  }

  /** Two directories with the same index, over leaves that are looked in alike, are searched alike. */
  lemma FindSame(d: HtreeDir, a: seq<DirBlock>, b: seq<DirBlock>, hashes: seq<u32>, blockSize: nat,
                 hash: Bytes -> DirHash, name: Bytes, look: LeafReader, look': LeafReader)
    requires d.Builds(blockSize) && Indexes(d, a, hashes, blockSize) && Indexes(d, b, hashes, blockSize)
    requires HashIndex.Rising(hashes) && forall k: nat :: look(k) == look'(k)
    ensures FindWith(BytesOf(a), hash, name, look) == FindWith(BytesOf(b), hash, name, look')
  {
    IndexSearches(d, a, hashes, blockSize, hash, name, look);
    IndexSearches(d, b, hashes, blockSize, hash, name, look');
    SearchesSame(BytesOf(a), BytesOf(b), hash, name, look, look', PathTo(d, hashes, blockSize), hashes,
                 1 + NodeCount(d, |hashes|, blockSize), HashIndex.Locate(hashes, hash(name).major));
  }

  lemma NodesKept(nodes: seq<DirBlock>, sums: seq<u32>, limit: nat, runs: seq<seq<DxEntry>>)
    requires AreNodes(nodes, limit, runs) && |sums| == |nodes| && forall i :: 0 <= i < |nodes| ==> HasTail(nodes[i])
    ensures AreNodes(SealAll(nodes, sums), limit, runs)
  {
    forall i | 0 <= i < |runs|
      ensures Reads(SealAll(nodes, sums)[i], DX_NODE_COUNT_OFFSET, limit, Implied(runs[i]))
    {
      SealedReads(nodes[i], DX_NODE_COUNT_OFFSET, limit, Implied(runs[i]), sums[i]);
    }
  }

  lemma RootKept(d: HtreeDir, root: DirBlock, sum: u32, hashes: seq<u32>, blockSize: nat)
    requires d.Builds(blockSize) && IsRoot(d, root, hashes, blockSize) && HasTail(root)
    ensures IsRoot(d, Seal(root, sum), hashes, blockSize)
  {
    SealedReads(root, DX_ROOT_COUNT_OFFSET, d.RootLimit(blockSize), RootEntries(d, hashes, blockSize), sum);
    RootInfoKept(root, Seal(root, sum));
  }

  lemma SealSlices(blocks: seq<DirBlock>, sums: seq<u32>, first: nat)
    requires |sums| == |blocks| && (forall i :: 0 <= i < |blocks| ==> HasTail(blocks[i])) && 0 < first <= |blocks|
    ensures SealAll(blocks, sums)[..first][0] == Seal(blocks[..first][0], sums[0])
    ensures SealAll(blocks, sums)[..first][1..] == SealAll(blocks[..first][1..], sums[..first][1..])
  {
  }

  /** Sealing keeps an index as it was. */
  lemma IndexesKept(d: HtreeDir, blocks: seq<DirBlock>, sums: seq<u32>, hashes: seq<u32>, blockSize: nat)
    requires d.Builds(blockSize) && Indexes(d, blocks, hashes, blockSize) && |sums| == |blocks|
    requires forall i :: 0 <= i < |blocks| ==> HasTail(blocks[i])
    ensures Indexes(d, SealAll(blocks, sums), hashes, blockSize)
  {
    var first := 1 + NodeCount(d, |hashes|, blockSize);
    SealSlices(blocks, sums, first);
    RootKept(d, blocks[..first][0], sums[0], hashes, blockSize);
    NodesKept(blocks[..first][1..], sums[..first][1..], d.NodeLimit(blockSize), Runs(d, hashes, blockSize));
  }

  lemma RootInfoKept(a: DirBlock, b: DirBlock)
    requires |a.bytes| == |b.bytes| >= DX_ROOT_COUNT_OFFSET
    requires a.bytes[..DX_ROOT_COUNT_OFFSET] == b.bytes[..DX_ROOT_COUNT_OFFSET]
    ensures ReadRootInfo(a.bytes) == ReadRootInfo(b.bytes)
  {
    assert a.bytes[28] == a.bytes[..DX_ROOT_COUNT_OFFSET][28] && a.bytes[30] == a.bytes[..DX_ROOT_COUNT_OFFSET][30];
    assert b.bytes[28] == b.bytes[..DX_ROOT_COUNT_OFFSET][28] && b.bytes[30] == b.bytes[..DX_ROOT_COUNT_OFFSET][30];
  }

  lemma HashSame(d: HtreeDir, a: seq<DirBlock>, b: seq<DirBlock>, hashes: seq<u32>, blockSize: nat, unsigned: bool,
                 hashOf: NameHash)
    requires d.Builds(blockSize) && Indexes(d, a, hashes, blockSize) && Indexes(d, b, hashes, blockSize)
    ensures HashAt(BytesOf(a), unsigned, hashOf) == HashAt(BytesOf(b), unsigned, hashOf)
  {
    RootNames(d, a, hashes, blockSize);
    RootNames(d, b, hashes, blockSize);
  }

  /** Blocks that walk alike are scanned alike. */
  lemma {:induction false} MisplacedSame(a: seq<DirBlock>, b: seq<DirBlock>, blockSize: nat, hash: Bytes -> DirHash,
                                         reader: Reader, leaves: seq<(nat, nat)>, k: nat)
    requires WalkAlike(a, b, blockSize) && k <= |leaves|
    ensures MisplacedFrom(BytesOf(a), blockSize, hash, reader, leaves, k) ==
      MisplacedFrom(BytesOf(b), blockSize, hash, reader, leaves, k)
    decreases |leaves| - k
  {
    if k < |leaves| {
      var (block, low) := leaves[k];
      if block < |a| {
        SeekAlike(a[block].bytes, b[block].bytes, blockSize, JudgePlaceSlot(hash, low, HighOf(leaves, k), reader));
      }
      MisplacedSame(a, b, blockSize, hash, reader, leaves, k + 1);
    }
  }

  /** Two directories with the same index, over blocks that walk alike, answer every lookup and every scan
      alike. */
  lemma ReadSame(d: HtreeDir, a: seq<DirBlock>, b: seq<DirBlock>, hashes: seq<u32>, blockSize: nat, indexed: bool,
                 unsigned: bool, hashOf: NameHash, name: Bytes, reader: Reader)
    requires d.Builds(blockSize) && Indexes(d, a, hashes, blockSize) && Indexes(d, b, hashes, blockSize)
    requires WalkAlike(a, b, blockSize) && HashIndex.Rising(hashes) && hashes[0] == 0
    ensures FindSpec(BytesOf(a), blockSize, indexed, unsigned, hashOf, name, reader) ==
      FindSpec(BytesOf(b), blockSize, indexed, unsigned, hashOf, name, reader)
    ensures ScanSpec(BytesOf(a), blockSize, indexed, unsigned, hashOf, reader) ==
      ScanSpec(BytesOf(b), blockSize, indexed, unsigned, hashOf, reader)
  {
    HashSame(d, a, b, hashes, blockSize, unsigned, hashOf);
    var hash := HashAt(BytesOf(a), unsigned, hashOf);
    if indexed && hash.Some? {
      FoundSame(d, a, b, hashes, blockSize, hash.value, name, reader);
      ScannedSame(d, a, b, hashes, blockSize, hash.value, reader);
    }
  }

  lemma FoundSame(d: HtreeDir, a: seq<DirBlock>, b: seq<DirBlock>, hashes: seq<u32>, blockSize: nat,
                  hash: Bytes -> DirHash, name: Bytes, reader: Reader)
    requires d.Builds(blockSize) && Indexes(d, a, hashes, blockSize) && Indexes(d, b, hashes, blockSize)
    requires WalkAlike(a, b, blockSize) && HashIndex.Rising(hashes)
    ensures FindWith(BytesOf(a), hash, name, LookIn(BytesOf(a), blockSize, name, reader)) ==
      FindWith(BytesOf(b), hash, name, LookIn(BytesOf(b), blockSize, name, reader))
  {
    var look, look' := LookIn(BytesOf(a), blockSize, name, reader), LookIn(BytesOf(b), blockSize, name, reader);
    forall k: nat ensures look(k) == look'(k) { LooksSame(a, b, blockSize, name, reader, k); }
    FindSame(d, a, b, hashes, blockSize, hash, name, look, look');
  }

  lemma ScannedSame(d: HtreeDir, a: seq<DirBlock>, b: seq<DirBlock>, hashes: seq<u32>, blockSize: nat,
                    hash: Bytes -> DirHash, reader: Reader)
    requires d.Builds(blockSize) && Indexes(d, a, hashes, blockSize) && Indexes(d, b, hashes, blockSize)
    requires WalkAlike(a, b, blockSize) && hashes[0] == 0
    ensures ScanWith(BytesOf(a), blockSize, hash, reader) == ScanWith(BytesOf(b), blockSize, hash, reader)
  {
    EveryLeafVisited(d, a, hashes, blockSize);
    EveryLeafVisited(d, b, hashes, blockSize);
    MisplacedSame(a, b, blockSize, hash, reader, Ranges(hashes, 1 + NodeCount(d, |hashes|, blockSize)), 0);
  }

  // ----- the promise -----

  /** Whatever checksums are written over it, a directory that was built lists as it did. */
  lemma SealedListed(d: HtreeDir, es: seq<DirEntry>, blockSize: nat, sums: seq<u32>, reader: Reader)
    requires d.Builds(blockSize) && d.checksums && Sized(blockSize, d.TailLen()) && HtreeSpec(d, es, blockSize).Ok?
    requires |sums| == |HtreeSpec(d, es, blockSize).value|
    ensures var blocks := HtreeSpec(d, es, blockSize).value;
      && (forall i :: 0 <= i < |blocks| ==> HasTail(blocks[i]))
      && ListAll(SealAll(blocks, sums), ListDir(blockSize, reader)) == ListAll(blocks, ListDir(blockSize, reader))
  {
    var blocks := HtreeSpec(d, es, blockSize).value;
    BuiltUnsealed(d, es, blockSize);
    SealedWalkAlike(blocks, sums, blockSize);
    ListedAlike(blocks, SealAll(blocks, sums), blockSize, reader);
  }

  /** And where it has an index, it answers every lookup and every scan as it did. */
  lemma SealedFound(d: HtreeDir, es: seq<DirEntry>, blockSize: nat, sums: seq<u32>, indexed: bool, unsigned: bool,
                    hashOf: NameHash, name: Bytes, reader: Reader)
    requires d.Builds(blockSize) && d.checksums && Sized(blockSize, d.TailLen()) && Hasher(d.hash)
    requires HtreeSpec(d, es, blockSize).Ok? && FitsSpec(es, blockSize - d.TailLen(), blockSize) == Ok(false)
    requires |sums| == |HtreeSpec(d, es, blockSize).value|
    ensures var blocks := HtreeSpec(d, es, blockSize).value;
      && (forall i :: 0 <= i < |blocks| ==> HasTail(blocks[i]))
      && FindSpec(BytesOf(SealAll(blocks, sums)), blockSize, indexed, unsigned, hashOf, name, reader) ==
           FindSpec(BytesOf(blocks), blockSize, indexed, unsigned, hashOf, name, reader)
      && ScanSpec(BytesOf(SealAll(blocks, sums)), blockSize, indexed, unsigned, hashOf, reader) ==
           ScanSpec(BytesOf(blocks), blockSize, indexed, unsigned, hashOf, reader)
  {
    RestSmall(es, blockSize - d.TailLen(), blockSize);
    IndexedUnsealed(d, es, blockSize);
    var hashes := IndexedHashes(d, es, blockSize);
    SealedSame(d, IndexedSpec(d, es, blockSize).value, sums, hashes, blockSize, indexed, unsigned, hashOf, name,
               reader);
  }

  lemma SealedSame(d: HtreeDir, blocks: seq<DirBlock>, sums: seq<u32>, hashes: seq<u32>, blockSize: nat, indexed: bool,
                   unsigned: bool, hashOf: NameHash, name: Bytes, reader: Reader)
    requires d.Builds(blockSize) && d.checksums && Sized(blockSize, d.TailLen())
    requires Indexes(d, blocks, hashes, blockSize)
    requires AllUnsealed(blocks, blockSize) && |sums| == |blocks| && HashIndex.Rising(hashes) && hashes[0] == 0
    ensures forall i :: 0 <= i < |blocks| ==> HasTail(blocks[i])
    ensures FindSpec(BytesOf(SealAll(blocks, sums)), blockSize, indexed, unsigned, hashOf, name, reader) ==
      FindSpec(BytesOf(blocks), blockSize, indexed, unsigned, hashOf, name, reader)
    ensures ScanSpec(BytesOf(SealAll(blocks, sums)), blockSize, indexed, unsigned, hashOf, reader) ==
      ScanSpec(BytesOf(blocks), blockSize, indexed, unsigned, hashOf, reader)
  {
    SealedWalkAlike(blocks, sums, blockSize);
    IndexesKept(d, blocks, sums, hashes, blockSize);
    ReadSame(d, blocks, SealAll(blocks, sums), hashes, blockSize, indexed, unsigned, hashOf, name, reader);
  }

  lemma IndexedIndexes(d: HtreeDir, es: seq<DirEntry>, blockSize: nat)
    requires d.Builds(blockSize) && HasDots(es) && AllSmall(es[2..], blockSize - d.TailLen(), Need)
    requires IndexedSpec(d, es, blockSize).Ok?
    ensures Indexes(d, IndexedSpec(d, es, blockSize).value,
                    LeafHashes(Leaves(es[2..], blockSize - d.TailLen(), d.hash)), blockSize)
  {
    BuiltHolds(d, es, blockSize);
  }

  lemma FirstRecorded(leaves: seq<seq<Hashed>>)
    requires leaves != []
    ensures LeafHashes(leaves)[0] == 0
  {
  }

  lemma IndexedRises(d: HtreeDir, es: seq<DirEntry>, usable: nat, hashes: seq<u32>)
    requires Hasher(d.hash) && AllSmall(es, usable, Need) && hashes == LeafHashes(Leaves(es, usable, d.hash))
    ensures HashIndex.Rising(hashes)
  {
    BuiltReady(d, es, usable);
  }

  lemma IndexedHashes(d: HtreeDir, es: seq<DirEntry>, blockSize: nat) returns (hashes: seq<u32>)
    requires d.Builds(blockSize) && Sized(blockSize, d.TailLen()) && Hasher(d.hash)
    requires HasDots(es) && AllSmall(es[2..], blockSize - d.TailLen(), Need) && IndexedSpec(d, es, blockSize).Ok?
    ensures Indexes(d, IndexedSpec(d, es, blockSize).value, hashes, blockSize)
    ensures HashIndex.Rising(hashes) && hashes[0] == 0
  {
    hashes := LeafHashes(Leaves(es[2..], blockSize - d.TailLen(), d.hash));
    IndexedIndexes(d, es, blockSize);
    FirstRecorded(Leaves(es[2..], blockSize - d.TailLen(), d.hash));
    IndexedRises(d, es[2..], blockSize - d.TailLen(), hashes);
  }
}
