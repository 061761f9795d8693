/** An indexed directory read without its index, and when one is built at all. */
module HtreeListing {
  import opened Wrappers
  import opened Words
  import opened StableSort
  import opened DirRecord
  import opened Tiling
  import opened Filling
  import opened DirPack
  import opened DirReader
  import opened DirLinear
  import opened HtreeBlocks
  import opened Htree
  import opened HtreeIndex

  function ListDir(blockSize: nat, reader: Reader): DirBlock -> Result<seq<DirEntry>, ReadError> {
    (block: DirBlock) => ListBlock(blockSize, reader)(block.bytes)
  }

  // ----- the index blocks -----

  /** The dots as the root holds them: both are directories. */
  function Dots(dir: u32, parent: u32): seq<DirEntry> {
    [DirEntry(dir, Dir, DOT), DirEntry(parent, Dir, DOT_DOT)]
  }

  lemma HeaderThenRest(header: Bytes, bytes: Bytes)
    requires header <= bytes
    ensures bytes == header + bytes[|header|..]
  {
  }

  /** A block is listed by judging what a walk of it stands on. */
  lemma WalkListed(bytes: Bytes, blockSize: nat, reader: Reader)
    requires WalkBlock(bytes, blockSize).Ok?
    ensures ListBlock(blockSize, reader)(bytes) == Sift(WalkBlock(bytes, blockSize).value, JudgeSlot(reader))
  {
    ListWalk(bytes, ReadSlot(blockSize), BadDirectory, JudgeSlot(reader));
  }

  lemma RootListed(d: HtreeDir, dir: u32, parent: u32, levels: u8, bytes: Bytes, blockSize: nat, reader: Reader)
    requires DX_ROOT_COUNT_OFFSET <= |bytes| == blockSize <= MAX_BLOCK && Aligned(blockSize)
    requires RootHeader(dir, parent, d.version, levels, blockSize) <= bytes
    ensures ListBlock(blockSize, reader)(bytes) == Listed(Dots(dir, parent), reader)
  {
    HeaderThenRest(RootHeader(dir, parent, d.version, levels, blockSize), bytes);
    RootWalk(dir, parent, d.version, levels, bytes[DX_ROOT_COUNT_OFFSET..], blockSize);
    WalkListed(bytes, blockSize, reader);
    var dot, dotdot := DirEntry(dir, Dir, DOT), DirEntry(parent, Dir, DOT_DOT);
    DotsSifted(dot, 12, dotdot, blockSize - 12, reader);
    assert [dot] + [dotdot] == Dots(dir, parent);
  }

  lemma DotsSifted(dot: DirEntry, m: nat, dotdot: DirEntry, n: nat, reader: Reader)
    ensures Sift([(dot, m)] + [(dotdot, n)], JudgeSlot(reader)) == Listed([dot] + [dotdot], reader)
  {
    var first: seq<(DirEntry, nat)>, second: seq<(DirEntry, nat)> := [(dot, m)], [(dotdot, n)];
    SiftConcat(first, second, JudgeSlot(reader));
    ListedConcat([dot], [dotdot], reader);
    SiftOne(first[0], JudgeSlot(reader));
    SiftOne(second[0], JudgeSlot(reader));
    SiftOne(dot, Judge(reader));
    SiftOne(dotdot, Judge(reader));
  }

  lemma SiftOne<S, T, E>(x: S, judge: S -> Option<Result<T, E>>)
    ensures Sift([x], judge) == Verdict(judge(x))
  {
    assert [x][1..] == [];
    JoinedNothing(Verdict(judge(x)));
  }

  lemma NodeListed(bytes: Bytes, blockSize: nat, reader: Reader)
    requires DX_NODE_COUNT_OFFSET <= |bytes| == blockSize <= MAX_BLOCK && Aligned(blockSize)
    requires NodeHeader(blockSize) <= bytes
    ensures ListBlock(blockSize, reader)(bytes) == Ok([])
  {
    HeaderThenRest(NodeHeader(blockSize), bytes);
    NodeWalk(bytes[DX_NODE_COUNT_OFFSET..], blockSize);
    WalkListed(bytes, blockSize, reader);
    var slot: (DirEntry, nat) := (UNUSED, blockSize);
    SiftOne(slot, JudgeSlot(reader));
    assert slot.0 == UNUSED && slot.0.inode == 0 && Judge(reader)(slot.0).None?;
  }

  lemma NodesListed(nodes: seq<DirBlock>, blockSize: nat, reader: Reader)
    requires DX_NODE_COUNT_OFFSET <= blockSize <= MAX_BLOCK && Aligned(blockSize)
    requires forall i :: 0 <= i < |nodes| ==> |nodes[i].bytes| == blockSize && NodeHeader(blockSize) <= nodes[i].bytes
    ensures forall node <- nodes :: ListDir(blockSize, reader)(node) == Ok([])
  {
    forall node <- nodes ensures ListDir(blockSize, reader)(node) == Ok([]) {
      NodeListed(node.bytes, blockSize, reader);
    }
  }

  /** An index's blocks list the dots and nothing else. */
  lemma IndexListed(d: HtreeDir, dir: u32, parent: u32, hashes: seq<u32>, blockSize: nat, reader: Reader)
    requires d.Builds(blockSize) && Aligned(blockSize) && hashes != [] && hashes[0] == 0
    requires Addressable(d, |hashes|, blockSize)
    ensures IndexSpec(d, dir, parent, hashes, blockSize).Ok?
    ensures ListAll(IndexSpec(d, dir, parent, hashes, blockSize).value, ListDir(blockSize, reader)) ==
      Listed(Dots(dir, parent), reader)
  {
    var levels := Levels(d, |hashes|, blockSize);
    EntriesFit(d, hashes, blockSize);
    NodesWritten(d, Runs(d, hashes, blockSize), blockSize);
    RootWritten(d, dir, parent, levels, RootEntries(d, hashes, blockSize), blockSize);
    var root, nodes := RootOf(d, dir, parent, hashes, blockSize).value, NodesOf(d, hashes, blockSize).value;
    RootListed(d, dir, parent, levels, root.bytes, blockSize, reader);
    NodesListed(nodes, blockSize, reader);
    IndexLists(root, nodes, ListDir(blockSize, reader));
  }

  lemma IndexLists<T, B, E>(root: B, nodes: seq<B>, list: B -> Result<seq<T>, E>)
    requires forall node <- nodes :: list(node) == Ok([])
    ensures ListAll([root] + nodes, list) == list(root)
  {
    ListNothing(nodes, list);
    assert [root][..0] == [];
    ListConcat([root], nodes, list);
    JoinedNothing(list(root));
  }

  // ----- the leaves -----

  function KeepLeaf(reader: Reader): seq<Hashed> -> Result<seq<DirEntry>, ReadError> {
    (leaf: seq<Hashed>) => Listed(EntriesOf(leaf), reader)
  }

  lemma {:induction false} EntriesConcat(a: seq<Hashed>, b: seq<Hashed>)
    ensures EntriesOf(a + b) == EntriesOf(a) + EntriesOf(b)
  {
    if a == [] {
      assert a + b == b;
    } else {
      assert (a + b)[1..] == a[1..] + b;
      EntriesConcat(a[1..], b);
    }
  }

  lemma LeafListed(leaf: seq<Hashed>, blockSize: nat, tailLen: nat, reader: Reader)
    requires Sized(blockSize, tailLen) && leaf != [] && Used(EntriesOf(leaf)) <= blockSize - tailLen
    requires PackLeaf(blockSize, tailLen)(leaf).Ok?
    ensures ListDir(blockSize, reader)(PackLeaf(blockSize, tailLen)(leaf).value) == KeepLeaf(reader)(leaf)
  {
    var es := EntriesOf(leaf);
    assert es != [];
    GroupListed(es, blockSize, tailLen, reader);
  }

  lemma {:induction false} LeavesListBack(leaves: seq<seq<Hashed>>, blockSize: nat, tailLen: nat, reader: Reader)
    requires Sized(blockSize, tailLen) && Packable(leaves, PackLeaf(blockSize, tailLen))
    requires forall leaf <- leaves :: leaf != [] && Used(EntriesOf(leaf)) <= blockSize - tailLen
    ensures ListsBack(leaves, PackLeaf(blockSize, tailLen), ListDir(blockSize, reader), KeepLeaf(reader))
  {
    if leaves != [] {
      var init := leaves[..|leaves| - 1];
      forall leaf <- init ensures leaf != [] && Used(EntriesOf(leaf)) <= blockSize - tailLen { assert leaf in leaves; }
      LeavesListBack(init, blockSize, tailLen, reader);
      assert leaves[|leaves| - 1] in leaves;
      LeafListed(leaves[|leaves| - 1], blockSize, tailLen, reader);
    }
  }

  /** Packed leaves list what the reader makes of their entries, in hash order. */
  lemma LeavesListed(leaves: seq<seq<Hashed>>, blockSize: nat, tailLen: nat, reader: Reader)
    requires Sized(blockSize, tailLen) && Packable(leaves, PackLeaf(blockSize, tailLen))
    requires forall leaf <- leaves :: leaf != [] && Used(EntriesOf(leaf)) <= blockSize - tailLen
    ensures ListAll(PackAll(leaves, PackLeaf(blockSize, tailLen)), ListDir(blockSize, reader)) ==
      Listed(EntriesOf(Flatten(leaves)), reader)
  {
    LeavesListBack(leaves, blockSize, tailLen, reader);
    forall a: seq<Hashed>, b: seq<Hashed>
      ensures KeepLeaf(reader)(a + b) == Joined(KeepLeaf(reader)(a), KeepLeaf(reader)(b))
    {
      EntriesConcat(a, b);
      ListedConcat(EntriesOf(a), EntriesOf(b), reader);
    }
    ListPackAll(leaves, PackLeaf(blockSize, tailLen), ListDir(blockSize, reader), KeepLeaf(reader));
  }

  // ----- hash order is a rearrangement -----

  lemma {:induction false} EntriesOfHashed(es: seq<DirEntry>, hash: Bytes -> DirHash)
    ensures EntriesOf(HashAll(es, hash)) == es
  {
    if es != [] {
      assert HashAll(es, hash)[1..] == HashAll(es[1..], hash);
      EntriesOfHashed(es[1..], hash);
      assert es == [es[0]] + es[1..];
    }
  }

  function EntryOf(x: Hashed): DirEntry {
    x.entry
  }

  lemma {:induction false} EntriesMapped(s: seq<Hashed>)
    ensures EntriesOf(s) == MapAll(s, EntryOf)
  {
    if s != [] {
      var init, last := s[..|s| - 1], s[|s| - 1];
      EntriesMapped(init);
      EntriesConcat(init, [last]);
      assert s == init + [last] && EntriesOf([last]) == [last.entry];
    }
  }

  /** Hash order holds each entry once. */
  lemma HashOrderHoldsAll(es: seq<DirEntry>, hash: Bytes -> DirHash)
    ensures multiset(EntriesOf(SortByHash(es, hash))) == multiset(es)
  {
    SortMapped(HashLess, HashAll(es, hash), EntryOf);
    EntriesMapped(SortByHash(es, hash));
    EntriesMapped(HashAll(es, hash));
    EntriesOfHashed(es, hash);
  }

  // ----- the whole directory -----

  /** The index that is written over leaves lists the dots. */
  lemma WrittenIndexListed(d: HtreeDir, dir: u32, parent: u32, hashes: seq<u32>, blockSize: nat, reader: Reader)
    requires d.Builds(blockSize) && Aligned(blockSize) && (hashes != [] ==> hashes[0] == 0)
    requires IndexSpec(d, dir, parent, hashes, blockSize).Ok?
    ensures ListAll(IndexSpec(d, dir, parent, hashes, blockSize).value, ListDir(blockSize, reader)) ==
      Listed(Dots(dir, parent), reader)
  {
    IndexBuilt(d, dir, parent, hashes, blockSize);
    IndexListed(d, dir, parent, hashes, blockSize, reader);
  }

  lemma LeavesHold(es: seq<DirEntry>, hash: Bytes -> DirHash, usable: nat)
    requires AllSmall(es, usable, Need)
    ensures var leaves := Leaves(es, usable, hash);
      Flatten(leaves) == SortByHash(es, hash) && forall leaf <- leaves :: leaf != [] && Used(EntriesOf(leaf)) <= usable
  {
    LeavesAre(es, usable, hash);
  }

  /** The leaves that are packed list what the reader makes of the entries, in hash order. */
  lemma LeavesOfListed(es: seq<DirEntry>, hash: Bytes -> DirHash, blockSize: nat, tailLen: nat, usable: nat,
                       reader: Reader)
    requires Sized(blockSize, tailLen) && usable + tailLen == blockSize && AllSmall(es, usable, Need)
    requires Packable(Leaves(es, usable, hash), PackLeaf(blockSize, tailLen))
    ensures ListAll(PackAll(Leaves(es, usable, hash), PackLeaf(blockSize, tailLen)), ListDir(blockSize, reader))
         == Listed(EntriesOf(SortByHash(es, hash)), reader)
  {
    LeavesHold(es, hash, usable);
    LeavesListed(Leaves(es, usable, hash), blockSize, tailLen, reader);
  }

  lemma PackedLeavesListed(d: HtreeDir, es: seq<DirEntry>, blockSize: nat, reader: Reader)
    requires d.Builds(blockSize) && Sized(blockSize, d.TailLen()) && AllSmall(es, blockSize - d.TailLen(), Need)
    requires Packable(Leaves(es, blockSize - d.TailLen(), d.hash), PackLeaf(blockSize, d.TailLen()))
    ensures var leaves := Leaves(es, blockSize - d.TailLen(), d.hash);
      ListAll(PackAll(leaves, PackLeaf(blockSize, d.TailLen())), ListDir(blockSize, reader)) ==
        Listed(EntriesOf(SortByHash(es, d.hash)), reader)
  {
    LeavesOfListed(es, d.hash, blockSize, d.TailLen(), blockSize - d.TailLen(), reader);
  }

  /** A reader that knows nothing of the index lists what it makes of the dots, and then of every entry
      in hash order. */
  lemma IndexedListed(d: HtreeDir, es: seq<DirEntry>, blockSize: nat, reader: Reader)
    requires d.Builds(blockSize) && Sized(blockSize, d.TailLen()) && HasDots(es)
    requires AllSmall(es[2..], blockSize - d.TailLen(), Need) && IndexedSpec(d, es, blockSize).Ok?
    ensures ListAll(IndexedSpec(d, es, blockSize).value, ListDir(blockSize, reader)) ==
      Listed(Dots(es[0].inode, es[1].inode) + EntriesOf(SortByHash(es[2..], d.hash)), reader)
  {
    var rest, dir, parent := es[2..], es[0].inode, es[1].inode;
    var leaves := Leaves(rest, blockSize - d.TailLen(), d.hash);
    IndexedParts(d, es, blockSize);
    WrittenIndexListed(d, dir, parent, LeafHashes(leaves), blockSize, reader);
    PackedLeavesListed(d, rest, blockSize, reader);
    ListConcat(IndexSpec(d, dir, parent, LeafHashes(leaves), blockSize).value,
               PackAll(leaves, PackLeaf(blockSize, d.TailLen())), ListDir(blockSize, reader));
    ListedConcat(Dots(dir, parent), EntriesOf(SortByHash(rest, d.hash)), reader);
  }

  // ----- when a directory is built -----

  lemma {:induction false} LongNameNone(es: seq<DirEntry>)
    ensures LongName(es).None? <==> forall e <- es :: |e.name| <= NAME_MAX
  {
    if es != [] {
      LongNameNone(es[1..]);
      assert es == [es[0]] + es[1..];
    }
  }

  lemma LongNameRearranged(a: seq<DirEntry>, b: seq<DirEntry>)
    requires multiset(a) == multiset(b)
    ensures LongName(a).None? <==> LongName(b).None?
  {
    LongNameNone(a);
    LongNameNone(b);
    assert forall e :: e in a <==> e in multiset(a);
    assert forall e :: e in b <==> e in multiset(b);
  }

  lemma LeafPackable(leaf: seq<Hashed>, blockSize: nat, tailLen: nat)
    requires tailLen <= blockSize && leaf != [] && Used(EntriesOf(leaf)) <= blockSize - tailLen && !BadTail(tailLen)
    ensures PackLeaf(blockSize, tailLen)(leaf).Ok? <==> LongName(EntriesOf(leaf)).None?
  {
    assert EntriesOf(leaf) != [];
    GroupPackable(EntriesOf(leaf), blockSize, tailLen);
  }

  lemma {:induction false} LeavesPackable(leaves: seq<seq<Hashed>>, blockSize: nat, tailLen: nat)
    requires tailLen <= blockSize && !BadTail(tailLen)
    requires forall leaf <- leaves :: leaf != [] && Used(EntriesOf(leaf)) <= blockSize - tailLen
    ensures Packable(leaves, PackLeaf(blockSize, tailLen)) <==> LongName(EntriesOf(Flatten(leaves))).None?
  {
    if leaves != [] {
      var init, last := leaves[..|leaves| - 1], leaves[|leaves| - 1];
      forall leaf <- init ensures leaf != [] && Used(EntriesOf(leaf)) <= blockSize - tailLen { assert leaf in leaves; }
      LeavesPackable(init, blockSize, tailLen);
      assert last in leaves && leaves == init + [last];
      LeafPackable(last, blockSize, tailLen);
      FlattenSnoc(init, last);
      EntriesConcat(Flatten(init), last);
      LongNameFirst(EntriesOf(Flatten(init)), EntriesOf(last));
    }
  }

  /** How many leaves the names after the dots fill. */
  function LeafCount(d: HtreeDir, es: seq<DirEntry>, blockSize: nat): nat
    requires d.Builds(blockSize) && |es| >= 2
  {
    |Leaves(es[2..], blockSize - d.TailLen(), d.hash)|
  }

  /** The leaves pack exactly when every name fits a record. */
  lemma LeavesPack(d: HtreeDir, es: seq<DirEntry>, blockSize: nat)
    requires d.Builds(blockSize) && AllSmall(es, blockSize - d.TailLen(), Need)
    ensures var leaves := Leaves(es, blockSize - d.TailLen(), d.hash);
      PackEach(leaves, PackLeaf(blockSize, d.TailLen())).Ok? <==> LongName(es).None?
  {
    var leaves := Leaves(es, blockSize - d.TailLen(), d.hash);
    LeavesAre(es, blockSize - d.TailLen(), d.hash);
    PackEachIs(leaves, PackLeaf(blockSize, d.TailLen()));
    LeavesPackable(leaves, blockSize, d.TailLen());
    HashOrderHoldsAll(es, d.hash);
    LongNameRearranged(EntriesOf(SortByHash(es, d.hash)), es);
  }

  lemma IndexedBuilt(d: HtreeDir, es: seq<DirEntry>, blockSize: nat)
    requires d.Builds(blockSize) && HasDots(es) && AllSmall(es[2..], blockSize - d.TailLen(), Need)
    ensures var (r, n) := (IndexedSpec(d, es, blockSize), LeafCount(d, es, blockSize));
      && (r.Ok? <==> (n > 0 && Addressable(d, n, blockSize) && LongName(es[2..]).None?))
      && ((r.Err? && r.error.IndexTooLarge?) <==> !Addressable(d, n, blockSize))
  {
    var leaves := Leaves(es[2..], blockSize - d.TailLen(), d.hash);
    IndexBuilt(d, es[0].inode, es[1].inode, LeafHashes(leaves), blockSize);
    LeavesPack(d, es[2..], blockSize);
    PackNeverTooLarge(leaves, blockSize, d.TailLen());
  }

  /** There is a leaf exactly when there is a name for one. */
  lemma SomeLeaf(es: seq<DirEntry>, usable: nat, hash: Bytes -> DirHash)
    requires AllSmall(es, usable, Need)
    ensures Leaves(es, usable, hash) != [] <==> es != []
  {
    var leaves := Leaves(es, usable, hash);
    LeavesAre(es, usable, hash);
    assert |SortByHash(es, hash)| == |es| == |Flatten(leaves)|;
    if leaves != [] {
      assert leaves[0] in leaves;
      assert Flatten(leaves) == leaves[0] + Flatten(leaves[1..]);
    }
  }

  lemma LeafError(leaf: seq<Hashed>, blockSize: nat, tailLen: nat)
    requires tailLen <= blockSize
    ensures var block := PackLeaf(blockSize, tailLen)(leaf); block.Err? ==> block.error.Encode?
  {
    var bytes := PackGroup(blockSize, tailLen)(EntriesOf(leaf));
    assert bytes.Err? ==> bytes.error.Encode?;
  }

  lemma {:induction false} PackNeverTooLarge(leaves: seq<seq<Hashed>>, blockSize: nat, tailLen: nat)
    requires tailLen <= blockSize
    ensures var r := PackEach(leaves, PackLeaf(blockSize, tailLen)); r.Err? ==> !r.error.IndexTooLarge?
  {
    if leaves != [] {
      PackNeverTooLarge(leaves[..|leaves| - 1], blockSize, tailLen);
      LeafError(leaves[|leaves| - 1], blockSize, tailLen);
    }
  }

  lemma LinearOk(es: seq<DirEntry>, blockSize: nat, tailLen: nat)
    ensures LinearSpec(es, blockSize, tailLen).Ok? <==>
      (&& tailLen < blockSize && AllSmall(es, blockSize - tailLen, Need)
       && LongName(es).None? && (es != [] ==> !BadTail(tailLen)))
  {
    LinearIs(es, blockSize, tailLen);
  }

  /** Whether the entries fit one block, or the entry that fits none. */
  lemma FitsWhen(es: seq<DirEntry>, usable: nat, blockSize: nat)
    ensures AllSmall(es, usable, Need) ==> FitsSpec(es, usable, blockSize) == Ok(Used(es) <= usable)
    ensures !AllSmall(es, usable, Need) ==>
      FitsSpec(es, usable, blockSize).Err? && FitsSpec(es, usable, blockSize).error.EntryTooLarge?
  {
    SmallIs(es, usable, blockSize);
    TooLargeError(es, usable, blockSize);
  }

  /** The directory a block holds. */
  lemma SmallBuilt(d: HtreeDir, es: seq<DirEntry>, blockSize: nat)
    requires d.Builds(blockSize) && AllSmall(es, blockSize - d.TailLen(), Need) && Used(es) <= blockSize - d.TailLen()
    ensures var r := HtreeSpec(d, es, blockSize);
      && (r.Ok? <==> (d.TailLen() < blockSize && LongName(es).None?))
      && (r.Err? ==> !r.error.IndexTooLarge?)
  {
    FitsWhen(es, blockSize - d.TailLen(), blockSize);
    LinearOk(es, blockSize, d.TailLen());
    LinearNeverTooLarge(es, blockSize, d.TailLen());
  }

  /** The directory no block holds. */
  lemma LargeBuilt(d: HtreeDir, es: seq<DirEntry>, blockSize: nat)
    requires d.Builds(blockSize) && AllSmall(es, blockSize - d.TailLen(), Need) && Used(es) > blockSize - d.TailLen()
    ensures HtreeSpec(d, es, blockSize) == if HasDots(es) then IndexedSpec(d, es, blockSize) else Err(MissingDotEntries)
    ensures |es| >= 2 ==> AllSmall(es[2..], blockSize - d.TailLen(), Need)
  {
    FitsWhen(es, blockSize - d.TailLen(), blockSize);
    if |es| >= 2 { RestSmall(es, blockSize - d.TailLen(), blockSize); }
  }

  lemma SomeCount(d: HtreeDir, es: seq<DirEntry>, blockSize: nat)
    requires d.Builds(blockSize) && HasDots(es) && AllSmall(es[2..], blockSize - d.TailLen(), Need)
    ensures LeafCount(d, es, blockSize) > 0 <==> |es| > 2
  {
    SomeLeaf(es[2..], blockSize - d.TailLen(), d.hash);
  }

  lemma DotsBuiltWhen(d: HtreeDir, es: seq<DirEntry>, blockSize: nat)
    requires d.Builds(blockSize) && HasDots(es) && AllSmall(es[2..], blockSize - d.TailLen(), Need)
    ensures var r := IndexedSpec(d, es, blockSize);
      && (r.Ok? <==> (|es| > 2 && Addressable(d, LeafCount(d, es, blockSize), blockSize) && LongName(es[2..]).None?))
      && ((r.Err? && r.error.IndexTooLarge?) <==> !Addressable(d, LeafCount(d, es, blockSize), blockSize))
  {
    IndexedBuilt(d, es, blockSize);
    SomeCount(d, es, blockSize);
  }

  lemma LargeBuiltWhen(d: HtreeDir, es: seq<DirEntry>, blockSize: nat)
    requires d.Builds(blockSize) && AllSmall(es, blockSize - d.TailLen(), Need) && Used(es) > blockSize - d.TailLen()
    ensures var r := HtreeSpec(d, es, blockSize);
      && (r.Ok? <==>
            (&& HasDots(es) && |es| > 2 && Addressable(d, LeafCount(d, es, blockSize), blockSize)
             && LongName(es[2..]).None?))
      && ((r.Err? && r.error.IndexTooLarge?) <==>
        (HasDots(es) && !Addressable(d, LeafCount(d, es, blockSize), blockSize)))
  {
    LargeBuilt(d, es, blockSize);
    if HasDots(es) { DotsBuiltWhen(d, es, blockSize); }
  }

  /** What is too large for a block is refused before anything else. */
  lemma TooLargeRefused(d: HtreeDir, es: seq<DirEntry>, blockSize: nat)
    requires d.Builds(blockSize) && !AllSmall(es, blockSize - d.TailLen(), Need)
    ensures var r := HtreeSpec(d, es, blockSize); r.Err? && r.error.EntryTooLarge?
  {
    FitsWhen(es, blockSize - d.TailLen(), blockSize);
  }

  /** When a directory is built: every entry fits a block and every name a record; and where one block
      does not hold them all, they begin with the dots, something follows, and the index can address the
      leaves. */
  lemma HtreeBuilt(d: HtreeDir, es: seq<DirEntry>, blockSize: nat)
    requires d.Builds(blockSize)
    ensures HtreeSpec(d, es, blockSize).Ok? <==>
      (&& AllSmall(es, blockSize - d.TailLen(), Need)
       && if Used(es) <= blockSize - d.TailLen() then d.TailLen() < blockSize && LongName(es).None?
          else
            && HasDots(es) && |es| > 2 && Addressable(d, LeafCount(d, es, blockSize), blockSize)
            && LongName(es[2..]).None?)
  {
    if !AllSmall(es, blockSize - d.TailLen(), Need) {
      TooLargeRefused(d, es, blockSize);
    } else if Used(es) <= blockSize - d.TailLen() {
      SmallBuilt(d, es, blockSize);
    } else {
      LargeBuiltWhen(d, es, blockSize);
    }
  }

  /** The index is too large exactly when the leaves need more nodes than the root can name. */
  lemma HtreeTooLarge(d: HtreeDir, es: seq<DirEntry>, blockSize: nat)
    requires d.Builds(blockSize)
    ensures (HtreeSpec(d, es, blockSize).Err? && HtreeSpec(d, es, blockSize).error.IndexTooLarge?) <==>
      (&& AllSmall(es, blockSize - d.TailLen(), Need) && Used(es) > blockSize - d.TailLen() && HasDots(es)
       && d.RootLimit(blockSize) < LeafCount(d, es, blockSize)
       && d.RootLimit(blockSize) < DivCeil(LeafCount(d, es, blockSize), d.NodeLimit(blockSize)))
  {
    if !AllSmall(es, blockSize - d.TailLen(), Need) {
      TooLargeRefused(d, es, blockSize);
    } else if Used(es) <= blockSize - d.TailLen() {
      SmallBuilt(d, es, blockSize);
    } else {
      LargeBuiltWhen(d, es, blockSize);
    }
  }

  lemma {:induction false} TooLargeError(es: seq<DirEntry>, usable: nat, blockSize: nat)
    ensures var e := FirstTooLarge(es, usable, blockSize); e.Some? ==> e.value.EntryTooLarge?
  {
    if es != [] { TooLargeError(es[1..], usable, blockSize); }
  }

  lemma {:induction false} RunNeverTooLarge(es: seq<DirEntry>, blockSize: nat, tailLen: nat)
    requires tailLen <= blockSize
    ensures var r := Run(es, blockSize - tailLen, Need, PackGroup(blockSize, tailLen), TooLarge(blockSize));
      r.Err? ==> !r.error.IndexTooLarge?
  {
    if es != [] { RunNeverTooLarge(es[..|es| - 1], blockSize, tailLen); }
  }

  lemma LinearNeverTooLarge(es: seq<DirEntry>, blockSize: nat, tailLen: nat)
    ensures var r := LinearSpec(es, blockSize, tailLen); r.Err? ==> !r.error.IndexTooLarge?
  {
    if tailLen < blockSize { RunNeverTooLarge(es, blockSize, tailLen); }
  }
}
