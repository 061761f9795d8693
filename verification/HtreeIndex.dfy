/** The shape of a built index: what its root and nodes name, where, and when there is one. */
module HtreeIndex {
  import opened Wrappers
  import opened Words
  import opened DirRecord
  import opened Tiling
  import opened Filling
  import opened DirPack
  import opened HtreeBlocks
  import opened Htree
  import HashIndex

  // ----- runs -----

  lemma {:induction false} RunsAre<T>(s: seq<T>, d: nat)
    requires d > 0
    ensures forall run <- Chunks(s, d) :: run != [] && |run| <= d
    ensures HashIndex.NoneEmpty(Chunks(s, d)) && Flatten(Chunks(s, d)) == s
  {
    if |s| > d {
      RunsAre(s[d..], d);
      assert s == s[..d] + s[d..];
    } else if s != [] {
      assert Flatten([s]) == s + Flatten([s][1..]) && [s][1..] == [];
    }
  }

  lemma {:induction false} DivCeilCovers(n: nat, d: nat)
    requires d > 0
    ensures n <= DivCeil(n, d) * d && (n > 0 ==> DivCeil(n, d) > 0)
    ensures DivCeil(n, d) == (n + d - 1) / d
  {
    if n > d {
      DivCeilCovers(n - d, d);
      assert DivCeil(n, d) * d == DivCeil(n - d, d) * d + d;
      DivStep(n - 1, d);
    } else if n > 0 {
      DivStep(n - 1, d);
      SmallOver(n - 1, d);
    } else {
      SmallOver(d - 1, d);
    }
  }

  lemma SmallOver(n: nat, d: nat)
    requires n < d
    ensures n / d == 0
  {
  }

  lemma DivStep(n: nat, d: nat)
    requires d > 0
    ensures (n + d) / d == n / d + 1
  {
    var (q, r) := (n / d, n % d);
    assert n + d == d * (q + 1) + r;
    QuotientIs(n + d, d, q + 1, r);
  }

  lemma QuotientIs(n: nat, d: nat, q: nat, r: nat)
    requires r < d && n == d * q + r
    ensures n / d == q
  {
    var e := n / d - q;
    assert n == d * (n / d) + n % d;
    assert d * e == r - n % d;
    Apart(d, e);
  }

  lemma Apart(d: nat, e: int)
    ensures e >= 1 ==> d * e >= d
    ensures e <= -1 ==> d * e <= -(d as int)
  {
  }

  /** So few leaves that no block number is truncated. */
  lemma FewLeaves(n: nat, d: nat, limit: nat)
    requires 0 < d <= 0x2000 && limit <= 0x2000 && DivCeil(n, d) <= limit
    ensures n <= 0x400_0000
  {
    DivCeilCovers(n, d);
    Product(DivCeil(n, d), d);
  }

  lemma Product(a: nat, b: nat)
    requires a <= 0x2000 && b <= 0x2000
    ensures a * b <= 0x400_0000
  {
    assert a * b <= 0x2000 * b;
  }

  lemma AsU32Exact(n: nat)
    requires n < 0x1_0000_0000
    ensures AsU32(n) == n
  {
  }

  // ----- the shape -----

  /** A block reads back as these index entries, no more than it has room for. */
  ghost predicate Reads(block: DirBlock, offset: nat, limit: nat, entries: seq<DxEntry>) {
    && block.kind == IndexBlockKind(offset, limit) && 0 < |entries| <= limit
    && ReadDxEntries(block.bytes, offset) == Ok(entries)
  }

  ghost predicate IsRoot(d: HtreeDir, root: DirBlock, hashes: seq<u32>, blockSize: nat)
    requires d.Builds(blockSize)
  {
    && Reads(root, DX_ROOT_COUNT_OFFSET, d.RootLimit(blockSize), RootEntries(d, hashes, blockSize))
    && ReadRootInfo(root.bytes) == Ok((d.version, Levels(d, |hashes|, blockSize)))
  }

  /** A node over each run of leaves. */
  ghost predicate AreNodes(nodes: seq<DirBlock>, limit: nat, runs: seq<seq<DxEntry>>) {
    |nodes| == |runs| && forall i :: 0 <= i < |runs| ==> Reads(nodes[i], DX_NODE_COUNT_OFFSET, limit, Implied(runs[i]))
  }

  /** The root and the nodes of an index over leaves with these hashes. */
  ghost predicate IsIndex(d: HtreeDir, index: seq<DirBlock>, hashes: seq<u32>, blockSize: nat)
    requires d.Builds(blockSize)
  {
    && |index| == 1 + NodeCount(d, |hashes|, blockSize)
    && IsRoot(d, index[0], hashes, blockSize)
    && AreNodes(index[1..], d.NodeLimit(blockSize), Runs(d, hashes, blockSize))
  }

  lemma WriteIndexRead(header: Bytes, limit: u16, entries: seq<DxEntry>, blockSize: nat)
    requires entries != [] && |entries| <= limit && entries[0].hash == 0
    requires |header| + DX_ENTRY_LEN * limit <= blockSize
    ensures WriteIndex(header, limit, entries, blockSize).Ok?
    ensures Reads(WriteIndex(header, limit, entries, blockSize).value, |header|, limit, entries)
    ensures header <= WriteIndex(header, limit, entries, blockSize).value.bytes
    ensures |WriteIndex(header, limit, entries, blockSize).value.bytes| == blockSize
  {
    IndexBlockRead(header, limit, entries, blockSize, |header|);
    assert IndexBlock(header, limit, entries, blockSize)[..|header|] == header;
  }

  lemma NodeWritten(d: HtreeDir, run: seq<DxEntry>, blockSize: nat)
    requires d.Builds(blockSize) && run != [] && |run| <= d.NodeLimit(blockSize)
    ensures var node := WriteNode(d.NodeLimit(blockSize), blockSize)(run);
      && node.Ok? && Reads(node.value, DX_NODE_COUNT_OFFSET, d.NodeLimit(blockSize), Implied(run))
      && |node.value.bytes| == blockSize && NodeHeader(blockSize) <= node.value.bytes
  {
    DxLimitFits(blockSize, DX_NODE_COUNT_OFFSET, d.checksums);
    WriteIndexRead(NodeHeader(blockSize), d.NodeLimit(blockSize), Implied(run), blockSize);
  }

  lemma RootInfoBack(dir: u32, parent: u32, version: u8, levels: u8, blockSize: nat)
    requires 12 <= blockSize
    ensures RootHeader(dir, parent, version, levels, blockSize)[28] == version
    ensures RootHeader(dir, parent, version, levels, blockSize)[30] == levels
  {
    var header := RootHeader(dir, parent, version, levels, blockSize);
    var fields: Bytes := [version, 8, levels, 0];
    var before := Header(dir, 12, 1, Dir.ToByte()) + (DOT + Zeros(3))
                  + (Header(parent, (blockSize - 12) % 0x1_0000, 2, Dir.ToByte()) +
                    (DOT_DOT + Zeros(2) + LittleEndian(0)));
    FieldsLast(Header(dir, 12, 1, Dir.ToByte()) + (DOT + Zeros(3)),
               Header(parent, (blockSize - 12) % 0x1_0000, 2, Dir.ToByte()),
               DOT_DOT + Zeros(2), LittleEndian(0), fields);
    assert header == before + fields && |before| == 28;
  }

  lemma FieldsLast(a: Bytes, b: Bytes, c: Bytes, e: Bytes, fields: Bytes)
    ensures a + (b + (c + (e + fields))) == a + (b + (c + e)) + fields
  {
  }

  lemma RootWritten(d: HtreeDir, dir: u32, parent: u32, levels: u8, entries: seq<DxEntry>, blockSize: nat)
    requires d.Builds(blockSize) && entries != [] && |entries| <= d.RootLimit(blockSize) && entries[0].hash == 0
    ensures blockSize >= DX_ROOT_COUNT_OFFSET
    ensures var root := WriteRoot(dir, parent, d.version, levels, d.RootLimit(blockSize), entries, blockSize);
      && root.Ok? && Reads(root.value, DX_ROOT_COUNT_OFFSET, d.RootLimit(blockSize), entries)
      && ReadRootInfo(root.value.bytes) == Ok((d.version, levels)) && |root.value.bytes| == blockSize
      && RootHeader(dir, parent, d.version, levels, blockSize) <= root.value.bytes
  {
    DxLimitFits(blockSize, DX_ROOT_COUNT_OFFSET, d.checksums);
    var header := RootHeader(dir, parent, d.version, levels, blockSize);
    WriteIndexRead(header, d.RootLimit(blockSize), entries, blockSize);
    RootInfoBack(dir, parent, d.version, levels, blockSize);
    assert WriteIndex(header, d.RootLimit(blockSize), entries, blockSize).value.bytes[..32] == header;
  }

  lemma NodesWritten(d: HtreeDir, runs: seq<seq<DxEntry>>, blockSize: nat)
    requires d.Builds(blockSize) && forall run <- runs :: run != [] && |run| <= d.NodeLimit(blockSize)
    ensures var nodes := PackEach(runs, WriteNode(d.NodeLimit(blockSize), blockSize));
      && nodes.Ok? && |nodes.value| == |runs|
      && (forall i :: 0 <= i < |runs| ==>
            Reads(nodes.value[i], DX_NODE_COUNT_OFFSET, d.NodeLimit(blockSize), Implied(runs[i])))
      && (forall i :: 0 <= i < |runs| ==>
        |nodes.value[i].bytes| == blockSize && NodeHeader(blockSize) <= nodes.value[i].bytes)
  {
    var write := WriteNode(d.NodeLimit(blockSize), blockSize);
    forall run <- runs ensures write(run).Ok? { NodeWritten(d, run, blockSize); }
    AllPack(runs, write);
    PackEachIs(runs, write);
    if runs != [] { PackAllAt(runs, write, 0); }
    forall i | 0 <= i < |runs|
      ensures Reads(PackAll(runs, write)[i], DX_NODE_COUNT_OFFSET, d.NodeLimit(blockSize), Implied(runs[i]))
      ensures |PackAll(runs, write)[i].bytes| == blockSize && NodeHeader(blockSize) <= PackAll(runs, write)[i].bytes
    {
      PackAllAt(runs, write, i);
      NodeWritten(d, runs[i], blockSize);
    }
  }

  lemma {:induction false} AllPack<T, B, E>(groups: seq<seq<T>>, pack: seq<T> -> Result<B, E>)
    requires forall g <- groups :: pack(g).Ok?
    ensures Packable(groups, pack)
  {
    if groups != [] {
      forall g <- groups[..|groups| - 1] ensures pack(g).Ok? { assert g in groups; }
      AllPack(groups[..|groups| - 1], pack);
      assert groups[|groups| - 1] in groups;
    }
  }

  lemma OverBegins(d: HtreeDir, hashes: seq<u32>, blockSize: nat)
    requires d.Builds(blockSize) && hashes != [] && hashes[0] == 0 && NodeCount(d, |hashes|, blockSize) > 0
    ensures var runs := Runs(d, hashes, blockSize);
      && runs != [] && runs[0] != [] && runs[0][0].hash == 0 && Over(runs)[0].hash == 0
  {
    ChunkBegins(LeafEntries(d, hashes, blockSize), d.NodeLimit(blockSize), 0);
  }

  lemma EntriesFit(d: HtreeDir, hashes: seq<u32>, blockSize: nat)
    requires d.Builds(blockSize) && hashes != [] && hashes[0] == 0 && Addressable(d, |hashes|, blockSize)
    ensures var (runs, root) := (Runs(d, hashes, blockSize), RootEntries(d, hashes, blockSize));
      && |runs| == NodeCount(d, |hashes|, blockSize)
      && (forall run <- runs :: run != [] && |run| <= d.NodeLimit(blockSize))
      && root != [] && |root| <= d.RootLimit(blockSize) && root[0].hash == 0
  {
    if NodeCount(d, |hashes|, blockSize) > 0 {
      RunsAre(LeafEntries(d, hashes, blockSize), d.NodeLimit(blockSize));
      OverBegins(d, hashes, blockSize);
    } else if |hashes| > d.RootLimit(blockSize) {
      DivCeilCovers(|hashes|, d.NodeLimit(blockSize));
    }
  }

  /** An index is built exactly when there is a leaf and the index can address them all; it is too large
      exactly when it cannot; and what is built has the shape. */
  lemma IndexBuilt(d: HtreeDir, dir: u32, parent: u32, hashes: seq<u32>, blockSize: nat)
    requires d.Builds(blockSize) && (hashes != [] ==> hashes[0] == 0)
    ensures var r := IndexSpec(d, dir, parent, hashes, blockSize);
      && (r.Ok? <==> (hashes != [] && Addressable(d, |hashes|, blockSize)))
      && ((r.Err? && r.error.IndexTooLarge?) <==> !Addressable(d, |hashes|, blockSize))
      && (r.Ok? ==> IsIndex(d, r.value, hashes, blockSize))
  {
    if hashes != [] && Addressable(d, |hashes|, blockSize) {
      PartsWritten(d, dir, parent, hashes, blockSize);
      var nodes, root := NodesOf(d, hashes, blockSize), RootOf(d, dir, parent, hashes, blockSize);
      assert ([root.value] + nodes.value)[1..] == nodes.value;
    } else if hashes == [] {
      NoLeaves(d, dir, parent, blockSize);
    }
  }

  lemma PartsWritten(d: HtreeDir, dir: u32, parent: u32, hashes: seq<u32>, blockSize: nat)
    requires d.Builds(blockSize) && hashes != [] && hashes[0] == 0 && Addressable(d, |hashes|, blockSize)
    ensures var (nodes, root) := (NodesOf(d, hashes, blockSize), RootOf(d, dir, parent, hashes, blockSize));
      && nodes.Ok? && root.Ok? && |nodes.value| == NodeCount(d, |hashes|, blockSize)
      && IsRoot(d, root.value, hashes, blockSize)
      && AreNodes(nodes.value, d.NodeLimit(blockSize), Runs(d, hashes, blockSize))
  {
    EntriesFit(d, hashes, blockSize);
    NodesWritten(d, Runs(d, hashes, blockSize), blockSize);
    RootWritten(d, dir, parent, Levels(d, |hashes|, blockSize), RootEntries(d, hashes, blockSize), blockSize);
  }

  /** Without a leaf there is no index, and none is too large. */
  lemma NoLeaves(d: HtreeDir, dir: u32, parent: u32, blockSize: nat)
    requires d.Builds(blockSize)
    ensures Addressable(d, 0, blockSize)
    ensures var r := IndexSpec(d, dir, parent, [], blockSize); r.Err? && !r.error.IndexTooLarge?
  {
  }

  /** What an indexed build that succeeds is made of. */
  lemma IndexedParts(d: HtreeDir, es: seq<DirEntry>, blockSize: nat)
    requires d.Builds(blockSize) && HasDots(es) && AllSmall(es[2..], blockSize - d.TailLen(), Need)
    requires IndexedSpec(d, es, blockSize).Ok?
    ensures var leaves := Leaves(es[2..], blockSize - d.TailLen(), d.hash);
      var index := IndexSpec(d, es[0].inode, es[1].inode, LeafHashes(leaves), blockSize);
      && index.Ok? && Packable(leaves, PackLeaf(blockSize, d.TailLen()))
      && IndexedSpec(d, es, blockSize).value == index.value + PackAll(leaves, PackLeaf(blockSize, d.TailLen()))
  {
    LeavesAre(es[2..], blockSize - d.TailLen(), d.hash);
    PackEachIs(Leaves(es[2..], blockSize - d.TailLen(), d.hash), PackLeaf(blockSize, d.TailLen()));
  }

  // ----- what the entries name -----

  function CountFrom(first: nat, n: nat): (s: seq<nat>)
    ensures |s| == n
  {
    seq(n, k => first + k)
  }

  function BlocksOf(entries: seq<DxEntry>): (s: seq<nat>)
    ensures |s| == |entries|
  {
    seq(|entries|, k requires 0 <= k < |entries| => entries[k].block)
  }

  /** The blocks that lists of entries name, list after list. */
  function NamedBy(lists: seq<seq<DxEntry>>): seq<nat> {
    if lists == [] then [] else BlocksOf(lists[0]) + NamedBy(lists[1..])
  }

  function ImpliedAll(runs: seq<seq<DxEntry>>): (lists: seq<seq<DxEntry>>)
    ensures |lists| == |runs| && forall i :: 0 <= i < |runs| ==> lists[i] == Implied(runs[i])
  {
    if runs == [] then [] else [Implied(runs[0])] + ImpliedAll(runs[1..])
  }

  lemma {:induction false} NamedByRuns(runs: seq<seq<DxEntry>>)
    ensures NamedBy(ImpliedAll(runs)) == BlocksOf(Flatten(runs))
  {
    if runs != [] {
      NamedByRuns(runs[1..]);
      assert ImpliedAll(runs)[1..] == ImpliedAll(runs[1..]);
      assert BlocksOf(Implied(runs[0])) == BlocksOf(runs[0]);
      assert BlocksOf(Flatten(runs)) == BlocksOf(runs[0]) + BlocksOf(Flatten(runs[1..]));
    }
  }

  /** The lists of entries at the level just above the leaves. */
  function Lowest(d: HtreeDir, hashes: seq<u32>, blockSize: nat): seq<seq<DxEntry>>
    requires d.Builds(blockSize)
  {
    if NodeCount(d, |hashes|, blockSize) == 0 then [RootEntries(d, hashes, blockSize)]
    else ImpliedAll(Runs(d, hashes, blockSize))
  }

  lemma FlatNames(hashes: seq<u32>, first: nat)
    requires first + |hashes| <= 0x1_0000_0000
    ensures BlocksOf(Flat(hashes, first)) == CountFrom(first, |hashes|)
  {
    forall k | 0 <= k < |hashes| ensures BlocksOf(Flat(hashes, first))[k] == first + k { AsU32Exact(first + k); }
  }

  lemma FewBlocks(d: HtreeDir, n: nat, blockSize: nat)
    requires d.Builds(blockSize) && Addressable(d, n, blockSize)
    ensures 1 + NodeCount(d, n, blockSize) + n <= 0x1_0000_0000
  {
    if n > d.RootLimit(blockSize) { FewLeaves(n, d.NodeLimit(blockSize), d.RootLimit(blockSize)); }
  }

  /** The lowest level names every leaf's block once, in order. */
  lemma EveryLeafNamed(d: HtreeDir, hashes: seq<u32>, blockSize: nat)
    requires d.Builds(blockSize) && Addressable(d, |hashes|, blockSize)
    ensures NamedBy(Lowest(d, hashes, blockSize)) == CountFrom(1 + NodeCount(d, |hashes|, blockSize), |hashes|)
  {
    var flat := LeafEntries(d, hashes, blockSize);
    FewBlocks(d, |hashes|, blockSize);
    FlatNames(hashes, 1 + NodeCount(d, |hashes|, blockSize));
    if NodeCount(d, |hashes|, blockSize) == 0 {
      NamedByOne(flat);
    } else {
      RunsAre(flat, d.NodeLimit(blockSize));
      NamedByRuns(Runs(d, hashes, blockSize));
    }
  }

  lemma NamedByOne(entries: seq<DxEntry>)
    ensures NamedBy([entries]) == BlocksOf(entries)
  {
    assert [entries][1..] == [] && BlocksOf(entries) + [] == BlocksOf(entries);
  }

  /** Where there are nodes, the root names each of them once, in order. */
  lemma EveryNodeNamed(d: HtreeDir, hashes: seq<u32>, blockSize: nat)
    requires d.Builds(blockSize) && Addressable(d, |hashes|, blockSize) && NodeCount(d, |hashes|, blockSize) > 0
    ensures BlocksOf(RootEntries(d, hashes, blockSize)) == CountFrom(1, NodeCount(d, |hashes|, blockSize))
  {
    FewBlocks(d, |hashes|, blockSize);
    var over := Over(Runs(d, hashes, blockSize));
    forall i | 0 <= i < |over| ensures BlocksOf(over)[i] == 1 + i { AsU32Exact(1 + i); }
  }

  /** Entries whose hashes never fall. */
  ghost predicate Rises(entries: seq<DxEntry>) {
    HashIndex.Rising(Hashes(entries))
  }

  lemma RisesIs(entries: seq<DxEntry>)
    ensures Rises(entries) <==> forall i, j :: 0 <= i < j < |entries| ==> entries[i].hash <= entries[j].hash
  {
    var hashes := Hashes(entries);
    HashIndex.RisingIs(hashes);
    if Rises(entries) {
      forall i, j | 0 <= i < j < |entries| ensures entries[i].hash <= entries[j].hash {
        assert hashes[i] <= hashes[j];
      }
    }
  }

  /** The hashes stored at every level never fall, whatever a node's first entry leaves out. */
  lemma StoredHashesRise(d: HtreeDir, hashes: seq<u32>, blockSize: nat)
    requires d.Builds(blockSize) && HashIndex.Rising(hashes)
    ensures Rises(RootEntries(d, hashes, blockSize))
    ensures forall run <- Runs(d, hashes, blockSize) :: Rises(Implied(run))
  {
    var flat, nodeLimit := LeafEntries(d, hashes, blockSize), d.NodeLimit(blockSize);
    assert Hashes(flat) == hashes;
    if NodeCount(d, |hashes|, blockSize) > 0 {
      OverRises(flat, nodeLimit);
      RunsRise(flat, nodeLimit);
      forall run <- Runs(d, hashes, blockSize) ensures Rises(Implied(run)) {
        RisesIs(run);
        RisesIs(Implied(run));
      }
    }
  }

  lemma OverRises(flat: seq<DxEntry>, d: nat)
    requires d > 0 && Rises(flat)
    ensures Rises(Over(Chunks(flat, d)))
  {
    var over := Over(Chunks(flat, d));
    RisesIs(flat);
    RisesIs(over);
    forall i, j | 0 <= i < j < |over| ensures over[i].hash <= over[j].hash {
      ChunkBegins(flat, d, i);
      ChunkBegins(flat, d, j);
      Ahead(i, j, d);
    }
  }

  lemma {:induction false} RunsRise(flat: seq<DxEntry>, d: nat)
    requires d > 0 && Rises(flat)
    ensures forall run <- Chunks(flat, d) :: Rises(run)
  {
    if |flat| > d {
      var run, rest := flat[..d], flat[d..];
      assert Hashes(flat) == Hashes(run) + Hashes(rest);
      HashIndex.OrderedConcat<nat>(Hashes(run), Hashes(rest), HashIndex.Same);
      RunsRise(rest, d);
    }
  }

  lemma {:induction false} Ahead(i: nat, j: nat, d: nat)
    requires i < j && d > 0
    ensures i * d < j * d
  {
    if i + 1 < j { Ahead(i, j - 1, d); }
    assert j * d == (j - 1) * d + d;
  }
}
