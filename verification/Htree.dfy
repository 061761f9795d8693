/** A hash-indexed directory: names in hash order over leaf blocks, and the index that leads to them. */
module Htree {
  import opened Wrappers
  import opened Words
  import opened StableSort
  import opened DirRecord
  import opened Tiling
  import opened Filling
  import opened DirPack
  import opened DirLinear
  import opened HtreeBlocks

  // ----- hashes and the order of names -----

  /** A name's hash: leaves are ranked by `major`, and ties within a rank are ordered by `minor`. */
  datatype DirHash = DirHash(major: u32, minor: u32)

  const DX_HASH_CONTINUED := 1
  const END_OF_SPACE: u32 := 0xffff_fffe

  /** What every directory hash keeps: the low bit is clear, and the end of the space is no name's. */
  ghost predicate Hasher(hash: Bytes -> DirHash) {
    forall name: Bytes :: hash(name).major % 2 == 0 && hash(name).major != END_OF_SPACE
  }

  datatype Hashed = Hashed(hash: DirHash, entry: DirEntry)

  /** Byte strings in dictionary order. */
  predicate NameLess(a: Bytes, b: Bytes) {
    if b == [] then false
    else if a == [] then true
    else a[0] < b[0] || (a[0] == b[0] && NameLess(a[1..], b[1..]))
  }

  /** By major hash, then minor, then name. */
  predicate HashLess(a: Hashed, b: Hashed) {
    || a.hash.major < b.hash.major
    || (a.hash.major == b.hash.major &&
        (|| a.hash.minor < b.hash.minor
         || (a.hash.minor == b.hash.minor && NameLess(a.entry.name, b.entry.name))))
  }

  function HashAll(es: seq<DirEntry>, hash: Bytes -> DirHash): (hs: seq<Hashed>)
    ensures |hs| == |es|
    ensures forall i :: 0 <= i < |es| ==> hs[i] == Hashed(hash(es[i].name), es[i])
  {
    seq(|es|, i requires 0 <= i < |es| => Hashed(hash(es[i].name), es[i]))
  }

  function SortByHash(es: seq<DirEntry>, hash: Bytes -> DirHash): seq<Hashed> {
    Sort(HashLess, HashAll(es, hash))
  }

  // ----- the leaves and their hashes -----

  function NeedOf(x: Hashed): nat {
    Need(x.entry)
  }

  function Leaves(es: seq<DirEntry>, usable: nat, hash: Bytes -> DirHash): seq<seq<Hashed>> {
    Groups(SortByHash(es, hash), usable, NeedOf)
  }

  /** `h | 1`. */
  function Marked(h: u32): u32 {
    if h % 2 == 0 then h + DX_HASH_CONTINUED else h
  }

  /** The lowest hash of a leaf, marked where that hash also ends the leaf before; the first is implied. */
  function LeafHash(leaves: seq<seq<Hashed>>, k: nat): u32
    requires k < |leaves|
  {
    if k == 0 || leaves[k] == [] || leaves[k - 1] == [] then 0
    else
      var first, last := leaves[k][0].hash.major, leaves[k - 1][|leaves[k - 1]| - 1].hash.major;
      if first == last then Marked(first) else first
  }

  function LeafHashes(leaves: seq<seq<Hashed>>): (hs: seq<u32>)
    ensures |hs| == |leaves|
  {
    seq(|leaves|, k requires 0 <= k < |leaves| => LeafHash(leaves, k))
  }

  method RecordLeafHashes(leaves: seq<seq<Hashed>>) returns (leafHash: seq<u32>)
    requires forall leaf <- leaves :: leaf != []
    ensures leafHash == LeafHashes(leaves)
  {
    var zeros: seq<u32> := seq(|leaves|, _ => 0);
    leafHash := zeros;
    var k := 1;
    while k < |leaves|
      invariant 1 <= k && |leafHash| == |leaves|
      invariant forall i :: 0 <= i < k && i < |leaves| ==> leafHash[i] == LeafHash(leaves, i)
    {
      assert leaves[k] in leaves && leaves[k - 1] in leaves;
      var first, prevLast := leaves[k][0].hash.major, leaves[k - 1][|leaves[k - 1]| - 1].hash.major;
      leafHash := leafHash[k := if first == prevLast then Marked(first) else first];
      k := k + 1;
    }
  }

  // ----- the index over the leaves -----

  /** `n as u32`. */
  function AsU32(n: nat): u32 {
    n % 0x1_0000_0000
  }

  /** `n` over `d`, rounded up. */
  function DivCeil(n: nat, d: nat): nat
    requires d > 0
  {
    if n == 0 then 0 else if n <= d then 1 else 1 + DivCeil(n - d, d)
  }

  /** Runs of `d`, the last of what is left. */
  function Chunks<T>(s: seq<T>, d: nat): (chunks: seq<seq<T>>)
    requires d > 0
    ensures |chunks| == DivCeil(|s|, d)
  {
    if s == [] then [] else if |s| <= d then [s] else [s[..d]] + Chunks(s[d..], d)
  }

  /** One entry a leaf: its hash, and its block. */
  function Flat(hashes: seq<u32>, firstLeaf: nat): (entries: seq<DxEntry>)
    ensures |entries| == |hashes|
  {
    seq(|hashes|, k requires 0 <= k < |hashes| => DxEntry(hashes[k], AsU32(firstLeaf + k)))
  }

  /** Within a node the first child's hash is implied. */
  function Implied(entries: seq<DxEntry>): (r: seq<DxEntry>)
    ensures |r| == |entries|
  {
    if entries == [] then [] else [DxEntry(0, entries[0].block)] + entries[1..]
  }

  /** The root's entries over the interior nodes. */
  function Over(chunks: seq<seq<DxEntry>>): (entries: seq<DxEntry>)
    ensures |entries| == |chunks|
  {
    seq(|chunks|, i requires 0 <= i < |chunks| =>
      DxEntry(if chunks[i] == [] then 0 else chunks[i][0].hash, AsU32(1 + i)))
  }

  datatype BlockKind = EntryBlock | IndexBlockKind(countOffset: nat, limit: nat)

  datatype DirBlock = DirBlock(bytes: Bytes, kind: BlockKind)

  /** How directories are hashed and indexed: the hash, the code it is recorded by, and whether
      checksums are on. */
  datatype HtreeDir = HtreeDir(hash: Bytes -> DirHash, version: u8, checksums: bool) {
    function TailLen(): nat {
      if checksums then DIR_TAIL_LEN else 0
    }

    function RootLimit(blockSize: nat): nat {
      DxLimit(blockSize, DX_ROOT_COUNT_OFFSET, checksums)
    }

    function NodeLimit(blockSize: nat): nat {
      DxLimit(blockSize, DX_NODE_COUNT_OFFSET, checksums)
    }

    /** Leaves two levels of index can address. */
    function Capacity(blockSize: nat): nat {
      RootLimit(blockSize) * NodeLimit(blockSize)
    }

    /** The sizes this can build: a tail fits, a node has room, and lengths fit their fields. */
    predicate Builds(blockSize: nat) {
      TailLen() <= blockSize <= MAX_BLOCK && NodeLimit(blockSize) > 0
    }
  }

  function WriteIndex(header: Bytes, limit: u16, entries: seq<DxEntry>, blockSize: nat): Result<DirBlock, DirError> {
    var fault := DxFault(entries, blockSize, |header|, limit);
    if fault.Some? then Err(Encode(fault.value))
    else Ok(DirBlock(IndexBlock(header, limit, entries, blockSize), IndexBlockKind(|header|, limit)))
  }

  function WriteRoot(dir: u32, parent: u32, version: u8, levels: u8, limit: u16, entries: seq<DxEntry>, blockSize: nat)
    : Result<DirBlock, DirError>
  {
    if blockSize < DX_ROOT_COUNT_OFFSET then Err(Encode(TooShort(DX_ROOT_COUNT_OFFSET, blockSize)))
    else WriteIndex(RootHeader(dir, parent, version, levels, blockSize), limit, entries, blockSize)
  }

  /** An interior node over a run of leaves. */
  function WriteNode(limit: u16, blockSize: nat): seq<DxEntry> -> Result<DirBlock, DirError> {
    (run: seq<DxEntry>) => WriteIndex(NodeHeader(blockSize), limit, Implied(run), blockSize)
  }

  /** Interior nodes over `n` leaves: none while the root can name every leaf. */
  function NodeCount(d: HtreeDir, n: nat, blockSize: nat): nat
    requires d.Builds(blockSize)
  {
    if n <= d.RootLimit(blockSize) then 0 else DivCeil(n, d.NodeLimit(blockSize))
  }

  /** The index can address this many leaves. */
  predicate Addressable(d: HtreeDir, n: nat, blockSize: nat)
    requires d.Builds(blockSize)
  {
    NodeCount(d, n, blockSize) <= d.RootLimit(blockSize)
  }

  /** One entry a leaf, each naming the leaf's place among the blocks. */
  function LeafEntries(d: HtreeDir, hashes: seq<u32>, blockSize: nat): seq<DxEntry>
    requires d.Builds(blockSize)
  {
    Flat(hashes, 1 + NodeCount(d, |hashes|, blockSize))
  }

  function Runs(d: HtreeDir, hashes: seq<u32>, blockSize: nat): seq<seq<DxEntry>>
    requires d.Builds(blockSize)
  {
    if NodeCount(d, |hashes|, blockSize) == 0 then []
    else Chunks(LeafEntries(d, hashes, blockSize), d.NodeLimit(blockSize))
  }

  function RootEntries(d: HtreeDir, hashes: seq<u32>, blockSize: nat): seq<DxEntry>
    requires d.Builds(blockSize)
  {
    if NodeCount(d, |hashes|, blockSize) == 0 then LeafEntries(d, hashes, blockSize)
    else Over(Runs(d, hashes, blockSize))
  }

  function Levels(d: HtreeDir, n: nat, blockSize: nat): u8
    requires d.Builds(blockSize)
  {
    if NodeCount(d, n, blockSize) == 0 then 0 else 1
  }

  /** The interior nodes, and then the root over them or over the leaves. */
  function NodesOf(d: HtreeDir, hashes: seq<u32>, blockSize: nat): Result<seq<DirBlock>, DirError>
    requires d.Builds(blockSize)
  {
    PackEach(Runs(d, hashes, blockSize), WriteNode(d.NodeLimit(blockSize), blockSize))
  }

  function RootOf(d: HtreeDir, dir: u32, parent: u32, hashes: seq<u32>, blockSize: nat): Result<DirBlock, DirError>
    requires d.Builds(blockSize)
  {
    WriteRoot(dir, parent, d.version, Levels(d, |hashes|, blockSize), d.RootLimit(blockSize),
              RootEntries(d, hashes, blockSize), blockSize)
  }

  function Assemble(nodes: Result<seq<DirBlock>, DirError>, root: Result<DirBlock, DirError>)
    : Result<seq<DirBlock>, DirError>
  {
    if nodes.Err? then nodes else if root.Err? then Err(root.error) else Ok([root.value] + nodes.value)
  }

  /** The root and the interior nodes over leaves with these hashes. */
  function IndexSpec(d: HtreeDir, dir: u32, parent: u32, hashes: seq<u32>, blockSize: nat)
    : Result<seq<DirBlock>, DirError>
    requires d.Builds(blockSize)
  {
    if !Addressable(d, |hashes|, blockSize) then Err(IndexTooLarge(|hashes|, d.Capacity(blockSize)))
    else Assemble(NodesOf(d, hashes, blockSize), RootOf(d, dir, parent, hashes, blockSize))
  }

  function EntriesOf(leaf: seq<Hashed>): (es: seq<DirEntry>)
    ensures |es| == |leaf|
  {
    if leaf == [] then [] else [leaf[0].entry] + EntriesOf(leaf[1..])
  }

  function EntryBlockOf(block: Result<Bytes, DirError>): Result<DirBlock, DirError> {
    if block.Err? then Err(block.error) else Ok(DirBlock(block.value, EntryBlock))
  }

  function PackLeaf(blockSize: nat, tailLen: nat): seq<Hashed> -> Result<DirBlock, DirError>
    requires tailLen <= blockSize
  {
    (leaf: seq<Hashed>) => EntryBlockOf(PackGroup(blockSize, tailLen)(EntriesOf(leaf)))
  }

  function EntryBlocks(blocks: seq<Bytes>): (r: seq<DirBlock>)
    ensures |r| == |blocks|
  {
    seq(|blocks|, i requires 0 <= i < |blocks| => DirBlock(blocks[i], EntryBlock))
  }

  /** `.` and `..`, which a directory's entries begin with. */
  predicate HasDots(es: seq<DirEntry>) {
    |es| >= 2 && es[0].name == DOT && es[1].name == DOT_DOT
  }

  function IndexedSpec(d: HtreeDir, es: seq<DirEntry>, blockSize: nat): Result<seq<DirBlock>, DirError>
    requires d.Builds(blockSize) && HasDots(es)
  {
    var leaves := Leaves(es[2..], blockSize - d.TailLen(), d.hash);
    Joined(IndexSpec(d, es[0].inode, es[1].inode, LeafHashes(leaves), blockSize),
           PackEach(leaves, PackLeaf(blockSize, d.TailLen())))
  }

  function HtreeSpec(d: HtreeDir, es: seq<DirEntry>, blockSize: nat): Result<seq<DirBlock>, DirError>
    requires d.Builds(blockSize)
  {
    var fits := FitsSpec(es, blockSize - d.TailLen(), blockSize);
    if fits.Err? then Err(fits.error)
    else if fits.value then
      var blocks := LinearSpec(es, blockSize, d.TailLen());
      if blocks.Err? then Err(blocks.error) else Ok(EntryBlocks(blocks.value))
    else if !HasDots(es) then Err(MissingDotEntries)
    else IndexedSpec(d, es, blockSize)
  }

  // ----- building -----

  lemma {:induction false} ChunksStep<T>(s: seq<T>, d: nat, start: nat)
    requires d > 0 && start < |s|
    ensures var end := if start + d < |s| then start + d else |s|;
      Chunks(s[start..], d) == [s[start..end]] + Chunks(s[end..], d)
  {
    var rest := s[start..];
    if |rest| <= d {
      assert s[start..|s|] == rest && s[|s|..] == [];
    } else {
      assert rest[..d] == s[start..start + d] && rest[d..] == s[start + d..];
    }
  }

  /** What has failed stays failed. */
  lemma {:induction false} PackEachFails<T, B, E>(groups: seq<seq<T>>, k: nat, pack: seq<T> -> Result<B, E>)
    requires k <= |groups| && PackEach(groups[..k], pack).Err?
    ensures PackEach(groups, pack) == PackEach(groups[..k], pack)
  {
    if k < |groups| {
      assert groups[..|groups| - 1][..k] == groups[..k];
      PackEachFails(groups[..|groups| - 1], k, pack);
    } else {
      assert groups[..k] == groups;
    }
  }

  /** One more group of a list packed in turn. */
  lemma PackEachStep<T, B, E>(groups: seq<seq<T>>, k: nat, pack: seq<T> -> Result<B, E>, blocks: seq<B>)
    requires k < |groups| && groups[k] != [] && PackEach(groups[..k], pack) == Ok(blocks)
    ensures pack(groups[k]).Ok? ==> PackEach(groups[..k + 1], pack) == Ok(blocks + [pack(groups[k]).value])
    ensures pack(groups[k]).Err? ==> PackEach(groups, pack) == Err(pack(groups[k]).error)
  {
    assert groups[..k + 1][..k] == groups[..k];
    if pack(groups[k]).Err? { PackEachFails(groups, k + 1, pack); }
  }

  /** Runs of `d` cut off `s`, as far as `start`, and one run more. */
  lemma ChunkAt<T>(s: seq<T>, d: nat, start: nat, k: nat)
    requires d > 0 && start < |s| && k <= |Chunks(s, d)| && Chunks(s, d)[k..] == Chunks(s[start..], d)
    ensures var end := if start + d < |s| then start + d else |s|;
      && k < |Chunks(s, d)| && Chunks(s, d)[k] == s[start..end] != []
      && Chunks(s, d)[k + 1..] == Chunks(s[end..], d)
  {
    var chunks, end := Chunks(s, d), if start + d < |s| then start + d else |s|;
    ChunksStep(s, d, start);
    assert chunks[k..][0] == chunks[k] && chunks[k..][1..] == chunks[k + 1..];
  }

  /** One node, over the leaves of one run. */
  method BuildNode(leafHash: seq<u32>, firstLeaf: nat, start: nat, end: nat, nodeLimit: u16, blockSize: nat)
    returns (node: Result<DirBlock, DirError>)
    requires start < end <= |leafHash|
    ensures node == WriteNode(nodeLimit, blockSize)(Flat(leafHash, firstLeaf)[start..end])
  {
    var entries := seq(end - start, j requires 0 <= j < end - start =>
      DxEntry(if j == 0 then 0 else leafHash[start + j], AsU32(firstLeaf + (start + j))));
    ghost var run := Flat(leafHash, firstLeaf)[start..end];
    forall j | 0 <= j < end - start ensures entries[j] == Implied(run)[j] {
      if j > 0 { assert Implied(run)[j] == run[j] == Flat(leafHash, firstLeaf)[start + j]; }
    }
    assert entries == Implied(run);
    node := WriteIndex(NodeHeader(blockSize), nodeLimit, entries, blockSize);
  }

  /** The nodes over runs of leaves, one run at a time. */
  method BuildNodes(leafHash: seq<u32>, firstLeaf: nat, nodeLimit: u16, blockSize: nat)
    returns (r: Result<seq<DirBlock>, DirError>)
    requires nodeLimit > 0
    ensures r == PackEach(Chunks(Flat(leafHash, firstLeaf), nodeLimit), WriteNode(nodeLimit, blockSize))
  {
    ghost var flat, write := Flat(leafHash, firstLeaf), WriteNode(nodeLimit, blockSize);
    ghost var runs := Chunks(flat, nodeLimit);
    ghost var k := 0;
    var nodes: seq<DirBlock> := [];
    var start := 0;
    assert flat[0..] == flat && runs[0..] == runs && runs[..0] == [];
    while start < |leafHash|
      invariant 0 <= start <= |leafHash| && k <= |runs|
      invariant runs[k..] == Chunks(flat[start..], nodeLimit)
      invariant PackEach(runs[..k], write) == Ok(nodes)
    {
      var end := if start + nodeLimit < |leafHash| then start + nodeLimit else |leafHash|;
      ChunkAt(flat, nodeLimit, start, k);
      PackEachStep(runs, k, write, nodes);
      var node := BuildNode(leafHash, firstLeaf, start, end, nodeLimit, blockSize);
      if node.Err? { return Err(node.error); }
      nodes := nodes + [node.value];
      start, k := end, k + 1;
    }
    assert runs[..k] == runs by { assert flat[start..] == []; }
    return Ok(nodes);
  }

  /** Each run begins where the runs before it end. */
  lemma {:induction false} ChunkBegins<T>(s: seq<T>, d: nat, i: nat)
    requires d > 0 && i < DivCeil(|s|, d)
    ensures i * d < |s| && Chunks(s, d)[i] != [] && Chunks(s, d)[i][0] == s[i * d]
  {
    if i > 0 {
      var rest, at := s[d..], (i - 1) * d;
      ChunkBegins(rest, d, i - 1);
      Times(i, d);
      assert rest[at] == s[at + d];
      assert Chunks(s, d) == [s[..d]] + Chunks(rest, d);
    }
  }

  lemma Times(i: nat, d: nat)
    requires i > 0
    ensures i * d == (i - 1) * d + d
  {
  }

  /** The root's entries over the nodes: each has its first leaf's hash. */
  method BuildRootEntries(leafHash: seq<u32>, firstLeaf: nat, nodeLimit: nat) returns (entries: seq<DxEntry>)
    requires nodeLimit > 0
    ensures entries == Over(Chunks(Flat(leafHash, firstLeaf), nodeLimit))
  {
    ghost var flat := Flat(leafHash, firstLeaf);
    var nodeCount := DivCeil(|leafHash|, nodeLimit);
    entries := [];
    var i := 0;
    while i < nodeCount
      invariant 0 <= i <= nodeCount
      invariant entries == Over(Chunks(flat, nodeLimit))[..i]
    {
      ChunkBegins(flat, nodeLimit, i);
      entries := entries + [DxEntry(leafHash[i * nodeLimit], AsU32(1 + i))];
      i := i + 1;
    }
  }

  /** The entries of the root, and the nodes it names: none while it can name every leaf itself. */
  method BuildLevels(d: HtreeDir, leafHash: seq<u32>, blockSize: nat)
    returns (nodes: Result<seq<DirBlock>, DirError>, rootEntries: seq<DxEntry>, indirectLevels: u8)
    requires d.Builds(blockSize)
    ensures nodes == NodesOf(d, leafHash, blockSize) && rootEntries == RootEntries(d, leafHash, blockSize)
    ensures indirectLevels == Levels(d, |leafHash|, blockSize)
  {
    var n, rootLimit, nodeLimit := |leafHash|, d.RootLimit(blockSize), d.NodeLimit(blockSize);
    if n <= rootLimit { return Ok([]), Flat(leafHash, 1), 0; }
    var firstLeaf := 1 + DivCeil(n, nodeLimit);
    nodes := BuildNodes(leafHash, firstLeaf, nodeLimit, blockSize);
    rootEntries := BuildRootEntries(leafHash, firstLeaf, nodeLimit);
    indirectLevels := 1;
  }

  /** The root and, where it cannot name every leaf, the interior nodes. */
  method BuildIndex(d: HtreeDir, dir: u32, parent: u32, leafHash: seq<u32>, blockSize: nat)
    returns (r: Result<seq<DirBlock>, DirError>)
    requires d.Builds(blockSize)
    ensures r == IndexSpec(d, dir, parent, leafHash, blockSize)
  {
    var n, rootLimit := |leafHash|, d.RootLimit(blockSize);
    if n > rootLimit && DivCeil(n, d.NodeLimit(blockSize)) > rootLimit {
      return Err(IndexTooLarge(n, d.Capacity(blockSize)));
    }
    var nodes, rootEntries, indirectLevels := BuildLevels(d, leafHash, blockSize);
    if nodes.Err? { return nodes; }
    var root := WriteRoot(dir, parent, d.version, indirectLevels, rootLimit, rootEntries, blockSize);
    if root.Err? { return Err(root.error); }
    return Ok([root.value] + nodes.value);
  }

  method PackOneLeaf(leaf: seq<Hashed>, blockSize: nat, tailLen: nat) returns (block: Result<DirBlock, DirError>)
    requires leaf != [] && tailLen <= blockSize && Used(EntriesOf(leaf)) <= blockSize - tailLen
    ensures block == PackLeaf(blockSize, tailLen)(leaf)
  {
    var es := EntriesOf(leaf);
    assert es != [];
    var bytes := PackOneBlock(es, blockSize, tailLen);
    assert PackGroup(blockSize, tailLen)(es) == if bytes.Err? then Err(Encode(bytes.error)) else Ok(bytes.value);
    return if bytes.Err? then Err(Encode(bytes.error)) else Ok(DirBlock(bytes.value, EntryBlock));
  }

  /** The leaves packed in turn. */
  method PackLeaves(leaves: seq<seq<Hashed>>, blockSize: nat, tailLen: nat) returns (r: Result<seq<DirBlock>, DirError>)
    requires tailLen <= blockSize
    requires forall leaf <- leaves :: leaf != [] && Used(EntriesOf(leaf)) <= blockSize - tailLen
    ensures r == PackEach(leaves, PackLeaf(blockSize, tailLen))
  {
    ghost var pack := PackLeaf(blockSize, tailLen);
    var blocks: seq<DirBlock> := [];
    var k := 0;
    while k < |leaves|
      invariant 0 <= k <= |leaves|
      invariant PackEach(leaves[..k], pack) == Ok(blocks)
    {
      assert leaves[k] in leaves;
      PackEachStep(leaves, k, pack, blocks);
      var block := PackOneLeaf(leaves[k], blockSize, tailLen);
      if block.Err? { return Err(block.error); }
      blocks := blocks + [block.value];
      k := k + 1;
    }
    assert leaves[..k] == leaves;
    return Ok(blocks);
  }

  // ----- facts about the leaves -----

  lemma {:induction false} UsedOf(leaf: seq<Hashed>)
    ensures Used(EntriesOf(leaf)) == Total(leaf, NeedOf)
  {
    if leaf != [] { UsedOf(leaf[1..]); }
  }

  /** What sorting by hash makes of entries that fit: the same entries, each with its name's hash. */
  ghost predicate HashedFrom(hs: seq<Hashed>, hash: Bytes -> DirHash) {
    forall i :: 0 <= i < |hs| ==> hs[i].hash == hash(hs[i].entry.name)
  }

  /** What holds of every item holds of every item of a rearrangement. */
  lemma Rearranged<T>(a: seq<T>, b: seq<T>, p: T -> bool)
    requires multiset(a) == multiset(b) && forall i :: 0 <= i < |a| ==> p(a[i])
    ensures forall i :: 0 <= i < |b| ==> p(b[i])
  {
    forall i | 0 <= i < |b| ensures p(b[i]) {
      assert b[i] in multiset(b);
      assert b[i] in a;
    }
  }

  lemma SortedMembers(es: seq<DirEntry>, hash: Bytes -> DirHash)
    ensures multiset(SortByHash(es, hash)) == multiset(HashAll(es, hash))
    ensures HashedFrom(SortByHash(es, hash), hash)
  {
    var hs := HashAll(es, hash);
    SortHolds(HashLess, hs);
    Rearranged(hs, SortByHash(es, hash), (x: Hashed) => x.hash == hash(x.entry.name));
  }

  lemma SortedSmall(es: seq<DirEntry>, room: nat, hash: Bytes -> DirHash)
    requires AllSmall(es, room, Need)
    ensures AllSmall(SortByHash(es, hash), room, NeedOf)
  {
    var hs := HashAll(es, hash);
    SortHolds(HashLess, hs);
    forall i | 0 <= i < |hs| ensures NeedOf(hs[i]) <= room { assert hs[i].entry == es[i]; }
    Rearranged(hs, SortByHash(es, hash), (x: Hashed) => NeedOf(x) <= room);
  }

  /** Sorting loses nothing. */
  lemma {:induction false} SortHolds<T>(less: (T, T) -> bool, s: seq<T>)
    ensures multiset(Sort(less, s)) == multiset(s)
  {
    if s != [] {
      SortHolds(less, s[..|s| - 1]);
      InsertHolds(less, Sort(less, s[..|s| - 1]), s[|s| - 1]);
      assert s == s[..|s| - 1] + [s[|s| - 1]];
    }
  }

  /** The leaves are the greedy split of the sorted names, and each is one block's. */
  lemma LeavesAre(es: seq<DirEntry>, usable: nat, hash: Bytes -> DirHash)
    requires AllSmall(es, usable, Need)
    ensures var leaves := Leaves(es, usable, hash);
      && Greedy(leaves, usable, NeedOf) && Flatten(leaves) == SortByHash(es, hash)
      && forall leaf <- leaves :: leaf != [] && Used(EntriesOf(leaf)) <= usable
  {
    var sorted, leaves := SortByHash(es, hash), Leaves(es, usable, hash);
    SortedSmall(es, usable, hash);
    GroupsAre(sorted, usable, NeedOf);
    forall leaf <- leaves ensures leaf != [] && Used(EntriesOf(leaf)) <= usable {
      var k :| 0 <= k < |leaves| && leaves[k] == leaf;
      GreedyAt(leaves, usable, NeedOf, k);
      UsedOf(leaf);
    }
  }

  lemma LeavesFit(es: seq<DirEntry>, usable: nat, hash: Bytes -> DirHash)
    requires AllSmall(es, usable, Need)
    ensures forall leaf <- Leaves(es, usable, hash) :: leaf != [] && Used(EntriesOf(leaf)) <= usable
  {
    LeavesAre(es, usable, hash);
  }

  /** The index over leaves, and then the leaves. */
  method BuildOver(d: HtreeDir, dir: u32, parent: u32, leaves: seq<seq<Hashed>>, blockSize: nat)
    returns (r: Result<seq<DirBlock>, DirError>)
    requires d.Builds(blockSize)
    requires forall leaf <- leaves :: leaf != [] && Used(EntriesOf(leaf)) <= blockSize - d.TailLen()
    ensures r == Joined(IndexSpec(d, dir, parent, LeafHashes(leaves), blockSize),
                        PackEach(leaves, PackLeaf(blockSize, d.TailLen())))
  {
    var leafHash := RecordLeafHashes(leaves);
    var index := BuildIndex(d, dir, parent, leafHash, blockSize);
    if index.Err? { return index; }
    var blocks := PackLeaves(leaves, blockSize, d.TailLen());
    return if blocks.Err? then blocks else Ok(index.value + blocks.value);
  }

  /** An indexed directory: leaves in hash order under their index. */
  method BuildIndexed(d: HtreeDir, es: seq<DirEntry>, blockSize: nat) returns (r: Result<seq<DirBlock>, DirError>)
    requires d.Builds(blockSize) && HasDots(es) && AllSmall(es[2..], blockSize - d.TailLen(), Need)
    ensures r == IndexedSpec(d, es, blockSize)
  {
    var rest, usable := es[2..], blockSize - d.TailLen();
    LeavesFit(rest, usable, d.hash);
    var leaves := FillGroups(SortByHash(rest, d.hash), usable, NeedOf);
    assert leaves == Leaves(rest, usable, d.hash);
    r := BuildOver(d, es[0].inode, es[1].inode, leaves, blockSize);
  }

  /** Build the blocks of a directory: linear if one block holds it, else indexed. */
  method BuildBlocks(d: HtreeDir, es: seq<DirEntry>, blockSize: nat) returns (r: Result<seq<DirBlock>, DirError>)
    requires d.Builds(blockSize)
    ensures r == HtreeSpec(d, es, blockSize)
  {
    var tailLen := d.TailLen();
    var fits := FitsInOneBlock(es, blockSize, tailLen);
    if fits.Err? { return Err(fits.error); }
    if fits.value {
      var blocks := BuildLinear(es, blockSize, tailLen);
      return if blocks.Err? then Err(blocks.error) else Ok(EntryBlocks(blocks.value));
    }
    if !HasDots(es) { return Err(MissingDotEntries); }
    RestSmall(es, blockSize - tailLen, blockSize);
    r := BuildIndexed(d, es, blockSize);
  }

  /** Once the entries are known to fit a block each, so do those after the dots. */
  lemma RestSmall(es: seq<DirEntry>, usable: nat, blockSize: nat)
    requires FitsSpec(es, usable, blockSize).Ok? && |es| >= 2
    ensures AllSmall(es[2..], usable, Need)
  {
    SmallIs(es, usable, blockSize);
    forall i | 0 <= i < |es[2..]| ensures Need(es[2..][i]) <= usable { assert es[2..][i] == es[i + 2]; }
  }

  lemma {:induction false} SmallIs(es: seq<DirEntry>, usable: nat, blockSize: nat)
    ensures FirstTooLarge(es, usable, blockSize).None? <==> AllSmall(es, usable, Need)
  {
    if es != [] {
      SmallIs(es[1..], usable, blockSize);
      forall i | 0 < i < |es| ensures es[i] == es[1..][i - 1] {}
      assert AllSmall(es, usable, Need) ==> AllSmall(es[1..], usable, Need);
    }
  }
}
