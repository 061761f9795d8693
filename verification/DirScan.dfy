/** Checking an index against the names under it: what the check of each leaf's range reports, and why a
    directory this library built is never reported. */
module DirScan {
  import opened Wrappers
  import opened Words
  import opened DirRecord
  import opened Tiling
  import opened Filling
  import opened DirPack
  import opened DirReader
  import opened DirLinear
  import opened HtreeBlocks
  import opened Htree
  import opened HtreeIndex
  import opened HtreeLaws
  import opened DirLookup
  import opened DirFound
  import opened DirComplete
  import HashIndex

  // ----- the leaves in tree order -----

  /** The first entry of every level. */
  function FirstPath(node: NodeReader, root: seq<DxEntry>, levels: nat): Option<Path>
    requires root != []
  {
    var below := FirstBelow(node, root[0].block, levels);
    if below.None? then None else Some([(root, 0)] + below.value)
  }

  method FirstDescent(node: NodeReader, root: seq<DxEntry>, levels: nat) returns (r: Option<Path>)
    requires root != []
    ensures r == FirstPath(node, root, levels)
  {
    var path: Path := [];
    var entries, level := root, 0;
    while level < levels
      invariant 0 <= level <= levels && entries != []
      invariant FirstPath(node, root, levels) == Prefixed(path, FirstPath(node, entries, levels - level))
    {
      var below := node(entries[0].block);
      if below.None? || below.value == [] { return None; }
      PrefixedTwice(path, [(entries, 0)], FirstPath(node, below.value, levels - level - 1));
      path := path + [(entries, 0)];
      entries := below.value;
      level := level + 1;
    }
    assert [(entries, 0)] + [] == [(entries, 0)];
    return Some(path + [(entries, 0)]);
  }

  function Prefixed<T>(a: seq<T>, rest: Option<seq<T>>): (r: Option<seq<T>>)
    ensures a == [] ==> r == rest
  {
    if rest.None? then None
    else
      assert a == [] ==> a + rest.value == rest.value;
      Some(a + rest.value)
  }

  lemma PrefixedTwice<T>(a: seq<T>, b: seq<T>, rest: Option<seq<T>>)
    ensures Prefixed(a, Prefixed(b, rest)) == Prefixed(a + b, rest)
  {
    if rest.Some? { assert a + (b + rest.value) == a + b + rest.value; }
  }

  /** Each leaf from a path on, with the hash its range begins at. */
  function LeavesFrom(node: NodeReader, path: Path, low: nat, fuel: nat): Option<seq<(nat, nat)>>
    decreases fuel
  {
    if fuel == 0 then Some([])
    else if path == [] || path[|path| - 1].1 >= |path[|path| - 1].0| then None
    else
      var (entries, at) := path[|path| - 1];
      match NextLeaf(node, path)
      case End => Some([(entries[at].block as nat, low)])
      case Lost => None
      case Leaf(path', hash) => Prefixed([(entries[at].block as nat, low)], LeavesFrom(node, path', hash, fuel - 1))
  }

  method CollectLeaves(node: NodeReader, start: Path, bound: nat) returns (r: Option<seq<(nat, nat)>>)
    ensures r == LeavesFrom(node, start, 0, bound)
  {
    var leaves: seq<(nat, nat)> := [];
    var path: Path, low: nat, i := start, 0, 0;
    while i < bound
      invariant 0 <= i <= bound
      invariant LeavesFrom(node, start, 0, bound) == Prefixed(leaves, LeavesFrom(node, path, low, bound - i))
    {
      if path == [] || path[|path| - 1].1 >= |path[|path| - 1].0| { return None; }
      var (entries, at) := path[|path| - 1];
      var leaf: (nat, nat) := (entries[at].block, low);
      var next := NextLeaf(node, path);
      if next.End? { return Some(leaves + [leaf]); }
      if next.Lost? { return None; }
      PrefixedTwice(leaves, [leaf], LeavesFrom(node, next.path, next.hash, bound - i - 1));
      leaves := leaves + [leaf];
      path, low := next.path, next.hash;
      i := i + 1;
    }
    assert leaves + [] == leaves;
    return Some(leaves);
  }

  // ----- the names in a leaf -----

  /** A hash within the range of a leaf: from its own up to the next's, and at the next's where it is
      marked as continued. */
  predicate InRange(major: u32, low: nat, high: Option<nat>) {
    && low - low % 2 <= major
    && (high.None? || major < high.value - high.value % 2 || Marked(major) == high.value)
  }

  /** In the range by either of the two hashes a name can have. */
  predicate Placed(major: u32, low: nat, high: Option<nat>) {
    InRange(major, low, high) || (UnmovedMajor(major).Some? && InRange(UnmovedMajor(major).value, low, high))
  }

  /** What the scan makes of an entry: the inode of one that is misplaced. */
  function JudgePlace(hash: Bytes -> DirHash, low: nat, high: Option<nat>, reader: Reader)
    : DirEntry -> Option<Result<u32, ReadError>>
  {
    (e: DirEntry) =>
      var judged := Judge(reader)(e);
      if judged.None? then None
      else if judged.value.Err? then Some(Err(judged.value.error))
      else if Placed(hash(e.name).major, low, high) then None
      else Some(Ok(e.inode))
  }

  function JudgePlaceSlot(hash: Bytes -> DirHash, low: nat, high: Option<nat>, reader: Reader)
    : ((DirEntry, nat)) -> Option<Result<u32, ReadError>>
  {
    (slot: (DirEntry, nat)) => JudgePlace(hash, low, high, reader)(slot.0)
  }

  /** The first misplaced name of a block, if the walk reaches it. */
  function MisplacedIn(block: Bytes, blockSize: nat, hash: Bytes -> DirHash, low: nat, high: Option<nat>,
                       reader: Reader)
    : Option<u32>
  {
    var r := Seek(block, ReadSlot(blockSize), BadDirectory, JudgePlaceSlot(hash, low, high, reader));
    if r.Ok? && r.value.Some? && r.value.value.Ok? then Some(r.value.value.value) else None
  }

  function HighOf(leaves: seq<(nat, nat)>, k: nat): Option<nat> {
    if k + 1 < |leaves| then Some(leaves[k + 1].1) else None
  }

  /** The first misplaced name of leaf `k`. */
  function MisplacedAt(blocks: seq<Bytes>, blockSize: nat, hash: Bytes -> DirHash, reader: Reader,
                       leaves: seq<(nat, nat)>, k: nat): Option<u32>
    requires k < |leaves|
  {
    var block := BlockAt(blocks, leaves[k].0);
    if block.None? then None
    else MisplacedIn(block.value, blockSize, hash, leaves[k].1, HighOf(leaves, k), reader)
  }

  /** The first misplaced name of the leaves from `k` on. */
  function MisplacedFrom(blocks: seq<Bytes>, blockSize: nat, hash: Bytes -> DirHash, reader: Reader,
                         leaves: seq<(nat, nat)>, k: nat): Option<u32>
    requires k <= |leaves|
    decreases |leaves| - k
  {
    if k == |leaves| then None
    else
      var misplaced := MisplacedAt(blocks, blockSize, hash, reader, leaves, k);
      if misplaced.Some? then misplaced else MisplacedFrom(blocks, blockSize, hash, reader, leaves, k + 1)
  }

  // ----- the scan -----

  /** The inode of the first misplaced name, of an index the scan can follow. */
  function ScanSpec(blocks: seq<Bytes>, blockSize: nat, indexed: bool, unsigned: bool, hashOf: NameHash, reader: Reader)
    : Option<u32>
  {
    var hash := HashAt(blocks, unsigned, hashOf);
    if !indexed || hash.None? then None else ScanWith(blocks, blockSize, hash.value, reader)
  }

  function ScanWith(blocks: seq<Bytes>, blockSize: nat, hash: Bytes -> DirHash, reader: Reader): Option<u32> {
    var leaves := LeavesOf(blocks);
    if leaves.None? then None else MisplacedFrom(blocks, blockSize, hash, reader, leaves.value, 0)
  }

  /** The leaves an index leads to, in tree order. */
  function LeavesOf(blocks: seq<Bytes>): Option<seq<(nat, nat)>> {
    var root := RootAt(blocks);
    if root.None? then None
    else
      var path := FirstPath(NodeAt(blocks), root.value.0, root.value.1);
      if path.None? then None else LeavesFrom(NodeAt(blocks), path.value, 0, |blocks|)
  }

  method ScanIndex(blocks: seq<Bytes>, blockSize: nat, indexed: bool, unsigned: bool, hashOf: NameHash, reader: Reader)
    returns (misplaced: Option<u32>)
    ensures misplaced == ScanSpec(blocks, blockSize, indexed, unsigned, hashOf, reader)
  {
    if !indexed { return None; }
    var hash := HashAt(blocks, unsigned, hashOf);
    if hash.None? { return None; }
    var root := RootAt(blocks);
    if root.None? { return None; }
    var path := FirstDescent(NodeAt(blocks), root.value.0, root.value.1);
    if path.None? { return None; }
    var leaves := CollectLeaves(NodeAt(blocks), path.value, |blocks|);
    if leaves.None? { return None; }
    var k := 0;
    while k < |leaves.value|
      invariant 0 <= k <= |leaves.value|
      invariant MisplacedFrom(blocks, blockSize, hash.value, reader, leaves.value, 0) ==
        MisplacedFrom(blocks, blockSize, hash.value, reader, leaves.value, k)
    {
      misplaced := MisplacedAt(blocks, blockSize, hash.value, reader, leaves.value, k);
      if misplaced.Some? { return misplaced; }
      k := k + 1;
    }
    return None;
  }

  // ----- what the scan reports -----

  /** An entry in use, at no fault, that does not fit its leaf's range. */
  predicate Misplaced(e: DirEntry, hash: Bytes -> DirHash, low: nat, high: Option<nat>, reader: Reader) {
    e.inode != 0 && reader.Fault(e).None? && !Placed(hash(e.name).major, low, high)
  }

  lemma JudgedMisplaced(e: DirEntry, hash: Bytes -> DirHash, low: nat, high: Option<nat>, reader: Reader)
    ensures var judged := JudgePlace(hash, low, high, reader)(e);
      && (judged.Some? && judged.value.Ok? <==> Misplaced(e, hash, low, high, reader))
      && (judged.Some? && judged.value.Err? ==> reader.strict)
  {
    var entry := Judge(reader)(e);
    assert entry.None? <==> e.inode == 0 || (reader.Fault(e).Some? && !reader.strict);
  }

  lemma {:induction false} FirstMisplaced(slots: seq<(DirEntry, nat)>, hash: Bytes -> DirHash, low: nat,
                                          high: Option<nat>, reader: Reader)
    requires !reader.strict
    ensures var found := FirstPick(slots, JudgePlaceSlot(hash, low, high, reader));
      && (found.Some? ==> found.value.Ok?)
      && (found.Some? <==> exists slot <- slots :: Misplaced(slot.0, hash, low, high, reader))
  {
    if slots != [] {
      FirstMisplaced(slots[1..], hash, low, high, reader);
      assert slots == [slots[0]] + slots[1..];
      JudgedMisplaced(slots[0].0, hash, low, high, reader);
    }
  }

  /** Reading leniently, a block is reported exactly when a walk of it reaches a misplaced name. */
  lemma MisplacedInIs(block: Bytes, blockSize: nat, hash: Bytes -> DirHash, low: nat, high: Option<nat>, reader: Reader)
    requires !reader.strict
    ensures MisplacedIn(block, blockSize, hash, low, high, reader).Some? <==>
      exists slot <- Reached(block, ReadSlot(blockSize)) :: Misplaced(slot.0, hash, low, high, reader)
  {
    SeekReached(block, ReadSlot(blockSize), BadDirectory, JudgePlaceSlot(hash, low, high, reader));
    FirstMisplaced(Reached(block, ReadSlot(blockSize)), hash, low, high, reader);
  }

  /** The scan reports exactly when some leaf's block is reported. */
  lemma {:induction false} MisplacedSomewhere(blocks: seq<Bytes>, blockSize: nat, hash: Bytes -> DirHash,
                                              reader: Reader,
                                              leaves: seq<(nat, nat)>, k: nat)
    requires k <= |leaves|
    ensures MisplacedFrom(blocks, blockSize, hash, reader, leaves, k).Some? <==>
      exists j :: k <= j < |leaves| && MisplacedAt(blocks, blockSize, hash, reader, leaves, j).Some?
    decreases |leaves| - k
  {
    if k < |leaves| { MisplacedSomewhere(blocks, blockSize, hash, reader, leaves, k + 1); }
  }

  /** A leaf the directory has, a walk of which reaches a misplaced name. */
  ghost predicate HoldsMisplaced(blocks: seq<Bytes>, blockSize: nat, hash: Bytes -> DirHash, reader: Reader,
                                 leaves: seq<(nat, nat)>, k: nat)
    requires k < |leaves|
  {
    && leaves[k].0 < |blocks|
    && exists slot <- Reached(blocks[leaves[k].0], ReadSlot(blockSize)) ::
         Misplaced(slot.0, hash, leaves[k].1, HighOf(leaves, k), reader)
  }

  /** Reading leniently, the scan reports exactly when some leaf there is holds a misplaced name before
      anything in it that cannot be read. */
  lemma ScanReports(blocks: seq<Bytes>, blockSize: nat, hash: Bytes -> DirHash, reader: Reader, leaves: seq<(nat, nat)>)
    requires !reader.strict && LeavesOf(blocks) == Some(leaves)
    ensures ScanWith(blocks, blockSize, hash, reader).Some? <==>
      exists k :: 0 <= k < |leaves| && HoldsMisplaced(blocks, blockSize, hash, reader, leaves, k)
  {
    MisplacedSomewhere(blocks, blockSize, hash, reader, leaves, 0);
    forall k | 0 <= k < |leaves|
      ensures MisplacedAt(blocks, blockSize, hash, reader, leaves, k).Some? <==>
        HoldsMisplaced(blocks, blockSize, hash, reader, leaves, k)
    {
      if leaves[k].0 < |blocks| {
        MisplacedInIs(blocks[leaves[k].0], blockSize, hash, leaves[k].1, HighOf(leaves, k), reader);
      }
    }
  }

  // ----- a directory this library built -----

  /** The leaves at consecutive blocks, each with the hash recorded for it. */
  function Ranges(hashes: seq<u32>, first: nat): (leaves: seq<(nat, nat)>)
    ensures |leaves| == |hashes|
    ensures forall k :: 0 <= k < |hashes| ==> leaves[k] == (first + k, hashes[k] as nat)
  {
    seq(|hashes|, k requires 0 <= k < |hashes| => (first + k, hashes[k] as nat))
  }

  /** Stepping from a leaf's path visits the rest, each with the hash recorded for it. */
  lemma {:induction false} StepsVisit(node: NodeReader, pathAt: nat -> Path, hashes: seq<u32>, first: nat, k: nat,
                                      fuel: nat)
    requires Leads(node, pathAt, hashes, first) && k < |hashes| <= k + fuel
    ensures LeavesFrom(node, pathAt(k), hashes[k], fuel) == Some(Ranges(hashes, first)[k..])
    decreases fuel
  {
    assert LeadsAt(node, pathAt, hashes, first, k);
    var ranges := Ranges(hashes, first);
    if k + 1 < |hashes| {
      StepsVisit(node, pathAt, hashes, first, k + 1, fuel - 1);
      assert ranges[k..] == [ranges[k]] + ranges[k + 1..];
    } else {
      assert ranges[k..] == [ranges[k]];
    }
  }

  lemma PositionFirst<T>(runs: seq<seq<T>>)
    requires runs != [] && HashIndex.NoneEmpty(runs)
    ensures Flatten(runs) != [] && HashIndex.Position(runs, 0) == (0, 0)
  {
  }

  lemma FirstOfNodes(node: NodeReader, runs: seq<seq<DxEntry>>)
    requires Serves(node, runs) && runs != []
    ensures Flatten(runs) != [] && FirstPath(node, Over(runs), 1) == Some(PathNodes(runs, 0))
  {
    PositionFirst(runs);
    AsU32Exact(1);
    var inner := Implied(runs[0]);
    assert node(Over(runs)[0].block) == Some(inner) && inner != [];
    assert FirstBelow(node, inner[0].block, 0) == Some([]);
    assert [(inner, 0)] + [] == [(inner, 0)];
    assert [(Over(runs), 0)] + [(inner, 0)] == [(Over(runs), 0), (inner, 0)];
  }

  /** The first entries of every level lead to the first leaf. */
  lemma FirstFound(d: HtreeDir, node: NodeReader, hashes: seq<u32>, blockSize: nat)
    requires d.Builds(blockSize) && hashes != [] && Serves(node, Runs(d, hashes, blockSize))
    ensures RootEntries(d, hashes, blockSize) != []
    ensures FirstPath(node, RootEntries(d, hashes, blockSize), Levels(d, |hashes|, blockSize)) ==
      Some(PathTo(d, hashes, blockSize)(0))
  {
    if NodeCount(d, |hashes|, blockSize) > 0 {
      RunsAre(LeafEntries(d, hashes, blockSize), d.NodeLimit(blockSize));
      FirstOfNodes(node, Runs(d, hashes, blockSize));
    } else {
      var flat := LeafEntries(d, hashes, blockSize);
      assert [(flat, 0)] + [] == PathFlat(flat, 0);
    }
  }

  lemma LeavesOfIs(blocks: seq<Bytes>, root: seq<DxEntry>, levels: nat, path: Path, leaves: seq<(nat, nat)>)
    requires root != [] && RootAt(blocks) == Some((root, levels)) &&
      FirstPath(NodeAt(blocks), root, levels) == Some(path)
    requires LeavesFrom(NodeAt(blocks), path, 0, |blocks|) == Some(leaves)
    ensures LeavesOf(blocks) == Some(leaves)
  {
  }

  /** The scan visits every leaf of a directory once, in order, with the hash recorded for it. */
  lemma EveryLeafVisited(d: HtreeDir, blocks: seq<DirBlock>, hashes: seq<u32>, blockSize: nat)
    requires d.Builds(blockSize) && Indexes(d, blocks, hashes, blockSize) && hashes[0] == 0
    ensures LeavesOf(BytesOf(blocks)) == Some(Ranges(hashes, 1 + NodeCount(d, |hashes|, blockSize)))
  {
    var bytes, first, pathAt := BytesOf(blocks), 1 + NodeCount(d, |hashes|, blockSize), PathTo(d, hashes, blockSize);
    RootFound(d, blocks, hashes, blockSize);
    NodesFound(d, blocks, hashes, blockSize);
    FirstFound(d, NodeAt(bytes), hashes, blockSize);
    HeldLeads(d, blocks, hashes, blockSize);
    AllVisited(NodeAt(bytes), pathAt, hashes, first, |bytes|);
    LeavesOfIs(bytes, RootEntries(d, hashes, blockSize), Levels(d, |hashes|, blockSize), pathAt(0),
               Ranges(hashes, first));
  }

  lemma AllVisited(node: NodeReader, pathAt: nat -> Path, hashes: seq<u32>, first: nat, fuel: nat)
    requires Leads(node, pathAt, hashes, first) && 0 < |hashes| <= fuel && hashes[0] == 0
    ensures LeavesFrom(node, pathAt(0), 0, fuel) == Some(Ranges(hashes, first))
  {
    StepsVisit(node, pathAt, hashes, first, 0, fuel);
    assert Ranges(hashes, first)[0..] == Ranges(hashes, first);
  }

  /** Nothing is found misplaced. */
  ghost predicate NonePicked(found: Option<Result<u32, ReadError>>) {
    found.Some? ==> found.value.Err?
  }

  lemma {:induction false} NoneOfThese(es: seq<DirEntry>, judge: DirEntry -> Option<Result<u32, ReadError>>)
    requires forall e <- es :: NonePicked(judge(e))
    ensures NonePicked(FirstPick(es, judge))
  {
    if es != [] {
      assert es[0] in es;
      forall x <- es[1..] ensures NonePicked(judge(x)) { assert x in es; }
      NoneOfThese(es[1..], judge);
    }
  }

  /** A packed leaf whose names are all in range has none misplaced. */
  lemma PackedPlaced(es: seq<DirEntry>, block: Bytes, blockSize: nat, tailLen: nat, hash: Bytes -> DirHash, low: nat,
                     high: Option<nat>, reader: Reader)
    requires es != [] && Sized(blockSize, tailLen) && Used(es) <= blockSize - tailLen
    requires PackGroup(blockSize, tailLen)(es) == Ok(block)
    requires forall e <- es :: Placed(hash(e.name).major, low, high)
    ensures MisplacedIn(block, blockSize, hash, low, high, reader).None?
  {
    forall e <- es ensures NonePicked(JudgePlace(hash, low, high, reader)(e)) {
      JudgedMisplaced(e, hash, low, high, reader);
    }
    var judged := Judge(reader)(UNUSED);
    assert UNUSED.inode == 0 && judged.None? && JudgePlace(hash, low, high, reader)(UNUSED).None?;
    NoneOfThese(es, JudgePlace(hash, low, high, reader));
    SeekPacked(es, blockSize, tailLen, JudgePlace(hash, low, high, reader), JudgePlaceSlot(hash, low, high, reader));
  }

  lemma {:induction false} EntryOfLeaf(leaf: seq<Hashed>, e: DirEntry) returns (i: nat)
    requires e in EntriesOf(leaf)
    ensures i < |leaf| && leaf[i].entry == e
  {
    if leaf[0].entry == e {
      i := 0;
    } else {
      i := EntryOfLeaf(leaf[1..], e);
      i := i + 1;
    }
  }

  lemma {:induction false} LeafHashed(leaves: seq<seq<Hashed>>, hash: Bytes -> DirHash, k: nat, i: nat)
    requires HashedFrom(Flatten(leaves), hash) && k < |leaves| && i < |leaves[k]|
    ensures leaves[k][i].hash == hash(leaves[k][i].entry.name)
  {
    var head, rest := leaves[0], Flatten(leaves[1..]);
    if k == 0 {
      assert Flatten(leaves)[i] == head[i];
    } else {
      forall j | 0 <= j < |rest| ensures rest[j].hash == hash(rest[j].entry.name) {
        assert Flatten(leaves)[|head| + j] == rest[j];
      }
      LeafHashed(leaves[1..], hash, k - 1, i);
    }
  }

  /** Every name of a recorded leaf is in the leaf's range. */
  lemma LeafPlaced(leaves: seq<seq<Hashed>>, hashes: seq<u32>, hash: Bytes -> DirHash, first: nat, k: nat, e: DirEntry)
    requires HashIndex.Records(hashes, leaves, Rank) && HashedFrom(Flatten(leaves), hash) && Hasher(hash)
    requires k < |leaves| && e in EntriesOf(leaves[k])
    ensures Placed(hash(e.name).major, hashes[k], HighOf(Ranges(hashes, first), k))
  {
    var i := EntryOfLeaf(leaves[k], e);
    LeafHashed(leaves, hash, k, i);
    Doubled(hash(e.name).major);
    HashIndex.WithinRecorded(hashes, leaves, Rank, k, i);
  }

  lemma LeafPasses(leaves: seq<seq<Hashed>>, hashes: seq<u32>, hash: Bytes -> DirHash, first: nat, k: nat,
                   block: DirBlock, blockSize: nat, tailLen: nat, reader: Reader)
    requires HashIndex.Records(hashes, leaves, Rank) && HashedFrom(Flatten(leaves), hash) && Hasher(hash) &&
      k < |leaves|
    requires Sized(blockSize, tailLen) && leaves[k] != [] && Used(EntriesOf(leaves[k])) <= blockSize - tailLen
    requires PackLeaf(blockSize, tailLen)(leaves[k]) == Ok(block)
    ensures MisplacedIn(block.bytes, blockSize, hash, hashes[k], HighOf(Ranges(hashes, first), k), reader).None?
  {
    var es, low, high := EntriesOf(leaves[k]), hashes[k], HighOf(Ranges(hashes, first), k);
    assert es != [];
    forall e <- es ensures Placed(hash(e.name).major, low, high) { LeafPlaced(leaves, hashes, hash, first, k, e); }
    PackedPlaced(es, block.bytes, blockSize, tailLen, hash, low, high, reader);
  }

  /** No leaf of a built directory holds a misplaced name. */
  lemma LeafNotMisplaced(d: HtreeDir, blocks: seq<DirBlock>, leaves: seq<seq<Hashed>>, hashes: seq<u32>, blockSize: nat,
                         reader: Reader, k: nat)
    requires d.Builds(blockSize) && Sized(blockSize, d.TailLen()) && Hasher(d.hash) && k < |leaves|
    requires Holds(d, blocks, leaves, hashes, blockSize) && SearchReady(d, leaves, hashes)
    requires leaves[k] != [] && Used(EntriesOf(leaves[k])) <= blockSize - d.TailLen()
    ensures MisplacedAt(BytesOf(blocks), blockSize, d.hash, reader,
                        Ranges(hashes, 1 + NodeCount(d, |hashes|, blockSize)), k).None?
  {
    var first, pack := 1 + NodeCount(d, |hashes|, blockSize), PackLeaf(blockSize, d.TailLen());
    LeavesHeld(blocks, first, leaves, pack);
    PackAllAt(leaves, pack, k);
    var block := PackAll(leaves, pack)[k];
    LeafPasses(leaves, hashes, d.hash, first, k, block, blockSize, d.TailLen(), reader);
    MisplacedAtBlock(BytesOf(blocks), blockSize, d.hash, reader, Ranges(hashes, first), k, block.bytes);
  }

  lemma MisplacedAtBlock(blocks: seq<Bytes>, blockSize: nat, hash: Bytes -> DirHash, reader: Reader,
                         leaves: seq<(nat, nat)>, k: nat, block: Bytes)
    requires k < |leaves| && leaves[k].0 < |blocks| && blocks[leaves[k].0] == block
    ensures MisplacedAt(blocks, blockSize, hash, reader, leaves, k) ==
      MisplacedIn(block, blockSize, hash, leaves[k].1, HighOf(leaves, k), reader)
  {
  }

  lemma HeldPasses(d: HtreeDir, blocks: seq<DirBlock>, leaves: seq<seq<Hashed>>, hashes: seq<u32>, blockSize: nat,
                   reader: Reader)
    requires d.Builds(blockSize) && Sized(blockSize, d.TailLen()) && Hasher(d.hash)
    requires Holds(d, blocks, leaves, hashes, blockSize) && SearchReady(d, leaves, hashes) && hashes[0] == 0
    requires forall leaf <- leaves :: leaf != [] && Used(EntriesOf(leaf)) <= blockSize - d.TailLen()
    ensures ScanWith(BytesOf(blocks), blockSize, d.hash, reader).None?
  {
    var ranges := Ranges(hashes, 1 + NodeCount(d, |hashes|, blockSize));
    EveryLeafVisited(d, blocks, hashes, blockSize);
    MisplacedSomewhere(BytesOf(blocks), blockSize, d.hash, reader, ranges, 0);
    forall k | 0 <= k < |ranges| ensures MisplacedAt(BytesOf(blocks), blockSize, d.hash, reader, ranges, k).None? {
      assert leaves[k] in leaves;
      LeafNotMisplaced(d, blocks, leaves, hashes, blockSize, reader, k);
    }
  }

  lemma IndexedPasses(d: HtreeDir, es: seq<DirEntry>, blockSize: nat, reader: Reader)
    requires d.Builds(blockSize) && Sized(blockSize, d.TailLen()) && Hasher(d.hash)
    requires HasDots(es) && AllSmall(es[2..], blockSize - d.TailLen(), Need) && IndexedSpec(d, es, blockSize).Ok?
    ensures ScanWith(BytesOf(IndexedSpec(d, es, blockSize).value), blockSize, d.hash, reader).None?
  {
    var rest, usable := es[2..], blockSize - d.TailLen();
    var leaves := Leaves(rest, usable, d.hash);
    BuiltHolds(d, es, blockSize);
    BuiltReady(d, rest, usable);
    LeavesAre(rest, usable, d.hash);
    HeldPasses(d, IndexedSpec(d, es, blockSize).value, leaves, LeafHashes(leaves), blockSize, reader);
  }

  lemma IndexedScanned(d: HtreeDir, es: seq<DirEntry>, blockSize: nat, unsigned: bool, hashOf: NameHash, reader: Reader)
    requires d.Builds(blockSize) && Sized(blockSize, d.TailLen()) && Hasher(d.hash) && SameHash(d, unsigned, hashOf)
    requires HasDots(es) && AllSmall(es[2..], blockSize - d.TailLen(), Need) && IndexedSpec(d, es, blockSize).Ok?
    ensures ScanSpec(BytesOf(IndexedSpec(d, es, blockSize).value), blockSize, true, unsigned, hashOf, reader).None?
  {
    HashNamed(d, es, blockSize, unsigned, hashOf);
    IndexedPasses(d, es, blockSize, reader);
  }

  /** Every directory that was built with an index passes the scan: each name fits the range its leaf's
      entry and the next one record, so none is reported, whatever the reader's policy. */
  lemma BuiltPasses(d: HtreeDir, es: seq<DirEntry>, blockSize: nat, unsigned: bool, hashOf: NameHash, reader: Reader)
    requires d.Builds(blockSize) && Sized(blockSize, d.TailLen()) && Hasher(d.hash) && SameHash(d, unsigned, hashOf)
    requires HtreeSpec(d, es, blockSize).Ok? && FitsSpec(es, blockSize - d.TailLen(), blockSize) == Ok(false)
    ensures ScanSpec(BytesOf(HtreeSpec(d, es, blockSize).value), blockSize, true, unsigned, hashOf, reader).None?
  {
    RestSmall(es, blockSize - d.TailLen(), blockSize);
    IndexedScanned(d, es, blockSize, unsigned, hashOf, reader);
  }
}
