/** Looking names up in a directory this library built: every stored name is found, and no other. */
module DirFound {
  import opened Wrappers
  import opened Words
  import opened DirRecord
  import opened Tiling
  import opened DirPack
  import opened HtreeBlocks
  import opened Htree
  import opened HtreeIndex
  import opened DirLookup
  import HashIndex

  // ----- paths through an index over runs of leaves -----

  /** The nodes read back as runs of leaf entries, each with its first hash implied. */
  ghost predicate Serves(node: NodeReader, runs: seq<seq<DxEntry>>) {
    && 1 + |runs| <= 0x1_0000_0000 && HashIndex.NoneEmpty(runs)
    && forall i :: 0 <= i < |runs| ==> node(1 + i) == Some(Implied(runs[i]))
  }

  function HashRuns(runs: seq<seq<DxEntry>>): (hs: seq<seq<nat>>)
    ensures |hs| == |runs| && forall i :: 0 <= i < |runs| ==> hs[i] == Hashes(runs[i])
  {
    if runs == [] then [] else [Hashes(runs[0])] + HashRuns(runs[1..])
  }

  lemma {:induction false} HashRunsFlatten(runs: seq<seq<DxEntry>>)
    requires HashIndex.NoneEmpty(runs)
    ensures HashIndex.NoneEmpty(HashRuns(runs)) && Flatten(HashRuns(runs)) == Hashes(Flatten(runs))
    ensures HashIndex.Heads(HashRuns(runs)) == Hashes(Over(runs))
  {
    if runs != [] {
      HashRunsFlatten(runs[1..]);
      assert HashRuns(runs)[1..] == HashRuns(runs[1..]);
      assert Hashes(Flatten(runs)) == Hashes(runs[0]) + Hashes(Flatten(runs[1..]));
      HeadsOver(runs);
    }
  }

  lemma HeadsOver(runs: seq<seq<DxEntry>>)
    requires HashIndex.NoneEmpty(runs) && HashIndex.NoneEmpty(HashRuns(runs))
    ensures HashIndex.Heads(HashRuns(runs)) == Hashes(Over(runs))
  {
    var heads := HashIndex.Heads(HashRuns(runs));
    forall i | 0 <= i < |runs| ensures heads[i] == Hashes(Over(runs))[i] {
      assert HashRuns(runs)[i] == Hashes(runs[i]) && runs[i] != [];
    }
  }

  lemma {:induction false} PositionSame(runs: seq<seq<DxEntry>>, k: nat)
    requires k < |Flatten(runs)| && k < |Flatten(HashRuns(runs))|
    ensures HashIndex.Position(HashRuns(runs), k) == HashIndex.Position(runs, k)
  {
    var hs, n := HashRuns(runs), |runs[0]|;
    assert |hs[0]| == n && hs[1..] == HashRuns(runs[1..]);
    if k >= n { PositionSame(runs[1..], k - n); }
  }

  lemma LocateImplied(run: seq<DxEntry>, h: nat)
    requires run != []
    ensures HashIndex.Locate(Hashes(Implied(run)), h) == HashIndex.Locate(Hashes(run), h)
  {
    assert Hashes(Implied(run))[1..] == Hashes(run)[1..];
  }

  /** The path to leaf `k` where the root names every leaf. */
  function PathFlat(flat: seq<DxEntry>, k: nat): Path {
    [(flat, k)]
  }

  /** The path to leaf `k` where nodes name the leaves. */
  function PathNodes(runs: seq<seq<DxEntry>>, k: nat): Path
    requires k < |Flatten(runs)|
  {
    var (i, j) := HashIndex.Position(runs, k);
    [(Over(runs), i), (Implied(runs[i]), j)]
  }

  lemma DescendTwo(node: NodeReader, outer: seq<DxEntry>, inner: seq<DxEntry>, major: u32)
    requires outer != [] && inner != [] && node(outer[HashIndex.Locate(Hashes(outer), major)].block) == Some(inner)
    ensures Descend(node, outer, 1, major) ==
      Some([(outer, HashIndex.Locate(Hashes(outer), major)), (inner, HashIndex.Locate(Hashes(inner), major))])
  {
    var (i, j) := (HashIndex.Locate(Hashes(outer), major), HashIndex.Locate(Hashes(inner), major));
    assert Descend(node, inner, 0, major) == Some([(inner, j)]);
    assert [(outer, i)] + [(inner, j)] == [(outer, i), (inner, j)];
  }

  /** Where the descent through the first of each run and then through the run comes to. */
  lemma LandsOn(runs: seq<seq<DxEntry>>, major: u32)
    requires HashIndex.NoneEmpty(runs) && runs != [] && HashIndex.Rising(Hashes(Flatten(runs)))
    ensures Flatten(runs) != []
    ensures var i := HashIndex.Locate(Hashes(Over(runs)), major);
      runs[i] != [] &&
      HashIndex.Position(runs, HashIndex.Locate(Hashes(Flatten(runs)), major)) ==
        (i, HashIndex.Locate(Hashes(Implied(runs[i])), major))
  {
    HashRunsFlatten(runs);
    HashIndex.TwoLevels(HashRuns(runs), major);
    PositionSame(runs, HashIndex.Locate(Hashes(Flatten(runs)), major));
    LocateImplied(runs[HashIndex.Locate(Hashes(Over(runs)), major)], major);
  }

  /** The two-level descent lands on the leaf a search of all the leaf hashes does. */
  lemma DescendNodes(node: NodeReader, runs: seq<seq<DxEntry>>, major: u32)
    requires Serves(node, runs) && runs != [] && HashIndex.Rising(Hashes(Flatten(runs)))
    ensures Flatten(runs) != []
    ensures Descend(node, Over(runs), 1, major) == Some(PathNodes(runs, HashIndex.Locate(Hashes(Flatten(runs)), major)))
  {
    var i := HashIndex.Locate(Hashes(Over(runs)), major);
    LandsOn(runs, major);
    AsU32Exact(1 + i);
    assert Over(runs)[i].block == 1 + i;
    DescendTwo(node, Over(runs), Implied(runs[i]), major);
  }

  lemma NextFlat(node: NodeReader, flat: seq<DxEntry>, k: nat)
    requires k < |flat|
    ensures NextLeaf(node, PathFlat(flat, k)) ==
      if k + 1 < |flat| then Leaf(PathFlat(flat, k + 1), flat[k + 1].hash) else End
  {
    assert PathFlat(flat, k)[1..] == [];
    assert [(flat, k + 1)] + [] == PathFlat(flat, k + 1);
  }

  /** The last of a path, stepped where it has a next entry. */
  lemma NextInner(node: NodeReader, outer: (seq<DxEntry>, nat), entries: seq<DxEntry>, j: nat)
    requires j + 1 < |entries|
    ensures NextLeaf(node, [outer, (entries, j)]) == Leaf([outer, (entries, j + 1)], entries[j + 1].hash)
  {
    assert [outer, (entries, j)][1..] == PathFlat(entries, j);
    NextFlat(node, entries, j);
    assert [outer] + PathFlat(entries, j + 1) == [outer, (entries, j + 1)];
  }

  lemma NextOuter(node: NodeReader, outer: seq<DxEntry>, i: nat, entries: seq<DxEntry>, next: seq<DxEntry>)
    requires entries != [] && i < |outer| && (i + 1 < |outer| ==> node(outer[i + 1].block) == Some(next) && next != [])
    ensures NextLeaf(node, [(outer, i), (entries, |entries| - 1)]) ==
      if i + 1 < |outer| then Leaf([(outer, i + 1), (next, 0)], outer[i + 1].hash) else End
  {
    var path := [(outer, i), (entries, |entries| - 1)];
    assert path[1..] == PathFlat(entries, |entries| - 1);
    NextFlat(node, entries, |entries| - 1);
    if i + 1 < |outer| {
      assert FirstBelow(node, next[0].block, 0) == Some([]);
      assert [(next, 0)] + [] == [(next, 0)];
      assert FirstBelow(node, outer[i + 1].block, 1) == Some([(next, 0)]);
      assert [(outer, i + 1)] + [(next, 0)] == [(outer, i + 1), (next, 0)];
    }
  }

  /** Stepping from the last entry of a node. */
  lemma NextNode(node: NodeReader, runs: seq<seq<DxEntry>>, i: nat)
    requires Serves(node, runs) && i < |runs| && runs[i] != []
    ensures i + 1 < |runs| ==> runs[i + 1] != []
    ensures NextLeaf(node, [(Over(runs), i), (Implied(runs[i]), |runs[i]| - 1)]) ==
      if i + 1 < |runs| then Leaf([(Over(runs), i + 1), (Implied(runs[i + 1]), 0)], runs[i + 1][0].hash) else End
  {
    var outer := Over(runs);
    if i + 1 < |runs| {
      RunNotEmpty(runs, i + 1);
      AsU32Exact(2 + i);
      NextOuter(node, outer, i, Implied(runs[i]), Implied(runs[i + 1]));
    } else {
      NextOuter(node, outer, i, Implied(runs[i]), []);
    }
  }

  lemma {:induction false} RunNotEmpty<T>(runs: seq<seq<T>>, i: nat)
    requires HashIndex.NoneEmpty(runs) && i < |runs|
    ensures runs[i] != []
  {
    if i > 0 { RunNotEmpty(runs[1..], i - 1); }
  }

  /** Stepping moves to the next leaf, and answers the hash recorded for it. */
  lemma NextNodes(node: NodeReader, runs: seq<seq<DxEntry>>, k: nat)
    requires Serves(node, runs) && k < |Flatten(runs)|
    ensures NextLeaf(node, PathNodes(runs, k)) ==
      if k + 1 < |Flatten(runs)| then Leaf(PathNodes(runs, k + 1), Flatten(runs)[k + 1].hash) else End
  {
    var (i, j) := HashIndex.Position(runs, k);
    HashIndex.PositionNext(runs, k);
    if j + 1 < |runs[i]| {
      NextInner(node, (Over(runs), i), Implied(runs[i]), j);
    } else {
      NextNode(node, runs, i);
    }
  }

  // ----- a look that leaves entries out -----

  /** An entry in use with this name, of those not left out. */
  function PickName(name: Bytes, leftOut: DirEntry -> bool): DirEntry -> Option<u32> {
    (e: DirEntry) => if e.inode != 0 && !leftOut(e) && e.name == name then Some(e.inode) else None
  }

  function PickSlot(name: Bytes, leftOut: DirEntry -> bool): ((DirEntry, nat)) -> Option<u32> {
    (slot: (DirEntry, nat)) => PickName(name, leftOut)(slot.0)
  }

  function LookPast(blocks: seq<Bytes>, blockSize: nat, name: Bytes, leftOut: DirEntry -> bool): LeafReader {
    (logical: nat) =>
      var block := BlockAt(blocks, logical);
      if block.None? then Ok(Missing)
      else LookFound(Seek(block.value, ReadSlot(blockSize), BadDirectory, PickSlot(name, leftOut)))
  }

  function LookFound(r: Result<Option<u32>, ReadError>): Result<Look, ReadError> {
    if r.Err? then Err(r.error) else Ok(if r.value.Some? then Hit(r.value.value) else Miss)
  }

  // ----- the search over the leaves -----

  function LookFor(x: Option<u32>): Look {
    if x.Some? then Hit(x.value) else Miss
  }

  function Answer(x: HashIndex.Outcome<u32>): Indexed {
    match x
    case Found(inode) => Found(inode)
    case Absent => Absent
    case Unusable => Unusable
  }

  /** A path that leads to leaf `k`, and steps to the next. */
  ghost predicate LeadsAt(node: NodeReader, pathAt: nat -> Path, hashes: seq<u32>, first: nat, k: nat) {
    var path := pathAt(k);
    && k < |hashes| && path != [] && path[|path| - 1].1 < |path[|path| - 1].0|
    && path[|path| - 1].0[path[|path| - 1].1].block == first + k
    && NextLeaf(node, path) == if k + 1 < |hashes| then Leaf(pathAt(k + 1), hashes[k + 1]) else End
  }

  /** Paths that lead to the leaves in order, as the step moves along them. */
  ghost predicate Leads(node: NodeReader, pathAt: nat -> Path, hashes: seq<u32>, first: nat) {
    forall k: nat :: k < |hashes| ==> LeadsAt(node, pathAt, hashes, first, k)
  }

  ghost predicate LooksAt(look: LeafReader, leaves: seq<seq<Hashed>>, first: nat, pick: Hashed -> Option<u32>, k: nat) {
    k < |leaves| && look(first + k) == Ok(LookFor(FirstPick(leaves[k], pick)))
  }

  /** Every leaf read for a name answers with the first that is it. */
  ghost predicate Looks(look: LeafReader, leaves: seq<seq<Hashed>>, first: nat, pick: Hashed -> Option<u32>) {
    forall k: nat :: k < |leaves| ==> LooksAt(look, leaves, first, pick, k)
  }

  /** The search through the index is the search of the leaves it records. */
  lemma {:induction false} LoopIs(node: NodeReader, look: LeafReader, goesOn: nat -> bool, pathAt: nat -> Path,
      leaves: seq<seq<Hashed>>, hashes: seq<u32>, first: nat, pick: Hashed -> Option<u32>, k: nat, fuel: nat)
    requires |hashes| == |leaves| && k < |leaves|
    requires Leads(node, pathAt, hashes, first) && Looks(look, leaves, first, pick)
    ensures FindLoop(node, look, goesOn, pathAt(k), fuel) ==
      Ok(Answer(HashIndex.FindFrom(leaves, hashes, pick, goesOn, k, fuel)))
    decreases fuel
  {
    if fuel > 0 {
      assert LeadsAt(node, pathAt, hashes, first, k);
      assert LooksAt(look, leaves, first, pick, k);
      if FirstPick(leaves[k], pick).None? && k + 1 < |leaves| && goesOn(hashes[k + 1]) {
        LoopIs(node, look, goesOn, pathAt, leaves, hashes, first, pick, k + 1, fuel - 1);
      }
    }
  }

  // ----- a directory this library built -----

  /** An item picked by its entry, where its hash is the one looked for. */
  function PickHashed(h: DirHash, pick: DirEntry -> Option<u32>): Hashed -> Option<u32> {
    (x: Hashed) => if x.hash == h then pick(x.entry) else None
  }

  /** Whatever is picked has the hash looked for. */
  ghost predicate PicksHash(s: seq<Hashed>, h: DirHash, pick: DirEntry -> Option<u32>) {
    s == [] || ((pick(s[0].entry).Some? ==> s[0].hash == h) && PicksHash(s[1..], h, pick))
  }

  lemma {:induction false} PickEntries(leaf: seq<Hashed>, h: DirHash, pick: DirEntry -> Option<u32>)
    requires PicksHash(leaf, h, pick)
    ensures FirstPick(leaf, PickHashed(h, pick)) == FirstPick(EntriesOf(leaf), pick)
  {
    if leaf != [] { PickEntries(leaf[1..], h, pick); }
  }

  lemma {:induction false} PicksHashFlatten(leaves: seq<seq<Hashed>>, h: DirHash, pick: DirEntry -> Option<u32>, k: nat)
    requires PicksHash(Flatten(leaves), h, pick) && k < |leaves|
    ensures PicksHash(leaves[k], h, pick)
  {
    PicksHashSplit(leaves[0], Flatten(leaves[1..]), h, pick);
    if k > 0 { PicksHashFlatten(leaves[1..], h, pick, k - 1); }
  }

  lemma {:induction false} PicksHashSplit(a: seq<Hashed>, b: seq<Hashed>, h: DirHash, pick: DirEntry -> Option<u32>)
    requires PicksHash(a + b, h, pick)
    ensures PicksHash(a, h, pick) && PicksHash(b, h, pick)
  {
    if a == [] {
      assert a + b == b;
    } else {
      assert (a + b)[1..] == a[1..] + b;
      PicksHashSplit(a[1..], b, h, pick);
    }
  }

  lemma {:induction false} PicksHashFrom(s: seq<Hashed>, hash: Bytes -> DirHash, name: Bytes, leftOut: DirEntry -> bool)
    requires HashedFrom(s, hash)
    ensures PicksHash(s, hash(name), PickName(name, leftOut))
  {
    if s != [] {
      assert HashedFrom(s[1..], hash);
      PicksHashFrom(s[1..], hash, name, leftOut);
    }
  }

  /** A packed leaf read for a name answers with the first of its entries that is it. */
  lemma LeafLooked(es: seq<DirEntry>, blockSize: nat, tailLen: nat, name: Bytes, leftOut: DirEntry -> bool)
    requires es != [] && Sized(blockSize, tailLen) && Used(es) <= blockSize - tailLen && Named(es)
    ensures Seek(Packed(es, blockSize, tailLen), ReadSlot(blockSize), BadDirectory, PickSlot(name, leftOut)) ==
      Ok(FirstPick(es, PickName(name, leftOut)))
  {
    assert PickName(name, leftOut)(UNUSED).None?;
    SeekPacked(es, blockSize, tailLen, PickName(name, leftOut), PickSlot(name, leftOut));
  }

  /** The bytes of a list of blocks, as a reader has them. */
  function BytesOf(blocks: seq<DirBlock>): (bytes: seq<Bytes>)
    ensures |bytes| == |blocks|
    ensures forall i :: 0 <= i < |blocks| ==> bytes[i] == blocks[i].bytes
  {
    seq(|blocks|, i requires 0 <= i < |blocks| => blocks[i].bytes)
  }
}
