/** The promise of an indexed directory: of the entries after the dots that are in use and at no fault, a
    lookup through the index finds the first that has the name, exactly when there is one. */
module DirComplete {
  import opened Wrappers
  import opened Words
  import opened StableSort
  import opened DirRecord
  import opened Tiling
  import opened Filling
  import opened DirPack
  import opened DirReader
  import opened DirLinear
  import opened HtreeBlocks
  import opened Htree
  import opened HtreeIndex
  import opened HtreeLaws
  import opened DirLookup
  import opened DirFound
  import opened DirJudged
  import opened HtreeListing
  import HashIndex

  // ----- sorting keeps the first of each name -----

  lemma {:induction false} NotBeforeItself(name: Bytes)
    ensures !NameLess(name, name)
  {
    if name != [] { NotBeforeItself(name[1..]); }
  }

  /** An item that compares equal to every item with this name and hash. */
  function Like(h: DirHash, name: Bytes): Hashed {
    Hashed(h, DirEntry(0, Unknown, name))
  }

  /** What is picked by name and hash ties with the name's own key. */
  lemma {:induction false} PickTies(s: seq<Hashed>, h: DirHash, name: Bytes, leftOut: DirEntry -> bool)
    ensures var pick := PickHashed(h, PickName(name, leftOut));
      FirstPick(Ties(HashLess, s, Like(h, name)), pick) == FirstPick(s, pick)
  {
    if s != [] {
      var init, last, pick := s[..|s| - 1], s[|s| - 1], PickHashed(h, PickName(name, leftOut));
      PickTies(init, h, name, leftOut);
      NotBeforeItself(name);
      assert s == init + [last];
      FirstPickConcat(init, [last], pick);
      FirstPickConcat(Ties(HashLess, init, Like(h, name)), if pick(last).Some? then [last] else [], pick);
      FirstPickConcat(Ties(HashLess, init, Like(h, name)), [last], pick);
      PickOne(last, pick);
    }
  }

  lemma PickOne<T, U>(x: T, pick: T -> Option<U>)
    ensures FirstPick([x], pick) == pick(x)
  {
    assert [x][1..] == [];
  }

  lemma {:induction false} PickHashAll(es: seq<DirEntry>, hash: Bytes -> DirHash, name: Bytes,
                                       leftOut: DirEntry -> bool)
    ensures FirstPick(HashAll(es, hash), PickHashed(hash(name), PickName(name, leftOut))) ==
      FirstPick(es, PickName(name, leftOut))
  {
    if es != [] {
      PickHashAll(es[1..], hash, name, leftOut);
      assert HashAll(es, hash)[1..] == HashAll(es[1..], hash);
    }
  }

  /** The first of a name in hash order is the first of it in the order given. */
  lemma SortedPick(es: seq<DirEntry>, hash: Bytes -> DirHash, name: Bytes, leftOut: DirEntry -> bool)
    ensures FirstPick(SortByHash(es, hash), PickHashed(hash(name), PickName(name, leftOut))) ==
      FirstPick(es, PickName(name, leftOut))
  {
    var h := hash(name);
    HashOrder();
    SortStable(HashLess, HashAll(es, hash), Like(h, name));
    PickTies(SortByHash(es, hash), h, name, leftOut);
    PickTies(HashAll(es, hash), h, name, leftOut);
    PickHashAll(es, hash, name, leftOut);
  }

  // ----- the parts of a built directory, as a reader has them -----

  /** An index over leaves with these hashes, then a block for each leaf. */
  ghost predicate Indexes(d: HtreeDir, blocks: seq<DirBlock>, hashes: seq<u32>, blockSize: nat)
    requires d.Builds(blockSize)
  {
    var first := 1 + NodeCount(d, |hashes|, blockSize);
    && hashes != [] && |blocks| == first + |hashes|
    && Addressable(d, |hashes|, blockSize) && IsIndex(d, blocks[..first], hashes, blockSize)
  }

  /** Blocks of an index over leaves with these hashes, then the leaves. */
  ghost predicate Holds(d: HtreeDir, blocks: seq<DirBlock>, leaves: seq<seq<Hashed>>, hashes: seq<u32>, blockSize: nat)
    requires d.Builds(blockSize)
  {
    && |hashes| == |leaves| && Indexes(d, blocks, hashes, blockSize)
    && HoldsLeaves(blocks, 1 + NodeCount(d, |hashes|, blockSize), leaves, PackLeaf(blockSize, d.TailLen()))
  }

  /** From `first` on, leaves packed in turn. */
  ghost predicate HoldsLeaves(blocks: seq<DirBlock>, first: nat, leaves: seq<seq<Hashed>>,
                              pack: seq<Hashed> -> Result<DirBlock, DirError>) {
    first <= |blocks| && Packable(leaves, pack) && blocks[first..] == PackAll(leaves, pack)
  }

  lemma RootFound(d: HtreeDir, blocks: seq<DirBlock>, hashes: seq<u32>, blockSize: nat)
    requires d.Builds(blockSize) && Indexes(d, blocks, hashes, blockSize)
    ensures RootAt(BytesOf(blocks)) == Some((RootEntries(d, hashes, blockSize), Levels(d, |hashes|, blockSize) as nat))
  {
    assert BytesOf(blocks)[0] == blocks[..1 + NodeCount(d, |hashes|, blockSize)][0].bytes;
  }

  lemma NodesServe(bytes: seq<Bytes>, nodes: seq<DirBlock>, limit: nat, runs: seq<seq<DxEntry>>)
    requires AreNodes(nodes, limit, runs) && 1 + |runs| <= |bytes|
    requires forall i :: 0 <= i < |nodes| ==> bytes[1 + i] == nodes[i].bytes
    ensures forall i :: 0 <= i < |runs| ==> NodeAt(bytes)(1 + i) == Some(Implied(runs[i]))
  {
    forall i | 0 <= i < |runs| ensures NodeAt(bytes)(1 + i) == Some(Implied(runs[i])) {
      assert Reads(nodes[i], DX_NODE_COUNT_OFFSET, limit, Implied(runs[i]));
      assert BlockAt(bytes, 1 + i) == Some(nodes[i].bytes);
    }
  }

  lemma NodesFound(d: HtreeDir, blocks: seq<DirBlock>, hashes: seq<u32>, blockSize: nat)
    requires d.Builds(blockSize) && Indexes(d, blocks, hashes, blockSize)
    ensures Serves(NodeAt(BytesOf(blocks)), Runs(d, hashes, blockSize))
  {
    var runs, nodes := Runs(d, hashes, blockSize), blocks[..1 + NodeCount(d, |hashes|, blockSize)][1..];
    FewBlocks(d, |hashes|, blockSize);
    if runs != [] { RunsAre(LeafEntries(d, hashes, blockSize), d.NodeLimit(blockSize)); }
    NodesServe(BytesOf(blocks), nodes, d.NodeLimit(blockSize), runs);
  }

  /** The path to each leaf, whichever level names it. */
  function PathTo(d: HtreeDir, hashes: seq<u32>, blockSize: nat): nat -> Path
    requires d.Builds(blockSize)
  {
    (k: nat) =>
      if NodeCount(d, |hashes|, blockSize) == 0 then PathFlat(LeafEntries(d, hashes, blockSize), k)
      else if k < |Flatten(Runs(d, hashes, blockSize))| then PathNodes(Runs(d, hashes, blockSize), k)
      else []
  }

  lemma FlatLeads(node: NodeReader, hashes: seq<u32>, first: nat, pathAt: nat -> Path)
    requires first + |hashes| <= 0x1_0000_0000
    requires forall k: nat :: pathAt(k) == PathFlat(Flat(hashes, first), k)
    ensures Leads(node, pathAt, hashes, first)
  {
    var flat := Flat(hashes, first);
    forall k: nat | k < |hashes| ensures LeadsAt(node, pathAt, hashes, first, k) {
      AsU32Exact(first + k);
      NextFlat(node, flat, k);
    }
  }

  lemma NodesLeadAt(node: NodeReader, runs: seq<seq<DxEntry>>, hashes: seq<u32>, first: nat, pathAt: nat -> Path,
                    k: nat)
    requires k < |hashes| && first + |hashes| <= 0x1_0000_0000 && Serves(node, runs) &&
      Flatten(runs) == Flat(hashes, first)
    requires pathAt(k) == PathNodes(runs, k) && (k + 1 < |hashes| ==> pathAt(k + 1) == PathNodes(runs, k + 1))
    ensures LeadsAt(node, pathAt, hashes, first, k)
  {
    var (i, j) := HashIndex.Position(runs, k);
    AsU32Exact(first + k);
    assert runs[i][j] == Flat(hashes, first)[k];
    assert Implied(runs[i])[j].block == runs[i][j].block;
    NextNodes(node, runs, k);
  }

  lemma NodesLead(node: NodeReader, runs: seq<seq<DxEntry>>, hashes: seq<u32>, first: nat, pathAt: nat -> Path)
    requires first + |hashes| <= 0x1_0000_0000 && Serves(node, runs) && Flatten(runs) == Flat(hashes, first)
    requires forall k: nat :: k < |Flatten(runs)| ==> pathAt(k) == PathNodes(runs, k)
    ensures Leads(node, pathAt, hashes, first)
  {
    forall k: nat | k < |hashes| ensures LeadsAt(node, pathAt, hashes, first, k) {
      NodesLeadAt(node, runs, hashes, first, pathAt, k);
    }
  }

  /** A reader's paths lead to the leaves in order. */
  lemma PathsLead(d: HtreeDir, node: NodeReader, hashes: seq<u32>, blockSize: nat)
    requires d.Builds(blockSize) && Addressable(d, |hashes|, blockSize) && Serves(node, Runs(d, hashes, blockSize))
    ensures Leads(node, PathTo(d, hashes, blockSize), hashes, 1 + NodeCount(d, |hashes|, blockSize))
  {
    var first := 1 + NodeCount(d, |hashes|, blockSize);
    FewBlocks(d, |hashes|, blockSize);
    if first == 1 {
      FlatLeads(node, hashes, first, PathTo(d, hashes, blockSize));
    } else {
      RunsAre(LeafEntries(d, hashes, blockSize), d.NodeLimit(blockSize));
      NodesLead(node, Runs(d, hashes, blockSize), hashes, first, PathTo(d, hashes, blockSize));
    }
  }

  lemma FlatHashes(hashes: seq<u32>, first: nat)
    ensures Hashes(Flat(hashes, first)) == hashes
  {
  }

  /** A reader's descent lands where a search of all the leaf hashes does. */
  lemma DescentLands(d: HtreeDir, node: NodeReader, hashes: seq<u32>, blockSize: nat, major: u32)
    requires d.Builds(blockSize) && hashes != [] && Serves(node, Runs(d, hashes, blockSize)) && HashIndex.Rising(hashes)
    ensures RootEntries(d, hashes, blockSize) != []
    ensures Descend(node, RootEntries(d, hashes, blockSize), Levels(d, |hashes|, blockSize) as nat, major) ==
      Some(PathTo(d, hashes, blockSize)(HashIndex.Locate(hashes, major)))
  {
    var flat := LeafEntries(d, hashes, blockSize);
    FlatHashes(hashes, 1 + NodeCount(d, |hashes|, blockSize));
    if NodeCount(d, |hashes|, blockSize) > 0 {
      var runs := Runs(d, hashes, blockSize);
      RunsAre(flat, d.NodeLimit(blockSize));
      DescendNodes(node, runs, major);
    }
  }

  /** A packed leaf read for a name answers with the first item of it. */
  lemma LeafAnswers(leaf: seq<Hashed>, block: DirBlock, blockSize: nat, tailLen: nat, h: DirHash, name: Bytes,
                    leftOut: DirEntry -> bool)
    requires leaf != [] && Sized(blockSize, tailLen) && Used(EntriesOf(leaf)) <= blockSize - tailLen
    requires PackLeaf(blockSize, tailLen)(leaf) == Ok(block) && PicksHash(leaf, h, PickName(name, leftOut))
    ensures LookFound(Seek(block.bytes, ReadSlot(blockSize), BadDirectory, PickSlot(name, leftOut))) ==
      Ok(LookFor(FirstPick(leaf, PickHashed(h, PickName(name, leftOut)))))
  {
    var es := EntriesOf(leaf);
    assert es != [] && PackGroup(blockSize, tailLen)(es) == Ok(block.bytes);
    LeafLooked(es, blockSize, tailLen, name, leftOut);
    PickEntries(leaf, h, PickName(name, leftOut));
  }

  lemma LeavesAnswer(bytes: seq<Bytes>, first: nat, leaves: seq<seq<Hashed>>, blockSize: nat, tailLen: nat, h: DirHash,
                     name: Bytes, leftOut: DirEntry -> bool)
    requires Sized(blockSize, tailLen) && Packable(leaves, PackLeaf(blockSize, tailLen))
    requires |bytes| == first + |leaves| && |PackAll(leaves, PackLeaf(blockSize, tailLen))| == |leaves|
    requires forall k :: 0 <= k < |leaves| ==>
      bytes[first + k] == PackAll(leaves, PackLeaf(blockSize, tailLen))[k].bytes
    requires forall leaf <- leaves :: leaf != [] && Used(EntriesOf(leaf)) <= blockSize - tailLen
    requires PicksHash(Flatten(leaves), h, PickName(name, leftOut))
    ensures Looks(LookPast(bytes, blockSize, name, leftOut), leaves, first, PickHashed(h, PickName(name, leftOut)))
  {
    forall k: nat | k < |leaves|
      ensures LooksAt(LookPast(bytes, blockSize, name, leftOut), leaves, first,
                      PickHashed(h, PickName(name, leftOut)), k)
    {
      assert leaves[k] in leaves;
      PackAllAt(leaves, PackLeaf(blockSize, tailLen), k);
      PicksHashFlatten(leaves, h, PickName(name, leftOut), k);
      LeafAnswers(leaves[k], PackAll(leaves, PackLeaf(blockSize, tailLen))[k], blockSize, tailLen, h, name, leftOut);
      assert BlockAt(bytes, first + k) == Some(bytes[first + k]);
    }
  }

  /** The answer a lookup owes: the first entry of the name. */
  function Owed(x: Option<u32>): Indexed {
    if x.Some? then Found(x.value) else Absent
  }

  ghost predicate SearchReady(d: HtreeDir, leaves: seq<seq<Hashed>>, hashes: seq<u32>) {
    HashIndex.Records(hashes, leaves, Rank) && HashIndex.Rising(hashes) && HashedFrom(Flatten(leaves), d.hash)
  }

  lemma HeldLeads(d: HtreeDir, blocks: seq<DirBlock>, hashes: seq<u32>, blockSize: nat)
    requires d.Builds(blockSize) && Indexes(d, blocks, hashes, blockSize)
    ensures Leads(NodeAt(BytesOf(blocks)), PathTo(d, hashes, blockSize), hashes, 1 + NodeCount(d, |hashes|, blockSize))
  {
    NodesFound(d, blocks, hashes, blockSize);
    PathsLead(d, NodeAt(BytesOf(blocks)), hashes, blockSize);
  }

  lemma BlocksLook(blocks: seq<DirBlock>, first: nat, leaves: seq<seq<Hashed>>, hash: Bytes -> DirHash, blockSize: nat,
                   tailLen: nat, name: Bytes, leftOut: DirEntry -> bool)
    requires Sized(blockSize, tailLen) && HoldsLeaves(blocks, first, leaves, PackLeaf(blockSize, tailLen))
    requires |blocks| == first + |leaves| && HashedFrom(Flatten(leaves), hash)
    requires forall leaf <- leaves :: leaf != [] && Used(EntriesOf(leaf)) <= blockSize - tailLen
    ensures Looks(LookPast(BytesOf(blocks), blockSize, name, leftOut), leaves, first,
                  PickHashed(hash(name), PickName(name, leftOut)))
  {
    PicksHashFrom(Flatten(leaves), hash, name, leftOut);
    LeavesHeld(blocks, first, leaves, PackLeaf(blockSize, tailLen));
    LeavesAnswer(BytesOf(blocks), first, leaves, blockSize, tailLen, hash(name), name, leftOut);
  }

  lemma HeldLooks(d: HtreeDir, blocks: seq<DirBlock>, leaves: seq<seq<Hashed>>, hashes: seq<u32>, blockSize: nat,
                  name: Bytes, leftOut: DirEntry -> bool)
    requires d.Builds(blockSize) && Sized(blockSize, d.TailLen())
    requires Holds(d, blocks, leaves, hashes, blockSize) && SearchReady(d, leaves, hashes)
    requires forall leaf <- leaves :: leaf != [] && Used(EntriesOf(leaf)) <= blockSize - d.TailLen()
    ensures Looks(LookPast(BytesOf(blocks), blockSize, name, leftOut), leaves, 1 + NodeCount(d, |hashes|, blockSize),
                  PickHashed(d.hash(name), PickName(name, leftOut)))
  {
    BlocksLook(blocks, 1 + NodeCount(d, |hashes|, blockSize), leaves, d.hash, blockSize, d.TailLen(), name, leftOut);
  }

  /** What a lookup in blocks that hold recorded leaves needs of the way it reads them. */
  ghost predicate Answers(d: HtreeDir, look: LeafReader, leaves: seq<seq<Hashed>>, hashes: seq<u32>, blockSize: nat,
                          name: Bytes, leftOut: DirEntry -> bool)
    requires d.Builds(blockSize)
  {
    Looks(look, leaves, 1 + NodeCount(d, |hashes|, blockSize), PickHashed(d.hash(name), PickName(name, leftOut)))
  }

  /** A lookup is the loop from where the descent lands. */
  lemma FindStarts(d: HtreeDir, blocks: seq<DirBlock>, hashes: seq<u32>, blockSize: nat, hash: Bytes -> DirHash,
                   name: Bytes, look: LeafReader)
    requires d.Builds(blockSize) && Indexes(d, blocks, hashes, blockSize) && HashIndex.Rising(hashes)
    ensures var (bytes, major) := (BytesOf(blocks), hash(name).major);
      FindWith(bytes, hash, name, look) ==
        FindLoop(NodeAt(bytes), look, GoesOn(major), PathTo(d, hashes, blockSize)(HashIndex.Locate(hashes, major)),
                 |bytes|)
  {
    RootFound(d, blocks, hashes, blockSize);
    NodesFound(d, blocks, hashes, blockSize);
    DescentLands(d, NodeAt(BytesOf(blocks)), hashes, blockSize, hash(name).major);
  }

  /** A lookup is a loop along these paths. */
  ghost predicate Searches(bytes: seq<Bytes>, hash: Bytes -> DirHash, name: Bytes, look: LeafReader,
                           pathAt: nat -> Path, hashes: seq<u32>, first: nat, k: nat) {
    && k < |hashes| && Leads(NodeAt(bytes), pathAt, hashes, first)
    && FindWith(bytes, hash, name, look) == FindLoop(NodeAt(bytes), look, GoesOn(hash(name).major), pathAt(k), |bytes|)
  }

  lemma IndexSearches(d: HtreeDir, blocks: seq<DirBlock>, hashes: seq<u32>, blockSize: nat, hash: Bytes -> DirHash,
                      name: Bytes, look: LeafReader)
    requires d.Builds(blockSize) && Indexes(d, blocks, hashes, blockSize) && HashIndex.Rising(hashes)
    ensures Searches(BytesOf(blocks), hash, name, look, PathTo(d, hashes, blockSize), hashes,
                     1 + NodeCount(d, |hashes|, blockSize), HashIndex.Locate(hashes, hash(name).major))
  {
    FindStarts(d, blocks, hashes, blockSize, hash, name, look);
    HeldLeads(d, blocks, hashes, blockSize);
  }

  /** A lookup in blocks that hold recorded leaves answers with the first item of the name among them. */
  lemma HeldFound(d: HtreeDir, blocks: seq<DirBlock>, leaves: seq<seq<Hashed>>, hashes: seq<u32>, blockSize: nat,
                  name: Bytes, leftOut: DirEntry -> bool, look: LeafReader)
    requires d.Builds(blockSize) && Sized(blockSize, d.TailLen()) && Hasher(d.hash)
    requires Holds(d, blocks, leaves, hashes, blockSize) && SearchReady(d, leaves, hashes)
    requires Answers(d, look, leaves, hashes, blockSize, name, leftOut)
    ensures FindWith(BytesOf(blocks), d.hash, name, look) ==
      Ok(Owed(FirstPick(Flatten(leaves), PickHashed(d.hash(name), PickName(name, leftOut)))))
  {
    var bytes := BytesOf(blocks);
    IndexSearches(d, blocks, hashes, blockSize, d.hash, name, look);
    SearchAnswers(NodeAt(bytes), look, PathTo(d, hashes, blockSize), leaves, hashes,
                  1 + NodeCount(d, |hashes|, blockSize), d.hash(name), PickName(name, leftOut), |bytes|);
  }

  // ----- leaves with nothing at fault -----

  lemma LeafFaultless(leaves: seq<seq<Hashed>>, reader: Reader, k: nat)
    requires k < |leaves| && Faultless(EntriesOf(Flatten(leaves)), reader)
    ensures Faultless(EntriesOf(leaves[k]), reader)
  {
    forall e <- EntriesOf(leaves[k]) ensures e.inode == 0 || reader.Fault(e).None? {
      EntryWithin(leaves, k, e);
    }
  }

  lemma {:induction false} EntryWithin(leaves: seq<seq<Hashed>>, k: nat, e: DirEntry)
    requires k < |leaves| && e in EntriesOf(leaves[k])
    ensures e in EntriesOf(Flatten(leaves))
  {
    EntriesConcat(leaves[0], Flatten(leaves[1..]));
    if k > 0 { EntryWithin(leaves[1..], k - 1, e); }
  }

  /** A leaf with nothing at fault is read alike by either policy. */
  lemma LeafAlike(leaf: seq<Hashed>, block: DirBlock, blockSize: nat, tailLen: nat, name: Bytes, reader: Reader)
    requires leaf != [] && Sized(blockSize, tailLen) && Used(EntriesOf(leaf)) <= blockSize - tailLen
    requires PackLeaf(blockSize, tailLen)(leaf) == Ok(block) && Faultless(EntriesOf(leaf), reader)
    ensures LookOf(Seek(block.bytes, ReadSlot(blockSize), BadDirectory, JudgeNameSlot(name, reader))) ==
      LookFound(Seek(block.bytes, ReadSlot(blockSize), BadDirectory, PickSlot(name, LeftOut(reader))))
  {
    var es := EntriesOf(leaf);
    assert es != [] && PackGroup(blockSize, tailLen)(es) == Ok(block.bytes);
    LeafLooked(es, blockSize, tailLen, name, LeftOut(reader));
    FaultlessLooked(es, blockSize, tailLen, name, reader);
  }

  /** Leaves with nothing at fault are read alike by either policy, wherever they stand. */
  lemma LeavesAlike(bytes: seq<Bytes>, first: nat, leaves: seq<seq<Hashed>>, blockSize: nat, tailLen: nat,
                    name: Bytes, reader: Reader)
    requires Sized(blockSize, tailLen) && Packable(leaves, PackLeaf(blockSize, tailLen))
    requires |bytes| == first + |leaves| && |PackAll(leaves, PackLeaf(blockSize, tailLen))| == |leaves|
    requires forall k :: 0 <= k < |leaves| ==>
      bytes[first + k] == PackAll(leaves, PackLeaf(blockSize, tailLen))[k].bytes
    requires forall leaf <- leaves :: leaf != [] && Used(EntriesOf(leaf)) <= blockSize - tailLen
    requires Faultless(EntriesOf(Flatten(leaves)), reader)
    ensures forall b: nat :: first <= b < first + |leaves| ==>
      LookIn(bytes, blockSize, name, reader)(b) == LookPast(bytes, blockSize, name, LeftOut(reader))(b)
  {
    forall b: nat | first <= b < first + |leaves|
      ensures LookIn(bytes, blockSize, name, reader)(b) == LookPast(bytes, blockSize, name, LeftOut(reader))(b)
    {
      var k := b - first;
      assert leaves[k] in leaves && bytes[first + k] == bytes[b];
      LeafFaultless(leaves, reader, k);
      PackAllAt(leaves, PackLeaf(blockSize, tailLen), k);
      LeafAlike(leaves[k], PackAll(leaves, PackLeaf(blockSize, tailLen))[k], blockSize, tailLen, name, reader);
    }
  }

  lemma LooksAlike(look: LeafReader, past: LeafReader, leaves: seq<seq<Hashed>>, first: nat,
                   pick: Hashed -> Option<u32>)
    requires Looks(past, leaves, first, pick)
    requires forall b: nat :: first <= b < first + |leaves| ==> look(b) == past(b)
    ensures Looks(look, leaves, first, pick)
  {
    forall k: nat | k < |leaves| ensures LooksAt(look, leaves, first, pick, k) {
      assert LooksAt(past, leaves, first, pick, k);
    }
  }

  /** Blocks that hold leaves with nothing at fault answer either policy alike. */
  lemma HeldJudged(d: HtreeDir, blocks: seq<DirBlock>, leaves: seq<seq<Hashed>>, hashes: seq<u32>, blockSize: nat,
                   name: Bytes, reader: Reader)
    requires d.Builds(blockSize) && Sized(blockSize, d.TailLen())
    requires Holds(d, blocks, leaves, hashes, blockSize) && SearchReady(d, leaves, hashes)
    requires forall leaf <- leaves :: leaf != [] && Used(EntriesOf(leaf)) <= blockSize - d.TailLen()
    requires Faultless(EntriesOf(Flatten(leaves)), reader)
    ensures Answers(d, LookIn(BytesOf(blocks), blockSize, name, reader), leaves, hashes, blockSize, name,
                    LeftOut(reader))
  {
    var bytes, first := BytesOf(blocks), 1 + NodeCount(d, |hashes|, blockSize);
    var pick := PickHashed(d.hash(name), PickName(name, LeftOut(reader)));
    var look, past := LookIn(bytes, blockSize, name, reader), LookPast(bytes, blockSize, name, LeftOut(reader));
    HeldLooks(d, blocks, leaves, hashes, blockSize, name, LeftOut(reader));
    LeavesHeld(blocks, first, leaves, PackLeaf(blockSize, d.TailLen()));
    LeavesAlike(bytes, first, leaves, blockSize, d.TailLen(), name, reader);
    LooksAlike(look, past, leaves, first, pick);
  }

  /** From where the descent lands, the loop answers with the first item picked of all the leaves. */
  lemma SearchAnswers(node: NodeReader, look: LeafReader, pathAt: nat -> Path, leaves: seq<seq<Hashed>>,
                      hashes: seq<u32>,
                      first: nat, h: DirHash, pick: DirEntry -> Option<u32>, fuel: nat)
    requires HashIndex.Records(hashes, leaves, Rank) && hashes != [] && |leaves| <= fuel && h.major % 2 == 0
    requires Leads(node, pathAt, hashes, first) && Looks(look, leaves, first, PickHashed(h, pick))
    ensures FindLoop(node, look, GoesOn(h.major), pathAt(HashIndex.Locate(hashes, h.major)), fuel) ==
      Ok(Owed(FirstPick(Flatten(leaves), PickHashed(h, pick))))
  {
    Doubled(h.major);
    LoopIs(node, look, GoesOn(h.major), pathAt, leaves, hashes, first, PickHashed(h, pick),
           HashIndex.Locate(hashes, h.major), fuel);
    HashIndex.FindIs(leaves, hashes, Rank, h.major / 2, PickHashed(h, pick), GoesOn(h.major), fuel);
  }

  lemma LeavesHeld(blocks: seq<DirBlock>, first: nat, leaves: seq<seq<Hashed>>,
                   pack: seq<Hashed> -> Result<DirBlock, DirError>)
    requires HoldsLeaves(blocks, first, leaves, pack) && |blocks| == first + |leaves|
    ensures |PackAll(leaves, pack)| == |leaves|
    ensures forall k :: 0 <= k < |leaves| ==> BytesOf(blocks)[first + k] == PackAll(leaves, pack)[k].bytes
  {
    var all := PackAll(leaves, pack);
    forall k | 0 <= k < |leaves| ensures BytesOf(blocks)[first + k] == all[k].bytes {
      assert all[k] == blocks[first..][k] == blocks[first + k];
    }
  }

  // ----- what a build holds -----

  lemma BuiltReady(d: HtreeDir, es: seq<DirEntry>, usable: nat)
    requires Hasher(d.hash) && AllSmall(es, usable, Need)
    ensures var leaves := Leaves(es, usable, d.hash);
      Flatten(leaves) == SortByHash(es, d.hash) && SearchReady(d, leaves, LeafHashes(leaves))
  {
    var leaves := Leaves(es, usable, d.hash);
    LeavesRecorded(es, usable, d.hash);
    SortedMembers(es, d.hash);
    forall i, j | 0 <= i < j < |leaves| ensures LeafHashes(leaves)[i] <= LeafHashes(leaves)[j] {
      HashIndex.RecordsRise(LeafHashes(leaves), leaves, Rank, i, j);
    }
    HashIndex.RisingIs(LeafHashes(leaves));
  }

  lemma JoinedHolds(d: HtreeDir, index: seq<DirBlock>, leaves: seq<seq<Hashed>>, hashes: seq<u32>, blockSize: nat)
    requires d.Builds(blockSize) && |hashes| == |leaves| > 0 && Addressable(d, |hashes|, blockSize)
    requires IsIndex(d, index, hashes, blockSize) && Packable(leaves, PackLeaf(blockSize, d.TailLen()))
    ensures Holds(d, index + PackAll(leaves, PackLeaf(blockSize, d.TailLen())), leaves, hashes, blockSize)
  {
    var packed := PackAll(leaves, PackLeaf(blockSize, d.TailLen()));
    PackAllAt(leaves, PackLeaf(blockSize, d.TailLen()), 0);
    assert (index + packed)[..|index|] == index && (index + packed)[|index|..] == packed;
  }

  /** The blocks of a directory that was indexed hold its leaves under their index. */
  lemma BuiltHolds(d: HtreeDir, es: seq<DirEntry>, blockSize: nat)
    requires d.Builds(blockSize) && HasDots(es) && AllSmall(es[2..], blockSize - d.TailLen(), Need)
    requires IndexedSpec(d, es, blockSize).Ok?
    ensures var leaves := Leaves(es[2..], blockSize - d.TailLen(), d.hash);
      Holds(d, IndexedSpec(d, es, blockSize).value, leaves, LeafHashes(leaves), blockSize)
  {
    var leaves := Leaves(es[2..], blockSize - d.TailLen(), d.hash);
    IndexedParts(d, es, blockSize);
    IndexBuilt(d, es[0].inode, es[1].inode, LeafHashes(leaves), blockSize);
    JoinedHolds(d, IndexSpec(d, es[0].inode, es[1].inode, LeafHashes(leaves), blockSize).value, leaves,
                LeafHashes(leaves), blockSize);
  }

  lemma HeldPicks(d: HtreeDir, blocks: seq<DirBlock>, leaves: seq<seq<Hashed>>, hashes: seq<u32>, es: seq<DirEntry>,
                  blockSize: nat, name: Bytes, reader: Reader)
    requires d.Builds(blockSize) && Sized(blockSize, d.TailLen()) && Hasher(d.hash)
    requires Holds(d, blocks, leaves, hashes, blockSize) && SearchReady(d, leaves, hashes)
    requires forall leaf <- leaves :: leaf != [] && Used(EntriesOf(leaf)) <= blockSize - d.TailLen()
    requires Flatten(leaves) == SortByHash(es, d.hash)
    ensures FindWith(BytesOf(blocks), d.hash, name, LookPast(BytesOf(blocks), blockSize, name, LeftOut(reader))) ==
      Ok(Owed(FirstPick(es, PickName(name, LeftOut(reader)))))
  {
    SortedPick(es, d.hash, name, LeftOut(reader));
    HeldLooks(d, blocks, leaves, hashes, blockSize, name, LeftOut(reader));
    HeldFound(d, blocks, leaves, hashes, blockSize, name, LeftOut(reader),
              LookPast(BytesOf(blocks), blockSize, name, LeftOut(reader)));
  }

  lemma HeldPicksJudged(d: HtreeDir, blocks: seq<DirBlock>, leaves: seq<seq<Hashed>>, hashes: seq<u32>,
                        es: seq<DirEntry>, blockSize: nat, name: Bytes, reader: Reader)
    requires d.Builds(blockSize) && Sized(blockSize, d.TailLen()) && Hasher(d.hash)
    requires Holds(d, blocks, leaves, hashes, blockSize) && SearchReady(d, leaves, hashes)
    requires forall leaf <- leaves :: leaf != [] && Used(EntriesOf(leaf)) <= blockSize - d.TailLen()
    requires Flatten(leaves) == SortByHash(es, d.hash) && Faultless(es, reader)
    ensures FindWith(BytesOf(blocks), d.hash, name, LookIn(BytesOf(blocks), blockSize, name, reader)) ==
      Ok(Owed(FirstPick(es, PickName(name, LeftOut(reader)))))
  {
    SortedPick(es, d.hash, name, LeftOut(reader));
    SortedFaultless(es, d.hash, reader);
    HeldJudged(d, blocks, leaves, hashes, blockSize, name, reader);
    HeldFound(d, blocks, leaves, hashes, blockSize, name, LeftOut(reader),
              LookIn(BytesOf(blocks), blockSize, name, reader));
  }

  /** In the blocks of an indexed directory, a lookup with its hash that leaves entries out finds the first
      entry of the name; and so does one of either policy where nothing is at fault. */
  lemma IndexedFound(d: HtreeDir, es: seq<DirEntry>, blockSize: nat, name: Bytes, reader: Reader)
    requires d.Builds(blockSize) && Sized(blockSize, d.TailLen()) && Hasher(d.hash)
    requires HasDots(es) && AllSmall(es[2..], blockSize - d.TailLen(), Need) && IndexedSpec(d, es, blockSize).Ok?
    ensures var bytes := BytesOf(IndexedSpec(d, es, blockSize).value);
      var owed := Ok(Owed(FirstPick(es[2..], PickName(name, LeftOut(reader)))));
      && FindWith(bytes, d.hash, name, LookPast(bytes, blockSize, name, LeftOut(reader))) == owed
      && (Faultless(es[2..], reader) ==> FindWith(bytes, d.hash, name, LookIn(bytes, blockSize, name, reader)) == owed)
  {
    var leaves := Leaves(es[2..], blockSize - d.TailLen(), d.hash);
    var blocks := IndexedSpec(d, es, blockSize).value;
    BuiltHolds(d, es, blockSize);
    BuiltReady(d, es[2..], blockSize - d.TailLen());
    LeavesAre(es[2..], blockSize - d.TailLen(), d.hash);
    HeldPicks(d, blocks, leaves, LeafHashes(leaves), es[2..], blockSize, name, reader);
    if Faultless(es[2..], reader) {
      HeldPicksJudged(d, blocks, leaves, LeafHashes(leaves), es[2..], blockSize, name, reader);
    }
  }

  lemma SortedFaultless(es: seq<DirEntry>, hash: Bytes -> DirHash, reader: Reader)
    requires Faultless(es, reader)
    ensures Faultless(EntriesOf(SortByHash(es, hash)), reader)
  {
    HashOrderHoldsAll(es, hash);
    forall e <- EntriesOf(SortByHash(es, hash)) ensures e.inode == 0 || reader.Fault(e).None? {
      assert e in multiset(EntriesOf(SortByHash(es, hash))) && e in multiset(es);
    }
  }

  /** The reader computes hashes as the directory was built: its algorithm and its reading of bytes. */
  ghost predicate SameHash(d: HtreeDir, unsigned: bool, hashOf: NameHash) {
    d.version <= 2 && hashOf(d.version, unsigned) == d.hash
  }

  lemma HashNamed(d: HtreeDir, es: seq<DirEntry>, blockSize: nat, unsigned: bool, hashOf: NameHash)
    requires d.Builds(blockSize) && HasDots(es) && AllSmall(es[2..], blockSize - d.TailLen(), Need)
    requires IndexedSpec(d, es, blockSize).Ok? && SameHash(d, unsigned, hashOf)
    ensures HashAt(BytesOf(IndexedSpec(d, es, blockSize).value), unsigned, hashOf) == Some(d.hash)
  {
    var leaves := Leaves(es[2..], blockSize - d.TailLen(), d.hash);
    var blocks := IndexedSpec(d, es, blockSize).value;
    BuiltHolds(d, es, blockSize);
    RootNames(d, blocks, LeafHashes(leaves), blockSize);
  }

  lemma RootNames(d: HtreeDir, blocks: seq<DirBlock>, hashes: seq<u32>, blockSize: nat)
    requires d.Builds(blockSize) && Indexes(d, blocks, hashes, blockSize)
    ensures blocks != [] && ReadRootInfo(BytesOf(blocks)[0]) == Ok((d.version, Levels(d, |hashes|, blockSize)))
  {
    assert BytesOf(blocks)[0] == blocks[..1 + NodeCount(d, |hashes|, blockSize)][0].bytes;
  }

  /** Every directory that was built with an index: a lookup hashes with the algorithm its root records,
      finds the first entry in use that has the name and is at no fault, and answers that there is none
      exactly when there is none. It never falls back to reading every block, and errs only where the
      reader is strict, to refuse an entry at fault; with none at fault in the directory it never errs. */
  lemma StoredNamesFound(d: HtreeDir, es: seq<DirEntry>, blockSize: nat, unsigned: bool, hashOf: NameHash, name: Bytes,
                         reader: Reader)
    requires d.Builds(blockSize) && Sized(blockSize, d.TailLen()) && Hasher(d.hash) && SameHash(d, unsigned, hashOf)
    requires HtreeSpec(d, es, blockSize).Ok? && FitsSpec(es, blockSize - d.TailLen(), blockSize) == Ok(false)
    ensures |es| >= 2
    ensures var r := FindSpec(BytesOf(HtreeSpec(d, es, blockSize).value), blockSize, true, unsigned, hashOf, name,
                              reader);
      var owed := Ok(Owed(FirstPick(es[2..], PickName(name, LeftOut(reader)))));
      && Alike(owed, r, reader)
      && (Faultless(es[2..], reader) ==> r == owed)
  {
    RestSmall(es, blockSize - d.TailLen(), blockSize);
    HashNamed(d, es, blockSize, unsigned, hashOf);
    IndexedFound(d, es, blockSize, name, reader);
    FindAlike(BytesOf(HtreeSpec(d, es, blockSize).value), blockSize, d.hash, name, reader);
  }
}
