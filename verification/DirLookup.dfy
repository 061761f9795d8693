/** Looking a name up through a directory's hash index, as a reader of the blocks does it. */
module DirLookup {
  import opened Wrappers
  import opened Words
  import opened DirRecord
  import opened Tiling
  import opened DirPack
  import opened DirReader
  import opened HtreeBlocks
  import opened Htree
  import HashIndex

  datatype Indexed = Found(inode: u32) | Absent | Unusable

  /** The entries of each level, and the one followed. */
  type Path = seq<(seq<DxEntry>, nat)>

  ghost predicate ValidPath(path: Path) {
    forall i :: 0 <= i < |path| ==> path[i].1 < |path[i].0|
  }

  /** The entries of the node at a block, if there is a node there. */
  type NodeReader = nat -> Option<seq<DxEntry>>

  // ----- the descent -----

  /** At each level the last entry at or below `major`; `None` where a level is not an index node. */
  function Descend(node: NodeReader, entries: seq<DxEntry>, levels: nat, major: u32): Option<Path>
    requires entries != []
    decreases levels
  {
    var at := HashIndex.Locate(Hashes(entries), major);
    if levels == 0 then Some([(entries, at)])
    else
      var below := node(entries[at].block);
      if below.None? || below.value == [] then None
      else
        var rest := Descend(node, below.value, levels - 1, major);
        if rest.None? then None else Some([(entries, at)] + rest.value)
  }

  /** The descent as a loop over the levels. */
  method DescendFrom(node: NodeReader, root: seq<DxEntry>, levels: nat, major: u32) returns (r: Option<Path>)
    requires root != []
    ensures r == Descend(node, root, levels, major)
  {
    var path: Path := [];
    var entries, level := root, 0;
    while level < levels
      invariant 0 <= level <= levels && entries != []
      invariant Descend(node, root, levels, major) == After(path, Descend(node, entries, levels - level, major))
    {
      var at := HashIndex.Locate(Hashes(entries), major);
      var below := node(entries[at].block);
      if below.None? || below.value == [] { return None; }
      ghost var rest := Descend(node, below.value, levels - level - 1, major);
      assert rest.Some? ==> path + ([(entries, at)] + rest.value) == path + [(entries, at)] + rest.value;
      path := path + [(entries, at)];
      entries := below.value;
      level := level + 1;
    }
    return Some(path + [(entries, HashIndex.Locate(Hashes(entries), major))]);
  }

  function After(path: Path, rest: Option<Path>): (r: Option<Path>)
    ensures path == [] ==> r == rest
  {
    if rest.None? then None
    else
      assert path == [] ==> path + rest.value == rest.value;
      Some(path + rest.value)
  }

  // ----- the next leaf -----

  datatype Step = Leaf(path: Path, hash: u32) | End | Lost

  /** The first entry of every level below an entry. */
  function FirstBelow(node: NodeReader, block: nat, depth: nat): Option<Path>
    decreases depth
  {
    if depth == 0 then Some([])
    else
      var entries := node(block);
      if entries.None? || entries.value == [] then None
      else
        var rest := FirstBelow(node, entries.value[0].block, depth - 1);
        if rest.None? then None else Some([(entries.value, 0)] + rest.value)
  }

  /** A path moved to the leaf after its own, with the hash recorded for that leaf. */
  function NextLeaf(node: NodeReader, path: Path): Step {
    if path == [] then End
    else
      var deeper := NextLeaf(node, path[1..]);
      if deeper.Leaf? then Leaf([path[0]] + deeper.path, deeper.hash)
      else if deeper.Lost? then Lost
      else
        var (entries, at) := path[0];
        if at + 1 < |entries| then
          var below := FirstBelow(node, entries[at + 1].block, |path| - 1);
          if below.None? then Lost else Leaf([(entries, at + 1)] + below.value, entries[at + 1].hash)
        else End
  }

  // ----- the search -----

  /** What reading a leaf for a name comes to. */
  datatype Look = Missing | Hit(inode: u32) | Miss

  type LeafReader = nat -> Result<Look, ReadError>

  /** Read the leaf a path leads to, then leaves after it for as long as their hashes say to. */
  function FindLoop(node: NodeReader, look: LeafReader, goesOn: nat -> bool, path: Path, fuel: nat)
    : Result<Indexed, ReadError>
    decreases fuel
  {
    if fuel == 0 || path == [] || path[|path| - 1].1 >= |path[|path| - 1].0| then Ok(Unusable)
    else
      var (entries, at) := path[|path| - 1];
      var found := look(entries[at].block);
      if found.Err? then Err(found.error)
      else match found.value
        case Missing => Ok(Unusable)
        case Hit(inode) => Ok(Found(inode))
        case Miss =>
          var next := NextLeaf(node, path);
          match next
          case End => Ok(Absent)
          case Lost => Ok(Unusable)
          case Leaf(path', hash) => if goesOn(hash) then FindLoop(node, look, goesOn, path', fuel - 1) else Ok(Absent)
  }

  method FindFrom(node: NodeReader, look: LeafReader, goesOn: nat -> bool, start: Path, bound: nat)
    returns (r: Result<Indexed, ReadError>)
    requires start != [] && ValidPath(start)
    ensures r == FindLoop(node, look, goesOn, start, bound)
  {
    var path: Path := start;
    var i := 0;
    while i < bound
      invariant 0 <= i <= bound
      invariant FindLoop(node, look, goesOn, start, bound) == FindLoop(node, look, goesOn, path, bound - i)
    {
      if path == [] || path[|path| - 1].1 >= |path[|path| - 1].0| { return Ok(Unusable); }
      var (entries, at) := path[|path| - 1];
      var found := look(entries[at].block);
      if found.Err? { return Err(found.error); }
      if found.value.Missing? { return Ok(Unusable); }
      if found.value.Hit? { return Ok(Found(found.value.inode)); }
      var next := NextLeaf(node, path);
      if next.End? { return Ok(Absent); }
      if next.Lost? { return Ok(Unusable); }
      if !goesOn(next.hash) { return Ok(Absent); }
      path := next.path;
      i := i + 1;
    }
    return Ok(Unusable);
  }

  // ----- the hashes that go on -----

  /** The hash a name has where a writer leaves the end of the space where it fell. */
  function UnmovedMajor(major: u32): Option<u32> {
    if major == END_OF_SPACE - 2 then Some(END_OF_SPACE) else None
  }

  /** The next leaf continues this hash, or begins at what the hash would be unmoved. */
  function GoesOn(major: u32): nat -> bool {
    (next: nat) => next == Marked(major) || (UnmovedMajor(major).Some? && next - next % 2 == UnmovedMajor(major).value)
  }

  // ----- reading the blocks -----

  function BlockAt(blocks: seq<Bytes>, logical: nat): Option<Bytes> {
    if logical < |blocks| then Some(blocks[logical]) else None
  }

  function NodeAt(blocks: seq<Bytes>): NodeReader {
    (logical: nat) =>
      var block := BlockAt(blocks, logical);
      if block.None? then None
      else
        var entries := ReadDxEntries(block.value, DX_NODE_COUNT_OFFSET);
        if entries.Err? then None else Some(entries.value)
  }

  /** What a reader looking for a name makes of an entry: found, refused, or passed by. */
  function JudgeName(name: Bytes, reader: Reader): DirEntry -> Option<Result<u32, ReadError>> {
    (e: DirEntry) =>
      var judged := Judge(reader)(e);
      if judged.None? then None
      else if judged.value.Err? then Some(Err(judged.value.error))
      else if e.name == name then Some(Ok(e.inode))
      else None
  }

  function JudgeNameSlot(name: Bytes, reader: Reader): ((DirEntry, nat)) -> Option<Result<u32, ReadError>> {
    (slot: (DirEntry, nat)) => JudgeName(name, reader)(slot.0)
  }

  function LookIn(blocks: seq<Bytes>, blockSize: nat, name: Bytes, reader: Reader): LeafReader {
    (logical: nat) =>
      var block := BlockAt(blocks, logical);
      if block.None? then Ok(Missing)
      else LookOf(Seek(block.value, ReadSlot(blockSize), BadDirectory, JudgeNameSlot(name, reader)))
  }

  function LookOf(r: Result<Option<Result<u32, ReadError>>, ReadError>): Result<Look, ReadError> {
    if r.Err? then Err(r.error)
    else if r.value.None? then Ok(Miss)
    else if r.value.value.Err? then Err(r.value.value.error)
    else Ok(Hit(r.value.value.value))
  }

  const DX_MAX_INDIRECT_LEVELS := 1

  /** The root's entries and depth, if this reader can follow them. */
  function RootAt(blocks: seq<Bytes>): Option<(seq<DxEntry>, nat)> {
    if blocks == [] || ReadRootInfo(blocks[0]).Err? then None
    else
      var levels := ReadRootInfo(blocks[0]).value.1;
      var entries := ReadDxEntries(blocks[0], DX_ROOT_COUNT_OFFSET);
      if levels as nat > DX_MAX_INDIRECT_LEVELS || entries.Err? then None else Some((entries.value, levels))
  }

  /** The name hash of an algorithm, of bytes read as unsigned or as signed. */
  type NameHash = (u8, bool) -> (Bytes -> DirHash)

  /** The hash a root's code names: for the three algorithms the superblock says how bytes read, and the
      three codes past them are the same three with bytes unsigned. */
  function HashFor(code: u8, unsigned: bool, hashOf: NameHash): Option<Bytes -> DirHash> {
    if code <= 2 then Some(hashOf(code, unsigned))
    else if code <= 5 then Some(hashOf(code - 3, true))
    else None
  }

  function HashAt(blocks: seq<Bytes>, unsigned: bool, hashOf: NameHash): Option<Bytes -> DirHash> {
    if blocks == [] || ReadRootInfo(blocks[0]).Err? then None
    else HashFor(ReadRootInfo(blocks[0]).value.0, unsigned, hashOf)
  }

  /** The lookup with the hash the root names, where the inode and the filesystem say there is an index. */
  function FindSpec(blocks: seq<Bytes>, blockSize: nat, indexed: bool, unsigned: bool, hashOf: NameHash, name: Bytes,
                    reader: Reader): Result<Indexed, ReadError>
  {
    var hash := HashAt(blocks, unsigned, hashOf);
    if !indexed || hash.None? then Ok(Unusable)
    else FindWith(blocks, hash.value, name, LookIn(blocks, blockSize, name, reader))
  }

  function FindWith(blocks: seq<Bytes>, hash: Bytes -> DirHash, name: Bytes, look: LeafReader)
    : Result<Indexed, ReadError>
  {
    var root := RootAt(blocks);
    if root.None? then Ok(Unusable)
    else
      var major := hash(name).major;
      var path := Descend(NodeAt(blocks), root.value.0, root.value.1, major);
      if path.None? then Ok(Unusable)
      else FindLoop(NodeAt(blocks), look, GoesOn(major), path.value, |blocks|)
  }

  lemma {:induction false} DescendValid(node: NodeReader, entries: seq<DxEntry>, levels: nat, major: u32)
    requires entries != [] && Descend(node, entries, levels, major).Some?
    ensures var path := Descend(node, entries, levels, major).value; path != [] && ValidPath(path)
    decreases levels
  {
    if levels > 0 {
      DescendValid(node, node(entries[HashIndex.Locate(Hashes(entries), major)].block).value, levels - 1, major);
    }
  }

  /** Find a name through the index. */
  method FindIndexed(blocks: seq<Bytes>, blockSize: nat, indexed: bool, unsigned: bool, hashOf: NameHash, name: Bytes,
                     reader: Reader) returns (r: Result<Indexed, ReadError>)
    ensures r == FindSpec(blocks, blockSize, indexed, unsigned, hashOf, name, reader)
  {
    if !indexed { return Ok(Unusable); }
    var hash := HashAt(blocks, unsigned, hashOf);
    if hash.None? { return Ok(Unusable); }
    var root := RootAt(blocks);
    if root.None? { return Ok(Unusable); }
    var major := hash.value(name).major;
    var path := DescendFrom(NodeAt(blocks), root.value.0, root.value.1, major);
    if path.None? { return Ok(Unusable); }
    DescendValid(NodeAt(blocks), root.value.0, root.value.1, major);
    r := FindFrom(NodeAt(blocks), LookIn(blocks, blockSize, name, reader), GoesOn(major), path.value, |blocks|);
  }
}
