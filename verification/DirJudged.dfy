/** Looking a name up as a reader of either policy does: what a strict one refuses, a lenient one leaves out,
    and otherwise they answer alike. */
module DirJudged {
  import opened Wrappers
  import opened Words
  import opened DirRecord
  import opened Tiling
  import opened DirPack
  import opened DirReader
  import opened Htree
  import opened DirLookup
  import opened DirFound

  function LeftOut(reader: Reader): DirEntry -> bool {
    (e: DirEntry) => reader.Fault(e).Some?
  }

  /** An answer refused for an entry at fault. */
  predicate Refused<T>(r: Result<T, ReadError>) {
    r.Err? && (r.error.HostileName? || r.error.NoSuchInode?)
  }

  /** The same answer, or a strict reader's refusal. */
  predicate Alike<T(==)>(r: Result<T, ReadError>, judged: Result<T, ReadError>, reader: Reader) {
    judged == r || (reader.strict && Refused(judged))
  }

  lemma JudgedAlike(e: DirEntry, name: Bytes, reader: Reader)
    ensures var judged, picked := JudgeName(name, reader)(e), PickName(name, LeftOut(reader))(e);
      if judged.Some? && judged.value.Err? then
        reader.strict && e.inode != 0 && reader.Fault(e) == Some(judged.value.error) && Refused(judged.value)
      else (judged.None? <==> picked.None?) && (judged.Some? ==> judged.value == Ok(picked.value))
  {
    var entry := Judge(reader)(e);
    assert LeftOut(reader)(e) <==> reader.Fault(e).Some?;
    assert entry.None? <==> e.inode == 0 || (reader.Fault(e).Some? && !reader.strict);
  }

  /** One block, read for a name. */
  lemma {:induction false} SeekAlike(buf: Bytes, blockSize: nat, name: Bytes, reader: Reader)
    ensures Alike(LookFound(Seek(buf, ReadSlot(blockSize), BadDirectory, PickSlot(name, LeftOut(reader)))),
                  LookOf(Seek(buf, ReadSlot(blockSize), BadDirectory, JudgeNameSlot(name, reader))), reader)
    decreases |buf|
  {
    var first := ReadSlot(blockSize)(buf);
    if buf != [] && first.Ok? && 0 < first.value.1 <= |buf| {
      JudgedAlike(first.value.0, name, reader);
      SeekAlike(buf[first.value.1..], blockSize, name, reader);
    }
  }

  /** The search from a path. */
  lemma {:induction false} LoopAlike(node: NodeReader, look: LeafReader, judged: LeafReader, goesOn: nat -> bool,
                                     path: Path, fuel: nat, reader: Reader)
    requires forall block :: Alike(look(block), judged(block), reader)
    ensures Alike(FindLoop(node, look, goesOn, path, fuel), FindLoop(node, judged, goesOn, path, fuel), reader)
    decreases fuel
  {
    if fuel > 0 && path != [] && path[|path| - 1].1 < |path[|path| - 1].0| {
      var (entries, at) := path[|path| - 1];
      assert Alike(look(entries[at].block), judged(entries[at].block), reader);
      var next := NextLeaf(node, path);
      if next.Leaf? { LoopAlike(node, look, judged, goesOn, next.path, fuel - 1, reader); }
    }
  }

  /** The whole lookup. */
  lemma FindAlike(blocks: seq<Bytes>, blockSize: nat, hash: Bytes -> DirHash, name: Bytes, reader: Reader)
    ensures Alike(FindWith(blocks, hash, name, LookPast(blocks, blockSize, name, LeftOut(reader))),
                  FindWith(blocks, hash, name, LookIn(blocks, blockSize, name, reader)), reader)
  {
    var look, judged := LookPast(blocks, blockSize, name, LeftOut(reader)), LookIn(blocks, blockSize, name, reader);
    forall block: nat ensures Alike(look(block), judged(block), reader) {
      if block < |blocks| { SeekAlike(blocks[block], blockSize, name, reader); }
    }
    var root := RootAt(blocks);
    if root.Some? {
      var path := Descend(NodeAt(blocks), root.value.0, root.value.1, hash(name).major);
      if path.Some? {
        LoopAlike(NodeAt(blocks), look, judged, GoesOn(hash(name).major), path.value, |blocks|, reader);
      }
    }
  }

  // ----- where nothing is at fault -----

  /** No entry in use is at fault. */
  ghost predicate Faultless(es: seq<DirEntry>, reader: Reader) {
    forall e <- es :: e.inode == 0 || reader.Fault(e).None?
  }

  function Accepted(x: Option<u32>): Option<Result<u32, ReadError>> {
    if x.None? then None else Some(Ok(x.value))
  }

  lemma {:induction false} FaultlessPick(es: seq<DirEntry>, name: Bytes, reader: Reader)
    requires Faultless(es, reader)
    ensures FirstPick(es, JudgeName(name, reader)) == Accepted(FirstPick(es, PickName(name, LeftOut(reader))))
  {
    if es != [] {
      assert es[0] in es;
      JudgedAlike(es[0], name, reader);
      forall x <- es[1..] ensures x.inode == 0 || reader.Fault(x).None? { assert x in es; }
      FaultlessPick(es[1..], name, reader);
    }
  }

  /** A packed leaf with nothing at fault, read for a name. */
  lemma FaultlessLooked(es: seq<DirEntry>, blockSize: nat, tailLen: nat, name: Bytes, reader: Reader)
    requires es != [] && Sized(blockSize, tailLen) && Used(es) <= blockSize - tailLen && Named(es) &&
      Faultless(es, reader)
    ensures LookOf(Seek(Packed(es, blockSize, tailLen), ReadSlot(blockSize), BadDirectory,
                        JudgeNameSlot(name, reader))) ==
      Ok(LookFor(FirstPick(es, PickName(name, LeftOut(reader)))))
  {
    FaultlessPick(es, name, reader);
    var judged := Judge(reader)(UNUSED);
    assert UNUSED.inode == 0 && judged.None? && JudgeName(name, reader)(UNUSED).None?;
    SeekPacked(es, blockSize, tailLen, JudgeName(name, reader), JudgeNameSlot(name, reader));
  }
}
