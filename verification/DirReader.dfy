/** Reading a directory's blocks: which entries a reader lists, which it leaves out, and which it refuses. */
module DirReader {
  import opened Wrappers
  import opened Words
  import opened DirRecord
  import opened Tiling
  import opened DirPack

  const SLASH: u8 := 0x2f

  /** A name no directory could hold. */
  predicate Hostile(name: Bytes) {
    name == [] || SLASH in name || 0 in name
  }

  /** How many inodes there are, and whether an entry at fault is refused or left out. */
  datatype Reader = Reader(inodes: u32, strict: bool) {
    function Fault(e: DirEntry): Option<ReadError> {
      if Hostile(e.name) then Some(HostileName(e.inode))
      else if e.inode > inodes then Some(NoSuchInode(e.inode))
      else None
    }
  }

  /** What a reader makes of an entry: an inode of zero marks an unused slot. */
  function Judge(reader: Reader): DirEntry -> Option<Result<DirEntry, ReadError>> {
    (e: DirEntry) =>
      if e.inode == 0 then None
      else if reader.Fault(e).None? then Some(Ok(e))
      else if reader.strict then Some(Err(reader.Fault(e).value))
      else None
  }

  function JudgeSlot(reader: Reader): ((DirEntry, nat)) -> Option<Result<DirEntry, ReadError>> {
    (slot: (DirEntry, nat)) => Judge(reader)(slot.0)
  }

  /** What a reader lists of entries in this order. */
  function Listed(es: seq<DirEntry>, reader: Reader): Result<seq<DirEntry>, ReadError> {
    Sift(es, Judge(reader))
  }

  // ----- what a listing is -----

  /** The entries in use that are at no fault, in order. */
  function Shown(es: seq<DirEntry>, reader: Reader): seq<DirEntry> {
    if es == [] then []
    else (if es[0].inode != 0 && reader.Fault(es[0]).None? then [es[0]] else []) + Shown(es[1..], reader)
  }

  /** The fault of an entry in use. */
  function FaultInUse(reader: Reader): DirEntry -> Option<ReadError> {
    (e: DirEntry) => if e.inode == 0 then None else reader.Fault(e)
  }

  /** A reader lists exactly the entries in use that are at no fault, in order; and a strict one lists
      nothing where there is a fault, but answers the first. */
  lemma {:induction false} ListedIs(es: seq<DirEntry>, reader: Reader)
    ensures var fault := FirstPick(es, FaultInUse(reader));
      Listed(es, reader) == if reader.strict && fault.Some? then Err(fault.value) else Ok(Shown(es, reader))
  {
    if es != [] { ListedIs(es[1..], reader); }
  }

  lemma ListedConcat(a: seq<DirEntry>, b: seq<DirEntry>, reader: Reader)
    ensures Listed(a + b, reader) == Joined(Listed(a, reader), Listed(b, reader))
  {
    SiftConcat(a, b, Judge(reader));
  }

  // ----- reading a block -----

  /** What the walk of one block lists. */
  function ListBlock(blockSize: nat, reader: Reader): Bytes -> Result<seq<DirEntry>, ReadError> {
    (block: Bytes) => ListFrom(block, ReadSlot(blockSize), BadDirectory, JudgeSlot(reader))
  }

  lemma ListStep(rest: Bytes, blockSize: nat, reader: Reader, e: DirEntry, recLen: nat)
    requires ReadFrom(rest, blockSize) == Ok((e, recLen)) && 0 < recLen <= |rest|
    ensures ListBlock(blockSize, reader)(rest) ==
      Joined(Verdict(Judge(reader)(e)), ListBlock(blockSize, reader)(rest[recLen..]))
  {
  }

  /** What has been listed, once the next entry is judged. */
  lemma Judged(entries: seq<DirEntry>, e: DirEntry, reader: Reader, after: Result<seq<DirEntry>, ReadError>)
    ensures var all := Joined(Ok(entries), Joined(Verdict(Judge(reader)(e)), after));
      if e.inode == 0 || (reader.Fault(e).Some? && !reader.strict) then all == Joined(Ok(entries), after)
      else if reader.Fault(e).Some? then all == Err(reader.Fault(e).value)
      else all == Joined(Ok(entries + [e]), after)
  {
    var listed: Result<seq<DirEntry>, ReadError> := Ok(entries);
    JoinedTwice(listed, Verdict(Judge(reader)(e)), after);
    JoinedNothing(listed);
  }

  /** The walk as it runs: each record in turn, what it holds listed, left out or refused. */
  method ReadBlock(block: Bytes, blockSize: nat, reader: Reader) returns (r: Result<seq<DirEntry>, ReadError>)
    ensures r == ListBlock(blockSize, reader)(block)
  {
    ghost var list := ListBlock(blockSize, reader);
    var entries: seq<DirEntry> := [];
    var off := 0;
    assert block[0..] == block;
    JoinedNothing(list(block));
    while off < |block|
      invariant 0 <= off <= |block| && list == ListBlock(blockSize, reader)
      invariant list(block) == Joined(Ok(entries), list(block[off..]))
    {
      ghost var rest := block[off..];
      var first := ReadFrom(block[off..], blockSize);
      if first.Err? { return Err(Unreadable(first.error)); }
      var (e, recLen) := first.value;
      if recLen == 0 { return Err(BadDirectory); }
      ListStep(rest, blockSize, reader, e, recLen);
      Judged(entries, e, reader, list(rest[recLen..]));
      assert rest[recLen..] == block[off + recLen..];
      if e.inode != 0 {
        var fault := reader.Fault(e);
        if fault.Some? {
          if reader.strict { return Err(fault.value); }
        } else {
          entries := entries + [e];
        }
      }
      off := off + recLen;
    }
    JoinedNothing<DirEntry, ReadError>(Ok(entries));
    return Ok(entries);
  }

  /** What a reader lists from a packed block is what it makes of the block's entries, in order. */
  lemma PackedListed(es: seq<DirEntry>, blockSize: nat, tailLen: nat, reader: Reader)
    requires es != [] && Sized(blockSize, tailLen) && Used(es) <= blockSize - tailLen && Named(es)
    ensures ListBlock(blockSize, reader)(Packed(es, blockSize, tailLen)) == Listed(es, reader)
  {
    var slots, judge := Slots(es, blockSize - tailLen, Need), JudgeSlot(reader);
    WalkPacked(es, blockSize, tailLen);
    ListWalk(Packed(es, blockSize, tailLen), ReadSlot(blockSize), BadDirectory, judge);
    SiftConcat(slots, TailSlot(tailLen), judge);
    SiftSlots(es, blockSize - tailLen, Need, Judge(reader), judge);
    TailUnlisted(tailLen, reader);
    JoinedNothing(Listed(es, reader));
  }

  lemma TailUnlisted(tailLen: nat, reader: Reader)
    ensures Sift(TailSlot(tailLen), JudgeSlot(reader)) == Ok([])
  {
    if tailLen != 0 {
      var slot: (DirEntry, nat) := (UNUSED, DIR_TAIL_LEN);
      assert TailSlot(tailLen) == [slot] && [slot][1..] == [];
      assert slot.0 == UNUSED && slot.0.inode == 0 && Judge(reader)(slot.0).None?;
      JoinedNothing(Verdict(JudgeSlot(reader)(slot)));
    }
  }
}
