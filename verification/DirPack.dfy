/** Entries packed into one directory block in place, and the walk that reads a block back. */
module DirPack {
  import opened Wrappers
  import opened Words
  import opened DirRecord
  import opened Tiling

  function Need(e: DirEntry): nat {
    MinRecLen(|e.name|)
  }

  function Used(es: seq<DirEntry>): nat {
    Total(es, Need)
  }

  predicate Named(es: seq<DirEntry>) {
    es == [] || (|es[0].name| <= NAME_MAX && Named(es[1..]))
  }

  // ----- the bytes of a block -----

  /** A record, or zeros where there is no such record. */
  function RecordOf(blockSize: nat): (DirEntry, nat) -> Bytes {
    (e: DirEntry, n: nat) => if Fits(e, n) then Record(e, n, blockSize) else Zeros(n)
  }

  function Closing(tailLen: nat): (b: Bytes)
    requires tailLen == 0 || DIR_TAIL_LEN <= tailLen
    ensures |b| == tailLen
  {
    if tailLen == 0 then [] else Tail(0) + Zeros(tailLen - DIR_TAIL_LEN)
  }

  /** The fault of the first name no record can hold. */
  function LongName(es: seq<DirEntry>): (fault: Option<ParseError>)
    ensures fault.None? <==> Named(es)
  {
    if es == [] then None
    else if |es[0].name| > NAME_MAX then Some(InvalidField(NameLen, |es[0].name|))
    else LongName(es[1..])
  }

  lemma {:induction false} LongNameSnoc(es: seq<DirEntry>, e: DirEntry)
    ensures LongName(es + [e]) ==
      if LongName(es).Some? then LongName(es)
      else if |e.name| > NAME_MAX then Some(InvalidField(NameLen, |e.name|)) else None
  {
    var all := es + [e];
    if es == [] {
      assert all == [e] && all[1..] == [];
    } else {
      assert all[1..] == es[1..] + [e];
      LongNameSnoc(es[1..], e);
    }
  }

  lemma {:induction false} LongNameFirst(a: seq<DirEntry>, b: seq<DirEntry>)
    ensures LongName(a + b) == if LongName(a).Some? then LongName(a) else LongName(b)
  {
    if a == [] {
      assert a + b == b;
    } else {
      assert (a + b)[1..] == a[1..] + b;
      LongNameFirst(a[1..], b);
    }
  }

  lemma NamedRecord(e: DirEntry, n: nat, blockSize: nat)
    requires Fits(e, n)
    ensures RecordOf(blockSize)(e, n) == Record(e, n, blockSize)
  {
  }

  lemma RecordLengths(es: seq<DirEntry>, blockSize: nat)
    ensures Writes(es, Need, RecordOf(blockSize))
  {
  }

  /** A packed block's bytes: the entries tiled over the usable area, then the tail. */
  function Packed(es: seq<DirEntry>, blockSize: nat, tailLen: nat): (b: Bytes)
    requires es != [] && tailLen <= blockSize && Used(es) <= blockSize - tailLen
    requires tailLen == 0 || DIR_TAIL_LEN <= tailLen
    ensures |b| == blockSize
  {
    RecordLengths(es, blockSize);
    TiledLength(es, blockSize - tailLen, Need, RecordOf(blockSize));
    Tiled(es, blockSize - tailLen, Need, RecordOf(blockSize)) + Closing(tailLen)
  }

  function PackSpec(es: seq<DirEntry>, blockSize: nat, tailLen: nat): (r: Result<Bytes, ParseError>)
    requires es != [] && tailLen <= blockSize && Used(es) <= blockSize - tailLen
    ensures r.Ok? ==> |r.value| == blockSize
  {
    if LongName(es).Some? then Err(LongName(es).value)
    else if 0 < tailLen < DIR_TAIL_LEN then Err(TooShort(DIR_TAIL_LEN, tailLen))
    else Ok(Packed(es, blockSize, tailLen))
  }

  /** Bytes written over the first of what follows. */
  lemma OverBytes(before: Bytes, off: nat, was: Bytes, now: Bytes, after: Bytes, all: Bytes)
    requires |before| == off && |was| == |now| && all == was + after
    ensures Splice(before + all, off, now) == before + now + after
  {
    assert before + all == before + was + after;
    SpliceOver(before, was, after, now);
  }

  /** An entry written over zeros is its record over the zeros left. */
  lemma WrittenOverZeros(before: Bytes, off: nat, e: DirEntry, n: nat, blockSize: nat, zeros: nat, left: nat)
    requires |before| == off && Fits(e, n) && n + left == zeros
    ensures Splice(before + Zeros(zeros), off, Stored(e, n, blockSize)) ==
      before + Record(e, n, blockSize) + Zeros(left)
  {
    var stored, pad := Stored(e, n, blockSize), n - 8 - |e.name|;
    ZerosJoin(|stored|, pad + left);
    ZerosJoin(pad, left);
    OverBytes(before, off, Zeros(|stored|), stored, Zeros(pad + left), Zeros(zeros));
    Regroup(before, stored, Zeros(pad), Zeros(left));
  }

  lemma Regroup(a: Bytes, b: Bytes, c: Bytes, d: Bytes)
    ensures a + b + (c + d) == a + (b + c) + d
  {
  }

  /** One field of a layered record rewritten, and its padding cut anew. */
  lemma FieldRewritten(before: Bytes, a: Bytes, was: Bytes, now: Bytes, c: Bytes, pad: Bytes, zeros: Bytes,
                       more: Bytes, left: Bytes)
    requires |was| == |now| && pad + zeros == more + left
    ensures Splice(before + (a + was + c + pad) + zeros, |before| + |a|, now) == before + (a + now + c + more) + left
  {
    Layers(before, a, was, c, pad, zeros);
    Layers(before, a, now, c, more, left);
    SpliceOver(before + a, was, c + (pad + zeros), now);
  }

  lemma Layers(before: Bytes, a: Bytes, b: Bytes, c: Bytes, pad: Bytes, zeros: Bytes)
    ensures before + (a + b + c + pad) + zeros == before + a + b + (c + (pad + zeros))
  {
  }

  /** A new length in a record's header is that record, stretched over the zeros after it. */
  lemma Restated(before: Bytes, off: nat, e: DirEntry, n: nat, long: nat, blockSize: nat, zeros: nat, left: nat)
    requires |before| == off && Fits(e, n) && n <= long && n + zeros == long + left
    ensures Splice(before + Record(e, n, blockSize) + Zeros(zeros), off + 4,
                   LittleEndian16(RecLenToDisk(long, blockSize))) ==
      before + Record(e, long, blockSize) + Zeros(left)
  {
    var pad, more := n - 8 - |e.name|, long - 8 - |e.name|;
    var inode, rest := LittleEndian(e.inode), [|e.name|, e.fileType.ToByte()] + e.name;
    var was, now := LittleEndian16(RecLenToDisk(n, blockSize)), LittleEndian16(RecLenToDisk(long, blockSize));
    ZerosJoin(pad, zeros);
    ZerosJoin(more, left);
    FieldRewritten(before, inode, was, now, rest, Zeros(pad), Zeros(zeros), Zeros(more), Zeros(left));
    assert Record(e, n, blockSize) == inode + was + rest + Zeros(pad);
    assert Record(e, long, blockSize) == inode + now + rest + Zeros(more);
  }

  /** The block while entries are still being written: none is stretched, and the rest is zero. */
  function Writing(es: seq<DirEntry>, blockSize: nat, left: nat): (b: Bytes)
    requires Used(es) + left == blockSize
    ensures |b| == blockSize
  {
    RecordLengths(es, blockSize);
    UnstretchedLength(es, Need, RecordOf(blockSize));
    Unstretched(es, Need, RecordOf(blockSize)) + Zeros(left)
  }

  lemma WritingSnoc(init: seq<DirEntry>, last: DirEntry, blockSize: nat, left: nat)
    requires |last.name| <= NAME_MAX && Used(init) + Need(last) + left == blockSize
    ensures Used(init + [last]) == Used(init) + Need(last) && Fits(last, Need(last))
    ensures Writing(init + [last], blockSize, left) ==
      Unstretched(init, Need, RecordOf(blockSize)) + Record(last, Need(last), blockSize) + Zeros(left)
    ensures |Unstretched(init, Need, RecordOf(blockSize))| == Used(init)
  {
    TotalConcat(init, [last], Need);
    TotalOne(last, Need);
    MinRecLenHolds(|last.name|);
    RecordLengths(init, blockSize);
    UnstretchedLength(init, Need, RecordOf(blockSize));
    UnstretchedSnoc(init, last, Need, RecordOf(blockSize));
    NamedRecord(last, Need(last), blockSize);
  }

  /** What one `WriteTo` makes of the block. */
  lemma WriteStep(es: seq<DirEntry>, e: DirEntry, blockSize: nat, zeros: nat, left: nat)
    requires |e.name| <= NAME_MAX && Used(es) + zeros == blockSize && Need(e) + left == zeros
    ensures Used(es + [e]) == Used(es) + Need(e) && 8 + |e.name| <= Need(e)
    ensures Splice(Writing(es, blockSize, zeros), Used(es), Stored(e, Need(e), blockSize))
      == Writing(es + [e], blockSize, left)
  {
    WritingSnoc(es, e, blockSize, left);
    WrittenOverZeros(Unstretched(es, Need, RecordOf(blockSize)), Used(es), e, Need(e), blockSize, zeros, left);
  }

  /** Stretching the last record over the usable area tiles it. */
  lemma Stretched(es: seq<DirEntry>, off: nat, long: nat, usable: nat, blockSize: nat, zeros: nat, left: nat)
    requires es != [] && LongName(es).None? && off == Used(es[..|es| - 1])
    requires Used(es) + zeros == blockSize && off + long == usable && usable + left == blockSize && Used(es) <= usable
    ensures 8 <= long
    ensures Splice(Writing(es, blockSize, zeros), off + 4, LittleEndian16(RecLenToDisk(long, blockSize)))
      == Tiled(es, usable, Need, RecordOf(blockSize)) + Zeros(left)
    ensures |Tiled(es, usable, Need, RecordOf(blockSize))| == usable
  {
    var last, write := es[|es| - 1], RecordOf(blockSize);
    LastFits(es);
    TiledLast(es, usable, long, Need, write);
    UnstretchedLast(es, Need, write);
    LastNamed(es);
    NamedRecord(last, Need(last), blockSize);
    NamedRecord(last, long, blockSize);
    UnstretchedOf(es[..|es| - 1], blockSize);
    Restated(Unstretched(es[..|es| - 1], Need, write), off, last, Need(last), long, blockSize, zeros, left);
  }

  lemma UnstretchedOf(es: seq<DirEntry>, blockSize: nat)
    ensures |Unstretched(es, Need, RecordOf(blockSize))| == Used(es)
  {
    RecordLengths(es, blockSize);
    UnstretchedLength(es, Need, RecordOf(blockSize));
  }

  lemma LastFits(es: seq<DirEntry>)
    requires es != []
    ensures Used(es) == Used(es[..|es| - 1]) + Need(es[|es| - 1])
  {
    TotalStep(es, |es| - 1, Need);
    assert es[..|es| - 1 + 1] == es;
  }

  lemma {:induction false} LastNamed(es: seq<DirEntry>)
    requires es != [] && LongName(es).None?
    ensures Fits(es[|es| - 1], Need(es[|es| - 1]))
  {
    if |es| == 1 {
      MinRecLenHolds(|es[0].name|);
    } else {
      LastNamed(es[1..]);
    }
  }

  lemma TailOverZeros(tiled: Bytes, usable: nat, tailLen: nat)
    requires |tiled| == usable && DIR_TAIL_LEN <= tailLen
    ensures Splice(tiled + Zeros(tailLen), usable, Tail(0)) == tiled + Closing(tailLen)
  {
    var left := tailLen - DIR_TAIL_LEN;
    ZerosJoin(DIR_TAIL_LEN, left);
    OverBytes(tiled, usable, Zeros(DIR_TAIL_LEN), Tail(0), Zeros(left), Zeros(tailLen));
    Join(tiled, Tail(0), Zeros(left));
  }

  lemma TailWritten(stretched: Bytes, tiled: Bytes, usable: nat, tailLen: nat)
    requires |tiled| == usable && stretched == tiled + Zeros(tailLen) && (tailLen == 0 || DIR_TAIL_LEN <= tailLen)
    ensures (if tailLen < DIR_TAIL_LEN then stretched else Splice(stretched, usable, Tail(0))) ==
      tiled + Closing(tailLen)
  {
    if tailLen > 0 {
      TailOverZeros(tiled, usable, tailLen);
    } else {
      assert Zeros(0) == [];
    }
  }

  lemma Join(a: Bytes, b: Bytes, c: Bytes)
    ensures a + b + c == a + (b + c)
  {
  }

  // ----- packing in place -----

  /** A block whose last record, at `lastOff`, is stretched over the usable area, and its tail written. */
  function CloseSpec(block: Bytes, lastOff: nat, usable: nat, tailLen: nat): Bytes
    requires lastOff + 6 <= |block| && lastOff <= usable && usable + tailLen <= |block|
  {
    var stretched := Splice(block, lastOff + 4, LittleEndian16(RecLenToDisk(usable - lastOff, |block|)));
    if tailLen < DIR_TAIL_LEN then stretched else Splice(stretched, usable, Tail(0))
  }

  /** Stretch the last record over the usable area, and write the tail where there is one. */
  method CloseBlock(block: array<u8>, lastOff: nat, usable: nat, tailLen: nat) returns (fault: Option<ParseError>)
    requires lastOff + 6 <= block.Length && lastOff <= usable && usable + tailLen <= block.Length
    modifies block
    ensures fault == if 0 < tailLen < DIR_TAIL_LEN then Some(TooShort(DIR_TAIL_LEN, tailLen)) else None
    ensures block[..] == CloseSpec(old(block[..]), lastOff, usable, tailLen)
  {
    var recLen: u16 := RecLenToDisk(usable - lastOff, block.Length);
    Put(block, lastOff + 4, LittleEndian16(recLen));
    if tailLen == 0 { return None; }
    fault := WriteDirTail(block, usable, tailLen, 0);
  }

  lemma LongNameStep(es: seq<DirEntry>, i: nat)
    requires i < |es| && LongName(es[..i]).None?
    ensures |es[i].name| > NAME_MAX ==> LongName(es) == Some(InvalidField(NameLen, |es[i].name|))
    ensures |es[i].name| <= NAME_MAX ==> LongName(es[..i + 1]).None?
  {
    LongNameSnoc(es[..i], es[i]);
    LongNameFirst(es[..i + 1], es[i + 1..]);
    assert es[..i + 1] == es[..i] + [es[i]] && es == es[..i + 1] + es[i + 1..];
  }

  /** These entries written, and what is left still zero. */
  ghost predicate Written(done: seq<DirEntry>, block: Bytes, left: nat) {
    Used(done) + left == |block| && block == Writing(done, |block|, left)
  }

  lemma WrittenNext(done: seq<DirEntry>, e: DirEntry, block: Bytes, left: nat, less: nat)
    requires Written(done, block, left) && |e.name| <= NAME_MAX && Need(e) + less == left
    ensures 8 + |e.name| <= Need(e)
    ensures Written(done + [e], Splice(block, Used(done), Stored(e, Need(e), |block|)), less)
  {
    WriteStep(done, e, |block|, left, less);
  }

  lemma EntryWritten(es: seq<DirEntry>, i: nat, block: Bytes, left: nat)
    requires i < |es| && Used(es) <= |block| && Written(es[..i], block, left) && LongName(es[..i]).None?
    ensures var e := es[i]; var need := Need(e);
      && Used(es[..i]) + need <= |block|
      && (if |e.name| > NAME_MAX then LongName(es) == WriteFault(e, need, need)
          else && WriteFault(e, need, need).None? && LongName(es[..i + 1]).None? && 8 + |e.name| <= need <= left
               && Used(es[..i + 1]) == Used(es[..i]) + need
               && Written(es[..i + 1], Splice(block, Used(es[..i]), Stored(e, need, |block|)), left - need))
  {
    var e := es[i];
    TotalStep(es, i, Need);
    LongNameStep(es, i);
    if |e.name| <= NAME_MAX {
      MinRecLenHolds(|e.name|);
      WrittenNext(es[..i], e, block, left, left - Need(e));
      assert es[..i + 1] == es[..i] + [e];
    }
  }

  /** The entries written one after another, and where the last begins. */
  method WriteEntries(es: seq<DirEntry>, block: array<u8>) returns (fault: Option<ParseError>, lastOff: nat)
    requires es != [] && Used(es) <= block.Length && block[..] == Zeros(block.Length)
    modifies block
    ensures fault == LongName(es)
    ensures fault.None? ==> lastOff == Used(es[..|es| - 1]) && Written(es, block[..], block.Length - Used(es))
  {
    var off, i := 0, 0;
    lastOff := 0;
    while i < |es|
      invariant 0 <= i <= |es| && off == Used(es[..i]) <= block.Length && LongName(es[..i]).None?
      invariant i > 0 ==> lastOff == Used(es[..i - 1])
      invariant Written(es[..i], block[..], block.Length - off)
    {
      EntryWritten(es, i, block[..], block.Length - off);
      var need := Need(es[i]);
      fault := WriteTo(es[i], block, off, need, need, block.Length);
      if fault.Some? { return fault, 0; }
      lastOff := off;
      off := off + need;
      i := i + 1;
    }
    assert es[..i] == es;
    return None, lastOff;
  }

  /** Closing a block that stretching tiles ends it with the tail. */
  lemma Closed(block: Bytes, off: nat, long: nat, usable: nat, tailLen: nat, tiled: Bytes)
    requires off + long == usable && usable + tailLen == |block| == |tiled| + tailLen && 6 <= long
    requires tailLen == 0 || DIR_TAIL_LEN <= tailLen
    requires Splice(block, off + 4, LittleEndian16(RecLenToDisk(long, |block|))) == tiled + Zeros(tailLen)
    ensures CloseSpec(block, off, usable, tailLen) == tiled + Closing(tailLen)
  {
    assert usable - off == long;
    TailWritten(tiled + Zeros(tailLen), tiled, usable, tailLen);
  }

  lemma PackedIs(es: seq<DirEntry>, blockSize: nat, usable: nat, tailLen: nat)
    requires es != [] && usable + tailLen == blockSize && Used(es) <= usable &&
      (tailLen == 0 || DIR_TAIL_LEN <= tailLen)
    ensures Packed(es, blockSize, tailLen) == Tiled(es, usable, Need, RecordOf(blockSize)) + Closing(tailLen)
  {
    assert blockSize - tailLen == usable;
  }

  /** Closing what has been written makes the packed block. */
  lemma Finished(es: seq<DirEntry>, block: Bytes, size: nat, left: nat, off: nat, long: nat, usable: nat, tailLen: nat)
    requires |block| == size && usable + tailLen == size && (tailLen == 0 || DIR_TAIL_LEN <= tailLen)
    requires es != [] && LongName(es).None? && off == Used(es[..|es| - 1]) && Used(es) <= usable
    requires Written(es, block, left) && off + long == usable
    ensures off + 8 <= usable && Packed(es, size, tailLen) == CloseSpec(block, off, usable, tailLen)
  {
    Stretched(es, off, long, usable, size, left, tailLen);
    Closed(block, off, long, usable, tailLen, Tiled(es, usable, Need, RecordOf(size)));
    PackedIs(es, size, usable, tailLen);
  }

  /** Write entries that fit into one block, closed by the tail this filesystem carries. */
  method PackOneBlock(es: seq<DirEntry>, blockSize: nat, tailLen: nat) returns (r: Result<Bytes, ParseError>)
    requires es != [] && tailLen <= blockSize && Used(es) <= blockSize - tailLen
    ensures r == PackSpec(es, blockSize, tailLen)
  {
    var usable := blockSize - tailLen;
    var block := new u8[blockSize](_ => 0);
    assert block[..] == Zeros(blockSize);
    var fault, lastOff := WriteEntries(es, block);
    if fault.Some? { return Err(fault.value); }
    LastFits(es);
    LastNamed(es);
    if tailLen == 0 || DIR_TAIL_LEN <= tailLen {
      Finished(es, block[..], blockSize, blockSize - Used(es), lastOff, usable - lastOff, usable, tailLen);
    }
    fault := CloseBlock(block, lastOff, usable, tailLen);
    if fault.Some? { return Err(fault.value); }
    return Ok(block[..]);
  }

  // ----- walking a block -----

  datatype ReadError = Unreadable(error: ParseError) | BadDirectory | HostileName(inode: u32) | NoSuchInode(inode: u32)

  function ReadSlot(blockSize: nat): Bytes -> Result<(DirEntry, nat), ReadError> {
    (buf: Bytes) => var r := ReadFrom(buf, blockSize); if r.Err? then Err(Unreadable(r.error)) else Ok(r.value)
  }

  /** What a walk of a block stands on: each record in turn, with its length, to the block's end. */
  function WalkBlock(block: Bytes, blockSize: nat): Result<seq<(DirEntry, nat)>, ReadError> {
    Walk(block, ReadSlot(blockSize), BadDirectory)
  }

  /** The sizes a directory has: a tail or none, and whole words within what the format allows. */
  predicate Sized(blockSize: nat, tailLen: nat) {
    && (tailLen == 0 || tailLen == DIR_TAIL_LEN)
    && tailLen <= blockSize <= MAX_BLOCK && Aligned(blockSize)
  }

  const UNUSED := DirEntry(0, Unknown, [])

  function TailSlot(tailLen: nat): seq<(DirEntry, nat)> {
    if tailLen == 0 then [] else [(UNUSED, DIR_TAIL_LEN)]
  }

  /** An entry and a length its record can have. */
  function Recordable(blockSize: nat): (DirEntry, nat) -> bool {
    (e: DirEntry, n: nat) => Fits(e, n) && Readable(n, blockSize)
  }

  lemma RecordsFaithful(blockSize: nat)
    ensures Faithful(Recordable(blockSize), RecordOf(blockSize), ReadSlot(blockSize))
  {
    forall e: DirEntry, n: nat, rest: Bytes | Recordable(blockSize)(e, n)
      ensures n > 0 && |RecordOf(blockSize)(e, n)| == n
      ensures ReadSlot(blockSize)(RecordOf(blockSize)(e, n) + rest) == Ok((e, n))
    {
      ReadRecord(e, n, blockSize, rest);
    }
  }

  lemma {:induction false} SlotsRecordable(es: seq<DirEntry>, room: nat, blockSize: nat)
    requires es != [] && Named(es) && Used(es) <= room && Readable(room, blockSize)
    ensures AllGood(Slots(es, room, Need), Recordable(blockSize))
  {
    var e, slots := es[0], Slots(es, room, Need);
    MinRecLenHolds(|e.name|);
    if |es| == 1 {
      assert slots[1..] == [];
    } else {
      AlignedMinus(room, Need(e));
      SlotsRecordable(es[1..], room - Need(e), blockSize);
      assert slots[1..] == Slots(es[1..], room - Need(e), Need);
    }
  }

  lemma WalkClosing(blockSize: nat, tailLen: nat)
    requires Sized(blockSize, tailLen)
    ensures WalkBlock(Closing(tailLen), blockSize) == Ok(TailSlot(tailLen))
  {
    if tailLen != 0 {
      ReadTail(0, blockSize, []);
      assert ReadSlot(blockSize)(Tail(0) + []) == Ok((UNUSED, DIR_TAIL_LEN));
      WalkStep(Tail(0), [], UNUSED, ReadSlot(blockSize), BadDirectory);
      assert Closing(tailLen) == Tail(0) + [] && [(UNUSED, DIR_TAIL_LEN)] + [] == TailSlot(tailLen);
    }
  }

  /** The walk of tiled entries, whatever follows them. */
  lemma WalkEntries(es: seq<DirEntry>, usable: nat, blockSize: nat, after: Bytes, tail: seq<(DirEntry, nat)>)
    requires es != [] && Named(es) && Used(es) <= usable && Readable(usable, blockSize)
    requires WalkBlock(after, blockSize) == Ok(tail)
    ensures WalkBlock(Tiled(es, usable, Need, RecordOf(blockSize)) + after, blockSize) ==
      Ok(Slots(es, usable, Need) + tail)
  {
    RecordsFaithful(blockSize);
    SlotsRecordable(es, usable, blockSize);
    WalkTiled(es, usable, after, Need, Recordable(blockSize), RecordOf(blockSize), ReadSlot(blockSize), BadDirectory);
  }

  /** The walk of a packed block stands on its entries in order, then on the tail, and ends at the
      block's end. */
  lemma WalkPacked(es: seq<DirEntry>, blockSize: nat, tailLen: nat)
    requires es != [] && Sized(blockSize, tailLen) && Used(es) <= blockSize - tailLen && Named(es)
    ensures WalkBlock(Packed(es, blockSize, tailLen), blockSize) ==
      Ok(Slots(es, blockSize - tailLen, Need) + TailSlot(tailLen))
  {
    AlignedMinus(blockSize, tailLen);
    WalkClosing(blockSize, tailLen);
    WalkEntries(es, blockSize - tailLen, blockSize, Closing(tailLen), TailSlot(tailLen));
  }

  /** The records and the tail fill the block, each record with room for its name. */
  lemma PackedTiles(es: seq<DirEntry>, blockSize: nat, tailLen: nat)
    requires es != [] && Sized(blockSize, tailLen) && Used(es) <= blockSize - tailLen && Named(es)
    ensures var walk := WalkBlock(Packed(es, blockSize, tailLen), blockSize);
      walk.Ok? && Lengths(walk.value) == blockSize && |walk.value| == |es| + |TailSlot(tailLen)|
  {
    WalkPacked(es, blockSize, tailLen);
    SlotsFill(es, blockSize - tailLen, Need);
    LengthsConcat(Slots(es, blockSize - tailLen, Need), TailSlot(tailLen));
  }

  /** Reading a packed block for something finds the first of its entries that is it. */
  lemma SeekPacked<U>(es: seq<DirEntry>, blockSize: nat, tailLen: nat, pick: DirEntry -> Option<U>,
                      pickSlot: ((DirEntry, nat)) -> Option<U>)
    requires es != [] && Sized(blockSize, tailLen) && Used(es) <= blockSize - tailLen && Named(es)
    requires pick(UNUSED).None? && forall slot: (DirEntry, nat) :: pickSlot(slot) == pick(slot.0)
    ensures Seek(Packed(es, blockSize, tailLen), ReadSlot(blockSize), BadDirectory, pickSlot) == Ok(FirstPick(es, pick))
  {
    WalkPacked(es, blockSize, tailLen);
    SeekWalk(Packed(es, blockSize, tailLen), ReadSlot(blockSize), BadDirectory, pickSlot);
    FirstPickConcat(Slots(es, blockSize - tailLen, Need), TailSlot(tailLen), pickSlot);
    PickSlots(es, blockSize - tailLen, Need, pick, pickSlot);
    TailNotPicked(tailLen, pick, pickSlot);
  }

  lemma TailNotPicked<U>(tailLen: nat, pick: DirEntry -> Option<U>, pickSlot: ((DirEntry, nat)) -> Option<U>)
    requires pick(UNUSED).None? && forall slot: (DirEntry, nat) :: pickSlot(slot) == pick(slot.0)
    ensures FirstPick(TailSlot(tailLen), pickSlot).None?
  {
    if tailLen != 0 { assert TailSlot(tailLen)[1..] == []; }
  }
}
