/** The blocks of a hash index as bytes: the root, its interior nodes, and the entries of both. */
module HtreeBlocks {
  import opened Wrappers
  import opened Words
  import opened DirRecord
  import opened Tiling
  import opened DirPack

  const DX_ENTRY_LEN := 8
  const DX_ROOT_COUNT_OFFSET := 32
  const DX_NODE_COUNT_OFFSET := 8
  const DOT: Bytes := [0x2e]
  const DOT_DOT: Bytes := [0x2e, 0x2e]

  datatype DxEntry = DxEntry(hash: u32, block: u32)

  function Hashes(entries: seq<DxEntry>): (hs: seq<nat>)
    ensures |hs| == |entries|
    ensures forall i :: 0 <= i < |entries| ==> hs[i] == entries[i].hash
  {
    seq(|entries|, i requires 0 <= i < |entries| => entries[i].hash)
  }

  /** Entries a block has room for, past where its count begins; one slot is the checksum tail's. */
  function DxLimit(blockSize: nat, countOffset: nat, checksums: bool): (limit: nat)
    ensures blockSize <= MAX_BLOCK ==> limit <= 0x2000
  {
    var slots := if blockSize < countOffset then 0 else (blockSize - countOffset) / DX_ENTRY_LEN;
    if checksums && slots > 0 then slots - 1 else slots
  }

  lemma DxLimitFits(blockSize: nat, countOffset: nat, checksums: bool)
    ensures var limit := DxLimit(blockSize, countOffset, checksums);
      limit > 0 ==> countOffset + DX_ENTRY_LEN * limit <= blockSize
  {
  }

  /** Where checksums are on, the slot left over is the tail's. */
  lemma DxTailFits(blockSize: nat, countOffset: nat)
    ensures var limit := DxLimit(blockSize, countOffset, true);
      limit > 0 ==> countOffset + DX_ENTRY_LEN * limit + DX_ENTRY_LEN <= blockSize
  {
  }

  // ----- bytes -----

  /** The entries of an index block: the first slot holds the capacity and the count where a hash would be. */
  function SlotBytes(limit: u16, count: u16, entries: seq<DxEntry>): (b: Bytes)
    ensures |b| == 8 * |entries|
  {
    if entries == [] then []
    else if |entries| == 1 then LittleEndian16(limit) + LittleEndian16(count) + LittleEndian(entries[0].block)
    else
      var last := entries[|entries| - 1];
      SlotBytes(limit, count, entries[..|entries| - 1]) + (LittleEndian(last.hash) + LittleEndian(last.block))
  }

  /** Why a list of entries cannot be written, if it cannot. */
  function DxFault(entries: seq<DxEntry>, blockSize: nat, countOffset: nat, limit: nat): Option<ParseError> {
    if entries == [] || |entries| > limit then Some(InvalidField(Count, |entries|))
    else if entries[0].hash != 0 then Some(InvalidField(HashField, entries[0].hash))
    else if blockSize < countOffset + DX_ENTRY_LEN * limit then
      Some(TooShort(countOffset + DX_ENTRY_LEN * limit, blockSize))
    else None
  }

  /** A header, the entries after it, and zeros to the block's end. */
  function IndexBlock(header: Bytes, limit: u16, entries: seq<DxEntry>, blockSize: nat): (b: Bytes)
    requires DxFault(entries, blockSize, |header|, limit).None?
    ensures |b| == blockSize
  {
    header + SlotBytes(limit, |entries|, entries) + Zeros(blockSize - |header| - DX_ENTRY_LEN * |entries|)
  }

  /** The `.` and `..` records, the second over the whole index, and the root's own fields. */
  function RootHeader(dirIno: u32, parentIno: u32, version: u8, levels: u8, blockSize: nat): (b: Bytes)
    requires 12 <= blockSize
    ensures |b| == DX_ROOT_COUNT_OFFSET
  {
    Header(dirIno, 12, 1, Dir.ToByte()) + (DOT + Zeros(3))
    + (Header(parentIno, (blockSize - 12) % 0x1_0000, 2, Dir.ToByte())
       + (DOT_DOT + Zeros(2) + (LittleEndian(0) + [version, 8, levels, 0])))
  }

  /** One unused record spanning the block. */
  function NodeHeader(blockSize: nat): (b: Bytes)
    ensures |b| == DX_NODE_COUNT_OFFSET
  {
    Header(0, blockSize % 0x1_0000, 0, 0)
  }

  // ----- reading the entries back -----

  function WordAt(buf: Bytes, off: nat): u32
    requires off + 4 <= |buf|
  {
    Word(buf[off..off + 4])
  }

  /** The first `n` entries; the first stores no hash and reads as zero. */
  function EntriesAt(buf: Bytes, off: nat, n: nat): (entries: seq<DxEntry>)
    requires off + 8 * n <= |buf|
    ensures |entries| == n
  {
    if n == 0 then []
    else if n == 1 then [DxEntry(0, WordAt(buf, off + 4))]
    else
      var at := off + 8 * (n - 1);
      EntriesAt(buf, off, n - 1) + [DxEntry(WordAt(buf, at), WordAt(buf, at + 4))]
  }

  function ReadDxEntries(buf: Bytes, off: nat): (r: Result<seq<DxEntry>, ParseError>)
    ensures r.Ok? ==> r.value != []
  {
    if |buf| < off + 4 then Err(TooShort(off + 4, |buf|))
    else
      var limit, count := Word16(buf[off..off + 2]), Word16(buf[off + 2..off + 4]);
      if limit > (|buf| - off) / DX_ENTRY_LEN then Err(InvalidField(Limit, limit))
      else if count > limit || count == 0 then Err(InvalidField(Count, count))
      else Ok(EntriesAt(buf, off, count))
  }

  /** The hash algorithm and the depth a root declares. */
  function ReadRootInfo(root: Bytes): Result<(u8, u8), ParseError> {
    if |root| < DX_ROOT_COUNT_OFFSET then Err(TooShort(DX_ROOT_COUNT_OFFSET, |root|)) else Ok((root[28], root[30]))
  }

  lemma Middle(a: Bytes, b: Bytes, c: Bytes, off: nat, end: nat)
    requires off == |a| && end == |a| + |b|
    ensures (a + b + c)[off..end] == b
  {
  }

  lemma Shift(a: Bytes, b: Bytes, c: Bytes, d: Bytes)
    ensures a + (b + c) + d == a + b + (c + d)
  {
  }

  lemma WordBack(a: Bytes, w: u32, c: Bytes, off: nat)
    requires off == |a|
    ensures |a + LittleEndian(w) + c| >= off + 4 && WordAt(a + LittleEndian(w) + c, off) == w
  {
    Middle(a, LittleEndian(w), c, off, off + 4);
  }

  lemma PairBack(a: Bytes, v: u32, w: u32, c: Bytes, off: nat)
    requires off == |a|
    ensures var buf := a + (LittleEndian(v) + LittleEndian(w)) + c;
      WordAt(buf, off) == v && WordAt(buf, off + 4) == w
  {
    Shift(a, LittleEndian(v), LittleEndian(w), c);
    WordBack(a, v, LittleEndian(w) + c, off);
    assert a + LittleEndian(v) + (LittleEndian(w) + c) == a + LittleEndian(v) + LittleEndian(w) + c;
    WordBack(a + LittleEndian(v), w, c, off + 4);
  }

  lemma FirstSlotBack(before: Bytes, counts: Bytes, block: u32, after: Bytes, off: nat)
    requires off == |before| && |counts| == 4
    ensures EntriesAt(before + (counts + LittleEndian(block)) + after, off, 1) == [DxEntry(0, block)]
  {
    assert before + (counts + LittleEndian(block)) + after == before + counts + LittleEndian(block) + after;
    WordBack(before + counts, block, after, off + 4);
  }

  lemma NextSlotBack(before: Bytes, slots: Bytes, v: u32, w: u32, after: Bytes, off: nat, n: nat)
    requires off == |before| && n > 1 && |slots| == 8 * (n - 1)
    ensures var pair := LittleEndian(v) + LittleEndian(w); var buf := before + (slots + pair) + after;
      && buf == before + slots + (pair + after)
      && EntriesAt(buf, off, n) == EntriesAt(buf, off, n - 1) + [DxEntry(v, w)]
  {
    var pair := LittleEndian(v) + LittleEndian(w);
    assert before + (slots + pair) + after == before + slots + pair + after;
    PairBack(before + slots, v, w, after, off + 8 * (n - 1));
  }

  lemma {:induction false} SlotsBack(before: Bytes, limit: u16, count: u16, entries: seq<DxEntry>, after: Bytes,
                                     off: nat)
    requires off == |before| && entries != [] && entries[0].hash == 0
    ensures EntriesAt(before + SlotBytes(limit, count, entries) + after, off, |entries|) == entries
  {
    var n := |entries|;
    if n == 1 {
      FirstSlotBack(before, LittleEndian16(limit) + LittleEndian16(count), entries[0].block, after, off);
    } else {
      var init, last := entries[..n - 1], entries[n - 1];
      SlotsBack(before, limit, count, init, LittleEndian(last.hash) + LittleEndian(last.block) + after, off);
      NextSlotBack(before, SlotBytes(limit, count, init), last.hash, last.block, after, off, n);
      assert entries == init + [last];
    }
  }

  /** The first slot of the entries is the capacity, the count and a block. */
  lemma {:induction false} SlotsBegin(limit: u16, count: u16, entries: seq<DxEntry>) returns (rest: Bytes)
    requires entries != []
    ensures SlotBytes(limit, count, entries) == LittleEndian16(limit) + LittleEndian16(count) + rest
  {
    if |entries| == 1 {
      rest := LittleEndian(entries[0].block);
    } else {
      var last := entries[|entries| - 1];
      rest := SlotsBegin(limit, count, entries[..|entries| - 1]);
      rest := rest + (LittleEndian(last.hash) + LittleEndian(last.block));
    }
  }

  lemma CountsBack(before: Bytes, limit: u16, count: u16, rest: Bytes, off: nat)
    requires off == |before|
    ensures var buf := before + (LittleEndian16(limit) + LittleEndian16(count) + rest);
      |buf| >= off + 4 && Word16(buf[off..off + 2]) == limit && Word16(buf[off + 2..off + 4]) == count
  {
    var buf := before + (LittleEndian16(limit) + LittleEndian16(count) + rest);
    assert buf == before + LittleEndian16(limit) + (LittleEndian16(count) + rest);
    Middle(before, LittleEndian16(limit), LittleEndian16(count) + rest, off, off + 2);
    assert buf == before + LittleEndian16(limit) + LittleEndian16(count) + rest;
    Middle(before + LittleEndian16(limit), LittleEndian16(count), rest, off + 2, off + 4);
  }

  /** An index block holds the capacity it was given and the count of its entries. */
  lemma IndexBlockCounts(header: Bytes, limit: u16, entries: seq<DxEntry>, blockSize: nat, off: nat)
    requires DxFault(entries, blockSize, |header|, limit).None? && off == |header|
    ensures blockSize >= off + 4
    ensures Word16(IndexBlock(header, limit, entries, blockSize)[off..off + 2]) == limit
    ensures Word16(IndexBlock(header, limit, entries, blockSize)[off + 2..off + 4]) == |entries|
  {
    var n := |entries|;
    var slots, zeros := SlotBytes(limit, n, entries), Zeros(blockSize - off - DX_ENTRY_LEN * n);
    var rest := SlotsBegin(limit, n, entries);
    assert header + slots + zeros == header + (LittleEndian16(limit) + LittleEndian16(n) + (rest + zeros));
    CountsBack(header, limit, n, rest + zeros, off);
  }

  /** The entries an index block was written with are what it reads back as. */
  lemma IndexBlockRead(header: Bytes, limit: u16, entries: seq<DxEntry>, blockSize: nat, off: nat)
    requires DxFault(entries, blockSize, |header|, limit).None? && off == |header|
    ensures ReadDxEntries(IndexBlock(header, limit, entries, blockSize), off) == Ok(entries)
  {
    IndexBlockCounts(header, limit, entries, blockSize, off);
    SlotsBack(header, limit, |entries|, entries, Zeros(blockSize - off - DX_ENTRY_LEN * |entries|), off);
  }

  // ----- what a reader that knows nothing of the index sees -----

  /** A record, then a walk of the rest. */
  lemma WalkThenRest(record: Bytes, rest: Bytes, e: DirEntry, slots: seq<(DirEntry, nat)>, blockSize: nat)
    requires record != [] && ReadFrom(record + rest, blockSize) == Ok((e, |record|))
    requires WalkBlock(rest, blockSize) == Ok(slots)
    ensures WalkBlock(record + rest, blockSize) == Ok([(e, |record|)] + slots)
  {
    assert ReadSlot(blockSize)(record + rest) == Ok((e, |record|));
    WalkStep(record, rest, e, ReadSlot(blockSize), BadDirectory);
  }

  /** The last of a walk, over all that is left. */
  lemma WalkLast(buf: Bytes, e: DirEntry, blockSize: nat)
    requires buf != [] && ReadFrom(buf, blockSize) == Ok((e, |buf|))
    ensures WalkBlock(buf, blockSize) == Ok([(e, |buf|)])
  {
    assert buf + [] == buf && [(e, |buf|)] + [] == [(e, |buf|)];
    WalkThenRest(buf, [], e, [], blockSize);
  }

  lemma ReadSpanning(inode: u32, disk: u16, name: Bytes, fileType: u8, rest: Bytes, recLen: nat, blockSize: nat)
    requires |name| <= NAME_MAX && 8 + |name| <= recLen <= 8 + |name| + |rest|
    requires RecLenFromDisk(disk, blockSize) == recLen && Aligned(recLen)
    ensures ReadFrom(Header(inode, disk, |name|, fileType) + (name + rest), blockSize) ==
      Ok((DirEntry(inode, FileType.FromByte(fileType), name), recLen))
  {
    var buf := Header(inode, disk, |name|, fileType) + (name + rest);
    ReadHeader(inode, disk, |name|, fileType, name + rest);
    assert buf[8..8 + |name|] == buf[8..][..|name|] == name;
  }

  lemma SpanRead(recLen: nat, blockSize: nat)
    requires 0 < recLen <= blockSize <= MAX_BLOCK && Aligned(recLen)
    ensures RecLenFromDisk(recLen % 0x1_0000, blockSize) == recLen
  {
    AlignedMod(recLen);
    if recLen == MAX_BLOCK { assert recLen % 0x1_0000 == 0; }
  }

  /** A node's block is one unused slot. */
  lemma NodeWalk(after: Bytes, blockSize: nat)
    requires |after| + 8 == blockSize <= MAX_BLOCK && Aligned(blockSize)
    ensures WalkBlock(NodeHeader(blockSize) + after, blockSize) == Ok([(UNUSED, blockSize)])
  {
    SpanRead(blockSize, blockSize);
    assert [] + after == after;
    ReadSpanning(0, blockSize % 0x1_0000, [], 0, after, blockSize, blockSize);
    WalkLast(NodeHeader(blockSize) + after, UNUSED, blockSize);
  }

  /** The root's `..` record and all it covers. */
  lemma DotDotWalk(parentIno: u32, fields: Bytes, span: nat, blockSize: nat)
    requires 12 <= span <= blockSize <= MAX_BLOCK && Aligned(span) && |fields| + 10 == span
    ensures WalkBlock(Header(parentIno, span % 0x1_0000, 2, Dir.ToByte()) + (DOT_DOT + fields), blockSize) ==
      Ok([(DirEntry(parentIno, Dir, DOT_DOT), span)])
  {
    var buf := Header(parentIno, span % 0x1_0000, 2, Dir.ToByte()) + (DOT_DOT + fields);
    SpanRead(span, blockSize);
    ReadSpanning(parentIno, span % 0x1_0000, DOT_DOT, Dir.ToByte(), fields, span, blockSize);
    WalkLast(buf, DirEntry(parentIno, Dir, DOT_DOT), blockSize);
  }

  lemma DotRead(dirIno: u32, rest: Bytes, blockSize: nat)
    requires 12 <= blockSize <= MAX_BLOCK
    ensures ReadFrom(Header(dirIno, 12, 1, Dir.ToByte()) + (DOT + Zeros(3)) + rest, blockSize) ==
      Ok((DirEntry(dirIno, Dir, DOT), 12))
  {
    var header := Header(dirIno, 12, 1, Dir.ToByte());
    assert header + (DOT + Zeros(3)) + rest == header + (DOT + (Zeros(3) + rest));
    SpanRead(12, blockSize);
    ReadSpanning(dirIno, 12, DOT, Dir.ToByte(), Zeros(3) + rest, 12, blockSize);
  }

  /** The root's block is `.` and, over all the rest, `..`. */
  lemma RootWalk(dirIno: u32, parentIno: u32, version: u8, levels: u8, after: Bytes, blockSize: nat)
    requires |after| + DX_ROOT_COUNT_OFFSET == blockSize <= MAX_BLOCK && Aligned(blockSize)
    ensures WalkBlock(RootHeader(dirIno, parentIno, version, levels, blockSize) + after, blockSize) ==
      Ok([(DirEntry(dirIno, Dir, DOT), 12)] + [(DirEntry(parentIno, Dir, DOT_DOT), blockSize - 12)])
  {
    var span := blockSize - 12;
    var dot := Header(dirIno, 12, 1, Dir.ToByte()) + (DOT + Zeros(3));
    var dotdot, fields := Header(parentIno, span % 0x1_0000, 2, Dir.ToByte()),
      LittleEndian(0) + [version, 8, levels, 0];
    RootLayout(dot, dotdot, DOT_DOT, Zeros(2), fields, after);
    assert Aligned(12);
    AlignedMinus(blockSize, 12);
    DotDotWalk(parentIno, Zeros(2) + fields + after, span, blockSize);
    DotRead(dirIno, dotdot + (DOT_DOT + (Zeros(2) + fields + after)), blockSize);
    WalkThenRest(dot, dotdot + (DOT_DOT + (Zeros(2) + fields + after)), DirEntry(dirIno, Dir, DOT),
                 [(DirEntry(parentIno, Dir, DOT_DOT), span)], blockSize);
  }

  lemma RootLayout(dot: Bytes, header: Bytes, name: Bytes, pad: Bytes, fields: Bytes, after: Bytes)
    ensures dot + (header + (name + pad + fields)) + after == dot + (header + (name + (pad + fields + after)))
  {
  }
}
