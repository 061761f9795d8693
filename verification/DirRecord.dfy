/** One directory entry as bytes: the record a block is tiled with, and the checksum tail's slot. */
module DirRecord {
  import opened Wrappers
  import opened Words

  type Bytes = seq<u8>

  const DIR_TAIL_LEN := 12
  const DIR_TAIL_FT: u8 := 0xde
  const NAME_MAX := 255
  const U16_MAX := 0xffff
  const MAX_BLOCK := 0x1_0000

  datatype Field = NameLen | RecLen | Count | HashField | Limit

  datatype ParseError = TooShort(need: nat, got: nat) | InvalidField(field: Field, value: nat)

  datatype FileType = Unknown | RegFile | Dir | CharDev | BlockDev | Fifo | Socket | Symlink {
    function ToByte(): u8 {
      match this
      case Unknown => 0
      case RegFile => 1
      case Dir => 2
      case CharDev => 3
      case BlockDev => 4
      case Fifo => 5
      case Socket => 6
      case Symlink => 7
    }

    static function FromByte(b: u8): FileType {
      match b
      case 1 => RegFile
      case 2 => Dir
      case 3 => CharDev
      case 4 => BlockDev
      case 5 => Fifo
      case 6 => Socket
      case 7 => Symlink
      case _ => Unknown
    }
  }

  datatype DirEntry = DirEntry(inode: u32, fileType: FileType, name: Bytes)

  // ----- record lengths -----

  function Min(a: nat, b: nat): nat {
    if a <= b then a else b
  }

  /** Whether a length is whole four-byte words. */
  predicate Aligned(n: nat) {
    n == 0 || (n >= 4 && Aligned(n - 4))
  }

  lemma {:induction false} AlignedMod(n: nat)
    ensures Aligned(n) <==> n % 4 == 0
  {
    if n >= 4 { AlignedMod(n - 4); }
  }

  lemma AlignedMinus(a: nat, b: nat)
    requires b <= a && Aligned(a) && Aligned(b)
    ensures Aligned(a - b)
  {
    AlignedMod(a);
    AlignedMod(b);
    AlignedMod(a - b);
  }

  /** The next multiple of four. */
  function NextWord(n: nat): nat {
    if n == 0 then 0 else if n <= 4 then 4 else 4 + NextWord(n - 4)
  }

  lemma {:induction false} NextWordHolds(n: nat)
    ensures Aligned(NextWord(n)) && n <= NextWord(n) < n + 4
  {
    if n > 4 { NextWordHolds(n - 4); }
  }

  /** The header and the name, to a four-byte boundary; saturating past what a field holds. */
  function MinRecLen(nameLen: nat): nat {
    Min(NextWord(8 + nameLen), U16_MAX)
  }

  function RecLenToDisk(len: nat, blockSize: nat): u16 {
    if blockSize < MAX_BLOCK then Min(len, U16_MAX)
    else if len < MAX_BLOCK then len
    else U16_MAX
  }

  /** Below 64 KiB the field is the length; at it, the two low bits are the length's high bits, and
      two values stand for a whole block. */
  function RecLenFromDisk(disk: u16, blockSize: nat): nat {
    if blockSize < MAX_BLOCK then disk
    else if disk == U16_MAX || disk == 0 then blockSize
    else disk / 4 * 4 + disk % 4 * MAX_BLOCK
  }

  /** A length no longer than its block reads back as itself exactly when the block is below 64 KiB
      or the length is one a record can have. */
  lemma RecLenReadsBack(len: nat, blockSize: nat)
    requires len <= blockSize <= MAX_BLOCK
    ensures RecLenFromDisk(RecLenToDisk(len, blockSize), blockSize) == len
      <==> blockSize < MAX_BLOCK || (len % 4 == 0 && len > 0)
  {
    assert len == len / 4 * 4 + len % 4;
  }

  lemma MinRecLenHolds(nameLen: nat)
    requires nameLen <= NAME_MAX
    ensures Aligned(MinRecLen(nameLen)) && 8 + nameLen <= MinRecLen(nameLen) < 8 + nameLen + 4
  {
    NextWordHolds(8 + nameLen);
  }

  // ----- bytes -----

  function Zeros(n: nat): (b: Bytes)
    ensures |b| == n
  {
    seq(n, _ => 0)
  }

  lemma ZerosJoin(m: nat, n: nat)
    ensures Zeros(m) + Zeros(n) == Zeros(m + n)
  {
  }

  function Header(inode: u32, recLen: u16, nameLen: u8, fileType: u8): (b: Bytes)
    ensures |b| == 8
  {
    LittleEndian(inode) + LittleEndian16(recLen) + [nameLen, fileType]
  }

  predicate Fits(e: DirEntry, recLen: nat) {
    |e.name| <= NAME_MAX && 8 + |e.name| <= recLen
  }

  /** What `WriteTo` stores: the header and the name. */
  function Stored(e: DirEntry, recLen: nat, blockSize: nat): (b: Bytes)
    requires |e.name| <= NAME_MAX
    ensures |b| == 8 + |e.name|
  {
    Header(e.inode, RecLenToDisk(recLen, blockSize), |e.name|, e.fileType.ToByte()) + e.name
  }

  /** A whole record over zeroed bytes. */
  function Record(e: DirEntry, recLen: nat, blockSize: nat): (b: Bytes)
    requires Fits(e, recLen)
    ensures |b| == recLen
  {
    Stored(e, recLen, blockSize) + Zeros(recLen - 8 - |e.name|)
  }

  function Tail(checksum: u32): (b: Bytes)
    ensures |b| == DIR_TAIL_LEN
  {
    Header(0, DIR_TAIL_LEN, 0, DIR_TAIL_FT) + LittleEndian(checksum)
  }

  /** The entry at the start of a buffer, and its record's length. */
  function ReadFrom(buf: Bytes, blockSize: nat): (r: Result<(DirEntry, nat), ParseError>)
    ensures r.Ok? ==> 8 <= r.value.1 <= |buf|
  {
    if |buf| < 8 then Err(TooShort(8, |buf|))
    else
      var recLen := RecLenFromDisk(Word16(buf[4..6]), blockSize);
      var nameLen: nat := buf[6];
      if !Aligned(recLen) || recLen < 8 + nameLen then Err(InvalidField(RecLen, recLen))
      else if |buf| < recLen then Err(TooShort(recLen, |buf|))
      else Ok((DirEntry(Word(buf[..4]), FileType.FromByte(buf[7]), buf[8..8 + nameLen]), recLen))
  }

  lemma ReadHeader(inode: u32, disk: u16, nameLen: u8, fileType: u8, rest: Bytes)
    ensures var buf := Header(inode, disk, nameLen, fileType) + rest;
      Word(buf[..4]) == inode && Word16(buf[4..6]) == disk && buf[6] == nameLen && buf[7] == fileType &&
        buf[8..] == rest
  {
    var buf := Header(inode, disk, nameLen, fileType) + rest;
    assert buf[..4] == LittleEndian(inode);
    assert buf[4..6] == LittleEndian16(disk);
  }

  /** A record a reader can find: its length is one a block of this size can hold. */
  predicate Readable(recLen: nat, blockSize: nat) {
    Aligned(recLen) && recLen <= blockSize <= MAX_BLOCK
  }

  /** A record reads back as its entry and its length, whatever follows it. */
  lemma ReadRecord(e: DirEntry, recLen: nat, blockSize: nat, rest: Bytes)
    requires Fits(e, recLen) && Readable(recLen, blockSize)
    ensures ReadFrom(Record(e, recLen, blockSize) + rest, blockSize) == Ok((e, recLen))
  {
    var disk, zeros := RecLenToDisk(recLen, blockSize), Zeros(recLen - 8 - |e.name|);
    var after := e.name + zeros + rest;
    var buf := Header(e.inode, disk, |e.name|, e.fileType.ToByte()) + after;
    assert Record(e, recLen, blockSize) + rest == buf;
    ReadHeader(e.inode, disk, |e.name|, e.fileType.ToByte(), after);
    RecLenReadsBack(recLen, blockSize);
    AlignedMod(recLen);
    assert buf[8..8 + |e.name|] == buf[8..][..|e.name|] == e.name;
  }

  /** The checksum tail reads as an unused slot. */
  lemma ReadTail(checksum: u32, blockSize: nat, rest: Bytes)
    requires DIR_TAIL_LEN <= blockSize <= MAX_BLOCK
    ensures ReadFrom(Tail(checksum) + rest, blockSize) == Ok((DirEntry(0, Unknown, []), DIR_TAIL_LEN))
  {
    var after := LittleEndian(checksum) + rest;
    assert Tail(checksum) + rest == Header(0, DIR_TAIL_LEN, 0, DIR_TAIL_FT) + after;
    ReadHeader(0, DIR_TAIL_LEN, 0, DIR_TAIL_FT, after);
    RecLenReadsBack(DIR_TAIL_LEN, blockSize);
    assert (Tail(checksum) + rest)[8..8] == [];
  }

  // ----- writing in place -----

  /** `s` with `b` written over it at `off`. */
  function Splice(s: Bytes, off: nat, b: Bytes): (r: Bytes)
    requires off + |b| <= |s|
    ensures |r| == |s|
  {
    s[..off] + b + s[off + |b|..]
  }

  /** Bytes written over bytes of the same length leave what is around them. */
  lemma SpliceOver(before: Bytes, was: Bytes, after: Bytes, b: Bytes)
    requires |was| == |b|
    ensures Splice(before + was + after, |before|, b) == before + b + after
  {
    assert (before + was + after)[..|before|] == before;
    assert (before + was + after)[|before| + |b|..] == after;
  }

  lemma SpliceNext(s: Bytes, off: nat, a: Bytes, b: Bytes)
    requires off + |a| + |b| <= |s|
    ensures Splice(Splice(s, off, a), off + |a|, b) == Splice(s, off, a + b)
  {
    var before, over := s[..off] + a, s[off + |a|..off + |a| + |b|];
    assert Splice(s, off, a) == before + over + s[off + |a| + |b|..];
    SpliceOver(before, over, s[off + |a| + |b|..], b);
  }

  method Put(buf: array<u8>, off: nat, b: Bytes)
    requires off + |b| <= buf.Length
    modifies buf
    ensures buf[..] == Splice(old(buf[..]), off, b)
  {
    forall i | 0 <= i < |b| { buf[off + i] := b[i]; }
  }

  /** Serialize an entry at `off`, where `room` bytes are its to fill, claiming `recLen` of them; a fault
      leaves the buffer as it was. */
  method WriteTo(e: DirEntry, buf: array<u8>, off: nat, room: nat, recLen: nat, blockSize: nat)
    returns (fault: Option<ParseError>)
    requires off + room <= buf.Length
    modifies buf
    ensures fault == WriteFault(e, recLen, room)
    ensures fault.None? ==>
      8 + |e.name| <= recLen <= room && buf[..] == Splice(old(buf[..]), off, Stored(e, recLen, blockSize))
    ensures fault.Some? ==> buf[..] == old(buf[..])
  {
    if |e.name| > NAME_MAX { return Some(InvalidField(NameLen, |e.name|)); }
    if recLen < MinRecLen(|e.name|) || !Aligned(recLen) { return Some(InvalidField(RecLen, recLen)); }
    if room < recLen { return Some(TooShort(recLen, room)); }
    MinRecLenHolds(|e.name|);
    ghost var before := buf[..];
    var disk: u16 := RecLenToDisk(recLen, blockSize);
    Put(buf, off, LittleEndian(e.inode));
    Put(buf, off + 4, LittleEndian16(disk));
    SpliceNext(before, off, LittleEndian(e.inode), LittleEndian16(disk));
    Put(buf, off + 6, [|e.name|, e.fileType.ToByte()]);
    SpliceNext(before, off, LittleEndian(e.inode) + LittleEndian16(disk), [|e.name|, e.fileType.ToByte()]);
    Put(buf, off + 8, e.name);
    SpliceNext(before, off, Header(e.inode, disk, |e.name|, e.fileType.ToByte()), e.name);
    return None;
  }

  /** What `WriteTo` refuses, of an entry to be written into so much room. */
  function WriteFault(e: DirEntry, recLen: nat, room: nat): Option<ParseError> {
    if |e.name| > NAME_MAX then Some(InvalidField(NameLen, |e.name|))
    else if recLen < MinRecLen(|e.name|) || !Aligned(recLen) then Some(InvalidField(RecLen, recLen))
    else if room < recLen then Some(TooShort(recLen, room))
    else None
  }

  /** Write the checksum tail at `off`, where `room` bytes are its to fill. */
  method WriteDirTail(buf: array<u8>, off: nat, room: nat, checksum: u32) returns (fault: Option<ParseError>)
    requires off + room <= buf.Length
    modifies buf
    ensures fault == if room < DIR_TAIL_LEN then Some(TooShort(DIR_TAIL_LEN, room)) else None
    ensures fault.None? ==> buf[..] == Splice(old(buf[..]), off, Tail(checksum))
    ensures fault.Some? ==> buf[..] == old(buf[..])
  {
    if room < DIR_TAIL_LEN { return Some(TooShort(DIR_TAIL_LEN, room)); }
    ghost var before := buf[..];
    Put(buf, off, LittleEndian(0));
    Put(buf, off + 4, LittleEndian16(DIR_TAIL_LEN));
    SpliceNext(before, off, LittleEndian(0), LittleEndian16(DIR_TAIL_LEN));
    Put(buf, off + 6, [0, DIR_TAIL_FT]);
    SpliceNext(before, off, LittleEndian(0) + LittleEndian16(DIR_TAIL_LEN), [0, DIR_TAIL_FT]);
    Put(buf, off + 8, LittleEndian(checksum));
    SpliceNext(before, off, Header(0, DIR_TAIL_LEN, 0, DIR_TAIL_FT), LittleEndian(checksum));
    return None;
  }
}
