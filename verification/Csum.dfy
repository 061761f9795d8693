/** The metadata-checksum recipes: what each object folds into CRC-32C before its own bytes.

    A recipe exists so that an object moved to another owner fails its checksum. Two identities
    meet in a recipe through one difference word, so the claim has an exact answer: the lemmas
    give, for each recipe, the condition on two identities under which the same bytes carry the
    same checksum, and both the identities the recipes always tell apart and pairs they do not. */
module Csum {
  import opened Words
  import opened Crc

  const GENERATION_OFFSET := 0x64

  /** The two implementations of the seam. */
  datatype Checksummer = NullCsum | Crc32cSum(seed: u32) {

    function BaseSeed(): u32 {
      if NullCsum? then 0 else seed
    }

    function Crc32c(from: u32, data: seq<u8>): u32 {
      if NullCsum? then 0 else Bitwise(from, data)
    }
  }

  function LittleEndian64(w: u64): (b: seq<u8>)
    ensures |b| == 8
  {
    LittleEndian(w % 0x1_0000_0000) + LittleEndian(w / 0x1_0000_0000)
  }

  function InodeSeed(csum: Checksummer, ino: u32, generation: u32): u32 {
    csum.Crc32c(csum.Crc32c(csum.BaseSeed(), LittleEndian(ino)), LittleEndian(generation))
  }

  function GroupDescriptor(csum: Checksummer, group: u32, bytes: seq<u8>): u16 {
    csum.Crc32c(csum.Crc32c(csum.BaseSeed(), LittleEndian(group)), bytes) % 0x1_0000
  }

  function Inode(csum: Checksummer, number: u32, generation: u32, bytes: seq<u8>, hasHigh: bool): u32 {
    var c := csum.Crc32c(InodeSeed(csum, number, generation), bytes);
    if hasHigh then c else c % 0x1_0000
  }

  /** The checksum of an inode as it is read and written: its generation is one of its own bytes. */
  function InodeOf(csum: Checksummer, number: u32, bytes: seq<u8>, hasHigh: bool): u32
    requires |bytes| >= GENERATION_OFFSET + 4
  {
    Inode(csum, number, Word(bytes[GENERATION_OFFSET..GENERATION_OFFSET + 4]), bytes, hasHigh)
  }

  /** The checksum of an extent node, or of a directory's block of entries: bytes that chain from the
      owner's seed and hold neither its number nor its generation. */
  function OwnedBlock(csum: Checksummer, ino: u32, generation: u32, bytes: seq<u8>): u32 {
    csum.Crc32c(InodeSeed(csum, ino, generation), bytes)
  }

  function OrphanBlock(csum: Checksummer, ino: u32, generation: u32, block: u64, entries: seq<u8>): u32 {
    csum.Crc32c(csum.Crc32c(InodeSeed(csum, ino, generation), LittleEndian64(block)), entries)
  }

  function XattrBlock(csum: Checksummer, block: u64, bytes: seq<u8>): u32 {
    csum.Crc32c(csum.Crc32c(csum.BaseSeed(), LittleEndian64(block)), bytes)
  }

  // ----- what two identities differ by, once folded -----

  /** The difference two 32-bit words leave in the state. */
  lemma WordDifference(s: u32, t: u32, v: u32, w: u32)
    ensures Xor32(Bitwise(s, LittleEndian(v)), Bitwise(t, LittleEndian(w)))
         == Steps(32, Xor32(Xor32(s, t), Xor32(v, w)))
  {
    BitwiseWord(s, LittleEndian(v));
    BitwiseWord(t, LittleEndian(w));
    StepsXor(32, Xor32(s, v), Xor32(t, w));
    XorExchange(s, v, t, w);
  }

  /** What two inode identities differ by. */
  function InodeDifference(ino: u32, generation: u32, ino': u32, generation': u32): u32 {
    Steps(32, Xor32(Steps(32, Xor32(ino, ino')), Xor32(generation, generation')))
  }

  /** What two block numbers, folded from seeds that differ by `seeds`, differ by. */
  function BlockDifference(seeds: u32, block: u64, block': u64): u32 {
    Steps(32, Xor32(
      Steps(32, Xor32(seeds, Xor32(block % 0x1_0000_0000, block' % 0x1_0000_0000))),
      Xor32(block / 0x1_0000_0000, block' / 0x1_0000_0000)))
  }

  lemma InodeSeedDifference(csum: Checksummer, ino: u32, generation: u32, ino': u32, generation': u32)
    requires csum.Crc32cSum?
    ensures Xor32(InodeSeed(csum, ino, generation), InodeSeed(csum, ino', generation'))
         == InodeDifference(ino, generation, ino', generation')
  {
    var base := csum.BaseSeed();
    var c, c' := Bitwise(base, LittleEndian(ino)), Bitwise(base, LittleEndian(ino'));
    WordDifference(base, base, ino, ino');
    XorSelf(base);
    XorZero(Xor(ino, ino'));
    WordDifference(c, c', generation, generation');
  }

  lemma BlockSeedDifference(s: u32, t: u32, block: u64, block': u64)
    ensures Xor32(Bitwise(s, LittleEndian64(block)), Bitwise(t, LittleEndian64(block')))
         == BlockDifference(Xor32(s, t), block, block')
  {
    var low, high := block % 0x1_0000_0000, block / 0x1_0000_0000;
    var low', high' := block' % 0x1_0000_0000, block' / 0x1_0000_0000;
    BitwiseConcat(s, LittleEndian(low), LittleEndian(high));
    BitwiseConcat(t, LittleEndian(low'), LittleEndian(high'));
    WordDifference(s, t, low, low');
    WordDifference(Bitwise(s, LittleEndian(low)), Bitwise(t, LittleEndian(low')), high, high');
  }

  /** `Steps(32, a ^ b)` vanishes exactly when `a` and `b` agree. */
  lemma StepsVanish(n: nat, a: u32, b: u32)
    ensures Steps(n, Xor32(a, b)) == 0 <==> a == b
  {
    StepsZero(n);
    StepsInjective(n, Xor32(a, b), 0);
    XorEqualsZero(a, b);
  }

  lemma SameSum(s: u32, t: u32, data: seq<u8>)
    ensures Bitwise(s, data) == Bitwise(t, data) <==> Xor32(s, t) == 0
  {
    BitwiseInjective(s, t, data);
    XorEqualsZero(s, t);
  }

  // ----- the recipes at full width: exactly which identities collide -----

  /** Two inode identities share a seed exactly when their generations differ by the division of
      what their numbers differ by. */
  lemma InodeSeedCollides(csum: Checksummer, ino: u32, generation: u32, ino': u32, generation': u32)
    requires csum.Crc32cSum?
    ensures InodeSeed(csum, ino, generation) == InodeSeed(csum, ino', generation')
       <==> Steps(32, Xor32(ino, ino')) == Xor32(generation, generation')
  {
    InodeSeedDifference(csum, ino, generation, ino', generation');
    StepsVanish(32, Steps(32, Xor32(ino, ino')), Xor32(generation, generation'));
    XorEqualsZero(InodeSeed(csum, ino, generation), InodeSeed(csum, ino', generation'));
  }

  lemma InodeCollides(csum: Checksummer, ino: u32, generation: u32, ino': u32, generation': u32, bytes: seq<u8>)
    requires csum.Crc32cSum?
    ensures Inode(csum, ino, generation, bytes, true) == Inode(csum, ino', generation', bytes, true)
       <==> Steps(32, Xor32(ino, ino')) == Xor32(generation, generation')
  {
    InodeSeedCollides(csum, ino, generation, ino', generation');
    BitwiseInjective(InodeSeed(csum, ino, generation), InodeSeed(csum, ino', generation'), bytes);
  }

  lemma OrphanBlockCollides(csum: Checksummer, ino: u32, generation: u32, block: u64,
                            ino': u32, generation': u32, block': u64, entries: seq<u8>)
    requires csum.Crc32cSum?
    ensures OrphanBlock(csum, ino, generation, block, entries) == OrphanBlock(csum, ino', generation', block', entries)
       <==> BlockDifference(InodeDifference(ino, generation, ino', generation'), block, block') == 0
  {
    var s, t := InodeSeed(csum, ino, generation), InodeSeed(csum, ino', generation');
    InodeSeedDifference(csum, ino, generation, ino', generation');
    BlockSeedDifference(s, t, block, block');
    SameSum(Bitwise(s, LittleEndian64(block)), Bitwise(t, LittleEndian64(block')), entries);
  }

  lemma XattrBlockCollides(csum: Checksummer, block: u64, block': u64, bytes: seq<u8>)
    requires csum.Crc32cSum?
    ensures XattrBlock(csum, block, bytes) == XattrBlock(csum, block', bytes)
       <==> BlockDifference(0, block, block') == 0
  {
    var base := csum.BaseSeed();
    XorSelf(base);
    BlockSeedDifference(base, base, block, block');
    SameSum(Bitwise(base, LittleEndian64(block)), Bitwise(base, LittleEndian64(block')), bytes);
  }

  // ----- what the recipes always tell apart -----

  lemma BlockDifferenceLow(seeds: u32, block: u64, block': u64)
    requires block / 0x1_0000_0000 == block' / 0x1_0000_0000
    ensures BlockDifference(seeds, block, block') == 0
       <==> seeds == Xor32(block % 0x1_0000_0000, block' % 0x1_0000_0000)
  {
    var lows := Xor32(block % 0x1_0000_0000, block' % 0x1_0000_0000);
    var x := Steps(32, Xor32(seeds, lows));
    XorSelf(block / 0x1_0000_0000);
    StepsVanish(32, x, 0);
    XorZero(x);
    StepsVanish(32, seeds, lows);
  }

  lemma DivisionVanishes(v: u32, w: u32)
    ensures Steps(32, Xor32(v, w)) == 0 <==> v == w
    ensures Xor32(v, w) == 0 <==> v == w
  {
    StepsVanish(32, v, w);
    XorEqualsZero(v, w);
  }

  /** A block moved between owners, its place unchanged, keeps its checksum exactly when the generations
      differ by the division of what the inode numbers differ by. */
  lemma MovedBlockCollides(csum: Checksummer, ino: u32, generation: u32, ino': u32, generation': u32, block: u64,
                           bytes: seq<u8>)
    requires csum.Crc32cSum?
    ensures OwnedBlock(csum, ino, generation, bytes) == OwnedBlock(csum, ino', generation', bytes)
       <==> Steps(32, Xor32(ino, ino')) == Xor32(generation, generation')
    ensures OrphanBlock(csum, ino, generation, block, bytes) == OrphanBlock(csum, ino', generation', block, bytes)
       <==> Steps(32, Xor32(ino, ino')) == Xor32(generation, generation')
  {
    InodeCollides(csum, ino, generation, ino', generation', bytes);
    OrphanBlockCollides(csum, ino, generation, block, ino', generation', block, bytes);
    InodeDifferenceBinds(ino, generation, ino', generation', block);
  }

  /** The same bytes under another inode number, with the generation unchanged, fail their checksum. */
  lemma InodeNumberBinds(csum: Checksummer, ino: u32, ino': u32, generation: u32, block: u64, bytes: seq<u8>)
    requires csum.Crc32cSum? && ino != ino'
    ensures Inode(csum, ino, generation, bytes, true) != Inode(csum, ino', generation, bytes, true)
    ensures OwnedBlock(csum, ino, generation, bytes) != OwnedBlock(csum, ino', generation, bytes)
    ensures OrphanBlock(csum, ino, generation, block, bytes) != OrphanBlock(csum, ino', generation, block, bytes)
  {
    MovedBlockCollides(csum, ino, generation, ino', generation, block, bytes);
    DivisionVanishes(ino, ino');
    XorSelf(generation);
  }

  /** An inode copied to another inode's place fails a checksum stored at full width: the generation goes
      with the bytes, and the number does not. `NarrowMoveCollides` is the other width. */
  lemma InodeMoveFails(csum: Checksummer, ino: u32, ino': u32, bytes: seq<u8>)
    requires csum.Crc32cSum? && ino != ino' && |bytes| >= GENERATION_OFFSET + 4
    ensures InodeOf(csum, ino, bytes, true) != InodeOf(csum, ino', bytes, true)
  {
    InodeNumberBinds(csum, ino, ino', Word(bytes[GENERATION_OFFSET..GENERATION_OFFSET + 4]), 0, bytes);
  }

  /** The same bytes under another generation of the same inode fail their checksum. */
  lemma GenerationBinds(csum: Checksummer, ino: u32, generation: u32, generation': u32, block: u64, bytes: seq<u8>)
    requires csum.Crc32cSum? && generation != generation'
    ensures Inode(csum, ino, generation, bytes, true) != Inode(csum, ino, generation', bytes, true)
    ensures OwnedBlock(csum, ino, generation, bytes) != OwnedBlock(csum, ino, generation', bytes)
    ensures OrphanBlock(csum, ino, generation, block, bytes) != OrphanBlock(csum, ino, generation', block, bytes)
  {
    MovedBlockCollides(csum, ino, generation, ino, generation', block, bytes);
    DivisionVanishes(generation, generation');
    XorSelf(ino);
    StepsZero(32);
  }

  lemma InodeDifferenceBinds(ino: u32, generation: u32, ino': u32, generation': u32, block: u64)
    ensures BlockDifference(InodeDifference(ino, generation, ino', generation'), block, block) == 0
       <==> Steps(32, Xor32(ino, ino')) == Xor32(generation, generation')
  {
    BlockDifferenceLow(InodeDifference(ino, generation, ino', generation'), block, block);
    XorSelf(block % 0x1_0000_0000);
    StepsVanish(32, Steps(32, Xor32(ino, ino')), Xor32(generation, generation'));
  }

  /** A block copied to another of the first 2^32 blocks fails its checksum. */
  lemma BlockNumberBinds(csum: Checksummer, ino: u32, generation: u32, block: u64, block': u64, bytes: seq<u8>)
    requires csum.Crc32cSum? && block != block'
    requires block < 0x1_0000_0000 && block' < 0x1_0000_0000
    ensures OrphanBlock(csum, ino, generation, block, bytes) != OrphanBlock(csum, ino, generation, block', bytes)
    ensures XattrBlock(csum, block, bytes) != XattrBlock(csum, block', bytes)
  {
    OrphanBlockCollides(csum, ino, generation, block, ino, generation, block', bytes);
    XattrBlockCollides(csum, block, block', bytes);
    XorSelf(ino); XorSelf(generation);
    StepsZero(32);
    XorZero(0);
    BlockDifferenceLow(0, block, block');
    DivisionVanishes(block, block');
  }

  // ----- and what they do not -----

  /** For every owner and every other inode number there is a generation under which a block of the first
      verifies as the second's, its place unchanged; so the claim needs one of the two to be unchanged. */
  lemma MovedBlockCanVerify(csum: Checksummer, ino: u32, generation: u32, ino': u32, block: u64, bytes: seq<u8>)
    requires csum.Crc32cSum?
    ensures var generation' := Xor32(generation, Steps(32, Xor32(ino, ino')));
      && OwnedBlock(csum, ino, generation, bytes) == OwnedBlock(csum, ino', generation', bytes)
      && OrphanBlock(csum, ino, generation, block, bytes) == OrphanBlock(csum, ino', generation', block, bytes)
  {
    var d := Steps(32, Xor32(ino, ino'));
    var generation' := Xor32(generation, d);
    XorCancel(generation, d);
    MovedBlockCollides(csum, ino, generation, ino', generation', block, bytes);
  }

  /** For every attribute block below 2^32 and every high half of a block number that an inode can store
      there is a block past 2^32 as which it verifies. */
  lemma FarBlockCanVerify(csum: Checksummer, block: u32, high: u16, bytes: seq<u8>)
    requires csum.Crc32cSum? && high > 0
    ensures var far: u64 := Xor32(block, Unsteps(32, high)) as int + 0x1_0000_0000 * high as int;
      block < far < 0x1_0000_0000_0000 && XattrBlock(csum, block, bytes) == XattrBlock(csum, far, bytes)
  {
    var d := Unsteps(32, high);
    var low := Xor32(block, d);
    var far: u64 := low as int + 0x1_0000_0000 * high as int;
    assert Steps(32, Xor32(block, low)) == high by {
      XorCancel(block, d);
      StepsInverse(32, high);
    }
    FarBlockVerifies(csum, block, low, bytes);
  }

  /** Two block numbers whose high words differ by the division of what their low words differ by
      carry one checksum. */
  lemma FarBlockVerifies(csum: Checksummer, block: u32, block': u32, bytes: seq<u8>)
    requires csum.Crc32cSum?
    ensures XattrBlock(csum, block, bytes)
         == XattrBlock(csum, block' as int + 0x1_0000_0000 * Steps(32, Xor32(block, block')) as int, bytes)
  {
    var d := Steps(32, Xor32(block, block'));
    var far: u64 := block' as int + 0x1_0000_0000 * d as int;
    assert BlockDifference(0, block, far) == 0 by {
      assert far % 0x1_0000_0000 == block' && far / 0x1_0000_0000 == d;
      XorZero(Xor(block, block'));
      XorZero(d);
      StepsVanish(32, d, d);
    }
    XattrBlockCollides(csum, block, far, bytes);
  }

  // ----- the sixteen-bit recipes -----

  lemma XorLow16(a: u32, b: u32)
    ensures Xor32(a, b) % 0x1_0000 == 0 <==> a % 0x1_0000 == b % 0x1_0000
  {
    LowBytes(a); LowBytes(b); LowBytes(Xor32(a, b));
    XorByte(a, b);
    XorByte(a / 256, b / 256);
    XorEqualsZero(a % 256, b % 256);
    XorEqualsZero(a / 256 % 256, b / 256 % 256);
  }

  lemma LowBytes(x: nat)
    ensures x % 0x1_0000 == x % 256 + 256 * (x / 256 % 256)
  {
  }

  /** A group descriptor stores half the checksum, so two groups share one exactly when the low
      half of what they differ by, divided over the descriptor, is zero. */
  lemma GroupDescriptorCollides(csum: Checksummer, group: u32, group': u32, bytes: seq<u8>)
    requires csum.Crc32cSum?
    ensures GroupDescriptor(csum, group, bytes) == GroupDescriptor(csum, group', bytes)
       <==> Steps(32 + 8 * |bytes|, Xor32(group, group')) % 0x1_0000 == 0
  {
    var base := csum.BaseSeed();
    var c, c' := Bitwise(base, LittleEndian(group)), Bitwise(base, LittleEndian(group'));
    GroupDifference(base, group, group', bytes);
    XorLow16(Bitwise(c, bytes), Bitwise(c', bytes));
  }

  lemma GroupDifference(base: u32, group: u32, group': u32, bytes: seq<u8>)
    ensures Xor32(Bitwise(Bitwise(base, LittleEndian(group)), bytes),
                  Bitwise(Bitwise(base, LittleEndian(group')), bytes))
         == Steps(32 + 8 * |bytes|, Xor32(group, group'))
  {
    GroupSeedDifference(base, group, group');
    CarriedDifference(Bitwise(base, LittleEndian(group)), Bitwise(base, LittleEndian(group')), 32,
                      Xor32(group, group'), bytes);
  }

  /** A difference carried through more bytes is divided further. */
  lemma CarriedDifference(s: u32, t: u32, n: nat, d: u32, bytes: seq<u8>)
    requires Xor32(s, t) == Steps(n, d)
    ensures Xor32(Bitwise(s, bytes), Bitwise(t, bytes)) == Steps(n + 8 * |bytes|, d)
  {
    BitwiseSeeds(s, t, bytes);
    StepsSum(n, 8 * |bytes|, d);
  }

  lemma GroupSeedDifference(base: u32, group: u32, group': u32)
    ensures Xor32(Bitwise(base, LittleEndian(group)), Bitwise(base, LittleEndian(group'))) ==
      Steps(32, Xor32(group, group'))
  {
    WordDifference(base, base, group, group');
    XorSelf(base);
    XorZero(Xor(group, group'));
  }

  /** The same of an inode too small for the high half of its checksum. */
  lemma NarrowInodeCollides(csum: Checksummer, ino: u32, generation: u32, ino': u32, generation': u32, bytes: seq<u8>)
    requires csum.Crc32cSum?
    ensures Inode(csum, ino, generation, bytes, false) == Inode(csum, ino', generation', bytes, false)
       <==> Steps(8 * |bytes|, InodeDifference(ino, generation, ino', generation')) % 0x1_0000 == 0
  {
    var s, t := InodeSeed(csum, ino, generation), InodeSeed(csum, ino', generation');
    InodeSeedDifference(csum, ino, generation, ino', generation');
    BitwiseSeeds(s, t, bytes);
    XorLow16(Bitwise(s, bytes), Bitwise(t, bytes));
  }

  /** A word that differs from another by what `n` steps carry past the low sixteen bits. */
  lemma DifferenceLost(n: nat, v: u32) returns (w: u32)
    ensures w != v && Steps(n, Xor32(v, w)) % 0x1_0000 == 0
  {
    var d := Unsteps(n, 0x1_0000);
    assert Steps(n, d) == 0x1_0000 && d != 0 by {
      StepsInverse(n, 0x1_0000);
      StepsZero(n);
    }
    w := Xor32(v, d);
    assert Xor32(v, w) == d by { XorCancel(v, d); }
    XorEqualsZero(v, w);
  }

  /** Whatever a descriptor holds, some other group's number gives it the same stored checksum. */
  lemma GroupDescriptorCanVerifyElsewhere(csum: Checksummer, group: u32, bytes: seq<u8>) returns (group': u32)
    requires csum.Crc32cSum?
    ensures group' != group
    ensures GroupDescriptor(csum, group, bytes) == GroupDescriptor(csum, group', bytes)
  {
    group' := DifferenceLost(32 + 8 * |bytes|, group);
    GroupDescriptorCollides(csum, group, group', bytes);
  }

  /** An inode that stores sixteen bits of its checksum verifies in another inode's place exactly when the
      low half of what the numbers differ by, divided over the generation and the bytes, is zero. */
  lemma NarrowMoveCollides(csum: Checksummer, ino: u32, ino': u32, bytes: seq<u8>)
    requires csum.Crc32cSum? && |bytes| >= GENERATION_OFFSET + 4
    ensures InodeOf(csum, ino, bytes, false) == InodeOf(csum, ino', bytes, false)
       <==> Steps(64 + 8 * |bytes|, Xor32(ino, ino')) % 0x1_0000 == 0
  {
    var generation, d := Word(bytes[GENERATION_OFFSET..GENERATION_OFFSET + 4]), Xor32(ino, ino');
    NarrowInodeCollides(csum, ino, generation, ino', generation, bytes);
    XorSelf(generation);
    XorZero(Steps(32, d));
    StepsSum(32, 32, d);
    StepsSum(64, 8 * |bytes|, d);
  }

  /** Whatever such an inode holds, there is another inode in whose place it verifies. */
  lemma NarrowInodeCanVerifyElsewhere(csum: Checksummer, ino: u32, bytes: seq<u8>) returns (ino': u32)
    requires csum.Crc32cSum? && |bytes| >= GENERATION_OFFSET + 4
    ensures ino' != ino && InodeOf(csum, ino, bytes, false) == InodeOf(csum, ino', bytes, false)
  {
    ino' := DifferenceLost(64 + 8 * |bytes|, ino);
    NarrowMoveCollides(csum, ino, ino', bytes);
  }
}
