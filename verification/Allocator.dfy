/** The block allocator: a packed bitmap with a scan cursor, proved against `AllocSpec`. */
module Alloc {
  import opened Wrappers
  import opened Bitmap
  import opened AllocSpec

  datatype AllocError =
    | OutOfSpace(requested: nat, available: nat)
    | BitmapTooLargeInMemory(bytes: nat)

  /** What the allocator reads of a planned filesystem. */
  datatype Layout = Layout(
    blocksPerGroup: nat, totalBlocks: nat, firstDataBlock: nat, groupCount: nat,
    metadataRegions: seq<BlockRange>)
  {
    function Positions(): nat { groupCount * blocksPerGroup }

    predicate Planned() {
      && blocksPerGroup > 0 && blocksPerGroup % 8 == 0
      && firstDataBlock <= totalBlocks <= firstDataBlock + Positions()
    }
  }

  /** The state a new allocator starts in: padding and metadata are used, all else is free. */
  ghost predicate Initial(layout: Layout, v: View)
    requires layout.Planned()
  {
    && v.first == v.cursor == layout.firstDataBlock
    && v.total == layout.totalBlocks
    && |v.used| == layout.Positions()
    && forall b: nat {:trigger v.Used(b)} ::
         v.Used(b) <==> b < v.first || b >= v.total || Within(layout.metadataRegions, b)
  }

  /** A whole number of groups is a whole number of bytes. */
  lemma WholeBytes(groups: nat, perGroup: nat)
    requires perGroup % 8 == 0
    ensures groups * perGroup / 8 == groups * (perGroup / 8)
    ensures groups * perGroup == 8 * (groups * (perGroup / 8))
  {
    var p := perGroup / 8;
    assert groups * (8 * p) == 8 * (groups * p);
  }

  /** The state before anything is marked. */
  ghost predicate Unmarked(layout: Layout, v: View) {
    && v.first == v.cursor == layout.firstDataBlock
    && v.total == layout.totalBlocks
    && |v.used| == layout.Positions()
    && forall i :: 0 <= i < |v.used| ==> !v.used[i]
  }

  lemma InitialFromUnmarked(layout: Layout, v: View, padded: View, w: View)
    requires layout.Planned() && Unmarked(layout, v)
    requires MarkedRange(v, BlockRange(layout.totalBlocks, v.first + |v.used| - layout.totalBlocks), padded)
    requires Marked(padded, layout.metadataRegions, w) && w.cursor == v.cursor
    ensures Initial(layout, w) && w.Inv()
  {
  }

  class Allocator {
    const bits: array<bv8>
    const totalBlocks: nat
    const blocksPerGroup: nat
    const bytesPerGroup: nat
    const firstDataBlock: nat
    ghost const groupCount: nat
    var cursor: nat

    ghost function Abs(): View
      reads this, bits
    {
      View(firstDataBlock, totalBlocks, Flags(bits[..]), cursor)
    }

    ghost predicate Valid()
      reads this, bits
    {
      && Abs().Inv()
      && blocksPerGroup > 0 && blocksPerGroup == 8 * bytesPerGroup
      && bits.Length == groupCount * bytesPerGroup
    }

    constructor (layout: Layout)
      requires layout.Planned()
      ensures Valid() && fresh(bits)
      ensures Initial(layout, Abs())
      ensures blocksPerGroup == layout.blocksPerGroup && groupCount == layout.groupCount
    {
      WholeBytes(layout.groupCount, layout.blocksPerGroup);
      bytesPerGroup := layout.blocksPerGroup / 8;
      groupCount := layout.groupCount;
      bits := new bv8[layout.groupCount * layout.blocksPerGroup / 8](_ => 0);
      totalBlocks := layout.totalBlocks;
      blocksPerGroup := layout.blocksPerGroup;
      firstDataBlock := layout.firstDataBlock;
      cursor := layout.firstDataBlock;
      new;
      ghost var empty := Abs();
      forall i | 0 <= i < |empty.used| ensures !empty.used[i] { NoFlags(bits[..], i); }
      // the final group's padding
      var lastDescribed := layout.firstDataBlock + layout.Positions();
      var b := layout.totalBlocks;
      while b < lastDescribed
        invariant layout.totalBlocks <= b <= lastDescribed
        invariant MarkedRange(empty, BlockRange(layout.totalBlocks, b - layout.totalBlocks), Abs())
        invariant cursor == empty.cursor
      {
        Set(b);
        b := b + 1;
      }
      ghost var padded := Abs();
      // fixed metadata
      MarkAll(layout.metadataRegions);
      InitialFromUnmarked(layout, empty, padded, Abs());
    }

    /** An allocator for `layout`, where a bitmap of it fits the `addressable` bytes of memory. */
    static method New(layout: Layout, addressable: nat) returns (r: Result<Allocator, AllocError>)
      requires layout.Planned()
      ensures r.Err? <==> layout.Positions() / 8 > addressable
      ensures r.Err? ==> r.error == BitmapTooLargeInMemory(layout.Positions() / 8)
      ensures r.Ok? ==> fresh(r.value) && fresh(r.value.bits) && r.value.Valid() && Initial(layout, r.value.Abs())
      ensures r.Ok? ==> r.value.groupCount == layout.groupCount
    {
      var bytes := layout.groupCount * layout.blocksPerGroup / 8;
      if bytes > addressable { return Err(BitmapTooLargeInMemory(bytes)); }
      var a := new Allocator(layout);
      return Ok(a);
    }

    /** The position of block `b`, or `None` where no bitmap position describes it. */
    function Bit(b: nat): (i: Option<nat>)
    {
      if b < firstDataBlock then None
      else if (b - firstDataBlock) / 8 < bits.Length then Some(b - firstDataBlock)
      else None
    }

    method Set(b: nat)
      modifies bits
      ensures MarkedRange(old(Abs()), BlockRange(b, 1), Abs())
      ensures cursor == old(cursor)
    {
      var i := Bit(b);
      MarkedBit(Abs(), b);
      if i.Some? {
        var k, j := i.value / 8, i.value % 8;
        FlagsSet(bits[..], k, j);
        bits[k] := With(bits[k], j);
        assert bits[..] == old(bits[..])[k := With(old(bits[k]), j)];
        assert Abs() == old(Abs().(used := Abs().used[b - firstDataBlock := true]));
      }
    }

    predicate IsUsed(b: nat)
      reads this, bits
      ensures IsUsed(b) <==> Abs().Used(b)
    {
      var i := Bit(b);
      assert i.Some? ==> Abs().used[i.value] == Has(bits[i.value / 8], i.value % 8) by {
        if i.Some? { FlagAt(bits[..], i.value); }
      }
      i.None? || Has(bits[i.value / 8], i.value % 8)
    }

    /** Mark the blocks of `range` used, skipping those no position describes. */
    method MarkUsed(range: BlockRange)
      modifies bits
      ensures Next(old(Abs()), MarkedUsed(range), Abs())
      ensures old(Valid()) ==> Valid()
    {
      var b := range.start;
      while b < range.End()
        invariant range.start <= b <= range.End()
        invariant MarkedRange(old(Abs()), BlockRange(range.start, b - range.start), Abs())
      {
        Set(b);
        b := b + 1;
      }
      if old(Valid()) { MarkedKeepsInv(old(Abs()), range, Abs()); }
    }

    /** Mark each of several ranges in turn. */
    method MarkAll(ranges: seq<BlockRange>)
      modifies bits
      ensures Marked(old(Abs()), ranges, Abs())
      ensures cursor == old(cursor)
    {
      var k := 0;
      while k < |ranges|
        invariant 0 <= k <= |ranges|
        invariant Marked(old(Abs()), ranges[..k], Abs())
      {
        ghost var before := Abs();
        MarkUsed(ranges[k]);
        MarkedSnoc(old(Abs()), ranges[..k], before, ranges[k], Abs());
        assert ranges[..k + 1] == ranges[..k] + [ranges[k]];
        k := k + 1;
      }
      assert ranges[..k] == ranges;
    }

    // ----- allocating -----

    /** Past the used blocks from `from`. */
    method SkipUsed(from: nat, ghost v: View) returns (i: nat)
      requires Abs() == v && from <= totalBlocks
      ensures from <= i <= totalBlocks
      ensures AllUsed(v, from, i)
      ensures i == totalBlocks || !v.Used(i)
    {
      i := from;
      while i < totalBlocks && IsUsed(i)
        invariant from <= i <= totalBlocks
        invariant AllUsed(v, from, i)
      {
        i := i + 1;
      }
    }

    /** Past the free blocks from `start`, at most `limit` of them where there is a limit. */
    method SkipFree(start: nat, limit: Option<nat>, ghost v: View) returns (i: nat)
      requires Abs() == v && firstDataBlock <= start <= totalBlocks
      ensures start <= i <= totalBlocks
      ensures AllFree(v, start, i)
      ensures limit.Some? ==> i - start <= limit.value
      ensures i == totalBlocks || v.Used(i) || limit == Some(i - start)
    {
      i := start;
      while i < totalBlocks && !IsUsed(i) && (limit.Some? ==> i - start < limit.value)
        invariant start <= i <= totalBlocks
        invariant limit.Some? ==> i - start <= limit.value
        invariant AllFree(v, start, i)
      {
        i := i + 1;
      }
    }

    /** Gather runs of `count` free blocks without committing them; `remaining` were not found. */
    method Gather(count: nat, ghost v: View) returns (ranges: seq<BlockRange>, i: nat, remaining: nat)
      requires Abs() == v && v.Inv()
      ensures remaining <= count
      ensures remaining == 0 ==> Scanning(v, count, ranges, i, 0)
      ensures remaining > 0 ==> v.FreeCount() == count - remaining
    {
      ranges, remaining, i := [], count, cursor;
      ScanStart(v, count);
      while remaining > 0
        invariant Abs() == v
        invariant remaining <= count && Scanning(v, count, ranges, i, remaining)
      {
        var start := SkipUsed(i, v);
        if start >= totalBlocks {
          ScanEnd(v, count, ranges, i, remaining);
          return;
        }
        var end := SkipFree(start, Some(remaining), v);
        ScanRun(v, count, ranges, i, remaining, start, end);
        ranges := ranges + [BlockRange(start, end - start)];
        remaining := remaining - (end - start);
        i := end;
      }
    }

    /** `count` blocks as sorted runs, or how many were free, changing nothing. */
    method Allocate(count: nat) returns (r: Result<seq<BlockRange>, AllocError>)
      requires Valid()
      modifies this`cursor, bits
      ensures Valid()
      ensures r.Ok? <==> count <= old(Abs()).FreeCount()
      ensures Next(old(Abs()), if r.Ok? then Took(count, r.value) else Refused, Abs())
      ensures r.Err? ==> r.error == OutOfSpace(count, old(Abs()).FreeCount())
    {
      ghost var v := Abs();
      if count == 0 {
        EmptyAllocation(v);
        return Ok([]);
      }
      var ranges, i, remaining := Gather(count, v);
      if remaining > 0 {
        return Err(OutOfSpace(count, count - remaining));
      }
      MarkAll(ranges);
      ghost var marked := Abs();
      Commit(v, ranges, i, marked);
      cursor := i;
      assert Abs() == marked.(cursor := i);
      return Ok(ranges);
    }

    /** A run of `count` blocks wherever the first long enough one is, the cursor ignored. */
    method AllocateContiguous(count: nat) returns (r: Option<BlockRange>)
      requires Valid()
      modifies bits
      ensures Valid()
      ensures r.None? <==> forall s: nat :: Blocked(old(Abs()), count, s)
      ensures Next(old(Abs()), if r.Some? then TookRun(count, r.value) else Refused, Abs())
      ensures count == 0 ==> r == Some(BlockRange(firstDataBlock, 0))
    {
      ghost var v := Abs();
      if count == 0 {
        assert !Blocked(v, 0, 0);
        return Some(BlockRange(firstDataBlock, 0));
      }
      var i := firstDataBlock;
      BlockedByUsed(v, count, 0, i);
      while i < totalBlocks
        invariant firstDataBlock <= i <= totalBlocks
        invariant Abs() == v
        invariant forall s: nat :: s < i ==> Blocked(v, count, s)
      {
        var start := SkipUsed(i, v);
        BlockedByUsed(v, count, i, start);
        i := SkipFree(start, None, v);
        if i - start >= count {
          var range := BlockRange(start, count);
          MarkUsed(range);
          assert !Blocked(v, count, start);
          MarkedKeepsInv(v, range, Abs());
          return Some(range);
        }
        BlockedBefore(v, count, start, i);
      }
      BlockedPastEnd(v, count);
      return None;
    }

    /** The lowest free block. */
    method AllocateOne() returns (r: Result<nat, AllocError>)
      requires Valid()
      modifies this`cursor, bits
      ensures Valid()
      ensures r.Ok? <==> old(Abs()).FreeCount() > 0
      ensures Next(old(Abs()), if r.Ok? then Took(1, [BlockRange(r.value, 1)]) else Refused, Abs())
      ensures r.Err? ==> r.error == OutOfSpace(1, 0)
    {
      var ranges := Allocate(1);
      if ranges.Err? { return Err(ranges.error); }
      OneRun(ranges.value);
      return Ok(ranges.value[0].start);
    }

    // ----- accounting -----

    /** Free blocks in the whole filesystem, by popcount. */
    method FreeCount() returns (free: nat)
      requires Valid()
      ensures free == Abs().FreeCount()
    {
      var positions := totalBlocks - firstDataBlock;
      var used := UsedInPrefix(bits[..], positions);
      CountIsFree(Abs(), positions);
      free := positions - used;
    }

    /** The on-disk bitmap of group `index`, or `None` past the last group. */
    method GroupBitmap(index: nat) returns (r: Option<seq<bv8>>)
      requires Valid()
      ensures r.Some? <==> index < groupCount
      ensures r.Some? ==> |r.value| == bytesPerGroup
      ensures r.Some? ==> forall j :: 0 <= j < blocksPerGroup ==>
        Flag(r.value, j) == Abs().Used(firstDataBlock + index * blocksPerGroup + j)
    {
      var start := index * bytesPerGroup;
      GroupFits(index, groupCount, bytesPerGroup);
      if start + bytesPerGroup <= bits.Length {
        r := Some(bits[start..start + bytesPerGroup]);
        assert index * blocksPerGroup == 8 * start;
        forall j | 0 <= j < blocksPerGroup
          ensures Flag(r.value, j) == Abs().Used(firstDataBlock + index * blocksPerGroup + j)
        {
          FlagOf(bits[..], start + j / 8, j % 8);
          assert 8 * start + j == 8 * (start + j / 8) + j % 8;
        }
      } else {
        r := None;
      }
    }

    /** Free blocks of one group, by popcount of its slice; the padding of a partial group is not counted. */
    method GroupFreeCount(index: nat) returns (free: nat)
      requires Valid()
      ensures free == if index < groupCount then GroupFree(Abs(), blocksPerGroup, index) else 0
    {
      var start := firstDataBlock + index * blocksPerGroup;
      var end := if start + blocksPerGroup <= totalBlocks then start + blocksPerGroup else totalBlocks;
      var positions := if end >= start then end - start else 0;
      var bytes := GroupBitmap(index);
      if bytes.None? { return 0; }
      free := FreeAmong(bytes.value, start, positions, Abs());
      GroupSpan(Abs(), blocksPerGroup, index, start, positions);
    }

    /** Free positions among the first of a slice that describes the blocks from `start`. */
    method FreeAmong(bytes: seq<bv8>, start: nat, positions: nat, ghost v: View) returns (free: nat)
      requires positions <= 8 * |bytes|
      requires forall j :: 0 <= j < positions ==> Flag(bytes, j) == v.Used(start + j)
      ensures free == v.FreeIn(start, start + positions)
    {
      var used := UsedInPrefix(bytes, positions);
      forall j | 0 <= j < positions ensures Flags(bytes)[j] == v.Used(start + j) { FlagAt(bytes, j); }
      CountInGroup(v, Flags(bytes), start, positions);
      free := positions - used;
    }
  }
}
