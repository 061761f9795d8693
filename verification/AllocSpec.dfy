/** What the block allocator promises, over an abstract view of its state. */
module AllocSpec {
  import opened Bitmap

  /** A run of blocks. */
  datatype BlockRange = BlockRange(start: nat, len: nat) {
    function End(): nat { start + len }

    predicate Holds(b: nat) { start <= b < End() }
  }

  predicate Within(ranges: seq<BlockRange>, b: nat) {
    exists k :: 0 <= k < |ranges| && ranges[k].Holds(b)
  }

  lemma WithinSnoc(ranges: seq<BlockRange>, r: BlockRange, b: nat)
    ensures Within(ranges + [r], b) <==> Within(ranges, b) || r.Holds(b)
  {
    var all := ranges + [r];
    if r.Holds(b) { assert all[|ranges|].Holds(b); }
    if Within(ranges, b) {
      var k :| 0 <= k < |ranges| && ranges[k].Holds(b);
      assert all[k].Holds(b);
    }
  }

  function TotalLen(ranges: seq<BlockRange>): nat {
    if ranges == [] then 0 else TotalLen(ranges[..|ranges| - 1]) + ranges[|ranges| - 1].len
  }

  lemma TotalLenSnoc(ranges: seq<BlockRange>, r: BlockRange)
    ensures TotalLen(ranges + [r]) == TotalLen(ranges) + r.len
  {
    assert (ranges + [r])[..|ranges|] == ranges;
  }

  /** An allocator's state: which of the described positions are used, and where a scan begins. */
  datatype View = View(first: nat, total: nat, used: seq<bool>, cursor: nat) {

    /** A block outside the described window reads as used. */
    predicate Used(b: nat) {
      b < first || b - first >= |used| || used[b - first]
    }

    /** A block that may be handed out. */
    predicate Free(b: nat) {
      first <= b < total && !Used(b)
    }

    /** Every real block is described, padding is used, and nothing before the cursor is free. */
    ghost predicate Inv() {
      && first <= cursor <= total <= first + |used|
      && (forall b: nat :: b >= total ==> Used(b))
      && (forall b: nat :: b < cursor ==> Used(b))
    }

    /** The free blocks in `[lo, hi)`, counted one by one. */
    function FreeIn(lo: nat, hi: nat): nat
      requires lo <= hi
      decreases hi
    {
      if lo == hi then 0 else FreeIn(lo, hi - 1) + if Used(hi - 1) then 0 else 1
    }

    function FreeCount(): nat
      requires first <= total
    {
      FreeIn(first, total)
    }
  }

  /** `v'` is `v` with exactly the blocks of `ranges` marked used as well. */
  ghost predicate Marked(v: View, ranges: seq<BlockRange>, v': View) {
    && v'.first == v.first && v'.total == v.total && |v'.used| == |v.used|
    && forall b: nat {:trigger v'.Used(b)} :: v'.Used(b) <==> v.Used(b) || Within(ranges, b)
  }

  /** `v'` is `v` with exactly the blocks of one range marked used as well. */
  ghost predicate MarkedRange(v: View, range: BlockRange, v': View) {
    && v'.first == v.first && v'.total == v.total && |v'.used| == |v.used|
    && forall b: nat {:trigger v'.Used(b)} :: v'.Used(b) <==> v.Used(b) || range.Holds(b)
  }

  /** Setting one described position marks one block; a block without a position is marked already. */
  lemma MarkedBit(v: View, b: nat)
    ensures v.first <= b < v.first + |v.used| ==>
      MarkedRange(v, BlockRange(b, 1), v.(used := v.used[b - v.first := true]))
    ensures b < v.first || b >= v.first + |v.used| ==> MarkedRange(v, BlockRange(b, 1), v)
  {
  }

  lemma MarkedSnoc(v: View, ranges: seq<BlockRange>, w: View, range: BlockRange, v': View)
    requires Marked(v, ranges, w) && MarkedRange(w, range, v')
    ensures Marked(v, ranges + [range], v')
  {
    forall b: nat ensures v'.Used(b) <==> v.Used(b) || Within(ranges + [range], b) {
      WithinSnoc(ranges, range, b);
      assert w.Used(b) <==> v.Used(b) || Within(ranges, b);
    }
  }

  /** Sorted runs of free blocks, each ending at a block that was not free unless it is the last. */
  ghost predicate Runs(v: View, ranges: seq<BlockRange>) {
    && (forall k :: 0 <= k < |ranges| ==>
          ranges[k].len > 0 && forall b: nat :: ranges[k].Holds(b) ==> v.Free(b))
    && (forall j, k :: 0 <= j < k < |ranges| && k == j + 1 ==>
          ranges[j].End() < ranges[k].start && v.Used(ranges[j].End()))
  }

  /** A successful allocation of `n` blocks: sorted maximal runs of the `n` lowest free blocks. */
  ghost predicate Allocated(v: View, n: nat, ranges: seq<BlockRange>, v': View) {
    && Runs(v, ranges)
    && TotalLen(ranges) == n
    && Marked(v, ranges, v')
    && v.first <= v'.cursor <= v.total && v.cursor <= v'.cursor
    && v.FreeIn(v.first, v'.cursor) == n
    && (forall b: nat :: Within(ranges, b) <==> v.Free(b) && b < v'.cursor)
  }

  /** No run of `n` free blocks starts at `s`. */
  ghost predicate Blocked(v: View, n: nat, s: nat) {
    exists b: nat :: s <= b < s + n && !v.Free(b)
  }

  /** A successful contiguous allocation: the lowest run of `n` free blocks, and nothing else. */
  ghost predicate AllocatedRun(v: View, n: nat, range: BlockRange, v': View) {
    && range.len == n
    && (forall b: nat :: range.Holds(b) ==> v.Free(b))
    && (forall s: nat :: s < range.start ==> Blocked(v, n, s))
    && MarkedRange(v, range, v')
    && v'.cursor == v.cursor
  }

  /** What one call came to. */
  datatype Event =
    | Took(count: nat, ranges: seq<BlockRange>)
    | TookRun(count: nat, range: BlockRange)
    | Refused
    | MarkedUsed(range: BlockRange)

  /** How a call changes the state. */
  ghost predicate Next(v: View, e: Event, v': View) {
    match e
    case Took(n, ranges) => Allocated(v, n, ranges, v')
    case TookRun(n, range) => if n == 0 then range.len == 0 && v' == v else AllocatedRun(v, n, range, v')
    case Refused => v' == v
    case MarkedUsed(range) => MarkedRange(v, range, v') && v'.cursor == v.cursor
  }

  // ----- gathering runs, the bitmap untouched -----

  /** The runs gathered once a scan has reached `i`: all the free blocks below it. */
  ghost predicate Gathered(v: View, ranges: seq<BlockRange>, i: nat) {
    && v.first <= i <= v.total
    && Runs(v, ranges)
    && TotalLen(ranges) == v.FreeIn(v.first, i)
    && (forall b: nat :: Within(ranges, b) <==> v.Free(b) && b < i)
  }

  lemma GatherNothing(v: View)
    requires v.Inv()
    ensures Gathered(v, [], v.cursor)
  {
    FreeInNone(v, v.first, v.cursor);
  }

  lemma GatherUsed(v: View, ranges: seq<BlockRange>, i: nat, j: nat)
    requires Gathered(v, ranges, i) && i <= j <= v.total && AllUsed(v, i, j)
    ensures Gathered(v, ranges, j)
  {
    FreeInSplit(v, v.first, i, j);
    FreeInNone(v, i, j);
  }

  lemma RunsSnoc(v: View, ranges: seq<BlockRange>, i: nat, run: BlockRange)
    requires Runs(v, ranges) && Closed(v, ranges, i)
    requires run.len > 0 && i <= run.start && AllFree(v, run.start, run.End())
    ensures Runs(v, ranges + [run])
  {
    var all := ranges + [run];
    assert v.Free(run.start);
    forall j, k | 0 <= j < k < |all| && k == j + 1
      ensures all[j].End() < all[k].start && v.Used(all[j].End())
    {
      if k < |ranges| { assert all[j] == ranges[j] && all[k] == ranges[k]; }
    }
    forall k | 0 <= k < |all|
      ensures all[k].len > 0 && forall b: nat :: all[k].Holds(b) ==> v.Free(b)
    {
      if k < |ranges| { assert all[k] == ranges[k]; }
    }
  }

  lemma RunWithin(v: View, ranges: seq<BlockRange>, run: BlockRange)
    requires run.End() <= v.total && AllFree(v, run.start, run.End())
    requires forall b: nat :: Within(ranges, b) <==> v.Free(b) && b < run.start
    ensures forall b: nat :: Within(ranges + [run], b) <==> v.Free(b) && b < run.End()
  {
    forall b: nat ensures Within(ranges + [run], b) <==> v.Free(b) && b < run.End() {
      WithinSnoc(ranges, run, b);
    }
  }

  lemma GatherRun(v: View, ranges: seq<BlockRange>, i: nat, start: nat, end: nat)
    requires Gathered(v, ranges, i) && Closed(v, ranges, i)
    requires i <= start < end <= v.total && AllUsed(v, i, start) && AllFree(v, start, end)
    ensures Gathered(v, ranges + [BlockRange(start, end - start)], end)
    ensures v.Used(end) ==> Closed(v, ranges + [BlockRange(start, end - start)], end)
  {
    var run := BlockRange(start, end - start);
    GatherUsed(v, ranges, i, start);
    RunsSnoc(v, ranges, i, run);
    TotalLenSnoc(ranges, run);
    FreeInSplit(v, v.first, start, end);
    FreeInAll(v, start, end);
    RunWithin(v, ranges, run);
  }

  /** A scan in progress: what is gathered, and what is still wanted. */
  ghost predicate Scanning(v: View, count: nat, ranges: seq<BlockRange>, i: nat, remaining: nat) {
    && v.cursor <= i && remaining <= count
    && Gathered(v, ranges, i) && TotalLen(ranges) == count - remaining
    && (remaining > 0 ==> Closed(v, ranges, i))
  }

  lemma ScanStart(v: View, count: nat)
    requires v.Inv()
    ensures Scanning(v, count, [], v.cursor, count)
  {
    GatherNothing(v);
  }

  lemma ScanEnd(v: View, count: nat, ranges: seq<BlockRange>, i: nat, remaining: nat)
    requires Scanning(v, count, ranges, i, remaining) && i <= v.total && AllUsed(v, i, v.total)
    ensures v.FreeCount() == count - remaining
  {
    GatherUsed(v, ranges, i, v.total);
  }

  lemma ScanRun(v: View, count: nat, ranges: seq<BlockRange>, i: nat, remaining: nat, start: nat, end: nat)
    requires v.Inv() && Scanning(v, count, ranges, i, remaining) && remaining > 0
    requires i <= start < end <= v.total && AllUsed(v, i, start) && AllFree(v, start, end)
    requires end - start <= remaining
    requires end == v.total || v.Used(end) || end - start == remaining
    ensures Scanning(v, count, ranges + [BlockRange(start, end - start)], end, remaining - (end - start))
  {
    GatherRun(v, ranges, i, start, end);
    TotalLenSnoc(ranges, BlockRange(start, end - start));
  }

  /** The gathered runs, marked, are the allocation. */
  lemma Commit(v: View, ranges: seq<BlockRange>, i: nat, marked: View)
    requires v.Inv() && Scanning(v, TotalLen(ranges), ranges, i, 0) && Marked(v, ranges, marked)
    ensures TotalLen(ranges) <= v.FreeCount()
    ensures Allocated(v, TotalLen(ranges), ranges, marked.(cursor := i))
    ensures marked.(cursor := i).Inv()
  {
    var v' := marked.(cursor := i);
    forall b: nat ensures v'.Used(b) <==> v.Used(b) || Within(ranges, b) { assert marked.Used(b) == v'.Used(b); }
    AllocatedKeepsInv(v, TotalLen(ranges), ranges, v');
    FreeInSplit(v, v.first, i, v.total);
  }

  /** Asking for nothing takes nothing. */
  lemma EmptyAllocation(v: View)
    requires v.Inv()
    ensures Allocated(v, 0, [], v)
  {
    FreeInNone(v, v.first, v.cursor);
  }

  /** Runs of one block in all are one run. */
  lemma OneRun(ranges: seq<BlockRange>)
    requires TotalLen(ranges) == 1
    requires forall k :: 0 <= k < |ranges| ==> ranges[k].len > 0
    ensures ranges == [BlockRange(ranges[0].start, 1)]
  {
  }

  ghost predicate AllUsed(v: View, lo: nat, hi: nat) {
    forall b: nat :: lo <= b < hi ==> v.Used(b)
  }

  ghost predicate AllFree(v: View, lo: nat, hi: nat) {
    forall b: nat :: lo <= b < hi ==> v.Free(b)
  }

  /** The scan left the last run at a block that is not free. */
  ghost predicate Closed(v: View, ranges: seq<BlockRange>, i: nat) {
    ranges != [] ==> i == ranges[|ranges| - 1].End() && v.Used(i)
  }

  // ----- where no run starts -----

  lemma BlockedByUsed(v: View, n: nat, lo: nat, hi: nat)
    requires n > 0
    requires AllUsed(v, lo, hi)
    ensures forall s: nat :: lo <= s < hi ==> Blocked(v, n, s)
  {
    forall s: nat | lo <= s < hi ensures Blocked(v, n, s) { assert !v.Free(s); }
  }

  /** A free stretch shorter than `n` that ends at a block not free holds no start. */
  lemma BlockedBefore(v: View, n: nat, start: nat, end: nat)
    requires start <= end < start + n && !v.Free(end)
    ensures forall s: nat :: start <= s < end ==> Blocked(v, n, s)
  {
    forall s: nat | start <= s < end ensures Blocked(v, n, s) { assert s <= end < s + n; }
  }

  lemma BlockedPastEnd(v: View, n: nat)
    requires n > 0
    ensures forall s: nat :: s >= v.total ==> Blocked(v, n, s)
  {
    forall s: nat | s >= v.total ensures Blocked(v, n, s) { assert !v.Free(s); }
  }

  // ----- counting -----

  lemma {:induction false} FreeInSplit(v: View, lo: nat, mid: nat, hi: nat)
    requires lo <= mid <= hi
    ensures v.FreeIn(lo, hi) == v.FreeIn(lo, mid) + v.FreeIn(mid, hi)
    decreases hi
  {
    if mid < hi { FreeInSplit(v, lo, mid, hi - 1); }
  }

  /** Two states that agree on an interval count it alike. */
  lemma {:induction false} FreeInAgree(v: View, v': View, lo: nat, hi: nat)
    requires lo <= hi
    requires forall b: nat :: lo <= b < hi ==> v.Used(b) == v'.Used(b)
    ensures v.FreeIn(lo, hi) == v'.FreeIn(lo, hi)
    decreases hi
  {
    if lo < hi { FreeInAgree(v, v', lo, hi - 1); }
  }

  lemma {:induction false} FreeInNone(v: View, lo: nat, hi: nat)
    requires lo <= hi && AllUsed(v, lo, hi)
    ensures v.FreeIn(lo, hi) == 0
    decreases hi
  {
    if lo < hi { FreeInNone(v, lo, hi - 1); }
  }

  lemma {:induction false} FreeInAll(v: View, lo: nat, hi: nat)
    requires lo <= hi && AllFree(v, lo, hi)
    ensures v.FreeIn(lo, hi) == hi - lo
    decreases hi
  {
    if lo < hi {
      assert v.Free(hi - 1);
      FreeInAll(v, lo, hi - 1);
    }
  }

  /** An allocation lowers the free count by exactly what it took. */
  lemma AllocatedConserves(v: View, n: nat, ranges: seq<BlockRange>, v': View)
    requires v.Inv() && Allocated(v, n, ranges, v')
    ensures n <= v.FreeCount() && v'.FreeCount() == v.FreeCount() - n
  {
    FreeInSplit(v, v.first, v'.cursor, v.total);
    FreeInSplit(v', v.first, v'.cursor, v.total);
    FreeInNone(v', v.first, v'.cursor);
    FreeInAgree(v, v', v'.cursor, v.total);
  }

  lemma AllocatedRunConserves(v: View, n: nat, range: BlockRange, v': View)
    requires v.Inv() && AllocatedRun(v, n, range, v')
    ensures n <= v.FreeCount() && v'.FreeCount() == v.FreeCount() - n
  {
    if n == 0 {
      forall b: nat | v.first <= b < v.total ensures v.Used(b) == v'.Used(b) {
        assert !range.Holds(b);
      }
      FreeInAgree(v, v', v.first, v.total);
    } else {
      assert range.Holds(range.start) && range.Holds(range.End() - 1);
      FreeInSplit(v, v.first, range.start, v.total);
      FreeInSplit(v, range.start, range.End(), v.total);
      FreeInSplit(v', v.first, range.start, v.total);
      FreeInSplit(v', range.start, range.End(), v.total);
      forall b: nat | range.start <= b < range.End() ensures v.Free(b) && v'.Used(b) {
        assert range.Holds(b);
      }
      FreeInAll(v, range.start, range.End());
      FreeInNone(v', range.start, range.End());
      FreeInAgree(v, v', v.first, range.start);
      FreeInAgree(v, v', range.End(), v.total);
    }
  }

  /** Marking keeps the invariant, wherever the marked blocks lie. */
  lemma MarkedKeepsInv(v: View, range: BlockRange, v': View)
    requires v.Inv() && MarkedRange(v, range, v') && v'.cursor == v.cursor
    ensures v'.Inv()
  {
  }

  lemma AllocatedKeepsInv(v: View, n: nat, ranges: seq<BlockRange>, v': View)
    requires v.Inv() && Allocated(v, n, ranges, v')
    ensures v'.Inv()
  {
    forall b: nat | b < v'.cursor ensures v'.Used(b) {
      if !v.Used(b) { assert v.Free(b); }
    }
  }

  /** A popcount over the described positions counts what a scan of the blocks does. */
  lemma {:induction false} CountIsFree(v: View, n: nat)
    requires n <= |v.used|
    ensures Count(v.used, n) <= n
    ensures n - Count(v.used, n) == v.FreeIn(v.first, v.first + n)
  {
    if n > 0 { CountIsFree(v, n - 1); }
  }

  /** The same of a slice of the bitmap that describes the blocks from `start`. */
  lemma {:induction false} CountInGroup(v: View, flags: seq<bool>, start: nat, n: nat)
    requires n <= |flags|
    requires forall j :: 0 <= j < n ==> flags[j] == v.Used(start + j)
    ensures Count(flags, n) <= n
    ensures n - Count(flags, n) == v.FreeIn(start, start + n)
  {
    if n > 0 { CountInGroup(v, flags, start, n - 1); }
  }

  lemma MulMonotone(a: nat, b: nat, size: nat)
    requires a <= b
    ensures a * size <= b * size
  {
  }

  lemma GroupFits(index: nat, groups: nat, size: nat)
    requires size > 0
    ensures index < groups <==> index * size + size <= groups * size
  {
    assert (index + 1) * size == index * size + size;
    if index < groups { MulMonotone(index + 1, groups, size); } else { MulMonotone(groups, index, size); }
  }

  // ----- groups -----

  /** The real blocks of group `g` lie in `[GroupStart, GroupEnd)`. */
  function GroupStart(v: View, perGroup: nat, g: nat): nat {
    if v.first + g * perGroup <= v.total then v.first + g * perGroup else v.total
  }

  function GroupFree(v: View, perGroup: nat, g: nat): nat {
    GroupStep(v, perGroup, g);
    v.FreeIn(GroupStart(v, perGroup, g), GroupStart(v, perGroup, g + 1))
  }

  lemma GroupStep(v: View, perGroup: nat, g: nat)
    ensures GroupStart(v, perGroup, g) <= GroupStart(v, perGroup, g + 1)
  {
    assert (g + 1) * perGroup == g * perGroup + perGroup;
  }

  /** A group's count is that of its first `positions` bitmap positions. */
  lemma GroupSpan(v: View, perGroup: nat, g: nat, start: nat, positions: nat)
    requires v.first <= v.total && start == v.first + g * perGroup
    requires positions == if start >= v.total then 0 else if start + perGroup <= v.total then perGroup
      else v.total - start
    ensures GroupFree(v, perGroup, g) == v.FreeIn(start, start + positions)
  {
    assert (g + 1) * perGroup == g * perGroup + perGroup;
  }

  function SumGroups(v: View, perGroup: nat, groups: nat): nat {
    if groups == 0 then 0 else SumGroups(v, perGroup, groups - 1) + GroupFree(v, perGroup, groups - 1)
  }

  lemma {:induction false} SumGroupsPrefix(v: View, perGroup: nat, groups: nat)
    requires v.first <= v.total
    ensures v.first <= GroupStart(v, perGroup, groups)
    ensures SumGroups(v, perGroup, groups) == v.FreeIn(v.first, GroupStart(v, perGroup, groups))
  {
    if groups > 0 {
      SumGroupsPrefix(v, perGroup, groups - 1);
      GroupStep(v, perGroup, groups - 1);
      FreeInSplit(v, v.first, GroupStart(v, perGroup, groups - 1), GroupStart(v, perGroup, groups));
    }
  }

  /** The per-group counts add up to the whole, the partial last group included. */
  lemma GroupsSumToWhole(v: View, perGroup: nat, groups: nat)
    requires v.first <= v.total <= v.first + groups * perGroup
    ensures SumGroups(v, perGroup, groups) == v.FreeCount()
  {
    SumGroupsPrefix(v, perGroup, groups);
  }
}
