/** Safety over whole runs of an allocator: whatever calls are made in whatever order. */
module AllocRuns {
  import opened AllocSpec
  import opened Alloc

  /** A run: a state before and after every event. */
  ghost predicate Run(vs: seq<View>, es: seq<Event>) {
    && |vs| == |es| + 1
    && forall i, j {:trigger es[i], vs[j]} :: 0 <= i < |es| && j == i + 1 ==> Next(vs[i], es[i], vs[j])
  }

  /** The ranges an event handed out. */
  function Handed(e: Event): seq<BlockRange> {
    match e
    case Took(_, ranges) => ranges
    case TookRun(_, range) => [range]
    case Refused => []
    case MarkedUsed(_) => []
  }

  /** A range handed out held only free blocks, and holds only used ones afterwards. */
  lemma HandedWasFree(v: View, e: Event, v': View, k: nat, b: nat)
    requires v.Inv() && Next(v, e, v') && k < |Handed(e)| && Handed(e)[k].Holds(b)
    ensures v.Free(b) && v'.Used(b)
  {
    if e.Took? { assert Within(e.ranges, b); }
  }

  lemma NextKeepsInv(v: View, e: Event, v': View)
    requires v.Inv() && Next(v, e, v')
    ensures v'.Inv()
    ensures v'.first == v.first && v'.total == v.total
    ensures forall b: nat :: v.Used(b) ==> v'.Used(b)
  {
    match e
    case Took(n, ranges) => AllocatedKeepsInv(v, n, ranges, v');
    case TookRun(n, range) => if n > 0 { MarkedKeepsInv(v, range, v'); }
    case Refused =>
    case MarkedUsed(range) => MarkedKeepsInv(v, range, v');
  }

  /** The invariant holds throughout, and a used block stays used. */
  lemma {:induction false} RunKeepsInv(vs: seq<View>, es: seq<Event>, i: nat, j: nat)
    requires Run(vs, es) && i <= j < |vs| && vs[0].Inv()
    ensures vs[i].Inv() && vs[j].Inv()
    ensures vs[j].first == vs[i].first == vs[0].first && vs[j].total == vs[i].total == vs[0].total
    ensures forall b: nat :: vs[i].Used(b) ==> vs[j].Used(b)
    decreases j
  {
    if i < j {
      RunKeepsInv(vs, es, i, j - 1);
      NextKeepsInv(vs[j - 1], es[j - 1], vs[j]);
    } else if j > 0 {
      RunKeepsInv(vs, es, j - 1, j - 1);
      NextKeepsInv(vs[j - 1], es[j - 1], vs[j]);
    }
  }

  /** Sorted runs are pairwise disjoint. */
  lemma {:induction false} RunsOrdered(v: View, ranges: seq<BlockRange>, j: nat, k: nat)
    requires Runs(v, ranges) && j < k < |ranges|
    ensures ranges[j].End() < ranges[k].start
    decreases k
  {
    if j < k - 1 {
      RunsOrdered(v, ranges, j, k - 1);
      assert ranges[k - 1].End() < ranges[k].start;
    }
  }

  /** No block is handed out twice: two ranges, of one call or of two, share no block. */
  lemma NoDoubleAllocation(layout: Layout, vs: seq<View>, es: seq<Event>, i: nat, k: nat, j: nat, l: nat, b: nat)
    requires layout.Planned() && Run(vs, es) && Initial(layout, vs[0])
    requires i < |es| && k < |Handed(es[i])| && j < |es| && l < |Handed(es[j])|
    requires Handed(es[i])[k].Holds(b) && Handed(es[j])[l].Holds(b)
    ensures i == j && k == l
  {
    if j < i {
      NoDoubleAllocation(layout, vs, es, j, l, i, k, b);
    } else {
      RunKeepsInv(vs, es, 0, i);
      HandedWasFree(vs[i], es[i], vs[i + 1], k, b);
      if i < j {
        RunKeepsInv(vs, es, i + 1, j);
        HandedWasFree(vs[j], es[j], vs[j + 1], l, b);
      } else if es[i].Took? {
        if k < l { RunsOrdered(vs[i], es[i].ranges, k, l); }
        if l < k { RunsOrdered(vs[i], es[i].ranges, l, k); }
      }
    }
  }

  /** A block handed out is a real one that the layout left free and nothing had marked. */
  lemma HandedIsData(layout: Layout, vs: seq<View>, es: seq<Event>, i: nat, k: nat, b: nat)
    requires layout.Planned() && Run(vs, es) && Initial(layout, vs[0])
    requires i < |es| && k < |Handed(es[i])| && Handed(es[i])[k].Holds(b)
    ensures layout.firstDataBlock <= b < layout.totalBlocks
    ensures !Within(layout.metadataRegions, b)
    ensures forall j :: 0 <= j < i && es[j].MarkedUsed? ==> !es[j].range.Holds(b)
  {
    RunKeepsInv(vs, es, 0, i);
    HandedWasFree(vs[i], es[i], vs[i + 1], k, b);
    assert !vs[0].Used(b);
    forall j | 0 <= j < i && es[j].MarkedUsed? && es[j].range.Holds(b) ensures false {
      assert Next(vs[j], es[j], vs[j + 1]);
      assert vs[j + 1].Used(b);
      RunKeepsInv(vs, es, j + 1, i);
    }
  }

  /** Blocks handed out over the first `n` events. */
  function HandedLen(es: seq<Event>, n: nat): nat
    requires n <= |es|
  {
    if n == 0 then 0 else HandedLen(es, n - 1) + TotalLen(Handed(es[n - 1]))
  }

  /** Free blocks are conserved: what is no longer free was handed out, or marked. */
  lemma {:induction false} RunConserves(vs: seq<View>, es: seq<Event>, n: nat)
    requires Run(vs, es) && vs[0].Inv() && n <= |es|
    requires forall i :: 0 <= i < n ==> !es[i].MarkedUsed?
    ensures vs[n].Inv() && vs[n].FreeCount() + HandedLen(es, n) == vs[0].FreeCount()
  {
    if n > 0 {
      RunConserves(vs, es, n - 1);
      var v, e, v' := vs[n - 1], es[n - 1], vs[n];
      NextKeepsInv(v, e, v');
      match e
      case Took(count, ranges) => AllocatedConserves(v, count, ranges, v');
      case TookRun(count, range) =>
        TotalLenSnoc([], range);
        assert [] + [range] == [range];
        if count > 0 { AllocatedRunConserves(v, count, range, v'); }
      case Refused =>
    }
  }
}
