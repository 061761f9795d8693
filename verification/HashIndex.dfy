/** The search a hash index is for, apart from bytes: leaves ordered by rank, the hash recorded for each,
    and the descent that leads to the first leaf a rank can be in.

    A name's hash is twice its rank, so its low bit is clear; a leaf's recorded hash is that of its first
    item, with the low bit set where the leaf before it ends with the same rank. */
module HashIndex {
  import opened Wrappers
  import opened Tiling

  // ----- ordered leaves -----

  /** Items in order of rank. */
  ghost predicate Ordered<T>(s: seq<T>, rank: T -> nat) {
    |s| <= 1 || (rank(s[0]) <= rank(s[1]) && Ordered(s[1..], rank))
  }

  function First<T>(leaf: seq<T>, rank: T -> nat): nat {
    if leaf == [] then 0 else rank(leaf[0])
  }

  function Last<T>(leaf: seq<T>, rank: T -> nat): nat {
    if leaf == [] then 0 else rank(leaf[|leaf| - 1])
  }

  /** Leaves in order, none empty, and each in order. */
  ghost predicate OrderedLeaves<T>(leaves: seq<seq<T>>, rank: T -> nat) {
    leaves == [] ||
      (&& leaves[0] != [] && Ordered(leaves[0], rank) && OrderedLeaves(leaves[1..], rank)
       && (|leaves| > 1 ==> leaves[1] != [] && Last(leaves[0], rank) <= First(leaves[1], rank)))
  }

  lemma {:induction false} OrderedEnds<T>(s: seq<T>, rank: T -> nat, i: nat)
    requires i < |s| && Ordered(s, rank)
    ensures First(s, rank) <= rank(s[i]) <= Last(s, rank)
  {
    if i > 0 {
      OrderedEnds(s[1..], rank, i - 1);
    } else if |s| > 1 {
      OrderedEnds(s[1..], rank, 0);
    }
  }

  lemma {:induction false} LeafAt<T>(leaves: seq<seq<T>>, rank: T -> nat, k: nat)
    requires k < |leaves| && OrderedLeaves(leaves, rank)
    ensures leaves[k] != [] && Ordered(leaves[k], rank) && First(leaves[k], rank) <= Last(leaves[k], rank)
  {
    if k > 0 {
      LeafAt(leaves[1..], rank, k - 1);
    } else {
      OrderedEnds(leaves[0], rank, 0);
    }
  }

  /** A leaf ends no later than any later one begins. */
  lemma {:induction false} LeavesApart<T>(leaves: seq<seq<T>>, rank: T -> nat, i: nat, j: nat)
    requires i < j < |leaves| && OrderedLeaves(leaves, rank)
    ensures leaves[i] != [] && leaves[j] != [] && Last(leaves[i], rank) <= First(leaves[j], rank)
  {
    if i > 0 {
      LeavesApart(leaves[1..], rank, i - 1, j - 1);
    } else if j > 1 {
      LeavesApart(leaves[1..], rank, 0, j - 1);
      LeafAt(leaves, rank, 1);
    }
  }

  /** Splitting an ordered list leaves ordered leaves. */
  lemma {:induction false} OrderedSplit<T>(leaves: seq<seq<T>>, rank: T -> nat)
    requires Ordered(Flatten(leaves), rank) && NoneEmpty(leaves)
    ensures OrderedLeaves(leaves, rank)
  {
    if leaves != [] {
      var head, rest := leaves[0], Flatten(leaves[1..]);
      OrderedConcat(head, rest, rank);
      OrderedSplit(leaves[1..], rank);
      if |leaves| > 1 {
        assert leaves[1..] != [] && leaves[1..][0] == leaves[1];
        assert rest[0] == leaves[1][0];
      }
    }
  }

  predicate NoneEmpty<T>(leaves: seq<seq<T>>) {
    leaves == [] || (leaves[0] != [] && NoneEmpty(leaves[1..]))
  }

  lemma {:induction false} OrderedConcat<T>(a: seq<T>, b: seq<T>, rank: T -> nat)
    requires Ordered(a + b, rank)
    ensures Ordered(a, rank) && Ordered(b, rank)
    ensures a != [] && b != [] ==> Last(a, rank) <= First(b, rank)
  {
    if a == [] {
      assert a + b == b;
    } else {
      assert (a + b)[1..] == a[1..] + b;
      if |a| + |b| > 1 {
        OrderedConcat(a[1..], b, rank);
        assert |a| > 1 ==> (a + b)[1] == a[1];
        assert |a| == 1 ==> (a + b)[1] == b[0];
      }
    }
  }

  // ----- the recorded hashes -----

  const CONTINUED: nat := 1

  /** The hash recorded for leaf `k`; the first leaf's is implied, and reads as zero. */
  function LeafHash<T>(leaves: seq<seq<T>>, rank: T -> nat, k: nat): nat
    requires k < |leaves|
  {
    if k == 0 then 0
    else 2 * First(leaves[k], rank) + if First(leaves[k], rank) == Last(leaves[k - 1], rank) then CONTINUED else 0
  }

  /** The recorded hashes of a list of leaves. */
  ghost predicate Records<T>(hashes: seq<nat>, leaves: seq<seq<T>>, rank: T -> nat) {
    && |hashes| == |leaves| && OrderedLeaves(leaves, rank)
    && forall k :: 0 <= k < |hashes| ==> hashes[k] == LeafHash(leaves, rank, k)
  }

  lemma RecordIs<T>(hashes: seq<nat>, leaves: seq<seq<T>>, rank: T -> nat, k: nat)
    requires Records(hashes, leaves, rank) && k < |leaves|
    ensures k > 0 ==> Last(leaves[k - 1], rank) <= First(leaves[k], rank)
    ensures hashes[k] == LeafHash(leaves, rank, k)
  {
    if k > 0 { LeavesApart(leaves, rank, k - 1, k); }
  }

  /** Recorded hashes never fall. */
  lemma RecordsRise<T>(hashes: seq<nat>, leaves: seq<seq<T>>, rank: T -> nat, i: nat, j: nat)
    requires Records(hashes, leaves, rank) && i < j < |leaves|
    ensures hashes[i] <= hashes[j]
  {
    RecordIs(hashes, leaves, rank, i);
    RecordIs(hashes, leaves, rank, j);
    LeavesApart(leaves, rank, i, j);
    LeafAt(leaves, rank, i);
    if j > i + 1 {
      LeavesApart(leaves, rank, i, j - 1);
      LeafAt(leaves, rank, j - 1);
    }
  }

  // ----- the descent -----

  /** How many hashes of a list that never falls are at or below `h`. */
  function Point(hashes: seq<nat>, h: nat): (p: nat)
    ensures p <= |hashes|
  {
    if hashes == [] || hashes[0] > h then 0 else 1 + Point(hashes[1..], h)
  }

  lemma {:induction false} PointIs(hashes: seq<nat>, h: nat)
    ensures var p := Point(hashes, h);
      (p > 0 ==> hashes[p - 1] <= h) && (p < |hashes| ==> hashes[p] > h)
  {
    if hashes != [] && hashes[0] <= h { PointIs(hashes[1..], h); }
  }

  /** A partition of a list is its only one. */
  lemma {:induction false} PointUnique(hashes: seq<nat>, h: nat, p: nat)
    requires p <= |hashes|
    requires forall i :: 0 <= i < p ==> hashes[i] <= h
    requires forall i :: p <= i < |hashes| ==> hashes[i] > h
    ensures Point(hashes, h) == p
  {
    if p > 0 { PointUnique(hashes[1..], h, p - 1); }
  }

  /** The entry a search for `h` follows: the last recorded at or below it, the first counting as zero. */
  function Locate(hashes: seq<nat>, h: nat): (at: nat)
    requires hashes != []
    ensures at < |hashes|
  {
    Point(hashes[1..], h)
  }

  /** A leaf holds an item of this rank. */
  ghost predicate HoldsRank<T>(leaf: seq<T>, rank: T -> nat, r: nat) {
    exists x <- leaf :: rank(x) == r
  }

  lemma HoldsBetween<T>(leaf: seq<T>, rank: T -> nat, r: nat)
    requires Ordered(leaf, rank) && HoldsRank(leaf, rank, r)
    ensures leaf != [] && First(leaf, rank) <= r <= Last(leaf, rank)
  {
    var x :| x in leaf && rank(x) == r;
    var i :| 0 <= i < |leaf| && leaf[i] == x;
    OrderedEnds(leaf, rank, i);
  }

  /** No leaf before the one the descent lands on holds the rank. */
  lemma NoneBefore<T>(hashes: seq<nat>, leaves: seq<seq<T>>, rank: T -> nat, r: nat, k: nat)
    requires Records(hashes, leaves, rank) && hashes != [] && k < Locate(hashes, 2 * r)
    ensures !HoldsRank(leaves[k], rank, r)
  {
    var at := Locate(hashes, 2 * r);
    PointIs(hashes[1..], 2 * r);
    assert hashes[at] <= 2 * r;
    RecordIs(hashes, leaves, rank, at);
    LeafAt(leaves, rank, k);
    if HoldsRank(leaves[k], rank, r) {
      HoldsBetween(leaves[k], rank, r);
      LeavesApart(leaves, rank, k, at);
      if k < at - 1 {
        LeavesApart(leaves, rank, k, at - 1);
        LeafAt(leaves, rank, at - 1);
      }
    }
  }

  /** Past the leaf the descent lands on, every leaf up to one that holds the rank is marked as
      continuing it. */
  lemma MarkedUpTo<T>(hashes: seq<nat>, leaves: seq<seq<T>>, rank: T -> nat, r: nat, k: nat, holder: nat)
    requires Records(hashes, leaves, rank) && hashes != []
    requires Locate(hashes, 2 * r) < k <= holder < |leaves| && HoldsRank(leaves[holder], rank, r)
    ensures hashes[k] == 2 * r + CONTINUED
  {
    var at := Locate(hashes, 2 * r);
    PointIs(hashes[1..], 2 * r);
    assert hashes[at + 1] > 2 * r;
    if at + 1 < k { RecordsRise(hashes, leaves, rank, at + 1, k); }
    RecordIs(hashes, leaves, rank, k);
    LeafAt(leaves, rank, holder);
    HoldsBetween(leaves[holder], rank, r);
    if k < holder {
      LeavesApart(leaves, rank, k, holder);
      LeafAt(leaves, rank, k);
    }
  }

  /** Every item of a leaf lies from the hash recorded for the leaf up to the one recorded for the next, and
      at that one only where it is marked as continued. */
  lemma WithinRecorded<T>(hashes: seq<nat>, leaves: seq<seq<T>>, rank: T -> nat, k: nat, i: nat)
    requires Records(hashes, leaves, rank) && k < |leaves| && i < |leaves[k]|
    ensures var h := 2 * rank(leaves[k][i]);
      && hashes[k] - hashes[k] % 2 <= h
      && (k + 1 < |leaves| ==> h < hashes[k + 1] - hashes[k + 1] % 2 || hashes[k + 1] == h + CONTINUED)
  {
    LeafAt(leaves, rank, k);
    OrderedEnds(leaves[k], rank, i);
    RecordIs(hashes, leaves, rank, k);
    if k + 1 < |leaves| { RecordIs(hashes, leaves, rank, k + 1); }
  }

  // ----- the search -----

  datatype Outcome<U> = Found(value: U) | Absent | Unusable

  function Answer<U>(x: Option<U>): Outcome<U> {
    if x.Some? then Found(x.value) else Absent
  }

  /** Read leaf `k`, and the leaves that follow for as long as their hashes say the search goes on. */
  function FindFrom<T, U>(leaves: seq<seq<T>>, hashes: seq<nat>, pick: T -> Option<U>, goesOn: nat -> bool,
                          k: nat, fuel: nat): Outcome<U>
    requires |hashes| == |leaves| && k < |leaves|
    decreases fuel
  {
    if fuel == 0 then Unusable
    else
      var x := FirstPick(leaves[k], pick);
      if x.Some? then Found(x.value)
      else if k + 1 < |leaves| && goesOn(hashes[k + 1]) then FindFrom(leaves, hashes, pick, goesOn, k + 1, fuel - 1)
      else Absent
  }

  /** What is picked is a name of this rank. */
  ghost predicate PicksRank<T(!new), U>(pick: T -> Option<U>, rank: T -> nat, r: nat) {
    forall x: T :: pick(x).Some? ==> rank(x) == r
  }

  lemma {:induction false} NothingHeld<T(!new), U>(leaf: seq<T>, rank: T -> nat, r: nat, pick: T -> Option<U>)
    requires PicksRank(pick, rank, r) && !HoldsRank(leaf, rank, r)
    ensures FirstPick(leaf, pick).None?
  {
    if leaf != [] {
      assert leaf[0] in leaf;
      forall x <- leaf[1..] ensures rank(x) != r { assert x in leaf; }
      NothingHeld(leaf[1..], rank, r, pick);
    }
  }

  lemma {:induction false} NothingHeldAnywhere<T(!new), U>(leaves: seq<seq<T>>, rank: T -> nat, r: nat,
                                                           pick: T -> Option<U>)
    requires PicksRank(pick, rank, r) && forall k :: 0 <= k < |leaves| ==> !HoldsRank(leaves[k], rank, r)
    ensures FirstPick(Flatten(leaves), pick).None?
  {
    if leaves != [] {
      NothingHeld(leaves[0], rank, r, pick);
      NothingHeldAnywhere(leaves[1..], rank, r, pick);
      FirstPickConcat(leaves[0], Flatten(leaves[1..]), pick);
    }
  }

  /** Where the next leaf is not marked as continuing a rank, no leaf after holds it. */
  lemma NoneAfter<T>(leaves: seq<seq<T>>, hashes: seq<nat>, rank: T -> nat, r: nat, k: nat)
    requires Records(hashes, leaves, rank) && hashes != [] && Locate(hashes, 2 * r) <= k < |leaves|
    requires k + 1 < |leaves| ==> hashes[k + 1] != 2 * r + CONTINUED
    ensures var rest := leaves[k + 1..]; forall i :: 0 <= i < |rest| ==> !HoldsRank(rest[i], rank, r)
  {
    var rest := leaves[k + 1..];
    forall i | 0 <= i < |rest| ensures !HoldsRank(rest[i], rank, r) {
      if HoldsRank(leaves[k + 1 + i], rank, r) { MarkedUpTo(hashes, leaves, rank, r, k + 1, k + 1 + i); }
    }
  }

  /** From the leaf the descent lands on, the search answers for all that follows. */
  lemma {:induction false} FindFromIs<T(!new), U>(leaves: seq<seq<T>>, hashes: seq<nat>, rank: T -> nat, r: nat,
      pick: T -> Option<U>, goesOn: nat -> bool, k: nat, fuel: nat)
    requires Records(hashes, leaves, rank) && PicksRank(pick, rank, r) && goesOn(2 * r + CONTINUED)
    requires hashes != [] && Locate(hashes, 2 * r) <= k < |leaves| && |leaves| <= k + fuel
    ensures FindFrom(leaves, hashes, pick, goesOn, k, fuel) == Answer(FirstPick(Flatten(leaves[k..]), pick))
    decreases fuel
  {
    var rest := leaves[k + 1..];
    assert leaves[k..][1..] == rest;
    FirstPickConcat(leaves[k], Flatten(rest), pick);
    if FirstPick(leaves[k], pick).None? {
      if k + 1 < |leaves| && goesOn(hashes[k + 1]) {
        FindFromIs(leaves, hashes, rank, r, pick, goesOn, k + 1, fuel - 1);
      } else {
        NoneAfter(leaves, hashes, rank, r, k);
        NothingHeldAnywhere(rest, rank, r, pick);
      }
    }
  }

  lemma {:induction false} FlattenSplit<T>(leaves: seq<seq<T>>, k: nat)
    requires k <= |leaves|
    ensures Flatten(leaves) == Flatten(leaves[..k]) + Flatten(leaves[k..])
  {
    if k > 0 {
      FlattenSplit(leaves[1..], k - 1);
      assert leaves[..k][1..] == leaves[1..][..k - 1] && leaves[1..][k - 1..] == leaves[k..];
    } else {
      assert leaves[..0] == [] && leaves[0..] == leaves;
    }
  }

  /** The search finds the first item it is after, of all there are, exactly when there is one. */
  lemma FindIs<T(!new), U>(leaves: seq<seq<T>>, hashes: seq<nat>, rank: T -> nat, r: nat,
                           pick: T -> Option<U>, goesOn: nat -> bool, fuel: nat)
    requires Records(hashes, leaves, rank) && PicksRank(pick, rank, r) && goesOn(2 * r + CONTINUED)
    requires hashes != [] && |leaves| <= fuel
    ensures FindFrom(leaves, hashes, pick, goesOn, Locate(hashes, 2 * r), fuel) ==
      Answer(FirstPick(Flatten(leaves), pick))
  {
    var at := Locate(hashes, 2 * r);
    FindFromIs(leaves, hashes, rank, r, pick, goesOn, at, fuel);
    forall k | 0 <= k < at ensures !HoldsRank(leaves[..at][k], rank, r) { NoneBefore(hashes, leaves, rank, r, k); }
    NothingHeldAnywhere(leaves[..at], rank, r, pick);
    FlattenSplit(leaves, at);
    FirstPickConcat(Flatten(leaves[..at]), Flatten(leaves[at..]), pick);
  }

  // ----- two levels -----

  /** Which chunk a position of the whole falls in, and where in it. */
  function Position<T>(chunks: seq<seq<T>>, k: nat): (p: (nat, nat))
    requires k < |Flatten(chunks)|
    ensures p.0 < |chunks| && p.1 < |chunks[p.0]| && chunks[p.0][p.1] == Flatten(chunks)[k]
  {
    if k < |chunks[0]| then (0, k)
    else
      var (i, j) := Position(chunks[1..], k - |chunks[0]|);
      (i + 1, j)
  }

  /** The first of each chunk. */
  function Heads<T>(chunks: seq<seq<T>>): (heads: seq<T>)
    requires NoneEmpty(chunks)
    ensures |heads| == |chunks|
    ensures forall i :: 0 <= i < |chunks| ==> chunks[i] != [] && heads[i] == chunks[i][0]
  {
    if chunks == [] then [] else [chunks[0][0]] + Heads(chunks[1..])
  }

  /** The next position is the next in the chunk, or the first of the next chunk. */
  lemma {:induction false} PositionNext<T>(chunks: seq<seq<T>>, k: nat)
    requires NoneEmpty(chunks) && k < |Flatten(chunks)|
    ensures var (i, j) := Position(chunks, k);
      && (j + 1 < |chunks[i]| ==> k + 1 < |Flatten(chunks)| && Position(chunks, k + 1) == (i, j + 1))
      && (j + 1 == |chunks[i]| ==> (k + 1 < |Flatten(chunks)| <==> i + 1 < |chunks|))
      && (j + 1 == |chunks[i]| && i + 1 < |chunks| ==> Position(chunks, k + 1) == (i + 1, 0))
  {
    if k >= |chunks[0]| {
      PositionNext(chunks[1..], k - |chunks[0]|);
    } else if |chunks| > 1 {
      assert chunks[1..][0] == chunks[1] != [];
    } else {
      assert Flatten(chunks[1..]) == [];
    }
  }

  lemma {:induction false} PointStops(a: seq<nat>, b: seq<nat>, h: nat)
    requires b != [] ==> b[0] > h
    ensures Point(a + b, h) == Point(a, h)
  {
    if a == [] {
      assert a + b == b;
    } else {
      assert (a + b)[1..] == a[1..] + b;
      PointStops(a[1..], b, h);
    }
  }

  lemma {:induction false} PointPasses(a: seq<nat>, b: seq<nat>, h: nat)
    requires forall i :: 0 <= i < |a| ==> a[i] <= h
    ensures Point(a + b, h) == |a| + Point(b, h)
  {
    if a == [] {
      assert a + b == b;
    } else {
      assert (a + b)[1..] == a[1..] + b;
      PointPasses(a[1..], b, h);
    }
  }

  function Same(h: nat): nat { h }

  /** Hashes that never fall. */
  ghost predicate Rising(hashes: seq<nat>) {
    Ordered(hashes, Same)
  }

  lemma {:induction false} RisingIs(hashes: seq<nat>)
    ensures Rising(hashes) <==> forall i, j :: 0 <= i < j < |hashes| ==> hashes[i] <= hashes[j]
  {
    if |hashes| > 1 {
      var rest := hashes[1..];
      RisingIs(rest);
      if Rising(hashes) {
        forall i, j | 0 <= i < j < |hashes| ensures hashes[i] <= hashes[j] {
          if i > 0 {
            assert rest[i - 1] <= rest[j - 1];
          } else if j > 1 {
            assert rest[0] <= rest[j - 1];
          }
        }
      }
      if forall i, j :: 0 <= i < j < |hashes| ==> hashes[i] <= hashes[j] {
        forall i, j | 0 <= i < j < |rest| ensures rest[i] <= rest[j] {
          assert rest[i] == hashes[i + 1] && rest[j] == hashes[j + 1];
        }
        assert hashes[0] <= hashes[1];
      }
    }
  }

  /** The rest is past `h`, and so is where the whole stops. */
  lemma LocateStops(c: seq<nat>, rest: seq<nat>, h: nat)
    requires c != [] && (rest != [] ==> rest[0] > h)
    ensures Locate(c + rest, h) == Locate(c, h)
  {
    assert (c + rest)[1..] == c[1..] + rest;
    PointStops(c[1..], rest, h);
  }

  /** The rest begins at or below `h`, and so all before it is. */
  lemma LocatePasses(c: seq<nat>, rest: seq<nat>, h: nat)
    requires c != [] && rest != [] && rest[0] <= h && Rising(c + rest)
    ensures Locate(c + rest, h) == |c| + Locate(rest, h)
  {
    assert (c + rest)[1..] == c[1..] + rest;
    OrderedConcat<nat>(c, rest, Same);
    forall i | 0 <= i < |c[1..]| ensures c[1..][i] <= h { OrderedEnds<nat>(c, Same, i + 1); }
    PointPasses(c[1..], rest, h);
  }

  lemma HeadsFirst<T>(chunks: seq<seq<T>>)
    requires |chunks| > 1 && NoneEmpty(chunks)
    ensures Flatten(chunks[1..]) != [] && Heads(chunks[1..]) != []
    ensures Heads(chunks)[1..] == Heads(chunks[1..]) && Heads(chunks[1..])[0] == Flatten(chunks[1..])[0]
  {
    assert chunks[1..][0] == chunks[1] != [];
    assert Heads(chunks) == [chunks[0][0]] + Heads(chunks[1..]);
  }

  lemma LocateTail(hashes: seq<nat>, h: nat)
    requires |hashes| > 1
    ensures Locate(hashes, h) == if hashes[1] > h then 0 else 1 + Locate(hashes[1..], h)
  {
  }

  /** Descending through the first of each chunk, then through the chunk, lands where a search of the
      whole list does. */
  lemma {:induction false} TwoLevels(chunks: seq<seq<nat>>, h: nat)
    requires chunks != [] && NoneEmpty(chunks) && Rising(Flatten(chunks))
    ensures Flatten(chunks) != []
    ensures var i := Locate(Heads(chunks), h);
      Position(chunks, Locate(Flatten(chunks), h)) == (i, Locate(chunks[i], h))
  {
    var c, rest := chunks[0], Flatten(chunks[1..]);
    if |chunks| == 1 {
      assert rest == [];
      LocateStops(c, rest, h);
    } else {
      HeadsFirst(chunks);
      LocateTail(Heads(chunks), h);
      if rest[0] > h {
        LocateStops(c, rest, h);
      } else {
        OrderedConcat<nat>(c, rest, Same);
        TwoLevels(chunks[1..], h);
        LocatePasses(c, rest, h);
      }
    }
  }
}
