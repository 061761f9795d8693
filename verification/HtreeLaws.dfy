/** The order an indexed directory's names are in, and the hashes recorded for the leaves they are split
    into. */
module HtreeLaws {
  import opened Words
  import opened StableSort
  import opened DirRecord
  import opened Tiling
  import opened Filling
  import opened DirPack
  import opened Htree
  import HashIndex

  // ----- the order of names -----

  lemma {:induction false} NameAsymmetric(a: Bytes, b: Bytes)
    requires NameLess(a, b)
    ensures !NameLess(b, a)
  {
    if a != [] && a[0] == b[0] { NameAsymmetric(a[1..], b[1..]); }
  }

  lemma {:induction false} NameTransitive(a: Bytes, b: Bytes, c: Bytes)
    requires !NameLess(b, a) && !NameLess(c, b)
    ensures !NameLess(c, a)
  {
    if a != [] && b != [] && c != [] && a[0] == b[0] == c[0] { NameTransitive(a[1..], b[1..], c[1..]); }
  }

  lemma HashOrder()
    ensures WeakOrder(HashLess)
  {
    forall a, b | HashLess(a, b) ensures !HashLess(b, a) {
      if NameLess(a.entry.name, b.entry.name) { NameAsymmetric(a.entry.name, b.entry.name); }
    }
    forall a, b, c | !HashLess(b, a) && !HashLess(c, b) ensures !HashLess(c, a) {
      if !NameLess(b.entry.name, a.entry.name) && !NameLess(c.entry.name, b.entry.name) {
        NameTransitive(a.entry.name, b.entry.name, c.entry.name);
      }
    }
  }

  // ----- ranks and recorded hashes -----

  function Rank(x: Hashed): nat {
    x.hash.major / 2
  }

  lemma {:induction false} SortedIsOrdered(s: seq<Hashed>)
    requires Sorted(HashLess, s)
    ensures HashIndex.Ordered(s, Rank)
  {
    if |s| > 1 {
      assert !HashLess(s[1], s[0]);
      forall i, j | 0 <= i < j < |s[1..]| ensures !HashLess(s[1..][j], s[1..][i]) {
        assert s[1..][i] == s[i + 1] && s[1..][j] == s[j + 1];
      }
      SortedIsOrdered(s[1..]);
    }
  }

  lemma {:induction false} GreedyNoneEmpty<T>(groups: seq<seq<T>>, room: nat, size: T -> nat)
    requires Greedy(groups, room, size)
    ensures HashIndex.NoneEmpty(groups)
  {
    if groups != [] { GreedyNoneEmpty(groups[1..], room, size); }
  }

  /** Every name's hash has its low bit clear. */
  ghost predicate Clear(s: seq<Hashed>) {
    forall i :: 0 <= i < |s| ==> s[i].hash.major % 2 == 0
  }

  ghost predicate AllClear(leaves: seq<seq<Hashed>>) {
    leaves == [] || (Clear(leaves[0]) && AllClear(leaves[1..]))
  }

  lemma {:induction false} FlattenClear(leaves: seq<seq<Hashed>>)
    requires Clear(Flatten(leaves))
    ensures AllClear(leaves)
  {
    if leaves != [] {
      var head, rest := leaves[0], Flatten(leaves[1..]);
      forall i | 0 <= i < |head| ensures head[i].hash.major % 2 == 0 { assert head[i] == Flatten(leaves)[i]; }
      forall i | 0 <= i < |rest| ensures rest[i].hash.major % 2 == 0 { assert rest[i] == Flatten(leaves)[|head| + i]; }
      FlattenClear(leaves[1..]);
    }
  }

  lemma {:induction false} ClearAt(leaves: seq<seq<Hashed>>, k: nat)
    requires AllClear(leaves) && k < |leaves|
    ensures Clear(leaves[k])
  {
    if k > 0 { ClearAt(leaves[1..], k - 1); }
  }

  lemma Doubled(m: u32)
    requires m % 2 == 0
    ensures 2 * (m / 2) == m && Marked(m) == 2 * (m / 2) + 1
  {
  }

  /** The hashes a build records are those the search expects. */
  lemma HashesRecorded(leaves: seq<seq<Hashed>>)
    requires HashIndex.OrderedLeaves(leaves, Rank) && AllClear(leaves)
    ensures HashIndex.Records(LeafHashes(leaves), leaves, Rank)
  {
    forall k | 0 <= k < |leaves| ensures LeafHashes(leaves)[k] == HashIndex.LeafHash(leaves, Rank, k) {
      HashIndex.LeafAt(leaves, Rank, k);
      if k > 0 {
        HashIndex.LeafAt(leaves, Rank, k - 1);
        var first, last := leaves[k][0].hash.major, leaves[k - 1][|leaves[k - 1]| - 1].hash.major;
        ClearAt(leaves, k);
        ClearAt(leaves, k - 1);
        Doubled(first);
        Doubled(last);
      }
    }
  }

  /** Sorting by hash: the same entries, each with its name's hash, in order of hash and then of name. */
  lemma SortedByHash(es: seq<DirEntry>, hash: Bytes -> DirHash)
    ensures multiset(SortByHash(es, hash)) == multiset(HashAll(es, hash))
    ensures HashedFrom(SortByHash(es, hash), hash)
    ensures Sorted(HashLess, SortByHash(es, hash))
  {
    SortedMembers(es, hash);
    HashOrder();
    SortSorts(HashLess, HashAll(es, hash));
  }

  lemma SortedRanks(es: seq<DirEntry>, hash: Bytes -> DirHash)
    requires Hasher(hash)
    ensures HashIndex.Ordered(SortByHash(es, hash), Rank) && Clear(SortByHash(es, hash))
  {
    SortedByHash(es, hash);
    SortedIsOrdered(SortByHash(es, hash));
  }

  /** Any greedy split of ordered names records the hashes a search expects. */
  lemma SplitRecorded(leaves: seq<seq<Hashed>>, usable: nat)
    requires Greedy(leaves, usable, NeedOf)
    requires HashIndex.Ordered(Flatten(leaves), Rank) && Clear(Flatten(leaves))
    ensures HashIndex.Records(LeafHashes(leaves), leaves, Rank)
  {
    GreedyNoneEmpty(leaves, usable, NeedOf);
    HashIndex.OrderedSplit(leaves, Rank);
    FlattenClear(leaves);
    HashesRecorded(leaves);
  }

  /** The leaves a build makes: the sorted names in order, and their recorded hashes. */
  lemma LeavesRecorded(es: seq<DirEntry>, usable: nat, hash: Bytes -> DirHash)
    requires AllSmall(es, usable, Need) && Hasher(hash)
    ensures Flatten(Leaves(es, usable, hash)) == SortByHash(es, hash)
    ensures HashIndex.Records(LeafHashes(Leaves(es, usable, hash)), Leaves(es, usable, hash), Rank)
  {
    SortedRanks(es, hash);
    SortedSmall(es, usable, hash);
    GroupsAre(SortByHash(es, hash), usable, NeedOf);
    SplitRecorded(Leaves(es, usable, hash), usable);
  }
}
