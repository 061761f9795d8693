/** A stable sort by a strict weak order, standing for the standard library's `sort_by`. */
module StableSort {

  /** `less` orders the values up to ties. */
  ghost predicate WeakOrder<T(!new)>(less: (T, T) -> bool) {
    && (forall a, b :: less(a, b) ==> !less(b, a))
    && (forall a, b, c :: !less(b, a) && !less(c, b) ==> !less(c, a))
  }

  ghost predicate Sorted<T>(less: (T, T) -> bool, s: seq<T>) {
    forall i, j :: 0 <= i < j < |s| ==> !less(s[j], s[i])
  }

  function Sort<T>(less: (T, T) -> bool, s: seq<T>): (r: seq<T>)
    ensures |r| == |s|
  {
    if s == [] then [] else Insert(less, Sort(less, s[..|s| - 1]), s[|s| - 1])
  }

  /** `e` after every element not beyond it. */
  function Insert<T>(less: (T, T) -> bool, s: seq<T>, e: T): (r: seq<T>)
    ensures |r| == |s| + 1
  {
    if s == [] || !less(e, s[|s| - 1]) then s + [e]
    else Insert(less, s[..|s| - 1], e) + [s[|s| - 1]]
  }

  lemma {:induction false} InsertHolds<T>(less: (T, T) -> bool, s: seq<T>, e: T)
    ensures multiset(Insert(less, s, e)) == multiset(s) + multiset{e}
  {
    if s != [] {
      assert s == s[..|s| - 1] + [s[|s| - 1]];
      if less(e, s[|s| - 1]) { InsertHolds(less, s[..|s| - 1], e); }
    }
  }

  lemma {:induction false} InsertSorts<T(!new)>(less: (T, T) -> bool, s: seq<T>, e: T)
    requires WeakOrder(less) && Sorted(less, s)
    ensures Sorted(less, Insert(less, s, e))
  {
    if s != [] {
      var init, last := s[..|s| - 1], s[|s| - 1];
      if less(e, last) {
        InsertSorts(less, init, e);
        InsertHolds(less, init, e);
        var r := Insert(less, init, e);
        forall i | 0 <= i < |r| ensures !less(last, r[i]) {
          assert r[i] in multiset(r);
          assert r[i] == e || r[i] in init;
        }
      } else {
        forall i | 0 <= i < |s| ensures !less(e, s[i]) {}
      }
    }
  }

  /** The sort orders its input and loses nothing. */
  lemma {:induction false} SortSorts<T(!new)>(less: (T, T) -> bool, s: seq<T>)
    requires WeakOrder(less)
    ensures Sorted(less, Sort(less, s))
    ensures multiset(Sort(less, s)) == multiset(s)
  {
    if s != [] {
      var init, last := s[..|s| - 1], s[|s| - 1];
      SortSorts(less, init);
      InsertSorts(less, Sort(less, init), last);
      InsertHolds(less, Sort(less, init), last);
      assert s == init + [last];
    }
  }

  function MapAll<T, U>(s: seq<T>, f: T -> U): seq<U> {
    if s == [] then [] else MapAll(s[..|s| - 1], f) + [f(s[|s| - 1])]
  }

  lemma {:induction false} InsertMapped<T, U>(less: (T, T) -> bool, s: seq<T>, e: T, f: T -> U)
    ensures multiset(MapAll(Insert(less, s, e), f)) == multiset(MapAll(s, f)) + multiset{f(e)}
  {
    if s == [] || !less(e, s[|s| - 1]) {
      assert (s + [e])[..|s|] == s;
    } else {
      var init, last := s[..|s| - 1], s[|s| - 1];
      InsertMapped(less, init, e, f);
      var r := Insert(less, init, e);
      assert (r + [last])[..|r|] == r;
    }
  }

  /** Sorting loses nothing of what its elements stand for. */
  lemma {:induction false} SortMapped<T, U>(less: (T, T) -> bool, s: seq<T>, f: T -> U)
    ensures multiset(MapAll(Sort(less, s), f)) == multiset(MapAll(s, f))
  {
    if s != [] {
      SortMapped(less, s[..|s| - 1], f);
      InsertMapped(less, Sort(less, s[..|s| - 1]), s[|s| - 1], f);
    }
  }

  // ----- stability -----

  /** The elements of `s` that tie with `x`, in order. */
  function Ties<T>(less: (T, T) -> bool, s: seq<T>, x: T): seq<T> {
    if s == [] then []
    else
      var last := s[|s| - 1];
      Ties(less, s[..|s| - 1], x) + if less(last, x) || less(x, last) then [] else [last]
  }

  lemma TiesSnoc<T>(less: (T, T) -> bool, s: seq<T>, e: T, x: T)
    ensures Ties(less, s + [e], x) == Ties(less, s, x) + if less(e, x) || less(x, e) then [] else [e]
  {
    assert (s + [e])[..|s|] == s;
  }

  lemma {:induction false} InsertStable<T(!new)>(less: (T, T) -> bool, s: seq<T>, e: T, x: T)
    requires WeakOrder(less)
    ensures Ties(less, Insert(less, s, e), x) == Ties(less, s + [e], x)
  {
    if s != [] && less(e, s[|s| - 1]) {
      var init, last := s[..|s| - 1], s[|s| - 1];
      InsertStable(less, init, e, x);
      TiesSnoc(less, Insert(less, init, e), last, x);
      TiesSnoc(less, init, e, x);
      TiesSnoc(less, s, e, x);
    }
  }

  /** Elements that tie keep their order. */
  lemma {:induction false} SortStable<T(!new)>(less: (T, T) -> bool, s: seq<T>, x: T)
    requires WeakOrder(less)
    ensures Ties(less, Sort(less, s), x) == Ties(less, s, x)
  {
    if s != [] {
      var init, last := s[..|s| - 1], s[|s| - 1];
      SortStable(less, init, x);
      InsertStable(less, Sort(less, init), last, x);
      TiesSnoc(less, Sort(less, init), last, x);
    }
  }

  // ----- a sorted list without ties is the only one with its elements -----

  ghost predicate Strict<T>(less: (T, T) -> bool, s: seq<T>) {
    forall i, j :: 0 <= i < j < |s| ==> less(s[i], s[j])
  }

  /** The first element is the one no other comes before. */
  lemma StrictHead<T(!new)>(less: (T, T) -> bool, a: seq<T>, b: seq<T>)
    requires WeakOrder(less) && Strict(less, a) && Strict(less, b) && a != [] && b != []
    requires a[0] in b && b[0] in a
    ensures a[0] == b[0]
  {
    var j :| 0 <= j < |b| && b[j] == a[0];
    var k :| 0 <= k < |a| && a[k] == b[0];
  }

  lemma SameTail<T>(a: seq<T>, b: seq<T>)
    requires a != [] && b != [] && a[0] == b[0] && multiset(a) == multiset(b)
    ensures multiset(a[1..]) == multiset(b[1..])
  {
    assert a == [a[0]] + a[1..] && b == [b[0]] + b[1..];
    assert multiset(a[1..]) == multiset(a) - multiset{a[0]};
    assert multiset(b[1..]) == multiset(b) - multiset{b[0]};
  }

  lemma {:induction false} StrictUnique<T(!new)>(less: (T, T) -> bool, a: seq<T>, b: seq<T>)
    requires WeakOrder(less) && Strict(less, a) && Strict(less, b) && multiset(a) == multiset(b)
    ensures a == b
  {
    assert |a| == |multiset(a)| == |b|;
    if a != [] {
      assert a[0] in multiset(b) && b[0] in multiset(a);
      StrictHead(less, a, b);
      SameTail(a, b);
      StrictUnique(less, a[1..], b[1..]);
      assert a == [a[0]] + a[1..] && b == [b[0]] + b[1..];
    }
  }
}
