/** Items of given sizes laid back to back, the last stretched over what room is left; and the greedy
    split of a list of items into groups that fit. What an item is and how it is written are
    parameters. */
module Tiling {
  import opened Wrappers

  function Total<T>(es: seq<T>, size: T -> nat): nat {
    if es == [] then 0 else size(es[0]) + Total(es[1..], size)
  }

  lemma {:induction false} TotalConcat<T>(a: seq<T>, b: seq<T>, size: T -> nat)
    ensures Total(a + b, size) == Total(a, size) + Total(b, size)
  {
    if a == [] {
      assert a + b == b;
    } else {
      assert (a + b)[1..] == a[1..] + b;
      TotalConcat(a[1..], b, size);
    }
  }

  lemma TotalOne<T>(e: T, size: T -> nat)
    ensures Total([e], size) == size(e)
  {
    assert [e][1..] == [];
  }

  lemma {:induction false} TotalStep<T>(es: seq<T>, i: nat, size: T -> nat)
    requires i < |es|
    ensures Total(es[..i + 1], size) == Total(es[..i], size) + size(es[i]) <= Total(es, size)
  {
    if i > 0 {
      assert es[..i + 1][1..] == es[1..][..i] && es[..i][1..] == es[1..][..i - 1];
      TotalStep(es[1..], i - 1, size);
    } else {
      assert es[..1] == [es[0]];
      TotalOne(es[0], size);
    }
  }

  // ----- laying items out -----

  /** An item written over `n` bytes takes `n` bytes. */
  ghost predicate Writes<T, B>(es: seq<T>, size: T -> nat, write: (T, nat) -> seq<B>) {
    forall e <- es, n: nat | size(e) <= n :: |write(e, n)| == n
  }

  /** Items back to back, none stretched. */
  function Unstretched<T, B>(es: seq<T>, size: T -> nat, write: (T, nat) -> seq<B>): seq<B> {
    if es == [] then [] else write(es[0], size(es[0])) + Unstretched(es[1..], size, write)
  }

  /** Items back to back, the last over all the room that is left. */
  function Tiled<T, B>(es: seq<T>, room: nat, size: T -> nat, write: (T, nat) -> seq<B>): seq<B>
    requires es != [] && Total(es, size) <= room
  {
    if |es| == 1 then write(es[0], room)
    else write(es[0], size(es[0])) + Tiled(es[1..], room - size(es[0]), size, write)
  }

  lemma {:induction false} UnstretchedLength<T, B>(es: seq<T>, size: T -> nat, write: (T, nat) -> seq<B>)
    requires Writes(es, size, write)
    ensures |Unstretched(es, size, write)| == Total(es, size)
  {
    if es != [] {
      assert es[0] in es;
      UnstretchedLength(es[1..], size, write);
    }
  }

  lemma {:induction false} UnstretchedSnoc<T, B>(es: seq<T>, e: T, size: T -> nat, write: (T, nat) -> seq<B>)
    ensures Unstretched(es + [e], size, write) == Unstretched(es, size, write) + write(e, size(e))
  {
    var all := es + [e];
    if es == [] {
      assert all[1..] == [];
    } else {
      assert all[1..] == es[1..] + [e];
      UnstretchedSnoc(es[1..], e, size, write);
    }
  }

  lemma UnstretchedLast<T, B>(es: seq<T>, size: T -> nat, write: (T, nat) -> seq<B>)
    requires es != []
    ensures Unstretched(es, size, write) ==
      Unstretched(es[..|es| - 1], size, write) + write(es[|es| - 1], size(es[|es| - 1]))
  {
    var init, last := es[..|es| - 1], es[|es| - 1];
    assert es == init + [last];
    UnstretchedSnoc(init, last, size, write);
  }

  /** The last item of a layout, over the room that is left to it. */
  lemma {:induction false} TiledLast<T, B>(es: seq<T>, room: nat, left: nat, size: T -> nat, write: (T, nat) -> seq<B>)
    requires es != [] && Total(es, size) <= room && Total(es[..|es| - 1], size) + left == room
    ensures Tiled(es, room, size, write) == Unstretched(es[..|es| - 1], size, write) + write(es[|es| - 1], left)
  {
    var init := es[..|es| - 1];
    if |es| > 1 {
      assert init[1..] == es[1..][..|es| - 2] && init[0] == es[0];
      TiledLast(es[1..], room - size(es[0]), left, size, write);
    } else {
      assert init == [];
    }
  }

  lemma {:induction false} TiledLength<T, B>(es: seq<T>, room: nat, size: T -> nat, write: (T, nat) -> seq<B>)
    requires es != [] && Total(es, size) <= room && Writes(es, size, write)
    ensures |Tiled(es, room, size, write)| == room
  {
    assert es[0] in es;
    if |es| > 1 {
      TiledLength(es[1..], room - size(es[0]), size, write);
    } else {
      assert es[1..] == [];
    }
  }

  // ----- walking a layout -----

  /** What a walk stands on: each item in turn, with its length, to the end. A zero length is `stuck`. */
  function Walk<T, B, E>(buf: seq<B>, read: seq<B> -> Result<(T, nat), E>, stuck: E): Result<seq<(T, nat)>, E> {
    if buf == [] then Ok([])
    else
      var first := read(buf);
      if first.Err? then Err(first.error)
      else if first.value.1 == 0 || first.value.1 > |buf| then Err(stuck)
      else Then(first.value, Walk(buf[first.value.1..], read, stuck))
  }

  function Then<T, E>(x: T, rest: Result<seq<T>, E>): Result<seq<T>, E> {
    if rest.Err? then rest else Ok([x] + rest.value)
  }

  lemma WalkStep<T, B, E>(item: seq<B>, rest: seq<B>, x: T, read: seq<B> -> Result<(T, nat), E>, stuck: E)
    requires item != [] && read(item + rest) == Ok((x, |item|))
    ensures Walk(item + rest, read, stuck) == Then((x, |item|), Walk(rest, read, stuck))
  {
    assert (item + rest)[|item|..] == rest && item + rest != [];
  }

  /** What a tiled list is tiled with. */
  function Slots<T>(es: seq<T>, room: nat, size: T -> nat): (slots: seq<(T, nat)>)
    requires Total(es, size) <= room
    ensures |slots| == |es|
    ensures forall i :: 0 <= i < |es| ==> slots[i].0 == es[i]
  {
    if es == [] then []
    else if |es| == 1 then [(es[0], room)]
    else [(es[0], size(es[0]))] + Slots(es[1..], room - size(es[0]), size)
  }

  /** A good item written over a good length reads back as itself, whatever follows it. */
  ghost predicate Faithful<T(!new), B(!new), E>(good: (T, nat) -> bool, write: (T, nat) -> seq<B>,
                                                read: seq<B> -> Result<(T, nat), E>) {
    forall e: T, n: nat, rest: seq<B> | good(e, n) ::
      n > 0 && |write(e, n)| == n && read(write(e, n) + rest) == Ok((e, n))
  }

  predicate AllGood<T>(slots: seq<(T, nat)>, good: (T, nat) -> bool) {
    slots == [] || (good(slots[0].0, slots[0].1) && AllGood(slots[1..], good))
  }

  lemma {:induction false} WalkTiled<T(!new), B(!new), E>(es: seq<T>, room: nat, after: seq<B>, size: T -> nat,
      good: (T, nat) -> bool, write: (T, nat) -> seq<B>, read: seq<B> -> Result<(T, nat), E>, stuck: E)
    requires Faithful(good, write, read)
    requires es != [] && Total(es, size) <= room && AllGood(Slots(es, room, size), good)
    requires Walk(after, read, stuck).Ok?
    ensures Walk(Tiled(es, room, size, write) + after, read, stuck) ==
      Ok(Slots(es, room, size) + Walk(after, read, stuck).value)
  {
    var e := es[0];
    if |es| == 1 {
      WalkGood(e, room, after, good, write, read, stuck);
    } else {
      var n, left := size(e), room - size(e);
      WalkTiled(es[1..], left, after, size, good, write, read, stuck);
      WalkThen(e, n, Tiled(es[1..], left, size, write), after, Slots(es[1..], left, size), good, write, read, stuck);
    }
  }

  lemma WalkThen<T(!new), B(!new), E>(e: T, n: nat, tiled: seq<B>, after: seq<B>, slots: seq<(T, nat)>,
      good: (T, nat) -> bool, write: (T, nat) -> seq<B>, read: seq<B> -> Result<(T, nat), E>, stuck: E)
    requires Faithful(good, write, read) && good(e, n) && Walk(after, read, stuck).Ok?
    requires Walk(tiled + after, read, stuck) == Ok(slots + Walk(after, read, stuck).value)
    ensures Walk(write(e, n) + tiled + after, read, stuck) == Ok([(e, n)] + slots + Walk(after, read, stuck).value)
  {
    WalkGood(e, n, tiled + after, good, write, read, stuck);
    assert write(e, n) + tiled + after == write(e, n) + (tiled + after);
    ThenConcat((e, n), slots, Walk(after, read, stuck).value, stuck);
  }

  lemma WalkGood<T(!new), B(!new), E>(e: T, n: nat, rest: seq<B>, good: (T, nat) -> bool, write: (T, nat) -> seq<B>,
                                      read: seq<B> -> Result<(T, nat), E>, stuck: E)
    requires Faithful(good, write, read) && good(e, n)
    ensures Walk(write(e, n) + rest, read, stuck) == Then((e, n), Walk(rest, read, stuck))
  {
    assert read(write(e, n) + rest) == Ok((e, n));
    WalkStep(write(e, n), rest, e, read, stuck);
  }

  lemma ThenConcat<T, E>(x: T, a: seq<T>, b: seq<T>, error: E)
    ensures Then<T, E>(x, Ok(a + b)) == Ok([x] + a + b)
  {
    assert [x] + (a + b) == [x] + a + b;
  }

  function Lengths<T>(slots: seq<(T, nat)>): nat {
    if slots == [] then 0 else slots[0].1 + Lengths(slots[1..])
  }

  lemma {:induction false} LengthsConcat<T>(a: seq<(T, nat)>, b: seq<(T, nat)>)
    ensures Lengths(a + b) == Lengths(a) + Lengths(b)
  {
    if a == [] {
      assert a + b == b;
    } else {
      assert (a + b)[1..] == a[1..] + b;
      LengthsConcat(a[1..], b);
    }
  }

  /** The slots fill the room, and each is at least its item's size. */
  lemma {:induction false} SlotsFill<T>(es: seq<T>, room: nat, size: T -> nat)
    requires es != [] && Total(es, size) <= room
    ensures Lengths(Slots(es, room, size)) == room
    ensures forall s <- Slots(es, room, size) :: s.1 >= size(s.0)
  {
    if |es| > 1 {
      SlotsFill(es[1..], room - size(es[0]), size);
    } else {
      assert Slots(es, room, size)[1..] == [] && es[1..] == [];
    }
  }

  // ----- listing and seeking -----

  /** One list after another; the first error ends it. */
  function Joined<U, E>(a: Result<seq<U>, E>, b: Result<seq<U>, E>): Result<seq<U>, E> {
    if a.Err? then a else if b.Err? then b else Ok(a.value + b.value)
  }

  lemma JoinedTwice<U, E>(a: Result<seq<U>, E>, b: Result<seq<U>, E>, c: Result<seq<U>, E>)
    ensures Joined(Joined(a, b), c) == Joined(a, Joined(b, c))
  {
    if a.Ok? && b.Ok? && c.Ok? { assert a.value + b.value + c.value == a.value + (b.value + c.value); }
  }

  lemma JoinedNothing<U, E>(a: Result<seq<U>, E>)
    ensures Joined(a, Ok([])) == a == Joined(Ok([]), a)
  {
    if a.Ok? { assert a.value + [] == a.value == [] + a.value; }
  }

  /** What an item comes to: nothing, a value, or an error. */
  function Verdict<U, E>(x: Option<Result<U, E>>): Result<seq<U>, E> {
    if x.None? then Ok([]) else if x.value.Err? then Err(x.value.error) else Ok([x.value.value])
  }

  /** What the items come to, in turn, up to the first error. */
  function Sift<S, U, E>(s: seq<S>, judge: S -> Option<Result<U, E>>): Result<seq<U>, E> {
    if s == [] then Ok([]) else Joined(Verdict(judge(s[0])), Sift(s[1..], judge))
  }

  lemma {:induction false} SiftConcat<S, U, E>(a: seq<S>, b: seq<S>, judge: S -> Option<Result<U, E>>)
    ensures Sift(a + b, judge) == Joined(Sift(a, judge), Sift(b, judge))
  {
    if a == [] {
      assert a + b == b;
      JoinedNothing(Sift(b, judge));
    } else {
      assert (a + b)[1..] == a[1..] + b;
      SiftConcat(a[1..], b, judge);
      JoinedTwice(Verdict(judge(a[0])), Sift(a[1..], judge), Sift(b, judge));
    }
  }

  /** Slots judged by their items come to what the items do. */
  lemma {:induction false} SiftSlots<T(!new), U, E>(es: seq<T>, room: nat, size: T -> nat,
      judge: T -> Option<Result<U, E>>, judgeSlot: ((T, nat)) -> Option<Result<U, E>>)
    requires Total(es, size) <= room && forall s: (T, nat) :: judgeSlot(s) == judge(s.0)
    ensures Sift(Slots(es, room, size), judgeSlot) == Sift(es, judge)
  {
    if |es| > 1 {
      SiftSlots(es[1..], room - size(es[0]), size, judge, judgeSlot);
      assert Slots(es, room, size)[1..] == Slots(es[1..], room - size(es[0]), size);
    } else if |es| == 1 {
      assert es[1..] == [] && Slots(es, room, size)[1..] == [];
    }
  }

  /** What a walk comes to, judging as it goes; what follows an error is not read. */
  function ListFrom<T, B, U, E>(buf: seq<B>, read: seq<B> -> Result<(T, nat), E>, stuck: E,
                                judge: ((T, nat)) -> Option<Result<U, E>>): Result<seq<U>, E> {
    if buf == [] then Ok([])
    else
      var first := read(buf);
      if first.Err? then Err(first.error)
      else if first.value.1 == 0 || first.value.1 > |buf| then Err(stuck)
      else Joined(Verdict(judge(first.value)), ListFrom(buf[first.value.1..], read, stuck, judge))
  }

  lemma {:induction false} ListWalk<T, B, U, E>(buf: seq<B>, read: seq<B> -> Result<(T, nat), E>, stuck: E,
                                                judge: ((T, nat)) -> Option<Result<U, E>>)
    requires Walk(buf, read, stuck).Ok?
    ensures ListFrom(buf, read, stuck, judge) == Sift(Walk(buf, read, stuck).value, judge)
    decreases |buf|
  {
    if buf != [] {
      var first := read(buf).value;
      ListWalk(buf[first.1..], read, stuck, judge);
      assert Walk(buf, read, stuck).value[1..] == Walk(buf[first.1..], read, stuck).value;
    }
  }

  /** The first of a walk that `pick` picks; what follows it is not read. */
  function Seek<T, B, U, E>(buf: seq<B>, read: seq<B> -> Result<(T, nat), E>, stuck: E,
                            pick: ((T, nat)) -> Option<U>): Result<Option<U>, E> {
    if buf == [] then Ok(None)
    else
      var first := read(buf);
      if first.Err? then Err(first.error)
      else if first.value.1 == 0 || first.value.1 > |buf| then Err(stuck)
      else if pick(first.value).Some? then Ok(pick(first.value))
      else Seek(buf[first.value.1..], read, stuck, pick)
  }

  /** The first that `pick` picks. */
  function FirstPick<T, U>(s: seq<T>, pick: T -> Option<U>): Option<U> {
    if s == [] then None
    else if pick(s[0]).Some? then pick(s[0])
    else FirstPick(s[1..], pick)
  }

  lemma {:induction false} FirstPickConcat<T, U>(a: seq<T>, b: seq<T>, pick: T -> Option<U>)
    ensures FirstPick(a + b, pick) == if FirstPick(a, pick).Some? then FirstPick(a, pick) else FirstPick(b, pick)
  {
    if a == [] {
      assert a + b == b;
    } else {
      assert (a + b)[1..] == a[1..] + b;
      FirstPickConcat(a[1..], b, pick);
    }
  }

  /** Slots picked by their items pick what the items do. */
  lemma {:induction false} PickSlots<T(!new), U>(es: seq<T>, room: nat, size: T -> nat, pick: T -> Option<U>,
                                                 pickSlot: ((T, nat)) -> Option<U>)
    requires Total(es, size) <= room && forall s: (T, nat) :: pickSlot(s) == pick(s.0)
    ensures FirstPick(Slots(es, room, size), pickSlot) == FirstPick(es, pick)
  {
    if |es| > 1 {
      PickSlots(es[1..], room - size(es[0]), size, pick, pickSlot);
      assert Slots(es, room, size)[1..] == Slots(es[1..], room - size(es[0]), size);
    } else if |es| == 1 {
      assert es[1..] == [] && Slots(es, room, size)[1..] == [];
    }
  }

  /** What a walk stands on before it ends or fails. */
  function Reached<T, B, E>(buf: seq<B>, read: seq<B> -> Result<(T, nat), E>): seq<(T, nat)> {
    if buf == [] then []
    else
      var first := read(buf);
      if first.Err? || first.value.1 == 0 || first.value.1 > |buf| then []
      else [first.value] + Reached(buf[first.value.1..], read)
  }

  /** Seeking finds the first picked of what is reached, and past that there is nothing or an error. */
  lemma {:induction false} SeekReached<T, B, U, E>(buf: seq<B>, read: seq<B> -> Result<(T, nat), E>, stuck: E,
                                                   pick: ((T, nat)) -> Option<U>)
    ensures var found := FirstPick(Reached(buf, read), pick);
      if found.Some? then Seek(buf, read, stuck, pick) == Ok(found)
      else Seek(buf, read, stuck, pick).Err? || Seek(buf, read, stuck, pick) == Ok(None)
    decreases |buf|
  {
    if buf != [] {
      var first := read(buf);
      if first.Ok? && 0 < first.value.1 <= |buf| {
        SeekReached(buf[first.value.1..], read, stuck, pick);
        assert Reached(buf, read)[1..] == Reached(buf[first.value.1..], read);
      }
    }
  }

  lemma {:induction false} SeekWalk<T, B, U, E>(buf: seq<B>, read: seq<B> -> Result<(T, nat), E>, stuck: E,
                                                pick: ((T, nat)) -> Option<U>)
    requires Walk(buf, read, stuck).Ok?
    ensures Seek(buf, read, stuck, pick) == Ok(FirstPick(Walk(buf, read, stuck).value, pick))
    decreases |buf|
  {
    if buf != [] {
      var first := read(buf).value;
      SeekWalk(buf[first.1..], read, stuck, pick);
      assert Walk(buf, read, stuck).value[1..] == Walk(buf[first.1..], read, stuck).value;
    }
  }

  // ----- splitting greedily -----

  /** The groups already closed, and the one being filled. */
  datatype Filling<T> = Filling(done: seq<seq<T>>, cur: seq<T>)

  function Fill<T>(es: seq<T>, room: nat, size: T -> nat): (f: Filling<T>) {
    if es == [] then Filling([], [])
    else AddTo(Fill(es[..|es| - 1], room, size), es[|es| - 1], room, size)
  }

  /** One more item: it closes the group it does not fit in, unless the group is empty. */
  function AddTo<T>(f: Filling<T>, e: T, room: nat, size: T -> nat): Filling<T> {
    if Total(f.cur, size) + size(e) > room && f.cur != [] then Filling(f.done + [f.cur], [e])
    else Filling(f.done, f.cur + [e])
  }

  function Groups<T>(es: seq<T>, room: nat, size: T -> nat): seq<seq<T>> {
    Close(Fill(es, room, size))
  }

  function Close<T>(f: Filling<T>): seq<seq<T>> {
    f.done + if f.cur == [] then [] else [f.cur]
  }

  function Flatten<T>(groups: seq<seq<T>>): seq<T> {
    if groups == [] then [] else groups[0] + Flatten(groups[1..])
  }

  lemma {:induction false} FlattenSnoc<T>(groups: seq<seq<T>>, g: seq<T>)
    ensures Flatten(groups + [g]) == Flatten(groups) + g
  {
    if groups == [] {
      assert Flatten([g]) == g + Flatten([g][1..]) && [g][1..] == [];
      assert groups + [g] == [g];
    } else {
      assert (groups + [g])[1..] == groups[1..] + [g];
      FlattenSnoc(groups[1..], g);
    }
  }

  /** Groups that fit, none empty, each closed only because the next item did not fit in it. */
  ghost predicate Greedy<T>(groups: seq<seq<T>>, room: nat, size: T -> nat) {
    groups == [] ||
      (&& groups[0] != [] && Total(groups[0], size) <= room
       && Greedy(groups[1..], room, size)
       && (|groups| > 1 ==> groups[1] != [] && Total(groups[0], size) + size(groups[1][0]) > room))
  }

  /** The same, group by group. */
  lemma {:induction false} GreedyAt<T>(groups: seq<seq<T>>, room: nat, size: T -> nat, k: nat)
    requires Greedy(groups, room, size) && k < |groups|
    ensures groups[k] != [] && Total(groups[k], size) <= room
    ensures k + 1 < |groups| ==> groups[k + 1] != [] && Total(groups[k], size) + size(groups[k + 1][0]) > room
  {
    if k > 0 { GreedyAt(groups[1..], room, size, k - 1); }
  }

  lemma {:induction false} GreedyInit<T>(groups: seq<seq<T>>, room: nat, size: T -> nat)
    requires groups != [] && Greedy(groups, room, size)
    ensures Greedy(groups[..|groups| - 1], room, size)
  {
    var init := groups[..|groups| - 1];
    if |groups| > 1 {
      assert init[1..] == groups[1..][..|groups| - 2];
      GreedyInit(groups[1..], room, size);
    }
  }

  lemma {:induction false} GreedySnoc<T>(groups: seq<seq<T>>, g: seq<T>, room: nat, size: T -> nat)
    requires Greedy(groups, room, size) && g != [] && Total(g, size) <= room
    requires groups != [] ==> Total(groups[|groups| - 1], size) + size(g[0]) > room
    ensures Greedy(groups + [g], room, size)
  {
    var all := groups + [g];
    if groups == [] {
      assert all == [g] && all[1..] == [];
    } else {
      assert all[1..] == groups[1..] + [g];
      GreedySnoc(groups[1..], g, room, size);
    }
  }

  /** Filling the last group further keeps what closed the ones before it. */
  lemma {:induction false} GreedyFurther<T>(groups: seq<seq<T>>, g: seq<T>, more: seq<T>, room: nat, size: T -> nat)
    requires g != [] && Greedy(groups + [g], room, size) && Total(g + more, size) <= room
    ensures Greedy(groups + [g + more], room, size)
  {
    var old_, new_ := groups + [g], groups + [g + more];
    if groups == [] {
      assert new_ == [g + more] && new_[1..] == [];
    } else {
      assert old_[1..] == groups[1..] + [g] && new_[1..] == groups[1..] + [g + more];
      GreedyFurther(groups[1..], g, more, room, size);
      assert new_[1][0] == old_[1][0];
    }
  }

  lemma FlattenClose<T>(f: Filling<T>)
    ensures Flatten(Close(f)) == Flatten(f.done) + f.cur
  {
    if f.cur == [] {
      assert Close(f) == f.done;
    } else {
      FlattenSnoc(f.done, f.cur);
    }
  }

  lemma AddToIs<T>(f: Filling<T>, e: T, room: nat, size: T -> nat)
    requires Greedy(Close(f), room, size) && size(e) <= room && (f.cur == [] ==> f.done == [])
    ensures var f' := AddTo(f, e, room, size);
      && Greedy(Close(f'), room, size)
      && f'.cur != []
      && Flatten(Close(f')) == Flatten(Close(f)) + [e]
  {
    var f' := AddTo(f, e, room, size);
    TotalOne(e, size);
    TotalConcat(f.cur, [e], size);
    FlattenClose(f);
    FlattenClose(f');
    if f.cur == [] {
      assert f.cur + [e] == [e] && f'.done == [];
      GreedySnoc([], [e], room, size);
      assert Close(f') == [] + [[e]];
    } else if Total(f.cur, size) + size(e) > room {
      GreedySnoc(Close(f), [e], room, size);
      assert Close(f') == Close(f) + [[e]];
    } else {
      GreedyFurther(f.done, f.cur, [e], room, size);
    }
  }

  lemma {:induction false} FillIs<T>(es: seq<T>, room: nat, size: T -> nat)
    requires forall i :: 0 <= i < |es| ==> size(es[i]) <= room
    ensures var f := Fill(es, room, size);
      && Greedy(Close(f), room, size)
      && (es == [] <==> f.cur == [])
      && (f.cur == [] ==> f.done == [])
      && Flatten(Close(f)) == es
  {
    if es != [] {
      var init, e := es[..|es| - 1], es[|es| - 1];
      FillIs(init, room, size);
      AddToIs(Fill(init, room, size), e, room, size);
      assert es == init + [e];
    }
  }

  /** The split loses nothing and is greedy. */
  lemma GroupsAre<T>(es: seq<T>, room: nat, size: T -> nat)
    requires forall e <- es :: size(e) <= room
    ensures Greedy(Groups(es, room, size), room, size)
    ensures Flatten(Groups(es, room, size)) == es
  {
    FillIs(es, room, size);
  }

  /** There is only one greedy split of a list. */
  lemma {:induction false} GreedyUnique<T>(a: seq<seq<T>>, b: seq<seq<T>>, room: nat, size: T -> nat)
    requires Greedy(a, room, size) && Greedy(b, room, size) && Flatten(a) == Flatten(b)
    ensures a == b
  {
    if a != [] && b != [] {
      SameHead(a, b, room, size);
      var s, n := Flatten(a), |a[0]|;
      assert s[n..] == Flatten(a[1..]) && s[n..] == Flatten(b[1..]);
      GreedyUnique(a[1..], b[1..], room, size);
      assert a == [a[0]] + a[1..] && b == [b[0]] + b[1..];
    }
  }

  lemma SameHead<T>(a: seq<seq<T>>, b: seq<seq<T>>, room: nat, size: T -> nat)
    requires a != [] && b != [] && Greedy(a, room, size) && Greedy(b, room, size) && Flatten(a) == Flatten(b)
    ensures a[0] == b[0]
  {
    if |a[0]| < |b[0]| {
      HeadNoLonger(a, b, room, size);
    } else if |b[0]| < |a[0]| {
      HeadNoLonger(b, a, room, size);
    } else {
      var s := Flatten(a);
      assert a[0] == s[..|a[0]|] && b[0] == s[..|b[0]|];
    }
  }

  /** A group cannot go on past where another greedy split closed it: the next item did not fit. */
  lemma HeadNoLonger<T>(a: seq<seq<T>>, b: seq<seq<T>>, room: nat, size: T -> nat)
    requires a != [] && b != [] && Greedy(a, room, size) && Greedy(b, room, size) && Flatten(a) == Flatten(b)
    ensures |a[0]| >= |b[0]|
  {
    if |a[0]| < |b[0]| {
      var s, n := Flatten(a), |a[0]|;
      assert s == a[0] + Flatten(a[1..]) == b[0] + Flatten(b[1..]);
      assert a[0] == s[..n] == b[0][..n] && s[n] == b[0][n];
      assert a[1..] != [] && a[1..][0] == a[1];
      assert s[n] == Flatten(a[1..])[0] == a[1][0];
      TotalStep(b[0], n, size);
    }
  }
}
