/** Blocks filled one item at a time: the open block is packed when the next item does not fit in it.
    How a block is packed, and how an item too large for any is refused, are parameters. */
module Filling {
  import opened Wrappers
  import opened Tiling

  /** The blocks packed so far, and the items of the open one. */
  datatype Building<T, B> = Building(done: seq<B>, cur: seq<T>)

  function Flush<T, B, E>(b: Building<T, B>, pack: seq<T> -> Result<B, E>): Result<seq<B>, E> {
    if b.cur == [] then Ok(b.done)
    else
      var block := pack(b.cur);
      if block.Err? then Err(block.error) else Ok(b.done + [block.value])
  }

  function AddItem<T, B, E>(b: Building<T, B>, e: T, room: nat, size: T -> nat, pack: seq<T> -> Result<B, E>,
                            refuse: T -> E): Result<Building<T, B>, E> {
    if size(e) > room then Err(refuse(e))
    else if Total(b.cur, size) + size(e) > room && b.cur != [] then
      var done := Flush(b, pack);
      if done.Err? then Err(done.error) else Ok(Building(done.value, [e]))
    else Ok(Building(b.done, b.cur + [e]))
  }

  function Run<T, B, E>(es: seq<T>, room: nat, size: T -> nat, pack: seq<T> -> Result<B, E>, refuse: T -> E)
    : Result<Building<T, B>, E>
  {
    if es == [] then Ok(Building([], []))
    else
      var before := Run(es[..|es| - 1], room, size, pack, refuse);
      if before.Err? then before else AddItem(before.value, es[|es| - 1], room, size, pack, refuse)
  }

  function Build<T, B, E>(es: seq<T>, room: nat, size: T -> nat, pack: seq<T> -> Result<B, E>, refuse: T -> E)
    : Result<seq<B>, E>
  {
    var b := Run(es, room, size, pack, refuse);
    if b.Err? then Err(b.error) else Flush(b.value, pack)
  }

  /** What has failed stays failed. */
  lemma {:induction false} RunFails<T, B, E>(es: seq<T>, room: nat, size: T -> nat, pack: seq<T> -> Result<B, E>,
                                             refuse: T -> E, i: nat)
    requires i <= |es| && Run(es[..i], room, size, pack, refuse).Err?
    ensures Run(es, room, size, pack, refuse) == Run(es[..i], room, size, pack, refuse)
  {
    if i < |es| {
      assert es[..|es| - 1][..i] == es[..i];
      RunFails(es[..|es| - 1], room, size, pack, refuse, i);
    } else {
      assert es[..i] == es;
    }
  }

  /** One more item, and what it means for the whole run if it fails. */
  lemma RunStep<T, B, E>(es: seq<T>, room: nat, size: T -> nat, pack: seq<T> -> Result<B, E>, refuse: T -> E,
                         i: nat, b: Building<T, B>)
    requires i < |es| && Run(es[..i], room, size, pack, refuse) == Ok(b)
    ensures var next := AddItem(b, es[i], room, size, pack, refuse);
      && Run(es[..i + 1], room, size, pack, refuse) == next
      && (next.Err? ==> Build(es, room, size, pack, refuse) == Err(next.error))
  {
    assert es[..i + 1][..i] == es[..i];
    if AddItem(b, es[i], room, size, pack, refuse).Err? { RunFails(es, room, size, pack, refuse, i + 1); }
  }

  // ----- against the split alone -----

  function PackAll<T, B, E>(groups: seq<seq<T>>, pack: seq<T> -> Result<B, E>): seq<B> {
    if groups == [] then []
    else
      var block := pack(groups[|groups| - 1]);
      PackAll(groups[..|groups| - 1], pack) + if block.Ok? then [block.value] else []
  }

  /** Every group packs. */
  predicate Packable<T, B, E>(groups: seq<seq<T>>, pack: seq<T> -> Result<B, E>) {
    groups == [] || (pack(groups[|groups| - 1]).Ok? && Packable(groups[..|groups| - 1], pack))
  }

  lemma PackSnoc<T, B, E>(groups: seq<seq<T>>, g: seq<T>, pack: seq<T> -> Result<B, E>)
    ensures Packable(groups + [g], pack) <==> Packable(groups, pack) && pack(g).Ok?
    ensures pack(g).Ok? ==> PackAll(groups + [g], pack) == PackAll(groups, pack) + [pack(g).value]
  {
    assert (groups + [g])[..|groups|] == groups;
  }

  predicate AllSmall<T>(es: seq<T>, room: nat, size: T -> nat) {
    forall i :: 0 <= i < |es| ==> size(es[i]) <= room
  }

  lemma AllSmallSnoc<T>(es: seq<T>, room: nat, size: T -> nat)
    requires es != []
    ensures AllSmall(es, room, size) <==> AllSmall(es[..|es| - 1], room, size) && size(es[|es| - 1]) <= room
  {
    assert forall i :: 0 <= i < |es| - 1 ==> es[i] == es[..|es| - 1][i];
  }

  /** The run succeeds exactly when no item is too large and every block it closes packs; and then it
      is the split, packed. */
  lemma {:induction false} RunIs<T, B, E>(es: seq<T>, room: nat, size: T -> nat, pack: seq<T> -> Result<B, E>,
                                          refuse: T -> E)
    ensures var (r, f) := (Run(es, room, size, pack, refuse), Fill(es, room, size));
      && (r.Ok? <==> (AllSmall(es, room, size) && Packable(f.done, pack)))
      && (r.Ok? ==> r.value == Building(PackAll(f.done, pack), f.cur))
  {
    if es != [] {
      var before := es[..|es| - 1];
      RunIs(before, room, size, pack, refuse);
      AllSmallSnoc(es, room, size);
      var f := Fill(before, room, size);
      PackSnoc(f.done, f.cur, pack);
    }
  }

  /** Building succeeds exactly when no item is too large and every group of the split packs; and then
      it is the split, packed. */
  lemma BuildIs<T, B, E>(es: seq<T>, room: nat, size: T -> nat, pack: seq<T> -> Result<B, E>, refuse: T -> E)
    ensures var (r, groups) := (Build(es, room, size, pack, refuse), Groups(es, room, size));
      && (r.Ok? <==> (AllSmall(es, room, size) && Packable(groups, pack)))
      && (r.Ok? ==> r.value == PackAll(groups, pack))
  {
    RunIs(es, room, size, pack, refuse);
    var f := Fill(es, room, size);
    PackSnoc(f.done, f.cur, pack);
    assert f.done + [] == f.done;
  }

  // ----- read back -----

  /** What every block in turn lists, one after another, up to the first error. */
  function ListAll<T, B, E>(blocks: seq<B>, list: B -> Result<seq<T>, E>): Result<seq<T>, E> {
    if blocks == [] then Ok([]) else Joined(ListAll(blocks[..|blocks| - 1], list), list(blocks[|blocks| - 1]))
  }

  lemma ListSnoc<T, B, E>(blocks: seq<B>, block: B, list: B -> Result<seq<T>, E>)
    ensures ListAll(blocks + [block], list) == Joined(ListAll(blocks, list), list(block))
  {
    assert (blocks + [block])[..|blocks|] == blocks;
  }

  lemma {:induction false} ListConcat<T, B, E>(a: seq<B>, b: seq<B>, list: B -> Result<seq<T>, E>)
    ensures ListAll(a + b, list) == Joined(ListAll(a, list), ListAll(b, list))
  {
    if b == [] {
      assert a + b == a;
      JoinedNothing(ListAll(a, list));
    } else {
      var init, last := b[..|b| - 1], b[|b| - 1];
      ListConcat(a, init, list);
      assert (a + b)[..|a + b| - 1] == a + init && (a + b)[|a + b| - 1] == last;
      JoinedTwice(ListAll(a, list), ListAll(init, list), list(last));
    }
  }

  lemma {:induction false} ListNothing<T, B, E>(blocks: seq<B>, list: B -> Result<seq<T>, E>)
    requires forall b <- blocks :: list(b) == Ok([])
    ensures ListAll(blocks, list) == Ok([])
  {
    if blocks != [] {
      forall b <- blocks[..|blocks| - 1] ensures list(b) == Ok([]) { assert b in blocks; }
      ListNothing(blocks[..|blocks| - 1], list);
      assert blocks[|blocks| - 1] in blocks;
      JoinedNothing(ListAll(blocks[..|blocks| - 1], list));
    }
  }

  /** Every packed group lists what `keep` makes of it. */
  ghost predicate ListsBack<T, B, U, E, F>(groups: seq<seq<T>>, pack: seq<T> -> Result<B, E>,
                                           list: B -> Result<seq<U>, F>, keep: seq<T> -> Result<seq<U>, F>) {
    groups == [] ||
      (&& pack(groups[|groups| - 1]).Ok? && list(pack(groups[|groups| - 1]).value) == keep(groups[|groups| - 1])
       && ListsBack(groups[..|groups| - 1], pack, list, keep))
  }

  lemma {:induction false} ListPackAll<T(!new), B, U, E, F>(groups: seq<seq<T>>, pack: seq<T> -> Result<B, E>,
      list: B -> Result<seq<U>, F>, keep: seq<T> -> Result<seq<U>, F>)
    requires ListsBack(groups, pack, list, keep)
    requires keep([]) == Ok([]) && forall a, b :: keep(a + b) == Joined(keep(a), keep(b))
    ensures ListAll(PackAll(groups, pack), list) == keep(Flatten(groups))
  {
    if groups != [] {
      var init, g := groups[..|groups| - 1], groups[|groups| - 1];
      ListPackAll(init, pack, list, keep);
      ListSnoc(PackAll(init, pack), pack(g).value, list);
      assert groups == init + [g];
      FlattenSnoc(init, g);
    }
  }

  // ----- splitting, then packing -----

  /** The loop that only splits: an item that does not fit in the open group closes it. */
  method FillGroups<T>(es: seq<T>, room: nat, size: T -> nat) returns (groups: seq<seq<T>>)
    ensures groups == Groups(es, room, size)
  {
    groups := [];
    var cur: seq<T> := [];
    var used, i := 0, 0;
    while i < |es|
      invariant 0 <= i <= |es| && used == Total(cur, size)
      invariant Fill(es[..i], room, size) == Tiling.Filling(groups, cur)
    {
      var e := es[i];
      assert es[..i + 1][..i] == es[..i];
      TotalConcat(cur, [e], size);
      TotalOne(e, size);
      if used + size(e) > room && cur != [] {
        groups := groups + [cur];
        cur := [e];
        used := size(e);
      } else {
        cur := cur + [e];
        used := used + size(e);
      }
      i := i + 1;
    }
    assert es[..i] == es;
    if cur != [] { groups := groups + [cur]; }
  }

  /** Groups packed in turn, up to the first that does not pack. */
  function PackEach<T, B, E>(groups: seq<seq<T>>, pack: seq<T> -> Result<B, E>): Result<seq<B>, E> {
    if groups == [] then Ok([])
    else
      var before := PackEach(groups[..|groups| - 1], pack);
      if before.Err? then before else Flush(Building(before.value, groups[|groups| - 1]), pack)
  }

  lemma {:induction false} PackEachIs<T, B, E>(groups: seq<seq<T>>, pack: seq<T> -> Result<B, E>)
    requires forall g <- groups :: g != []
    ensures PackEach(groups, pack).Ok? <==> Packable(groups, pack)
    ensures PackEach(groups, pack).Ok? ==> PackEach(groups, pack).value == PackAll(groups, pack)
  {
    if groups != [] {
      var init := groups[..|groups| - 1];
      forall g <- init ensures g != [] { assert g in groups; }
      PackEachIs(init, pack);
      assert groups[|groups| - 1] in groups;
    }
  }

  lemma {:induction false} PackAllAt<T, B, E>(groups: seq<seq<T>>, pack: seq<T> -> Result<B, E>, k: nat)
    requires k < |groups| && Packable(groups, pack)
    ensures |PackAll(groups, pack)| == |groups| && pack(groups[k]) == Ok(PackAll(groups, pack)[k])
  {
    var init := groups[..|groups| - 1];
    if k < |init| {
      PackAllAt(init, pack, k);
    } else if init != [] {
      PackAllAt(init, pack, 0);
    }
  }
}
