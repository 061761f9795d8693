/** A linear directory: entries packed in order across blocks, and what a reader lists from them. */
module DirLinear {
  import opened Wrappers
  import opened DirRecord
  import opened Tiling
  import opened Filling
  import opened DirPack
  import opened DirReader

  datatype DirError =
    | EntryTooLarge(need: nat, blockSize: nat)
    | TailExceedsBlock(tailLen: nat, blockSize: nat)
    | MissingDotEntries
    | IndexTooLarge(blocks: nat, capacity: nat)
    | Encode(error: ParseError)

  /** The error of an entry no block could hold. */
  function TooLarge(blockSize: nat): DirEntry -> DirError {
    (e: DirEntry) => EntryTooLarge(Need(e), blockSize)
  }

  /** Bytes an entry's record occupies, or the error of one no block could hold. */
  function RecordLen(e: DirEntry, usable: nat, blockSize: nat): Result<nat, DirError> {
    if Need(e) > usable then Err(TooLarge(blockSize)(e)) else Ok(Need(e))
  }

  function FirstTooLarge(es: seq<DirEntry>, usable: nat, blockSize: nat): Option<DirError> {
    if es == [] then None
    else if Need(es[0]) > usable then Some(TooLarge(blockSize)(es[0]))
    else FirstTooLarge(es[1..], usable, blockSize)
  }

  lemma {:induction false} FirstTooLargeAt(es: seq<DirEntry>, usable: nat, blockSize: nat, k: nat)
    requires k <= |es| && forall i :: 0 <= i < k ==> Need(es[i]) <= usable
    ensures k == |es| ==> FirstTooLarge(es, usable, blockSize).None?
    ensures k < |es| && Need(es[k]) > usable ==>
      FirstTooLarge(es, usable, blockSize) == Some(TooLarge(blockSize)(es[k]))
  {
    if k > 0 { FirstTooLargeAt(es[1..], usable, blockSize, k - 1); }
  }

  function FitsSpec(es: seq<DirEntry>, usable: nat, blockSize: nat): Result<bool, DirError> {
    var e := FirstTooLarge(es, usable, blockSize);
    if e.Some? then Err(e.value) else Ok(Used(es) <= usable)
  }

  /** Whether every entry fits in a single block. */
  method FitsInOneBlock(es: seq<DirEntry>, blockSize: nat, tailLen: nat) returns (r: Result<bool, DirError>)
    requires tailLen <= blockSize
    ensures r == FitsSpec(es, blockSize - tailLen, blockSize)
  {
    var usable := blockSize - tailLen;
    var total, i := 0, 0;
    while i < |es|
      invariant 0 <= i <= |es| && total == Used(es[..i])
      invariant forall k :: 0 <= k < i ==> Need(es[k]) <= usable
    {
      var need := RecordLen(es[i], usable, blockSize);
      if need.Err? {
        FirstTooLargeAt(es, usable, blockSize, i);
        return Err(need.error);
      }
      TotalStep(es, i, Need);
      total := total + need.value;
      i := i + 1;
    }
    FirstTooLargeAt(es, usable, blockSize, |es|);
    assert es[..i] == es;
    return Ok(total <= usable);
  }

  // ----- packing across blocks -----

  /** A group of entries that fit, as one block. */
  function PackGroup(blockSize: nat, tailLen: nat): seq<DirEntry> -> Result<Bytes, DirError>
    requires tailLen <= blockSize
  {
    (g: seq<DirEntry>) =>
      if g == [] || Used(g) > blockSize - tailLen then Ok([])
      else
        var block := PackSpec(g, blockSize, tailLen);
        if block.Err? then Err(Encode(block.error)) else Ok(block.value)
  }

  function LinearSpec(es: seq<DirEntry>, blockSize: nat, tailLen: nat): Result<seq<Bytes>, DirError> {
    if tailLen >= blockSize then Err(TailExceedsBlock(tailLen, blockSize))
    else Build(es, blockSize - tailLen, Need, PackGroup(blockSize, tailLen), TooLarge(blockSize))
  }

  /** The open block packed and pushed. */
  method FlushBlock(blocks: seq<Bytes>, cur: seq<DirEntry>, blockSize: nat, tailLen: nat)
    returns (r: Result<seq<Bytes>, DirError>)
    requires cur != [] && tailLen <= blockSize && Used(cur) <= blockSize - tailLen
    ensures r == Flush(Building(blocks, cur), PackGroup(blockSize, tailLen))
  {
    var block := PackOneBlock(cur, blockSize, tailLen);
    return if block.Err? then Err(Encode(block.error)) else Ok(blocks + [block.value]);
  }

  /** The loop body of `BuildLinear`: one more entry. */
  method AddEntry(b: Building<DirEntry, Bytes>, used: nat, e: DirEntry, blockSize: nat, tailLen: nat)
    returns (r: Result<Building<DirEntry, Bytes>, DirError>, used': nat)
    requires tailLen <= blockSize && used == Used(b.cur) <= blockSize - tailLen
    ensures r == AddItem(b, e, blockSize - tailLen, Need, PackGroup(blockSize, tailLen), TooLarge(blockSize))
    ensures r.Ok? ==> used' == Used(r.value.cur) <= blockSize - tailLen
  {
    var usable := blockSize - tailLen;
    var need := RecordLen(e, usable, blockSize);
    if need.Err? { return Err(need.error), 0; }
    UsedSnoc(b.cur, e);
    UsedSnoc([], e);
    if used + need.value > usable && b.cur != [] {
      var flushed := FlushBlock(b.done, b.cur, blockSize, tailLen);
      if flushed.Err? { return Err(flushed.error), 0; }
      return Ok(Building(flushed.value, [e])), need.value;
    }
    return Ok(Building(b.done, b.cur + [e])), used + need.value;
  }

  /** Pack entries into the blocks of a linear directory. */
  method BuildLinear(es: seq<DirEntry>, blockSize: nat, tailLen: nat) returns (r: Result<seq<Bytes>, DirError>)
    ensures r == LinearSpec(es, blockSize, tailLen)
  {
    if tailLen >= blockSize { return Err(TailExceedsBlock(tailLen, blockSize)); }
    ghost var pack, refuse := PackGroup(blockSize, tailLen), TooLarge(blockSize);
    var b: Building<DirEntry, Bytes> := Building([], []);
    var used, i := 0, 0;
    while i < |es|
      invariant 0 <= i <= |es| && used == Used(b.cur) <= blockSize - tailLen
      invariant Run(es[..i], blockSize - tailLen, Need, pack, refuse) == Ok(b)
    {
      RunStep(es, blockSize - tailLen, Need, pack, refuse, i, b);
      var next;
      next, used := AddEntry(b, used, es[i], blockSize, tailLen);
      if next.Err? { return Err(next.error); }
      b := next.value;
      i := i + 1;
    }
    assert Run(es, blockSize - tailLen, Need, pack, refuse) == Ok(b) by { assert es[..i] == es; }
    if b.cur == [] { return Ok(b.done); }
    r := FlushBlock(b.done, b.cur, blockSize, tailLen);
  }

  lemma UsedSnoc(es: seq<DirEntry>, e: DirEntry)
    ensures Used(es + [e]) == Used(es) + Need(e)
    ensures es == [] ==> es + [e] == [e]
  {
    TotalConcat(es, [e], Need);
    TotalOne(e, Need);
  }

  // ----- when building succeeds, and what it builds -----

  /** A tail too small to be one. */
  predicate BadTail(tailLen: nat) {
    0 < tailLen < DIR_TAIL_LEN
  }

  lemma GroupPackable(g: seq<DirEntry>, blockSize: nat, tailLen: nat)
    requires tailLen <= blockSize && g != [] && Used(g) <= blockSize - tailLen
    ensures PackGroup(blockSize, tailLen)(g).Ok? <==> LongName(g).None? && !BadTail(tailLen)
  {
  }

  lemma {:induction false} GroupsPackable(groups: seq<seq<DirEntry>>, blockSize: nat, tailLen: nat)
    requires tailLen <= blockSize && Greedy(groups, blockSize - tailLen, Need)
    ensures Packable(groups, PackGroup(blockSize, tailLen)) <==>
      (LongName(Flatten(groups)).None? && (groups != [] ==> !BadTail(tailLen)))
  {
    if groups != [] {
      var init, g := groups[..|groups| - 1], groups[|groups| - 1];
      GreedyInit(groups, blockSize - tailLen, Need);
      GreedyAt(groups, blockSize - tailLen, Need, |groups| - 1);
      GroupsPackable(init, blockSize, tailLen);
      GroupPackable(g, blockSize, tailLen);
      assert groups == init + [g];
      FlattenSnoc(init, g);
      LongNameFirst(Flatten(init), g);
    }
  }

  /** Building succeeds exactly when the tail leaves room, every entry fits in a block, every name fits
      in a record, and the tail is one; and then the blocks are the greedy split of the entries, each
      group packed. */
  lemma LinearIs(es: seq<DirEntry>, blockSize: nat, tailLen: nat)
    ensures var r := LinearSpec(es, blockSize, tailLen);
      && (r.Ok? <==> (&& tailLen < blockSize && AllSmall(es, blockSize - tailLen, Need)
                      && LongName(es).None? && (es != [] ==> !BadTail(tailLen))))
      && (r.Ok? ==>
            var groups := Groups(es, blockSize - tailLen, Need);
            && r.value == PackAll(groups, PackGroup(blockSize, tailLen))
            && Packable(groups, PackGroup(blockSize, tailLen))
            && Greedy(groups, blockSize - tailLen, Need) && Flatten(groups) == es)
  {
    if tailLen < blockSize {
      var usable := blockSize - tailLen;
      BuildIs(es, usable, Need, PackGroup(blockSize, tailLen), TooLarge(blockSize));
      if AllSmall(es, usable, Need) {
        GroupsAre(es, usable, Need);
        GroupsPackable(Groups(es, usable, Need), blockSize, tailLen);
      }
    }
  }

  /** Groups closed by the rule each fit in the room. */
  lemma GroupsFit(groups: seq<seq<DirEntry>>, room: nat)
    requires Greedy(groups, room, Need)
    ensures forall g <- groups :: g != [] && Used(g) <= room
  {
    forall g <- groups ensures g != [] && Used(g) <= room {
      var k :| 0 <= k < |groups| && groups[k] == g;
      GreedyAt(groups, room, Need, k);
    }
  }

  /** A directory that was built is its groups, packed. */
  lemma LinearParts(es: seq<DirEntry>, blockSize: nat, tailLen: nat)
    requires LinearSpec(es, blockSize, tailLen).Ok?
    ensures tailLen < blockSize && Packable(Groups(es, blockSize - tailLen, Need), PackGroup(blockSize, tailLen))
    ensures LinearSpec(es, blockSize, tailLen).value ==
      PackAll(Groups(es, blockSize - tailLen, Need), PackGroup(blockSize, tailLen))
    ensures AllSmall(es, blockSize - tailLen, Need)
  {
    LinearIs(es, blockSize, tailLen);
  }

  lemma SplitFits(es: seq<DirEntry>, room: nat)
    requires AllSmall(es, room, Need)
    ensures forall g <- Groups(es, room, Need) :: g != [] && Used(g) <= room
  {
    GroupsAre(es, room, Need);
    GroupsFit(Groups(es, room, Need), room);
  }

  // ----- what a reader lists -----

  lemma GroupListed(g: seq<DirEntry>, blockSize: nat, tailLen: nat, reader: Reader)
    requires Sized(blockSize, tailLen) && g != [] && Used(g) <= blockSize - tailLen
    requires PackGroup(blockSize, tailLen)(g).Ok?
    ensures ListBlock(blockSize, reader)(PackGroup(blockSize, tailLen)(g).value) == Listed(g, reader)
  {
    PackedListed(g, blockSize, tailLen, reader);
  }

  function Keep(reader: Reader): seq<DirEntry> -> Result<seq<DirEntry>, ReadError> {
    (es: seq<DirEntry>) => Listed(es, reader)
  }

  lemma {:induction false} GroupsListed(groups: seq<seq<DirEntry>>, blockSize: nat, tailLen: nat, reader: Reader)
    requires Sized(blockSize, tailLen) && Packable(groups, PackGroup(blockSize, tailLen))
    requires forall g <- groups :: g != [] && Used(g) <= blockSize - tailLen
    ensures ListsBack(groups, PackGroup(blockSize, tailLen), ListBlock(blockSize, reader), Keep(reader))
  {
    if groups != [] {
      var init := groups[..|groups| - 1];
      forall g <- init ensures g != [] && Used(g) <= blockSize - tailLen { assert g in groups; }
      GroupsListed(init, blockSize, tailLen, reader);
      assert groups[|groups| - 1] in groups;
      GroupListed(groups[|groups| - 1], blockSize, tailLen, reader);
    }
  }

  /** Packed groups read back list what the reader makes of all their entries, in order. */
  lemma PackedGroupsListed(groups: seq<seq<DirEntry>>, blockSize: nat, tailLen: nat, reader: Reader)
    requires Sized(blockSize, tailLen) && Greedy(groups, blockSize - tailLen, Need)
    requires Packable(groups, PackGroup(blockSize, tailLen))
    ensures ListAll(PackAll(groups, PackGroup(blockSize, tailLen)), ListBlock(blockSize, reader))
         == Listed(Flatten(groups), reader)
  {
    GroupsFit(groups, blockSize - tailLen);
    GroupsListed(groups, blockSize, tailLen, reader);
    forall a: seq<DirEntry>, b: seq<DirEntry>
      ensures Keep(reader)(a + b) == Joined(Keep(reader)(a), Keep(reader)(b))
    {
      ListedConcat(a, b, reader);
    }
    ListPackAll(groups, PackGroup(blockSize, tailLen), ListBlock(blockSize, reader), Keep(reader));
  }

  /** A linear directory read back lists what the reader makes of the entries it was built from, in order. */
  lemma LinearListed(es: seq<DirEntry>, blockSize: nat, tailLen: nat, reader: Reader)
    requires Sized(blockSize, tailLen) && LinearSpec(es, blockSize, tailLen).Ok?
    ensures ListAll(LinearSpec(es, blockSize, tailLen).value, ListBlock(blockSize, reader)) == Listed(es, reader)
  {
    LinearIs(es, blockSize, tailLen);
    PackedGroupsListed(Groups(es, blockSize - tailLen, Need), blockSize, tailLen, reader);
  }
}
