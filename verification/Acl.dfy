/** POSIX.1e access control lists: the canonical, validated form and its version-2 attribute bytes. */
module Acls {
  import opened Wrappers
  import opened Words
  import opened StableSort
  import opened Records

  const XATTR_ACL_VERSION: u32 := 2
  const XATTR_ENTRY_LEN := 8
  const ACL_UNDEFINED_ID: u32 := 0xffff_ffff

  const TAG_USER_OBJ: u16 := 0x01
  const TAG_USER: u16 := 0x02
  const TAG_GROUP_OBJ: u16 := 0x04
  const TAG_GROUP: u16 := 0x08
  const TAG_MASK: u16 := 0x10
  const TAG_OTHER: u16 := 0x20

  const READ: u16 := 4
  const WRITE: u16 := 2
  const EXEC: u16 := 1

  datatype Tag = Owner | OwningGroup | OtherTag | MaskTag | NamedUser | NamedGroup

  datatype AclError =
    | MissingRequired(tag: Tag)
    | Duplicate(tag: Tag)
    | MaskRequired
    | InvalidPerm(perm: u16)
    | UndefinedId(tag: Tag)
    | Malformed(reason: string)

  datatype AclQualifier = UserObj | User(id: u32) | GroupObj | Group(id: u32) | Mask | Other {

    predicate Named() { User? || Group? }

    function TagAndId(): (u16, Option<u32>) {
      match this
      case UserObj => (TAG_USER_OBJ, None)
      case User(id) => (TAG_USER, Some(id))
      case GroupObj => (TAG_GROUP_OBJ, None)
      case Group(id) => (TAG_GROUP, Some(id))
      case Mask => (TAG_MASK, None)
      case Other => (TAG_OTHER, None)
    }

    function SortKey(): (u16, u32) {
      var (tag, id) := TagAndId();
      (tag, if id.Some? then id.value else 0)
    }

    static function FromTag(tag: u16, id: u32): Option<AclQualifier> {
      if tag == TAG_USER_OBJ then Some(UserObj)
      else if tag == TAG_USER then Some(User(id))
      else if tag == TAG_GROUP_OBJ then Some(GroupObj)
      else if tag == TAG_GROUP then Some(Group(id))
      else if tag == TAG_MASK then Some(Mask)
      else if tag == TAG_OTHER then Some(Other)
      else None
    }
  }

  datatype AclEntry = AclEntry(who: AclQualifier, perm: u16)

  datatype Acl = Acl(entries: seq<AclEntry>)

  // ----- canonical order -----

  predicate Before(a: AclQualifier, b: AclQualifier) {
    var (s, i) := a.SortKey();
    var (t, j) := b.SortKey();
    s < t || (s == t && i < j)
  }

  predicate EntryBefore(a: AclEntry, b: AclEntry) {
    Before(a.who, b.who)
  }

  /** Qualifiers with one sort key are one qualifier. */
  lemma BeforeTotal(a: AclQualifier, b: AclQualifier)
    ensures a != b <==> Before(a, b) || Before(b, a)
    ensures !(Before(a, b) && Before(b, a))
  {
  }

  lemma EntryOrder()
    ensures WeakOrder(EntryBefore)
  {
  }

  // ----- validity -----

  /** Whether some entry is for `who`. */
  predicate Has(es: seq<AclEntry>, who: AclQualifier) {
    exists e | e in es :: e.who == who
  }

  predicate AnyNamed(es: seq<AclEntry>) {
    exists e | e in es :: e.who.Named()
  }

  /** How many entries are for `who`. */
  function Count(es: seq<AclEntry>, who: AclQualifier): nat {
    if es == [] then 0 else Count(es[..|es| - 1], who) + if es[|es| - 1].who == who then 1 else 0
  }

  /** What is wrong with the named entry at `i`, the entries before it being sound. */
  function NamedFault(es: seq<AclEntry>, i: nat): Option<AclError>
    requires i < |es|
  {
    var who := es[i].who;
    if !who.Named() then None
    else
      var tag := if who.User? then NamedUser else NamedGroup;
      if who.id == ACL_UNDEFINED_ID then Some(UndefinedId(tag))
      else if Has(es[..i], who) then Some(Duplicate(tag))
      else None
  }

  /** The first fault among the named entries from `i`. */
  function FirstFault(es: seq<AclEntry>, i: nat): Option<AclError>
    requires i <= |es|
    decreases |es| - i
  {
    if i == |es| then None
    else if NamedFault(es, i).Some? then NamedFault(es, i)
    else FirstFault(es, i + 1)
  }

  /** What is wrong with an entry list, in the order it is checked. */
  function Fault(es: seq<AclEntry>): Option<AclError> {
    if Count(es, UserObj) == 0 then Some(MissingRequired(Owner))
    else if Count(es, GroupObj) == 0 then Some(MissingRequired(OwningGroup))
    else if Count(es, Other) == 0 then Some(MissingRequired(OtherTag))
    else if Count(es, UserObj) > 1 then Some(Duplicate(Owner))
    else if Count(es, GroupObj) > 1 then Some(Duplicate(OwningGroup))
    else if Count(es, Other) > 1 then Some(Duplicate(OtherTag))
    else if Count(es, Mask) > 1 then Some(Duplicate(MaskTag))
    else if FirstFault(es, 0).Some? then FirstFault(es, 0)
    else if AnyNamed(es) && Count(es, Mask) == 0 then Some(MaskRequired)
    else None
  }

  predicate GoodPerm(perm: u16) { perm < 8 }

  /** `Acl::new` as a function: permissions, then order, then validity. */
  function NewSpec(es: seq<AclEntry>): Result<Acl, AclError> {
    var bad := FirstBadPerm(es);
    if bad.Some? then Err(InvalidPerm(bad.value))
    else
      var sorted := Sort(EntryBefore, es);
      var fault := Fault(sorted);
      if fault.Some? then Err(fault.value) else Ok(Acl(sorted))
  }

  function FirstBadPerm(es: seq<AclEntry>): (perm: Option<u16>)
    ensures perm.None? <==> forall e :: e in es ==> GoodPerm(e.perm)
  {
    if es == [] then None
    else if !GoodPerm(es[0].perm) then Some(es[0].perm)
    else
      assert es == [es[0]] + es[1..];
      FirstBadPerm(es[1..])
  }

  /** Each qualifier at most once. */
  ghost predicate Unrepeated(es: seq<AclEntry>) {
    forall i, j :: 0 <= i < j < |es| ==> es[i].who != es[j].who
  }

  predicate SoundEntry(e: AclEntry) {
    GoodPerm(e.perm) && (e.who.Named() ==> e.who.id != ACL_UNDEFINED_ID)
  }

  /** What makes entries an ACL's, in any order: sound permissions and ids, each qualifier at most
      once, the three required ones, and a mask beside anyone named. */
  ghost predicate IsAcl(es: seq<AclEntry>) {
    && (forall e :: e in es ==> SoundEntry(e))
    && Unrepeated(es)
    && Has(es, UserObj) && Has(es, GroupObj) && Has(es, Other)
    && (forall e :: e in es && e.who.Named() ==> Has(es, Mask))
  }

  // ----- the checks decide it -----

  ghost predicate Repeats(es: seq<AclEntry>, who: AclQualifier) {
    exists i, j :: 0 <= i < j < |es| && es[i].who == es[j].who == who
  }

  lemma RepeatsSnoc(es: seq<AclEntry>, e: AclEntry, who: AclQualifier)
    ensures Repeats(es + [e], who) <==> Repeats(es, who) || (e.who == who && Has(es, who))
  {
    var all := es + [e];
    if Repeats(es, who) {
      var i, j :| 0 <= i < j < |es| && es[i].who == es[j].who == who;
      assert all[i].who == all[j].who == who;
    }
    if e.who == who && Has(es, who) {
      var i :| 0 <= i < |es| && es[i].who == who;
      assert all[i].who == all[|es|].who == who;
    }
    if Repeats(all, who) {
      var i, j :| 0 <= i < j < |all| && all[i].who == all[j].who == who;
      if j < |es| { assert es[i].who == es[j].who == who; } else { assert es[i] in es; }
    }
  }

  lemma {:induction false} CountIs(es: seq<AclEntry>, who: AclQualifier)
    ensures Count(es, who) > 0 <==> Has(es, who)
    ensures Count(es, who) > 1 <==> Repeats(es, who)
  {
    if es != [] {
      var init, last := es[..|es| - 1], es[|es| - 1];
      assert es == init + [last];
      CountIs(init, who);
      RepeatsSnoc(init, last, who);
    }
  }

  lemma {:induction false} NoFirstFault(es: seq<AclEntry>, i: nat)
    requires i <= |es|
    ensures FirstFault(es, i).None? <==> forall j :: i <= j < |es| ==> NamedFault(es, j).None?
    decreases |es| - i
  {
    if i < |es| { NoFirstFault(es, i + 1); }
  }

  /** A named entry is faultless where its id is real and no earlier entry has it. */
  ghost predicate NamedOk(es: seq<AclEntry>, j: nat)
    requires j < |es|
  {
    es[j].who.Named() ==> es[j].who.id != ACL_UNDEFINED_ID && !Has(es[..j], es[j].who)
  }

  /** Nothing repeats exactly when no tag does and no named entry repeats an earlier one. */
  lemma UnrepeatedIs(es: seq<AclEntry>)
    ensures Unrepeated(es) <==>
      && !Repeats(es, UserObj) && !Repeats(es, GroupObj) && !Repeats(es, Other) && !Repeats(es, Mask)
      && forall j :: 0 <= j < |es| && es[j].who.Named() ==> !Has(es[..j], es[j].who)
  {
    if j :| 0 <= j < |es| && es[j].who.Named() && Has(es[..j], es[j].who) {
      var i :| 0 <= i < j && es[..j][i].who == es[j].who;
      assert es[i].who == es[j].who;
    }
    if i, j :| 0 <= i < j < |es| && es[i].who == es[j].who {
      assert es[..j][i] in es[..j];
      assert Repeats(es, es[j].who);
    }
  }

  lemma NamedOkIs(es: seq<AclEntry>)
    requires forall e :: e in es ==> GoodPerm(e.perm)
    ensures FirstFault(es, 0).None? <==> forall j :: 0 <= j < |es| ==> NamedOk(es, j)
  {
    NoFirstFault(es, 0);
    assert forall j :: 0 <= j < |es| ==> (NamedFault(es, j).None? <==> NamedOk(es, j));
  }

  /** No tag is missing or doubled. */
  ghost predicate TagsOk(es: seq<AclEntry>) {
    && Has(es, UserObj) && Has(es, GroupObj) && Has(es, Other)
    && !Repeats(es, UserObj) && !Repeats(es, GroupObj) && !Repeats(es, Other) && !Repeats(es, Mask)
  }

  lemma FaultParts(es: seq<AclEntry>)
    ensures Fault(es).None? <==>
      TagsOk(es) && FirstFault(es, 0).None? && (AnyNamed(es) ==> Has(es, Mask))
  {
    CountIs(es, UserObj); CountIs(es, GroupObj); CountIs(es, Other); CountIs(es, Mask);
  }

  lemma SoundParts(es: seq<AclEntry>)
    requires forall e :: e in es ==> GoodPerm(e.perm)
    ensures (forall j :: 0 <= j < |es| ==> NamedOk(es, j)) <==>
      (forall e :: e in es ==> SoundEntry(e)) &&
      forall j :: 0 <= j < |es| && es[j].who.Named() ==> !Has(es[..j], es[j].who)
  {
    if forall j :: 0 <= j < |es| ==> NamedOk(es, j) {
      forall e | e in es ensures SoundEntry(e) {
        var j :| 0 <= j < |es| && es[j] == e;
        assert NamedOk(es, j);
      }
      forall j | 0 <= j < |es| && es[j].who.Named() ensures !Has(es[..j], es[j].who) { assert NamedOk(es, j); }
    } else {
      var j :| 0 <= j < |es| && !NamedOk(es, j);
      assert es[j] in es;
    }
  }

  /** An entry list has no fault exactly when it is an ACL's. */
  lemma FaultIs(es: seq<AclEntry>)
    requires forall e :: e in es ==> GoodPerm(e.perm)
    ensures Fault(es).None? <==> IsAcl(es)
  {
    FaultParts(es);
    NamedOkIs(es);
    SoundParts(es);
    UnrepeatedIs(es);
  }

  // ----- the order of the entries does not matter -----

  ghost predicate Twice(es: seq<AclEntry>, e: AclEntry) {
    exists i, j :: 0 <= i < j < |es| && es[i] == es[j] == e
  }

  lemma TwiceSnoc(es: seq<AclEntry>, e: AclEntry, x: AclEntry)
    ensures Twice(es + [e], x) <==> Twice(es, x) || (e == x && x in es)
  {
    var all := es + [e];
    if Twice(es, x) {
      var i, j :| 0 <= i < j < |es| && es[i] == es[j] == x;
      assert all[i] == all[j] == x;
    }
    if e == x && x in es {
      var i :| 0 <= i < |es| && es[i] == x;
      assert all[i] == all[|es|] == x;
    }
    if Twice(all, x) {
      var i, j :| 0 <= i < j < |all| && all[i] == all[j] == x;
      if j < |es| { assert es[i] == es[j] == x; } else { assert es[i] == x; }
    }
  }

  lemma {:induction false} TwiceIs(es: seq<AclEntry>, e: AclEntry)
    ensures multiset(es)[e] > 1 <==> Twice(es, e)
  {
    if es != [] {
      var init, last := es[..|es| - 1], es[|es| - 1];
      assert es == init + [last];
      TwiceIs(init, e);
      TwiceSnoc(init, last, e);
      assert multiset(es) == multiset(init) + multiset{last};
      assert e in init <==> multiset(init)[e] > 0;
    }
  }

  lemma UnrepeatedPermutes(a: seq<AclEntry>, b: seq<AclEntry>)
    requires multiset(a) == multiset(b) && Unrepeated(a)
    ensures Unrepeated(b)
  {
    forall i, j | 0 <= i < j < |b| ensures b[i].who != b[j].who {
      assert b[i] in multiset(a) && b[j] in multiset(a);
      if b[i] == b[j] {
        assert Twice(b, b[i]);
        TwiceIs(a, b[i]);
        TwiceIs(b, b[i]);
      }
    }
  }

  lemma IsAclPermutes(a: seq<AclEntry>, b: seq<AclEntry>)
    requires multiset(a) == multiset(b) && IsAcl(a)
    ensures IsAcl(b)
  {
    UnrepeatedPermutes(a, b);
    assert forall e :: e in a <==> e in multiset(a);
    assert forall e :: e in b <==> e in multiset(a);
  }

  /** An ACL value: an ACL's entries in strictly increasing order. */
  ghost predicate ValidAcl(a: Acl) {
    Strict(EntryBefore, a.entries) && IsAcl(a.entries)
  }

  /** Sorting entries makes them canonical exactly when they are an ACL's. */
  lemma SortIs(es: seq<AclEntry>)
    ensures var sorted := Sort(EntryBefore, es);
            multiset(sorted) == multiset(es) && (IsAcl(sorted) <==> IsAcl(es)) &&
            (IsAcl(sorted) ==> Strict(EntryBefore, sorted))
  {
    var sorted := Sort(EntryBefore, es);
    EntryOrder();
    SortSorts(EntryBefore, es);
    if IsAcl(es) { IsAclPermutes(es, sorted); }
    if IsAcl(sorted) {
      IsAclPermutes(sorted, es);
      SortedUnrepeated(sorted);
    }
  }

  lemma NewByParts(es: seq<AclEntry>)
    ensures NewSpec(es).Ok? <==> FirstBadPerm(es).None? && Fault(Sort(EntryBefore, es)).None?
    ensures NewSpec(es).Ok? ==> NewSpec(es).value.entries == Sort(EntryBefore, es)
  {
  }

  /** `Acl::new` succeeds exactly on an ACL's entries, and returns them in canonical order. */
  lemma NewIs(es: seq<AclEntry>)
    ensures NewSpec(es).Ok? <==> IsAcl(es)
    ensures NewSpec(es).Ok? ==>
      ValidAcl(NewSpec(es).value) && multiset(NewSpec(es).value.entries) == multiset(es)
  {
    var sorted := Sort(EntryBefore, es);
    NewByParts(es);
    SortIs(es);
    if FirstBadPerm(es).None? {
      forall e | e in sorted ensures GoodPerm(e.perm) { assert e in multiset(es); }
      FaultIs(sorted);
    } else {
      assert !IsAcl(es);
    }
  }

  lemma SortedUnrepeated(es: seq<AclEntry>)
    requires Sorted(EntryBefore, es) && Unrepeated(es)
    ensures Strict(EntryBefore, es)
  {
    forall i, j | 0 <= i < j < |es| ensures EntryBefore(es[i], es[j]) {
      BeforeTotal(es[i].who, es[j].who);
    }
  }

  /** The order entries are given in does not matter: neither to success nor to the value. */
  lemma NewIgnoresOrder(a: seq<AclEntry>, b: seq<AclEntry>)
    requires multiset(a) == multiset(b)
    ensures NewSpec(a).Ok? <==> NewSpec(b).Ok?
    ensures NewSpec(a).Ok? ==> NewSpec(a) == NewSpec(b)
  {
    NewIs(a);
    NewIs(b);
    if NewSpec(a).Ok? { IsAclPermutes(a, b); }
    if NewSpec(b).Ok? { IsAclPermutes(b, a); }
    if NewSpec(a).Ok? {
      EntryOrder();
      StrictUnique(EntryBefore, NewSpec(a).value.entries, NewSpec(b).value.entries);
    }
  }

  /** A valid ACL is what its own entries build. */
  lemma NewFixed(a: Acl)
    requires ValidAcl(a)
    ensures NewSpec(a.entries) == Ok(a)
  {
    NewIs(a.entries);
    EntryOrder();
    StrictUnique(EntryBefore, NewSpec(a.entries).value.entries, a.entries);
  }

  // ----- the version-2 attribute form -----

  function EncodeEntry(e: AclEntry): (b: seq<u8>)
    ensures |b| == XATTR_ENTRY_LEN
  {
    var (tag, id) := e.who.TagAndId();
    LittleEndian16(tag) + LittleEndian16(e.perm) + LittleEndian(if id.Some? then id.value else ACL_UNDEFINED_ID)
  }

  function DecodeEntry(b: seq<u8>): Option<AclEntry> {
    if |b| != XATTR_ENTRY_LEN then None
    else
      var who := AclQualifier.FromTag(Word16(b[..2]), Word(b[4..8]));
      if who.None? then None else Some(AclEntry(who.value, Word16(b[2..4])))
  }

  function EncodeEntries(es: seq<AclEntry>): seq<u8> {
    EncodeAll(EncodeEntry, es)
  }

  /** The entries of a body, or `None` at a tag no encoding defines. */
  function DecodeEntries(b: seq<u8>): (es: Option<seq<AclEntry>>)
    requires |b| % XATTR_ENTRY_LEN == 0
    ensures es.Some? ==> XATTR_ENTRY_LEN * |es.value| == |b|
  {
    DecodeAll(DecodeEntry, XATTR_ENTRY_LEN, b)
  }

  function EncodeSpec(a: Acl): seq<u8> {
    LittleEndian(XATTR_ACL_VERSION) + EncodeEntries(a.entries)
  }

  function DecodeSpec(b: seq<u8>): Result<Acl, AclError> {
    if |b| < 4 then Err(Malformed("shorter than the version header"))
    else if Word(b[..4]) != XATTR_ACL_VERSION then Err(Malformed("unexpected version"))
    else DecodeBody(b[4..])
  }

  function DecodeBody(body: seq<u8>): Result<Acl, AclError> {
    if |body| % XATTR_ENTRY_LEN != 0 then Err(Malformed("truncated entry"))
    else
      var es := DecodeEntries(body);
      if es.None? then Err(Malformed("unknown tag")) else NewSpec(es.value)
  }

  lemma DecodeEncodeEntry(e: AclEntry)
    ensures DecodeEntry(EncodeEntry(e)) == Some(e)
  {
    var (tag, id) := e.who.TagAndId();
    var b := EncodeEntry(e);
    assert b[..2] == LittleEndian16(tag);
    assert b[2..4] == LittleEndian16(e.perm);
    assert b[4..8] == LittleEndian(if id.Some? then id.value else ACL_UNDEFINED_ID);
  }

  lemma DecodeEncodeEntries(es: seq<AclEntry>)
    ensures |EncodeEntries(es)| == XATTR_ENTRY_LEN * |es|
    ensures DecodeEntries(EncodeEntries(es)) == Some(es)
  {
    forall e: AclEntry
      ensures |EncodeEntry(e)| == XATTR_ENTRY_LEN && DecodeEntry(EncodeEntry(e)) == Some(e)
    {
      DecodeEncodeEntry(e);
    }
    DecodeEncodeAll(EncodeEntry, DecodeEntry, XATTR_ENTRY_LEN, es);
  }

  lemma DecodeAfterHeader(header: seq<u8>, body: seq<u8>)
    requires |header| == 4 && Word(header) == XATTR_ACL_VERSION
    ensures DecodeSpec(header + body) == DecodeBody(body)
  {
    assert (header + body)[..4] == header && (header + body)[4..] == body;
  }

  lemma DecodeEncodeBody(es: seq<AclEntry>)
    ensures DecodeBody(EncodeEntries(es)) == NewSpec(es)
  {
    DecodeEncodeEntries(es);
    DecodeBodyIs(EncodeEntries(es), es);
  }

  lemma DecodeBodyIs(body: seq<u8>, es: seq<AclEntry>)
    requires |body| % XATTR_ENTRY_LEN == 0 && DecodeEntries(body) == Some(es)
    ensures DecodeBody(body) == NewSpec(es)
  {
  }

  /** What is encoded decodes, and to the same ACL. */
  lemma DecodeEncode(a: Acl)
    requires ValidAcl(a)
    ensures DecodeSpec(EncodeSpec(a)) == Ok(a)
  {
    DecodeAfterHeader(LittleEndian(XATTR_ACL_VERSION), EncodeEntries(a.entries));
    DecodeEncodeBody(a.entries);
    NewFixed(a);
  }

  /** What decodes re-encodes to bytes of the same length that decode alike, whatever order and
      placeholder ids it came with. */
  lemma EncodeDecode(b: seq<u8>)
    requires DecodeSpec(b).Ok?
    ensures var a := DecodeSpec(b).value;
            ValidAcl(a) && |EncodeSpec(a)| == |b| && DecodeSpec(EncodeSpec(a)) == Ok(a)
  {
    var es := DecodeEntries(b[4..]).value;
    var a := DecodeSpec(b).value;
    NewIs(es);
    assert |a.entries| == |multiset(a.entries)| == |es|;
    DecodeEncodeEntries(a.entries);
    DecodeEncode(a);
  }

  // ----- the loops -----

  lemma {:induction false} FirstBadPermAt(es: seq<AclEntry>, i: nat)
    requires i < |es| && !GoodPerm(es[i].perm) && forall j :: 0 <= j < i ==> GoodPerm(es[j].perm)
    ensures FirstBadPerm(es) == Some(es[i].perm)
  {
    if i > 0 { FirstBadPermAt(es[1..], i - 1); }
  }

  /** The ids a pass over the entries has seen under one kind of qualifier. */
  ghost predicate Seen(es: seq<AclEntry>, users: seq<u32>, groups: seq<u32>) {
    && (forall id: u32 :: id in users <==> Has(es, User(id)))
    && (forall id: u32 :: id in groups <==> Has(es, Group(id)))
  }

  lemma HasSnoc(es: seq<AclEntry>, e: AclEntry, who: AclQualifier)
    ensures Has(es + [e], who) <==> Has(es, who) || e.who == who
  {
    if Has(es, who) {
      var x :| x in es && x.who == who;
      assert x in es + [e];
    }
    assert e in es + [e];
  }

  lemma AnyNamedSnoc(es: seq<AclEntry>, e: AclEntry)
    ensures AnyNamed(es + [e]) <==> AnyNamed(es) || e.who.Named()
  {
    if AnyNamed(es) {
      var x :| x in es && x.who.Named();
      assert x in es + [e];
    }
    assert e in es + [e];
  }

  lemma SeenSnoc(es: seq<AclEntry>, e: AclEntry, users: seq<u32>, groups: seq<u32>)
    requires Seen(es, users, groups)
    ensures Seen(es + [e], if e.who.User? then users + [e.who.id] else users,
                 if e.who.Group? then groups + [e.who.id] else groups)
  {
    forall id: u32 ensures Has(es + [e], User(id)) <==> Has(es, User(id)) || e.who == User(id) {
      HasSnoc(es, e, User(id));
    }
    forall id: u32 ensures Has(es + [e], Group(id)) <==> Has(es, Group(id)) || e.who == Group(id) {
      HasSnoc(es, e, Group(id));
    }
  }

  /** The required-entry and mask rules. */
  method Validate(es: seq<AclEntry>) returns (fault: Option<AclError>)
    ensures fault == Fault(es)
  {
    var mask := Count(es, Mask);
    if Count(es, UserObj) == 0 { return Some(MissingRequired(Owner)); }
    if Count(es, GroupObj) == 0 { return Some(MissingRequired(OwningGroup)); }
    if Count(es, Other) == 0 { return Some(MissingRequired(OtherTag)); }
    if Count(es, UserObj) > 1 { return Some(Duplicate(Owner)); }
    if Count(es, GroupObj) > 1 { return Some(Duplicate(OwningGroup)); }
    if Count(es, Other) > 1 { return Some(Duplicate(OtherTag)); }
    if mask > 1 { return Some(Duplicate(MaskTag)); }
    var named, fault' := ValidateNamed(es);
    if fault'.Some? { return fault'; }
    if named && mask == 0 { return Some(MaskRequired); }
    return None;
  }

  /** What a pass that has seen the earlier ids makes of the entry at `i`. */
  lemma NamedFaultSeen(es: seq<AclEntry>, i: nat, users: seq<u32>, groups: seq<u32>)
    requires i < |es| && Seen(es[..i], users, groups)
    ensures NamedFault(es, i) == match es[i].who {
      case User(id) =>
        if id == ACL_UNDEFINED_ID then Some(UndefinedId(NamedUser))
        else if id in users then Some(Duplicate(NamedUser)) else None
      case Group(id) =>
        if id == ACL_UNDEFINED_ID then Some(UndefinedId(NamedGroup))
        else if id in groups then Some(Duplicate(NamedGroup)) else None
      case _ => None
    }
  {
  }

  /** The pass over the named entries: whether there are any, and the first fault among them. */
  method ValidateNamed(es: seq<AclEntry>) returns (named: bool, fault: Option<AclError>)
    ensures fault == FirstFault(es, 0)
    ensures fault.None? ==> (named <==> AnyNamed(es))
  {
    named := false;
    var users, groups := [], [];
    var i := 0;
    while i < |es|
      invariant 0 <= i <= |es|
      invariant named <==> AnyNamed(es[..i])
      invariant Seen(es[..i], users, groups)
      invariant FirstFault(es, 0) == FirstFault(es, i)
    {
      NamedFaultSeen(es, i, users, groups);
      assert es[..i + 1] == es[..i] + [es[i]];
      SeenSnoc(es[..i], es[i], users, groups);
      AnyNamedSnoc(es[..i], es[i]);
      match es[i].who {
        case User(id) =>
          named := true;
          if id == ACL_UNDEFINED_ID { return named, Some(UndefinedId(NamedUser)); }
          if id in users { return named, Some(Duplicate(NamedUser)); }
          users := users + [id];
        case Group(id) =>
          named := true;
          if id == ACL_UNDEFINED_ID { return named, Some(UndefinedId(NamedGroup)); }
          if id in groups { return named, Some(Duplicate(NamedGroup)); }
          groups := groups + [id];
        case _ =>
      }
      i := i + 1;
    }
    assert es[..i] == es;
    return named, None;
  }

  method New(es: seq<AclEntry>) returns (r: Result<Acl, AclError>)
    ensures r == NewSpec(es)
  {
    var i := 0;
    while i < |es|
      invariant 0 <= i <= |es|
      invariant forall j :: 0 <= j < i ==> GoodPerm(es[j].perm)
    {
      if es[i].perm / 8 != 0 {
        FirstBadPermAt(es, i);
        return Err(InvalidPerm(es[i].perm));
      }
      i := i + 1;
    }
    var sorted := Sort(EntryBefore, es);
    var fault := Validate(sorted);
    if fault.Some? { return Err(fault.value); }
    return Ok(Acl(sorted));
  }

  method Encode(a: Acl) returns (out: seq<u8>)
    ensures out == EncodeSpec(a)
  {
    out := LittleEndian(XATTR_ACL_VERSION);
    var i := 0;
    while i < |a.entries|
      invariant 0 <= i <= |a.entries|
      invariant out == EncodeSpec(Acl(a.entries[..i]))
    {
      assert a.entries[..i + 1][..i] == a.entries[..i];
      out := out + EncodeEntry(a.entries[i]);
      i := i + 1;
    }
    assert a.entries[..i] == a.entries;
  }

  method Decode(b: seq<u8>) returns (r: Result<Acl, AclError>)
    ensures r == DecodeSpec(b)
  {
    if |b| < 4 { return Err(Malformed("shorter than the version header")); }
    if Word(b[..4]) != XATTR_ACL_VERSION { return Err(Malformed("unexpected version")); }
    var body := b[4..];
    if |body| % XATTR_ENTRY_LEN != 0 { return Err(Malformed("truncated entry")); }
    var es := ReadAll(DecodeEntry, XATTR_ENTRY_LEN, body);
    if es.None? { return Err(Malformed("unknown tag")); }
    DecodeBodyIs(body, es.value);
    r := New(es.value);
  }
}
