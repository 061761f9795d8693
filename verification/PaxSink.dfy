/** The PAX records an archive is written with, and what reading the archive gives back. */
module PaxSink {
  import opened Wrappers
  import opened Words
  import opened Acls
  import opened PaxTime
  import opened Percent
  import opened PaxRecords
  import opened PaxLaws
  import opened PaxFrame
  import Tiling
  import Text

  datatype Meta = Meta(uid: u32, gid: u32, atime: Timestamp, ctime: Timestamp, mtime: Timestamp) {
    predicate Stored() {
      atime.Stored() && ctime.Stored() && mtime.Stored()
    }
  }

  /** An archive member: its name and link target as the archive spells them, and its attributes. */
  datatype Member = Member(name: Bytes, meta: Meta, target: Option<Bytes>, xattrs: seq<Xattr>)

  // ----- what is written -----

  /** A keyword is text with no delimiter, terminator or NUL in it. */
  predicate Spellable(text: string) {
    text != [] && '=' !in text && '\n' !in text && '\0' !in text
  }

  /** The keyword of an attribute, or its name where it has none. */
  function XattrKey(name: Bytes, utf8: Bytes -> Option<string>): Result<Bytes, Bytes> {
    if utf8(name).Some? && Spellable(utf8(name).value) then Ok(SCHILY + name) else Err(name)
  }

  function FieldRecords(name: Bytes, atime: Bytes, ctime: Bytes, mtime: Bytes, uid: Bytes, gid: Bytes): seq<PaxRecord> {
    [PaxRecord(Ascii("path"), name),
     PaxRecord(Ascii("atime"), atime), PaxRecord(Ascii("ctime"), ctime), PaxRecord(Ascii("mtime"), mtime),
     PaxRecord(Ascii("uid"), uid), PaxRecord(Ascii("gid"), gid)]
  }

  function TimeText(t: Timestamp): Bytes {
    Ascii(PrintTime(t))
  }

  function IdText(id: u32): Bytes {
    Ascii(Text.OfNat(id))
  }

  function FixedRecords(name: Bytes, meta: Meta): seq<PaxRecord> {
    FieldRecords(name, TimeText(meta.atime), TimeText(meta.ctime), TimeText(meta.mtime), IdText(meta.uid),
                 IdText(meta.gid))
  }

  function LinkRecords(target: Option<Bytes>): seq<PaxRecord> {
    if target.Some? then [PaxRecord(Ascii("linkpath"), target.value)] else []
  }

  function XattrRecord(x: Xattr): PaxRecord {
    PaxRecord(SCHILY + x.name, x.value)
  }

  function XattrRecords(xs: seq<Xattr>): (records: seq<PaxRecord>)
    ensures |records| == |xs|
  {
    seq(|xs|, i requires 0 <= i < |xs| => XattrRecord(xs[i]))
  }

  /** The first name no keyword spells. */
  function FirstUnspelt(xs: seq<Xattr>, utf8: Bytes -> Option<string>): Option<Bytes> {
    if xs == [] then None
    else if XattrKey(xs[0].name, utf8).Err? then Some(xs[0].name)
    else FirstUnspelt(xs[1..], utf8)
  }

  function AllRecords(m: Member): seq<PaxRecord> {
    FixedRecords(m.name, m.meta) + LinkRecords(m.target) + XattrRecords(m.xattrs)
  }

  function RecordsSpec(m: Member, utf8: Bytes -> Option<string>): Result<seq<PaxRecord>, Bytes> {
    var bad := FirstUnspelt(m.xattrs, utf8);
    if bad.Some? then Err(bad.value) else Ok(AllRecords(m))
  }

  lemma UnspeltStep(xs: seq<Xattr>, utf8: Bytes -> Option<string>, i: nat)
    requires i < |xs|
    ensures FirstUnspelt(xs[i..], utf8) ==
      if XattrKey(xs[i].name, utf8).Err? then Some(xs[i].name) else FirstUnspelt(xs[i + 1..], utf8)
    ensures XattrRecords(xs)[..i + 1] == XattrRecords(xs)[..i] + [XattrRecord(xs[i])]
  {
    assert xs[i..][0] == xs[i] && xs[i..][1..] == xs[i + 1..];
  }

  /** Each attribute's record after the ones there are, or the first name no keyword spells. */
  method PushXattrs(head: seq<PaxRecord>, xs: seq<Xattr>, utf8: Bytes -> Option<string>)
    returns (r: Result<seq<PaxRecord>, Bytes>)
    ensures var bad := FirstUnspelt(xs, utf8);
            r == if bad.Some? then Err(bad.value) else Ok(head + XattrRecords(xs))
  {
    ghost var written := XattrRecords(xs);
    var records := head;
    var i := 0;
    assert xs[0..] == xs && head + written[..0] == head;
    while i < |xs|
      invariant 0 <= i <= |xs|
      invariant records == head + written[..i]
      invariant FirstUnspelt(xs, utf8) == FirstUnspelt(xs[i..], utf8)
    {
      UnspeltStep(xs, utf8, i);
      var key := XattrKey(xs[i].name, utf8);
      if key.Err? { return Err(xs[i].name); }
      records := records + [PaxRecord(key.value, xs[i].value)];
      i := i + 1;
    }
    assert written[..i] == written && xs[i..] == [];
    return Ok(records);
  }

  method WriteRecords(m: Member, utf8: Bytes -> Option<string>) returns (r: Result<seq<PaxRecord>, Bytes>)
    ensures r == RecordsSpec(m, utf8)
  {
    var records := FixedRecords(m.name, m.meta);
    if m.target.Some? { records := records + [PaxRecord(Ascii("linkpath"), m.target.value)]; }
    assert records == FixedRecords(m.name, m.meta) + LinkRecords(m.target);
    r := PushXattrs(records, m.xattrs, utf8);
  }

  // ----- what is known of the decoder -----

  predicate IsAscii(s: string) {
    forall i :: 0 <= i < |s| ==> s[i] as int < 0x80
  }

  /** The bytes and their text hold the same ASCII characters. */
  ghost predicate SameAscii(b: Bytes, text: string) {
    forall c: char :: c as int < 0x80 ==> (c in text <==> c as int in b)
  }

  /** A decoder that leaves ASCII as it is. */
  ghost predicate KeepsAscii(utf8: Bytes -> Option<string>) {
    && (forall s :: IsAscii(s) ==> utf8(Ascii(s)) == Some(s))
    && (forall b :: utf8(b).Some? ==> SameAscii(b, utf8(b).value) && (utf8(b).value == [] ==> b == []))
  }

  /** Writing refuses an attribute exactly when its name is empty, is not text, or holds a byte that
      would end a keyword early. */
  lemma {:induction false} RefusedNames(xs: seq<Xattr>, utf8: Bytes -> Option<string>)
    requires KeepsAscii(utf8)
    ensures FirstUnspelt(xs, utf8).Some? <==> exists x <- xs ::
      x.name == [] || utf8(x.name).None? || EQUALS in x.name || NEWLINE in x.name || 0 in x.name
  {
    if xs != [] {
      RefusedNames(xs[1..], utf8);
      assert xs == [xs[0]] + xs[1..];
      NameRefused(xs[0].name, utf8);
    }
  }

  lemma NameRefused(name: Bytes, utf8: Bytes -> Option<string>)
    requires KeepsAscii(utf8)
    ensures XattrKey(name, utf8).Err? <==>
      name == [] || utf8(name).None? || EQUALS in name || NEWLINE in name || 0 in name
  {
    if name == [] {
      assert Ascii("") == name && IsAscii("");
    } else if utf8(name).Some? {
      var text := utf8(name).value;
      assert '=' in text <==> EQUALS in name;
      assert '\n' in text <==> NEWLINE in name;
      assert '\0' in text <==> 0 in name;
    }
  }

  // ----- each record read back -----

  lemma NumberIsAscii(n: nat)
    ensures IsAscii(Text.OfNat(n))
  {
    var s := Text.OfNat(n);
    forall i | 0 <= i < |s| ensures s[i] as int < 0x80 { assert Text.IsDigit(s[i]); }
  }

  lemma IntIsAscii(n: int)
    ensures IsAscii(Text.OfInt(n))
  {
    NumberIsAscii(if n < 0 then -n else n);
  }

  lemma DecimalIsAscii(whole: string, nanos: nat)
    requires IsAscii(whole) && nanos < Text.Pow10(9)
    ensures IsAscii(whole + "." + Text.Padded(nanos, 9))
  {
    var padded := Text.Padded(nanos, 9);
    forall i | 0 <= i < |padded| ensures padded[i] as int < 0x80 { assert Text.IsDigit(padded[i]); }
  }

  lemma TimeIsAscii(t: Timestamp)
    ensures IsAscii(PrintTime(t))
  {
    var n := Normalize(t);
    Powers();
    IntIsAscii(n.secs);
    IntIsAscii(n.secs + 1);
    if n.nanos == 0 {
    } else if n.secs < 0 {
      DecimalIsAscii(if n.secs == -1 then "-0" else Text.OfInt(n.secs + 1), NANOS_PER_SEC - n.nanos);
    } else {
      DecimalIsAscii(Text.OfInt(n.secs), n.nanos);
    }
  }

  /** The keys of the fixed records, told apart by length and first letter. */
  lemma Keys()
    ensures Ascii("atime")[0] == 'a' as int && Ascii("ctime")[0] == 'c' as int && Ascii("mtime")[0] == 'm' as int
    ensures Ascii("uid")[0] == 'u' as int && Ascii("gid")[0] == 'g' as int
  {
  }

  lemma TimeRead(t: Timestamp, utf8: Bytes -> Option<string>)
    requires KeepsAscii(utf8) && t.Stored()
    ensures ReadTime(TimeText(t), utf8) == Ok(Normalize(t))
  {
    TimeIsAscii(t);
    ParsePrint(t);
  }

  lemma IdRead(id: u32, utf8: Bytes -> Option<string>)
    requires KeepsAscii(utf8)
    ensures ReadId(IdText(id), utf8) == Ok(id)
  {
    NumberIsAscii(id);
    Text.ParseOfNat(id, 0xffff_ffff_ffff_ffff);
  }

  function FieldActions(atime: Timestamp, ctime: Timestamp, mtime: Timestamp, uid: u64, gid: u64): seq<Action> {
    [Ignored, SetAtime(atime), SetCtime(ctime), SetMtime(mtime), SetUid(uid), SetGid(gid)]
  }

  function FixedActions(meta: Meta): seq<Action> {
    FieldActions(Normalize(meta.atime), Normalize(meta.ctime), Normalize(meta.mtime), meta.uid, meta.gid)
  }

  /** `interpret` reads records as `Interpret` does with this decoder. */
  ghost predicate ReadsBy(interpret: PaxRecord -> Result<Action, PaxError>, utf8: Bytes -> Option<string>) {
    forall r {:trigger Interpret(r, utf8)} :: interpret(r) == Interpret(r, utf8)
  }

  lemma AtimeRead(value: Bytes, x: Timestamp, interpret: PaxRecord -> Result<Action, PaxError>,
                  utf8: Bytes -> Option<string>)
    requires ReadsBy(interpret, utf8) && ReadTime(value, utf8) == Ok(x)
    ensures interpret(PaxRecord(Ascii("atime"), value)) == Ok(SetAtime(x))
  {
    Keys();
    assert Interpret(PaxRecord(Ascii("atime"), value), utf8) == Ok(SetAtime(x));
  }

  lemma CtimeRead(value: Bytes, x: Timestamp, interpret: PaxRecord -> Result<Action, PaxError>,
                  utf8: Bytes -> Option<string>)
    requires ReadsBy(interpret, utf8) && ReadTime(value, utf8) == Ok(x)
    ensures interpret(PaxRecord(Ascii("ctime"), value)) == Ok(SetCtime(x))
  {
    Keys();
    assert Interpret(PaxRecord(Ascii("ctime"), value), utf8) == Ok(SetCtime(x));
  }

  lemma MtimeRead(value: Bytes, x: Timestamp, interpret: PaxRecord -> Result<Action, PaxError>,
                  utf8: Bytes -> Option<string>)
    requires ReadsBy(interpret, utf8) && ReadTime(value, utf8) == Ok(x)
    ensures interpret(PaxRecord(Ascii("mtime"), value)) == Ok(SetMtime(x))
  {
    Keys();
    assert Interpret(PaxRecord(Ascii("mtime"), value), utf8) == Ok(SetMtime(x));
  }

  lemma UidRead(value: Bytes, x: u64, interpret: PaxRecord -> Result<Action, PaxError>, utf8: Bytes -> Option<string>)
    requires ReadsBy(interpret, utf8) && ReadId(value, utf8) == Ok(x)
    ensures interpret(PaxRecord(Ascii("uid"), value)) == Ok(SetUid(x))
  {
    Keys();
    assert Interpret(PaxRecord(Ascii("uid"), value), utf8) == Ok(SetUid(x));
  }

  lemma GidRead(value: Bytes, x: u64, interpret: PaxRecord -> Result<Action, PaxError>, utf8: Bytes -> Option<string>)
    requires ReadsBy(interpret, utf8) && ReadId(value, utf8) == Ok(x)
    ensures interpret(PaxRecord(Ascii("gid"), value)) == Ok(SetGid(x))
  {
    Keys();
    assert Interpret(PaxRecord(Ascii("gid"), value), utf8) == Ok(SetGid(x));
  }

  lemma PathRead(name: Bytes, interpret: PaxRecord -> Result<Action, PaxError>, utf8: Bytes -> Option<string>)
    requires ReadsBy(interpret, utf8)
    ensures interpret(PaxRecord(Ascii("path"), name)) == Ok(Ignored)
    ensures interpret(PaxRecord(Ascii("linkpath"), name)) == Ok(Ignored)
  {
    assert Interpret(PaxRecord(Ascii("path"), name), utf8) == Ok(Ignored);
    assert Interpret(PaxRecord(Ascii("linkpath"), name), utf8) == Ok(Ignored);
  }

  lemma FieldsRead(name: Bytes, a: Bytes, c: Bytes, m: Bytes, u: Bytes, g: Bytes,
                   atime: Timestamp, ctime: Timestamp, mtime: Timestamp, uid: u64, gid: u64,
                   interpret: PaxRecord -> Result<Action, PaxError>)
    requires interpret(PaxRecord(Ascii("path"), name)) == Ok(Ignored)
    requires interpret(PaxRecord(Ascii("atime"), a)) == Ok(SetAtime(atime))
    requires interpret(PaxRecord(Ascii("ctime"), c)) == Ok(SetCtime(ctime))
    requires interpret(PaxRecord(Ascii("mtime"), m)) == Ok(SetMtime(mtime))
    requires interpret(PaxRecord(Ascii("uid"), u)) == Ok(SetUid(uid))
    requires interpret(PaxRecord(Ascii("gid"), g)) == Ok(SetGid(gid))
    ensures AllRead(FieldRecords(name, a, c, m, u, g), interpret)
    ensures Actions(FieldRecords(name, a, c, m, u, g), interpret) == FieldActions(atime, ctime, mtime, uid, gid)
  {
  }

  lemma ValuesRead(name: Bytes, a: Bytes, c: Bytes, m: Bytes, u: Bytes, g: Bytes,
                   atime: Timestamp, ctime: Timestamp, mtime: Timestamp, uid: u64, gid: u64,
                   interpret: PaxRecord -> Result<Action, PaxError>, utf8: Bytes -> Option<string>)
    requires ReadsBy(interpret, utf8)
    requires ReadTime(a, utf8) == Ok(atime) && ReadTime(c, utf8) == Ok(ctime) && ReadTime(m, utf8) == Ok(mtime)
    requires ReadId(u, utf8) == Ok(uid) && ReadId(g, utf8) == Ok(gid)
    ensures AllRead(FieldRecords(name, a, c, m, u, g), interpret)
    ensures Actions(FieldRecords(name, a, c, m, u, g), interpret) == FieldActions(atime, ctime, mtime, uid, gid)
  {
    PathRead(name, interpret, utf8);
    AtimeRead(a, atime, interpret, utf8);
    CtimeRead(c, ctime, interpret, utf8);
    MtimeRead(m, mtime, interpret, utf8);
    UidRead(u, uid, interpret, utf8);
    GidRead(g, gid, interpret, utf8);
    FieldsRead(name, a, c, m, u, g, atime, ctime, mtime, uid, gid, interpret);
  }

  lemma FixedRead(name: Bytes, meta: Meta, interpret: PaxRecord -> Result<Action, PaxError>,
                  utf8: Bytes -> Option<string>)
    requires KeepsAscii(utf8) && meta.Stored() && ReadsBy(interpret, utf8)
    ensures AllRead(FixedRecords(name, meta), interpret)
    ensures Actions(FixedRecords(name, meta), interpret) == FixedActions(meta)
  {
    TimeRead(meta.atime, utf8);
    TimeRead(meta.ctime, utf8);
    TimeRead(meta.mtime, utf8);
    IdRead(meta.uid, utf8);
    IdRead(meta.gid, utf8);
    ValuesRead(name, TimeText(meta.atime), TimeText(meta.ctime), TimeText(meta.mtime), IdText(meta.uid),
               IdText(meta.gid),
               Normalize(meta.atime), Normalize(meta.ctime), Normalize(meta.mtime), meta.uid, meta.gid, interpret,
                 utf8);
  }

  lemma XattrRead(x: Xattr, utf8: Bytes -> Option<string>)
    ensures Interpret(XattrRecord(x), utf8) == InterpretXattr(x.name, x.value)
  {
    var key := SCHILY + x.name;
    assert key[0] == 'S' as int && SPARSE[0] == 'G' as int && LIBARCHIVE[0] == 'L' as int;
    assert key[|SCHILY|..] == x.name;
  }

  // ----- all of them gathered -----

  function XattrAction(x: Xattr): Action {
    var a := InterpretXattr(x.name, x.value);
    if a.Err? then Ignored else a.value
  }

  function Mapped(xs: seq<Xattr>, action: Xattr -> Action): (actions: seq<Action>)
    ensures |actions| == |xs|
  {
    seq(|xs|, i requires 0 <= i < |xs| => action(xs[i]))
  }

  function XattrActions(xs: seq<Xattr>): seq<Action> {
    Mapped(xs, XattrAction)
  }

  predicate NamesAcl(x: Xattr) {
    x.name == ACCESS_NAME || x.name == DEFAULT_NAME
  }

  /** Every attribute under an ACL's name is an ACL. */
  ghost predicate AclsDecode(xs: seq<Xattr>) {
    forall x <- xs :: NamesAcl(x) ==> DecodeSpec(x.value).Ok?
  }

  /** The attributes that are not ACLs. */
  function NonAcls(xs: seq<Xattr>): seq<Xattr> {
    if xs == [] then []
    else
      var x := xs[|xs| - 1];
      NonAcls(Init(xs)) + if NamesAcl(x) then [] else [x]
  }

  /** The last value under a name that reads. */
  function LastRead<T, E>(xs: seq<Xattr>, name: Bytes, read: Bytes -> Result<T, E>): Option<T> {
    if xs == [] then None
    else
      var x := xs[|xs| - 1];
      if x.name == name && read(x.value).Ok? then Some(read(x.value).value) else LastRead(Init(xs), name, read)
  }

  function LastAcl(xs: seq<Xattr>, name: Bytes): Option<Acl> {
    LastRead(xs, name, DecodeSpec)
  }

  lemma GatherSnoc(actions: seq<Action>, a: Action)
    ensures Gather(actions + [a]) == Apply(Gather(actions), a)
  {
    assert Init(actions + [a]) == actions;
  }

  lemma GatherSix(a: Action, b: Action, c: Action, d: Action, e: Action, f: Action)
    ensures Gather([a, b, c, d, e, f]) == Apply(Apply(Apply(Apply(Apply(Apply(EMPTY, a), b), c), d), e), f)
  {
    assert [] + [a] == [a] && [a] + [b] == [a, b] && [a, b] + [c] == [a, b, c] && [a, b, c] + [d] == [a, b, c, d];
    assert [a, b, c, d] + [e] == [a, b, c, d, e] && [a, b, c, d, e] + [f] == [a, b, c, d, e, f];
    GatherSnoc([], a);
    GatherSnoc([a], b);
    GatherSnoc([a, b], c);
    GatherSnoc([a, b, c], d);
    GatherSnoc([a, b, c, d], e);
    GatherSnoc([a, b, c, d, e], f);
  }

  lemma FieldsGather(atime: Timestamp, ctime: Timestamp, mtime: Timestamp, uid: u64, gid: u64)
    ensures Gather(FieldActions(atime, ctime, mtime, uid, gid)) ==
      Pax(Some(uid), Some(gid), Some(atime), Some(ctime), Some(mtime), [], None, None, None, None)
  {
    GatherSix(Ignored, SetAtime(atime), SetCtime(ctime), SetMtime(mtime), SetUid(uid), SetGid(gid));
  }

  lemma XattrApplied(pax: Pax, x: Xattr)
    ensures Apply(pax, XattrAction(x)) ==
      if !NamesAcl(x) then pax.(xattrs := Put(pax.xattrs, x))
      else if DecodeSpec(x.value).Err? then pax
      else if x.name == ACCESS_NAME then pax.(access := Some(DecodeSpec(x.value).value))
      else pax.(default_ := Some(DecodeSpec(x.value).value))
  {
  }

  lemma AclNamesDiffer()
    ensures ACCESS_NAME != DEFAULT_NAME
  {
    assert |ACCESS_NAME| == 23 && |DEFAULT_NAME| == 24;
  }

  lemma NonAclsStep(xs: seq<Xattr>)
    requires xs != []
    ensures var before, x := PutAll(NonAcls(Init(xs))), xs[|xs| - 1];
            PutAll(NonAcls(xs)) == if NamesAcl(x) then before else Put(before, x)
  {
    var x := xs[|xs| - 1];
    assert if NamesAcl(x) then NonAcls(xs) == NonAcls(Init(xs)) else Init(NonAcls(xs)) == NonAcls(Init(xs));
  }

  /** What the attributes add to what the other records gave. */
  function WithXattrs(pax: Pax, xs: seq<Xattr>): Pax {
    pax.(xattrs := PutAll(NonAcls(xs)), access := LastAcl(xs, ACCESS_NAME), default_ := LastAcl(xs, DEFAULT_NAME))
  }

  lemma WithXattrsStep(pax: Pax, xs: seq<Xattr>)
    requires xs != []
    ensures WithXattrs(pax, xs) == Apply(WithXattrs(pax, Init(xs)), XattrAction(xs[|xs| - 1]))
  {
    NonAclsStep(xs);
    XattrApplied(WithXattrs(pax, Init(xs)), xs[|xs| - 1]);
    AclNamesDiffer();
  }

  /** A value that keeps up with each action taken is what the actions gather to. */
  lemma {:induction false} GatherMapped(base: seq<Action>, xs: seq<Xattr>, action: Xattr -> Action,
                                        value: seq<Xattr> -> Pax)
    requires value([]) == Gather(base)
    requires forall ys: seq<Xattr> :: ys != [] ==> value(ys) == Apply(value(Init(ys)), action(ys[|ys| - 1]))
    ensures Gather(base + Mapped(xs, action)) == value(xs)
  {
    if xs == [] {
      assert base + Mapped(xs, action) == base;
    } else {
      var before, a := Mapped(Init(xs), action), action(xs[|xs| - 1]);
      GatherMapped(base, Init(xs), action, value);
      assert base + Mapped(xs, action) == base + before + [a];
      GatherSnoc(base + before, a);
    }
  }

  lemma XattrsGather(base: seq<Action>, xs: seq<Xattr>)
    requires var pax := Gather(base); pax.xattrs == [] && pax.access.None? && pax.default_.None?
    ensures Gather(base + XattrActions(xs)) == WithXattrs(Gather(base), xs)
  {
    var pax := Gather(base);
    forall ys: seq<Xattr> | ys != []
      ensures WithXattrs(pax, ys) == Apply(WithXattrs(pax, Init(ys)), XattrAction(ys[|ys| - 1])) {
      WithXattrsStep(pax, ys);
    }
    GatherMapped(base, xs, XattrAction, (ys: seq<Xattr>) => WithXattrs(pax, ys));
  }

  lemma XattrReadsBy(x: Xattr, interpret: PaxRecord -> Result<Action, PaxError>, utf8: Bytes -> Option<string>)
    requires ReadsBy(interpret, utf8)
    ensures var r := interpret(XattrRecord(x));
            (r.Ok? <==> (NamesAcl(x) ==> DecodeSpec(x.value).Ok?)) && XattrAction(x) == if r.Err? then Ignored
              else r.value
  {
    XattrRead(x, utf8);
    assert Interpret(XattrRecord(x), utf8) == InterpretXattr(x.name, x.value);
  }

  lemma XattrsRead(xs: seq<Xattr>, interpret: PaxRecord -> Result<Action, PaxError>, utf8: Bytes -> Option<string>)
    requires ReadsBy(interpret, utf8)
    ensures Actions(XattrRecords(xs), interpret) == XattrActions(xs)
    ensures AllRead(XattrRecords(xs), interpret) <==> AclsDecode(xs)
  {
    var records := XattrRecords(xs);
    forall i | 0 <= i < |xs|
      ensures interpret(records[i]).Ok? <==> (NamesAcl(xs[i]) ==> DecodeSpec(xs[i].value).Ok?)
      ensures Actions(records, interpret)[i] == XattrActions(xs)[i]
    {
      XattrReadsBy(xs[i], interpret, utf8);
    }
    if AllRead(records, interpret) {
      forall x <- xs ensures NamesAcl(x) ==> DecodeSpec(x.value).Ok? {
        var i :| 0 <= i < |xs| && xs[i] == x;
        assert interpret(records[i]).Ok?;
      }
    }
    if AclsDecode(xs) {
      forall i | 0 <= i < |records| ensures interpret(records[i]).Ok? { assert xs[i] in xs; }
    }
  }

  /** What reading a member's records gives back. */
  function Restored(m: Member): Pax {
    Pax(Some(m.meta.uid), Some(m.meta.gid),
        Some(Normalize(m.meta.atime)), Some(Normalize(m.meta.ctime)), Some(Normalize(m.meta.mtime)),
        PutAll(NonAcls(m.xattrs)), LastAcl(m.xattrs, ACCESS_NAME), LastAcl(m.xattrs, DEFAULT_NAME), None, None)
  }

  function LinkActions(target: Option<Bytes>): seq<Action> {
    if target.Some? then [Ignored] else []
  }

  function AllActions(m: Member): seq<Action> {
    FixedActions(m.meta) + LinkActions(m.target) + XattrActions(m.xattrs)
  }

  lemma LinkRead(target: Option<Bytes>, interpret: PaxRecord -> Result<Action, PaxError>, utf8: Bytes -> Option<string>)
    requires ReadsBy(interpret, utf8)
    ensures AllRead(LinkRecords(target), interpret) && Actions(LinkRecords(target), interpret) == LinkActions(target)
  {
    if target.Some? { PathRead(target.value, interpret, utf8); }
  }

  lemma AllGathered(m: Member)
    ensures Gather(AllActions(m)) == Restored(m)
  {
    var meta := m.meta;
    var fixed := FixedActions(meta);
    FieldsGather(Normalize(meta.atime), Normalize(meta.ctime), Normalize(meta.mtime), meta.uid, meta.gid);
    if m.target.Some? { GatherSnoc(fixed, Ignored); } else { assert fixed + [] == fixed; }
    XattrsGather(fixed + LinkActions(m.target), m.xattrs);
  }

  lemma NoneHeld(m: Member, name: Bytes)
    ensures Held(name) !in AllActions(m)
  {
    forall i | 0 <= i < |m.xattrs| ensures XattrActions(m.xattrs)[i] != Held(name) {
      assert XattrActions(m.xattrs)[i] == XattrAction(m.xattrs[i]);
    }
  }

  lemma AllRecordsRead(m: Member, interpret: PaxRecord -> Result<Action, PaxError>, utf8: Bytes -> Option<string>)
    requires KeepsAscii(utf8) && m.meta.Stored() && ReadsBy(interpret, utf8)
    ensures Actions(AllRecords(m), interpret) == AllActions(m)
    ensures AllRead(AllRecords(m), interpret) <==> AclsDecode(m.xattrs)
  {
    var fixed, link, xattrs := FixedRecords(m.name, m.meta), LinkRecords(m.target), XattrRecords(m.xattrs);
    FixedRead(m.name, m.meta, interpret, utf8);
    LinkRead(m.target, interpret, utf8);
    XattrsRead(m.xattrs, interpret, utf8);
    ActionsConcat(fixed, link, interpret);
    ActionsConcat(fixed + link, xattrs, interpret);
  }

  lemma CollectAll(m: Member, interpret: PaxRecord -> Result<Action, PaxError>, utf8: Bytes -> Option<string>)
    requires KeepsAscii(utf8) && m.meta.Stored() && ReadsBy(interpret, utf8)
    ensures var r := CollectSpec(AllRecords(m), interpret);
      && (r.Ok? <==> AclsDecode(m.xattrs))
      && (r.Ok? ==> r.value == Restored(m))
  {
    AllRecordsRead(m, interpret, utf8);
    AllGathered(m);
    CollectSucceeds(AllRecords(m), interpret);
    forall name ensures Held(name) !in AllActions(m) { NoneHeld(m, name); }
  }

  // ----- the archive read back -----

  lemma KeyFree(key: string)
    requires IsAscii(key) && '=' !in key
    ensures EQUALS !in Ascii(key)
  {
    forall i | 0 <= i < |key| ensures Ascii(key)[i] != EQUALS { assert key[i] in key; }
  }

  lemma KeysFree()
    ensures EQUALS !in Ascii("path") && EQUALS !in Ascii("linkpath")
    ensures EQUALS !in Ascii("atime") && EQUALS !in Ascii("ctime") && EQUALS !in Ascii("mtime")
    ensures EQUALS !in Ascii("uid") && EQUALS !in Ascii("gid")
  {
    KeyFree("path");
    KeyFree("linkpath");
    KeyFree("atime");
    KeyFree("ctime");
    KeyFree("mtime");
    KeyFree("uid");
    KeyFree("gid");
  }

  lemma FieldsFrameable(name: Bytes, a: Bytes, c: Bytes, m: Bytes, u: Bytes, g: Bytes, r: PaxRecord)
    requires r in FieldRecords(name, a, c, m, u, g)
    ensures Frameable(r)
  {
    KeysFree();
  }

  lemma FixedFrameable(m: Member, r: PaxRecord)
    requires r in FixedRecords(m.name, m.meta) || r in LinkRecords(m.target)
    ensures Frameable(r)
  {
    KeysFree();
    var meta := m.meta;
    if r in FixedRecords(m.name, meta) {
      FieldsFrameable(m.name, TimeText(meta.atime), TimeText(meta.ctime), TimeText(meta.mtime), IdText(meta.uid),
                      IdText(meta.gid), r);
    }
  }

  lemma XattrsFrameable(xs: seq<Xattr>, utf8: Bytes -> Option<string>)
    requires KeepsAscii(utf8) && FirstUnspelt(xs, utf8).None?
    ensures forall r <- XattrRecords(xs) :: Frameable(r)
  {
    RefusedNames(xs, utf8);
    KeyFree("SCHILY.xattr.");
    forall i | 0 <= i < |xs| ensures Frameable(XattrRecords(xs)[i]) {
      assert xs[i] in xs;
    }
  }

  lemma RecordFrameable(m: Member, r: PaxRecord, utf8: Bytes -> Option<string>)
    requires KeepsAscii(utf8) && RecordsSpec(m, utf8).Ok? && r in AllRecords(m)
    ensures Frameable(r)
  {
    XattrsFrameable(m.xattrs, utf8);
    if r !in XattrRecords(m.xattrs) { FixedFrameable(m, r); }
  }

  /** The body an archive holds for a member. */
  function Body(m: Member, padding: Bytes): Bytes {
    Tiling.Flatten(Frames(AllRecords(m))) + padding
  }

  /** An archive gives a member back: what is written for it parses to the same records, and they
      gather to its ids, its times with their fractions carried, its attributes in order and the ACLs
      among them; unless an attribute under an ACL's name is no ACL, and then reading refuses it. */
  lemma ArchiveRoundTrip(m: Member, padding: Bytes, utf8: Bytes -> Option<string>)
    requires KeepsAscii(utf8) && m.meta.Stored() && AllZero(padding) && RecordsSpec(m, utf8).Ok?
    requires forall r <- AllRecords(m) :: |Frame(r)| <= 0xffff_ffff_ffff_ffff
    ensures ParseFrom(Body(m, padding)) == Some(RecordsSpec(m, utf8).value)
    ensures var r := CollectSpec(RecordsSpec(m, utf8).value, InterpretBy(utf8));
      && (r.Ok? <==> AclsDecode(m.xattrs))
      && (r.Ok? ==> r.value == Restored(m))
  {
    forall r <- AllRecords(m) ensures Frameable(r) { RecordFrameable(m, r, utf8); }
    FramesRead(AllRecords(m), padding);
    CollectAll(m, InterpretBy(utf8), utf8);
  }

  lemma {:induction false} NonAclsDiffer(xs: seq<Xattr>)
    requires NamesDiffer(Names(xs))
    ensures PutAll(NonAcls(xs)) == NonAcls(xs)
    ensures forall y <- NonAcls(xs) :: y in xs
  {
    if xs != [] {
      var x := xs[|xs| - 1];
      var before := NonAcls(Init(xs));
      assert Names(Init(xs)) == Init(Names(xs));
      NonAclsDiffer(Init(xs));
      forall y <- before ensures y.name != x.name {
        var i :| 0 <= i < |Init(xs)| && Init(xs)[i] == y;
        assert Names(xs)[i] != Names(xs)[|xs| - 1];
      }
      if !NamesAcl(x) { PutNew(before, x); }
      NonAclsStep(xs);
    }
  }

  lemma {:induction false} LastReadIs<T, E>(xs: seq<Xattr>, i: nat, read: Bytes -> Result<T, E>)
    requires NamesDiffer(Names(xs)) && i < |xs| && read(xs[i].value).Ok?
    ensures LastRead(xs, xs[i].name, read) == Some(read(xs[i].value).value)
  {
    if i < |xs| - 1 {
      assert Names(Init(xs)) == Init(Names(xs));
      assert Names(xs)[i] != Names(xs)[|xs| - 1];
      LastReadIs(Init(xs), i, read);
    }
  }

  /** With no name repeated, as a filesystem has them, each attribute that is no ACL comes back as it
      was and where it stood. */
  lemma UnrepeatedRestored(m: Member)
    requires NamesDiffer(Names(m.xattrs))
    ensures Restored(m).xattrs == NonAcls(m.xattrs)
  {
    NonAclsDiffer(m.xattrs);
  }

  /** And an ACL stored under its name comes back as that ACL. */
  lemma StoredAclRestored(m: Member, i: nat, acl: Acl)
    requires NamesDiffer(Names(m.xattrs))
    requires i < |m.xattrs| && m.xattrs[i].value == EncodeSpec(acl) && ValidAcl(acl)
    ensures m.xattrs[i].name == ACCESS_NAME ==> Restored(m).access == Some(acl)
    ensures m.xattrs[i].name == DEFAULT_NAME ==> Restored(m).default_ == Some(acl)
  {
    Acls.DecodeEncode(acl);
    LastReadIs(m.xattrs, i, DecodeSpec);
  }
}
