/** The PAX records of one archive member, gathered into typed values. */
module PaxRecords {
  import opened Wrappers
  import opened Words
  import opened Acls
  import opened AclText
  import opened PaxTime
  import opened Percent
  import Text

  datatype PaxRecord = PaxRecord(key: Bytes, value: Bytes)

  datatype Xattr = Xattr(name: Bytes, value: Bytes)

  datatype PaxError =
    | Sparse | NotText | BadText(text: TextError) | BadBinary(binary: AclError)
    | BadId | BadDevice | BadTime(time: TimeError) | LoneAttribute

  datatype Pax = Pax(uid: Option<u64>, gid: Option<u64>,
                     atime: Option<Timestamp>, ctime: Option<Timestamp>, mtime: Option<Timestamp>,
                     xattrs: seq<Xattr>, access: Option<Acl>, default_: Option<Acl>,
                     devmajor: Option<u32>, devminor: Option<u32>)

  const EMPTY := Pax(None, None, None, None, None, [], None, None, None, None)

  // ----- what one record says -----

  datatype Action =
    | Held(name: Bytes)
    | Attribute(xattr: Xattr)
    | SetAccess(acl: Acl) | SetDefault(acl: Acl)
    | SetMajor(device: u32) | SetMinor(device: u32)
    | SetUid(id: u64) | SetGid(id: u64)
    | SetAtime(time: Timestamp) | SetCtime(time: Timestamp) | SetMtime(time: Timestamp)
    | Ignored

  /** The bytes of an ASCII literal. */
  function Ascii(s: string): (b: Bytes)
    ensures |b| == |s|
  {
    seq(|s|, i requires 0 <= i < |s| => s[i] as int % 0x100)
  }

  function ReadAcl(value: Bytes, utf8: Bytes -> Option<string>): Result<Acl, PaxError> {
    if utf8(value).None? then Err(NotText)
    else
      var acl := ParseText(utf8(value).value);
      if acl.Err? then Err(BadText(acl.error)) else Ok(acl.value)
  }

  function ReadBinaryAcl(value: Bytes): Result<Acl, PaxError> {
    var acl := DecodeSpec(value);
    if acl.Err? then Err(BadBinary(acl.error)) else Ok(acl.value)
  }

  function ReadId(value: Bytes, utf8: Bytes -> Option<string>): Result<u64, PaxError> {
    if utf8(value).None? then Err(BadId)
    else
      var n := Text.ParseUnsigned(utf8(value).value, 0xffff_ffff_ffff_ffff);
      if n.None? then Err(BadId) else Ok(n.value)
  }

  function ReadDevice(value: Bytes, utf8: Bytes -> Option<string>): Result<u32, PaxError> {
    if utf8(value).None? then Err(BadDevice)
    else
      var n := Text.ParseUnsigned(utf8(value).value, 0xffff_ffff);
      if n.None? then Err(BadDevice) else Ok(n.value)
  }

  function ReadTime(value: Bytes, utf8: Bytes -> Option<string>): Result<Timestamp, PaxError> {
    if utf8(value).None? then Err(NotText)
    else
      var t := ParseTime(utf8(value).value);
      if t.Err? then Err(BadTime(t.error)) else Ok(t.value)
  }

  function Then<T>(r: Result<T, PaxError>, action: T -> Action): Result<Action, PaxError> {
    if r.Err? then Err(r.error) else Ok(action(r.value))
  }

  const SPARSE := Ascii("GNU.sparse.")
  const LIBARCHIVE := Ascii("LIBARCHIVE.xattr.")
  const SCHILY := Ascii("SCHILY.xattr.")
  const ACCESS_NAME := Ascii("system.posix_acl_access")
  const DEFAULT_NAME := Ascii("system.posix_acl_default")

  /** A `SCHILY.xattr.` record: a binary ACL under either of the two names, else an attribute. */
  function InterpretXattr(name: Bytes, value: Bytes): Result<Action, PaxError> {
    if name == ACCESS_NAME then Then(ReadBinaryAcl(value), (acl: Acl) => SetAccess(acl))
    else if name == DEFAULT_NAME then Then(ReadBinaryAcl(value), (acl: Acl) => SetDefault(acl))
    else Ok(Attribute(Xattr(name, value)))
  }

  function Interpret(record: PaxRecord, utf8: Bytes -> Option<string>): Result<Action, PaxError> {
    var (key, value) := (record.key, record.value);
    if SPARSE <= key then Err(Sparse)
    else if LIBARCHIVE <= key then Ok(Held(DecodeFrom(key[|LIBARCHIVE|..], 0)))
    else if SCHILY <= key then InterpretXattr(key[|SCHILY|..], value)
    else InterpretField(key, value, utf8)
  }

  function InterpretField(key: Bytes, value: Bytes, utf8: Bytes -> Option<string>): Result<Action, PaxError> {
    if key == Ascii("SCHILY.acl.access") then Then(ReadAcl(value, utf8), (acl: Acl) => SetAccess(acl))
    else if key == Ascii("SCHILY.acl.default") then Then(ReadAcl(value, utf8), (acl: Acl) => SetDefault(acl))
    else if key == Ascii("SCHILY.devmajor") then Then(ReadDevice(value, utf8), (n: u32) => SetMajor(n))
    else if key == Ascii("SCHILY.devminor") then Then(ReadDevice(value, utf8), (n: u32) => SetMinor(n))
    else if key == Ascii("uid") then Then(ReadId(value, utf8), (n: u64) => SetUid(n))
    else if key == Ascii("gid") then Then(ReadId(value, utf8), (n: u64) => SetGid(n))
    else if key == Ascii("atime") then Then(ReadTime(value, utf8), (t: Timestamp) => SetAtime(t))
    else if key == Ascii("ctime") then Then(ReadTime(value, utf8), (t: Timestamp) => SetCtime(t))
    else if key == Ascii("mtime") then Then(ReadTime(value, utf8), (t: Timestamp) => SetMtime(t))
    else Ok(Ignored)
  }

  /** Every record interpreted with one decoder. */
  function InterpretBy(utf8: Bytes -> Option<string>): PaxRecord -> Result<Action, PaxError> {
    (record: PaxRecord) => Interpret(record, utf8)
  }

  // ----- what all of them say -----

  /** A later value for a name replaces the earlier one where it stands. */
  function Put(xs: seq<Xattr>, x: Xattr): seq<Xattr> {
    if xs == [] then [x]
    else if xs[0].name == x.name then [x] + xs[1..]
    else [xs[0]] + Put(xs[1..], x)
  }

  function Apply(pax: Pax, a: Action): Pax {
    match a
    case Held(_) => pax
    case Attribute(x) => pax.(xattrs := Put(pax.xattrs, x))
    case SetAccess(acl) => pax.(access := Some(acl))
    case SetDefault(acl) => pax.(default_ := Some(acl))
    case SetMajor(n) => pax.(devmajor := Some(n))
    case SetMinor(n) => pax.(devminor := Some(n))
    case SetUid(n) => pax.(uid := Some(n))
    case SetGid(n) => pax.(gid := Some(n))
    case SetAtime(t) => pax.(atime := Some(t))
    case SetCtime(t) => pax.(ctime := Some(t))
    case SetMtime(t) => pax.(mtime := Some(t))
    case Ignored => pax
  }

  function Gather(actions: seq<Action>): Pax {
    if actions == [] then EMPTY else Apply(Gather(Init(actions)), actions[|actions| - 1])
  }

  function Init<T>(s: seq<T>): (r: seq<T>)
    requires s != []
    ensures |r| == |s| - 1
  {
    s[..|s| - 1]
  }

  function HeldNames(actions: seq<Action>): seq<Bytes> {
    if actions == [] then []
    else
      var a := actions[|actions| - 1];
      HeldNames(Init(actions)) + if a.Held? then [a.name] else []
  }

  function Names(xs: seq<Xattr>): (names: seq<Bytes>)
    ensures |names| == |xs|
    ensures forall i :: 0 <= i < |xs| ==> names[i] == xs[i].name
  {
    seq(|xs|, i requires 0 <= i < |xs| => xs[i].name)
  }

  predicate Carried(pax: Pax, name: Bytes) {
    || name in Names(pax.xattrs)
    || (name == ACCESS_NAME && pax.access.Some?)
    || (name == DEFAULT_NAME && pax.default_.Some?)
  }

  /** The first error among the records, in their order. */
  function FirstError(records: seq<PaxRecord>, interpret: PaxRecord -> Result<Action, PaxError>): Option<PaxError> {
    if records == [] then None
    else
      var a := interpret(records[0]);
      if a.Err? then Some(a.error) else FirstError(records[1..], interpret)
  }

  function Actions(records: seq<PaxRecord>, interpret: PaxRecord -> Result<Action, PaxError>): (r: seq<Action>)
    ensures |r| == |records|
  {
    seq(|records|, i requires 0 <= i < |records| =>
      var a := interpret(records[i]); if a.Err? then Ignored else a.value)
  }

  function CollectSpec(records: seq<PaxRecord>, interpret: PaxRecord -> Result<Action, PaxError>)
    : Result<Pax, PaxError>
  {
    var e := FirstError(records, interpret);
    if e.Some? then Err(e.value)
    else
      var actions := Actions(records, interpret);
      if forall name <- HeldNames(actions) :: Carried(Gather(actions), name) then Ok(Gather(actions))
      else Err(LoneAttribute)
  }

  // ----- the run -----

  /** The index places a name exactly where the list holds it. */
  ghost predicate Indexed(placed: map<Bytes, nat>, xs: seq<Xattr>) {
    && (forall n <- placed :: placed[n] < |xs| && xs[placed[n]].name == n)
    && (forall i :: 0 <= i < |xs| ==> xs[i].name in placed && placed[xs[i].name] == i)
  }

  lemma {:induction false} PutAt(xs: seq<Xattr>, x: Xattr, i: nat)
    requires i < |xs| && xs[i].name == x.name
    requires forall j :: 0 <= j < i ==> xs[j].name != x.name
    ensures Put(xs, x) == xs[i := x]
  {
    if i > 0 {
      PutAt(xs[1..], x, i - 1);
      assert xs[i := x] == [xs[0]] + xs[1..][i - 1 := x];
    } else {
      assert xs[0 := x] == [x] + xs[1..];
    }
  }

  lemma {:induction false} PutNew(xs: seq<Xattr>, x: Xattr)
    requires forall j :: 0 <= j < |xs| ==> xs[j].name != x.name
    ensures Put(xs, x) == xs + [x]
  {
    if xs != [] {
      PutNew(xs[1..], x);
      assert xs + [x] == [xs[0]] + (xs[1..] + [x]);
    }
  }

  /** One attribute placed: found by the index, or pushed and indexed. */
  method Place(xs: seq<Xattr>, placed: map<Bytes, nat>, x: Xattr) returns (xs': seq<Xattr>, placed': map<Bytes, nat>)
    requires Indexed(placed, xs)
    ensures xs' == Put(xs, x) && Indexed(placed', xs')
  {
    if x.name in placed {
      var at := placed[x.name];
      forall j | 0 <= j < at ensures xs[j].name != x.name { assert placed[xs[j].name] == j; }
      PutAt(xs, x, at);
      return xs[at := x], placed;
    } else {
      PutNew(xs, x);
      return xs + [x], placed[x.name := |xs|];
    }
  }

  lemma {:induction false} FirstErrorAt(records: seq<PaxRecord>, interpret: PaxRecord -> Result<Action, PaxError>,
                                        k: nat)
    requires k < |records| && interpret(records[k]).Err?
    requires forall j :: 0 <= j < k ==> interpret(records[j]).Ok?
    ensures FirstError(records, interpret) == Some(interpret(records[k]).error)
  {
    if k > 0 { FirstErrorAt(records[1..], interpret, k - 1); }
  }

  lemma {:induction false} NoError(records: seq<PaxRecord>, interpret: PaxRecord -> Result<Action, PaxError>)
    ensures FirstError(records, interpret).None? <==> forall j :: 0 <= j < |records| ==> interpret(records[j]).Ok?
  {
    if records != [] {
      NoError(records[1..], interpret);
      assert records == [records[0]] + records[1..];
    }
  }

  /** One record's action taken; the index is kept beside the list it speeds up. */
  method Take(pax: Pax, held: seq<Bytes>, placed: map<Bytes, nat>, a: Action)
    returns (pax': Pax, held': seq<Bytes>, placed': map<Bytes, nat>)
    requires Indexed(placed, pax.xattrs)
    ensures pax' == Apply(pax, a) && Indexed(placed', pax'.xattrs)
    ensures held' == held + if a.Held? then [a.name] else []
  {
    pax', held', placed' := pax, held, placed;
    match a {
      case Held(name) => held' := held + [name];
      case Attribute(x) =>
        var xattrs;
        xattrs, placed' := Place(pax.xattrs, placed, x);
        pax' := pax.(xattrs := xattrs);
      case _ => pax' := Apply(pax, a);
    }
  }

  lemma IndexedNames(placed: map<Bytes, nat>, xs: seq<Xattr>, name: Bytes)
    requires Indexed(placed, xs)
    ensures name in placed <==> name in Names(xs)
  {
    if name in placed { assert Names(xs)[placed[name]] == name; }
  }

  /** Whether every held name is carried, each by one lookup. */
  method Reconcile(pax: Pax, held: seq<Bytes>, placed: map<Bytes, nat>) returns (carried: bool)
    requires Indexed(placed, pax.xattrs)
    ensures carried <==> forall name <- held :: Carried(pax, name)
  {
    var i := 0;
    while i < |held|
      invariant 0 <= i <= |held|
      invariant forall j :: 0 <= j < i ==> Carried(pax, held[j])
    {
      var name := held[i];
      IndexedNames(placed, pax.xattrs, name);
      var carriedAsAcl := (name == ACCESS_NAME && pax.access.Some?) || (name == DEFAULT_NAME && pax.default_.Some?);
      if name !in placed && !carriedAsAcl {
        assert name in held && !Carried(pax, name);
        return false;
      }
      i := i + 1;
    }
    return true;
  }

  /** The actions before a record and its own, gathered. */
  lemma GatherStep(actions: seq<Action>, i: nat)
    requires i < |actions|
    ensures Gather(actions[..i + 1]) == Apply(Gather(actions[..i]), actions[i])
    ensures HeldNames(actions[..i + 1]) ==
      HeldNames(actions[..i]) + if actions[i].Held? then [actions[i].name] else []
  {
    assert Init(actions[..i + 1]) == actions[..i];
  }

  /** The loop of `CollectPax`, whatever a record is read as. */
  method Collect(records: seq<PaxRecord>, interpret: PaxRecord -> Result<Action, PaxError>)
    returns (r: Result<Pax, PaxError>)
    ensures r == CollectSpec(records, interpret)
  {
    ghost var actions := Actions(records, interpret);
    var pax := EMPTY;
    var held: seq<Bytes> := [];
    var placed: map<Bytes, nat> := map[];
    var i := 0;
    while i < |records|
      invariant 0 <= i <= |records|
      invariant forall j :: 0 <= j < i ==> interpret(records[j]).Ok?
      invariant pax == Gather(actions[..i]) && held == HeldNames(actions[..i])
      invariant Indexed(placed, pax.xattrs)
    {
      var action := interpret(records[i]);
      if action.Err? {
        FirstErrorAt(records, interpret, i);
        return Err(action.error);
      }
      GatherStep(actions, i);
      pax, held, placed := Take(pax, held, placed, action.value);
      i := i + 1;
    }
    NoError(records, interpret);
    assert actions[..i] == actions;
    var carried := Reconcile(pax, held, placed);
    return if carried then Ok(pax) else Err(LoneAttribute);
  }

  /** Gather a member's records; the held names are reconciled once every record has been seen. */
  method CollectPax(records: seq<PaxRecord>, utf8: Bytes -> Option<string>) returns (r: Result<Pax, PaxError>)
    ensures r == CollectSpec(records, InterpretBy(utf8))
  {
    r := Collect(records, InterpretBy(utf8));
  }
}
