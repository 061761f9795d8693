/** What gathering a member's PAX records comes to: last value wins, first appearance orders, and
    every held name is accounted for. */
module PaxLaws {
  import opened Wrappers
  import opened Words
  import opened Acls
  import opened AclText
  import opened PaxTime
  import opened Percent
  import opened PaxRecords

  // ----- what one record is read as -----

  /** The three prefixes begin apart. */
  lemma Prefixes()
    ensures SPARSE[0] == 'G' as int && LIBARCHIVE[0] == 'L' as int && SCHILY[0] == 'S' as int
  {
  }

  /** Exactly the records of a sparse map are refused as sparse. */
  lemma SparseWhen(r: PaxRecord, utf8: Bytes -> Option<string>)
    ensures Interpret(r, utf8) == Err(Sparse) <==> SPARSE <= r.key
  {
  }

  /** Exactly the encoded attribute records hold a name, and it is the rest of the key decoded. */
  lemma HeldWhen(r: PaxRecord, name: Bytes, utf8: Bytes -> Option<string>)
    ensures Interpret(r, utf8) == Ok(Held(name)) <==>
      LIBARCHIVE <= r.key && name == DecodeFrom(r.key[|LIBARCHIVE|..], 0)
  {
    Prefixes();
    if SPARSE <= r.key { assert r.key[0] == SPARSE[0]; }
    if LIBARCHIVE <= r.key { assert r.key[0] == LIBARCHIVE[0]; }
  }

  /** Exactly the raw attribute records under no ACL's name give an attribute: the rest of the key, with
      the value as it is. */
  lemma AttributeWhen(r: PaxRecord, x: Xattr, utf8: Bytes -> Option<string>)
    ensures Interpret(r, utf8) == Ok(Attribute(x)) <==>
      r == PaxRecord(SCHILY + x.name, x.value) && x.name != ACCESS_NAME && x.name != DEFAULT_NAME
  {
    Prefixes();
    if SCHILY <= r.key {
      assert r.key[0] == SCHILY[0] && r.key == SCHILY + r.key[|SCHILY|..];
      if r.key == SCHILY + x.name { assert r.key[|SCHILY|..] == x.name; }
    }
  }

  lemma BinaryAclRead(name: Bytes, value: Bytes, acl: Acl, utf8: Bytes -> Option<string>)
    requires DecodeSpec(value) == Ok(acl)
    ensures name == ACCESS_NAME ==> Interpret(PaxRecord(SCHILY + name, value), utf8) == Ok(SetAccess(acl))
    ensures name == DEFAULT_NAME ==> Interpret(PaxRecord(SCHILY + name, value), utf8) == Ok(SetDefault(acl))
  {
    Prefixes();
    var key := SCHILY + name;
    assert key[0] == SCHILY[0] && key[|SCHILY|..] == name;
    assert |ACCESS_NAME| == 23 && |DEFAULT_NAME| == 24;
  }

  /** A key that begins like the attributes' and goes on otherwise names a field. */
  lemma FieldKey(key: Bytes, value: Bytes, utf8: Bytes -> Option<string>)
    requires |key| > 7 && key[0] == 'S' as int && key[7] != 'x' as int
    ensures Interpret(PaxRecord(key, value), utf8) == InterpretField(key, value, utf8)
  {
    Prefixes();
    assert SCHILY[7] == 'x' as int;
  }

  lemma AclKeys()
    ensures var key := Ascii("SCHILY.acl.access"); key[0] == 'S' as int && key[7] == 'a' as int
    ensures var key := Ascii("SCHILY.acl.default"); key[0] == 'S' as int && key[7] == 'a' as int
  {
  }

  lemma TextAclRead(value: Bytes, acl: Acl, utf8: Bytes -> Option<string>)
    requires ReadAcl(value, utf8) == Ok(acl)
    ensures InterpretField(Ascii("SCHILY.acl.access"), value, utf8) == Ok(SetAccess(acl))
    ensures InterpretField(Ascii("SCHILY.acl.default"), value, utf8) == Ok(SetDefault(acl))
  {
  }

  /** An ACL in binary under its attribute's name, and the same one in text under its own key, are read
      as the same field. */
  lemma AclFormsAgree(acl: Acl, text: Bytes, utf8: Bytes -> Option<string>)
    requires ValidAcl(acl) && utf8(text) == Some(RenderEntries(acl.entries))
    ensures Interpret(PaxRecord(SCHILY + ACCESS_NAME, EncodeSpec(acl)), utf8) == Ok(SetAccess(acl))
         == Interpret(PaxRecord(Ascii("SCHILY.acl.access"), text), utf8)
    ensures Interpret(PaxRecord(SCHILY + DEFAULT_NAME, EncodeSpec(acl)), utf8) == Ok(SetDefault(acl))
         == Interpret(PaxRecord(Ascii("SCHILY.acl.default"), text), utf8)
  {
    Acls.DecodeEncode(acl);
    BinaryAclRead(ACCESS_NAME, EncodeSpec(acl), acl, utf8);
    BinaryAclRead(DEFAULT_NAME, EncodeSpec(acl), acl, utf8);
    ParseRender(acl);
    AclKeys();
    FieldKey(Ascii("SCHILY.acl.access"), text, utf8);
    FieldKey(Ascii("SCHILY.acl.default"), text, utf8);
    TextAclRead(text, acl, utf8);
  }

  // ----- the fields: the last record that sets one wins -----

  /** What the last action that says anything says. */
  function Last<T>(actions: seq<Action>, says: Action -> Option<T>): Option<T> {
    if actions == [] then None
    else
      var x := says(actions[|actions| - 1]);
      if x.Some? then x else Last(Init(actions), says)
  }

  /** A field that an action sets, or leaves as it was. */
  ghost predicate Tracks<T>(field: Pax -> Option<T>, says: Action -> Option<T>) {
    && field(EMPTY).None?
    && forall pax: Pax, a: Action ::
         field(Apply(pax, a)) == if says(a).Some? then says(a) else field(pax)
  }

  lemma {:induction false} FieldIsLast<T>(actions: seq<Action>, field: Pax -> Option<T>, says: Action -> Option<T>)
    requires Tracks(field, says)
    ensures field(Gather(actions)) == Last(actions, says)
  {
    if actions != [] { FieldIsLast(Init(actions), field, says); }
  }

  function SaysUid(a: Action): Option<u64> { if a.SetUid? then Some(a.id) else None }
  function SaysGid(a: Action): Option<u64> { if a.SetGid? then Some(a.id) else None }
  function SaysAtime(a: Action): Option<Timestamp> { if a.SetAtime? then Some(a.time) else None }
  function SaysCtime(a: Action): Option<Timestamp> { if a.SetCtime? then Some(a.time) else None }
  function SaysMtime(a: Action): Option<Timestamp> { if a.SetMtime? then Some(a.time) else None }
  function SaysAccess(a: Action): Option<Acl> { if a.SetAccess? then Some(a.acl) else None }
  function SaysDefault(a: Action): Option<Acl> { if a.SetDefault? then Some(a.acl) else None }
  function SaysMajor(a: Action): Option<u32> { if a.SetMajor? then Some(a.device) else None }
  function SaysMinor(a: Action): Option<u32> { if a.SetMinor? then Some(a.device) else None }

  lemma FieldsAreLast(actions: seq<Action>)
    ensures var pax := Gather(actions);
      && pax.uid == Last(actions, SaysUid)
      && pax.gid == Last(actions, SaysGid)
      && pax.atime == Last(actions, SaysAtime)
      && pax.ctime == Last(actions, SaysCtime)
      && pax.mtime == Last(actions, SaysMtime)
      && pax.access == Last(actions, SaysAccess)
      && pax.default_ == Last(actions, SaysDefault)
      && pax.devmajor == Last(actions, SaysMajor)
      && pax.devminor == Last(actions, SaysMinor)
  {
    assert Gather(actions).uid == Last(actions, SaysUid) by { FieldIsLast(actions, (p: Pax) => p.uid, SaysUid); }
    assert Gather(actions).gid == Last(actions, SaysGid) by { FieldIsLast(actions, (p: Pax) => p.gid, SaysGid); }
    assert Gather(actions).atime == Last(actions, SaysAtime)
      by { FieldIsLast(actions, (p: Pax) => p.atime, SaysAtime); }
    assert Gather(actions).ctime == Last(actions, SaysCtime)
      by { FieldIsLast(actions, (p: Pax) => p.ctime, SaysCtime); }
    assert Gather(actions).mtime == Last(actions, SaysMtime)
      by { FieldIsLast(actions, (p: Pax) => p.mtime, SaysMtime); }
    assert Gather(actions).access == Last(actions, SaysAccess)
      by { FieldIsLast(actions, (p: Pax) => p.access, SaysAccess); }
    assert Gather(actions).default_ == Last(actions, SaysDefault)
      by { FieldIsLast(actions, (p: Pax) => p.default_, SaysDefault); }
    assert Gather(actions).devmajor == Last(actions, SaysMajor)
      by { FieldIsLast(actions, (p: Pax) => p.devmajor, SaysMajor); }
    assert Gather(actions).devminor == Last(actions, SaysMinor)
      by { FieldIsLast(actions, (p: Pax) => p.devminor, SaysMinor); }
  }

  // ----- the attributes: first appearance orders, the last value stands -----

  /** The attributes the records give, repeats and all. */
  function Assigned(actions: seq<Action>): seq<Xattr> {
    if actions == [] then []
    else
      var a := actions[|actions| - 1];
      Assigned(Init(actions)) + if a.Attribute? then [a.xattr] else []
  }

  /** Names without their repeats, in order of first appearance. */
  function FirstSeen(names: seq<Bytes>): seq<Bytes> {
    if names == [] then []
    else
      var seen, n := FirstSeen(Init(names)), names[|names| - 1];
      if n in seen then seen else seen + [n]
  }

  function LastValue(xs: seq<Xattr>, name: Bytes): Option<Bytes> {
    if xs == [] then None
    else if xs[|xs| - 1].name == name then Some(xs[|xs| - 1].value)
    else LastValue(Init(xs), name)
  }

  function PutAll(xs: seq<Xattr>): seq<Xattr> {
    if xs == [] then [] else Put(PutAll(Init(xs)), xs[|xs| - 1])
  }

  ghost predicate NamesDiffer(names: seq<Bytes>) {
    forall i, j :: 0 <= i < j < |names| ==> names[i] != names[j]
  }

  lemma {:induction false} PutNames(xs: seq<Xattr>, x: Xattr)
    ensures Names(Put(xs, x)) == if x.name in Names(xs) then Names(xs) else Names(xs) + [x.name]
  {
    if xs == [] {
    } else {
      PutNames(xs[1..], x);
      assert Names(xs) == [xs[0].name] + Names(xs[1..]);
      if xs[0].name != x.name {
        assert Names(Put(xs, x)) == [xs[0].name] + Names(Put(xs[1..], x));
      } else {
        assert Names(xs)[0] == x.name;
        assert Names(Put(xs, x)) == [x.name] + Names(xs[1..]);
      }
    }
  }

  lemma {:induction false} PutValues(xs: seq<Xattr>, x: Xattr)
    requires NamesDiffer(Names(xs))
    ensures forall y <- Put(xs, x) :: y == x || (y in xs && y.name != x.name)
  {
    if xs != [] {
      forall i, j | 0 <= i < j < |xs[1..]| ensures Names(xs[1..])[i] != Names(xs[1..])[j] {
        assert Names(xs)[i + 1] != Names(xs)[j + 1];
      }
      PutValues(xs[1..], x);
      forall y <- xs[1..] ensures y.name != xs[0].name {
        var k :| 0 <= k < |xs[1..]| && xs[1..][k] == y;
        assert Names(xs)[k + 1] == y.name;
      }
    }
  }

  lemma {:induction false} FirstSeenDistinct(names: seq<Bytes>)
    ensures NamesDiffer(FirstSeen(names))
    ensures forall n :: n in FirstSeen(names) <==> n in names
  {
    if names != [] {
      FirstSeenDistinct(Init(names));
      assert names == Init(names) + [names[|names| - 1]];
    }
  }

  /** Placing attributes one by one: each name once, in order of first appearance, with its last value. */
  lemma {:induction false} PutAllIs(xs: seq<Xattr>)
    ensures Names(PutAll(xs)) == FirstSeen(Names(xs))
    ensures NamesDiffer(Names(PutAll(xs)))
    ensures forall x <- PutAll(xs) :: LastValue(xs, x.name) == Some(x.value)
  {
    if xs == [] {
    } else {
      var before, x := PutAll(Init(xs)), xs[|xs| - 1];
      PutAllIs(Init(xs));
      PutNames(before, x);
      PutValues(before, x);
      assert Init(Names(xs)) == Names(Init(xs));
      FirstSeenDistinct(Names(xs));
    }
  }

  lemma {:induction false} AttributesArePut(actions: seq<Action>)
    ensures Gather(actions).xattrs == PutAll(Assigned(actions))
  {
    if actions != [] {
      AttributesArePut(Init(actions));
      var a := actions[|actions| - 1];
      if a.Attribute? {
        assert Init(Assigned(actions)) == Assigned(Init(actions));
      } else {
        assert Assigned(actions) == Assigned(Init(actions));
      }
    }
  }

  lemma AttributesAre(actions: seq<Action>)
    ensures var xattrs := Gather(actions).xattrs;
      && Names(xattrs) == FirstSeen(Names(Assigned(actions)))
      && NamesDiffer(Names(xattrs))
      && forall x <- xattrs :: LastValue(Assigned(actions), x.name) == Some(x.value)
  {
    AttributesArePut(actions);
    PutAllIs(Assigned(actions));
  }

  // ----- success and failure -----

  /** The action carries the attribute of this name. */
  predicate Carries(a: Action, name: Bytes) {
    || (a.Attribute? && a.xattr.name == name)
    || (a.SetAccess? && name == ACCESS_NAME)
    || (a.SetDefault? && name == DEFAULT_NAME)
  }

  lemma {:induction false} CarriedBySome(actions: seq<Action>, name: Bytes)
    ensures Carried(Gather(actions), name) <==> exists a <- actions :: Carries(a, name)
  {
    if actions != [] {
      var a := actions[|actions| - 1];
      CarriedBySome(Init(actions), name);
      forall b ensures b in actions <==> b in Init(actions) || b == a {
        assert actions == Init(actions) + [a];
      }
      if a.Attribute? { PutNames(Gather(Init(actions)).xattrs, a.xattr); }
      assert Carried(Gather(actions), name) <==> Carried(Gather(Init(actions)), name) || Carries(a, name);
    }
  }

  lemma {:induction false} HeldBySome(actions: seq<Action>, name: Bytes)
    ensures name in HeldNames(actions) <==> Held(name) in actions
  {
    if actions != [] {
      HeldBySome(Init(actions), name);
      assert actions == Init(actions) + [actions[|actions| - 1]];
    }
  }

  /** Every record can be read. */
  ghost predicate AllRead(records: seq<PaxRecord>, interpret: PaxRecord -> Result<Action, PaxError>) {
    forall j :: 0 <= j < |records| ==> interpret(records[j]).Ok?
  }

  /** Every held name is carried by some action, wherever it stands. */
  ghost predicate AllCarried(actions: seq<Action>) {
    forall name :: Held(name) in actions ==> exists a <- actions :: Carries(a, name)
  }

  /** Collecting succeeds exactly when every record can be read and every held name is carried by
      some record, wherever it stands; the first record that cannot be read is the error, else it is
      the lone attribute. */
  lemma CollectSucceeds(records: seq<PaxRecord>, interpret: PaxRecord -> Result<Action, PaxError>)
    ensures var actions := Actions(records, interpret);
            var r := CollectSpec(records, interpret);
      && (r.Ok? <==> (AllRead(records, interpret) && AllCarried(actions)))
      && (r.Ok? ==> r.value == Gather(actions))
      && (AllRead(records, interpret) ==> r.Ok? || r.error == LoneAttribute)
    ensures forall k :: 0 <= k < |records| && interpret(records[k]).Err?
              && (forall j :: 0 <= j < k ==> interpret(records[j]).Ok?)
              ==> CollectSpec(records, interpret) == Err(interpret(records[k]).error)
  {
    var actions := Actions(records, interpret);
    NoError(records, interpret);
    forall name
      ensures name in HeldNames(actions) <==> Held(name) in actions
      ensures Carried(Gather(actions), name) <==> exists a <- actions :: Carries(a, name)
    {
      HeldBySome(actions, name);
      CarriedBySome(actions, name);
    }
    forall k | 0 <= k < |records| && interpret(records[k]).Err? &&
      (forall j :: 0 <= j < k ==> interpret(records[j]).Ok?)
      ensures CollectSpec(records, interpret) == Err(interpret(records[k]).error)
    {
      FirstErrorAt(records, interpret, k);
    }
  }

  // ----- an archive that writes each attribute twice -----

  /** The two records of an attribute: the raw value, and another form under the encoded name. */
  function Pair(x: Xattr, encoder: Encoder, other: Bytes -> Bytes): seq<PaxRecord> {
    [PaxRecord(SCHILY + x.name, x.value), PaxRecord(LIBARCHIVE + encoder.Encode(x.name), other(x.value))]
  }

  function Pairs(xs: seq<Xattr>, encoder: Encoder, other: Bytes -> Bytes): seq<PaxRecord> {
    if xs == [] then [] else Pairs(Init(xs), encoder, other) + Pair(xs[|xs| - 1], encoder, other)
  }

  function PairActions(xs: seq<Xattr>): seq<Action> {
    if xs == [] then []
    else
      var x := xs[|xs| - 1];
      PairActions(Init(xs)) + [Attribute(x), Held(x.name)]
  }

  lemma LibarchiveRead(name: Bytes, value: Bytes, encoder: Encoder, utf8: Bytes -> Option<string>)
    requires encoder.Valid()
    ensures Interpret(PaxRecord(LIBARCHIVE + encoder.Encode(name), value), utf8) == Ok(Held(name))
  {
    var key := LIBARCHIVE + encoder.Encode(name);
    assert key[|LIBARCHIVE|..] == encoder.Encode(name);
    HeldWhen(PaxRecord(key, value), name, utf8);
    Percent.DecodeEncode(encoder, name);
  }

  /** Reading a list of records reads each. */
  lemma ActionsConcat(a: seq<PaxRecord>, b: seq<PaxRecord>, interpret: PaxRecord -> Result<Action, PaxError>)
    ensures Actions(a + b, interpret) == Actions(a, interpret) + Actions(b, interpret)
    ensures AllRead(a + b, interpret) <==> AllRead(a, interpret) && AllRead(b, interpret)
  {
    forall j | 0 <= j < |b| ensures (a + b)[|a| + j] == b[j] {}
    forall j | 0 <= j < |a| ensures (a + b)[j] == a[j] {}
  }

  lemma {:induction false} PairsRead(xs: seq<Xattr>, encoder: Encoder, other: Bytes -> Bytes,
                                     interpret: PaxRecord -> Result<Action, PaxError>)
    requires forall x <- xs :: interpret(Pair(x, encoder, other)[0]) == Ok(Attribute(x))
    requires forall x <- xs :: interpret(Pair(x, encoder, other)[1]) == Ok(Held(x.name))
    ensures AllRead(Pairs(xs, encoder, other), interpret)
    ensures Actions(Pairs(xs, encoder, other), interpret) == PairActions(xs)
  {
    if xs != [] {
      var x := xs[|xs| - 1];
      var pair := Pair(x, encoder, other);
      PairsRead(Init(xs), encoder, other, interpret);
      ActionsConcat(Pairs(Init(xs), encoder, other), pair, interpret);
      assert AllRead(pair, interpret);
      assert Actions(pair, interpret) == [Attribute(x), Held(x.name)];
    }
  }

  lemma {:induction false} PairsGather(xs: seq<Xattr>)
    ensures Gather(PairActions(xs)) == EMPTY.(xattrs := PutAll(xs))
    ensures forall name :: Held(name) in PairActions(xs) ==>
      exists x <- xs :: Attribute(x) in PairActions(xs) && x.name == name
  {
    if xs != [] {
      var before, x := PairActions(Init(xs)), xs[|xs| - 1];
      PairsGather(Init(xs));
      var actions := before + [Attribute(x), Held(x.name)];
      assert Init(actions) == before + [Attribute(x)];
      assert Init(Init(actions)) == before;
      forall y | y in Init(xs) ensures y in xs {}
      assert Attribute(x) in actions && x in xs;
    }
  }

  /** An archive that writes each attribute twice, plain and under any valid encoding of its name,
      gives the attributes back: each name once, and if none repeats, the very list. */
  lemma CollectPairs(xs: seq<Xattr>, encoder: Encoder, other: Bytes -> Bytes, utf8: Bytes -> Option<string>)
    requires encoder.Valid()
    requires forall x <- xs :: x.name != ACCESS_NAME && x.name != DEFAULT_NAME
    ensures var r := CollectSpec(Pairs(xs, encoder, other), InterpretBy(utf8));
      && r == Ok(EMPTY.(xattrs := PutAll(xs)))
      && (NamesDiffer(Names(xs)) ==> r.value.xattrs == xs)
  {
    var interpret := InterpretBy(utf8);
    forall x <- xs
      ensures interpret(Pair(x, encoder, other)[0]) == Ok(Attribute(x))
      ensures interpret(Pair(x, encoder, other)[1]) == Ok(Held(x.name))
    {
      AttributeWhen(Pair(x, encoder, other)[0], x, utf8);
      LibarchiveRead(x.name, other(x.value), encoder, utf8);
    }
    CollectPairsRead(xs, encoder, other, interpret);
    if NamesDiffer(Names(xs)) { PutAllDistinct(xs); }
  }

  lemma CollectPairsRead(xs: seq<Xattr>, encoder: Encoder, other: Bytes -> Bytes,
                         interpret: PaxRecord -> Result<Action, PaxError>)
    requires forall x <- xs :: interpret(Pair(x, encoder, other)[0]) == Ok(Attribute(x))
    requires forall x <- xs :: interpret(Pair(x, encoder, other)[1]) == Ok(Held(x.name))
    ensures CollectSpec(Pairs(xs, encoder, other), interpret) == Ok(EMPTY.(xattrs := PutAll(xs)))
  {
    PairsRead(xs, encoder, other, interpret);
    PairsGather(xs);
    CollectSucceeds(Pairs(xs, encoder, other), interpret);
    var actions := PairActions(xs);
    forall name | Held(name) in actions ensures exists a <- actions :: Carries(a, name) {
      var x :| x in xs && Attribute(x) in actions && x.name == name;
      assert Carries(Attribute(x), name);
    }
  }

  lemma {:induction false} PutAllDistinct(xs: seq<Xattr>)
    requires NamesDiffer(Names(xs))
    ensures PutAll(xs) == xs
  {
    if xs != [] {
      var init, last := Init(xs), xs[|xs| - 1];
      assert Names(init) == Init(Names(xs));
      PutAllDistinct(init);
      forall j | 0 <= j < |init| ensures init[j].name != last.name {
        assert Names(xs)[j] != Names(xs)[|xs| - 1];
      }
      PutNew(init, last);
    }
  }
}
