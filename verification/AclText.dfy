/** The text form of an ACL: the printer, the parser of archive records, and their round trip.
    The form is that of section 23 of IEEE 1003.1e draft 17. */
module AclText {
  import opened Wrappers
  import opened Words
  import opened Text
  import opened Acls

  const U32_MAX: nat := 0xffff_ffff

  // ----- the printer -----

  predicate Bit(perm: u16, bit: u16)
    requires bit > 0
  {
    perm / bit % 2 == 1
  }

  function RenderPerm(perm: u16): string {
    [if Bit(perm, READ) then 'r' else '-', if Bit(perm, WRITE) then 'w' else '-', if Bit(perm, EXEC) then 'x' else '-']
  }

  function RenderTag(who: AclQualifier): string {
    match who
    case UserObj => "user"
    case User(_) => "user"
    case GroupObj => "group"
    case Group(_) => "group"
    case Mask => "mask"
    case Other => "other"
  }

  function RenderQualifier(who: AclQualifier): string {
    if who.Named() then OfNat(who.id) else ""
  }

  function RenderEntry(e: AclEntry): string {
    RenderTag(e.who) + ":" + RenderQualifier(e.who) + ":" + RenderPerm(e.perm)
  }

  /** Items printed and comma-joined. */
  function Join<T>(items: seq<T>, render: T -> string): string {
    if items == [] then ""
    else if |items| == 1 then render(items[0])
    else render(items[0]) + "," + Join(items[1..], render)
  }

  function RenderEntries(es: seq<AclEntry>): string {
    Join(es, (e: AclEntry) => RenderEntry(e))
  }

  lemma {:induction false} JoinSnoc<T>(items: seq<T>, x: T, render: T -> string)
    ensures Join(items + [x], render) == (if items == [] then "" else Join(items, render) + ",") + render(x)
  {
    var all := items + [x];
    if items == [] {
      assert all == [x];
    } else {
      assert all[1..] == items[1..] + [x];
      JoinSnoc(items[1..], x, render);
      if |items| > 1 {
        assert items[1..] != [];
        assert Join(all, render) == render(items[0]) + "," + Join(all[1..], render);
      }
    }
  }

  lemma RenderSnoc(es: seq<AclEntry>, i: nat)
    requires i < |es|
    ensures RenderEntries(es[..i]) == "" <==> i == 0
    ensures RenderEntries(es[..i + 1]) ==
      (if i == 0 then "" else RenderEntries(es[..i]) + ",") + RenderEntry(es[i])
  {
    assert es[..i + 1] == es[..i] + [es[i]];
    JoinSnoc(es[..i], es[i], (e: AclEntry) => RenderEntry(e));
    assert i > 0 ==> RenderEntries(es[..i])[..|RenderEntry(es[0])|] == RenderEntry(es[0]);
  }

  /** An ACL on one line, entries in the order it stores them. */
  method RenderAcl(acl: Acl) returns (out: string)
    ensures out == RenderEntries(acl.entries)
  {
    out := "";
    var i := 0;
    while i < |acl.entries|
      invariant 0 <= i <= |acl.entries|
      invariant out == RenderEntries(acl.entries[..i])
    {
      RenderSnoc(acl.entries, i);
      if out != "" { out := out + ","; }
      out := out + RenderEntry(acl.entries[i]);
      i := i + 1;
    }
    assert acl.entries[..i] == acl.entries;
  }

  // ----- the parser -----

  datatype TextError =
    | MissingPerm | BadPerm | BadUser | BadGroup | BadTag
    | Invalid(error: AclError)

  /** The letters `rwx`, in any order and number, with `-` for an absent bit. */
  function ParsePerm(text: string): Option<u16> {
    if forall c | c in text :: c in "rwx-" then
      Some((if 'r' in text then READ else 0) + (if 'w' in text then WRITE else 0) + (if 'x' in text then EXEC else 0))
    else None
  }

  /** A fourth field is the id; else an empty qualifier is the object entry, and another its id. */
  function NamedQualifier(qualifier: string, extra: Option<string>, owner: AclQualifier,
                          named: u32 -> AclQualifier): Option<AclQualifier> {
    if extra.None? && qualifier == "" then Some(owner)
    else
      var id := ParseUnsigned(if extra.Some? then extra.value else qualifier, U32_MAX);
      if id.None? then None else Some(named(id.value))
  }

  function ParseWho(tag: string, qualifier: string, extra: Option<string>): Result<AclQualifier, TextError> {
    if tag == "user" || tag == "u" then
      var who := NamedQualifier(qualifier, extra, UserObj, (id: u32) => User(id));
      if who.None? then Err(BadUser) else Ok(who.value)
    else if tag == "group" || tag == "g" then
      var who := NamedQualifier(qualifier, extra, GroupObj, (id: u32) => Group(id));
      if who.None? then Err(BadGroup) else Ok(who.value)
    else if tag == "mask" || tag == "m" then Ok(Mask)
    else if tag == "other" || tag == "o" then Ok(Other)
    else Err(BadTag)
  }

  function TrimAll(pieces: seq<string>): (r: seq<string>)
    ensures |r| == |pieces|
  {
    seq(|pieces|, i requires 0 <= i < |pieces| => Trim(pieces[i]))
  }

  /** One entry of the text, its comment dropped. */
  function ParseEntry(token: string): Result<AclEntry, TextError> {
    var fields := TrimAll(Split(Trim(Split(token, c => c == '#')[0]), c => c == ':'));
    if |fields| < 3 then Err(MissingPerm)
    else
      var perm := ParsePerm(fields[2]);
      if perm.None? then Err(BadPerm)
      else
        var who := ParseWho(fields[0], fields[1], if |fields| > 3 then Some(fields[3]) else None);
        if who.Err? then Err(who.error) else Ok(AclEntry(who.value, perm.value))
  }

  /** What a list of tokens holds, empty ones skipped, up to the first that does not parse. */
  function ParseEach<T>(tokens: seq<string>, parse: string -> Result<T, TextError>): Result<seq<T>, TextError> {
    if tokens == [] then Ok([])
    else if Trim(tokens[0]) == "" then ParseEach(tokens[1..], parse)
    else
      var x := parse(Trim(tokens[0]));
      if x.Err? then Err(x.error) else Before([x.value], ParseEach(tokens[1..], parse))
  }

  function Before<T>(xs: seq<T>, rest: Result<seq<T>, TextError>): (r: Result<seq<T>, TextError>)
    ensures xs == [] ==> r == rest
    ensures rest == Ok([]) ==> r == Ok(xs)
  {
    if rest.Err? then rest
    else
      assert xs == [] ==> xs + rest.value == rest.value;
      assert rest.value == [] ==> xs + rest.value == xs;
      Ok(xs + rest.value)
  }

  function ParseEntries(tokens: seq<string>): Result<seq<AclEntry>, TextError> {
    ParseEach(tokens, (token: string) => ParseEntry(token))
  }

  /** One more token read after the items `xs`. */
  lemma ParseEachStep<T>(tokens: seq<string>, parse: string -> Result<T, TextError>, xs: seq<T>, i: nat)
    requires i < |tokens|
    ensures Trim(tokens[i]) == "" ==>
      Before(xs, ParseEach(tokens[i..], parse)) == Before(xs, ParseEach(tokens[i + 1..], parse))
    ensures Trim(tokens[i]) != "" ==>
      var x := parse(Trim(tokens[i]));
      Before(xs, ParseEach(tokens[i..], parse)) ==
        if x.Err? then Err(x.error) else Before(xs + [x.value], ParseEach(tokens[i + 1..], parse))
  {
    assert tokens[i..][1..] == tokens[i + 1..];
    var rest := ParseEach(tokens[i + 1..], parse);
    var x := parse(Trim(tokens[i]));
    if x.Ok? && rest.Ok? {
      assert xs + ([x.value] + rest.value) == xs + [x.value] + rest.value;
    }
  }

  predicate IsSeparator(c: char) { c == ',' || c == '\n' }

  function ParseText(text: string): Result<Acl, TextError> {
    var es := ParseEntries(Split(text, IsSeparator));
    if es.Err? then Err(es.error)
    else
      var acl := NewSpec(es.value);
      if acl.Err? then Err(Invalid(acl.error)) else Ok(acl.value)
  }

  method ParsePermission(text: string) returns (r: Option<u16>)
    ensures r == ParsePerm(text)
  {
    var read, write, exec := false, false, false;
    var i := 0;
    while i < |text|
      invariant 0 <= i <= |text|
      invariant read == ('r' in text[..i]) && write == ('w' in text[..i]) && exec == ('x' in text[..i])
      invariant forall c :: c in text[..i] ==> c in "rwx-"
    {
      assert text[..i + 1] == text[..i] + [text[i]];
      match text[i] {
        case 'r' => read := true;
        case 'w' => write := true;
        case 'x' => exec := true;
        case '-' =>
        case _ =>
          assert text[i] in text;
          return None;
      }
      i := i + 1;
    }
    assert text[..i] == text;
    return Some((if read then READ else 0) + (if write then WRITE else 0) + (if exec then EXEC else 0));
  }

  /** The loop of `ParseAclText`, whatever a token parses to: the first fault ends it. */
  method ReadEach<T>(tokens: seq<string>, parse: string -> Result<T, TextError>)
    returns (r: Result<seq<T>, TextError>)
    ensures r == ParseEach(tokens, parse)
  {
    var items: seq<T> := [];
    var i := 0;
    assert tokens[0..] == tokens;
    while i < |tokens|
      invariant 0 <= i <= |tokens|
      invariant ParseEach(tokens, parse) == Before(items, ParseEach(tokens[i..], parse))
    {
      ParseEachStep(tokens, parse, items, i);
      var token := Trim(tokens[i]);
      if token != "" {
        var item := parse(token);
        if item.Err? { return Err(item.error); }
        items := items + [item.value];
      }
      i := i + 1;
    }
    return Ok(items);
  }

  /** Parse an archive's ACL record. */
  method ParseAclText(text: string) returns (r: Result<Acl, TextError>)
    ensures r == ParseText(text)
  {
    var es := ReadEach(Split(text, IsSeparator), (token: string) => ParseEntry(token));
    if es.Err? { return Err(es.error); }
    var acl := New(es.value);
    if acl.Err? { return Err(Invalid(acl.error)); }
    return Ok(acl.value);
  }

  // ----- the round trip -----

  /** Text no step of the parser cuts, trims or takes for a comment. */
  ghost predicate Plain(s: string) {
    forall i :: 0 <= i < |s| ==> 'a' <= s[i] <= 'z' || '0' <= s[i] <= '9' || s[i] == '-'
  }

  /** The same, with the colons between fields. */
  ghost predicate PlainFields(s: string) {
    forall i :: 0 <= i < |s| ==> 'a' <= s[i] <= 'z' || '0' <= s[i] <= '9' || s[i] == '-' || s[i] == ':'
  }

  lemma TrimPlain(s: string)
    requires PlainFields(s)
    ensures Trim(s) == s
  {
  }

  lemma PlainDigits(digits: string)
    requires AllDigits(digits)
    ensures Plain(digits)
  {
    forall i | 0 <= i < |digits| ensures '0' <= digits[i] <= '9' { assert IsDigit(digits[i]); }
  }

  lemma PlainJoin(a: string, b: string, c: string)
    requires Plain(a) && Plain(b) && Plain(c)
    ensures PlainFields(a + ":" + b + ":" + c)
  {
  }

  lemma PlainParts(e: AclEntry)
    ensures Plain(RenderTag(e.who)) && Plain(RenderQualifier(e.who)) && Plain(RenderPerm(e.perm))
    ensures PlainFields(RenderEntry(e)) && RenderEntry(e) != ""
  {
    if e.who.Named() { PlainDigits(OfNat(e.who.id)); }
    PlainJoin(RenderTag(e.who), RenderQualifier(e.who), RenderPerm(e.perm));
  }

  /** Three plain fields between colons split into themselves. */
  lemma SplitFields(a: string, b: string, c: string)
    requires Plain(a) && Plain(b) && Plain(c)
    ensures TrimAll(Split(a + ":" + b + ":" + c, x => x == ':')) == [a, b, c]
  {
    var pieces := Split(a + ":" + b + ":" + c, x => x == ':');
    SplitThree(a, b, c, x => x == ':');
    TrimPlain(a); TrimPlain(b); TrimPlain(c);
    assert pieces == [a, b, c];
  }

  lemma SplitThree(a: string, b: string, c: string, sep: char -> bool)
    requires Free(a, sep) && Free(b, sep) && Free(c, sep) && sep(':')
    ensures Split(a + ":" + b + ":" + c, sep) == [a, b, c]
  {
    assert a + ":" + b + ":" + c == a + [':'] + (b + [':'] + c);
    SplitAt(a, ':', b + [':'] + c, sep);
    SplitAt(b, ':', c, sep);
    SplitNone(c, sep);
  }

  lemma ParseRenderPerm(perm: u16)
    requires GoodPerm(perm)
    ensures ParsePerm(RenderPerm(perm)) == Some(perm)
  {
  }

  lemma ParseRenderWho(who: AclQualifier)
    ensures ParseWho(RenderTag(who), RenderQualifier(who), None) == Ok(who)
  {
    if who.Named() { ParseOfNat(who.id, U32_MAX); }
  }

  /** An entry printed is that entry parsed. */
  lemma ParseRenderEntry(e: AclEntry)
    requires GoodPerm(e.perm)
    ensures Trim(RenderEntry(e)) == RenderEntry(e) && ParseEntry(RenderEntry(e)) == Ok(e)
  {
    var text := RenderEntry(e);
    PlainParts(e);
    TrimPlain(text);
    SplitNone(text, c => c == '#');
    SplitFields(RenderTag(e.who), RenderQualifier(e.who), RenderPerm(e.perm));
    ParseRenderPerm(e.perm);
    ParseRenderWho(e.who);
  }

  /** If each item survives the round trip alone, the comma-joined list does. */
  lemma {:induction false} ParseJoin<T>(items: seq<T>, render: T -> string, parse: string -> Result<T, TextError>)
    requires forall x <- items :: Trim(render(x)) == render(x) && render(x) != "" && Free(render(x), IsSeparator)
    requires forall x <- items :: parse(render(x)) == Ok(x)
    ensures ParseEach(Split(Join(items, render), IsSeparator), parse) == Ok(items)
  {
    if items == [] {
    } else {
      var head := render(items[0]);
      var tail := items[1..];
      assert items == [items[0]] + tail && items[0] in items;
      if |items| == 1 {
        SplitNone(head, IsSeparator);
        ParseOne(head, [], parse);
      } else {
        SplitAt(head, ',', Join(tail, render), IsSeparator);
        ParseOne(head, Split(Join(tail, render), IsSeparator), parse);
        ParseJoin(tail, render, parse);
      }
    }
  }

  lemma ParseOne<T>(head: string, rest: seq<string>, parse: string -> Result<T, TextError>)
    requires Trim(head) == head != "" && parse(head).Ok?
    ensures ParseEach([head] + rest, parse) == Before([parse(head).value], ParseEach(rest, parse))
  {
    assert ([head] + rest)[1..] == rest;
  }

  /** What is printed parses, and to the same ACL. */
  lemma ParseRender(acl: Acl)
    requires ValidAcl(acl)
    ensures ParseText(RenderEntries(acl.entries)) == Ok(acl)
  {
    var es := acl.entries;
    forall e <- es
      ensures Trim(RenderEntry(e)) == RenderEntry(e) && RenderEntry(e) != "" && Free(RenderEntry(e), IsSeparator)
      ensures ParseEntry(RenderEntry(e)) == Ok(e)
    {
      PlainParts(e);
      ParseRenderEntry(e);
    }
    ParseJoin(es, (e: AclEntry) => RenderEntry(e), (token: string) => ParseEntry(token));
    NewFixed(acl);
  }
}
