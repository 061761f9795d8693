/** The framing of PAX records in an extended header: each record counts its own length. */
module PaxFrame {
  import opened Wrappers
  import opened Words
  import opened Percent
  import opened PaxRecords
  import Text
  import Tiling

  const SPACE: u8 := 0x20
  const EQUALS: u8 := 0x3d
  const NEWLINE: u8 := 0x0a

  predicate AllZero(s: Bytes) {
    forall i :: 0 <= i < |s| ==> s[i] == 0
  }

  /** Where a byte first stands. */
  function Position(s: Bytes, b: u8): (at: Option<nat>)
    ensures at.Some? ==> at.value < |s| && s[at.value] == b && b !in s[..at.value]
    ensures at.None? ==> b !in s
  {
    if s == [] then None
    else if s[0] == b then Some(0)
    else
      var rest := Position(s[1..], b);
      assert s == [s[0]] + s[1..];
      if rest.None? then None
      else
        assert s[..rest.value + 1] == [s[0]] + s[1..][..rest.value];
        Some(rest.value + 1)
  }

  function Chars(s: Bytes): (text: string)
    ensures |text| == |s|
  {
    seq(|s|, i requires 0 <= i < |s| => s[i] as char)
  }

  function ParseDecimal(text: Bytes): Option<u64> {
    var digits := Chars(text);
    if digits == [] || !Text.AllDigits(digits) || Text.ToNat(digits) > 0xffff_ffff_ffff_ffff then None
    else Some(Text.ToNat(digits))
  }

  /** The pair between a record's space and its newline; the key ends at the first `=`. */
  function ParsePair(pair: Bytes): Option<PaxRecord> {
    var equals := Position(pair, EQUALS);
    if equals.None? || equals.value == 0 then None
    else Some(PaxRecord(pair[..equals.value], pair[equals.value + 1..]))
  }

  /** The record at the start of `rest`, and its length. */
  function ParseOne(rest: Bytes): (r: Option<(PaxRecord, nat)>)
    ensures r.Some? ==> 0 < r.value.1 <= |rest|
  {
    var space := Position(rest, SPACE);
    if space.None? then None
    else
      var len := ParseDecimal(rest[..space.value]);
      if len.None? || len.value > |rest| || len.value < space.value + 5 || rest[len.value - 1] != NEWLINE then None
      else
        var record := ParsePair(rest[space.value + 1..len.value - 1]);
        if record.None? then None else Some((record.value, len.value))
  }

  function ParseFrom(rest: Bytes): Option<seq<PaxRecord>>
    decreases |rest|
  {
    if AllZero(rest) then Some([])
    else
      var first := ParseOne(rest);
      if first.None? then None
      else Prepend([first.value.0], ParseFrom(rest[first.value.1..]))
  }

  function Prepend(records: seq<PaxRecord>, more: Option<seq<PaxRecord>>): Option<seq<PaxRecord>> {
    if more.None? then None else Some(records + more.value)
  }

  lemma PrependTwice(a: seq<PaxRecord>, b: seq<PaxRecord>, more: Option<seq<PaxRecord>>)
    ensures Prepend(a, Prepend(b, more)) == Prepend(a + b, more)
  {
    if more.Some? { assert a + (b + more.value) == a + b + more.value; }
  }

  lemma PrependNone(more: Option<seq<PaxRecord>>)
    ensures Prepend([], more) == more
  {
    if more.Some? { assert [] + more.value == more.value; }
  }

  lemma SliceTwice(s: Bytes, n: nat, i: nat, j: nat)
    requires i <= j <= n <= |s|
    ensures s[..n][i..j] == s[i..j]
  {
  }

  /** The record the walk is at, and the length it steps by. */
  method NextRecord(rest: Bytes) returns (r: Option<(PaxRecord, nat)>)
    ensures r == ParseOne(rest)
  {
    var space := Position(rest, SPACE);
    if space.None? { return None; }
    var read := ParseDecimal(rest[..space.value]);
    if read.None? { return None; }
    var len: nat := read.value;
    if len > |rest| || len < space.value + 5 { return None; }
    var record := rest[..len];
    if record[len - 1] != NEWLINE { return None; }
    var pair := record[space.value + 1..len - 1];
    SliceTwice(rest, len, space.value + 1, len - 1);
    var equals := Position(pair, EQUALS);
    if equals.None? || equals.value == 0 { return None; }
    var next := PaxRecord(pair[..equals.value], pair[equals.value + 1..]);
    return Some((next, len));
  }

  /** The walk over a header's body; padding of zeros ends it, and anything malformed refuses it. */
  method ParseRecords(body: Bytes) returns (r: Option<seq<PaxRecord>>)
    ensures r == ParseFrom(body)
  {
    var records: seq<PaxRecord> := [];
    var rest := body;
    PrependNone(ParseFrom(body));
    while rest != []
      invariant ParseFrom(body) == Prepend(records, ParseFrom(rest))
      decreases |rest|
    {
      if AllZero(rest) { break; }
      var next := NextRecord(rest);
      if next.None? { return None; }
      var (record, len) := next.value;
      PrependTwice(records, [record], ParseFrom(rest[len..]));
      records := records + [record];
      rest := rest[len..];
    }
    assert ParseFrom(rest) == Some([]) && records + [] == records;
    return Some(records);
  }

  // ----- what a body may be -----

  function Pair(r: PaxRecord): Bytes {
    r.key + [EQUALS] + r.value
  }

  /** A piece is its own length in decimal, a space, the pair and a newline. */
  ghost predicate SpeltWith(piece: Bytes, digits: Bytes, r: PaxRecord) {
    && ParseDecimal(digits) == Some(|piece|)
    && piece == digits + [SPACE] + Pair(r) + [NEWLINE]
  }

  /** A key is something without an `=`, and the pair is three bytes or more: `a=` is refused. */
  ghost predicate Frameable(r: PaxRecord) {
    r.key != [] && EQUALS !in r.key && |r.key| + |r.value| >= 2
  }

  ghost predicate Spells(piece: Bytes, r: PaxRecord) {
    Frameable(r) && exists digits :: SpeltWith(piece, digits, r)
  }

  lemma {:induction false} PositionIs(s: Bytes, b: u8, i: nat)
    requires i < |s| && s[i] == b && b !in s[..i]
    ensures Position(s, b) == Some(i)
  {
    if i > 0 {
      assert s[..i] == [s[0]] + s[1..][..i - 1];
      PositionIs(s[1..], b, i - 1);
    }
  }

  lemma PairReads(r: PaxRecord)
    requires r.key != [] && EQUALS !in r.key
    ensures ParsePair(Pair(r)) == Some(r)
  {
    var pair := Pair(r);
    assert pair[..|r.key|] == r.key && pair[|r.key| + 1..] == r.value;
    PositionIs(pair, EQUALS, |r.key|);
  }

  lemma PairIs(pair: Bytes)
    requires ParsePair(pair).Some?
    ensures var r := ParsePair(pair).value; Pair(r) == pair && r.key != [] && EQUALS !in r.key
  {
  }

  lemma NoSpace(digits: Bytes)
    requires ParseDecimal(digits).Some?
    ensures SPACE !in digits && !AllZero(digits)
  {
    forall i | 0 <= i < |digits| ensures digits[i] != SPACE && digits[i] != 0 {
      assert Text.IsDigit(Chars(digits)[i]);
    }
  }

  lemma OneIs(rest: Bytes, space: nat, len: nat, r: PaxRecord)
    requires space + 5 <= len <= |rest|
    requires rest[space] == SPACE && SPACE !in rest[..space] && ParseDecimal(rest[..space]) == Some(len)
    requires rest[len - 1] == NEWLINE && ParsePair(rest[space + 1..len - 1]) == Some(r)
    ensures ParseOne(rest) == Some((r, len))
  {
    PositionIs(rest, SPACE, space);
  }

  /** What stands first is read when it is spelt. */
  lemma OneReads(piece: Bytes, digits: Bytes, r: PaxRecord, more: Bytes)
    requires Frameable(r) && SpeltWith(piece, digits, r)
    ensures ParseOne(piece + more) == Some((r, |piece|))
  {
    var rest, n, len, pair := piece + more, |digits|, |piece|, Pair(r);
    NoSpace(digits);
    PairReads(r);
    assert len == n + 1 + |pair| + 1;
    assert rest[..n] == digits && rest[n] == SPACE && rest[len - 1] == NEWLINE;
    assert rest[n + 1..len - 1] == pair;
    OneIs(rest, n, len, r);
  }

  lemma OneIsSpelt(rest: Bytes)
    requires ParseOne(rest).Some?
    ensures var (r, n) := ParseOne(rest).value; Spells(rest[..n], r)
  {
    var (r, n) := ParseOne(rest).value;
    var space := Position(rest, SPACE).value;
    var digits, piece := rest[..space], rest[..n];
    PairIs(rest[space + 1..n - 1]);
    assert piece == digits + [SPACE] + rest[space + 1..n - 1] + [NEWLINE];
    assert SpeltWith(piece, digits, r);
  }

  /** The body is the records' pieces in order, then zeros. */
  ghost predicate Spelling(body: Bytes, pieces: seq<Bytes>, padding: Bytes, records: seq<PaxRecord>) {
    && body == Tiling.Flatten(pieces) + padding && AllZero(padding)
    && |pieces| == |records|
    && forall i :: 0 <= i < |pieces| ==> Spells(pieces[i], records[i])
  }

  lemma PieceReads(piece: Bytes, r: PaxRecord, more: Bytes)
    requires Spells(piece, r)
    ensures piece != [] && !AllZero(piece + more) && ParseOne(piece + more) == Some((r, |piece|))
  {
    var digits :| SpeltWith(piece, digits, r);
    NoSpace(digits);
    NotZeros(piece + more, digits);
    OneReads(piece, digits, r, more);
  }

  lemma SpellingRest(body: Bytes, pieces: seq<Bytes>, padding: Bytes, records: seq<PaxRecord>) returns (more: Bytes)
    requires Spelling(body, pieces, padding, records) && pieces != []
    ensures body == pieces[0] + more && Spelling(more, pieces[1..], padding, records[1..])
    ensures Spells(pieces[0], records[0])
  {
    more := Tiling.Flatten(pieces[1..]) + padding;
    forall i | 0 <= i < |pieces| - 1 ensures Spells(pieces[1..][i], records[1..][i]) {
      assert Spells(pieces[i + 1], records[i + 1]);
    }
  }

  lemma PrependFirst(body: Bytes, piece: Bytes, more: Bytes, r: PaxRecord, records: seq<PaxRecord>)
    requires body == piece + more && !AllZero(body) && ParseOne(body) == Some((r, |piece|))
    requires ParseFrom(more) == Some(records)
    ensures ParseFrom(body) == Some([r] + records)
  {
    assert body[|piece|..] == more;
  }

  lemma {:induction false} SpellingReads(body: Bytes, pieces: seq<Bytes>, padding: Bytes, records: seq<PaxRecord>)
    requires Spelling(body, pieces, padding, records)
    ensures ParseFrom(body) == Some(records)
    decreases |pieces|
  {
    if pieces == [] {
      assert body == padding;
    } else {
      var more := SpellingRest(body, pieces, padding, records);
      PieceReads(pieces[0], records[0], more);
      SpellingReads(more, pieces[1..], padding, records[1..]);
      PrependFirst(body, pieces[0], more, records[0], records[1..]);
      assert records == [records[0]] + records[1..];
    }
  }

  lemma NotZeros(body: Bytes, digits: Bytes)
    requires ParseDecimal(digits).Some? && |body| > 0 && body[0] == digits[0]
    ensures !AllZero(body)
  {
    assert Text.IsDigit(Chars(digits)[0]);
  }

  lemma SpellingJoined(body: Bytes, n: nat, r: PaxRecord, later: seq<Bytes>, padding: Bytes, records: seq<PaxRecord>)
    requires n <= |body| && Spells(body[..n], r) && Spelling(body[n..], later, padding, records)
    ensures Spelling(body, [body[..n]] + later, padding, [r] + records)
  {
    assert ([body[..n]] + later)[1..] == later && body == body[..n] + body[n..];
  }

  lemma {:induction false} ReadIsSpelt(body: Bytes) returns (pieces: seq<Bytes>, padding: Bytes)
    requires ParseFrom(body).Some?
    ensures Spelling(body, pieces, padding, ParseFrom(body).value)
    decreases |body|
  {
    if AllZero(body) {
      pieces, padding := [], body;
    } else {
      var (r, n) := ParseOne(body).value;
      OneIsSpelt(body);
      var later;
      later, padding := ReadIsSpelt(body[n..]);
      pieces := [body[..n]] + later;
      SpellingJoined(body, n, r, later, padding, ParseFrom(body[n..]).value);
    }
  }

  /** A body reads as the records exactly when it is their pieces in order, each counting its own
      length, with nothing after them but zeros. */
  lemma ReadsExactly(body: Bytes, records: seq<PaxRecord>)
    ensures ParseFrom(body) == Some(records) <==> exists pieces, padding :: Spelling(body, pieces, padding, records)
  {
    if ParseFrom(body) == Some(records) {
      var pieces, padding := ReadIsSpelt(body);
      assert Spelling(body, pieces, padding, records);
    }
    forall pieces, padding | Spelling(body, pieces, padding, records) ensures ParseFrom(body) == Some(records) {
      SpellingReads(body, pieces, padding, records);
    }
  }

  // ----- a length that counts itself -----

  lemma {:induction false} PowAbove(d: nat)
    ensures Text.Pow10(d) > 2 * d
  {
    if d > 0 { PowAbove(d - 1); }
  }

  lemma {:induction false} DigitCount(n: nat, d: nat)
    requires d > 0 && n < Text.Pow10(d) && (d == 1 || n >= Text.Pow10(d - 1))
    ensures |Text.OfNat(n)| == d
  {
    if d == 1 {
      assert Text.Pow10(1) == 10 * Text.Pow10(0);
    } else {
      assert Text.Pow10(d) == 10 * Text.Pow10(d - 1) && Text.Pow10(d - 1) == 10 * Text.Pow10(d - 2);
      assert d == 2 ==> Text.Pow10(0) == 1;
      DigitCount(n / 10, d - 1);
    }
  }

  /** The least length of `d` digits or more that counts itself and `k` bytes besides. */
  function Counted(k: nat, d: nat): (n: nat)
    requires d > 0 && (d == 1 || k + d > Text.Pow10(d - 1))
    ensures |Text.OfNat(n)| + k == n
    decreases if d <= k then k - d + 1 else 0
  {
    if k + d < Text.Pow10(d) then
      DigitCount(k + d, d);
      k + d
    else
      PowAbove(d);
      Counted(k, d + 1)
  }

  /** A record's piece. */
  function Frame(r: PaxRecord): Bytes {
    Ascii(Text.OfNat(Counted(|r.key| + |r.value| + 3, 1))) + [SPACE] + Pair(r) + [NEWLINE]
  }

  lemma DecimalReads(n: nat)
    requires n <= 0xffff_ffff_ffff_ffff
    ensures ParseDecimal(Ascii(Text.OfNat(n))) == Some(n)
  {
    var s := Text.OfNat(n);
    forall i | 0 <= i < |s| ensures Chars(Ascii(s))[i] == s[i] { assert Text.IsDigit(s[i]); }
    assert Chars(Ascii(s)) == s;
  }

  /** Every record has a piece that counts itself, however long it is. */
  lemma FrameSpells(r: PaxRecord)
    requires Frameable(r) && |Frame(r)| <= 0xffff_ffff_ffff_ffff
    ensures Spells(Frame(r), r)
  {
    var n := Counted(|r.key| + |r.value| + 3, 1);
    var digits := Ascii(Text.OfNat(n));
    DecimalReads(n);
    assert SpeltWith(Frame(r), digits, r);
  }

  function Frames(records: seq<PaxRecord>): (pieces: seq<Bytes>)
    ensures |pieces| == |records|
  {
    seq(|records|, i requires 0 <= i < |records| => Frame(records[i]))
  }

  /** Records framed and padded are read back. */
  lemma FramesRead(records: seq<PaxRecord>, padding: Bytes)
    requires AllZero(padding)
    requires forall r <- records :: Frameable(r) && |Frame(r)| <= 0xffff_ffff_ffff_ffff
    ensures ParseFrom(Tiling.Flatten(Frames(records)) + padding) == Some(records)
  {
    var pieces := Frames(records);
    forall i | 0 <= i < |pieces| ensures Spells(pieces[i], records[i]) {
      assert records[i] in records;
      FrameSpells(records[i]);
    }
    SpellingReads(Tiling.Flatten(pieces) + padding, pieces, padding, records);
  }
}
