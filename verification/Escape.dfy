/** Rendering untrusted text for a reader: the terminal form, the JSON string literal, hexadecimal.
    Text is a sequence of Unicode scalar values. */
module Escape {
  import opened Wrappers
  import opened Words

  // ----- rendering piece by piece, and reading back -----

  function Concat<T>(s: seq<T>, render: T -> string): string {
    if s == [] then "" else render(s[0]) + Concat(s[1..], render)
  }

  lemma {:induction false} ConcatSnoc<T>(s: seq<T>, x: T, render: T -> string)
    ensures Concat(s + [x], render) == Concat(s, render) + render(x)
  {
    if s == [] {
      assert (s + [x])[1..] == [];
    } else {
      assert (s + [x])[1..] == s[1..] + [x];
      ConcatSnoc(s[1..], x, render);
    }
  }

  lemma ConcatStep<T>(s: seq<T>, i: nat, render: T -> string)
    requires i < |s|
    ensures Concat(s[..i + 1], render) == Concat(s[..i], render) + render(s[i])
  {
    assert s[..i + 1] == s[..i] + [s[i]];
    ConcatSnoc(s[..i], s[i], render);
  }

  ghost predicate All(t: string, p: char -> bool) {
    forall i :: 0 <= i < |t| ==> p(t[i])
  }

  lemma {:induction false} ConcatAll<T>(s: seq<T>, render: T -> string, p: char -> bool)
    requires forall x <- s :: All(render(x), p)
    ensures All(Concat(s, render), p)
  {
    if s != [] { ConcatAll(s[1..], render, p); }
  }

  /** One item off the front of a text, and how much of the text it took. */
  datatype Item<T> = Got(value: T, length: nat) | Bad

  /** Read items to the end of the text. */
  function ReadAll<T>(t: string, read: string -> Item<T>): Option<seq<T>> {
    if t == "" then Some([])
    else
      var x := read(t);
      if x.Bad? || x.length == 0 || x.length > |t| then None
      else Cons(x.value, ReadAll(t[x.length..], read))
  }

  /** Read items up to a closing `end`; the result holds what follows it too. */
  function ReadUntil<T>(t: string, end: char, read: string -> Item<T>): Option<(seq<T>, string)> {
    if t == "" then None
    else if t[0] == end then Some(([], t[1..]))
    else
      var x := read(t);
      if x.Bad? || x.length == 0 || x.length > |t| then None
      else
        var rest := ReadUntil(t[x.length..], end, read);
        if rest.None? then None else Some(([x.value] + rest.value.0, rest.value.1))
  }

  function Cons<T>(x: T, rest: Option<seq<T>>): Option<seq<T>> {
    if rest.None? then None else Some([x] + rest.value)
  }

  /** Whatever follows it, a rendered item is read as itself. */
  ghost predicate Reads<T(!new)>(render: T -> string, read: string -> Item<T>) {
    forall x: T, rest: string {:trigger render(x) + rest} ::
      render(x) != "" && read(render(x) + rest) == Got(x, |render(x)|)
  }

  lemma {:induction false} ReadConcat<T(!new)>(s: seq<T>, render: T -> string, read: string -> Item<T>)
    requires Reads(render, read)
    ensures ReadAll(Concat(s, render), read) == Some(s)
  {
    if s == [] {
    } else {
      var rest := Concat(s[1..], render);
      var t := render(s[0]) + rest;
      assert t[|render(s[0])|..] == rest && t != "";
      ReadConcat(s[1..], render, read);
      assert s == [s[0]] + s[1..];
    }
  }

  lemma {:induction false} ReadUntilConcat<T(!new)>(s: seq<T>, end: char, after: string, render: T -> string,
                                                   read: string -> Item<T>)
    requires Reads(render, read)
    requires forall x: T :: render(x) != "" ==> render(x)[0] != end
    ensures ReadUntil(Concat(s, render) + [end] + after, end, read) == Some((s, after))
  {
    if s == [] {
      assert ([end] + after)[1..] == after && "" + [end] + after == [end] + after;
    } else {
      var rest := Concat(s[1..], render) + [end] + after;
      var t := render(s[0]) + rest;
      assert Concat(s, render) + [end] + after == t;
      assert t[|render(s[0])|..] == rest && t[0] == render(s[0])[0];
      ReadUntilConcat(s[1..], end, after, render, read);
      assert s == [s[0]] + s[1..];
    }
  }

  // ----- hexadecimal digits -----

  function HexDigit(d: nat): char
    requires d < 16
  {
    if d < 10 then '0' + d as char else 'a' + (d - 10) as char
  }

  function HexValue(c: char): (v: Option<nat>)
    ensures v.Some? ==> v.value < 16
  {
    if '0' <= c <= '9' then Some(c as int - '0' as int)
    else if 'a' <= c <= 'f' then Some(c as int - 'a' as int + 10)
    else if 'A' <= c <= 'F' then Some(c as int - 'A' as int + 10)
    else None
  }

  predicate IsHex(c: char) {
    '0' <= c <= '9' || 'a' <= c <= 'f'
  }

  lemma HexDigitBack(d: nat)
    requires d < 16
    ensures HexValue(HexDigit(d)) == Some(d)
    ensures IsHex(HexDigit(d))
  {
  }

  function Hex2(n: nat): (s: string)
    requires n < 0x100
    ensures |s| == 2
  {
    [HexDigit(n / 16), HexDigit(n % 16)]
  }

  function Hex4(n: nat): (s: string)
    requires n < 0x1_0000
    ensures |s| == 4
  {
    Hex2(n / 0x100) + Hex2(n % 0x100)
  }

  function Unhex2(s: string): Option<nat>
    requires |s| == 2
  {
    var high, low := HexValue(s[0]), HexValue(s[1]);
    if high.None? || low.None? then None else Some(16 * high.value + low.value)
  }

  function Unhex4(s: string): Option<nat>
    requires |s| == 4
  {
    var high, low := Unhex2(s[..2]), Unhex2(s[2..]);
    if high.None? || low.None? then None else Some(0x100 * high.value + low.value)
  }

  lemma Hex2Back(n: nat)
    requires n < 0x100
    ensures Unhex2(Hex2(n)) == Some(n)
    ensures All(Hex2(n), IsHex)
  {
    HexDigitBack(n / 16);
    HexDigitBack(n % 16);
  }

  lemma Hex4Back(n: nat)
    requires n < 0x1_0000
    ensures Unhex4(Hex4(n)) == Some(n)
    ensures All(Hex4(n), IsHex)
  {
    Hex2Back(n / 0x100);
    Hex2Back(n % 0x100);
    assert Hex4(n)[..2] == Hex2(n / 0x100) && Hex4(n)[2..] == Hex2(n % 0x100);
  }

  /** The scalar value of a number, if it is one: surrogates are not. */
  function Scalar(n: nat): Option<char> {
    if n < 0xd800 || 0xe000 <= n < 0x11_0000 then Some(n as char) else None
  }

  // ----- the two classes a terminal acts on -----

  /** Category Cc: the C0 block, DEL and the C1 block. */
  predicate IsControl(c: char) {
    c <= '\U{001f}' || '\U{007f}' <= c <= '\U{009f}'
  }

  predicate IsDirectionControl(c: char) {
    || c == '\U{200e}' || c == '\U{200f}' || c == '\U{061c}'
    || '\U{202a}' <= c <= '\U{202e}'
    || '\U{2066}' <= c <= '\U{2069}'
  }

  /** A character a terminal does not act on. */
  predicate Inert(c: char) {
    !IsControl(c) && !IsDirectionControl(c)
  }

  // ----- the terminal form -----

  function PrintableChar(c: char): string {
    if c == '\\' then "\\\\"
    else if IsControl(c) then "\\x" + Hex2(c as int)
    else if IsDirectionControl(c) then "\\u{" + Hex4(c as int) + "}"
    else [c]
  }

  function PrintableSpec(s: string): string {
    Concat(s, (c: char) => PrintableChar(c))
  }

  method Printable(s: string) returns (out: string)
    ensures out == PrintableSpec(s)
  {
    out := "";
    var i := 0;
    while i < |s|
      invariant 0 <= i <= |s|
      invariant out == PrintableSpec(s[..i])
    {
      ConcatStep(s, i, (x: char) => PrintableChar(x));
      var c := s[i];
      if c == '\\' {
        out := out + "\\\\";
      } else if IsControl(c) {
        out := out + "\\x" + Hex2(c as int);
      } else if IsDirectionControl(c) {
        out := out + "\\u{" + Hex4(c as int) + "}";
      } else {
        out := out + [c];
      }
      i := i + 1;
    }
    assert s[..i] == s;
  }

  /** One character of the terminal form read back: an escape, or the character itself. */
  function UnprintChar(t: string): Item<char> {
    if t == "" then Bad
    else if t[0] != '\\' then Got(t[0], 1)
    else if |t| >= 2 && t[1] == '\\' then Got('\\', 2)
    else if |t| >= 4 && t[1] == 'x' then
      var n := Unhex2(t[2..4]);
      if n.None? then Bad else Named(n.value, 4)
    else if |t| >= 8 && t[1] == 'u' && t[2] == '{' && t[7] == '}' then
      var n := Unhex4(t[3..7]);
      if n.None? then Bad else Named(n.value, 8)
    else Bad
  }

  function Named(n: nat, length: nat): Item<char> {
    if Scalar(n).None? then Bad else Got(Scalar(n).value, length)
  }

  function Unprint(t: string): Option<string> {
    ReadAll(t, (rest: string) => UnprintChar(rest))
  }

  lemma UnprintOne(c: char, rest: string)
    ensures PrintableChar(c) != "" && UnprintChar(PrintableChar(c) + rest) == Got(c, |PrintableChar(c)|)
  {
    var t := PrintableChar(c) + rest;
    if c == '\\' {
    } else if IsControl(c) {
      Hex2Back(c as int);
      assert t[2..4] == Hex2(c as int);
    } else if IsDirectionControl(c) {
      Hex4Back(c as int);
      assert t[3..7] == Hex4(c as int);
    }
  }

  /** The terminal form loses nothing: every escape names exactly one character of the input. */
  lemma UnprintPrintable(s: string)
    ensures Unprint(PrintableSpec(s)) == Some(s)
  {
    var render, read := (c: char) => PrintableChar(c), (t: string) => UnprintChar(t);
    forall c: char, rest: string
      ensures render(c) != "" && read(render(c) + rest) == Got(c, |render(c)|)
    {
      UnprintOne(c, rest);
    }
    ReadConcat(s, render, read);
  }

  lemma PrintableInjective(s: string, t: string)
    requires PrintableSpec(s) == PrintableSpec(t)
    ensures s == t
  {
    UnprintPrintable(s);
    UnprintPrintable(t);
  }

  lemma HexInert(s: string)
    requires All(s, IsHex)
    ensures All(s, Inert)
  {
  }

  lemma AllConcat(a: string, b: string, p: char -> bool)
    requires All(a, p) && All(b, p)
    ensures All(a + b, p)
  {
  }

  lemma PrintableCharInert(c: char)
    ensures All(PrintableChar(c), Inert)
  {
    if c != '\\' && IsControl(c) {
      Hex2Back(c as int);
      HexInert(Hex2(c as int));
      AllConcat("\\x", Hex2(c as int), Inert);
    } else if c != '\\' && IsDirectionControl(c) {
      Hex4Back(c as int);
      HexInert(Hex4(c as int));
      AllConcat("\\u{", Hex4(c as int), Inert);
      AllConcat("\\u{" + Hex4(c as int), "}", Inert);
    }
  }

  /** Nothing in the terminal form is acted on by a terminal. */
  lemma PrintableInert(s: string)
    ensures All(PrintableSpec(s), Inert)
  {
    forall c <- s ensures All(PrintableChar(c), Inert) { PrintableCharInert(c); }
    ConcatAll(s, (c: char) => PrintableChar(c), Inert);
  }

  /** A character that stands for itself in the terminal form. */
  predicate PlainChar(c: char) {
    Inert(c) && c != '\\'
  }

  /** Text passes through unchanged exactly when it holds no backslash and nothing a terminal acts on. */
  lemma {:induction false} PrintablePassesThrough(s: string)
    ensures |PrintableSpec(s)| >= |s|
    ensures All(s, PlainChar) <==> PrintableSpec(s) == s
    ensures !All(s, PlainChar) ==> |PrintableSpec(s)| > |s|
  {
    if s == [] {
    } else {
      PrintablePassesThrough(s[1..]);
      assert All(s, PlainChar) <==> PlainChar(s[0]) && All(s[1..], PlainChar);
      assert PrintableSpec(s) == PrintableChar(s[0]) + PrintableSpec(s[1..]);
      assert !PlainChar(s[0]) ==> |PrintableChar(s[0])| > 1;
      assert s == [s[0]] + s[1..];
    }
  }

  // ----- the JSON string literal -----

  function JsonChar(c: char): string {
    if c == '"' then "\\\""
    else if c == '\\' then "\\\\"
    else if c == '\n' then "\\n"
    else if c == '\r' then "\\r"
    else if c == '\t' then "\\t"
    else if IsControl(c) || IsDirectionControl(c) then "\\u" + Hex4(c as int)
    else [c]
  }

  /** A character written as a `\u` escape. */
  predicate JsonEscaped(c: char) {
    c !in "\"\\\n\r\t" && (IsControl(c) || IsDirectionControl(c))
  }

  function JsonSpec(s: string): string {
    "\"" + Concat(s, (c: char) => JsonChar(c)) + "\""
  }

  const SCALES := [0x1000, 0x100, 0x10, 1]

  lemma Nibbles(n: nat)
    requires n < 0x1_0000
    ensures n / 0x1000 % 16 == n / 0x100 / 16
    ensures n / 0x100 % 16 == n / 0x100 % 16
    ensures n / 0x10 % 16 == n % 0x100 / 16
    ensures n / 1 % 16 == n % 0x100 % 16
  {
    var top, byte := n / 0x100, n % 0x100;
    var low := byte / 16;
    assert n / 0x10 == 16 * top + low;
    assert n == 16 * (16 * top + low) + byte % 16;
  }

  lemma Hex4At(n: nat, i: nat)
    requires n < 0x1_0000 && i < 4
    ensures HexDigit(n / SCALES[i] % 16) == Hex4(n)[i]
  {
    Nibbles(n);
    assert Hex4(n)[i] == if i < 2 then Hex2(n / 0x100)[i] else Hex2(n % 0x100)[i - 2];
  }

  /** Append the escape of a character below U+10000, a nibble at a time from the top. */
  method PushJsonEscape(before: string, c: char) returns (out: string)
    requires c as int < 0x1_0000
    ensures out == before + "\\u" + Hex4(c as int)
  {
    ghost var digits := Hex4(c as int);
    var point := c as int;
    out := before + "\\u";
    var i := 0;
    while i < 4
      invariant 0 <= i <= 4
      invariant out == before + "\\u" + digits[..i]
    {
      Hex4At(point, i);
      var nibble := point / SCALES[i] % 16;
      out := out + [HexDigit(nibble)];
      i := i + 1;
    }
  }

  /** The loop body of `PushJsonString`: one character appended. */
  method PushJsonChar(before: string, c: char) returns (out: string)
    ensures out == before + JsonChar(c)
  {
    match c {
      case '"' => out := before + "\\\"";
      case '\\' => out := before + "\\\\";
      case '\n' => out := before + "\\n";
      case '\r' => out := before + "\\r";
      case '\t' => out := before + "\\t";
      case _ =>
        if IsControl(c) || IsDirectionControl(c) {
          out := PushJsonEscape(before, c);
          assert before + "\\u" + Hex4(c as int) == before + ("\\u" + Hex4(c as int));
        } else {
          out := before + [c];
        }
    }
  }

  /** Append a text as a JSON string literal. */
  method PushJsonString(before: string, s: string) returns (out: string)
    ensures out == before + JsonSpec(s)
  {
    ghost var render := (c: char) => JsonChar(c);
    out := before + "\"";
    var i := 0;
    while i < |s|
      invariant 0 <= i <= |s|
      invariant out == before + ("\"" + Concat(s[..i], render))
    {
      ConcatStep(s, i, render);
      out := PushJsonChar(out, s[i]);
      i := i + 1;
    }
    assert s[..i] == s;
    out := out + "\"";
  }

  /** One character of a string by the grammar of section 7 of RFC 8259. */
  function UnjsonChar(t: string): Item<char> {
    if t == "" || t[0] < ' ' || t[0] == '"' then Bad
    else if t[0] != '\\' then Got(t[0], 1)
    else if |t| < 2 then Bad
    else
      match t[1]
      case '"' => Got('"', 2)
      case '\\' => Got('\\', 2)
      case '/' => Got('/', 2)
      case 'b' => Got('\U{0008}', 2)
      case 'f' => Got('\U{000c}', 2)
      case 'n' => Got('\n', 2)
      case 'r' => Got('\r', 2)
      case 't' => Got('\t', 2)
      case 'u' => UnjsonPoint(t)
      case _ => Bad
  }

  /** A `\u` escape: four digits of a scalar value, or two escapes of a surrogate pair. */
  function UnjsonPoint(t: string): Item<char> {
    if |t| < 6 || Unhex4(t[2..6]).None? then Bad
    else
      var n := Unhex4(t[2..6]).value;
      if !(0xd800 <= n < 0xdc00) then Named(n, 6)
      else if |t| < 12 || t[6] != '\\' || t[7] != 'u' || Unhex4(t[8..12]).None? then Bad
      else
        var low := Unhex4(t[8..12]).value;
        if 0xdc00 <= low < 0xe000 then Named(0x1_0000 + (n - 0xd800) * 0x400 + (low - 0xdc00), 12) else Bad
  }

  /** A whole text read as one JSON string. */
  function Unjson(t: string): Option<string> {
    if t == "" || t[0] != '"' then None
    else
      var r := ReadUntil(t[1..], '"', (rest: string) => UnjsonChar(rest));
      if r.None? || r.value.1 != "" then None else Some(r.value.0)
  }

  lemma UnjsonOne(c: char, rest: string)
    ensures JsonChar(c) != "" && JsonChar(c)[0] != '"'
    ensures UnjsonChar(JsonChar(c) + rest) == Got(c, |JsonChar(c)|)
  {
    var t := JsonChar(c) + rest;
    if JsonEscaped(c) {
      Hex4Back(c as int);
      assert t[2..6] == Hex4(c as int);
    }
  }

  /** A parser of the grammar reads back the text the literal was written for. */
  lemma UnjsonJson(s: string)
    ensures Unjson(JsonSpec(s)) == Some(s)
  {
    var render, read := (c: char) => JsonChar(c), (t: string) => UnjsonChar(t);
    forall c: char, rest: string
      ensures render(c) != "" && render(c)[0] != '"' && read(render(c) + rest) == Got(c, |render(c)|)
    {
      UnjsonOne(c, rest);
    }
    ReadUntilConcat(s, '"', "", render, read);
    assert JsonSpec(s)[1..] == Concat(s, render) + ['"'] + "";
  }

  lemma JsonCharInert(c: char)
    ensures All(JsonChar(c), Inert)
  {
    if JsonEscaped(c) {
      Hex4Back(c as int);
      HexInert(Hex4(c as int));
      AllConcat("\\u", Hex4(c as int), Inert);
    }
  }

  /** The literal is as inert as the terminal form. */
  lemma JsonInert(s: string)
    ensures All(JsonSpec(s), Inert)
  {
    forall c <- s ensures All(JsonChar(c), Inert) { JsonCharInert(c); }
    ConcatAll(s, (c: char) => JsonChar(c), Inert);
  }

  // ----- hexadecimal -----

  function HexSpec(bytes: seq<u8>): string {
    Concat(bytes, (b: u8) => Hex2(b))
  }

  method Hex(bytes: seq<u8>) returns (out: string)
    ensures out == HexSpec(bytes)
  {
    out := "";
    var i := 0;
    while i < |bytes|
      invariant 0 <= i <= |bytes|
      invariant out == HexSpec(bytes[..i])
    {
      ConcatStep(bytes, i, (b: u8) => Hex2(b));
      out := out + [HexDigit(bytes[i] / 16)];
      out := out + [HexDigit(bytes[i] % 16)];
      i := i + 1;
    }
    assert bytes[..i] == bytes;
  }

  function UnhexByte(t: string): Item<u8> {
    if |t| < 2 || Unhex2(t[..2]).None? then Bad else Got(Unhex2(t[..2]).value, 2)
  }

  /** Hexadecimal states the bytes exactly. */
  lemma UnhexHex(bytes: seq<u8>)
    ensures ReadAll(HexSpec(bytes), (t: string) => UnhexByte(t)) == Some(bytes)
  {
    var render, read := (b: u8) => Hex2(b), (t: string) => UnhexByte(t);
    forall b: u8, rest: string
      ensures render(b) != "" && read(render(b) + rest) == Got(b, |render(b)|)
    {
      Hex2Back(b);
      assert (Hex2(b) + rest)[..2] == Hex2(b);
    }
    ReadConcat(bytes, render, read);
  }
}
