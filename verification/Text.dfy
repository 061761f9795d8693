/** Text as sequences of Unicode scalar values: splitting, trimming, and decimal numbers, as the
    Rust standard library does them. */
module Text {
  import opened Wrappers

  // ----- splitting and trimming -----

  /** The pieces between separators; there is always one more piece than separators. */
  function Split(s: string, sep: char -> bool): (pieces: seq<string>)
    ensures |pieces| > 0
  {
    if s == [] then [[]]
    else
      var rest := Split(s[1..], sep);
      if sep(s[0]) then [[]] + rest else [[s[0]] + rest[0]] + rest[1..]
  }

  ghost predicate Free(s: string, sep: char -> bool) {
    forall i :: 0 <= i < |s| ==> !sep(s[i])
  }

  lemma {:induction false} SplitNone(s: string, sep: char -> bool)
    requires Free(s, sep)
    ensures Split(s, sep) == [s]
  {
    if s != [] {
      SplitNone(s[1..], sep);
      assert [s[0]] + s[1..] == s;
    }
  }

  lemma {:induction false} SplitAt(a: string, c: char, b: string, sep: char -> bool)
    requires Free(a, sep) && sep(c)
    ensures Split(a + [c] + b, sep) == [a] + Split(b, sep)
  {
    var s := a + [c] + b;
    if a == [] {
      assert s[1..] == b;
    } else {
      assert s[1..] == a[1..] + [c] + b;
      SplitAt(a[1..], c, b, sep);
      assert [a[0]] + a[1..] == a;
    }
  }

  /** The Unicode White_Space property. */
  predicate IsWhitespace(c: char) {
    || '\U{0009}' <= c <= '\U{000d}' || c == ' ' || c == '\U{0085}' || c == '\U{00a0}' || c == '\U{1680}'
    || '\U{2000}' <= c <= '\U{200a}' || c == '\U{2028}' || c == '\U{2029}' || c == '\U{202f}'
    || c == '\U{205f}' || c == '\U{3000}'
  }

  function TrimStart(s: string): string {
    if s != [] && IsWhitespace(s[0]) then TrimStart(s[1..]) else s
  }

  function TrimEnd(s: string): string {
    if s != [] && IsWhitespace(s[|s| - 1]) then TrimEnd(s[..|s| - 1]) else s
  }

  function Trim(s: string): string {
    TrimEnd(TrimStart(s))
  }

  /** The text before and after the first `c`, or all of it and nothing. */
  function SplitOnce(s: string, c: char): (r: (string, string))
    ensures c !in r.0
    ensures s == r.0 || s == r.0 + [c] + r.1
  {
    if s == [] then ([], [])
    else if s[0] == c then ([], s[1..])
    else
      var (a, b) := SplitOnce(s[1..], c);
      ([s[0]] + a, b)
  }

  lemma {:induction false} SplitOnceAt(a: string, c: char, b: string)
    requires c !in a
    ensures SplitOnce(a + [c] + b, c) == (a, b)
    ensures SplitOnce(a, c) == (a, [])
  {
    var s := a + [c] + b;
    if a == [] {
      assert s[1..] == b;
    } else {
      assert s[1..] == a[1..] + [c] + b;
      SplitOnceAt(a[1..], c, b);
      assert [a[0]] + a[1..] == a;
    }
  }

  // ----- decimal numbers -----

  predicate IsDigit(c: char) { '0' <= c <= '9' }

  predicate AllDigits(s: string) {
    forall i :: 0 <= i < |s| ==> IsDigit(s[i])
  }

  function DigitValue(c: char): (d: nat)
    requires IsDigit(c)
    ensures d < 10
  {
    c as int - '0' as int
  }

  function DigitChar(d: nat): (c: char)
    requires d < 10
    ensures IsDigit(c) && DigitValue(c) == d
  {
    '0' + d as char
  }

  function Pow10(n: nat): (p: nat)
    ensures p > 0
  {
    if n == 0 then 1 else 10 * Pow10(n - 1)
  }

  function ToNat(s: string): nat
    requires AllDigits(s)
  {
    if s == [] then 0 else 10 * ToNat(s[..|s| - 1]) + DigitValue(s[|s| - 1])
  }

  lemma ToNatSnoc(s: string, c: char)
    requires AllDigits(s) && IsDigit(c)
    ensures AllDigits(s + [c]) && ToNat(s + [c]) == 10 * ToNat(s) + DigitValue(c)
  {
    assert (s + [c])[..|s|] == s;
  }

  lemma {:induction false} ToNatBound(s: string)
    requires AllDigits(s)
    ensures ToNat(s) < Pow10(|s|)
  {
    if s != [] { ToNatBound(s[..|s| - 1]); }
  }

  lemma Tenfold(n: nat, p: nat)
    ensures n * (10 * p) == 10 * (n * p)
  {
  }

  lemma {:induction false} ToNatConcat(a: string, b: string)
    requires AllDigits(a) && AllDigits(b)
    ensures AllDigits(a + b) && ToNat(a + b) == ToNat(a) * Pow10(|b|) + ToNat(b)
  {
    if b == [] {
      assert a + b == a;
    } else {
      var init, last := b[..|b| - 1], b[|b| - 1];
      ToNatConcat(a, init);
      ToNatSnoc(a + init, last);
      assert a + b == a + init + [last];
      Tenfold(ToNat(a), Pow10(|init|));
    }
  }

  /** A number in decimal, without leading zeros. */
  function OfNat(n: nat): (s: string)
    ensures AllDigits(s) && s != [] && ToNat(s) == n
  {
    if n < 10 then
      assert [DigitChar(n)][..0] == [];
      [DigitChar(n)]
    else
      ToNatSnoc(OfNat(n / 10), DigitChar(n % 10));
      OfNat(n / 10) + [DigitChar(n % 10)]
  }

  /** A number in decimal, with leading zeros to `width` digits. */
  function Padded(n: nat, width: nat): (s: string)
    requires n < Pow10(width)
    ensures AllDigits(s) && |s| == width && ToNat(s) == n
  {
    if width == 0 then []
    else
      ToNatSnoc(Padded(n / 10, width - 1), DigitChar(n % 10));
      Padded(n / 10, width - 1) + [DigitChar(n % 10)]
  }

  function OfInt(n: int): string {
    if n < 0 then "-" + OfNat(-n) else OfNat(n)
  }

  /** Parse an unsigned integer no more than `max`: a `+` is allowed, and nothing but digits besides. */
  function ParseUnsigned(s: string, max: nat): Option<nat> {
    var digits := if s != [] && s[0] == '+' then s[1..] else s;
    if digits == [] || !AllDigits(digits) || ToNat(digits) > max then None else Some(ToNat(digits))
  }

  /** Parse a signed integer between `min` and `max`: one sign is allowed. */
  function ParseSigned(s: string, min: int, max: int): Option<int> {
    var signed := s != [] && (s[0] == '+' || s[0] == '-');
    var digits := if signed then s[1..] else s;
    if digits == [] || !AllDigits(digits) then None
    else
      var n: int := if signed && s[0] == '-' then -(ToNat(digits) as int) else ToNat(digits);
      if min <= n <= max then Some(n) else None
  }

  lemma ParseOfNat(n: nat, max: nat)
    requires n <= max
    ensures ParseUnsigned(OfNat(n), max) == Some(n)
  {
    assert IsDigit(OfNat(n)[0]);
  }

  lemma ParseOfInt(n: int, min: int, max: int)
    requires min <= n <= max
    ensures ParseSigned(OfInt(n), min, max) == Some(n)
  {
    if n < 0 {
      assert OfInt(n)[1..] == OfNat(-n) && OfInt(n)[0] == '-';
    } else {
      assert IsDigit(OfNat(n)[0]);
    }
  }
}
