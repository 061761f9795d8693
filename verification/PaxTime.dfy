/** PAX time records: exact decimal seconds, read and written. */
module PaxTime {
  import opened Wrappers
  import opened Text

  const I64_MIN: int := -0x8000_0000_0000_0000
  const I64_MAX: int := 0x7fff_ffff_ffff_ffff
  const NANOS_PER_SEC := 1_000_000_000

  /** Seconds since the epoch, floored, and the nanoseconds past them. */
  datatype Timestamp = Timestamp(secs: int, nanos: nat) {
    predicate Stored() {
      I64_MIN <= secs <= I64_MAX && nanos < 0x1_0000_0000
    }

    /** The instant both fields name, in nanoseconds. */
    function Instant(): int {
      secs * NANOS_PER_SEC + nanos
    }
  }

  datatype TimeError = BadSeconds | BadFraction

  /** Up to nine digits, right-padded to nanoseconds. */
  function FractionNanos(frac: string): (nanos: nat)
    requires AllDigits(frac)
    ensures nanos < NANOS_PER_SEC
  {
    var digits := if |frac| <= 9 then frac else frac[..9];
    PadBound(digits);
    ToNat(digits) * Pow10(9 - |digits|)
  }

  predicate Negative(text: string) {
    text != [] && text[0] == '-'
  }

  /** Whole seconds and a fraction below them, as floored seconds: a negative time with a fraction
      borrows a second, where there is one to borrow. */
  function Combine(secs: int, negative: bool, nanos: nat): Result<Timestamp, TimeError>
    requires nanos < NANOS_PER_SEC
  {
    if nanos != 0 && (secs < 0 || negative) then
      if secs == I64_MIN then Err(BadSeconds) else Ok(Timestamp(secs - 1, NANOS_PER_SEC - nanos))
    else Ok(Timestamp(secs, nanos))
  }

  function ParseTime(text: string): Result<Timestamp, TimeError> {
    var (secsText, frac) := SplitOnce(text, '.');
    var secs := ParseSigned(secsText, I64_MIN, I64_MAX);
    if secs.None? then Err(BadSeconds)
    else if !AllDigits(frac) then Err(BadFraction)
    else Combine(secs.value, Negative(secsText), FractionNanos(frac))
  }

  /** The parse as the source runs it: seconds and nanoseconds held in variables, and the borrow last. */
  method ParsePaxTime(text: string) returns (r: Result<Timestamp, TimeError>)
    ensures r == ParseTime(text)
  {
    var (secsText, frac) := SplitOnce(text, '.');
    var parsed := ParseSigned(secsText, I64_MIN, I64_MAX);
    if parsed.None? { return Err(BadSeconds); }
    var secs, nanos := parsed.value, 0;
    if frac != [] {
      if !AllDigits(frac) { return Err(BadFraction); }
      var digits := frac[..if |frac| <= 9 then |frac| else 9];
      nanos := ToNat(digits) * Pow10(9 - |digits|);
      assert nanos == FractionNanos(frac) by { assert |frac| <= 9 ==> digits == frac; }
    } else {
      assert FractionNanos(frac) == 0;
    }
    if nanos != 0 && (secs < 0 || Negative(secsText)) {
      if secs == I64_MIN { return Err(BadSeconds); }
      secs := secs - 1;
      nanos := NANOS_PER_SEC - nanos;
    }
    return Ok(Timestamp(secs, nanos));
  }

  // ----- what the text means -----

  lemma Powers()
    ensures Pow10(9) == NANOS_PER_SEC
  {
    assert Pow10(3) == 1000;
    assert Pow10(6) == 1_000_000;
  }

  lemma {:induction false} PowSum(m: nat, n: nat)
    ensures Pow10(m + n) == Pow10(m) * Pow10(n)
  {
    if m > 0 {
      PowSum(m - 1, n);
      assert (10 * Pow10(m - 1)) * Pow10(n) == 10 * (Pow10(m - 1) * Pow10(n));
    }
  }

  lemma PadBound(digits: string)
    requires AllDigits(digits) && |digits| <= 9
    ensures ToNat(digits) * Pow10(9 - |digits|) < NANOS_PER_SEC
  {
    var k := 9 - |digits|;
    ToNatBound(digits);
    PowSum(|digits|, k);
    Powers();
    MulLess(ToNat(digits), Pow10(|digits|), Pow10(k));
  }

  lemma MulLess(a: nat, b: nat, k: nat)
    requires a < b && k > 0
    ensures a * k < b * k
  {
  }

  function Quotient(n: nat, d: nat): nat
    requires d > 0
  {
    n / d
  }

  /** The digits after the point, as whole nanoseconds with the rest cut off. */
  ghost function Truncated(frac: string): nat
    requires AllDigits(frac)
  {
    Quotient(ToNat(frac) * NANOS_PER_SEC, Pow10(|frac|))
  }

  lemma Distribute(k: nat, q: nat, rest: nat, p: nat)
    ensures (k * q + rest) * p == k * (q * p) + rest * p
  {
  }

  lemma DivideOut(k: nat, p: nat, q: nat, rest: nat)
    requires p > 0 && q > 0 && rest < q
    ensures q * p > 0 && Quotient((k * q + rest) * p, q * p) == k
  {
    Distribute(k, q, rest, p);
    Distribute(1, rest, q - rest, p);
    assert (q - rest) * p > 0;
    DivUnique((k * q + rest) * p, q * p, k, rest * p);
  }

  lemma DivUnique(n: nat, d: nat, k: nat, r: nat)
    requires d > 0 && n == k * d + r && r < d
    ensures Quotient(n, d) == k
  {
    var e := n / d - k;
    assert n == d * (n / d) + n % d;
    assert e * d == r - n % d;
    MulAway(e, d);
  }

  lemma MulAway(e: int, d: nat)
    ensures e > 0 ==> e * d >= d
    ensures e < 0 ==> e * d <= -(d as int)
  {
  }

  /** The padded digits are the fraction itself, truncated to nanoseconds. */
  lemma FractionIs(frac: string)
    requires AllDigits(frac)
    ensures FractionNanos(frac) == Truncated(frac)
  {
    if |frac| <= 9 { ShortFraction(frac); } else { LongFraction(frac); }
  }

  lemma ShortFraction(frac: string)
    requires AllDigits(frac) && |frac| <= 9
    ensures ToNat(frac) * Pow10(9 - |frac|) == Truncated(frac)
  {
    var n, p, q := ToNat(frac), Pow10(|frac|), Pow10(9 - |frac|);
    PowSum(|frac|, 9 - |frac|);
    Powers();
    assert n * (p * q) == (n * q) * p;
    DivUnique(n * NANOS_PER_SEC, p, n * q, 0);
  }

  lemma LongFraction(frac: string)
    requires AllDigits(frac) && |frac| > 9
    ensures ToNat(frac[..9]) * Pow10(0) == Truncated(frac)
  {
    var first, rest := frac[..9], frac[9..];
    assert frac == first + rest;
    ToNatConcat(first, rest);
    ToNatBound(rest);
    PowSum(|rest|, 9);
    Powers();
    DivideOut(ToNat(first), NANOS_PER_SEC, Pow10(|rest|), ToNat(rest));
  }

  /** The signed decimal a text spells, in whole nanoseconds, cut off toward zero. */
  ghost function Decimal(text: string): int
    requires ParseTime(text).Ok?
  {
    var (secsText, frac) := SplitOnce(text, '.');
    var secs := ParseSigned(secsText, I64_MIN, I64_MAX).value;
    var whole := if secs < 0 then -secs else secs;
    var magnitude := whole * NANOS_PER_SEC + Truncated(frac);
    if Negative(secsText) then -magnitude else magnitude
  }

  lemma SecondsSign(text: string)
    requires ParseSigned(text, I64_MIN, I64_MAX).Some?
    ensures var secs := ParseSigned(text, I64_MIN, I64_MAX).value;
            I64_MIN <= secs <= I64_MAX && (if Negative(text) then secs <= 0 else secs >= 0)
  {
  }

  /** A text read as a time names exactly the decimal it spells, `-0.x` included, and its
      nanoseconds are within a second. */
  lemma ParseIsExact(text: string)
    requires ParseTime(text).Ok?
    ensures var t := ParseTime(text).value;
            t.Stored() && 0 <= t.nanos < NANOS_PER_SEC && t.Instant() == Decimal(text)
  {
    var (secsText, frac) := SplitOnce(text, '.');
    SecondsSign(secsText);
    FractionIs(frac);
    CombineIsExact(ParseSigned(secsText, I64_MIN, I64_MAX).value, Negative(secsText), FractionNanos(frac));
  }

  lemma CombineIsExact(secs: int, negative: bool, nanos: nat)
    requires I64_MIN <= secs <= I64_MAX && nanos < NANOS_PER_SEC && Combine(secs, negative, nanos).Ok?
    requires if negative then secs <= 0 else secs >= 0
    ensures var t := Combine(secs, negative, nanos).value;
            var magnitude := (if secs < 0 then -secs else secs) * NANOS_PER_SEC + nanos;
            t.Stored() && t.nanos < NANOS_PER_SEC && t.Instant() == if negative then -magnitude else magnitude
  {
  }

  /** A decimal whose whole part is an `i64` and whose fraction is digits is refused only when
      flooring it would need a second below the least. */
  lemma RefusedOnlyBelowLeast(text: string)
    requires var (secsText, frac) := SplitOnce(text, '.');
             ParseSigned(secsText, I64_MIN, I64_MAX).Some? && AllDigits(frac)
    ensures var (secsText, frac) := SplitOnce(text, '.');
            ParseTime(text).Err? <==>
              ParseSigned(secsText, I64_MIN, I64_MAX) == Some(I64_MIN) && Truncated(frac) != 0
    ensures ParseTime(text).Err? ==> ParseTime(text).error == BadSeconds
  {
    FractionIs(SplitOnce(text, '.').1);
  }

  // ----- the writer -----

  /** `t` with its fraction carried into the seconds, which saturate. */
  function Normalize(t: Timestamp): Timestamp {
    var secs := t.secs + t.nanos / NANOS_PER_SEC;
    Timestamp(if secs > I64_MAX then I64_MAX else secs, t.nanos % NANOS_PER_SEC)
  }

  function PrintTime(t: Timestamp): string {
    var t := Normalize(t);
    Powers();
    if t.nanos == 0 then OfInt(t.secs)
    else if t.secs < 0 then
      var whole, frac := t.secs + 1, NANOS_PER_SEC - t.nanos;
      (if whole == 0 then "-0" else OfInt(whole)) + "." + Padded(frac, 9)
    else OfInt(t.secs) + "." + Padded(t.nanos, 9)
  }

  /** No number's digits hold a point. */
  lemma OfIntHasNoPoint(n: int)
    ensures '.' !in OfInt(n)
    ensures Negative(OfInt(n)) <==> n < 0
  {
    var digits := OfNat(if n < 0 then -n else n);
    forall i | 0 <= i < |digits| ensures digits[i] != '.' && digits[i] != '-' { assert IsDigit(digits[i]); }
  }

  lemma PaddedNanos(nanos: nat)
    requires nanos < NANOS_PER_SEC
    ensures nanos < Pow10(9) && FractionNanos(Padded(nanos, 9)) == nanos
  {
    Powers();
    assert Pow10(0) == 1;
  }

  lemma ParsePoint(secsText: string, frac: string)
    requires '.' !in secsText
    ensures SplitOnce(secsText + "." + frac, '.') == (secsText, frac)
    ensures SplitOnce(secsText, '.') == (secsText, [])
  {
    SplitOnceAt(secsText, '.', frac);
  }

  /** What is written reads back as the time written, its fraction carried. */
  lemma ParsePrint(t: Timestamp)
    requires t.Stored()
    ensures ParseTime(PrintTime(t)) == Ok(Normalize(t))
  {
    var n := Normalize(t);
    Powers();
    if n.nanos == 0 {
      ReadSeconds(n.secs);
    } else if n.secs < 0 {
      ReadParts(n.secs + 1, n.secs == -1, NANOS_PER_SEC - n.nanos);
    } else {
      ReadParts(n.secs, false, n.nanos);
    }
  }

  lemma ReadSeconds(secs: int)
    requires I64_MIN <= secs <= I64_MAX
    ensures ParseTime(OfInt(secs)) == Ok(Timestamp(secs, 0))
  {
    OfIntHasNoPoint(secs);
    ParsePoint(OfInt(secs), []);
    ParseOfInt(secs, I64_MIN, I64_MAX);
    assert FractionNanos([]) == 0;
  }

  /** Seconds and nanoseconds written as a decimal read back as those seconds and nanoseconds. */
  lemma ReadParts(secs: int, minusZero: bool, nanos: nat)
    requires I64_MIN <= secs <= I64_MAX && nanos < NANOS_PER_SEC && (minusZero ==> secs == 0)
    ensures nanos < Pow10(9)
    ensures ParseTime((if minusZero then "-0" else OfInt(secs)) + "." + Padded(nanos, 9))
         == Combine(secs, minusZero || secs < 0, nanos)
  {
    var secsText := if minusZero then "-0" else OfInt(secs);
    OfIntHasNoPoint(secs);
    MinusZero();
    ParsePoint(secsText, Padded(nanos, 9));
    ParseOfInt(secs, I64_MIN, I64_MAX);
    PaddedNanos(nanos);
  }

  lemma MinusZero()
    ensures ParseSigned("-0", I64_MIN, I64_MAX) == Some(0) && '.' !in "-0" && Negative("-0")
  {
    var digits := "-0"[1..];
    assert digits == "0" && digits[..0] == [];
  }

  /** The record names the instant the two fields do exactly when carrying the fraction does not
      pass the greatest second. */
  lemma PrintedInstant(t: Timestamp)
    requires t.Stored()
    ensures ParseTime(PrintTime(t)).Ok?
    ensures ParseTime(PrintTime(t)).value.Instant() == t.Instant()
       <==> t.secs + t.nanos / NANOS_PER_SEC <= I64_MAX
  {
    ParsePrint(t);
  }
}
