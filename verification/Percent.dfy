/** The percent-encoding of attribute names in archive records. */
module Percent {
  import opened Wrappers
  import opened Words
  import opened Escape

  type Bytes = seq<u8>

  const PERCENT: u8 := 0x25

  function HexByte(b: u8): (v: Option<nat>)
    ensures v.Some? ==> v.value < 16
  {
    HexValue(b as char)
  }

  /** An escape stands at `i`: a `%` and two hexadecimal digits, all within the name. */
  predicate EscapeAt(name: Bytes, i: nat) {
    i + 2 < |name| && name[i] == PERCENT && HexByte(name[i + 1]).Some? && HexByte(name[i + 2]).Some?
  }

  function Decoded(name: Bytes, i: nat): u8
    requires EscapeAt(name, i)
  {
    16 * HexByte(name[i + 1]).value + HexByte(name[i + 2]).value
  }

  /** The name from `i` on, decoded; a `%` that starts no escape stands for itself. */
  function DecodeFrom(name: Bytes, i: nat): Bytes
    requires i <= |name|
    decreases |name| - i
  {
    if i == |name| then []
    else if EscapeAt(name, i) then [Decoded(name, i)] + DecodeFrom(name, i + 3)
    else [name[i]] + DecodeFrom(name, i + 1)
  }

  method PercentDecode(name: Bytes) returns (out: Bytes)
    ensures out == DecodeFrom(name, 0)
  {
    out := [];
    var i := 0;
    while i < |name|
      invariant 0 <= i <= |name|
      invariant DecodeFrom(name, 0) == out + DecodeFrom(name, i)
    {
      if name[i] == PERCENT && i + 2 < |name| {
        var high, low := HexByte(name[i + 1]), HexByte(name[i + 2]);
        if high.Some? && low.Some? {
          assert EscapeAt(name, i);
          out := out + [16 * high.value + low.value];
          i := i + 3;
          continue;
        }
      }
      out := out + [name[i]];
      i := i + 1;
    }
  }

  /** A writer of the encoding: it escapes `%` and whatever else it chooses, in either case of digits. */
  datatype Encoder = Encoder(escapes: u8 -> bool, digit: nat -> u8) {
    ghost predicate Valid() {
      escapes(PERCENT) && forall d: nat | d < 16 :: HexByte(digit(d)) == Some(d)
    }

    function Byte(b: u8): Bytes {
      if escapes(b) then [PERCENT, digit(b / 16), digit(b % 16)] else [b]
    }

    function Encode(name: Bytes): Bytes {
      if name == [] then [] else Byte(name[0]) + Encode(name[1..])
    }
  }

  /** Decoding depends only on what is left. */
  lemma {:induction false} DecodeSame(a: Bytes, i: nat, b: Bytes, j: nat)
    requires i <= |a| && j <= |b| && a[i..] == b[j..]
    ensures DecodeFrom(a, i) == DecodeFrom(b, j)
    decreases |a| - i
  {
    var n := |a| - i;
    assert n == |a[i..]| == |b[j..]|;
    if n > 0 {
      assert a[i] == a[i..][0] == b[j..][0] == b[j];
      if n > 2 {
        assert a[i + 1] == a[i..][1] == b[j..][1] == b[j + 1];
        assert a[i + 2] == a[i..][2] == b[j..][2] == b[j + 2];
      }
      var step := if EscapeAt(a, i) then 3 else 1;
      assert a[i..][step..] == a[i + step..] && b[j..][step..] == b[j + step..];
      DecodeSame(a, i + step, b, j + step);
    }
  }

  /** Whatever a writer escapes beside `%`, its names decode to themselves. */
  lemma {:induction false} DecodeEncode(encoder: Encoder, name: Bytes)
    requires encoder.Valid()
    ensures DecodeFrom(encoder.Encode(name), 0) == name
  {
    if name == [] {
    } else {
      var b, rest := name[0], encoder.Encode(name[1..]);
      var text := encoder.Byte(b) + rest;
      DecodeEncode(encoder, name[1..]);
      DecodeSame(text, |encoder.Byte(b)|, rest, 0);
      if encoder.escapes(b) {
        assert EscapeAt(text, 0) && Decoded(text, 0) == b;
      } else {
        assert !EscapeAt(text, 0);
      }
      assert name == [b] + name[1..];
    }
  }

  /** A name is left as it is exactly when no escape stands in it. */
  lemma {:induction false} DecodeUnescaped(name: Bytes, i: nat)
    requires i <= |name|
    ensures |DecodeFrom(name, i)| <= |name| - i
    ensures DecodeFrom(name, i) == name[i..] <==> forall k :: i <= k < |name| ==> !EscapeAt(name, k)
    ensures DecodeFrom(name, i) != name[i..] ==> |DecodeFrom(name, i)| < |name| - i
    decreases |name| - i
  {
    if i < |name| {
      DecodeUnescaped(name, if EscapeAt(name, i) then i + 3 else i + 1);
      assert name[i..] == [name[i]] + name[i + 1..];
    }
  }
}
