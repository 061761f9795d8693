/** A bit-packed bitmap, least significant bit first: bit `i` is bit `i % 8` of byte `i / 8`. */
module Bitmap {

  function Mask(i: nat): bv8
    requires i < 8
  {
    1 << i
  }

  predicate Has(byte: bv8, i: nat)
    requires i < 8
  {
    byte & Mask(i) != 0
  }

  function With(byte: bv8, i: nat): bv8
    requires i < 8
  {
    byte | Mask(i)
  }

  lemma MaskIs(i: nat)
    requires i < 8
    ensures Mask(i) == [1, 2, 4, 8, 16, 32, 64, 128][i]
  {
    if i == 0 {} else if i == 1 {} else if i == 2 {} else if i == 3 {}
    else if i == 4 {} else if i == 5 {} else if i == 6 {} else {}
  }

  lemma SetBit(byte: bv8, i: nat, j: nat)
    requires i < 8 && j < 8
    ensures Has(With(byte, i), j) <==> i == j || Has(byte, j)
  {
    MaskIs(i);
    MaskIs(j);
  }

  lemma KeepBelow(byte: bv8, p: bv8, q: bv8)
    requires p & (p - 1) == 0 && q & (q - 1) == 0 && p != 0 && q != 0
    ensures (byte & (p - 1)) & q == if q < p then byte & q else 0
  {
  }

  lemma KeepLow(byte: bv8, n: nat, j: nat)
    requires n < 8 && j < 8
    ensures Has(byte & (Mask(n) - 1), j) <==> j < n && Has(byte, j)
  {
    MaskIs(n);
    MaskIs(j);
    KeepBelow(byte, Mask(n), Mask(j));
  }

  /** `count_ones` of the low `n` bits of a byte. */
  function Ones(byte: bv8, n: nat): nat
    requires n <= 8
  {
    if n == 0 then 0 else Ones(byte, n - 1) + if Has(byte, n - 1) then 1 else 0
  }

  lemma {:induction false} OnesMasked(byte: bv8, n: nat, j: nat)
    requires n < 8 && j <= 8
    ensures Ones(byte & (Mask(n) - 1), j) == Ones(byte, if j < n then j else n)
  {
    if j > 0 {
      OnesMasked(byte, n, j - 1);
      KeepLow(byte, n, j - 1);
    }
  }

  predicate Flag(bits: seq<bv8>, i: nat)
    requires i < 8 * |bits|
  {
    Has(bits[i / 8], i % 8)
  }

  ghost function ByteFlags(byte: bv8): (flags: seq<bool>)
    ensures |flags| == 8
  {
    seq(8, j requires 0 <= j < 8 => Has(byte, j))
  }

  /** The bitmap a position at a time. */
  ghost function Flags(bits: seq<bv8>): (flags: seq<bool>)
    ensures |flags| == 8 * |bits|
  {
    if bits == [] then [] else Flags(bits[..|bits| - 1]) + ByteFlags(bits[|bits| - 1])
  }

  lemma {:induction false} FlagOf(bits: seq<bv8>, k: nat, j: nat)
    requires k < |bits| && j < 8
    ensures Flags(bits)[8 * k + j] == Has(bits[k], j)
  {
    if k < |bits| - 1 { FlagOf(bits[..|bits| - 1], k, j); }
  }

  lemma FlagAt(bits: seq<bv8>, i: nat)
    requires i < 8 * |bits|
    ensures Flags(bits)[i] == Flag(bits, i)
  {
    FlagOf(bits, i / 8, i % 8);
  }

  lemma NoFlags(bits: seq<bv8>, i: nat)
    requires i < 8 * |bits| && bits[i / 8] == 0
    ensures !Flags(bits)[i]
  {
    FlagAt(bits, i);
    MaskIs(i % 8);
  }

  /** The set positions below `n`, counted one by one. */
  ghost function Count(flags: seq<bool>, n: nat): nat
    requires n <= |flags|
  {
    if n == 0 then 0 else Count(flags, n - 1) + if flags[n - 1] then 1 else 0
  }

  lemma {:induction false} CountByte(bits: seq<bv8>, k: nat, n: nat)
    requires k < |bits| && n <= 8
    ensures Count(Flags(bits), 8 * k + n) == Count(Flags(bits), 8 * k) + Ones(bits[k], n)
  {
    if n > 0 {
      CountByte(bits, k, n - 1);
      FlagOf(bits, k, n - 1);
    }
  }

  /** Setting a bit sets its flag and no other. */
  lemma FlagsSet(bits: seq<bv8>, k: nat, i: nat)
    requires k < |bits| && i < 8
    ensures Flags(bits[k := With(bits[k], i)]) == Flags(bits)[8 * k + i := true]
  {
    var bits' := bits[k := With(bits[k], i)];
    forall j | 0 <= j < 8 * |bits|
      ensures Flags(bits')[j] == Flags(bits)[8 * k + i := true][j]
    {
      FlagAt(bits, j);
      FlagAt(bits', j);
      if j / 8 == k { SetBit(bits[k], i, j % 8); }
    }
  }

  /** The popcount of a byte masked to its low `n` bits. */
  function MaskedOnes(byte: bv8, n: nat): (count: nat)
    requires n < 8
    ensures count == Ones(byte, n)
  {
    OnesMasked(byte, n, 8);
    Ones(byte & (Mask(n) - 1), 8)
  }

  /** The popcounts of the first `k` bytes. */
  function Sum(bits: seq<bv8>, k: nat): nat
    requires k <= |bits|
  {
    if k == 0 then 0 else Sum(bits, k - 1) + Ones(bits[k - 1], 8)
  }

  lemma {:induction false} SumIsCount(bits: seq<bv8>, k: nat)
    requires k <= |bits|
    ensures Sum(bits, k) == Count(Flags(bits), 8 * k)
  {
    if k > 0 {
      SumIsCount(bits, k - 1);
      CountByte(bits, k - 1, 8);
    }
  }

  lemma PrefixCount(bits: seq<bv8>, k: nat, n: nat)
    requires n < 8 && 8 * k + n <= 8 * |bits|
    ensures Count(Flags(bits), 8 * k + n) == Sum(bits, k) + if n == 0 then 0 else Ones(bits[k], n)
  {
    SumIsCount(bits, k);
    if n > 0 { CountByte(bits, k, n); }
  }

  /** The set bits among the first `n`: a whole byte is one popcount, a partial last byte is masked. */
  method UsedInPrefix(bits: seq<bv8>, n: nat) returns (used: nat)
    requires n <= 8 * |bits|
    ensures used == Count(Flags(bits), n)
  {
    var whole, rem := n / 8, n % 8;
    used := 0;
    var k := 0;
    while k < whole
      invariant 0 <= k <= whole
      invariant used == Sum(bits, k)
    {
      used := used + Ones(bits[k], 8);
      k := k + 1;
    }
    if rem != 0 {
      used := used + MaskedOnes(bits[whole], rem);
    }
    PrefixCount(bits, whole, rem);
  }
}
