/** CRC-32C: polynomial division a bit at a time, and the slicing-by-8 form that computes it.

    The polynomial is that of section 12.1 of RFC 3720, reflected. `Bitwise` is the definition;
    the `Crc32c` method is the optimised loop, proved equal to it for every seed and message.
    Everything the checksum recipes need follows from three facts: a step is additive over
    exclusive or, it can be undone, and a byte meets only the low eight bits. */
module Crc {
  import opened Words

  const POLY: u32 := 0x82F6_3B78

  /** One bit of division. */
  function Step(crc: u32): u32 {
    StepInRange(crc);
    if crc % 2 != 0 then Xor(POLY, crc / 2) else crc / 2
  }

  lemma StepInRange(crc: u32)
    ensures Xor(POLY, crc / 2) < 0x1_0000_0000
  {
    Pow2Word();
    XorBound(32, POLY, crc / 2);
  }

  /** `n` bits of division. */
  function Steps(n: nat, crc: u32): u32 {
    if n == 0 then crc else Steps(n - 1, Step(crc))
  }

  /** Exclusive or of two 32-bit words. */
  function Xor32(a: u32, b: u32): u32 {
    Pow2Word();
    XorBound(32, a, b);
    Xor(a, b)
  }

  /** The definition: each byte meets the low bits of the state, which is then divided eight times. */
  function Bitwise(seed: u32, data: seq<u8>): u32
    decreases data
  {
    if data == [] then seed else Bitwise(Steps(8, Xor32(seed, data[0])), data[1..])
  }

  // ----- one step is additive and can be undone -----

  lemma XorPoly(p: nat, a: nat, b: nat)
    ensures Xor(Xor(p, a), Xor(p, b)) == Xor(a, b)
    ensures Xor(Xor(p, a), b) == Xor(p, Xor(a, b))
    ensures Xor(a, Xor(p, b)) == Xor(p, Xor(a, b))
  {
    XorExchange(p, a, p, b); XorSelf(p);
    XorAssoc(p, a, b);
    XorAssoc(a, p, b); XorComm(a, p); XorAssoc(p, a, b);
  }

  lemma StepXor(a: u32, b: u32)
    ensures Step(Xor32(a, b)) == Xor32(Step(a), Step(b))
  {
    XorHalf(a, b);
    XorPoly(POLY, a / 2, b / 2);
  }

  lemma {:induction false} StepsXor(n: nat, a: u32, b: u32)
    ensures Steps(n, Xor32(a, b)) == Xor32(Steps(n, a), Steps(n, b))
  {
    if n > 0 {
      StepXor(a, b);
      StepsXor(n - 1, Step(a), Step(b));
    }
  }

  lemma {:induction false} StepsSum(m: nat, n: nat, crc: u32)
    ensures Steps(m + n, crc) == Steps(n, Steps(m, crc))
  {
    if m > 0 { StepsSum(m - 1, n, Step(crc)); }
  }

  lemma {:induction false} StepsZero(n: nat)
    ensures Steps(n, 0) == 0
  {
    if n > 0 { StepsZero(n - 1); }
  }

  /** The inverse of `Step`: the polynomial's top bit says which branch was taken. */
  function Unstep(crc: u32): u32 {
    Pow2Word();
    if crc >= 0x8000_0000 then
      XorTop(31, POLY, crc);
      2 * Xor(POLY, crc) + 1
    else 2 * crc
  }

  function Unsteps(n: nat, crc: u32): u32 {
    if n == 0 then crc else Unstep(Unsteps(n - 1, crc))
  }

  lemma StepInverse(crc: u32)
    ensures Unstep(Step(crc)) == crc && Step(Unstep(crc)) == crc
  {
    Pow2Word();
    XorTop(31, POLY, crc / 2);
    XorCancel(POLY, crc / 2);
    XorCancel(POLY, crc);
  }

  lemma {:induction false} StepsInverse(n: nat, crc: u32)
    ensures Unsteps(n, Steps(n, crc)) == crc && Steps(n, Unsteps(n, crc)) == crc
  {
    if n > 0 {
      StepInverse(crc);
      StepsInverse(n - 1, Step(crc));
      StepInverse(Unsteps(n - 1, crc));
      StepsInverse(n - 1, crc);
    }
  }

  lemma StepsInjective(n: nat, a: u32, b: u32)
    ensures Steps(n, a) == Steps(n, b) <==> a == b
  {
    StepsInverse(n, a);
    StepsInverse(n, b);
  }

  // ----- a byte at a time -----

  /** A state whose low byte is clear is only shifted by eight steps. */
  lemma StepsShift(high: nat)
    requires 0x100 * high < 0x1_0000_0000
    ensures Steps(8, 0x100 * high) == high
  {
    StepsEven(7, 0x80 * high);
    StepsEven(6, 0x40 * high);
    StepsEven(5, 0x20 * high);
    StepsEven(4, 0x10 * high);
    StepsEven(3, 0x8 * high);
    StepsEven(2, 0x4 * high);
    StepsEven(1, 0x2 * high);
    StepsEven(0, high);
  }

  lemma StepsEven(n: nat, half: nat)
    requires 2 * half < 0x1_0000_0000
    ensures Steps(n + 1, 2 * half) == Steps(n, half)
  {
  }

  /** Eight steps shift a byte out and fold in what that byte alone divides to. */
  lemma StepsByte(crc: u32)
    ensures Steps(8, crc) == Xor32(crc / 256, Steps(8, crc % 256))
  {
    var high := crc / 256;
    assert Pow2(8) == 256;
    XorDisjoint(8, crc % 256, high);
    assert crc == Xor32(crc % 256, 256 * high);
    StepsXor(8, crc % 256, 256 * high);
    StepsShift(high);
    XorComm(high, Steps(8, crc % 256));
  }

  /** Dividing a word by `8 * (k + 1)` bits, its lowest byte split off. */
  lemma StepsPeel(k: nat, low: u8, high: nat)
    requires low + 0x100 * high < 0x1_0000_0000
    ensures Steps(8 * (k + 1), low + 0x100 * high) == Xor32(Steps(8 * (k + 1), low), Steps(8 * k, high))
  {
    assert Pow2(8) == 0x100;
    XorDisjoint(8, low, high);
    StepsXor(8 * (k + 1), low, 0x100 * high);
    StepsSum(8, 8 * k, 0x100 * high);
    StepsShift(high);
  }

  /** A word's division is the exclusive or of its four bytes' own, each by its distance from the end. */
  lemma StepsWord(k: nat, b: seq<u8>)
    requires |b| == 4
    ensures Steps(8 * (k + 4), Word(b)) ==
            Xor32(Steps(8 * (k + 4), b[0]),
              Xor32(Steps(8 * (k + 3), b[1]),
                Xor32(Steps(8 * (k + 2), b[2]), Steps(8 * (k + 1), b[3]))))
  {
    var w2: nat := b[2] as int + 0x100 * b[3] as int;
    var w1: nat := b[1] as int + 0x100 * w2;
    StepsPeel(k + 3, b[0], w1);
    StepsPeel(k + 2, b[1], w2);
    StepsPeel(k + 1, b[2], b[3]);
  }

  /** A byte of a word can be divided in before the bytes above it meet the state. */
  lemma AbsorbByte(k: nat, seed: u32, low: u8, high: nat)
    requires low + 0x100 * high < 0x1_0000_0000
    ensures Steps(8 * (k + 1), Xor32(seed, low + 0x100 * high))
         == Steps(8 * k, Xor32(Steps(8, Xor32(seed, low)), high))
  {
    assert Pow2(8) == 0x100;
    XorDisjoint(8, low, high);
    XorAssoc(seed, low, 0x100 * high);
    StepsXor(8, Xor32(seed, low), 0x100 * high);
    StepsShift(high);
    StepsSum(8, 8 * k, Xor32(seed, low + 0x100 * high));
  }

  /** Four bytes meet the state as one word. */
  lemma BitwiseWord(seed: u32, b: seq<u8>)
    requires |b| == 4
    ensures Bitwise(seed, b) == Steps(32, Xor32(seed, Word(b)))
  {
    var c1 := Steps(8, Xor32(seed, b[0]));
    var c2 := Steps(8, Xor32(c1, b[1]));
    var c3 := Steps(8, Xor32(c2, b[2]));
    var w2: nat := b[2] as int + 0x100 * b[3] as int;
    AbsorbByte(3, seed, b[0], b[1] as int + 0x100 * w2);
    AbsorbByte(2, c1, b[1], w2);
    AbsorbByte(1, c2, b[2], b[3]);
    assert Bitwise(c3, b[3..]) == Steps(8, Xor32(c3, b[3])) by { assert b[3..] == [b[3]]; }
    assert b[1..][1..] == b[2..] && b[2..][1..] == b[3..];
    assert Bitwise(c2, b[2..]) == Bitwise(c3, b[3..]);
    assert Bitwise(c1, b[1..]) == Bitwise(c2, b[2..]);
  }

  /** Chaining calls over the pieces of a message is one call over the message. */
  lemma {:induction false} BitwiseConcat(seed: u32, a: seq<u8>, b: seq<u8>)
    ensures Bitwise(seed, a + b) == Bitwise(Bitwise(seed, a), b)
    decreases a
  {
    if a == [] {
      assert a + b == b;
    } else {
      assert (a + b)[1..] == a[1..] + b;
      BitwiseConcat(Steps(8, Xor32(seed, a[0])), a[1..], b);
    }
  }

  /** Zero bytes only divide. */
  lemma {:induction false} BitwiseZeros(seed: u32, n: nat)
    ensures Bitwise(seed, seq(n, _ => 0)) == Steps(8 * n, seed)
    decreases n
  {
    if n > 0 {
      var zeros := seq(n, _ => 0 as u8);
      assert zeros[1..] == seq(n - 1, _ => 0);
      XorZero(seed);
      BitwiseZeros(Steps(8, seed), n - 1);
      StepsSum(8, 8 * (n - 1), seed);
    }
  }

  /** The state enters a checksum additively: what two seeds differ by is only divided, by eight
      bits for each byte of the message, whatever the bytes are. */
  lemma {:induction false} BitwiseSeeds(a: u32, b: u32, data: seq<u8>)
    ensures Xor32(Bitwise(a, data), Bitwise(b, data)) == Steps(8 * |data|, Xor32(a, b))
    decreases data
  {
    if data != [] {
      var a', b' := Xor32(a, data[0]), Xor32(b, data[0]);
      BitwiseSeeds(Steps(8, a'), Steps(8, b'), data[1..]);
      StepsXor(8, a', b');
      XorExchange(a, data[0], b, data[0]); XorSelf(data[0]); XorZero(Xor(a, b));
      StepsSum(8, 8 * (|data| - 1), Xor32(a, b));
    }
  }

  /** Distinct states stay distinct over any message. */
  lemma BitwiseInjective(a: u32, b: u32, data: seq<u8>)
    ensures Bitwise(a, data) == Bitwise(b, data) <==> a == b
  {
    BitwiseSeeds(a, b, data);
    StepsZero(8 * |data|);
    StepsInjective(8 * |data|, Xor32(a, b), 0);
    XorEqualsZero(a, b);
    XorEqualsZero(Bitwise(a, data), Bitwise(b, data));
  }

  // ----- slicing by eight -----

  /** What the first `rows` lookup tables hold: entry `n` of table `k` is `n` divided over `k + 1` bytes. */
  ghost predicate Rows(tables: array2<u32>, rows: nat)
    requires tables.Length0 == 8 && tables.Length1 == 256
    reads tables
  {
    forall k: nat, n: u8 :: k < rows <= 8 ==> tables[k, n] == Steps(8 * (k + 1), n)
  }

  ghost predicate Sliced(tables: array2<u32>)
    reads tables
  {
    tables.Length0 == 8 && tables.Length1 == 256 && Rows(tables, 8)
  }

  /** Table `k` holds the checksum of a byte followed by `k` zero bytes. */
  lemma SlicedIsZeroPadded(tables: array2<u32>, k: nat, n: u8)
    requires Sliced(tables) && k < 8
    ensures tables[k, n] == Bitwise(0, [n] + seq(k, _ => 0))
  {
    var zeros := seq(k, _ => 0 as u8);
    assert ([n] + zeros)[1..] == zeros;
    XorZero(n);
    BitwiseZeros(Steps(8, n), k);
    StepsSum(8, 8 * k, n);
  }

  /** The bit loop behind one entry of the first table. */
  method DivideByte(n: u8) returns (crc: u32)
    ensures crc == Steps(8, n)
  {
    crc := n;
    var bit := 0;
    while bit < 8
      invariant 0 <= bit <= 8
      invariant Steps(8 - bit, crc) == Steps(8, n)
    {
      crc := if crc % 2 != 0 then Xor32(POLY, crc / 2) else crc / 2;
      bit := bit + 1;
    }
  }

  /** Row `k + 1` of the tables from row `k`. */
  lemma NextRow(k: nat, n: u8)
    ensures var prev := Steps(8 * k, n);
            Steps(8 * (k + 1), n) == Xor32(prev / 256, Steps(8, prev % 256))
  {
    StepsSum(8 * k, 8, n);
    StepsByte(Steps(8 * k, n));
  }

  method BuildTables() returns (tables: array2<u32>)
    ensures fresh(tables) && Sliced(tables)
  {
    tables := new u32[8, 256];
    var n := 0;
    while n < 256
      invariant 0 <= n <= 256
      invariant forall m: u8 :: m < n ==> tables[0, m] == Steps(8, m)
    {
      var crc := DivideByte(n);
      tables[0, n] := crc;
      n := n + 1;
    }
    var k := 1;
    while k < 8
      invariant 1 <= k <= 8
      invariant Rows(tables, k)
    {
      n := 0;
      while n < 256
        invariant 0 <= n <= 256
        invariant Rows(tables, k)
        invariant forall m: u8 :: m < n ==> tables[k, m] == Steps(8 * (k + 1), m)
      {
        var prev := tables[k - 1, n];
        NextRow(k, n);
        tables[k, n] := Xor32(prev / 256, tables[0, prev % 256]);
        n := n + 1;
      }
      k := k + 1;
    }
  }

  /** An eight-byte step: the first four bytes meet the state, the last four are themselves. */
  lemma SliceStep(crc: u32, head: seq<u8>, tail: seq<u8>)
    requires |head| == 4 && |tail| == 4
    ensures Bitwise(crc, head + tail) == Xor32(Steps(64, Xor32(crc, Word(head))), Steps(32, Word(tail)))
  {
    var low := Xor32(crc, Word(head));
    BitwiseConcat(crc, head, tail);
    BitwiseWord(crc, head);
    BitwiseWord(Steps(32, low), tail);
    StepsXor(32, Steps(32, low), Word(tail));
    StepsSum(32, 32, low);
  }

  lemma XorRotate(a: u32, b: u32, c: u32, d: u32, e: u32)
    ensures Xor32(Xor32(a, Xor32(b, Xor32(c, d))), e) == Xor32(a, Xor32(b, Xor32(c, Xor32(d, e))))
  {
    var cd := Xor32(c, d);
    var bcd := Xor32(b, cd);
    XorAssoc(a, bcd, e);
    XorAssoc(b, cd, e);
    XorAssoc(c, d, e);
  }

  /** What eight lookups must add up to, the state already folded into the first four. */
  lemma SliceSum(crc: u32, head: seq<u8>, tail: seq<u8>, l: seq<u8>)
    requires |head| == 4 && |tail| == 4 && |l| == 4
    requires Word(l) == Xor32(crc, Word(head))
    ensures Bitwise(crc, head + tail) ==
      Xor32(Steps(64, l[0]), Xor32(Steps(56, l[1]), Xor32(Steps(48, l[2]), Xor32(Steps(40, l[3]),
        Xor32(Steps(32, tail[0]), Xor32(Steps(24, tail[1]), Xor32(Steps(16, tail[2]), Steps(8, tail[3]))))))))
  {
    var a, b, c, d := Steps(64, l[0]), Steps(56, l[1]), Steps(48, l[2]), Steps(40, l[3]);
    var e := Steps(32, Word(tail));
    assert Bitwise(crc, head + tail) == Xor32(Steps(64, Word(l)), e) by { SliceStep(crc, head, tail); }
    assert Steps(64, Word(l)) == Xor32(a, Xor32(b, Xor32(c, d))) by { StepsWord(4, l); }
    assert e == Xor32(Steps(32, tail[0]), Xor32(Steps(24, tail[1]), Xor32(Steps(16, tail[2]), Steps(8, tail[3]))))
      by { StepsWord(0, tail); }
    XorRotate(a, b, c, d, e);
  }

  /** Eight lookups fold one eight-byte word into the state. */
  method FoldWord(tables: array2<u32>, seed: u32, word: seq<u8>) returns (crc: u32)
    requires Sliced(tables) && |word| == 8
    ensures crc == Bitwise(seed, word)
  {
    var l := LittleEndian(Xor32(seed, Word(word[..4])));
    assert word == word[..4] + word[4..];
    SliceSum(seed, word[..4], word[4..], l);
    crc :=
      Xor32(tables[7, l[0]], Xor32(tables[6, l[1]], Xor32(tables[5, l[2]], Xor32(tables[4, l[3]],
        Xor32(tables[3, word[4]], Xor32(tables[2, word[5]],
          Xor32(tables[1, word[6]], tables[0, word[7]])))))));
  }

  /** The optimised loop: eight bytes at a time through eight tables, the rest through the first. */
  method Crc32c(seed: u32, data: seq<u8>) returns (crc: u32)
    ensures crc == Bitwise(seed, data)
  {
    var tables := BuildTables();
    crc := seed;
    var i := 0;
    while i + 8 <= |data|
      invariant 0 <= i <= |data|
      invariant Sliced(tables)
      invariant crc == Bitwise(seed, data[..i])
    {
      BitwiseConcat(seed, data[..i], data[i..i + 8]);
      assert data[..i + 8] == data[..i] + data[i..i + 8];
      crc := FoldWord(tables, crc, data[i..i + 8]);
      i := i + 8;
    }
    while i < |data|
      invariant 0 <= i <= |data|
      invariant Sliced(tables)
      invariant crc == Bitwise(seed, data[..i])
    {
      var folded := Xor32(crc, data[i]);
      StepsByte(folded);
      XorByte(crc, data[i]);
      BitwiseConcat(seed, data[..i], [data[i]]);
      assert data[..i + 1] == data[..i] + [data[i]];
      crc := Xor32(crc / 256, tables[0, folded % 256]);
      i := i + 1;
    }
    assert data[..i] == data;
  }
}
