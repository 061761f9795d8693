/** Unsigned machine words as bounded integers, and the bit operations the checksum code needs.

    A word is an `int` with a range. Shifting right by `k` is `High(k, _)`, masking to the low
    `k` bits is `Low(k, _)`, and exclusive or is binary addition without carries; the lemmas here
    are the algebra of the three. */
module Words {

  type u8 = x: int | 0 <= x < 0x100
  type u16 = x: int | 0 <= x < 0x1_0000
  type u32 = x: int | 0 <= x < 0x1_0000_0000
  type u64 = x: int | 0 <= x < 0x1_0000_0000_0000_0000

  function Pow2(k: nat): (p: nat)
    ensures p > 0
  {
    if k == 0 then 1 else 2 * Pow2(k - 1)
  }

  /** `x >> k`. */
  function High(k: nat, x: nat): nat {
    if k == 0 then x else High(k - 1, x / 2)
  }

  /** `x & ((1 << k) - 1)`. */
  function Low(k: nat, x: nat): nat {
    if k == 0 then 0 else 2 * Low(k - 1, x / 2) + x % 2
  }

  /** `a ^ b`. */
  function Xor(a: nat, b: nat): nat {
    if a == 0 then b
    else if b == 0 then a
    else 2 * Xor(a / 2, b / 2) + (if a % 2 == b % 2 then 0 else 1)
  }

  /** The little-endian word four bytes spell. */
  function Word(b: seq<u8>): u32
    requires |b| == 4
  {
    b[0] as int + 0x100 * (b[1] as int + 0x100 * (b[2] as int + 0x100 * b[3] as int))
  }

  /** Bytes of a word, lowest first. */
  function LittleEndian(w: u32): (b: seq<u8>)
    ensures |b| == 4 && Word(b) == w
  {
    [w % 0x100, w / 0x100 % 0x100, w / 0x100 / 0x100 % 0x100, w / 0x100 / 0x100 / 0x100]
  }

  /** The same of two bytes. */
  function Word16(b: seq<u8>): u16
    requires |b| == 2
  {
    b[0] as int + 0x100 * b[1] as int
  }

  function LittleEndian16(w: u16): (b: seq<u8>)
    ensures |b| == 2 && Word16(b) == w
  {
    [w % 0x100, w / 0x100]
  }

  // ----- splitting a word at a bit -----

  lemma Double(p: nat, h: nat)
    ensures 2 * p * h == 2 * (p * h)
  {
  }

  lemma {:induction false} HighLow(k: nat, x: nat)
    ensures x == Low(k, x) + Pow2(k) * High(k, x)
    ensures Low(k, x) < Pow2(k)
  {
    if k > 0 {
      HighLow(k - 1, x / 2);
      Double(Pow2(k - 1), High(k, x));
    }
  }

  lemma HighLowByte(x: nat)
    ensures High(8, x) == x / 256 && Low(8, x) == x % 256
  {
    HighLow(8, x);
    assert Pow2(8) == 256;
  }

  lemma LowHalf(k: nat, x: nat)
    requires k > 0
    ensures Low(k, x) / 2 == Low(k - 1, x / 2) && Low(k, x) % 2 == x % 2
  {
  }

  lemma Pow2Word()
    ensures Pow2(31) == 0x8000_0000 && Pow2(32) == 0x1_0000_0000
  {
    assert Pow2(8) == 0x100;
    assert Pow2(16) == 0x1_0000;
    assert Pow2(24) == 0x100_0000;
    assert Pow2(31) == 0x8000_0000;
  }

  // ----- exclusive or is the addition of a vector space over two elements -----

  lemma XorHalf(a: nat, b: nat)
    ensures Xor(a, b) / 2 == Xor(a / 2, b / 2)
    ensures Xor(a, b) % 2 == if a % 2 == b % 2 then 0 else 1
  {
  }

  /** Two words that agree in their lowest bit and above it are the same word. */
  lemma Halves(x: nat, y: nat)
    requires x / 2 == y / 2 && x % 2 == y % 2
    ensures x == y
  {
  }

  lemma XorZero(a: nat)
    ensures Xor(a, 0) == a && Xor(0, a) == a
  {
  }

  lemma {:induction false} XorSelf(a: nat)
    ensures Xor(a, a) == 0
  {
    if a != 0 { XorSelf(a / 2); }
  }

  lemma {:induction false} XorComm(a: nat, b: nat)
    ensures Xor(a, b) == Xor(b, a)
  {
    if a != 0 && b != 0 { XorComm(a / 2, b / 2); }
  }

  lemma XorAssocStep(a: nat, b: nat, c: nat)
    ensures Xor(Xor(a, b), c) % 2 == Xor(a, Xor(b, c)) % 2
    ensures Xor(Xor(a, b), c) / 2 == Xor(Xor(a / 2, b / 2), c / 2)
    ensures Xor(a, Xor(b, c)) / 2 == Xor(a / 2, Xor(b / 2, c / 2))
  {
    XorHalf(a, b); XorHalf(b, c);
    XorHalf(Xor(a, b), c); XorHalf(a, Xor(b, c));
  }

  lemma {:induction false} XorAssoc(a: nat, b: nat, c: nat)
    ensures Xor(Xor(a, b), c) == Xor(a, Xor(b, c))
    decreases a + b + c
  {
    if a != 0 && b != 0 && c != 0 {
      XorAssoc(a / 2, b / 2, c / 2);
      XorAssocStep(a, b, c);
      Halves(Xor(Xor(a, b), c), Xor(a, Xor(b, c)));
    }
  }

  lemma XorCancel(a: nat, b: nat)
    ensures Xor(a, Xor(a, b)) == b
  {
    XorAssoc(a, a, b);
    XorSelf(a);
  }

  /** An equation between words may be solved for a term. */
  lemma XorSolve(a: nat, b: nat, c: nat)
    ensures Xor(a, b) == c <==> b == Xor(a, c)
  {
    XorCancel(a, b);
    XorCancel(a, c);
  }

  lemma XorExchange(a: nat, b: nat, c: nat, d: nat)
    ensures Xor(Xor(a, b), Xor(c, d)) == Xor(Xor(a, c), Xor(b, d))
  {
    XorAssoc(a, b, Xor(c, d)); XorAssoc(b, c, d);
    XorComm(b, c);
    XorAssoc(c, b, d); XorAssoc(a, c, Xor(b, d));
  }

  lemma XorEqualsZero(a: nat, b: nat)
    ensures Xor(a, b) == 0 <==> a == b
  {
    XorSolve(a, b, 0);
    XorZero(a);
  }

  lemma {:induction false} XorBound(k: nat, a: nat, b: nat)
    requires a < Pow2(k) && b < Pow2(k)
    ensures Xor(a, b) < Pow2(k)
  {
    if a != 0 && b != 0 && k > 0 { XorBound(k - 1, a / 2, b / 2); }
  }

  /** A set top bit stays set when a word without it is folded in, and two cancel. */
  lemma {:induction false} XorTop(k: nat, a: nat, b: nat)
    requires Pow2(k) <= a < Pow2(k + 1) && b < Pow2(k + 1)
    ensures Xor(a, b) < Pow2(k + 1)
    ensures Xor(a, b) >= Pow2(k) <==> b < Pow2(k)
  {
    if b != 0 && k > 0 { XorTop(k - 1, a / 2, b / 2); }
  }

  lemma {:induction false} XorHigh(k: nat, a: nat, b: nat)
    ensures High(k, Xor(a, b)) == Xor(High(k, a), High(k, b))
  {
    if k > 0 {
      XorHalf(a, b);
      XorHigh(k - 1, a / 2, b / 2);
    }
  }

  lemma {:induction false} XorLow(k: nat, a: nat, b: nat)
    ensures Low(k, Xor(a, b)) == Xor(Low(k, a), Low(k, b))
  {
    if k > 0 {
      XorHalf(a, b);
      XorLow(k - 1, a / 2, b / 2);
      LowHalf(k, a); LowHalf(k, b); LowHalf(k, Xor(a, b));
      XorHalf(Low(k, a), Low(k, b));
      Halves(Low(k, Xor(a, b)), Xor(Low(k, a), Low(k, b)));
    }
  }

  lemma XorByte(a: nat, b: nat)
    ensures Xor(a, b) / 256 == Xor(a / 256, b / 256)
    ensures Xor(a, b) % 256 == Xor(a % 256, b % 256)
  {
    HighLowByte(a); HighLowByte(b); HighLowByte(Xor(a, b));
    XorHigh(8, a, b); XorLow(8, a, b);
  }

  lemma XorDisjointStep(low: nat, high: nat)
    requires Xor(low / 2, high) == low / 2 + high
    ensures Xor(low, 2 * high) == low + 2 * high
  {
    var x := Xor(low, 2 * high);
    assert (2 * high) / 2 == high && (2 * high) % 2 == 0;
    XorHalf(low, 2 * high);
    assert x / 2 == low / 2 + high;
    assert x % 2 == low % 2;
  }

  /** Bits that do not overlap add. */
  lemma {:induction false} XorDisjoint(k: nat, low: nat, high: nat)
    requires low < Pow2(k)
    ensures Xor(low, Pow2(k) * high) == low + Pow2(k) * high
  {
    if k > 0 {
      XorDisjoint(k - 1, low / 2, high);
      Double(Pow2(k - 1), high);
      XorDisjointStep(low, Pow2(k - 1) * high);
    }
  }
}
