/** Sequences of fixed-size records: read a chunk at a time, and written back to back. */
module Records {
  import opened Wrappers
  import opened Words

  function EncodeAll<T>(encode: T -> seq<u8>, es: seq<T>): seq<u8> {
    if es == [] then [] else EncodeAll(encode, es[..|es| - 1]) + encode(es[|es| - 1])
  }

  /** The records of a body of whole chunks, or `None` where a chunk is not one. */
  function DecodeAll<T>(decode: seq<u8> -> Option<T>, size: nat, b: seq<u8>): (es: Option<seq<T>>)
    requires size > 0 && |b| % size == 0
    ensures es.Some? ==> size * |es.value| == |b|
    decreases |b|
  {
    if b == [] then Some([])
    else
      Chunked(|b|, size);
      var init := DecodeAll(decode, size, b[..|b| - size]);
      var last := decode(b[|b| - size..]);
      if init.None? || last.None? then None else Some(init.value + [last.value])
  }

  lemma Chunked(n: nat, size: nat)
    requires size > 0 && n > 0 && n % size == 0
    ensures n >= size && (n - size) % size == 0
  {
    assert n == size * (n / size);
    assert n - size == size * (n / size - 1);
    ModZero(size, n / size - 1);
  }

  lemma ModZero(size: nat, k: nat)
    requires size > 0
    ensures (size * k) % size == 0
  {
    var n := size * k;
    var d := k - n / size;
    assert n % size == n - size * (n / size) == size * d;
    MulAway(size, d);
  }

  lemma MulAway(size: nat, d: int)
    ensures d > 0 ==> size * d >= size
    ensures d < 0 ==> size * d <= -(size as int)
  {
  }

  lemma {:induction false} EncodeAllLength<T(!new)>(encode: T -> seq<u8>, size: nat, es: seq<T>)
    requires forall e :: |encode(e)| == size
    ensures |EncodeAll(encode, es)| == size * |es|
  {
    if es != [] {
      EncodeAllLength(encode, size, es[..|es| - 1]);
      assert size * |es| == size * (|es| - 1) + size;
    }
  }

  lemma DecodeSnoc<T>(decode: seq<u8> -> Option<T>, size: nat, init: seq<u8>, chunk: seq<u8>)
    requires size > 0 && |init| % size == 0 && |chunk| == size && |init + chunk| % size == 0
    ensures DecodeAll(decode, size, init + chunk) ==
      if DecodeAll(decode, size, init).None? || decode(chunk).None? then None
      else Some(DecodeAll(decode, size, init).value + [decode(chunk).value])
  {
    var b := init + chunk;
    assert b[..|b| - size] == init && b[|b| - size..] == chunk;
  }

  /** Records that each decode from their own encoding do so back to back. */
  lemma {:induction false} DecodeEncodeAll<T(!new)>(encode: T -> seq<u8>, decode: seq<u8> -> Option<T>, size: nat,
                                                    es: seq<T>)
    requires size > 0 && forall e :: |encode(e)| == size && decode(encode(e)) == Some(e)
    ensures |EncodeAll(encode, es)| == size * |es| && |EncodeAll(encode, es)| % size == 0
    ensures DecodeAll(decode, size, EncodeAll(encode, es)) == Some(es)
  {
    EncodeAllLength(encode, size, es);
    ModZero(size, |es|);
    if es != [] {
      var init, last := es[..|es| - 1], es[|es| - 1];
      DecodeEncodeAll(encode, decode, size, init);
      DecodeSnoc(decode, size, EncodeAll(encode, init), encode(last));
      assert es == init + [last];
    }
  }

  lemma WholeChunks(i: nat, n: nat, size: nat)
    requires size > 0 && i % size == 0 && n % size == 0 && i < n
    ensures i + size <= n && (i + size) % size == 0
  {
    var p, q := i / size, n / size;
    assert i == size * p && n == size * q;
    assert p + 1 <= q;
    assert size * (p + 1) <= size * q;
    assert i + size == size * (p + 1);
    ModZero(size, p + 1);
  }

  /** The loop that reads records: it stops at the first chunk that is not one. */
  method ReadAll<T>(decode: seq<u8> -> Option<T>, size: nat, body: seq<u8>) returns (r: Option<seq<T>>)
    requires size > 0 && |body| % size == 0
    ensures r == DecodeAll(decode, size, body)
  {
    var es: seq<T> := [];
    var i := 0;
    while i < |body|
      invariant 0 <= i <= |body| && i % size == 0
      invariant DecodeAll(decode, size, body[..i]) == Some(es)
    {
      WholeChunks(i, |body|, size);
      var chunk := body[i..i + size];
      assert body[..i + size] == body[..i] + chunk;
      DecodeSnoc(decode, size, body[..i], chunk);
      var e := decode(chunk);
      if e.None? {
        NoneStays(decode, size, body, i + size);
        return None;
      }
      es := es + [e.value];
      i := i + size;
    }
    assert body[..i] == body;
    return Some(es);
  }

  /** What does not decode is not the start of anything that does. */
  lemma {:induction false} NoneStays<T>(decode: seq<u8> -> Option<T>, size: nat, b: seq<u8>, i: nat)
    requires size > 0 && |b| % size == 0 && i <= |b| && i % size == 0
    requires DecodeAll(decode, size, b[..i]).None?
    ensures DecodeAll(decode, size, b).None?
  {
    if i < |b| {
      Chunked(|b|, size);
      WholeChunks(i, |b|, size);
      var init := b[..|b| - size];
      assert init[..i] == b[..i];
      NoneStays(decode, size, init, i);
    } else {
      assert b[..i] == b;
    }
  }
}
