/** 32-bit sequence numbers that start at a zero point and wrap. */
module WrappingIntegers {
  import opened Bytes

  datatype Wrap32 = Wrap32(raw: u32) {

    /** `operator+`: the addend is cut to 32 bits, then 32-bit addition wraps. */
    function Plus(n: nat): Wrap32 {
      Wrap32((raw + n) % TWO_32)
    }

    /** The absolute sequence number nearest the checkpoint, computed as the C++ does:
        three candidates in 64-bit arithmetic, the first closest one wins. */
    function Unwrap(zero: Wrap32, checkpoint: u64): (n: u64) {
      var temp := if raw > zero.raw then raw - zero.raw else TWO_32 + raw - zero.raw;
      var cand1 := ((checkpoint / TWO_32) * TWO_32 + temp) % TWO_64;
      var cand2 := (cand1 - TWO_32) % TWO_64;
      var cand3 := (cand1 + TWO_32) % TWO_64;
      var diff1 := Distance(cand1, checkpoint);
      var diff2 := Distance(cand2, checkpoint);
      var diff3 := Distance(cand3, checkpoint);
      if diff1 <= diff2 && diff1 <= diff3 then cand1
      else if diff2 <= diff1 && diff2 <= diff3 then cand2
      else cand3
    }
  }

  function Distance(a: int, b: int): nat {
    if a > b then a - b else b - a
  }

  function Wrap(n: nat, zero: Wrap32): Wrap32 {
    zero.Plus(n % TWO_32)
  }

  /** How far a wrapped number lies after the zero point, below 2^32. */
  function Offset(w: Wrap32, zero: Wrap32): u32 {
    (w.raw - zero.raw) % TWO_32
  }

  lemma WrapOffset(n: nat, zero: Wrap32)
    ensures Wrap(n, zero).raw == (zero.raw + n) % TWO_32
    ensures zero.Plus(n) == Wrap(n, zero)
    ensures Offset(Wrap(n, zero), zero) == n % TWO_32
  {
    var k := n / TWO_32;
    assert n == k * TWO_32 + n % TWO_32;
  }

  lemma PlusPlus(w: Wrap32, a: nat, b: nat)
    ensures w.Plus(a).Plus(b) == w.Plus(a + b)
  {
    var x := w.raw + a;
    assert x == (x / TWO_32) * TWO_32 + x % TWO_32;
  }

  lemma OffsetWraps(w: Wrap32, zero: Wrap32)
    ensures Wrap(Offset(w, zero), zero) == w
  {
    WrapOffset(Offset(w, zero), zero);
  }

  /** Which 2^32 block the answer falls in, for a checkpoint `h * 2^32 + l` and an offset `r`.
      Two equally near answers are the one in the checkpoint's own block, except that offset 0
      then rounds up. */
  function Block(h: int, l: int, r: int): int {
    if r == 0 then (if l >= TWO_32 / 2 && h < TWO_32 - 1 then h + 1 else h)
    else if r - l > TWO_32 / 2 && h > 0 then h - 1
    else if l - r > TWO_32 / 2 && h < TWO_32 - 1 then h + 1
    else h
  }

  /** `x % 2^64` near the range of a 64-bit word. */
  function Around64(x: int): int {
    if x < 0 then x + TWO_64 else if x < TWO_64 then x else x - TWO_64
  }

  lemma WrapAround64(x: int)
    requires -TWO_64 <= x < 2 * TWO_64
    ensures x % TWO_64 == Around64(x)
  {
  }

  lemma OffsetCases(w: Wrap32, zero: Wrap32)
    ensures Offset(w, zero) == if w.raw >= zero.raw then w.raw - zero.raw else TWO_32 + w.raw - zero.raw
  {
  }

  lemma UnwrapForm(w: Wrap32, zero: Wrap32, h: int, l: int, c: u64)
    requires 0 <= h < TWO_32 && 0 <= l < TWO_32 && c == h * TWO_32 + l
    ensures w.Unwrap(zero, c) == Block(h, l, Offset(w, zero)) * TWO_32 + Offset(w, zero)
  {
    hide Block;
    hide Distance;
    OffsetCases(w, zero);
    hide Offset;
    var temp := if w.raw > zero.raw then w.raw - zero.raw else TWO_32 + w.raw - zero.raw;
    assert c / TWO_32 == h;
    var cand1 := Around64(h * TWO_32 + temp);
    WrapAround64(h * TWO_32 + temp);
    WrapAround64(cand1 - TWO_32);
    WrapAround64(cand1 + TWO_32);
    hide Around64;
    NearestCandidate(h, l, temp);
  }

  /** The three-way choice, without the arithmetic that builds the candidates. */
  lemma NearestCandidate(h: int, l: int, temp: int)
    requires 0 <= h < TWO_32 && 0 <= l < TWO_32 && 0 < temp <= TWO_32
    ensures var r := if temp == TWO_32 then 0 else temp;
            var c := h * TWO_32 + l;
            var cand1 := Around64(h * TWO_32 + temp);
            var cand2 := Around64(cand1 - TWO_32);
            var cand3 := Around64(cand1 + TWO_32);
            var d1, d2, d3 := Distance(cand1, c), Distance(cand2, c), Distance(cand3, c);
            Block(h, l, r) * TWO_32 + r ==
            if d1 <= d2 && d1 <= d3 then cand1 else if d2 <= d1 && d2 <= d3 then cand2 else cand3
  {
  }

  lemma BlockOffset(k: int, r: u32)
    ensures (k * TWO_32 + r) % TWO_32 == r
  {
  }

  /** Both ends of the 64-bit range and ties included, for every value, zero point and
      checkpoint: the exact answer. */
  lemma UnwrapExactBlock(w: Wrap32, zero: Wrap32, c: u64)
    ensures w.Unwrap(zero, c) == Block(c / TWO_32, c % TWO_32, Offset(w, zero)) * TWO_32 + Offset(w, zero)
    ensures Offset(Wrap(w.Unwrap(zero, c), zero), zero) == Offset(w, zero)
    ensures Wrap(w.Unwrap(zero, c), zero) == w
  {
    hide Wrap32.Unwrap;
    hide Block;
    hide Offset;
    Split32(c);
    UnwrapForm(w, zero, c / TWO_32, c % TWO_32, c);
    var k, r := Block(c / TWO_32, c % TWO_32, Offset(w, zero)), Offset(w, zero);
    BlockOffset(k, r);
    WrapOffset(w.Unwrap(zero, c), zero);
    OffsetWraps(w, zero);
    SameOffset(Wrap(w.Unwrap(zero, c), zero), w, zero);
  }

  lemma SameOffset(a: Wrap32, b: Wrap32, zero: Wrap32)
    ensures Offset(a, zero) == Offset(b, zero) <==> a == b
  {
    OffsetCases(a, zero);
    OffsetCases(b, zero);
  }

  lemma BlockIsNearest(h: int, l: int, r: int, k: int)
    requires 0 <= h < TWO_32 && 0 <= l < TWO_32 && 0 <= r < TWO_32 && 0 <= k < TWO_32
    ensures 0 <= Block(h, l, r) < TWO_32
    ensures Distance(Block(h, l, r) * TWO_32 + r, h * TWO_32 + l) <= Distance(k * TWO_32 + r, h * TWO_32 + l)
    ensures Distance(k * TWO_32 + r, h * TWO_32 + l) < TWO_32 / 2 ==> Block(h, l, r) == k
  {
    var b := Block(h, l, r);
    BlockBounds(h, l, r);
    hide Block;
    if k < b {
      assert k * TWO_32 <= b * TWO_32 - TWO_32;
    } else if k > b {
      assert k * TWO_32 >= b * TWO_32 + TWO_32;
    }
  }

  /** Half a block away at most, except at the ends of the 64-bit range. */
  lemma BlockBounds(h: int, l: int, r: int)
    requires 0 <= h < TWO_32 && 0 <= l < TWO_32 && 0 <= r < TWO_32
    ensures var b, c := Block(h, l, r), h * TWO_32 + l;
            && 0 <= b < TWO_32
            && (b > 0 ==> b * TWO_32 + r <= c + TWO_32 / 2)
            && (b < TWO_32 - 1 ==> c <= b * TWO_32 + r + TWO_32 / 2)
  {
  }

  lemma Split32(n: u64)
    ensures n == (n / TWO_32) * TWO_32 + n % TWO_32 && 0 <= n / TWO_32 < TWO_32
  {
  }

  /** unwrap is the nearest 64-bit number that wraps to this value, for every value,
      every zero point and every checkpoint; a number less than 2^31 away is the only answer. */
  lemma UnwrapIsNearest(w: Wrap32, zero: Wrap32, c: u64, m: u64)
    requires Wrap(m, zero) == w
    ensures Wrap(w.Unwrap(zero, c), zero) == w
    ensures Distance(w.Unwrap(zero, c), c) <= Distance(m, c)
    ensures Distance(m, c) < TWO_32 / 2 ==> w.Unwrap(zero, c) == m
  {
    UnwrapExactBlock(w, zero, c);
    WrapOffset(m, zero);
    Split32(m);
    Split32(c);
    var r := Offset(w, zero);
    assert r == m % TWO_32;
    BlockIsNearest(c / TWO_32, c % TWO_32, r, m / TWO_32);
  }

  /** The round trip: within 2^31 of the checkpoint the absolute number comes back. */
  lemma UnwrapInvertsWrap(n: u64, zero: Wrap32, c: u64)
    requires Distance(n, c) < TWO_32 / 2
    ensures Wrap(n, zero).Unwrap(zero, c) == n
  {
    UnwrapIsNearest(Wrap(n, zero), zero, c, n);
  }
}
