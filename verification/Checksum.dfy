/** The Internet checksum: 16-bit one's-complement arithmetic in a 32-bit accumulator. */
module Checksums {
  import opened Bytes

  /** The value a byte contributes: high half of a word unless an odd number came before. */
  function Weighted(b: byte, odd: bool): nat {
    if odd then b else b * 256
  }

  predicate OddAfter(odd: bool, n: nat) {
    odd != (n % 2 == 1)
  }

  /** Everything `add` accumulates over a string, before 32-bit wrap-around. */
  function ByteSum(data: seq<byte>, odd: bool): nat {
    if data == [] then 0
    else ByteSum(data[..|data| - 1], odd) + Weighted(data[|data| - 1], OddAfter(odd, |data| - 1))
  }

  /** The sum of big-endian 16-bit words, an odd last byte padded with zero: what section 1 of
      RFC 1071 adds up. */
  function WordSum(data: seq<byte>): nat {
    if data == [] then 0
    else if |data| == 1 then data[0] * 256
    else data[0] * 256 + data[1] + WordSum(data[2..])
  }

  /** Carries folded back in until 16 bits are left. */
  function Fold(x: nat): u16
    decreases x
  {
    if x > 0xFFFF then Fold(x / 0x1_0000 + x % 0x1_0000) else x
  }

  function Complement(x: nat): u16 {
    0xFFFF - Fold(x)
  }

  lemma {:induction false} ByteSumAppend(a: seq<byte>, b: seq<byte>, odd: bool)
    ensures ByteSum(a + b, odd) == ByteSum(a, odd) + ByteSum(b, OddAfter(odd, |a|))
  {
    if b == [] {
      assert a + b == a;
    } else {
      var n := |b| - 1;
      assert (a + b)[..|a + b| - 1] == a + b[..n];
      ByteSumAppend(a, b[..n], odd);
    }
  }

  /** Byte by byte with a parity bit gives the sum of 16-bit words. */
  lemma {:induction false} ByteSumIsWordSum(data: seq<byte>)
    ensures ByteSum(data, false) == WordSum(data)
  {
    if |data| == 1 {
      assert data[..0] == [];
    } else if |data| >= 2 {
      ByteSumIsWordSum(data[2..]);
      ByteSumAppend(data[..2], data[2..], false);
      assert data == data[..2] + data[2..];
      assert data[..2] == [data[0], data[1]];
      TwoBytes(data[0], data[1]);
    }
  }

  lemma WordSumStep(data: seq<byte>)
    requires |data| >= 2
    ensures WordSum(data) == data[0] * 256 + data[1] + if |data| == 2 then 0 else WordSum(data[2..])
  {
  }

  lemma {:induction false} ByteSumBound(data: seq<byte>, odd: bool)
    ensures 2 * ByteSum(data, odd) <= 0xFFFF * (|data| + 1)
    ensures 2 * ByteSum(data, odd) <= 0xFFFF * |data| + if OddAfter(odd, |data|) then 0xFF00 else 0xFF
  {
    if data != [] {
      ByteSumBound(data[..|data| - 1], odd);
    }
  }

  /** Folding is reduction modulo 65535 that keeps zero apart from 65535. */
  lemma {:induction false} FoldIsOnesComplement(x: nat)
    ensures Fold(x) == if x == 0 then 0 else (x - 1) % 0xFFFF + 1
    decreases x
  {
    if x > 0xFFFF {
      var hi, lo := x / 0x1_0000, x % 0x1_0000;
      FoldIsOnesComplement(hi + lo);
      assert x - 1 == hi * 0xFFFF + (hi + lo - 1);
      ModShift(hi + lo - 1, hi);
    }
  }

  lemma ModShift(a: nat, k: nat)
    ensures (a + k * 0xFFFF) % 0xFFFF == a % 0xFFFF
  {
  }

  /** Adding the complement of a total to that total folds to all ones, so a re-check gives 0. */
  lemma RecheckIsZero(total: nat)
    ensures Complement(total + Complement(total)) == 0
  {
    FoldIsOnesComplement(total);
    FoldIsOnesComplement(total + Complement(total));
    if total > 0 {
      var k := (total - 1) / 0xFFFF;
      assert total - 1 == k * 0xFFFF + (total - 1) % 0xFFFF;
      assert total + Complement(total) - 1 == 0xFFFE + k * 0xFFFF;
      ModShift(0xFFFE, k);
    }
  }

  /** A 16-bit field at an even offset contributes its value to the sum. */
  lemma FieldAddsItsValue(before: seq<byte>, v: u16, after: seq<byte>)
    requires |before| % 2 == 0
    ensures ByteSum(before + [v / 256, v % 256] + after, false) ==
            ByteSum(before + [0, 0] + after, false) + v
  {
    TwoBytes(v / 256, v % 256);
    TwoBytes(0, 0);
    ByteSumAppend(before, [v / 256, v % 256], false);
    ByteSumAppend(before, [0, 0], false);
    ByteSumAppend(before + [v / 256, v % 256], after, false);
    ByteSumAppend(before + [0, 0], after, false);
  }

  lemma TwoBytes(a: byte, b: byte)
    ensures ByteSum([a, b], false) == a * 256 + b
  {
    assert [a] + [b] == [a, b];
    ByteSumAppend([a], [b], false);
    OneByte(a, false);
    OneByte(b, true);
  }

  lemma OneByte(a: byte, odd: bool)
    ensures ByteSum([a], odd) == Weighted(a, odd)
  {
    assert [a][..0] == [];
  }

  /** The checksum of section 2 of RFC 1071: computed over a zeroed 16-bit-aligned field and
      stored there, it makes the check over the whole come out as zero. */
  lemma StoredChecksumVerifies(initial: nat, before: seq<byte>, after: seq<byte>)
    requires |before| % 2 == 0
    ensures var zeroed := initial + ByteSum(before + [0, 0] + after, false);
            var v := Complement(zeroed);
            Complement(initial + ByteSum(before + [v / 256, v % 256] + after, false)) == 0
  {
    var zeroed := initial + ByteSum(before + [0, 0] + after, false);
    FieldAddsItsValue(before, Complement(zeroed), after);
    RecheckIsZero(zeroed);
  }

  /** A total passes the check exactly when it is a positive multiple of 65535. */
  lemma PassesExactly(total: nat)
    ensures Complement(total) == 0 <==> total > 0 && total % 0xFFFF == 0
  {
    FoldIsOnesComplement(total);
  }

  /** Comparing a stored checksum with a computed one is the re-check, but for the stored value of all
      ones: no positive total has it as its complement. */
  lemma ComparedExactly(total: nat, stored: u16)
    requires total > 0
    ensures Complement(total) == stored <==> stored != 0xFFFF && Complement(total + stored) == 0
  {
    FoldIsOnesComplement(total);
    PassesExactly(total + stored);
    var c := Complement(total);
    var k := (total - 1) / 0xFFFF;
    assert total - 1 == k * 0xFFFF + (total - 1) % 0xFFFF;
    assert total + c == (k + 1) * 0xFFFF;
    assert (total + c) % 0xFFFF == 0;
    if (total + stored) % 0xFFFF == 0 {
      NotBothMultiples(total + c, total + stored);
    }
    hide Fold;
  }

  lemma ByteSumUpdate(data: seq<byte>, i: nat, b: byte)
    requires i < |data|
    ensures ByteSum(data[i := b], false) - ByteSum(data, false)
            == Weighted(b, OddAfter(false, i)) - Weighted(data[i], OddAfter(false, i))
  {
    var before, after := data[..i], data[i + 1..];
    assert data == before + [data[i]] + after && data[i := b] == before + [b] + after;
    ByteSumAppend(before + [data[i]], after, false);
    ByteSumAppend(before + [b], after, false);
    ByteSumAppend(before, [data[i]], false);
    ByteSumAppend(before, [b], false);
    OneByte(data[i], OddAfter(false, i));
    OneByte(b, OddAfter(false, i));
  }

  lemma NotBothMultiples(x: nat, y: nat)
    requires x % 0xFFFF == 0 && y % 0xFFFF == 0
    ensures x == y || x >= y + 0xFFFF || y >= x + 0xFFFF
  {
  }

  /** A string that passes the check fails it once any single byte is altered. */
  lemma AlteredByteDetected(initial: nat, data: seq<byte>, i: nat, b: byte)
    requires i < |data| && b != data[i]
    requires Complement(initial + ByteSum(data, false)) == 0
    ensures Complement(initial + ByteSum(data[i := b], false)) != 0
  {
    hide Complement;
    hide ByteSum;
    hide OddAfter;
    ByteSumUpdate(data, i, b);
    PassesExactly(initial + ByteSum(data, false));
    PassesExactly(initial + ByteSum(data[i := b], false));
    if Complement(initial + ByteSum(data[i := b], false)) == 0 {
      NotBothMultiples(initial + ByteSum(data, false), initial + ByteSum(data[i := b], false));
    }
  }

  class InternetChecksum {
    var sum: u32
    var parity: bool

    constructor (initial: u32)
      ensures sum == initial && !parity
    {
      sum, parity := initial, false;
    }

    method Add(data: seq<byte>)
      modifies this
      ensures sum == (old(sum) + ByteSum(data, old(parity))) % TWO_32
      ensures parity == OddAfter(old(parity), |data|)
    {
      for i := 0 to |data|
        invariant sum == (old(sum) + ByteSum(data[..i], old(parity))) % TWO_32
        invariant parity == OddAfter(old(parity), i)
      {
        var val: int := data[i];
        assert data[..i + 1][..i] == data[..i];
        WrappedSum(old(sum) + ByteSum(data[..i], old(parity)), Weighted(data[i], parity));
        if !parity {
          sum := (sum + val * 256) % TWO_32;
        } else {
          sum := (sum + val) % TWO_32;
        }
        parity := !parity;
      }
      assert data[..|data|] == data;
    }

    /** Over a list of strings: only their concatenation matters, odd lengths included. */
    method AddAll(chunks: Chunks)
      modifies this
      ensures sum == (old(sum) + ByteSum(Flat(chunks), old(parity))) % TWO_32
      ensures parity == OddAfter(old(parity), |Flat(chunks)|)
    {
      ghost var start, odd := sum, parity;
      assert Flat(chunks[..0]) == [];
      for i := 0 to |chunks|
        invariant sum == (start + ByteSum(Flat(chunks[..i]), odd)) % TWO_32
        invariant parity == OddAfter(odd, |Flat(chunks[..i])|)
      {
        assert chunks[..i + 1] == chunks[..i] + [chunks[i]];
        ghost var before := Flat(chunks[..i]);
        FlatSnoc(chunks[..i], chunks[i]);
        AddStep(start, odd, before, chunks[i]);
        hide Flat;
        hide ByteSum;
        hide OddAfter;
        Add(chunks[i]);
      }
      assert chunks[..|chunks|] == chunks;
    }

    method Value() returns (v: u16)
      ensures v == Complement(sum)
    {
      var ret := sum;
      while ret > 0xFFFF
        invariant Fold(ret) == Fold(sum)
      {
        ret := ret / 0x1_0000 + ret % 0x1_0000;
      }
      v := 0xFFFF - ret;
    }
  }

  /** Adding one more string to the sum over `before`. */
  lemma AddStep(start: nat, odd: bool, before: seq<byte>, chunk: seq<byte>)
    ensures ((start + ByteSum(before, odd)) % TWO_32 + ByteSum(chunk, OddAfter(odd, |before|))) % TWO_32
            == (start + ByteSum(before + chunk, odd)) % TWO_32
    ensures OddAfter(OddAfter(odd, |before|), |chunk|) == OddAfter(odd, |before + chunk|)
  {
    hide ByteSum;
    hide OddAfter;
    ByteSumAppend(before, chunk, odd);
    OddTwice(odd, |before|, |chunk|);
    var x, y := start + ByteSum(before, odd), ByteSum(chunk, OddAfter(odd, |before|));
    assert x + y == start + ByteSum(before + chunk, odd);
    WrappedSum(x, y);
  }

  lemma OddTwice(odd: bool, m: nat, n: nat)
    ensures OddAfter(OddAfter(odd, m), n) == OddAfter(odd, m + n)
  {
  }

  lemma WrappedSum(a: nat, b: nat)
    ensures (a % TWO_32 + b) % TWO_32 == (a + b) % TWO_32
  {
  }
}
