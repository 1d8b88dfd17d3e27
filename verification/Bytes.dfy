/** Machine words and byte strings shared by every other module. */
module Bytes {

  const TWO_16: int := 0x1_0000
  const TWO_32: int := 0x1_0000_0000
  const TWO_64: int := 0x1_0000_0000_0000_0000

  type byte = x: int | 0 <= x < 0x100
  type u16 = x: int | 0 <= x < 0x1_0000
  type u32 = x: int | 0 <= x < 0x1_0000_0000
  type u64 = x: int | 0 <= x < 0x1_0000_0000_0000_0000

  type Chunks = seq<seq<byte>>

  function Min(a: int, b: int): int {
    if a <= b then a else b
  }

  function Max(a: int, b: int): int {
    if a <= b then b else a
  }

  /** The text of a deque or vector of strings: all of them, one after the other. */
  function Flat(chunks: Chunks): seq<byte> {
    if chunks == [] then [] else chunks[0] + Flat(chunks[1..])
  }

  /** No string in the list is empty. */
  predicate NoEmptyChunk(chunks: Chunks) {
    forall i :: 0 <= i < |chunks| ==> chunks[i] != []
  }

  lemma SmallWord(x: nat)
    requires x < TWO_64
    ensures x % TWO_64 == x
  {
  }

  lemma ConcatAssoc<T>(a: seq<T>, b: seq<T>, c: seq<T>)
    ensures a + b + c == a + (b + c)
  {
  }

  lemma {:induction false} FlatAppend(a: Chunks, b: Chunks)
    ensures Flat(a + b) == Flat(a) + Flat(b)
  {
    if a == [] {
      assert a + b == b;
    } else {
      assert (a + b)[1..] == a[1..] + b;
      FlatAppend(a[1..], b);
    }
  }

  lemma FlatOfNothing()
    ensures Flat([]) == []
  {
  }

  lemma FlatSnoc(a: Chunks, last: seq<byte>)
    ensures Flat(a + [last]) == Flat(a) + last
  {
    FlatAppend(a, [last]);
    assert [last][1..] == [];
  }

  lemma FlatEmpty(chunks: Chunks)
    requires NoEmptyChunk(chunks)
    ensures Flat(chunks) == [] <==> chunks == []
  {
    if chunks != [] {
      assert chunks[0] != [];
    }
  }
}
