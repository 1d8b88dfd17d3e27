/** Overlapping, duplicated and reordered substrings put back together in a byte buffer
    and a bitmap of the same length. */
module Reassemblers {
  import opened Bytes
  import ByteStreams

  /** What a call returns: its result, or an access outside the buffers (an
      `out_of_range` exception, or a read past the end of the bitmap). */
  datatype Outcome<+T> = Ok(value: T) | OutOfRange

  datatype ReassemblerState = ReassemblerState(
    output: ByteStreams.Stream, cur: nat, seenLast: bool, totalLen: nat,
    storage: seq<byte>, bitmap: seq<bool>) {

    function Capacity(): nat {
      output.capacity
    }

    function Pushed(): nat {
      |output.Pushed()|
    }

    predicate Valid() {
      && 0 < output.capacity < 0x8000_0000
      && |storage| == |bitmap|
      && (bitmap == [] || output.capacity <= |bitmap|)
    }

    predicate IsValidIndex(index: nat)
      requires 0 < Capacity()
    {
      if Pushed() < Capacity() then
        cur <= index < cur + Capacity()
      else
        Mod(cur, Capacity()) <= Mod(index, Capacity()) < Mod(cur, Capacity()) + Capacity()
    }

    /** The buffers are created by the first insertion. */
    function Allocate(): (r: ReassemblerState)
      ensures Valid() ==> r.Valid() && r.bitmap != []
    {
      if storage == [] && bitmap == [] then
        this.(storage := Fill('0' as int, Capacity()), bitmap := Fill(false, Capacity()))
      else this
    }

    /** The bytes of a substring from the next expected index on. */
    function Fresh(first: nat, data: seq<byte>): seq<byte> {
      if first <= cur < first + |data| then data[cur - first..] else []
    }

    /** A substring that leaves no gap: as much as fits goes straight to the output. */
    function TakeInOrder(first: nat, data: seq<byte>): (r: ReassemblerState)
      ensures r.Capacity() == Capacity() && r.bitmap == bitmap && r.storage == storage
    {
      var text := Substr(Fresh(first, data), output.Available());
      ByteStreams.PushRefinesQueue(output, text);
      this.(output := output.Push(text), cur := cur + |text|)
    }

    /** Where a substring beyond a gap is kept, and how many of its bytes. */
    function StashAt(first: nat): nat
      requires 0 < Capacity()
    {
      if Pushed() < Capacity() then first else Mod(first, Capacity())
    }

    function StashRoom(first: nat): int
      requires 0 < Capacity()
    {
      if Pushed() < Capacity() then Capacity() - 1 - first + 1
      else Capacity() - 1 - (Mod(first, Capacity()) + 1)
    }

    function Stash(first: nat, data: seq<byte>): (r: Outcome<ReassemblerState>)
      requires 0 < Capacity()
      ensures Valid() && bitmap != [] && r.Ok? ==> r.value.Valid() && r.value.bitmap != [] && r.value.output == output
    {
      var text := Substr(data, StashRoom(first));
      var at := StashAt(first);
      if at > |storage| || at > |bitmap| then OutOfRange
      else Ok(this.(storage := Replace(storage, at, text), bitmap := Replace(bitmap, at, Fill(true, |text|))))
    }

    /** Where the next expected byte would be kept. */
    function FlushAt(): nat
      requires 0 < Capacity()
    {
      if Pushed() > Capacity() then Mod(cur, Capacity()) else cur
    }

    /** The run of kept bytes at `at` goes to the output; every mark before it is cleared. */
    function Flush(at: nat): (r: ReassemblerState)
      requires at <= |bitmap| == |storage|
      ensures r.Capacity() == Capacity() && |r.bitmap| == |bitmap| && r.storage == storage
    {
      var count := RunLength(bitmap, at);
      ByteStreams.PushRefinesQueue(output, storage[at..at + count]);
      this.(output := output.Push(storage[at..at + count]),
            cur := cur + count,
            bitmap := Fill(false, at + count) + bitmap[at + count..])
    }

    /** The end marker is noted, and the output closed once everything has been pushed. */
    function Finish(first: nat, data: seq<byte>, last: bool): (r: ReassemblerState)
      ensures r.Capacity() == Capacity() && r.bitmap == bitmap && r.storage == storage
    {
      var r := if last then this.(seenLast := true, totalLen := (first + |data|) % TWO_64) else this;
      if r.seenLast && r.Pushed() == r.totalLen then r.(output := r.output.Close()) else r
    }

    function Insert(first: nat, data: seq<byte>, last: bool): (r: Outcome<ReassemblerState>)
      requires Valid()
      ensures r.Ok? ==> r.value.Valid() && r.value.Capacity() == Capacity()
    {
      var r := Allocate();
      if first > cur && !r.IsValidIndex(first) then Ok(r)
      else
        var stored := if first <= cur then Ok(r.TakeInOrder(first, data)) else r.Stash(first, data);
        match stored
        case OutOfRange => OutOfRange
        case Ok(r) =>
          if r.FlushAt() > |r.bitmap| then OutOfRange
          else Ok(r.Flush(r.FlushAt()).Finish(first, data, last))
    }

    function BytesPending(): nat {
      CountTrue(bitmap)
    }
  }

  function NewReassembler(capacity: nat): ReassemblerState {
    ReassemblerState(ByteStreams.StreamState(capacity, [], [], false, false), 0, false, 0, [], [])
  }

  /** The remainder, under a name that proofs can hide: the divisor is a variable. */
  function Mod(a: nat, n: nat): (m: nat)
    requires n > 0
    ensures m < n
  {
    a % n
  }

  function Fill<T>(x: T, n: nat): (s: seq<T>)
    ensures |s| == n && forall i :: 0 <= i < n ==> s[i] == x
  {
    seq(n, _ => x)
  }

  /** `substr(0, n)`; a length that went below zero is a huge unsigned number. */
  function Substr(data: seq<byte>, n: int): seq<byte> {
    if 0 <= n < |data| then data[..n] else data
  }

  /** `replace(at, |text|, text)`: overwrites, and grows a string that is too short. */
  function Replace<T>(s: seq<T>, at: nat, text: seq<T>): seq<T>
    requires at <= |s|
  {
    s[..at] + text + s[Min(at + |text|, |s|)..]
  }

  function RunLength(bitmap: seq<bool>, at: nat): (n: nat)
    requires at <= |bitmap|
    ensures at + n <= |bitmap|
    ensures forall i :: at <= i < at + n ==> bitmap[i]
    ensures at + n < |bitmap| ==> !bitmap[at + n]
    decreases |bitmap| - at
  {
    if at < |bitmap| && bitmap[at] then 1 + RunLength(bitmap, at + 1) else 0
  }

  function CountTrue(bitmap: seq<bool>): nat {
    if bitmap == [] then 0
    else CountTrue(bitmap[..|bitmap| - 1]) + if bitmap[|bitmap| - 1] then 1 else 0
  }

  /** Flushing step by step: push, clear the run, clear what lies before it. */
  lemma FlushParts(r: ReassemblerState, at: nat)
    requires at <= |r.bitmap| == |r.storage|
    ensures var count := RunLength(r.bitmap, at);
            && r.Flush(at).output == r.output.Push(r.storage[at..at + count])
            && r.Flush(at).bitmap == Replace(Replace(r.bitmap, at, Fill(false, count)), 0, Fill(false, at))
            && (count == 0 ==> r.Flush(at).output == r.output
                               && r.Flush(at).bitmap == Replace(r.bitmap, 0, Fill(false, at)))
            && |r.Flush(at).bitmap| == |r.bitmap|
  {
  }

  class Reassembler {
    const output: ByteStreams.ByteStream
    const storageCapacity: nat
    var curIndex: nat
    const finalIndex: int
    var totalLen: nat
    var seenLast: bool
    var storage: seq<byte>
    var bitmap: seq<bool>

    ghost predicate Valid()
      reads this, output
    {
      && output.Valid()
      && storageCapacity == output.capacity
      && finalIndex == storageCapacity - 1
      && View().Valid()
    }

    ghost function View(): ReassemblerState
      requires output.Valid()
      reads this, output
    {
      ReassemblerState(output.View(), curIndex, seenLast, totalLen, storage, bitmap)
    }

    constructor (output: ByteStreams.ByteStream)
      requires output.Valid() && 0 < output.capacity < 0x8000_0000
      ensures this.output == output && Valid()
      ensures View() == NewReassembler(output.capacity).(output := output.View())
    {
      this.output := output;
      storageCapacity := output.capacity;
      finalIndex := output.capacity - 1;
      curIndex, totalLen, seenLast, storage, bitmap := 0, 0, false, [], [];
    }

    predicate IsValidIndex(index: nat)
      requires Valid()
      reads this, output
      ensures IsValidIndex(index) == View().IsValidIndex(index)
    {
      if output.BytesPushed() < storageCapacity then
        index >= curIndex && index < curIndex + storageCapacity
      else
        var newIndex := Mod(index, storageCapacity);
        newIndex >= Mod(curIndex, storageCapacity) && newIndex < Mod(curIndex, storageCapacity) + storageCapacity
    }

    function LastIndex(): int
      reads this
    {
      finalIndex
    }

    /** On `!ok` the C++ has thrown or read out of bounds, and nothing is promised. */
    method Insert(first: nat, data: seq<byte>, last: bool) returns (ok: bool)
      requires Valid()
      modifies this`curIndex, this`totalLen, this`seenLast, this`storage, this`bitmap
      modifies output`deck, output`totalPushed, output`bytesInDeck, output`closed
      ensures ok <==> old(View()).Insert(first, data, last).Ok?
      ensures ok ==> Valid() && View() == old(View()).Insert(first, data, last).value
    {
      Allocate();
      if first <= curIndex {
        TakeInOrder(first, data);
      } else {
        if !IsValidIndex(first) {
          return true;
        }
        ok := Stash(first, data);
        if !ok {
          return;
        }
      }

      ok := FlushAndFinish(first, data, last);
    }

    /** The second half of `insert`: push what has become contiguous, note the end marker. */
    method FlushAndFinish(first: nat, data: seq<byte>, last: bool) returns (ok: bool)
      requires Valid() && bitmap != []
      modifies this`curIndex, this`totalLen, this`seenLast, this`bitmap
      modifies output`deck, output`totalPushed, output`bytesInDeck, output`closed
      ensures ok <==> old(View().FlushAt() <= |bitmap|)
      ensures ok ==> Valid() && View() == old(View().Flush(View().FlushAt()).Finish(first, data, last))
    {
      var newCurIndex := curIndex;
      if output.BytesPushed() > storageCapacity {
        newCurIndex := Mod(newCurIndex, storageCapacity);
      }
      if newCurIndex > |bitmap| {
        return false;
      }
      Flush(newCurIndex);
      Finish(first, data, last);
      ok := true;
    }

    method Allocate()
      requires Valid()
      modifies this`storage, this`bitmap
      ensures Valid() && View() == old(View()).Allocate()
    {
      if storage == [] && bitmap == [] {
        storage := Fill('0' as int, storageCapacity);
        bitmap := Fill(false, storageCapacity);
      }
    }

    /** The two branches without a gap: at the next expected index, or before it. */
    method TakeInOrder(first: nat, data: seq<byte>)
      requires Valid() && first <= curIndex
      modifies this`curIndex, output`deck, output`totalPushed, output`bytesInDeck
      ensures Valid() && View() == old(View()).TakeInOrder(first, data)
    {
      hide Flat;
      hide NoEmptyChunk;
      ghost var r := View();
      ByteStreams.PushRefinesQueue(r.output, Substr(r.Fresh(first, data), r.output.Available()));
      if first == curIndex {
        assert r.Fresh(first, data) == data;
        var text := Substr(data, output.AvailableCapacity());
        output.Push(text);
        curIndex := curIndex + |text|;
      } else {
        var i := 0;
        while i < |data|
          invariant 0 <= i <= |data| && first + i <= curIndex
          invariant View() == r && Valid()
        {
          if first + i == curIndex {
            var text := Substr(data[i..], output.AvailableCapacity());
            output.Push(text);
            curIndex := curIndex + |text|;
            return;
          }
          i := i + 1;
        }
      }
    }

    method Stash(first: nat, data: seq<byte>) returns (ok: bool)
      requires Valid() && bitmap != []
      modifies this`storage, this`bitmap
      ensures ok <==> old(View()).Stash(first, data).Ok?
      ensures ok ==> Valid() && View() == old(View()).Stash(first, data).value
    {
      var at, text;
      if output.BytesPushed() < storageCapacity {
        at, text := first, Substr(data, LastIndex() - first + 1);
      } else {
        at, text := Mod(first, storageCapacity), Substr(data, LastIndex() - (Mod(first, storageCapacity) + 1));
      }
      if at > |storage| {
        return false;
      }
      storage := Replace(storage, at, text);
      bitmap := Replace(bitmap, at, Fill(true, |text|));
      ok := true;
    }

    /** Push the run of marked bytes, then clean up the marks behind. */
    method Flush(newCurIndex: nat)
      requires Valid() && bitmap != [] && newCurIndex <= |bitmap|
      modifies this`curIndex, this`bitmap, output`deck, output`totalPushed, output`bytesInDeck
      ensures Valid() && View() == old(View()).Flush(newCurIndex)
    {
      hide Flat;
      hide NoEmptyChunk;
      hide RunLength;
      ghost var r := View();
      var count := CountRun(newCurIndex);
      var text := storage[newCurIndex..newCurIndex + count];
      FlushParts(r, newCurIndex);
      if count > 0 {
        output.Push(text);
        bitmap := Replace(bitmap, newCurIndex, Fill(false, count));
        curIndex := curIndex + |text|;
      }
      bitmap := Replace(bitmap, 0, Fill(false, newCurIndex));
    }

    method CountRun(newCurIndex: nat) returns (count: nat)
      requires newCurIndex <= |bitmap|
      ensures count == RunLength(bitmap, newCurIndex)
    {
      count := 0;
      if newCurIndex < |bitmap| && bitmap[newCurIndex] {
        count := 1;
        var i := newCurIndex + 1;
        while i < |bitmap|
          invariant newCurIndex < i <= |bitmap| && count == i - newCurIndex
          invariant RunLength(bitmap, newCurIndex) == count + RunLength(bitmap, i)
        {
          if !bitmap[i] {
            break;
          }
          count := count + 1;
          i := i + 1;
        }
      }
    }

    method Finish(first: nat, data: seq<byte>, last: bool)
      requires Valid()
      modifies this`seenLast, this`totalLen, output`closed
      ensures Valid() && View() == old(View()).Finish(first, data, last)
    {
      if last {
        seenLast := true;
        totalLen := (first + |data|) % TWO_64;
      }
      if seenLast && output.BytesPushed() == totalLen {
        output.Close();
      }
    }

    method BytesPending() returns (count: nat)
      ensures count == CountTrue(bitmap)
    {
      count := 0;
      for i := 0 to |bitmap|
        invariant count == CountTrue(bitmap[..i])
      {
        assert bitmap[..i + 1][..i] == bitmap[..i];
        if bitmap[i] {
          count := count + 1;
        }
      }
      assert bitmap[..|bitmap|] == bitmap;
    }
  }
}
