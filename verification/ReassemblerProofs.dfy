/** The reassembler agrees with the set of stream indices seen so far. */
module ReassemblerProofs {
  import opened Bytes
  import ByteStreams
  import opened Reassemblers

  // ---------- What the buffers stand for ----------

  /** The cell read for index `cur`: the index itself until more than `capacity` bytes have been
      pushed, and its remainder after that. */
  function PositionAt(capacity: nat, pushed: nat, cur: nat): nat {
    if pushed > capacity > 0 then Mod(cur, capacity) else cur
  }

  function Position(r: ReassemblerState): nat {
    PositionAt(r.Capacity(), r.Pushed(), r.cur)
  }

  /** Index `i` of the stream has been pushed, or the cell that will be read for it is marked. */
  predicate Known(r: ReassemblerState, i: nat) {
    i < r.cur || (Position(r) + (i - r.cur) < |r.bitmap| && r.bitmap[Position(r) + (i - r.cur)])
  }

  predicate NoPending(r: ReassemblerState) {
    forall i :: 0 <= i < |r.bitmap| ==> !r.bitmap[i]
  }

  /** No mark at or after index `at` of the bitmap. */
  predicate NoneFrom(r: ReassemblerState, at: nat) {
    forall i :: at <= i < |r.bitmap| ==> !r.bitmap[i]
  }

  /** `data` is the part of `stream` that starts at `first`. */
  predicate IsFragment(stream: seq<byte>, first: nat, data: seq<byte>) {
    data == [] || (first + |data| <= |stream| && data == stream[first..first + |data|])
  }

  /** The indices a receiver may accept: below what the reader has taken plus the capacity. */
  function WindowEnd(r: ReassemblerState): nat {
    |r.output.popped| + r.Capacity()
  }

  /** The output is a prefix of the stream, counted by `cur` unless an end marker came too early. */
  predicate InStep(r: ReassemblerState, stream: seq<byte>) {
    && r.Valid()
    && (r.bitmap == [] || |r.bitmap| == r.Capacity())
    && r.Pushed() <= r.cur <= |stream|
    && r.output.Pushed() == stream[..r.Pushed()]
    && (r.output.closed || r.Pushed() == r.cur)
    && (r.Pushed() == r.cur || r.cur <= r.Capacity())
  }

  /** Cell `j` holds the stream's own byte of the index it will be read for, inside the window. */
  predicate Holds(r: ReassemblerState, stream: seq<byte>, j: nat)
    requires j < |r.bitmap| == |r.storage| && Position(r) <= j
  {
    var i := r.cur + (j - Position(r));
    i < |stream| && i < WindowEnd(r) && r.storage[j] == stream[i]
  }

  /** Everything held agrees with the stream; marks before the position are leftovers that the next
      flush clears. */
  predicate Core(r: ReassemblerState, stream: seq<byte>) {
    && InStep(r, stream)
    && (r.output.closed && r.cur > r.Capacity() && Position(r) < |r.bitmap| ==> !r.bitmap[Position(r)])
    && (forall j :: Position(r) <= j < |r.bitmap| && r.bitmap[j] ==> Holds(r, stream, j))
  }

  /** Between calls every mark lies beyond the position, so `cur` is the length of the longest
      known prefix. */
  predicate Good(r: ReassemblerState, stream: seq<byte>) {
    && Core(r, stream)
    && (forall j :: 0 <= j < |r.bitmap| && r.bitmap[j] ==> Position(r) < j)
  }

  predicate InFragment(first: nat, data: seq<byte>, i: nat) {
    first <= i < first + |data|
  }

  /** What one call owes to the stream: no access leaves the buffers, which keep their size, exactly
      the fragment's bytes inside the window become known, and the output is the longest known prefix. */
  ghost predicate KeepsBytes(r: ReassemblerState, stream: seq<byte>, first: nat, data: seq<byte>, last: bool)
    requires r.Valid()
  {
    var result := r.Insert(first, data, last);
    && result.Ok?
    && Good(result.value, stream)
    && result.value.output.popped == r.output.popped
    && (forall i: nat :: Known(result.value, i) <==>
          Known(r, i) || (InFragment(first, data, i) && i < WindowEnd(r)))
  }

  /** What one call owes to the end marker: it is noted, and the output closed once everything up to
      it has been pushed. */
  predicate EndNoted(r: ReassemblerState, r': ReassemblerState, first: nat, data: seq<byte>, last: bool) {
    && r'.seenLast == (r.seenLast || last)
    && r'.totalLen == (if last then (first + |data|) % TWO_64 else r.totalLen)
    && (r'.output.closed <==> r.output.closed || (r'.seenLast && r'.Pushed() == r'.totalLen))
  }

  /** The header's contract for one call. */
  ghost predicate MeetsContract(r: ReassemblerState, stream: seq<byte>, first: nat, data: seq<byte>, last: bool)
    requires r.Valid()
  {
    && KeepsBytes(r, stream, first, data, last)
    && EndNoted(r, r.Insert(first, data, last).value, first, data, last)
  }

  // ---------- Remainders ----------

  lemma UniqueMod(x: nat, q: nat, m: nat, c: nat)
    requires x == q * c + m && m < c
    ensures Mod(x, c) == m && x / c == q
  {
    var q', m' := x / c, x % c;
    assert (q' - q) * c == m - m';
    if q' != q {
      MultipleNotSmall(q' - q, c);
    }
  }

  lemma MultipleNotSmall(k: int, c: int)
    requires k != 0 && c > 0
    ensures k * c >= c || k * c <= -c
  {
    MultipleGrows(if k > 0 then k else -k, c);
    assert (-k) * c == -(k * c);
  }

  lemma {:induction false} MultipleGrows(k: nat, c: nat)
    requires k > 0
    ensures k * c >= c
  {
    if k > 1 {
      MultipleGrows(k - 1, c);
      assert k * c == (k - 1) * c + c;
    }
  }

  lemma ModSplit(x: nat, c: nat)
    requires c > 0
    ensures x == (x / c) * c + Mod(x, c)
  {
  }

  /** Moving on inside a block, or exactly to its end. */
  lemma ModStep(x: nat, k: nat, c: nat)
    requires c > 0 && Mod(x, c) + k <= c
    ensures Mod(x + k, c) == if Mod(x, c) + k < c then Mod(x, c) + k else 0
  {
    ModSplit(x, c);
    var q, m := x / c, Mod(x, c);
    if m + k < c {
      UniqueMod(x + k, q, m + k, c);
    } else {
      assert (q + 1) * c == q * c + c;
      UniqueMod(x + k, q + 1, 0, c);
    }
  }

  /** Two indices lie in the same block of `c`, or their blocks are `c` apart at least. */
  lemma ModBlocks(x: nat, y: nat, c: nat)
    requires c > 0 && x <= y
    ensures y - Mod(y, c) == x - Mod(x, c) || y - Mod(y, c) >= x - Mod(x, c) + c
  {
    ModSplit(x, c);
    ModSplit(y, c);
    var p, q := x / c, y / c;
    assert (q - p) * c == (y - Mod(y, c)) - (x - Mod(x, c));
    if q != p {
      MultipleNotSmall(q - p, c);
    }
  }

  /** Less than `c` ahead and not before it in its block: then in the same block. */
  lemma ModWindow(x: nat, y: nat, c: nat)
    requires c > 0 && x < y < x + c && Mod(x, c) <= Mod(y, c)
    ensures y - x == Mod(y, c) - Mod(x, c)
  {
    ModBlocks(x, y, c);
  }

  // ---------- The steps of one insertion ----------

  lemma AllocateGood(r: ReassemblerState, stream: seq<byte>)
    requires Good(r, stream)
    ensures Good(r.Allocate(), stream) && r.Allocate().bitmap != []
    ensures forall i: nat :: Known(r.Allocate(), i) <==> Known(r, i)
    ensures NoPending(r) ==> NoPending(r.Allocate())
    ensures |r.Allocate().bitmap| == |r.Allocate().storage| == r.Capacity()
    ensures r.Allocate() == r.(storage := r.Allocate().storage, bitmap := r.Allocate().bitmap)
    ensures Position(r.Allocate()) == Position(r)
  {
    hide Mod;
    hide Flat;
    hide NoEmptyChunk;
  }

  lemma FreshIsFragment(r: ReassemblerState, stream: seq<byte>, first: nat, data: seq<byte>)
    requires r.cur <= |stream| && IsFragment(stream, first, data)
    ensures var tail := r.Fresh(first, data);
            r.cur + |tail| <= |stream| && tail == stream[r.cur..r.cur + |tail|]
  {
    if first <= r.cur < first + |data| {
      assert data[r.cur - first..] == stream[r.cur..first + |data|];
    }
  }

  /** The output after `cur` stream bytes takes the next ones, or refuses them all once closed. */
  ghost predicate Follows(output: ByteStreams.Stream, stream: seq<byte>, cur: nat) {
    && |output.Pushed()| <= cur <= |stream|
    && output.Pushed() == stream[..|output.Pushed()|]
    && (output.closed || |output.Pushed()| == cur)
  }

  lemma PushFollows(output: ByteStreams.Stream, stream: seq<byte>, cur: nat, text: seq<byte>)
    requires Follows(output, stream, cur) && cur + |text| <= |stream| && text == stream[cur..cur + |text|]
    requires output.closed || |text| <= output.Available()
    ensures output.Push(text).Valid() && Follows(output.Push(text), stream, cur + |text|)
    ensures output.Push(text).closed == output.closed
    ensures output.Push(text).popped == output.popped && output.Push(text).capacity == output.capacity
    ensures |output.Push(text).Pushed()| == |output.Pushed()| + if output.closed then 0 else |text|
  {
    hide Flat;
    hide NoEmptyChunk;
    hide ByteStreams.StreamState.Push;
    ByteStreams.PushRefinesQueue(output, text);
    assert text[..|text|] == text;
    SliceJoin(stream, cur, |text|);
  }

  lemma SliceJoin(stream: seq<byte>, at: nat, n: nat)
    requires at + n <= |stream|
    ensures stream[..at] + stream[at..at + n] == stream[..at + n]
  {
  }

  /** The index the output reaches when a substring without a gap is taken. */
  function Reach(r: ReassemblerState, first: nat, data: seq<byte>): int {
    Max(r.cur, Min(first + |data|, WindowEnd(r)))
  }

  /** Where the next expected index moves when a substring without a gap is taken: a closed output
      leaves its free space unused, so the index can run ahead of the window. */
  function TakenEnd(r: ReassemblerState, first: nat, data: seq<byte>): nat {
    r.cur + |Substr(r.Fresh(first, data), r.output.Available())|
  }

  /** Taking a substring without a gap leaves every mark that is still to be read in its place:
      the position stays in the same block, or there is none from the new position on.  A closed
      output must not be outrun. */
  predicate TakesSafely(r: ReassemblerState, first: nat, data: seq<byte>) {
    if r.output.closed then
      TakenEnd(r, first, data) == r.cur || TakenEnd(r, first, data) <= r.Capacity()
    else
      var e := Reach(r, first, data);
      var at := PositionAt(r.Capacity(), e, e);
      e - at == r.cur - Position(r) || NoneFrom(r, at)
  }

  /** What taking a substring does to the output and the count. */
  lemma TakeShape(r: ReassemblerState, stream: seq<byte>, first: nat, data: seq<byte>)
    requires InStep(r, stream) && first <= r.cur && IsFragment(stream, first, data)
    ensures var r', e := r.TakeInOrder(first, data), TakenEnd(r, first, data);
            && r' == r.(output := r'.output, cur := e) && r.cur <= e <= |stream|
            && r'.output.popped == r.output.popped && r'.output.capacity == r.output.capacity
            && r'.output.closed == r.output.closed
            && r'.Pushed() == (if r.output.closed then r.Pushed() else e)
            && r'.output.Pushed() == stream[..r'.Pushed()]
            && (!r.output.closed ==> e == Reach(r, first, data))
            && (e == r.cur || e <= r.Capacity() ==> e == Reach(r, first, data))
  {
    hide Mod;
    hide Flat;
    hide NoEmptyChunk;
    hide ByteStreams.StreamState.Push;
    FreshIsFragment(r, stream, first, data);
    var tail := r.Fresh(first, data);
    var text := Substr(tail, r.output.Available());
    PrefixSlice(stream, r.cur, tail, text);
    TakenReach(r, first, data);
    hide ReassemblerState.Fresh;
    hide Substr;
    hide Reach;
    if r.output.closed {
      ByteStreams.PushRefinesQueue(r.output, text);
    } else {
      PushFollows(r.output, stream, r.cur, text);
    }
  }

  lemma PrefixSlice(stream: seq<byte>, at: nat, tail: seq<byte>, text: seq<byte>)
    requires at + |tail| <= |stream| && tail == stream[at..at + |tail|] && text <= tail
    ensures at + |text| <= |stream| && text == stream[at..at + |text|]
  {
  }

  /** How far taking goes, in terms of the window. */
  lemma TakenReach(r: ReassemblerState, first: nat, data: seq<byte>)
    requires first <= r.cur && r.Pushed() <= r.cur && (r.Pushed() == r.cur || r.cur <= r.Capacity())
    requires r.output.closed || r.Pushed() == r.cur
    ensures var e := TakenEnd(r, first, data);
            && (!r.output.closed ==> e == Reach(r, first, data))
            && (e == r.cur || e <= r.Capacity() ==> e == Reach(r, first, data))
            && e - r.cur <= r.output.Available()
            && Substr(r.Fresh(first, data), r.output.Available()) <= r.Fresh(first, data)
  {
    hide Flat;
    hide NoEmptyChunk;
    assert |r.output.Pushed()| == |r.output.popped| + r.output.Buffered();
  }

  /** In the same block every cell keeps its index. */
  lemma PlaceKept(r: ReassemblerState, r': ReassemblerState, stream: seq<byte>)
    requires Good(r, stream) && InStep(r', stream) && r'.bitmap == r.bitmap && r'.storage == r.storage
    requires r.cur <= r'.cur && r'.cur - Position(r') == r.cur - Position(r) && WindowEnd(r') == WindowEnd(r)
    requires r'.output.closed && r'.cur > r'.Capacity() ==> r'.cur == r.cur
    ensures Core(r', stream)
    ensures forall i: nat :: Known(r', i) <==> Known(r, i) || i < r'.cur
  {
    assert |r.bitmap| == |r.storage|;
    hide Position;
    hide InStep;
    forall j | Position(r') <= j < |r'.bitmap| && r'.bitmap[j]
      ensures Holds(r', stream, j)
    {
      assert Holds(r, stream, j);
    }
  }

  /** In another block nothing that was marked is still meant. */
  lemma PlaceLost(r: ReassemblerState, r': ReassemblerState, stream: seq<byte>)
    requires Good(r, stream) && InStep(r', stream) && r'.bitmap == r.bitmap && r'.storage == r.storage
    requires !r.output.closed && !r'.output.closed && r.cur <= r'.cur && WindowEnd(r') == WindowEnd(r)
    requires r'.cur - Position(r') != r.cur - Position(r) && NoneFrom(r, Position(r'))
    ensures Core(r', stream)
    ensures forall i: nat :: Known(r', i) <==> Known(r, i) || i < r'.cur
  {
    BlocksApart(r, r'.cur);
    forall i: nat
      ensures Known(r, i) ==> i < r'.cur
    {
    }
    hide Position;
    hide InStep;
  }

  /** The first index of the block that the buffers stand for. */
  lemma BlocksApart(r: ReassemblerState, e: nat)
    requires 0 < r.Capacity() && r.Pushed() == r.cur <= e
    ensures var at := PositionAt(r.Capacity(), e, e);
            && r.cur - Position(r) >= 0 && e - at >= 0
            && (e - at == r.cur - Position(r) || e - at >= r.cur - Position(r) + r.Capacity())
  {
    var c := r.Capacity();
    ModSplit(e, c);
    ModSplit(r.cur, c);
    ModBlocks(r.cur, e, c);
    ModBlocks(0, e, c);
    UniqueMod(0, 0, 0, c);
    if e > c {
      ModBlocks(c, e, c);
      assert 1 * c == c;
      UniqueMod(c, 1, 0, c);
    }
    hide Mod;
    hide Flat;
  }

  lemma TakeInOrderGood(r: ReassemblerState, stream: seq<byte>, first: nat, data: seq<byte>)
    requires Good(r, stream) && r.bitmap != [] && IsFragment(stream, first, data) && first <= r.cur
    requires TakesSafely(r, first, data)
    ensures var r' := r.TakeInOrder(first, data);
            && Core(r', stream)
            && r'.cur == Reach(r, first, data)
            && r'.bitmap == r.bitmap && r'.output.popped == r.output.popped
            && r'.output.capacity == r.output.capacity
            && (forall i: nat :: Known(r', i) <==> Known(r, i) || i < Reach(r, first, data))
  {
    hide Mod;
    hide Flat;
    hide NoEmptyChunk;
    hide Holds;
    TakeShape(r, stream, first, data);
    var r' := r.TakeInOrder(first, data);
    hide ReassemblerState.TakeInOrder;
    hide TakenEnd;
    hide Reach;
    assert InStep(r', stream);
    if r'.cur - Position(r') == r.cur - Position(r) {
      PlaceKept(r, r', stream);
    } else {
      PlaceLost(r, r', stream);
    }
  }

  /** Inside the first `capacity` bytes a substring is kept whole, at its own index. */
  lemma StashShape(r: ReassemblerState, first: nat, data: seq<byte>)
    requires r.Pushed() < r.Capacity() == |r.bitmap| == |r.storage| && first + |data| <= r.Capacity()
    ensures r.Stash(first, data).Ok?
    ensures var r' := r.Stash(first, data).value;
            && r' == r.(storage := r'.storage, bitmap := r'.bitmap) && |r'.storage| == |r'.bitmap| == |r.bitmap|
            && (forall i :: 0 <= i < |r.bitmap| ==>
                  && r'.bitmap[i] == (InFragment(first, data, i) || r.bitmap[i])
                  && r'.storage[i] == if InFragment(first, data, i) then data[i - first] else r.storage[i])
  {
    hide Mod;
    assert Substr(data, r.StashRoom(first)) == data;
  }

  lemma StashNothing(r: ReassemblerState, first: nat)
    requires 0 < r.Capacity() == |r.bitmap| == |r.storage|
    requires first <= r.Capacity() || r.Pushed() >= r.Capacity()
    ensures r.Stash(first, []) == Ok(r)
  {
    hide Mod;
    var at := r.StashAt(first);
    assert Replace(r.storage, at, []) == r.storage;
    assert Replace(r.bitmap, at, Fill(true, 0)) == r.bitmap;
  }

  /** A state that keeps more: the cells `at..at + |text|` now hold the bytes from index `from` on. */
  lemma KeepMore(r: ReassemblerState, r': ReassemblerState, stream: seq<byte>, at: nat, text: seq<byte>)
    requires Good(r, stream) && |r.bitmap| == |r.storage| == |r'.bitmap| == |r'.storage|
    requires r' == r.(storage := r'.storage, bitmap := r'.bitmap)
    requires Position(r) < at && at + |text| <= |r.bitmap|
    requires var from := r.cur + (at - Position(r));
             from + |text| <= |stream| && from + |text| <= WindowEnd(r) && text == stream[from..from + |text|]
    requires forall j :: 0 <= j < |r.bitmap| ==>
               && r'.bitmap[j] == (at <= j < at + |text| || r.bitmap[j])
               && r'.storage[j] == if at <= j < at + |text| then text[j - at] else r.storage[j]
    ensures Good(r', stream)
    ensures var from := r.cur + (at - Position(r));
            forall i: nat :: Known(r', i) <==> Known(r, i) || InFragment(from, text, i)
  {
    assert InStep(r', stream) && Position(r') == Position(r) by {
      hide Mod;
      hide Flat;
      hide NoEmptyChunk;
    }
    hide Position;
    hide InStep;
    forall j | Position(r') <= j < |r'.bitmap| && r'.bitmap[j]
      ensures Holds(r', stream, j)
    {
      assert r.bitmap[j] ==> Holds(r, stream, j);
    }
  }

  /** Keeping bytes beyond a gap in the linear buffer. */
  lemma StashGood(r: ReassemblerState, stream: seq<byte>, first: nat, data: seq<byte>)
    requires Good(r, stream) && r.bitmap != [] && IsFragment(stream, first, data)
    requires first > r.cur && SafeInsert(r, first, data)
    ensures r.Stash(first, data).Ok?
    ensures var r' := r.Stash(first, data).value;
            && Core(r', stream) && r'.output == r.output && r'.cur == r.cur
            && (forall i: nat :: Known(r', i) <==> Known(r, i) || InFragment(first, data, i))
  {
    hide Mod;
    hide ReassemblerState.Stash;
    hide Flat;
    hide NoEmptyChunk;
    hide Holds;
    if data == [] {
      StashNothing(r, first);
    } else {
      StashShape(r, first, data);
      KeepMore(r, r.Stash(first, data).value, stream, first, data);
    }
  }

  lemma FlushOutput(r: ReassemblerState, stream: seq<byte>)
    requires Core(r, stream) && r.bitmap != []
    ensures Position(r) == r.FlushAt() <= |r.bitmap|
    ensures var r', count := r.Flush(Position(r)), RunLength(r.bitmap, Position(r));
            && r'.cur == r.cur + count
            && InStep(r', stream) && r'.output.closed == r.output.closed
            && r'.Pushed() == (if r.output.closed then r.Pushed() else r'.cur)
            && r'.output.popped == r.output.popped && r'.output.capacity == r.output.capacity
            && (r.output.closed && r.cur > r.Capacity() ==> count == 0)
  {
    hide Mod;
    hide Flat;
    hide NoEmptyChunk;
    hide ByteStreams.StreamState.Push;
    hide RunLength;
    hide Holds;
    assert InStep(r, stream) && r.bitmap != [];
    FlushText(r, stream);
    hide Core;
    hide Position;
    hide ReassemblerState.FlushAt;
    var at := Position(r);
    PushFollows(r.output, stream, r.cur, r.storage[at..at + RunLength(r.bitmap, at)]);
  }

  lemma SliceEqual(a: seq<byte>, i: nat, b: seq<byte>, j: nat, n: nat)
    requires i + n <= |a| && j + n <= |b|
    requires forall k :: j <= k < j + n ==> a[k - j + i] == b[k]
    ensures a[i..i + n] == b[j..j + n]
  {
    var x, y := a[i..i + n], b[j..j + n];
    forall k | 0 <= k < n
      ensures x[k] == y[k]
    {
      assert a[(j + k) - j + i] == b[j + k];
    }
  }

  /** The run at the position is the stream's next bytes, and there is space for them. */
  lemma FlushText(r: ReassemblerState, stream: seq<byte>)
    requires Core(r, stream) && r.bitmap != []
    ensures Position(r) == r.FlushAt() <= |r.bitmap| == |r.storage|
    ensures var at, count := Position(r), RunLength(r.bitmap, Position(r));
            && r.cur + count <= |stream| && r.storage[at..at + count] == stream[r.cur..r.cur + count]
            && (r.output.closed || count <= r.output.Available())
            && (r.output.closed && r.cur > r.Capacity() ==> count == 0)
            && (r.output.closed ==> r.cur + count <= r.Capacity() || count == 0)
  {
    hide Mod;
    hide Flat;
    hide NoEmptyChunk;
    var at := Position(r);
    var count := RunLength(r.bitmap, at);
    assert |r.output.Pushed()| == |r.output.popped| + r.output.Buffered();
    assert at <= |r.bitmap| == |r.storage|;
    assert r.output.closed && r.cur <= r.Capacity() ==> at == r.cur;
    hide Position;
    RunHolds(r, stream, at, count);
    hide Core;
    hide RunLength;
    if count > 0 {
      assert Holds(r, stream, at + count - 1);
    }
    RunText(r, stream, at, count);
    hide Holds;
  }

  lemma RunHolds(r: ReassemblerState, stream: seq<byte>, at: nat, count: nat)
    requires Core(r, stream) && at == Position(r) <= |r.bitmap| && count == RunLength(r.bitmap, at)
    ensures |r.bitmap| == |r.storage|
    ensures forall j :: at <= j < at + count ==> Holds(r, stream, j)
  {
    assert |r.bitmap| == |r.storage|;
    hide Position;
    hide InStep;
    forall j | at <= j < at + count
      ensures Holds(r, stream, j)
    {
      assert r.bitmap[j];
    }
  }

  lemma RunText(r: ReassemblerState, stream: seq<byte>, at: nat, count: nat)
    requires at == Position(r) && at + count <= |r.bitmap| == |r.storage| && r.cur + count <= |stream|
    requires forall j :: at <= j < at + count ==> Holds(r, stream, j)
    ensures r.storage[at..at + count] == stream[r.cur..r.cur + count]
  {
    hide Position;
    forall k | r.cur <= k < r.cur + count
      ensures r.storage[k - r.cur + at] == stream[k]
    {
      assert Holds(r, stream, k - r.cur + at);
    }
    SliceEqual(r.storage, at, stream, r.cur, count);
  }

  lemma FlushBits(r: ReassemblerState, at: nat)
    requires at <= |r.bitmap| == |r.storage|
    ensures var r' := r.Flush(at);
            && r'.storage == r.storage && |r'.bitmap| == |r.bitmap|
            && (forall i :: 0 <= i < |r.bitmap| ==> r'.bitmap[i] == (at + RunLength(r.bitmap, at) < i && r.bitmap[i]))
  {
    hide Mod;
  }

  /** Where the position goes when a run is flushed: on inside the block, or to the next one. */
  lemma FlushPosition(r: ReassemblerState, r': ReassemblerState, count: nat)
    requires 0 < r.Capacity() == r'.Capacity() && Position(r) + count <= r.Capacity()
    requires r'.cur == r.cur + count && r.Pushed() <= r.cur && (r.Pushed() == r.cur || r.cur <= r.Capacity())
    requires r'.Pushed() == (if r.output.closed then r.Pushed() else r'.cur)
    requires r.output.closed || r.Pushed() == r.cur
    requires r.output.closed && r.cur > r.Capacity() ==> count == 0
    ensures Position(r) + count < r.Capacity() ==> Position(r') == Position(r) + count
  {
    if r.Pushed() > r.Capacity() {
      ModStep(r.cur, count, r.Capacity());
    }
    hide Mod;
    hide Flat;
  }

  lemma FlushGood(r: ReassemblerState, stream: seq<byte>)
    requires Core(r, stream) && r.bitmap != []
    ensures r.FlushAt() <= |r.bitmap|
    ensures var r' := r.Flush(r.FlushAt());
            && Good(r', stream) && r'.bitmap != [] && r'.output.popped == r.output.popped
            && r'.output.capacity == r.output.capacity && r.cur <= r'.cur
            && (forall i: nat :: Known(r', i) <==> Known(r, i))
            && (r.output.closed || r'.Pushed() == r'.cur)
  {
    FlushOutput(r, stream);
    var at := Position(r);
    var count := RunLength(r.bitmap, at);
    var r' := r.Flush(at);
    FlushBits(r, at);
    FlushPosition(r, r', count);
    assert WindowEnd(r') == WindowEnd(r);
    hide Mod;
    hide Flat;
    hide NoEmptyChunk;
    hide ReassemblerState.Flush;
    hide ReassemblerState.FlushAt;
    FlushMarks(r, r', stream, at, count);
  }

  lemma FlushMarks(r: ReassemblerState, r': ReassemblerState, stream: seq<byte>, at: nat, count: nat)
    requires Core(r, stream) && InStep(r', stream) && at == Position(r) <= |r.bitmap| == r.Capacity()
    requires count == RunLength(r.bitmap, at) && r'.cur == r.cur + count
    requires |r'.bitmap| == |r.bitmap| && r'.storage == r.storage && WindowEnd(r') == WindowEnd(r)
    requires forall j :: 0 <= j < |r.bitmap| ==> r'.bitmap[j] == (at + count < j && r.bitmap[j])
    requires at + count < |r.bitmap| ==> Position(r') == at + count
    ensures Good(r', stream)
    ensures forall i: nat :: Known(r', i) <==> Known(r, i)
  {
    assert |r.bitmap| == |r.storage|;
    hide Position;
    hide InStep;
    FlushKnown(r, r', at, count);
    hide RunLength;
    hide Known;
    forall j | Position(r') <= j < |r'.bitmap| && r'.bitmap[j]
      ensures Holds(r', stream, j)
    {
      assert Holds(r, stream, j);
    }
  }

  lemma FlushKnown(r: ReassemblerState, r': ReassemblerState, at: nat, count: nat)
    requires at == Position(r) <= |r.bitmap| == |r'.bitmap|
    requires count == RunLength(r.bitmap, at) && r'.cur == r.cur + count
    requires forall j :: 0 <= j < |r.bitmap| ==> r'.bitmap[j] == (at + count < j && r.bitmap[j])
    requires at + count < |r.bitmap| ==> Position(r') == at + count
    ensures forall i: nat :: Known(r', i) <==> Known(r, i)
  {
    hide Position;
    forall i: nat
      ensures Known(r', i) <==> Known(r, i)
    {
    }
  }

  lemma FinishGood(r: ReassemblerState, stream: seq<byte>, first: nat, data: seq<byte>, last: bool)
    requires Good(r, stream)
    ensures var r' := r.Finish(first, data, last);
            && Good(r', stream) && r'.bitmap == r.bitmap && r'.cur == r.cur
            && r'.output.popped == r.output.popped && r'.output.capacity == r.output.capacity
  {
    hide Mod;
  }

  lemma InsertForm(r: ReassemblerState, first: nat, data: seq<byte>, last: bool, r1: ReassemblerState)
    requires r.Valid()
    requires first > r.cur ==> r.Allocate().IsValidIndex(first)
    requires (if first <= r.cur then Ok(r.Allocate().TakeInOrder(first, data))
              else r.Allocate().Stash(first, data)) == Ok(r1)
    requires |r1.storage| == |r1.bitmap| && r1.Capacity() > 0 && r1.FlushAt() <= |r1.bitmap|
    ensures r.Insert(first, data, last) == Ok(r1.Flush(r1.FlushAt()).Finish(first, data, last))
  {
    hide Mod;
  }

  /** Pushing and keeping bytes leaves the end marker alone, and a closed output as it is. */
  predicate SameMarks(r: ReassemblerState, r': ReassemblerState) {
    && r'.seenLast == r.seenLast && r'.totalLen == r.totalLen
    && r'.output.closed == r.output.closed
    && (r.output.closed ==> r'.Pushed() == r.Pushed())
    && r.output.Pushed() <= r'.output.Pushed()
  }

  lemma TakeInOrderKeepsMarks(r: ReassemblerState, first: nat, data: seq<byte>)
    ensures SameMarks(r, r.Allocate().TakeInOrder(first, data))
  {
    hide Mod;
    hide Flat;
    hide NoEmptyChunk;
    ByteStreams.PushRefinesQueue(r.output, Substr(r.Fresh(first, data), r.output.Available()));
    hide ByteStreams.StreamState.Push;
    hide Substr;
    hide ReassemblerState.Fresh;
  }

  lemma FlushKeepsMarks(r: ReassemblerState, at: nat)
    requires at <= |r.bitmap| == |r.storage|
    ensures SameMarks(r, r.Flush(at))
  {
    hide Mod;
    hide Flat;
    hide NoEmptyChunk;
    hide RunLength;
    ByteStreams.PushRefinesQueue(r.output, r.storage[at..at + RunLength(r.bitmap, at)]);
    hide ByteStreams.StreamState.Push;
  }

  lemma StashKeepsMarks(r: ReassemblerState, first: nat, data: seq<byte>)
    requires 0 < r.Capacity() && r.Allocate().Stash(first, data).Ok?
    ensures SameMarks(r, r.Allocate().Stash(first, data).value)
  {
    hide Mod;
  }

  /** An insertion notes its end marker unless the index check turns it away first. */
  predicate TurnedAway(r: ReassemblerState, first: nat)
    requires r.Valid()
  {
    first > r.cur && !r.Allocate().IsValidIndex(first)
  }

  /** A closed output stays as it is, and an open one counts every byte in order. */
  predicate Counts(r: ReassemblerState, r': ReassemblerState) {
    if r.output.closed then r'.Pushed() == r.Pushed() else r'.Pushed() == r'.cur
  }

  lemma FinishNotes(r: ReassemblerState, r2: ReassemblerState, first: nat, data: seq<byte>, last: bool)
    requires SameMarks(r, r2)
    ensures EndNoted(r, r2.Finish(first, data, last), first, data, last)
    ensures r2.Finish(first, data, last).Pushed() == r2.Pushed()
  {
    hide Flat;
    hide NoEmptyChunk;
  }

  /** From a sound stored state `r1` that knows the right indices, the call ends well. */
  lemma InsertFrom(r: ReassemblerState, stream: seq<byte>, first: nat, data: seq<byte>, last: bool,
                   r1: ReassemblerState)
    requires r.Valid() && !TurnedAway(r, first)
    requires (if first <= r.cur then Ok(r.Allocate().TakeInOrder(first, data))
              else r.Allocate().Stash(first, data)) == Ok(r1)
    requires Core(r1, stream) && r1.bitmap != [] && r1.output.popped == r.output.popped && SameMarks(r, r1)
    requires forall i: nat :: Known(r1, i) <==>
               Known(r, i) || (InFragment(first, data, i) && i < WindowEnd(r))
    ensures MeetsContract(r, stream, first, data, last)
    ensures Counts(r, r.Insert(first, data, last).value) && r.Insert(first, data, last).value.bitmap != []
  {
    hide Mod;
    hide Flat;
    hide NoEmptyChunk;
    hide ReassemblerState.Flush;
    hide ReassemblerState.Finish;
    hide ReassemblerState.TakeInOrder;
    hide ReassemblerState.Stash;
    hide ReassemblerState.Allocate;
    hide ReassemblerState.FlushAt;
    hide ReassemblerState.Insert;
    hide Good;
    hide Known;
    hide EndNoted;
    assert |r1.storage| == |r1.bitmap| && r1.Capacity() > 0;
    hide Core;
    FlushGood(r1, stream);
    FlushKeepsMarks(r1, r1.FlushAt());
    var r2 := r1.Flush(r1.FlushAt());
    assert SameMarks(r, r2);
    FinishGood(r2, stream, first, data, last);
    FinishNotes(r, r2, first, data, last);
    InsertForm(r, first, data, last, r1);
    SameKnownAs(r2, r2.Finish(first, data, last));
  }

  lemma SameKnownAs(r: ReassemblerState, r': ReassemblerState)
    requires r'.cur == r.cur && r'.bitmap == r.bitmap && r'.Pushed() == r.Pushed() && r'.Capacity() == r.Capacity()
    ensures forall i: nat :: Known(r', i) <==> Known(r, i)
  {
    hide Mod;
    hide Flat;
  }

  /** Everything a substring without a gap does, when no mark loses its place. */
  lemma InsertInOrder(r: ReassemblerState, stream: seq<byte>, first: nat, data: seq<byte>, last: bool)
    requires Good(r, stream) && IsFragment(stream, first, data) && first <= r.cur && TakesSafely(r, first, data)
    ensures MeetsContract(r, stream, first, data, last)
    ensures Counts(r, r.Insert(first, data, last).value) && r.Insert(first, data, last).value.bitmap != []
  {
    hide Mod;
    hide Flat;
    hide NoEmptyChunk;
    hide ReassemblerState.Insert;
    AllocateGood(r, stream);
    var r0 := r.Allocate();
    assert TakesSafely(r0, first, data);
    hide TakesSafely;
    TakeInOrderGood(r0, stream, first, data);
    TakeInOrderKeepsMarks(r, first, data);
    hide ReassemblerState.TakeInOrder;
    hide ReassemblerState.IsValidIndex;
    hide Core;
    hide IsFragment;
    hide SameMarks;
    hide Position;
    var r1 := r0.TakeInOrder(first, data);
    forall i: nat
      ensures Known(r1, i) <==> Known(r, i) || (InFragment(first, data, i) && i < WindowEnd(r))
    {
      assert Known(r0, i) <==> Known(r, i);
      assert Known(r1, i) <==> Known(r0, i) || i < Reach(r0, first, data);
    }
    InsertFrom(r, stream, first, data, last, r1);
  }

  /** Everything a substring beyond a gap does, once it has been stored in the right place. */
  lemma InsertStored(r: ReassemblerState, stream: seq<byte>, first: nat, data: seq<byte>, last: bool, r1: ReassemblerState)
    requires Good(r, stream) && first > r.cur && !TurnedAway(r, first) && r.Allocate().Stash(first, data) == Ok(r1)
    requires Core(r1, stream) && r1.bitmap != [] && r1.output == r.output
    requires forall i: nat :: Known(r1, i) <==>
               Known(r, i) || (InFragment(first, data, i) && i < WindowEnd(r))
    ensures MeetsContract(r, stream, first, data, last)
    ensures Counts(r, r.Insert(first, data, last).value) && r.Insert(first, data, last).value.bitmap != []
  {
    hide Mod;
    hide Flat;
    hide NoEmptyChunk;
    hide ReassemblerState.Insert;
    hide ReassemblerState.IsValidIndex;
    StashKeepsMarks(r, first, data);
    hide ReassemblerState.Stash;
    hide ReassemblerState.Allocate;
    hide Core;
    hide Known;
    hide SameMarks;
    InsertFrom(r, stream, first, data, last, r1);
  }

  /** A call turned away by the index check changes nothing but the allocation. */
  lemma InsertTurnedAway(r: ReassemblerState, stream: seq<byte>, first: nat, data: seq<byte>, last: bool)
    requires Good(r, stream) && TurnedAway(r, first)
    ensures r.Insert(first, data, last) == Ok(r.Allocate())
    ensures KeepsBytes(r, stream, first, data, last) <==>
              forall i: nat :: InFragment(first, data, i) && i < WindowEnd(r) ==> Known(r, i)
    ensures Counts(r, r.Allocate())
  {
    hide Mod;
    hide Flat;
    hide NoEmptyChunk;
    hide ReassemblerState.IsValidIndex;
    AllocateGood(r, stream);
    assert r.Insert(first, data, last) == Ok(r.Allocate());
    hide ReassemblerState.Insert;
    hide ReassemblerState.Allocate;
    hide Known;
    hide Holds;
  }

  lemma InsertAllocated(r: ReassemblerState, first: nat, data: seq<byte>, last: bool)
    requires r.Valid() && r.Allocate().Valid()
    ensures r.Insert(first, data, last) == r.Allocate().Insert(first, data, last)
  {
    hide Mod;
    hide ReassemblerState.Flush;
    hide ReassemblerState.Stash;
    hide ReassemblerState.Finish;
  }

  // ---------- Insertions that are always safe ----------

  /** The insertions the linear buffer can take: inside the first `capacity` bytes, or leaving
      no gap while nothing is kept; an empty one is also harmless in modular addressing. */
  predicate SafeInsert(r: ReassemblerState, first: nat, data: seq<byte>) {
    || first + |data| <= r.Capacity()
    || (first <= r.cur && NoPending(r) && (r.output.closed ==> first + |data| <= r.cur))
    || (data == [] && r.Pushed() >= r.Capacity())
  }

  lemma SafeTakes(r: ReassemblerState, stream: seq<byte>, first: nat, data: seq<byte>)
    requires Good(r, stream) && SafeInsert(r, first, data) && first <= r.cur
    ensures TakesSafely(r, first, data)
  {
    hide Mod;
    hide Flat;
    hide NoEmptyChunk;
    hide Holds;
    assert |r.output.Pushed()| == |r.output.popped| + r.output.Buffered();
  }

  lemma SafeStash(r: ReassemblerState, stream: seq<byte>, first: nat, data: seq<byte>, last: bool)
    requires Good(r, stream) && IsFragment(stream, first, data) && SafeInsert(r, first, data)
    requires first > r.cur && !TurnedAway(r, first)
    ensures MeetsContract(r, stream, first, data, last)
    ensures Counts(r, r.Insert(first, data, last).value) && r.Insert(first, data, last).value.bitmap != []
  {
    hide Mod;
    hide Flat;
    hide NoEmptyChunk;
    hide ReassemblerState.Insert;
    hide ReassemblerState.Stash;
    hide ReassemblerState.IsValidIndex;
    hide Holds;
    AllocateGood(r, stream);
    var r0 := r.Allocate();
    StashGood(r0, stream, first, data);
    var r1 := r0.Stash(first, data).value;
    StashKeepsBitmap(r0, first, data);
    hide Core;
    hide IsFragment;
    forall i: nat
      ensures Known(r1, i) <==> Known(r, i) || (InFragment(first, data, i) && i < WindowEnd(r))
    {
      assert Known(r0, i) <==> Known(r, i);
    }
    InsertStored(r, stream, first, data, last, r1);
  }

  lemma StashKeepsBitmap(r: ReassemblerState, first: nat, data: seq<byte>)
    requires r.Valid() && r.bitmap != [] && r.Stash(first, data).Ok?
    ensures r.Stash(first, data).value.bitmap != []
  {
    hide Mod;
  }

  /** The contract, on every safe insertion of a fragment of any stream; only a call that the index
      check turns away leaves the end marker unnoted. */
  lemma InsertRefines(r: ReassemblerState, stream: seq<byte>, first: nat, data: seq<byte>, last: bool)
    requires Good(r, stream) && IsFragment(stream, first, data) && SafeInsert(r, first, data)
    ensures KeepsBytes(r, stream, first, data, last)
    ensures !TurnedAway(r, first) ==> MeetsContract(r, stream, first, data, last)
    ensures TurnedAway(r, first) ==> r.Insert(first, data, last) == Ok(r.Allocate())
    ensures Counts(r, r.Insert(first, data, last).value) && r.Insert(first, data, last).value.bitmap != []
  {
    if first <= r.cur {
      SafeTakes(r, stream, first, data);
      InsertInOrder(r, stream, first, data, last);
    } else if TurnedAway(r, first) {
      SafeTurnedAway(r, stream, first, data);
      InsertTurnedAway(r, stream, first, data, last);
      AllocateGood(r, stream);
    } else {
      SafeStash(r, stream, first, data, last);
    }
    hide Good;
    hide ReassemblerState.Insert;
    hide ReassemblerState.Allocate;
    hide KeepsBytes;
    hide Counts;
    hide IsFragment;
    hide EndNoted;
  }

  lemma SafeTurnedAway(r: ReassemblerState, stream: seq<byte>, first: nat, data: seq<byte>)
    requires Good(r, stream) && TurnedAway(r, first) && SafeInsert(r, first, data)
    ensures data == []
  {
    hide Mod;
    hide Flat;
    hide NoEmptyChunk;
    hide Holds;
  }

  /** The next expected index never goes back. */
  lemma KeepsOrder(r: ReassemblerState, stream: seq<byte>, first: nat, data: seq<byte>, last: bool)
    requires Good(r, stream) && KeepsBytes(r, stream, first, data, last)
    ensures r.cur <= r.Insert(first, data, last).value.cur
  {
    var r' := r.Insert(first, data, last).value;
    assert !Known(r', r'.cur);
    hide ReassemblerState.Insert;
  }

  // ---------- Whole runs ----------

  datatype Op = Insert(first: nat, data: seq<byte>, last: bool) | Read(len: nat)

  function ReadSome(r: ReassemblerState, len: nat): ReassemblerState {
    ByteStreams.PopRefinesQueue(r.output, Min(len, r.output.Buffered()));
    r.(output := r.output.Pop(Min(len, r.output.Buffered())))
  }

  lemma ReadGood(r: ReassemblerState, stream: seq<byte>, len: nat)
    requires Good(r, stream)
    ensures Good(ReadSome(r, len), stream)
    ensures ReadSome(r, len).cur == r.cur && ReadSome(r, len).bitmap == r.bitmap
    ensures ReadSome(r, len).output.Pushed() == r.output.Pushed()
    ensures ReadSome(r, len).Capacity() == r.Capacity()
    ensures forall i: nat :: Known(ReadSome(r, len), i) <==> Known(r, i)
  {
    hide Mod;
    ByteStreams.PopRefinesQueue(r.output, Min(len, r.output.Buffered()));
    hide Flat;
    hide ByteStreams.DropBytes;
    hide NoEmptyChunk;
  }

  /** A correct fragment of the stream; only the one that reaches its end is marked last. */
  predicate Legal(stream: seq<byte>, op: Op) {
    op.Insert? ==>
      && IsFragment(stream, op.first, op.data) && op.first + |op.data| <= |stream|
      && (op.last ==> op.first + |op.data| == |stream|)
  }

  /** The end marker is noted correctly, and the output closed exactly when it is complete. */
  predicate Marked(r: ReassemblerState, stream: seq<byte>) {
    && (r.seenLast ==> r.totalLen == |stream|)
    && (r.output.closed <==> r.seenLast && r.cur == |stream|)
    && r.Pushed() == r.cur
  }

  /** On a short stream the only correct end marker the code drops is an empty one at index
      `capacity` that arrives before any byte is known to be in order. */
  lemma EndMarkerDropped(r: ReassemblerState, stream: seq<byte>, first: nat, data: seq<byte>)
    requires Good(r, stream) && r.Pushed() == r.cur
    requires |stream| <= r.Capacity() && first + |data| == |stream|
    ensures TurnedAway(r, first) <==> r.cur == 0 && data == [] && |stream| == r.Capacity()
  {
    hide Mod;
  }

  /** Inserting never takes back pushed bytes. */
  lemma InsertMonotone(r: ReassemblerState, first: nat, data: seq<byte>, last: bool)
    requires r.Valid() && r.Insert(first, data, last).Ok?
    ensures r.output.Pushed() <= r.Insert(first, data, last).value.output.Pushed()
  {
    hide Mod;
    hide Flat;
    hide NoEmptyChunk;
    hide ReassemblerState.IsValidIndex;
    hide ReassemblerState.FlushAt;
    hide ReassemblerState.Flush;
    hide ReassemblerState.TakeInOrder;
    hide ReassemblerState.Stash;
    var r0 := r.Allocate();
    if first <= r.cur || r0.IsValidIndex(first) {
      var r1 := if first <= r.cur then r0.TakeInOrder(first, data) else r0.Stash(first, data).value;
      TakeInOrderKeepsMarks(r, first, data);
      FlushKeepsMarks(r1, r1.FlushAt());
    }
  }

  /** An end marker that is not turned away sets the length, and closes the output at it. */
  lemma InsertNotesEnd(r: ReassemblerState, first: nat, data: seq<byte>)
    requires r.Valid() && !TurnedAway(r, first) && r.Insert(first, data, true).Ok?
    ensures var r' := r.Insert(first, data, true).value;
            r'.seenLast && r'.totalLen == (first + |data|) % TWO_64 && (r'.Pushed() == r'.totalLen ==> r'.output.closed)
  {
    hide Mod;
    hide ReassemblerState.Flush;
    hide ReassemblerState.TakeInOrder;
    hide ReassemblerState.Stash;
    hide Flat;
  }

  /** What a call that keeps its contract does to a correctly marked reassembler. */
  lemma NotedMarks(r: ReassemblerState, r': ReassemblerState, stream: seq<byte>, first: nat, data: seq<byte>, last: bool)
    requires Good(r, stream) && Good(r', stream) && Marked(r, stream) && |stream| < TWO_64
    requires r.cur <= r'.cur && Counts(r, r') && EndNoted(r, r', first, data, last)
    requires last ==> first + |data| == |stream|
    ensures Marked(r', stream) && r'.seenLast == (r.seenLast || last)
  {
    hide Mod;
    hide Flat;
    hide NoEmptyChunk;
    hide Holds;
  }

  lemma AllocateMarked(r: ReassemblerState, stream: seq<byte>)
    requires Marked(r, stream)
    ensures Marked(r.Allocate(), stream) && r.Allocate().seenLast == r.seenLast
  {
    hide Flat;
  }

  /** Closing: with correct end markers the output closes exactly when the marker has been
      noted and all bytes are pushed, whatever the order. */
  lemma InsertMarks(r: ReassemblerState, stream: seq<byte>, first: nat, data: seq<byte>, last: bool)
    requires Good(r, stream) && Marked(r, stream) && |stream| < TWO_64
    requires Legal(stream, Insert(first, data, last)) && SafeInsert(r, first, data)
    ensures r.Insert(first, data, last).Ok?
    ensures var r' := r.Insert(first, data, last).value;
            && Marked(r', stream)
            && r'.seenLast == (r.seenLast || (last && !TurnedAway(r, first)))
  {
    assert r.Valid();
    hide Good;
    hide Marked;
    hide IsFragment;
    hide SafeInsert;
    hide Counts;
    hide EndNoted;
    hide TurnedAway;
    hide ReassemblerState.Insert;
    hide ReassemblerState.Allocate;
    InsertRefines(r, stream, first, data, last);
    KeepsOrder(r, stream, first, data, last);
    if TurnedAway(r, first) {
      AllocateMarked(r, stream);
    } else {
      NotedMarks(r, r.Insert(first, data, last).value, stream, first, data, last);
    }
  }

  /** Up to the capacity a cell stands for its own number. */
  lemma KnownLinear(r: ReassemblerState)
    requires r.Pushed() <= r.Capacity()
    ensures Position(r) == r.cur
    ensures forall i: nat :: Known(r, i) <==> i < r.cur || (i < |r.bitmap| && r.bitmap[i])
  {
    hide Flat;
  }

  function Run(r: ReassemblerState, ops: seq<Op>): (r': Outcome<ReassemblerState>)
    requires r.Valid()
    ensures r'.Ok? ==> r'.value.Valid() && r'.value.Capacity() == r.Capacity()
    decreases |ops|
  {
    if ops == [] then Ok(r)
    else match ops[0]
      case Read(len) => Run(ReadSome(r, len), ops[1..])
      case Insert(first, data, last) =>
        match r.Insert(first, data, last)
        case OutOfRange => OutOfRange
        case Ok(r') => Run(r', ops[1..])
  }

  function Inserts(ops: seq<Op>): seq<Op> {
    if ops == [] then []
    else (if ops[0].Insert? then [ops[0]] else []) + Inserts(ops[1..])
  }

  predicate Covers(inserts: seq<Op>, i: nat) {
    exists op :: op in inserts && op.Insert? && InFragment(op.first, op.data, i)
  }

  predicate HasLast(inserts: seq<Op>) {
    exists op :: op in inserts && op.Insert? && op.last
  }

  /** Correct fragments, and no empty end marker at index `capacity`. */
  predicate LegalRun(capacity: nat, stream: seq<byte>, ops: seq<Op>) {
    && |stream| <= capacity
    && (forall op :: op in ops ==> Legal(stream, op))
    && (forall op :: op in ops && op.Insert? && op.last ==> op.data != [] || |stream| < capacity)
  }

  lemma ReadKeepsMarks(r: ReassemblerState, stream: seq<byte>, len: nat)
    requires Marked(r, stream)
    ensures Marked(ReadSome(r, len), stream) && ReadSome(r, len).seenLast == r.seenLast
  {
    hide Mod;
    ByteStreams.PopRefinesQueue(r.output, Min(len, r.output.Buffered()));
  }

  /** For every run of overlapping, duplicated and reordered fragments of a short stream and
      any reads: the known indices are exactly the covered ones, and the stream is closed
      exactly when the end marker has been seen and everything is pushed. */
  lemma {:induction false} RunRefines(r: ReassemblerState, stream: seq<byte>, ops: seq<Op>)
    requires Good(r, stream) && Marked(r, stream) && LegalRun(r.Capacity(), stream, ops)
    ensures Run(r, ops).Ok?
    ensures var r' := Run(r, ops).value;
            && Good(r', stream) && Marked(r', stream)
            && (r'.bitmap == [] <==> r.bitmap == [] && Inserts(ops) == [])
            && (r'.seenLast <==> r.seenLast || HasLast(Inserts(ops)))
            && (forall i: nat :: Known(r', i) <==> Known(r, i) || Covers(Inserts(ops), i))
    decreases |ops|
  {
    hide Mod;
    if ops != [] {
      var op, rest := ops[0], Inserts(ops[1..]);
      assert op in ops && Legal(stream, op);
      match op
      case Read(len) =>
        ReadGood(r, stream, len);
        ReadKeepsMarks(r, stream, len);
        RunRefines(ReadSome(r, len), stream, ops[1..]);
      case Insert(first, data, last) =>
        InsertRefines(r, stream, first, data, last);
        InsertMarks(r, stream, first, data, last);
        if last {
          EndMarkerDropped(r, stream, first, data);
        }
        RunRefines(r.Insert(first, data, last).value, stream, ops[1..]);
        CoversCons(op, rest);
    }
  }

  lemma CoversCons(op: Op, rest: seq<Op>)
    requires op.Insert?
    ensures forall i: nat :: Covers([op] + rest, i) <==> InFragment(op.first, op.data, i) || Covers(rest, i)
    ensures HasLast([op] + rest) <==> op.last || HasLast(rest)
  {
    hide Mod;
    var all := [op] + rest;
    assert op in all;
    assert forall o :: o in all <==> o == op || o in rest;
  }

  /** The whole refinement from a fresh reassembler, as one equation per index. */
  lemma RunFromEmpty(capacity: nat, stream: seq<byte>, ops: seq<Op>)
    requires 0 < capacity < 0x8000_0000 && LegalRun(capacity, stream, ops)
    ensures Run(NewReassembler(capacity), ops).Ok?
    ensures var r := Run(NewReassembler(capacity), ops).value;
            && r.cur <= |stream| && r.output.Pushed() == stream[..r.cur]
            && (forall i: nat :: i < r.cur ==> Covers(Inserts(ops), i))
            && !Covers(Inserts(ops), r.cur)
            && (forall i :: 0 <= i < |r.bitmap| && r.bitmap[i] ==> i < |stream| && r.storage[i] == stream[i])
            && (forall i: nat :: i < |r.bitmap| && r.bitmap[i] <==> i > r.cur && Covers(Inserts(ops), i))
            && (r.output.closed <==> HasLast(Inserts(ops)) && r.cur == |stream|)
  {
    hide Mod;
    hide Flat;
    hide Run;
    FreshGood(capacity, stream);
    RunRefines(NewReassembler(capacity), stream, ops);
    var r := Run(NewReassembler(capacity), ops).value;
    FreshKnowsNothing(capacity);
    hide LegalRun;
    assert |stream| <= r.Capacity();
    KnownLinear(r);
    LinearKeeps(r, stream);
    hide NewReassembler;
    hide Known;
    hide Position;
    hide Core;
  }

  lemma FreshGood(capacity: nat, stream: seq<byte>)
    requires 0 < capacity < 0x8000_0000
    ensures Good(NewReassembler(capacity), stream) && Marked(NewReassembler(capacity), stream)
  {
  }

  /** What a sound linear buffer holds, cell by cell. */
  lemma LinearKeeps(r: ReassemblerState, stream: seq<byte>)
    requires Good(r, stream) && r.Pushed() <= r.Capacity()
    ensures forall i :: 0 <= i < |r.bitmap| && r.bitmap[i] ==> i < |stream| && r.storage[i] == stream[i]
    ensures forall i :: 0 <= i < |r.bitmap| && r.bitmap[i] ==> i > r.cur
    ensures forall i: nat :: i < r.cur ==> Known(r, i)
    ensures !Known(r, r.cur)
    ensures forall i: nat :: i < |r.bitmap| && r.bitmap[i] <==> i > r.cur && Known(r, i)
  {
    KnownLinear(r);
    hide Flat;
    hide Mod;
    forall i | 0 <= i < |r.bitmap| && r.bitmap[i]
      ensures i < |stream| && r.storage[i] == stream[i]
    {
      assert Holds(r, stream, i);
    }
  }

  lemma FreshKnowsNothing(capacity: nat)
    ensures forall i: nat :: !Known(NewReassembler(capacity), i)
  {
  }

  /** Confluence: two orders of the same fragments, with any reads in between, end with the
      same output, the same kept bytes and the same end of stream. */
  lemma Confluence(capacity: nat, stream: seq<byte>, ops: seq<Op>, ops': seq<Op>)
    requires 0 < capacity < 0x8000_0000
    requires LegalRun(capacity, stream, ops) && LegalRun(capacity, stream, ops')
    requires multiset(Inserts(ops)) == multiset(Inserts(ops'))
    ensures Run(NewReassembler(capacity), ops).Ok? && Run(NewReassembler(capacity), ops').Ok?
    ensures var r, r' := Run(NewReassembler(capacity), ops).value, Run(NewReassembler(capacity), ops').value;
            && r.output.Pushed() == r'.output.Pushed() && r.output.closed == r'.output.closed
            && r.bitmap == r'.bitmap && r.BytesPending() == r'.BytesPending()
            && (forall i :: 0 <= i < |r.bitmap| && r.bitmap[i] ==> r.storage[i] == r'.storage[i])
  {
    hide Run;
    hide Known;
    hide Holds;
    hide Position;
    FreshGood(capacity, stream);
    RunRefines(NewReassembler(capacity), stream, ops);
    RunRefines(NewReassembler(capacity), stream, ops');
    SameMembers(Inserts(ops), Inserts(ops'));
    RunFromEmpty(capacity, stream, ops);
    RunFromEmpty(capacity, stream, ops');
    hide LegalRun;
    hide Inserts;
    hide Covers;
    hide HasLast;
    hide Marked;
    var r, r' := Run(NewReassembler(capacity), ops).value, Run(NewReassembler(capacity), ops').value;
    assert r.cur == r'.cur;
    assert |r.bitmap| == |r'.bitmap|;
    hide Good;
    hide NewReassembler;
    assert r.bitmap == r'.bitmap;
  }

  lemma SameMembers(a: seq<Op>, b: seq<Op>)
    requires multiset(a) == multiset(b)
    ensures forall op :: op in a <==> op in b
    ensures a == [] <==> b == []
    ensures forall i: nat :: Covers(a, i) <==> Covers(b, i)
    ensures HasLast(a) <==> HasLast(b)
  {
    hide Mod;
    assert forall op :: op in a <==> op in multiset(a);
    assert forall op :: op in b <==> op in multiset(b);
    assert |multiset(a)| == |a| && |multiset(b)| == |b|;
  }

  /** `bytes_pending` is the number of marked indices. */
  lemma {:induction false} PendingIsCount(bitmap: seq<bool>)
    ensures CountTrue(bitmap) == |set i | 0 <= i < |bitmap| && bitmap[i]|
  {
    hide Mod;
    var marked := set i | 0 <= i < |bitmap| && bitmap[i];
    if bitmap != [] {
      var n := |bitmap| - 1;
      var before := set i | 0 <= i < n && bitmap[..n][i];
      PendingIsCount(bitmap[..n]);
      assert marked == before + if bitmap[n] then {n} else {};
    }
  }

  // ---------- Streams longer than the capacity ----------

  /** When exactly a prefix is known, it is what was pushed and nothing is kept. */
  lemma KnownPrefix(r: ReassemblerState, stream: seq<byte>, e: nat)
    requires Good(r, stream) && forall i: nat :: Known(r, i) <==> i < e
    ensures r.cur == e && NoPending(r)
  {
    hide Mod;
    assert !Known(r, r.cur) && !Known(r, e);
    hide Position;
    forall j | 0 <= j < |r.bitmap| && r.bitmap[j]
      ensures Known(r, r.cur + (j - Position(r)))
    {
    }
  }

  lemma NothingKept(r: ReassemblerState, stream: seq<byte>)
    requires Good(r, stream) && NoPending(r)
    ensures forall i: nat :: Known(r, i) <==> i < r.cur
  {
  }

  /** One in-order insertion with nothing kept: exactly what fits is pushed and nothing is kept. */
  lemma InOrderStep(r: ReassemblerState, stream: seq<byte>, first: nat, data: seq<byte>, last: bool)
    requires Good(r, stream) && Marked(r, stream) && NoPending(r) && |stream| < TWO_64
    requires Legal(stream, Insert(first, data, last)) && first <= r.cur
    ensures r.Insert(first, data, last).Ok?
    ensures var r' := r.Insert(first, data, last).value;
            && Good(r', stream) && Marked(r', stream) && NoPending(r')
            && r'.Pushed() == r.Pushed() + Min(r.output.Available(), Max(0, first + |data| - r.cur))
  {
    hide Mod;
    hide ReassemblerState.Insert;
    hide Flat;
    hide NoEmptyChunk;
    assert |r.output.Pushed()| == |r.output.popped| + r.output.Buffered();
    InsertRefines(r, stream, first, data, last);
    InsertMarks(r, stream, first, data, last);
    KeepsOrder(r, stream, first, data, last);
    NothingKept(r, stream);
    KnownPrefix(r.Insert(first, data, last).value, stream, Reach(r, first, data));
  }

  /** Every insertion starts at or before the next expected index of its moment. */
  predicate InOrderRun(r: ReassemblerState, ops: seq<Op>)
    requires r.Valid()
    decreases |ops|
  {
    ops == [] ||
    match ops[0]
    case Read(len) => InOrderRun(ReadSome(r, len), ops[1..])
    case Insert(first, data, last) =>
      var r' := r.Insert(first, data, last);
      first <= r.cur && (r'.Ok? ==> InOrderRun(r'.value, ops[1..]))
  }

  /** Runs without a gap, of any length: every access stays inside the buffers across the
      switch to modular addressing, and the output stays a prefix of the stream. */
  lemma {:induction false} InOrderRunRefines(r: ReassemblerState, stream: seq<byte>, ops: seq<Op>)
    requires Good(r, stream) && Marked(r, stream) && NoPending(r) && |stream| < TWO_64
    requires forall op :: op in ops ==> Legal(stream, op)
    requires InOrderRun(r, ops)
    ensures Run(r, ops).Ok?
    ensures var r' := Run(r, ops).value;
            && Good(r', stream) && Marked(r', stream) && NoPending(r')
            && r'.output.Pushed() == stream[..r'.cur]
    decreases |ops|
  {
    hide Mod;
    if ops != [] {
      assert ops[0] in ops && Legal(stream, ops[0]);
      match ops[0]
      case Read(len) =>
        ReadGood(r, stream, len);
        ReadKeepsMarks(r, stream, len);
        InOrderRunRefines(ReadSome(r, len), stream, ops[1..]);
      case Insert(first, data, last) =>
        InOrderStep(r, stream, first, data, last);
        InOrderRunRefines(r.Insert(first, data, last).value, stream, ops[1..]);
    }
  }
}
