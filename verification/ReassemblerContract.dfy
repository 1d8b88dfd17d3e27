/** Exactly which insertions keep the reassembler's contract, for streams of any length, and the
    runs made of them. */
module ReassemblerContract {
  import opened Bytes
  import ByteStreams
  import opened Reassemblers
  import opened ReassemblerProofs

  /** Every byte of the substring from index `from` on that the window admits is known already. */
  predicate KnownFrom(r: ReassemblerState, first: nat, data: seq<byte>, from: nat) {
    forall i: nat :: from <= i && InFragment(first, data, i) && i < WindowEnd(r) ==> Known(r, i)
  }

  /** There is nothing to note about the end of the stream. */
  predicate EndKept(r: ReassemblerState, first: nat, data: seq<byte>, last: bool) {
    && (last ==> r.seenLast && r.totalLen == (first + |data|) % TWO_64)
    && (r.seenLast && r.Pushed() == r.totalLen ==> r.output.closed)
  }

  /** The bytes that are stored of a substring beyond a gap. */
  function KeptText(r: ReassemblerState, first: nat, data: seq<byte>): seq<byte>
    requires 0 < r.Capacity()
  {
    Substr(data, r.StashRoom(first))
  }

  /** They end inside the buffers; otherwise the buffers grow past the capacity. */
  predicate FitsBuffers(r: ReassemblerState, first: nat, data: seq<byte>)
    requires 0 < r.Capacity()
  {
    Mod(first, r.Capacity()) + |KeptText(r, first, data)| <= r.Capacity()
  }

  /** The check a caller can make before inserting part of a stream of any length. */
  predicate ContractCondition(r: ReassemblerState, first: nat, data: seq<byte>, last: bool)
    requires r.Valid()
  {
    if first <= r.cur then
      TakesSafely(r, first, data)
    else if TurnedAway(r, first) then
      KnownFrom(r, first, data, first) && EndKept(r, first, data, last)
    else if r.Pushed() < r.Capacity() then
      first <= r.Capacity() && (data == [] || Min(first + |data|, WindowEnd(r)) <= r.Capacity())
    else if r.Pushed() == r.Capacity() then
      FitsBuffers(r, first, data) && (data == [] || first >= WindowEnd(r))
    else if first >= WindowEnd(r) then
      r.Allocate().Stash(first, data) == Ok(r.Allocate())
    else
      && FitsBuffers(r, first, data)
      && first + |KeptText(r, first, data)| <= WindowEnd(r)
      && KnownFrom(r, first, data, first + |KeptText(r, first, data)|)
  }

  // ---------- Without a gap ----------

  lemma ClosedBreaks(r: ReassemblerState, stream: seq<byte>, first: nat, data: seq<byte>, last: bool)
    requires Good(r, stream) && r.output.closed && first <= r.cur && IsFragment(stream, first, data)
    requires TakenEnd(r, first, data) != r.cur && TakenEnd(r, first, data) > r.Capacity()
    ensures !KeepsBytes(r, stream, first, data, last)
  {
    hide Mod;
    hide Flat;
    hide NoEmptyChunk;
    hide ReassemblerState.TakeInOrder;
    hide TakenEnd;
    hide Known;
    hide Holds;
    AllocateGood(r, stream);
    var r0 := r.Allocate();
    SameTakenEnd(r, first, data);
    TakeShape(r0, stream, first, data);
    var r1 := r0.TakeInOrder(first, data);
    if r1.FlushAt() <= |r1.bitmap| {
      InsertForm(r, first, data, last, r1);
      FlushKeepsMarks(r1, r1.FlushAt());
      assert r1.Flush(r1.FlushAt()).cur >= r1.cur > r.cur;
      hide ReassemblerState.Insert;
      hide ReassemblerState.Flush;
    } else {
      hide KeepsBytes;
      assert !r.Insert(first, data, last).Ok?;
    }
  }

  lemma SameTakenEnd(r: ReassemblerState, first: nat, data: seq<byte>)
    ensures TakenEnd(r.Allocate(), first, data) == TakenEnd(r, first, data)
  {
    hide Flat;
  }

  /** Marks that are read for other indices than they were made for. */
  lemma CrossingBreaks(r: ReassemblerState, stream: seq<byte>, first: nat, data: seq<byte>, last: bool)
    requires Good(r, stream) && !r.output.closed && first <= r.cur && IsFragment(stream, first, data)
    requires !TakesSafely(r, first, data)
    ensures !KeepsBytes(r, stream, first, data, last)
  {
    hide Mod;
    hide Flat;
    hide NoEmptyChunk;
    hide Holds;
    var e := Reach(r, first, data);
    assert r.Pushed() == r.cur <= e;
    BlocksApart(r, e);
    NothingKnownFrom(r, stream, e);
    CrossingLeavesMark(r, stream, first, data, last);
    hide ReassemblerState.Insert;
    hide Good;
    hide Known;
    hide TakesSafely;
  }

  /** The state in which the marks are read again: past the capacity, in another block. */
  lemma CrossingTaken(r: ReassemblerState, stream: seq<byte>, first: nat, data: seq<byte>)
    requires Good(r, stream) && !r.output.closed && first <= r.cur && IsFragment(stream, first, data)
    requires !TakesSafely(r, first, data)
    ensures var r1 := r.Allocate().TakeInOrder(first, data);
            && 0 < r.Capacity() == r1.Capacity() == |r1.bitmap| == |r1.storage|
            && r1.cur == Reach(r, first, data) == r1.Pushed() > r.Capacity()
            && r1.FlushAt() == Mod(r1.cur, r.Capacity()) <= |r1.bitmap|
            && !NoneFrom(r1, r1.FlushAt())
  {
    hide Mod;
    hide Flat;
    hide NoEmptyChunk;
    hide Holds;
    AllocateGood(r, stream);
    TakeShape(r.Allocate(), stream, first, data);
    hide ReassemblerState.TakeInOrder;
    hide TakenEnd;
  }

  lemma CrossingLeavesMark(r: ReassemblerState, stream: seq<byte>, first: nat, data: seq<byte>, last: bool)
    requires Good(r, stream) && !r.output.closed && first <= r.cur && IsFragment(stream, first, data)
    requires !TakesSafely(r, first, data)
    ensures r.Insert(first, data, last).Ok?
    ensures exists i: nat :: i >= Reach(r, first, data) && Known(r.Insert(first, data, last).value, i)
  {
    hide Mod;
    hide Flat;
    hide NoEmptyChunk;
    assert r.Valid();
    hide Good;
    hide IsFragment;
    hide TakesSafely;
    hide NoneFrom;
    hide ReassemblerState.Insert;
    hide ReassemblerState.Allocate;
    hide ReassemblerState.TakeInOrder;
    hide ReassemblerState.FlushAt;
    CrossingTaken(r, stream, first, data);
    var r1 := r.Allocate().TakeInOrder(first, data);
    var at := r1.FlushAt();
    InsertForm(r, first, data, last, r1);
    FlushBits(r1, at);
    FlushKeepsMarks(r1, at);
    var r2 := r1.Flush(at);
    assert r2.cur == r1.cur + RunLength(r1.bitmap, at);
    hide ReassemblerState.Flush;
    StaleMark(r1, r2.Finish(first, data, last), at);
  }

  /** From the next block on nothing is known. */
  lemma NothingKnownFrom(r: ReassemblerState, stream: seq<byte>, e: nat)
    requires Good(r, stream) && r.Pushed() == r.cur && r.cur <= e
    requires e >= r.cur - Position(r) + r.Capacity()
    ensures forall i: nat :: e <= i ==> !Known(r, i)
  {
    hide Position;
    hide Holds;
  }

  lemma StaleMark(r1: ReassemblerState, r': ReassemblerState, at: nat)
    requires 0 < r1.Capacity() == r'.Capacity() && at <= |r1.bitmap| && !NoneFrom(r1, at)
    requires r'.cur == r1.cur + RunLength(r1.bitmap, at) && |r'.bitmap| == |r1.bitmap|
    requires forall i :: 0 <= i < |r1.bitmap| ==> r'.bitmap[i] == (at + RunLength(r1.bitmap, at) < i && r1.bitmap[i])
    requires r1.Capacity() < r1.Pushed() == r1.cur <= r'.Pushed() && at == Mod(r1.cur, r1.Capacity())
    ensures exists i: nat :: i >= r1.cur && Known(r', i)
  {
    hide Mod;
    hide Flat;
    if RunLength(r1.bitmap, at) > 0 {
      assert Known(r', r1.cur);
    } else {
      var j :| at <= j < |r1.bitmap| && r1.bitmap[j];
      assert Known(r', r1.cur + (j - at));
    }
  }

  lemma InOrderExactly(r: ReassemblerState, stream: seq<byte>, first: nat, data: seq<byte>, last: bool)
    requires Good(r, stream) && IsFragment(stream, first, data) && first <= r.cur
    ensures MeetsContract(r, stream, first, data, last) <==> TakesSafely(r, first, data)
  {
    if TakesSafely(r, first, data) {
      InsertInOrder(r, stream, first, data, last);
    } else if r.output.closed {
      ClosedBreaks(r, stream, first, data, last);
    } else {
      CrossingBreaks(r, stream, first, data, last);
    }
    hide KeepsBytes;
    hide EndNoted;
    hide Good;
    hide IsFragment;
    hide ReassemblerState.Insert;
    hide NoneFrom;
  }

  // ---------- Beyond a gap: turned away, and the linear buffer ----------

  lemma TurnedAwayExactly(r: ReassemblerState, stream: seq<byte>, first: nat, data: seq<byte>, last: bool)
    requires Good(r, stream) && TurnedAway(r, first)
    ensures MeetsContract(r, stream, first, data, last) <==>
              KnownFrom(r, first, data, first) && EndKept(r, first, data, last)
  {
    InsertTurnedAway(r, stream, first, data, last);
    AllocateGood(r, stream);
    hide Mod;
    hide Flat;
    hide Good;
    hide KeepsBytes;
    hide Known;
    hide TurnedAway;
    hide ReassemblerState.Insert;
    hide ReassemblerState.Allocate;
  }

  /** A start past the end of the buffer is an exception, even with nothing to keep. */
  lemma StartPastBuffer(r: ReassemblerState, first: nat, data: seq<byte>, last: bool)
    requires r.Valid() && first > r.cur && !TurnedAway(r, first)
    requires r.Pushed() < r.Capacity() < first && |r.Allocate().bitmap| == r.Capacity()
    ensures r.Insert(first, data, last) == OutOfRange
  {
    hide Mod;
    hide Flat;
    hide NoEmptyChunk;
  }

  /** The first missing index stays missing. */
  lemma GapStays(r: ReassemblerState, stream: seq<byte>, first: nat, data: seq<byte>, last: bool)
    requires Good(r, stream) && first > r.cur && KeepsBytes(r, stream, first, data, last)
    ensures r.Insert(first, data, last).value.cur == r.cur
  {
    KeepsOrder(r, stream, first, data, last);
    var r' := r.Insert(first, data, last).value;
    assert !Known(r, r.cur) && !InFragment(first, data, r.cur) && !Known(r', r.cur);
    hide ReassemblerState.Insert;
  }

  lemma LinearKept(r: ReassemblerState, stream: seq<byte>, first: nat, data: seq<byte>, last: bool)
    requires Good(r, stream) && IsFragment(stream, first, data) && first > r.cur && !TurnedAway(r, first)
    requires r.Pushed() < r.Capacity() && first <= r.Capacity()
    requires data == [] || Min(first + |data|, WindowEnd(r)) <= r.Capacity()
    ensures MeetsContract(r, stream, first, data, last)
    ensures Counts(r, r.Insert(first, data, last).value)
  {
    hide Mod;
    hide Flat;
    hide NoEmptyChunk;
    hide ReassemblerState.Insert;
    hide ReassemblerState.IsValidIndex;
    hide Holds;
    AllocateGood(r, stream);
    var r0 := r.Allocate();
    var text := data[..Min(|data|, r.Capacity() - first)];
    if text != [] {
      PrefixSlice(stream, first, data, text);
    }
    StashCut(r0, first, data);
    StashGood(r0, stream, first, text);
    var r1 := r0.Stash(first, text).value;
    StashKeepsBitmap(r0, first, text);
    hide ReassemblerState.Stash;
    hide Core;
    hide IsFragment;
    forall i: nat
      ensures Known(r1, i) <==> Known(r, i) || (InFragment(first, data, i) && i < WindowEnd(r))
    {
      assert Known(r0, i) <==> Known(r, i);
    }
    InsertStored(r, stream, first, data, last, r1);
  }

  /** What does not fit between `first` and the end of the buffer is dropped. */
  lemma StashCut(r: ReassemblerState, first: nat, data: seq<byte>)
    requires 0 < r.Capacity() && r.Pushed() < r.Capacity() && first <= r.Capacity()
    ensures r.Stash(first, data) == r.Stash(first, data[..Min(|data|, r.Capacity() - first)])
  {
    hide Mod;
    hide Flat;
    assert |data| <= r.Capacity() - first ==> data[..Min(|data|, r.Capacity() - first)] == data;
  }

  lemma LinearBreaks(r: ReassemblerState, stream: seq<byte>, first: nat, data: seq<byte>, last: bool)
    requires Good(r, stream) && first > r.cur && !TurnedAway(r, first) && r.Pushed() < r.Capacity()
    requires first > r.Capacity() || (data != [] && Min(first + |data|, WindowEnd(r)) > r.Capacity())
    ensures !KeepsBytes(r, stream, first, data, last)
  {
    hide Mod;
    hide Flat;
    hide NoEmptyChunk;
    AllocateGood(r, stream);
    if first > r.Capacity() {
      StartPastBuffer(r, first, data, last);
    } else if KeepsBytes(r, stream, first, data, last) {
      EndUnknown(r, stream, first, data, last);
    }
    hide ReassemblerState.Insert;
    hide TurnedAway;
    hide Holds;
    hide Known;
  }

  /** Beyond a gap the linear buffer holds nothing past its end. */
  lemma EndUnknown(r: ReassemblerState, stream: seq<byte>, first: nat, data: seq<byte>, last: bool)
    requires Good(r, stream) && first > r.cur && r.Pushed() < r.Capacity() && KeepsBytes(r, stream, first, data, last)
    ensures !Known(r.Insert(first, data, last).value, r.Capacity())
    ensures !Known(r, r.Capacity())
  {
    hide ReassemblerState.Insert;
    GapStays(r, stream, first, data, last);
    KnownLinear(r);
    KnownLinear(r.Insert(first, data, last).value);
    hide Known;
    hide Holds;
  }

  // ---------- Beyond a gap: the modular buffer ----------

  /** Which cells a substring is written to. */
  lemma StashCells(r: ReassemblerState, first: nat, data: seq<byte>)
    requires 0 < r.Capacity() == |r.bitmap| == |r.storage| <= r.Pushed()
    ensures r.Stash(first, data).Ok?
    ensures var r1, f, text := r.Stash(first, data).value, Mod(first, r.Capacity()), KeptText(r, first, data);
            && r1 == r.(storage := r1.storage, bitmap := r1.bitmap)
            && |r1.storage| == |r1.bitmap| == Max(r.Capacity(), f + |text|)
            && text <= data
            && (forall j :: 0 <= j < |r.bitmap| ==>
                  && r1.bitmap[j] == (f <= j < f + |text| || r.bitmap[j])
                  && r1.storage[j] == if f <= j < f + |text| then text[j - f] else r.storage[j])
            && (text == [] ==> r1 == r)
  {
    hide Mod;
    hide Flat;
    var r1, f, text := r.Stash(first, data).value, Mod(first, r.Capacity()), KeptText(r, first, data);
    assert text == [] ==> r1.bitmap == r.bitmap && r1.storage == r.storage;
  }

  /** Buffers that grow past the capacity do not come back. */
  lemma StorageGrows(r: ReassemblerState, stream: seq<byte>, first: nat, data: seq<byte>, last: bool)
    requires Good(r, stream) && first > r.cur && !TurnedAway(r, first)
    requires r.Pushed() >= r.Capacity() && !FitsBuffers(r, first, data)
    ensures r.Insert(first, data, last).Ok? && |r.Insert(first, data, last).value.storage| > r.Capacity()
    ensures !KeepsBytes(r, stream, first, data, last)
  {
    hide Mod;
    hide Flat;
    hide NoEmptyChunk;
    hide Holds;
    hide ReassemblerState.IsValidIndex;
    AllocateGood(r, stream);
    StashCells(r.Allocate(), first, data);
    hide ReassemblerState.Stash;
    assert r.Insert(first, data, last).Ok? && |r.Insert(first, data, last).value.storage| > r.Capacity() by {
      hide ReassemblerState.TakeInOrder;
    }
    hide ReassemblerState.Insert;
    hide Known;
  }

  /** With exactly the capacity pushed, whatever has been stored is cleared at once. */
  lemma AtCapacityResult(r: ReassemblerState, stream: seq<byte>, first: nat, data: seq<byte>, last: bool)
    requires Good(r, stream) && first > r.cur && !TurnedAway(r, first)
    requires r.Pushed() == r.Capacity() && FitsBuffers(r, first, data)
    ensures r.Insert(first, data, last).Ok?
    ensures var r' := r.Insert(first, data, last).value;
            && Good(r', stream) && r'.output.popped == r.output.popped
            && EndNoted(r, r', first, data, last) && Counts(r, r')
            && (forall i: nat :: Known(r', i) <==> Known(r, i))
  {
    hide Mod;
    hide Flat;
    hide NoEmptyChunk;
    hide Holds;
    hide RunLength;
    hide ReassemblerState.IsValidIndex;
    AllocateGood(r, stream);
    var r0, c := r.Allocate(), r.Capacity();
    StashCells(r0, first, data);
    StashKeepsMarks(r, first, data);
    var r1 := r0.Stash(first, data).value;
    hide ReassemblerState.Stash;
    assert r.cur == c && r1.FlushAt() == c == |r1.bitmap|;
    ClearAll(r1, c);
    InsertForm(r, first, data, last, r1);
    var r2 := r1.(bitmap := Fill(false, c));
    assert Good(r2, stream);
    FinishGood(r2, stream, first, data, last);
    FinishNotes(r, r2, first, data, last);
    hide ReassemblerState.Insert;
    hide ReassemblerState.Flush;
    hide EndNoted;
    forall i: nat
      ensures Known(r2.Finish(first, data, last), i) <==> i < c
      ensures Known(r, i) <==> i < c
    {
    }
    hide ReassemblerState.Finish;
  }

  lemma ClearAll(r: ReassemblerState, at: nat)
    requires at == |r.bitmap| == |r.storage|
    ensures r.Flush(at) == r.(bitmap := Fill(false, at))
  {
    hide Mod;
    hide Flat;
    assert RunLength(r.bitmap, at) == 0;
    FlushParts(r, at);
    FlushBits(r, at);
    assert r.Flush(at).bitmap == Fill(false, at);
  }

  lemma AtCapacityExactly(r: ReassemblerState, stream: seq<byte>, first: nat, data: seq<byte>, last: bool)
    requires Good(r, stream) && first > r.cur && !TurnedAway(r, first) && r.Pushed() == r.Capacity()
    ensures MeetsContract(r, stream, first, data, last) <==>
              FitsBuffers(r, first, data) && (data == [] || first >= WindowEnd(r))
  {
    hide Mod;
    hide Flat;
    hide Holds;
    hide EndNoted;
    hide TurnedAway;
    hide ReassemblerState.Insert;
    if !FitsBuffers(r, first, data) {
      StorageGrows(r, stream, first, data, last);
    } else {
      AtCapacityResult(r, stream, first, data, last);
      assert !Known(r, first);
      assert data != [] ==> InFragment(first, data, first);
    }
    hide FitsBuffers;
    hide Good;
    hide Known;
  }

  /** Past the capacity, cells beyond the position are written and read for the block of `cur`. */
  lemma PastCapacityResult(r: ReassemblerState, stream: seq<byte>, first: nat, data: seq<byte>, last: bool)
    requires Good(r, stream) && first > r.cur && !TurnedAway(r, first)
    requires r.Pushed() > r.Capacity() && FitsBuffers(r, first, data)
    requires Position(r) < Mod(first, r.Capacity())
    ensures r.Insert(first, data, last).Ok? && r.Allocate().Stash(first, data).Ok?
    ensures var r', r1 := r.Insert(first, data, last).value, r.Allocate().Stash(first, data).value;
            && r' == r1.Finish(first, data, last)
            && |r1.bitmap| == |r1.storage| == r.Capacity() && r1.output == r.output && r1.cur == r.cur
            && Position(r1) == Position(r) && Position(r') == Position(r)
  {
    hide Mod;
    hide Flat;
    hide NoEmptyChunk;
    hide Holds;
    hide ReassemblerState.IsValidIndex;
    AllocateGood(r, stream);
    var r0 := r.Allocate();
    StashCells(r0, first, data);
    var r1, at := r0.Stash(first, data).value, Position(r);
    hide ReassemblerState.Stash;
    assert r1.FlushAt() == at && !r1.bitmap[at];
    FlushOneGap(r1, at);
    InsertForm(r, first, data, last, r1);
    hide ReassemblerState.Insert;
    hide ReassemblerState.Flush;
  }

  /** Nothing to flush and nothing to clear. */
  lemma FlushOneGap(r: ReassemblerState, at: nat)
    requires at < |r.bitmap| == |r.storage|
    requires forall j :: 0 <= j <= at ==> !r.bitmap[j]
    ensures r.Flush(at) == r
  {
    hide Mod;
    hide Flat;
    assert RunLength(r.bitmap, at) == 0;
    FlushParts(r, at);
    FlushBits(r, at);
    assert r.Flush(at).bitmap == r.bitmap;
  }

  /** Which indices are known after that. */
  lemma PastCapacityKnown(r: ReassemblerState, stream: seq<byte>, first: nat, data: seq<byte>, last: bool)
    requires Good(r, stream) && first > r.cur && !TurnedAway(r, first)
    requires r.Pushed() > r.Capacity() && FitsBuffers(r, first, data)
    requires Position(r) < Mod(first, r.Capacity())
    ensures r.Insert(first, data, last).Ok?
    ensures var from := r.cur + (Mod(first, r.Capacity()) - Position(r));
            forall i: nat :: Known(r.Insert(first, data, last).value, i) <==>
                               Known(r, i) || InFragment(from, KeptText(r, first, data), i)
  {
    hide Mod;
    hide Flat;
    hide NoEmptyChunk;
    hide ReassemblerState.Stash;
    hide ReassemblerState.Insert;
    hide TurnedAway;
    PastCapacityResult(r, stream, first, data, last);
    AllocateGood(r, stream);
    var r0 := r.Allocate();
    assert FitsBuffers(r0, first, data) && KeptText(r0, first, data) == KeptText(r, first, data);
    assert r0.Valid();
    hide Good;
    hide ReassemblerState.Allocate;
    StashCells(r0, first, data);
    var r1, r' := r0.Stash(first, data).value, r.Insert(first, data, last).value;
    assert r'.bitmap == r1.bitmap && r'.cur == r.cur;
    hide ReassemblerState.Finish;
    hide KeptText;
    MoreKnown(r0, r', Mod(first, r.Capacity()), KeptText(r, first, data));
  }

  lemma MoreKnown(r: ReassemblerState, r': ReassemblerState, at: nat, text: seq<byte>)
    requires r'.cur == r.cur && Position(r') == Position(r) < at && |r'.bitmap| == |r.bitmap| >= at + |text|
    requires forall j :: 0 <= j < |r.bitmap| ==> r'.bitmap[j] == (at <= j < at + |text| || r.bitmap[j])
    ensures forall i: nat :: Known(r', i) <==> Known(r, i) || InFragment(r.cur + (at - Position(r)), text, i)
  {
    hide Position;
  }

  /** An admitted index inside the window lies in the block of `cur`, beyond the position. */
  lemma WindowBlock(r: ReassemblerState, stream: seq<byte>, first: nat)
    requires Good(r, stream) && r.Pushed() > r.Capacity() && r.cur < first < WindowEnd(r) && !TurnedAway(r, first)
    ensures first - r.cur == Mod(first, r.Capacity()) - Position(r)
  {
    assert |r.output.popped| <= r.Pushed() == r.cur;
    ModWindow(r.cur, first, r.Capacity());
    hide Mod;
    hide Flat;
    hide Holds;
  }

  lemma InWindowKept(r: ReassemblerState, stream: seq<byte>, first: nat, data: seq<byte>, last: bool)
    requires Good(r, stream) && IsFragment(stream, first, data) && !TurnedAway(r, first)
    requires r.Pushed() > r.Capacity() && r.cur < first < WindowEnd(r) && FitsBuffers(r, first, data)
    requires first + |KeptText(r, first, data)| <= WindowEnd(r)
    requires KnownFrom(r, first, data, first + |KeptText(r, first, data)|)
    ensures MeetsContract(r, stream, first, data, last)
    ensures Counts(r, r.Insert(first, data, last).value)
  {
    hide Mod;
    hide Flat;
    hide NoEmptyChunk;
    hide Holds;
    hide ReassemblerState.IsValidIndex;
    WindowBlock(r, stream, first);
    AllocateGood(r, stream);
    var r0, text, f := r.Allocate(), KeptText(r, first, data), Mod(first, r.Capacity());
    assert KeptText(r0, first, data) == text;
    StashCells(r0, first, data);
    var r1 := r0.Stash(first, data).value;
    hide ReassemblerState.Stash;
    hide ReassemblerState.Insert;
    assert FitsBuffers(r0, first, data);
    hide KeptText;
    hide Known;
    if text != [] {
      PrefixSlice(stream, first, data, text);
      KeepMore(r0, r1, stream, f, text);
    }
    hide Position;
    hide Good;
    hide Core;
    StoredKnown(r, r0, r1, first, data, text);
    hide KnownFrom;
    hide IsFragment;
    InsertStored(r, stream, first, data, last, r1);
  }

  lemma StoredKnown(r: ReassemblerState, r0: ReassemblerState, r1: ReassemblerState,
                    first: nat, data: seq<byte>, text: seq<byte>)
    requires forall i: nat :: Known(r0, i) <==> Known(r, i)
    requires forall i: nat :: Known(r1, i) <==> Known(r0, i) || InFragment(first, text, i)
    requires text <= data && first + |text| <= WindowEnd(r) && KnownFrom(r, first, data, first + |text|)
    ensures forall i: nat :: Known(r1, i) <==> Known(r, i) || (InFragment(first, data, i) && i < WindowEnd(r))
  {
    hide Known;
    forall i: nat
      ensures Known(r1, i) <==> Known(r, i) || (InFragment(first, data, i) && i < WindowEnd(r))
    {
      assert Known(r0, i) <==> Known(r, i);
      assert Known(r1, i) <==> Known(r0, i) || InFragment(first, text, i);
    }
  }

  lemma InWindowBreaks(r: ReassemblerState, stream: seq<byte>, first: nat, data: seq<byte>, last: bool)
    requires Good(r, stream) && !TurnedAway(r, first) && FitsBuffers(r, first, data)
    requires r.Pushed() > r.Capacity() && r.cur < first < WindowEnd(r)
    requires first + |KeptText(r, first, data)| > WindowEnd(r)
             || !KnownFrom(r, first, data, first + |KeptText(r, first, data)|)
    ensures !KeepsBytes(r, stream, first, data, last)
  {
    hide Mod;
    hide Flat;
    hide NoEmptyChunk;
    hide TurnedAway;
    hide FitsBuffers;
    WindowBlock(r, stream, first);
    PastCapacityKnown(r, stream, first, data, last);
    hide ReassemblerState.Insert;
    WindowUnknown(r, stream);
    hide KeptText;
    hide Good;
    hide Known;
    hide Position;
    var r' := r.Insert(first, data, last).value;
    if first + |KeptText(r, first, data)| > WindowEnd(r) {
      assert Known(r', WindowEnd(r));
    } else {
      var i: nat :| first + |KeptText(r, first, data)| <= i && InFragment(first, data, i) && i < WindowEnd(r) && !Known(r, i);
      assert !Known(r', i);
    }
  }

  /** Nothing is known outside the window. */
  lemma WindowUnknown(r: ReassemblerState, stream: seq<byte>)
    requires Good(r, stream)
    ensures forall i: nat :: i >= WindowEnd(r) ==> !Known(r, i)
  {
    assert |r.output.Pushed()| == |r.output.popped| + r.output.Buffered();
    hide Flat;
    hide Mod;
    assert r.cur <= WindowEnd(r);
    hide Position;
    forall j | Position(r) <= j < |r.bitmap| && r.bitmap[j]
      ensures r.cur + (j - Position(r)) < WindowEnd(r)
    {
      assert Holds(r, stream, j);
    }
  }

  /** Outside the window a substring may be stored only if that changes nothing. */
  lemma OutsideExactly(r: ReassemblerState, stream: seq<byte>, first: nat, data: seq<byte>, last: bool)
    requires Good(r, stream) && first > r.cur && !TurnedAway(r, first)
    requires r.Pushed() > r.Capacity() && first >= WindowEnd(r)
    ensures MeetsContract(r, stream, first, data, last) <==> r.Allocate().Stash(first, data) == Ok(r.Allocate())
  {
    hide Mod;
    hide Flat;
    hide NoEmptyChunk;
    hide Holds;
    hide EndNoted;
    AllocateGood(r, stream);
    var r0 := r.Allocate();
    if r0.Stash(first, data) == Ok(r0) {
      OutsideUnchanged(r, stream, first, data, last);
    } else if !FitsBuffers(r, first, data) {
      StorageGrows(r, stream, first, data, last);
    } else if Mod(first, r.Capacity()) == Position(r) {
      OutsideFlushes(r, stream, first, data, last);
    } else if KeepsBytes(r, stream, first, data, last) {
      OutsideChanges(r, stream, first, data, last);
    }
    hide ReassemblerState.Insert;
    hide ReassemblerState.Stash;
    hide ReassemblerState.Allocate;
    hide KeepsBytes;
    hide FitsBuffers;
  }

  lemma OutsideUnchanged(r: ReassemblerState, stream: seq<byte>, first: nat, data: seq<byte>, last: bool)
    requires Good(r, stream) && first > r.cur && !TurnedAway(r, first) && first >= WindowEnd(r)
    requires r.Allocate().Stash(first, data) == Ok(r.Allocate())
    ensures MeetsContract(r, stream, first, data, last)
    ensures Counts(r, r.Insert(first, data, last).value)
  {
    AllocateGood(r, stream);
    hide Mod;
    hide Flat;
    hide NoEmptyChunk;
    hide Known;
    hide Core;
    hide ReassemblerState.Stash;
    hide ReassemblerState.Insert;
    hide TurnedAway;
    InsertStored(r, stream, first, data, last, r.Allocate());
  }

  /** A byte of another block at the position itself is flushed. */
  lemma OutsideFlushes(r: ReassemblerState, stream: seq<byte>, first: nat, data: seq<byte>, last: bool)
    requires Good(r, stream) && first > r.cur && !TurnedAway(r, first)
    requires r.Pushed() > r.Capacity() && FitsBuffers(r, first, data) && Mod(first, r.Capacity()) == Position(r)
    requires r.Allocate().Stash(first, data) != Ok(r.Allocate())
    ensures !KeepsBytes(r, stream, first, data, last)
  {
    hide Mod;
    hide Flat;
    hide NoEmptyChunk;
    hide Holds;
    hide ReassemblerState.IsValidIndex;
    AllocateGood(r, stream);
    var r0, at := r.Allocate(), Position(r);
    StashCells(r0, first, data);
    var r1 := r0.Stash(first, data).value;
    hide ReassemblerState.Stash;
    assert r1.FlushAt() == at && r1.bitmap[at];
    assert RunLength(r1.bitmap, at) > 0;
    InsertForm(r, first, data, last, r1);
    assert r.Insert(first, data, last).value.cur > r.cur;
    hide ReassemblerState.Insert;
    hide ReassemblerState.Flush;
    if KeepsBytes(r, stream, first, data, last) {
      GapStays(r, stream, first, data, last);
    }
  }

  lemma OutsideChanges(r: ReassemblerState, stream: seq<byte>, first: nat, data: seq<byte>, last: bool)
    requires Good(r, stream) && first > r.cur && !TurnedAway(r, first) && first >= WindowEnd(r)
    requires r.Pushed() > r.Capacity() && FitsBuffers(r, first, data) && Mod(first, r.Capacity()) != Position(r)
    requires KeepsBytes(r, stream, first, data, last)
    ensures r.Allocate().Stash(first, data) == Ok(r.Allocate())
  {
    hide Mod;
    hide Flat;
    hide NoEmptyChunk;
    AllocateGood(r, stream);
    var r0, at := r.Allocate(), Position(r);
    assert at < Mod(first, r.Capacity());
    hide TurnedAway;
    hide FitsBuffers;
    PastCapacityResult(r, stream, first, data, last);
    StashCells(r0, first, data);
    var r1, r' := r0.Stash(first, data).value, r.Insert(first, data, last).value;
    assert r'.bitmap == r1.bitmap && r'.storage == r1.storage && r'.cur == r.cur;
    WindowUnknown(r, stream);
    hide ReassemblerState.Stash;
    hide ReassemblerState.Finish;
    hide ReassemblerState.Insert;
    hide ReassemblerState.Allocate;
    hide KeptText;
    SameKnown(r, r', first, data);
    SameCells(r0, r', stream);
    assert r1.bitmap == r0.bitmap && r1.storage == r0.storage;
  }

  lemma SameKnown(r: ReassemblerState, r': ReassemblerState, first: nat, data: seq<byte>)
    requires first >= WindowEnd(r)
    requires forall i: nat :: Known(r', i) <==> Known(r, i) || (InFragment(first, data, i) && i < WindowEnd(r))
    ensures forall i: nat :: Known(r', i) <==> Known(r, i)
  {
    hide Known;
    forall i: nat
      ensures Known(r', i) <==> Known(r, i)
    {
    }
  }

  /** Two sound states that know the same and differ in nothing else have the same cells. */
  lemma SameCells(r: ReassemblerState, r': ReassemblerState, stream: seq<byte>)
    requires Good(r, stream) && Good(r', stream) && r'.cur == r.cur && Position(r') == Position(r)
    requires |r'.bitmap| == |r.bitmap|
    requires forall i: nat :: Known(r', i) <==> Known(r, i)
    requires forall j :: 0 <= j < |r.bitmap| && !r'.bitmap[j] ==> r'.storage[j] == r.storage[j]
    ensures r'.bitmap == r.bitmap && r'.storage == r.storage
  {
    hide Mod;
    hide Flat;
    assert |r.storage| == |r.bitmap| && |r'.storage| == |r'.bitmap|;
    hide Position;
    hide InStep;
    var at := Position(r);
    forall j | 0 <= j < |r.bitmap|
      ensures r'.bitmap[j] == r.bitmap[j] && r'.storage[j] == r.storage[j]
    {
      if at <= j {
        assert Known(r', r.cur + (j - at)) <==> Known(r, r.cur + (j - at));
        assert r'.bitmap[j] ==> Holds(r', stream, j) && Holds(r, stream, j);
      }
    }
  }

  // ---------- All of it ----------

  lemma BeyondGapExactly(r: ReassemblerState, stream: seq<byte>, first: nat, data: seq<byte>, last: bool)
    requires Good(r, stream) && IsFragment(stream, first, data) && first > r.cur && !TurnedAway(r, first)
    ensures MeetsContract(r, stream, first, data, last) <==> ContractCondition(r, first, data, last)
  {
    assert r.Valid();
    hide Mod;
    hide Flat;
    hide Good;
    hide IsFragment;
    hide TurnedAway;
    hide KeepsBytes;
    hide EndNoted;
    hide KnownFrom;
    hide FitsBuffers;
    hide KeptText;
    hide ReassemblerState.Insert;
    hide ReassemblerState.Stash;
    hide ReassemblerState.Allocate;
    if r.Pushed() < r.Capacity() {
      if first <= r.Capacity() && (data == [] || Min(first + |data|, WindowEnd(r)) <= r.Capacity()) {
        LinearKept(r, stream, first, data, last);
      } else {
        LinearBreaks(r, stream, first, data, last);
      }
    } else if r.Pushed() == r.Capacity() {
      AtCapacityExactly(r, stream, first, data, last);
    } else if first >= WindowEnd(r) {
      OutsideExactly(r, stream, first, data, last);
    } else if !FitsBuffers(r, first, data) {
      StorageGrows(r, stream, first, data, last);
    } else if ContractCondition(r, first, data, last) {
      InWindowKept(r, stream, first, data, last);
    } else {
      InWindowBreaks(r, stream, first, data, last);
    }
  }

  /** Exactly which insertions the code gets right: part of a stream of any length, from any sound
      state, inside the window or not, empty or not, on an open output or a closed one, the end
      marker included. */
  lemma ContractExactly(r: ReassemblerState, stream: seq<byte>, first: nat, data: seq<byte>, last: bool)
    requires Good(r, stream) && IsFragment(stream, first, data)
    ensures MeetsContract(r, stream, first, data, last) <==> ContractCondition(r, first, data, last)
  {
    if first <= r.cur {
      InOrderExactly(r, stream, first, data, last);
    } else if TurnedAway(r, first) {
      TurnedAwayExactly(r, stream, first, data, last);
    } else {
      BeyondGapExactly(r, stream, first, data, last);
    }
    hide *;
  }

  /** Past the capacity, new bytes beyond a gap and inside the window: they are kept and later
      delivered if and only if the index check admits them and they end two cells before the end
      of the buffer, or are a single byte for its last cell. */
  lemma InWindowExactly(r: ReassemblerState, stream: seq<byte>, first: nat, data: seq<byte>, last: bool)
    requires Good(r, stream) && IsFragment(stream, first, data) && r.Pushed() > r.Capacity()
    requires r.cur < first && data != [] && first + |data| <= WindowEnd(r)
    requires forall i: nat :: InFragment(first, data, i) ==> !Known(r, i)
    ensures var f := Mod(first, r.Capacity());
            MeetsContract(r, stream, first, data, last) <==>
              && Position(r) <= f
              && (f + |data| + 2 <= r.Capacity() || (f + 1 == r.Capacity() && |data| == 1))
  {
    ContractExactly(r, stream, first, data, last);
    AllocateGood(r, stream);
    assert InFragment(first, data, first) && !Known(r, first);
    hide Mod;
    hide Flat;
    hide Good;
    hide MeetsContract;
    hide IsFragment;
    assert TurnedAway(r, first) <==> Mod(first, r.Capacity()) < Position(r);
    hide TurnedAway;
    assert !KnownFrom(r, first, data, first);
    var kept := |KeptText(r, first, data)|;
    assert kept < |data| ==> !KnownFrom(r, first, data, first + kept) by {
      if kept < |data| {
        assert InFragment(first, data, first + kept) && !Known(r, first + kept);
      }
    }
    assert kept == |data| ==> KnownFrom(r, first, data, first + kept);
    hide KnownFrom;
    hide Known;
    hide Position;
  }

  // ---------- Runs of any length ----------

  /** What a reassembler should be: the set of indices seen, and how many bytes have been read. */
  datatype Ideal = Ideal(known: set<nat>, taken: nat)

  /** The first index from `from` on that is not in the set. */
  function FirstMissing(known: set<nat>, from: nat): nat
    decreases |known|
  {
    if from in known then FirstMissing(known - {from}, from + 1) else from
  }

  lemma {:induction false} FirstMissingIs(known: set<nat>, from: nat)
    ensures from <= FirstMissing(known, from) && FirstMissing(known, from) !in known
    ensures forall i :: from <= i < FirstMissing(known, from) ==> i in known
    decreases |known|
  {
    if from in known {
      FirstMissingIs(known - {from}, from + 1);
      forall i | from <= i < FirstMissing(known, from)
        ensures i in known
      {
        assert i > from ==> i in known - {from};
      }
    }
  }

  function Range(from: nat, to: int): (s: set<nat>)
    ensures forall i: nat :: (i in s <==> from <= i < to)
    decreases Max(0, to - from)
  {
    if from < to then {from} + Range(from + 1, to) else {}
  }

  /** One operation on it: the fragment's bytes inside the window are seen, or bytes in order are read. */
  function IdealStep(s: Ideal, capacity: nat, op: Op): Ideal {
    match op
    case Insert(first, data, last) =>
      s.(known := s.known + Range(first, Min(first + |data|, s.taken + capacity)))
    case Read(len) =>
      s.(taken := s.taken + Max(0, Min(len, FirstMissing(s.known, 0) - s.taken)))
  }

  function IdealRun(s: Ideal, capacity: nat, ops: seq<Op>): Ideal
    decreases |ops|
  {
    if ops == [] then s else IdealRun(IdealStep(s, capacity, ops[0]), capacity, ops[1..])
  }

  /** Every insertion keeps the contract at its moment. */
  predicate ContractRun(r: ReassemblerState, ops: seq<Op>)
    requires r.Valid()
    decreases |ops|
  {
    ops == [] ||
    match ops[0]
    case Read(len) => ContractRun(ReadSome(r, len), ops[1..])
    case Insert(first, data, last) =>
      var r' := r.Insert(first, data, last);
      ContractCondition(r, first, data, last) && (r'.Ok? ==> ContractRun(r'.value, ops[1..]))
  }

  ghost predicate Agrees(r: ReassemblerState, s: Ideal) {
    && (forall i: nat :: i in s.known <==> Known(r, i))
    && s.taken == |r.output.popped|
  }

  /** The next expected index is the first missing one. */
  lemma CurIsFirstMissing(r: ReassemblerState, stream: seq<byte>, s: Ideal)
    requires Good(r, stream) && Agrees(r, s)
    ensures r.cur == FirstMissing(s.known, 0)
  {
    var n := FirstMissing(s.known, 0);
    FirstMissingIs(s.known, 0);
    hide FirstMissing;
    assert !Known(r, r.cur);
    assert Known(r, n) <==> n in s.known;
    assert n > r.cur ==> r.cur in s.known;
    hide Good;
  }

  lemma ReadAgrees(r: ReassemblerState, stream: seq<byte>, s: Ideal, len: nat)
    requires Good(r, stream) && Marked(r, stream) && Agrees(r, s)
    ensures Agrees(ReadSome(r, len), IdealStep(s, r.Capacity(), Read(len)))
  {
    CurIsFirstMissing(r, stream, s);
    ReadGood(r, stream, len);
    var n := Min(len, r.output.Buffered());
    ByteStreams.PopRefinesQueue(r.output, n);
    assert r.Pushed() == |r.output.popped| + r.output.Buffered();
    assert |r.output.Pop(n).popped| == |r.output.popped| + n by {
      hide ByteStreams.StreamState.Pop;
      FlatEmpty(r.output.deck);
    }
    hide Known;
    hide Good;
    hide FirstMissing;
    hide Flat;
    hide NoEmptyChunk;
    hide ByteStreams.StreamState.Pop;
  }

  lemma InsertAgrees(r: ReassemblerState, stream: seq<byte>, s: Ideal, first: nat, data: seq<byte>, last: bool)
    requires Good(r, stream) && Agrees(r, s) && KeepsBytes(r, stream, first, data, last)
    ensures Agrees(r.Insert(first, data, last).value, IdealStep(s, r.Capacity(), Insert(first, data, last)))
  {
    assert r.Valid();
    hide ReassemblerState.Insert;
    hide Known;
    hide Good;
    hide Flat;
    var s', r' := IdealStep(s, r.Capacity(), Insert(first, data, last)), r.Insert(first, data, last).value;
    forall i: nat
      ensures i in s'.known <==> Known(r', i)
    {
      assert i in s.known <==> Known(r, i);
    }
  }

  /** A call that keeps the contract counts every byte. */
  lemma ContractCounts(r: ReassemblerState, stream: seq<byte>, first: nat, data: seq<byte>, last: bool)
    requires Good(r, stream) && IsFragment(stream, first, data) && ContractCondition(r, first, data, last)
    ensures MeetsContract(r, stream, first, data, last)
    ensures Counts(r, r.Insert(first, data, last).value)
  {
    ContractExactly(r, stream, first, data, last);
    hide MeetsContract;
    hide Good;
    hide Counts;
    hide IsFragment;
    hide TurnedAway;
    hide TakesSafely;
    hide KnownFrom;
    hide FitsBuffers;
    hide KeptText;
    hide ReassemblerState.Insert;
    hide ReassemblerState.Stash;
    hide ReassemblerState.Allocate;
    if first <= r.cur {
      InsertInOrder(r, stream, first, data, last);
    } else if TurnedAway(r, first) {
      InsertTurnedAway(r, stream, first, data, last);
    } else if r.Pushed() < r.Capacity() {
      LinearKept(r, stream, first, data, last);
    } else if r.Pushed() == r.Capacity() {
      AtCapacityResult(r, stream, first, data, last);
    } else if first >= WindowEnd(r) {
      OutsideUnchanged(r, stream, first, data, last);
    } else {
      InWindowKept(r, stream, first, data, last);
    }
  }

  /** Runs of any length: as long as every call keeps the contract, the reassembler is the ideal one.
      Its known indices are the ideal set, its output is the stream up to the first missing index, and
      it is closed exactly when the end marker has been seen and nothing is missing. */
  lemma {:induction false} LongRunRefines(r: ReassemblerState, stream: seq<byte>, ops: seq<Op>, s: Ideal)
    requires Good(r, stream) && Marked(r, stream) && |stream| < TWO_64 && Agrees(r, s)
    requires (forall op :: op in ops ==> Legal(stream, op)) && ContractRun(r, ops)
    ensures Run(r, ops).Ok?
    ensures var r', s' := Run(r, ops).value, IdealRun(s, r.Capacity(), ops);
            && Good(r', stream) && Marked(r', stream) && Agrees(r', s')
            && r'.cur == FirstMissing(s'.known, 0) && r'.output.Pushed() == stream[..r'.cur]
            && (r'.seenLast <==> r.seenLast || HasLast(Inserts(ops)))
    decreases |ops|
  {
    assert r.Valid();
    hide Good;
    hide Agrees;
    hide Marked;
    hide IsFragment;
    hide ContractCondition;
    hide ReassemblerState.Insert;
    hide ReadSome;
    hide FirstMissing;
    if ops == [] {
      CurIsFirstMissing(r, stream, s);
      MarkedOutput(r, stream);
    } else {
      assert ops[0] in ops && Legal(stream, ops[0]);
      match ops[0]
      case Read(len) =>
        ReadGood(r, stream, len);
        ReadKeepsMarks(r, stream, len);
        ReadAgrees(r, stream, s, len);
        LongRunRefines(ReadSome(r, len), stream, ops[1..], IdealStep(s, r.Capacity(), ops[0]));
      case Insert(first, data, last) =>
        ContractCounts(r, stream, first, data, last);
        KeepsOrder(r, stream, first, data, last);
        var r' := r.Insert(first, data, last).value;
        NotedMarks(r, r', stream, first, data, last);
        InsertAgrees(r, stream, s, first, data, last);
        CoversCons(ops[0], Inserts(ops[1..]));
        LongRunRefines(r', stream, ops[1..], IdealStep(s, r.Capacity(), ops[0]));
    }
  }

  lemma MarkedOutput(r: ReassemblerState, stream: seq<byte>)
    requires Good(r, stream) && Marked(r, stream)
    ensures r.output.Pushed() == stream[..r.cur]
  {
    hide Holds;
  }

  /** The same from a fresh reassembler. */
  lemma LongRunFromEmpty(capacity: nat, stream: seq<byte>, ops: seq<Op>)
    requires 0 < capacity < 0x8000_0000 && |stream| < TWO_64
    requires (forall op :: op in ops ==> Legal(stream, op)) && ContractRun(NewReassembler(capacity), ops)
    ensures Run(NewReassembler(capacity), ops).Ok?
    ensures var r, s := Run(NewReassembler(capacity), ops).value, IdealRun(Ideal({}, 0), capacity, ops);
            && r.cur == FirstMissing(s.known, 0) <= |stream| && r.output.Pushed() == stream[..r.cur]
            && |r.output.popped| == s.taken
            && (forall i: nat :: Known(r, i) <==> i in s.known)
            && (r.output.closed <==> HasLast(Inserts(ops)) && r.cur == |stream|)
  {
    FreshGood(capacity, stream);
    FreshKnowsNothing(capacity);
    hide ContractRun;
    hide Good;
    LongRunRefines(NewReassembler(capacity), stream, ops, Ideal({}, 0));
    hide Run;
    hide IdealRun;
    hide Known;
  }
}
