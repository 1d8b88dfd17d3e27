/** A stream longer than the capacity, sent inside the window, that comes out wrong. */
module ReassemblerExample {
  import opened Bytes
  import ByteStreams
  import opened Reassemblers
  import opened ReassemblerProofs
  import C = ReassemblerContract

  /** A reassembler of capacity 4 whose last buffer byte is 'd', marked or not. */
  function State(popped: seq<byte>, deck: Chunks, cur: nat, marked: bool): ReassemblerState
    requires NoEmptyChunk(deck) && |Flat(deck)| <= 4
  {
    ReassemblerState(ByteStreams.StreamState(4, popped, deck, false, false), cur, false, 0,
                     [48, 48, 48, 100], [false, false, false, marked])
  }

  lemma FlatOne(c: seq<byte>)
    ensures Flat([c]) == c
  {
    FlatSnoc([], c);
    assert [] + [c] == [c];
  }

  /** The next bytes arrive on an empty, roomy output. */
  lemma PushEmpty(s: ByteStreams.Stream, data: seq<byte>)
    requires s.deck == [] && !s.closed && 0 < |data| <= s.capacity
    ensures NoEmptyChunk([data]) && |Flat([data])| <= s.capacity
    ensures s.Available() == s.capacity && s.Push(data) == s.(deck := [data])
  {
    FlatOne(data);
    assert Flat(s.deck) == [];
    hide Flat;
    assert data[..|data|] == data && [] + [data] == [data];
  }

  lemma InOrderEval(r: ReassemblerState, data: seq<byte>)
    requires r.output.deck == [] && !r.output.closed && 0 < |data| <= r.Capacity()
    ensures NoEmptyChunk([data]) && |Flat([data])| <= r.Capacity()
    ensures r.TakeInOrder(r.cur, data) ==
            r.(output := r.output.(deck := [data]), cur := r.cur + |data|)
  {
    hide Flat;
    hide ByteStreams.StreamState.Push;
    hide ByteStreams.StreamState.Available;
    PushEmpty(r.output, data);
    assert data[0..] == data;
    assert r.Fresh(r.cur, data) == data && Substr(data, r.output.Available()) == data;
  }

  lemma FlushNothing(r: ReassemblerState, at: nat)
    requires |r.bitmap| == |r.storage| == 4 && at <= 3 && !r.bitmap[at]
    requires forall i :: 0 <= i < at ==> !r.bitmap[i]
    ensures r.Flush(at) == r
  {
    assert RunLength(r.bitmap, at) == 0;
    FlushParts(r, at);
    FlushBits(r, at);
    assert r.Flush(at).bitmap == r.bitmap;
  }

  /** The buffer as it is first allocated. */
  function Blank(deck: Chunks, cur: nat): ReassemblerState
    requires NoEmptyChunk(deck) && |Flat(deck)| <= 4
  {
    State([], deck, cur, false).(storage := [48, 48, 48, 48])
  }

  lemma AllocateFour()
    ensures NewReassembler(4).Valid() && NewReassembler(4).Allocate() == Blank([], 0)
  {
    assert Fill(false, 4) == [false, false, false, false] && Fill('0' as int, 4) == [48, 48, 48, 48];
  }

  lemma FirstOnBlank(r: ReassemblerState, data: seq<byte>)
    requires r == Blank([], 0) && |data| == 1
    ensures NoEmptyChunk([data]) && |Flat([data])| <= 4
    ensures r.Insert(0, data, false) == Ok(Blank([data], 1))
  {
    FlatOne(data);
    InOrderEval(r, data);
    var r1 := r.TakeInOrder(0, data);
    FlushNothing(r1, 1);
    InsertForm(r, 0, data, false, r1);
  }

  lemma FirstByte()
    ensures NoEmptyChunk([[97]]) && |Flat([[97]])| <= 4
    ensures NewReassembler(4).Insert(0, [97], false) == Ok(Blank([[97]], 1))
  {
    AllocateFour();
    FirstOnBlank(Blank([], 0), [97]);
    hide ReassemblerState.Insert;
    hide ReassemblerState.Allocate;
    InsertAllocated(NewReassembler(4), 0, [97], false);
  }

  /** 'd' arrives ahead of its turn and is kept. */
  lemma KeepD(r: ReassemblerState)
    requires r == State([97], [], 1, false).(storage := [48, 48, 48, 48])
    ensures r.Insert(3, [100], false) == Ok(State([97], [], 1, true))
  {
    StashShape(r, 3, [100]);
    var r1 := r.Stash(3, [100]).value;
    assert r1.bitmap == [false, false, false, true];
    assert r1.storage == [48, 48, 48, 100];
    FlushNothing(r1, 1);
    InsertForm(r, 3, [100], false, r1);
  }

  /** "bcde" covers the kept byte, but its mark survives: the output is past the capacity. */
  lemma TakeBcde(r: ReassemblerState, data: seq<byte>)
    requires r == State([97], [], 1, true) && |data| == 4
    ensures NoEmptyChunk([data]) && |Flat([data])| <= 4
    ensures r.Insert(1, data, false) == Ok(State([97], [data], 5, true))
  {
    FlatOne(data);
    InOrderEval(r, data);
    var r1 := r.TakeInOrder(1, data);
    assert r1.Pushed() == 5 && Mod(5, 4) == 1;
    FlushNothing(r1, 1);
    InsertForm(r, 1, data, false, r1);
  }

  /** "fg" arrives; the stale mark sends 'd' out again as the eighth byte. */
  lemma TakeFg(r: ReassemblerState, data: seq<byte>)
    requires |r.output.popped| == 5 && r == State(r.output.popped, [], 5, true) && |data| == 2
    ensures r.Insert(5, data, false).Ok?
    ensures r.Insert(5, data, false).value.output.Pushed() == r.output.popped + data + [100]
  {
    FlatOne(data);
    InOrderEval(r, data);
    var r1 := r.TakeInOrder(5, data);
    assert r1.Pushed() == 7 && Mod(7, 4) == 3;
    assert RunLength(r1.bitmap, 3) == 1;
    FlushParts(r1, 3);
    assert r1.storage[3..4] == [100];
    ByteStreams.PushRefinesQueue(r1.output, [100]);
    InsertForm(r, 5, data, false, r1);
  }

  lemma ReadOne(r: ReassemblerState, data: seq<byte>)
    requires data != [] && r.output.deck == [data]
    ensures ReadSome(r, |data|) == r.(output := r.output.(popped := r.output.popped + data, deck := []))
  {
    FlatOne(data);
    ByteStreams.PopFront(r.output, |data|);
    assert data[..|data|] == data;
  }

  lemma RunNext(r: ReassemblerState, op: Op, rest: seq<Op>)
    requires r.Valid()
    ensures op.Read? ==> Run(r, [op] + rest) == Run(ReadSome(r, op.len), rest)
    ensures op.Insert? && r.Insert(op.first, op.data, op.last).Ok? ==>
              Run(r, [op] + rest) == Run(r.Insert(op.first, op.data, op.last).value, rest)
  {
    assert ([op] + rest)[1..] == rest;
  }

  const OPS: seq<Op> := [Insert(0, [97], false), Read(1), Insert(3, [100], false),
                         Insert(1, [98, 99, 100, 101], false), Read(4), Insert(5, [102, 103], false)]

  lemma FirstHalf()
    ensures Run(NewReassembler(4), OPS) == Run(State([97], [], 1, true), OPS[3..])
  {
    hide ReassemblerState.Insert;
    FirstByte();
    var r1 := NewReassembler(4).Insert(0, [97], false).value;
    ReadOne(r1, [97]);
    assert [] + [97] == [97];
    var r2 := State([97], [], 1, false).(storage := [48, 48, 48, 48]);
    KeepD(r2);
    hide Run;
    hide ReadSome;
    RunNext(NewReassembler(4), OPS[0], OPS[1..]);
    RunNext(r1, OPS[1], OPS[2..]);
    RunNext(r2, OPS[2], OPS[3..]);
    assert OPS == [OPS[0]] + OPS[1..] && OPS[1..] == [OPS[1]] + OPS[2..] && OPS[2..] == [OPS[2]] + OPS[3..];
  }

  lemma SecondHalf()
    ensures Run(State([97], [], 1, true), OPS[3..]).Ok?
    ensures Run(State([97], [], 1, true), OPS[3..]).value.output.Pushed() == [97, 98, 99, 100, 101, 102, 103, 100]
  {
    hide ReassemblerState.Insert;
    var bcde: seq<byte> := [98, 99, 100, 101];
    var r3 := State([97], [], 1, true);
    TakeBcde(r3, bcde);
    var r4 := State([97], [bcde], 5, true);
    ReadOne(r4, bcde);
    assert [97] + bcde == [97, 98, 99, 100, 101];
    var r5 := State([97, 98, 99, 100, 101], [], 5, true);
    TakeFg(r5, [102, 103]);
    RunNext(r3, OPS[3], OPS[4..]);
    RunNext(r4, OPS[4], OPS[5..]);
    RunNext(r5, OPS[5], OPS[6..]);
    assert OPS[3..] == [OPS[3]] + OPS[4..] && OPS[4..] == [OPS[4]] + OPS[5..] && OPS[5..] == [OPS[5]] + OPS[6..];
    hide ReadSome;
  }

  /** Four correct fragments of "abcdefgh", each inside the window when it arrives, on a
      receiver of capacity 4 that reads all it can: the output goes wrong at its eighth byte. */
  lemma LongStreamCorrupted()
    ensures var stream: seq<byte> := [97, 98, 99, 100, 101, 102, 103, 104];
            && (forall op :: op in OPS ==> Legal(stream, op))
            && Run(NewReassembler(4), OPS).Ok?
            && Run(NewReassembler(4), OPS).value.output.Pushed() == stream[..7] + [100]
  {
    hide Run;
    FirstHalf();
    SecondHalf();
    LegalOps();
    hide Legal;
  }

  lemma LegalOps()
    ensures forall op :: op in OPS ==> Legal([97, 98, 99, 100, 101, 102, 103, 104], op)
  {
    var stream: seq<byte> := [97, 98, 99, 100, 101, 102, 103, 104];
    assert stream[0..1] == [97] && stream[3..4] == [100];
    assert stream[1..5] == [98, 99, 100, 101] && stream[5..7] == [102, 103];
  }

  // ---------- A dropped end marker ----------

  /** The end of a stream that exactly fills the capacity, announced by an empty marker before
      anything is in order: it is dropped, and when all the bytes have come the output stays open. */
  lemma EndMarkerLost(stream: seq<byte>)
    requires 0 < |stream| < 0x8000_0000
    ensures var c := |stream|;
            var marked := NewReassembler(c).Insert(c, [], true);
            && Legal(stream, Insert(c, [], true)) && marked.Ok? && !marked.value.seenLast
            && var filled := marked.value.Insert(0, stream, false);
               filled.Ok? && filled.value.output.Pushed() == stream && !filled.value.output.closed
  {
    var c := |stream|;
    var r := NewReassembler(c);
    assert Flat([]) == [];
    hide Flat;
    hide Mod;
    hide RunLength;
    EndMarkerDropped(r, stream, c, []);
    assert TurnedAway(r, c);
    hide ReassemblerState.IsValidIndex;
    hide ReassemblerState.TakeInOrder;
    hide ReassemblerState.Stash;
    hide ReassemblerState.Flush;
    AllocateGood(r, stream);
    var r0 := r.Allocate();
    assert r.Insert(c, [], true) == Ok(r0);
    hide ReassemblerState.Insert;
    hide TurnedAway;
    assert stream == stream[0..c];
    InsertRefines(r0, stream, 0, stream, false);
    InsertMarks(r0, stream, 0, stream, false);
    var r1 := r0.Insert(0, stream, false).value;
    assert !Known(r1, r1.cur);
    assert r1.cur == c && stream[..c] == stream;
  }

  // ---------- An exception outside the window ----------

  /** Three bytes are in order and unread, so one more fits.  The sixth byte lies outside the window
      and should be discarded; the call throws instead. */
  lemma OutsideWindowThrows(stream: seq<byte>)
    requires |stream| == 6
    ensures var r := NewReassembler(4).Insert(0, stream[..3], false);
            && r.Ok? && r.value.cur == 3 && WindowEnd(r.value) == 4
            && Legal(stream, Insert(5, stream[5..], true))
            && r.value.Insert(5, stream[5..], true) == OutOfRange
  {
    hide ReassemblerState.Insert;
    hide Flat;
    hide Mod;
    hide Good;
    ThreeInOrder(stream);
    var r := NewReassembler(4).Insert(0, stream[..3], false).value;
    SixthThrows(r, stream, stream[5..]);
    assert stream[5..] == stream[5..6];
  }

  lemma SixthThrows(r: ReassemblerState, stream: seq<byte>, data: seq<byte>)
    requires Good(r, stream) && r.Capacity() == 4 && r.cur == 3 == r.Pushed()
    ensures r.Insert(5, data, true) == OutOfRange
  {
    hide ReassemblerState.Insert;
    hide Flat;
    hide Mod;
    AllocateGood(r, stream);
    SixthIsValid(r);
    hide TurnedAway;
    C.StartPastBuffer(r, 5, data, true);
  }

  lemma SixthIsValid(r: ReassemblerState)
    requires r.Valid() && r.Capacity() == 4 && r.cur == 3 == r.Pushed()
    ensures !TurnedAway(r, 5)
  {
    hide Flat;
    hide Mod;
  }

  lemma ThreeInOrder(stream: seq<byte>)
    requires |stream| == 6
    ensures var r := NewReassembler(4).Insert(0, stream[..3], false);
            && r.Ok? && Good(r.value, stream) && r.value.cur == 3 == r.value.Pushed()
            && r.value.output.popped == []
  {
    var r0 := NewReassembler(4);
    assert Flat([]) == [];
    hide Flat;
    hide Mod;
    hide ReassemblerState.Insert;
    assert stream[..3] == stream[0..3];
    InsertRefines(r0, stream, 0, stream[..3], false);
    var r := r0.Insert(0, stream[..3], false).value;
    assert !Known(r, r.cur) && Known(r, 2) && !Known(r, 3);
  }

  // ---------- Buffers that grow ----------

  /** Four bytes of a stream of nine have been pushed and read. */
  lemma FourRead(stream: seq<byte>) returns (r: ReassemblerState)
    requires |stream| == 9
    ensures Good(r, stream) && Marked(r, stream) && NoPending(r) && r.Capacity() == 4 && r.cur == 4 == r.Pushed()
    ensures r.output.Available() == 4
    ensures NewReassembler(4).Insert(0, stream[..4], false).Ok?
    ensures r == ReadSome(NewReassembler(4).Insert(0, stream[..4], false).value, 4)
  {
    var r0 := NewReassembler(4);
    FreshGood(4, stream);
    assert r0.output.Available() == 4 && r0.Pushed() == 0;
    assert stream[..4] == stream[0..4];
    hide Mod;
    hide Good;
    hide Marked;
    hide Flat;
    hide ReadSome;
    hide ReassemblerState.Insert;
    InOrderStep(r0, stream, 0, stream[..4], false);
    var r1 := r0.Insert(0, stream[..4], false).value;
    InsertRefines(r0, stream, 0, stream[..4], false);
    PushedIsCur(r1, stream);
    ReadGood(r1, stream, 4);
    ReadKeepsMarks(r1, stream, 4);
    ReadAll(r1, 4);
    r := ReadSome(r1, 4);
  }

  /** And a fifth one has been pushed. */
  lemma FiveInOrder(stream: seq<byte>) returns (r: ReassemblerState)
    requires |stream| == 9
    ensures Good(r, stream) && Marked(r, stream) && r.Capacity() == 4 && r.cur == 5 == r.Pushed()
    ensures Run(NewReassembler(4), FiveOps(stream)) == Ok(r)
  {
    hide Mod;
    hide Good;
    hide Marked;
    hide Flat;
    hide ReadSome;
    hide Run;
    hide ReassemblerState.Insert;
    var r2 := FourRead(stream);
    PushedIsCur(r2, stream);
    InOrderStep(r2, stream, 4, stream[4..5], false);
    r := r2.Insert(4, stream[4..5], false).value;
    PushedIsCur(r, stream);
    FiveRun(stream, NewReassembler(4).Insert(0, stream[..4], false).value, r2, r);
  }

  function FiveOps(stream: seq<byte>): seq<Op>
    requires |stream| >= 5
  {
    [Insert(0, stream[..4], false)] + ([Read(4)] + ([Insert(4, stream[4..5], false)] + []))
  }

  lemma FiveRun(stream: seq<byte>, r1: ReassemblerState, r2: ReassemblerState, r3: ReassemblerState)
    requires |stream| >= 5 && r1.Valid() && r2.Valid() && r3.Valid()
    requires NewReassembler(4).Insert(0, stream[..4], false) == Ok(r1)
    requires r2 == ReadSome(r1, 4) && r2.Insert(4, stream[4..5], false) == Ok(r3)
    ensures Run(NewReassembler(4), FiveOps(stream)) == Ok(r3)
  {
    hide Run;
    hide ReadSome;
    hide ReassemblerState.Insert;
    RunNext(NewReassembler(4), Insert(0, stream[..4], false), [Read(4)] + ([Insert(4, stream[4..5], false)] + []));
    RunNext(r1, Read(4), [Insert(4, stream[4..5], false)] + []);
    RunNext(r2, Insert(4, stream[4..5], false), []);
    RunNone(r3);
  }

  lemma RunNone(r: ReassemblerState)
    requires r.Valid()
    ensures Run(r, []) == Ok(r)
  {
  }

  lemma PushedIsCur(r: ReassemblerState, stream: seq<byte>)
    requires Good(r, stream) && Marked(r, stream)
    ensures r.Valid() && r.Pushed() == r.cur
  {
  }

  lemma ReadAll(r: ReassemblerState, n: nat)
    requires r.Valid() && r.output.popped == [] && r.Pushed() == n && r.Capacity() == n
    ensures ReadSome(r, n).output.Available() == n && ReadSome(r, n).Pushed() == n && ReadSome(r, n).cur == r.cur
  {
    ByteStreams.PopRefinesQueue(r.output, n);
    FlatEmpty(r.output.deck);
    hide ByteStreams.StreamState.Pop;
    hide Flat;
  }

  /** The buffers are meant never to be longer than the capacity.  Two bytes for the last cell make
      them longer. */
  lemma BuffersGrow(stream: seq<byte>)
    requires |stream| == 9
    ensures var before := Run(NewReassembler(4), FiveOps(stream));
            && before.Ok?
            && var after := before.value.Insert(7, stream[7..9], true);
               after.Ok? && |after.value.storage| > 4
  {
    hide Run;
    hide ReassemblerState.Insert;
    hide FiveOps;
    var r := FiveInOrder(stream);
    SevenGrows(r, stream, stream[7..9]);
  }

  lemma SevenGrows(r: ReassemblerState, stream: seq<byte>, data: seq<byte>)
    requires Good(r, stream) && r.Capacity() == 4 && r.cur == 5 == r.Pushed() && |data| == 2
    ensures r.Insert(7, data, true).Ok? && |r.Insert(7, data, true).value.storage| > 4
  {
    assert Mod(7, 4) == 3;
    AdmitsSeven(r);
    hide TurnedAway;
    hide ReassemblerState.Insert;
    hide Flat;
    hide Good;
    assert !C.FitsBuffers(r, 7, data);
    C.StorageGrows(r, stream, 7, data, true);
  }

  lemma AdmitsSeven(r: ReassemblerState)
    requires r.Valid() && r.Capacity() == 4 && r.cur == 5 == r.Pushed()
    ensures !TurnedAway(r, 7)
  {
    hide Flat;
  }
}
