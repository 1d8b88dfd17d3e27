/** Where the receiver puts payloads, and what its acknowledgments promise. */
module ReceiverProofs {
  import opened Bytes
  import opened WrappingIntegers
  import ByteStreams
  import opened Reassemblers
  import opened ReassemblerProofs
  import opened Messages
  import opened TcpReceivers

  /** Where a segment's payload belongs in the stream of a sender that started at `isn`. */
  function PayloadOffset(m: SenderMessage, isn: Wrap32): int {
    if m.SYN then 0 else Offset(m.seqno, isn) - 1
  }

  /** A segment as the sender of `stream` stamps it; the network may repeat, drop and reorder
      segments but not alter them.  FIN and RST may be set on any of them. */
  predicate Genuine(m: SenderMessage, isn: Wrap32, stream: seq<byte>) {
    && (m.SYN ==> m.seqno == isn)
    && (m.payload != [] ==>
          var k := PayloadOffset(m, isn);
          0 <= k && k + |m.payload| <= |stream| && m.payload == stream[k..k + |m.payload|])
  }

  /** The receiver of a stream no longer than its capacity, after any genuine segments. */
  predicate Sound(r: ReceiverState, isn: Wrap32, stream: seq<byte>) {
    && r.Valid() && Good(r.reassembler, stream) && |stream| <= r.capacity
    && (r.seenSyn ==> r.isn == isn && r.synAccounted)
    && (r.finAccounted ==> r.seenFin)
    && (r.seenSyn ==> Offset(r.curSeq, isn) <= 1 + r.Pushed() + Bit(r.finAccounted))
  }

  /** Near the checkpoint, unwrapping gives back the offset from the initial sequence number. */
  lemma AbsoluteIsOffset(seqno: Wrap32, isn: Wrap32, pushed: nat)
    requires pushed < 0x8000_0000 && Offset(seqno, isn) < pushed + 0x8000_0000
    ensures seqno.Unwrap(isn, pushed % TWO_64) == Offset(seqno, isn)
  {
    hide Wrap32.Unwrap;
    SmallWord(pushed);
    OffsetWraps(seqno, isn);
    UnwrapIsNearest(seqno, isn, pushed, Offset(seqno, isn));
  }

  lemma OffsetZero(w: Wrap32, isn: Wrap32)
    ensures Offset(w, isn) == 0 <==> w == isn
  {
    OffsetCases(w, isn);
  }

  lemma OffsetPlus(w: Wrap32, isn: Wrap32, n: nat)
    ensures Offset(w.Plus(n), isn) == (Offset(w, isn) + n) % TWO_32
  {
    OffsetWraps(w, isn);
    var x := Offset(w, isn);
    WrapOffset(x + n, isn);
    WrapOffset(x, isn);
    assert w.Plus(n).raw == (w.raw + n) % TWO_32;
    PlusWraps(isn.raw, x, n);
  }

  lemma PlusWraps(a: nat, x: nat, n: nat)
    ensures ((a + x) % TWO_32 + n) % TWO_32 == (a + (x + n)) % TWO_32
  {
  }

  lemma SoundBounds(r: ReceiverState, isn: Wrap32, stream: seq<byte>)
    requires Sound(r, isn, stream)
    ensures r.Pushed() <= r.reassembler.cur <= |stream| <= r.capacity < 0x8000_0000
    ensures r.reassembler.output.Pushed() == stream[..r.Pushed()]
  {
  }

  /** Placement: whatever the receiver believes it expects next, a genuine payload is inserted
      at its own index, and an empty one no further than the next byte. */
  lemma PlacementCorrect(r: ReceiverState, isn: Wrap32, stream: seq<byte>, m: SenderMessage)
    requires Sound(r, isn, stream) && Genuine(m, isn, stream) && (m.SYN || r.seenSyn)
    ensures var r' := r.NoteReset(m).NoteFlags(m);
            && r'.isn == isn
            && (m.payload != [] ==> r'.StreamIndex(m) == PayloadOffset(m, isn))
            && (m.payload == [] ==> r'.StreamIndex(m) <= r.Pushed() + Bit(r.finAccounted))
            && (r'.Ahead(m) <==> m.payload != [] && !m.SYN && Offset(m.seqno, isn) > Offset(r.curSeq, isn))
  {
    SoundBounds(r, isn, stream);
    hide Wrap32.Unwrap;
    hide Good;
    hide Flat;
    var curSeq := if m.SYN then m.seqno else r.curSeq;
    OffsetZero(curSeq, isn);
    OffsetZero(m.seqno, isn);
    AbsoluteIsOffset(curSeq, isn, r.Pushed());
    if m.payload != [] {
      AbsoluteIsOffset(m.seqno, isn, r.Pushed());
    }
    hide Offset;
    IndexCases(r.NoteReset(m).NoteFlags(m), m, Offset(m.seqno, isn), Offset(curSeq, isn));
    hide ReceiverState.StreamIndex;
    hide ReceiverState.Ahead;
  }

  lemma IndexCases(r: ReceiverState, m: SenderMessage, x: u64, c: u64)
    requires m.payload != [] ==> r.Absolute(m.seqno) == x
    requires r.Absolute(r.curSeq) == c && (c == 0 <==> r.curSeq == r.isn)
    requires x > 0 || m.payload == [] || c == 0
    ensures r.Ahead(m) <==> m.payload != [] && x > c
    ensures r.StreamIndex(m) == if m.payload != [] && x != c then x - 1 else if c == 0 then 0 else c - 1
  {
    hide ReceiverState.Absolute;
    if x > 0 {
      SmallWord(x - 1);
    }
    if c > 0 {
      SmallWord(c - 1);
    }
  }

  /** What a segment that passes the SYN check does, in terms of its placement. */
  lemma ReceiveInserts(r: ReceiverState, isn: Wrap32, stream: seq<byte>, m: SenderMessage)
    requires Sound(r, isn, stream) && Genuine(m, isn, stream) && (m.SYN || r.seenSyn)
    ensures var r0 := r.NoteReset(m).NoteFlags(m);
            var at := r0.StreamIndex(m);
            && Good(r0.reassembler, stream)
            && IsFragment(stream, at, m.payload) && SafeInsert(r0.reassembler, at, m.payload)
            && KeepsBytes(r0.reassembler, stream, at, m.payload, m.FIN)
            && Counts(r0.reassembler, r0.reassembler.Insert(at, m.payload, m.FIN).value)
            && r.reassembler.output.Pushed() <= r0.reassembler.Insert(at, m.payload, m.FIN).value.output.Pushed()
  {
    PlacementCorrect(r, isn, stream, m);
    SoundBounds(r, isn, stream);
    var r0 := r.NoteReset(m).NoteFlags(m);
    ResetGood(r, stream, m);
    var at := r0.StreamIndex(m);
    hide ReceiverState.StreamIndex;
    hide ReceiverState.NoteFlags;
    hide Offset;
    hide Good;
    hide ReassemblerState.Insert;
    InsertRefines(r0.reassembler, stream, at, m.payload, m.FIN);
    InsertMonotone(r0.reassembler, at, m.payload, m.FIN);
  }

  lemma ResetGood(r: ReceiverState, stream: seq<byte>, m: SenderMessage)
    requires r.Valid() && Good(r.reassembler, stream)
    ensures var r0 := r.NoteReset(m).NoteFlags(m);
            && r0.Valid() && Good(r0.reassembler, stream)
            && r0.reassembler == r.reassembler.(output := r0.reassembler.output)
            && r0.reassembler.output == r.reassembler.output.(error := r0.reassembler.output.error)
            && r0.reassembler.output.Pushed() == r.reassembler.output.Pushed()
            && (forall i: nat :: Known(r0.reassembler, i) <==> Known(r.reassembler, i))
  {
    hide Flat;
    hide NoEmptyChunk;
  }

  lemma OffsetPlusSmall(w: Wrap32, isn: Wrap32, n: nat)
    requires Offset(w, isn) + n < TWO_32
    ensures Offset(w.Plus(n), isn) == Offset(w, isn) + n
  {
    OffsetPlus(w, isn, n);
  }

  /** The next expected number moves by the bytes just pushed and by each flag once. */
  lemma AdvanceOffset(r: ReceiverState, isn: Wrap32, before: nat)
    requires before <= r.Pushed() && Offset(r.curSeq, isn) + (r.Pushed() - before) + 2 < TWO_32
    ensures Offset(r.Advance(before).curSeq, isn) ==
            Offset(r.curSeq, isn) + (r.Pushed() - before)
            + Bit(r.seenSyn && !r.synAccounted) + Bit(r.seenFin && !r.finAccounted)
  {
    hide Offset;
    hide Wrap32.Plus;
    var n := r.Pushed() - before;
    SmallRemainder(n);
    OffsetPlusSmall(r.curSeq, isn, n);
    var w := r.curSeq.Plus(n);
    OffsetPlusSmall(w, isn, 1);
    OffsetPlusSmall(w.Plus(1), isn, 1);
  }

  lemma SmallRemainder(n: nat)
    requires n < TWO_32
    ensures n % TWO_32 == n
  {
  }

  /** The offset the receiver expects next, once the segment's own SYN has been noted. */
  function ExpectedOffset(r: ReceiverState, isn: Wrap32, m: SenderMessage): nat {
    if m.SYN then 0 else Offset(r.curSeq, isn)
  }

  lemma ReceiveForm(r: ReceiverState, m: SenderMessage, reassembler': ReassemblerState)
    requires r.Valid() && (m.SYN || r.seenSyn)
    requires var r0 := r.NoteReset(m).NoteFlags(m);
             r0.reassembler.Valid() && r0.reassembler.Insert(r0.StreamIndex(m), m.payload, m.FIN) == Ok(reassembler')
    ensures var r0 := r.NoteReset(m).NoteFlags(m);
            var r1 := r0.(reassembler := reassembler');
            r.Receive(m) == Ok(if r0.Ahead(m) then r1 else r1.Advance(r0.Pushed()))
  {
    hide ReassemblerState.Insert;
    hide ReceiverState.StreamIndex;
    hide ReceiverState.Ahead;
    hide ReceiverState.Advance;
  }

  /** Everything a segment that passes the SYN check does to the receiver. */
  lemma ReceiveShape(r: ReceiverState, isn: Wrap32, stream: seq<byte>, m: SenderMessage)
    requires Sound(r, isn, stream) && Genuine(m, isn, stream) && (m.SYN || r.seenSyn)
    ensures r.Receive(m).Ok?
    ensures var r0, r' := r.NoteReset(m).NoteFlags(m), r.Receive(m).value;
            && Ok(r'.reassembler) == r0.reassembler.Insert(r0.StreamIndex(m), m.payload, m.FIN)
            && r' == r0.(reassembler := r'.reassembler, curSeq := r'.curSeq,
                         synAccounted := r0.Ahead(m) ==> r.synAccounted,
                         finAccounted := r.finAccounted || (!r0.Ahead(m) && r0.seenFin))
            && r.Pushed() <= r'.Pushed()
            && Offset(r'.curSeq, isn) == ExpectedOffset(r, isn, m) +
                 if r0.Ahead(m) then 0
                 else r'.Pushed() - r.Pushed() + Bit(!r.synAccounted) + Bit(r0.seenFin && !r.finAccounted)
  {
    hide Offset;
    hide ReassemblerState.Insert;
    ReceiveInserts(r, isn, stream, m);
    ResetGood(r, stream, m);
    GoodBounds(r.reassembler, stream);
    OffsetZero(m.seqno, isn);
    var r0 := r.NoteReset(m).NoteFlags(m);
    var reassembler' := r0.reassembler.Insert(r0.StreamIndex(m), m.payload, m.FIN).value;
    GoodBounds(reassembler', stream);
    AdvanceOffset(r0.(reassembler := reassembler'), isn, r0.Pushed());
    ReceiveForm(r, m, reassembler');
    hide ReceiverState.StreamIndex;
    hide ReceiverState.Ahead;
    hide ReceiverState.Receive;
    hide Good;
    hide Flat;
    hide IsFragment;
    hide SafeInsert;
    hide Known;
  }

  /** Any segment at all, genuine or not: a SYN restarts the numbering at its own number, first or
      repeated, and without one the zero point stays; what else moves the expected number are the bytes
      pushed and each flag once. */
  lemma SynRestarts(r: ReceiverState, m: SenderMessage)
    requires r.Valid() && (m.SYN || r.seenSyn) && r.Receive(m).Ok?
    ensures var r' := r.Receive(m).value;
            && r'.isn == (if m.SYN then m.seqno else r.isn) && r'.seenSyn && r'.seenFin == (r.seenFin || m.FIN)
            && (m.SYN ==> r'.curSeq ==
                          m.seqno.Plus((r'.Pushed() - r.Pushed()) % TWO_32
                                       + Bit(!r.synAccounted) + Bit(r'.seenFin && !r.finAccounted)))
  {
    hide ReassemblerState.Insert;
    hide ReceiverState.StreamIndex;
    hide Wrap32.Unwrap;
    hide Flat;
    hide Wrap32.Plus;
    var n := (r.Receive(m).value.Pushed() - r.Pushed()) % TWO_32;
    PlusPlus(m.seqno, n, 1);
    PlusPlus(m.seqno, n + 1, 1);
  }

  lemma ReceiveSoundInserting(r: ReceiverState, isn: Wrap32, stream: seq<byte>, m: SenderMessage)
    requires Sound(r, isn, stream) && Genuine(m, isn, stream) && (m.SYN || r.seenSyn)
    ensures r.Receive(m).Ok?
    ensures Sound(r.Receive(m).value, isn, stream)
    ensures r.Receive(m).value.reassembler.output.popped == r.reassembler.output.popped
    ensures r.reassembler.output.Pushed() <= r.Receive(m).value.reassembler.output.Pushed()
  {
    PlacementCorrect(r, isn, stream, m);
    ReceiveInserts(r, isn, stream, m);
    ReceiveShape(r, isn, stream, m);
    ResetGood(r, stream, m);
    hide ReceiverState.Receive;
    hide ReassemblerState.Insert;
    hide ReceiverState.StreamIndex;
    hide ReceiverState.Ahead;
    hide Good;
    hide Offset;
    hide Known;
    hide IsFragment;
    hide SafeInsert;
    hide Flat;
    hide NoEmptyChunk;
  }

  /** One segment: the reassembler never leaves its buffers and the receiver stays sound. */
  lemma ReceiveSound(r: ReceiverState, isn: Wrap32, stream: seq<byte>, m: SenderMessage)
    requires Sound(r, isn, stream) && Genuine(m, isn, stream)
    ensures r.Receive(m).Ok?
    ensures Sound(r.Receive(m).value, isn, stream)
    ensures r.Receive(m).value.reassembler.output.popped == r.reassembler.output.popped
    ensures r.reassembler.output.Pushed() <= r.Receive(m).value.reassembler.output.Pushed()
  {
    if m.SYN || r.seenSyn {
      ReceiveSoundInserting(r, isn, stream, m);
    } else {
      ResetGood(r, stream, m);
    }
    hide ReassemblerState.Insert;
    hide Good;
    hide Offset;
    hide Flat;
  }

  lemma GoodBounds(r: ReassemblerState, stream: seq<byte>)
    requires Good(r, stream)
    ensures r.Pushed() <= r.cur <= |stream| && r.Capacity() < 0x8000_0000
    ensures r.output.Pushed() == stream[..r.Pushed()]
  {
  }

  // ---------- Acknowledgments ----------

  /** The acknowledgment counts exactly the SYN and the bytes assembled. */
  predicate AckExact(r: ReceiverState, isn: Wrap32, stream: seq<byte>) {
    && Sound(r, isn, stream) && Marked(r.reassembler, stream)
    && !r.seenFin && !r.finAccounted && !r.reassembler.seenLast
    && (if r.seenSyn then Offset(r.curSeq, isn) == 1 + r.Pushed() else r.Pushed() == 0 && !r.synAccounted)
  }

  lemma InsertKeepsOpen(r: ReceiverState, isn: Wrap32, stream: seq<byte>, m: SenderMessage)
    requires AckExact(r, isn, stream) && Genuine(m, isn, stream) && !m.FIN && (m.SYN || r.seenSyn)
    ensures r.Receive(m).Ok?
    ensures Marked(r.Receive(m).value.reassembler, stream) && !r.Receive(m).value.reassembler.seenLast
  {
    ReceiveInserts(r, isn, stream, m);
    ReceiveShape(r, isn, stream, m);
    ResetGood(r, stream, m);
    PlacementCorrect(r, isn, stream, m);
    SoundBounds(r, isn, stream);
    var r0 := r.NoteReset(m).NoteFlags(m);
    hide ReceiverState.Receive;
    hide ReceiverState.StreamIndex;
    hide ReassemblerState.Insert;
    hide Good;
    hide Offset;
    hide Flat;
    InsertMarks(r0.reassembler, stream, r0.StreamIndex(m), m.payload, false);
  }

  /** A segment ahead of what is expected pushes nothing. */
  lemma AheadPushesNothing(r: ReassemblerState, stream: seq<byte>, first: nat, data: seq<byte>, last: bool)
    requires Good(r, stream) && KeepsBytes(r, stream, first, data, last) && (first > r.cur || data == [])
    ensures r.Insert(first, data, last).value.cur == r.cur
  {
    hide ReassemblerState.Insert;
    var r' := r.Insert(first, data, last).value;
    assert !Known(r, r.cur) && !Known(r', r.cur);
    assert !Known(r', r'.cur);
    hide Flat;
    hide NoEmptyChunk;
  }

  lemma ReceiveAckExactInserting(r: ReceiverState, isn: Wrap32, stream: seq<byte>, m: SenderMessage)
    requires AckExact(r, isn, stream) && Genuine(m, isn, stream) && !m.FIN && (m.SYN || r.seenSyn)
    ensures r.Receive(m).Ok?
    ensures AckExact(r.Receive(m).value, isn, stream) <==> !(m.SYN && r.seenSyn)
  {
    ReceiveSound(r, isn, stream, m);
    InsertKeepsOpen(r, isn, stream, m);
    ReceiveInserts(r, isn, stream, m);
    ReceiveShape(r, isn, stream, m);
    ResetGood(r, stream, m);
    PlacementCorrect(r, isn, stream, m);
    var r0 := r.NoteReset(m).NoteFlags(m);
    hide ReceiverState.Receive;
    hide ReceiverState.StreamIndex;
    hide ReassemblerState.Insert;
    hide Good;
    hide Offset;
    hide Flat;
    hide KeepsBytes;
    if r0.Ahead(m) {
      hide ReceiverState.Ahead;
      AheadPushesNothing(r0.reassembler, stream, r0.StreamIndex(m), m.payload, m.FIN);
    }
  }

  /** FIN-free runs: an acknowledgment stays exact through every segment but one: a repeated
      SYN, which starts the count again. */
  lemma ReceiveAckExact(r: ReceiverState, isn: Wrap32, stream: seq<byte>, m: SenderMessage)
    requires AckExact(r, isn, stream) && Genuine(m, isn, stream) && !m.FIN
    ensures r.Receive(m).Ok?
    ensures AckExact(r.Receive(m).value, isn, stream) <==> !(m.SYN && r.seenSyn)
  {
    if m.SYN || r.seenSyn {
      ReceiveAckExactInserting(r, isn, stream, m);
    } else {
      ResetGood(r, stream, m);
    }
    hide ReassemblerState.Insert;
    hide Good;
    hide Offset;
    hide Flat;
  }

  /** The right edge of the window, counted from the initial sequence number. */
  function RightEdge(r: ReceiverState, isn: Wrap32): int {
    Offset(r.curSeq, isn) + r.Send().window
  }

  /** With an exact acknowledgment and a capacity the window field can hold, the window is the
      space left and its right edge depends only on what the reader has taken. */
  lemma SendExact(r: ReceiverState, isn: Wrap32, stream: seq<byte>)
    requires AckExact(r, isn, stream) && r.capacity <= 0xFFFF
    ensures r.Send().window == r.reassembler.output.Available()
    ensures r.seenSyn ==> r.Send().ackno == Some(isn.Plus(1 + r.Pushed()))
    ensures r.seenSyn ==> RightEdge(r, isn) == 1 + r.capacity + |r.reassembler.output.popped|
  {
    OffsetWraps(r.curSeq, isn);
    WrapOffset(Offset(r.curSeq, isn), isn);
    assert r.Pushed() == |r.reassembler.output.popped| + r.reassembler.output.Buffered();
    hide Flat;
    hide Good;
  }

  /** The window is meant to be the free space, 65535 at most.  A larger buffer shrinks it as it fills, so
      it can fall short, and past 65535 bytes it starts again from the top and can exceed the space. */
  lemma WindowExactly(r: ReceiverState)
    requires r.Valid()
    ensures var space, filled, w := r.reassembler.output.Available(), r.reassembler.output.Buffered(), r.Send().window;
            && (w == Min(space, 0xFFFF) <==>
                  || r.capacity <= 0xFFFF
                  || r.capacity == 0xFFFF + 0x1_0000 * (filled / 0x1_0000)
                  || (filled % 0x1_0000 == 0 && space >= 0xFFFF))
            && (w <= space <==> r.capacity <= 0xFFFF || r.capacity >= 0xFFFF + 0x1_0000 * (filled / 0x1_0000))
  {
    var filled := r.reassembler.output.Buffered();
    var k, low := filled / 0x1_0000, filled % 0x1_0000;
    assert filled == 0x1_0000 * k + low;
    if r.capacity > 0xFFFF {
      WrapsFrom(k, low);
    }
    hide Flat;
    hide NoEmptyChunk;
  }

  /** With 66000 of 70000 bytes filled the window claims 65071. */
  lemma WindowExceeds(r: ReceiverState)
    requires r.Valid() && r.capacity == 70000 && r.reassembler.output.Buffered() == 66000
    ensures r.reassembler.output.Available() == 4000 && r.Send().window == 65071
  {
    WrapsFrom(1, 464);
    hide Flat;
  }

  lemma WrapsFrom(k: nat, low: u16)
    ensures (0xFFFF - (0x1_0000 * k + low)) % 0x1_0000 == 0xFFFF - low
  {
    var x := 0xFFFF - low;
    assert 0xFFFF - (0x1_0000 * k + low) == x - 0x1_0000 * k;
  }

  datatype Event = Segment(m: SenderMessage) | Take(len: nat)

  function Handle(r: ReceiverState, e: Event): (r': Outcome<ReceiverState>)
    requires r.Valid()
    ensures r'.Ok? ==> r'.value.Valid()
  {
    match e
    case Segment(m) => r.Receive(m)
    case Take(len) => Ok(r.(reassembler := ReadSome(r.reassembler, len)))
  }

  /** Genuine segments without FIN, the SYN once, and reads. */
  predicate PlainRun(r: ReceiverState, isn: Wrap32, stream: seq<byte>, events: seq<Event>)
    requires r.Valid()
    decreases |events|
  {
    events == [] ||
    var e := events[0];
    && (e.Segment? ==> Genuine(e.m, isn, stream) && !e.m.FIN && !(e.m.SYN && r.seenSyn))
    && (Handle(r, e).Ok? ==> PlainRun(Handle(r, e).value, isn, stream, events[1..]))
  }

  lemma TakeAckExact(r: ReceiverState, isn: Wrap32, stream: seq<byte>, len: nat)
    requires AckExact(r, isn, stream)
    ensures AckExact(r.(reassembler := ReadSome(r.reassembler, len)), isn, stream)
    ensures |r.reassembler.output.popped| <= |ReadSome(r.reassembler, len).output.popped|
  {
    ReadGood(r.reassembler, stream, len);
    ReadKeepsMarks(r.reassembler, stream, len);
    ByteStreams.PopRefinesQueue(r.reassembler.output, Min(len, r.reassembler.output.Buffered()));
    hide Good;
    hide Offset;
    hide Flat;
    hide NoEmptyChunk;
    hide ByteStreams.DropBytes;
  }

  function Final(r: ReceiverState, events: seq<Event>): (r': Outcome<ReceiverState>)
    requires r.Valid()
    ensures r'.Ok? ==> r'.value.Valid()
    decreases |events|
  {
    if events == [] then Ok(r)
    else match Handle(r, events[0])
      case OutOfRange => OutOfRange
      case Ok(r') => Final(r', events[1..])
  }

  /** Over a whole plain run the acknowledgment is exact, and the window's right edge never
      retreats (section 3.8.6 of RFC 9293). */
  lemma {:induction false} PlainRunExact(r: ReceiverState, isn: Wrap32, stream: seq<byte>, events: seq<Event>)
    requires AckExact(r, isn, stream) && r.capacity <= 0xFFFF && PlainRun(r, isn, stream, events)
    ensures Final(r, events).Ok?
    ensures var r' := Final(r, events).value;
            && AckExact(r', isn, stream) && r'.capacity == r.capacity
            && r'.Send().window == r'.reassembler.output.Available()
            && (r.seenSyn ==> r'.seenSyn && RightEdge(r, isn) <= RightEdge(r', isn))
            && |r.reassembler.output.popped| <= |r'.reassembler.output.popped|
    decreases |events|
  {
    assert r.Valid();
    hide AckExact;
    hide Offset;
    hide Flat;
    hide Genuine;
    hide ReceiverState.Receive;
    hide ReceiverState.Send;
    SendExact(r, isn, stream);
    if events != [] {
      match events[0]
      case Segment(m) =>
        ReceiveStep(r, isn, stream, m);
        PlainRunExact(r.Receive(m).value, isn, stream, events[1..]);
        SendExact(Final(r, events).value, isn, stream);
      case Take(len) =>
        TakeAckExact(r, isn, stream, len);
        PlainRunExact(Handle(r, events[0]).value, isn, stream, events[1..]);
        SendExact(Final(r, events).value, isn, stream);
    }
  }

  lemma ReceiveStep(r: ReceiverState, isn: Wrap32, stream: seq<byte>, m: SenderMessage)
    requires AckExact(r, isn, stream) && Genuine(m, isn, stream) && !m.FIN && !(m.SYN && r.seenSyn)
    ensures r.Receive(m).Ok? && AckExact(r.Receive(m).value, isn, stream)
    ensures r.Receive(m).value.capacity == r.capacity
    ensures r.Receive(m).value.reassembler.output.popped == r.reassembler.output.popped
    ensures r.seenSyn ==> r.Receive(m).value.seenSyn
  {
    ReceiveAckExact(r, isn, stream, m);
    ReceiveSound(r, isn, stream, m);
    hide ReassemblerState.Insert;
    hide Good;
    hide Offset;
    hide Flat;
  }

  // ---------- FIN ----------

  /** The acknowledgment claims the SYN, the bytes assembled and, once nothing is missing, the FIN. */
  predicate AckHonest(r: ReceiverState, isn: Wrap32, stream: seq<byte>) {
    r.seenSyn ==> Offset(r.curSeq, isn) <= 1 + r.Pushed() + Bit(r.Pushed() == |stream|)
  }

  /** Further on than the receiver expects: then the call returns before counting anything. */
  predicate AheadOf(r: ReceiverState, isn: Wrap32, m: SenderMessage) {
    m.payload != [] && !m.SYN && Offset(m.seqno, isn) > Offset(r.curSeq, isn)
  }

  /** This segment makes the receiver count a FIN: its own, or one that came ahead of its turn. */
  predicate CountsFin(r: ReceiverState, isn: Wrap32, m: SenderMessage) {
    && (m.SYN || r.seenSyn) && !AheadOf(r, isn, m)
    && (m.FIN || r.seenFin) && !r.finAccounted
  }

  predicate Carries(m: SenderMessage, isn: Wrap32, i: nat) {
    PayloadOffset(m, isn) <= i < PayloadOffset(m, isn) + |m.payload|
  }

  /** Nothing is missing once this segment is in: what it carries and what is kept fill every gap,
      and the output is still open to take them. */
  predicate Completes(r: ReceiverState, isn: Wrap32, stream: seq<byte>, m: SenderMessage) {
    || r.Pushed() == |stream|
    || (!r.reassembler.output.closed
        && forall i: nat :: i < |stream| ==> Known(r.reassembler, i) || Carries(m, isn, i))
  }

  /** The FIN is counted while bytes are missing, by a receiver whose number has kept up with the
      bytes; one that a repeated SYN has set back has numbers to spare. */
  predicate CountsFinEarly(r: ReceiverState, isn: Wrap32, stream: seq<byte>, m: SenderMessage) {
    && CountsFin(r, isn, m)
    && ExpectedOffset(r, isn, m) + Bit(!r.synAccounted) == 1 + r.Pushed()
    && !Completes(r, isn, stream, m)
  }

  lemma CompletesExactly(r: ReceiverState, isn: Wrap32, stream: seq<byte>, m: SenderMessage)
    requires Sound(r, isn, stream) && Genuine(m, isn, stream) && (m.SYN || r.seenSyn)
    ensures r.Receive(m).Ok?
    ensures r.Receive(m).value.Pushed() == |stream| <==> Completes(r, isn, stream, m)
  {
    hide ReceiverState.Receive;
    hide ReceiverState.StreamIndex;
    hide ReceiverState.Ahead;
    hide ReceiverState.NoteFlags;
    hide ReceiverState.NoteReset;
    hide ReassemblerState.Insert;
    hide Offset;
    hide Flat;
    hide NoEmptyChunk;
    hide Genuine;
    hide Known;
    hide Good;
    hide KeepsBytes;
    hide IsFragment;
    hide SafeInsert;
    ReceiveInserts(r, isn, stream, m);
    ReceiveShape(r, isn, stream, m);
    ResetGood(r, stream, m);
    PlacementCorrect(r, isn, stream, m);
    SoundBounds(r, isn, stream);
    var r0 := r.NoteReset(m).NoteFlags(m);
    var at := r0.StreamIndex(m);
    CoveredExactly(r0.reassembler, stream, at, m.payload, m.FIN);
    forall i: nat
      ensures InFragment(at, m.payload, i) <==> Carries(m, isn, i)
    {
    }
  }

  /** The next expected index is the end of the stream exactly when every index is known. */
  lemma CoveredExactly(r: ReassemblerState, stream: seq<byte>, first: nat, data: seq<byte>, last: bool)
    requires Good(r, stream) && KeepsBytes(r, stream, first, data, last) && |stream| <= r.Capacity()
    ensures r.Insert(first, data, last).value.cur <= |stream|
    ensures r.Insert(first, data, last).value.cur == |stream| <==>
              forall i: nat :: i < |stream| ==> Known(r, i) || InFragment(first, data, i)
  {
    hide ReassemblerState.Insert;
    hide Flat;
    hide NoEmptyChunk;
    var r' := r.Insert(first, data, last).value;
    assert !Known(r', r'.cur);
    forall i: nat | i < |stream|
      ensures Known(r', i) <==> Known(r, i) || InFragment(first, data, i)
    {
    }
    hide Good;
    hide KeepsBytes;
  }

  /** When a FIN is counted, and the number the receiver then acknowledges. */
  lemma FinCountedExactly(r: ReceiverState, isn: Wrap32, stream: seq<byte>, m: SenderMessage)
    requires Sound(r, isn, stream) && Genuine(m, isn, stream)
    ensures r.Receive(m).Ok?
    ensures var r' := r.Receive(m).value;
            && (r'.finAccounted <==> r.finAccounted || CountsFin(r, isn, m))
            && (r'.seenFin <==> r.seenFin || (m.FIN && (m.SYN || r.seenSyn)))
            && (CountsFin(r, isn, m) && ExpectedOffset(r, isn, m) + Bit(!r.synAccounted) == 1 + r.Pushed() ==>
                  r'.seenSyn && Offset(r'.curSeq, isn) == 2 + r'.Pushed())
  {
    hide Offset;
    hide Flat;
    hide Good;
    if m.SYN || r.seenSyn {
      ReceiveShape(r, isn, stream, m);
      PlacementCorrect(r, isn, stream, m);
      hide ReceiverState.Receive;
    }
    hide ReceiverState.StreamIndex;
    hide ReceiverState.Ahead;
    hide ReassemblerState.Insert;
    hide Genuine;
  }

  /** Exactly when an honest receiver stays honest: unless the segment makes it count a FIN while
      bytes are missing. */
  lemma FinHonestExactly(r: ReceiverState, isn: Wrap32, stream: seq<byte>, m: SenderMessage)
    requires Sound(r, isn, stream) && AckHonest(r, isn, stream) && Genuine(m, isn, stream)
    ensures r.Receive(m).Ok?
    ensures AckHonest(r.Receive(m).value, isn, stream) <==> !CountsFinEarly(r, isn, stream, m)
  {
    hide Offset;
    hide Flat;
    hide Good;
    if m.SYN || r.seenSyn {
      ReceiveSound(r, isn, stream, m);
      SoundBounds(r.Receive(m).value, isn, stream);
      ReceiveShape(r, isn, stream, m);
      PlacementCorrect(r, isn, stream, m);
      CompletesExactly(r, isn, stream, m);
      hide ReceiverState.Receive;
      hide Completes;
    } else {
      ResetGood(r, stream, m);
    }
    hide ReceiverState.StreamIndex;
    hide ReceiverState.Ahead;
    hide ReassemblerState.Insert;
    hide Genuine;
  }

  /** An empty FIN closes the output wherever it stands: the reader sees the end of the stream,
      and it is the real end exactly when every byte had already been assembled. */
  lemma EmptyFinCloses(r: ReceiverState, isn: Wrap32, stream: seq<byte>, m: SenderMessage)
    requires AckExact(r, isn, stream) && r.seenSyn && Genuine(m, isn, stream)
    requires m.FIN && !m.SYN && m.payload == []
    ensures r.Receive(m).Ok?
    ensures var r' := r.Receive(m).value;
            && r'.reassembler.output.closed && r'.Pushed() == r.Pushed()
            && (r'.reassembler.output.Pushed() == stream <==> r.Pushed() == |stream|)
  {
    ReceiveInserts(r, isn, stream, m);
    ReceiveShape(r, isn, stream, m);
    ResetGood(r, stream, m);
    PlacementCorrect(r, isn, stream, m);
    SoundBounds(r, isn, stream);
    var r0 := r.NoteReset(m).NoteFlags(m);
    var at := r0.StreamIndex(m);
    EmptyFinIndex(r, isn, stream, m);
    hide ReceiverState.Receive;
    hide ReceiverState.StreamIndex;
    hide ReassemblerState.Insert;
    AheadPushesNothing(r0.reassembler, stream, at, [], true);
    InsertNotesEnd(r0.reassembler, at, []);
    SmallWord(at);
    GoodBounds(r.Receive(m).value.reassembler, stream);
    hide Good;
    hide Offset;
    hide Flat;
  }

  lemma EmptyFinIndex(r: ReceiverState, isn: Wrap32, stream: seq<byte>, m: SenderMessage)
    requires AckExact(r, isn, stream) && r.seenSyn && !m.SYN && m.payload == []
    ensures r.NoteReset(m).NoteFlags(m).StreamIndex(m) == r.Pushed() == r.reassembler.cur
  {
    SoundBounds(r, isn, stream);
    OffsetZero(r.curSeq, isn);
    AbsoluteIsOffset(r.curSeq, isn, r.Pushed());
    ResetGood(r, stream, m);
    SmallWord(r.Pushed());
    hide Offset;
    hide Wrap32.Unwrap;
    hide Good;
    hide Flat;
  }
}
