/** Two runs in which a FIN counted early makes the sender forget a byte the receiver never got. */
module NetworkExample {
  import opened Bytes
  import opened WrappingIntegers
  import ByteStreams
  import Reassemblers
  import R = ReassemblerProofs
  import E = ReassemblerExample
  import TcpReceivers
  import opened ReceiverProofs
  import TcpSenders
  import S = SenderProofs
  import opened SenderExample
  import opened Network

  const LISTENING: TcpReceivers.ReceiverState := TcpReceivers.NewReceiver(4)
  const HEARING: TcpReceivers.ReceiverState :=
    TcpReceivers.ReceiverState(E.Blank([], 0), Wrap32(0), Wrap32(1), 4, true, true, false, false)
  const WINDOW: u16 := 4

  lemma NothingOnBlank(r: Reassemblers.ReassemblerState)
    requires r == E.Blank([], 0)
    ensures r.Insert(0, [], false) == Reassemblers.Ok(r)
  {
    hide Reassemblers.ReassemblerState.Flush;
    hide Reassemblers.ReassemblerState.TakeInOrder;
    hide Reassemblers.ReassemblerState.Stash;
    hide Reassemblers.ReassemblerState.Insert;
    hide Reassemblers.Mod;
    assert Flat([]) == [];
    hide Flat;
    TakeNothing(r);
    E.FlushNothing(r, 0);
    R.InsertForm(r, 0, [], false, r);
  }

  lemma TakeNothing(r: Reassemblers.ReassemblerState)
    ensures r.TakeInOrder(r.cur, []) == r
  {
    hide Flat;
    hide NoEmptyChunk;
  }

  lemma InsertNothing()
    ensures LISTENING.Valid() && LISTENING.reassembler.Insert(0, [], false) == Reassemblers.Ok(E.Blank([], 0))
  {
    E.AllocateFour();
    NothingOnBlank(E.Blank([], 0));
    hide Reassemblers.ReassemblerState.Insert;
    hide Reassemblers.ReassemblerState.Allocate;
    R.InsertAllocated(LISTENING.reassembler, 0, [], false);
  }

  lemma HearSyn()
    ensures LISTENING.Valid() && LISTENING.Receive(SYN) == Reassemblers.Ok(HEARING)
    ensures HEARING.Send() == Ack(WINDOW)
  {
    hide Wrap32.Unwrap;
    hide Reassemblers.ReassemblerState.Insert;
    hide Reassemblers.ReassemblerState.Valid;
    hide Flat;
    hide NoEmptyChunk;
    hide E.Blank;
    InsertNothing();
    Numbers(0);
    BlankOutput();
    assert LISTENING.NoteReset(SYN) == LISTENING;
    var r := LISTENING.NoteFlags(SYN);
    SynPlaced();
    hide TcpReceivers.ReceiverState.StreamIndex;
    hide TcpReceivers.ReceiverState.Ahead;
    var r' := r.(reassembler := E.Blank([], 0));
    assert r'.Advance(0) == HEARING;
    hide TcpReceivers.ReceiverState.Advance;
    assert r.Pushed() == 0;
  }

  lemma SynPlaced()
    ensures LISTENING.NoteFlags(SYN).StreamIndex(SYN) == 0 && !LISTENING.NoteFlags(SYN).Ahead(SYN)
    ensures LISTENING.NoteFlags(SYN).Pushed() == 0
  {
    hide Wrap32.Unwrap;
    Numbers(0);
    assert Flat([]) == [];
    hide Flat;
  }

  lemma BlankOutput()
    ensures var output := E.Blank([], 0).output; output.Buffered() == 0 && output.Pushed() == [] && !output.error
  {
    assert Flat([]) == [];
  }

  // ---------- Up to the first byte on its way ----------

  const NOTHING: System := System(FRESH, [], LISTENING, {}, {})
  const DATA_SENT: System := System(DataOut(WINDOW), [SYN, DATA], HEARING, {SYN, DATA}, {Ack(WINDOW)})

  lemma WriteStep()
    ensures ReachedOrderly(System(WRITTEN, [], LISTENING, {}, {}))
  {
    WriteByte();
    hide Flat;
    assert Init(NOTHING);
    assert Next(NOTHING, Write([97]), System(WRITTEN, [], LISTENING, {}, {}));
    ReachedInit(NOTHING);
    hide ReachedOrderly;
    hide Next;
    OrderlyStep(NOTHING, Write([97]), System(WRITTEN, [], LISTENING, {}, {}));
  }

  lemma HandshakeSteps()
    ensures ReachedOrderly(System(Open(WINDOW), [SYN], HEARING, {SYN}, {Ack(WINDOW)}))
  {
    hide ReachedOrderly;
    hide TcpSenders.SenderState.Push;
    hide TcpSenders.SenderState.Receive;
    hide TcpReceivers.ReceiverState.Receive;
    hide TcpReceivers.ReceiverState.Send;
    hide Flat;
    hide Completes;
    WriteStep();
    PushSyn(WRITTEN);
    HearSyn();
    HearAck(WRITTEN.input, WINDOW);
    var s1, s2 := System(WRITTEN, [], LISTENING, {}, {}), System(OPENING, [SYN], LISTENING, {SYN}, {});
    var s3, s4 := s2.(rcv := HEARING), s2.(rcv := HEARING, acks := {Ack(WINDOW)});
    assert Next(s1, PushOut, s2) && Orderly(s1, PushOut);
    assert Next(s2, DeliverSegment(SYN), s3) && Orderly(s2, DeliverSegment(SYN));
    assert Next(s3, SendAck, s4);
    assert Next(s4, DeliverAck(Ack(WINDOW)), s4.(snd := Open(WINDOW)));
    hide Next;
    OrderlyStep(s1, PushOut, s2);
    OrderlyStep(s2, DeliverSegment(SYN), s3);
    OrderlyStep(s3, SendAck, s4);
    OrderlyStep(s4, DeliverAck(Ack(WINDOW)), s4.(snd := Open(WINDOW)));
  }

  /** The byte is out; the receiver has heard only the SYN. */
  lemma DataReached()
    ensures ReachedOrderly(DATA_SENT)
  {
    hide ReachedOrderly;
    hide TcpSenders.SenderState.Push;
    hide Flat;
    HandshakeSteps();
    PushData(WINDOW);
    var s := System(Open(WINDOW), [SYN], HEARING, {SYN}, {Ack(WINDOW)});
    assert [SYN] + [DATA] == [SYN, DATA];
    assert Next(s, PushOut, DATA_SENT) && Orderly(s, PushOut);
    hide Next;
    OrderlyStep(s, PushOut, DATA_SENT);
  }

  /** HEARING has nothing: no byte, no mark, and counts only the SYN. */
  lemma HearingNothing()
    ensures HEARING.Pushed() == 0 && !R.Known(HEARING.reassembler, 0) && Offset(HEARING.curSeq, Wrap32(0)) == 1
  {
    assert Flat([]) == [];
  }

  // ---------- An empty FIN overtakes the byte ----------

  const FIN_SENT: System :=
    System(FinOut(WINDOW), [SYN, DATA, FIN], HEARING, {SYN, DATA, FIN}, {Ack(WINDOW)})

  lemma FinReached()
    ensures ReachedOrderly(FIN_SENT)
  {
    hide ReachedOrderly;
    hide TcpSenders.SenderState.Push;
    hide Flat;
    DataReached();
    PushFin(WINDOW);
    var s := DATA_SENT.(snd := Closing(WINDOW));
    assert [SYN, DATA] + [FIN] == [SYN, DATA, FIN];
    assert Next(DATA_SENT, Network.Close, s);
    assert Next(s, PushOut, FIN_SENT) && Orderly(s, PushOut);
    hide Next;
    OrderlyStep(DATA_SENT, Network.Close, s);
    OrderlyStep(s, PushOut, FIN_SENT);
  }

  lemma EmptyFinOvertakes()
    ensures FinOvertakes(FIN_SENT, FIN)
  {
    FinReached();
    OrderlySafe(FIN_SENT);
    HearingNothing();
    Lengths();
    hide ReachedOrderly;
    hide Network.Reached;
    hide S.Contiguous;
    hide Consistent;
    hide TcpReceivers.ReceiverState.Receive;
    hide TcpSenders.TotalLength;
    hide Offset;
    assert Flat([]) == [];
    hide Flat;
    hide R.Known;
    assert Written(FIN_SENT) == [97];
    assert !R.Known(HEARING.reassembler, 0) && !Carries(FIN, Wrap32(0), 0);
    assert CountsFinEarly(HEARING, Wrap32(0), [97], FIN);
    FalseNumber(FIN_SENT, FIN);
    assert FIN_SENT.log[..1] == [SYN];
    hide AllHonest;
  }

  /** A run from the initial state after which the sender has released a byte the receiver has
      not got: the FIN, sent after the byte, arrived before it. */
  lemma EarlyFinRun()
    ensures exists last :: Network.Reached(last) && LostByte(last)
  {
    FinReached();
    EmptyFinOvertakes();
    hide ReachedOrderly;
    hide FinOvertakes;
    hide Network.Reached;
    hide LostByte;
    EarlyFinExtends(FIN_SENT, FIN);
  }

  // ---------- A FIN heard ahead is counted by an empty segment ----------

  const TAIL_SENT: System :=
    System(TailOut(WINDOW), [SYN, DATA, TAIL], HEARING, {SYN, DATA, TAIL}, {Ack(WINDOW)})

  lemma WriteAnother()
    ensures DataOut(WINDOW).input.Push([98]) == Input([97], [98], false)
  {
    assert Flat([]) == [];
    hide Flat;
    assert [98][..1] == [98] && [] + [[98]] == [[98]];
  }

  lemma TailReached()
    ensures ReachedOrderly(TAIL_SENT)
  {
    hide ReachedOrderly;
    hide TcpSenders.SenderState.Push;
    hide Flat;
    DataReached();
    WriteAnother();
    PushTail(WINDOW);
    var s1 := DATA_SENT.(snd := Sending(Input([97], [98], false), WINDOW, [DATA], 1, false));
    var s2 := DATA_SENT.(snd := Ending(WINDOW));
    assert Written(DATA_SENT) == [97] by {
      FlatOfNothing();
    }
    assert [SYN, DATA] + [TAIL] == [SYN, DATA, TAIL];
    FlatOne([98]);
    assert s1.snd.input.Pushed() == [97] + [98];
    assert Next(DATA_SENT, Write([98]), s1);
    assert Next(s1, Network.Close, s2);
    assert Next(s2, PushOut, TAIL_SENT) && Orderly(s2, PushOut);
    hide Next;
    OrderlyStep(DATA_SENT, Write([98]), s1);
    OrderlyStep(s1, Network.Close, s2);
    OrderlyStep(s2, PushOut, TAIL_SENT);
  }

  lemma TailGenuine()
    ensures Genuine(TAIL, Wrap32(0), [97, 98]) && AheadOf(HEARING, Wrap32(0), TAIL)
    ensures PayloadOffset(TAIL, Wrap32(0)) == 1
  {
    var stream: seq<byte> := [97, 98];
    assert stream[1..2] == [98];
  }

  /** The second byte and its FIN are heard, ahead of the first byte: nothing is counted. */
  lemma HearTail() returns (r: TcpReceivers.ReceiverState)
    requires Sound(HEARING, Wrap32(0), [97, 98])
    ensures HEARING.Receive(TAIL) == Reassemblers.Ok(r) && !CountsFin(HEARING, Wrap32(0), TAIL)
    ensures Sound(r, Wrap32(0), [97, 98]) && r.seenSyn && r.synAccounted && r.seenFin && !r.finAccounted
    ensures Offset(r.curSeq, Wrap32(0)) == 1 && r.reassembler.cur == 0 && r.Pushed() == 0
  {
    hide TcpReceivers.ReceiverState.Receive;
    hide TcpReceivers.ReceiverState.StreamIndex;
    hide TcpReceivers.ReceiverState.Ahead;
    hide Reassemblers.ReassemblerState.Insert;
    hide R.Good;
    hide R.KeepsBytes;
    hide R.Counts;
    hide Offset;
    hide Flat;
    HearingNothing();
    TailGenuine();
    hide Genuine;
    hide R.Known;
    ReceiveSound(HEARING, Wrap32(0), [97, 98], TAIL);
    PlacementCorrect(HEARING, Wrap32(0), [97, 98], TAIL);
    ReceiveInserts(HEARING, Wrap32(0), [97, 98], TAIL);
    ReceiveShape(HEARING, Wrap32(0), [97, 98], TAIL);
    r := HEARING.Receive(TAIL).value;
    SoundBounds(r, Wrap32(0), [97, 98]);
    var r0 := HEARING.NoteReset(TAIL).NoteFlags(TAIL);
    AheadPushesNothing(r0.reassembler, [97, 98], r0.StreamIndex(TAIL), TAIL.payload, TAIL.FIN);
  }

  lemma TailSound()
    ensures Sound(HEARING, Wrap32(0), [97, 98]) && TAIL_SENT.rcv.Valid() && Written(TAIL_SENT) == [97, 98]
  {
    TailReached();
    OrderlySafe(TAIL_SENT);
    SoundShort(TAIL_SENT);
    hide ReachedOrderly;
    hide Network.Reached;
    hide AckSafe;
    hide Sound;
    hide S.Logged;
    assert Written(TAIL_SENT) == [97, 98] by {
      FlatOfNothing();
      hide Flat;
    }
    hide Flat;
  }

  /** The tail has been heard, and an empty segment is on its way. */
  lemma LateReached() returns (sys: System)
    ensures ReachedOrderly(sys) && EMPTY in sys.net && Written(sys) == [97, 98]
    ensures sys.snd == TailOut(WINDOW) && sys.log == [SYN, DATA, TAIL] && sys.snd.isn == Wrap32(0)
    ensures sys.rcv.seenSyn && sys.rcv.synAccounted && sys.rcv.seenFin && !sys.rcv.finAccounted
    ensures Offset(sys.rcv.curSeq, Wrap32(0)) == 1 && sys.rcv.reassembler.cur == 0 && sys.rcv.Pushed() == 0
  {
    hide ReachedOrderly;
    hide Sound;
    hide Offset;
    hide CountsFin;
    hide Flat;
    hide TcpReceivers.ReceiverState.Receive;
    hide TcpSenders.SenderState.MakeEmptyMessage;
    TailReached();
    TailSound();
    PushTail(WINDOW);
    hide TcpSenders.SenderState.Push;
    var r := HearTail();
    var heard := TAIL_SENT.(rcv := r);
    sys := heard.(net := heard.net + {EMPTY});
    SegmentNext(TAIL_SENT, TAIL, r);
    EmptyNext(heard);
    hide Next;
    assert Orderly(TAIL_SENT, DeliverSegment(TAIL));
    hide Orderly;
    OrderlyStep(TAIL_SENT, DeliverSegment(TAIL), heard);
    OrderlyStep(heard, SendEmpty, sys);
  }

  /** An empty segment that carries no FIN counts the one that came ahead of its turn. */
  lemma EmptySegmentOvertakes() returns (sys: System)
    ensures ReachedOrderly(sys) && FinOvertakes(sys, EMPTY)
  {
    sys := LateReached();
    OrderlySafe(sys);
    Lengths();
    SoundShort(sys);
    hide ReachedOrderly;
    hide Network.Reached;
    hide S.Contiguous;
    hide S.Logged;
    hide TcpReceivers.ReceiverState.Receive;
    hide TcpSenders.TotalLength;
    hide Offset;
    hide Flat;
    assert !R.Known(sys.rcv.reassembler, 0) && !Carries(EMPTY, Wrap32(0), 0);
    hide R.Good;
    assert CountsFinEarly(sys.rcv, Wrap32(0), [97, 98], EMPTY);
    FalseNumber(sys, EMPTY);
    EmptyPushesNothing(sys.rcv, [97, 98]);
    assert sys.log[..1] == [SYN];
    hide AllHonest;
    hide Consistent;
  }

  lemma EmptyPushesNothing(r: TcpReceivers.ReceiverState, stream: seq<byte>)
    requires Sound(r, Wrap32(0), stream) && r.seenSyn && r.reassembler.cur == 0
    ensures r.Receive(EMPTY).Ok? && r.Receive(EMPTY).value.Pushed() == 0
  {
    assert Genuine(EMPTY, Wrap32(0), stream);
    ReceiveSound(r, Wrap32(0), stream, EMPTY);
    ReceiveInserts(r, Wrap32(0), stream, EMPTY);
    ReceiveShape(r, Wrap32(0), stream, EMPTY);
    ResetGood(r, stream, EMPTY);
    var r0 := r.NoteReset(EMPTY).NoteFlags(EMPTY);
    AheadPushesNothing(r0.reassembler, stream, r0.StreamIndex(EMPTY), EMPTY.payload, EMPTY.FIN);
    SoundBounds(r.Receive(EMPTY).value, Wrap32(0), stream);
    hide TcpReceivers.ReceiverState.Receive;
    hide TcpReceivers.ReceiverState.StreamIndex;
    hide TcpReceivers.ReceiverState.Ahead;
    hide Reassemblers.ReassemblerState.Insert;
    hide R.Good;
    hide Offset;
    hide Flat;
  }

  /** The same loss without any FIN overtaking on its own: the one heard with the second byte is
      counted by an empty segment, and the first byte is let go. */
  lemma LateFinRun()
    ensures exists last :: Network.Reached(last) && LostByte(last)
    ensures exists sys :: ReachedOrderly(sys) && FinOvertakes(sys, EMPTY)
  {
    hide ReachedOrderly;
    hide FinOvertakes;
    hide Network.Reached;
    hide LostByte;
    var sys := EmptySegmentOvertakes();
    EarlyFinExtends(sys, EMPTY);
  }
}
