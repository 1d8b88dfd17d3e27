/** Short runs of the sender that end where its promises do. */
module SenderExample {
  import opened Bytes
  import opened WrappingIntegers
  import opened Messages
  import ByteStreams
  import opened TcpSenders
  import S = SenderProofs

  const SYN: SenderMessage := SenderMessage(Wrap32(0), true, [], false, false)
  const DATA: SenderMessage := SenderMessage(Wrap32(1), false, [97], false, false)
  const FIN: SenderMessage := SenderMessage(Wrap32(2), false, [], true, false)

  const TAIL: SenderMessage := SenderMessage(Wrap32(2), false, [98], true, false)
  const EMPTY: SenderMessage := SenderMessage(Wrap32(4), false, [], false, false)

  function Ack(window: u16): ReceiverMessage {
    ReceiverMessage(Some(Wrap32(1)), window, false)
  }

  lemma FlatOne(c: seq<byte>)
    ensures Flat([c]) == c
  {
    FlatSnoc([], c);
    assert [] + [c] == [c];
  }

  /** An input stream with one string at most in its deque. */
  function Input(popped: seq<byte>, text: seq<byte>, closed: bool): ByteStreams.Stream
    requires |text| <= 4
  {
    FlatOne(text);
    ByteStreams.StreamState(4, popped, if text == [] then [] else [text], closed, false)
  }

  /** A sender whose SYN is out. */
  function Sending(input: ByteStreams.Stream, win: u16, queue: seq<SenderMessage>, inFlight: nat, fin: bool): SenderState {
    SenderState(input, Wrap32(0), 1, win, false, queue, inFlight, true, fin, false, fin, 0, 0)
  }

  const FRESH: SenderState := NewSender(Input([], [], false), Wrap32(0), 1)
  const WRITTEN: SenderState := NewSender(Input([], [97], false), Wrap32(0), 1)
  const OPENING: SenderState := Sending(Input([], [97], false), 0, [SYN], 1, false)

  function Open(win: u16): SenderState {
    Sending(Input([], [97], false), win, [], 0, false)
  }

  function DataOut(win: u16): SenderState {
    Sending(Input([97], [], false), win, [DATA], 1, false)
  }

  function Closing(win: u16): SenderState {
    Sending(Input([97], [], true), win, [DATA], 1, false)
  }

  function FinOut(win: u16): SenderState {
    Sending(Input([97], [], true), win, [DATA, FIN], 2, true)
  }

  /** One more byte has been written, and the input closed. */
  function Ending(win: u16): SenderState {
    Sending(Input([97], [98], true), win, [DATA], 1, false)
  }

  function TailOut(win: u16): SenderState {
    Sending(Input([97, 98], [], true), win, [DATA, TAIL], 3, true)
  }

  /** A round that takes no bytes. */
  lemma EmptyRound(s: SenderState)
    requires s.Valid() && !s.Hangs() && !s.Idle() && s.Opened().FillDone(s.Opening())
    ensures s.NextRound() == s.Opened().Emit(s.Opening())
  {
    ByteStreams.PopNothing(s.input);
    hide Flat;
    hide NoEmptyChunk;
    assert s.Opened().FillText(s.Opening()) == [];
    assert s.Opening().(payload := []) == s.Opening();
    assert s.Opened().Took([]) == s.Opened();
    hide SenderState.FillText;
    hide SenderState.FillDone;
    hide SenderState.Opening;
    hide SenderState.Opened;
    hide SenderState.Emit;
    hide SenderState.Took;
    hide SenderState.Idle;
  }

  lemma Lengths()
    ensures TotalLength([]) == 0 && TotalLength([SYN]) == 1 && TotalLength([DATA]) == 1
    ensures TotalLength([DATA, FIN]) == 2 && TotalLength([DATA, TAIL]) == 3
  {
    assert [DATA, FIN][..1] == [DATA] && [DATA, TAIL][..1] == [DATA];
  }

  /** Through a zero window the first push sends the SYN and keeps every byte. */
  lemma PushSyn(s: SenderState)
    requires s.input.popped == [] && s.input.deck != [] && !s.input.closed && !s.input.error
    requires s == NewSender(s.input, Wrap32(0), 1)
    ensures s.Valid() && !s.Hangs()
    ensures s.Push() == (Sending(s.input, 0, [SYN], 1, false), [SYN])
  {
    FlatEmpty(s.input.deck);
    SynRound(s);
    SynStop(s);
    hide Flat;
    hide TotalLength;
    hide SenderState.NextRound;
    var s' := Sending(s.input, 0, [SYN], 1, false);
    PushUnfold(s);
    PushUnfold(s');
    assert [SYN] + [] == [SYN];
    hide SenderState.Push;
  }

  lemma SynRound(s: SenderState)
    requires s.input.popped == [] && s.input.deck != [] && !s.input.closed && !s.input.error
    requires s == NewSender(s.input, Wrap32(0), 1)
    ensures s.Valid() && !s.Hangs()
    ensures s.NextRound() == Sent(Sending(s.input, 0, [SYN], 1, false), SYN, true)
  {
    FlatEmpty(s.input.deck);
    Lengths();
    hide Flat;
    hide NoEmptyChunk;
    hide TotalLength;
    assert s.Valid() && !s.Hangs() && !s.Idle();
    EmptyRound(s);
    hide SenderState.NextRound;
    assert s.Opening() == SYN;
  }

  lemma SynStop(s: SenderState)
    requires s.input.popped == [] && s.input.deck != [] && !s.input.closed && !s.input.error
    ensures var s' := Sending(s.input, 0, [SYN], 1, false);
            s'.Valid() && !s'.Hangs() && s'.NextRound() == Stop(s')
  {
    FlatEmpty(s.input.deck);
    Lengths();
    hide Flat;
    hide NoEmptyChunk;
    hide TotalLength;
    var s' := Sending(s.input, 0, [SYN], 1, false);
    assert s'.Valid() && !s'.Hangs() && !s'.Idle();
    EmptyRound(s');
    hide SenderState.NextRound;
  }

  /** With a window the byte goes out. */
  lemma PushData(win: u16)
    requires win >= 2
    ensures Open(win).Valid() && !Open(win).Hangs()
    ensures Open(win).Push() == (DataOut(win), [DATA])
  {
    var s, m := Open(win), DATA.(payload := []);
    Lengths();
    FlatOne([97]);
    hide Flat;
    hide TotalLength;
    assert s.Opening() == m && s.Opened() == s && !s.Idle();
    assert s.NextBytes(m) == [97];
    ByteStreams.PopFront(s.input, 1);
    assert s.Took([97]) == s.(input := Input([97], [], false));
    FillTextStep(s, m);
    assert s.FillText(m) == [97];
    assert s.NextRound() == Sent(DataOut(win), DATA, false);
    hide SenderState.NextRound;
    PushUnfold(s);
  }

  /** The FIN goes out in a segment of its own. */
  lemma PushFin(win: u16)
    requires win >= 2
    ensures Closing(win).Valid() && !Closing(win).Hangs()
    ensures Closing(win).Push() == (FinOut(win), [FIN])
  {
    var s := Closing(win);
    Lengths();
    assert Flat([]) == [];
    hide Flat;
    hide TotalLength;
    assert s.Valid() && !s.Hangs() && !s.Idle();
    EmptyRound(s);
    assert s.NextRound() == Sent(FinOut(win), FIN, false);
    hide SenderState.NextRound;
    PushUnfold(s);
  }

  /** The last byte takes the FIN along. */
  lemma PushTail(win: u16)
    requires win >= 4
    ensures Ending(win).Valid() && !Ending(win).Hangs()
    ensures Ending(win).Push() == (TailOut(win), [TAIL])
    ensures TailOut(win).MakeEmptyMessage() == EMPTY
  {
    TailFills(win);
    Lengths();
    FlatOne([98]);
    hide Flat;
    hide TotalLength;
    hide SenderState.FillText;
    hide SenderState.Took;
    assert Ending(win).NextRound() == Sent(TailOut(win), TAIL, false);
    hide SenderState.NextRound;
    PushUnfold(Ending(win));
  }

  lemma TailFills(win: u16)
    requires win >= 4
    ensures var s, m := Ending(win), TAIL.(payload := [], FIN := false);
            && s.Opening() == m && s.Opened() == s && !s.Idle() && s.FillEnds(m)
            && s.FillText(m) == [98] && s.input.CanPop(1)
            && s.Took([98]) == s.(input := Input([97, 98], [], true))
  {
    var s, m := Ending(win), TAIL.(payload := [], FIN := false);
    FlatOne([98]);
    assert Flat([]) == [];
    hide Flat;
    assert s.NextBytes(m) == [98];
    ByteStreams.PopFront(s.input, 1);
    assert [97] + [98] == [97, 98];
    FillTextStep(s, m);
    assert s.Took([98]).FillDone(TAIL.(FIN := false));
    hide SenderState.NextBytes;
    hide ByteStreams.StreamState.Pop;
  }

  lemma Numbers(n: u64)
    requires n < 0x8000_0000
    ensures Wrap32(0).Unwrap(Wrap32(0), n) == 0 && Wrap32(1).Unwrap(Wrap32(0), n) == 1
  {
    UnwrapInvertsWrap(0, Wrap32(0), n);
    UnwrapInvertsWrap(1, Wrap32(0), n);
    hide Wrap32.Unwrap;
  }

  /** The SYN is acknowledged and a window offered. */
  lemma HearAck(input: ByteStreams.Stream, win: u16)
    requires |input.Pushed()| < 0x8000_0000
    ensures Sending(input, 0, [SYN], 1, false).Receive(Ack(win)) == Sending(input, win, [], 0, false).(winZero := win == 0)
  {
    var s0 := Sending(input, 0, [SYN], 1, false);
    Numbers(|input.Pushed()|);
    SmallWord(|input.Pushed()|);
    hide Wrap32.Unwrap;
    hide Flat;
    hide TotalLength;
    var s := s0.NoteWindow(Ack(win));
    assert s.Acknowledges(Wrap32(1));
    assert s.DropFront().DropAcknowledged(Wrap32(1)) == s.DropFront();
    hide SenderState.Acknowledges;
  }

  // ---------- Runs ----------

  ghost predicate SenderReached(h: S.History) {
    exists hs: seq<S.History>, es: seq<S.Event> :: S.IsRun(hs, es) && hs[|es|] == h
  }

  lemma ReachedStart(input: ByteStreams.Stream)
    requires input.popped == []
    ensures SenderReached(S.History(NewSender(input, Wrap32(0), 1), [], 0))
  {
    var h := S.History(NewSender(input, Wrap32(0), 1), [], 0);
    var es: seq<S.Event> := [];
    assert S.IsRun([h], es) && [h][|es|] == h;
  }

  lemma ReachedStep(h: S.History, e: S.Event)
    requires SenderReached(h) && S.Enabled(h.s, e)
    ensures SenderReached(S.Step(h, e))
  {
    hide S.Step;
    hide S.Enabled;
    hide NewSender;
    var hs, es :| S.IsRun(hs, es) && hs[|es|] == h;
    var hs', es' := hs + [S.Step(h, e)], es + [e];
    assert S.IsRun(hs', es') && hs'[|es'|] == S.Step(h, e);
  }

  // ---------- The stuck state ----------

  lemma WriteByte()
    ensures FRESH.Valid() && FRESH.input.Push([97]) == WRITTEN.input
  {
    assert Flat([]) == [] && TotalLength([]) == 0;
    hide Flat;
    hide TotalLength;
    assert [97][..1] == [97] && [] + [[97]] == [[97]];
  }

  /** Bytes are written, the SYN goes out and is acknowledged with a window. */
  lemma OpenReached(win: u16)
    requires win > 0
    ensures SenderReached(S.History(Open(win), [SYN], 0))
  {
    hide Flat;
    hide SenderReached;
    hide SenderState.Push;
    hide SenderState.Receive;
    WriteByte();
    PushSyn(WRITTEN);
    HearAck(WRITTEN.input, win);
    ReachedStart(FRESH.input);
    ReachedStep(S.History(FRESH, [], 0), S.Write([97]));
    ReachedStep(S.History(WRITTEN, [], 0), S.PushOut);
    assert [] + [SYN] == [SYN];
    OpeningValid();
    hide SenderState.Valid;
    ReachedStep(S.History(OPENING, [SYN], 0), S.Event.Ack(Ack(win)));
  }

  lemma OpeningValid()
    ensures OPENING.Valid()
  {
    SynStop(WRITTEN);
  }

  lemma DataOutValid(win: u16)
    requires win >= 2
    ensures DataOut(win).Valid()
  {
    Lengths();
    hide TotalLength;
  }

  /** A byte goes out, the input is closed, and the FIN exactly fills a window of two: one more
      push then sends an empty segment, and the tiling is broken. */
  lemma StuckReached()
    ensures SenderReached(S.History(FinOut(2), [SYN, DATA, FIN], 0)) && Stuck(FinOut(2))
    ensures FinOut(2).Valid() && !FinOut(2).Hangs() && FinOut(2).Push().1 != []
    ensures S.Contiguous(FinOut(2), [SYN, DATA, FIN])
    ensures !S.Contiguous(FinOut(2).Push().0, [SYN, DATA, FIN] + FinOut(2).Push().1)
  {
    hide Flat;
    hide SenderReached;
    hide SenderState.Push;
    hide S.Contiguous;
    OpenReached(2);
    PushData(2);
    DataOutValid(2);
    PushFin(2);
    ReachedStep(S.History(Open(2), [SYN], 0), S.PushOut);
    assert [SYN] + [DATA] == [SYN, DATA];
    ReachedStep(S.History(DataOut(2), [SYN, DATA], 0), S.Close);
    ReachedStep(S.History(Closing(2), [SYN, DATA], 0), S.PushOut);
    assert [SYN, DATA] + [FIN] == [SYN, DATA, FIN];
    StuckTiles();
    S.PushContiguousExactly(FinOut(2), [SYN, DATA, FIN]);
    S.StuckSendsEmpty(FinOut(2));
    PushUnfold(FinOut(2));
  }

  lemma StuckTiles()
    ensures S.Contiguous(FinOut(2), [SYN, DATA, FIN])
    ensures FinOut(2).Valid()
  {
    Lengths();
    hide TotalLength;
    var log := [SYN, DATA, FIN];
    assert log[..0] == [] && log[..1] == [SYN] && log[..2] == [SYN, DATA];
    S.PayloadsSnoc([], SYN);
    S.PayloadsSnoc([SYN], DATA);
    S.PayloadsSnoc([SYN, DATA], FIN);
    assert [] + [SYN] == [SYN] && [SYN] + [DATA] == [SYN, DATA] && [SYN, DATA] + [FIN] == log;
    assert S.Payloads([]) == [];
    hide S.Payloads;
    hide Flat;
    var s := FinOut(2);
    assert S.Stamped(s, log, 0) && S.Stamped(s, log, 1) && S.Stamped(s, log, 2);
    hide S.Stamped;
    assert S.IsTail(s.queue, log);
    hide S.IsTail;
    assert log[2].FIN && S.Tight(log);
    hide S.Tight;
  }

  // ---------- The hanging state ----------

  /** A sender whose input is closed before anything is written hangs at once. */
  lemma HangReached()
    ensures SenderReached(S.History(NewSender(Input([], [], true), Wrap32(0), 1), [], 0))
    ensures NewSender(Input([], [], true), Wrap32(0), 1).Hangs()
  {
    hide Flat;
    hide SenderReached;
    WriteByte();
    ReachedStart(FRESH.input);
    ReachedStep(S.History(FRESH, [], 0), S.Close);
  }

  // ---------- A long payload ----------

  const A: seq<byte> := seq(600, _ => 97)
  const B: seq<byte> := seq(600, _ => 98)

  function Long(deck: Chunks): ByteStreams.Stream
    requires deck == [] || deck == [A] || deck == [A, B]
  {
    LongDeck();
    ByteStreams.StreamState(2000, [], deck, false, false)
  }

  lemma LongDeck()
    ensures |Flat([])| == 0 && |Flat([A])| == 600 && |Flat([A, B])| == 1200
    ensures NoEmptyChunk([A, B]) && NoEmptyChunk([A])
  {
    FlatOne(A);
    FlatSnoc([A], B);
    assert [A] + [B] == [A, B];
  }

  lemma WriteLong()
    ensures Long([]).Push(A) == Long([A]) && Long([A]).Push(B) == Long([A, B])
  {
    LongDeck();
    hide Flat;
    assert A[..600] == A && B[..600] == B && [] + [A] == [A] && [A] + [B] == [A, B];
  }

  /** Two strings of 600 bytes under a window of 1200 make one segment of more than 1000. */
  lemma LongPayloadReached()
    ensures var s := Sending(Long([A, B]), 1200, [], 0, false);
            && SenderReached(S.History(s, [SYN], 0))
            && s.Valid() && !s.Hangs() && !s.Idle() && s.Opened().FillEnds(s.Opening())
            && |s.Opened().FillText(s.Opening())| > MAX_PAYLOAD_SIZE
  {
    var s := Sending(Long([A, B]), 1200, [], 0, false);
    LongReached();
    LongDeck();
    Lengths();
    hide Flat;
    hide TotalLength;
    hide SenderReached;
    assert !S.HasBoundary([A, B], MAX_PAYLOAD_SIZE) by {
      assert [A, B][1..] == [B];
      assert !S.HasBoundary([B], 400);
    }
    S.PayloadLimitExactly(s);
    hide SenderState.FillText;
  }

  lemma LongReached()
    ensures SenderReached(S.History(Sending(Long([A, B]), 1200, [], 0, false), [SYN], 0))
  {
    hide Flat;
    hide SenderReached;
    hide SenderState.Push;
    hide SenderState.Receive;
    WriteLong();
    LongDeck();
    Lengths();
    hide TotalLength;
    var s0 := NewSender(Long([]), Wrap32(0), 1);
    var s1 := NewSender(Long([A]), Wrap32(0), 1);
    var s2 := NewSender(Long([A, B]), Wrap32(0), 1);
    ReachedStart(Long([]));
    ReachedStep(S.History(s0, [], 0), S.Write(A));
    ReachedStep(S.History(s1, [], 0), S.Write(B));
    PushSyn(s2);
    ReachedStep(S.History(s2, [], 0), S.PushOut);
    assert [] + [SYN] == [SYN];
    SynStop(s2);
    HearAck(Long([A, B]), 1200);
    hide SenderState.Valid;
    ReachedStep(S.History(Sending(Long([A, B]), 0, [SYN], 1, false), [SYN], 0), S.Event.Ack(Ack(1200)));
  }
}
