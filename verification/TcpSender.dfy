/** Bytes in, segments out: window, acknowledgments and retransmission. */
module TcpSenders {
  import opened Bytes
  import opened WrappingIntegers
  import opened ByteStreams
  import opened Messages

  const MAX_PAYLOAD_SIZE: nat := 1000

  datatype SenderState = SenderState(
    input: Stream, isn: Wrap32, rto: nat, win: u16, winZero: bool,
    queue: seq<SenderMessage>, inFlight: nat,
    synSent: bool, fin: bool, finReceived: bool, finQueued: bool,
    timer: nat, retx: nat) {

    /** What every public call keeps. */
    predicate Valid() {
      && (!synSent ==> queue == [] && input.popped == [] && !fin && !finReceived)
      && (fin ==> input.Finished()) && finQueued == fin
      && (finReceived ==> fin)
      && (forall i :: 0 <= i < |queue| ==> (queue[i].FIN ==> fin))
      && inFlight == TotalLength(queue)
      && inFlight <= 0xFFFF + Bit(fin)
      && (queue == [] ==> timer == 0 && retx == 0)
    }

    function Popped(): nat {
      |input.popped|
    }

    // ---------- push ----------

    /** FIN goes into a fresh segment when the input is finished and the window has room;
        a zero window does not hold it back. */
    predicate OpensWithFin() {
      input.Finished() && (Bit(!synSent) + inFlight < win || win == 0)
    }

    /** The segment a round starts from: flags and sequence number, no payload yet. */
    function Opening(): SenderMessage {
      var base := isn.Plus(Popped());
      SenderMessage(if synSent then base.Plus(1) else base, !synSent, [], OpensWithFin(), input.error)
    }

    function Opened(): SenderState {
      this.(synSent := true, fin := fin || OpensWithFin())
    }

    /** No good reason to send, or the FIN has already been acknowledged. */
    predicate Idle() {
      || (input.Buffered() == 0 && synSent && !(fin || OpensWithFin()))
      || ((fin || OpensWithFin()) && finReceived)
    }

    /** When the inner loop stops adding bytes to a segment. */
    predicate FillDone(m: SenderMessage) {
      || (win != 0 && (m.Length() + inFlight >= win || input.Buffered() == 0 || |m.payload| == MAX_PAYLOAD_SIZE))
      || (win == 0 && m.Length() == 1)
      || (win == 0 && queue != [])
    }

    /** A zero window on an empty queue: the loop ends only through a segment of length one. */
    predicate FillEnds(m: SenderMessage) {
      win == 0 && queue == [] && m.Length() != 1 ==> m.Length() == 0 && input.Buffered() > 0
    }

    function BytesRemaining(m: SenderMessage): nat
      requires !FillDone(m)
    {
      if win == 0 then 1 else Min(win - (m.Length() + inFlight), MAX_PAYLOAD_SIZE)
    }

    /** The bytes one pass of the inner loop takes: the front string, cut to what may go. */
    function NextBytes(m: SenderMessage): seq<byte>
      requires !FillDone(m)
    {
      input.Peek()[..Min(|input.Peek()|, BytesRemaining(m))]
    }

    /** All the bytes the inner loop takes. */
    function FillText(m: SenderMessage): seq<byte>
      requires FillEnds(m)
      decreases input.Buffered()
    {
      if FillDone(m) then []
      else
        var next := NextBytes(m);
        NextBytesFront(this, m);
        next + Took(next).FillText(m.(payload := m.payload + next))
    }

    function Took(text: seq<byte>): SenderState
      requires input.CanPop(|text|)
    {
      PopRefinesQueue(input, |text|);
      this.(input := input.Pop(|text|))
    }

    /** FIN is added when the last byte has just been taken and there is still room. */
    predicate ClosesWithFin(m: SenderMessage) {
      input.Finished() && m.Length() + inFlight < win
    }

    /** The reasons not to send a filled segment: a second FIN, a full window, nothing in it. */
    predicate Withholds(m: SenderMessage) {
      || (m.FIN && finQueued)
      || (m.Length() + inFlight > win && win != 0)
      || (m.payload == [] && !m.SYN && !fin)
    }

    function Enqueue(m: SenderMessage): SenderState {
      this.(finQueued := finQueued || m.FIN, queue := queue + [m], inFlight := inFlight + m.Length())
    }

    /** What one pass of the outer loop does once the segment is filled. */
    function Emit(m: SenderMessage): Round {
      var s := this.(fin := fin || ClosesWithFin(m));
      var m' := m.(FIN := m.FIN || ClosesWithFin(m));
      if s.Withholds(m') then Stop(s)
      else
        var s' := s.Enqueue(m');
        Sent(s', m', s'.input.Buffered() != 0 && s'.inFlight != win)
    }

    /** The inner loop never ends: a zero window, the SYN unsent, and a stream that is already
        closed and empty. */
    predicate Hangs() {
      win == 0 && !synSent && input.Finished()
    }

    function NextRound(): Round
      requires Valid() && !Hangs()
    {
      if Idle() then Stop(Opened())
      else
        OpeningFills(this);
        var text := Opened().FillText(Opening());
        FillTakes(Opened(), Opening());
        Opened().Took(text).Emit(Opening().(payload := text))
    }

    /** The state after push, and the segments it has transmitted, in order. */
    function Push(): (SenderState, seq<SenderMessage>)
      requires Valid() && !Hangs()
      decreases Bit(!synSent), input.Buffered()
    {
      RoundShape(this);
      match NextRound()
      case Stop(s) => (s, [])
      case Sent(s, m, again) =>
        if again then
          var (s', rest) := s.Push();
          (s', [m] + rest)
        else (s, [m])
    }

    // ---------- receive ----------

    /** A sequence number as an absolute one, near the bytes written. */
    function Absolute(seqno: Wrap32): u64 {
      seqno.Unwrap(isn, |input.Pushed()| % TWO_64)
    }

    /** The acknowledgment ends at the front segment, or at the end of the whole queue. */
    predicate Acknowledges(ackno: Wrap32)
      requires queue != []
    {
      || (Absolute(queue[0].seqno) + queue[0].Length()) % TWO_64 == Absolute(ackno)
      || (Absolute(queue[0].seqno) + inFlight) % TWO_64 == Absolute(ackno)
    }

    function DropFront(): SenderState
      requires queue != []
    {
      this.(finReceived := finReceived || queue[0].FIN,
            inFlight := (inFlight - queue[0].Length()) % TWO_64,
            retx := 0, timer := 0, queue := queue[1..])
    }

    function DropAcknowledged(ackno: Wrap32): SenderState
      decreases |queue|
    {
      if queue == [] || !Acknowledges(ackno) then this
      else DropFront().DropAcknowledged(ackno)
    }

    function NoteWindow(msg: ReceiverMessage): SenderState {
      this.(win := msg.window, winZero := msg.window == 0,
            input := if msg.RST then input.SetError() else input)
    }

    /** The acknowledgment number is read only when a segment is outstanding. */
    function Receive(msg: ReceiverMessage): SenderState
      requires queue != [] ==> msg.ackno.Some?
    {
      if queue == [] then NoteWindow(msg) else NoteWindow(msg).DropAcknowledged(msg.ackno.value)
    }

    // ---------- tick ----------

    predicate Expires(ms: nat) {
      queue != [] && timer + ms >= rto * Pow2(retx)
    }

    function Tick(ms: nat): SenderState {
      if queue == [] then this
      else if Expires(ms) then this.(timer := 0, retx := retx + Bit(!winZero))
      else this.(timer := timer + ms)
    }

    function Retransmitted(ms: nat): seq<SenderMessage> {
      if Expires(ms) then [queue[0]] else []
    }

    function MakeEmptyMessage(): SenderMessage {
      var seqno := isn.Plus(Popped()).Plus(1);
      SenderMessage(if fin then seqno.Plus(1) else seqno, false, [], false, input.error)
    }
  }

  datatype Round = Stop(state: SenderState) | Sent(state: SenderState, msg: SenderMessage, again: bool)

  function TotalLength(queue: seq<SenderMessage>): nat {
    if queue == [] then 0 else TotalLength(queue[..|queue| - 1]) + queue[|queue| - 1].Length()
  }

  function Pow2(n: nat): nat {
    if n == 0 then 1 else 2 * Pow2(n - 1)
  }

  function NewSender(input: Stream, isn: Wrap32, rto: nat): SenderState {
    SenderState(input, isn, rto, 0, false, [], 0, false, false, false, false, 0, 0)
  }

  // ---------- One round of push ----------

  /** The inner loop makes progress: while it goes on there is a byte to take, and it comes
      from the front string. */
  lemma NextBytesFront(s: SenderState, m: SenderMessage)
    requires s.FillEnds(m) && !s.FillDone(m)
    ensures var next := s.NextBytes(m);
            && 0 < |next| <= |s.input.Peek()| && next == Flat(s.input.deck)[..|next|]
            && |next| <= s.BytesRemaining(m) && |next| <= s.input.Buffered()
            && s.input.CanPop(|next|)
            && s.input.Pop(|next|).Valid()
            && Flat(s.input.Pop(|next|).deck) == Flat(s.input.deck)[|next|..]
            && s.input.Pop(|next|) ==
               s.input.(popped := s.input.popped + next, deck := s.input.Pop(|next|).deck)
  {
    FlatEmpty(s.input.deck);
    var next := s.NextBytes(m);
    PopRefinesQueue(s.input, |next|);
    assert Flat(s.input.deck)[..|next|] == next;
  }

  lemma FillTextStep(s: SenderState, m: SenderMessage)
    requires s.FillEnds(m) && !s.FillDone(m)
    ensures s.input.CanPop(|s.NextBytes(m)|)
    ensures s.Took(s.NextBytes(m)).FillEnds(m.(payload := m.payload + s.NextBytes(m)))
    ensures s.FillText(m) ==
            s.NextBytes(m) + s.Took(s.NextBytes(m)).FillText(m.(payload := m.payload + s.NextBytes(m)))
  {
    NextBytesFront(s, m);
    hide Flat;
    hide NoEmptyChunk;
    hide DropBytes;
  }

  /** The inner loop takes a prefix of what is buffered, never runs past a nonzero window, and
      takes one byte at most through a zero window. */
  lemma {:induction false} FillTakes(s: SenderState, m: SenderMessage)
    requires s.FillEnds(m)
    ensures var text := s.FillText(m);
            && |text| <= s.input.Buffered() && text == Flat(s.input.deck)[..|text|] && s.input.CanPop(|text|)
            && s.Took(text).FillDone(m.(payload := m.payload + text))
            && (text != [] && s.win != 0 ==> m.Length() + |text| + s.inFlight <= s.win)
            && (text != [] && s.win == 0 ==> |text| == 1 && s.queue == [] && m.Length() == 0)
    decreases s.input.Buffered()
  {
    hide Flat;
    hide NoEmptyChunk;
    hide DropBytes;
    hide StreamState.Pop;
    hide StreamState.Peek;
    if s.FillDone(m) {
      PopNothing(s.input);
      assert m.payload + [] == m.payload;
    } else {
      var next := s.NextBytes(m);
      NextBytesFront(s, m);
      FillTextStep(s, m);
      hide SenderState.NextBytes;
      var s1, m1 := s.Took(next), m.(payload := m.payload + next);
      FillTakes(s1, m1);
      var rest := s1.FillText(m1);
      hide SenderState.FillText;
      TakeTwice(Flat(s.input.deck), next, rest);
      PopTwice(s.input, |next|, |rest|);
      ConcatAssoc(m.payload, next, rest);
    }
  }

  lemma TakeTwice(all: seq<byte>, a: seq<byte>, b: seq<byte>)
    requires |a| <= |all| && a == all[..|a|]
    requires |b| <= |all| - |a| && b == all[|a|..][..|b|]
    ensures |a + b| <= |all| && a + b == all[..|a + b|]
    ensures all[|a|..][|b|..] == all[|a + b|..]
  {
  }

  lemma OpeningFills(s: SenderState)
    requires s.Valid() && !s.Hangs() && !s.Idle()
    ensures s.Opened().FillEnds(s.Opening())
  {
    FlatEmpty(s.input.deck);
  }

  lemma TotalLengthSnoc(queue: seq<SenderMessage>, m: SenderMessage)
    ensures TotalLength(queue + [m]) == TotalLength(queue) + m.Length()
  {
    assert (queue + [m])[..|queue|] == queue;
  }

  /** A zero-length segment can go out: the FIN is outstanding and exactly fills the window. */
  predicate Stuck(s: SenderState) {
    s.fin && !s.finReceived && s.win != 0 && s.inFlight == s.win
  }

  /** How one sent segment relates the states around it. */
  predicate SentOne(s: SenderState, s': SenderState, m: SenderMessage) {
    && m.SYN == !s.synSent
    && m.seqno == s.isn.Plus(s.Popped() + Bit(!m.SYN))
    && s'.input.Pushed() == s.input.Pushed() && s'.input.popped == s.input.popped + m.payload
    && s' == s.(input := s'.input, queue := s.queue + [m], inFlight := s.inFlight + m.Length(),
                synSent := true, fin := s'.fin, finQueued := s'.fin)
    && s'.input == s.input.(popped := s'.input.popped, deck := s'.input.deck)
    && (m.FIN ==> !s.fin)
    && (s'.fin <==> s.fin || m.FIN)
    && (s.win != 0 ==> s'.inFlight <= s.win)
    && (s.win == 0 && m.payload != [] ==> |m.payload| == 1 && s.queue == [])
    && (m.Length() == 0 <==> Stuck(s))
  }

  /** The state `f` and segment `m` after the inner loop, in a round that began in `s`. */
  predicate Filled(s: SenderState, f: SenderState, m: SenderMessage) {
    && s.Valid() && !s.Hangs() && !s.Idle()
    && m == s.Opening().(payload := m.payload)
    && f == s.Opened().(input := f.input)
    && f.input == s.input.(popped := s.input.popped + m.payload, deck := f.input.deck)
    && f.input.Pushed() == s.input.Pushed()
    && f.input.Buffered() == s.input.Buffered() - |m.payload|
    && (s.input.deck == [] <==> s.input.Buffered() == 0)
    && (f.input.deck == [] <==> f.input.Buffered() == 0)
    && f.FillDone(m)
    && (m.payload != [] && s.win != 0 ==> m.Length() + s.inFlight <= s.win)
    && (m.payload != [] && s.win == 0 ==> |m.payload| == 1 && s.queue == [] && m.Length() == 1)
    && (m.payload == [] ==> f.input == s.input)
  }

  lemma RoundFills(s: SenderState)
    requires s.Valid() && !s.Hangs() && !s.Idle()
    ensures s.Opened().FillEnds(s.Opening())
    ensures s.input.CanPop(|s.Opened().FillText(s.Opening())|)
    ensures var text := s.Opened().FillText(s.Opening());
            var f, m := s.Opened().Took(text), s.Opening().(payload := text);
            Filled(s, f, m) && s.NextRound() == f.Emit(m)
  {
    OpeningFills(s);
    var s1, m1 := s.Opened(), s.Opening();
    FillTakes(s1, m1);
    var text := s1.FillText(m1);
    assert m1.payload + text == text;
    PopRefinesQueue(s.input, |text|);
    FlatEmpty(s.input.deck);
    FlatEmpty(s.input.Pop(|text|).deck);
    if text == [] {
      PopNothing(s.input);
    }
    hide Flat;
    hide NoEmptyChunk;
    hide DropBytes;
    hide SenderState.FillText;
    hide SenderState.Emit;
    hide SenderState.Opening;
  }

  /** No early return loses bytes it has taken: nothing has changed. */
  lemma EmitStops(s: SenderState, f: SenderState, m: SenderMessage)
    requires Filled(s, f, m) && f.Emit(m).Stop?
    ensures f.Emit(m).state == s
    ensures s.win != 0 ==> s.input.Buffered() == 0 || s.inFlight >= s.win
    ensures s.win != 0 && s.input.Finished() && s.inFlight < s.win ==> s.finQueued
  {
    hide Flat;
    hide NoEmptyChunk;
  }

  lemma EmitSends(s: SenderState, f: SenderState, m: SenderMessage)
    requires Filled(s, f, m) && f.Emit(m).Sent?
    ensures var Sent(s', m', again) := f.Emit(m);
            && SentOne(s, s', m') && m'.payload == m.payload
            && s'.input == f.input
            && (again <==> s'.input.Buffered() > 0 && s'.inFlight != s.win)
  {
    hide Flat;
    hide NoEmptyChunk;
    hide TotalLength;
  }

  lemma EmitValid(s: SenderState, f: SenderState, m: SenderMessage)
    requires Filled(s, f, m) && f.Emit(m).Sent?
    ensures f.Emit(m).state.Valid() && !f.Emit(m).state.Hangs()
  {
    TotalLengthSnoc(s.queue, f.Emit(m).msg);
    hide Flat;
    hide NoEmptyChunk;
    hide TotalLength;
  }

  /** Why a round is the last one, and what the next one has less of. */
  lemma EmitProgress(s: SenderState, f: SenderState, m: SenderMessage)
    requires Filled(s, f, m) && f.Emit(m).Sent?
    ensures var s' := f.Emit(m).state;
            && (s.win != 0 && !f.Emit(m).again ==> s'.input.Buffered() == 0 || s'.inFlight >= s.win)
            && (s.win != 0 && s'.input.Finished() && s'.inFlight < s.win ==> s'.finQueued)
            && (f.Emit(m).again ==> m.SYN || s'.input.Buffered() < s.input.Buffered())
  {
    hide Flat;
    hide NoEmptyChunk;
    hide TotalLength;
    hide Wrap32.Plus;
  }

  /** One round either stops with nothing changed, or sends one segment; it goes round again
      only after real progress. */
  lemma RoundShape(s: SenderState)
    requires s.Valid() && !s.Hangs()
    ensures s.NextRound().Stop? ==> s.NextRound().state == s
    ensures s.NextRound().Sent? ==>
              var Sent(s', m, again) := s.NextRound();
              && SentOne(s, s', m) && s'.Valid() && !s'.Hangs()
              && (again <==> s'.input.Buffered() > 0 && s'.inFlight != s.win)
              && (again ==> m.SYN || s'.input.Buffered() < s.input.Buffered())
    ensures s.win != 0 && (s.NextRound().Stop? || !s.NextRound().again) ==>
              Exhausted(s.NextRound().state)
  {
    if s.Idle() {
      FlatEmpty(s.input.deck);
    } else {
      RoundFills(s);
      var text := s.Opened().FillText(s.Opening());
      var f, m := s.Opened().Took(text), s.Opening().(payload := text);
      if f.Emit(m).Stop? {
        EmitStops(s, f, m);
      } else {
        EmitSends(s, f, m);
        EmitValid(s, f, m);
        EmitProgress(s, f, m);
      }
      hide SenderState.NextRound;
      hide SenderState.Emit;
      hide SenderState.FillText;
      hide SenderState.Opening;
      hide SenderState.Took;
      hide Filled;
      hide SentOne;
    }
    hide Flat;
    hide NoEmptyChunk;
  }

  /** Nothing more can be sent under a nonzero window. */
  predicate Exhausted(s: SenderState) {
    && (s.input.Buffered() == 0 || s.inFlight >= s.win)
    && (s.input.Finished() && s.inFlight < s.win ==> s.finQueued)
  }

  /** One unfolding of push, with what its round guarantees. */
  lemma PushUnfold(s: SenderState)
    requires s.Valid() && !s.Hangs()
    ensures s.NextRound().Stop? ==> s.Push() == (s, [])
    ensures s.NextRound().Sent? ==>
              var Sent(s', m, again) := s.NextRound();
              && SentOne(s, s', m) && s'.Valid() && !s'.Hangs()
              && (if again then s.Push() == (s'.Push().0, [m] + s'.Push().1) else s.Push() == (s', [m]))
              && (again ==> s'.synSent && !s'.fin && (!s.synSent || s'.input.Buffered() < s.input.Buffered()))
  {
    RoundShape(s);
    if s.NextRound().Sent? {
      FlatEmpty(s.NextRound().state.input.deck);
    }
    hide SenderState.NextRound;
    hide Flat;
    hide TotalLength;
  }

  /** Exactly when the inner loop of a round would never end. */
  lemma FillEndsExactly(s: SenderState)
    requires s.Valid() && !s.Idle()
    ensures s.Opened().FillEnds(s.Opening()) <==> !s.Hangs()
    ensures s.Hangs() ==>
              var s1, m1 := s.Opened(), s.Opening();
              && !s1.FillDone(m1) && s1.NextBytes(m1) == []
              && s1.input.Pop(0) == s1.input && m1.(payload := m1.payload + s1.NextBytes(m1)) == m1
  {
    FlatEmpty(s.input.deck);
    PopNothing(s.input);
  }

  lemma OpeningPayload(s: SenderState)
    ensures s.Opening().payload == []
  {
  }

  class TCPSender {
    const input: ByteStream
    const isn: Wrap32
    const initialRto: nat
    var curWinSize: u16
    var winAdvertisedZero: bool
    var msgQueue: seq<SenderMessage>
    var bytesInQueue: nat
    var synSent: bool
    var fin: bool
    var finReceived: bool
    var finQueued: bool
    var timeSinceLastSend: nat
    var consecRetransmissions: nat

    ghost predicate Valid()
      reads this, input
    {
      input.Valid() && View().Valid()
    }

    ghost function View(): SenderState
      requires input.Valid()
      reads this, input
    {
      SenderState(input.View(), isn, initialRto, curWinSize, winAdvertisedZero, msgQueue, bytesInQueue,
                  synSent, fin, finReceived, finQueued, timeSinceLastSend, consecRetransmissions)
    }

    constructor (input: ByteStream, isn: Wrap32, initialRto: nat)
      requires input.Valid() && input.popped == []
      ensures this.input == input && Valid() && View() == NewSender(input.View(), isn, initialRto)
      ensures this.isn == isn && this.initialRto == initialRto && curWinSize == 0 && msgQueue == [] && !synSent
    {
      this.input, this.isn, this.initialRto := input, isn, initialRto;
      curWinSize, winAdvertisedZero, msgQueue, bytesInQueue := 0, false, [], 0;
      synSent, fin, finReceived, finQueued := false, false, false, false;
      timeSinceLastSend, consecRetransmissions := 0, 0;
    }

    /** The segments handed to `transmit` are returned in order.  The method is the outer loop;
        it does not come back from the state `Hangs`. */
    method Push() returns (sent: seq<SenderMessage>)
      requires Valid() && !View().Hangs()
      modifies this, input
      ensures Valid()
      ensures (View(), sent) == old(View()).Push()
    {
      sent := [];
      ghost var start := View();
      assert [] + start.Push().1 == start.Push().1;
      while true
        invariant Valid() && !View().Hangs()
        invariant start.Push() == (View().Push().0, sent + View().Push().1)
        decreases Bit(!synSent), View().input.Buffered()
      {
        ghost var s, before := View(), sent;
        RoundShape(s);
        hide SenderState.NextRound;
        hide SentOne;
        hide Flat;
        var msgs, more := Round();
        sent := sent + msgs;
        if !more {
          return;
        }
        ConcatAssoc(before, msgs, View().Push().1);
      }
    }

    /** One pass of the outer loop. */
    method Round() returns (sent: seq<SenderMessage>, more: bool)
      requires Valid() && !View().Hangs()
      modifies this, input
      ensures Valid() && View() == old(View()).NextRound().state
      ensures old(View()).NextRound().Stop? ==> sent == [] && !more
      ensures old(View()).NextRound().Sent? ==>
                sent == [old(View()).NextRound().msg] && more == old(View()).NextRound().again
    {
      ghost var s := View();
      hide Flat;
      hide NoEmptyChunk;
      hide TotalLength;
      hide Wrap32.Plus;
      hide SenderState.FillText;
      hide SenderState.FillDone;
      hide SenderState.Emit;
      hide SenderState.Opening;
      hide SenderState.Opened;
      hide SenderState.Idle;
      hide SentOne;
      hide SenderState.Valid;
      RoundShape(s);
      sent, more := [], false;
      var msg, idle := Start();
      if idle {
        return;
      }
      RoundFills(s);
      hide Filled;
      ghost var text := View().FillText(msg);
      OpeningPayload(s);
      assert msg.payload + text == text;
      msg := Fill(msg);
      sent, more := Emit(msg);
    }

    /** The start of a pass, up to the sequence number, unless there is no good reason to send. */
    method Start() returns (msg: SenderMessage, idle: bool)
      requires input.Valid()
      modifies this`synSent, this`fin
      ensures input.Valid() && View() == old(View()).Opened()
      ensures idle == old(View()).Idle()
      ensures !idle ==> msg == old(View()).Opening()
    {
      hide Flat;
      hide NoEmptyChunk;
      hide Wrap32.Plus;
      msg := Open();
      if (input.BytesBuffered() == 0 && !msg.SYN && !fin) || (fin && finReceived) {
        return msg, true;
      }
      msg := msg.(seqno := isn.Plus(input.totalPopped));
      if synSent && !msg.SYN {
        msg := msg.(seqno := msg.seqno.Plus(1));
      }
      idle := false;
    }

    /** The flags of a fresh segment; its number follows once it is known to be needed. */
    method Open() returns (msg: SenderMessage)
      requires input.Valid()
      modifies this`synSent, this`fin
      ensures input.Valid() && View() == old(View()).Opened()
      ensures msg == old(View()).Opening().(seqno := Wrap32(0))
    {
      msg := SenderMessage(Wrap32(0), false, [], false, false);
      if input.error {
        msg := msg.(RST := true);
      }
      if !synSent {
        msg := msg.(SYN := true);
        synSent := true;
      }
      if input.IsFinished() && (msg.Length() + bytesInQueue < curWinSize || curWinSize == 0) {
        msg := msg.(FIN := true);
        fin := true;
      }
    }

    /** The end of a pass: FIN, the reasons not to send, and sending. */
    method Emit(m: SenderMessage) returns (sent: seq<SenderMessage>, more: bool)
      requires input.Valid()
      modifies this`fin, this`finQueued, this`msgQueue, this`bytesInQueue
      ensures input.Valid()
      ensures View() == old(View()).Emit(m).state
      ensures old(View()).Emit(m).Stop? ==> sent == [] && !more
      ensures old(View()).Emit(m).Sent? ==>
                sent == [old(View()).Emit(m).msg] && more == old(View()).Emit(m).again
    {
      hide Flat;
      hide NoEmptyChunk;
      hide TotalLength;
      hide StreamState.Valid;
      var msg := m;
      sent, more := [], false;
      if input.IsFinished() && msg.Length() + bytesInQueue < curWinSize {
        msg := msg.(FIN := true);
        fin := true;
      }
      var withheld := Withholds(msg);
      if withheld {
        return;
      }
      Enqueue(msg);
      sent := [msg];
      more := !(input.BytesBuffered() == 0 || bytesInQueue == curWinSize);
    }

    method Withholds(msg: SenderMessage) returns (withheld: bool)
      requires input.Valid()
      ensures withheld == View().Withholds(msg)
    {
      if msg.FIN && finQueued {
        return true;
      }
      if msg.Length() + bytesInQueue > curWinSize && curWinSize != 0 {
        return true;
      }
      if msg.payload == [] && !msg.SYN && !fin {
        return true;
      }
      return false;
    }

    method Enqueue(msg: SenderMessage)
      requires input.Valid()
      modifies this`finQueued, this`msgQueue, this`bytesInQueue
      ensures input.Valid() && View() == old(View()).Enqueue(msg)
    {
      if msg.FIN {
        finQueued := true;
      }
      msgQueue := msgQueue + [msg];
      bytesInQueue := bytesInQueue + msg.Length();
    }

    /** The inner loop: bytes of the input go into the segment. */
    method Fill(m: SenderMessage) returns (msg: SenderMessage)
      requires input.Valid() && View().FillEnds(m)
      modifies input
      ensures input.Valid() && old(View()).input.CanPop(|old(View()).FillText(m)|)
      ensures msg == m.(payload := m.payload + old(View()).FillText(m))
      ensures View() == old(View()).Took(old(View()).FillText(m))
    {
      msg := m;
      ghost var start, taken := View(), [];
      PopNothing(input.View());
      hide Flat;
      hide NoEmptyChunk;
      hide DropBytes;
      hide StreamState.Pop;
      while true
        invariant input.Valid() && View().FillEnds(msg)
        invariant |taken| <= start.input.Buffered() && start.input.CanPop(|taken|) && View() == start.Took(taken)
        invariant msg == m.(payload := m.payload + taken)
        invariant start.FillText(m) == taken + View().FillText(msg)
        decreases input.View().Buffered()
      {
        ghost var s := View();
        var done, curStr := NextChunk(msg);
        if done {
          break;
        }
        FillStep(start, s, taken, m, msg);
        hide SenderState.NextBytes;
        hide SenderState.FillDone;
        hide SenderState.FillText;
        msg := msg.(payload := msg.payload + curStr);
        input.Pop(|curStr|);
        taken := taken + curStr;
      }
      assert View().FillText(msg) == [];
      assert taken + [] == taken;
    }

    /** Whether the segment is complete, and if not the bytes to take next. */
    method NextChunk(msg: SenderMessage) returns (done: bool, curStr: seq<byte>)
      requires input.Valid()
      ensures done == View().FillDone(msg)
      ensures !done ==> curStr == View().NextBytes(msg)
    {
      hide Flat;
      if msg.Length() + bytesInQueue >= curWinSize || input.BytesBuffered() == 0
         || |msg.payload| == MAX_PAYLOAD_SIZE
      {
        if curWinSize != 0 {
          return true, [];
        }
      }
      if curWinSize == 0 && msg.Length() == 1 {
        return true, [];
      }
      var bytesRemaining: nat;
      if curWinSize == 0 {
        if |msgQueue| == 0 {
          bytesRemaining := 1;
        } else {
          return true, [];
        }
      } else {
        bytesRemaining := curWinSize - (msg.Length() + bytesInQueue);
        if bytesRemaining > MAX_PAYLOAD_SIZE {
          bytesRemaining := MAX_PAYLOAD_SIZE;
        }
      }
      curStr := input.Peek();
      return false, curStr[..Min(|curStr|, bytesRemaining)];
    }

    /** With segments outstanding the C++ dereferences the acknowledgment number. */
    method Receive(msg: ReceiverMessage)
      requires Valid() && (msgQueue != [] ==> msg.ackno.Some?)
      modifies this, input`error
      ensures Valid() && View() == old(View()).Receive(msg)
    {
      ghost var start := View();
      ReceiveValid(start, msg);
      curWinSize := msg.window;
      if msg.window == 0 {
        winAdvertisedZero := true;
      } else {
        winAdvertisedZero := false;
      }
      if msg.RST {
        input.SetError();
      }
      hide SenderState.DropAcknowledged;
      hide Flat;
      DropAcknowledged(msg);
    }

    /** The loop over the queue; the acknowledgment number is read only inside it. */
    method DropAcknowledged(msg: ReceiverMessage)
      requires input.Valid() && (msgQueue != [] ==> msg.ackno.Some?)
      modifies this`finReceived, this`bytesInQueue, this`consecRetransmissions, this`timeSinceLastSend, this`msgQueue
      ensures input.Valid()
      ensures View() == if old(msgQueue) == [] then old(View()) else old(View()).DropAcknowledged(msg.ackno.value)
    {
      hide Wrap32.Unwrap;
      hide Flat;
      hide NoEmptyChunk;
      hide SenderState.DropFront;
      ghost var start := View();
      while true
        invariant input.Valid()
        invariant msgQueue != [] ==> start.queue != []
        invariant start.queue == [] ==> View() == start
        invariant start.queue != [] ==>
                    View().DropAcknowledged(msg.ackno.value) == start.DropAcknowledged(msg.ackno.value)
        decreases |msgQueue|
      {
        if |msgQueue| == 0 {
          break;
        }
        var curMsg := msgQueue[0];
        var checkpoint := input.BytesPushed() % TWO_64;
        var curSeqno := curMsg.seqno.Unwrap(isn, checkpoint);
        var nextSeqno := msg.ackno.value.Unwrap(isn, checkpoint);
        if (curSeqno + curMsg.Length()) % TWO_64 == nextSeqno || (curSeqno + bytesInQueue) % TWO_64 == nextSeqno {
          DropFront();
        } else {
          break;
        }
      }
    }

    method DropFront()
      requires input.Valid() && msgQueue != []
      modifies this`finReceived, this`bytesInQueue, this`consecRetransmissions, this`timeSinceLastSend, this`msgQueue
      ensures input.Valid() && View() == old(View()).DropFront() && msgQueue == old(msgQueue)[1..]
    {
      var curMsg := msgQueue[0];
      if curMsg.FIN {
        finReceived := true;
      }
      bytesInQueue := (bytesInQueue - curMsg.Length()) % TWO_64;
      consecRetransmissions := 0;
      timeSinceLastSend := 0;
      msgQueue := msgQueue[1..];
    }

    method Tick(ms: nat) returns (sent: seq<SenderMessage>)
      requires Valid()
      modifies this`timeSinceLastSend, this`consecRetransmissions
      ensures Valid() && View() == old(View()).Tick(ms)
      ensures sent == old(View()).Retransmitted(ms)
    {
      sent := [];
      if |msgQueue| == 0 {
        return;
      }
      timeSinceLastSend := timeSinceLastSend + ms;
      if timeSinceLastSend >= initialRto * Pow2(consecRetransmissions) {
        timeSinceLastSend := 0;
        sent := [msgQueue[0]];
        if !winAdvertisedZero {
          consecRetransmissions := consecRetransmissions + 1;
        }
      }
    }

    function MakeEmptyMessage(): (msg: SenderMessage)
      requires Valid()
      reads this, input
      ensures msg == View().MakeEmptyMessage()
    {
      var seqno := isn.Plus(input.totalPopped).Plus(1);
      SenderMessage(if fin then seqno.Plus(1) else seqno, false, [], false, input.error)
    }
  }

  lemma {:induction false} TotalLengthCons(m: SenderMessage, queue: seq<SenderMessage>)
    ensures TotalLength([m] + queue) == m.Length() + TotalLength(queue)
  {
    var all := [m] + queue;
    if queue == [] {
      assert all[..0] == [];
    } else {
      var n := |queue| - 1;
      assert all[..|all| - 1] == [m] + queue[..n];
      TotalLengthCons(m, queue[..n]);
    }
  }

  /** Dropping the oldest segment keeps the count of outstanding sequence numbers exact; the
      64-bit subtraction never wraps. */
  lemma DropFrontValid(s: SenderState)
    requires s.Valid() && s.queue != []
    ensures s.DropFront().Valid()
    ensures s.DropFront().inFlight == s.inFlight - s.queue[0].Length()
  {
    assert s.queue == [s.queue[0]] + s.queue[1..];
    TotalLengthCons(s.queue[0], s.queue[1..]);
    assert s.queue[0].FIN ==> s.fin;
    assert forall i :: 0 <= i < |s.queue[1..]| ==> s.queue[1..][i] == s.queue[i + 1];
    hide TotalLength;
    hide Flat;
  }

  lemma {:induction false} DropAcknowledgedValid(s: SenderState, ackno: Wrap32)
    requires s.Valid()
    ensures s.DropAcknowledged(ackno).Valid()
    decreases |s.queue|
  {
    if s.queue != [] && s.Acknowledges(ackno) {
      DropFrontValid(s);
      DropAcknowledgedValid(s.DropFront(), ackno);
    }
  }

  lemma ReceiveValid(s: SenderState, msg: ReceiverMessage)
    requires s.Valid() && (s.queue != [] ==> msg.ackno.Some?)
    ensures s.Receive(msg).Valid()
  {
    if s.queue != [] {
      DropAcknowledgedValid(s.NoteWindow(msg), msg.ackno.value);
    }
  }

  lemma TookTwice(s: SenderState, a: seq<byte>, b: seq<byte>)
    requires |a| + |b| <= s.input.Buffered()
    ensures s.input.CanPop(|a|) && s.Took(a).input.CanPop(|b|) && s.input.CanPop(|a + b|)
    ensures s.Took(a).Took(b) == s.Took(a + b)
    ensures s.Took(a).input.Buffered() == s.input.Buffered() - |a|
  {
    PopTwice(s.input, |a|, |b|);
    PopRefinesQueue(s.input, |a|);
    hide NoEmptyChunk;
    hide DropBytes;
  }

  /** One pass of the inner loop, seen from where the loop began with segment `m0`. */
  lemma FillStep(start: SenderState, s: SenderState, taken: seq<byte>, m0: SenderMessage, m: SenderMessage)
    requires s.FillEnds(m) && !s.FillDone(m) && m == m0.(payload := m0.payload + taken)
    requires |taken| <= start.input.Buffered() && start.input.CanPop(|taken|) && s == start.Took(taken)
    requires start.FillEnds(m0) && start.FillText(m0) == taken + s.FillText(m)
    ensures var next := s.NextBytes(m);
            var m' := m.(payload := m.payload + next);
            && s.input.CanPop(|next|) && |taken + next| <= start.input.Buffered()
            && s.Took(next) == start.Took(taken + next)
            && s.Took(next).FillEnds(m') && m' == m0.(payload := m0.payload + (taken + next))
            && start.FillText(m0) == taken + next + s.Took(next).FillText(m')
            && s.Took(next).input.Buffered() < s.input.Buffered()
  {
    hide Flat;
    hide NoEmptyChunk;
    hide DropBytes;
    hide StreamState.Pop;
    hide StreamState.Peek;
    var next := s.NextBytes(m);
    TookTwice(start, taken, []);
    NextBytesFront(s, m);
    FillTextStep(s, m);
    hide SenderState.NextBytes;
    hide SenderState.FillText;
    hide SenderState.FillDone;
    hide SenderState.FillEnds;
    hide SenderState.BytesRemaining;
    TookTwice(start, taken, next);
    TookTwice(s, next, []);
    hide SenderState.Took;
    ConcatAssoc(taken, next, s.Took(next).FillText(m.(payload := m.payload + next)));
    ConcatAssoc(m0.payload, taken, next);
  }
}
