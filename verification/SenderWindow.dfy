/** What each push sends: through a zero window exactly, and through any window in full segments. */
module SenderWindow {
  import opened Bytes
  import opened WrappingIntegers
  import ByteStreams
  import opened Messages
  import opened TcpSenders
  import opened SenderProofs

  // ---------- Through a zero window ----------

  /** The one segment that may go through a zero window: the SYN; then the next byte if nothing is
      outstanding, as the probe of section 3.8.6.1 of RFC 9293; then the FIN. */
  function Probe(s: SenderState): seq<SenderMessage> {
    var seqno := s.isn.Plus(s.Popped() + Bit(s.synSent));
    if !s.synSent then [SenderMessage(seqno, true, [], false, s.input.error)]
    else if s.input.Buffered() > 0 then
      if s.queue == [] then [SenderMessage(seqno, false, Flat(s.input.deck)[..1], false, s.input.error)] else []
    else if s.input.closed && !s.fin then [SenderMessage(seqno, false, [], true, s.input.error)]
    else []
  }

  lemma ZeroRound(s: SenderState)
    requires s.Valid() && !s.Hangs() && s.win == 0
    ensures Probe(s) == [] ==> s.NextRound().Stop?
    ensures Probe(s) != [] ==> s.NextRound().Sent? && s.NextRound().msg == Probe(s)[0]
  {
    RoundShape(s);
    FlatEmpty(s.input.deck);
    if !s.Idle() {
      RoundFills(s);
      var text := s.Opened().FillText(s.Opening());
      FillTakes(s.Opened(), s.Opening());
      PlusPlus(s.isn, s.Popped(), 1);
      hide SenderState.FillText;
      hide SenderState.NextRound;
      hide SenderState.Took;
      hide TotalLength;
    }
    hide Flat;
    hide NoEmptyChunk;
    hide SenderState.FillText;
    hide Wrap32.Plus;
    hide TotalLength;
  }

  /** The state a probe leaves behind. */
  predicate Probed(s: SenderState, s': SenderState) {
    && s' == s.(input := s'.input, queue := s.queue + Probe(s), inFlight := s.inFlight + TotalLength(Probe(s)),
                synSent := true, fin := s.fin || s.input.Finished(), finQueued := s.fin || s.input.Finished())
    && s'.input == s.input.(popped := s.input.popped + Payloads(Probe(s)), deck := s'.input.deck)
    && s'.input.Pushed() == s.input.Pushed()
  }

  /** A push through a zero window, from any state: exactly the probe goes out, its payload leaves the
      input, and a finished input has its FIN queued. */
  lemma ZeroWindowPush(s: SenderState)
    requires s.Valid() && !s.Hangs() && s.win == 0
    ensures var (s', sent) := s.Push();
            sent == Probe(s) && Probed(s, s')
    ensures |Payloads(s.Push().1)| == Bit(s.synSent && s.queue == [] && s.input.Buffered() > 0)
    ensures Payloads(s.Push().1) <= Flat(s.input.deck)
  {
    OneSegment(s);
    ZeroPushRounds(s);
    if Probe(s) == [] {
      assert s.queue + [] == s.queue && s.input.popped + [] == s.input.popped;
    } else {
      ProbeSent(s, s.NextRound().state, Probe(s)[0]);
    }
    FlatEmpty(s.input.deck);
    hide SenderState.NextRound;
    hide SenderState.Push;
    hide Flat;
    hide TotalLength;
    hide Payloads;
    hide SentOne;
    hide Wrap32.Plus;
  }

  /** One round at most sends. */
  lemma ZeroPushRounds(s: SenderState)
    requires s.Valid() && !s.Hangs() && s.win == 0
    ensures Probe(s) == [] ==> s.Push() == (s, [])
    ensures Probe(s) != [] ==> s.Push() == (s.NextRound().state, Probe(s)) && SentOne(s, s.NextRound().state, Probe(s)[0])
  {
    ZeroRound(s);
    PushUnfold(s);
    if s.NextRound().Sent? {
      var Sent(s', m, again) := s.NextRound();
      if again {
        SecondRound(s);
        ZeroRound(s');
        PushUnfold(s');
        assert [m] + [] == [m];
      }
      assert |Probe(s)| == 1;
    }
    hide *;
  }

  lemma ProbeSent(s: SenderState, s': SenderState, m: SenderMessage)
    requires s.Valid() && !s.Hangs() && s.win == 0 && Probe(s) == [m] && SentOne(s, s', m)
    requires Payloads([m]) == m.payload && TotalLength([m]) == m.Length()
    ensures Probed(s, s')
  {
    FlatEmpty(s.input.deck);
    hide Flat;
    hide TotalLength;
    hide Payloads;
    hide Wrap32.Plus;
  }

  lemma OneSegment(s: SenderState)
    ensures Payloads([]) == [] && TotalLength([]) == 0
    ensures Probe(s) != [] ==> Payloads(Probe(s)) == Probe(s)[0].payload && TotalLength(Probe(s)) == Probe(s)[0].Length()
  {
    hide Wrap32.Plus;
    hide Flat;
    if Probe(s) != [] {
      var m := Probe(s)[0];
      assert [m][..0] == [];
    }
  }

  /** After a probe nothing more may go. */
  lemma SecondRound(s: SenderState)
    requires s.Valid() && !s.Hangs() && s.win == 0 && s.NextRound().Sent? && s.NextRound().again
    ensures Probe(s.NextRound().state) == []
  {
    RoundShape(s);
    hide SenderState.NextRound;
    hide Flat;
    hide TotalLength;
    hide Wrap32.Plus;
  }

  // ---------- Flags and full segments ----------

  /** What one push marks its segments with: the error of the stream on each, the SYN on the first
      ever, the FIN on the last; and under a nonzero window only the last may be short. */
  predicate Marked(s: SenderState, sent: seq<SenderMessage>) {
    && (forall k :: 0 <= k < |sent| ==> sent[k].RST == s.input.error)
    && (forall k :: 0 <= k < |sent| ==> (sent[k].SYN <==> k == 0 && !s.synSent))
    && (forall k :: 0 <= k < |sent| - 1 ==> !sent[k].FIN)
    && (s.win != 0 ==> forall k :: 0 <= k < |sent| - 1 ==> |sent[k].payload| >= 1000)
  }

  lemma RoundMarks(s: SenderState)
    requires s.Valid() && !s.Hangs() && s.NextRound().Sent?
    ensures var Sent(s', m, again) := s.NextRound();
            m.RST == s.input.error && (again && s.win != 0 ==> |m.payload| >= 1000)
  {
    RoundShape(s);
    RoundFills(s);
    var text := s.Opened().FillText(s.Opening());
    hide Flat;
    hide NoEmptyChunk;
    hide SenderState.FillText;
    hide SenderState.NextRound;
    hide SenderState.Took;
    hide Wrap32.Plus;
    hide TotalLength;
  }

  /** A push opens the connection if it was not open, and marks and fills its segments. */
  lemma {:induction false} PushMarks(s: SenderState)
    requires s.Valid() && !s.Hangs()
    ensures var (s', sent) := s.Push();
            && Marked(s, sent)
            && s'.synSent && (!s.synSent ==> sent != [])
            && s'.input.error == s.input.error
            && s'.win == s.win && s'.winZero == s.winZero && s'.rto == s.rto && s'.isn == s.isn
    decreases Bit(!s.synSent), s.input.Buffered()
  {
    hide Flat;
    hide TotalLength;
    hide SenderState.Valid;
    PushUnfold(s);
    RoundShape(s);
    if s.NextRound().Stop? {
      StopsOpen(s);
    } else {
      RoundMarks(s);
      var Sent(s', m, again) := s.NextRound();
      if again {
        PushMarks(s');
        MarkedCons(s, s', m, s'.Push().1);
      }
    }
    hide SenderState.NextRound;
    hide SenderState.Push;
    hide Wrap32.Plus;
  }

  lemma StopsOpen(s: SenderState)
    requires s.Valid() && !s.Hangs() && s.NextRound().Stop?
    ensures s.synSent
  {
    RoundShape(s);
    if !s.Idle() {
      RoundFills(s);
    }
    hide Flat;
    hide NoEmptyChunk;
    hide SenderState.FillText;
    hide Wrap32.Plus;
    hide TotalLength;
  }

  lemma MarkedCons(s: SenderState, s': SenderState, m: SenderMessage, rest: seq<SenderMessage>)
    requires Marked(s', rest) && s'.synSent && s'.input.error == s.input.error && s'.win == s.win
    requires m.RST == s.input.error && m.SYN == !s.synSent && !m.FIN
    requires s.win != 0 ==> |m.payload| >= 1000
    ensures Marked(s, [m] + rest)
  {
    var sent := [m] + rest;
    assert forall k :: 0 < k < |sent| ==> sent[k] == rest[k - 1];
  }

  // ---------- What a sender has heard ----------

  /** The window of the last acknowledgment among the first `n` events; zero before any. */
  function Advertised(es: seq<Event>, n: nat): u16
    requires n <= |es|
  {
    if n == 0 then 0 else if es[n - 1].Ack? then es[n - 1].msg.window else Advertised(es, n - 1)
  }

  /** The last acknowledgment had a zero window; before any there has been none. */
  predicate ZeroHeard(es: seq<Event>, n: nat)
    requires n <= |es|
  {
    n > 0 && if es[n - 1].Ack? then es[n - 1].msg.window == 0 else ZeroHeard(es, n - 1)
  }

  /** The application or the peer has reset the stream. */
  predicate ErrorHeard(es: seq<Event>, n: nat)
    requires n <= |es|
  {
    exists k :: 0 <= k < n && (es[k].SetError? || (es[k].Ack? && es[k].msg.RST))
  }

  lemma {:induction false} DropKeepsHeard(s: SenderState, a: Wrap32)
    ensures var s' := s.DropAcknowledged(a);
            s' == s.(finReceived := s'.finReceived, inFlight := s'.inFlight, retx := s'.retx, timer := s'.timer,
                     queue := s'.queue)
    decreases |s.queue|
  {
    hide SenderState.Acknowledges;
    if s.queue != [] && s.Acknowledges(a) {
      DropKeepsHeard(s.DropFront(), a);
    }
  }

  /** An acknowledgment replaces the window, whatever it was before, and an RST is an error. */
  lemma StepHeard(h: History, e: Event)
    requires Enabled(h.s, e)
    ensures var s, s' := h.s, Step(h, e).s;
            && s'.win == (if e.Ack? then e.msg.window else s.win)
            && s'.winZero == (if e.Ack? then e.msg.window == 0 else s.winZero)
            && s'.input.error == (s.input.error || e.SetError? || (e.Ack? && e.msg.RST))
            && s'.rto == s.rto && s'.isn == s.isn
  {
    match e
    case Write(data) => ByteStreams.PushRefinesQueue(h.s.input, data);
    case Close =>
    case SetError =>
    case PushOut =>
      PushMarks(h.s);
      hide SenderState.Push;
    case Ack(msg) =>
      if h.s.queue != [] {
        DropKeepsHeard(h.s.NoteWindow(msg), msg.ackno.value);
      }
      hide SenderState.DropAcknowledged;
    case Pass(ms) =>
    hide Flat;
    hide NoEmptyChunk;
    hide SenderState.Valid;
    hide Marked;
  }

  /** In every run the window a sender believes in is the one last advertised, larger or smaller
      than before, and its error flag is what it has heard. */
  lemma {:induction false} EveryWindowHeard(hs: seq<History>, es: seq<Event>, i: nat)
    requires IsRun(hs, es) && i <= |es|
    ensures hs[i].s.win == Advertised(es, i)
    ensures hs[i].s.winZero == ZeroHeard(es, i)
    ensures hs[i].s.input.error == (hs[0].s.input.error || ErrorHeard(es, i))
    ensures hs[i].s.rto == hs[0].s.rto && hs[i].s.isn == hs[0].s.isn
  {
    hide Step;
    if i > 0 {
      EveryWindowHeard(hs, es, i - 1);
      assert Enabled(hs[i - 1].s, es[i - 1]) && hs[i] == Step(hs[i - 1], es[i - 1]);
      StepHeard(hs[i - 1], es[i - 1]);
      ErrorStep(es, i);
    }
    hide ErrorHeard;
  }

  lemma ErrorStep(es: seq<Event>, n: nat)
    requires 0 < n <= |es|
    ensures ErrorHeard(es, n) <==>
              ErrorHeard(es, n - 1) || es[n - 1].SetError? || (es[n - 1].Ack? && es[n - 1].msg.RST)
  {
  }

  /** Every push of every run under the window last advertised: a nonzero one limits what is
      outstanding and leaves no work behind, a zero one lets exactly the probe through; and each
      segment carries an RST exactly if an error has been heard. */
  lemma EveryPushInRun(hs: seq<History>, es: seq<Event>, i: nat)
    requires IsRun(hs, es) && i < |es| && es[i].PushOut?
    ensures var s, s', w := hs[i].s, hs[i + 1].s, Advertised(es, i);
            && s.Valid() && !s.Hangs() && s'.queue == s.queue + s.Push().1
            && hs[i + 1].log == hs[i].log + s.Push().1
            && (w != 0 ==> s'.inFlight <= Max(s.inFlight, w))
            && (w != 0 ==> s'.input.Buffered() == 0 || s'.inFlight >= w)
            && (w != 0 && s'.input.Finished() && s'.inFlight < w ==> s'.fin)
            && (w == 0 ==> s.Push().1 == Probe(s) && Probed(s, s'))
    ensures Marked(hs[i].s, hs[i].s.Push().1)
    ensures forall m :: m in hs[i].s.Push().1 ==> m.RST == (hs[0].s.input.error || ErrorHeard(es, i))
  {
    EveryWindowHeard(hs, es, i);
    var s := hs[i].s;
    assert Enabled(s, es[i]) && hs[i + 1] == Step(hs[i], es[i]);
    PushKeepsWindow(s);
    PushMarks(s);
    if s.win == 0 {
      ZeroWindowPush(s);
    }
    hide SenderState.Push;
    hide Payloads;
    hide TotalLength;
    hide Flat;
    hide Probe;
    hide Probed;
    hide ErrorHeard;
    hide Advertised;
  }
}
