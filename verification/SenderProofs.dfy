/** Whole runs of the sender: conservation, contiguity, acknowledgment, window and backoff. */
module SenderProofs {
  import opened Bytes
  import opened WrappingIntegers
  import ByteStreams
  import opened Messages
  import opened TcpSenders

  /** The payloads of a list of segments, one after the other. */
  function Payloads(log: seq<SenderMessage>): seq<byte> {
    if log == [] then [] else Payloads(log[..|log| - 1]) + log[|log| - 1].payload
  }

  // ---------- What every run keeps ----------

  /** Segment `k` of the log is stamped with the offset of its first byte; only the first one
      carries the SYN, which takes the number before that of the first byte. */
  predicate Stamped(s: SenderState, log: seq<SenderMessage>, k: nat)
    requires k < |log|
  {
    && log[k].seqno == s.isn.Plus(|Payloads(log[..k])| + Bit(!log[k].SYN))
    && (log[k].SYN <==> k == 0)
    && (log[k].FIN ==> s.fin)
  }

  /** `queue` is the last part of `log`. */
  predicate IsTail(queue: seq<SenderMessage>, log: seq<SenderMessage>)
    requires |queue| <= |log|
  {
    forall i :: 0 <= i < |queue| ==> queue[i] == log[|log| - |queue| + i]
  }

  /** `log` holds every first transmission: its payloads are exactly the bytes taken from the
      input, and what is still outstanding is its tail. */
  predicate Logged(s: SenderState, log: seq<SenderMessage>) {
    && s.Valid()
    && |s.queue| <= |log| && IsTail(s.queue, log)
    && Payloads(log) == s.input.popped
    && (s.synSent <==> log != [])
    && (s.fin ==> exists k :: 0 <= k < |log| && log[k].FIN)
    && (forall k :: 0 <= k < |log| ==> Stamped(s, log, k))
  }

  lemma LoggedValid(s: SenderState, log: seq<SenderMessage>)
    requires Logged(s, log)
    ensures s.Valid()
  {
  }

  lemma LoggedStamps(s: SenderState, log: seq<SenderMessage>, k: nat)
    requires Logged(s, log) && k < |log|
    ensures Stamped(s, log, k) && Payloads(log) == s.input.popped
  {
    hide Stamped;
    hide Payloads;
    hide SenderState.Valid;
  }

  lemma LoggedIsConserved(s: SenderState, log: seq<SenderMessage>)
    requires Logged(s, log)
    ensures Payloads(log) == s.input.popped <= s.input.Pushed()
    ensures s.inFlight <= 0x1_0000 && (s.queue == [] ==> s.timer == 0 && s.retx == 0)
  {
    hide Stamped;
    hide Payloads;
    hide TotalLength;
    hide Flat;
  }

  lemma PayloadsSnoc(log: seq<SenderMessage>, m: SenderMessage)
    ensures Payloads(log + [m]) == Payloads(log) + m.payload
  {
    assert (log + [m])[..|log|] == log;
  }

  /** The log does not depend on window, timers and unread input. */
  predicate SameSending(s: SenderState, s': SenderState) {
    && s'.isn == s.isn && s'.queue == s.queue && s'.input.popped == s.input.popped
    && s'.synSent == s.synSent && s'.fin == s.fin
  }

  lemma SameStamp(s: SenderState, s': SenderState, log: seq<SenderMessage>, k: nat)
    requires k < |log| && Stamped(s, log, k) && SameSending(s, s')
    ensures Stamped(s', log, k)
  {
    hide Payloads;
    hide Wrap32.Plus;
  }

  lemma SameLog(s: SenderState, s': SenderState, log: seq<SenderMessage>)
    requires Logged(s, log) && s'.Valid() && SameSending(s, s')
    ensures Logged(s', log)
  {
    hide Stamped;
    hide Payloads;
    hide SenderState.Valid;
    forall k | 0 <= k < |log|
      ensures Stamped(s', log, k)
    {
      SameStamp(s, s', log, k);
    }
  }

  lemma SentOneLogged(s: SenderState, s': SenderState, m: SenderMessage, log: seq<SenderMessage>)
    requires Logged(s, log) && SentOne(s, s', m) && s'.Valid()
    ensures Logged(s', log + [m])
  {
    PayloadsSnoc(log, m);
    var log' := log + [m];
    assert IsTail(s'.queue, log');
    assert s'.fin ==> s.fin || log'[|log|].FIN;
    assert s.fin ==> exists k :: 0 <= k < |log| && log'[k].FIN by {
      if s.fin {
        var k :| 0 <= k < |log| && log[k].FIN;
        assert log'[k].FIN;
      }
    }
    SentOneStamped(s, s', m, log);
    hide Stamped;
    hide Payloads;
    hide TotalLength;
    hide Flat;
    hide SenderState.Valid;
  }

  lemma SentOneStamped(s: SenderState, s': SenderState, m: SenderMessage, log: seq<SenderMessage>)
    requires Logged(s, log) && SentOne(s, s', m)
    ensures forall k :: 0 <= k <= |log| ==> Stamped(s', log + [m], k)
  {
    hide SenderState.Valid;
    hide Payloads;
    hide TotalLength;
    hide Flat;
    hide Wrap32.Plus;
    var log' := log + [m];
    forall k | 0 <= k <= |log|
      ensures Stamped(s', log', k)
    {
      if k < |log| {
        assert Stamped(s, log, k);
        assert log'[..k] == log[..k];
      } else {
        assert log'[..k] == log;
      }
    }
  }

  /** One call of push: every byte taken sits in exactly one new segment, in order. */
  lemma {:induction false} PushLogged(s: SenderState, log: seq<SenderMessage>)
    requires Logged(s, log) && !s.Hangs()
    ensures var (s', sent) := s.Push();
            Logged(s', log + sent)
    decreases !s.synSent, s.input.Buffered()
  {
    hide *;
    LoggedValid(s, log);
    PushUnfold(s);
    if s.NextRound().Stop? {
      assert log + [] == log;
    } else {
      var Sent(s', m, again) := s.NextRound();
      SentOneLogged(s, s', m, log);
      if again {
        PushLogged(s', log + [m]);
        ConcatAssoc(log, [m], s'.Push().1);
      }
    }
  }

  /** Once the FIN is out it stays out. */
  lemma FinStays(s: SenderState, log: seq<SenderMessage>, s': SenderState, log': seq<SenderMessage>)
    requires Logged(s, log) && Logged(s', log') && |log| <= |log'| && log == log'[..|log|]
    ensures s.fin ==> s'.fin && s.input.closed
    ensures forall m :: m in log' && m.FIN ==> s'.fin
  {
    hide Payloads;
    hide TotalLength;
    hide Flat;
    hide IsTail;
    forall k | 0 <= k < |log'|
      ensures log'[k].FIN ==> s'.fin
    {
      assert Stamped(s', log', k);
    }
    hide Stamped;
    if s.fin {
      var k :| 0 <= k < |log| && log[k].FIN;
      assert log'[k].FIN;
    }
  }

  // ---------- Contiguity ----------

  /** Every segment ever sent uses a number, and a FIN can only be on the last one. */
  predicate Tight(log: seq<SenderMessage>) {
    forall k :: 0 <= k < |log| ==> log[k].Length() > 0 && (log[k].FIN ==> k == |log| - 1)
  }

  predicate Contiguous(s: SenderState, log: seq<SenderMessage>) {
    && Logged(s, log)
    && Tight(log)
    && (s.fin ==> log != [] && log[|log| - 1].FIN)
  }

  lemma TightSnoc(log: seq<SenderMessage>, m: SenderMessage)
    requires Tight(log) && m.Length() > 0
    requires forall k :: 0 <= k < |log| ==> !log[k].FIN
    ensures Tight(log + [m])
  {
  }

  /** Before the FIN a round extends the tiling. */
  lemma SentOneContiguous(s: SenderState, s': SenderState, m: SenderMessage, log: seq<SenderMessage>)
    requires Contiguous(s, log) && SentOne(s, s', m) && s'.Valid() && !s.fin
    ensures Contiguous(s', log + [m])
  {
    SentOneLogged(s, s', m, log);
    NoFinInLog(s, log);
    TightSnoc(log, m);
    hide Tight;
    hide Logged;
    hide TotalLength;
    hide Flat;
  }

  lemma NoFinInLog(s: SenderState, log: seq<SenderMessage>)
    requires Logged(s, log) && !s.fin
    ensures forall k :: 0 <= k < |log| ==> !log[k].FIN
  {
    forall k | 0 <= k < |log|
      ensures !log[k].FIN
    {
      assert Stamped(s, log, k);
    }
    hide Payloads;
    hide TotalLength;
    hide Flat;
  }

  lemma {:induction false} PushContiguousBeforeFin(s: SenderState, log: seq<SenderMessage>)
    requires Contiguous(s, log) && !s.Hangs() && !s.fin
    ensures var (s', sent) := s.Push();
            Contiguous(s', log + sent)
    decreases !s.synSent, s.input.Buffered()
  {
    hide *;
    ContiguousValid(s, log);
    PushUnfold(s);
    if s.NextRound().Stop? {
      assert log + [] == log;
    } else {
      var Sent(s', m, again) := s.NextRound();
      SentOneContiguous(s, s', m, log);
      if again {
        PushContiguousBeforeFin(s', log + [m]);
        ConcatAssoc(log, [m], s'.Push().1);
      }
    }
  }

  /** Once the FIN is queued nothing is sent, except from the stuck state. */
  lemma FinSendsNothing(s: SenderState)
    requires s.Valid() && !s.Hangs() && s.fin && !Stuck(s)
    ensures s.NextRound().Stop?
  {
    RoundShape(s);
  }

  lemma StuckSendsEmpty(s: SenderState)
    requires s.Valid() && Stuck(s)
    ensures !s.Hangs() && s.NextRound().Sent? && s.NextRound().msg.Length() == 0 && !s.NextRound().again
  {
    FlatEmpty(s.input.deck);
    RoundFills(s);
    RoundShape(s);
    hide Flat;
    hide NoEmptyChunk;
  }

  /** Exactly which calls of push keep the tiling: all but one with the FIN outstanding and the
      nonzero window exactly full. */
  lemma PushContiguousExactly(s: SenderState, log: seq<SenderMessage>)
    requires Contiguous(s, log) && !s.Hangs()
    ensures var (s', sent) := s.Push();
            Contiguous(s', log + sent) <==> !Stuck(s)
  {
    if Stuck(s) {
      StuckSendsEmpty(s);
      RoundShape(s);
      var m := s.NextRound().msg;
      assert s.Push().1 == [m];
      assert (log + [m])[|log|] == m;
    } else if s.fin {
      FinSendsNothing(s);
      RoundShape(s);
      assert log + [] == log;
    } else {
      PushContiguousBeforeFin(s, log);
    }
    hide SenderState.NextRound;
    hide Logged;
    hide SentOne;
    hide TotalLength;
    hide Flat;
  }

  /** Sequence lengths are payload bytes, plus one for the SYN and one for the FIN. */
  lemma {:induction false} LengthIsPayload(s: SenderState, log: seq<SenderMessage>, k: nat)
    requires Contiguous(s, log) && k <= |log|
    ensures TotalLength(log[..k]) == |Payloads(log[..k])| + Bit(k > 0) + Bit(k > 0 && k == |log| && s.fin)
  {
    if k > 0 {
      var part := log[..k];
      assert part[..k - 1] == log[..k - 1];
      assert part[k - 1] == log[k - 1];
      assert Stamped(s, log, k - 1);
      LengthIsPayload(s, log, k - 1);
      assert log[k - 1].FIN <==> k == |log| && s.fin;
      hide Flat;
      hide Wrap32.Plus;
    }
  }

  /** The segments tile the sequence space from the initial number on, without a gap. */
  lemma SegmentsTile(s: SenderState, log: seq<SenderMessage>, k: nat)
    requires Contiguous(s, log) && k < |log|
    ensures log[k].seqno == s.isn.Plus(TotalLength(log[..k]))
  {
    LengthIsPayload(s, log, k);
    assert Stamped(s, log, k);
    hide Wrap32.Plus;
    hide Logged;
    hide TotalLength;
    hide Payloads;
  }

  /** The end of the tiling is the number an empty message would carry. */
  lemma TilingEnd(s: SenderState, log: seq<SenderMessage>)
    requires Contiguous(s, log) && log != []
    ensures TotalLength(log) == s.Popped() + 1 + Bit(s.fin)
    ensures s.MakeEmptyMessage().seqno == s.isn.Plus(TotalLength(log)) && s.MakeEmptyMessage().Length() == 0
  {
    hide Wrap32.Plus;
    hide Logged;
    hide Stamped;
    hide TotalLength;
    hide Payloads;
    LengthIsPayload(s, log, |log|);
    assert log[..|log|] == log;
    LoggedStamps(s, log, 0);
    PlusPlus(s.isn, s.Popped(), 1);
    PlusPlus(s.isn, s.Popped() + 1, 1);
  }

  /** The first outstanding segment starts where everything before it ends. */
  function FrontStart(s: SenderState, log: seq<SenderMessage>): nat
    requires |s.queue| <= |log|
  {
    TotalLength(log[..|log| - |s.queue|])
  }

  lemma {:induction false} TotalLengthAppend(a: seq<SenderMessage>, b: seq<SenderMessage>)
    ensures TotalLength(a + b) == TotalLength(a) + TotalLength(b)
  {
    if b == [] {
      assert a + b == a;
    } else {
      assert (a + b)[..|a + b| - 1] == a + b[..|b| - 1];
      TotalLengthAppend(a, b[..|b| - 1]);
    }
  }

  lemma QueueIsTail(s: SenderState, log: seq<SenderMessage>)
    requires Logged(s, log)
    ensures |s.queue| <= |log|
    ensures log == log[..|log| - |s.queue|] + s.queue && s.inFlight == TotalLength(s.queue)
    ensures s.queue != [] ==> s.queue[0] == log[|log| - |s.queue|]
  {
    hide Stamped;
    hide Payloads;
    hide TotalLength;
  }

  /** `bytes_in_queue_` is the distance from the first outstanding number to the next one. */
  lemma InFlightIsDistance(s: SenderState, log: seq<SenderMessage>)
    requires Contiguous(s, log)
    ensures TotalLength(log) == FrontStart(s, log) + s.inFlight
    ensures s.queue != [] ==> s.queue[0].seqno == s.isn.Plus(FrontStart(s, log))
    ensures s.queue != [] ==> 0 < s.queue[0].Length() <= s.inFlight
  {
    hide Logged;
    hide TotalLength;
    hide Wrap32.Plus;
    QueueIsTail(s, log);
    var d := |log| - |s.queue|;
    TotalLengthAppend(log[..d], s.queue);
    if s.queue != [] {
      SegmentsTile(s, log, d);
      assert s.queue == [s.queue[0]] + s.queue[1..];
      TotalLengthCons(s.queue[0], s.queue[1..]);
    }
  }

  // ---------- Acknowledgments ----------

  /** Everything outstanding lies within 2^31 of the bytes written, so unwrapping is exact. */
  predicate Near(s: SenderState, log: seq<SenderMessage>)
    requires |s.queue| <= |log|
  {
    |s.input.Pushed()| - FrontStart(s, log) < 0x8000_0000 && |s.input.Pushed()| + 2 < TWO_64
  }

  lemma UnwrapEquals(a: Wrap32, isn: Wrap32, c: u64, e: u64)
    requires Distance(e, c) < 0x8000_0000
    ensures a.Unwrap(isn, c) == e <==> a == isn.Plus(e)
  {
    WrapOffset(e, isn);
    UnwrapExactBlock(a, isn, c);
    UnwrapInvertsWrap(e, isn, c);
    hide Wrap32.Unwrap;
    hide Wrap32.Plus;
    hide Block;
    hide Offset;
  }

  lemma PlusInjective(w: Wrap32, x: nat, y: nat)
    requires x <= y < x + TWO_32 && w.Plus(x) == w.Plus(y)
    ensures x == y
  {
    var a, b := w.raw + x, w.raw + y;
    assert a == (a / TWO_32) * TWO_32 + a % TWO_32;
    assert b == (b / TWO_32) * TWO_32 + b % TWO_32;
  }

  lemma AckArithmetic(front: Wrap32, a: Wrap32, isn: Wrap32, c: u64, f: nat, len: nat, flight: nat)
    requires front == isn.Plus(f) && 0 < len <= flight && f + flight < TWO_64
    requires c < f + 0x8000_0000 && f + flight < c + 0x8000_0000
    ensures || (front.Unwrap(isn, c) + len) % TWO_64 == a.Unwrap(isn, c)
            || (front.Unwrap(isn, c) + flight) % TWO_64 == a.Unwrap(isn, c)
            <==> a == isn.Plus(f + len) || a == isn.Plus(f + flight)
  {
    hide Wrap32.Unwrap;
    hide Wrap32.Plus;
    UnwrapEquals(front, isn, c, f);
    UnwrapEquals(a, isn, c, f + len);
    UnwrapEquals(a, isn, c, f + flight);
    SmallWord(f + len);
    SmallWord(f + flight);
  }

  /** With exact unwrapping, the test on absolute numbers is a test on the 32-bit ones. */
  lemma AcknowledgesExactly(s: SenderState, log: seq<SenderMessage>, a: Wrap32)
    requires Contiguous(s, log) && s.queue != [] && Near(s, log)
    ensures s.Acknowledges(a) <==>
              || a == s.isn.Plus(FrontStart(s, log) + s.queue[0].Length())
              || a == s.isn.Plus(TotalLength(log))
  {
    InFlightIsDistance(s, log);
    TilingEnd(s, log);
    ContiguousValid(s, log);
    assert s.Popped() <= |s.input.Pushed()|;
    AcknowledgesInFlight(s, log, a);
  }

  /** The same with the bookkeeping reduced to four numbers. */
  lemma AcknowledgesInFlight(s: SenderState, log: seq<SenderMessage>, a: Wrap32)
    requires s.queue != [] && |s.queue| <= |log| && Near(s, log)
    requires TotalLength(log) == FrontStart(s, log) + s.inFlight == s.Popped() + 1 + Bit(s.fin)
    requires s.Popped() <= |s.input.Pushed()|
    requires s.queue[0].seqno == s.isn.Plus(FrontStart(s, log)) && 0 < s.queue[0].Length() <= s.inFlight <= 0x1_0000
    ensures s.Acknowledges(a) <==>
              || a == s.isn.Plus(FrontStart(s, log) + s.queue[0].Length())
              || a == s.isn.Plus(TotalLength(log))
  {
    hide Flat;
    hide FrontStart;
    hide TotalLength;
    hide Wrap32.Plus;
    hide Wrap32.Unwrap;
    SmallWord(|s.input.Pushed()|);
    AckArithmetic(s.queue[0].seqno, a, s.isn, |s.input.Pushed()|, FrontStart(s, log), s.queue[0].Length(), s.inFlight);
  }

  lemma DropFrontContiguous(s: SenderState, log: seq<SenderMessage>)
    requires Contiguous(s, log) && s.queue != []
    ensures Contiguous(s.DropFront(), log)
    ensures FrontStart(s.DropFront(), log) == FrontStart(s, log) + s.queue[0].Length()
    ensures s.queue[0].FIN <==> s.fin && s.DropFront().queue == []
  {
    hide Logged;
    hide TotalLength;
    hide Payloads;
    hide Flat;
    hide Wrap32.Plus;
    hide SenderState.Valid;
    DropFrontLogged(s, log);
    QueueIsTail(s, log);
    var d := |log| - |s.queue|;
    LoggedStamps(s, log, d);
    assert log[..d + 1] == log[..d] + [log[d]];
    TotalLengthSnoc(log[..d], log[d]);
  }

  lemma DropFrontLogged(s: SenderState, log: seq<SenderMessage>)
    requires Logged(s, log) && s.queue != []
    ensures Logged(s.DropFront(), log)
  {
    DropFrontValid(s);
    var s' := s.DropFront();
    assert IsTail(s'.queue, log);
    forall k | 0 <= k < |log|
      ensures Stamped(s', log, k)
    {
      assert Stamped(s, log, k);
    }
    hide TotalLength;
    hide Payloads;
    hide Flat;
    hide Wrap32.Plus;
  }

  /** The state once everything outstanding has been acknowledged. */
  function DropAll(s: SenderState): SenderState {
    s.(queue := [], inFlight := 0, retx := 0, timer := 0, finReceived := s.finReceived || s.fin)
  }

  /** The exact effect of an acknowledgment on a contiguous queue: all of it goes, exactly the
      front segment goes, or nothing changes at all.  Stale, partial and impossible numbers are
      in the last case, and so is one that ends at a middle segment. */
  lemma {:induction false} DropAcknowledgedExactly(s: SenderState, log: seq<SenderMessage>, a: Wrap32)
    requires Contiguous(s, log) && s.queue != [] && Near(s, log)
    ensures s.DropAcknowledged(a) ==
              if a == s.isn.Plus(TotalLength(log)) then DropAll(s)
              else if a == s.isn.Plus(FrontStart(s, log) + s.queue[0].Length()) then s.DropFront()
              else s
    decreases |s.queue|
  {
    hide SenderState.Acknowledges;
    hide SenderState.Absolute;
    hide Contiguous;
    hide TotalLength;
    hide FrontStart;
    hide Flat;
    hide Wrap32.Plus;
    hide Stamped;
    AcknowledgesExactly(s, log, a);
    if s.Acknowledges(a) {
      var s' := s.DropFront();
      InFlightIsDistance(s, log);
      DropFrontContiguous(s, log);
      ContiguousValid(s, log);
      ContiguousValid(s', log);
      hide SenderState.Valid;
      if s'.queue != [] {
        InFlightIsDistance(s', log);
        DropAcknowledgedExactly(s', log, a);
        if s'.isn.Plus(FrontStart(s', log)) == s'.isn.Plus(FrontStart(s', log) + s'.queue[0].Length()) {
          PlusInjective(s.isn, FrontStart(s', log), FrontStart(s', log) + s'.queue[0].Length());
        }
      }
    }
  }

  /** What is released ends exactly where the acknowledgment points. */
  lemma ReleasedUpToAck(s: SenderState, log: seq<SenderMessage>, a: Wrap32)
    requires Contiguous(s, log) && s.queue != [] && Near(s, log)
    ensures |s.DropAcknowledged(a).queue| <= |s.queue| <= |log|
    ensures |s.DropAcknowledged(a).queue| < |s.queue| ==>
              a == s.isn.Plus(TotalLength(log[..|log| - |s.DropAcknowledged(a).queue|]))
  {
    hide Near;
    hide Contiguous;
    hide SenderState.Valid;
    hide TotalLength;
    hide Wrap32.Plus;
    hide Flat;
    ContiguousValid(s, log);
    DropAcknowledgedExactly(s, log, a);
    DropFrontContiguous(s, log);
    assert log[..|log|] == log;
  }

  lemma ContiguousValid(s: SenderState, log: seq<SenderMessage>)
    requires Contiguous(s, log)
    ensures s.Valid() && |s.queue| <= |log| && s.inFlight <= 0x1_0000
    ensures s.queue == [] ==> s.inFlight == 0
  {
    assert TotalLength([]) == 0;
    hide *;
  }

  // ---------- Window ----------

  /** push and the window: a nonzero one is never exceeded by new data; a zero one lets one byte
      out at most, and only when nothing is outstanding (zero-window probing, section 3.8.6.1
      of RFC 9293); and push leaves no work it could do. */
  predicate KeepsWindow(s: SenderState, s': SenderState, sent: seq<SenderMessage>) {
    && (s.win != 0 ==> s'.inFlight <= Max(s.inFlight, s.win))
    && (s.win != 0 ==> Exhausted(s'))
    && (s.win == 0 ==> |Payloads(sent)| <= 1 && (Payloads(sent) != [] ==> s.queue == []))
    && s'.input.Pushed() == s.input.Pushed() && s'.input.popped == s.input.popped + Payloads(sent)
    && s'.win == s.win && s'.timer == s.timer && s'.retx == s.retx && s'.rto == s.rto && s'.isn == s.isn
    && s'.queue == s.queue + sent
  }

  lemma {:induction false} PayloadsCons(m: SenderMessage, log: seq<SenderMessage>)
    ensures Payloads([m] + log) == m.payload + Payloads(log)
  {
    if log == [] {
      assert [m] + log == [m] && [m][..0] == [];
    } else {
      var n := |log| - 1;
      PayloadsSnoc([m] + log[..n], log[n]);
      PayloadsSnoc(log[..n], log[n]);
      assert ([m] + log[..n]) + [log[n]] == [m] + log && log[..n] + [log[n]] == log;
      PayloadsCons(m, log[..n]);
      ConcatAssoc(m.payload, Payloads(log[..n]), log[n].payload);
      hide Payloads;
    }
  }

  lemma StopKeepsWindow(s: SenderState)
    requires s.Valid() && (s.win != 0 ==> Exhausted(s))
    ensures KeepsWindow(s, s, [])
  {
    hide Flat;
    hide TotalLength;
  }

  lemma SentKeepsWindow(s: SenderState, s': SenderState, m: SenderMessage, end: SenderState, rest: seq<SenderMessage>)
    requires SentOne(s, s', m) && KeepsWindow(s', end, rest)
    ensures KeepsWindow(s, end, [m] + rest)
  {
    PayloadsCons(m, rest);
    ConcatAssoc(s.queue, [m], rest);
    ConcatAssoc(s.input.popped, m.payload, Payloads(rest));
    hide Payloads;
    hide Flat;
    hide Exhausted;
    hide Wrap32.Plus;
  }

  lemma {:induction false} PushKeepsWindow(s: SenderState)
    requires s.Valid() && !s.Hangs()
    ensures var (s', sent) := s.Push();
            KeepsWindow(s, s', sent) && s'.Valid() && !s'.Hangs()
    decreases Bit(!s.synSent), s.input.Buffered()
  {
    hide Payloads;
    hide TotalLength;
    hide Flat;
    hide SenderState.Valid;
    PushUnfold(s);
    RoundShape(s);
    hide SenderState.NextRound;
    hide SenderState.Push;
    match s.NextRound()
    case Stop(s') =>
      StopKeepsWindow(s);
    case Sent(s', m, again) =>
      if again {
        PushKeepsWindow(s');
        SentKeepsWindow(s, s', m, s'.Push().0, s'.Push().1);
      } else {
        StopKeepsWindow(s');
        SentKeepsWindow(s, s', m, s', []);
        assert [m] + [] == [m];
      }
      hide SentOne;
      hide KeepsWindow;
      hide Exhausted;
  }

  // ---------- Runs ----------

  datatype Event =
    | Write(data: seq<byte>) | Close | SetError
    | PushOut | Ack(msg: ReceiverMessage) | Pass(ms: nat)

  /** A sender with everything it has transmitted for the first time, and the time passed
      since its queue last made progress. */
  datatype History = History(s: SenderState, log: seq<SenderMessage>, elapsed: nat)

  /** The calls a caller can make: push does not return from the hanging state, and an
      acknowledgment without a number needs an empty queue. */
  predicate Enabled(s: SenderState, e: Event) {
    && s.Valid()
    && (e.PushOut? ==> !s.Hangs())
    && (e.Ack? ==> s.queue != [] ==> e.msg.ackno.Some?)
  }

  function WithInput(s: SenderState, input: ByteStreams.Stream): SenderState {
    s.(input := input)
  }

  function Step(h: History, e: Event): History
    requires Enabled(h.s, e)
  {
    match e
    case Write(data) =>
      ByteStreams.PushRefinesQueue(h.s.input, data);
      h.(s := WithInput(h.s, h.s.input.Push(data)))
    case Close => h.(s := WithInput(h.s, h.s.input.Close()))
    case SetError => h.(s := WithInput(h.s, h.s.input.SetError()))
    case PushOut =>
      var (s, sent) := h.s.Push();
      History(s, h.log + sent, if h.s.queue == [] then 0 else h.elapsed)
    case Ack(msg) =>
      var s := h.s.Receive(msg);
      h.(s := s, elapsed := if s.queue == h.s.queue then h.elapsed else 0)
    case Pass(ms) => h.(s := h.s.Tick(ms), elapsed := if h.s.queue == [] then h.elapsed else h.elapsed + ms)
  }

  lemma InputLogged(s: SenderState, log: seq<SenderMessage>, input: ByteStreams.Stream)
    requires Logged(s, log)
    requires input.popped == s.input.popped && (s.fin ==> input.Finished())
    ensures Logged(WithInput(s, input), log)
    ensures Contiguous(s, log) ==> Contiguous(WithInput(s, input), log)
  {
    hide TotalLength;
    hide Flat;
    hide Tight;
    hide Logged;
    hide SenderState.Valid;
    LoggedValid(s, log);
    InputValid(s, input);
    SameLog(s, WithInput(s, input), log);
  }

  lemma InputValid(s: SenderState, input: ByteStreams.Stream)
    requires s.Valid() && input.popped == s.input.popped && (s.fin ==> input.Finished())
    ensures WithInput(s, input).Valid()
  {
    hide TotalLength;
    hide Flat;
  }

  lemma TimersLogged(s: SenderState, log: seq<SenderMessage>, s': SenderState)
    requires Logged(s, log) && s'.Valid()
    requires s' == s.(win := s'.win, winZero := s'.winZero, timer := s'.timer, retx := s'.retx, input := s'.input)
    requires s'.input.popped == s.input.popped
    ensures Logged(s', log)
    ensures Contiguous(s, log) ==> Contiguous(s', log)
    ensures Contiguous(s, log) && Near(s, log) && |s'.input.Pushed()| == |s.input.Pushed()| ==> Near(s', log)
  {
    hide TotalLength;
    hide Flat;
    hide Tight;
    hide SenderState.Valid;
    hide Logged;
    SameLog(s, s', log);
  }

  lemma {:induction false} DropAcknowledgedKeeps(s: SenderState, log: seq<SenderMessage>, a: Wrap32)
    requires Logged(s, log)
    ensures var s' := s.DropAcknowledged(a);
            && Logged(s', log) && (Contiguous(s, log) ==> Contiguous(s', log))
            && (s' == s || (|s'.queue| < |s.queue| && s'.timer == 0 && s'.retx == 0))
            && s'.rto == s.rto && s'.input == s.input && s'.isn == s.isn
            && |s'.queue| <= |s.queue|
    decreases |s.queue|
  {
    hide SenderState.Acknowledges;
    hide Contiguous;
    hide Logged;
    if s.queue != [] && s.Acknowledges(a) {
      DropFrontLogged(s, log);
      if Contiguous(s, log) {
        DropFrontContiguous(s, log);
      }
      DropAcknowledgedKeeps(s.DropFront(), log, a);
    }
  }

  lemma ReceiveKeeps(s: SenderState, log: seq<SenderMessage>, msg: ReceiverMessage)
    requires Logged(s, log) && (s.queue != [] ==> msg.ackno.Some?)
    ensures var s' := s.Receive(msg);
            && Logged(s', log) && (Contiguous(s, log) ==> Contiguous(s', log))
            && (s'.queue == s.queue ==> s'.timer == s.timer && s'.retx == s.retx)
            && (s'.queue != s.queue ==> s'.timer == 0 && s'.retx == 0)
            && s'.rto == s.rto && s'.input.popped == s.input.popped && s'.input.Pushed() == s.input.Pushed()
            && s'.isn == s.isn && |s'.queue| <= |s.queue|
  {
    var s1 := s.NoteWindow(msg);
    assert s1.Valid() by {
      hide TotalLength;
    }
    TimersLogged(s, log, s1);
    if s.queue != [] {
      DropAcknowledgedKeeps(s1, log, msg.ackno.value);
    }
    hide SenderState.DropAcknowledged;
    hide Contiguous;
    hide Logged;
    hide TotalLength;
    hide Flat;
    hide SenderState.Valid;
  }

  /** Time passing leaves the queue and the input alone. */
  lemma TickKeeps(s: SenderState, log: seq<SenderMessage>, ms: nat)
    requires Logged(s, log)
    ensures Logged(s.Tick(ms), log) && (Contiguous(s, log) ==> Contiguous(s.Tick(ms), log))
    ensures s.Tick(ms) == s.(timer := s.Tick(ms).timer, retx := s.Tick(ms).retx)
  {
    hide SenderState.Expires;
    hide Stamped;
    hide Payloads;
    hide TotalLength;
    hide Flat;
    TimersLogged(s, log, s.Tick(ms));
    hide Contiguous;
  }

  lemma StepLogged(h: History, e: Event)
    requires Enabled(h.s, e) && Logged(h.s, h.log)
    ensures Logged(Step(h, e).s, Step(h, e).log)
    ensures Contiguous(h.s, h.log) && (e.PushOut? ==> !Stuck(h.s)) ==> Contiguous(Step(h, e).s, Step(h, e).log)
    ensures Step(h, e).s.rto == h.s.rto
  {
    hide Stamped;
    hide Payloads;
    hide TotalLength;
    hide Flat;
    hide Tight;
    match e
    case Write(data) =>
      ByteStreams.PushRefinesQueue(h.s.input, data);
      InputLogged(h.s, h.log, h.s.input.Push(data));
    case Close => InputLogged(h.s, h.log, h.s.input.Close());
    case SetError => InputLogged(h.s, h.log, h.s.input.SetError());
    case PushOut =>
      PushLogged(h.s, h.log);
      PushKeepsWindow(h.s);
      if Contiguous(h.s, h.log) {
        PushContiguousExactly(h.s, h.log);
      }
      hide SenderState.Push;
      hide Logged;
    case Ack(msg) =>
      ReceiveKeeps(h.s, h.log, msg);
      hide SenderState.Receive;
      hide Logged;
    case Pass(ms) =>
      TickKeeps(h.s, h.log, ms);
      hide SenderState.Tick;
      hide Logged;
  }

  // ---------- Backoff ----------

  /** After k consecutive retransmissions at least RTO * (2^k - 1) has passed since the queue
      last made progress, and the timer is still below RTO * 2^k (section 5 of RFC 6298). */
  predicate BackedOff(h: History) {
    && h.s.timer < h.s.rto * Pow2(h.s.retx)
    && h.elapsed >= h.s.rto * Pow2(h.s.retx) - h.s.rto + h.s.timer
  }

  lemma PowDoubles(rto: nat, k: nat)
    ensures rto * Pow2(k + 1) == 2 * (rto * Pow2(k))
    ensures Pow2(0) == 1 && rto * Pow2(0) == rto
  {
    assert rto * (2 * Pow2(k)) == 2 * (rto * Pow2(k));
  }

  lemma {:induction false} PowPositive(rto: nat, k: nat)
    requires rto > 0
    ensures rto * Pow2(k) >= rto
  {
    if k > 0 {
      PowPositive(rto, k - 1);
      PowDoubles(rto, k - 1);
    }
  }

  lemma StepBackedOff(h: History, e: Event)
    requires Enabled(h.s, e) && Logged(h.s, h.log) && BackedOff(h) && h.s.rto > 0
    ensures BackedOff(Step(h, e))
  {
    hide Stamped;
    hide Payloads;
    hide TotalLength;
    hide Flat;
    PowDoubles(h.s.rto, h.s.retx);
    PowPositive(h.s.rto, h.s.retx);
    hide Pow2;
    match e
    case Write(data) =>
    case Close =>
    case SetError =>
    case PushOut =>
      PushKeepsWindow(h.s);
      hide SenderState.Push;
    case Ack(msg) =>
      ReceiveKeeps(h.s, h.log, msg);
      hide SenderState.Receive;
    case Pass(ms) =>
  }

  /** A run: the first history is a new sender's, and each event leads to the next one. */
  ghost predicate IsRun(hs: seq<History>, es: seq<Event>) {
    && |hs| == |es| + 1
    && hs[0].s.input.popped == [] && hs[0].s.rto > 0
    && hs[0] == History(NewSender(hs[0].s.input, hs[0].s.isn, hs[0].s.rto), [], 0)
    && (forall i :: 0 <= i < |es| ==> Enabled(hs[i].s, es[i]) && hs[i + 1] == Step(hs[i], es[i]))
  }

  /** Up to event `n`, no call of push with the FIN outstanding and the nonzero window exactly full. */
  predicate NeverStuck(hs: seq<History>, es: seq<Event>, n: nat)
    requires n <= |es| < |hs|
  {
    forall i :: 0 <= i < n ==> (es[i].PushOut? ==> !Stuck(hs[i].s))
  }

  lemma InitialLogged(s: SenderState)
    requires s == NewSender(s.input, s.isn, s.rto) && s.input.popped == []
    ensures Contiguous(s, [])
    ensures s.rto > 0 ==> BackedOff(History(s, [], 0))
  {
    PowDoubles(s.rto, 0);
  }

  /** What holds after every event of every run: the bytes taken are the payloads sent, each
      segment is stamped with its place, and the timer has backed off. */
  lemma {:induction false} RunInvariant(hs: seq<History>, es: seq<Event>, i: nat)
    requires IsRun(hs, es) && i <= |es|
    ensures Logged(hs[i].s, hs[i].log) && BackedOff(hs[i]) && hs[i].s.rto > 0
    ensures NeverStuck(hs, es, i) ==> Contiguous(hs[i].s, hs[i].log)
  {
    hide Contiguous;
    hide Logged;
    hide BackedOff;
    hide Step;
    if i == 0 {
      InitialLogged(hs[0].s);
      assert Contiguous(hs[0].s, []);
      ContiguousLogged(hs[0].s, []);
    } else {
      RunInvariant(hs, es, i - 1);
      assert Enabled(hs[i - 1].s, es[i - 1]) && hs[i] == Step(hs[i - 1], es[i - 1]);
      StepLogged(hs[i - 1], es[i - 1]);
      StepBackedOff(hs[i - 1], es[i - 1]);
    }
  }

  lemma ContiguousLogged(s: SenderState, log: seq<SenderMessage>)
    requires Contiguous(s, log)
    ensures Logged(s, log)
  {
  }

  /** Conservation, byte by byte: the payloads first transmitted are exactly the bytes taken from
      what the application wrote, each segment's number says where its bytes belong, and what is
      outstanding, counted or retransmitted is the tail of what was sent. */
  ghost predicate Conserved(s: SenderState, log: seq<SenderMessage>) {
    && Payloads(log) == s.input.popped <= s.input.Pushed()
    && s.inFlight == TotalLength(s.queue) <= 0x1_0000
    && |s.queue| <= |log| && IsTail(s.queue, log)
    && (forall k :: 0 <= k < |log| ==> log[k].seqno == s.isn.Plus(|Payloads(log[..k])| + Bit(k > 0)))
    && (s.queue == [] ==> s.timer == 0 && s.retx == 0)
    && (forall ms: nat :: s.Retransmitted(ms) != [] ==> s.Retransmitted(ms) == [log[|log| - |s.queue|]])
  }

  lemma LoggedConserved(s: SenderState, log: seq<SenderMessage>)
    requires Logged(s, log)
    ensures Conserved(s, log)
  {
    hide Payloads;
    hide TotalLength;
    hide Flat;
    hide Wrap32.Plus;
    hide Logged;
    hide SenderState.Expires;
    QueueIsTail(s, log);
    LoggedIsConserved(s, log);
    forall k | 0 <= k < |log|
      ensures log[k].seqno == s.isn.Plus(|Payloads(log[..k])| + Bit(k > 0))
    {
      LoggedStamps(s, log, k);
    }
  }

  /** Every sender state reached by any run is conserved. */
  lemma EveryRunConserves(hs: seq<History>, es: seq<Event>, i: nat)
    requires IsRun(hs, es) && i <= |es|
    ensures Conserved(hs[i].s, hs[i].log)
  {
    RunInvariant(hs, es, i);
    hide *;
    LoggedConserved(hs[i].s, hs[i].log);
  }

  /** An input buffer under 2^31 - 65537 bytes keeps everything outstanding near. */
  lemma CapacityKeepsNear(s: SenderState, log: seq<SenderMessage>)
    requires Contiguous(s, log) && log != []
    requires s.input.capacity + 0x1_0001 < 0x8000_0000 && |s.input.Pushed()| + 2 < TWO_64
    ensures Near(s, log)
  {
    InFlightIsDistance(s, log);
    TilingEnd(s, log);
    ContiguousValid(s, log);
    assert |s.input.Pushed()| == s.Popped() + s.input.Buffered();
    hide Contiguous;
    hide FrontStart;
    hide TotalLength;
    hide Flat;
  }

  /** The exact effect of every acknowledgment in every run that keeps the tiling. */
  lemma EveryAckInRun(hs: seq<History>, es: seq<Event>, i: nat)
    requires IsRun(hs, es) && i < |es| && NeverStuck(hs, es, i) && es[i].Ack? && hs[i].s.queue != []
    requires hs[i].s.input.capacity + 0x1_0001 < 0x8000_0000 && |hs[i].s.input.Pushed()| + 2 < TWO_64
    ensures Enabled(hs[i].s, es[i]) && |hs[i].s.queue| <= |hs[i].log|
    ensures var h, w := hs[i], hs[i].s.NoteWindow(es[i].msg);
            var a := es[i].msg.ackno.value;
            hs[i + 1].s ==
              if a == h.s.isn.Plus(TotalLength(h.log)) then DropAll(w)
              else if a == h.s.isn.Plus(FrontStart(h.s, h.log) + h.s.queue[0].Length()) then w.DropFront()
              else w
  {
    RunInvariant(hs, es, i);
    var h := hs[i];
    assert Enabled(h.s, es[i]) && hs[i + 1] == Step(h, es[i]);
    ContiguousValid(h.s, h.log);
    CapacityKeepsNear(h.s, h.log);
    var w := h.s.NoteWindow(es[i].msg);
    NoteWindowKeeps(h.s, h.log, es[i].msg);
    DropAcknowledgedExactly(w, h.log, es[i].msg.ackno.value);
    hide Contiguous;
    hide SenderState.DropAcknowledged;
    hide TotalLength;
    hide Flat;
    hide Wrap32.Plus;
    hide BackedOff;
  }

  lemma NoteWindowKeeps(s: SenderState, log: seq<SenderMessage>, msg: ReceiverMessage)
    requires Contiguous(s, log) && Near(s, log)
    ensures Contiguous(s.NoteWindow(msg), log) && Near(s.NoteWindow(msg), log)
    ensures FrontStart(s.NoteWindow(msg), log) == FrontStart(s, log)
  {
    assert s.NoteWindow(msg).Valid() by {
      hide TotalLength;
    }
    TimersLogged(s, log, s.NoteWindow(msg));
    hide Contiguous;
    hide Flat;
  }

  // ---------- The payload limit ----------

  /** Some strings at the front of the deque hold exactly `n` bytes together. */
  predicate HasBoundary(deck: Chunks, n: int) {
    deck != [] && (|deck[0]| == n || (|deck[0]| < n && HasBoundary(deck[1..], n - |deck[0]|)))
  }

  /** What would make a segment that already holds `p` bytes grow past the limit. */
  predicate Overshoots(s: SenderState, m: SenderMessage) {
    var p := |m.payload|;
    && p + Min(s.input.Buffered(), s.win - (m.Length() + s.inFlight)) > MAX_PAYLOAD_SIZE
    && !HasBoundary(s.input.deck, MAX_PAYLOAD_SIZE - p)
    && (p == 0 && s.input.deck != [] ==> |s.input.deck[0]| < MAX_PAYLOAD_SIZE)
  }

  lemma OvershootsStep(s: SenderState, m: SenderMessage, s': SenderState, m': SenderMessage, n: nat)
    requires s.win != 0 && s.input.deck != [] && |s.input.deck[0]| <= s.input.Buffered()
    requires |m.payload| < MAX_PAYLOAD_SIZE && m.Length() + s.inFlight < s.win
    requires n == Min(|s.input.deck[0]|, Min(s.win - (m.Length() + s.inFlight), MAX_PAYLOAD_SIZE)) && n > 0
    requires s' == s.(input := s'.input) && s'.input.Buffered() == s.input.Buffered() - n
    requires s'.input.deck == (if n == |s.input.deck[0]| then [] else [s.input.deck[0][n..]]) + s.input.deck[1..]
    requires m' == m.(payload := m'.payload) && |m'.payload| == |m.payload| + n
    ensures Overshoots(s, m) <==>
              |m'.payload| > MAX_PAYLOAD_SIZE || (|m'.payload| < MAX_PAYLOAD_SIZE && Overshoots(s', m'))
  {
    hide Flat;
    hide NoEmptyChunk;
    hide ByteStreams.StreamState.Buffered;
    var c, p := |s.input.deck[0]|, |m.payload|;
    var limit := MAX_PAYLOAD_SIZE - p;
    assert HasBoundary(s.input.deck, limit) <==> c == limit || (c < limit && HasBoundary(s.input.deck[1..], limit - c));
    if n == c {
      assert s'.input.deck == s.input.deck[1..];
      hide HasBoundary;
    }
  }

  lemma {:induction false} FillOvershoots(s: SenderState, m: SenderMessage)
    requires s.win != 0 && |m.payload| < MAX_PAYLOAD_SIZE
    ensures |m.payload| + |s.FillText(m)| > MAX_PAYLOAD_SIZE <==> Overshoots(s, m)
    decreases s.input.Buffered()
  {
    hide Flat;
    hide NoEmptyChunk;
    hide HasBoundary;
    FlatEmpty(s.input.deck);
    if !s.FillDone(m) {
      var next := s.NextBytes(m);
      NextBytesFront(s, m);
      ByteStreams.PopFront(s.input, |next|);
      FrontFits(s.input);
      var s', m' := s.Took(next), m.(payload := m.payload + next);
      assert s.FillText(m) == next + s'.FillText(m');
      OvershootsStep(s, m, s', m', |next|);
      hide Overshoots;
      if |m'.payload| < MAX_PAYLOAD_SIZE {
        FillOvershoots(s', m');
      } else if |m'.payload| == MAX_PAYLOAD_SIZE {
        assert s'.FillDone(m') && s'.FillText(m') == [];
      }
    }
  }

  lemma FrontFits(s: ByteStreams.Stream)
    requires s.deck != []
    ensures |s.deck[0]| <= s.Buffered()
  {
  }

  /** The limit of 1000 payload bytes holds for a fresh segment exactly unless the buffered
      strings, cut to the window, step over it: the loop only stops at 1000 sharp. */
  lemma PayloadLimitExactly(s: SenderState)
    requires s.Valid() && !s.Hangs() && !s.Idle() && s.win != 0
    ensures s.Opened().FillEnds(s.Opening())
    ensures |s.Opened().FillText(s.Opening())| > 1000 <==>
              && Min(s.input.Buffered(), s.win - (Bit(!s.synSent) + s.inFlight)) > 1000
              && !HasBoundary(s.input.deck, 1000)
              && |s.input.Peek()| < 1000
  {
    FillOvershoots(s.Opened(), s.Opening());
    FlatEmpty(s.input.deck);
    hide Wrap32.Plus;
    hide SenderState.FillText;
    hide HasBoundary;
    hide TotalLength;
  }
}
