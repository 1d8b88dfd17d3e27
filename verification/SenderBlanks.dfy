/** A push in the stuck state adds segments of length zero after the FIN.  They use no number and
    carry no byte: cut off, they leave a sender whose queue still tiles. */
module SenderBlanks {
  import opened Bytes
  import opened Messages
  import ByteStreams
  import WrappingIntegers
  import opened TcpSenders
  import opened SenderProofs

  /** How many segments there are up to the last one that uses a number. */
  function Solid(log: seq<SenderMessage>): (n: nat)
    ensures n <= |log| && (n > 0 ==> log[n - 1].Length() > 0)
    ensures forall k :: n <= k < |log| ==> log[k].Length() == 0
  {
    if log == [] || log[|log| - 1].Length() > 0 then |log| else Solid(log[..|log| - 1])
  }

  function Trunk(log: seq<SenderMessage>): seq<SenderMessage> {
    log[..Solid(log)]
  }

  /** The outstanding segments that use a number. */
  function CutQueue(queue: seq<SenderMessage>, log: seq<SenderMessage>): seq<SenderMessage>
    requires |queue| <= |log|
  {
    queue[..Max(0, Solid(log) - (|log| - |queue|))]
  }

  /** The sender as if the blank segments had not been sent. */
  function Cut(s: SenderState, log: seq<SenderMessage>): SenderState
    requires |s.queue| <= |log|
  {
    var queue := CutQueue(s.queue, log);
    s.(queue := queue, timer := if queue == [] then 0 else s.timer, retx := if queue == [] then 0 else s.retx)
  }

  /** Without its blanks the queue tiles; there are blanks only after the FIN. */
  predicate Tiled(s: SenderState, log: seq<SenderMessage>) {
    && Logged(s, log)
    && Contiguous(Cut(s, log), Trunk(log))
    && (Solid(log) < |log| ==> s.fin)
  }

  lemma SolidUnique(log: seq<SenderMessage>, n: nat)
    requires n <= |log| && (n > 0 ==> log[n - 1].Length() > 0)
    requires forall k :: n <= k < |log| ==> log[k].Length() == 0
    ensures Solid(log) == n
  {
  }

  /** A tiling has no blanks. */
  lemma ContiguousTiled(s: SenderState, log: seq<SenderMessage>)
    requires Contiguous(s, log)
    ensures Tiled(s, log) && Cut(s, log) == s && Trunk(log) == log
  {
    SolidUnique(log, |log|);
    ContiguousValid(s, log);
    hide Logged;
    hide TotalLength;
    hide Flat;
    assert log[..|log|] == log && s.queue[..|s.queue|] == s.queue;
    CutValid(s, log);
  }

  lemma CutValid(s: SenderState, log: seq<SenderMessage>)
    requires s.Valid() && |s.queue| <= |log| && Solid(log) == |log|
    ensures Cut(s, log) == s
  {
    hide TotalLength;
    hide Flat;
    assert s.queue[..|s.queue|] == s.queue;
  }

  /** The payload bytes that have been let go are the same with and without blanks. */
  lemma ReleasedSame(s: SenderState, log: seq<SenderMessage>)
    requires |s.queue| <= |log|
    ensures var d, cut := |log| - |s.queue|, |Cut(s, log).queue|;
            cut <= |Trunk(log)| && Payloads(log[..d]) == Payloads(Trunk(log)[..|Trunk(log)| - cut])
  {
    var n, d := Solid(log), |log| - |s.queue|;
    if d <= n {
      assert Trunk(log)[..d] == log[..d];
    } else {
      BlankPayloads(log, n, d);
      assert Trunk(log)[..n] == log[..n];
    }
  }

  lemma {:induction false} BlankPayloads(log: seq<SenderMessage>, n: nat, k: nat)
    requires n <= k <= |log| && forall j :: n <= j < |log| ==> log[j].Length() == 0
    ensures Payloads(log[..k]) == Payloads(log[..n])
  {
    if n < k {
      BlankPayloads(log, n, k - 1);
      assert log[..k] == log[..k - 1] + [log[k - 1]];
      PayloadsSnoc(log[..k - 1], log[k - 1]);
    }
  }

  // ---------- Each call ----------

  /** One more blank changes nothing but the blanks. */
  lemma BlankSent(s: SenderState, s': SenderState, m: SenderMessage, log: seq<SenderMessage>)
    requires Logged(s, log) && Logged(s', log + [m]) && s.fin && SentOne(s, s', m) && m.Length() == 0
    ensures Solid(log + [m]) == Solid(log) && Trunk(log + [m]) == Trunk(log)
    ensures Cut(s', log + [m]) == Cut(s, log)
  {
    assert s.Valid() && s'.Valid();
    hide Logged;
    hide TotalLength;
    hide Payloads;
    SolidUnique(log + [m], Solid(log));
    assert (log + [m])[..Solid(log)] == log[..Solid(log)];
    assert s'.input == s.input by {
      assert s.input.popped + [] == s.input.popped;
    }
    hide Flat;
    var n := Max(0, Solid(log) - (|log| - |s.queue|));
    assert s'.queue[..n] == s.queue[..n];
  }

  /** In the stuck state a push sends one blank. */
  lemma StuckTiled(s: SenderState, log: seq<SenderMessage>)
    requires Tiled(s, log) && !s.Hangs() && s.Valid() && Stuck(s)
    ensures var (s', sent) := s.Push();
            Tiled(s', log + sent)
  {
    hide Logged;
    hide Contiguous;
    hide TotalLength;
    hide Payloads;
    hide Flat;
    hide SenderState.Valid;
    hide SenderState.Push;
    hide SenderState.NextRound;
    hide SentOne;
    hide Solid;
    hide Cut;
    hide Trunk;
    PushLogged(s, log);
    PushUnfold(s);
    StuckSendsEmpty(s);
    var s', m := s.NextRound().state, s.NextRound().msg;
    BlankSent(s, s', m, log);
    StaysFinished(s, s', m);
  }

  lemma StaysFinished(s: SenderState, s': SenderState, m: SenderMessage)
    requires SentOne(s, s', m)
    ensures s.fin ==> s'.fin
  {
  }

  lemma PushTiled(s: SenderState, log: seq<SenderMessage>)
    requires Tiled(s, log) && !s.Hangs()
    ensures s.Valid()
    ensures var (s', sent) := s.Push();
            Tiled(s', log + sent)
  {
    LoggedValid(s, log);
    hide Logged;
    hide Contiguous;
    hide TotalLength;
    hide Payloads;
    hide Flat;
    hide SenderState.Valid;
    hide SenderState.Push;
    hide SenderState.NextRound;
    hide SenderState.Hangs;
    hide Stuck;
    hide Solid;
    hide Cut;
    if Stuck(s) {
      StuckTiled(s, log);
    } else if Solid(log) == |log| {
      CutValid(s, log);
      assert log[..|log|] == log;
      PushContiguousExactly(s, log);
      ContiguousTiled(s.Push().0, log + s.Push().1);
    } else {
      FinSendsNothing(s);
      PushUnfold(s);
      assert log + [] == log;
    }
    hide Trunk;
    hide SentOne;
  }

  lemma TailOfPrefix<T>(q: seq<T>, n: nat)
    requires 0 < n <= |q|
    ensures q[1..][..n - 1] == q[..n][1..] && q[..n][0] == q[0]
  {
  }

  /** Dropping a blank. */
  lemma CutFrontBlank(s: SenderState, log: seq<SenderMessage>)
    requires Logged(s, log) && s.queue != [] && Cut(s, log).queue == []
    ensures Cut(s.DropFront(), log) == Cut(s, log)
  {
    FrontIs(s, log);
    hide Logged;
    hide TotalLength;
    hide Flat;
    hide Payloads;
    hide Solid;
  }

  /** Dropping a segment of the tiling. */
  lemma CutFrontSolid(s: SenderState, log: seq<SenderMessage>)
    requires Logged(s, log) && s.queue != [] && Cut(s, log).queue != []
    ensures Cut(s, log).queue[0] == s.queue[0] && Cut(s.DropFront(), log) == Cut(s, log).DropFront()
  {
    FrontIs(s, log);
    hide Logged;
    hide TotalLength;
    hide Flat;
    hide Payloads;
    hide Solid;
    TailOfPrefix(s.queue, Solid(log) - (|log| - |s.queue|));
  }

  lemma FrontIs(s: SenderState, log: seq<SenderMessage>)
    requires Logged(s, log) && s.queue != []
    ensures |s.queue| <= |log| && s.inFlight <= 0x1_0000 && s.queue[0] == log[|log| - |s.queue|]
  {
    QueueIsTail(s, log);
    LoggedIsConserved(s, log);
    hide Logged;
  }

  /** Releasing goes the same way with and without blanks. */
  lemma {:induction false} CutDrops(s: SenderState, log: seq<SenderMessage>, a: WrappingIntegers.Wrap32)
    requires Logged(s, log)
    ensures |s.DropAcknowledged(a).queue| <= |s.queue| <= |log|
    ensures Cut(s.DropAcknowledged(a), log) == Cut(s, log).DropAcknowledged(a)
    decreases |s.queue|
  {
    QueueIsTail(s, log);
    hide SenderState.Acknowledges;
    if s.queue != [] {
      if Cut(s, log).queue == [] {
        CutFrontBlank(s, log);
      } else {
        CutFrontSolid(s, log);
        SameAcknowledges(s, log, a);
      }
      hide Cut;
      DropFrontLogged(s, log);
      FrontGone(s);
      hide SenderState.DropFront;
      if s.Acknowledges(a) {
        CutDrops(s.DropFront(), log, a);
      }
    }
    hide Logged;
  }

  lemma FrontGone(s: SenderState)
    requires s.queue != []
    ensures |s.DropFront().queue| == |s.queue| - 1
  {
  }

  lemma SameAcknowledges(s: SenderState, log: seq<SenderMessage>, a: WrappingIntegers.Wrap32)
    requires Logged(s, log) && s.queue != [] && Cut(s, log).queue != []
    ensures Cut(s, log).Acknowledges(a) <==> s.Acknowledges(a)
  {
    CutFrontSolid(s, log);
    hide Logged;
    hide WrappingIntegers.Wrap32.Unwrap;
  }

  /** So does hearing an acknowledgment. */
  lemma CutReceives(s: SenderState, log: seq<SenderMessage>, msg: ReceiverMessage)
    requires Logged(s, log) && (s.queue != [] ==> msg.ackno.Some?)
    ensures Cut(s, log).queue != [] ==> msg.ackno.Some?
    ensures |s.Receive(msg).queue| <= |log|
    ensures Cut(s.Receive(msg), log) == Cut(s, log).Receive(msg)
  {
    var w := s.NoteWindow(msg);
    ReceiveKeeps(s, log, msg);
    NoteWindowLogged(s, log, msg);
    CutNotes(s, log, msg);
    if s.queue != [] {
      CutDrops(w, log, msg.ackno.value);
    }
    hide Logged;
    hide SenderState.NoteWindow;
    hide SenderState.Acknowledges;
    hide SenderState.DropFront;
    hide Flat;
    hide Contiguous;
    hide TotalLength;
  }

  lemma NoteWindowLogged(s: SenderState, log: seq<SenderMessage>, msg: ReceiverMessage)
    requires Logged(s, log)
    ensures Logged(s.NoteWindow(msg), log)
  {
    LoggedValid(s, log);
    hide Logged;
    hide TotalLength;
    hide Flat;
    SameLog(s, s.NoteWindow(msg), log);
  }

  lemma CutNotes(s: SenderState, log: seq<SenderMessage>, msg: ReceiverMessage)
    requires |s.queue| <= |log|
    ensures Cut(s.NoteWindow(msg), log) == Cut(s, log).NoteWindow(msg)
    ensures Cut(s, log).queue != [] ==> s.queue != []
  {
  }

  lemma ReceiveTiled(s: SenderState, log: seq<SenderMessage>, msg: ReceiverMessage)
    requires Tiled(s, log) && (s.queue != [] ==> msg.ackno.Some?)
    ensures Tiled(s.Receive(msg), log)
  {
    LoggedValid(s, log);
    CutReceives(s, log, msg);
    ReceiveKeeps(s, log, msg);
    FinStays(s, log, s.Receive(msg), log);
    assert log == log[..|log|];
    ContiguousLogged(Cut(s, log), Trunk(log));
    ReceiveKeeps(Cut(s, log), Trunk(log), msg);
    hide Logged;
    hide Contiguous;
    hide Cut;
    hide SenderState.Receive;
  }

  lemma TickTiled(s: SenderState, log: seq<SenderMessage>, ms: nat)
    requires Tiled(s, log)
    ensures Tiled(s.Tick(ms), log)
  {
    TickKeeps(s, log, ms);
    ContiguousLogged(Cut(s, log), Trunk(log));
    LoggedValid(Cut(s, log), Trunk(log));
    hide Logged;
    hide Contiguous;
    hide SenderState.Tick;
    var s' := s.Tick(ms);
    assert Cut(s', log) == Cut(s, log).(timer := Cut(s', log).timer, retx := Cut(s', log).retx);
    hide TotalLength;
    hide Flat;
    TimersLogged(Cut(s, log), Trunk(log), Cut(s', log));
  }

  lemma InputTiled(s: SenderState, log: seq<SenderMessage>, input: ByteStreams.Stream)
    requires Tiled(s, log) && input.popped == s.input.popped && (s.fin ==> input.Finished())
    ensures Tiled(WithInput(s, input), log)
  {
    InputLogged(s, log, input);
    ContiguousLogged(Cut(s, log), Trunk(log));
    InputLogged(Cut(s, log), Trunk(log), input);
    hide Logged;
    hide Contiguous;
  }
}
