/** The retransmission timer against what an observer of the sender sees. */
module SenderTimers {
  import opened Bytes
  import ByteStreams
  import opened Messages
  import opened TcpSenders
  import opened SenderProofs
  import opened SenderWindow

  /** A segment sent again, and whether the window last advertised was open then. */
  datatype Resend = Resend(msg: SenderMessage, open: bool)

  /** The time since the timer was last started, and what has been sent again since the queue last
      made progress. */
  datatype Ledger = Ledger(since: nat, resent: seq<Resend>)

  /** The segments an event transmits. */
  function Transmitted(s: SenderState, e: Event): seq<SenderMessage>
    requires Enabled(s, e)
  {
    if e.PushOut? then s.Push().1 else if e.Pass? then s.Retransmitted(e.ms) else []
  }

  /** One event seen from the outside: the clock, the segments sent again, and whether an
      acknowledgment has shortened the queue. */
  function Observe(l: Ledger, h: History, e: Event, open: bool): Ledger
    requires Enabled(h.s, e)
  {
    if e.Pass? && h.s.queue != [] then
      var sent := Transmitted(h.s, e);
      if sent == [] then Ledger(l.since + e.ms, l.resent)
      else Ledger(0, l.resent + [Resend(sent[0], open)])
    else if e.Ack? && Step(h, e).s.queue != h.s.queue then Ledger(0, [])
    else l
  }

  /** The ledger of a run; whether the window is open is taken from the acknowledgments. */
  ghost function LedgerAt(hs: seq<History>, es: seq<Event>, i: nat): Ledger
    requires IsRun(hs, es) && i <= |es|
  {
    if i == 0 then Ledger(0, [])
    else
      assert Enabled(hs[i - 1].s, es[i - 1]);
      Observe(LedgerAt(hs, es, i - 1), hs[i - 1], es[i - 1], !ZeroHeard(es, i - 1))
  }

  /** How many of the resent segments went out under an open window. */
  function Opens(resent: seq<Resend>): nat {
    if resent == [] then 0 else Opens(resent[..|resent| - 1]) + Bit(resent[|resent| - 1].open)
  }

  lemma OpensSnoc(resent: seq<Resend>, r: Resend)
    ensures Opens(resent + [r]) == Opens(resent) + Bit(r.open)
  {
    assert (resent + [r])[..|resent|] == resent;
  }

  /** What the sender keeps is what the ledger says. */
  predicate Agrees(s: SenderState, l: Ledger) {
    && s.timer == l.since && s.retx == Opens(l.resent) && (s.queue == [] ==> l == Ledger(0, []))
    && (forall k :: 0 <= k < |l.resent| ==> s.queue != [] && l.resent[k].msg == s.queue[0])
  }

  lemma ObserveAgrees(l: Ledger, h: History, e: Event)
    requires Enabled(h.s, e) && Logged(h.s, h.log) && Agrees(h.s, l)
    ensures Agrees(Step(h, e).s, Observe(l, h, e, !h.s.winZero))
  {
    match e
    case Ack(msg) => AckTimers(h, e);
    case Pass(ms) => PassTimers(h, e, l);
    case _ => OtherTimers(h, e);
    hide Logged;
    hide Step;
    hide Transmitted;
    hide Opens;
  }

  /** Only acknowledgments and time touch the timer. */
  lemma OtherTimers(h: History, e: Event)
    requires Enabled(h.s, e) && !e.Ack? && !e.Pass? && Logged(h.s, h.log)
    ensures var s' := Step(h, e).s; s'.timer == h.s.timer && s'.retx == h.s.retx && h.s.queue <= s'.queue
  {
    hide Logged;
    hide Payloads;
    hide TotalLength;
    hide Flat;
    if e.PushOut? {
      PushKeepsWindow(h.s);
    }
    hide SenderState.Push;
    hide SenderState.Valid;
  }

  lemma PassTimers(h: History, e: Event, l: Ledger)
    requires Enabled(h.s, e) && e.Pass? && Agrees(h.s, l)
    ensures Agrees(Step(h, e).s, Observe(l, h, e, !h.s.winZero))
  {
    hide Opens;
    hide Step;
    hide Transmitted;
    hide Enabled;
    PassSends(h, e);
    if h.s.queue != [] {
      OpensSnoc(l.resent, Resend(h.s.queue[0], !h.s.winZero));
    }
  }

  /** One tick: what it transmits, and what becomes of timer and counter. */
  lemma PassSends(h: History, e: Event)
    requires Enabled(h.s, e) && e.Pass?
    ensures var s, s', due := h.s, Step(h, e).s, h.s.queue != [] && h.s.timer + e.ms >= h.s.rto * Pow2(h.s.retx);
            && Transmitted(s, e) == (if due then [s.queue[0]] else [])
            && s'.queue == s.queue && Step(h, e).log == h.log
            && s'.timer == (if due then 0 else if s.queue == [] then s.timer else s.timer + e.ms)
            && s'.retx == s.retx + Bit(due && !s.winZero)
  {
    hide SenderState.Valid;
    hide Pow2;
  }

  lemma AckTimers(h: History, e: Event)
    requires Enabled(h.s, e) && e.Ack? && Logged(h.s, h.log)
    ensures var s' := Step(h, e).s;
            && (s'.queue == h.s.queue ==> s'.timer == h.s.timer && s'.retx == h.s.retx)
            && (s'.queue != h.s.queue ==> s'.timer == 0 && s'.retx == 0)
  {
    ReceiveKeeps(h.s, h.log, e.msg);
    hide SenderState.Receive;
    hide Logged;
    hide Flat;
  }

  /** In every run the timer is the time since it was last started, and the counter the number of
      times its oldest segment has been sent again under an open window since the last progress. */
  lemma {:induction false} LedgerAgrees(hs: seq<History>, es: seq<Event>, i: nat)
    requires IsRun(hs, es) && i <= |es|
    ensures Agrees(hs[i].s, LedgerAt(hs, es, i))
  {
    hide Step;
    hide Observe;
    hide Logged;
    hide Enabled;
    if i > 0 {
      LedgerAgrees(hs, es, i - 1);
      RunInvariant(hs, es, i - 1);
      EveryWindowHeard(hs, es, i - 1);
      assert Enabled(hs[i - 1].s, es[i - 1]) && hs[i] == Step(hs[i - 1], es[i - 1]);
      ObserveAgrees(LedgerAt(hs, es, i - 1), hs[i - 1], es[i - 1]);
    }
  }

  /** Exactly when time makes the sender transmit again, and what: the oldest outstanding segment,
      once the time since the timer was last started reaches RTO * 2^k, where k counts the segments
      sent again under an open window since the last progress (section 5 of RFC 6298). */
  lemma EveryTickInRun(hs: seq<History>, es: seq<Event>, i: nat)
    requires IsRun(hs, es) && i < |es| && es[i].Pass?
    ensures var s, log, l := hs[i].s, hs[i].log, LedgerAt(hs, es, i);
            && Enabled(s, es[i]) && |s.queue| <= |log|
            && Transmitted(s, es[i]) ==
               (if s.queue != [] && l.since + es[i].ms >= hs[0].s.rto * Pow2(Opens(l.resent))
                then [log[|log| - |s.queue|]] else [])
            && hs[i + 1].s.queue == s.queue && hs[i + 1].log == log
  {
    LedgerAgrees(hs, es, i);
    RunInvariant(hs, es, i);
    EveryWindowHeard(hs, es, i);
    QueueIsTail(hs[i].s, hs[i].log);
    assert Enabled(hs[i].s, es[i]) && hs[i + 1] == Step(hs[i], es[i]);
    PassSends(hs[i], es[i]);
    hide Logged;
    hide Step;
    hide SenderState.Valid;
    hide TotalLength;
    hide BackedOff;
    hide Contiguous;
    hide LedgerAt;
    hide Opens;
    hide Pow2;
    hide Transmitted;
  }
}
