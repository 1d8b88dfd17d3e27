/** A sender, a receiver and a network that loses, repeats and reorders what they say. */
module Network {
  import opened Bytes
  import opened WrappingIntegers
  import ByteStreams
  import Reassemblers
  import R = ReassemblerProofs
  import opened Messages
  import TcpReceivers
  import opened ReceiverProofs
  import opened TcpSenders
  import S = SenderProofs
  import B = SenderBlanks

  /** `net` and `acks` hold everything ever sent; the network may deliver any of it, any number
      of times, in any order, or never. */
  datatype System = System(
    snd: SenderState, log: seq<SenderMessage>, rcv: TcpReceivers.ReceiverState,
    net: set<SenderMessage>, acks: set<ReceiverMessage>)

  datatype Action =
    | Write(data: seq<byte>) | Close | SetError | PushOut | Pass(ms: nat) | SendEmpty
    | DeliverSegment(m: SenderMessage) | SendAck | DeliverAck(a: ReceiverMessage) | Take(len: nat)

  /** The stream stays within the receive capacity; push and receive are called where they
      return; only what was sent arrives. */
  predicate Enabled(sys: System, act: Action) {
    match act
    case Write(data) => |sys.snd.input.Push(data).Pushed()| <= sys.rcv.capacity
    case PushOut => sys.snd.Valid() && !sys.snd.Hangs()
    case DeliverSegment(m) => m in sys.net && sys.rcv.Valid()
    case DeliverAck(a) => a in sys.acks && (sys.snd.queue != [] ==> a.ackno.Some?)
    case _ => true
  }

  predicate Next(sys: System, act: Action, sys': System) {
    && Enabled(sys, act)
    && match act
       case Write(data) =>
         sys' == sys.(snd := sys.snd.(input := sys'.snd.input)) && sys'.snd.input == sys.snd.input.Push(data)
       case Close => sys' == sys.(snd := S.WithInput(sys.snd, sys.snd.input.Close()))
       case SetError => sys' == sys.(snd := S.WithInput(sys.snd, sys.snd.input.SetError()))
       case PushOut =>
         var (s, sent) := sys.snd.Push();
         sys' == sys.(snd := s, log := sys.log + sent, net := sys.net + set m | m in sent)
       case Pass(ms) =>
         sys' == sys.(snd := sys.snd.Tick(ms), net := sys.net + set m | m in sys.snd.Retransmitted(ms))
       case SendEmpty => sys' == sys.(net := sys.net + {sys.snd.MakeEmptyMessage()})
       case DeliverSegment(m) => sys' == sys.(rcv := sys'.rcv) && sys.rcv.Receive(m) == Reassemblers.Ok(sys'.rcv)
       case SendAck => sys' == sys.(acks := sys.acks + {sys.rcv.Send()})
       case DeliverAck(a) => sys' == sys.(snd := sys.snd.Receive(a))
       case Take(len) =>
         sys' == sys.(rcv := sys.rcv.(reassembler := R.ReadSome(sys.rcv.reassembler, len)))
  }

  predicate Init(sys: System) {
    && 0 < sys.rcv.capacity < 0x8000_0000
    && sys.rcv == TcpReceivers.NewReceiver(sys.rcv.capacity)
    && sys.snd == NewSender(sys.snd.input, sys.snd.isn, sys.snd.rto)
    && sys.snd.input.popped == [] && sys.snd.input.deck == []
    && sys.log == [] && sys.net == {} && sys.acks == {}
  }

  /** Everything the application has written. */
  function Written(sys: System): seq<byte> {
    sys.snd.input.Pushed()
  }

  function Assembled(sys: System): seq<byte> {
    sys.rcv.reassembler.output.Pushed()
  }

  // ---------- The invariant ----------

  ghost predicate AllGenuine(net: set<SenderMessage>, isn: Wrap32, stream: seq<byte>) {
    forall m :: m in net ==> Genuine(m, isn, stream)
  }

  ghost predicate Consistent(sys: System) {
    && S.Logged(sys.snd, sys.log)
    && Sound(sys.rcv, sys.snd.isn, Written(sys))
    && AllGenuine(sys.net, sys.snd.isn, Written(sys))
    && (forall k :: 0 <= k < |sys.log| ==> sys.log[k] in sys.net)
  }

  /** `text` stands at index `k` of the stream. */
  predicate SliceIs(stream: seq<byte>, k: nat, text: seq<byte>) {
    k + |text| <= |stream| && text == stream[k..k + |text|]
  }

  lemma FragmentGrows(stream: seq<byte>, stream': seq<byte>, k: nat, text: seq<byte>)
    requires stream <= stream' && SliceIs(stream, k, text)
    ensures SliceIs(stream', k, text)
  {
  }

  lemma GenuineGrows(m: SenderMessage, isn: Wrap32, stream: seq<byte>, stream': seq<byte>)
    requires Genuine(m, isn, stream) && stream <= stream'
    ensures Genuine(m, isn, stream')
  {
    if m.payload != [] {
      FragmentGrows(stream, stream', PayloadOffset(m, isn), m.payload);
    }
    hide Offset;
  }

  lemma SoundGrows(r: TcpReceivers.ReceiverState, isn: Wrap32, stream: seq<byte>, stream': seq<byte>)
    requires Sound(r, isn, stream) && stream <= stream' && |stream'| <= r.capacity
    ensures Sound(r, isn, stream')
  {
    FragmentGrows(stream, stream', 0, r.reassembler.output.Pushed());
    hide Offset;
    hide Flat;
  }

  /** The payload of segment `k` is the stream's own, where its number says. */
  lemma {:induction false} PayloadsSlice(log: seq<SenderMessage>, k: nat)
    requires k < |log|
    ensures SliceIs(S.Payloads(log), |S.Payloads(log[..k])|, log[k].payload)
  {
    var n := |log| - 1;
    if k < n {
      PayloadsSlice(log[..n], k);
      assert log[..n][..k] == log[..k];
      FragmentGrows(S.Payloads(log[..n]), S.Payloads(log), |S.Payloads(log[..k])|, log[k].payload);
    }
  }

  lemma LoggedGenuine(s: SenderState, log: seq<SenderMessage>, k: nat)
    requires S.Logged(s, log) && k < |log| && |s.input.Pushed()| < 0x8000_0000
    ensures Genuine(log[k], s.isn, s.input.Pushed())
  {
    hide S.Logged;
    hide Offset;
    hide Flat;
    hide S.Payloads;
    hide TotalLength;
    hide Wrap32.Plus;
    hide Genuine;
    hide SliceIs;
    S.LoggedStamps(s, log, k);
    S.LoggedIsConserved(s, log);
    PayloadsSlice(log, k);
    var at := |S.Payloads(log[..k])|;
    FragmentGrows(s.input.popped, s.input.Pushed(), at, log[k].payload);
    assert k == 0 ==> at == 0 by {
      assert k == 0 ==> log[..k] == [];
      EmptyPayloads();
    }
    StampedGenuine(log[k], s.isn, s.input.Pushed(), at);
  }

  /** A payload that is the stream's own, under the number of its place. */
  lemma StampedGenuine(m: SenderMessage, isn: Wrap32, stream: seq<byte>, at: nat)
    requires m.seqno == isn.Plus(at + Bit(!m.SYN)) && (m.SYN ==> at == 0)
    requires SliceIs(stream, at, m.payload) && |stream| < 0x8000_0000
    ensures Genuine(m, isn, stream)
  {
    hide Wrap32.Plus;
    hide Offset;
    PlaceIs(m, isn, at);
    hide PayloadOffset;
  }

  lemma PlaceIs(m: SenderMessage, isn: Wrap32, at: nat)
    requires m.seqno == isn.Plus(at + Bit(!m.SYN)) && (m.SYN ==> at == 0) && at < 0x8000_0000
    ensures PayloadOffset(m, isn) == at && (m.SYN ==> m.seqno == isn)
  {
    WrapOffset(at + Bit(!m.SYN), isn);
    hide Offset;
  }

  lemma EmptyPayloads()
    ensures S.Payloads([]) == []
  {
  }

  lemma SndStep(sys: System, sys': System)
    requires Consistent(sys) && sys'.rcv == sys.rcv && S.Logged(sys'.snd, sys'.log)
    requires sys'.snd.isn == sys.snd.isn && Written(sys) <= Written(sys') && |Written(sys')| <= sys.rcv.capacity
    requires |sys.log| <= |sys'.log| && sys.log == sys'.log[..|sys.log|]
    requires forall k :: |sys.log| <= k < |sys'.log| ==> sys'.log[k] in sys'.net
    requires sys.net <= sys'.net
    requires forall m :: m in sys'.net && m !in sys.net ==>
               (m.payload == [] && !m.SYN) || exists k :: 0 <= k < |sys'.log| && sys'.log[k] == m
    ensures Consistent(sys')
  {
    SoundGrows(sys.rcv, sys.snd.isn, Written(sys), Written(sys'));
    forall m | m in sys'.net
      ensures Genuine(m, sys.snd.isn, Written(sys'))
    {
      if m in sys.net {
        GenuineGrows(m, sys.snd.isn, Written(sys), Written(sys'));
      } else if m.payload != [] || m.SYN {
        var k :| 0 <= k < |sys'.log| && sys'.log[k] == m;
        LoggedGenuine(sys'.snd, sys'.log, k);
      }
    }
    hide S.Logged;
    hide Genuine;
    hide Offset;
    hide Flat;
  }

  predicate Progress(sys: System, sys': System) {
    && Assembled(sys) <= Assembled(sys') && Written(sys) <= Written(sys')
    && sys'.rcv.capacity == sys.rcv.capacity && sys'.snd.isn == sys.snd.isn
  }

  lemma InputStep(sys: System, sys': System, input: ByteStreams.Stream)
    requires Consistent(sys) && sys' == sys.(snd := S.WithInput(sys.snd, input))
    requires input.popped == sys.snd.input.popped && (sys.snd.fin ==> input.Finished())
    requires Written(sys) <= input.Pushed() && |input.Pushed()| <= sys.rcv.capacity
    ensures Consistent(sys') && Progress(sys, sys')
  {
    S.InputLogged(sys.snd, sys.log, input);
    hide S.Logged;
    hide Sound;
    SndStep(sys, sys');
    hide AllGenuine;
    hide Flat;
  }

  lemma SentIsLogged(log: seq<SenderMessage>, sent: seq<SenderMessage>, net: set<SenderMessage>)
    ensures var net' := net + set m | m in sent;
            && (forall k :: |log| <= k < |log + sent| ==> (log + sent)[k] in net')
            && (forall m :: m in net' && m !in net ==> exists k :: 0 <= k < |log + sent| && (log + sent)[k] == m)
  {
    forall m | m in sent
      ensures exists k :: 0 <= k < |log + sent| && (log + sent)[k] == m
    {
      var i :| 0 <= i < |sent| && sent[i] == m;
      assert (log + sent)[|log| + i] == m;
    }
  }

  lemma PushStep(sys: System, sys': System)
    requires Consistent(sys) && Next(sys, PushOut, sys')
    ensures Consistent(sys') && Progress(sys, sys')
  {
    SoundShort(sys);
    S.PushLogged(sys.snd, sys.log);
    S.PushKeepsWindow(sys.snd);
    SentIsLogged(sys.log, sys.snd.Push().1, sys.net);
    assert sys'.log[..|sys.log|] == sys.log;
    hide S.Logged;
    hide Sound;
    hide SenderState.Push;
    hide S.Payloads;
    hide Exhausted;
    hide Flat;
    SndStep(sys, sys');
    hide Consistent;
  }

  lemma SoundShort(sys: System)
    requires Consistent(sys)
    ensures |Written(sys)| <= sys.rcv.capacity < 0x8000_0000
    ensures Assembled(sys) <= Written(sys) && sys.rcv.Valid() && sys.snd.Valid()
  {
    SoundBounds(sys.rcv, sys.snd.isn, Written(sys));
    hide R.Good;
    hide S.Stamped;
    hide Offset;
    hide AllGenuine;
    hide Flat;
    hide TotalLength;
  }

  lemma RetransmitsLogged(s: SenderState, log: seq<SenderMessage>, net: set<SenderMessage>, ms: nat)
    requires |s.queue| <= |log| && (s.queue != [] ==> s.queue[0] == log[|log| - |s.queue|])
    requires forall k :: 0 <= k < |log| ==> log[k] in net
    ensures (net + set m | m in s.Retransmitted(ms)) == net
  {
    hide Pow2;
  }

  lemma TickStep(sys: System, ms: nat, sys': System)
    requires Consistent(sys) && Next(sys, Pass(ms), sys')
    ensures Consistent(sys') && Progress(sys, sys')
  {
    hide SenderState.Tick;
    hide SenderState.Retransmitted;
    hide S.Logged;
    hide Sound;
    hide Flat;
    SoundShort(sys);
    ConsistentLogged(sys);
    S.QueueIsTail(sys.snd, sys.log);
    RetransmitsLogged(sys.snd, sys.log, sys.net, ms);
    S.TickKeeps(sys.snd, sys.log, ms);
    assert sys'.snd.input == sys.snd.input;
    SndStep(sys, sys');
    hide Consistent;
  }

  lemma AckStep(sys: System, a: ReceiverMessage, sys': System)
    requires Consistent(sys) && Next(sys, DeliverAck(a), sys')
    ensures Consistent(sys') && Progress(sys, sys')
  {
    SoundShort(sys);
    S.ReceiveKeeps(sys.snd, sys.log, a);
    hide S.Logged;
    hide Sound;
    hide SenderState.Receive;
    SndStep(sys, sys');
    hide AllGenuine;
    hide Flat;
  }

  lemma TakeSound(r: TcpReceivers.ReceiverState, isn: Wrap32, stream: seq<byte>, len: nat)
    requires Sound(r, isn, stream)
    ensures var r' := r.(reassembler := R.ReadSome(r.reassembler, len));
            && Sound(r', isn, stream)
            && r'.reassembler.output.Pushed() == r.reassembler.output.Pushed()
  {
    R.ReadGood(r.reassembler, stream, len);
    hide R.Good;
    hide Offset;
    hide Flat;
    hide NoEmptyChunk;
    hide ByteStreams.DropBytes;
  }

  /** Every step keeps the two sides consistent. */
  lemma NextConsistent(sys: System, act: Action, sys': System)
    requires Consistent(sys) && Next(sys, act, sys')
    ensures Consistent(sys') && Progress(sys, sys')
  {
    SoundShort(sys);
    match act
    case Write(data) =>
      ByteStreams.PushRefinesQueue(sys.snd.input, data);
      InputStep(sys, sys', sys'.snd.input);
    case Close => InputStep(sys, sys', sys.snd.input.Close());
    case SetError => InputStep(sys, sys', sys.snd.input.SetError());
    case PushOut => PushStep(sys, sys');
    case Pass(ms) => TickStep(sys, ms, sys');
    case SendEmpty => SndStep(sys, sys');
    case DeliverSegment(m) =>
      ReceiveSound(sys.rcv, sys.snd.isn, Written(sys), m);
    case SendAck =>
    case DeliverAck(a) => AckStep(sys, a, sys');
    case Take(len) => TakeSound(sys.rcv, sys.snd.isn, Written(sys), len);
    hide S.Logged;
    hide Sound;
    hide Genuine;
    hide Flat;
    hide SenderState.Push;
    hide SenderState.Receive;
    hide TcpReceivers.ReceiverState.Receive;
  }

  // ---------- Runs and prefix safety ----------

  predicate IsRun(states: seq<System>, acts: seq<Action>) {
    && |states| == |acts| + 1 && Init(states[0])
    && (forall i :: 0 <= i < |acts| ==> Next(states[i], acts[i], states[i + 1]))
  }

  lemma InitConsistent(sys: System)
    requires Init(sys)
    ensures Consistent(sys)
  {
    S.InitialLogged(sys.snd);
  }

  lemma {:induction false} RunConsistent(states: seq<System>, acts: seq<Action>, i: nat)
    requires IsRun(states, acts) && i <= |acts|
    ensures Consistent(states[i])
  {
    hide Consistent;
    hide Next;
    if i == 0 {
      InitConsistent(states[0]);
    } else {
      RunConsistent(states, acts, i - 1);
      assert Next(states[i - 1], acts[i - 1], states[i]);
      NextConsistent(states[i - 1], acts[i - 1], states[i]);
    }
  }

  /** End-to-end prefix safety: after every step of every run, whatever was lost, repeated or
      reordered, SYNs and early FINs included, the receiver has assembled a prefix of what the
      application wrote, and no delivery could make the reassembler leave its buffers. */
  lemma PrefixSafety(states: seq<System>, acts: seq<Action>, i: nat)
    requires IsRun(states, acts) && i <= |acts|
    ensures Assembled(states[i]) <= Written(states[i])
    ensures states[i].rcv.Valid()
    ensures forall m :: m in states[i].net ==> states[i].rcv.Receive(m).Ok?
  {
    RunConsistent(states, acts, i);
    var sys := states[i];
    SoundShort(sys);
    forall m | m in sys.net
      ensures sys.rcv.Receive(m).Ok?
    {
      ReceiveSound(sys.rcv, sys.snd.isn, Written(sys), m);
    }
    hide Sound;
    hide S.Logged;
    hide TcpReceivers.ReceiverState.Receive;
    hide Genuine;
    hide Flat;
    hide Next;
  }

  // ---------- Acknowledgment safety ----------

  /** Who has heard of a FIN: only a sender that has finished sends one. */
  ghost predicate FinKnown(sys: System) {
    && (sys.rcv.seenFin ==> sys.snd.fin)
    && (forall m :: m in sys.net && m.FIN ==> sys.snd.fin)
  }

  /** The SYN, the bytes assembled and, once nothing is missing, the FIN. */
  function Claimable(sys: System): nat {
    1 + |Assembled(sys)| + Bit(sys.snd.fin && |Assembled(sys)| == |Written(sys)|)
  }

  /** An acknowledgment that claims no more than `limit` numbers. */
  predicate Honest(a: ReceiverMessage, isn: Wrap32, limit: nat) {
    a.ackno.Some? ==> Offset(a.ackno.value, isn) <= limit
  }

  /** The segments no longer outstanding. */
  function Released(sys: System): seq<SenderMessage>
    requires |sys.snd.queue| <= |sys.log|
  {
    sys.log[..|sys.log| - |sys.snd.queue|]
  }

  ghost predicate AllHonest(sys: System) {
    && FinKnown(sys)
    && AckHonest(sys.rcv, sys.snd.isn, Written(sys))
    && (forall a :: a in sys.acks ==> Honest(a, sys.snd.isn, Claimable(sys)))
  }

  /** Every acknowledgment is honest, every byte of a released segment has been assembled, and the
      queue tiles up to segments of length zero after the FIN. */
  ghost predicate ReleaseSafe(sys: System) {
    && B.Tiled(sys.snd, sys.log)
    && AllHonest(sys)
    && |S.Payloads(Released(sys))| <= |Assembled(sys)|
  }

  /** The same with a tiling that has no such segments. */
  ghost predicate AckSafe(sys: System) {
    && S.Contiguous(sys.snd, sys.log)
    && AllHonest(sys)
    && |S.Payloads(Released(sys))| <= |Assembled(sys)|
  }

  /** A segment that makes the receiver count the FIN while bytes are missing. */
  predicate CountsEarly(sys: System, act: Action) {
    act.DeliverSegment? && CountsFinEarly(sys.rcv, sys.snd.isn, Written(sys), act.m)
  }

  /** Neither that nor a push in the stuck state. */
  predicate Orderly(sys: System, act: Action) {
    && !CountsEarly(sys, act)
    && (act.PushOut? ==> !Stuck(sys.snd))
  }

  lemma ConsistentLogged(sys: System)
    requires Consistent(sys)
    ensures S.Logged(sys.snd, sys.log) && |sys.snd.queue| <= |sys.log|
  {
    hide S.Stamped;
    hide Sound;
    hide AllGenuine;
    hide S.Payloads;
  }

  // Once the FIN is out it stays out, and the stream does not change any more.

  lemma FinStays(sys: System, act: Action, sys': System)
    requires Consistent(sys) && Consistent(sys') && Next(sys, act, sys')
    ensures sys.snd.fin ==> sys'.snd.fin && Written(sys') == Written(sys)
    ensures FinKnown(sys) ==> FinKnown(sys')
  {
    hide Consistent;
    hide S.Logged;
    hide Sound;
    hide Genuine;
    hide Flat;
    hide Offset;
    hide SenderState.Push;
    hide SenderState.Receive;
    hide SenderState.Tick;
    hide SenderState.Retransmitted;
    hide SenderState.Valid;
    hide TcpReceivers.ReceiverState.Receive;
    ConsistentLogged(sys);
    ConsistentLogged(sys');
    SoundShort(sys);
    ConsistentNet(sys);
    match act
    case Write(data) =>
      ByteStreams.PushRefinesQueue(sys.snd.input, data);
      S.FinStays(sys.snd, sys.log, sys'.snd, sys'.log);
    case PushOut =>
      S.FinStays(sys.snd, sys.log, sys'.snd, sys'.log);
      S.PushKeepsWindow(sys.snd);

    case Pass(ms) =>
      S.QueueIsTail(sys.snd, sys.log);
      RetransmitsLogged(sys.snd, sys.log, sys.net, ms);
      S.TickKeeps(sys.snd, sys.log, ms);
    case DeliverSegment(m) =>
      FinCountedExactly(sys.rcv, sys.snd.isn, Written(sys), m);
    case DeliverAck(a) =>
      S.FinStays(sys.snd, sys.log, sys'.snd, sys'.log);
      S.ReceiveKeeps(sys.snd, sys.log, a);
    case _ =>
  }

  lemma ConsistentNet(sys: System)
    requires Consistent(sys)
    ensures Sound(sys.rcv, sys.snd.isn, Written(sys))
    ensures forall m :: m in sys.net ==> Genuine(m, sys.snd.isn, Written(sys))
    ensures forall k :: 0 <= k < |sys.log| ==> sys.log[k] in sys.net
  {
    hide S.Logged;
    hide Sound;
    hide Genuine;
    hide Flat;
  }

  // ---------- Each part of it, step by step ----------

  lemma InitAckSafe(sys: System)
    requires Init(sys)
    ensures AckSafe(sys)
  {
    S.InitialLogged(sys.snd);
    hide S.Logged;
    assert Released(sys) == [];
  }

  lemma ClaimableGrows(sys: System, sys': System)
    requires Consistent(sys) && Consistent(sys') && Progress(sys, sys')
    requires sys.snd.fin ==> sys'.snd.fin && Written(sys') == Written(sys)
    ensures Claimable(sys) <= Claimable(sys')
  {
    SoundShort(sys');
    hide Consistent;
    hide Flat;
  }

  lemma HonestGrows(sys: System, act: Action, sys': System)
    requires Consistent(sys) && Consistent(sys') && Next(sys, act, sys') && Progress(sys, sys') && AllHonest(sys)
    requires AckHonest(sys'.rcv, sys'.snd.isn, Written(sys'))
    requires forall a :: a in sys'.acks && a !in sys.acks ==> Honest(a, sys'.snd.isn, Claimable(sys'))
    ensures AllHonest(sys')
  {
    hide Consistent;
    hide Next;
    hide Offset;
    hide Flat;
    hide FinKnown;
    hide AckHonest;
    FinStays(sys, act, sys');
    ClaimableGrows(sys, sys');
    forall a | a in sys'.acks
      ensures Honest(a, sys'.snd.isn, Claimable(sys'))
    {
      assert a in sys.acks ==> Honest(a, sys.snd.isn, Claimable(sys));
    }
  }

  /** An honest receiver stays honest while the sender works. */
  lemma SameReceiverHonest(sys: System, act: Action, sys': System)
    requires Consistent(sys) && Consistent(sys') && Next(sys, act, sys') && AllHonest(sys)
    requires sys'.rcv == sys.rcv && sys'.snd.isn == sys.snd.isn
    ensures AckHonest(sys'.rcv, sys'.snd.isn, Written(sys'))
  {
    hide Next;
    hide Offset;
    hide Flat;
    hide R.Good;
    hide S.Logged;
    hide AllGenuine;
    FinStays(sys, act, sys');
  }

  /** The payload bytes up to segment `k`, when an honest number claims exactly its end. */
  lemma ClaimedIsAssembled(s: SenderState, log: seq<SenderMessage>, a: Wrap32, assembled: nat, k: nat)
    requires S.Contiguous(s, log) && 0 < k <= |log| && assembled <= |s.input.Pushed()| < 0x8000_0000
    requires a == s.isn.Plus(TotalLength(log[..k]))
    requires Offset(a, s.isn) <= 1 + assembled + Bit(s.fin && assembled == |s.input.Pushed()|)
    ensures |S.Payloads(log[..k])| <= assembled
  {
    hide S.Logged;
    hide Offset;
    hide Wrap32.Plus;
    hide TotalLength;
    hide S.Payloads;
    hide Flat;
    S.LengthIsPayload(s, log, k);
    S.LengthIsPayload(s, log, |log|);
    S.TotalLengthAppend(log[..k], log[k..]);
    assert log == log[..k] + log[k..] && log == log[..|log|];
    S.LoggedIsConserved(s, log);
    hide S.Contiguous;
    PayloadsPrefix(log, k);
    HonestOffset(s.isn, TotalLength(log[..k]), 1 + assembled + Bit(s.fin && assembled == |s.input.Pushed()|));
  }

  lemma HonestOffset(isn: Wrap32, e: nat, limit: nat)
    requires e < TWO_32 && Offset(isn.Plus(e), isn) <= limit
    ensures e <= limit
  {
    WrapOffset(e, isn);
  }

  /** An honest acknowledgment releases only what has been assembled. */
  lemma AckReleasesAssembled(s: SenderState, log: seq<SenderMessage>, a: Wrap32, assembled: nat)
    requires S.Contiguous(s, log) && s.queue != [] && S.Near(s, log)
    requires assembled <= |s.input.Pushed()| < 0x8000_0000
    requires Offset(a, s.isn) <= 1 + assembled + Bit(s.fin && assembled == |s.input.Pushed()|)
    requires |S.Payloads(log[..|log| - |s.queue|])| <= assembled
    ensures var s' := s.DropAcknowledged(a);
            |s'.queue| <= |log| && |S.Payloads(log[..|log| - |s'.queue|])| <= assembled
  {
    hide S.Near;
    hide SenderState.DropAcknowledged;
    hide SenderState.Valid;
    hide S.Contiguous;
    hide S.Payloads;
    hide Offset;
    hide Wrap32.Plus;
    hide Flat;
    hide TotalLength;
    S.ContiguousValid(s, log);
    S.ReleasedUpToAck(s, log, a);
    var n := |s.DropAcknowledged(a).queue|;
    if n < |s.queue| {
      ClaimedIsAssembled(s, log, a, assembled, |log| - n);
    }
  }

  /** Receiving an honest acknowledgment, for a stream under 2^31 bytes. */
  lemma ReceiveReleasesAssembled(s: SenderState, log: seq<SenderMessage>, msg: ReceiverMessage, assembled: nat)
    requires S.Contiguous(s, log) && assembled <= |s.input.Pushed()| < 0x8000_0000
    requires s.queue != [] ==> msg.ackno.Some?
    requires Honest(msg, s.isn, 1 + assembled + Bit(s.fin && assembled == |s.input.Pushed()|))
    requires |S.Payloads(log[..|log| - |s.queue|])| <= assembled
    ensures var s' := s.Receive(msg);
            |s'.queue| <= |log| && |S.Payloads(log[..|log| - |s'.queue|])| <= assembled
  {
    hide Offset;
    hide S.Contiguous;
    hide S.Payloads;
    hide SenderState.DropAcknowledged;
    hide Flat;
    hide TotalLength;
    if s.queue != [] {
      S.NoteWindowKeeps(s, log, msg);
      AckReleasesAssembled(s.NoteWindow(msg), log, msg.ackno.value, assembled);
    }
  }

  /** The same for a sender that has sent blanks. */
  lemma TiledReleasesAssembled(s: SenderState, log: seq<SenderMessage>, msg: ReceiverMessage, assembled: nat)
    requires B.Tiled(s, log) && assembled <= |s.input.Pushed()| < 0x8000_0000
    requires s.queue != [] ==> msg.ackno.Some?
    requires Honest(msg, s.isn, 1 + assembled + Bit(s.fin && assembled == |s.input.Pushed()|))
    requires |s.queue| <= |log| && |S.Payloads(log[..|log| - |s.queue|])| <= assembled
    ensures var s' := s.Receive(msg);
            |s'.queue| <= |log| && |S.Payloads(log[..|log| - |s'.queue|])| <= assembled
  {
    hide Offset;
    hide S.Contiguous;
    hide S.Logged;
    hide S.Payloads;
    hide SenderState.Receive;
    hide Flat;
    hide B.Trunk;
    B.CutReceives(s, log, msg);
    B.ReleasedSame(s, log);
    B.ReleasedSame(s.Receive(msg), log);
    CutSame(s, log);
    hide B.Cut;
    ReceiveReleasesAssembled(B.Cut(s, log), B.Trunk(log), msg, assembled);
  }

  lemma CutSame(s: SenderState, log: seq<SenderMessage>)
    requires |s.queue| <= |log|
    ensures var cut := B.Cut(s, log);
            cut.isn == s.isn && cut.fin == s.fin && cut.input == s.input && (cut.queue != [] ==> s.queue != [])
  {
  }

  lemma AckReleaseSafe(sys: System, a: ReceiverMessage, sys': System)
    requires Consistent(sys) && Consistent(sys') && ReleaseSafe(sys) && Next(sys, DeliverAck(a), sys') && AllHonest(sys')
    ensures ReleaseSafe(sys')
  {
    hide SenderState.Receive;
    hide S.Payloads;
    hide B.Tiled;
    hide S.Logged;
    hide SenderState.Valid;
    hide Flat;
    hide Offset;
    hide FinKnown;
    hide AckHonest;
    SoundShort(sys);
    ConsistentLogged(sys);
    hide Consistent;
    assert Honest(a, sys.snd.isn, Claimable(sys));
    B.ReceiveTiled(sys.snd, sys.log, a);
    TiledReleasesAssembled(sys.snd, sys.log, a, |Assembled(sys)|);
    hide AllHonest;
  }

  /** Exactly the steps that keep acknowledgments honest and released bytes assembled. */
  lemma NextReleaseSafe(sys: System, act: Action, sys': System)
    requires Consistent(sys) && ReleaseSafe(sys) && Next(sys, act, sys')
    ensures ReleaseSafe(sys') <==> !CountsEarly(sys, act)
  {
    NextConsistent(sys, act, sys');
    match act
    case PushOut => PushReleaseSafe(sys, sys');
    case DeliverSegment(m) => SegmentReleaseSafe(sys, m, sys');
    case _ => OtherReleaseSafe(sys, act, sys');
    hide ReleaseSafe;
    hide Consistent;
    hide Next;
    hide CountsFinEarly;
  }

  /** Exactly the steps that keep, with them, the tiling whole. */
  lemma NextAckSafe(sys: System, act: Action, sys': System)
    requires Consistent(sys) && AckSafe(sys) && Next(sys, act, sys')
    ensures AckSafe(sys') <==> Orderly(sys, act)
  {
    AckSafeForms(sys);
    NextReleaseSafe(sys, act, sys');
    NextTiles(sys, act, sys');
    AckSafeForms(sys');
    hide *;
  }

  lemma AckSafeForms(sys: System)
    ensures AckSafe(sys) <==> ReleaseSafe(sys) && S.Contiguous(sys.snd, sys.log)
  {
    if S.Contiguous(sys.snd, sys.log) {
      B.ContiguousTiled(sys.snd, sys.log);
    }
    hide AllHonest;
    hide S.Payloads;
    hide B.Tiled;
    hide Flat;
  }

  /** Exactly the steps that keep the tiling whole. */
  lemma NextTiles(sys: System, act: Action, sys': System)
    requires Consistent(sys) && S.Contiguous(sys.snd, sys.log) && Next(sys, act, sys')
    ensures S.Contiguous(sys'.snd, sys'.log) <==> !(act.PushOut? && Stuck(sys.snd))
  {
    if act.PushOut? {
      hide S.Contiguous;
      hide SenderState.Push;
      hide SenderState.Valid;
      hide Stuck;
      S.ContiguousValid(sys.snd, sys.log);
      S.PushContiguousExactly(sys.snd, sys.log);
    } else if !act.DeliverSegment? {
      ContiguousStays(sys, act, sys');
    }
    hide S.Contiguous;
    hide Consistent;
    hide Stuck;
  }

  lemma PushReleaseSafe(sys: System, sys': System)
    requires Consistent(sys) && Consistent(sys') && Progress(sys, sys') && ReleaseSafe(sys) && Next(sys, PushOut, sys')
    ensures ReleaseSafe(sys')
  {
    hide B.Tiled;
    hide S.Payloads;
    hide SenderState.Push;
    hide SenderState.Valid;
    hide Exhausted;
    hide AllHonest;
    hide Consistent;
    hide Flat;
    ConsistentLogged(sys);
    B.PushTiled(sys.snd, sys.log);
    S.PushKeepsWindow(sys.snd);
    SameReceiverHonest(sys, PushOut, sys');
    HonestGrows(sys, PushOut, sys');
    hide S.Logged;
    assert Released(sys') == Released(sys);
  }

  lemma SegmentReleaseSafe(sys: System, m: SenderMessage, sys': System)
    requires Consistent(sys) && Consistent(sys') && Progress(sys, sys') && ReleaseSafe(sys)
    requires Next(sys, DeliverSegment(m), sys')
    ensures ReleaseSafe(sys') <==> !CountsFinEarly(sys.rcv, sys.snd.isn, Written(sys), m)
  {
    hide B.Tiled;
    hide S.Payloads;
    hide S.Logged;
    hide Sound;
    hide Genuine;
    hide Offset;
    hide Flat;
    hide FinKnown;
    hide AckHonest;
    hide CountsFinEarly;
    hide TcpReceivers.ReceiverState.Receive;
    FinHonestExactly(sys.rcv, sys.snd.isn, Written(sys), m);
    hide Consistent;
    if AckHonest(sys'.rcv, sys'.snd.isn, Written(sys')) {
      HonestGrows(sys, DeliverSegment(m), sys');
    }
  }

  lemma OtherReleaseSafe(sys: System, act: Action, sys': System)
    requires Consistent(sys) && Consistent(sys') && Progress(sys, sys') && ReleaseSafe(sys) && Next(sys, act, sys')
    requires !act.PushOut? && !act.DeliverSegment?
    ensures ReleaseSafe(sys')
  {
    hide S.Payloads;
    hide S.Logged;
    hide Sound;
    hide Flat;
    hide Offset;
    hide FinKnown;
    hide SenderState.Receive;
    hide SenderState.Tick;
    hide SenderState.Retransmitted;
    hide SenderState.Valid;
    hide B.Tiled;
    ReceiverHonest(sys, act, sys');
    hide AckHonest;
    HonestGrows(sys, act, sys');
    if act.DeliverAck? {
      AckReleaseSafe(sys, act.a, sys');
    } else {
      TiledStays(sys, act, sys');
      ConsistentLogged(sys);
      SameQueue(sys, act, sys');
    }
    hide Consistent;
    hide Next;
    hide AllHonest;
  }

  /** Only pushes and acknowledgments touch the queue, and only segments the receiver. */
  lemma SameQueue(sys: System, act: Action, sys': System)
    requires Consistent(sys) && Next(sys, act, sys') && !act.PushOut? && !act.DeliverSegment? && !act.DeliverAck?
    ensures sys'.snd.queue == sys.snd.queue && sys'.log == sys.log
    ensures Assembled(sys') == Assembled(sys)
  {
    hide SenderState.Tick;
    hide SenderState.Retransmitted;
    hide S.Logged;
    hide Sound;
    hide Flat;
    ConsistentLogged(sys);
    ConsistentNet(sys);
    hide Consistent;
    if act.Pass? {
      S.TickKeeps(sys.snd, sys.log, act.ms);
    } else if act.Take? {
      TakeSound(sys.rcv, sys.snd.isn, Written(sys), act.len);
    }
  }

  lemma TiledStays(sys: System, act: Action, sys': System)
    requires Consistent(sys) && B.Tiled(sys.snd, sys.log) && Next(sys, act, sys')
    requires !act.PushOut? && !act.DeliverSegment? && !act.DeliverAck?
    ensures B.Tiled(sys'.snd, sys'.log)
  {
    hide B.Tiled;
    hide S.Logged;
    hide SenderState.Tick;
    hide SenderState.Retransmitted;
    hide Flat;
    SoundShort(sys);
    match act
    case Write(data) =>
      ByteStreams.PushRefinesQueue(sys.snd.input, data);
      B.InputTiled(sys.snd, sys.log, sys'.snd.input);
    case Close => B.InputTiled(sys.snd, sys.log, sys.snd.input.Close());
    case SetError => B.InputTiled(sys.snd, sys.log, sys.snd.input.SetError());
    case Pass(ms) => B.TickTiled(sys.snd, sys.log, ms);
    case _ =>
    hide Consistent;
  }

  lemma ReceiverHonest(sys: System, act: Action, sys': System)
    requires Consistent(sys) && Consistent(sys') && Progress(sys, sys') && AllHonest(sys) && Next(sys, act, sys')
    requires !act.PushOut? && !act.DeliverSegment?
    ensures AckHonest(sys'.rcv, sys'.snd.isn, Written(sys'))
    ensures forall a :: a in sys'.acks && a !in sys.acks ==> Honest(a, sys'.snd.isn, Claimable(sys'))
  {
    hide Flat;
    hide SenderState.Receive;
    hide SenderState.Tick;
    hide SenderState.Retransmitted;
    if act.Take? {
      TakeSound(sys.rcv, sys.snd.isn, Written(sys), act.len);
    } else {
      SameReceiverHonest(sys, act, sys');
    }
    hide S.Logged;
    hide R.Good;
    hide AllGenuine;
    hide Offset;
  }

  lemma ContiguousStays(sys: System, act: Action, sys': System)
    requires Consistent(sys) && S.Contiguous(sys.snd, sys.log) && Next(sys, act, sys')
    requires !act.PushOut? && !act.DeliverSegment?
    ensures S.Contiguous(sys'.snd, sys'.log)
  {
    hide S.Contiguous;
    hide S.Logged;
    hide SenderState.Receive;
    hide SenderState.Tick;
    hide SenderState.Retransmitted;
    hide Flat;
    SoundShort(sys);
    ConsistentLogged(sys);
    match act
    case Write(data) =>
      ByteStreams.PushRefinesQueue(sys.snd.input, data);
      S.InputLogged(sys.snd, sys.log, sys'.snd.input);
    case Close => S.InputLogged(sys.snd, sys.log, sys.snd.input.Close());
    case SetError => S.InputLogged(sys.snd, sys.log, sys.snd.input.SetError());
    case Pass(ms) => S.TickKeeps(sys.snd, sys.log, ms);
    case DeliverAck(a) => S.ReceiveKeeps(sys.snd, sys.log, a);
    case _ =>
    hide Consistent;
  }

  lemma {:induction false} RunAckSafe(states: seq<System>, acts: seq<Action>, i: nat)
    requires IsRun(states, acts) && i <= |acts|
    requires forall j :: 0 <= j < i ==> Orderly(states[j], acts[j])
    ensures Consistent(states[i]) && AckSafe(states[i])
  {
    hide Consistent;
    hide AckSafe;
    hide Next;
    hide Orderly;
    RunConsistent(states, acts, i);
    if i == 0 {
      InitAckSafe(states[0]);
    } else {
      RunAckSafe(states, acts, i - 1);
      assert Orderly(states[i - 1], acts[i - 1]);
      assert Next(states[i - 1], acts[i - 1], states[i]);
      NextAckSafe(states[i - 1], acts[i - 1], states[i]);
    }
  }

  lemma {:induction false} RunReleaseSafe(states: seq<System>, acts: seq<Action>, i: nat)
    requires IsRun(states, acts) && i <= |acts|
    requires forall j :: 0 <= j < i ==> !CountsEarly(states[j], acts[j])
    ensures Consistent(states[i]) && ReleaseSafe(states[i])
  {
    hide Consistent;
    hide ReleaseSafe;
    hide Next;
    hide CountsEarly;
    RunConsistent(states, acts, i);
    if i == 0 {
      InitAckSafe(states[0]);
      AckSafeForms(states[0]);
      hide AckSafe;
    } else {
      RunReleaseSafe(states, acts, i - 1);
      assert !CountsEarly(states[i - 1], acts[i - 1]);
      assert Next(states[i - 1], acts[i - 1], states[i]);
      NextReleaseSafe(states[i - 1], acts[i - 1], states[i]);
    }
  }

  /** End-to-end acknowledgment safety, before and after the FIN: in every run in which no segment
      makes the receiver count the FIN while bytes are missing, whatever happens to segments and
      acknowledgments on the way, the payloads of the segments the sender has let go of are bytes
      the receiver has assembled. */
  lemma AckSafety(states: seq<System>, acts: seq<Action>, i: nat)
    requires IsRun(states, acts) && i <= |acts|
    requires forall j :: 0 <= j < i ==> !CountsEarly(states[j], acts[j])
    ensures |states[i].snd.queue| <= |states[i].log|
    ensures S.Payloads(Released(states[i])) <= Assembled(states[i])
  {
    hide Next;
    hide Flat;
    hide CountsEarly;
    RunReleaseSafe(states, acts, i);
    var sys := states[i];
    SoundShort(sys);
    ConsistentLogged(sys);
    hide S.Logged;
    hide B.Tiled;
    hide Consistent;
    hide AllHonest;
    ReleasedPrefix(sys.snd, sys.log);
  }

  predicate NoFin(net: set<SenderMessage>) {
    forall m :: m in net ==> !m.FIN
  }

  lemma NoFinMeansOpen(sys: System)
    requires Consistent(sys) && NoFin(sys.net)
    ensures !sys.snd.fin
  {
    hide Sound;
    hide AllGenuine;
    hide S.Stamped;
    hide S.Payloads;
    hide TotalLength;
    hide Flat;
  }

  /** While no FIN has been sent every run is orderly. */
  lemma {:induction false} NoFinOrderly(states: seq<System>, acts: seq<Action>, i: nat)
    requires IsRun(states, acts) && i <= |acts| && NoFin(states[i].net)
    ensures forall j :: 0 <= j < i ==> Orderly(states[j], acts[j])
  {
    hide Next;
    hide Orderly;
    hide Consistent;
    hide AckSafe;
    if i > 0 {
      assert Next(states[i - 1], acts[i - 1], states[i]);
      NetGrows(states[i - 1], acts[i - 1], states[i]);
      NoFinOrderly(states, acts, i - 1);
      RunAckSafe(states, acts, i - 1);
      NoFinStep(states[i - 1], acts[i - 1], states[i]);
    }
  }

  lemma NetGrows(sys: System, act: Action, sys': System)
    requires Next(sys, act, sys') && NoFin(sys'.net)
    ensures NoFin(sys.net)
  {
    hide SenderState.Push;
    hide SenderState.Tick;
    hide SenderState.Retransmitted;
    hide SenderState.Receive;
    hide TcpReceivers.ReceiverState.Receive;
    assert sys.net <= sys'.net;
  }

  lemma NoFinStep(sys: System, act: Action, sys': System)
    requires Consistent(sys) && AckSafe(sys) && Next(sys, act, sys') && NoFin(sys.net)
    ensures Orderly(sys, act)
  {
    NoFinMeansOpen(sys);
    hide Consistent;
    hide S.Contiguous;
    hide AckHonest;
    hide Completes;
    hide Offset;
  }

  /** In particular, released bytes are assembled bytes as long as no FIN has been sent. */
  lemma AckSafetyBeforeFin(states: seq<System>, acts: seq<Action>, i: nat)
    requires IsRun(states, acts) && i <= |acts| && NoFin(states[i].net)
    ensures |states[i].snd.queue| <= |states[i].log|
    ensures S.Payloads(Released(states[i])) <= Assembled(states[i])
  {
    NoFinOrderly(states, acts, i);
    assert forall j :: 0 <= j < i ==> !CountsEarly(states[j], acts[j]) by {
      assert forall j :: 0 <= j < i ==> Orderly(states[j], acts[j]);
      hide CountsEarly;
      hide Stuck;
      hide IsRun;
    }
    hide *;
    AckSafety(states, acts, i);
  }

  lemma {:induction false} PayloadsPrefix(log: seq<SenderMessage>, k: nat)
    requires k <= |log|
    ensures S.Payloads(log[..k]) <= S.Payloads(log)
  {
    var n := |log| - 1;
    if k == |log| {
      assert log[..k] == log;
    } else {
      PayloadsPrefix(log[..n], k);
      assert log[..n][..k] == log[..k];
    }
  }

  lemma ReleasedPrefix(s: SenderState, log: seq<SenderMessage>)
    requires S.Logged(s, log)
    ensures S.Payloads(log[..|log| - |s.queue|]) <= s.input.Pushed()
  {
    PayloadsPrefix(log, |log| - |s.queue|);
    hide S.Payloads;
    hide S.Stamped;
    hide Flat;
    hide TotalLength;
  }

  // ---------- What an early FIN costs ----------

  /** The sender has let go of a byte the receiver has not got. */
  ghost predicate LostByte(sys: System) {
    && |sys.snd.queue| <= |sys.log|
    && |S.Payloads(Released(sys))| > |Assembled(sys)|
  }

  /** The number of an acknowledgment is the end of the oldest outstanding segment. */
  predicate ClaimsFront(sys: System, a: ReceiverMessage)
    requires sys.snd.queue != [] && |sys.snd.queue| <= |sys.log|
  {
    a.ackno == Some(sys.snd.isn.Plus(S.FrontStart(sys.snd, sys.log) + sys.snd.queue[0].Length()))
  }

  /** It is the end of everything sent. */
  predicate ClaimsAll(sys: System, a: ReceiverMessage) {
    a.ackno == Some(sys.snd.isn.Plus(TotalLength(sys.log)))
  }

  /** Exactly which acknowledgments lose a byte, early or late, honest or not: the number is the end
      of the oldest outstanding segment or of the whole queue, and the bytes up to it are more than
      those assembled. */
  lemma AckLosesExactly(sys: System, a: ReceiverMessage, sys': System)
    requires Consistent(sys) && S.Contiguous(sys.snd, sys.log) && Next(sys, DeliverAck(a), sys')
    requires |sys.snd.queue| <= |sys.log| && |S.Payloads(Released(sys))| <= |Assembled(sys)|
    ensures LostByte(sys') <==>
              && sys.snd.queue != []
              && (|| (ClaimsAll(sys, a) && |S.Payloads(sys.log)| > |Assembled(sys)|)
                  || (ClaimsFront(sys, a)
                      && |S.Payloads(sys.log[..|sys.log| - |sys.snd.queue| + 1])| > |Assembled(sys)|))
  {
    hide Consistent;
    hide S.Contiguous;
    hide S.Payloads;
    hide TotalLength;
    hide Flat;
    hide Wrap32.Plus;
    hide SenderState.Receive;
    hide S.FrontStart;
    SoundShort(sys);
    if sys.snd.queue != [] {
      AckReleasesExactly(sys.snd, sys.log, a);
      assert sys.log[..|sys.log|] == sys.log;
    } else {
      QueueStaysEmpty(sys.snd, a);
    }
  }

  lemma QueueStaysEmpty(s: SenderState, msg: ReceiverMessage)
    requires s.queue == []
    ensures s.Receive(msg).queue == []
  {
  }

  /** What an acknowledgment leaves in the queue. */
  lemma AckReleasesExactly(s: SenderState, log: seq<SenderMessage>, msg: ReceiverMessage)
    requires S.Contiguous(s, log) && s.queue != [] && |s.input.Pushed()| < 0x8000_0000 && msg.ackno.Some?
    ensures |s.queue| <= |log|
    ensures var left, end := |s.Receive(msg).queue|, S.FrontStart(s, log) + s.queue[0].Length();
            && left == (if msg.ackno.value == s.isn.Plus(TotalLength(log)) then 0
                        else if msg.ackno.value == s.isn.Plus(end) then |s.queue| - 1
                        else |s.queue|)
            && (msg.ackno.value == s.isn.Plus(TotalLength(log)) == s.isn.Plus(end) ==> |s.queue| == 1)
  {
    hide S.Contiguous;
    hide TotalLength;
    hide Flat;
    hide Wrap32.Plus;
    hide SenderState.DropAcknowledged;
    hide SenderState.Valid;
    S.NoteWindowKeeps(s, log, msg);
    S.DropAcknowledgedExactly(s.NoteWindow(msg), log, msg.ackno.value);
    FrontIsAll(s, log);
  }

  /** The front's end is the end of everything only when nothing else is outstanding. */
  lemma FrontIsAll(s: SenderState, log: seq<SenderMessage>)
    requires S.Contiguous(s, log) && s.queue != [] && |s.input.Pushed()| < 0x8000_0000
    ensures |s.queue| <= |log|
    ensures s.isn.Plus(TotalLength(log)) == s.isn.Plus(S.FrontStart(s, log) + s.queue[0].Length()) ==> |s.queue| == 1
  {
    hide S.Contiguous;
    hide TotalLength;
    hide Wrap32.Plus;
    hide Flat;
    hide SenderState.Valid;
    hide S.FrontStart;
    S.ContiguousValid(s, log);
    S.InFlightIsDistance(s, log);
    S.TilingEnd(s, log);
    S.DropFrontContiguous(s, log);
    S.InFlightIsDistance(s.DropFront(), log);
    QueueOfFront(s);
    hide SenderState.DropFront;
    assert s.Popped() <= |s.input.Pushed()|;
    var end := S.FrontStart(s, log) + s.queue[0].Length();
    if s.isn.Plus(TotalLength(log)) == s.isn.Plus(end) {
      S.PlusInjective(s.isn, end, TotalLength(log));
    }
  }

  lemma QueueOfFront(s: SenderState)
    requires s.queue != []
    ensures s.DropFront().queue == s.queue[1..] && s.DropFront().isn == s.isn
  {
  }

  /** What the sender's queue makes of a number that claims the FIN after `got` bytes of more: it
      releases a byte nobody has got exactly when the oldest segment ends there. */
  lemma FalseNumberReleases(s: SenderState, log: seq<SenderMessage>, msg: ReceiverMessage, got: nat)
    requires S.Contiguous(s, log) && s.queue != [] && s.fin && got < |s.input.Pushed()| < 0x8000_0000
    requires |S.Payloads(log[..|log| - |s.queue|])| <= got
    requires msg.ackno == Some(s.isn.Plus(2 + got))
    ensures var s' := s.Receive(msg);
            && |s'.queue| <= |log|
            && (|S.Payloads(log[..|log| - |s'.queue|])| > got <==> S.FrontStart(s, log) + s.queue[0].Length() == 2 + got)
  {
    hide S.Logged;
    hide S.Payloads;
    hide TotalLength;
    hide SenderState.DropAcknowledged;
    hide SenderState.Valid;
    hide Wrap32.Plus;
    hide Flat;
    hide S.Contiguous;
    S.ContiguousLogged(s, log);
    S.ContiguousValid(s, log);
    S.LoggedIsConserved(s, log);
    S.QueueIsTail(s, log);
    FinishedTaken(s);
    S.TilingEnd(s, log);
    S.InFlightIsDistance(s, log);
    var w, a := s.NoteWindow(msg), msg.ackno.value;
    S.NoteWindowKeeps(s, log, msg);
    S.DropAcknowledgedExactly(w, log, a);
    var d := |log| - |s.queue|;
    var end := S.FrontStart(s, log) + s.queue[0].Length();
    S.LengthIsPayload(s, log, d + 1);
    assert log[..d + 1] == log[..d] + [log[d]];
    TotalLengthSnoc(log[..d], log[d]);
    assert log[..|log|] == log;
    if a == s.isn.Plus(TotalLength(log)) {
      S.PlusInjective(s.isn, 2 + got, TotalLength(log));
    }
    if a == s.isn.Plus(end) {
      S.PlusInjective(s.isn, if end < 2 + got then end else 2 + got, if end < 2 + got then 2 + got else end);
    }
  }

  /** With the FIN out, everything written has been taken. */
  lemma FinishedTaken(s: SenderState)
    requires s.Valid() && s.fin
    ensures s.Popped() == |s.input.Pushed()|
  {
    hide TotalLength;
  }

  /** The number acknowledged after an early count. */
  lemma FalseNumber(sys: System, m: SenderMessage)
    requires Consistent(sys) && FinKnown(sys) && m in sys.net
    requires CountsFinEarly(sys.rcv, sys.snd.isn, Written(sys), m)
    ensures sys.snd.fin && sys.rcv.Valid() && sys.rcv.Receive(m).Ok?
    ensures var r := sys.rcv.Receive(m).value;
            && r.Send().ackno == Some(sys.snd.isn.Plus(2 + r.Pushed()))
            && |Assembled(sys)| <= r.Pushed() < |Written(sys)|
  {
    hide TcpReceivers.ReceiverState.Receive;
    hide Offset;
    hide Flat;
    hide S.Logged;
    SoundShort(sys);
    ReceiveSound(sys.rcv, sys.snd.isn, Written(sys), m);
    FinCountedExactly(sys.rcv, sys.snd.isn, Written(sys), m);
    CompletesExactly(sys.rcv, sys.snd.isn, Written(sys), m);
    var r := sys.rcv.Receive(m).value;
    SoundBounds(r, sys.snd.isn, Written(sys));
    hide Sound;
    hide Completes;
    OffsetWraps(r.curSeq, sys.snd.isn);
    WrapOffset(2 + r.Pushed(), sys.snd.isn);
  }

  /** The FIN has been counted early and the answer has come back. */
  function AfterEarlyFin(sys: System, m: SenderMessage): System
    requires sys.rcv.Valid() && sys.rcv.Receive(m).Ok? && sys.rcv.Receive(m).value.Send().ackno.Some?
  {
    var r := sys.rcv.Receive(m).value;
    sys.(rcv := r, acks := sys.acks + {r.Send()}, snd := sys.snd.Receive(r.Send()))
  }

  /** The oldest outstanding segment ends one number after the last byte in order. */
  predicate EndsAtGap(sys: System, pushed: nat)
    requires sys.snd.queue != [] && |sys.snd.queue| <= |sys.log|
  {
    S.FrontStart(sys.snd, sys.log) + sys.snd.queue[0].Length() == 2 + pushed
  }

  /** Exactly when the answer to an early count loses a byte: when the oldest outstanding segment
      ends at the number it carries.  If that segment starts at the first missing byte, it must
      hold this byte and nothing else. */
  lemma EarlyFinLosesExactly(sys: System, m: SenderMessage)
    requires Consistent(sys) && AckSafe(sys) && sys.snd.queue != [] && m in sys.net
    requires CountsFinEarly(sys.rcv, sys.snd.isn, Written(sys), m)
    ensures sys.rcv.Valid() && sys.rcv.Receive(m).Ok? && sys.rcv.Receive(m).value.Send().ackno.Some?
    ensures |sys.snd.queue| <= |sys.log|
    ensures LostByte(AfterEarlyFin(sys, m)) <==> EndsAtGap(sys, sys.rcv.Receive(m).value.Pushed())
    ensures S.FrontStart(sys.snd, sys.log) == 1 + sys.rcv.Receive(m).value.Pushed() ==>
              (LostByte(AfterEarlyFin(sys, m)) <==> |sys.snd.queue[0].payload| == 1 && !sys.snd.queue[0].FIN)
  {
    hide CountsFinEarly;
    hide TcpReceivers.ReceiverState.Receive;
    hide TcpReceivers.ReceiverState.Send;
    hide SenderState.Receive;
    hide S.Contiguous;
    hide S.Payloads;
    hide S.FrontStart;
    hide Flat;
    FalseNumber(sys, m);
    SoundShort(sys);
    ConsistentLogged(sys);
    hide Consistent;
    hide AckHonest;
    var r := sys.rcv.Receive(m).value;
    FalseNumberReleases(sys.snd, sys.log, r.Send(), r.Pushed());
    if S.FrontStart(sys.snd, sys.log) == 1 + r.Pushed() {
      FrontHolds(sys.snd, sys.log, r.Pushed());
    }
  }

  lemma FrontHolds(s: SenderState, log: seq<SenderMessage>, got: nat)
    requires S.Contiguous(s, log) && s.queue != [] && s.fin && got < |s.input.Pushed()|
    requires |s.queue| <= |log| && S.FrontStart(s, log) == 1 + got
    ensures s.queue[0].Length() == 1 <==> |s.queue[0].payload| == 1 && !s.queue[0].FIN
  {
    hide S.Logged;
    hide TotalLength;
    hide S.Payloads;
    hide SenderState.Valid;
    hide Flat;
    S.ContiguousValid(s, log);
    S.QueueIsTail(s, log);
    var d := |log| - |s.queue|;
    S.LoggedStamps(s, log, d);
    hide Wrap32.Plus;
    FinishedTaken(s);
    S.TilingEnd(s, log);
    S.DropFrontContiguous(s, log);
    assert log[..0] == [] && TotalLength([]) == 0 by {
      EmptyLength();
    }
    assert log[..|log|] == log;
  }

  lemma EmptyLength()
    ensures TotalLength([]) == 0
  {
  }

  // ---------- Reachable states ----------

  ghost predicate Reached(sys: System) {
    exists states: seq<System>, acts: seq<Action> :: IsRun(states, acts) && states[|acts|] == sys
  }

  /** Reached by steps that keep acknowledgments safe. */
  ghost predicate ReachedOrderly(sys: System) {
    exists states: seq<System>, acts: seq<Action> :: OrderlyRun(states, acts) && states[|acts|] == sys
  }

  predicate OrderlyRun(states: seq<System>, acts: seq<Action>) {
    IsRun(states, acts) && forall j :: 0 <= j < |acts| ==> Orderly(states[j], acts[j])
  }

  lemma RunSnoc(states: seq<System>, acts: seq<Action>, act: Action, next: System)
    requires IsRun(states, acts) && Next(states[|acts|], act, next)
    ensures IsRun(states + [next], acts + [act])
  {
    hide Next;
  }

  lemma ReachedInit(sys: System)
    requires Init(sys)
    ensures ReachedOrderly(sys)
  {
    var acts: seq<Action> := [];
    assert OrderlyRun([sys], acts) && [sys][|acts|] == sys;
  }

  lemma ReachedStep(sys: System, act: Action, next: System)
    requires Reached(sys) && Next(sys, act, next)
    ensures Reached(next)
  {
    hide Next;
    var states, acts :| IsRun(states, acts) && states[|acts|] == sys;
    RunSnoc(states, acts, act, next);
    assert (states + [next])[|acts + [act]|] == next;
  }

  lemma OrderlyStep(sys: System, act: Action, next: System)
    requires ReachedOrderly(sys) && Next(sys, act, next) && Orderly(sys, act)
    ensures ReachedOrderly(next)
  {
    hide Next;
    hide Orderly;
    var states, acts :| OrderlyRun(states, acts) && states[|acts|] == sys;
    RunSnoc(states, acts, act, next);
    assert OrderlyRun(states + [next], acts + [act]) && (states + [next])[|acts + [act]|] == next;
  }

  lemma OrderlySafe(sys: System)
    requires ReachedOrderly(sys)
    ensures Reached(sys) && Consistent(sys) && AckSafe(sys)
  {
    hide Consistent;
    hide AckSafe;
    hide Init;
    hide Next;
    hide Orderly;
    var states, acts :| OrderlyRun(states, acts) && states[|acts|] == sys;
    RunAckSafe(states, acts, |acts|);
  }

  lemma SegmentNext(sys: System, m: SenderMessage, r: TcpReceivers.ReceiverState)
    requires m in sys.net && sys.rcv.Valid() && sys.rcv.Receive(m) == Reassemblers.Ok(r)
    ensures Next(sys, DeliverSegment(m), sys.(rcv := r))
  {
    hide TcpReceivers.ReceiverState.Receive;
  }

  lemma EmptyNext(sys: System)
    ensures Next(sys, SendEmpty, sys.(net := sys.net + {sys.snd.MakeEmptyMessage()}))
    ensures Orderly(sys, SendEmpty)
  {
    hide SenderState.MakeEmptyMessage;
  }

  lemma AnswerNext(sys: System)
    ensures Next(sys, SendAck, sys.(acks := sys.acks + {sys.rcv.Send()}))
  {
    hide TcpReceivers.ReceiverState.Send;
  }

  lemma AckNext(sys: System, a: ReceiverMessage)
    requires a in sys.acks && a.ackno.Some?
    ensures Next(sys, DeliverAck(a), sys.(snd := sys.snd.Receive(a)))
  {
    hide SenderState.Receive;
  }

  /** A segment on its way that will make the receiver count the FIN early, and an oldest
      outstanding segment that ends where the answer will point. */
  ghost predicate FinOvertakes(sys: System, m: SenderMessage) {
    && m in sys.net && CountsFinEarly(sys.rcv, sys.snd.isn, Written(sys), m)
    && sys.snd.queue != [] && |sys.snd.queue| <= |sys.log|
    && sys.rcv.Valid() && sys.rcv.Receive(m).Ok? && EndsAtGap(sys, sys.rcv.Receive(m).value.Pushed())
  }

  /** Hearing that segment, answering it, and hearing the answer. */
  lemma EarlyFinSteps(sys: System, m: SenderMessage) returns (heard: System, answered: System, last: System)
    requires Consistent(sys) && AckSafe(sys) && sys.snd.queue != [] && m in sys.net
    requires CountsFinEarly(sys.rcv, sys.snd.isn, Written(sys), m)
    ensures Next(sys, DeliverSegment(m), heard) && Next(heard, SendAck, answered)
    ensures Next(answered, DeliverAck(heard.rcv.Send()), last)
    ensures sys.rcv.Valid() && sys.rcv.Receive(m).Ok? && |sys.snd.queue| <= |sys.log|
    ensures LostByte(last) <==> EndsAtGap(sys, sys.rcv.Receive(m).value.Pushed())
  {
    hide *;
    EarlyFinLosesExactly(sys, m);
    var r := sys.rcv.Receive(m).value;
    heard := sys.(rcv := r);
    SegmentNext(sys, m, r);
    answered := heard.(acks := heard.acks + {r.Send()});
    AnswerNext(heard);
    last := answered.(snd := sys.snd.Receive(r.Send()));
    AckNext(answered, r.Send());
    AfterThree(sys, m, last);
  }

  /** From every such state the run can go on to lose the byte. */
  lemma EarlyFinExtends(sys: System, m: SenderMessage)
    requires ReachedOrderly(sys) && FinOvertakes(sys, m)
    ensures exists last :: Reached(last) && LostByte(last)
  {
    hide Consistent;
    hide AckSafe;
    hide CountsFinEarly;
    hide EndsAtGap;
    hide LostByte;
    hide Next;
    hide Reached;
    hide ReachedOrderly;
    hide TcpReceivers.ReceiverState.Receive;
    OrderlySafe(sys);
    var heard, answered, last := EarlyFinSteps(sys, m);
    ReachedStep(sys, DeliverSegment(m), heard);
    ReachedStep(heard, SendAck, answered);
    ReachedStep(answered, DeliverAck(heard.rcv.Send()), last);
    assert Reached(last) && LostByte(last);
  }

  lemma AfterThree(sys: System, m: SenderMessage, last: System)
    requires sys.rcv.Valid() && sys.rcv.Receive(m).Ok? && sys.rcv.Receive(m).value.Send().ackno.Some?
    requires var r := sys.rcv.Receive(m).value;
             last == System(sys.snd.Receive(r.Send()), sys.log, r, sys.net, sys.acks + {r.Send()})
    ensures last == AfterEarlyFin(sys, m)
  {
    hide TcpReceivers.ReceiverState.Receive;
    hide TcpReceivers.ReceiverState.Send;
    hide SenderState.Receive;
  }
}
