/** A reset travels: from a stream with an error to both streams of the other end. */
module Resets {
  import opened Bytes
  import ByteStreams
  import opened Messages
  import Reassemblers
  import opened TcpReceivers
  import opened TcpSenders
  import SenderProofs
  import SenderWindow
  import opened TcpSegments
  import opened TcpOverIp

  /** The error flag of a receiver's stream. */
  predicate Failed(r: ReceiverState) {
    r.reassembler.output.error
  }

  lemma PiecesKeepError(r: Reassemblers.ReassemblerState, first: nat, data: seq<byte>, last: bool)
    ensures r.TakeInOrder(first, data).output.error == r.output.error
    ensures r.Finish(first, data, last).output.error == r.output.error
    ensures forall at: nat :: at <= |r.bitmap| == |r.storage| ==> r.Flush(at).output.error == r.output.error
  {
    hide Flat;
    hide NoEmptyChunk;
    hide Reassemblers.RunLength;
  }

  lemma InsertKeepsError(r: Reassemblers.ReassemblerState, first: nat, data: seq<byte>, last: bool)
    requires r.Valid() && r.Insert(first, data, last).Ok?
    ensures r.Insert(first, data, last).value.output.error == r.output.error
  {
    hide Reassemblers.ReassemblerState.TakeInOrder;
    hide Reassemblers.ReassemblerState.Flush;
    hide Reassemblers.ReassemblerState.Finish;
    hide Reassemblers.ReassemblerState.StashAt;
    hide Reassemblers.ReassemblerState.StashRoom;
    hide Reassemblers.ReassemblerState.IsValidIndex;
    hide Reassemblers.Replace;
    hide Flat;
    hide NoEmptyChunk;
    var r0 := r.Allocate();
    if first <= r.cur || r0.IsValidIndex(first) {
      PiecesKeepError(r0, first, data, last);
      var r1 := if first <= r.cur then r0.TakeInOrder(first, data) else r0.Stash(first, data).value;
      PiecesKeepError(r1, first, data, last);
      PiecesKeepError(r1.Flush(r1.FlushAt()), first, data, last);
    }
  }

  /** A received RST, and nothing else, sets the error, and from then on every message back says so. */
  lemma ReceiveNotesReset(r: ReceiverState, m: SenderMessage)
    requires r.Valid() && r.Receive(m).Ok?
    ensures Failed(r.Receive(m).value) == (Failed(r) || m.RST)
    ensures r.Receive(m).value.Send().RST == (Failed(r) || m.RST)
  {
    if m.SYN || r.seenSyn {
      var r' := r.NoteReset(m).NoteFlags(m);
      InsertKeepsError(r'.reassembler, r'.StreamIndex(m), m.payload, m.FIN);
    }
    hide Reassemblers.ReassemblerState.Insert;
    hide ReceiverState.StreamIndex;
    hide ReceiverState.Ahead;
    hide Flat;
  }

  /** What a sender puts on its way: the segments of a push, or a message of length zero. */
  predicate Offers(s: SenderState, m: SenderMessage)
    requires s.Valid() && !s.Hangs()
  {
    m in s.Push().1 || m == s.MakeEmptyMessage()
  }

  lemma {:induction false} LengthInQueue(queue: seq<SenderMessage>, k: nat)
    requires k < |queue|
    ensures queue[k].Length() <= TotalLength(queue)
  {
    if k < |queue| - 1 {
      LengthInQueue(queue[..|queue| - 1], k);
    }
  }

  lemma SentFits(s: SenderState, k: nat)
    requires s.Valid() && !s.Hangs() && k < |s.Push().1|
    ensures |s.Push().1[k].payload| <= 0x1_0000
  {
    hide SenderState.Push;
    hide SenderProofs.Payloads;
    hide TotalLength;
    hide Flat;
    SenderProofs.PushKeepsWindow(s);
    var queue, n := s.Push().0.queue, |s.queue|;
    assert queue[n + k] == s.Push().1[k];
    LengthInQueue(queue, n + k);
  }

  /** Whatever is offered carries an RST exactly if the stream has an error. */
  lemma OfferMarked(s: SenderState, m: SenderMessage)
    requires s.Valid() && !s.Hangs() && Offers(s, m)
    ensures m.RST == s.input.error && |m.payload| <= 0x1_0000
    ensures m !in s.Push().1 ==> m.Length() == 0
  {
    SenderWindow.PushMarks(s);
    if m in s.Push().1 {
      var k :| 0 <= k < |s.Push().1| && s.Push().1[k] == m;
      SentFits(s, k);
    }
    hide SenderState.Push;
    hide SenderState.Valid;
  }

  /** An acknowledgment's RST reaches the sender's stream, whatever else it does. */
  lemma SenderNotesReset(s: SenderState, msg: ReceiverMessage)
    requires s.queue != [] ==> msg.ackno.Some?
    ensures s.Receive(msg).input.error == (s.input.error || msg.RST)
  {
    if s.queue != [] {
      SenderWindow.DropKeepsHeard(s.NoteWindow(msg), msg.ackno.value);
    }
    hide SenderState.DropAcknowledged;
  }

  /** End to end through the bytes of a datagram: a message joins what the sender `s` offers with what
      the receiver `q` beside it answers; at the connected peer it sets the errors of both streams
      exactly if either stream at its origin had one. */
  lemma ResetEndToEnd(s: SenderState, q: ReceiverState, m: SenderMessage, c: Config, peer: Config,
                      t: SenderState, r: ReceiverState)
    requires s.Valid() && !s.Hangs() && Offers(s, m)
    requires !peer.listening && peer.source == c.destination && peer.destination == c.source
    requires r.Valid() && (t.queue != [] ==> q.seenSyn)
    ensures var got := peer.Receive(c.Wire(TcpMessage(m, q.Send()))).1;
            var reset := s.input.error || Failed(q);
            && got.Some?
            && (r.Receive(got.value.sender).Ok? ==> Failed(r.Receive(got.value.sender).value) == (Failed(r) || reset))
            && (t.queue != [] ==> got.value.receiver.ackno.Some?)
            && t.Receive(got.value.receiver).input.error == (t.input.error || reset)
  {
    OfferMarked(s, m);
    var msg := TcpMessage(m, q.Send());
    DeliveredExactly(c, peer, msg);
    if r.Receive(WireForm(msg).sender).Ok? {
      ReceiveNotesReset(r, WireForm(msg).sender);
    }
    SenderNotesReset(t, WireForm(msg).receiver);
    hide Config.Receive;
    hide Config.Wire;
    hide ReceiverState.Receive;
    hide SenderState.Receive;
    hide Offers;
    hide SenderState.Valid;
  }
}
