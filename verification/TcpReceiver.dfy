/** Segments in, reassembled bytes and acknowledgments out. */
module TcpReceivers {
  import opened Bytes
  import opened WrappingIntegers
  import opened Reassemblers
  import opened Messages

  datatype ReceiverState = ReceiverState(
    reassembler: ReassemblerState, isn: Wrap32, curSeq: Wrap32, capacity: nat,
    seenSyn: bool, synAccounted: bool, seenFin: bool, finAccounted: bool) {

    predicate Valid() {
      reassembler.Valid() && capacity == reassembler.Capacity()
    }

    function Pushed(): nat {
      reassembler.Pushed()
    }

    /** The flags a segment sets before its payload is looked at. */
    function NoteFlags(m: SenderMessage): ReceiverState {
      this.(isn := if m.SYN then m.seqno else isn,
            curSeq := if m.SYN then m.seqno else curSeq,
            seenSyn := seenSyn || m.SYN,
            seenFin := seenFin || m.FIN)
    }

    function NoteReset(m: SenderMessage): ReceiverState {
      if m.RST then this.(reassembler := reassembler.(output := reassembler.output.SetError())) else this
    }

    /** A sequence number as an absolute one, near the bytes pushed. */
    function Absolute(seqno: Wrap32): u64 {
      seqno.Unwrap(isn, Pushed() % TWO_64)
    }

    /** Payload further ahead than expected. */
    predicate Ahead(m: SenderMessage) {
      m.payload != [] && Absolute(m.seqno) > Absolute(curSeq)
    }

    /** Where the payload goes in the stream; the SYN takes a sequence number but no index. */
    function StreamIndex(m: SenderMessage): nat {
      if m.payload != [] && Absolute(m.seqno) != Absolute(curSeq) then (Absolute(m.seqno) - 1) % TWO_64
      else if curSeq == isn then Absolute(curSeq)
      else (Absolute(curSeq) - 1) % TWO_64
    }

    /** The next expected sequence number after pushing, counting each flag once. */
    function Advance(pushedBefore: nat): ReceiverState {
      var pushed := curSeq.Plus((Pushed() - pushedBefore) % TWO_32);
      var withSyn := if seenSyn && !synAccounted then pushed.Plus(1) else pushed;
      var withFin := if seenFin && !finAccounted then withSyn.Plus(1) else withSyn;
      this.(curSeq := withFin, synAccounted := synAccounted || seenSyn, finAccounted := finAccounted || seenFin)
    }

    function Receive(m: SenderMessage): (r: Outcome<ReceiverState>)
      requires Valid()
      ensures r.Ok? ==> r.value.Valid() && r.value.capacity == capacity
    {
      var start := NoteReset(m);
      if !m.SYN && !seenSyn then Ok(start)
      else
        var r := start.NoteFlags(m);
        match r.reassembler.Insert(r.StreamIndex(m), m.payload, m.FIN)
        case OutOfRange => OutOfRange
        case Ok(reassembler') =>
          var r' := r.(reassembler := reassembler');
          Ok(if r.Ahead(m) then r' else r'.Advance(r.Pushed()))
    }

    /** The window is 32-bit, then 16-bit arithmetic. */
    function Send(): ReceiverMessage {
      ReceiverMessage(
        if seenSyn then Some(curSeq) else None,
        (Min(capacity, 0xFFFF) - reassembler.output.Buffered()) % TWO_16,
        reassembler.output.error)
    }
  }

  function NewReceiver(capacity: nat): ReceiverState {
    ReceiverState(NewReassembler(capacity), Wrap32(0), Wrap32(0), capacity, false, false, false, false)
  }

  class TCPReceiver {
    const reassembler: Reassembler
    const capacity: nat
    var isn: Wrap32
    var curSeq: Wrap32
    var seenSyn: bool
    var synAccounted: bool
    var seenFin: bool
    var finAccounted: bool

    ghost predicate Valid()
      reads this, reassembler, reassembler.output
    {
      reassembler.Valid() && capacity == reassembler.output.capacity
    }

    ghost function View(): ReceiverState
      requires reassembler.output.Valid()
      reads this, reassembler, reassembler.output
    {
      ReceiverState(reassembler.View(), isn, curSeq, capacity, seenSyn, synAccounted, seenFin, finAccounted)
    }

    constructor (reassembler: Reassembler)
      requires reassembler.Valid() && reassembler.View() == NewReassembler(reassembler.output.capacity)
      ensures this.reassembler == reassembler && Valid()
      ensures View() == NewReceiver(reassembler.output.capacity)
    {
      this.reassembler := reassembler;
      capacity := reassembler.output.AvailableCapacity();
      isn, curSeq := Wrap32(0), Wrap32(0);
      seenSyn, synAccounted, seenFin, finAccounted := false, false, false, false;
    }

    /** On `!ok` the reassembler has thrown, and nothing is promised. */
    method Receive(m: SenderMessage) returns (ok: bool)
      requires Valid()
      modifies this, reassembler, reassembler.output
      ensures ok <==> old(View()).Receive(m).Ok?
      ensures ok ==> Valid() && View() == old(View()).Receive(m).value
    {
      hide Wrap32.Unwrap;
      hide ReassemblerState.Insert;
      hide ReceiverState.StreamIndex;
      hide ReceiverState.Ahead;
      hide ReceiverState.Advance;
      hide Flat;
      hide NoEmptyChunk;
      if m.RST {
        reassembler.output.SetError();
      }
      if !m.SYN && !seenSyn {
        return true;
      }
      if m.SYN {
        isn := m.seqno;
        curSeq := isn;
        seenSyn := true;
      }
      if m.FIN {
        seenFin := true;
      }
      var prevPushed := reassembler.output.BytesPushed();
      ghost var r := View();
      var index, ahead := Locate(m);
      ok := reassembler.Insert(index, m.payload, m.FIN);
      if ok && !ahead {
        Advance(prevPushed);
      }
    }

    /** Where the payload is inserted, and whether the call then returns at once. */
    method Locate(m: SenderMessage) returns (index: nat, ahead: bool)
      requires Valid()
      ensures index == View().StreamIndex(m) && ahead == View().Ahead(m)
    {
      hide Wrap32.Unwrap;
      hide Flat;
      hide NoEmptyChunk;
      var checkpoint := reassembler.output.BytesPushed() % TWO_64;
      var messageSeqno := m.seqno.Unwrap(isn, checkpoint);
      var curSeqno := curSeq.Unwrap(isn, checkpoint);
      if m.payload != [] {
        if messageSeqno > curSeqno {
          return (messageSeqno - 1) % TWO_64, true;
        }
        if messageSeqno < curSeqno {
          return (messageSeqno - 1) % TWO_64, false;
        } else if curSeq == isn {
          return curSeqno, false;
        } else {
          return (curSeqno - 1) % TWO_64, false;
        }
      } else if curSeq != isn {
        return (curSeqno - 1) % TWO_64, false;
      } else {
        return curSeqno, false;
      }
    }

    method Advance(prevPushed: nat)
      requires Valid()
      modifies this
      ensures Valid() && View() == old(View()).Advance(prevPushed)
    {
      curSeq := curSeq.Plus((reassembler.output.BytesPushed() - prevPushed) % TWO_32);
      if seenSyn && !synAccounted {
        curSeq := curSeq.Plus(1);
        synAccounted := true;
      }
      if seenFin && !finAccounted {
        curSeq := curSeq.Plus(1);
        finAccounted := true;
      }
    }

    function Send(): (msg: ReceiverMessage)
      requires Valid()
      reads this, reassembler, reassembler.output
      ensures msg == View().Send()
    {
      var realCapacity := if capacity > 0xFFFF then 0xFFFF else capacity;
      var window := (realCapacity - reassembler.output.BytesBuffered()) % TWO_16;
      if !seenSyn then ReceiverMessage(None, window, reassembler.output.error)
      else ReceiverMessage(Some(curSeq), window, reassembler.output.error)
    }
  }
}
