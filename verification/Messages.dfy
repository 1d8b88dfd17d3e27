/** What the two halves of a connection say to each other. */
module Messages {
  import opened Bytes
  import opened WrappingIntegers

  datatype Option<+T> = None | Some(value: T)

  datatype SenderMessage = SenderMessage(seqno: Wrap32, SYN: bool, payload: seq<byte>, FIN: bool, RST: bool) {
    /** How many sequence numbers the segment uses. */
    function Length(): nat {
      Bit(SYN) + |payload| + Bit(FIN)
    }
  }

  datatype ReceiverMessage = ReceiverMessage(ackno: Option<Wrap32>, window: u16, RST: bool)

  function Bit(b: bool): nat {
    if b then 1 else 0
  }
}
