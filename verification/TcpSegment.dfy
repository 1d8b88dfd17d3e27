/** A TCP segment on the wire. */
module TcpSegments {
  import opened Bytes
  import WrappingIntegers
  import opened Messages
  import opened Checksums
  import opened Parsers
  import opened Headers

  datatype TcpMessage = TcpMessage(sender: SenderMessage, receiver: ReceiverMessage)

  datatype UserDatagramInfo = UserDatagramInfo(srcPort: u16, dstPort: u16, cksum: u16)

  const HEADER_MIN_WORDS: nat := 5

  /** The flag byte; one bit serves both directions' RST. */
  function FlagByte(msg: TcpMessage): byte {
    16 * Bit(msg.receiver.ackno.Some?) + 4 * Bit(msg.sender.RST || msg.receiver.RST)
    + 2 * Bit(msg.sender.SYN) + Bit(msg.sender.FIN)
  }

  predicate HasBit(octet: nat, bit: nat)
    requires bit > 0
  {
    (octet / bit) % 2 == 1
  }

  function RawAckno(msg: TcpMessage): u32 {
    if msg.receiver.ackno.Some? then msg.receiver.ackno.value.raw else 0
  }

  datatype TcpSegment = TcpSegment(message: TcpMessage, udinfo: UserDatagramInfo) {

    function FrontFields(): seq<Field> {
      [Field(udinfo.srcPort, 2), Field(udinfo.dstPort, 2), Field(message.sender.seqno.raw, 4),
       Field(RawAckno(message), 4), Field(HEADER_MIN_WORDS * 16, 1), Field(FlagByte(message), 1),
       Field(message.receiver.window, 2)]
    }

    function Fields(): seq<Field> {
      FrontFields() + [Field(udinfo.cksum, 2)] + [Field(0, 2)]
    }

    function Serialize(): seq<byte> {
      Pack(Fields()) + message.sender.payload
    }

    /** Zero the field, sum the whole, store the complement. */
    function WithChecksum(pseudo: u32): TcpSegment {
      var zeroed := this.(udinfo := udinfo.(cksum := 0));
      zeroed.(udinfo := udinfo.(cksum := Complement((pseudo + ByteSum(zeroed.Serialize(), false)) % TWO_32)))
    }
  }

  /** The message a header and payload stand for. */
  function MessageOf(seqno: u32, ackno: u32, flags: nat, window: u16, payload: seq<byte>): TcpMessage {
    TcpMessage(
      SenderMessage(WrappingIntegers.Wrap32(seqno), HasBit(flags, 2), payload, HasBit(flags, 1), HasBit(flags, 4)),
      ReceiverMessage(if HasBit(flags, 16) then Some(WrappingIntegers.Wrap32(ackno)) else None, window, HasBit(flags, 4)))
  }

  /** Reading a segment: a bad checksum, a short header or a small data offset is an error;
      options are skipped. */
  function Parse(all: seq<byte>, pseudo: u32): (r: Option<TcpSegment>) {
    if Complement((pseudo + ByteSum(all, false)) % TWO_32) != 0 || |all| < 20 then None
    else
      var offset := FieldAt(all, 12, 1) / 16;
      if offset < HEADER_MIN_WORDS then None
      else
        Widths();
        Some(TcpSegment(
               MessageOf(FieldAt(all, 4, 4), FieldAt(all, 8, 4), FieldAt(all, 13, 1), FieldAt(all, 14, 2),
                         all[Min(4 * offset, |all|)..]),
               UserDatagramInfo(FieldAt(all, 0, 2), FieldAt(all, 2, 2), FieldAt(all, 16, 2))))
  }

  /** Both RST flags come back as their disjunction. */
  function WireForm(msg: TcpMessage): TcpMessage {
    var reset := msg.sender.RST || msg.receiver.RST;
    msg.(sender := msg.sender.(RST := reset), receiver := msg.receiver.(RST := reset))
  }

  lemma FlagsReadBack(msg: TcpMessage, payload: seq<byte>)
    requires payload == msg.sender.payload
    ensures MessageOf(msg.sender.seqno.raw, RawAckno(msg), FlagByte(msg), msg.receiver.window, payload) == WireForm(msg)
  {
    var a, r, s, f := msg.receiver.ackno.Some?, msg.sender.RST || msg.receiver.RST, msg.sender.SYN, msg.sender.FIN;
    BitsReadBack(a, r, s, f);
  }

  lemma BitsReadBack(a: bool, r: bool, s: bool, f: bool)
    ensures var octet := 16 * Bit(a) + 4 * Bit(r) + 2 * Bit(s) + Bit(f);
            HasBit(octet, 16) == a && HasBit(octet, 4) == r && HasBit(octet, 2) == s && HasBit(octet, 1) == f
  {
  }

  lemma FrontLength(seg: TcpSegment)
    ensures |Pack(seg.FrontFields())| == 16
    ensures forall k :: 0 <= k < 7 ==> |Pack(seg.FrontFields()[..k])| == [0, 2, 4, 8, 12, 13, 14][k]
  {
    var f := seg.FrontFields();
    PrefixLengths(f, 7);
    assert f[..7] == f;
    assert f[0].width == 2 && f[1].width == 2 && f[2].width == 4 && f[3].width == 4
           && f[4].width == 1 && f[5].width == 1 && f[6].width == 2;
    hide Pack;
    assert |Pack(f[..0 + 1])| == 2;
    assert |Pack(f[..1 + 1])| == 4;
    assert |Pack(f[..2 + 1])| == 8;
    assert |Pack(f[..3 + 1])| == 12;
    assert |Pack(f[..4 + 1])| == 13;
    assert |Pack(f[..5 + 1])| == 14;
    assert |Pack(f[..6 + 1])| == 16;
  }

  /** The wire image in three parts around the checksum field, which is 16-bit aligned. */
  lemma SerializeSplits(seg: TcpSegment)
    ensures seg.Serialize() == Pack(seg.FrontFields()) + [seg.udinfo.cksum / 256, seg.udinfo.cksum % 256]
                               + ([0, 0] + seg.message.sender.payload)
    ensures |seg.Serialize()| == 20 + |seg.message.sender.payload|
    ensures |Pack(seg.FrontFields())| == 16
  {
    var c, z := Field(seg.udinfo.cksum, 2), Field(0, 2);
    var front := seg.FrontFields();
    PackSnoc(front, c);
    PackSnoc(front + [c], z);
    TwoByteField(seg.udinfo.cksum);
    TwoByteField(0);
    FrontLength(seg);
    hide Pack;
    hide TcpSegment.FrontFields;
    ConcatAssoc(Pack(front) + ToBytes(c.value, 2), ToBytes(0, 2), seg.message.sender.payload);
  }

  /** The segment that carries a valid checksum passes the receiver's check. */
  lemma ChecksumVerifies(seg: TcpSegment, pseudo: u32)
    requires pseudo <= 0x6_0000 && |seg.message.sender.payload| <= 0x1_FF00
    ensures var s := seg.WithChecksum(pseudo).Serialize();
            && |s| == 20 + |seg.message.sender.payload|
            && Complement((pseudo + ByteSum(s, false)) % TWO_32) == 0
  {
    hide Pack;
    hide ByteSum;
    hide Complement;
    hide TcpSegment.Serialize;
    var zeroed := seg.(udinfo := seg.udinfo.(cksum := 0));
    var final := seg.WithChecksum(pseudo);
    SerializeSplits(zeroed);
    SerializeSplits(final);
    assert final.FrontFields() == zeroed.FrontFields() == seg.FrontFields();
    hide TcpSegment.FrontFields;
    ByteSumBound(zeroed.Serialize(), false);
    ByteSumBound(final.Serialize(), false);
    SmallSum(pseudo + ByteSum(zeroed.Serialize(), false));
    SmallSum(pseudo + ByteSum(final.Serialize(), false));
    StoredChecksumVerifies(pseudo, Pack(seg.FrontFields()), [0, 0] + seg.message.sender.payload);
  }

  lemma SmallSum(x: nat)
    requires x < TWO_32
    ensures x % TWO_32 == x
  {
  }

  /** Field `k` of the header is read back from its own offset. */
  lemma HeaderField(seg: TcpSegment, k: nat)
    requires k < 7
    ensures var f, at := seg.FrontFields()[k], [0, 2, 4, 8, 12, 13, 14][k];
            at + f.width <= |seg.Serialize()| && FieldAt(seg.Serialize(), at, f.width) == f.value
  {
    var all, front := seg.Fields(), seg.FrontFields();
    Widths();
    FrontFit(seg, k);
    FrontLength(seg);
    assert all[k] == front[k] && all[..k] == front[..k];
    assert all == all[..k] + [all[k]] + all[k + 1..];
    hide Pack;
    hide TcpSegment.FrontFields;
    hide TcpSegment.Fields;
    FieldReadsBack(all[..k], all[k], all[k + 1..], seg.message.sender.payload);
  }

  lemma FrontFit(seg: TcpSegment, k: nat)
    requires k < 7
    ensures seg.FrontFields()[k].Fits()
  {
    Widths();
  }

  lemma ChecksumField(seg: TcpSegment)
    ensures 18 <= |seg.Serialize()| && FieldAt(seg.Serialize(), 16, 2) == seg.udinfo.cksum
  {
    Widths();
    FrontLength(seg);
    hide Pack;
    hide TcpSegment.FrontFields;
    FieldReadsBack(seg.FrontFields(), Field(seg.udinfo.cksum, 2), [Field(0, 2)], seg.message.sender.payload);
  }

  lemma PayloadReadsBack(seg: TcpSegment)
    ensures |seg.Serialize()| == 20 + |seg.message.sender.payload|
    ensures seg.Serialize()[20..] == seg.message.sender.payload
  {
    SerializeSplits(seg);
    hide Pack;
    hide TcpSegment.FrontFields;
  }

  /** Serializing and parsing a segment gives it back, with the two RST flags as one; the
      payload limit is what keeps the 32-bit sum from overflowing. */
  lemma SegmentRoundTrip(seg: TcpSegment, pseudo: u32)
    requires pseudo <= 0x6_0000 && |seg.message.sender.payload| <= 0x1_FF00
    ensures var sent := seg.WithChecksum(pseudo);
            Parse(sent.Serialize(), pseudo) == Some(sent.(message := WireForm(seg.message)))
  {
    var sent := seg.WithChecksum(pseudo);
    ChecksumVerifies(seg, pseudo);
    assert sent == seg.(udinfo := seg.udinfo.(cksum := sent.udinfo.cksum));
    hide TcpSegment.WithChecksum;
    hide Complement;
    hide ByteSum;
    HeaderField(sent, 0);
    HeaderField(sent, 1);
    HeaderField(sent, 2);
    HeaderField(sent, 3);
    HeaderField(sent, 4);
    HeaderField(sent, 5);
    HeaderField(sent, 6);
    ChecksumField(sent);
    PayloadReadsBack(sent);
    FlagsReadBack(sent.message, sent.message.sender.payload);
    hide TcpSegment.Serialize;
    hide FieldAt;
    hide MessageOf;
    hide FlagByte;
  }

  /** A sent segment in which any one byte has changed is refused. */
  lemma CorruptionRejected(seg: TcpSegment, pseudo: u32, i: nat, b: byte)
    requires pseudo <= 0x6_0000 && |seg.message.sender.payload| <= 0x1_FF00
    requires var s := seg.WithChecksum(pseudo).Serialize(); i < |s| && b != s[i]
    ensures Parse(seg.WithChecksum(pseudo).Serialize()[i := b], pseudo).None?
  {
    var s := seg.WithChecksum(pseudo).Serialize();
    ChecksumVerifies(seg, pseudo);
    hide TcpSegment.WithChecksum;
    hide TcpSegment.Serialize;
    ByteSumBound(s, false);
    ByteSumBound(s[i := b], false);
    hide Complement;
    hide ByteSum;
    SmallSum(pseudo + ByteSum(s, false));
    SmallSum(pseudo + ByteSum(s[i := b], false));
    AlteredByteDetected(pseudo, s, i, b);
  }

  // ---------- The code ----------

  method SerializeSegment(seg: TcpSegment, serializer: Serializer)
    requires serializer.Valid()
    modifies serializer
    ensures serializer.Valid() && serializer.Text() == old(serializer.Text()) + seg.Serialize()
  {
    ghost var start, f := serializer.Text(), seg.Fields();
    WriteField(serializer, seg.udinfo.srcPort, 2, start, f, 0);
    WriteField(serializer, seg.udinfo.dstPort, 2, start, f, 1);
    WriteField(serializer, seg.message.sender.seqno.raw, 4, start, f, 2);
    WriteField(serializer, RawAckno(seg.message), 4, start, f, 3);
    WriteField(serializer, HEADER_MIN_WORDS * 16, 1, start, f, 4);
    WriteField(serializer, FlagByte(seg.message), 1, start, f, 5);
    WriteField(serializer, seg.message.receiver.window, 2, start, f, 6);
    WriteField(serializer, seg.udinfo.cksum, 2, start, f, 7);
    WriteField(serializer, 0, 2, start, f, 8);
    assert f[..9] == f;
    serializer.Buffer(seg.message.sender.payload);
    ConcatAssoc(start, Pack(f), seg.message.sender.payload);
  }

  method ComputeChecksum(seg: TcpSegment, pseudo: u32) returns (r: TcpSegment)
    ensures r == seg.WithChecksum(pseudo)
  {
    hide TcpSegment.Serialize;
    hide Flat;
    r := seg.(udinfo := seg.udinfo.(cksum := 0));
    var s := new Serializer();
    SerializeSegment(r, s);
    assert [] + r.Serialize() == r.Serialize();
    var out := s.Output();
    var check := new InternetChecksum(pseudo);
    check.AddAll(out);
    var v := check.Value();
    r := r.(udinfo := r.udinfo.(cksum := v));
  }

  /** The header is read field by field; errors are kept in the parser. */
  method ParseSegment(parser: Parser, pseudo: u32) returns (seg: TcpSegment)
    requires parser.Valid() && !parser.error
    modifies parser
    ensures parser.Valid() && parser.error == Parse(old(parser.Rest()), pseudo).None?
    ensures !parser.error ==> Parse(old(parser.Rest()), pseudo) == Some(seg)
  {
    ghost var all := parser.Rest();
    seg := TcpSegment(MessageOf(0, 0, 0, 0, []), UserDatagramInfo(0, 0, 0));
    var check := new InternetChecksum(pseudo);
    var views := parser.AllRemaining();
    check.AddAll(views);
    var v := check.Value();
    if v != 0 {
      parser.SetError();
      return;
    }
    seg := ParseHeader(parser, all);
  }

  /** Everything after the checksum test. */
  method ParseHeader(parser: Parser, ghost all: seq<byte>) returns (seg: TcpSegment)
    requires parser.Valid() && !parser.error && parser.Rest() == all
    modifies parser
    ensures parser.Valid()
    ensures parser.error == (|all| < 20 || FieldAt(all, 12, 1) / 16 < HEADER_MIN_WORDS)
    ensures !parser.error ==>
              FieldAt(all, 4, 4) < TWO_32 && FieldAt(all, 8, 4) < TWO_32 && FieldAt(all, 14, 2) < TWO_16
              && FieldAt(all, 0, 2) < TWO_16 && FieldAt(all, 2, 2) < TWO_16 && FieldAt(all, 16, 2) < TWO_16
              && seg == TcpSegment(
                   MessageOf(FieldAt(all, 4, 4), FieldAt(all, 8, 4), FieldAt(all, 13, 1), FieldAt(all, 14, 2),
                             all[Min(4 * (FieldAt(all, 12, 1) / 16), |all|)..]),
                   UserDatagramInfo(FieldAt(all, 0, 2), FieldAt(all, 2, 2), FieldAt(all, 16, 2)))
  {
    hide FieldAt;
    hide Flat;
    hide MessageOf;
    Widths();
    seg := TcpSegment(MessageOf(0, 0, 0, 0, []), UserDatagramInfo(0, 0, 0));
    StartsAtZero(all);
    var srcPort, dstPort, seqno, ackno := ReadNumbers(parser, all);
    var octet, flags, window, cksum := ReadControl(parser, all);
    if parser.error {
      return;
    }
    var dataOffset := octet / 16;
    if dataOffset < HEADER_MIN_WORDS {
      parser.SetError();
      return;
    }
    var payload := SkipOptions(parser, dataOffset, all);
    seg := TcpSegment(MessageOf(seqno, ackno, flags, window, payload), UserDatagramInfo(srcPort, dstPort, cksum));
  }

  /** Ports and numbers: the first 12 bytes. */
  method ReadNumbers(parser: Parser, ghost all: seq<byte>)
    returns (srcPort: nat, dstPort: nat, seqno: nat, ackno: nat)
    requires Cursor(parser, all, false, 0)
    modifies parser
    ensures Cursor(parser, all, false, 12)
    ensures 12 <= |all| ==> srcPort == FieldAt(all, 0, 2) && dstPort == FieldAt(all, 2, 2)
                            && seqno == FieldAt(all, 4, 4) && ackno == FieldAt(all, 8, 4)
  {
    hide Cursor;
    hide FieldAt;
    srcPort := ReadField(parser, 2, all, false, 0);
    dstPort := ReadField(parser, 2, all, false, 2);
    seqno := ReadField(parser, 4, all, false, 4);
    ackno := ReadField(parser, 4, all, false, 8);
  }

  /** Data offset, flags, window, checksum and the unused urgent pointer: the next 8. */
  method ReadControl(parser: Parser, ghost all: seq<byte>)
    returns (octet: nat, flags: nat, window: nat, cksum: nat)
    requires Cursor(parser, all, false, 12)
    modifies parser
    ensures Cursor(parser, all, false, 20)
    ensures 20 <= |all| ==> octet == FieldAt(all, 12, 1) && flags == FieldAt(all, 13, 1)
                            && window == FieldAt(all, 14, 2) && cksum == FieldAt(all, 16, 2)
  {
    hide Cursor;
    hide FieldAt;
    octet := ReadField(parser, 1, all, false, 12);
    flags := ReadField(parser, 1, all, false, 13);
    window := ReadField(parser, 2, all, false, 14);
    cksum := ReadField(parser, 2, all, false, 16);
    var urgent := ReadField(parser, 2, all, false, 18);
  }

  method SkipOptions(parser: Parser, dataOffset: nat, ghost all: seq<byte>) returns (payload: seq<byte>)
    requires Cursor(parser, all, false, 20) && !parser.error && dataOffset >= HEADER_MIN_WORDS
    modifies parser
    ensures parser.Valid() && !parser.error
    ensures payload == all[Min(4 * dataOffset, |all|)..]
  {
    StartsAtIs(parser.Rest(), all, 20);
    hide StartsAt;
    hide Parser.Rest;
    hide Parser.Valid;
    var n := dataOffset * 4 - HEADER_MIN_WORDS * 4;
    DropHeader(all, n);
    parser.RemovePrefix(n);
    payload := parser.RemainingText();
  }
}
