/** Datagrams byte by byte: the pseudo-header, the layout of a segment, and which bytes deliver a message. */
module WireProofs {
  import opened Bytes
  import opened Messages
  import opened Checksums
  import opened Parsers
  import opened Headers
  import opened TcpSegments
  import opened Ipv4
  import opened Ipv4Proofs
  import opened TcpOverIp

  // ---------- The pseudo-header ----------

  /** The twelve bytes that section 3.1 of RFC 9293 puts in front of a segment for its checksum. */
  function PseudoHeader(src: u32, dst: u32, proto: byte, length: u16): seq<byte> {
    ToBytes(src, 4) + ToBytes(dst, 4) + [0, proto] + ToBytes(length, 2)
  }

  lemma FourByteField(v: u32)
    ensures ToBytes(v, 4) == [v / 0x100_0000, v / 0x1_0000 % 0x100] + [v / 0x100 % 0x100, v % 0x100]
  {
    TwoByteField(v / 0x1_0000);
    assert ToBytes(v / 0x100, 3) == ToBytes(v / 0x1_0000, 2) + [v / 0x100 % 0x100];
  }

  lemma Halves(v: u32)
    ensures v / 0x100_0000 * 256 + v / 0x1_0000 % 0x100 == v / 0x1_0000
    ensures v / 0x100 % 0x100 * 256 + v % 0x100 == v % 0x1_0000
  {
  }

  lemma FourByteSum(v: u32)
    ensures ByteSum(ToBytes(v, 4), false) == v / 0x1_0000 + v % 0x1_0000
  {
    FourByteField(v);
    Halves(v);
    var a, b, c, d := v / 0x100_0000, v / 0x1_0000 % 0x100, v / 0x100 % 0x100, v % 0x100;
    ByteSumAppend([a, b], [c, d], false);
    TwoBytes(a, b);
    TwoBytes(c, d);
    hide ByteSum;
    hide ToBytes;
  }

  lemma PseudoHeaderSum(src: u32, dst: u32, proto: byte, length: u16)
    ensures |PseudoHeader(src, dst, proto, length)| == 12
    ensures ByteSum(PseudoHeader(src, dst, proto, length), false) ==
            (src / 0x1_0000 + src % 0x1_0000) + (dst / 0x1_0000 + dst % 0x1_0000) + proto + length
  {
    hide ByteSum;
    hide ToBytes;
    var a, b, c, d := ToBytes(src, 4), ToBytes(dst, 4), [0, proto], ToBytes(length, 2);
    FourByteSum(src);
    FourByteSum(dst);
    TwoBytes(0, proto);
    TwoByteSum(length);
    ByteSumAppend(a, b, false);
    ByteSumAppend(a + b, c, false);
    ByteSumAppend(a + b + c, d, false);
  }

  lemma TwoByteSum(v: u16)
    ensures ByteSum(ToBytes(v, 2), false) == v
  {
    TwoByteField(v);
    TwoBytes(v / 0x100, v % 0x100);
    hide ByteSum;
    hide ToBytes;
  }

  /** The code's shortcut is the sum over those bytes, both addresses, protocol and length. */
  lemma PseudoIsSum(h: IPv4Header)
    ensures |PseudoHeader(h.src, h.dst, h.proto, h.PayloadLength())| == 12
    ensures h.PseudoChecksum() == ByteSum(PseudoHeader(h.src, h.dst, h.proto, h.PayloadLength()), false)
  {
    hide PseudoHeader;
    hide ByteSum;
    hide IPv4Header.PayloadLength;
    PseudoHeaderSum(h.src, h.dst, h.proto, h.PayloadLength());
    SmallSum(ByteSum(PseudoHeader(h.src, h.dst, h.proto, h.PayloadLength()), false));
  }

  // ---------- The layout of a segment ----------

  /** Every field at its place in section 3.1 of RFC 9293: no options, no urgent pointer. */
  predicate SegmentLaidOut(seg: TcpSegment, s: seq<byte>) {
    var msg := seg.message;
    && |s| == 20 + |msg.sender.payload|
    && Word(s[0], s[1]) == seg.udinfo.srcPort
    && Word(s[2], s[3]) == seg.udinfo.dstPort
    && Quad(s[4], s[5], s[6], s[7]) == msg.sender.seqno.raw
    && Quad(s[8], s[9], s[10], s[11]) == (if msg.receiver.ackno.Some? then msg.receiver.ackno.value.raw else 0)
    && s[12] == 0x50
    && s[13] == 0x10 * Bit(msg.receiver.ackno.Some?) + 4 * Bit(msg.sender.RST || msg.receiver.RST)
                + 2 * Bit(msg.sender.SYN) + Bit(msg.sender.FIN)
    && Word(s[14], s[15]) == msg.receiver.window
    && Word(s[16], s[17]) == seg.udinfo.cksum
    && s[18] == 0 && s[19] == 0
    && s[20..] == msg.sender.payload
  }

  lemma SegmentLayout(seg: TcpSegment)
    ensures SegmentLaidOut(seg, seg.Serialize())
  {
    hide Word;
    hide Quad;
    hide TcpSegment.Serialize;
    PayloadReadsBack(seg);
    SegmentNumber(seg, 0);
    SegmentNumber(seg, 1);
    SegmentNumber(seg, 2);
    SegmentNumber(seg, 3);
    SegmentNumber(seg, 4);
    SegmentNumber(seg, 5);
    SegmentNumber(seg, 6);
    TrailerBytes(seg);
  }

  /** Field `k`, as a number made of the bytes at its offset. */
  lemma SegmentNumber(seg: TcpSegment, k: nat)
    requires k < 7
    ensures var s, at, f := seg.Serialize(), [0, 2, 4, 8, 12, 13, 14][k], seg.FrontFields()[k];
            && at + f.width <= 16 <= |s|
            && (f.width == 1 ==> f.value == s[at])
            && (f.width == 2 ==> f.value == Word(s[at], s[at + 1]))
            && (f.width == 4 ==> f.value == Quad(s[at], s[at + 1], s[at + 2], s[at + 3]))
  {
    TcpSegments.HeaderField(seg, k);
    SerializeSplits(seg);
    FieldBytes(seg.Serialize(), [0, 2, 4, 8, 12, 13, 14][k]);
    hide FieldAt;
    hide TcpSegment.Serialize;
    hide Pack;
  }

  lemma TrailerBytes(seg: TcpSegment)
    ensures var s := seg.Serialize();
            |s| >= 20 && Word(s[16], s[17]) == seg.udinfo.cksum && s[18] == 0 && s[19] == 0
  {
    SerializeSplits(seg);
    hide TcpSegment.Serialize;
    hide TcpSegment.FrontFields;
    hide Pack;
  }

  // ---------- What goes on the wire ----------

  /** For every message that fits a datagram: the header's length is the number of bytes sent, its
      addresses, protocol and ports are where a router or a peer looks for them, and both checksums are
      those of the standards, the TCP one with the pseudo-header in front. */
  lemma WireStandard(c: Config, msg: TcpMessage)
    requires |msg.sender.payload| <= 65495
    ensures var w := c.Wire(msg);
            && |w| == 40 + |msg.sender.payload| == Word(w[2], w[3])
            && w[0] == 0x45 && w[8] == 128 && w[9] == 6
            && Quad(w[12], w[13], w[14], w[15]) == c.source.ip
            && Quad(w[16], w[17], w[18], w[19]) == c.destination.ip
            && Word(w[20], w[21]) == c.source.port && Word(w[22], w[23]) == c.destination.port
            && w[40..] == msg.sender.payload
            && Sums(w[..20])
            && Sums(PseudoHeader(c.source.ip, c.destination.ip, 6, |w| - 20) + w[20..])
  {
    HeaderOnWire(c, msg);
    SegmentOnWire(c, msg);
    WireSlices(Image(c.PlainHeader(msg).WithChecksum()), c.SegmentFor(msg).Serialize());
    assert c.Wire(msg) == Image(c.PlainHeader(msg).WithChecksum()) + c.SegmentFor(msg).Serialize() by {
      hide Pack;
      hide TcpSegment.Serialize;
    }
    hide *;
  }

  lemma WireSlices(head: seq<byte>, tail: seq<byte>)
    requires |head| == 20 <= |tail|
    ensures (head + tail)[..20] == head && (head + tail)[20..] == tail && (head + tail)[40..] == tail[20..]
  {
  }

  lemma HeaderOnWire(c: Config, msg: TcpMessage)
    requires |msg.sender.payload| <= 65495
    ensures var s := Image(c.PlainHeader(msg).WithChecksum());
            && |s| == 20 && Sums(s) && Word(s[2], s[3]) == 40 + |msg.sender.payload|
            && s[0] == 0x45 && s[8] == 128 && s[9] == 6
            && Quad(s[12], s[13], s[14], s[15]) == c.source.ip
            && Quad(s[16], s[17], s[18], s[19]) == c.destination.ip
  {
    hide *;
    hide LaidOut;
    hide Sums;
    SentFields(c, msg);
    HeaderChecks(c.PlainHeader(msg));
    HeaderLayout(c.PlainHeader(msg).WithChecksum());
    HeaderBytes(c.PlainHeader(msg).WithChecksum(), Image(c.PlainHeader(msg).WithChecksum()));
  }

  lemma SentFields(c: Config, msg: TcpMessage)
    requires |msg.sender.payload| <= 65495
    ensures var h := c.PlainHeader(msg).WithChecksum();
            && h.ver == 4 && h.hlen == 5 && h.len == 40 + |msg.sender.payload| && h.offset == 0 && h.ttl == 128
            && h.proto == 6 && h.src == c.source.ip && h.dst == c.destination.ip
  {
    ChecksumStable(c.PlainHeader(msg));
    hide IPv4Header.WithChecksum;
  }

  lemma HeaderBytes(h: IPv4Header, s: seq<byte>)
    requires LaidOut(h, s)
    ensures |s| == 20 && s[0] == (16 * h.ver + h.hlen % 16) % 0x100 && Word(s[2], s[3]) == h.len && s[8] == h.ttl && s[9] == h.proto
    ensures Quad(s[12], s[13], s[14], s[15]) == h.src && Quad(s[16], s[17], s[18], s[19]) == h.dst
  {
    hide Word;
    hide Quad;
  }

  lemma SegmentOnWire(c: Config, msg: TcpMessage)
    requires |msg.sender.payload| <= 65495
    ensures var s := c.SegmentFor(msg).Serialize();
            && |s| == 20 + |msg.sender.payload| && s[20..] == msg.sender.payload
            && Word(s[0], s[1]) == c.source.port && Word(s[2], s[3]) == c.destination.port
            && Sums(PseudoHeader(c.source.ip, c.destination.ip, 6, |s|) + s)
  {
    SegmentLayout(c.SegmentFor(msg));
    SegmentSums(c, msg);
    hide Sums;
    hide Word;
    hide Quad;
    hide PseudoHeader;
    hide TcpSegment.Serialize;
    hide IPv4Header.PseudoChecksum;
    hide ByteSum;
    hide Complement;
  }

  lemma JoinedSum(front: seq<byte>, s: seq<byte>)
    requires |front| == 12
    ensures ByteSum(front + s, false) == ByteSum(front, false) + ByteSum(s, false)
  {
    ByteSumAppend(front, s, false);
    hide ByteSum;
  }

  lemma PlainLength(c: Config, msg: TcpMessage)
    requires |msg.sender.payload| <= 65495
    ensures c.PlainHeader(msg).PayloadLength() == 20 + |msg.sender.payload| && c.PlainHeader(msg).proto == PROTO_TCP == 6
  {
  }

  lemma SmallSegment(pseudo: nat, s: seq<byte>)
    requires pseudo <= 0x6_0000 && |s| <= 0x1_FF14
    ensures (pseudo + ByteSum(s, false)) % TWO_32 == pseudo + ByteSum(s, false)
  {
    ByteSumBound(s, false);
    hide ByteSum;
    SmallSum(pseudo + ByteSum(s, false));
  }

  /** The payload length of the header is the length of the segment, and the segment sums. */
  lemma SegmentSums(c: Config, msg: TcpMessage)
    requires |msg.sender.payload| <= 65495
    ensures var h, s := c.PlainHeader(msg), c.SegmentFor(msg).Serialize();
            && h.PayloadLength() == |s|
            && Sums(PseudoHeader(h.src, h.dst, 6, h.PayloadLength()) + s)
  {
    var h, s := c.PlainHeader(msg), c.SegmentFor(msg).Serialize();
    PlainLength(c, msg);
    PseudoBound(h);
    ChecksumVerifies(TcpSegment(msg, UserDatagramInfo(c.source.port, c.destination.port, 0)), h.PseudoChecksum());
    PseudoIsSum(h);
    JoinedSum(PseudoHeader(h.src, h.dst, 6, h.PayloadLength()), s);
    SmallSegment(h.PseudoChecksum(), s);
    hide Config.PlainHeader;
    hide IPv4Header.PayloadLength;
    hide ByteSum;
    hide Complement;
    hide PseudoHeader;
    hide TcpSegment.Serialize;
    hide IPv4Header.PseudoChecksum;
    hide TcpSegment.WithChecksum;
  }

  // ---------- Which bytes deliver a message ----------

  function Beyond(bytes: seq<byte>, n: nat): seq<byte> {
    bytes[Min(n, |bytes|)..]
  }

  /** Which bytes are read as a segment. */
  lemma SegmentAccepted(s: seq<byte>, pseudo: u32)
    requires pseudo <= 0x6_0000 && |s| <= 0x1_FF14
    ensures TcpSegments.Parse(s, pseudo).Some? <==>
              |s| >= 20 && s[12] / 16 >= 5 && Complement(pseudo + ByteSum(s, false)) == 0
  {
    hide FieldAt;
    hide MessageOf;
    hide ByteSum;
    hide Complement;
    hide Pow256;
    SmallSegment(pseudo, s);
    FieldBytes(s, 12);
  }

  /** `msg` is what the bytes of a segment say, options skipped by the data offset. */
  predicate Reads(msg: TcpMessage, s: seq<byte>)
    requires |s| >= 20
  {
    && msg.sender.seqno.raw == Quad(s[4], s[5], s[6], s[7])
    && msg.receiver.ackno.Some? == HasBit(s[13], 16)
    && (msg.receiver.ackno.Some? ==> msg.receiver.ackno.value.raw == Quad(s[8], s[9], s[10], s[11]))
    && msg.sender.RST == msg.receiver.RST == HasBit(s[13], 4)
    && msg.sender.SYN == HasBit(s[13], 2)
    && msg.sender.FIN == HasBit(s[13], 1)
    && msg.receiver.window == Word(s[14], s[15])
    && msg.sender.payload == Beyond(s, 4 * (s[12] as nat / 16))
  }

  lemma SegmentRead(s: seq<byte>, pseudo: u32)
    requires TcpSegments.Parse(s, pseudo).Some?
    ensures |s| >= 20
    ensures var seg := TcpSegments.Parse(s, pseudo).value;
            && seg.udinfo.srcPort == Word(s[0], s[1])
            && seg.udinfo.dstPort == Word(s[2], s[3])
            && Reads(seg.message, s)
  {
    FieldBytes(s, 0);
    FieldBytes(s, 2);
    FieldBytes(s, 4);
    FieldBytes(s, 8);
    FieldBytes(s, 12);
    FieldBytes(s, 13);
    FieldBytes(s, 14);
    hide FieldAt;
    hide Word;
    hide Quad;
    hide HasBit;
    hide ByteSum;
    hide Complement;
  }

  /** The bytes after the header and its options. */
  function Carried(w: seq<byte>): seq<byte>
    requires |w| >= 20
  {
    Beyond(w, 4 * (w[0] as nat % 16))
  }

  /** A datagram for this end: from its peer, or from anyone if it is listening. */
  predicate Addressed(c: Config, w: seq<byte>)
    requires |w| >= 20
  {
    || c.listening
    || (Quad(w[12], w[13], w[14], w[15]) == c.destination.ip && Quad(w[16], w[17], w[18], w[19]) == c.source.ip)
  }

  /** A segment for this port: from the peer's, or, if listening, one that opens a connection. */
  predicate ForPort(c: Config, s: seq<byte>)
    requires |s| >= 20
  {
    && Word(s[2], s[3]) == c.source.port
    && (if c.listening then HasBit(s[13], 2) && !HasBit(s[13], 4) else Word(s[0], s[1]) == c.destination.port)
  }

  /** The segment and the pseudo-header in front of it sum to all ones. */
  predicate SegmentSummed(w: seq<byte>)
    requires |w| >= 20
  {
    var src, dst := Quad(w[12], w[13], w[14], w[15]), Quad(w[16], w[17], w[18], w[19]);
    var length := (Word(w[2], w[3]) - 4 * (w[0] as nat % 16)) % TWO_16;
    Sums(PseudoHeader(src, dst, 6, length) + Carried(w))
  }

  /** Whatever bytes arrive: exactly these deliver a message, and it is what the segment behind the
      header and its options says. */
  lemma ReceivedExactly(c: Config, w: seq<byte>)
    requires |w| <= 0x1_FF14
    ensures c.Receive(w).1.Some? <==>
              && Ipv4.Parse(w).Some? && |w| >= 20 && w[9] == 6 && Addressed(c, w)
              && |Carried(w)| >= 20 && Carried(w)[12] / 16 >= 5 && SegmentSummed(w) && ForPort(c, Carried(w))
    ensures c.Receive(w).1.Some? ==> Reads(c.Receive(w).1.value, Carried(w))
  {
    if Ipv4.Parse(w).Some? {
      var (h, s) := Ipv4.Parse(w).value;
      HeaderRead(w);
      if h.proto == 6 {
        SegmentChecked(h, s);
        if TcpSegments.Parse(s, h.PseudoChecksum()).Some? {
          SegmentRead(s, h.PseudoChecksum());
        }
      }
    }
    hide Ipv4.Parse;
    hide Sums;
    hide PseudoHeader;
    hide Word;
    hide Quad;
    hide Carried;
    hide Beyond;
    hide IPv4Header.PseudoChecksum;
    hide IPv4Header.PayloadLength;
    hide TcpSegments.Parse;
    hide HasBit;
  }

  lemma HeaderRead(w: seq<byte>)
    requires Ipv4.Parse(w).Some?
    ensures |w| >= 20
    ensures var (h, s) := Ipv4.Parse(w).value;
            && s == Carried(w) && h.proto == w[9]
            && h.src == Quad(w[12], w[13], w[14], w[15]) && h.dst == Quad(w[16], w[17], w[18], w[19])
            && h.PayloadLength() == (Word(w[2], w[3]) - 4 * (w[0] as nat % 16)) % TWO_16
  {
    hide Ipv4.Parse;
    hide HeaderAt;
    hide Word;
    hide Quad;
    hide Beyond;
    ParsedParts(w);
    NumbersRead(w);
  }

  lemma ParsedParts(w: seq<byte>)
    requires Ipv4.Parse(w).Some?
    ensures |w| >= 20 && Ipv4.Parse(w).value == (HeaderAt(w), Beyond(w, 4 * HeaderAt(w).hlen))
  {
    hide HeaderAt;
    hide IPv4Header.WithChecksum;
  }

  lemma SegmentChecked(h: IPv4Header, s: seq<byte>)
    requires h.proto == 6 && |s| <= 0x1_FF14
    ensures TcpSegments.Parse(s, h.PseudoChecksum()).Some? <==>
              |s| >= 20 && s[12] / 16 >= 5 && Sums(PseudoHeader(h.src, h.dst, 6, h.PayloadLength()) + s)
  {
    PseudoBound(h);
    PseudoIsSum(h);
    JoinedSum(PseudoHeader(h.src, h.dst, 6, h.PayloadLength()), s);
    SegmentAccepted(s, h.PseudoChecksum());
    hide PseudoHeader;
    hide IPv4Header.PseudoChecksum;
    hide IPv4Header.PayloadLength;
    hide TcpSegments.Parse;
    hide ByteSum;
    hide Complement;
  }
}
