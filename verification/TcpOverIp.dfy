/** TCP messages in IPv4 datagrams: what one end wraps, the other end unwraps. */
module TcpOverIp {
  import opened Bytes
  import opened Messages
  import Checksums
  import Parsers
  import Headers
  import opened TcpSegments
  import opened Ipv4

  datatype Endpoint = Endpoint(ip: u32, port: u16)

  /** An adapter's configuration. A listening adapter knows its own port only. */
  datatype Config = Config(source: Endpoint, destination: Endpoint, listening: bool) {

    /** The header before its checksum is stored. */
    function PlainHeader(msg: TcpMessage): IPv4Header {
      DEFAULT_HEADER.(src := source.ip, dst := destination.ip, len := (5 * 4 + 20 + |msg.sender.payload|) % TWO_16)
    }

    function SegmentFor(msg: TcpMessage): TcpSegment {
      TcpSegment(msg, UserDatagramInfo(source.port, destination.port, 0))
        .WithChecksum(PlainHeader(msg).PseudoChecksum())
    }

    /** The bytes of the datagram that carries `msg`. */
    function Wire(msg: TcpMessage): seq<byte> {
      Headers.Pack(PlainHeader(msg).WithChecksum().Fields()) + SegmentFor(msg).Serialize()
    }

    predicate ForUs(header: IPv4Header) {
      listening || (header.dst == source.ip && header.src == destination.ip)
    }

    /** What a datagram delivers, and the configuration it leaves behind. */
    function Unwrap(header: IPv4Header, payload: seq<byte>): (Config, Option<TcpMessage>) {
      if !ForUs(header) || header.proto != PROTO_TCP then (this, None)
      else
        match TcpSegments.Parse(payload, header.PseudoChecksum())
        case None => (this, None)
        case Some(seg) =>
          if seg.udinfo.dstPort != source.port then (this, None)
          else if listening then
            if seg.message.sender.SYN && !seg.message.sender.RST
            then (Config(Endpoint(header.dst, source.port), Endpoint(header.src, seg.udinfo.srcPort), false),
                  Some(seg.message))
            else (this, None)
          else (this, if seg.udinfo.srcPort == destination.port then Some(seg.message) else None)
    }

    /** The same for the bytes of a whole datagram. */
    function Receive(wire: seq<byte>): (Config, Option<TcpMessage>) {
      match Ipv4.Parse(wire)
      case None => (this, None)
      case Some((header, payload)) => Unwrap(header, payload)
    }
  }

  lemma PseudoBound(h: IPv4Header)
    requires h.proto == PROTO_TCP
    ensures h.PseudoChecksum() <= 0x6_0000
  {
  }

  lemma HeaderSurvives(c: Config, msg: TcpMessage)
    ensures var h := c.PlainHeader(msg).WithChecksum();
            && Ipv4.Parse(c.Wire(msg)) == Some((h, c.SegmentFor(msg).Serialize()))
            && h.PseudoChecksum() == c.PlainHeader(msg).PseudoChecksum()
            && h.src == c.source.ip && h.dst == c.destination.ip && h.proto == PROTO_TCP
  {
    HeaderRoundTrip(c.PlainHeader(msg), c.SegmentFor(msg).Serialize());
    ChecksumStable(c.PlainHeader(msg));
    assert c.SegmentFor(msg).Serialize()[0..] == c.SegmentFor(msg).Serialize();
    hide Ipv4.Parse;
    hide IPv4Header.WithChecksum;
    hide Headers.Pack;
    hide TcpSegment.Serialize;
    hide Config.SegmentFor;
  }

  lemma SegmentSurvives(c: Config, msg: TcpMessage)
    requires |msg.sender.payload| <= 0x1_FF00
    ensures var seg := TcpSegments.Parse(c.SegmentFor(msg).Serialize(), c.PlainHeader(msg).PseudoChecksum());
            && seg.Some? && seg.value.message == WireForm(msg)
            && seg.value.udinfo.srcPort == c.source.port && seg.value.udinfo.dstPort == c.destination.port
  {
    PseudoBound(c.PlainHeader(msg));
    SegmentRoundTrip(TcpSegment(msg, UserDatagramInfo(c.source.port, c.destination.port, 0)),
                     c.PlainHeader(msg).PseudoChecksum());
    hide TcpSegments.Parse;
    hide TcpSegment.Serialize;
    hide Checksums.Complement;
    hide Checksums.ByteSum;
  }

  /** Exactly who receives a message: a connected peer with mirrored addresses, or a listening one
      on the right port if the message opens a connection, which then becomes that mirrored peer. */
  lemma DeliveredExactly(c: Config, peer: Config, msg: TcpMessage)
    requires |msg.sender.payload| <= 0x1_FF00
    ensures peer.Receive(c.Wire(msg)) ==
            if !peer.listening then
              (peer, if peer.source == c.destination && peer.destination == c.source then Some(WireForm(msg)) else None)
            else if peer.source.port == c.destination.port && msg.sender.SYN && !msg.sender.RST && !msg.receiver.RST then
              (Config(c.destination, c.source, false), Some(WireForm(msg)))
            else
              (peer, None)
  {
    HeaderSurvives(c, msg);
    SegmentSurvives(c, msg);
    hide Ipv4.Parse;
    hide TcpSegments.Parse;
    hide TcpSegment.Serialize;
    hide IPv4Header.WithChecksum;
    hide IPv4Header.PseudoChecksum;
    hide Config.SegmentFor;
    hide Config.PlainHeader;
    hide Config.Wire;
  }

  /** After one opening segment both directions of the new connection work. */
  lemma HandshakeConnects(c: Config, peer: Config, opening: TcpMessage, forth: TcpMessage, back: TcpMessage)
    requires !c.listening && peer.listening && peer.source.port == c.destination.port
    requires opening.sender.SYN && !opening.sender.RST && !opening.receiver.RST
    requires |opening.sender.payload| <= 0x1_FF00 && |forth.sender.payload| <= 0x1_FF00
             && |back.sender.payload| <= 0x1_FF00
    ensures var connected := peer.Receive(c.Wire(opening)).0;
            && connected.Receive(c.Wire(forth)) == (connected, Some(WireForm(forth)))
            && c.Receive(connected.Wire(back)) == (c, Some(WireForm(back)))
  {
    DeliveredExactly(c, peer, opening);
    var connected := Config(c.destination, c.source, false);
    DeliveredExactly(c, connected, forth);
    DeliveredExactly(connected, c, back);
    hide Config.Receive;
    hide Config.Wire;
  }

  // ---------- The code ----------

  method SerializeDatagram(dgram: IPv4Datagram) returns (ok: bool, out: Chunks)
    ensures ok == dgram.header.Serialize().Some?
    ensures ok ==> Flat(out) == dgram.header.Serialize().value + Flat(dgram.payload) && NoEmptyChunk(out)
  {
    hide Headers.Pack;
    var serializer := new Parsers.Serializer();
    ok := SerializeHeader(dgram.header, serializer);
    if !ok {
      return false, [];
    }
    ghost var head := serializer.Text();
    assert head + Flat(dgram.payload[..0]) == head;
    for i := 0 to |dgram.payload|
      invariant serializer.Valid() && serializer.Text() == head + Flat(dgram.payload[..i])
      invariant fresh(serializer)
    {
      assert dgram.payload[..i + 1] == dgram.payload[..i] + [dgram.payload[i]];
      FlatSnoc(dgram.payload[..i], dgram.payload[i]);
      ConcatAssoc(head, Flat(dgram.payload[..i]), dgram.payload[i]);
      serializer.Buffer(dgram.payload[i]);
    }
    assert dgram.payload[..|dgram.payload|] == dgram.payload;
    out := serializer.Output();
  }

  /** However the bytes are cut into buffers. */
  method ParseDatagram(buffers: Chunks) returns (r: Option<IPv4Datagram>)
    requires NoEmptyChunk(buffers)
    ensures r.Some? == Ipv4.Parse(Flat(buffers)).Some?
    ensures r.Some? ==> Ipv4.Parse(Flat(buffers)) == Some((r.value.header, Flat(r.value.payload)))
                        && NoEmptyChunk(r.value.payload)
  {
    hide Ipv4.Parse;
    var parser := new Parsers.Parser(buffers);
    var header := Ipv4.ParseHeader(parser);
    var payload := parser.AllRemaining();
    r := if parser.error then None else Some(IPv4Datagram(header, payload));
  }

  class TCPOverIPv4Adapter {
    var source: Endpoint
    var destination: Endpoint
    var listening: bool

    function State(): Config
      reads this
    {
      Config(source, destination, listening)
    }

    constructor (source: Endpoint, destination: Endpoint, listening: bool)
      ensures State() == Config(source, destination, listening)
    {
      this.source, this.destination, this.listening := source, destination, listening;
    }

    method WrapTcpInIp(msg: TcpMessage) returns (dgram: IPv4Datagram)
      ensures dgram.header.Serialize().Some?
      ensures dgram.header.Serialize().value + Flat(dgram.payload) == State().Wire(msg)
      ensures NoEmptyChunk(dgram.payload)
    {
      hide Headers.Pack;
      hide TcpSegment.WithChecksum;
      hide IPv4Header.WithChecksum;
      hide IPv4Header.PseudoChecksum;
      hide TcpSegment.Serialize;
      var seg := TcpSegment(msg, UserDatagramInfo(source.port, destination.port, 0));
      var header := DEFAULT_HEADER;
      header := header.(src := source.ip);
      header := header.(dst := destination.ip);
      header := header.(len := (header.hlen * 4 + 20 + |msg.sender.payload|) % TWO_16);
      seg := TcpSegments.ComputeChecksum(seg, header.PseudoChecksum());
      ChecksumStable(header);
      header := Ipv4.ComputeChecksum(header);
      var serializer := new Parsers.Serializer();
      SerializeSegment(seg, serializer);
      var out := serializer.Output();
      assert [] + seg.Serialize() == seg.Serialize();
      dgram := IPv4Datagram(header, out);
    }

    method UnwrapTcpInIp(dgram: IPv4Datagram) returns (r: Option<TcpMessage>)
      requires NoEmptyChunk(dgram.payload)
      modifies this
      ensures (State(), r) == old(State()).Unwrap(dgram.header, Flat(dgram.payload))
    {
      hide TcpSegments.Parse;
      hide Flat;
      hide IPv4Header.PseudoChecksum;
      if !listening && dgram.header.dst != source.ip {
        return None;
      }
      if !listening && dgram.header.src != destination.ip {
        return None;
      }
      if dgram.header.proto != PROTO_TCP {
        return None;
      }
      var parser := new Parsers.Parser(dgram.payload);
      var seg := ParseSegment(parser, dgram.header.PseudoChecksum());
      if parser.error {
        return None;
      }
      if seg.udinfo.dstPort != source.port {
        return None;
      }
      if listening {
        if seg.message.sender.SYN && !seg.message.sender.RST {
          source := Endpoint(dgram.header.dst, source.port);
          destination := Endpoint(dgram.header.src, seg.udinfo.srcPort);
          listening := false;
        } else {
          return None;
        }
      }
      if seg.udinfo.srcPort != destination.port {
        return None;
      }
      return Some(seg.message);
    }
  }
}
