/** IPv4 headers and datagrams on the wire. */
module Ipv4 {
  import opened Bytes
  import opened Messages
  import Checksums
  import Parsers
  import opened Headers

  const LENGTH: nat := 20
  const DEFAULT_TTL: byte := 128
  const PROTO_TCP: byte := 6

  datatype IPv4Header = IPv4Header(
    ver: byte, hlen: byte, tos: byte, len: u16, id: u16, df: bool, mf: bool, offset: u16,
    ttl: byte, proto: byte, cksum: u16, src: u32, dst: u32) {

    function FirstByte(): byte {
      (ver * 16 + hlen % 16) % 256
    }

    /** The flags and the fragment offset share a word. */
    function FragmentWord(): u16 {
      0x4000 * Bit(df) + 0x2000 * Bit(mf) + offset % 0x2000
    }

    function Fields(): seq<Field> {
      [Field(FirstByte(), 1), Field(tos, 1), Field(len, 2), Field(id, 2), Field(FragmentWord(), 2),
       Field(ttl, 1), Field(proto, 1), Field(cksum, 2), Field(src, 4), Field(dst, 4)]
    }

    /** A wrong version is an exception. */
    function Serialize(): Option<seq<byte>> {
      if ver != 4 then None else Some(Pack(Fields()))
    }

    function WithChecksum(): IPv4Header {
      var zeroed := this.(cksum := 0);
      this.(cksum := Checksums.Complement(Checksums.ByteSum(Pack(zeroed.Fields()), false) % TWO_32))
    }

    function PayloadLength(): u16 {
      (len - 4 * hlen) % TWO_16
    }

    /** The pseudo-header's share of the TCP checksum. */
    function PseudoChecksum(): u32 {
      (src / TWO_16 + src % TWO_16 + dst / TWO_16 + dst % TWO_16 + proto + PayloadLength()) % TWO_32
    }
  }

  datatype IPv4Datagram = IPv4Datagram(header: IPv4Header, payload: Chunks)

  /** The header fields at their offsets. */
  function HeaderAt(all: seq<byte>): IPv4Header
    requires |all| >= 20
  {
    Widths();
    var first, word := FieldAt(all, 0, 1), FieldAt(all, 6, 2);
    IPv4Header(first / 16, first % 16, FieldAt(all, 1, 1), FieldAt(all, 2, 2), FieldAt(all, 4, 2),
               (word / 0x4000) % 2 == 1, (word / 0x2000) % 2 == 1, word % 0x2000,
               FieldAt(all, 8, 1), FieldAt(all, 9, 1), FieldAt(all, 10, 2), FieldAt(all, 12, 4), FieldAt(all, 16, 4))
  }

  /** Reading a header: version, header length and checksum are tested, options skipped. */
  function Parse(all: seq<byte>): Option<(IPv4Header, seq<byte>)> {
    if |all| < 20 then None
    else
      var h := HeaderAt(all);
      if h.ver != 4 || h.hlen < 5 || h.WithChecksum().cksum != h.cksum then None
      else Some((h, all[Min(4 * h.hlen, |all|)..]))
  }

  lemma FieldOffsets(h: IPv4Header)
    ensures |Pack(h.Fields())| == 20
    ensures forall k :: 0 <= k < 10 ==> |Pack(h.Fields()[..k])| == [0, 1, 2, 4, 6, 8, 9, 10, 12, 16][k]
  {
    var f := h.Fields();
    PrefixLengths(f, 10);
    assert f[..10] == f;
    assert f[0].width == 1 && f[1].width == 1 && f[2].width == 2 && f[3].width == 2 && f[4].width == 2;
    assert f[5].width == 1 && f[6].width == 1 && f[7].width == 2 && f[8].width == 4 && f[9].width == 4;
    hide Pack;
    hide IPv4Header.Fields;
    assert |Pack(f[..0 + 1])| == 1;
    assert |Pack(f[..1 + 1])| == 2;
    assert |Pack(f[..2 + 1])| == 4;
    assert |Pack(f[..3 + 1])| == 6;
    assert |Pack(f[..4 + 1])| == 8;
    assert |Pack(f[..5 + 1])| == 9;
    assert |Pack(f[..6 + 1])| == 10;
    assert |Pack(f[..7 + 1])| == 12;
    assert |Pack(f[..8 + 1])| == 16;
    assert |Pack(f[..9 + 1])| == 20;
  }

  lemma HeaderField(h: IPv4Header, rest: seq<byte>, k: nat)
    requires k < 10
    ensures var f, at := h.Fields()[k], [0, 1, 2, 4, 6, 8, 9, 10, 12, 16][k];
            at + f.width <= |Pack(h.Fields()) + rest| && FieldAt(Pack(h.Fields()) + rest, at, f.width) == f.value
  {
    var all := h.Fields();
    FieldFits(h, k);
    FieldOffsets(h);
    assert all == all[..k] + [all[k]] + all[k + 1..];
    hide Pack;
    hide IPv4Header.Fields;
    FieldReadsBack(all[..k], all[k], all[k + 1..], rest);
  }

  lemma FieldFits(h: IPv4Header, k: nat)
    requires k < 10
    ensures h.Fields()[k].Fits()
  {
    Widths();
  }

  /** A version 4 header comes back unchanged, with everything after it and after the options that
      its header length announces. */
  lemma HeaderRoundTrip(h: IPv4Header, rest: seq<byte>)
    requires h.ver == 4 && 5 <= h.hlen <= 15 && h.offset < 0x2000
    ensures var sent := h.WithChecksum();
            && sent.Serialize().Some?
            && Parse(sent.Serialize().value + rest) == Some((sent, rest[Min(4 * h.hlen - 20, |rest|)..]))
  {
    var sent := h.WithChecksum();
    ChecksumStable(h);
    hide IPv4Header.WithChecksum;
    hide Checksums.Complement;
    hide Checksums.ByteSum;
    HeaderReadsBack(sent, rest);
    FieldOffsets(sent);
    assert (Pack(sent.Fields()) + rest)[20..] == rest;
    DropHeader(Pack(sent.Fields()) + rest, 4 * h.hlen - 20);
    hide Pack;
    hide IPv4Header.Fields;
  }

  /** The stored checksum does not enter its own computation. */
  lemma ChecksumStable(h: IPv4Header)
    ensures h.WithChecksum().WithChecksum() == h.WithChecksum()
    ensures h.WithChecksum() == h.(cksum := h.WithChecksum().cksum)
  {
    assert h.WithChecksum().(cksum := 0) == h.(cksum := 0);
    hide Checksums.Complement;
    hide Checksums.ByteSum;
    hide Pack;
  }

  lemma HeaderReadsBack(h: IPv4Header, rest: seq<byte>)
    requires h.ver == 4 && h.hlen <= 15 && h.offset < 0x2000
    ensures |Pack(h.Fields()) + rest| >= 20
    ensures HeaderAt(Pack(h.Fields()) + rest) == h
  {
    hide Pack;
    hide FieldAt;
    FieldOffsets(h);
    HeaderField(h, rest, 0);
    HeaderField(h, rest, 1);
    HeaderField(h, rest, 2);
    HeaderField(h, rest, 3);
    HeaderField(h, rest, 4);
    HeaderField(h, rest, 5);
    HeaderField(h, rest, 6);
    HeaderField(h, rest, 7);
    HeaderField(h, rest, 8);
    HeaderField(h, rest, 9);
    FragmentBits(h);
    hide IPv4Header.FragmentWord;
  }

  lemma FragmentBits(h: IPv4Header)
    requires h.offset < 0x2000
    ensures var word := h.FragmentWord();
            ((word / 0x4000) % 2 == 1) == h.df && ((word / 0x2000) % 2 == 1) == h.mf && word % 0x2000 == h.offset
  {
  }

  // ---------- The code ----------

  method SerializeHeader(h: IPv4Header, serializer: Parsers.Serializer) returns (ok: bool)
    requires serializer.Valid()
    modifies serializer
    ensures serializer.Valid() && ok == h.Serialize().Some?
    ensures ok ==> serializer.Text() == old(serializer.Text()) + h.Serialize().value
  {
    if h.ver != 4 {
      return false;
    }
    ghost var start := serializer.Text();
    assert start + Pack(h.Fields()[..0]) == start;
    WriteFirstHalf(h, serializer, start);
    WriteSecondHalf(h, serializer, start);
    assert h.Fields()[..10] == h.Fields();
    ok := true;
  }

  method WriteFirstHalf(h: IPv4Header, serializer: Parsers.Serializer, ghost start: seq<byte>)
    requires serializer.Valid() && serializer.Text() == start + Pack(h.Fields()[..0])
    modifies serializer
    ensures serializer.Valid() && serializer.Text() == start + Pack(h.Fields()[..5])
  {
    hide Pack;
    ghost var f := h.Fields();
    WriteField(serializer, h.FirstByte(), 1, start, f, 0);
    WriteField(serializer, h.tos, 1, start, f, 1);
    WriteField(serializer, h.len, 2, start, f, 2);
    WriteField(serializer, h.id, 2, start, f, 3);
    WriteField(serializer, h.FragmentWord(), 2, start, f, 4);
  }

  method WriteSecondHalf(h: IPv4Header, serializer: Parsers.Serializer, ghost start: seq<byte>)
    requires serializer.Valid() && serializer.Text() == start + Pack(h.Fields()[..5])
    modifies serializer
    ensures serializer.Valid() && serializer.Text() == start + Pack(h.Fields()[..10])
  {
    hide Pack;
    ghost var f := h.Fields();
    WriteField(serializer, h.ttl, 1, start, f, 5);
    WriteField(serializer, h.proto, 1, start, f, 6);
    WriteField(serializer, h.cksum, 2, start, f, 7);
    WriteField(serializer, h.src, 4, start, f, 8);
    WriteField(serializer, h.dst, 4, start, f, 9);
  }

  method ComputeChecksum(h: IPv4Header) returns (r: IPv4Header)
    requires h.ver == 4
    ensures r == h.WithChecksum()
  {
    r := h.(cksum := 0);
    var s := new Parsers.Serializer();
    var ok := SerializeHeader(r, s);
    assert [] + Pack(r.Fields()) == Pack(r.Fields());
    var out := s.Output();
    var check := new Checksums.InternetChecksum(0);
    check.AddAll(out);
    var v := check.Value();
    r := r.(cksum := v);
  }

  /** The first 10 bytes. */
  method ReadFirstHalf(parser: Parsers.Parser, ghost all: seq<byte>)
    returns (first: nat, tos: nat, len: nat, id: nat, word: nat, ttl: nat, proto: nat)
    requires Cursor(parser, all, false, 0)
    modifies parser
    ensures Cursor(parser, all, false, 10)
    ensures 10 <= |all| ==> first == FieldAt(all, 0, 1) && tos == FieldAt(all, 1, 1) && len == FieldAt(all, 2, 2)
                            && id == FieldAt(all, 4, 2) && word == FieldAt(all, 6, 2)
                            && ttl == FieldAt(all, 8, 1) && proto == FieldAt(all, 9, 1)
  {
    hide Cursor;
    hide FieldAt;
    first := ReadField(parser, 1, all, false, 0);
    tos := ReadField(parser, 1, all, false, 1);
    len := ReadField(parser, 2, all, false, 2);
    id := ReadField(parser, 2, all, false, 4);
    word := ReadField(parser, 2, all, false, 6);
    ttl := ReadField(parser, 1, all, false, 8);
    proto := ReadField(parser, 1, all, false, 9);
  }

  method ReadSecondHalf(parser: Parsers.Parser, ghost all: seq<byte>) returns (cksum: nat, src: nat, dst: nat)
    requires Cursor(parser, all, false, 10)
    modifies parser
    ensures Cursor(parser, all, false, 20)
    ensures 20 <= |all| ==> cksum == FieldAt(all, 10, 2) && src == FieldAt(all, 12, 4) && dst == FieldAt(all, 16, 4)
  {
    hide Cursor;
    hide FieldAt;
    cksum := ReadField(parser, 2, all, false, 10);
    src := ReadField(parser, 4, all, false, 12);
    dst := ReadField(parser, 4, all, false, 16);
  }

  const DEFAULT_HEADER: IPv4Header :=
    IPv4Header(4, 5, 0, 0, 0, true, false, 0, DEFAULT_TTL, PROTO_TCP, 0, 0, 0)

  method ParseHeader(parser: Parsers.Parser) returns (h: IPv4Header)
    requires parser.Valid() && !parser.error
    modifies parser
    ensures parser.Valid() && parser.error == Parse(old(parser.Rest())).None?
    ensures !parser.error ==> Parse(old(parser.Rest())) == Some((h, parser.Rest()))
  {
    hide FieldAt;
    hide Flat;
    hide Pack;
    hide IPv4Header.WithChecksum;
    ghost var all := parser.Rest();
    Parsers.StartsAtZero(all);
    Widths();
    h := DEFAULT_HEADER;
    var first, tos, len, id, word, ttl, proto := ReadFirstHalf(parser, all);
    var cksum, src, dst := ReadSecondHalf(parser, all);
    if parser.error {
      return;
    }
    h := IPv4Header(first / 16, first % 16, tos, len, id, (word / 0x4000) % 2 == 1, (word / 0x2000) % 2 == 1,
                    word % 0x2000, ttl, proto, cksum, src, dst);
    assert h == HeaderAt(all);
    hide HeaderAt;
    CheckHeader(parser, h, all);
  }

  /** The tests on a header that has been read, and the step over its options. */
  method CheckHeader(parser: Parsers.Parser, h: IPv4Header, ghost all: seq<byte>)
    requires Cursor(parser, all, false, 20) && !parser.error
    modifies parser
    ensures parser.Valid()
    ensures parser.error == (h.ver != 4 || h.hlen < 5 || h.WithChecksum().cksum != h.cksum)
    ensures !parser.error ==> parser.Rest() == all[Min(4 * h.hlen, |all|)..]
  {
    hide Flat;
    hide IPv4Header.WithChecksum;
    if h.ver != 4 {
      parser.SetError();
    }
    if h.hlen < 5 {
      parser.SetError();
    }
    if parser.error {
      return;
    }
    var n := h.hlen * 4 - LENGTH;
    DropHeader(all, n);
    parser.RemovePrefix(n);
    var computed := ComputeChecksum(h);
    if computed.cksum != h.cksum {
      parser.SetError();
    }
  }
}
