/** IPv4 headers byte by byte: where each field stands, and which headers pass the check. */
module Ipv4Proofs {
  import opened Bytes
  import opened Messages
  import opened Checksums
  import opened Parsers
  import opened Headers
  import opened Ipv4

  function Image(h: IPv4Header): seq<byte> {
    Pack(h.Fields())
  }

  // ---------- Layout ----------

  /** Every field at its place in section 3.1 of RFC 791, most significant byte first. */
  predicate LaidOut(h: IPv4Header, s: seq<byte>) {
    && |s| == 20
    && s[0] == (16 * h.ver + h.hlen % 16) % 0x100
    && s[1] == h.tos
    && Word(s[2], s[3]) == h.len
    && Word(s[4], s[5]) == h.id
    && s[6] == 64 * Bit(h.df) + 32 * Bit(h.mf) + h.offset % 0x2000 / 0x100
    && s[7] == h.offset % 0x100
    && s[8] == h.ttl
    && s[9] == h.proto
    && Word(s[10], s[11]) == h.cksum
    && Quad(s[12], s[13], s[14], s[15]) == h.src
    && Quad(s[16], s[17], s[18], s[19]) == h.dst
  }

  lemma HeaderLayout(h: IPv4Header)
    ensures LaidOut(h, Image(h))
  {
    hide Pack;
    hide Image;
    hide Word;
    hide Quad;
    hide IPv4Header.FragmentWord;
    var s := Image(h);
    HeaderNumber(h, 0);
    HeaderNumber(h, 1);
    HeaderNumber(h, 2);
    HeaderNumber(h, 3);
    HeaderNumber(h, 4);
    HeaderNumber(h, 5);
    HeaderNumber(h, 6);
    HeaderNumber(h, 7);
    HeaderNumber(h, 8);
    HeaderNumber(h, 9);
    WordBytes(h, s[6], s[7]);
  }

  /** Field `k`, as a number made of the bytes at its offset. */
  lemma HeaderNumber(h: IPv4Header, k: nat)
    requires k < 10
    ensures var s, at, width, v := Image(h), [0, 1, 2, 4, 6, 8, 9, 10, 12, 16][k], h.Fields()[k].width, h.Fields()[k].value;
            && at + width <= |s| == 20
            && (width == 1 ==> v == s[at])
            && (width == 2 ==> v == Word(s[at], s[at + 1]))
            && (width == 4 ==> v == Quad(s[at], s[at + 1], s[at + 2], s[at + 3]))
  {
    hide Pack;
    hide IPv4Header.Fields;
    FieldOffsets(h);
    HeaderField(h, [], k);
    assert Image(h) + [] == Image(h);
    FieldBytes(Image(h), [0, 1, 2, 4, 6, 8, 9, 10, 12, 16][k]);
    hide FieldAt;
  }

  lemma WordBytes(h: IPv4Header, hi: byte, lo: byte)
    requires h.FragmentWord() == Word(hi, lo)
    ensures hi == 64 * Bit(h.df) + 32 * Bit(h.mf) + h.offset % 0x2000 / 0x100 && lo == h.offset % 0x100
  {
    var low := h.offset % 0x2000;
    assert low == 0x100 * (low / 0x100) + low % 0x100 && low % 0x100 == h.offset % 0x100;
  }

  // ---------- The header checksum ----------

  /** What section 3.1 of RFC 791 asks of a header: its sum, the stored checksum included, is all ones. */
  predicate Sums(s: seq<byte>) {
    Complement(ByteSum(s, false)) == 0
  }

  /** The image in three parts around the checksum field, which is 16-bit aligned. */
  lemma ImageSplits(h: IPv4Header)
    ensures var front, back := Pack(h.Fields()[..7]), Pack(h.Fields()[8..]);
            && |front| == 10 && |Image(h)| == 20
            && Image(h) == front + [h.cksum / 0x100, h.cksum % 0x100] + back
  {
    var f := h.Fields();
    FieldOffsets(h);
    assert f == f[..7] + [Field(h.cksum, 2)] + f[8..];
    PackAppend(f[..7] + [Field(h.cksum, 2)], f[8..]);
    PackSnoc(f[..7], Field(h.cksum, 2));
    TwoByteField(h.cksum);
    hide Pack;
    hide IPv4Header.Fields;
  }

  lemma SumIsSmall(h: IPv4Header)
    ensures ByteSum(Image(h), false) < TWO_32
  {
    FieldOffsets(h);
    ByteSumBound(Image(h), false);
    hide ByteSum;
    hide Pack;
  }

  /** Every header carries the checksum of RFC 1071: the sum over its 20 bytes complements to zero. */
  lemma HeaderChecks(h: IPv4Header)
    ensures |Image(h.WithChecksum())| == 20
    ensures Sums(Image(h.WithChecksum()))
  {
    hide Pack;
    hide ByteSum;
    hide Complement;
    hide IPv4Header.Fields;
    var zeroed, sent := h.(cksum := 0), h.WithChecksum();
    SameAround(zeroed, sent.cksum);
    ImageSplits(zeroed);
    ImageSplits(sent);
    SumIsSmall(zeroed);
    StoredChecksumVerifies(0, Pack(zeroed.Fields()[..7]), Pack(zeroed.Fields()[8..]));
  }

  lemma SameAround(h: IPv4Header, c: u16)
    ensures |h.Fields()| == |h.(cksum := c).Fields()| == 10
    ensures h.(cksum := c).Fields()[..7] == h.Fields()[..7] && h.(cksum := c).Fields()[8..] == h.Fields()[8..]
  {
  }

  // ---------- Which headers are accepted ----------

  /** The first 20 bytes without the reserved flag bit, which the fields do not keep. */
  function Cleared(all: seq<byte>): seq<byte>
    requires |all| >= 20
  {
    all[..20][6 := all[6] % 0x80]
  }

  /** Writing out the fields just read gives the header back, but for the reserved bit. */
  lemma RereadImage(all: seq<byte>)
    requires |all| >= 20
    ensures Image(HeaderAt(all)) == Cleared(all)
  {
    var h := HeaderAt(all);
    NumbersRead(all);
    HeaderLayout(h);
    ClearedLaidOut(all);
    OneLayout(h, Image(h), Cleared(all));
    hide *;
  }

  lemma ClearedLaidOut(all: seq<byte>)
    requires |all| >= 20
    ensures LaidOut(HeaderAt(all), Cleared(all))
  {
    hide HeaderAt;
    hide Word;
    hide Quad;
    NumbersRead(all);
    FlagsReread(all[6], all[7]);
    FirstByteReread(all[0]);
  }

  /** The layout leaves no freedom. */
  lemma OneLayout(h: IPv4Header, s: seq<byte>, t: seq<byte>)
    requires LaidOut(h, s) && LaidOut(h, t)
    ensures s == t
  {
    hide Word;
    hide Quad;
    SameWord(s[2], s[3], t[2], t[3]);
    SameWord(s[4], s[5], t[4], t[5]);
    SameWord(s[10], s[11], t[10], t[11]);
    SameQuad(s[12], s[13], s[14], s[15], t[12], t[13], t[14], t[15]);
    SameQuad(s[16], s[17], s[18], s[19], t[16], t[17], t[18], t[19]);
  }

  /** The fields as numbers made of the bytes read. */
  lemma NumbersRead(all: seq<byte>)
    requires |all| >= 20
    ensures var h := HeaderAt(all);
            && h.ver == all[0] / 16 && h.hlen == all[0] % 16 && h.tos == all[1]
            && h.len == Word(all[2], all[3]) && h.id == Word(all[4], all[5])
            && h.df == ((all[6] / 0x40) % 2 == 1) && h.mf == ((all[6] / 0x20) % 2 == 1)
            && h.offset == Word(all[6] % 0x20, all[7])
            && h.ttl == all[8] && h.proto == all[9] && h.cksum == Word(all[10], all[11])
            && h.src == Quad(all[12], all[13], all[14], all[15])
            && h.dst == Quad(all[16], all[17], all[18], all[19])
  {
    hide FieldAt;
    FieldBytes(all, 0);
    FieldBytes(all, 1);
    FieldBytes(all, 2);
    FieldBytes(all, 4);
    FieldBytes(all, 6);
    FieldBytes(all, 8);
    FieldBytes(all, 9);
    FieldBytes(all, 10);
    FieldBytes(all, 12);
    FieldBytes(all, 16);
    WordFlags(all[6], all[7]);
  }

  lemma WordFlags(hi: byte, lo: byte)
    ensures var word := Word(hi, lo);
            && (word / 0x4000) % 2 == (hi / 0x40) % 2 && (word / 0x2000) % 2 == (hi / 0x20) % 2
            && word % 0x2000 == Word(hi % 0x20, lo)
  {
  }

  lemma FlagsReread(hi: byte, lo: byte)
    ensures var offset := Word(hi % 0x20, lo);
            && offset < 0x2000 && offset % 0x100 == lo
            && 64 * Bit((hi / 0x40) % 2 == 1) + 32 * Bit((hi / 0x20) % 2 == 1) + offset % 0x2000 / 0x100 == hi % 0x80
  {
    HighBits(hi);
    LowBits(hi % 0x20, lo);
    hide Word;
  }

  lemma HighBits(hi: byte)
    ensures 64 * Bit((hi / 0x40) % 2 == 1) + 32 * Bit((hi / 0x20) % 2 == 1) + hi % 0x20 == hi % 0x80
  {
    var q, x, y, z := hi / 0x80, hi / 0x40 % 2, hi / 0x20 % 2, hi % 0x20;
    assert hi == 0x80 * q + 0x40 * x + 0x20 * y + z;
  }

  lemma LowBits(z: nat, lo: byte)
    requires z < 0x20
    ensures Word(z, lo) % 0x100 == lo && Word(z, lo) % 0x2000 / 0x100 == z && Word(z, lo) < 0x2000
  {
  }

  lemma SameWord(a: byte, b: byte, c: byte, d: byte)
    ensures Word(a, b) == Word(c, d) ==> a == c && b == d
  {
  }

  lemma SameQuad(a: byte, b: byte, c: byte, d: byte, a': byte, b': byte, c': byte, d': byte)
    ensures Quad(a, b, c, d) == Quad(a', b', c', d') ==> a == a' && b == b' && c == c' && d == d'
  {
    if Quad(a, b, c, d) == Quad(a', b', c', d') {
      assert 0x1_0000 * Word(a, b) + Word(c, d) == 0x1_0000 * Word(a', b') + Word(c', d');
      assert 0 <= Word(c, d) < 0x1_0000 && 0 <= Word(c', d') < 0x1_0000;
      assert Word(a, b) == Word(a', b');
    }
  }

  lemma FirstByteReread(b: byte)
    ensures (16 * (b / 16) + b % 16 % 16) % 0x100 == b
  {
  }

  lemma PositiveSum(s: seq<byte>)
    requires s != [] && s[0] > 0
    ensures ByteSum(s, false) > 0
  {
    assert s == [s[0]] + s[1..];
    ByteSumAppend([s[0]], s[1..], false);
    OneByte(s[0], false);
  }

  lemma StoredAdds(h: IPv4Header)
    ensures ByteSum(Image(h), false) == ByteSum(Image(h.(cksum := 0)), false) + h.cksum
  {
    ImageSplits(h);
    ImageSplits(h.(cksum := 0));
    SameAround(h, 0);
    FieldAddsItsValue(Pack(h.Fields()[..7]), h.cksum, Pack(h.Fields()[8..]));
    hide Pack;
    hide ByteSum;
    hide IPv4Header.Fields;
  }

  /** Comparing with the recomputed checksum, for a header that starts with version 4. */
  lemma CheckedExactly(h: IPv4Header)
    requires h.ver == 4
    ensures h.WithChecksum().cksum == h.cksum <==> h.cksum != 0xFFFF && Sums(Image(h))
  {
    hide ByteSum;
    hide Complement;
    var zeroed := h.(cksum := 0);
    StoredAdds(h);
    SumIsSmall(zeroed);
    ImagePositive(zeroed);
    ComparedExactly(ByteSum(Image(zeroed), false), h.cksum);
    assert h.WithChecksum().cksum == Complement(ByteSum(Image(zeroed), false));
    hide IPv4Header.WithChecksum;
    hide Image;
    hide Pack;
  }

  lemma ImagePositive(h: IPv4Header)
    requires h.ver == 4
    ensures ByteSum(Image(h), false) > 0
  {
    hide Image;
    hide ByteSum;
    HeaderNumber(h, 0);
    PositiveSum(Image(h));
  }

  /** Exactly which byte strings are read as a header: the reserved bit does not enter the sum, and
      a stored checksum of all ones is never right. */
  lemma AcceptedExactly(all: seq<byte>)
    ensures Parse(all).Some? <==>
              && |all| >= 20 && all[0] / 16 == 4 && all[0] % 16 >= 5
              && Word(all[10], all[11]) != 0xFFFF && Sums(Cleared(all))
  {
    if |all| >= 20 {
      NumbersRead(all);
      RereadImage(all);
      var h := HeaderAt(all);
      if h.ver == 4 {
        CheckedExactly(h);
      }
    }
    hide HeaderAt;
    hide Image;
    hide Sums;
    hide Cleared;
    hide Word;
    hide IPv4Header.WithChecksum;
  }

  lemma ClearedSum(all: seq<byte>)
    requires |all| >= 20
    ensures |all[..20]| == 20 && all[..20][6] == all[6]
    ensures ByteSum(Cleared(all), false) == ByteSum(all[..20], false) - (if all[6] >= 0x80 then 0x8000 else 0)
  {
    ByteSumUpdate(all[..20], 6, all[6] % 0x80);
    hide ByteSum;
  }

  /** Against the standard: the same verdict on every header without the reserved bit and without a
      stored checksum of all ones, and no header accepted by both otherwise. */
  lemma StandardExactly(all: seq<byte>)
    requires |all| >= 20 && all[0] / 16 == 4 && all[0] % 16 >= 5
    ensures all[6] < 0x80 && Word(all[10], all[11]) != 0xFFFF ==> (Parse(all).Some? <==> Sums(all[..20]))
    ensures all[6] >= 0x80 || Word(all[10], all[11]) == 0xFFFF ==> !(Parse(all).Some? && Sums(all[..20]))
  {
    AcceptedExactly(all);
    ClearedSum(all);
    PassesExactly(ByteSum(Cleared(all), false));
    PassesExactly(ByteSum(all[..20], false));
    hide ByteSum;
    hide Complement;
    hide Parse;
    hide Word;
    hide Cleared;
  }

  /** The standard sums the options too; of the headers it accepts, the code accepts exactly those whose
      options and reserved bit add nothing. */
  lemma OptionsExactly(all: seq<byte>, n: nat)
    requires |all| >= n >= 20 && all[0] / 16 == 4 && n == 4 * (all[0] % 16) && Sums(all[..n])
    ensures Parse(all).Some? <==>
              && Word(all[10], all[11]) != 0xFFFF
              && (ByteSum(all[20..n], false) + if all[6] >= 0x80 then 0x8000 else 0) % 0xFFFF == 0
  {
    AcceptedExactly(all);
    ClearedSum(all);
    assert all[..n] == all[..20] + all[20..n];
    ByteSumAppend(all[..20], all[20..n], false);
    assert Cleared(all)[0] == all[0];
    PositiveSum(Cleared(all));
    PassesExactly(ByteSum(all[..n], false));
    PassesExactly(ByteSum(Cleared(all), false));
    Differs(ByteSum(Cleared(all), false), ByteSum(all[20..n], false) + if all[6] >= 0x80 then 0x8000 else 0);
    hide ByteSum;
    hide Complement;
    hide Parse;
    hide Word;
    hide Cleared;
  }

  lemma Differs(a: nat, b: nat)
    requires (a + b) % 0xFFFF == 0
    ensures a % 0xFFFF == 0 <==> b % 0xFFFF == 0
  {
  }

  /** 10.0.0.1 to 10.0.0.2, with the word of flags, the stored checksum and the identification open. */
  function Sample(id: u16, flags: byte, stored: u16): seq<byte> {
    [0x45, 0, 0, 20, id / 0x100, id % 0x100, flags, 0, 128, 6]
    + [stored / 0x100, stored % 0x100, 10, 0, 0, 1, 10, 0, 0, 2]
  }

  lemma SampleSum(id: u16, flags: byte, stored: u16)
    ensures ByteSum(Sample(id, flags, stored), false) == 0xD91D + id + 0x100 * (flags as int) + stored
  {
    var s := [0x45, 0, 0, 20, id / 0x100, id % 0x100, flags, 0, 128, 6];
    var t := [stored / 0x100, stored % 0x100, 10, 0, 0, 1, 10, 0, 0, 2];
    ByteSumAppend(s, t, false);
    FiveWords(s);
    FiveWords(t);
    hide ByteSum;
  }

  lemma FiveWords(s: seq<byte>)
    requires |s| == 10
    ensures ByteSum(s, false) == Word(s[0], s[1]) + Word(s[2], s[3]) + Word(s[4], s[5]) + Word(s[6], s[7]) + Word(s[8], s[9])
  {
    ByteSumIsWordSum(s);
    WordSumStep(s[8..]);
    WordSumStep(s[6..]);
    WordSumStep(s[4..]);
    WordSumStep(s[2..]);
    WordSumStep(s);
    hide WordSum;
    hide ByteSum;
  }

  /** Both kinds of header on which the code and the standard disagree exist: with the reserved bit a
      correct one is refused and an incorrect one accepted. */
  lemma ReservedMissed()
    ensures Sums(Sample(0, 0x80, 0xA6E1)) && !Parse(Sample(0, 0x80, 0xA6E1)).Some?
    ensures !Sums(Sample(0, 0x80, 0x26E2)) && Parse(Sample(0, 0x80, 0x26E2)).Some?
  {
    hide *;
    SampleVerdict(0, 0x80, 0xA6E1);
    SampleVerdict(0, 0x80, 0x26E2);
    SampleTotals();
  }

  /** And a correct one that stores all ones is refused. */
  lemma AllOnesMissed()
    ensures Sums(Sample(0x26E2, 0, 0xFFFF)) && !Parse(Sample(0x26E2, 0, 0xFFFF)).Some?
  {
    hide *;
    SampleVerdict(0x26E2, 0, 0xFFFF);
    SampleTotals();
  }

  predicate Whole(total: nat) {
    total % 0xFFFF == 0
  }

  lemma SampleTotals()
    ensures Whole(0x1FFFE) && Whole(0xFFFF) && !Whole(0x17FFE) && !Whole(0x17FFF)
  {
  }

  lemma SampleVerdict(id: u16, flags: byte, stored: u16)
    ensures Sums(Sample(id, flags, stored)) <==> Whole(0xD91D + id + 0x100 * (flags as int) + stored)
    ensures Parse(Sample(id, flags, stored)).Some? <==>
              stored != 0xFFFF && Whole(0xD91D + id + 0x100 * (flags as int % 0x80) + stored)
  {
    hide Sample;
    hide Cleared;
    hide ByteSum;
    hide Complement;
    hide Parse;
    hide Word;
    SampleBytes(id, flags, stored);
    SampleSums(id, flags, stored);
    SampleSums(id, flags % 0x80, stored);
    AcceptedExactly(Sample(id, flags, stored));
    hide Sums;
    hide Whole;
  }

  lemma SampleSums(id: u16, flags: byte, stored: u16)
    ensures Sums(Sample(id, flags, stored)) <==> Whole(0xD91D + id + 0x100 * (flags as int) + stored)
  {
    hide Sample;
    hide ByteSum;
    hide Complement;
    SampleSum(id, flags, stored);
    PassesExactly(ByteSum(Sample(id, flags, stored), false));
  }

  lemma SampleBytes(id: u16, flags: byte, stored: u16)
    ensures var s := Sample(id, flags, stored);
            && |s| == 20 && s[0] == 0x45 && Word(s[10], s[11]) == stored
            && Cleared(s) == Sample(id, flags % 0x80, stored)
  {
  }

  // ---------- Altered headers ----------

  /** A sent header in which one byte has changed is refused, unless the change is the reserved bit. */
  lemma CorruptionExactly(h: IPv4Header, rest: seq<byte>, i: nat, b: byte)
    requires h.ver == 4 && 5 <= h.hlen <= 15 && h.offset < 0x2000 && i < 20
    ensures |Image(h.WithChecksum())| == 20
    ensures var s := Image(h.WithChecksum());
            Parse(s[i := b] + rest).Some? <==> b == s[i] || (i == 6 && b % 0x80 == s[6])
  {
    ChecksumStable(h);
    HeaderChecks(h);
    HeaderLayout(h.WithChecksum());
    CheckedExactly(h.WithChecksum());
    SentStarts(h, Image(h.WithChecksum()));
    AcceptedAltered(Image(h.WithChecksum()), rest, i, b);
    hide *;
    hide Sums;
    hide LaidOut;
  }

  lemma AcceptedAltered(s: seq<byte>, rest: seq<byte>, i: nat, b: byte)
    requires |s| == 20 && s[0] / 16 == 4 && s[0] % 16 >= 5 && s[6] < 0x80
    requires Word(s[10], s[11]) != 0xFFFF && Sums(s) && i < 20
    ensures Parse(s[i := b] + rest).Some? <==> b == s[i] || (i == 6 && b % 0x80 == s[6])
  {
    ClearedAltered(s, i, b, rest);
    AlteredSums(s, i, if i == 6 then b % 0x80 else b);
    AcceptedAs(s[i := b] + rest, s, i, b);
    hide *;
  }

  lemma AcceptedAs(all: seq<byte>, s: seq<byte>, i: nat, b: byte)
    requires |s| == 20 && s[0] / 16 == 4 && s[0] % 16 >= 5 && Word(s[10], s[11]) != 0xFFFF && i < 20
    requires |all| >= 20 && all[0] == (if i == 0 then b else s[0])
    requires all[10] == (if i == 10 then b else s[10]) && all[11] == (if i == 11 then b else s[11])
    requires Sums(Cleared(all)) <==> b == s[i] || (i == 6 && b % 0x80 == s[6])
    ensures Parse(all).Some? <==> b == s[i] || (i == 6 && b % 0x80 == s[6])
  {
    hide Sums;
    hide Cleared;
    hide Parse;
    hide Word;
    AcceptedExactly(all);
  }

  lemma AlteredSums(s: seq<byte>, i: nat, b: byte)
    requires Sums(s) && i < |s|
    ensures Sums(s[i := b]) <==> b == s[i]
  {
    if b != s[i] {
      AlteredByteDetected(0, s, i, b);
    } else {
      assert s[i := b] == s;
    }
    hide Complement;
    hide ByteSum;
  }

  /** How a sent header starts. */
  lemma SentStarts(h: IPv4Header, s: seq<byte>)
    requires h.ver == 4 && 5 <= h.hlen <= 15 && h.offset < 0x2000 && LaidOut(h.WithChecksum(), s)
    ensures s[0] / 16 == 4 && s[0] % 16 >= 5 && s[6] < 0x80
    ensures Word(s[10], s[11]) == h.WithChecksum().cksum
  {
    ChecksumStable(h);
    hide IPv4Header.WithChecksum;
    hide Word;
    hide Quad;
  }

  lemma ClearedAltered(s: seq<byte>, i: nat, b: byte, rest: seq<byte>)
    requires |s| == 20 && s[6] < 0x80 && i < 20
    ensures var all := s[i := b] + rest;
            && |all| >= 20 && Cleared(all) == s[i := if i == 6 then b % 0x80 else b]
            && all[0] == (if i == 0 then b else s[0])
            && all[10] == (if i == 10 then b else s[10]) && all[11] == (if i == 11 then b else s[11])
  {
  }
}
