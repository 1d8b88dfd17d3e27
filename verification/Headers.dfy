/** Fixed-width big-endian fields, one after the other. */
module Headers {
  import opened Bytes
  import opened Parsers

  datatype Field = Field(value: nat, width: nat) {
    predicate Fits() {
      value < Pow256(width)
    }
  }

  lemma Widths()
    ensures Pow256(1) == 0x100 && Pow256(2) == 0x1_0000 && Pow256(4) == 0x1_0000_0000
  {
    assert Pow256(3) == 0x100_0000;
  }

  /** The bytes of a list of fields. */
  function Pack(fields: seq<Field>): seq<byte> {
    if fields == [] then []
    else Pack(fields[..|fields| - 1]) + ToBytes(fields[|fields| - 1].value, fields[|fields| - 1].width)
  }

  /** The number in `width` bytes at an offset. */
  function FieldAt(bytes: seq<byte>, at: nat, width: nat): (v: nat)
    requires at + width <= |bytes|
    ensures v < Pow256(width)
  {
    FromBytes(bytes[at..at + width])
  }

  function Word(hi: nat, lo: nat): nat {
    0x100 * hi + lo
  }

  function Quad(a: nat, b: nat, c: nat, d: nat): nat {
    0x100_0000 * a + 0x1_0000 * b + 0x100 * c + d
  }

  /** The number written out for the widths in use. */
  lemma FieldBytes(bytes: seq<byte>, at: nat)
    ensures at + 1 <= |bytes| ==> FieldAt(bytes, at, 1) == bytes[at]
    ensures at + 2 <= |bytes| ==> FieldAt(bytes, at, 2) == Word(bytes[at], bytes[at + 1])
    ensures at + 4 <= |bytes| ==>
              FieldAt(bytes, at, 4) == Quad(bytes[at], bytes[at + 1], bytes[at + 2], bytes[at + 3])
  {
    FromBytesEmpty();
    hide FromBytes;
    if at + 1 <= |bytes| {
      FromBytesSnoc([], bytes[at]);
      assert bytes[at..at + 1] == [] + [bytes[at]];
    }
    if at + 2 <= |bytes| {
      FromBytesSnoc(bytes[at..at + 1], bytes[at + 1]);
      assert bytes[at..at + 2] == bytes[at..at + 1] + [bytes[at + 1]];
    }
    if at + 4 <= |bytes| {
      FromBytesSnoc(bytes[at..at + 2], bytes[at + 2]);
      FromBytesSnoc(bytes[at..at + 3], bytes[at + 3]);
      assert bytes[at..at + 3] == bytes[at..at + 2] + [bytes[at + 2]];
      assert bytes[at..at + 4] == bytes[at..at + 3] + [bytes[at + 3]];
    }
  }

  lemma TwoByteField(v: u16)
    ensures ToBytes(v, 2) == [v / 256, v % 256]
  {
    assert ToBytes(v / 256, 1) == ToBytes(v / 256 / 256, 0) + [v / 256 % 256];
  }

  lemma PackSnoc(fields: seq<Field>, f: Field)
    ensures Pack(fields + [f]) == Pack(fields) + ToBytes(f.value, f.width)
  {
    assert (fields + [f])[..|fields|] == fields;
  }

  lemma {:induction false} PackAppend(a: seq<Field>, b: seq<Field>)
    ensures Pack(a + b) == Pack(a) + Pack(b)
  {
    if b == [] {
      assert a + b == a;
    } else {
      var n := |b| - 1;
      assert a + b == (a + b[..n]) + [b[n]] && b == b[..n] + [b[n]];
      PackAppend(a, b[..n]);
      PackSnoc(a + b[..n], b[n]);
      PackSnoc(b[..n], b[n]);
    }
  }

  /** A field comes back from the place it was packed at, whatever surrounds it. */
  lemma FieldReadsBack(before: seq<Field>, f: Field, after: seq<Field>, rest: seq<byte>)
    requires f.Fits()
    ensures var bytes := Pack(before + [f] + after) + rest;
            var at := |Pack(before)|;
            at + f.width <= |bytes| && FieldAt(bytes, at, f.width) == f.value
  {
    PackAppend(before + [f], after);
    PackSnoc(before, f);
    var bytes := Pack(before + [f] + after) + rest;
    var at := |Pack(before)|;
    assert bytes[at..at + f.width] == ToBytes(f.value, f.width);
    IntegerRoundTrip(f.value, f.width);
  }

  /** The lengths of the packed prefixes of a list of fields. */
  lemma {:induction false} PrefixLengths(f: seq<Field>, k: nat)
    requires k <= |f|
    ensures |Pack(f[..0])| == 0
    ensures forall i :: 0 <= i < k ==> |Pack(f[..i + 1])| == |Pack(f[..i])| + f[i].width
  {
    if k > 0 {
      PrefixLengths(f, k - 1);
      assert f[..k][..k - 1] == f[..k - 1] && f[..k][k - 1] == f[k - 1];
    }
  }

  lemma DropHeader(all: seq<byte>, n: nat)
    requires |all| >= 20
    ensures all[20..][Min(n, |all[20..]|)..] == all[Min(20 + n, |all|)..]
  {
  }

  /** `parser` has read `at` bytes of `all`, or has run out. */
  ghost predicate Cursor(parser: Parser, all: seq<byte>, failed: bool, at: nat)
    reads parser
  {
    && parser.Valid()
    && parser.error == (failed || |all| < at)
    && (!parser.error ==> StartsAt(parser.Rest(), all, at))
  }

  /** Reading the next field of a header. */
  method ReadField(parser: Parser, width: nat, ghost all: seq<byte>, ghost failed: bool, ghost at: nat)
    returns (out: nat)
    requires Cursor(parser, all, failed, at) && width > 0
    modifies parser
    ensures Cursor(parser, all, failed, at + width)
    ensures !failed && at + width <= |all| ==> out == FieldAt(all, at, width)
  {
    hide StartsAt;
    hide FromBytes;
    hide Pow256;
    hide Parser.Rest;
    hide Parser.Valid;
    if !parser.error {
      StartsAtSkip(parser.Rest(), all, at, width);
    }
    out := parser.Integer(width, 0);
  }

  /** Writing field `k` of a header. */
  method WriteField(serializer: Serializer, value: nat, width: nat,
                    ghost start: seq<byte>, ghost fields: seq<Field>, ghost k: nat)
    requires serializer.Valid() && k < |fields| && fields[k] == Field(value, width)
    requires serializer.Text() == start + Pack(fields[..k])
    modifies serializer
    ensures serializer.Valid() && serializer.Text() == start + Pack(fields[..k + 1])
  {
    assert fields[..k + 1] == fields[..k] + [fields[k]];
    PackSnoc(fields[..k], fields[k]);
    serializer.Integer(value, width);
    ConcatAssoc(start, Pack(fields[..k]), ToBytes(value, width));
  }
}
