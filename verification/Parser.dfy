/** Big-endian integers and byte strings read from, and written to, lists of strings. */
module Parsers {
  import opened Bytes

  function Pow256(width: nat): nat {
    if width == 0 then 1 else 256 * Pow256(width - 1)
  }

  /** The number a big-endian byte string denotes. */
  function FromBytes(bytes: seq<byte>): (v: nat)
    ensures v < Pow256(|bytes|)
  {
    if bytes == [] then 0
    else FromBytes(bytes[..|bytes| - 1]) * 256 + bytes[|bytes| - 1]
  }

  /** The `width` low-order bytes of a number, most significant first. */
  function ToBytes(v: nat, width: nat): (bytes: seq<byte>)
    ensures |bytes| == width
  {
    if width == 0 then [] else ToBytes(v / 256, width - 1) + [v % 256]
  }

  lemma {:induction false} IntegerRoundTrip(v: nat, width: nat)
    requires v < Pow256(width)
    ensures FromBytes(ToBytes(v, width)) == v
  {
    if width > 0 {
      IntegerRoundTrip(v / 256, width - 1);
      FromBytesSnoc(ToBytes(v / 256, width - 1), v % 256);
      hide FromBytes;
    }
  }

  lemma {:induction false} BytesRoundTrip(bytes: seq<byte>)
    ensures ToBytes(FromBytes(bytes), |bytes|) == bytes
  {
    if bytes != [] {
      var n := |bytes| - 1;
      var v := FromBytes(bytes[..n]);
      assert FromBytes(bytes) == v * 256 + bytes[n];
      assert (v * 256 + bytes[n]) / 256 == v && (v * 256 + bytes[n]) % 256 == bytes[n];
      BytesRoundTrip(bytes[..n]);
      assert bytes == bytes[..n] + [bytes[n]];
    }
  }

  lemma FromBytesEmpty()
    ensures FromBytes([]) == 0
  {
  }

  lemma FromBytesSnoc(bytes: seq<byte>, b: byte)
    ensures FromBytes(bytes + [b]) == FromBytes(bytes) * 256 + b
  {
    assert (bytes + [b])[..|bytes|] == bytes;
  }

  /** The parser together with its buffer list: strings not yet used up, and how much of the
      first one is already used. */
  class Parser {
    var size: nat
    var buffer: Chunks
    var skip: nat
    var error: bool

    ghost predicate Valid()
      reads this
    {
      && NoEmptyChunk(buffer)
      && (if buffer == [] then skip == 0 else skip < |buffer[0]|)
      && size == |Rest()|
    }

    /** The bytes still to be read. */
    ghost function Rest(): seq<byte>
      reads this
    {
      if buffer == [] || skip > |buffer[0]| then [] else buffer[0][skip..] + Flat(buffer[1..])
    }

    constructor (input: Chunks)
      requires NoEmptyChunk(input)
      ensures Valid() && Rest() == Flat(input) && !error
    {
      size, buffer, skip, error := 0, [], 0, false;
      new;
      for i := 0 to |input|
        invariant buffer == input[..i] && skip == 0 && !error
        invariant size == |Flat(input[..i])|
      {
        assert input[..i + 1] == input[..i] + [input[i]];
        FlatSnoc(input[..i], input[i]);
        size := size + |input[i]|;
        buffer := buffer + [input[i]];
      }
      assert input[..|input|] == input;
      assert buffer != [] ==> buffer[0] != [];
    }

    method SetError()
      requires Valid()
      modifies this`error
      ensures Valid() && error && Rest() == old(Rest())
    {
      error := true;
    }

    function Peek(): (view: seq<byte>)
      requires Valid() && buffer != []
      reads this
      ensures view != [] && view <= Rest()
    {
      buffer[0][skip..]
    }

    lemma SizeOfRest()
      requires Valid()
      ensures size == |Rest()| && (buffer == [] <==> size == 0)
    {
    }

    method RemovePrefix(count: nat)
      requires Valid()
      modifies this`size, this`buffer, this`skip
      ensures Valid() && Rest() == old(Rest())[Min(count, old(|Rest()|))..]
    {
      hide IsSuffix;
      hide Rest;
      hide Valid;
      SizeOfRest();
      ghost var all := Rest();
      SuffixSelf(all);
      var len := count;
      while len > 0 && buffer != []
        invariant Valid() && 0 <= len && size == |Rest()| <= |all| && |all| - size + len == count
        invariant buffer == [] ==> size == 0
        invariant IsSuffix(Rest(), all)
        decreases len
      {
        var toPopNow := Min(len, |Peek()|);
        SuffixDrop(Rest(), all, toPopNow);
        PopFromFront(toPopNow);
        len := len - toPopNow;
        SizeOfRest();
      }
      SuffixIs(Rest(), all);
    }

    method PopFromFront(toPopNow: nat)
      requires Valid() && buffer != [] && toPopNow <= |Peek()|
      modifies this`size, this`buffer, this`skip
      ensures Valid() && Rest() == old(Rest())[toPopNow..] && size == old(size) - toPopNow
    {
      PopShape(buffer, skip, toPopNow);
      skip := skip + toPopNow;
      size := size - toPopNow;
      if skip == |buffer[0]| {
        buffer := buffer[1..];
        skip := 0;
      }
    }

    method TakeByte() returns (octet: byte)
      requires Valid() && size > 0
      modifies this`size, this`buffer, this`skip
      ensures Valid() && octet == old(Rest())[0] && Rest() == old(Rest())[1..]
    {
      octet := Peek()[0];
      RemovePrefix(1);
    }

    /** On an error the current value stays; otherwise a big-endian number is read. */
    method Integer(width: nat, current: nat) returns (out: nat)
      requires Valid() && width > 0
      modifies this`size, this`buffer, this`skip, this`error
      ensures Valid()
      ensures error == (old(error) || old(|Rest()|) < width)
      ensures error ==> out == current && Rest() == old(Rest())
      ensures !error ==> out == FromBytes(old(Rest())[..width]) && Rest() == old(Rest())[width..]
    {
      if width > size {
        error := true;
      }
      if error {
        return current;
      }
      SizeOfRest();
      out := Digits(width);
    }

    /** The loop over the bytes, when there are enough of them. */
    method Digits(width: nat) returns (out: nat)
      requires Valid() && !error && width <= |Rest()|
      modifies this`size, this`buffer, this`skip
      ensures Valid() && out == FromBytes(old(Rest())[..width]) && Rest() == old(Rest())[width..]
    {
      hide Rest;
      hide Valid;
      hide FromBytes;
      hide StartsAt;
      ghost var all := Rest();
      StartsAtZero(all);
      assert FromBytes(all[..0]) == 0 by {
        FromBytesEmpty();
      }
      out := 0;
      var i := 0;
      while i < width
        invariant Valid() && 0 <= i <= width <= |all| && !error
        invariant StartsAt(Rest(), all, i) && out == FromBytes(all[..i])
      {
        SizeOfRest();
        StartsAtNext(Rest(), all, i);
        var octet := TakeByte();
        FromBytesSnoc(all[..i], all[i]);
        out := out * 256 + octet;
        i := i + 1;
      }
      StartsAtIs(Rest(), all, i);
    }

    /** Everything left, as a list of strings. */
    method AllRemaining() returns (out: Chunks)
      requires Valid()
      ensures Flat(out) == Rest() && NoEmptyChunk(out)
    {
      out := [];
      if size == 0 {
        return;
      }
      var first := buffer[0];
      if skip > 0 {
        first := first[skip..];
      }
      out := [first];
      for i := 1 to |buffer|
        invariant out == [first] + buffer[1..i]
      {
        out := out + [buffer[i]];
      }
      assert out[1..] == buffer[1..];
    }

    /** Everything left, as one string. */
    method RemainingText() returns (out: seq<byte>)
      requires Valid()
      ensures out == Rest()
    {
      hide Rest;
      hide Valid;
      var concat := AllRemaining();
      if |concat| == 1 {
        FlatSnoc([], concat[0]);
        assert concat == [] + [concat[0]];
        return concat[0];
      }
      hide Flat;
      hide NoEmptyChunk;
      assert Flat(concat[..0]) == [] by {
        FlatOfNothing();
      }
      out := [];
      for i := 0 to |concat|
        invariant out == Flat(concat[..i])
      {
        assert concat[..i + 1] == concat[..i] + [concat[i]];
        FlatSnoc(concat[..i], concat[i]);
        out := out + concat[i];
      }
      assert concat[..|concat|] == concat;
    }
  }

  /** `s` is what is left of `all` from index `i` on. */
  predicate StartsAt(s: seq<byte>, all: seq<byte>, i: nat) {
    i <= |all| && s == all[i..]
  }

  lemma StartsAtZero(all: seq<byte>)
    ensures StartsAt(all, all, 0)
  {
  }

  lemma StartsAtNext(s: seq<byte>, all: seq<byte>, i: nat)
    requires StartsAt(s, all, i) && i < |all|
    ensures |s| == |all| - i && s[0] == all[i] && StartsAt(s[1..], all, i + 1)
    ensures all[..i + 1] == all[..i] + [all[i]]
  {
  }

  lemma StartsAtSkip(s: seq<byte>, all: seq<byte>, i: nat, n: nat)
    requires StartsAt(s, all, i)
    ensures |s| == |all| - i
    ensures n <= |s| ==> s[..n] == all[i..i + n] && StartsAt(s[n..], all, i + n)
  {
  }

  lemma StartsAtIs(s: seq<byte>, all: seq<byte>, i: nat)
    requires StartsAt(s, all, i)
    ensures i <= |all| && s == all[i..]
  {
  }

  predicate IsSuffix(s: seq<byte>, all: seq<byte>) {
    |s| <= |all| && s == all[|all| - |s|..]
  }

  lemma SuffixSelf(all: seq<byte>)
    ensures IsSuffix(all, all)
  {
  }

  lemma SuffixIs(s: seq<byte>, all: seq<byte>)
    requires IsSuffix(s, all)
    ensures |s| <= |all| && s == all[|all| - |s|..]
  {
  }

  lemma SuffixDrop(s: seq<byte>, all: seq<byte>, n: nat)
    requires IsSuffix(s, all) && n <= |s|
    ensures IsSuffix(s[n..], all)
  {
  }

  lemma PopShape(buffer: Chunks, skip: nat, n: nat)
    requires buffer != [] && skip + n <= |buffer[0]|
    ensures (buffer[0][skip..] + Flat(buffer[1..]))[n..] == buffer[0][skip + n..] + Flat(buffer[1..])
    ensures buffer[1..] != [] ==> Flat(buffer[1..]) == buffer[1..][0][0..] + Flat(buffer[1..][1..])
  {
    assert buffer[1..] != [] ==> buffer[1..][0][0..] == buffer[1..][0];
  }

  class Serializer {
    var output: Chunks
    var buffer: seq<byte>

    /** Everything written so far. */
    ghost function Text(): seq<byte>
      reads this
    {
      Flat(output) + buffer
    }

    ghost predicate Valid()
      reads this
    {
      NoEmptyChunk(output)
    }

    constructor ()
      ensures Valid() && Text() == []
    {
      output, buffer := [], [];
    }

    method Integer(val: nat, width: nat)
      requires Valid()
      modifies this`buffer
      ensures Valid() && Text() == old(Text()) + ToBytes(val, width)
    {
      ghost var before := buffer;
      var bytes := BytesOf(val, width);
      buffer := buffer + bytes;
      assert Flat(output) + (before + bytes) == Flat(output) + before + bytes;
    }

    method Flush()
      requires Valid()
      modifies this
      ensures Valid() && Text() == old(Text()) && buffer == []
    {
      if buffer != [] {
        FlatSnoc(output, buffer);
        output := output + [buffer];
        buffer := [];
      }
    }

    method Buffer(buf: seq<byte>)
      requires Valid()
      modifies this
      ensures Valid() && Text() == old(Text()) + buf
    {
      Flush();
      if buf != [] {
        FlatSnoc(output, buf);
        output := output + [buf];
      }
    }

    method Output() returns (out: Chunks)
      requires Valid()
      modifies this
      ensures Valid() && Text() == old(Text()) && out == output && Flat(out) == Text()
    {
      Flush();
      out := output;
    }
  }

  /** `val >> (8 * k)`. */
  function Shifted(val: nat, k: nat): nat {
    if k == 0 then val else Shifted(val / 256, k - 1)
  }

  lemma {:induction false} ShiftOnce(val: nat, k: nat)
    ensures Shifted(val, k + 1) == Shifted(val, k) / 256
  {
    if k > 0 {
      ShiftOnce(val / 256, k - 1);
    }
  }

  /** One shift per byte, most significant first. */
  method BytesOf(val: nat, width: nat) returns (bytes: seq<byte>)
    ensures bytes == ToBytes(val, width)
  {
    bytes := [];
    for i := 0 to width
      invariant bytes == ToBytes(Shifted(val, width - i), i)
    {
      ShiftOnce(val, width - i - 1);
      bytes := bytes + [Shifted(val, width - i - 1) % 256];
    }
  }
}
