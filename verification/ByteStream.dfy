/** A bounded, closable queue of bytes kept as a deque of strings. */
module ByteStreams {
  import opened Bytes

  /** The abstract stream: every byte ever popped, then the strings still buffered. */
  datatype StreamState = StreamState(
    capacity: nat, popped: seq<byte>, deck: Chunks, closed: bool, error: bool) {

    /** No buffered string is empty, and the buffer fits the capacity. */
    predicate Valid() {
      NoEmptyChunk(deck) && |Flat(deck)| <= capacity
    }

    /** Every byte ever accepted from the writer. */
    function Pushed(): seq<byte> {
      popped + Flat(deck)
    }

    function Buffered(): nat {
      |Flat(deck)|
    }

    function Available(): nat
      requires Valid()
    {
      capacity - Buffered()
    }

    predicate Finished() {
      closed && deck == []
    }

    function Peek(): seq<byte> {
      if deck == [] then [] else deck[0]
    }

    function Push(data: seq<byte>): (s: StreamState)
      requires Valid()
    {
      if Available() == 0 || closed || data == [] then this
      else this.(deck := deck + [data[..Min(|data|, Available())]])
    }

    function Close(): StreamState {
      this.(closed := true)
    }

    function SetError(): StreamState {
      this.(error := true)
    }

    /** Popping an empty stream does nothing; otherwise at most what is buffered can go. */
    predicate CanPop(len: nat) {
      deck == [] || len <= Buffered()
    }

    function Pop(len: nat): (s: StreamState)
      requires Valid() && CanPop(len)
    {
      if deck == [] then this
      else this.(popped := popped + Flat(deck)[..len], deck := DropBytes(deck, len))
    }
  }

  type Stream = s: StreamState | s.Valid() witness StreamState(0, [], [], false, false)

  /** The deque left after removing the first `len` bytes: whole strings while they fit,
      then the front of the next one. */
  function DropBytes(deck: Chunks, len: nat): Chunks
    requires len <= |Flat(deck)|
    decreases |deck|
  {
    if len == 0 then deck
    else if |deck[0]| <= len then DropBytes(deck[1..], len - |deck[0]|)
    else [deck[0][len..]] + deck[1..]
  }

  lemma {:induction false} DropBytesRefines(deck: Chunks, len: nat)
    requires NoEmptyChunk(deck) && len <= |Flat(deck)|
    ensures NoEmptyChunk(DropBytes(deck, len))
    ensures Flat(DropBytes(deck, len)) == Flat(deck)[len..]
    decreases |deck|
  {
    if len > 0 {
      if |deck[0]| <= len {
        DropBytesRefines(deck[1..], len - |deck[0]|);
        assert Flat(deck)[len..] == Flat(deck[1..])[len - |deck[0]|..];
      } else {
        var rest := [deck[0][len..]] + deck[1..];
        assert rest[1..] == deck[1..];
      }
    }
  }

  lemma {:induction false} DropBytesTwice(deck: Chunks, a: nat, b: nat)
    requires NoEmptyChunk(deck) && a + b <= |Flat(deck)|
    ensures |Flat(DropBytes(deck, a))| == |Flat(deck)| - a
    ensures DropBytes(DropBytes(deck, a), b) == DropBytes(deck, a + b)
    decreases |deck|
  {
    DropBytesRefines(deck, a);
    if a > 0 {
      if |deck[0]| <= a {
        DropBytesTwice(deck[1..], a - |deck[0]|, b);
      } else {
        var rest := [deck[0][a..]] + deck[1..];
        assert rest[1..] == deck[1..];
        if |deck[0]| <= a + b {
        } else if b > 0 {
          assert deck[0][a..][b..] == deck[0][a + b..];
        }
      }
    }
  }

  /** The writer's side of the flat queue: what is accepted is appended, cut to the space. */
  lemma PushRefinesQueue(s: Stream, data: seq<byte>)
    ensures s.Push(data).Valid()
    ensures s.Push(data).Pushed() ==
            if s.closed then s.Pushed() else s.Pushed() + data[..Min(|data|, s.Available())]
    ensures s.Push(data).popped == s.popped
    ensures s.Push(data).(deck := s.deck) == s
    ensures Flat(s.Push(data).deck) ==
            if s.closed then Flat(s.deck) else Flat(s.deck) + data[..Min(|data|, s.Available())]
    ensures s.closed ==> s.Push(data) == s
  {
    FlatSnoc(s.deck, data[..Min(|data|, s.Available())]);
    assert s.popped + (Flat(s.deck) + data[..Min(|data|, s.Available())])
        == s.Pushed() + data[..Min(|data|, s.Available())];
  }

  /** The reader's side: exactly the first `len` bytes leave, and nothing ever accepted changes. */
  lemma PopRefinesQueue(s: Stream, len: nat)
    requires s.CanPop(len)
    ensures s.Pop(len).Valid()
    ensures s.Pop(len).Pushed() == s.Pushed()
    ensures s.deck != [] ==> Flat(s.Pop(len).deck) == Flat(s.deck)[len..]
    ensures s.deck != [] ==> s.Pop(len).popped == s.popped + Flat(s.deck)[..len]
    ensures s.deck == [] ==> s.Pop(len) == s
    ensures s.Pop(len).(popped := s.popped, deck := s.deck) == s
  {
    if s.deck != [] {
      DropBytesRefines(s.deck, len);
      assert s.popped + Flat(s.deck)[..len] + Flat(s.deck)[len..] == s.Pushed();
    }
  }

  lemma PopNothing(s: Stream)
    ensures s.CanPop(0) && s.Pop(0) == s
    ensures s.deck == [] ==> forall n: nat :: s.CanPop(n) ==> s.Pop(n) == s
  {
  }

  /** Popping in two steps is popping once. */
  lemma PopTwice(s: Stream, a: nat, b: nat)
    requires a + b <= s.Buffered()
    ensures s.CanPop(a) && s.Pop(a).Valid() && s.Pop(a).CanPop(b)
    ensures s.Pop(a).Pop(b) == s.Pop(a + b)
  {
    hide Flat;
    hide NoEmptyChunk;
    hide DropBytes;
    FlatOfNothing();
    PopRefinesQueue(s, a);
    if s.deck != [] {
      DropBytesTwice(s.deck, a, b);
      var all := Flat(s.deck);
      assert all[..a] + all[a..][..b] == all[..a + b];
      ConcatAssoc(s.popped, all[..a], all[a..][..b]);
    }
  }

  /** What popping inside the front string does to the deque. */
  lemma PopFront(s: Stream, n: nat)
    requires s.deck != [] && 0 < n <= |s.deck[0]|
    ensures n <= |s.deck[0]| <= s.Buffered() && s.Pop(n).Valid()
    ensures s.Pop(n) == s.(popped := s.popped + s.deck[0][..n],
                           deck := (if n == |s.deck[0]| then [] else [s.deck[0][n..]]) + s.deck[1..])
    ensures |Flat(s.Pop(n).deck)| == s.Buffered() - n
  {
    PopRefinesQueue(s, n);
    assert Flat(s.deck)[..n] == s.deck[0][..n];
    if n == |s.deck[0]| {
      assert DropBytes(s.deck, n) == s.deck[1..];
    }
  }

  class ByteStream {
    const capacity: nat
    var deck: Chunks
    var error: bool
    var closed: bool
    var totalPushed: nat
    var totalPopped: nat
    var bytesInDeck: nat
    ghost var popped: seq<byte>  // every byte popped so far

    ghost predicate Valid()
      reads this
    {
      && View().Valid()
      && totalPopped == |popped|
      && bytesInDeck == |Flat(deck)|
      && totalPushed == totalPopped + bytesInDeck
    }

    ghost function View(): StreamState
      reads this
    {
      StreamState(capacity, popped, deck, closed, error)
    }

    constructor (capacity: nat)
      ensures Valid() && View() == StreamState(capacity, [], [], false, false)
    {
      this.capacity := capacity;
      deck, error, closed := [], false, false;
      totalPushed, totalPopped, bytesInDeck := 0, 0, 0;
      popped := [];
    }

    method SetError()
      requires Valid()
      modifies this`error
      ensures Valid() && View() == old(View()).SetError()
    {
      error := true;
    }

    method Close()
      requires Valid()
      modifies this`closed
      ensures Valid() && View() == old(View()).Close()
    {
      closed := true;
    }

    function AvailableCapacity(): (n: nat)
      requires Valid()
      reads this
      ensures n == View().Available()
    {
      capacity - bytesInDeck
    }

    function BytesPushed(): (n: nat)
      requires Valid()
      reads this
      ensures n == |View().Pushed()|
    {
      totalPushed
    }

    function BytesBuffered(): (n: nat)
      requires Valid()
      reads this
      ensures n == View().Buffered() && (n == 0 <==> deck == [])
    {
      FlatEmpty(deck);
      bytesInDeck
    }

    function IsFinished(): (b: bool)
      reads this
      ensures b == View().Finished()
    {
      closed && |deck| == 0
    }

    function Peek(): (view: seq<byte>)
      requires Valid()
      reads this
      ensures view <= Flat(deck) && (view == [] <==> Flat(deck) == [])
      ensures view == View().Peek()
    {
      FlatEmpty(deck);
      if |deck| == 0 then [] else deck[0]
    }

    method Push(data: seq<byte>)
      requires Valid()
      modifies this`deck, this`totalPushed, this`bytesInDeck
      ensures Valid() && View() == old(View()).Push(data)
    {
      if AvailableCapacity() == 0 || closed || data == [] {
        return;
      }
      PushRefinesQueue(View(), data);
      var curStr := data[..Min(|data|, AvailableCapacity())];
      deck := deck + [curStr];
      totalPushed := totalPushed + |curStr|;
      bytesInDeck := bytesInDeck + |curStr|;
    }

    method Pop(len: nat)
      requires Valid() && View().CanPop(len)
      modifies this`deck, this`totalPopped, this`bytesInDeck, this`popped
      ensures Valid() && View() == old(View()).Pop(len)
    {
      hide DropBytes;
      hide Flat;
      PopNothing(View());
      if |deck| == 0 {
        return;
      }
      var bytesRemoved := 0;
      ghost var start := View();
      while bytesRemoved != len
        invariant 0 <= bytesRemoved <= len <= start.Buffered()
        invariant Valid() && totalPushed == old(totalPushed)
        invariant start.CanPop(bytesRemoved) && View() == start.Pop(bytesRemoved)
        invariant bytesInDeck == start.Buffered() - bytesRemoved
        decreases len - bytesRemoved
      {
        FlatEmpty(deck);
        var curStr := deck[0];
        ghost var n := Min(|curStr|, len - bytesRemoved);
        PopFront(View(), n);
        PopTwice(start, bytesRemoved, n);
        assert [] + deck[1..] == deck[1..];
        if |curStr| <= len - bytesRemoved {
          bytesRemoved := bytesRemoved + |curStr|;
          bytesInDeck := bytesInDeck - |curStr|;
          totalPopped := totalPopped + |curStr|;
          popped := popped + curStr;
          deck := deck[1..];
        } else {
          bytesInDeck := bytesInDeck - |curStr|;
          popped := popped + curStr[..n];
          var prevLen := |curStr|;
          curStr := curStr[len - bytesRemoved..];
          deck := [curStr] + deck[1..];
          bytesRemoved := bytesRemoved + (prevLen - |curStr|);
          totalPopped := totalPopped + (prevLen - |curStr|);
          bytesInDeck := bytesInDeck + |curStr|;
        }
      }
    }
  }

  /** The provided helper: peek and pop until `len` bytes or an empty buffer.  Its
      "peek() returned empty" exception is dead code, as the assertion says. */
  method Read(reader: ByteStream, len: nat) returns (out: seq<byte>)
    requires reader.Valid()
    modifies reader`deck, reader`totalPopped, reader`bytesInDeck, reader`popped
    ensures reader.Valid()
    ensures out == old(Flat(reader.deck))[..Min(len, old(|Flat(reader.deck)|))]
    ensures reader.View() == old(reader.View()).Pop(|out|)
  {
    hide DropBytes;
    hide Remains;
    out := [];
    PopNothing(reader.View());
    ghost var start := reader.View();
    ghost var all := Flat(reader.deck);
    RemainsAll(all);
    while reader.BytesBuffered() > 0 && |out| < len
      invariant |out| <= len && |out| <= |all| && out == all[..|out|]
      invariant reader.Valid()
      invariant start.CanPop(|out|) && reader.View() == start.Pop(|out|)
      invariant Remains(Flat(reader.deck), all, |out|)
      decreases |all| - |out|
    {
      var view := reader.Peek();
      assert view != [];
      view := view[..Min(|view|, len - |out|)];
      ReadStep(all, out, view, Flat(reader.deck));
      PopTwice(start, |out|, |view|);
      PopRefinesQueue(reader.View(), |view|);
      reader.Pop(|view|);
      out := out + view;
    }
    RemainsLength(Flat(reader.deck), all, |out|);
  }

  /** `rest` is what is left of `all` after `n` bytes. */
  ghost predicate Remains(rest: seq<byte>, all: seq<byte>, n: nat) {
    n <= |all| && rest == all[n..]
  }

  lemma RemainsAll(all: seq<byte>)
    ensures Remains(all, all, 0)
  {
  }

  lemma RemainsLength(rest: seq<byte>, all: seq<byte>, n: nat)
    requires Remains(rest, all, n)
    ensures |rest| == |all| - n
  {
  }

  lemma ReadStep(all: seq<byte>, out: seq<byte>, view: seq<byte>, rest: seq<byte>)
    requires |out| <= |all| && out == all[..|out|] && Remains(rest, all, |out|) && view <= rest
    ensures |out + view| <= |all| && out + view == all[..|out + view|]
    ensures Remains(rest[|view|..], all, |out + view|)
  {
  }
}
