/** common/crypto/chunk.go and common/mux/reader.go: chunks of two size bytes and a payload. */
module Chunk {
  import opened Bytes
  import opened Buffer
  import opened MultiBuffer
  import opened Reader

  /** Everything a reader hands over until it reports an error: the payload, what stays unread, and
      whether the error is io.EOF. */
  datatype Drained = Drained(data: bytes, rest: bytes, clean: bool)

  function Then(head: bytes, d: Drained): Drained {
    d.(data := head + d.data)
  }

  // ----- ChunkStreamReader -----

  /** left bytes of the current chunk are due; num chunks were started, of at most max (0: no limit). */
  function Drain(input: bytes, left: nat, num: nat, max: nat): Drained
    decreases |input|
  {
    if left > 0 then
      if input == [] then Drained([], [], true)
      else
        var k := Min(left, |input|);
        Then(input[..k], Drain(input[k..], left - k, num, max))
    else if 0 < max < num + 1 then Drained([], input, true)
    else if |input| < 2 then Drained([], [], input == [])
    else if Uint16At(input, 0) == 0 then Drained([], input[2..], true)
    else Drain(input[2..], Uint16At(input, 0), num + 1, max)
  }

  /** The due bytes, or all there is of them, come out at once. */
  lemma DrainDue(x: bytes, y: bytes, left: nat, num: nat, max: nat)
    requires 0 < |x| <= left && (y == [] || |x| == left)
    ensures Drain(x + y, left, num, max) == Then(x, Drain(y, left - |x|, num, max))
  {
    assert (x + y)[..|x|] == x && (x + y)[|x|..] == y;
  }

  /** Handing over part of the due bytes first changes nothing. */
  lemma DrainInParts(head: bytes, tail: bytes, left: nat, num: nat, max: nat)
    requires 0 < left && |head| <= left
    ensures Drain(head + tail, left, num, max) == Then(head, Drain(tail, left - |head|, num, max))
  {
    if head == [] {
      assert head + tail == tail;
    } else if left == |head| || tail == [] {
      DrainDue(head, tail, left, num, max);
    } else {
      var j := Min(left - |head|, |tail|);
      DrainAcross(head, tail, tail[..j], tail[j..], left, num, max);
    }
  }

  lemma DrainAcross(head: bytes, tail: bytes, x: bytes, y: bytes, left: nat, num: nat, max: nat)
    requires 0 < |head| && 0 < |x| <= left - |head| && (y == [] || |x| == left - |head|) && tail == x + y
    ensures Drain(head + tail, left, num, max) == Then(head, Drain(tail, left - |head|, num, max))
  {
    var d := Drain(y, left - |head| - |x|, num, max);
    DrainDue(head + x, y, left, num, max);
    DrainDue(x, y, left - |head|, num, max);
    assert head + tail == (head + x) + y;
  }

  class ChunkStreamReader {
    const reader: BufferedReader
    const maxNumChunk: nat
    var leftOverSize: nat
    var numChunk: nat

    constructor (reader: BufferedReader, maxNumChunk: nat)
      ensures this.reader == reader && this.maxNumChunk == maxNumChunk && leftOverSize == 0 && numChunk == 0
    {
      this.reader, this.maxNumChunk := reader, maxNumChunk;
      leftOverSize, numChunk := 0, 0;
    }

    function Pending(): Drained
      reads this, reader
    {
      Drain(reader.Remaining(), leftOverSize, numChunk, maxNumChunk)
    }

    /** One call: some payload (possibly none), or the end. */
    method ReadMultiBuffer() returns (end: bool, clean: bool, mb: Multi)
      modifies this, reader
      ensures !end ==> old(Pending()) == Then(Flat(mb), Pending()) && reader.Work() < old(reader.Work())
      ensures end ==> old(Pending()) == Drained([], reader.Remaining(), clean)
    {
      var size := leftOverSize;
      if size == 0 {
        numChunk := numChunk + 1;
        if 0 < maxNumChunk < numChunk { return true, true, []; }
        ghost var input := reader.Remaining();
        var ok, partial, b := reader.ReadFull(2);
        if !ok { return true, !partial, []; }
        assert input[2..] == reader.Remaining() && Uint16At(input, 0) == Uint16At(b, 0);
        if Uint16At(b, 0) == 0 { return true, true, []; }
        size := Uint16At(b, 0);
      }
      leftOverSize := size;
      assert old(Pending()) == Pending();
      var eof;
      ghost var due := Pending();
      eof, mb := reader.ReadAtMost(size);
      if eof { return true, true, []; }
      DrainInParts(Flat(mb), reader.Remaining(), size, numChunk, maxNumChunk);
      leftOverSize := leftOverSize - |Flat(mb)|;
      end, clean := false, true;
    }

    /** buf.Copy from this reader into a sink that accepts everything. */
    method Copy() returns (clean: bool, out: bytes)
      modifies this, reader
      ensures Drained(out, reader.Remaining(), clean) == old(Pending())
    {
      out, clean := [], true;
      var end := false;
      while !end
        invariant !end ==> old(Pending()) == Then(out, Pending())
        invariant end ==> old(Pending()) == Drained(out, reader.Remaining(), clean)
        decreases !end, reader.Work()
      {
        var mb;
        end, clean, mb := ReadMultiBuffer();
        if !end {
          out := out + Flat(mb);
        }
      }
    }
  }

  // ----- ChunkStreamWriter -----

  const SLICE: nat := 8192

  /** One write: a chunk for every slice, and a single empty chunk when there is nothing to write. */
  function ChunkBytes(mb: Multi): bytes
    decreases |Flat(mb)| + |mb|
  {
    SplitSizeConserves(mb, SLICE);
    var s := SplitSize(mb, SLICE);
    var head := Uint16Bytes(|Flat(s.taken)|) + Flat(s.taken);
    if IsEmpty(s.rest) then head
    else
      head + ChunkBytes(s.rest)
  }

  /** The loop of WriteMultiBuffer; out is everything passed to the underlying writer. */
  method WriteMultiBuffer(mb: Multi) returns (out: bytes)
    ensures out == ChunkBytes(mb)
  {
    var rest := mb;
    out := [];
    while true
      invariant ChunkBytes(mb) == out + ChunkBytes(rest)
      decreases |Flat(rest)| + |rest|
    {
      SplitSizeConserves(rest, SLICE);
      var s := SplitSize(rest, SLICE);
      ghost var before := rest;
      rest := s.rest;
      var head := Uint16Bytes(|Flat(s.taken)|) + Flat(s.taken);
      if IsEmpty(rest) {
        out := out + head;
        break;
      }
      assert out + (head + ChunkBytes(rest)) == out + head + ChunkBytes(rest);
      out := out + head;
    }
  }

  // ----- round trip -----

  /** A chunk of d bytes in front: with room for one more chunk it is handed over whole. */
  lemma DrainChunk(d: bytes, rest: bytes, num: nat, max: nat)
    requires 0 < |d| < 65536 && (max == 0 || num < max)
    ensures Drain(Uint16Bytes(|d|) + d + rest, 0, num, max) == Then(d, Drain(rest, 0, num + 1, max))
  {
    var input := Uint16Bytes(|d|) + d + rest;
    Uint16RoundTrip(|d|);
    assert Uint16At(input, 0) == |d| && input[2..] == d + rest;
    DrainInParts(d, rest, |d|, num + 1, max);
  }

  lemma {:induction false} FittingTakesContent(mb: Multi, size: nat)
    requires Bounded(mb) && size >= SIZE && Flat(mb[..Fitting(mb, size)]) == []
    ensures IsEmpty(mb)
  {
    var n := Fitting(mb, size);
    if mb != [] {
      assert mb[..n][0] == mb[0] && mb[..n][1..] == mb[1..][..n - 1];
      FittingTakesContent(mb[1..], size);
      IsEmptyIsFlat(mb[1..]);
      assert mb == [mb[0]] + mb[1..];
    }
  }

  lemma SplitTakesContent(mb: Multi)
    requires Bounded(mb) && !IsEmpty(mb)
    ensures var s := SplitSize(mb, SLICE); Flat(s.taken) != [] && Bounded(s.rest)
  {
    if Flat(SplitSize(mb, SLICE).taken) == [] { FittingTakesContent(mb, SLICE); }
  }

  /** What a reader without a chunk limit makes of one write that has content. */
  lemma {:induction false} DrainOneWrite(mb: Multi, after: bytes, num: nat) returns (n: nat)
    requires Bounded(mb) && !IsEmpty(mb)
    ensures Drain(ChunkBytes(mb) + after, 0, num, 0) == Then(Flat(mb), Drain(after, 0, n, 0))
    decreases |Flat(mb)| + |mb|
  {
    SplitSizeConserves(mb, SLICE);
    SplitTakesContent(mb);
    var s := SplitSize(mb, SLICE);
    var d := Flat(s.taken);
    if IsEmpty(s.rest) {
      n := num + 1;
      IsEmptyIsFlat(s.rest);
      DrainChunk(d, after, num, 0);
    } else {
      n := DrainOneWrite(s.rest, after, num + 1);
      DrainTwo(d, ChunkBytes(s.rest), after, num, Flat(s.rest), n);
    }
  }

  lemma DrainTwo(d: bytes, chunks: bytes, after: bytes, num: nat, more: bytes, n: nat)
    requires 0 < |d| < 65536
    requires Drain(chunks + after, 0, num + 1, 0) == Then(more, Drain(after, 0, n, 0))
    ensures Drain(Uint16Bytes(|d|) + d + chunks + after, 0, num, 0) == Then(d + more, Drain(after, 0, n, 0))
  {
    var t := Drain(after, 0, n, 0);
    assert Uint16Bytes(|d|) + d + chunks + after == Uint16Bytes(|d|) + d + (chunks + after);
    DrainChunk(d, chunks + after, num, 0);
    assert d + (more + t.data) == d + more + t.data;
  }

  function AllChunks(writes: seq<Multi>): bytes {
    if writes == [] then [] else ChunkBytes(writes[0]) + AllChunks(writes[1..])
  }

  /** The content of the writes before the first one without content. */
  function UpToEmpty(writes: seq<Multi>): bytes {
    if writes == [] || IsEmpty(writes[0]) then [] else Flat(writes[0]) + UpToEmpty(writes[1..])
  }

  function AfterEmpty(writes: seq<Multi>): seq<Multi> {
    if writes == [] then [] else if IsEmpty(writes[0]) then writes[1..] else AfterEmpty(writes[1..])
  }

  lemma EmptyWrite(mb: Multi)
    requires IsEmpty(mb)
    ensures ChunkBytes(mb) == [0, 0]
  {
    IsEmptyIsFlat(mb);
    SplitSizeConserves(mb, SLICE);
    var s := SplitSize(mb, SLICE);
    IsEmptyIsFlat(s.rest);
  }

  /** Main result for the chunk stream: whatever is written, in whatever buffers, the reader hands over
      exactly the content of the writes before the first empty one; the empty write is the end of the
      stream, and what was written after it stays unread. */
  lemma {:induction false} ChunkRoundTrip(writes: seq<Multi>, num: nat)
    requires forall i :: 0 <= i < |writes| ==> Bounded(writes[i])
    ensures Drain(AllChunks(writes), 0, num, 0) == Drained(UpToEmpty(writes), AllChunks(AfterEmpty(writes)), true)
  {
    if writes != [] {
      var mb, more := writes[0], AllChunks(writes[1..]);
      if IsEmpty(mb) {
        EmptyWrite(mb);
        assert ([0, 0] + more)[2..] == more;
      } else {
        var n := DrainOneWrite(mb, more, num);
        ChunkRoundTrip(writes[1..], n);
      }
    }
  }

  // ----- one chunk: mux.NewStreamReader and mux.PacketReader -----

  /** NewStreamReader stops after one chunk. */
  function StreamPayload(input: bytes): Drained {
    Drain(input, 0, 0, 1)
  }

  /** PacketReader: one whole packet or nothing. */
  function PacketPayload(input: bytes): Drained {
    if |input| < 2 then Drained([], [], input == [])
    else
      var size := Uint16At(input, 0);
      if size > SIZE then Drained([], input[2..], false)
      else if |input| < 2 + size then Drained([], [], |input| == 2)
      else Drained(input[2..2 + size], input[2 + size..], true)
  }

  class PacketReader {
    const reader: BufferedReader
    var eof: bool

    constructor (reader: BufferedReader)
      ensures this.reader == reader && !eof
    {
      this.reader, eof := reader, false;
    }

    function Pending(): Drained
      reads this, reader
    {
      if eof then Drained([], reader.Remaining(), true) else PacketPayload(reader.Remaining())
    }

    method ReadMultiBuffer() returns (end: bool, clean: bool, mb: Multi)
      modifies this, reader
      ensures !end ==> old(Pending()) == Then(Flat(mb), Pending()) && !old(eof) && eof
      ensures end ==> old(Pending()) == Drained([], reader.Remaining(), clean) && eof == old(eof)
    {
      if eof { return true, true, []; }
      ghost var input := reader.Remaining();
      var ok, partial, b := reader.ReadFull(2);
      if !ok { return true, !partial, []; }
      assert input[2..] == reader.Remaining() && Uint16At(input, 0) == Uint16At(b, 0);
      var size := Uint16At(b, 0);
      if size > SIZE { return true, false, []; }
      var full, cut, data := reader.ReadFull(size);
      if !full { return true, !cut, []; }
      eof := true;
      assert Flat([data]) == data;
      return false, true, [data];
    }

    method Copy() returns (clean: bool, out: bytes)
      modifies this, reader
      ensures Drained(out, reader.Remaining(), clean) == old(Pending())
    {
      var end, mb;
      end, clean, mb := ReadMultiBuffer();
      out := [];
      if !end {
        out := Flat(mb);
        end, clean, mb := ReadMultiBuffer();
      }
    }
  }

  /** Exact consumption: a one-chunk reader takes the size and the chunk and leaves the next frame untouched. */
  lemma StreamPayloadIsChunk(d: bytes, rest: bytes)
    requires |d| < 65536
    ensures StreamPayload(Uint16Bytes(|d|) + d + rest) == Drained(d, rest, true)
  {
    if d == [] {
      assert Uint16Bytes(0) + d + rest == [0, 0] + rest;
    } else {
      DrainChunk(d, rest, 0, 1);
    }
  }

  lemma PacketPayloadIsChunk(d: bytes, rest: bytes)
    requires |d| < 65536
    ensures PacketPayload(Uint16Bytes(|d|) + d + rest) == Drained(d, rest, true) <==> |d| <= SIZE
  {
    var input := Uint16Bytes(|d|) + d + rest;
    Uint16RoundTrip(|d|);
    assert Uint16At(input, 0) == |d|;
    assert input[2..2 + |d|] == d && input[2 + |d|..] == rest;
  }
}
