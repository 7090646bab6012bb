/** BufferedWriter of common/buf/writer.go over a sink that accepts everything. */
module BufferedWriter {
  import opened Bytes
  import opened Buffer
  import opened MultiBuffer

  class BufferedWriter {
    const isByteWriter: bool  // the underlying writer takes bytes as well as buffers
    var sink: bytes           // everything the underlying writer was given
    var buffer: Buffer?
    var buffered: bool

    /** Only ever appended to, the buffer starts at the front. */
    ghost predicate Sound()
      reads this, buffer
    {
      buffer != null ==> buffer.Valid() && buffer.start == 0
    }

    /** A full buffer is passed on at once, and unbuffered it holds nothing. */
    ghost predicate Valid()
      reads this, buffer
    {
      Sound() && (buffer != null ==> buffer.end < SIZE && (!buffered ==> buffer.end == 0))
    }

    ghost function Memory(): set<object>
      reads this
    {
      if buffer == null then {} else {buffer, buffer.v}
    }

    /** What is still in the buffer. */
    function Held(): bytes
      requires Sound()
      reads this, buffer, Memory()
    {
      if buffer == null then [] else buffer.Contents()
    }

    /** Everything written, flushed or not. */
    function Written(): bytes
      requires Sound()
      reads this, buffer, Memory()
    {
      sink + Held()
    }

    constructor (isByteWriter: bool)
      ensures Valid() && Written() == [] && buffered && this.isByteWriter == isByteWriter && fresh(Memory())
    {
      this.isByteWriter, sink, buffered := isByteWriter, [], true;
      buffer := new Buffer();
    }

    method FlushInternal()
      requires Sound()
      modifies this
      ensures Valid() && Written() == old(Written()) && sink == old(Written()) && Held() == []
      ensures buffered == old(buffered) && (buffer == null || buffer == old(buffer))
      ensures old(Held()) != [] ==> buffer == null
    {
      if buffer == null || buffer.Len() == 0 { return; }
      var b := buffer;
      buffer := null;
      sink := sink + b.Contents();
    }

    lemma HeldBound()
      requires Valid()
      ensures |Held()| < 2048 && |Held()| % 2048 == |Held()| && (!buffered ==> Held() == [])
    {
    }

    /** One round of the loop of Write: fills the buffer and flushes it when it is full or not to be used. */
    method FillOnce(b: bytes) returns (n: nat)
      requires Valid() && b != []
      modifies this, Memory()
      ensures Valid() && buffered == old(buffered) && fresh(Memory() - old(Memory()))
      ensures 0 < n <= |b| && Written() == old(Written()) + b[..n]
      ensures buffered ==> (|Held()| + |b[n..]|) % 2048 == (|old(Held())| + |b|) % 2048
    {
      if buffer == null {
        buffer := new Buffer();
      }
      n := buffer.Write(b);
      Associates(sink, old(Held()), b[..n]);
      if !buffered || buffer.IsFull() {
        FlushInternal();
      }
    }

    method Write(b: bytes)
      requires Valid()
      modifies this, Memory()
      ensures Valid() && buffered == old(buffered) && fresh(Memory() - old(Memory()))
      ensures Written() == old(Written()) + b
      ensures |Held()| == if buffered then (|old(Held())| + |b|) % 2048 else 0
    {
      HeldBound();
      if |b| == 0 {
        NothingMore(Written());
        return;
      }
      if !buffered && isByteWriter {
        sink := sink + b;
        return;
      }
      var rest := b;
      while |rest| > 0
        invariant Valid() && buffered == old(buffered) && fresh(Memory() - old(Memory()))
        invariant Written() + rest == old(Written()) + b
        invariant buffered ==> (|Held()| + |rest|) % 2048 == (|old(Held())| + |b|) % 2048
      {
        ghost var before := Written();
        var n := FillOnce(rest);
        assert rest == rest[..n] + rest[n..];
        Associates(before, rest[..n], rest[n..]);
        rest := rest[n..];
      }
      NothingMore(Written());
      HeldBound();
    }

    /** What ReadFrom takes off the list for a buffer with used bytes. */
    static lemma SplitInto(mb: Multi, used: nat)
      requires !IsEmpty(mb) && used < SIZE
      ensures var s := SplitBytes(mb, SIZE - used);
              && Flat(mb) == s.taken + Flat(s.rest) && |s.taken| <= SIZE - used && |Flat(s.rest)| < |Flat(mb)|
              && (used + |Flat(mb)|) % 2048 ==
                 (if used + |s.taken| == SIZE then |Flat(s.rest)| else used + |s.taken| + |Flat(s.rest)|) % 2048
    {
      IsEmptyIsFlat(mb);
      SplitBytesConserves(mb, SIZE - used);
    }

    /** One round of the loop of WriteMultiBuffer. */
    method ReadOnce(mb: Multi) returns (rest: Multi)
      requires Valid() && buffered && !IsEmpty(mb)
      modifies this, Memory()
      ensures Valid() && buffered && fresh(Memory() - old(Memory()))
      ensures Written() + Flat(rest) == old(Written()) + Flat(mb)
      ensures |Flat(rest)| < |Flat(mb)|
      ensures (|Held()| + |Flat(rest)|) % 2048 == (|old(Held())| + |Flat(mb)|) % 2048
    {
      if buffer == null {
        buffer := new Buffer();
      }
      SplitInto(mb, buffer.end);
      var s := SplitBytes(mb, SIZE - buffer.end);
      var n := buffer.Write(s.taken);
      assert s.taken[..n] == s.taken;
      Associates(sink, old(Held()), s.taken);
      Associates(old(Written()), s.taken, Flat(s.rest));
      rest := s.rest;
      if buffer.IsFull() {
        FlushInternal();
      }
    }

    method WriteMultiBuffer(mb: Multi)
      requires Valid()
      modifies this, Memory()
      ensures Valid() && buffered == old(buffered) && fresh(Memory() - old(Memory()))
      ensures Written() == old(Written()) + Flat(mb)
      ensures |Held()| == if buffered then (|old(Held())| + |Flat(mb)|) % 2048 else 0
    {
      HeldBound();
      IsEmptyIsFlat(mb);
      if IsEmpty(mb) {
        NothingMore(Written());
        return;
      }
      if !buffered {
        sink := sink + Flat(mb);
        return;
      }
      var rest := mb;
      while !IsEmpty(rest)
        invariant Valid() && buffered && fresh(Memory() - old(Memory()))
        invariant Written() + Flat(rest) == old(Written()) + Flat(mb)
        invariant (|Held()| + |Flat(rest)|) % 2048 == (|old(Held())| + |Flat(mb)|) % 2048
        decreases |Flat(rest)|
      {
        rest := ReadOnce(rest);
      }
      IsEmptyIsFlat(rest);
      NothingMore(Written());
      HeldBound();
    }

    method Flush()
      requires Valid()
      modifies this
      ensures Valid() && Written() == old(Written()) && sink == old(Written()) && Held() == []
                && buffered == old(buffered)
    {
      FlushInternal();
    }

    method SetBuffered(f: bool)
      requires Valid()
      modifies this
      ensures Valid() && Written() == old(Written()) && buffered == f
      ensures !f ==> Held() == [] && sink == old(Written())
    {
      buffered := f;
      if !f { FlushInternal(); }
    }
  }
}
