/** common/buf/reader.go: BufferedReader over an underlying reader that may deliver its bytes in any
    fragmentation. */
module Reader {
  import opened Bytes
  import opened MultiBuffer

  /** The bytes of the multi-buffers the underlying reader has yet to deliver. */
  function FlatAll(source: seq<Multi>): bytes {
    if source == [] then [] else Flat(source[0]) + FlatAll(source[1..])
  }

  function Pieces(source: seq<Multi>): nat {
    if source == [] then 0 else 1 + |source[0]| + Pieces(source[1..])
  }

  class BufferedReader {
    var source: seq<Multi>  // what Reader.ReadMultiBuffer will return, then io.EOF
    var buffer: Multi

    constructor (source: seq<Multi>)
      ensures this.source == source && buffer == []
    {
      this.source, buffer := source, [];
    }

    function Remaining(): bytes
      reads this
    {
      Flat(buffer) + FlatAll(source)
    }

    /** Goes down with every read that does not end in EOF. */
    function Work(): nat
      reads this
    {
      |Remaining()| + |buffer| + Pieces(source)
    }

    method Read(n: nat) returns (eof: bool, got: bytes)
      modifies this
      ensures old(Remaining()) == got + Remaining() && |got| <= n
      ensures eof ==> old(Remaining()) == []
      ensures Work() <= old(Work()) && (!eof && n > 0 ==> Work() < old(Work()))
    {
      IsEmptyIsFlat(buffer);
      if !IsEmpty(buffer) {
        var s := SplitBytes(buffer, n);
        SplitBytesConserves(buffer, n);
        IsEmptyIsFlat(s.rest);
        buffer := if IsEmpty(s.rest) then [] else s.rest;
        return false, s.taken;
      }
      if source == [] { return true, []; }
      var mb := source[0];
      source := source[1..];
      var s := SplitBytes(mb, n);
      SplitBytesConserves(mb, n);
      IsEmptyIsFlat(s.rest);
      if !IsEmpty(s.rest) {
        buffer := s.rest;
      }
      return false, s.taken;
    }

    /** io.ReadFull: n bytes, or everything that is left and an error. partial tells io.ErrUnexpectedEOF
        from io.EOF. */
    method ReadFull(n: nat) returns (ok: bool, partial: bool, got: bytes)
      modifies this
      ensures ok == (n <= |old(Remaining())|)
      ensures old(Remaining()) == got + Remaining()
      ensures if ok then |got| == n else Remaining() == []
      ensures !ok ==> partial == (got != [])
      ensures Work() <= old(Work())
    {
      got := [];
      while |got| < n
        invariant |got| <= n
        invariant old(Remaining()) == got + Remaining()
        invariant Work() <= old(Work())
        decreases Work()
      {
        var eof, more := Read(n - |got|);
        if eof {
          assert |more + Remaining()| == 0;
          return false, got != [], got;
        }
        assert got + (more + Remaining()) == got + more + Remaining();
        got := got + more;
      }
      return true, false, got;
    }

    /** Fetches the next buffers when there are none; what remains stays the same. */
    method Refill() returns (eof: bool)
      modifies this
      ensures Remaining() == old(Remaining()) && (eof ==> Remaining() == [])
      ensures Work() <= old(Work()) && (!eof && IsEmpty(buffer) ==> Work() < old(Work()))
    {
      IsEmptyIsFlat(buffer);
      if IsEmpty(buffer) {
        if source == [] { return true; }
        buffer := source[0];
        source := source[1..];
      }
      return false;
    }

    /** Fails only at the end of the input. An empty result is not the end. */
    method ReadAtMost(size: nat) returns (eof: bool, mb: Multi)
      modifies this
      ensures old(Remaining()) == Flat(mb) + Remaining() && |Flat(mb)| <= size
      ensures eof ==> old(Remaining()) == [] && mb == []
      ensures !eof && size > 0 ==> Work() < old(Work())
    {
      eof := Refill();
      if eof { return true, []; }
      SplitSizeConserves(buffer, size);
      var s := SplitSize(buffer, size);
      IsEmptyIsFlat(s.rest);
      buffer := if IsEmpty(s.rest) then [] else s.rest;
      return false, s.taken;
    }

    method ReadMultiBuffer() returns (eof: bool, mb: Multi)
      modifies this
      ensures old(Remaining()) == Flat(mb) + Remaining()
      ensures eof ==> old(Remaining()) == [] && mb == []
    {
      IsEmptyIsFlat(buffer);
      if !IsEmpty(buffer) {
        mb := buffer;
        buffer := [];
        return false, mb;
      }
      if source == [] { return true, []; }
      mb := source[0];
      source := source[1..];
      eof := false;
    }
  }
}
