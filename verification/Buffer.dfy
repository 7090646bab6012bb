/** common/buf/buffer.go: a fixed array of bytes with a start and an end cursor. */
module Buffer {
  import opened Bytes

  const SIZE: nat := 2048

  class Buffer {
    const v: array<byte>
    var start: nat
    var end: nat

    ghost predicate Valid()
      reads this
    {
      v.Length == SIZE && start <= end <= SIZE
    }

    /** What Bytes() returns. */
    function Contents(): (r: bytes)
      requires Valid()
      reads this, v
      ensures |r| == end - start
    {
      v[start..end]
    }

    constructor ()
      ensures Valid() && Contents() == [] && start == 0 && fresh(v)
    {
      v := new byte[SIZE](_ => 0);
      start, end := 0, 0;
    }

    function Len(): nat
      requires Valid()
      reads this
    {
      end - start
    }

    function BytesTo(to: nat): (r: bytes)
      requires Valid() && to <= Len()
      reads this, v
      ensures r == Contents()[..to]
    {
      v[start..start + to]
    }

    predicate IsFull()
      requires Valid()
      reads this
    {
      end == SIZE
    }

    method Clear()
      requires Valid()
      modifies this
      ensures Valid() && Contents() == [] && start == 0
    {
      start, end := 0, 0;
    }

    /** Reserves n bytes after the contents and returns where they begin; ok is false where the source
        panics. The reserved bytes keep whatever the array held. */
    method Extend(n: nat) returns (ok: bool, at: nat)
      requires Valid()
      modifies `end
      ensures Valid() && at == old(end) && ok == (old(end) + n <= 2048)
      ensures end == if ok then old(end) + n else old(end)
      ensures ok ==> Contents() == old(Contents()) + v[at..at + n]
    {
      ok, at := end + n <= SIZE, end;
      if ok { end := end + n; }
    }

    /** Writes what fits; n is how much that was. */
    method Write(data: bytes) returns (n: nat)
      requires Valid()
      modifies `end, v
      ensures Valid() && n == if |data| <= 2048 - old(end) then |data| else 2048 - old(end)
      ensures Contents() == old(Contents()) + data[..n] && end == old(end) + n
      ensures forall i :: 0 <= i < old(end) ==> v[i] == old(v[i])
    {
      n := if |data| <= SIZE - end then |data| else SIZE - end;
      forall i | 0 <= i < n {
        v[end + i] := data[i];
      }
      end := end + n;
    }

    method WriteByte(b: byte) returns (ok: bool)
      requires Valid()
      modifies `end, v
      ensures Valid() && ok == (old(end) < 2048)
      ensures Contents() == if ok then old(Contents()) + [b] else old(Contents())
      ensures end == if ok then old(end) + 1 else old(end)
      ensures forall i :: 0 <= i < old(end) ==> v[i] == old(v[i])
    {
      if end == SIZE { return false; }
      v[end] := b;
      end := end + 1;
      ok := true;
    }

    /** Takes up to |n| bytes off the front; None is io.EOF. An emptied buffer starts over at 0. */
    method Read(n: nat) returns (eof: bool, data: bytes)
      requires Valid()
      modifies `start, `end
      ensures Valid() && eof == (old(Len()) == 0)
      ensures |data| == if n <= old(Len()) then n else old(Len())
      ensures old(Contents()) == data + Contents()
      ensures !eof && Len() == 0 ==> start == 0
    {
      if end == start { return true, []; }
      var k := if n <= end - start then n else end - start;
      eof, data := false, v[start..start + k];
      if k == end - start {
        start, end := 0, 0;
      } else {
        start := start + k;
      }
    }

    /** Cuts to [from, to); a negative position counts from the end of the contents. ok is false where the
        source panics. It requires what no caller violates: positions inside the contents. */
    method Resize(from: int, to: int) returns (ok: bool)
      requires Valid() && 0 - Len() as int <= from <= Len() && 0 - Len() as int <= to <= Len()
      modifies `start, `end
      ensures Valid()
      ensures var n := old(Len());
              var lo := if from < 0 then from + n else from;
              var hi := if to < 0 then to + n else to;
              ok == (lo <= hi) && Contents() == if ok then old(Contents())[lo..hi] else old(Contents())
    {
      var lo := if from < 0 then from + Len() else from;
      var hi := if to < 0 then to + Len() else to;
      if hi < lo { return false; }
      ghost var was := Contents();
      end := start + hi;
      start := start + lo;
      assert Contents() == was[lo..hi];
      ok := true;
    }

    method Advance(from: int)
      requires Valid() && 0 - Len() as int <= from <= Len()
      modifies `start
      ensures Valid()
      ensures Contents() == old(Contents())[if from < 0 then from + old(Len()) else from..]
    {
      start := start + if from < 0 then from + Len() else from;
    }

    /** binary.BigEndian.PutUint16 into reserved bytes. */
    method PutUint16(at: nat, value: nat)
      requires Valid() && start <= at && at + 2 <= end && value < 65536
      modifies v
      ensures Contents() == Patched(old(Contents()), at - start, Uint16Bytes(value))
    {
      v[at], v[at + 1] := value / 256, value % 256;
    }
  }

  function Patched(s: bytes, i: nat, w: bytes): bytes
    requires i + |w| <= |s|
  {
    s[..i] + w + s[i + |w|..]
  }

  lemma PatchedMiddle(a: bytes, x: bytes, b: bytes, w: bytes)
    requires |w| == |x|
    ensures Patched(a + x + b, |a|, w) == a + w + b
  {
    assert (a + x + b)[..|a|] == a && (a + x + b)[|a| + |w|..] == b;
  }
}
