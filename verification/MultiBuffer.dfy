/** common/buf/multi_buffer.go on the contents of the buffers: what each operation does to the list of
    byte strings a MultiBuffer holds. */
module MultiBuffer {
  import opened Bytes
  import opened Buffer

  type Multi = seq<bytes>

  function Flat(mb: Multi): bytes {
    if mb == [] then [] else mb[0] + Flat(mb[1..])
  }

  predicate IsEmpty(mb: Multi) {
    forall i :: 0 <= i < |mb| ==> mb[i] == []
  }

  lemma {:induction false} FlatConcat(a: Multi, b: Multi)
    ensures Flat(a + b) == Flat(a) + Flat(b)
  {
    if a == [] {
      assert a + b == b;
    } else {
      assert (a + b)[1..] == a[1..] + b;
      FlatConcat(a[1..], b);
      assert Flat(a + b) == a[0] + (Flat(a[1..]) + Flat(b));
    }
  }

  lemma {:induction false} IsEmptyIsFlat(mb: Multi)
    ensures IsEmpty(mb) <==> Flat(mb) == []
  {
    if mb != [] {
      IsEmptyIsFlat(mb[1..]);
      if IsEmpty(mb) {
        assert mb[0] == [];
      } else if mb[0] == [] {
        var i :| 0 <= i < |mb| && mb[i] != [];
        assert mb[1..][i - 1] == mb[i];
      }
    }
  }

  lemma FlatSplit(mb: Multi, n: nat)
    requires n <= |mb|
    ensures Flat(mb) == Flat(mb[..n]) + Flat(mb[n..])
  {
    assert mb == mb[..n] + mb[n..];
    FlatConcat(mb[..n], mb[n..]);
  }

  // ----- SplitBytes -----

  datatype Split<T> = Split(rest: Multi, taken: T)

  /** Takes up to n bytes off the front; buffers emptied on the way are dropped. */
  function SplitBytes(mb: Multi, n: nat): Split<bytes> {
    if mb == [] then Split([], [])
    else if |mb[0]| <= n then
      var s := SplitBytes(mb[1..], n - |mb[0]|);
      Split(s.rest, mb[0] + s.taken)
    else Split([mb[0][n..]] + mb[1..], mb[0][..n])
  }

  lemma {:induction false} SplitBytesConserves(mb: Multi, n: nat)
    ensures var s := SplitBytes(mb, n);
            && Flat(mb) == s.taken + Flat(s.rest)
            && |s.taken| == Min(n, |Flat(mb)|)
            && |s.rest| <= |mb|
            && (s.rest != [] ==> s.rest[0] != [])
  {
    if mb != [] {
      if |mb[0]| <= n {
        SplitBytesConserves(mb[1..], n - |mb[0]|);
      } else {
        var s := SplitBytes(mb, n);
        assert s.rest[1..] == mb[1..];
        assert mb[0] == mb[0][..n] + mb[0][n..];
      }
    }
  }

  // ----- SplitSize -----

  /** How many leading buffers fit into size bytes. */
  function Fitting(mb: Multi, size: nat): (n: nat)
    ensures n <= |mb|
  {
    if mb == [] || |mb[0]| > size then 0 else 1 + Fitting(mb[1..], size - |mb[0]|)
  }

  /** Moves whole buffers while they fit; only a first buffer that is too large is cut. */
  function SplitSize(mb: Multi, size: nat): Split<Multi> {
    if mb == [] then Split(mb, [])
    else if |mb[0]| > size then Split([mb[0][size..]] + mb[1..], [mb[0][..size]])
    else
      var n := Fitting(mb, size);
      Split(mb[n..], mb[..n])
  }

  lemma {:induction false} FittingFits(mb: Multi, size: nat)
    ensures |Flat(mb[..Fitting(mb, size)])| <= size
  {
    var n := Fitting(mb, size);
    if n > 0 {
      FittingFits(mb[1..], size - |mb[0]|);
      assert mb[..n][1..] == mb[1..][..n - 1];
    }
  }

  lemma SplitSizeConserves(mb: Multi, size: nat)
    ensures var s := SplitSize(mb, size);
            && Flat(mb) == Flat(s.taken) + Flat(s.rest)
            && |Flat(s.taken)| <= size
            && |s.rest| <= |mb|
            && (mb != [] && size > 0 ==> |s.rest| < |mb| || (|Flat(s.rest)| < |Flat(mb)| && |s.taken| == 1))
  {
    if mb != [] {
      if |mb[0]| > size {
        var s := SplitSize(mb, size);
        assert s.rest[1..] == mb[1..];
        assert Flat(s.taken) == mb[0][..size];
        assert mb[0] == mb[0][..size] + mb[0][size..];
      } else {
        var n := Fitting(mb, size);
        FittingFits(mb, size);
        FlatSplit(mb, n);
      }
    }
  }

  /** As many whole buffers as fit are taken, and they are left whole; only a first buffer that is too large is cut. */
  lemma {:induction false} SplitSizeTakesMost(mb: Multi, size: nat)
    ensures var s := SplitSize(mb, size);
            if mb != [] && |mb[0]| > size then s.taken == [mb[0][..size]] && s.rest == [mb[0][size..]] + mb[1..]
            else
              && mb == s.taken + s.rest && |Flat(s.taken)| <= size
              && (s.rest != [] ==> |Flat(s.taken)| + |s.rest[0]| > size)
  {
    if mb != [] && |mb[0]| <= size {
      FittingFits(mb, size);
      FittingIsMost(mb, size);
    }
  }

  lemma {:induction false} FittingIsMost(mb: Multi, size: nat)
    ensures var n := Fitting(mb, size); n < |mb| ==> |Flat(mb[..n])| + |mb[n]| > size
  {
    var n := Fitting(mb, size);
    if n > 0 {
      FittingIsMost(mb[1..], size - |mb[0]|);
      assert mb[..n][1..] == mb[1..][..n - 1];
    }
  }

  // ----- MergeBytes -----

  /** How much of n more bytes a buffer takes that holds used bytes from its start on. */
  function Room(used: nat, n: nat): nat {
    if used >= SIZE then 0 else if n <= SIZE - used then n else SIZE - used
  }

  /** New buffers of SIZE bytes, the last one as full as it gets. */
  function Filled(src: bytes): Multi {
    if src == [] then [] else if |src| <= SIZE then [src] else [src[..SIZE]] + Filled(src[SIZE..])
  }

  /** Fills up the last buffer, then appends new ones; the last buffer starts at the front of its array. */
  function MergeBytes(mb: Multi, src: bytes): Multi {
    if mb == [] then Filled(src)
    else
      var last := mb[|mb| - 1];
      var k := Room(|last|, |src|);
      mb[..|mb| - 1] + [last + src[..k]] + Filled(src[k..])
  }

  /** No buffer holds more than its array. */
  ghost predicate Bounded(mb: Multi) {
    forall i :: 0 <= i < |mb| ==> |mb[i]| <= SIZE
  }

  lemma {:induction false} FilledConserves(src: bytes)
    ensures Flat(Filled(src)) == src && Bounded(Filled(src))
  {
    if 0 < |src| <= SIZE {
      assert Flat([src]) == src;
    } else if |src| > SIZE {
      FilledConserves(src[SIZE..]);
      assert src == src[..SIZE] + src[SIZE..];
    }
  }

  lemma MergeBytesConserves(mb: Multi, src: bytes)
    ensures Flat(MergeBytes(mb, src)) == Flat(mb) + src
    ensures Bounded(mb) ==> Bounded(MergeBytes(mb, src))
  {
    if mb == [] {
      FilledConserves(src);
    } else {
      var init, last := mb[..|mb| - 1], mb[|mb| - 1];
      var k := Room(|last|, |src|);
      var tail := Filled(src[k..]);
      FilledConserves(src[k..]);
      FlatConcat(init + [last + src[..k]], tail);
      FlatConcat(init, [last + src[..k]]);
      FlatConcat(init, [last]);
      assert mb == init + [last];
      assert Flat([last]) == last && Flat([last + src[..k]]) == last + src[..k];
      assert Flat(init) + (last + src[..k]) + src[k..] == Flat(init) + last + src;
    }
  }

  // ----- Compact -----

  /** A buffer as Compact sees it: where its contents start in the array, and what they are. */
  datatype Piece = Piece(start: nat, data: bytes)

  /** Reads c into the rest of last's array: what does not fit before the end of the array is lost. */
  function Absorbed(last: Piece, c: Piece): Piece {
    last.(data := last.data + c.data[..Room(last.start + |last.data|, |c.data|)])
  }

  /** Compact from a current last buffer on. None is the panic of common.Must2 on an empty buffer. */
  function CompactFrom(last: Piece, rest: seq<Piece>): Option<Multi>
    decreases |rest|
  {
    if rest == [] then Some([last.data])
    else if |last.data| + |rest[0].data| > SIZE then Headed(last.data, CompactFrom(rest[0], rest[1..]))
    else if rest[0].data == [] then None
    else CompactFrom(Absorbed(last, rest[0]), rest[1..])
  }

  function Headed(d: bytes, r: Option<Multi>): Option<Multi> {
    match r
    case None => None
    case Some(mb) => Some([d] + mb)
  }

  function Contents(ps: seq<Piece>): bytes {
    if ps == [] then [] else ps[0].data + Contents(ps[1..])
  }

  ghost predicate InArrays(ps: seq<Piece>) {
    forall i {:trigger ps[i]} :: 0 <= i < |ps| ==> ps[i].start + |ps[i].data| <= SIZE
  }

  /** Whether every merge fits behind the contents it is appended to; it depends on the cursors alone. */
  ghost predicate Roomy(last: Piece, rest: seq<Piece>)
    decreases |rest|
  {
    rest == [] ||
    if |last.data| + |rest[0].data| > SIZE then Roomy(rest[0], rest[1..])
    else last.start + |last.data| + |rest[0].data| <= SIZE && Roomy(Absorbed(last, rest[0]), rest[1..])
  }

  lemma {:induction false} CompactPanics(last: Piece, rest: seq<Piece>)
    requires last.start + |last.data| <= SIZE && InArrays(rest)
    ensures CompactFrom(last, rest) == None <==> exists i {:trigger rest[i]} :: 0 <= i < |rest| && rest[i].data == []
    decreases |rest|
  {
    if rest != [] {
      var tail := rest[1..];
      assert rest == [rest[0]] + tail;
      assert InArrays(tail);
      if |last.data| + |rest[0].data| > SIZE {
        CompactPanics(rest[0], tail);
      } else {
        CompactPanics(Absorbed(last, rest[0]), tail);
      }
      if i :| 0 <= i < |tail| && tail[i].data == [] { assert rest[i + 1].data == []; }
      if i :| 0 < i < |rest| && rest[i].data == [] { assert tail[i - 1].data == []; }
    }
  }

  /** Nothing is ever gained, and everything is kept if and only if every merge has room. */
  lemma {:induction false} CompactConserves(last: Piece, rest: seq<Piece>)
    requires last.start + |last.data| <= SIZE && InArrays(rest) && CompactFrom(last, rest).Some?
    ensures var out := Flat(CompactFrom(last, rest).value);
            && |out| <= |last.data| + |Contents(rest)|
            && (Roomy(last, rest) ==> out == last.data + Contents(rest))
            && (!Roomy(last, rest) ==> |out| < |last.data| + |Contents(rest)|)
    decreases |rest|
  {
    if rest == [] {
      assert Flat([last.data]) == last.data;
    } else {
      var c, tail := rest[0], rest[1..];
      assert InArrays(tail);
      if |last.data| + |c.data| > SIZE {
        CompactConserves(c, tail);
      } else {
        CompactConserves(Absorbed(last, c), tail);
        if last.start + |last.data| + |c.data| <= SIZE {
          assert c.data[..|c.data|] == c.data;
          Associates(last.data, c.data, Contents(tail));
        }
      }
    }
  }

  /** A buffer with one byte left at the very end of its array takes nothing of the next one, which is lost; and an
      empty buffer behind another panics. */
  lemma CompactLosesAndPanics(a: byte, b: byte)
    ensures CompactFrom(Piece(SIZE - 1, [a]), [Piece(3, [b])]) == Some([[a]])
    ensures CompactFrom(Piece(0, [a]), [Piece(0, [])]) == None
  {
    var last, c := Piece(SIZE - 1, [a]), Piece(3, [b]);
    assert [c][1..] == [] && c.data[..0] == [];
    NothingMore(last.data);
    assert Absorbed(last, c) == last;
  }

  /** Buffers that start at the front of their arrays always have room. */
  lemma {:induction false} UnreadIsRoomy(last: Piece, rest: seq<Piece>)
    requires last.start == 0 && forall i {:trigger rest[i]} :: 0 <= i < |rest| ==> rest[i].start == 0
    ensures Roomy(last, rest)
    decreases |rest|
  {
    if rest != [] {
      var tail := rest[1..];
      if |last.data| + |rest[0].data| > SIZE {
        UnreadIsRoomy(rest[0], tail);
      } else {
        UnreadIsRoomy(Absorbed(last, rest[0]), tail);
      }
    }
  }
}
