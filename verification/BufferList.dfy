/** common/buf/multi_buffer.go on buffers in memory: the loops move cursors and bytes in place; their effect on
    the contents is what MultiBuffer says. */
module BufferList {
  import opened Bytes
  import opened Buffer
  import opened MultiBuffer

  /** Distinct buffers with arrays of their own. */
  ghost predicate Apart(mb: seq<Buffer>) {
    mb == [] ||
    (Apart(mb[..|mb| - 1]) && forall i {:trigger mb[i]} :: 0 <= i < |mb| - 1 ==>
     mb[i] != mb[|mb| - 1] && mb[i].v != mb[|mb| - 1].v)
  }

  lemma {:induction false} ApartAt(mb: seq<Buffer>, i: nat)
    requires Apart(mb) && i < |mb|
    ensures forall j {:trigger mb[j]} :: 0 <= j < |mb| && j != i ==> mb[j] != mb[i] && mb[j].v != mb[i].v
  {
    if i < |mb| - 1 {
      var before := mb[..|mb| - 1];
      ApartAt(before, i);
      assert forall j {:trigger mb[j]} :: 0 <= j < |mb| - 1 ==> mb[j] == before[j];
    }
  }

  ghost predicate Separate(mb: seq<Buffer>)
    reads mb
  {
    Apart(mb) && forall i {:trigger mb[i]} :: 0 <= i < |mb| ==> mb[i].Valid()
  }

  function Arrays(mb: seq<Buffer>): set<array<byte>> {
    set b | b in mb :: b.v
  }

  function Views(mb: seq<Buffer>): (r: Multi)
    requires forall i {:trigger mb[i]} :: 0 <= i < |mb| ==> mb[i].Valid()
    reads mb, Arrays(mb)
    ensures |r| == |mb|
    ensures forall i {:trigger r[i]} :: 0 <= i < |mb| ==> r[i] == mb[i].Contents()
  {
    if mb == [] then [] else Views(mb[..|mb| - 1]) + [mb[|mb| - 1].Contents()]
  }

  function Preceded(head: bytes, s: Split<bytes>): Split<bytes> {
    Split(s.rest, head + s.taken)
  }

  /** SplitBytes of the buffers from the i-th on. */
  function SplitFrom(was: Multi, i: nat, n: nat): Split<bytes>
    requires i <= |was|
    decreases |was| - i
  {
    if i == |was| then Split([], [])
    else if |was[i]| <= n then
      var s := SplitFrom(was, i + 1, n - |was[i]|);
      Split(s.rest, was[i] + s.taken)
    else Split([was[i][n..]] + was[i + 1..], was[i][..n])
  }

  lemma {:induction false} SplitFromIsSplit(was: Multi, i: nat, n: nat)
    requires i <= |was|
    ensures SplitFrom(was, i, n) == MultiBuffer.SplitBytes(was[i..], n)
    decreases |was| - i
  {
    if i < |was| {
      assert was[i..][0] == was[i] && was[i..][1..] == was[i + 1..];
      if |was[i]| <= n { SplitFromIsSplit(was, i + 1, n - |was[i]|); }
    }
  }

  /** One round of the loop of SplitBytes: a buffer is emptied, or it is the last one touched. */
  lemma SplitBytesStep(was: Multi, i: nat, room: nat, got: bytes)
    requires i < |was|
    ensures |was[i]| <= room ==>
              Preceded(got, SplitFrom(was, i, room)) == Preceded(got + was[i], SplitFrom(was, i + 1, room - |was[i]|))
    ensures |was[i]| > room ==>
              Preceded(got, SplitFrom(was, i, room)) == Split([was[i][room..]] + was[i + 1..], got + was[i][..room])
  {
    if |was[i]| <= room { Associates(got, was[i], SplitFrom(was, i + 1, room - |was[i]|).taken); }
  }

  lemma SplitBytesStarts(was: Multi, n: nat)
    ensures Preceded([], SplitFrom(was, 0, n)) == MultiBuffer.SplitBytes(was, n)
  {
    SplitFromIsSplit(was, 0, n);
    assert was[0..] == was;
    NothingMore(MultiBuffer.SplitBytes(was, n).taken);
  }

  lemma SplitBytesEnds(was: Multi, got: bytes, room: nat)
    ensures Preceded(got, SplitFrom(was, |was|, room)) == Split([], got)
  {
    NothingMore(got);
  }

  /** Reads from one buffer of the list; the others keep their contents. */
  method ReadAt(mb: seq<Buffer>, i: nat, room: nat) returns (d: bytes)
    requires i < |mb| && Separate(mb)
    modifies mb[i]
    ensures Separate(mb)
    ensures |d| == Min(room, |old(mb[i].Contents())|) && old(mb[i].Contents()) == d + mb[i].Contents()
    ensures forall j {:trigger mb[j]} :: 0 <= j < |mb| && j != i ==> mb[j].Contents() == old(mb[j].Contents())
  {
    ApartAt(mb, i);
    var _, got := mb[i].Read(room);
    d := got;
  }

  lemma HeadRead(all: bytes, d: bytes, rest: bytes, room: nat)
    requires all == d + rest && |d| == Min(room, |all|)
    ensures if rest == [] then d == all && |all| <= room else |all| > room && d == all[..room] && rest == all[room..]
  {
  }

  /** Buffers i and later hold what they held at first. */
  ghost predicate Untouched(mb: seq<Buffer>, was: Multi, i: nat)
    requires Separate(mb) && |was| == |mb|
    reads mb, Arrays(mb)
  {
    forall j {:trigger mb[j]} {:trigger was[j]} :: i <= j < |mb| ==> mb[j].Contents() == was[j]
  }

  lemma TailViews(mb: seq<Buffer>, was: Multi, i: nat)
    requires i < |mb| == |was| && Separate(mb) && Untouched(mb, was, i + 1)
    ensures (forall j {:trigger mb[i..][j]} :: 0 <= j < |mb| - i ==> mb[i..][j].Valid())
    ensures Views(mb[i..]) == [mb[i].Contents()] + was[i + 1..]
  {
    var rest := mb[i..];
    assert forall j {:trigger rest[j]} :: 0 <= j < |rest| ==> rest[j] == mb[i + j];
  }

  /** One round of the loop. total is what the whole call comes to. */
  method SplitRound(mb: seq<Buffer>, i: nat, room: nat, ghost was: Multi, ghost got: bytes, ghost total: Split<bytes>)
    returns (last: bool, d: bytes)
    requires i < |mb| == |was| && Separate(mb) && Untouched(mb, was, i)
    requires total == Preceded(got, SplitFrom(was, i, room))
    modifies mb[i]
    ensures Separate(mb) && Untouched(mb, was, i + 1) && |d| <= room
    ensures total == if last then Split([mb[i].Contents()] + was[i + 1..], got + d)
                     else Preceded(got + d, SplitFrom(was, i + 1, room - |d|))
  {
    SplitBytesStep(was, i, room, got);
    d := ReadAt(mb, i, room);
    HeadRead(was[i], d, mb[i].Contents(), room);
    last := mb[i].Len() != 0;
  }

  method SplitLoop(mb: seq<Buffer>, n: nat, ghost was: Multi) returns (rest: seq<Buffer>, got: bytes, ghost k: nat)
    requires |was| == |mb| && Separate(mb) && Untouched(mb, was, 0)
    modifies mb
    ensures k <= |mb| && rest == mb[k..] && Separate(mb)
    ensures forall j {:trigger rest[j]} :: 0 <= j < |rest| ==> rest[j].Valid()
    ensures Split(Views(rest), got) == Preceded([], SplitFrom(was, 0, n))
  {
    ghost var total := Preceded([], SplitFrom(was, 0, n));
    got := [];
    var i := 0;
    while i < |mb|
      invariant 0 <= i <= |mb| && |got| <= n && Separate(mb) && Untouched(mb, was, i)
      invariant total == Preceded(got, SplitFrom(was, i, n - |got|))
    {
      var last, d := SplitRound(mb, i, n - |got|, was, got, total);
      got := got + d;
      if last {
        rest, k := mb[i..], i;
        TailViews(mb, was, i);
        return;
      }
      i := i + 1;
    }
    SplitBytesEnds(was, got, n - |got|);
    rest, k := [], |mb|;
  }

  /** SplitBytes: reads n bytes off the front of the list; the first k buffers are used up. */
  method SplitBytes(mb: seq<Buffer>, n: nat) returns (rest: seq<Buffer>, got: bytes, ghost k: nat)
    requires Separate(mb)
    modifies mb
    ensures k <= |mb| && rest == mb[k..] && Separate(mb)
    ensures forall j {:trigger rest[j]} :: 0 <= j < |rest| ==> rest[j].Valid()
    ensures Split(Views(rest), got) == MultiBuffer.SplitBytes(old(Views(mb)), n)
  {
    SplitBytesStarts(Views(mb), n);
    rest, got, k := SplitLoop(mb, n, Views(mb));
  }

  // ----- SplitSize -----

  /** Fitting of the buffers from the i-th on. */
  function FittingFrom(was: Multi, i: nat, size: nat): (k: nat)
    requires i <= |was|
    ensures i <= k <= |was|
    decreases |was| - i
  {
    if i == |was| || |was[i]| > size then i else FittingFrom(was, i + 1, size - |was[i]|)
  }

  lemma {:induction false} FittingFromIsFitting(was: Multi, i: nat, size: nat)
    requires i <= |was|
    ensures FittingFrom(was, i, size) == i + Fitting(was[i..], size)
    decreases |was| - i
  {
    if i < |was| {
      assert was[i..][0] == was[i] && was[i..][1..] == was[i + 1..];
      if |was[i]| <= size { FittingFromIsFitting(was, i + 1, size - |was[i]|); }
    }
  }

  /** The first n bytes of a buffer in a buffer of their own. */
  method CutFront(b: Buffer, n: nat) returns (c: Buffer)
    requires b.Valid() && n < b.Len()
    modifies b
    ensures fresh(c) && fresh(c.v) && c.Valid() && b.Valid()
    ensures c.Contents() == old(b.Contents())[..n] && b.Contents() == old(b.Contents())[n..]
  {
    c := new Buffer();
    var _ := c.Write(b.BytesTo(n));
    b.Advance(n);
  }

  lemma OneView(c: Buffer)
    requires c.Valid()
    ensures Views([c]) == [c.Contents()]
  {
    assert [c][..0] == [];
  }

  /** The case of a first buffer that is too large. */
  method CutFirst(mb: seq<Buffer>, size: nat, ghost was: Multi) returns (c: Buffer)
    requires Separate(mb) && mb != [] && |was| == |mb| && Untouched(mb, was, 0) && |was[0]| > size
    modifies mb[0]
    ensures Separate(mb) && fresh(c) && c.Valid()
    ensures Split(Views(mb), Views([c])) == MultiBuffer.SplitSize(was, size)
  {
    ApartAt(mb, 0);
    c := CutFront(mb[0], size);
    TailViews(mb, was, 0);
    assert mb[0..] == mb;
    OneView(c);
  }

  lemma PartViews(mb: seq<Buffer>, was: Multi, k: nat)
    requires |was| == |mb| && k <= |mb| && Separate(mb) && Untouched(mb, was, 0)
    ensures (forall j {:trigger mb[..k][j]} :: 0 <= j < k ==> mb[..k][j].Valid())
    ensures (forall j {:trigger mb[k..][j]} :: 0 <= j < |mb| - k ==> mb[k..][j].Valid())
    ensures Views(mb[..k]) == was[..k] && Views(mb[k..]) == was[k..]
  {
    var a, b := mb[..k], mb[k..];
    assert forall j {:trigger a[j]} :: 0 <= j < k ==> a[j] == mb[j];
    assert forall j {:trigger b[j]} :: 0 <= j < |b| ==> b[j] == mb[k + j];
  }

  /** SplitSize: the buffers taken are the first ones of the list, or a new one cut from the first. */
  method SplitSize(mb: seq<Buffer>, size: nat) returns (rest: seq<Buffer>, taken: seq<Buffer>)
    requires Separate(mb)
    modifies mb
    ensures Separate(mb)
    ensures (forall i {:trigger rest[i]} :: 0 <= i < |rest| ==> rest[i].Valid())
    ensures (forall i {:trigger taken[i]} :: 0 <= i < |taken| ==> taken[i].Valid())
    ensures Split(Views(rest), Views(taken)) == MultiBuffer.SplitSize(old(Views(mb)), size)
    ensures (rest == mb && |taken| == 1 && fresh(taken[0])) || mb == taken + rest
  {
    ghost var was := Views(mb);
    if |mb| == 0 { return mb, []; }
    if mb[0].Len() > size {
      var c := CutFirst(mb, size, was);
      return mb, [c];
    }
    rest, taken := TakeWhole(mb, size, was);
  }

  /** The case of whole buffers. */
  method TakeWhole(mb: seq<Buffer>, size: nat, ghost was: Multi) returns (rest: seq<Buffer>, taken: seq<Buffer>)
    requires |was| == |mb| > 0 && Separate(mb) && Untouched(mb, was, 0) && |was[0]| <= size
    ensures (forall i {:trigger rest[i]} :: 0 <= i < |rest| ==> rest[i].Valid())
    ensures (forall i {:trigger taken[i]} :: 0 <= i < |taken| ==> taken[i].Valid())
    ensures Split(Views(rest), Views(taken)) == MultiBuffer.SplitSize(was, size)
    ensures mb == taken + rest
  {
    var k := CountFitting(mb, size, was);
    PartViews(mb, was, k);
    rest, taken := mb[k..], mb[..k];
  }

  method CountFitting(mb: seq<Buffer>, size: nat, ghost was: Multi) returns (k: nat)
    requires |was| == |mb| && Separate(mb) && Untouched(mb, was, 0)
    ensures k == Fitting(was, size)
  {
    var total := 0;
    k := 0;
    FittingFromIsFitting(was, 0, size);
    assert was[0..] == was;
    while k < |mb| && total + mb[k].Len() <= size
      invariant 0 <= k <= |mb| && total <= size
      invariant FittingFrom(was, 0, size) == FittingFrom(was, k, size - total)
    {
      total := total + mb[k].Len();
      k := k + 1;
    }
  }

  // ----- MergeBytes -----

  /** Fills up the last buffer if it has room; rest is what did not fit. */
  method FillLast(dest: seq<Buffer>, src: bytes) returns (rest: bytes)
    requires Separate(dest)
    modifies dest, Arrays(dest)
    ensures Separate(dest)
    ensures Flat(Views(dest)) + rest == Flat(old(Views(dest))) + src
  {
    ghost var was := Views(dest);
    var n := |dest|;
    if n == 0 || dest[n - 1].IsFull() { return src; }
    ApartAt(dest, n - 1);
    var k := dest[n - 1].Write(src);
    rest := src[k..];
    LastGrew(was, Views(dest), src[..k]);
    assert src == src[..k] + rest;
    Associates(Flat(was), src[..k], rest);
  }

  /** New buffers for the bytes that are left. */
  method AppendNew(dest: seq<Buffer>, src: bytes) returns (r: seq<Buffer>)
    requires forall i {:trigger dest[i]} :: 0 <= i < |dest| ==> dest[i].Valid()
    ensures forall i {:trigger r[i]} :: 0 <= i < |r| ==> r[i].Valid()
    ensures Flat(Views(r)) == old(Flat(Views(dest))) + src
  {
    var rest := src;
    ghost var all := Flat(Views(dest)) + src;
    r := dest;
    while |rest| > 0
      invariant forall i {:trigger r[i]} :: 0 <= i < |r| ==> r[i].Valid()
      invariant Flat(Views(r)) + rest == all
      decreases |rest|
    {
      ghost var before := Views(r);
      var b, k := OneMore(rest);
      assert Views(r) == before;
      AppendView(r, b);
      assert rest == b.Contents() + rest[k..];
      Associates(Flat(Views(r)), b.Contents(), rest[k..]);
      rest, r := rest[k..], r + [b];
    }
    NothingMore(Flat(Views(r)));
  }

  method OneMore(rest: bytes) returns (b: Buffer, k: nat)
    ensures fresh(b) && fresh(b.v) && b.Valid()
    ensures k == Min(|rest|, SIZE) && b.Contents() == rest[..k]
  {
    b := new Buffer();
    k := b.Write(rest);
  }

  lemma AppendView(r: seq<Buffer>, b: Buffer)
    requires b.Valid() && forall i {:trigger r[i]} :: 0 <= i < |r| ==> r[i].Valid()
    ensures forall i {:trigger (r + [b])[i]} :: 0 <= i <= |r| ==> (r + [b])[i].Valid()
    ensures Flat(Views(r + [b])) == Flat(Views(r)) + b.Contents()
  {
    assert (r + [b])[..|r|] == r;
    AppendFlat(Views(r), b.Contents());
  }

  /** MergeBytes: fills the last buffer up to the end of its array, then appends new ones. Whatever the cursors
      of the last buffer, no byte is lost. */
  method MergeBytes(dest: seq<Buffer>, src: bytes) returns (r: seq<Buffer>)
    requires Separate(dest)
    modifies dest, Arrays(dest)
    ensures forall i {:trigger r[i]} :: 0 <= i < |r| ==> r[i].Valid()
    ensures Flat(Views(r)) == Flat(old(Views(dest))) + src
  {
    var rest := FillLast(dest, src);
    r := AppendNew(dest, rest);
  }

  lemma AppendFlat(mb: Multi, d: bytes)
    ensures Flat(mb + [d]) == Flat(mb) + d
  {
    FlatConcat(mb, [d]);
    assert Flat([d]) == d;
  }

  lemma LastGrew(was: Multi, now: Multi, d: bytes)
    requires |was| == |now| > 0 && now[|now| - 1] == was[|was| - 1] + d
    requires forall j {:trigger was[j]} {:trigger now[j]} :: 0 <= j < |was| - 1 ==> now[j] == was[j]
    ensures Flat(now) == Flat(was) + d
  {
    var n := |was| - 1;
    var init := was[..n];
    assert was == init + [was[n]] && now == init + [now[n]];
    AppendFlat(init, was[n]);
    AppendFlat(init, now[n]);
    Associates(Flat(init), was[n], d);
  }

  // ----- Compact -----

  function PieceOf(b: Buffer): Piece
    requires b.Valid()
    reads b, b.v
  {
    Piece(b.start, b.Contents())
  }

  function Pieces(mb: seq<Buffer>): (r: seq<Piece>)
    requires forall i {:trigger mb[i]} :: 0 <= i < |mb| ==> mb[i].Valid()
    reads mb, Arrays(mb)
    ensures |r| == |mb|
    ensures forall i {:trigger r[i]} :: 0 <= i < |mb| ==> r[i] == PieceOf(mb[i])
  {
    if mb == [] then [] else Pieces(mb[..|mb| - 1]) + [PieceOf(mb[|mb| - 1])]
  }

  /** CompactFrom with the pieces from the i-th on still to come. */
  function CompactAt(last: Piece, was: seq<Piece>, i: nat): Option<Multi>
    requires i <= |was|
    decreases |was| - i
  {
    if i == |was| then Some([last.data])
    else if |last.data| + |was[i].data| > SIZE then Headed(last.data, CompactAt(was[i], was, i + 1))
    else if was[i].data == [] then None
    else CompactAt(Absorbed(last, was[i]), was, i + 1)
  }

  lemma {:induction false} CompactAtIsFrom(last: Piece, was: seq<Piece>, i: nat)
    requires i <= |was|
    ensures CompactAt(last, was, i) == CompactFrom(last, was[i..])
    decreases |was| - i
  {
    if i < |was| {
      assert was[i..][0] == was[i] && was[i..][1..] == was[i + 1..];
      CompactAtIsFrom(was[i], was, i + 1);
      CompactAtIsFrom(Absorbed(last, was[i]), was, i + 1);
    }
  }

  function After(out: Multi, r: Option<Multi>): Option<Multi> {
    match r
    case None => None
    case Some(mb) => Some(out + mb)
  }

  lemma AfterHeaded(out: Multi, d: bytes, r: Option<Multi>)
    ensures After(out, Headed(d, r)) == After(out + [d], r)
  {
    if r.Some? { Associates(out, [d], r.value); }
  }

  /** last.ReadFrom(curr) for two buffers of the list; eof where the source panics. */
  method Absorb(mb: seq<Buffer>, l: nat, i: nat) returns (eof: bool)
    requires l < i < |mb| && Separate(mb)
    modifies mb[l], mb[l].v, mb[i]
    ensures Separate(mb) && eof == (old(mb[i].Len()) == 0)
    ensures !eof ==> PieceOf(mb[l]) == Absorbed(old(PieceOf(mb[l])), old(PieceOf(mb[i])))
    ensures forall j {:trigger mb[j]} :: 0 <= j < |mb| && j != l && j != i ==> PieceOf(mb[j]) == old(PieceOf(mb[j]))
  {
    ApartAt(mb, l);
    ApartAt(mb, i);
    ghost var curr := mb[i].Contents();
    var d;
    eof, d := mb[i].Read(SIZE - mb[l].end);
    if eof { return; }
    assert d == curr[..|d|];
    var n := mb[l].Write(d);
    assert d[..n] == d;
  }

  /** The buffers put out so far hold done, and stand before the last one in the list. */
  ghost predicate PutOut(mb: seq<Buffer>, out: seq<Buffer>, done: Multi, at: seq<nat>, l: nat)
    requires Separate(mb)
    reads mb, Arrays(mb)
  {
    && |out| == |done| == |at| && l < |mb|
    && forall j {:trigger out[j]} {:trigger at[j]} :: 0 <= j < |at| ==>
      at[j] < l && out[j] == mb[at[j]] && mb[at[j]].Contents() == done[j]
  }

  ghost predicate Ahead(mb: seq<Buffer>, was: seq<Piece>, i: nat)
    requires Separate(mb) && |was| == |mb|
    reads mb, Arrays(mb)
  {
    forall j {:trigger mb[j]} {:trigger was[j]} :: i <= j < |mb| ==> PieceOf(mb[j]) == was[j]
  }

  method CompactRound(mb: seq<Buffer>, l: nat, i: nat, out: seq<Buffer>, ghost was: seq<Piece>, ghost done: Multi,
                      ghost at: seq<nat>,
                      ghost total: Option<Multi>)
    returns (ok: bool, l': nat, out': seq<Buffer>, ghost done': Multi, ghost at': seq<nat>)
    requires l < i < |mb| == |was| && Separate(mb) && Ahead(mb, was, i) && PutOut(mb, out, done, at, l)
    requires total == After(done, CompactAt(PieceOf(mb[l]), was, i))
    modifies mb[l], mb[l].v, mb[i]
    ensures Separate(mb) && Ahead(mb, was, i + 1)
    ensures ok == !(old(mb[l].Len() + mb[i].Len()) <= SIZE && was[i].data == [])
    ensures !ok ==> total == None
    ensures ok ==> l <= l' <= i && PutOut(mb, out', done', at', l')
    ensures ok ==> total == After(done', CompactAt(PieceOf(mb[l']), was, i + 1))
  {
    l', out', done', at' := l, out, done, at;
    if mb[l].Len() + mb[i].Len() > SIZE {
      AfterHeaded(done, mb[l].Contents(), CompactAt(was[i], was, i + 1));
      out', done', at', l' := out + [mb[l]], done + [mb[l].Contents()], at + [l], i;
      ok := true;
    } else {
      var eof := Absorb(mb, l, i);
      ok := !eof;
    }
  }

  method CompactLoop(mb: seq<Buffer>, ghost was: seq<Piece>) returns (ok: bool, r: seq<Buffer>)
    requires Separate(mb) && |was| == |mb| > 0 && Ahead(mb, was, 0)
    modifies mb, Arrays(mb)
    ensures forall j {:trigger r[j]} :: 0 <= j < |r| ==> r[j].Valid()
    ensures CompactAt(was[0], was, 1) == if ok then Some(Views(r)) else None
  {
    ghost var total := CompactAt(was[0], was, 1);
    var l: nat, i: nat, out := 0, 1, [];
    ghost var done: Multi, at: seq<nat> := [], [];
    if total.Some? { NothingMore(total.value); }
    while i < |mb|
      invariant l < i <= |mb| && Separate(mb) && Ahead(mb, was, i) && PutOut(mb, out, done, at, l)
      invariant total == After(done, CompactAt(PieceOf(mb[l]), was, i))
    {
      var fine;
      fine, l, out, done, at := CompactRound(mb, l, i, out, was, done, at, total);
      if !fine { return false, []; }
      i := i + 1;
    }
    r := out + [mb[l]];
    OutViews(mb, out, done, at, l);
    return true, r;
  }

  /** Compact: what it leaves in its list is CompactFrom of the buffers as they were. */
  method Compact(mb: seq<Buffer>) returns (ok: bool, r: seq<Buffer>)
    requires Separate(mb)
    modifies mb, Arrays(mb)
    ensures forall j {:trigger r[j]} :: 0 <= j < |r| ==> r[j].Valid()
    ensures mb == [] ==> ok && r == []
    ensures mb != [] ==>
              var was := old(Pieces(mb)); CompactFrom(was[0], was[1..]) == if ok then Some(Views(r)) else None
  {
    if |mb| == 0 { return true, mb; }
    ghost var was := Pieces(mb);
    CompactAtIsFrom(was[0], was, 1);
    ok, r := CompactLoop(mb, was);
  }

  lemma {:induction false} OutViews(mb: seq<Buffer>, out: seq<Buffer>, done: Multi, at: seq<nat>, l: nat)
    requires Separate(mb) && PutOut(mb, out, done, at, l)
    ensures forall j {:trigger (out + [mb[l]])[j]} :: 0 <= j <= |out| ==> (out + [mb[l]])[j].Valid()
    ensures Views(out + [mb[l]]) == done + [mb[l].Contents()]
  {
    var r := out + [mb[l]];
    forall j | 0 <= j < |r|
      ensures r[j].Valid() && r[j].Contents() == (done + [mb[l].Contents()])[j]
    {
      if j < |out| { assert out[j] == mb[at[j]]; }
    }
  }
}
