/** The authenticated chunk layer of common/crypto/auth.go, reading side, and the round trip. */
module AuthReader {
  import opened Bytes
  import opened Buffer
  import opened MultiBuffer
  import opened Reader
  import opened Chunk
  import opened Nonce
  import opened AuthWriter

  // ----- what is on the wire from the k-th chunk on -----

  function From(f: Format, payloads: seq<bytes>, k: nat): bytes
    requires k <= |payloads|
    decreases |payloads| - k
  {
    if k == |payloads| then [] else ChunkAt(f, k, k, payloads[k]) + From(f, payloads, k + 1)
  }

  /** The chunks before the n-th, and those from it on. */
  function Both(f: Format, payloads: seq<bytes>, n: nat): bytes
    requires n <= |payloads|
  {
    StreamTo(f, 0, payloads, n) + From(f, payloads, n)
  }

  lemma OneFurther(f: Format, payloads: seq<bytes>, n: nat)
    requires n < |payloads|
    ensures Both(f, payloads, n + 1) == Both(f, payloads, n)
  {
    Associates(StreamTo(f, 0, payloads, n), ChunkAt(f, n, n, payloads[n]), From(f, payloads, n + 1));
  }

  lemma {:induction false} BothIsAll(f: Format, payloads: seq<bytes>, n: nat)
    requires n <= |payloads|
    ensures Both(f, payloads, n) == Both(f, payloads, 0)
  {
    if n > 0 {
      OneFurther(f, payloads, n - 1);
      BothIsAll(f, payloads, n - 1);
    }
  }

  lemma StreamIsFrom(f: Format, payloads: seq<bytes>)
    ensures Stream(f, 0, payloads) == From(f, payloads, 0)
  {
    BothIsAll(f, payloads, |payloads|);
    NothingMore(Stream(f, 0, payloads));
    NothingMore(From(f, payloads, 0));
  }

  /** What is left when k chunks were read. */
  function Rest(f: Format, payloads: seq<bytes>, k: nat, tail: bytes): bytes
    requires k <= |payloads|
  {
    From(f, payloads, k) + tail
  }

  /** What is left when only the size of the k-th chunk was read. */
  function BodyFrom(f: Format, payloads: seq<bytes>, k: nat, tail: bytes): bytes
    requires k < |payloads|
  {
    ChunkBody(f, k, k, payloads[k]) + (From(f, payloads, k + 1) + tail)
  }

  function OpenUnpadded(a: Aead, iv: bytes, body: bytes, padding: nat): Option<bytes> {
    if padding > |body| then None else OpenOf(a, iv, body[..|body| - padding])
  }

  function OpenChunk(f: Format, k: nat, body: bytes, padding: nat): Option<bytes> {
    OpenUnpadded(f.aead, After(f.nonce, k + 1), body, padding)
  }

  /** The first chunk without payload from the k-th on, or the end. */
  function EndFrom(payloads: seq<bytes>, k: nat): (e: nat)
    requires k <= |payloads|
    ensures k <= e <= |payloads| && (e < |payloads| ==> payloads[e] == [])
    ensures forall j {:trigger payloads[j]} :: k <= j < e ==> payloads[j] != []
    decreases |payloads| - k
  {
    if k == |payloads| || payloads[k] == [] then k else EndFrom(payloads, k + 1)
  }

  /** The payloads j to k, joined. */
  function Between(payloads: seq<bytes>, j: nat, k: nat): bytes
    requires j <= k <= |payloads|
  {
    if j == k then [] else Between(payloads, j, k - 1) + payloads[k - 1]
  }

  lemma {:induction false} BetweenConcat(payloads: seq<bytes>, i: nat, j: nat, k: nat)
    requires i <= j <= k <= |payloads|
    ensures Between(payloads, i, k) == Between(payloads, i, j) + Between(payloads, j, k)
  {
    if j == k {
      NothingMore(Between(payloads, i, j));
    } else {
      BetweenConcat(payloads, i, j, k - 1);
      Associates(Between(payloads, i, j), Between(payloads, j, k - 1), payloads[k - 1]);
    }
  }

  /** A size field holds 16 bits. */
  ghost predicate Sized(f: Format, payloads: seq<bytes>) {
    forall k {:trigger payloads[k]} :: 0 <= k < |payloads| ==> ChunkSize(f, k, payloads[k]) < 65536
  }

  /** A chunk that fits a buffer becomes one buffer; a larger one is spread over as many as it takes. */
  function Appended(mb: Multi, plain: bytes, size: nat): Multi {
    if size <= SIZE then mb + [plain] else MergeBytes(mb, plain)
  }

  datatype Outcome = Read | Soft | Eof

  class AuthenticationReader {
    const f: Format
    const reader: BufferedReader
    const nonces: IncreasingNonce
    ghost const payloads: seq<bytes>  // of the chunks on the wire
    ghost const tail: bytes           // what follows them
    var size: nat
    var paddingLen: nat
    var hasSize: bool
    var done: bool
    var unsealed: nat   // chunks opened
    var decoded: nat  // sizes decoded and paddings drawn

    /** Both sides use one format, and no chunk is too long for its size field. */
    ghost predicate Agreed() {
      FormatOk(f) && Sized(f, payloads)
    }

    /** The wire holds chunks; anything after them only behind an empty one. */
    ghost predicate Valid()
      reads this, nonces.c, reader
    {
      && unsealed <= |payloads| && nonces.c[..] == After(f.nonce, unsealed)
      && (tail == [] || EndFrom(payloads, unsealed) < |payloads|)
      && Placed()
    }

    ghost predicate Placed()
      requires unsealed <= |payloads|
      reads this, reader
    {
      if done then EndFrom(payloads, unsealed) == unsealed
      else if hasSize then
        && unsealed < |payloads| && payloads[unsealed] != [] && decoded == unsealed + 1
        && size == ChunkSize(f, unsealed, payloads[unsealed]) && paddingLen == Pad(f, unsealed)
        && reader.Remaining() == BodyFrom(f, payloads, unsealed, tail)
      else
        decoded == unsealed && reader.Remaining() == Rest(f, payloads, unsealed, tail)
    }

    constructor (f: Format, reader: BufferedReader, ghost payloads: seq<bytes>, ghost tail: bytes)
      requires FormatOk(f) && Sized(f, payloads)
      requires reader.Remaining() == Stream(f, 0, payloads) + tail
      requires tail == [] || EndFrom(payloads, 0) < |payloads|
      ensures Agreed() && Valid() && this.f == f && this.reader == reader && fresh(nonces) && fresh(nonces.c)
      ensures this.payloads == payloads && this.tail == tail && unsealed == 0 && !done
    {
      this.f, this.reader, this.payloads, this.tail := f, reader, payloads, tail;
      nonces := new IncreasingNonce(f.nonce);
      size, paddingLen, hasSize, done, unsealed, decoded := 0, 0, false, false, 0, 0;
      new;
      StreamIsFrom(f, payloads);
    }

    /** readSize: the stored size, or the next one decoded. */
    method ReadSize() returns (eof: bool, n: nat, padding: nat)
      requires Agreed() && Valid() && !done
      modifies `hasSize, `decoded, reader
      ensures eof ==> unsealed == |payloads| && Valid() && !done
      ensures !eof ==> SizeKnown(n, padding)
    {
      if hasSize {
        hasSize := false;
        return false, size, paddingLen;
      }
      eof, n, padding := DecodeSize();
    }

    method DecodeSize() returns (eof: bool, n: nat, padding: nat)
      requires FormatOk(f) && Sized(f, payloads) && unsealed <= |payloads| && decoded == unsealed
      requires tail == [] || EndFrom(payloads, unsealed) < |payloads|
      requires reader.Remaining() == Rest(f, payloads, unsealed, tail)
      modifies `decoded, reader
      ensures eof ==> unsealed == |payloads| && decoded == unsealed
      ensures eof ==> reader.Remaining() == Rest(f, payloads, unsealed, tail)
      ensures !eof ==> unsealed < |payloads| && decoded == unsealed + 1
      ensures !eof ==> n == ChunkSize(f, unsealed, payloads[unsealed]) && padding == Pad(f, unsealed)
      ensures !eof ==> reader.Remaining() == BodyFrom(f, payloads, unsealed, tail)
    {
      ghost var k := unsealed;
      SizeIsThere(f, payloads, k, tail);
      var ok, _, sizeBytes := reader.ReadFull(f.parser.sizeBytes);
      if !ok { return true, 0, 0; }
      ghost var rest := reader.Remaining();
      SizeIsRead(f, payloads, k, tail, sizeBytes, rest);
      padding := Pad(f, decoded);
      n := DecodeOf(f.parser, decoded, sizeBytes).value;
      decoded := decoded + 1;
      assert reader.Remaining() == rest && unsealed == k;
      eof := false;
    }

    /** readInternal on mb. A soft read only starts on what is already buffered; a size read too early is kept
        for the next call. The wire being intact, no read or Open fails. */
    method ReadInternal(soft: bool, mb: Multi) returns (r: Outcome, mb': Multi)
      requires Agreed() && Valid()
      modifies this, reader, nonces.c
      ensures Valid() && (r == Soft ==> soft)
      ensures r == Read ==> var k := old(unsealed);
                k < |payloads| && payloads[k] != [] && unsealed == k + 1
                && mb' == Appended(mb, payloads[k], ChunkSize(f, k, payloads[k]))
      ensures r != Read ==> unsealed == old(unsealed) && mb' == mb
      ensures r == Eof ==> EndFrom(payloads, unsealed) == unsealed
      ensures old(done) ==> r != Read
    {
      mb' := mb;
      if soft && |Flat(reader.buffer)| < f.parser.sizeBytes { return Soft, mb; }
      if done { return Eof, mb; }
      var eof, n, padding := ReadSize();
      if eof { return Eof, mb; }
      if n == f.aead.overhead + padding {
        Finish(n, padding);
        return Eof, mb;
      }
      if soft && n > |Flat(reader.buffer)| {
        Postpone(n, padding);
        return Soft, mb;
      }
      mb' := Take(n, padding, mb);
      r := Read;
    }

    /** One call: the payloads of at least one chunk and at most 16, up to what is buffered; or the end. */
    method ReadMultiBuffer() returns (end: bool, mb: Multi)
      requires Agreed() && Valid()
      modifies this, reader, nonces.c
      ensures Valid()
      ensures end ==> unsealed == old(unsealed) == EndFrom(payloads, unsealed) && mb == []
      ensures !end ==> old(unsealed) < unsealed <= old(unsealed) + 16
      ensures !end ==> Took(payloads, old(unsealed), unsealed, mb, FitBuffers(f, payloads))
    {
      var r;
      ghost var j, fit := unsealed, FitBuffers(f, payloads);
      r, mb := ReadInto(false, [], j, fit);
      if r != Read { return true, []; }
      var i := 1;
      while i < 16
        invariant 1 <= i <= 16 && Valid() && j < unsealed <= j + i
        invariant Took(payloads, j, unsealed, mb, fit)
      {
        r, mb := ReadInto(true, mb, j, fit);
        if r != Read { break; }
        i := i + 1;
      }
      return false, mb;
    }

    /** readInternal, with mb holding the payloads from the j-th on. */
    method ReadInto(soft: bool, mb: Multi, ghost j: nat, ghost fit: bool) returns (r: Outcome, mb': Multi)
      requires Agreed() && Valid() && Took(payloads, j, unsealed, mb, fit) && (fit ==> FitBuffers(f, payloads))
      modifies this, reader, nonces.c
      ensures Valid() && (r == Soft ==> soft) && Took(payloads, j, unsealed, mb', fit)
      ensures unsealed == old(unsealed) + if r == Read then 1 else 0
      ensures r == Eof ==> EndFrom(payloads, unsealed) == unsealed
    {
      ghost var k := unsealed;
      r, mb' := ReadInternal(soft, mb);
      if r == Read {
        TookOne(f, payloads, j, k, mb, fit);
        assert Took(payloads, j, unsealed, mb', fit);
      }
    }

    /** buf.Copy from this reader: everything up to the first chunk without payload, then io.EOF. */
    method Copy() returns (out: bytes)
      requires Agreed() && Valid()
      modifies this, reader, nonces.c
      ensures Valid() && unsealed == EndFrom(payloads, old(unsealed))
      ensures out == Between(payloads, old(unsealed), unsealed)
    {
      out := [];
      var end := false;
      ghost var j := unsealed;
      while !end
        invariant Valid() && j <= unsealed && out == Between(payloads, j, unsealed)
        invariant EndFrom(payloads, j) == EndFrom(payloads, unsealed)
        invariant end ==> unsealed == EndFrom(payloads, unsealed)
        decreases !end, |payloads| - unsealed
      {
        ghost var k := unsealed;
        var mb;
        end, mb := ReadMultiBuffer();
        if !end {
          EndAdvances(payloads, k, unsealed);
          BetweenConcat(payloads, j, k, unsealed);
          out := out + Flat(mb);
        }
      }
    }

    /** After readSize: the size and padding of the next chunk are known, its body is next on the wire. */
    ghost predicate SizeKnown(n: nat, padding: nat)
      reads this, nonces.c, reader
    {
      && unsealed < |payloads| && nonces.c[..] == After(f.nonce, unsealed)
      && (tail == [] || EndFrom(payloads, unsealed) < |payloads|)
      && !done && !hasSize && decoded == unsealed + 1
      && n == ChunkSize(f, unsealed, payloads[unsealed]) && padding == Pad(f, unsealed)
      && reader.Remaining() == BodyFrom(f, payloads, unsealed, tail)
    }

    /** A chunk without payload ends the stream. */
    method Finish(n: nat, padding: nat)
      requires Agreed() && SizeKnown(n, padding) && n == f.aead.overhead + padding
      modifies `done
      ensures Valid() && done && EndFrom(payloads, unsealed) == unsealed
    {
      done := true;
    }

    method Postpone(n: nat, padding: nat)
      requires Agreed() && SizeKnown(n, padding) && n != f.aead.overhead + padding
      modifies `size, `paddingLen, `hasSize
      ensures Valid()
    {
      size, paddingLen, hasSize := n, padding, true;
    }

    method Take(n: nat, padding: nat, mb: Multi) returns (mb': Multi)
      requires Agreed() && SizeKnown(n, padding) && n != f.aead.overhead + padding
      modifies `unsealed, nonces.c, reader
      ensures Valid() && unsealed == old(unsealed) + 1
      ensures payloads[old(unsealed)] != []
      ensures mb' == Appended(mb, payloads[old(unsealed)], ChunkSize(f, old(unsealed), payloads[old(unsealed)]))
    {
      var plain := OpenBody(n, padding);
      mb' := if n <= SIZE then mb + [plain] else MergeBytes(mb, plain);
    }

    method OpenBody(n: nat, padding: nat) returns (plain: bytes)
      requires unsealed < |payloads| && FormatOk(f) && nonces.c[..] == After(f.nonce, unsealed)
      requires n == ChunkSize(f, unsealed, payloads[unsealed]) && padding == Pad(f, unsealed)
      requires reader.Remaining() == BodyFrom(f, payloads, unsealed, tail)
      modifies `unsealed, nonces.c, reader
      ensures unsealed == old(unsealed) + 1 && nonces.c[..] == After(f.nonce, unsealed)
      ensures plain == payloads[old(unsealed)]
      ensures reader.Remaining() == Rest(f, payloads, unsealed, tail)
    {
      var body := ReadBody(f, reader, n, padding, payloads, unsealed, tail);
      ghost var k, rest := unsealed, reader.Remaining();
      var iv := nonces.Next();
      plain := OpenUnpadded(f.aead, iv, body, padding).value;
      unsealed := unsealed + 1;
      assert reader.Remaining() == rest && unsealed == k + 1;
    }
  }

  method ReadBody(f: Format, reader: BufferedReader, n: nat, padding: nat, ghost payloads: seq<bytes>, ghost k: nat,
                  ghost tail: bytes)
    returns (body: bytes)
    requires k < |payloads| && FormatOk(f)
    requires n == ChunkSize(f, k, payloads[k]) && padding == Pad(f, k)
    requires reader.Remaining() == BodyFrom(f, payloads, k, tail)
    modifies reader
    ensures OpenChunk(f, k, body, padding) == Some(payloads[k])
    ensures reader.Remaining() == Rest(f, payloads, k + 1, tail)
  {
    var _, _, b := reader.ReadFull(n);
    body := b;
    BodyIsRead(f, payloads, k, tail, body, reader.Remaining());
  }

  lemma BodyIsRead(f: Format, payloads: seq<bytes>, k: nat, tail: bytes, got: bytes, rest: bytes)
    requires FormatOk(f) && k < |payloads|
    requires BodyFrom(f, payloads, k, tail) == got + rest && |got| == ChunkSize(f, k, payloads[k])
    ensures OpenChunk(f, k, got, Pad(f, k)) == Some(payloads[k])
    ensures rest == Rest(f, payloads, k + 1, tail)
  {
    HeadTaken(got + rest, ChunkBody(f, k, k, payloads[k]), got, From(f, payloads, k + 1) + tail, rest);
  }

  /** The buffers hold the payloads j to k, none of them empty; one buffer each, if all fit. */
  ghost predicate Took(payloads: seq<bytes>, j: nat, k: nat, mb: Multi, fit: bool) {
    && j <= k <= |payloads|
    && (forall i {:trigger payloads[i]} :: j <= i < k ==> payloads[i] != [])
    && Flat(mb) == Between(payloads, j, k)
    && (fit ==> mb == payloads[j..k])
  }

  lemma TookOne(f: Format, payloads: seq<bytes>, j: nat, k: nat, mb: Multi, fit: bool)
    requires Took(payloads, j, k, mb, fit) && k < |payloads| && payloads[k] != []
    requires fit ==> ChunkSize(f, k, payloads[k]) <= SIZE
    ensures Took(payloads, j, k + 1, Appended(mb, payloads[k], ChunkSize(f, k, payloads[k])), fit)
  {
    AppendedConserves(mb, payloads[k], ChunkSize(f, k, payloads[k]));
  }

  /** All payloads of this run of chunks fit buffers. */
  ghost predicate FitBuffers(f: Format, payloads: seq<bytes>) {
    forall k {:trigger payloads[k]} :: 0 <= k < |payloads| ==> ChunkSize(f, k, payloads[k]) <= SIZE
  }

  lemma AppendedConserves(mb: Multi, plain: bytes, size: nat)
    ensures Flat(Appended(mb, plain, size)) == Flat(mb) + plain
  {
    if size <= SIZE {
      FlatConcat(mb, [plain]);
      assert Flat([plain]) == plain;
    } else {
      MergeBytesConserves(mb, plain);
    }
  }

  lemma {:induction false} EndAdvances(payloads: seq<bytes>, j: nat, k: nat)
    requires j <= k <= |payloads| && forall i {:trigger payloads[i]} :: j <= i < k ==> payloads[i] != []
    ensures EndFrom(payloads, j) == EndFrom(payloads, k)
    decreases k - j
  {
    if j < k { EndAdvances(payloads, j + 1, k); }
  }

  lemma SizeIsThere(f: Format, payloads: seq<bytes>, k: nat, tail: bytes)
    requires FormatOk(f) && Sized(f, payloads) && k <= |payloads|
    ensures k < |payloads| ==> |Rest(f, payloads, k, tail)| >= f.parser.sizeBytes
  {
    if k < |payloads| {
      assert |EncodeOf(f.parser, k, ChunkSize(f, k, payloads[k]))| == f.parser.sizeBytes;
    }
  }

  lemma SizeIsRead(f: Format, payloads: seq<bytes>, k: nat, tail: bytes, got: bytes, rest: bytes)
    requires FormatOk(f) && Sized(f, payloads) && k <= |payloads|
    requires tail == [] || EndFrom(payloads, k) < |payloads|
    requires Rest(f, payloads, k, tail) == got + rest && |got| == f.parser.sizeBytes
    ensures k < |payloads| && DecodeOf(f.parser, k, got) == Some(ChunkSize(f, k, payloads[k]))
    ensures rest == BodyFrom(f, payloads, k, tail)
  {
    if k < |payloads| {
      HeadIsSize(f, k, payloads[k], From(f, payloads, k + 1), tail);
      var head := EncodeOf(f.parser, k, ChunkSize(f, k, payloads[k]));
      assert |head| == f.parser.sizeBytes;
      HeadTaken(From(f, payloads, k) + tail, head, got,
                ChunkBody(f, k, k, payloads[k]) + (From(f, payloads, k + 1) + tail), rest);
    }
  }

  lemma HeadIsSize(f: Format, k: nat, payload: bytes, more: bytes, tail: bytes)
    ensures ChunkAt(f, k, k, payload) + more + tail ==
              EncodeOf(f.parser, k, ChunkSize(f, k, payload)) + (ChunkBody(f, k, k, payload) + (more + tail))
  {
    var h, b := EncodeOf(f.parser, k, ChunkSize(f, k, payload)), ChunkBody(f, k, k, payload);
    Associates(h + b, more, tail);
    Associates(h, b, more + tail);
  }

  /** Reading as many bytes as a known head has gives that head. */
  lemma HeadTaken(input: bytes, head: bytes, got: bytes, more: bytes, rest: bytes)
    requires input == head + more == got + rest && |got| == |head|
    ensures got == head && rest == more
  {
    assert got == input[..|got|] && head == input[..|head|];
    assert rest == input[|got|..] && more == input[|head|..];
  }

  // ----- round trip -----

  /** The payloads of one stream write: without content, an empty chunk. */
  function OneWrite(mb: Multi, n: nat): seq<bytes>
    requires n > 0
  {
    if IsEmpty(mb) then [[]] else Payloads(Flat(mb), n)
  }

  /** The payloads of a sequence of stream writes. */
  function WritePayloads(writes: seq<Multi>, n: nat): seq<bytes>
    requires n > 0
  {
    if writes == [] then []
    else
      var last := writes[|writes| - 1];
      WritePayloads(writes[..|writes| - 1], n) + OneWrite(last, n)
  }

  predicate NotTooMany(mb: Multi) {
    IsEmpty(mb) || |mb| + 10 <= 64 * 1024 * 1024
  }

  /** The writer has put exactly the chunks of these payloads on the wire. */
  ghost predicate HasWritten(w: AuthenticationWriter, payloads: seq<bytes>)
    reads w, w.nonces.c
  {
    w.Valid() && InStep(w.f, w.sealed, w.padded) && w.sealed == |payloads| && w.sink == Stream(w.f, 0, payloads)
  }

  method WriteOne(w: AuthenticationWriter, mb: Multi, ghost before: seq<bytes>) returns (ok: bool)
    requires HasWritten(w, before) && !w.packet
    modifies w, w.nonces.c
    ensures ok == NotTooMany(mb)
    ensures ok ==> HasWritten(w, before + OneWrite(mb, SIZE - Frame(w.f)))
  {
    StreamConcat(w.f, 0, before, OneWrite(mb, SIZE - Frame(w.f)));
    ok := w.WriteMultiBuffer(mb);
  }

  /** Stream writes one after the other put exactly these chunks on the wire. */
  method WriteAll(w: AuthenticationWriter, writes: seq<Multi>) returns (ok: bool)
    requires HasWritten(w, []) && !w.packet
    modifies w, w.nonces.c
    ensures ok <==> forall i {:trigger writes[i]} :: 0 <= i < |writes| ==> NotTooMany(writes[i])
    ensures ok ==> HasWritten(w, WritePayloads(writes, SIZE - Frame(w.f)))
  {
    var n := 0;
    ghost var size, done: seq<bytes> := SIZE - Frame(w.f), [];
    while n < |writes|
      invariant 0 <= n <= |writes| && HasWritten(w, done) && done == WritePayloads(writes[..n], size)
      invariant forall i {:trigger writes[i]} :: 0 <= i < n ==> NotTooMany(writes[i])
    {
      assert writes[..n + 1][..n] == writes[..n];
      ok := WriteOne(w, writes[n], done);
      if !ok { return; }
      done := done + OneWrite(writes[n], size);
      n := n + 1;
    }
    assert writes[..n] == writes;
    return true;
  }

  /** What a reader hands over of these payloads before it reports the end. */
  function Delivered(payloads: seq<bytes>): bytes {
    Between(payloads, 0, EndFrom(payloads, 0))
  }

  lemma {:induction false} EndOfSecond(a: seq<bytes>, b: seq<bytes>, j: nat)
    requires j <= |b|
    ensures EndFrom(a + b, |a| + j) == |a| + EndFrom(b, j)
    decreases |b| - j
  {
    if j < |b| { EndOfSecond(a, b, j + 1); }
  }

  lemma {:induction false} BetweenOfSecond(a: seq<bytes>, b: seq<bytes>, j: nat)
    requires j <= |b|
    ensures Between(a + b, |a|, |a| + j) == Between(b, 0, j)
  {
    if j > 0 { BetweenOfSecond(a, b, j - 1); }
  }

  lemma {:induction false} BetweenOfFirst(a: seq<bytes>, b: seq<bytes>, j: nat)
    requires j <= |a|
    ensures Between(a + b, 0, j) == Between(a, 0, j)
  {
    if j > 0 { BetweenOfFirst(a, b, j - 1); }
  }

  lemma {:induction false} BetweenIsJoined(a: seq<bytes>)
    ensures Between(a, 0, |a|) == Joined(a)
  {
    if a != [] {
      var c, x := a[..|a| - 1], a[|a| - 1];
      assert a == c + [x];
      BetweenOfFirst(c, [x], |c|);
      BetweenIsJoined(c);
      JoinedConcat(c, [x]);
      NothingMore(x);
      assert Joined([x]) == x + Joined([]);
    }
  }

  lemma EndOfConcat(a: seq<bytes>, b: seq<bytes>)
    requires forall i {:trigger a[i]} :: 0 <= i < |a| ==> a[i] != []
    ensures EndFrom(a + b, 0) == |a| + EndFrom(b, 0)
  {
    var c := a + b;
    assert forall i {:trigger c[i]} :: 0 <= i < |a| ==> c[i] == a[i];
    EndAdvances(c, 0, |a|);
    EndOfSecond(a, b, 0);
  }

  lemma BetweenOfConcat(a: seq<bytes>, b: seq<bytes>, e: nat)
    requires e <= |b|
    ensures Between(a + b, 0, |a| + e) == Joined(a) + Between(b, 0, e)
  {
    BetweenConcat(a + b, 0, |a|, |a| + e);
    BetweenOfFirst(a, b, |a|);
    BetweenOfSecond(a, b, e);
    BetweenIsJoined(a);
  }

  lemma {:induction false} DeliveredConcat(a: seq<bytes>, b: seq<bytes>)
    requires forall i {:trigger a[i]} :: 0 <= i < |a| ==> a[i] != []
    ensures Delivered(a + b) == Joined(a) + Delivered(b)
  {
    EndOfConcat(a, b);
    BetweenOfConcat(a, b, EndFrom(b, 0));
  }

  lemma {:induction false} WritePayloadsCons(mb: Multi, writes: seq<Multi>, n: nat)
    requires n > 0
    ensures WritePayloads([mb] + writes, n) == OneWrite(mb, n) + WritePayloads(writes, n)
  {
    var all := [mb] + writes;
    if writes == [] {
      assert all[..0] == [];
      NothingMore(OneWrite(mb, n));
    } else {
      var k := |writes| - 1;
      assert all[..k + 1] == [mb] + writes[..k];
      WritePayloadsCons(mb, writes[..k], n);
      Associates(OneWrite(mb, n), WritePayloads(writes[..k], n), OneWrite(writes[k], n));
    }
  }

  /** Main result for the authenticated stream: reading the chunks of any stream writes gives exactly the
      bytes of the writes before the first empty one. */
  lemma {:induction false} DeliversWrites(writes: seq<Multi>, n: nat)
    requires n > 0
    ensures Delivered(WritePayloads(writes, n)) == UpToEmpty(writes)
  {
    if writes != [] {
      var mb, rest := writes[0], writes[1..];
      assert writes == [mb] + rest;
      WritePayloadsCons(mb, rest, n);
      DeliversWrites(rest, n);
      if IsEmpty(mb) {
        assert (OneWrite(mb, n) + WritePayloads(rest, n))[0] == [];
      } else {
        IsEmptyIsFlat(mb);
        PayloadsCover(Flat(mb), n);
        DeliveredConcat(Payloads(Flat(mb), n), WritePayloads(rest, n));
      }
    }
  }

  lemma {:induction false} WritePayloadsFit(f: Format, writes: seq<Multi>)
    requires FormatOk(f)
    ensures FitBuffers(f, WritePayloads(writes, SIZE - Frame(f)))
  {
    if writes != [] {
      var n := SIZE - Frame(f);
      WritePayloadsFit(f, writes[..|writes| - 1]);
      OneWriteFits(f, writes[|writes| - 1]);
      ShortFits(f, WritePayloads(writes[..|writes| - 1], n), OneWrite(writes[|writes| - 1], n));
    }
  }

  lemma OneWriteFits(f: Format, mb: Multi)
    requires FormatOk(f)
    ensures forall p :: p in OneWrite(mb, SIZE - Frame(f)) ==> |p| <= SIZE - Frame(f)
  {
    IsEmptyIsFlat(mb);
    if !IsEmpty(mb) { PayloadsCover(Flat(mb), SIZE - Frame(f)); }
  }

  lemma ShortFits(f: Format, before: seq<bytes>, more: seq<bytes>)
    requires FormatOk(f) && FitBuffers(f, before) && forall p :: p in more ==> |p| <= SIZE - Frame(f)
    ensures FitBuffers(f, before + more)
  {
    var ps := before + more;
    forall k | 0 <= k < |ps|
      ensures ChunkSize(f, k, ps[k]) <= SIZE
    {
      if k >= |before| { assert ps[k] in more; }
    }
  }

  /** The two sides together, the bytes arriving in any fragmentation: the reader hands over the plaintext,
      then reports the end. */
  method ReadBack(f: Format, writes: seq<Multi>, reader: BufferedReader, ghost tail: bytes) returns (out: bytes)
    requires FormatOk(f) && reader.Remaining() == Stream(f, 0, WritePayloads(writes, SIZE - Frame(f))) + tail
    requires tail == [] || EndFrom(WritePayloads(writes, SIZE - Frame(f)), 0) < |WritePayloads(writes, SIZE - Frame(f))|
    modifies reader
    ensures out == UpToEmpty(writes)
  {
    ghost var payloads := WritePayloads(writes, SIZE - Frame(f));
    WritePayloadsFit(f, writes);
    DeliversWrites(writes, SIZE - Frame(f));
    var r := new AuthenticationReader(f, reader, payloads, tail);
    out := r.Copy();
  }
}
