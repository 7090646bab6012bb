/** The authenticated chunk layer of common/crypto/auth.go, writing side, and the size parsers of
    common/crypto/chunk.go. */
module AuthWriter {
  import opened Bytes
  import opened Buffer
  import opened MultiBuffer
  import opened Nonce

  /** The interface of sections 2.1 and 2.2 of RFC 5116, with the associated data fixed. */
  datatype Aead = Aead(seal: (bytes, bytes) -> bytes, open: (bytes, bytes) -> Option<bytes>, overhead: nat,
                       nonceSize: nat)

  function SealOf(a: Aead, nonce: bytes, plain: bytes): bytes {
    a.seal(nonce, plain)
  }

  function OpenOf(a: Aead, nonce: bytes, cipher: bytes): Option<bytes> {
    a.open(nonce, cipher)
  }

  ghost predicate AeadOk(a: Aead) {
    forall n: bytes, x: bytes {:trigger SealOf(a, n, x)} ::
      |SealOf(a, n, x)| == |x| + a.overhead && OpenOf(a, n, SealOf(a, n, x)) == Some(x)
  }

  /** A size encoder and decoder: what each makes of its k-th call. */
  datatype SizeParser = SizeParser(sizeBytes: nat, encode: (nat, nat) -> bytes, decode: (nat, bytes) -> Option<nat>)

  function EncodeOf(p: SizeParser, k: nat, size: nat): bytes {
    p.encode(k, size)
  }

  function DecodeOf(p: SizeParser, k: nat, b: bytes): Option<nat> {
    p.decode(k, b)
  }

  ghost predicate SizesOk(p: SizeParser) {
    forall k: nat, size: nat {:trigger EncodeOf(p, k, size)} :: size < 65536 ==>
      |EncodeOf(p, k, size)| == p.sizeBytes && DecodeOf(p, k, EncodeOf(p, k, size)) == Some(size)
  }

  /** The k-th padding length, never above max. */
  datatype Padding = Padding(max: nat, next: nat -> nat)

  function NextPadding(p: Padding, k: nat): nat {
    p.next(k)
  }

  // ----- the two size parsers of chunk.go -----

  function PlainParser(): SizeParser {
    SizeParser(2, (k, size) => if size < 65536 then Uint16Bytes(size) else [],
               (k, b) => if |b| >= 2 then Some(Uint16At(b, 0)) else None)
  }

  function Uint16(x: int): nat {
    x % 65536
  }

  /** Seals the size less the overhead, under the k-th nonce of its own generator; both the subtraction and the
      addition on the way back wrap around. */
  function AeadParser(a: Aead, nonce: bytes): SizeParser {
    SizeParser(2 + a.overhead,
               (k: nat, size: nat) => SealOf(a, After(nonce, k + 1), Uint16Bytes(Uint16(size - a.overhead))),
               (k: nat, b: bytes) => DecodedSize(OpenOf(a, After(nonce, k + 1), b), a.overhead))
  }

  function DecodedSize(plain: Option<bytes>, overhead: nat): Option<nat> {
    match plain
    case None => None
    case Some(b) => if |b| < 2 then None else Some(Uint16(Uint16At(b, 0) + overhead))
  }

  lemma PlainParserOk()
    ensures SizesOk(PlainParser())
  {
    forall size: nat | size < 65536
      ensures Uint16At(Uint16Bytes(size), 0) == size
    {
      Uint16RoundTrip(size);
    }
  }

  lemma AeadParserOk(a: Aead, nonce: bytes)
    requires AeadOk(a)
    ensures SizesOk(AeadParser(a, nonce))
  {
    var p := AeadParser(a, nonce);
    forall k: nat, size: nat | size < 65536
      ensures |EncodeOf(p, k, size)| == p.sizeBytes && DecodeOf(p, k, EncodeOf(p, k, size)) == Some(size)
    {
      var b := Uint16Bytes(Uint16(size - a.overhead));
      Uint16RoundTrip(Uint16(size - a.overhead));
      assert OpenOf(a, After(nonce, k + 1), SealOf(a, After(nonce, k + 1), b)) == Some(b);
    }
  }

  /** What the k-th size field is: the size less the overhead modulo 2^16, high byte first, sealed under the nonce that
      lies k + 1 steps behind the first one. */
  lemma AeadParserSeals(a: Aead, nonce: bytes, k: nat, size: nat) returns (iv: bytes, b: bytes)
    requires size < 65536
    ensures EncodeOf(AeadParser(a, nonce), k, size) == SealOf(a, iv, b)
    ensures |iv| == |nonce| && LittleEndian(iv) == (LittleEndian(nonce) + k + 1) % Pow256(|nonce|)
    ensures |b| == 2 && HighLow(b[0], b[1]) == (size - a.overhead) % 65536
    ensures AeadParser(a, nonce).sizeBytes == a.overhead + 2
  {
    iv, b := After(nonce, k + 1), Uint16Bytes(Uint16(size - a.overhead));
    KthNonce(nonce, k + 1);
    assert LittleEndian(nonce) + (k + 1) == LittleEndian(nonce) + k + 1;
  }

  // ----- the wire format -----

  /** Everything both sides agree on; noise is the content of paddings, which the reader never looks at. */
  datatype Format = Format(aead: Aead, nonce: bytes, parser: SizeParser, padding: Option<Padding>,
                           noise: (nat, nat) -> bytes)

  function NoiseOf(f: Format, k: nat, n: nat): bytes {
    f.noise(k, n)
  }

  /** The bytes a chunk adds to its payload, at most. */
  function Frame(f: Format): nat {
    f.aead.overhead + f.parser.sizeBytes + if f.padding.Some? then f.padding.value.max else 0
  }

  ghost predicate FormatOk(f: Format) {
    && AeadOk(f.aead) && SizesOk(f.parser)
    && |f.nonce| == f.aead.nonceSize && f.parser.sizeBytes > 0
    && (f.padding.Some? ==> forall k: nat {:trigger NextPadding(f.padding.value, k)} ::
        NextPadding(f.padding.value, k) <= f.padding.value.max)
    && (forall k: nat, n: nat {:trigger NoiseOf(f, k, n)} :: |NoiseOf(f, k, n)| == n)
    && Frame(f) < SIZE
  }

  function Pad(f: Format, k: nat): nat {
    if f.padding.Some? then NextPadding(f.padding.value, k) else 0
  }

  /** The size field of a chunk. */
  function ChunkSize(f: Format, k: nat, payload: bytes): nat {
    |payload| + f.aead.overhead + Pad(f, k)
  }

  function ChunkBody(f: Format, i: nat, k: nat, payload: bytes): bytes {
    SealOf(f.aead, After(f.nonce, i + 1), payload) + NoiseOf(f, k, Pad(f, k))
  }

  /** The i-th chunk sealed, using the k-th padding. */
  function ChunkAt(f: Format, i: nat, k: nat, payload: bytes): bytes {
    EncodeOf(f.parser, i, ChunkSize(f, k, payload)) + ChunkBody(f, i, k, payload)
  }

  /** The first n payloads as chunks from the i-th on, paddings in step. */
  function StreamTo(f: Format, i: nat, payloads: seq<bytes>, n: nat): bytes
    requires n <= |payloads|
  {
    if n == 0 then [] else StreamTo(f, i, payloads, n - 1) + ChunkAt(f, i + n - 1, i + n - 1, payloads[n - 1])
  }

  function Stream(f: Format, i: nat, payloads: seq<bytes>): bytes {
    StreamTo(f, i, payloads, |payloads|)
  }

  lemma {:induction false} StreamConcatTo(f: Format, i: nat, a: seq<bytes>, b: seq<bytes>, n: nat)
    requires n <= |b|
    ensures StreamTo(f, i, a + b, |a| + n) == StreamTo(f, i, a, |a|) + StreamTo(f, i + |a|, b, n)
  {
    if n == 0 {
      StreamPrefix(f, i, a, b, |a|);
    } else {
      StreamConcatTo(f, i, a, b, n - 1);
      assert |a| + n - 1 < |a + b| && (a + b)[|a| + n - 1] == b[n - 1];
      Associates(StreamTo(f, i, a, |a|), StreamTo(f, i + |a|, b, n - 1),
                 ChunkAt(f, i + |a| + n - 1, i + |a| + n - 1, b[n - 1]));
    }
  }

  lemma {:induction false} StreamPrefix(f: Format, i: nat, a: seq<bytes>, b: seq<bytes>, n: nat)
    requires n <= |a|
    ensures StreamTo(f, i, a + b, n) == StreamTo(f, i, a, n)
  {
    if n > 0 { StreamPrefix(f, i, a, b, n - 1); }
  }

  lemma StreamConcat(f: Format, i: nat, a: seq<bytes>, b: seq<bytes>)
    ensures Stream(f, i, a + b) == Stream(f, i, a) + Stream(f, i + |a|, b)
  {
    StreamConcatTo(f, i, a, b, |b|);
  }

  lemma StreamSnoc(f: Format, i: nat, payloads: seq<bytes>, b: bytes)
    ensures Stream(f, i, payloads + [b]) == Stream(f, i, payloads) + ChunkAt(f, i + |payloads|, i + |payloads|, b)
  {
    StreamPrefix(f, i, payloads, [b], |payloads|);
  }

  lemma StreamSingle(f: Format, i: nat, b: bytes)
    ensures Stream(f, i, [b]) == ChunkAt(f, i, i, b)
  {
    assert StreamTo(f, i, [b], 1) == StreamTo(f, i, [b], 0) + ChunkAt(f, i, i, b);
  }

  lemma BodyLength(f: Format, i: nat, k: nat, payload: bytes)
    requires FormatOk(f)
    ensures |ChunkBody(f, i, k, payload)| == ChunkSize(f, k, payload)
  {
    assert |SealOf(f.aead, After(f.nonce, i + 1), payload)| == |payload| + f.aead.overhead;
    assert |NoiseOf(f, k, Pad(f, k))| == Pad(f, k);
  }

  /** The i-th chunk, byte by byte: a size field that decodes to the length of the rest, the payload sealed under the
      nonce i + 1 steps behind the first, and as much padding as was drawn. */
  lemma ChunkLayout(f: Format, i: nat, k: nat, payload: bytes) returns (iv: bytes)
    requires FormatOk(f) && ChunkSize(f, k, payload) < 65536
    ensures |iv| == |f.nonce| && LittleEndian(iv) == (LittleEndian(f.nonce) + i + 1) % Pow256(|f.nonce|)
    ensures var w, n, m := ChunkAt(f, i, k, payload), f.parser.sizeBytes, |payload| + f.aead.overhead;
            && |w| == n + m + (if f.padding.Some? then NextPadding(f.padding.value, k) else 0)
            && DecodeOf(f.parser, i, w[..n]) == Some(|w| - n)
            && w[n..n + m] == SealOf(f.aead, iv, payload) && OpenOf(f.aead, iv, w[n..n + m]) == Some(payload)
  {
    iv := After(f.nonce, i + 1);
    KthNonce(f.nonce, i + 1);
    assert LittleEndian(f.nonce) + (i + 1) == LittleEndian(f.nonce) + i + 1;
    BodyLength(f, i, k, payload);
    var w, head, sealed := ChunkAt(f, i, k, payload), EncodeOf(f.parser, i, ChunkSize(f, k, payload)),
      SealOf(f.aead, iv, payload);
    assert |NoiseOf(f, k, Pad(f, k))| == Pad(f, k);
    assert w[..|head|] == head && w[|head|..] == sealed + NoiseOf(f, k, Pad(f, k));
    assert w[|head|..|head| + |sealed|] == w[|head|..][..|sealed|] == sealed;
  }

  // ----- writing -----

  /** How writeStream cuts the bytes of a write into payloads, whatever buffers they come in. */
  function Payloads(d: bytes, n: nat): (ps: seq<bytes>)
    requires n > 0
    ensures ps != []
  {
    if |d| <= n then [d] else [d[..n]] + Payloads(d[n..], n)
  }

  function Joined(payloads: seq<bytes>): bytes {
    if payloads == [] then [] else payloads[0] + Joined(payloads[1..])
  }

  lemma {:induction false} JoinedConcat(a: seq<bytes>, b: seq<bytes>)
    ensures Joined(a + b) == Joined(a) + Joined(b)
  {
    if a == [] {
      assert a + b == b;
    } else {
      assert (a + b)[1..] == a[1..] + b;
      JoinedConcat(a[1..], b);
      assert a[0] + (Joined(a[1..]) + Joined(b)) == a[0] + Joined(a[1..]) + Joined(b);
    }
  }

  /** The payloads of a write with content: none empty, all but the last as long as allowed, together the content. */
  lemma {:induction false} PayloadsCover(d: bytes, n: nat)
    requires n > 0 && d != []
    ensures Joined(Payloads(d, n)) == d
    ensures forall i {:trigger Payloads(d, n)[i]} :: 0 <= i < |Payloads(d, n)| ==>
              0 < |Payloads(d, n)[i]| <= n && (i < |Payloads(d, n)| - 1 ==> |Payloads(d, n)[i]| == n)
  {
    if |d| <= n {
      assert Joined([d]) == d;
    } else {
      PayloadsCover(d[n..], n);
    }
  }

  /** One split takes exactly the first payload. */
  lemma TakenIsPrefix(d: bytes, taken: bytes, rest: bytes, n: nat)
    requires n > 0 && d == taken + rest && |taken| == Min(n, |d|)
    ensures |taken| <= n
    ensures Payloads(d, n) == [taken] + if rest == [] then [] else Payloads(rest, n)
  {
    if rest != [] {
      assert d[..n] == taken && d[n..] == rest;
    } else {
      assert d == taken;
    }
  }

  // ----- packets -----

  predicate Fits(f: Format, k: nat, b: bytes) {
    f.parser.sizeBytes + ChunkSize(f, k, b) <= SIZE
  }

  /** How many paddings one chunk draws. */
  function Draw(f: Format): nat {
    if f.padding.Some? then 1 else 0
  }

  /** What writePacket makes of its buffers: empty ones are passed over; one that does not fit is dropped, but
      its padding is already drawn. */
  datatype Packets = Packets(out: bytes, sealed: nat, padded: nat)

  function SealPackets(f: Format, i: nat, k: nat, mb: Multi): Packets {
    if mb == [] then Packets([], i, k)
    else
      var r := SealPackets(f, i, k, mb[..|mb| - 1]);
      var b := mb[|mb| - 1];
      if b == [] then r
      else if Fits(f, r.padded, b) then
        Packets(r.out + ChunkAt(f, r.sealed, r.padded, b), r.sealed + 1, r.padded + Draw(f))
      else r.(padded := r.padded + Draw(f))
  }

  function NonEmpty(mb: Multi): seq<bytes> {
    if mb == [] then []
    else NonEmpty(mb[..|mb| - 1]) + if mb[|mb| - 1] == [] then [] else [mb[|mb| - 1]]
  }

  /** Every packet fits beside the padding drawn for it, the k-th for the first one. */
  ghost predicate PacketsFit(f: Format, k: nat, packets: seq<bytes>) {
    forall j {:trigger packets[j]} :: 0 <= j < |packets| ==> Fits(f, Drawn(f, k, j), packets[j])
  }

  /** The number of the next padding after n chunks. */
  function Drawn(f: Format, k: nat, n: nat): nat {
    if f.padding.Some? then k + n else k
  }

  /** The padding generator is as far as the sealing. */
  predicate InStep(f: Format, sealed: nat, padded: nat) {
    padded == if f.padding.Some? then sealed else 0
  }

  lemma ChunkInStep(f: Format, i: nat, k: nat, b: bytes)
    requires FormatOk(f) && InStep(f, i, k)
    ensures ChunkAt(f, i, k, b) == ChunkAt(f, i, i, b)
  {
  }

  /** Packets that all fit go out as one chunk each, in order, and the paddings stay in step. */
  lemma {:induction false} FittingPacketsAreStream(f: Format, i: nat, k: nat, mb: Multi)
    requires FormatOk(f) && PacketsFit(f, k, NonEmpty(mb)) && InStep(f, i, k)
    ensures var r := SealPackets(f, i, k, mb);
            r.out == Stream(f, i, NonEmpty(mb)) && InStep(f, r.sealed, r.padded) && r.sealed == i + |NonEmpty(mb)|
  {
    if mb != [] {
      var before, b := mb[..|mb| - 1], mb[|mb| - 1];
      LastPacket(f, k, mb);
      FittingPacketsAreStream(f, i, k, before);
      DrawsCount(f, i, k, before);
      if b != [] { PacketStep(f, i, SealPackets(f, i, k, before), NonEmpty(before), b); }
    }
  }

  lemma PacketStep(f: Format, i: nat, r: Packets, ps: seq<bytes>, b: bytes)
    requires FormatOk(f) && Fits(f, r.padded, b)
    requires r.out == Stream(f, i, ps) && r.sealed == i + |ps| && InStep(f, r.sealed, r.padded)
    ensures InStep(f, r.sealed + 1, r.padded + Draw(f))
    ensures r.out + ChunkAt(f, r.sealed, r.padded, b) == Stream(f, i, ps + [b])
  {
    ChunkInStep(f, r.sealed, r.padded, b);
    StreamSnoc(f, i, ps, b);
  }

  lemma OneMoreFits(f: Format, k: nat, ps: seq<bytes>, b: bytes)
    ensures PacketsFit(f, k, ps + [b]) <==> PacketsFit(f, k, ps) && Fits(f, Drawn(f, k, |ps|), b)
  {
    var all := ps + [b];
    assert all[|ps|] == b;
    if PacketsFit(f, k, all) {
      forall j | 0 <= j < |ps|
        ensures Fits(f, Drawn(f, k, j), ps[j])
      {
        assert all[j] == ps[j];
      }
    }
  }

  /** All packets fit if those before fit and the last one does. */
  lemma LastPacket(f: Format, k: nat, mb: Multi)
    requires mb != []
    ensures var before, b := NonEmpty(mb[..|mb| - 1]), mb[|mb| - 1];
            && NonEmpty(mb) == (if b == [] then before else before + [b])
            && (PacketsFit(f, k, NonEmpty(mb)) <==>
                PacketsFit(f, k, before) && (b == [] || Fits(f, Drawn(f, k, |before|), b)))
  {
    var before, b := NonEmpty(mb[..|mb| - 1]), mb[|mb| - 1];
    if b == [] {
      NothingMore(before);
    } else {
      OneMoreFits(f, k, before, b);
    }
  }

  /** Every packet with content draws a padding, sealed or not. */
  lemma {:induction false} DrawsCount(f: Format, i: nat, k: nat, mb: Multi)
    ensures SealPackets(f, i, k, mb).padded == Drawn(f, k, |NonEmpty(mb)|)
  {
    if mb != [] { DrawsCount(f, i, k, mb[..|mb| - 1]); }
  }

  /** All packets are sealed, and with padding the two generators stay in step, exactly when every packet fits
      beside the padding drawn for it; otherwise fewer chunks are sealed than paddings are drawn. */
  lemma {:induction false} DroppedPacketBreaksStep(f: Format, i: nat, k: nat, mb: Multi)
    ensures var r := SealPackets(f, i, k, mb);
            && (if PacketsFit(f, k, NonEmpty(mb)) then r.sealed == i + |NonEmpty(mb)|
                else r.sealed < i + |NonEmpty(mb)|)
            && (f.padding.Some? ==> (r.padded - k == r.sealed - i <==> PacketsFit(f, k, NonEmpty(mb))))
  {
    DrawsCount(f, i, k, mb);
    if mb != [] {
      LastPacket(f, k, mb);
      DrawsCount(f, i, k, mb[..|mb| - 1]);
      DroppedPacketBreaksStep(f, i, k, mb[..|mb| - 1]);
    }
  }

  /** One SplitBytes into the scratch buffer. */
  method CutNext(mb: Multi, n: nat) returns (rest: Multi, taken: bytes, more: bool, ghost next: seq<bytes>)
    requires n > 0
    ensures |taken| <= n && Payloads(Flat(mb), n) == [taken] + next
    ensures next == if more then Payloads(Flat(rest), n) else []
    ensures more ==> |Flat(rest)| < |Flat(mb)|
  {
    SplitBytesConserves(mb, n);
    var s := SplitBytes(mb, n);
    IsEmptyIsFlat(s.rest);
    TakenIsPrefix(Flat(mb), s.taken, Flat(s.rest), n);
    rest, taken, more := s.rest, s.taken, !IsEmpty(s.rest);
    next := if more then Payloads(Flat(rest), n) else [];
  }

  class AuthenticationWriter {
    const f: Format
    const nonces: IncreasingNonce
    const packet: bool
    var sealed: nat   // chunks sealed and sizes encoded
    var padded: nat   // paddings drawn
    var sink: bytes   // everything passed to the underlying writer

    ghost predicate Valid()
      reads this, nonces.c
    {
      FormatOk(f) && nonces.c[..] == After(f.nonce, sealed)
    }

    constructor (f: Format, packet: bool)
      requires FormatOk(f)
      ensures Valid() && this.f == f && this.packet == packet && sealed == 0 && padded == 0 && sink == []
      ensures fresh(nonces) && fresh(nonces.c)
    {
      this.f, this.packet := f, packet;
      nonces := new IncreasingNonce(f.nonce);
      sealed, padded, sink := 0, 0, [];
    }

    /** One chunk, or the error that it does not fit a buffer. The padding is drawn in either case. */
    method Seal(b: bytes) returns (r: Option<bytes>)
      requires Valid()
      modifies `sealed, `padded, nonces.c
      ensures Valid()
      ensures padded == old(padded) + Draw(f)
      ensures r.Some? <==> Fits(f, old(padded), b)
      ensures r.Some? ==>
                r.value == ChunkAt(f, old(sealed), old(padded), b) && |r.value| <= SIZE && sealed == old(sealed) + 1
      ensures r.None? ==> sealed == old(sealed)
    {
      var encryptedSize := |b| + f.aead.overhead;
      var k := padded;
      var paddingSize := 0;
      if f.padding.Some? {
        paddingSize := NextPadding(f.padding.value, padded);
        padded := padded + 1;
      }
      if f.parser.sizeBytes + encryptedSize + paddingSize > SIZE { return None; }
      var head := EncodeOf(f.parser, sealed, encryptedSize + paddingSize);
      var iv := nonces.Next();
      var body := SealOf(f.aead, iv, b);
      BodyLength(f, sealed, k, b);
      var eb := head + body;
      if paddingSize > 0 {
        eb := eb + NoiseOf(f, k, paddingSize);
      } else {
        assert NoiseOf(f, k, 0) == [];
      }
      assert eb == ChunkAt(f, sealed, k, b);
      sealed := sealed + 1;
      return Some(eb);
    }

    /** The loop of writeStream: no chunk overflows its buffer, so no error can cut the write short. */
    method WriteStream(mb: Multi) returns (ok: bool)
      requires Valid() && !IsEmpty(mb) && InStep(f, sealed, padded)
      modifies this, nonces.c
      ensures Valid() && InStep(f, sealed, padded)
      ensures ok == (|mb| + 10 <= 64 * 1024 * 1024)
      ensures ok ==> var padding := if f.padding.Some? then f.padding.value.max else 0;
                var ps := Payloads(Flat(mb), 2048 - f.aead.overhead - f.parser.sizeBytes - padding);
                sink == old(sink) + Stream(f, old(sealed), ps) && sealed == old(sealed) + |ps|
      ensures !ok ==> sink == old(sink) && sealed == old(sealed) && padded == old(padded)
    {
      if |mb| + 10 > 64 * 1024 * 1024 { return false; }
      var out := SealAll(mb, SIZE - Frame(f));
      sink := sink + out;
      return true;
    }

    method SealAll(mb: Multi, payloadSize: nat) returns (out: bytes)
      requires Valid() && InStep(f, sealed, padded) && payloadSize == SIZE - Frame(f)
      modifies `sealed, `padded, nonces.c
      ensures Valid() && InStep(f, sealed, padded)
      ensures out == Stream(f, old(sealed), Payloads(Flat(mb), payloadSize))
      ensures sealed == old(sealed) + |Payloads(Flat(mb), payloadSize)|
    {
      var rest := mb;
      out := [];
      ghost var sent: seq<bytes>, todo := [], Payloads(Flat(mb), payloadSize);
      ghost var ps := todo;
      var more := true;
      while more
        invariant Valid() && InStep(f, sealed, padded)
        invariant ps == sent + todo && todo == if more then Payloads(Flat(rest), payloadSize) else []
        invariant out == Stream(f, old(sealed), sent) && sealed == old(sealed) + |sent|
        decreases more, |Flat(rest)|
      {
        var eb;
        var taken;
        ghost var next;
        rest, eb, more, taken, next := SealNext(rest, payloadSize, old(sealed), sent);
        Associates(sent, [taken], next);
        out, sent, todo := out + eb, sent + [taken], next;
      }
      NothingMore(sent);
    }

    /** One round of the loop, after the chunks of sent. */
    method SealNext(mb: Multi, payloadSize: nat, ghost first: nat, ghost sent: seq<bytes>)
      returns (rest: Multi, eb: bytes, more: bool, taken: bytes, ghost next: seq<bytes>)
      requires Valid() && InStep(f, sealed, padded) && payloadSize == SIZE - Frame(f) && sealed == first + |sent|
      modifies `sealed, `padded, nonces.c
      ensures Valid() && InStep(f, sealed, padded) && sealed == old(sealed) + 1
      ensures Payloads(Flat(mb), payloadSize) == [taken] + next
      ensures next == if more then Payloads(Flat(rest), payloadSize) else []
      ensures Stream(f, first, sent + [taken]) == Stream(f, first, sent) + eb
      ensures more ==> |Flat(rest)| < |Flat(mb)|
    {
      rest, taken, more, next := CutNext(mb, payloadSize);
      ChunkInStep(f, sealed, padded, taken);
      StreamSnoc(f, first, sent, taken);
      var r := Seal(taken);
      eb := r.value;
    }

    method WritePacket(mb: Multi) returns (ok: bool)
      requires Valid()
      modifies this, nonces.c
      ensures Valid()
      ensures ok == (|mb| + 1 <= 64 * 1024 * 1024)
      ensures ok ==> var r := SealPackets(f, old(sealed), old(padded), mb);
                sink == old(sink) + r.out && sealed == r.sealed && padded == r.padded
      ensures !ok ==> sink == old(sink) && sealed == old(sealed) && padded == old(padded)
    {
      if |mb| + 1 > 64 * 1024 * 1024 { return false; }
      var out: bytes := [];
      var n := 0;
      while n < |mb|
        invariant 0 <= n <= |mb| && Valid() && sink == old(sink)
        invariant SealPackets(f, old(sealed), old(padded), mb[..n]) == Packets(out, sealed, padded)
      {
        assert mb[..n + 1][..n] == mb[..n];
        if mb[n] != [] {
          var eb := Seal(mb[n]);
          if eb.Some? { out := out + eb.value; }
        }
        n := n + 1;
      }
      assert mb[..n] == mb;
      sink := sink + out;
      return true;
    }

    /** The chunk without payload that ends the stream. common.Must panics if even that does not fit, which
        FormatOk excludes. */
    method WriteEnd()
      requires Valid() && InStep(f, sealed, padded)
      modifies this, nonces.c
      ensures Valid() && InStep(f, sealed, padded) && sealed == old(sealed) + 1
      ensures sink == old(sink) + Stream(f, old(sealed), [[]])
    {
      ChunkInStep(f, sealed, padded, []);
      StreamSingle(f, sealed, []);
      var eb := Seal([]);
      sink := sink + eb.value;
    }

    /** A write without content is the end of the stream. */
    method WriteMultiBuffer(mb: Multi) returns (ok: bool)
      requires Valid() && InStep(f, sealed, padded)
      modifies this, nonces.c
      ensures Valid()
      ensures ok <==> IsEmpty(mb) || |mb| + (if packet then 1 else 10) <= 64 * 1024 * 1024
      ensures !packet || IsEmpty(mb) ==> InStep(f, sealed, padded)
      ensures ok && (!packet || IsEmpty(mb)) ==>
                var ps := if IsEmpty(mb) then [[]] else Payloads(Flat(mb), SIZE - Frame(f));
                sink == old(sink) + Stream(f, old(sealed), ps) && sealed == old(sealed) + |ps|
      ensures ok && packet && !IsEmpty(mb) ==>
                var r := SealPackets(f, old(sealed), old(padded), mb);
                sink == old(sink) + r.out && sealed == r.sealed && padded == r.padded
    {
      if IsEmpty(mb) {
        WriteEnd();
        return true;
      }
      if packet {
        ok := WritePacket(mb);
      } else {
        ok := WriteStream(mb);
      }
    }
  }
}
