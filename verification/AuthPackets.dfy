/** Packet mode of common/crypto/auth.go, both sides: one chunk and one buffer per packet, and what becomes of the
    stream when a packet does not fit a buffer. */
module AuthPackets {
  import opened Bytes
  import opened Buffer
  import opened MultiBuffer
  import opened Reader
  import opened Nonce
  import opened AuthWriter
  import opened AuthReader

  // ----- packets that fit -----

  /** The payloads of one packet write: without content, the empty chunk that ends the stream. */
  function OnePacketWrite(mb: Multi): seq<bytes> {
    if IsEmpty(mb) then [[]] else NonEmpty(mb)
  }

  function AllPackets(writes: seq<Multi>): seq<bytes> {
    if writes == [] then [] else OnePacketWrite(writes[0]) + AllPackets(writes[1..])
  }

  /** The packets of the writes before the first one without content. */
  function PacketsUpToEmpty(writes: seq<Multi>): seq<bytes> {
    if writes == [] || IsEmpty(writes[0]) then [] else NonEmpty(writes[0]) + PacketsUpToEmpty(writes[1..])
  }

  lemma {:induction false} AllPacketsSnoc(writes: seq<Multi>, mb: Multi)
    ensures AllPackets(writes + [mb]) == AllPackets(writes) + OnePacketWrite(mb)
  {
    if writes == [] {
      assert (writes + [mb])[1..] == [];
      NothingMore(OnePacketWrite(mb));
    } else {
      assert (writes + [mb])[1..] == writes[1..] + [mb];
      AllPacketsSnoc(writes[1..], mb);
      Associates(OnePacketWrite(writes[0]), AllPackets(writes[1..]), OnePacketWrite(mb));
    }
  }

  ghost predicate NoneEmpty(ps: seq<bytes>) {
    forall i {:trigger ps[i]} :: 0 <= i < |ps| ==> ps[i] != []
  }

  lemma {:induction false} NonEmptyIs(mb: Multi)
    ensures NoneEmpty(NonEmpty(mb))
  {
    if mb != [] { NonEmptyIs(mb[..|mb| - 1]); }
  }

  /** Reading the payloads of packet writes ends at the first write without content. */
  lemma {:induction false} PacketsEnd(writes: seq<Multi>)
    ensures AllPackets(writes)[..EndFrom(AllPackets(writes), 0)] == PacketsUpToEmpty(writes)
  {
    if writes != [] {
      var first, more := OnePacketWrite(writes[0]), AllPackets(writes[1..]);
      if IsEmpty(writes[0]) {
        assert (first + more)[0] == [];
      } else {
        NonEmptyIs(writes[0]);
        EndOfConcat(first, more);
        PacketsEnd(writes[1..]);
        assert (first + more)[..|first| + EndFrom(more, 0)] == first + more[..EndFrom(more, 0)];
      }
    }
  }

  predicate PacketsNotTooMany(mb: Multi) {
    IsEmpty(mb) || |mb| + 1 <= 64 * 1024 * 1024
  }

  lemma FitsPart(f: Format, a: seq<bytes>, b: seq<bytes>)
    requires PacketsFit(f, 0, a + b)
    ensures PacketsFit(f, 0, a) && PacketsFit(f, Drawn(f, 0, |a|), b)
  {
    var all := a + b;
    assert forall j {:trigger a[j]} :: 0 <= j < |a| ==> all[j] == a[j];
    forall j | 0 <= j < |b|
      ensures Fits(f, Drawn(f, Drawn(f, 0, |a|), j), b[j])
    {
      assert all[|a| + j] == b[j];
    }
  }

  method WritePackets(w: AuthenticationWriter, mb: Multi, ghost before: seq<bytes>) returns (ok: bool)
    requires HasWritten(w, before) && w.packet
    requires PacketsFit(w.f, 0, before + OnePacketWrite(mb))
    modifies w, w.nonces.c
    ensures ok == PacketsNotTooMany(mb)
    ensures ok ==> HasWritten(w, before + OnePacketWrite(mb))
  {
    FitsPart(w.f, before, OnePacketWrite(mb));
    StreamConcat(w.f, 0, before, OnePacketWrite(mb));
    if !IsEmpty(mb) { FittingPacketsAreStream(w.f, w.sealed, w.padded, mb); }
    ok := w.WriteMultiBuffer(mb);
  }

  /** Packet writes one after the other, every packet fitting beside its padding, put one chunk per packet on the
      wire. */
  method WriteAllPackets(w: AuthenticationWriter, writes: seq<Multi>) returns (ok: bool)
    requires HasWritten(w, []) && w.packet
    requires PacketsFit(w.f, 0, AllPackets(writes))
    modifies w, w.nonces.c
    ensures ok <==> forall i {:trigger writes[i]} :: 0 <= i < |writes| ==> PacketsNotTooMany(writes[i])
    ensures ok ==> HasWritten(w, AllPackets(writes))
  {
    var n := 0;
    ghost var done: seq<bytes>, todo := [], AllPackets(writes);
    assert done + todo == todo && writes[0..] == writes;
    while n < |writes|
      invariant 0 <= n <= |writes| && HasWritten(w, done) && todo == AllPackets(writes[n..])
      invariant done + todo == AllPackets(writes)
      invariant forall i {:trigger writes[i]} :: 0 <= i < n ==> PacketsNotTooMany(writes[i])
    {
      assert writes[n..][1..] == writes[n + 1..];
      Associates(done, OnePacketWrite(writes[n]), AllPackets(writes[n + 1..]));
      FitsPart(w.f, done + OnePacketWrite(writes[n]), AllPackets(writes[n + 1..]));
      ok := WritePackets(w, writes[n], done);
      if !ok { return; }
      done, todo := done + OnePacketWrite(writes[n]), AllPackets(writes[n + 1..]);
      n := n + 1;
    }
    NothingMore(done);
    return true;
  }

  lemma PacketsFitBuffers(f: Format, ps: seq<bytes>)
    requires PacketsFit(f, 0, ps)
    ensures FitBuffers(f, ps)
  {
    forall k | 0 <= k < |ps|
      ensures ChunkSize(f, k, ps[k]) <= SIZE
    {
      assert Fits(f, Drawn(f, 0, k), ps[k]);
    }
  }

  lemma MoreBuffers(payloads: seq<bytes>, j: nat, k: nat, l: nat, out: Multi, mb: Multi)
    requires j <= k <= |payloads| && out == payloads[j..k] && Took(payloads, k, l, mb, true)
    ensures out + mb == payloads[j..l]
  {
  }

  /** All buffers up to the end. */
  method CopyBuffers(r: AuthenticationReader) returns (out: Multi)
    requires r.Agreed() && r.Valid() && FitBuffers(r.f, r.payloads)
    modifies r, r.reader, r.nonces.c
    ensures r.Valid() && r.unsealed == EndFrom(r.payloads, old(r.unsealed))
    ensures out == r.payloads[old(r.unsealed)..r.unsealed]
  {
    out := [];
    var end := false;
    ghost var j := r.unsealed;
    while !end
      invariant r.Valid() && j <= r.unsealed && out == r.payloads[j..r.unsealed]
      invariant EndFrom(r.payloads, j) == EndFrom(r.payloads, r.unsealed)
      invariant end ==> r.unsealed == EndFrom(r.payloads, r.unsealed)
      decreases !end, |r.payloads| - r.unsealed
    {
      ghost var k := r.unsealed;
      var mb;
      end, mb := r.ReadMultiBuffer();
      if !end {
        EndAdvances(r.payloads, k, r.unsealed);
        MoreBuffers(r.payloads, j, k, r.unsealed, out, mb);
        out := out + mb;
      }
    }
  }

  /** The round trip of packets, over any fragmentation: one buffer per packet, holding exactly that packet, up to
      the first write without content. */
  method ReadBackPackets(f: Format, writes: seq<Multi>, reader: BufferedReader, ghost tail: bytes) returns (out: Multi)
    requires FormatOk(f) && PacketsFit(f, 0, AllPackets(writes))
    requires reader.Remaining() == Stream(f, 0, AllPackets(writes)) + tail
    requires tail == [] || EndFrom(AllPackets(writes), 0) < |AllPackets(writes)|
    modifies reader
    ensures out == PacketsUpToEmpty(writes)
  {
    ghost var payloads := AllPackets(writes);
    PacketsFitBuffers(f, payloads);
    PacketsEnd(writes);
    var r := new AuthenticationReader(f, reader, payloads, tail);
    out := CopyBuffers(r);
  }

  // ----- packets that do not fit -----

  /** The reader draws its own padding for the i-th chunk. It cuts the chunk where the writer joined it exactly when
      that is as long as the padding the writer drew. */
  lemma MisreadChunk(f: Format, i: nat, k: nat, payload: bytes)
    requires FormatOk(f)
    ensures var body := ChunkBody(f, i, k, payload);
            (Pad(f, i) <= |body| && body[..|body| - Pad(f, i)] == SealOf(f.aead, After(f.nonce, i + 1), payload))
            <==> Pad(f, i) == Pad(f, k)
  {
    BodyLength(f, i, k, payload);
    var body, sealed := ChunkBody(f, i, k, payload), SealOf(f.aead, After(f.nonce, i + 1), payload);
    assert |sealed| == |payload| + f.aead.overhead && |body| == |sealed| + Pad(f, k);
    if Pad(f, i) == Pad(f, k) { assert body[..|sealed|] == sealed; }
  }

  /** Two-byte sizes, paddings of no and one byte in turn, and a cipher that changes nothing. */
  function AlternatingFormat(): Format {
    var aead := Aead((n: bytes, x: bytes) => x, (n: bytes, x: bytes) => Some(x), 0, 0);
    Format(aead, [], PlainParser(), Some(Padding(1, (k: nat) => k % 2)), (k: nat, n: nat) => seq<byte>(n, _ => 0))
  }

  lemma AlternatingFormatOk()
    ensures FormatOk(AlternatingFormat())
  {
    PlainParserOk();
  }

  lemma SmallChunk()
    ensures var f := AlternatingFormat();
            Pad(f, 0) == 0 && Pad(f, 1) == 1 && Fits(f, 1, [7]) && ChunkAt(f, 0, 1, [7]) == [0, 2] + [7, 0]
    ensures Stream(AlternatingFormat(), 0, [[7]]) == [0, 1] + [7]
  {
    var f := AlternatingFormat();
    assert NoiseOf(f, 1, 1) == [0] && NoiseOf(f, 0, 0) == [];
    assert ChunkBody(f, 0, 1, [7]) == [7, 0] && ChunkBody(f, 0, 0, [7]) == [7];
    StreamSingle(f, 0, [7]);
  }

  /** A packet of a full buffer is dropped, and the one after it arrives with its padding as content. */
  lemma DroppedPacketIsMisread(big: bytes)
    requires |big| == SIZE
    ensures FormatOk(AlternatingFormat())
    ensures var f := AlternatingFormat();
            var r := SealPackets(f, 0, 0, [big, [7]]);
            r.sealed == 1 && r.padded == 2 && r.out == [0, 2] + [7, 0] != Stream(f, 0, [[7]])
    ensures var f := AlternatingFormat();
            DecodeOf(f.parser, 0, [0, 2]) == Some(2) && OpenChunk(f, 0, [7, 0], Pad(f, 0)) == Some([7, 0])
  {
    AlternatingFormatOk();
    SmallChunk();
    var f := AlternatingFormat();
    assert [big, [7]][..1] == [big] && [big][..0] == [];
    assert SealPackets(f, 0, 0, []) == Packets([], 0, 0);
    assert !Fits(f, 0, big);
    assert SealPackets(f, 0, 0, [big]) == Packets([], 0, 1);
    NothingMore(ChunkAt(f, 0, 1, [7]));
    assert [7, 0][..2] == [7, 0];
  }
}
