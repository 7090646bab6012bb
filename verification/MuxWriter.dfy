/** common/mux/writer.go: the frames a Writer puts on the shared link. */
module MuxWriter {
  import opened Bytes
  import opened Address
  import opened Buffer
  import opened MultiBuffer
  import opened Chunk
  import opened Frame

  /** One write on the link: metadata, and data behind a 16-bit size when OptionData is set. */
  datatype Message = Message(meta: Meta, data: Option<bytes>)

  ghost predicate ValidMessage(m: Message) {
    ValidMeta(m.meta) && (m.data.Some? ==> |m.data.value| < 65536)
  }

  /** The part of a frame after its metadata. */
  function Sized(data: Option<bytes>): bytes
    requires data.Some? ==> |data.value| < 65536
  {
    match data
    case None => []
    case Some(d) => Uint16Bytes(|d|) + d
  }

  function Wire(p: Parser, m: Message): Result<bytes>
    requires ValidMessage(m)
  {
    match Encode(p, m.meta)
    case Err => Err
    case Ok(head) => Ok(head + Sized(m.data))
  }

  /** The writes that reached the connection, in order, each written in one call. */
  class Link {
    var written: seq<bytes>
  }

  /** More buffers than this, the frame's included, are refused in one write. */
  const MAX_SLICE: nat := 64 * 1024 * 1024

  /** The fields of Writer. */
  datatype State = State(id: nat, dest: Option<Destination>, packet: bool, followup: bool, hasError: bool)

  ghost predicate ValidState(w: State) {
    && w.id < 65536
    && (w.dest.Some? ==> ValidAddr(w.dest.value.address) && w.dest.value.port < 65536)
    && (w.dest.None? ==> w.followup)
  }

  /** getNextFrameMeta, before it sets followup. */
  function NextMeta(w: State, option: byte): (f: Meta)
    requires ValidState(w)
    ensures ValidMeta(f)
  {
    Meta(w.dest, w.id, option, if w.followup then STATUS_KEEP else STATUS_NEW)
  }

  function EndMeta(w: State): (f: Meta)
    requires ValidState(w)
    ensures ValidMeta(f)
  {
    Meta(None, w.id, if w.hasError then OPTION_ERROR else 0, STATUS_END)
  }

  /** How a write is cut: slices of at most 8192 bytes on a stream, single buffers on a packet link. */
  function Slices(packet: bool, mb: Multi): seq<Multi>
    decreases |Flat(mb)| + |mb|
  {
    if IsEmpty(mb) then []
    else if packet then
      SliceShrinks(mb);
      [[mb[0]]] + Slices(packet, mb[1..])
    else
      SplitSizeConserves(mb, SLICE);
      var s := SplitSize(mb, SLICE);
      [s.taken] + Slices(packet, s.rest)
  }

  lemma SliceShrinks(mb: Multi)
    requires !IsEmpty(mb)
    ensures mb != [] && |Flat(mb[1..])| + |mb[1..]| < |Flat(mb)| + |mb|
  {
  }

  /** The messages of a run of slices, the state after it, and whether no error cut it short. */
  datatype Outcome = Outcome(state: State, sent: seq<Message>, ok: bool)

  ghost predicate SlicesBounded(slices: seq<Multi>) {
    forall i :: 0 <= i < |slices| ==> |Flat(slices[i])| < 65536
  }

  function SendSlices(p: Parser, w: State, slices: seq<Multi>): Outcome
    requires ValidState(w) && SlicesBounded(slices)
    decreases |slices|
  {
    if slices == [] then Outcome(w, [], true)
    else
      var meta := NextMeta(w, OPTION_DATA);
      var w' := w.(followup := true);
      if Encode(p, meta).Err? || |slices[0]| + 1 > MAX_SLICE then Outcome(w', [], false)
      else
        var more := SendSlices(p, w', slices[1..]);
        more.(sent := [Message(meta, Some(Flat(slices[0])))] + more.sent)
  }

  lemma {:induction false} SlicesFit(packet: bool, mb: Multi)
    requires Bounded(mb)
    ensures forall i :: 0 <= i < |Slices(packet, mb)| ==> |Flat(Slices(packet, mb)[i])| <= SLICE
    ensures packet ==> forall i :: 0 <= i < |Slices(packet, mb)| ==> |Flat(Slices(packet, mb)[i])| <= SIZE
    decreases |Flat(mb)| + |mb|
  {
    if IsEmpty(mb) {
    } else if packet {
      SliceShrinks(mb);
      SlicesFit(packet, mb[1..]);
      assert Flat([mb[0]]) == mb[0];
    } else {
      SplitSizeConserves(mb, SLICE);
      SplitTakesContent(mb);
      SlicesFit(packet, SplitSize(mb, SLICE).rest);
    }
  }

  /** Writer.WriteMultiBuffer: without content it sends bare metadata. */
  function Write(p: Parser, w: State, mb: Multi): Outcome
    requires ValidState(w) && Bounded(mb)
  {
    if IsEmpty(mb) then
      var meta := NextMeta(w, 0);
      var w' := w.(followup := true);
      if Encode(p, meta).Err? then Outcome(w', [], false) else Outcome(w', [Message(meta, None)], true)
    else
      SlicesFit(w.packet, mb);
      SendSlices(p, w, Slices(w.packet, mb))
  }

  ghost predicate AllWired(p: Parser, ms: seq<Message>) {
    forall i :: 0 <= i < |ms| ==> ValidMessage(ms[i]) && Wire(p, ms[i]).Ok?
  }

  function Wires(p: Parser, ms: seq<Message>): seq<bytes>
    requires AllWired(p, ms)
  {
    seq(|ms|, i requires 0 <= i < |ms| => Wire(p, ms[i]).value)
  }

  function Prepend(ms: seq<Message>, o: Outcome): Outcome {
    o.(sent := ms + o.sent)
  }

  /** What happens to one slice: a message, or the error that ends the write. */
  lemma SendOne(p: Parser, w: State, slices: seq<Multi>)
    requires ValidState(w) && SlicesBounded(slices) && slices != []
    ensures var meta := NextMeta(w, OPTION_DATA);
            var w' := w.(followup := true);
            SendSlices(p, w, slices) ==
              if Encode(p, meta).Err? || |slices[0]| + 1 > MAX_SLICE then Outcome(w', [], false)
              else Prepend([Message(meta, Some(Flat(slices[0])))], SendSlices(p, w', slices[1..]))
  {
  }

  lemma PrependTwice(a: seq<Message>, b: seq<Message>, o: Outcome)
    ensures Prepend(a, Prepend(b, o)) == Prepend(a + b, o)
  {
    assert a + (b + o.sent) == a + b + o.sent;
  }

  /** In the loop of WriteMultiBuffer: sent is on the link, slices are still to come, and total is what the
      whole call comes to. */
  ghost predicate Sending(p: Parser, w: State, slices: seq<Multi>, total: Outcome, sent: seq<Message>,
                          before: seq<bytes>, written: seq<bytes>)
  {
    && ValidState(w) && SlicesBounded(slices) && AllWired(p, sent)
    && written == before + Wires(p, sent)
    && total == Prepend(sent, SendSlices(p, w, slices))
  }

  lemma SendingStep(p: Parser, w: State, w': State, slices: seq<Multi>, total: Outcome, sent: seq<Message>, m: Message,
                    before: seq<bytes>, written: seq<bytes>, written': seq<bytes>)
    requires Sending(p, w, slices, total, sent, before, written) && ValidState(w') && slices != []
    requires ValidMessage(m) && Wire(p, m).Ok? && written' == written + [Wire(p, m).value]
    requires SendSlices(p, w, slices) == Prepend([m], SendSlices(p, w', slices[1..]))
    ensures Sending(p, w', slices[1..], total, sent + [m], before, written')
  {
    PrependTwice(sent, [m], SendSlices(p, w', slices[1..]));
  }

  class Writer {
    const parser: Parser
    const dest: Option<Destination>
    const link: Link
    const id: nat
    const packet: bool
    var followup: bool
    var hasError: bool

    /** NewWriter, and with None NewResponseWriter. */
    constructor (parser: Parser, id: nat, dest: Option<Destination>, link: Link, packet: bool)
      requires id < 65536 && (dest.Some? ==> ValidAddr(dest.value.address) && dest.value.port < 65536)
      ensures this.parser == parser && this.link == link
      ensures Fields() == State(id, dest, packet, dest.None?, false) && ValidState(Fields())
    {
      this.parser, this.id, this.dest, this.link, this.packet := parser, id, dest, link, packet;
      followup, hasError := dest.None?, false;
    }

    function Fields(): State
      reads this
    {
      State(id, dest, packet, followup, hasError)
    }

    /** writeMetaWithFrame, and writeMetaOnly without data. */
    method Send(meta: Meta, data: Option<Multi>) returns (ok: bool)
      requires ValidMeta(meta) && (data.Some? ==> |Flat(data.value)| < 65536)
      modifies link
      ensures ok == (Encode(parser, meta).Ok? && (data.Some? ==> |data.value| + 1 <= 67108864))
      ensures link.written == if ok then old(link.written) + [Wire(parser, Message(meta, Content(data))).value]
                else old(link.written)
    {
      var frame := new Buffer();
      ok := WriteTo(parser, meta, frame);
      if !ok { return; }
      var head := frame.Contents();
      assert head == Encode(parser, meta).value;
      if data.Some? && |data.value| + 1 > MAX_SLICE { return false; }
      link.written := link.written + [head + Sized(Content(data))];
    }

    method WriteMultiBuffer(mb: Multi) returns (ok: bool)
      requires ValidState(Fields()) && Bounded(mb)
      modifies this, link
      ensures ValidState(Fields())
      ensures var o := Write(parser, old(Fields()), mb);
              && Fields() == o.state && ok == o.ok && AllWired(parser, o.sent)
              && link.written == old(link.written) + Wires(parser, o.sent)
    {
      if IsEmpty(mb) {
        ok := WriteMetaOnly();
      } else {
        SlicesFit(packet, mb);
        ok := WriteSlices(mb);
      }
    }

    method WriteMetaOnly() returns (ok: bool)
      requires ValidState(Fields())
      modifies this, link
      ensures ValidState(Fields())
      ensures var o := Write(parser, old(Fields()), []);
              && Fields() == o.state && ok == o.ok && AllWired(parser, o.sent)
              && link.written == old(link.written) + Wires(parser, o.sent)
    {
      var meta := NextMeta(Fields(), 0);
      followup := true;
      ok := Send(meta, None);
    }

    method WriteSlices(mb: Multi) returns (ok: bool)
      requires ValidState(Fields()) && Bounded(mb) && SlicesBounded(Slices(packet, mb))
      modifies this, link
      ensures ValidState(Fields())
      ensures var o := SendSlices(parser, old(Fields()), Slices(packet, mb));
              && Fields() == o.state && ok == o.ok && AllWired(parser, o.sent)
              && link.written == old(link.written) + Wires(parser, o.sent)
    {
      var rest := mb;
      ghost var sent: seq<Message> := [];
      ghost var slices := Slices(packet, mb);
      ghost var total := SendSlices(parser, Fields(), slices);
      while !IsEmpty(rest)
        invariant Bounded(rest) && slices == Slices(packet, rest)
        invariant Sending(parser, Fields(), slices, total, sent, old(link.written), link.written)
        decreases |Flat(rest)| + |rest|
      {
        var chunk;
        rest, chunk := CutSlice(rest);
        ghost var w, written := Fields(), link.written;
        ok := SendSlice(chunk, slices);
        if !ok { return; }
        ghost var m := Message(NextMeta(w, OPTION_DATA), Some(Flat(chunk)));
        SendingStep(parser, w, Fields(), slices, total, sent, m, old(link.written), written, link.written);
        slices, sent := slices[1..], sent + [m];
      }
      ok := true;
    }

    /** writeData. */
    method SendSlice(chunk: Multi, ghost slices: seq<Multi>) returns (ok: bool)
      requires ValidState(Fields()) && SlicesBounded(slices) && slices != [] && slices[0] == chunk
      modifies this, link
      ensures ValidState(Fields())
      ensures var m := Message(NextMeta(old(Fields()), OPTION_DATA), Some(Flat(chunk)));
              && (ok ==> ValidMessage(m) && Wire(parser, m).Ok?)
              && SendSlices(parser, old(Fields()), slices) ==
                 (if ok then Prepend([m], SendSlices(parser, Fields(), slices[1..])) else Outcome(Fields(), [], false))
              && link.written == (if ok then old(link.written) + [Wire(parser, m).value] else old(link.written))
    {
      SendOne(parser, Fields(), slices);
      var meta := NextMeta(Fields(), OPTION_DATA);
      followup := true;
      ok := Send(meta, Some(chunk));
    }

    method CutSlice(mb: Multi) returns (rest: Multi, chunk: Multi)
      requires !IsEmpty(mb) && Bounded(mb)
      ensures Slices(packet, mb) == [chunk] + Slices(packet, rest)
      ensures Bounded(rest) && |Flat(rest)| + |rest| < |Flat(mb)| + |mb|
    {
      SliceShrinks(mb);
      if packet {
        rest, chunk := mb[1..], [mb[0]];
      } else {
        SplitSizeConserves(mb, SLICE);
        SplitTakesContent(mb);
        var s := SplitSize(mb, SLICE);
        rest, chunk := s.rest, s.taken;
      }
    }

    /** Close ignores the outcome of its write. */
    method Close()
      requires ValidState(Fields())
      modifies link
      ensures link.written == old(link.written) + [Wire(parser, Message(EndMeta(Fields()), None)).value]
    {
      var _ := Send(EndMeta(Fields()), None);
    }
  }

  function Content(data: Option<Multi>): Option<bytes> {
    match data
    case None => None
    case Some(mb) => Some(Flat(mb))
  }

  // ----- where a write is cut -----

  /** Slices of a stream hold at most 8192 bytes, and each as many buffers as that allows. */
  ghost predicate Greedy(slices: seq<Multi>) {
    && (forall i {:trigger slices[i]} :: 0 <= i < |slices| ==> slices[i] != [] && |Flat(slices[i])| <= 8192)
    && (forall i {:trigger slices[i]} :: 0 <= i < |slices| - 1 ==> |Flat(slices[i])| + |slices[i + 1][0]| > 8192)
  }

  function Together(slices: seq<Multi>): Multi {
    if slices == [] then [] else slices[0] + Together(slices[1..])
  }

  /** On a stream the slices are greedy and, but for empty buffers at the end, together the write, buffer by buffer. */
  lemma {:induction false} StreamSlices(mb: Multi)
    requires Bounded(mb)
    ensures var slices := Slices(false, mb);
            && Greedy(slices) && Together(slices) <= mb && IsEmpty(mb[|Together(slices)|..])
            && (slices != [] ==> slices[0][0] == mb[0])
    decreases |Flat(mb)| + |mb|
  {
    if !IsEmpty(mb) {
      SplitSizeConserves(mb, SLICE);
      SplitTakesContent(mb);
      SplitSizeTakesMost(mb, SLICE);
      var s := SplitSize(mb, SLICE);
      assert s.taken != [];
      StreamSlices(s.rest);
      var more := Slices(false, s.rest);
      assert Slices(false, mb) == [s.taken] + more;
      GreedyOneMore(s.taken, more);
      TogetherOneMore(s.taken, more, s.rest);
    }
  }

  lemma GreedyOneMore(slice: Multi, more: seq<Multi>)
    requires Greedy(more) && slice != [] && |Flat(slice)| <= 8192
    requires more != [] ==> |Flat(slice)| + |more[0][0]| > 8192
    ensures Greedy([slice] + more)
  {
    var all := [slice] + more;
    forall i | 0 < i < |all|
      ensures all[i] == more[i - 1]
    {
    }
  }

  lemma TogetherOneMore(slice: Multi, more: seq<Multi>, rest: Multi)
    requires Together(more) <= rest
    ensures var all, mb := Together([slice] + more), slice + rest;
            all <= mb && mb[|all|..] == rest[|Together(more)|..]
  {
    assert ([slice] + more)[1..] == more;
  }

  /** On a packet link every buffer is a slice, up to the last one with content. */
  lemma {:induction false} PacketSlices(mb: Multi)
    ensures var slices := Slices(true, mb);
            && |slices| <= |mb| && IsEmpty(mb[|slices|..])
            && forall i {:trigger slices[i]} :: 0 <= i < |slices| ==> slices[i] == [mb[i]]
  {
    if !IsEmpty(mb) {
      SliceShrinks(mb);
      PacketSlices(mb[1..]);
      assert mb[|Slices(true, mb)|..] == mb[1..][|Slices(true, mb[1..])|..];
    }
  }

  /** The slices as the chunks of a chunk stream. */
  function ChunksOf(slices: seq<Multi>): bytes
    requires SlicesBounded(slices)
  {
    if slices == [] then [] else Sized(Some(Flat(slices[0]))) + ChunksOf(slices[1..])
  }

  /** ChunkStreamWriter cuts a write as the mux writer of a stream does. */
  lemma {:induction false} ChunksAreSlices(mb: Multi)
    requires Bounded(mb) && !IsEmpty(mb)
    ensures SlicesBounded(Slices(false, mb)) && ChunkBytes(mb) == ChunksOf(Slices(false, mb))
    decreases |Flat(mb)| + |mb|
  {
    SlicesFit(false, mb);
    SplitSizeConserves(mb, SLICE);
    SplitTakesContent(mb);
    var s := SplitSize(mb, SLICE);
    var more := Slices(false, s.rest);
    assert Slices(false, mb) == [s.taken] + more && ([s.taken] + more)[1..] == more;
    if IsEmpty(s.rest) {
      NothingMore(Sized(Some(Flat(s.taken))));
    } else {
      ChunksAreSlices(s.rest);
    }
  }

  // ----- the bytes on the link -----

  /** One write on the link, byte by byte: the frame, and for data its size in two bytes and the data itself. */
  lemma MessageBytes(parse: bytes -> Option<Addr>, m: Message)
    requires ValidMessage(m) && Wire(MuxParser(parse), m).Ok?
    ensures var w, n := Wire(MuxParser(parse), m).value, |Encode(MuxParser(parse), m.meta).value|;
            && n <= |w| && IsFrame(w[..n], m.meta)
            && match m.data
               case None => |w| == n
               case Some(d) => |w| == n + 2 + |d| && HighLow(w[n], w[n + 1]) == |d| && w[n + 2..] == d
  {
    FrameBytes(parse, m.meta);
    var w, head := Wire(MuxParser(parse), m).value, Encode(MuxParser(parse), m.meta).value;
    assert w[..|head|] == head && w[|head|..] == Sized(m.data);
    if m.data.Some? { assert w[|head| + 2..] == Sized(m.data)[2..]; }
  }

  predicate Reads(r: Result<bytes>, w: seq<int>) {
    r.Ok? && r.value == w
  }

  /** Two writes in full: the first frame of session 1 to TCP port 443 of the domain "a" with one byte of data, and the
      End frame of that session after an error. */
  lemma LinkExample(parse: bytes -> Option<Addr>)
    ensures var first := Message(Meta(Some(Destination(TCP, Domain([97]), 443)), 1, 1, 1), Some([120]));
            Reads(Wire(MuxParser(parse), first), [0, 10, 0, 1, 1, 1, 1, 1, 187, 2, 1, 97, 0, 1, 120])
    ensures Reads(Wire(MuxParser(parse), Message(EndMeta(State(1, None, false, true, true)), None)), [0, 4, 0, 1, 3, 2])
  {
    var p, t := MuxParser(parse), Destination(TCP, Domain([97]), 443);
    var meta, end := Meta(Some(t), 1, 1, 1), EndMeta(State(1, None, false, true, true));
    BodyIsBytes(parse, meta);
    assert TargetBytes(t) == [1, 1, 187, 2, 1, 97];
    assert Reads(Body(p, meta), [0, 1, 1, 1, 1, 1, 187, 2, 1, 97]);
    assert Reads(Encode(p, meta), [0, 10, 0, 1, 1, 1, 1, 1, 187, 2, 1, 97]);
    assert Reads(Body(p, end), [0, 1, 3, 2]) && Reads(Encode(p, end), [0, 4, 0, 1, 3, 2]);
  }
}
