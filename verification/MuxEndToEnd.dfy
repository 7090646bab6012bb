/** From the bytes given to the writers of a mux link to the bytes written to the session outputs. */
module MuxEndToEnd {
  import opened Bytes
  import opened Address
  import opened Buffer
  import opened MultiBuffer
  import opened Chunk
  import opened Frame
  import opened MuxWriter
  import opened MuxServer
  import opened MuxDelivery

  // ----- the messages of one writer -----

  /** A session on the client: its writes and, once closed, whether an error ended it. */
  datatype Client = Client(id: nat, dest: Destination, writes: seq<Multi>, closed: bool, failed: bool)

  function Start(c: Client): State {
    State(c.id, Some(c.dest), IsPacket(c.dest), false, false)
  }

  ghost predicate AllBounded(writes: seq<Multi>) {
    forall i {:trigger writes[i]} :: 0 <= i < |writes| ==> Bounded(writes[i]) && |writes[i]| < MAX_SLICE
  }

  function WriteAll(p: Parser, w: State, writes: seq<Multi>): Outcome
    requires ValidState(w) && AllBounded(writes)
    decreases |writes|
  {
    if writes == [] then Outcome(w, [], true)
    else
      var o := Write(p, w, writes[0]);
      StateStaysValid(p, w, writes[0]);
      if !o.ok then o else Prepend(o.sent, WriteAll(p, o.state, writes[1..]))
  }

  lemma {:induction false} SlicesKeepState(p: Parser, w: State, slices: seq<Multi>)
    requires ValidState(w) && SlicesBounded(slices)
    ensures ValidState(SendSlices(p, w, slices).state)
    decreases |slices|
  {
    if slices != [] {
      SlicesKeepState(p, w.(followup := true), slices[1..]);
    }
  }

  lemma StateStaysValid(p: Parser, w: State, mb: Multi)
    requires ValidState(w) && Bounded(mb)
    ensures ValidState(Write(p, w, mb).state)
  {
    if !IsEmpty(mb) {
      SlicesFit(w.packet, mb);
      SlicesKeepState(p, w, Slices(w.packet, mb));
    }
  }

  /** Everything the writer puts on the link. */
  function Messages(p: Parser, c: Client): seq<Message>
    requires ValidState(Start(c)) && AllBounded(c.writes)
  {
    var o := WriteAll(p, Start(c), c.writes);
    o.sent + if c.closed then [Message(EndMeta(Start(c).(hasError := c.failed)), None)] else []
  }

  function DataOf(ms: seq<Message>): bytes {
    if ms == [] then [] else DataOf(ms[..|ms| - 1]) + DataOfOne(ms[|ms| - 1])
  }

  lemma DataOfOneMore(ms: seq<Message>, m: Message)
    ensures DataOf(ms + [m]) == DataOf(ms) + DataOfOne(m)
  {
    assert (ms + [m])[..|ms|] == ms;
  }

  lemma {:induction false} DataOfConcat(a: seq<Message>, b: seq<Message>)
    ensures DataOf(a + b) == DataOf(a) + DataOf(b)
  {
    if b == [] {
      assert a + b == a;
    } else {
      var n := |b| - 1;
      DataOfConcat(a, b[..n]);
      assert b == b[..n] + [b[n]] && a + b == a + b[..n] + [b[n]];
      DataOfOneMore(a + b[..n], b[n]);
      DataOfOneMore(b[..n], b[n]);
      assert DataOf(a) + DataOf(b[..n]) + DataOfOne(b[n]) == DataOf(a) + (DataOf(b[..n]) + DataOfOne(b[n]));
    }
  }

  function FlatWrites(writes: seq<Multi>): bytes {
    if writes == [] then [] else Flat(writes[0]) + FlatWrites(writes[1..])
  }

  /** The k-th message of a writer: New (1) first unless a frame went before, then Keep (2), and the data option (1)
      exactly with data. */
  ghost predicate IsWriters(w: State, m: Message, k: nat) {
    && m.meta.target == w.dest && m.meta.id == w.id
    && m.meta.status == (if k == 0 && !w.followup then 1 else 2)
    && m.meta.option == (if m.data.Some? then 1 else 0)
    && (m.data.Some? ==> |m.data.value| <= if w.packet then 2048 else 8192)
  }

  ghost predicate AreWriters(w: State, ms: seq<Message>) {
    forall k {:trigger ms[k]} :: 0 <= k < |ms| ==> IsWriters(w, ms[k], k)
  }

  /** No buffer list is near the 64 Mi limit of writeMetaWithFrame. */
  ghost predicate Small(slices: seq<Multi>) {
    forall i {:trigger slices[i]} :: 0 <= i < |slices| ==> |slices[i]| < MAX_SLICE
  }

  /** The metadata of every frame of this writer can be encoded. */
  ghost predicate Encodes(p: Parser, w: State) {
    ValidState(w) && (!w.followup ==> WriteAddressPort(p, w.dest.value.address, w.dest.value.port).Ok?)
  }

  function FlatSlices(slices: seq<Multi>): bytes {
    if slices == [] then [] else Flat(slices[0]) + FlatSlices(slices[1..])
  }

  lemma {:induction false} SlicesCoverWrite(packet: bool, mb: Multi)
    requires Bounded(mb) && |mb| < MAX_SLICE
    ensures FlatSlices(Slices(packet, mb)) == Flat(mb) && Small(Slices(packet, mb))
    ensures !IsEmpty(mb) ==> Slices(packet, mb) != []
    decreases |Flat(mb)| + |mb|
  {
    if IsEmpty(mb) {
      IsEmptyIsFlat(mb);
    } else if packet {
      SliceShrinks(mb);
      SlicesCoverWrite(packet, mb[1..]);
      assert Flat([mb[0]]) == mb[0];
    } else {
      SplitSizeConserves(mb, SLICE);
      SplitTakesContent(mb);
      SlicesCoverWrite(packet, SplitSize(mb, SLICE).rest);
    }
  }

  lemma MetaEncodes(p: Parser, w: State, option: byte)
    requires Encodes(p, w)
    ensures Encode(p, NextMeta(w, option)).Ok?
  {
  }

  ghost predicate SlicesFitState(w: State, slices: seq<Multi>) {
    forall i {:trigger slices[i]} :: 0 <= i < |slices| ==> |Flat(slices[i])| <= if w.packet then SIZE else SLICE
  }

  lemma {:induction false} SentIsWriters(p: Parser, w: State, slices: seq<Multi>)
    requires ValidState(w) && SlicesBounded(slices) && Small(slices) && Encodes(p, w) && SlicesFitState(w, slices)
    ensures var o := SendSlices(p, w, slices);
            && o.ok && o.state == (if slices == [] then w else w.(followup := true))
            && |o.sent| == |slices| && AreWriters(w, o.sent) && DataOf(o.sent) == FlatSlices(slices)
    decreases |slices|
  {
    if slices != [] {
      var w' := w.(followup := true);
      var rest := slices[1..];
      SentIsWriters(p, w', rest);
      MetaEncodes(p, w, OPTION_DATA);
      SendOne(p, w, slices);
      FirstSlice(w, slices, SendSlices(p, w', rest).sent);
    }
  }

  lemma FirstSlice(w: State, slices: seq<Multi>, more: seq<Message>)
    requires ValidState(w) && slices != [] && SlicesFitState(w, slices) && AreWriters(w.(followup := true), more)
    ensures var m := Message(NextMeta(w, OPTION_DATA), Some(Flat(slices[0])));
            AreWriters(w, [m] + more) && DataOf([m] + more) == Flat(slices[0]) + DataOf(more)
  {
    var m := Message(NextMeta(w, OPTION_DATA), Some(Flat(slices[0])));
    WritersShift(w, m, more);
    DataOfConcat([m], more);
    assert [m][..0] == [];
  }

  lemma WritersShift(w: State, m: Message, ms: seq<Message>)
    requires IsWriters(w, m, 0) && AreWriters(w.(followup := true), ms)
    ensures AreWriters(w, [m] + ms)
  {
    forall k | 0 <= k < |[m] + ms|
      ensures IsWriters(w, ([m] + ms)[k], k)
    {
      if k > 0 { assert ([m] + ms)[k] == ms[k - 1]; }
    }
  }

  lemma WritersConcat(w: State, a: seq<Message>, b: seq<Message>)
    requires AreWriters(w, a) && AreWriters(w.(followup := true), b) && a != []
    ensures AreWriters(w, a + b)
  {
    forall k | 0 <= k < |a + b|
      ensures IsWriters(w, (a + b)[k], k)
    {
      if k >= |a| { assert (a + b)[k] == b[k - |a|]; }
    }
  }

  /** One write without error: messages of this writer that carry exactly its bytes. */
  ghost predicate Carries(w: State, o: Outcome, d: bytes) {
    o.ok && o.state == w.(followup := true) && o.sent != [] && AreWriters(w, o.sent) && DataOf(o.sent) == d
  }

  lemma MetaCarriesNothing(p: Parser, w: State, mb: Multi)
    requires ValidState(w) && IsEmpty(mb) && Encodes(p, w) && Bounded(mb)
    ensures Carries(w, Write(p, w, mb), [])
  {
    var m := Message(NextMeta(w, 0), None);
    MetaEncodes(p, w, 0);
    assert [m][..0] == [];
  }

  lemma WriteIsWriters(p: Parser, w: State, mb: Multi)
    requires ValidState(w) && Bounded(mb) && |mb| < MAX_SLICE && Encodes(p, w)
    ensures Carries(w, Write(p, w, mb), Flat(mb))
  {
    IsEmptyIsFlat(mb);
    if IsEmpty(mb) {
      MetaCarriesNothing(p, w, mb);
    } else {
      SlicesFit(w.packet, mb);
      SlicesCoverWrite(w.packet, mb);
      SentIsWriters(p, w, Slices(w.packet, mb));
    }
  }

  lemma {:induction false} WritesAreWriters(p: Parser, w: State, writes: seq<Multi>)
    requires ValidState(w) && Encodes(p, w)
    requires AllBounded(writes)
    ensures var o := WriteAll(p, w, writes);
            && o.ok && (writes != [] ==> o.sent != [])
            && AreWriters(w, o.sent) && DataOf(o.sent) == FlatWrites(writes)
    decreases |writes|
  {
    if writes != [] {
      var o := Write(p, w, writes[0]);
      var w' := w.(followup := true);
      WriteIsWriters(p, w, writes[0]);
      WritesAreWriters(p, w', writes[1..]);
      var more := WriteAll(p, w', writes[1..]);
      WritersConcat(w, o.sent, more.sent);
      DataOfConcat(o.sent, more.sent);
    }
  }

  // ----- the view of one session -----

  /** The messages of a session among the actions, in order. */
  function Received(actions: seq<Action>, id: nat): seq<Message> {
    if actions == [] then []
    else
      var n := |actions| - 1;
      Received(actions[..n], id) + if actions[n].Receive? && actions[n].m.meta.id == id then [actions[n].m] else []
  }

  /** A client whose frames the peer understands and accepts. */
  ghost predicate GoodClient(env: Env, c: Client) {
    && ValidState(Start(c))
    && c.dest.network != OtherNetwork && Portable(env.parser, c.dest.address) && env.accepts(c.dest)
    && AllBounded(c.writes)
  }

  /** An End frame (3), with the error option (2) after an error. */
  ghost predicate IsEnd(c: Client, m: Message) {
    m == Message(Meta(None, c.id, if c.failed then 2 else 0, 3), None)
  }

  /** Message k of the client: a write's, or the final End. */
  ghost predicate IsClients(c: Client, m: Message, k: nat, total: nat) {
    if c.closed && k == total - 1 then IsEnd(c, m) else IsWriters(Start(c), m, k)
  }

  /** The shape of all messages of a client, and how many there are. */
  ghost predicate AreClients(c: Client, all: seq<Message>) {
    && (forall k {:trigger all[k]} :: 0 <= k < |all| ==> IsClients(c, all[k], k, |all|))
    && (c.writes == [] ==> |all| == if c.closed then 1 else 0)
    && (c.writes != [] ==> |all| > if c.closed then 1 else 0)
  }

  lemma PortableEncodes(env: Env, c: Client)
    requires EnvOk(env) && GoodClient(env, c)
    ensures Encodes(env.parser, Start(c))
  {
    assert Mapped(env.parser, FamilyOf(c.dest.address));
  }

  lemma MessagesAreClients(env: Env, c: Client)
    requires EnvOk(env) && GoodClient(env, c)
    ensures var all := Messages(env.parser, c);
            AreClients(c, all) && DataOf(all) == FlatWrites(c.writes)
  {
    PortableEncodes(env, c);
    WritesAreWriters(env.parser, Start(c), c.writes);
    var o := WriteAll(env.parser, Start(c), c.writes);
    var all := Messages(env.parser, c);
    DataOfConcat(o.sent, all[|o.sent|..]);
    assert all == o.sent + all[|o.sent|..];
    if c.closed {
      assert all[|o.sent|..] == [all[|o.sent|]];
      assert [all[|o.sent|]][..0] == [];
    }
  }

  // ----- the client's writer at work -----

  /** sent is on the link, and the writes still to come complete it to the whole of the client's writes. */
  ghost predicate Halfway(p: Parser, c: Client, w: State, i: nat, sent: seq<Message>, before: seq<bytes>,
                          written: seq<bytes>)
    requires ValidState(Start(c)) && AllBounded(c.writes)
  {
    && i <= |c.writes| && ValidState(w) && w.id == c.id && AllWired(p, sent)
    && written == before + Wires(p, sent)
    && Prepend(sent, WriteAll(p, w, c.writes[i..])) == WriteAll(p, Start(c), c.writes)
  }

  lemma OneWrite(p: Parser, c: Client, w: State, i: nat, sent: seq<Message>, before: seq<bytes>, written: seq<bytes>,
                 written': seq<bytes>)
    requires ValidState(Start(c)) && AllBounded(c.writes) && WriteAll(p, Start(c), c.writes).ok
    requires i < |c.writes| && Halfway(p, c, w, i, sent, before, written)
    requires var o := Write(p, w, c.writes[i]); AllWired(p, o.sent) && written' == written + Wires(p, o.sent)
    ensures var o := Write(p, w, c.writes[i]);
            o.ok && Halfway(p, c, o.state, i + 1, sent + o.sent, before, written')
  {
    var o := Write(p, w, c.writes[i]);
    StateStaysValid(p, w, c.writes[i]);
    WriteKeepsId(p, w, c.writes[i]);
    assert c.writes[i..][1..] == c.writes[i + 1..];
    PrependTwice(sent, o.sent, WriteAll(p, o.state, c.writes[i + 1..]));
    WiresConcat(p, sent, o.sent, before);
  }

  lemma WiresConcat(p: Parser, a: seq<Message>, b: seq<Message>, before: seq<bytes>)
    requires AllWired(p, a) && AllWired(p, b)
    ensures AllWired(p, a + b) && before + Wires(p, a + b) == before + Wires(p, a) + Wires(p, b)
  {
    assert Wires(p, a + b) == Wires(p, a) + Wires(p, b);
  }

  lemma LastMessage(p: Parser, c: Client, w: State, sent: seq<Message>, before: seq<bytes>, written: seq<bytes>)
    requires ValidState(Start(c)) && AllBounded(c.writes) && WriteAll(p, Start(c), c.writes).ok && c.closed
    requires Halfway(p, c, w, |c.writes|, sent, before, written)
    ensures var end := Message(EndMeta(w.(hasError := c.failed)), None);
            && AllWired(p, Messages(p, c))
            && written + [Wire(p, end).value] == before + Wires(p, Messages(p, c))
  {
    var end := Message(EndMeta(w.(hasError := c.failed)), None);
    assert c.writes[|c.writes|..] == [];
    NothingMore(sent);
    assert Messages(p, c) == sent + [end];
    assert AllWired(p, [end]) && Wires(p, [end]) == [Wire(p, end).value];
    WiresConcat(p, sent, [end], before);
  }

  lemma WriteKeepsId(p: Parser, w: State, mb: Multi)
    requires ValidState(w) && Bounded(mb)
    ensures Write(p, w, mb).state.id == w.id
  {
    if !IsEmpty(mb) {
      SlicesFit(w.packet, mb);
      SendKeepsId(p, w, Slices(w.packet, mb));
    }
  }

  lemma {:induction false} SendKeepsId(p: Parser, w: State, slices: seq<Multi>)
    requires ValidState(w) && SlicesBounded(slices)
    ensures SendSlices(p, w, slices).state.id == w.id
    decreases |slices|
  {
    if slices != [] { SendKeepsId(p, w.(followup := true), slices[1..]); }
  }

  /** A client's session as its writer runs it: all writes, then Close, which says whether an error ended them. The
      link gets exactly the messages of the client. */
  method RunClient(env: Env, c: Client, link: Link)
    requires EnvOk(env) && GoodClient(env, c) && c.closed
    modifies link
    ensures AllWired(env.parser, Messages(env.parser, c))
    ensures link.written == old(link.written) + Wires(env.parser, Messages(env.parser, c))
  {
    PortableEncodes(env, c);
    WritesAreWriters(env.parser, Start(c), c.writes);
    var w := new Writer(env.parser, c.id, Some(c.dest), link, IsPacket(c.dest));
    ghost var sent: seq<Message> := [];
    for i := 0 to |c.writes|
      invariant w.parser == env.parser && w.link == link
      invariant Halfway(env.parser, c, w.Fields(), i, sent, old(link.written), link.written)
    {
      ghost var o := Write(env.parser, w.Fields(), c.writes[i]);
      ghost var fields, written := w.Fields(), link.written;
      var _ := w.WriteMultiBuffer(c.writes[i]);
      OneWrite(env.parser, c, fields, i, sent, old(link.written), written, link.written);
      sent := sent + o.sent;
    }
    LastMessage(env.parser, c, w.Fields(), sent, old(link.written), link.written);
    w.hasError := c.failed;
    w.Close();
  }

  function HasDone(actions: seq<Action>, id: nat): bool {
    actions != [] && (HasDone(actions[..|actions| - 1], id) || actions[|actions| - 1] == Done(id))
  }

  function EndingOf(c: Client, complete: bool): Ending {
    if !c.closed || !complete then Open else if c.failed then Interrupted else Closed
  }

  /** What a session has received of its client's messages ms, total in all. Without a Done it is all their
      data; with one, a prefix. */
  ghost predicate Delivered(c: Client, v: View, ms: seq<Message>, total: nat, done: bool) {
    if ms == [] || c.writes == [] then v == View([], false)
    else
      && |v.pipes| == 1
      && var p := v.pipes[0];
      && p.id == c.id && p.dest == c.dest
      && p.data <= DataOf(ms)
      && (v.live <==> p.ending == Open)
      && (v.live ==> p.data == DataOf(ms))
      && (!done ==> p.data == DataOf(ms) && p.ending == EndingOf(c, |ms| == total))
      && (c.closed && |ms| == total ==> !v.live)
  }

  lemma FirstMessage(c: Client, m: Message, total: nat, done: bool)
    requires IsClients(c, m, 0, total) && (c.writes == [] ==> total == if c.closed then 1 else 0)
    requires c.writes != [] ==> total > if c.closed then 1 else 0
    requires total > 0
    ensures Targeted(Receive(m)) && Delivered(c, See(View([], false), c.id, Receive(m)), [m], total, done)
  {
    DataOfOneMore([], m);
    assert [] + [m] == [m] && [] + DataOfOne(m) == DataOfOne(m);
  }

  lemma NextMessage(c: Client, v: View, ms: seq<Message>, m: Message, total: nat, done: bool)
    requires Delivered(c, v, ms, total, done) && 0 < |ms| < total && IsClients(c, m, |ms|, total) && c.writes != []
    ensures Targeted(Receive(m)) && Delivered(c, See(v, c.id, Receive(m)), ms + [m], total, done)
  {
    DataOfOneMore(ms, m);
    assert DataOf(ms) <= DataOf(ms + [m]);
    var p := v.pipes[0];
    assert v.pipes == [p] && v.pipes[..0] == [];
    assert WithLast(v.pipes, p.(data := p.data + DataOfOne(m))) == [p.(data := p.data + DataOfOne(m))];
  }

  lemma DoneAtServer(c: Client, v: View, ms: seq<Message>, total: nat, done: bool)
    requires Delivered(c, v, ms, total, done)
    ensures v.live ==> v.pipes != []
    ensures Delivered(c, Shut(v, Closed), ms, total, true)
  {
    if ms != [] && c.writes != [] {
      var p := v.pipes[0];
      assert v.pipes[..0] == [];
    }
  }

  lemma MessageArrives(c: Client, all: seq<Message>, v: View, ms: seq<Message>, m: Message, done: bool)
    requires AreClients(c, all) && ms + [m] <= all && Delivered(c, v, ms, |all|, done)
    ensures Targeted(Receive(m)) && Delivered(c, See(v, c.id, Receive(m)), ms + [m], |all|, done)
  {
    assert m == all[|ms|];
    if ms == [] {
      FirstMessage(c, m, |all|, done);
      assert ms + [m] == [m];
    } else {
      assert c.writes != [];
      NextMessage(c, v, ms, m, |all|, done);
    }
  }

  lemma {:induction false} ViewDelivers(c: Client, all: seq<Message>, actions: seq<Action>)
    requires AreClients(c, all) && Received(actions, c.id) <= all
    requires forall i {:trigger actions[i]} :: 0 <= i < |actions| ==> Targeted(actions[i])
    ensures Delivered(c, SeeAll(View([], false), c.id, actions), Received(actions, c.id), |all|, HasDone(actions, c.id))
  {
    if actions != [] {
      var n := |actions| - 1;
      var before, a := actions[..n], actions[n];
      assert Targeted(a);
      ViewDelivers(c, all, before);
      var v, ms := SeeAll(View([], false), c.id, before), Received(before, c.id);
      var done := HasDone(before, c.id);
      assert ms + [] == ms;
      if ActionId(a) == c.id {
        match a
        case Done(_) => DoneAtServer(c, v, ms, |all|, done);
        case Receive(m) =>
          MessageArrives(c, all, v, ms, m, done);
      }
    }
  }

  // ----- the main theorem -----

  const EMPTY: Server := Server(map[], 0, [], [])

  ghost predicate Distinct(clients: seq<Client>) {
    forall i, j {:trigger clients[i], clients[j]} :: 0 <= i < j < |clients| ==> clients[i].id != clients[j].id
  }

  /** The clients are good and the link carries an interleaving of their frames: every frame is one of theirs, and each
      client's frames appear in its own order, up to any point. */
  ghost predicate Interleaving(env: Env, clients: seq<Client>, actions: seq<Action>)
  {
    && (forall i {:trigger actions[i]} :: 0 <= i < |actions| && actions[i].Receive? ==>
          exists j {:trigger clients[j]} :: 0 <= j < |clients| && clients[j].id == actions[i].m.meta.id)
    && (forall j {:trigger clients[j]} :: 0 <= j < |clients| ==>
          GoodClient(env, clients[j]) && Received(actions, clients[j].id) <= Messages(env.parser, clients[j]))
  }

  function PacketIds(clients: seq<Client>): set<nat> {
    set j | 0 <= j < |clients| && IsPacket(clients[j].dest) :: clients[j].id
  }

  lemma {:induction false} ReceivedHas(actions: seq<Action>, i: nat)
    requires i < |actions| && actions[i].Receive?
    ensures actions[i].m in Received(actions, actions[i].m.meta.id)
  {
    var n := |actions| - 1;
    if i < n {
      ReceivedHas(actions[..n], i);
      assert actions[..n][i] == actions[i];
    }
  }

  lemma ClientConforms(env: Env, packets: set<nat>, c: Client, m: Message, k: nat, total: nat)
    requires EnvOk(env) && GoodClient(env, c) && IsClients(c, m, k, total)
    requires c.id in packets <==> IsPacket(c.dest)
    ensures Conforms(env, packets, m)
  {
    PortableEncodes(env, c);
  }

  lemma PacketIdsAreClients(clients: seq<Client>, j: nat)
    requires Distinct(clients) && j < |clients|
    ensures clients[j].id in PacketIds(clients) <==> IsPacket(clients[j].dest)
  {
  }

  lemma ReceivedIsOk(env: Env, packets: set<nat>, c: Client, ms: seq<Message>, m: Message)
    requires EnvOk(env) && GoodClient(env, c) && ms <= Messages(env.parser, c) && m in ms
    requires c.id in packets <==> IsPacket(c.dest)
    ensures Conforms(env, packets, m)
  {
    var all := Messages(env.parser, c);
    var k :| 0 <= k < |ms| && ms[k] == m;
    assert all[k] == m;
    MessagesAreClients(env, c);
    ClientConforms(env, packets, c, m, k, |all|);
  }

  lemma InterleavingIsOk(env: Env, clients: seq<Client>, actions: seq<Action>)
    requires EnvOk(env) && Distinct(clients)
    requires Interleaving(env, clients, actions)
    ensures AllOk(env, PacketIds(clients), actions)
  {
    forall i | 0 <= i < |actions| && actions[i].Receive?
      ensures Conforms(env, PacketIds(clients), actions[i].m)
    {
      var m := actions[i].m;
      var j :| 0 <= j < |clients| && clients[j].id == m.meta.id;
      PacketIdsAreClients(clients, j);
      ReceivedHas(actions, i);
      ReceivedIsOk(env, PacketIds(clients), clients[j], Received(actions, m.meta.id), m);
    }
  }

  /** Main result for the mux: clients with distinct ids share a link; their frames interleave in any order
      and the server's ends of sessions come at any time. Handling the link's bytes frame by frame uses up
      exactly those bytes, and each session's output was opened for its own client's target and holds
      exactly the data of the frames received from it, or a prefix if the server ended the session; nothing
      is added after its End. */
  lemma MuxDelivers(env: Env, clients: seq<Client>, actions: seq<Action>, tail: bytes)
    requires EnvOk(env) && Distinct(clients)
    requires Interleaving(env, clients, actions)
    ensures AllOk(env, PacketIds(clients), actions)
    ensures forall i :: 0 <= i < |actions| ==> ActionOk(env, PacketIds(clients), actions[i])
    ensures var final := Run(env, PacketIds(clients), EMPTY, actions);
            && Play(env, EMPTY, LinkBytes(env, actions) + tail, actions) == Step(final, tail, true)
            && forall j {:trigger clients[j]} :: 0 <= j < |clients| ==>
                 var c := clients[j];
                 Delivered(c, ViewOf(final, c.id), Received(actions, c.id), |Messages(env.parser, c)|,
                           HasDone(actions, c.id))
  {
    var packets := PacketIds(clients);
    InterleavingIsOk(env, clients, actions);
    PlayIsRun(env, packets, EMPTY, actions, tail);
    forall j | 0 <= j < |clients|
      ensures var c := clients[j];
              Delivered(c, ViewOf(Run(env, packets, EMPTY, actions), c.id), Received(actions, c.id),
                        |Messages(env.parser, c)|, HasDone(actions, c.id))
    {
      var c := clients[j];
      MessagesAreClients(env, c);
      Isolation(env, packets, EMPTY, actions, c.id);
      ViewDelivers(c, Messages(env.parser, c), actions);
    }
  }

  /** Once all frames of a client have arrived and its session was not ended by the server, the output holds
      everything the client wrote, and a closed client's output is closed. */
  lemma AllDelivered(env: Env, c: Client, v: View, ms: seq<Message>)
    requires EnvOk(env) && GoodClient(env, c) && ms == Messages(env.parser, c) && c.writes != []
    requires Delivered(c, v, ms, |ms|, false)
    ensures |v.pipes| == 1 && v.pipes[0].data == FlatWrites(c.writes)
    ensures v.pipes[0].ending == EndingOf(c, true)
  {
    MessagesAreClients(env, c);
  }
}
