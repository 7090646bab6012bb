/** common/mux/client.go, receiving side: fetchOutput, and what the responses of a server deliver. The handlers
    for KeepAlive, End and Keep frames are those of the server. */
module MuxClient {
  import opened Bytes
  import opened Address
  import opened MultiBuffer
  import opened Reader
  import opened Frame
  import opened MuxWriter
  import opened MuxServer
  import opened MuxDelivery
  import opened MuxEndToEnd

  /** One frame: a New frame only has its data discarded, and an error of a handler does not end the loop. */
  function FetchFrame(p: Parser, s: Server, input: bytes): Step
    requires forall id :: id in s.sessions ==> s.sessions[id] < |s.pipes|
  {
    var u := Unmarshal(p, input);
    if u.result.Err? then Step(s, u.rest, false) else FetchMeta(s, u.result.value, u.rest)
  }

  function FetchMeta(s: Server, f: Meta, input: bytes): Step
    requires forall id :: id in s.sessions ==> s.sessions[id] < |s.pipes|
  {
    if f.status == STATUS_KEEP_ALIVE || f.status == STATUS_NEW then Discarded(s, f.option, input).(alive := true)
    else if f.status == STATUS_END then HandleEnd(s, f, input).(alive := true)
    else if f.status == STATUS_KEEP then HandleKeep(s, f, input).(alive := true)
    else Step(s, input, false)
  }

  /** The client by the number of the status: 1 and 4 leave its sessions alone, 2 adds data to a session, 3 forgets it,
      and any other number ends the loop. */
  lemma FetchByStatus(s: Server, f: Meta, input: bytes)
    requires ValidServer(s)
    ensures var t, known := FetchMeta(s, f, input), f.id in s.sessions;
            && (t.alive <==> 1 <= f.status <= 4)
            && (f.status != 2 && f.status != 3 ==> t.server == s)
            && (f.status == 2 && HasData(f.option) && known ==>
                  var h := s.sessions[f.id];
                  var d := Payload(s.pipes[h].dest.network == UDP, input).data;
                  t.server == s.(pipes := s.pipes[h := s.pipes[h].(data := s.pipes[h].data + d)]))
            && (f.status == 3 ==> t.server.sessions == s.sessions - {f.id})
            && (f.status == 3 && known ==>
                  t.server.pipes[s.sessions[f.id]].ending == if HasError(f.option) then Interrupted else Closed)
  {
    if f.status == 3 && f.id !in s.sessions { assert s.sessions - {f.id} == s.sessions; }
  }

  /** The body of the loop of fetchOutput. */
  method FetchOne(w: ServerWorker, reader: BufferedReader) returns (alive: bool)
    requires w.Valid()
    modifies w, w.manager, reader
    ensures w.Valid()
    ensures FetchFrame(w.env.parser, old(w.State()), old(reader.Remaining())) ==
              Step(w.State(), reader.Remaining(), alive)
  {
    var u := UnmarshalFrom(w.env.parser, reader);
    if u.Err? { return false; }
    var f := u.value;
    if f.status == STATUS_KEEP_ALIVE {
      var _ := w.HandleStatusKeepAlive(f, reader);
    } else if f.status == STATUS_END {
      var _ := w.HandleStatusEnd(f, reader);
    } else if f.status == STATUS_NEW {
      var _ := w.Discard(f.option, reader);
    } else if f.status == STATUS_KEEP {
      var _ := w.HandleStatusKeep(f, reader);
    } else {
      return false;
    }
    return true;
  }

  /** Handles frames until the input ends or a frame cannot be read. */
  method FetchOutput(w: ServerWorker, reader: BufferedReader)
    requires w.Valid()
    modifies w, w.manager, reader
    ensures w.Valid()
    ensures FetchAll(w.env.parser, old(w.State()), old(reader.Remaining())) ==
              Step(w.State(), reader.Remaining(), false)
  {
    ghost var t := FetchAll(w.env.parser, w.State(), reader.Remaining());
    var alive := true;
    while alive
      invariant w.Valid()
      invariant alive ==> FetchAll(w.env.parser, w.State(), reader.Remaining()) == t
      invariant !alive ==> Step(w.State(), reader.Remaining(), false) == t
      decreases alive, |reader.Remaining()|
    {
      FetchConsumes(w.env.parser, w.State(), reader.Remaining());
      alive := FetchOne(w, reader);
    }
  }

  ghost function FetchAll(p: Parser, s: Server, input: bytes): (t: Step)
    requires ValidServer(s)
    ensures ValidServer(t.server)
    decreases |input|
  {
    var t := FetchFrame(p, s, input);
    FetchConsumes(p, s, input);
    if t.alive then FetchAll(p, t.server, t.rest) else t
  }

  lemma MetaConsumes(s: Server, f: Meta, input: bytes)
    requires ValidServer(s)
    ensures var t := FetchMeta(s, f, input); ValidServer(t.server) && |t.rest| <= |input|
  {
    DiscardConsumes(s, f.option, input);
    EndConsumes(s, f, input);
    KeepConsumes(s, f, input);
  }

  lemma UnmarshalConsumes(p: Parser, input: bytes)
    ensures var u := Unmarshal(p, input); u.result.Ok? ==> |u.rest| < |input|
  {
  }

  lemma FetchConsumes(p: Parser, s: Server, input: bytes)
    requires ValidServer(s)
    ensures var t := FetchFrame(p, s, input); ValidServer(t.server) && (t.alive ==> |t.rest| < |input|)
  {
    var u := Unmarshal(p, input);
    if u.result.Ok? {
      MetaConsumes(s, u.result.value, u.rest);
      UnmarshalConsumes(p, input);
    }
  }

  // ----- responses -----

  /** No frame opens a session: what a server's response writers send. */
  ghost predicate NoNew(actions: seq<Action>) {
    forall i {:trigger actions[i]} :: 0 <= i < |actions| && actions[i].Receive? ==>
      actions[i].m.meta.status != STATUS_NEW
  }

  /** On such frames the client does what a server would. */
  lemma FetchIsHandle(env: Env, packets: set<nat>, s: Server, m: Message, rest: bytes)
    requires EnvOk(env) && ValidServer(s) && Typed(packets, s) && Conforms(env, packets, m)
              && m.meta.status != STATUS_NEW
    ensures FetchFrame(env.parser, s, Wire(env.parser, m).value + rest) == Step(Apply(s, m), rest, true)
  {
    FrameIsApply(env, packets, s, m, rest);
    var head := Encode(env.parser, m.meta).value;
    var body := Sized(m.data) + rest;
    assert Wire(env.parser, m).value + rest == head + body;
    FrameRoundTrip(env.parser, m.meta, body);
  }

  /** The client on the bytes of the link, scheduled against sessions that end on its side. */
  ghost function Fetch(p: Parser, s: Server, input: bytes, actions: seq<Action>): (t: Step)
    requires ValidServer(s)
    ensures ValidServer(t.server)
  {
    if actions == [] then Step(s, input, true)
    else
      var n := |actions| - 1;
      var t := Fetch(p, s, input, actions[..n]);
      match actions[n]
      case Done(id) =>
        EndedIsValid(t.server, id, Closed);
        t.(server := Ended(t.server, id, Closed))
      case Receive(_) =>
        FetchConsumes(p, t.server, t.rest);
        if t.alive then FetchFrame(p, t.server, t.rest) else t
  }

  lemma {:induction false} FetchIsRun(env: Env, packets: set<nat>, s: Server, actions: seq<Action>, tail: bytes)
    requires EnvOk(env) && ValidServer(s) && Typed(packets, s) && AllOk(env, packets, actions) && NoNew(actions)
    ensures forall i :: 0 <= i < |actions| ==> ActionOk(env, packets, actions[i])
    ensures Fetch(env.parser, s, LinkBytes(env, actions) + tail, actions) ==
              Step(Run(env, packets, s, actions), tail, true)
    ensures Typed(packets, Run(env, packets, s, actions))
  {
    if actions == [] {
      assert [] + tail == tail;
    } else {
      var n := |actions| - 1;
      var before, a := actions[..n], actions[n];
      assert ActionOk(env, packets, a) && AllOk(env, packets, before);
      var w := match a case Receive(m) => Wire(env.parser, m).value case Done(_) => [];
      FetchIsRun(env, packets, s, before, w + tail);
      Associates(LinkBytes(env, before), w, tail);
      FetchOneMore(env, packets, Run(env, packets, s, before), a, tail);
    }
  }

  lemma FetchOneMore(env: Env, packets: set<nat>, r: Server, a: Action, tail: bytes)
    requires EnvOk(env) && ValidServer(r) && Typed(packets, r) && ActionOk(env, packets, a)
    requires a.Receive? ==> a.m.meta.status != STATUS_NEW
    ensures a.Receive? ==> FetchFrame(env.parser, r, Wire(env.parser, a.m).value + tail) == Step(Act(r, a), tail, true)
    ensures a.Done? ==> [] + tail == tail
    ensures Typed(packets, Act(r, a))
  {
    match a
    case Receive(m) =>
      FetchIsHandle(env, packets, r, m, tail);
      ApplyKeepsValid(env, packets, r, m);
    case Done(id) => EndedIsTyped(packets, r, id);
  }

  /** The response side of a session on the server: everything it writes, then its End. */
  datatype Response = Response(id: nat, packet: bool, writes: seq<Multi>, closed: bool, failed: bool)

  function StartOf(c: Response): State {
    State(c.id, None, c.packet, true, false)
  }

  ghost predicate GoodResponse(c: Response) {
    c.id < 65536 && AllBounded(c.writes)
  }

  function Responses(p: Parser, c: Response): seq<Message>
    requires GoodResponse(c)
  {
    WriteAll(p, StartOf(c), c.writes).sent + EndOf(c)
  }

  function EndOf(c: Response): seq<Message>
    requires GoodResponse(c)
  {
    if c.closed then [Message(EndMeta(StartOf(c).(hasError := c.failed)), None)] else []
  }

  ghost predicate IsResponse(c: Response, m: Message, k: nat, total: nat) {
    if c.closed && k == total - 1 then m == Message(Meta(None, c.id, if c.failed then 2 else 0, 3), None)
    else IsWriters(StartOf(c), m, k)
  }

  lemma ResponsesAre(p: Parser, c: Response)
    requires GoodResponse(c)
    ensures var all := Responses(p, c);
            && (forall k {:trigger all[k]} :: 0 <= k < |all| ==> IsResponse(c, all[k], k, |all|))
            && DataOf(all) == FlatWrites(c.writes)
  {
    WritesAreWriters(p, StartOf(c), c.writes);
    EndAppended(c, WriteAll(p, StartOf(c), c.writes).sent);
  }

  lemma EndAppended(c: Response, sent: seq<Message>)
    requires GoodResponse(c) && AreWriters(StartOf(c), sent)
    ensures var all := sent + EndOf(c);
            && (forall k {:trigger all[k]} :: 0 <= k < |all| ==> IsResponse(c, all[k], k, |all|))
            && DataOf(all) == DataOf(sent)
  {
    NothingMore(sent);
    if c.closed {
      DataOfOneMore(sent, EndOf(c)[0]);
      NothingMore(DataOf(sent));
    }
  }

  /** What a live session has received of the responses ms, total in all, since it held before. */
  ghost predicate Answered(c: Response, before: Pipe, v: View, ms: seq<Message>, total: nat, done: bool) {
    && v.pipes != []
    && var p := v.pipes[|v.pipes| - 1];
    && p.id == before.id && p.dest == before.dest
    && before.data <= p.data <= before.data + DataOf(ms)
    && (v.live <==> p.ending == Open)
    && (v.live ==> p.data == before.data + DataOf(ms))
    && (!done ==> p.data == before.data + DataOf(ms) && (v.live <==> !(c.closed && |ms| >= total)))
  }

  /** What a server sends for a session it no longer knows. */
  ghost predicate IsNotice(c: Response, m: Message) {
    m == Message(Meta(None, c.id, 0, 3), None)
  }

  /** The responses as far as they have come; and behind their End, any number of notices. */
  ghost predicate Follows(c: Response, all: seq<Message>, ms: seq<Message>) {
    ms <= all || (c.closed && all <= ms && forall k {:trigger ms[k]} :: |all| <= k < |ms| ==> IsNotice(c, ms[k]))
  }

  lemma FollowsBefore(c: Response, all: seq<Message>, ms: seq<Message>, m: Message)
    requires Follows(c, all, ms + [m])
    ensures Follows(c, all, ms)
    ensures if |ms| < |all| then m == all[|ms|] else c.closed && IsNotice(c, m)
  {
    var more := ms + [m];
    assert more[|ms|] == m;
    if !(more <= all) {
      assert forall k {:trigger ms[k]} :: |all| <= k < |ms| ==> more[k] == ms[k];
      if |ms| >= |all| { assert all == more[..|all|] == ms[..|all|]; }
    }
  }

  lemma NoticeArrives(c: Response, before: Pipe, v: View, ms: seq<Message>, m: Message, total: nat, done: bool)
    requires Answered(c, before, v, ms, total, done) && |ms| >= total && c.closed && IsNotice(c, m)
    ensures Targeted(Receive(m)) && Answered(c, before, See(v, c.id, Receive(m)), ms + [m], total, done)
  {
    DataOfOneMore(ms, m);
    NothingMore(DataOf(ms));
    assert See(v, c.id, Receive(m)) == Shut(v, Closed);
    ShutAfterEnd(c, before, v, ms, total, done);
    MoreNotices(c, before, Shut(v, Closed), ms, m, total, done);
  }

  lemma ShutAfterEnd(c: Response, before: Pipe, v: View, ms: seq<Message>, total: nat, done: bool)
    requires Answered(c, before, v, ms, total, done) && |ms| >= total && c.closed
    ensures Answered(c, before, Shut(v, Closed), ms, total, done)
  {
  }

  lemma MoreNotices(c: Response, before: Pipe, v: View, ms: seq<Message>, m: Message, total: nat, done: bool)
    requires Answered(c, before, v, ms, total, done) && |ms| >= total && DataOf(ms + [m]) == DataOf(ms)
    ensures Answered(c, before, v, ms + [m], total, done)
  {
  }

  lemma ResponseArrives(c: Response, before: Pipe, v: View, ms: seq<Message>, m: Message, total: nat, done: bool)
    requires Answered(c, before, v, ms, total, done) && |ms| < total && IsResponse(c, m, |ms|, total)
    ensures Targeted(Receive(m)) && Answered(c, before, See(v, c.id, Receive(m)), ms + [m], total, done)
  {
    DataOfOneMore(ms, m);
    Associates(before.data, DataOf(ms), DataOfOne(m));
  }

  lemma DoneAtClient(c: Response, before: Pipe, v: View, ms: seq<Message>, total: nat, done: bool)
    requires Answered(c, before, v, ms, total, done)
    ensures Answered(c, before, Shut(v, Closed), ms, total, true)
  {
  }

  /** The last action of a run, on what one session sees and receives. */
  lemma OneAction(v0: View, id: nat, actions: seq<Action>)
    requires actions != [] && (v0.live ==> v0.pipes != [])
    requires forall i {:trigger actions[i]} :: 0 <= i < |actions| ==> Targeted(actions[i])
    ensures var n := |actions| - 1;
            var a, v := actions[n], SeeAll(v0, id, actions[..n]);
            && Targeted(a)
            && SeeAll(v0, id, actions) == (if ActionId(a) == id then See(v, id, a) else v)
            && Received(actions, id) == Received(actions[..n], id) +
              (if a.Receive? && ActionId(a) == id then [a.m] else [])
            && (!(a.Receive? && ActionId(a) == id) ==> Received(actions, id) == Received(actions[..n], id))
            && HasDone(actions, id) == (HasDone(actions[..n], id) || a == Done(id))
  {
    var n := |actions| - 1;
    assert Targeted(actions[n]);
    NothingMore(Received(actions[..n], id));
  }

  /** Main result for responses: whatever other sessions receive in between, a session open on the client gets
      exactly the data of the responses that arrived for it, in order and nothing after their End, which notices of
      the server may follow; or a prefix, when the client ended it first. */
  lemma {:induction false} ResponsesDeliver(c: Response, all: seq<Message>, v0: View, actions: seq<Action>)
    requires forall k {:trigger all[k]} :: 0 <= k < |all| ==> IsResponse(c, all[k], k, |all|)
    requires Follows(c, all, Received(actions, c.id)) && v0.live && v0.pipes != []
              && v0.pipes[|v0.pipes| - 1].ending == Open
    requires forall i {:trigger actions[i]} :: 0 <= i < |actions| ==> Targeted(actions[i])
    requires c.closed ==> all != []
    ensures Answered(c, v0.pipes[|v0.pipes| - 1], SeeAll(v0, c.id, actions), Received(actions, c.id), |all|,
              HasDone(actions, c.id))
  {
    var before := v0.pipes[|v0.pipes| - 1];
    if actions == [] {
      NothingMore(before.data);
    } else {
      var n := |actions| - 1;
      var first, a := actions[..n], actions[n];
      assert Targeted(a);
      OneAction(v0, c.id, actions);
      if a.Receive? && ActionId(a) == c.id { FollowsBefore(c, all, Received(first, c.id), a.m); }
      ResponsesDeliver(c, all, v0, first);
      var v, ms := SeeAll(v0, c.id, first), Received(first, c.id);
      if ActionId(a) == c.id {
        match a
        case Done(_) => DoneAtClient(c, before, v, ms, |all|, HasDone(first, c.id));
        case Receive(m) =>
          if |ms| < |all| {
            ResponseArrives(c, before, v, ms, m, |all|, HasDone(first, c.id));
          } else {
            NoticeArrives(c, before, v, ms, m, |all|, HasDone(first, c.id));
          }
      }
    }
  }

  /** The same for the client as it runs: from any sound state in which the session is live, on the bytes of any
      interleaving of responses. */
  lemma FetchDelivers(env: Env, packets: set<nat>, s: Server, actions: seq<Action>, tail: bytes, c: Response)
    requires EnvOk(env) && ValidServer(s) && Current(s) && Typed(packets, s)
    requires AllOk(env, packets, actions) && NoNew(actions)
    requires GoodResponse(c) && c.id in s.sessions
    requires Follows(c, Responses(env.parser, c), Received(actions, c.id))
    ensures forall i :: 0 <= i < |actions| ==> ActionOk(env, packets, actions[i])
    ensures var t := Fetch(env.parser, s, LinkBytes(env, actions) + tail, actions);
            && t.rest == tail && t.alive
            && Answered(c, s.pipes[s.sessions[c.id]], ViewOf(t.server, c.id), Received(actions, c.id),
                        |Responses(env.parser, c)|, HasDone(actions, c.id))
  {
    FetchIsRun(env, packets, s, actions, tail);
    Isolation(env, packets, s, actions, c.id);
    OfIdLast(s.pipes, s.sessions[c.id], s.pipes[s.sessions[c.id]], c.id);
    ResponsesAre(env.parser, c);
    ResponsesDeliver(c, Responses(env.parser, c), ViewOf(s, c.id), actions);
  }
}
