/** What the peer of a mux link receives: any number of writers share the link, their frames interleave in
    any order, and each session output gets its own writer's bytes. */
module MuxDelivery {
  import opened Bytes
  import opened Address
  import opened Buffer
  import opened Chunk
  import opened Frame
  import opened MuxWriter
  import opened MuxServer

  // ----- frames as messages -----

  /** The step of one well-formed message on the table and the outputs. */
  function Apply(s: Server, m: Message): Server
    requires m.meta.status == STATUS_NEW ==> m.meta.target.Some?
    requires m.meta.id in s.sessions ==> s.sessions[m.meta.id] < |s.pipes|
  {
    var id := m.meta.id;
    if m.meta.status == STATUS_NEW then
      var added := Opened(s, id, m.meta.target.value);
      if m.data.Some? then Written(added, |s.pipes|, m.data.value) else added
    else if m.meta.status == STATUS_KEEP then
      if m.data.None? then s
      else if id in s.sessions then Written(s, s.sessions[id], m.data.value)
      else s.(notices := s.notices + [id])
    else if m.meta.status == STATUS_END then
      Ended(s, id, if HasError(m.meta.option) then Interrupted else Closed)
    else s
  }

  /** A message the peer can take: packets holds the ids of packet sessions. */
  ghost predicate Conforms(env: Env, packets: set<nat>, m: Message) {
    && ValidMessage(m)
    && Encode(env.parser, m.meta).Ok?
    && Travels(env.parser, m.meta)
    && STATUS_NEW <= m.meta.status <= STATUS_KEEP_ALIVE
    && (HasData(m.meta.option) <==> m.data.Some?)
    && (m.meta.status == STATUS_NEW ==>
          env.accepts(m.meta.target.value) && (IsPacket(m.meta.target.value) <==> m.meta.id in packets))
    && (m.meta.id in packets && m.data.Some? ==> |m.data.value| <= SIZE)
  }

  ghost predicate Typed(packets: set<nat>, s: Server) {
    forall h {:trigger s.pipes[h]} :: 0 <= h < |s.pipes| ==> (IsPacket(s.pipes[h].dest) <==> s.pipes[h].id in packets)
  }

  ghost predicate EnvOk(env: Env) {
    ParsesIPs(env.parser) && env.parser.portFirst && (forall g :: Mapped(env.parser, g))
  }

  lemma PayloadIsSized(packet: bool, d: bytes, rest: bytes)
    requires |d| < 65536 && (packet ==> |d| <= SIZE)
    ensures Payload(packet, Sized(Some(d)) + rest) == Drained(d, rest, true)
  {
    StreamPayloadIsChunk(d, rest);
    PacketPayloadIsChunk(d, rest);
  }

  lemma DiscardIsSized(s: Server, m: Message, rest: bytes)
    requires ValidMessage(m) && (HasData(m.meta.option) <==> m.data.Some?)
    ensures Discarded(s, m.meta.option, Sized(m.data) + rest) == Step(s, rest, true)
  {
    if m.data.Some? {
      StreamPayloadIsChunk(m.data.value, rest);
    } else {
      assert [] + rest == rest;
    }
  }

  /** One frame: the worker consumes exactly the bytes of the message and does what Apply says. */
  lemma FrameIsApply(env: Env, packets: set<nat>, s: Server, m: Message, rest: bytes)
    requires EnvOk(env) && ValidServer(s) && Typed(packets, s) && Conforms(env, packets, m)
    ensures HandleFrame(env, s, Wire(env.parser, m).value + rest) == Step(Apply(s, m), rest, true)
  {
    var head := Encode(env.parser, m.meta).value;
    var body := Sized(m.data) + rest;
    assert Wire(env.parser, m).value + rest == head + body;
    FrameRoundTrip(env.parser, m.meta, body);
    MetaIsApply(env, packets, s, m, Sent(m.meta), rest);
  }

  lemma MetaIsApply(env: Env, packets: set<nat>, s: Server, m: Message, f: Meta, rest: bytes)
    requires ValidServer(s) && Typed(packets, s) && Conforms(env, packets, m) && f == Sent(m.meta)
    ensures HandleMeta(env, s, f, Sized(m.data) + rest) == Step(Apply(s, m), rest, true)
  {
    if f.status == STATUS_NEW {
      NewIsApply(env, packets, s, m, rest);
    } else if f.status == STATUS_KEEP {
      KeepIsApply(packets, s, m, f, rest);
    } else {
      DiscardIsSized(Apply(s, m), m, rest);
    }
  }

  lemma NewIsApply(env: Env, packets: set<nat>, s: Server, m: Message, rest: bytes)
    requires Conforms(env, packets, m) && m.meta.status == STATUS_NEW
    requires ValidServer(s)
    ensures HandleNew(env, s, m.meta, Sized(m.data) + rest) == Step(Apply(s, m), rest, true)
  {
    if m.data.Some? {
      PayloadIsSized(IsPacket(m.meta.target.value), m.data.value, rest);
    } else {
      assert [] + rest == rest;
    }
  }

  lemma KeepIsApply(packets: set<nat>, s: Server, m: Message, f: Meta, rest: bytes)
    requires ValidServer(s) && Typed(packets, s) && ValidMessage(m) && m.meta.status == STATUS_KEEP
    requires (HasData(m.meta.option) <==> m.data.Some?)
              && (m.meta.id in packets && m.data.Some? ==> |m.data.value| <= SIZE)
    requires f == m.meta.(target := None)
    ensures HandleKeep(s, f, Sized(m.data) + rest) == Step(Apply(s, m), rest, true)
  {
    if m.data.None? {
      assert [] + rest == rest;
    } else if f.id in s.sessions {
      PayloadIsSized(IsPacket(s.pipes[s.sessions[f.id]].dest), m.data.value, rest);
    } else {
      DiscardIsSized(s.(notices := s.notices + [f.id]), m, rest);
    }
  }

  lemma ApplyKeepsValid(env: Env, packets: set<nat>, s: Server, m: Message)
    requires ValidServer(s) && Conforms(env, packets, m)
    ensures ValidServer(Apply(s, m))
    ensures Typed(packets, s) ==> Typed(packets, Apply(s, m))
  {
    if m.meta.status == STATUS_NEW {
      OpenedIsValid(s, m.meta.id, m.meta.target.value);
    }
  }

  // ----- runs -----

  /** Receive: the worker handles the next frame. Done: the response side of the session with this id ends
      and closes it (handle in server.go), at any moment. */
  datatype Action = Receive(m: Message) | Done(id: nat)

  function ActionId(a: Action): nat {
    match a
    case Receive(m) => m.meta.id
    case Done(id) => id
  }

  ghost predicate ActionOk(env: Env, packets: set<nat>, a: Action) {
    a.Receive? ==> Conforms(env, packets, a.m)
  }

  ghost predicate AllOk(env: Env, packets: set<nat>, actions: seq<Action>) {
    forall i {:trigger actions[i]} :: 0 <= i < |actions| ==> ActionOk(env, packets, actions[i])
  }

  function Act(s: Server, a: Action): Server
    requires a.Receive? && a.m.meta.status == STATUS_NEW ==> a.m.meta.target.Some?
    requires ActionId(a) in s.sessions ==> s.sessions[ActionId(a)] < |s.pipes|
  {
    match a
    case Receive(m) => Apply(s, m)
    case Done(id) => Ended(s, id, Closed)
  }

  /** The worker on the bytes of the link, scheduled against the ends of its sessions: a Receive only says
      that a frame is handled now. */
  ghost function Play(env: Env, s: Server, input: bytes, actions: seq<Action>): Step
    requires ValidServer(s)
    ensures ValidServer(Play(env, s, input, actions).server)
  {
    if actions == [] then Step(s, input, true)
    else
      var n := |actions| - 1;
      var t := Play(env, s, input, actions[..n]);
      match actions[n]
      case Done(id) => t.(server := Ended(t.server, id, Closed))
      case Receive(_) =>
        if !t.alive then t
        else
          FrameKeepsValid(env, t.server, t.rest);
          HandleFrame(env, t.server, t.rest)
  }

  function LinkBytes(env: Env, actions: seq<Action>): bytes
    requires forall i :: 0 <= i < |actions| ==> actions[i].Receive? ==>
              ValidMessage(actions[i].m) && Wire(env.parser, actions[i].m).Ok?
  {
    if actions == [] then []
    else
      var n := |actions| - 1;
      LinkBytes(env, actions[..n]) + match actions[n] case Receive(m) => Wire(env.parser, m).value case Done(_) => []
  }

  ghost function Run(env: Env, packets: set<nat>, s: Server, actions: seq<Action>): (r: Server)
    requires AllOk(env, packets, actions) && ValidServer(s)
    ensures ValidServer(r)
  {
    if actions == [] then s
    else
      var n := |actions| - 1;
      assert ActionOk(env, packets, actions[n]);
      assert AllOk(env, packets, actions[..n]);
      var r := Run(env, packets, s, actions[..n]);
      Act(r, actions[n])
  }

  /** Bytes and messages agree: handling the link's bytes frame by frame, with sessions ending in between,
      is handling the messages, and nothing of what follows is touched. */
  lemma {:induction false} PlayIsRun(env: Env, packets: set<nat>, s: Server, actions: seq<Action>, tail: bytes)
    requires EnvOk(env) && ValidServer(s) && Typed(packets, s) && AllOk(env, packets, actions)
    ensures forall i :: 0 <= i < |actions| ==> ActionOk(env, packets, actions[i])
    ensures Play(env, s, LinkBytes(env, actions) + tail, actions) == Step(Run(env, packets, s, actions), tail, true)
    ensures Typed(packets, Run(env, packets, s, actions))
  {
    if actions == [] {
      assert [] + tail == tail;
    } else {
      var n := |actions| - 1;
      var before, a := actions[..n], actions[n];
      assert ActionOk(env, packets, a) && AllOk(env, packets, before);
      var w := match a case Receive(m) => Wire(env.parser, m).value case Done(_) => [];
      PlayIsRun(env, packets, s, before, w + tail);
      assert LinkBytes(env, actions) + tail == LinkBytes(env, before) + (w + tail);
      var r := Run(env, packets, s, before);
      PlayOne(env, packets, r, a, tail);
    }
  }

  lemma PlayOne(env: Env, packets: set<nat>, r: Server, a: Action, tail: bytes)
    requires EnvOk(env) && ValidServer(r) && Typed(packets, r) && ActionOk(env, packets, a)
    ensures a.Receive? ==> HandleFrame(env, r, Wire(env.parser, a.m).value + tail) == Step(Act(r, a), tail, true)
    ensures a.Done? ==> [] + tail == tail
    ensures Typed(packets, Act(r, a))
  {
    match a
    case Receive(m) =>
      FrameIsApply(env, packets, r, m, tail);
      ApplyKeepsValid(env, packets, r, m);
    case Done(id) => EndedIsTyped(packets, r, id);
  }

  lemma EndedIsTyped(packets: set<nat>, s: Server, id: nat)
    requires ValidServer(s) && Typed(packets, s)
    ensures Typed(packets, Ended(s, id, Closed))
  {
  }

  // ----- what one session sees -----

  /** The outputs ever opened under one id, and whether the last of them is in the table. */
  datatype View = View(pipes: seq<Pipe>, live: bool)

  function OfId(pipes: seq<Pipe>, id: nat): seq<Pipe> {
    if pipes == [] then []
    else
      var n := |pipes| - 1;
      OfId(pipes[..n], id) + if pipes[n].id == id then [pipes[n]] else []
  }

  function ViewOf(s: Server, id: nat): View {
    View(OfId(s.pipes, id), id in s.sessions)
  }

  /** The table points at the output opened last under each id. */
  ghost predicate Current(s: Server) {
    forall id, h {:trigger id in s.sessions, s.pipes[h]} ::
      id in s.sessions && s.sessions[id] < h < |s.pipes| ==> s.pipes[h].id != id
  }

  lemma {:induction false} OfIdOther(pipes: seq<Pipe>, h: nat, p: Pipe, id: nat)
    requires h < |pipes| && p.id == pipes[h].id != id
    ensures OfId(pipes[h := p], id) == OfId(pipes, id)
  {
    var n := |pipes| - 1;
    if h == n {
      assert pipes[h := p][..n] == pipes[..n];
    } else {
      assert pipes[h := p][..n] == pipes[..n][h := p];
      OfIdOther(pipes[..n], h, p, id);
    }
  }

  function WithLast(ps: seq<Pipe>, p: Pipe): seq<Pipe>
    requires ps != []
  {
    ps[..|ps| - 1] + [p]
  }

  lemma {:induction false} OfIdLast(pipes: seq<Pipe>, h: nat, p: Pipe, id: nat)
    requires h < |pipes| && p.id == pipes[h].id == id
    requires forall j :: h < j < |pipes| ==> pipes[j].id != id
    ensures OfId(pipes, id) != [] && OfId(pipes, id)[|OfId(pipes, id)| - 1] == pipes[h]
    ensures OfId(pipes[h := p], id) == WithLast(OfId(pipes, id), p)
  {
    var n := |pipes| - 1;
    if h == n {
      assert pipes[h := p][..n] == pipes[..n];
    } else {
      assert pipes[h := p][..n] == pipes[..n][h := p];
      OfIdLast(pipes[..n], h, p, id);
    }
  }

  /** An action of a session, on its view alone. */
  function See(v: View, id: nat, a: Action): View
    requires a.Receive? && a.m.meta.status == STATUS_NEW ==> a.m.meta.target.Some?
    requires v.live ==> v.pipes != []
  {
    match a
    case Done(_) => Shut(v, Closed)
    case Receive(m) =>
      if m.meta.status == STATUS_NEW then
        View(v.pipes + [Pipe(id, m.meta.target.value, DataOfOne(m), Open)], true)
      else if m.meta.status == STATUS_KEEP then
        if !v.live then v
        else
          var last := v.pipes[|v.pipes| - 1];
          v.(pipes := WithLast(v.pipes, last.(data := last.data + DataOfOne(m))))
      else if m.meta.status == STATUS_END then Shut(v, if HasError(m.meta.option) then Interrupted else Closed)
      else v
  }

  function Shut(v: View, ending: Ending): View
    requires v.live ==> v.pipes != []
  {
    if !v.live then v else View(WithLast(v.pipes, v.pipes[|v.pipes| - 1].(ending := ending)), false)
  }

  function DataOfOne(m: Message): bytes {
    match m.data
    case None => []
    case Some(d) => d
  }

  lemma WrittenView(s: Server, h: nat, d: bytes, id: nat)
    requires ValidServer(s) && Current(s) && h < |s.pipes| && s.pipes[h].id in s.sessions
              && s.sessions[s.pipes[h].id] == h
    ensures Current(Written(s, h, d))
    ensures var v := ViewOf(s, id);
            ViewOf(Written(s, h, d), id) ==
              if s.pipes[h].id != id then v
              else
                assert v.pipes != [] by { OfIdLast(s.pipes, h, s.pipes[h], id); }
                v.(pipes := WithLast(v.pipes, v.pipes[|v.pipes| - 1].(data := v.pipes[|v.pipes| - 1].data + d)))
  {
    var p := s.pipes[h].(data := s.pipes[h].data + d);
    if s.pipes[h].id == id { OfIdLast(s.pipes, h, p, id); } else { OfIdOther(s.pipes, h, p, id); }
  }

  lemma LiveHasPipe(s: Server, id: nat)
    requires ValidServer(s) && Current(s)
    ensures ViewOf(s, id).live ==> ViewOf(s, id).pipes != []
  {
    if id in s.sessions { OfIdLast(s.pipes, s.sessions[id], s.pipes[s.sessions[id]], id); }
  }

  lemma EndedView(s: Server, x: nat, ending: Ending, id: nat)
    requires ValidServer(s) && Current(s)
    ensures Current(Ended(s, x, ending))
    ensures ViewOf(s, id).live ==> ViewOf(s, id).pipes != []
    ensures ViewOf(Ended(s, x, ending), id) == if x == id then Shut(ViewOf(s, id), ending) else ViewOf(s, id)
  {
    LiveHasPipe(s, id);
    if x in s.sessions {
      if x == id { EndedSelf(s, id, ending); } else { OfIdOther(s.pipes, s.sessions[x], EndedPipe(s, x, ending), id); }
    }
  }

  function EndedPipe(s: Server, x: nat, ending: Ending): Pipe
    requires x in s.sessions && s.sessions[x] < |s.pipes|
  {
    s.pipes[s.sessions[x]].(ending := ending)
  }

  lemma EndedSelf(s: Server, id: nat, ending: Ending)
    requires ValidServer(s) && Current(s) && id in s.sessions
    ensures ViewOf(s, id).live && ViewOf(s, id).pipes != []
    ensures ViewOf(Ended(s, id, ending), id) == Shut(ViewOf(s, id), ending)
  {
    LiveHasPipe(s, id);
    OfIdLast(s.pipes, s.sessions[id], EndedPipe(s, id, ending), id);
    OfIdLast(s.pipes, s.sessions[id], s.pipes[s.sessions[id]], id);
  }

  lemma OpenedView(s: Server, x: nat, dest: Destination, id: nat)
    requires ValidServer(s) && Current(s)
    ensures Current(Opened(s, x, dest))
    ensures ViewOf(Opened(s, x, dest), id) ==
              if x == id then View(ViewOf(s, id).pipes + [Pipe(id, dest, [], Open)], true) else ViewOf(s, id)
  {
    var pipes := Opened(s, x, dest).pipes;
    assert pipes[..|s.pipes|] == s.pipes;
  }

  ghost predicate Targeted(a: Action) {
    a.Receive? && a.m.meta.status == STATUS_NEW ==> a.m.meta.target.Some?
  }

  lemma FirstData(ps: seq<Pipe>, p: Pipe, d: bytes)
    requires p.data == []
    ensures WithLast(ps + [p], p.(data := (ps + [p])[|ps + [p]| - 1].data + d)) == ps + [p.(data := d)]
  {
    assert (ps + [p])[..|ps|] == ps && [] + d == d;
  }

  lemma NewView(s: Server, m: Message, id: nat)
    requires ValidServer(s) && Current(s) && Targeted(Receive(m)) && m.meta.status == STATUS_NEW
    ensures Current(Apply(s, m)) && (ViewOf(s, id).live ==> ViewOf(s, id).pipes != [])
    ensures ViewOf(Apply(s, m), id) == if m.meta.id == id then See(ViewOf(s, id), id, Receive(m)) else ViewOf(s, id)
  {
    LiveHasPipe(s, id);
    var dest := m.meta.target.value;
    var added := Opened(s, m.meta.id, dest);
    OpenedView(s, m.meta.id, dest, id);
    if m.data.Some? {
      OpenedIsValid(s, m.meta.id, dest);
      WrittenView(added, |s.pipes|, m.data.value, id);
      FirstData(ViewOf(s, id).pipes, Pipe(id, dest, [], Open), m.data.value);
    }
  }

  /** One action changes the view of its own session, in a way that depends on that view alone, and no other. */
  lemma ActView(s: Server, a: Action, id: nat)
    requires ValidServer(s) && Current(s) && Targeted(a)
    ensures Current(Act(s, a)) && (ViewOf(s, id).live ==> ViewOf(s, id).pipes != [])
    ensures ViewOf(Act(s, a), id) == if ActionId(a) == id then See(ViewOf(s, id), id, a) else ViewOf(s, id)
  {
    LiveHasPipe(s, id);
    match a
    case Done(x) => EndedView(s, x, Closed, id);
    case Receive(m) =>
      var x := m.meta.id;
      if m.meta.status == STATUS_NEW {
        NewView(s, m, id);
      } else if m.meta.status == STATUS_KEEP {
        if m.data.Some? && x in s.sessions { WrittenView(s, s.sessions[x], m.data.value, id); }
        if x == id && m.data.None? { SeeNothing(ViewOf(s, id)); }
      } else if m.meta.status == STATUS_END {
        EndedView(s, x, if HasError(m.meta.option) then Interrupted else Closed, id);
      }
  }

  lemma SeeNothing(v: View)
    requires v.live ==> v.pipes != []
    ensures v.live ==> WithLast(v.pipes, v.pipes[|v.pipes| - 1].(data := v.pipes[|v.pipes| - 1].data + [])) == v.pipes
  {
    if v.live {
      var last := v.pipes[|v.pipes| - 1];
      assert last.data + [] == last.data;
    }
  }

  /** All actions of one session on its view; the others are skipped. */
  ghost function SeeAll(v: View, id: nat, actions: seq<Action>): (r: View)
    requires (v.live ==> v.pipes != []) && forall i {:trigger actions[i]} :: 0 <= i < |actions| ==> Targeted(actions[i])
    ensures r.live ==> r.pipes != []
  {
    if actions == [] then v
    else
      var n := |actions| - 1;
      var w := SeeAll(v, id, actions[..n]);
      assert Targeted(actions[n]);
      if ActionId(actions[n]) == id then See(w, id, actions[n]) else w
  }

  /** Session isolation: over any run, what the outputs of a session hold is decided by the actions of that
      session alone, whatever other sessions do in between. */
  lemma {:induction false} Isolation(env: Env, packets: set<nat>, s: Server, actions: seq<Action>, id: nat)
    requires ValidServer(s) && Current(s) && AllOk(env, packets, actions)
    ensures Current(Run(env, packets, s, actions))
    ensures forall i {:trigger actions[i]} :: 0 <= i < |actions| ==> Targeted(actions[i])
    ensures ViewOf(s, id).live ==> ViewOf(s, id).pipes != []
    ensures ViewOf(Run(env, packets, s, actions), id) == SeeAll(ViewOf(s, id), id, actions)
  {
    LiveHasPipe(s, id);
    forall i | 0 <= i < |actions|
      ensures Targeted(actions[i])
    {
      assert ActionOk(env, packets, actions[i]);
    }
    if actions != [] {
      var n := |actions| - 1;
      assert AllOk(env, packets, actions[..n]);
      Isolation(env, packets, s, actions[..n], id);
      ActView(Run(env, packets, s, actions[..n]), actions[n], id);
    }
  }
}
