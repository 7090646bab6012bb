/** common/mux/server.go: the frame handlers as steps on the session table and the session outputs. */
module MuxServer {
  import opened Bytes
  import opened Address
  import opened Reader
  import opened Chunk
  import opened Frame
  import opened SessionManager

  datatype Ending = Open | Closed | Interrupted

  /** The output of one session: what was written to it, and how it ended. */
  datatype Pipe = Pipe(id: nat, dest: Destination, data: bytes, ending: Ending)

  predicate IsPacket(d: Destination) {
    d.network == UDP
  }

  /** A worker's table, the outputs of all its sessions in the order they were opened, and the ids it told
      the peer to close. Handles in the table are positions in pipes. */
  datatype Server = Server(sessions: map<nat, nat>, count: nat, pipes: seq<Pipe>, notices: seq<nat>)

  /** What the worker does with a frame: its new state, the unread input, and whether it goes on. */
  datatype Step = Step(server: Server, rest: bytes, alive: bool)

  datatype Env = Env(parser: Parser, accepts: Destination -> bool)

  ghost predicate ValidServer(s: Server) {
    forall id {:trigger id in s.sessions} :: id in s.sessions ==>
      s.sessions[id] < |s.pipes| && s.pipes[s.sessions[id]].id == id && s.pipes[s.sessions[id]].ending == Open
  }

  function Opened(s: Server, id: nat, dest: Destination): Server {
    Server(s.sessions[id := |s.pipes|], (s.count + 1) % UINT16, s.pipes + [Pipe(id, dest, [], Open)], s.notices)
  }

  function Written(s: Server, handle: nat, d: bytes): Server
    requires handle < |s.pipes|
  {
    s.(pipes := s.pipes[handle := s.pipes[handle].(data := s.pipes[handle].data + d)])
  }

  /** Session.Close, with the output ended as given. */
  function Ended(s: Server, id: nat, ending: Ending): Server
    requires id in s.sessions ==> s.sessions[id] < |s.pipes|
  {
    if id !in s.sessions then s
    else
      var h := s.sessions[id];
      s.(sessions := s.sessions - {id}, pipes := s.pipes[h := s.pipes[h].(ending := ending)])
  }

  function Payload(packet: bool, input: bytes): Drained {
    if packet then PacketPayload(input) else StreamPayload(input)
  }

  /** A second Copy from the same reader after an error: the packet reader tries another packet, the stream
      reader has used up its one chunk. */
  function RestAfterError(packet: bool, rest: bytes): bytes {
    if packet then PacketPayload(rest).rest else rest
  }

  function Discarded(s: Server, option: byte, input: bytes): Step {
    if HasData(option) then
      var d := StreamPayload(input);
      Step(s, d.rest, d.clean)
    else Step(s, input, true)
  }

  function HandleNew(env: Env, s: Server, f: Meta, input: bytes): Step
    requires f.target.Some?
  {
    var dest := f.target.value;
    if !env.accepts(dest) then Discarded(s, f.option, input).(alive := false)
    else
      var added := Opened(s, f.id, dest);
      if !HasData(f.option) then Step(added, input, true)
      else
        var d := Payload(IsPacket(dest), input);
        var written := Written(added, |s.pipes|, d.data);
        if d.clean then Step(written, d.rest, true)
        else Step(Ended(written, f.id, Closed), RestAfterError(IsPacket(dest), d.rest), true)
  }

  function HandleKeep(s: Server, f: Meta, input: bytes): Step
    requires f.id in s.sessions ==> s.sessions[f.id] < |s.pipes|
  {
    if !HasData(f.option) then Step(s, input, true)
    else if f.id !in s.sessions then Discarded(s.(notices := s.notices + [f.id]), f.option, input)
    else
      var h := s.sessions[f.id];
      var d := Payload(IsPacket(s.pipes[h].dest), input);
      Step(Written(s, h, d.data), d.rest, d.clean)
  }

  function HandleEnd(s: Server, f: Meta, input: bytes): Step
    requires f.id in s.sessions ==> s.sessions[f.id] < |s.pipes|
  {
    Discarded(Ended(s, f.id, if HasError(f.option) then Interrupted else Closed), f.option, input)
  }

  function HandleMeta(env: Env, s: Server, f: Meta, input: bytes): Step
    requires forall id :: id in s.sessions ==> s.sessions[id] < |s.pipes|
    requires f.status == STATUS_NEW ==> f.target.Some?
  {
    if f.status == STATUS_KEEP_ALIVE then Discarded(s, f.option, input)
    else if f.status == STATUS_END then HandleEnd(s, f, input)
    else if f.status == STATUS_NEW then HandleNew(env, s, f, input)
    else if f.status == STATUS_KEEP then HandleKeep(s, f, input)
    else Step(s, input, false)
  }

  /** What one frame does to the sessions, by the number of its status: 1 opens an output for its target if the target
      is accepted, 2 adds data to a known session and reports an unknown one, 3 forgets the session, 4 changes nothing,
      and any other number ends the worker. */
  lemma HandleByStatus(env: Env, s: Server, f: Meta, input: bytes)
    requires ValidServer(s) && (f.status == 1 ==> f.target.Some?)
    ensures var t, known := HandleMeta(env, s, f, input), f.id in s.sessions;
            && (f.status == 1 && env.accepts(f.target.value) ==>
                  |t.server.pipes| == |s.pipes| + 1 && t.server.pipes[..|s.pipes|] == s.pipes && t.alive &&
                  t.server.pipes[|s.pipes|].id == f.id && t.server.pipes[|s.pipes|].dest == f.target.value)
            && (f.status == 1 && !env.accepts(f.target.value) ==> t.server == s && !t.alive)
            && (f.status == 2 ==> t.server.sessions == s.sessions && |t.server.pipes| == |s.pipes|)
            && (f.status == 2 && HasData(f.option) && known ==>
                  var h := s.sessions[f.id];
                  var d := Payload(s.pipes[h].dest.network == UDP, input).data;
                  t.server == s.(pipes := s.pipes[h := s.pipes[h].(data := s.pipes[h].data + d)]))
            && (f.status == 2 && HasData(f.option) && !known ==> t.server == s.(notices := s.notices + [f.id]))
            && (f.status == 3 ==> t.server.sessions == s.sessions - {f.id} && |t.server.pipes| == |s.pipes|)
            && (f.status == 3 && known ==>
                  t.server.pipes[s.sessions[f.id]].ending == if HasError(f.option) then Interrupted else Closed)
            && (f.status == 4 ==> t.server == s)
            && (f.status < 1 || f.status > 4 ==> t == Step(s, input, false))
  {
    if f.status == 3 && f.id !in s.sessions { assert s.sessions - {f.id} == s.sessions; }
  }

  function HandleFrame(env: Env, s: Server, input: bytes): Step
    requires forall id :: id in s.sessions ==> s.sessions[id] < |s.pipes|
  {
    var u := Unmarshal(env.parser, input);
    if u.result.Err? then Step(s, u.rest, false) else HandleMeta(env, s, u.result.value, u.rest)
  }

  lemma OpenedIsValid(s: Server, id: nat, dest: Destination)
    requires ValidServer(s)
    ensures ValidServer(Opened(s, id, dest))
  {
  }

  lemma WrittenIsValid(s: Server, handle: nat, d: bytes)
    requires ValidServer(s) && handle < |s.pipes|
    ensures ValidServer(Written(s, handle, d))
  {
  }

  lemma EndedIsValid(s: Server, id: nat, ending: Ending)
    requires ValidServer(s)
    ensures ValidServer(Ended(s, id, ending))
  {
  }

  /** Every step keeps the table sound: its entries are open outputs opened under the same id. */
  lemma StepKeepsValid(env: Env, s: Server, f: Meta, input: bytes)
    requires ValidServer(s) && (f.status == STATUS_NEW ==> f.target.Some?)
    ensures ValidServer(HandleMeta(env, s, f, input).server)
  {
    EndedIsValid(s, f.id, Interrupted);
    EndedIsValid(s, f.id, Closed);
    if f.status == STATUS_NEW {
      NewKeepsValid(env, s, f, input);
    } else if f.id in s.sessions && f.status == STATUS_KEEP {
      WrittenIsValid(s, s.sessions[f.id], Payload(IsPacket(s.pipes[s.sessions[f.id]].dest), input).data);
    }
  }

  lemma NewKeepsValid(env: Env, s: Server, f: Meta, input: bytes)
    requires ValidServer(s) && f.target.Some?
    ensures ValidServer(HandleNew(env, s, f, input).server)
  {
    var dest := f.target.value;
    var added := Opened(s, f.id, dest);
    OpenedIsValid(s, f.id, dest);
    var d := Payload(IsPacket(dest), input);
    WrittenIsValid(added, |s.pipes|, d.data);
    EndedIsValid(Written(added, |s.pipes|, d.data), f.id, Closed);
  }

  lemma {:induction false} DrainRest(input: bytes, left: nat, num: nat, max: nat)
    ensures |Drain(input, left, num, max).rest| <= |input|
    decreases |input|
  {
    if left > 0 {
      if input != [] { DrainRest(input[Min(left, |input|)..], left - Min(left, |input|), num, max); }
    } else if !(0 < max < num + 1) && |input| >= 2 && Uint16At(input, 0) != 0 {
      DrainRest(input[2..], Uint16At(input, 0), num + 1, max);
    }
  }

  lemma PayloadRest(packet: bool, input: bytes)
    ensures |Payload(packet, input).rest| <= |input|
  {
    DrainRest(input, 0, 0, 1);
  }

  lemma KeepConsumes(s: Server, f: Meta, input: bytes)
    requires ValidServer(s)
    ensures var t := HandleKeep(s, f, input); ValidServer(t.server) && |t.rest| <= |input|
  {
    PayloadRest(false, input);
    if f.id in s.sessions {
      var h := s.sessions[f.id];
      PayloadRest(IsPacket(s.pipes[h].dest), input);
      WrittenIsValid(s, h, Payload(IsPacket(s.pipes[h].dest), input).data);
    }
  }

  lemma EndConsumes(s: Server, f: Meta, input: bytes)
    requires ValidServer(s)
    ensures var t := HandleEnd(s, f, input); ValidServer(t.server) && |t.rest| <= |input|
  {
    PayloadRest(false, input);
    EndedIsValid(s, f.id, if HasError(f.option) then Interrupted else Closed);
  }

  lemma DiscardConsumes(s: Server, option: byte, input: bytes)
    ensures var t := Discarded(s, option, input); t.server == s && |t.rest| <= |input|
  {
    PayloadRest(false, input);
  }

  /** The loop of run makes progress: a frame that does not end it takes at least its length bytes. */
  lemma FrameConsumes(env: Env, s: Server, input: bytes)
    requires ValidServer(s)
    ensures var t := HandleFrame(env, s, input); t.alive ==> |t.rest| < |input|
  {
    var u := Unmarshal(env.parser, input);
    DrainRest(u.rest, 0, 0, 1);
  }

  /** ServerWorker.run without its deferred close: frames until one fails or the input ends. */
  ghost function RunFrames(env: Env, s: Server, input: bytes): (t: Step)
    requires ValidServer(s)
    ensures ValidServer(t.server)
    decreases |input|
  {
    var t := HandleFrame(env, s, input);
    FrameConsumes(env, s, input);
    FrameKeepsValid(env, s, input);
    if t.alive then RunFrames(env, t.server, t.rest) else t
  }

  lemma FrameKeepsValid(env: Env, s: Server, input: bytes)
    requires ValidServer(s)
    ensures ValidServer(HandleFrame(env, s, input).server)
  {
    var u := Unmarshal(env.parser, input);
    if u.result.Ok? { StepKeepsValid(env, s, u.result.value, u.rest); }
  }

  class ServerWorker {
    const env: Env
    const manager: SessionManager
    var pipes: seq<Pipe>
    var notices: seq<nat>

    ghost predicate Valid()
      reads this, manager
    {
      manager.Valid() && !manager.closed && ValidServer(State())
    }

    function State(): Server
      reads this, manager
    {
      Server(manager.sessions, manager.count, pipes, notices)
    }

    constructor (env: Env)
      ensures this.env == env && Valid() && State() == Server(map[], 0, [], []) && fresh(manager)
    {
      this.env := env;
      manager := new SessionManager();
      pipes, notices := [], [];
    }

    /** buf.Copy(NewStreamReader(reader), buf.Discard), guarded by OptionData. */
    method Discard(option: byte, reader: BufferedReader) returns (alive: bool)
      requires Valid()
      modifies reader
      ensures Valid() && State() == old(State())
      ensures Discarded(State(), option, old(reader.Remaining())) == Step(State(), reader.Remaining(), alive)
    {
      if !HasData(option) { return true; }
      var r := new ChunkStreamReader(reader, 1);
      var clean, _ := r.Copy();
      return clean;
    }

    /** buf.Copy(rr, s.output) and, after an error, buf.Copy(rr, buf.Discard) when drain is set. */
    method CopyPayload(packet: bool, reader: BufferedReader, drain: bool) returns (clean: bool, out: bytes)
      modifies reader
      ensures var d := Payload(packet, old(reader.Remaining()));
              && out == d.data && clean == d.clean
              && reader.Remaining() == if drain && !clean then RestAfterError(packet, d.rest) else d.rest
    {
      if packet {
        var r := new PacketReader(reader);
        clean, out := r.Copy();
        if drain && !clean {
          var again := new PacketReader(reader);
          var _, _ := again.Copy();
        }
      } else {
        var r := new ChunkStreamReader(reader, 1);
        clean, out := r.Copy();
      }
    }

    method WriteOutput(handle: nat, d: bytes)
      requires Valid() && handle < |pipes|
      modifies `pipes
      ensures Valid() && State() == Written(old(State()), handle, d)
    {
      pipes := pipes[handle := pipes[handle].(data := pipes[handle].data + d)];
    }

    method EndSession(id: nat, ending: Ending)
      requires Valid()
      modifies `pipes, manager`sessions
      ensures Valid() && State() == Ended(old(State()), id, ending)
    {
      var found, h := manager.Get(id);
      if found {
        pipes := pipes[h := pipes[h].(ending := ending)];
        manager.Remove(id);
      }
    }

    method HandleStatusKeepAlive(f: Meta, reader: BufferedReader) returns (alive: bool)
      requires Valid()
      modifies reader
      ensures Valid() && State() == old(State())
      ensures Discarded(State(), f.option, old(reader.Remaining())) == Step(State(), reader.Remaining(), alive)
    {
      alive := Discard(f.option, reader);
    }

    method HandleStatusNew(f: Meta, reader: BufferedReader) returns (alive: bool)
      requires Valid() && f.id < UINT16 && f.target.Some?
      modifies this, manager, reader
      ensures Valid()
      ensures HandleNew(env, old(State()), f, old(reader.Remaining())) == Step(State(), reader.Remaining(), alive)
    {
      var dest := f.target.value;
      if !env.accepts(dest) {
        var _ := Discard(f.option, reader);
        return false;
      }
      var h := |pipes|;
      pipes := pipes + [Pipe(f.id, dest, [], Open)];
      manager.Add(f.id, h);
      if !HasData(f.option) { return true; }
      var clean, out := CopyPayload(IsPacket(dest), reader, true);
      WriteOutput(h, out);
      if !clean {
        EndSession(f.id, Closed);
      }
      return true;
    }

    method HandleStatusKeep(f: Meta, reader: BufferedReader) returns (alive: bool)
      requires Valid()
      modifies this, reader
      ensures Valid()
      ensures HandleKeep(old(State()), f, old(reader.Remaining())) == Step(State(), reader.Remaining(), alive)
    {
      if !HasData(f.option) { return true; }
      var found, h := manager.Get(f.id);
      if !found {
        notices := notices + [f.id];
        alive := Discard(f.option, reader);
        return;
      }
      var out;
      alive, out := CopyPayload(IsPacket(pipes[h].dest), reader, false);
      WriteOutput(h, out);
    }

    method HandleStatusEnd(f: Meta, reader: BufferedReader) returns (alive: bool)
      requires Valid()
      modifies this, manager`sessions, reader
      ensures Valid()
      ensures HandleEnd(old(State()), f, old(reader.Remaining())) == Step(State(), reader.Remaining(), alive)
    {
      EndSession(f.id, if HasError(f.option) then Interrupted else Closed);
      alive := Discard(f.option, reader);
    }

    /** One frame, however its bytes arrive. */
    method Handle(reader: BufferedReader) returns (alive: bool)
      requires Valid()
      modifies this, manager, reader
      ensures Valid()
      ensures HandleFrame(env, old(State()), old(reader.Remaining())) == Step(State(), reader.Remaining(), alive)
    {
      var u := UnmarshalFrom(env.parser, reader);
      if u.Err? { return false; }
      var f := u.value;
      if f.status == STATUS_KEEP_ALIVE {
        alive := HandleStatusKeepAlive(f, reader);
      } else if f.status == STATUS_END {
        alive := HandleStatusEnd(f, reader);
      } else if f.status == STATUS_NEW {
        alive := HandleStatusNew(f, reader);
      } else if f.status == STATUS_KEEP {
        alive := HandleStatusKeep(f, reader);
      } else {
        alive := false;
      }
    }

    /** Handles frames until the end of the input or an error, then closes the table and every session in it. */
    method Run(reader: BufferedReader)
      requires Valid()
      modifies this, manager, reader
      ensures manager.Valid() && manager.closed
      ensures var t := RunFrames(env, old(State()), old(reader.Remaining()));
              && reader.Remaining() == t.rest && notices == t.server.notices
              && |pipes| == |t.server.pipes|
              && forall h {:trigger pipes[h]} :: 0 <= h < |pipes| ==>
                   pipes[h] == if h in t.server.sessions.Values then t.server.pipes[h].(ending := Closed)
                     else t.server.pipes[h]
    {
      ghost var t := RunFrames(env, State(), reader.Remaining());
      var alive := true;
      while alive
        invariant Valid()
        invariant alive ==> RunFrames(env, State(), reader.Remaining()) == t
        invariant !alive ==> Step(State(), reader.Remaining(), false) == t
        decreases alive, |reader.Remaining()|
      {
        FrameConsumes(env, State(), reader.Remaining());
        alive := Handle(reader);
      }
      var ended := manager.Close();
      pipes := seq(|pipes|, h requires 0 <= h < |pipes| reads this => if h in ended then pipes[h].(ending := Closed)
                   else pipes[h]);
    }
  }
}
