/** common/mux/client.go: admission of sessions to a mux connection. The checks of Dispatch take the table's
    lock one at a time, so k callers interleave between them. */
module Dispatch {
  import opened SessionManager

  /** Both limits are switched off by 0. */
  datatype Strategy = Strategy(maxConcurrency: nat, maxConnection: nat)

  /** How far a call of Dispatch has come: past IsClosing, past Closed, past the size check of IsFull, past the
      second Closed. */
  datatype Point = Idle | NotClosing | NotClosed | NotFull | Admitted

  /** The session table, the done signal, the callers, and the sessions made so far: a session is its position in
      issued, the history of ids given out. live are those not yet closed, unfinished those whose fetchInput has not
      returned; the table may have forgotten either. */
  datatype System = System(sessions: map<nat, nat>, count: nat, closed: bool, done: bool, callers: seq<Point>,
                           issued: seq<nat>, live: set<nat>, unfinished: set<nat>)

  /** Proceed: a caller's next locked section. Ended: fetchOutput reads an End frame and closes the session the table
      has under the id. Finished: fetchInput of a session returns and closes it, for the first or the second time.
      Expire: monitor's CloseIfNoSession. Stop: the done signal. CloseAll: monitor closes the table after it. */
  datatype Event = Proceed(caller: nat) | Ended(id: nat) | Finished(session: nat) | Expire | Stop | CloseAll

  function At(s: System, c: nat, p: Point): System
    requires c < |s.callers|
  {
    s.(callers := s.callers[c := p])
  }

  function CallerStep(g: Strategy, s: System, c: nat): System
    requires c < |s.callers|
  {
    match s.callers[c]
    case Idle => if 0 < g.maxConnection <= s.count then s else At(s, c, NotClosing)
    case NotClosing => At(s, c, if s.done then Idle else NotClosed)
    case NotClosed => At(s, c, if 0 < g.maxConcurrency <= |s.sessions| then Idle else NotFull)
    case NotFull => At(s, c, if s.done then Idle else Admitted)
    case Admitted => if s.closed then At(s, c, Idle) else Made(At(s, c, Idle))
  }

  /** Allocate: the next 16-bit id, and the table's entry for it replaced. */
  function Made(s: System): System {
    var id, n := (s.count + 1) % UINT16, |s.issued|;
    s.(sessions := s.sessions[id := n], count := id, issued := s.issued + [id],
       live := s.live + {n}, unfinished := s.unfinished + {n})
  }

  /** Session.Close of session n: the table loses the entry of its id, whichever session it names by now. */
  function Close(s: System, n: nat): System
    requires n < |s.issued|
  {
    s.(live := s.live - {n}, sessions := if s.closed then s.sessions else s.sessions - {s.issued[n]})
  }

  function Next(g: Strategy, s: System, e: Event): System {
    match e
    case Proceed(c) => if c < |s.callers| then CallerStep(g, s, c) else s
    case Ended(id) => if id in s.sessions && s.sessions[id] < |s.issued| then Close(s, s.sessions[id]) else s
    case Finished(n) =>
      if n in s.unfinished && n < |s.issued| then Close(s, n).(unfinished := s.unfinished - {n}) else s
    case Expire => if |s.sessions| == 0 then s.(closed := true) else s
    case Stop => s.(done := true)
    case CloseAll =>
      if s.done && !s.closed then s.(closed := true, sessions := map[], live := s.live - s.sessions.Values) else s
  }

  function Initial(k: nat): System {
    System(map[], 0, false, false, seq(k, _ => Idle), [], {}, {})
  }

  function Exec(g: Strategy, s: System, events: seq<Event>): System {
    if events == [] then s
    else Next(g, Exec(g, s, events[..|events| - 1]), events[|events| - 1])
  }

  // ----- invariants -----

  function Rank(p: Point): nat {
    match p
    case Idle => 0
    case NotClosing => 1
    case NotClosed => 2
    case NotFull => 3
    case Admitted => 4
  }

  /** Callers at or past a point. */
  function Past(callers: seq<Point>, rank: nat): (n: nat)
    ensures n <= |callers|
  {
    if callers == [] then 0
    else Past(callers[..|callers| - 1], rank) + if Rank(callers[|callers| - 1]) >= rank then 1 else 0
  }

  function One(b: bool): nat {
    if b then 1 else 0
  }

  lemma {:induction false} PastMoves(callers: seq<Point>, c: nat, p: Point, rank: nat)
    requires c < |callers|
    ensures Past(callers[c := p], rank) + One(Rank(callers[c]) >= rank) == Past(callers, rank) + One(Rank(p) >= rank)
  {
    var n := |callers| - 1;
    if c == n {
      assert callers[c := p][..n] == callers[..n];
    } else {
      assert callers[c := p][..n] == callers[..n][c := p];
      PastMoves(callers[..n], c, p, rank);
    }
  }

  /** The 16-bit counter after n allocations, which is the id of the last. */
  function CountAt(n: nat): (c: nat)
    ensures c < UINT16
  {
    if n == 0 then 0 else (CountAt(n - 1) + 1) % UINT16
  }

  lemma {:induction false} CountIsModulo(n: nat)
    ensures CountAt(n) == n % UINT16
  {
    if n > 0 {
      CountIsModulo(n - 1);
      CountOneMore(n - 1);
    }
  }

  lemma CountOneMore(n: nat)
    ensures (n % UINT16 + 1) % UINT16 == (n + 1) % UINT16
  {
  }

  lemma CountComesRound(n: nat)
    ensures CountAt(n + UINT16) == CountAt(n)
  {
    CountIsModulo(n);
    CountIsModulo(n + UINT16);
    FullCircle(n);
  }

  lemma FullCircle(n: nat)
    ensures (n + UINT16) % UINT16 == n % UINT16
  {
  }

  lemma CountGoesUp(n: nat, m: nat)
    requires CountAt(n) + m < UINT16
    ensures CountAt(n + m) == CountAt(n) + m
  {
    if m > 0 { CountGoesUp(n, m - 1); }
  }

  ghost predicate Table(s: System) {
    && s.count == CountAt(|s.issued|)
    && (forall i {:trigger s.issued[i]} :: 0 <= i < |s.issued| ==> s.issued[i] == CountAt(i + 1))
    && (forall id {:trigger s.sessions[id]} :: id in s.sessions ==>
        s.sessions[id] < |s.issued| && s.issued[s.sessions[id]] == id)
    && (forall n :: n in s.live || n in s.unfinished ==> n < |s.issued|)
    && (s.closed ==> s.sessions == map[])
  }

  /** Table entries plus callers already past the size check. */
  ghost predicate FewListed(g: Strategy, s: System) {
    g.maxConcurrency > 0 && s.callers != [] ==> |s.sessions| + Past(s.callers, 3) <= g.maxConcurrency + |s.callers| - 1
  }

  /** Allocations plus callers past the count check. */
  ghost predicate FewAllocated(g: Strategy, s: System) {
    g.maxConnection > 0 && s.callers != [] ==> |s.issued| + Past(s.callers, 1) <= g.maxConnection + |s.callers| - 1
  }

  lemma MadeKeepsTable(s: System)
    requires Table(s) && !s.closed
    ensures Table(Made(s))
  {
    var n := |s.issued|;
    var t := Made(s);
    assert forall i {:trigger t.issued[i]} :: 0 <= i < n ==> t.issued[i] == s.issued[i];
  }

  lemma CloseKeepsTable(s: System, n: nat)
    requires Table(s) && n < |s.issued|
    ensures Table(Close(s, n))
  {
    assert forall id :: id in Close(s, n).sessions ==> id in s.sessions && Close(s, n).sessions[id] == s.sessions[id];
  }

  lemma TableKept(g: Strategy, s: System, e: Event)
    requires Table(s)
    ensures Table(Next(g, s, e)) && |Next(g, s, e).callers| == |s.callers|
  {
    match e
    case Proceed(c) =>
      if c < |s.callers| && s.callers[c] == Admitted && !s.closed { MadeKeepsTable(At(s, c, Idle)); }
    case Ended(id) => if id in s.sessions { CloseKeepsTable(s, s.sessions[id]); }
    case Finished(n) => if n in s.unfinished { CloseKeepsTable(s, n); }
    case _ =>
  }

  lemma FewListedAtCaller(g: Strategy, s: System, c: nat)
    requires FewListed(g, s) && c < |s.callers|
    ensures FewListed(g, Next(g, s, Proceed(c)))
  {
    match s.callers[c]
    case Admitted =>
      PastMoves(s.callers, c, Idle, 3);
    case NotClosed =>
      PastMoves(s.callers, c, Idle, 3);
      PastMoves(s.callers, c, NotFull, 3);
      NotAllPast(s.callers, c, 3);
    case _ =>
      PastMoves(s.callers, c, Next(g, s, Proceed(c)).callers[c], 3);
  }

  lemma {:induction false} NotAllPast(callers: seq<Point>, c: nat, rank: nat)
    requires c < |callers| && Rank(callers[c]) < rank
    ensures Past(callers, rank) <= |callers| - 1
  {
    var n := |callers| - 1;
    if c < n { NotAllPast(callers[..n], c, rank); }
  }

  lemma FewListedAtClose(g: Strategy, s: System, n: nat)
    requires FewListed(g, s) && n < |s.issued|
    ensures FewListed(g, Close(s, n))
  {
  }

  lemma FewListedKept(g: Strategy, s: System, e: Event)
    requires FewListed(g, s)
    ensures FewListed(g, Next(g, s, e))
  {
    match e
    case Proceed(c) => if c < |s.callers| { FewListedAtCaller(g, s, c); }
    case Ended(id) => if id in s.sessions && s.sessions[id] < |s.issued| { FewListedAtClose(g, s, s.sessions[id]); }
    case Finished(n) => if n < |s.issued| { FewListedAtClose(g, s, n); }
    case _ =>
  }

  lemma FewAllocatedKept(g: Strategy, s: System, e: Event)
    requires Table(s) && FewAllocated(g, s) && g.maxConnection + |s.callers| - 1 < UINT16
    ensures FewAllocated(g, Next(g, s, e))
  {
    if e.Proceed? && e.caller < |s.callers| {
      PastMoves(s.callers, e.caller, Next(g, s, e).callers[e.caller], 1);
      if s.callers[e.caller] == Idle {
        NotAllPast(s.callers, e.caller, 1);
        if 0 < g.maxConnection { CountGoesUp(0, |s.issued|); }
      }
    }
  }

  lemma {:induction false} NonePast(k: nat, rank: nat)
    requires rank > 0
    ensures Past(seq(k, _ => Idle), rank) == 0
  {
    if k > 0 {
      assert seq(k, _ => Idle)[..k - 1] == seq(k - 1, _ => Idle);
      NonePast(k - 1, rank);
    }
  }

  /** With k callers and any interleaving, the table never holds more sessions than the limit plus the k - 1 callers
      that can slip past the check together; a closed table is empty; ids are handed out in order. */
  lemma {:induction false} TableIsBounded(g: Strategy, k: nat, events: seq<Event>)
    ensures var s := Exec(g, Initial(k), events);
            && |s.callers| == k && Table(s) && FewListed(g, s)
            && (0 < g.maxConcurrency && k > 0 ==> |s.sessions| <= g.maxConcurrency + k - 1)
  {
    if events == [] {
      NonePast(k, 3);
    } else {
      var before := events[..|events| - 1];
      TableIsBounded(g, k, before);
      TableKept(g, Exec(g, Initial(k), before), events[|events| - 1]);
      FewListedKept(g, Exec(g, Initial(k), before), events[|events| - 1]);
    }
  }

  /** While the limit plus the k - 1 late callers stays below the wrap-around of the 16-bit counter, that bounds
      all allocations ever made, and no id is handed out twice. */
  lemma AllocationsAreBounded(g: Strategy, k: nat, events: seq<Event>)
    requires 0 < g.maxConnection && 0 < k && g.maxConnection + k - 1 < UINT16
    ensures var s := Exec(g, Initial(k), events);
            && FewAllocated(g, s) && |s.issued| <= g.maxConnection + k - 1
            && forall i, j :: 0 <= i < j < |s.issued| ==> s.issued[i] != s.issued[j]
  {
    TableIsBounded(g, k, events);
    AllocationsKept(g, k, events);
    IdsDiffer(Exec(g, Initial(k), events).issued);
  }

  lemma IdsDiffer(issued: seq<nat>)
    requires |issued| < UINT16
    requires forall i {:trigger issued[i]} :: 0 <= i < |issued| ==> issued[i] == CountAt(i + 1)
    ensures forall i, j :: 0 <= i < j < |issued| ==> issued[i] != issued[j]
  {
    forall i | 0 <= i < |issued|
      ensures issued[i] == i + 1
    {
      CountGoesUp(0, i + 1);
    }
  }

  lemma {:induction false} AllocationsKept(g: Strategy, k: nat, events: seq<Event>)
    requires 0 < g.maxConnection && 0 < k && g.maxConnection + k - 1 < UINT16
    ensures FewAllocated(g, Exec(g, Initial(k), events))
  {
    if events == [] {
      NonePast(k, 1);
    } else {
      var before := events[..|events| - 1];
      AllocationsKept(g, k, before);
      TableIsBounded(g, k, before);
      FewAllocatedKept(g, Exec(g, Initial(k), before), events[|events| - 1]);
    }
  }

  // ----- live sessions -----

  /** The table names every live session. */
  ghost predicate Listed(s: System) {
    forall n :: n in s.live ==> n < |s.issued| && s.issued[n] in s.sessions && s.sessions[s.issued[n]] == n
  }

  lemma MadeKeepsListed(s: System)
    requires Table(s) && Listed(s) && |s.issued| + 1 < UINT16
    ensures Listed(Made(s))
  {
    var t, k := Made(s), |s.issued|;
    CountGoesUp(0, k + 1);
    forall n | n in t.live
      ensures n < |t.issued| && t.issued[n] in t.sessions && t.sessions[t.issued[n]] == n
    {
      if n != k {
        CountGoesUp(0, n + 1);
        assert t.issued[n] == s.issued[n] == n + 1 && t.count == k + 1;
      }
    }
  }

  lemma CloseKeepsListed(s: System, n: nat)
    requires Table(s) && Listed(s) && |s.issued| < UINT16 && n < |s.issued| && !s.closed
    ensures Listed(Close(s, n))
  {
    IdsDiffer(s.issued);
  }

  lemma ListedAtCaller(g: Strategy, s: System, c: nat)
    requires Table(s) && Listed(s) && !s.closed && c < |s.callers| && |CallerStep(g, s, c).issued| < UINT16
    ensures Listed(CallerStep(g, s, c))
  {
    if s.callers[c] == Admitted { MadeKeepsListed(At(s, c, Idle)); }
  }

  /** While no id was given out twice, the table forgets no session but by closing it. */
  lemma ListedKept(g: Strategy, s: System, e: Event)
    requires Table(s) && Listed(s) && |Next(g, s, e).issued| < UINT16
    ensures Listed(Next(g, s, e))
  {
    if s.closed {
      assert s.live == {};
    } else {
      match e
      case Proceed(c) => if c < |s.callers| { ListedAtCaller(g, s, c); }
      case Ended(id) => if id in s.sessions { CloseKeepsListed(s, s.sessions[id]); }
      case Finished(n) => if n in s.unfinished { CloseKeepsListed(s, n); }
      case _ =>
    }
  }

  lemma {:induction false} ListedFit(live: set<nat>, issued: seq<nat>, sessions: map<nat, nat>)
    requires forall n :: n in live ==> n < |issued| && issued[n] in sessions && sessions[issued[n]] == n
    ensures |live| <= |sessions|
  {
    if n :| n in live {
      ListedFit(live - {n}, issued, sessions - {issued[n]});
      assert (sessions - {issued[n]}).Keys == sessions.Keys - {issued[n]};
      assert |(sessions - {issued[n]}).Keys| == |sessions - {issued[n]}| && |sessions.Keys| == |sessions|;
    }
  }

  lemma {:induction false} AlwaysListed(g: Strategy, k: nat, events: seq<Event>)
    requires 0 < g.maxConnection && 0 < k && g.maxConnection + k - 1 < UINT16
    ensures Listed(Exec(g, Initial(k), events))
  {
    if events != [] {
      var before := events[..|events| - 1];
      AlwaysListed(g, k, before);
      TableIsBounded(g, k, before);
      AllocationsAreBounded(g, k, events);
      ListedKept(g, Exec(g, Initial(k), before), events[|events| - 1]);
    }
  }

  /** So live sessions are bounded like the table, as long as the allocations stay below the wrap-around. */
  lemma LiveIsBounded(g: Strategy, k: nat, events: seq<Event>)
    requires 0 < g.maxConcurrency && 0 < k
    requires 0 < g.maxConnection && g.maxConnection + k - 1 < UINT16
    ensures |Exec(g, Initial(k), events).live| <= g.maxConcurrency + k - 1
  {
    var s := Exec(g, Initial(k), events);
    TableIsBounded(g, k, events);
    AlwaysListed(g, k, events);
    ListedFit(s.live, s.issued, s.sessions);
  }

  // ----- the bounds are sharp -----

  lemma {:induction false} ExecConcat(g: Strategy, s: System, a: seq<Event>, b: seq<Event>)
    ensures Exec(g, s, a + b) == Exec(g, Exec(g, s, a), b)
  {
    if b == [] {
      assert a + b == a;
    } else {
      var c, e := b[..|b| - 1], b[|b| - 1];
      assert b == c + [e] && a + b == a + c + [e];
      ExecSnocs(g, s, a, c, e, b);
      ExecConcat(g, s, a, c);
    }
  }

  lemma ExecSnocs(g: Strategy, s: System, a: seq<Event>, c: seq<Event>, e: Event, b: seq<Event>)
    requires b == c + [e] && a + b == a + c + [e]
    ensures Exec(g, s, a + b) == Next(g, Exec(g, s, a + c), e)
    ensures Exec(g, Exec(g, s, a), b) == Next(g, Exec(g, Exec(g, s, a), c), e)
  {
    ExecSnoc(g, s, a + b, a + c, e);
    ExecSnoc(g, Exec(g, s, a), b, c, e);
  }

  lemma ExecSnoc(g: Strategy, s: System, all: seq<Event>, before: seq<Event>, e: Event)
    requires all == before + [e]
    ensures Exec(g, s, all) == Next(g, Exec(g, s, before), e)
  {
    assert all[..|before|] == before;
  }

  lemma ExecOne(g: Strategy, s: System, e: Event)
    ensures Exec(g, s, [e]) == Next(g, s, e)
  {
    assert [e][..0] == [];
  }

  /** The first j of k callers have passed all checks, the others have not begun. */
  function Waiting(k: nat, j: nat): (callers: seq<Point>)
    ensures |callers| == k && forall c :: 0 <= c < k ==> callers[c] == if c < j then Admitted else Idle
  {
    if k == 0 then [] else Waiting(k - 1, j) + [if k - 1 < j then Admitted else Idle]
  }

  /** The checks pass in this state. */
  ghost predicate Admits(g: Strategy, s: System) {
    && !s.done && !s.closed
    && (g.maxConnection == 0 || s.count < g.maxConnection)
    && (g.maxConcurrency == 0 || |s.sessions| < g.maxConcurrency)
  }

  lemma Admit(g: Strategy, s: System, c: nat) returns (events: seq<Event>)
    requires Admits(g, s) && c < |s.callers| && s.callers[c] == Idle
    ensures Exec(g, s, events) == At(s, c, Admitted)
    ensures events == [Proceed(c)] + [Proceed(c)] + [Proceed(c)] + [Proceed(c)]
  {
    var e := Proceed(c);
    var s1, s2, s3 := At(s, c, NotClosing), At(s, c, NotClosed), At(s, c, NotFull);
    ExecOne(g, s, e);
    ExecOne(g, s1, e);
    ExecOne(g, s2, e);
    ExecOne(g, s3, e);
    assert s1.callers[c := NotClosed] == s2.callers && s2.callers[c := NotFull] == s3.callers;
    assert s3.callers[c := Admitted] == s.callers[c := Admitted];
    ExecConcat(g, s, [e], [e]);
    ExecConcat(g, s, [e] + [e], [e]);
    ExecConcat(g, s, [e] + [e] + [e], [e]);
    events := [e] + [e] + [e] + [e];
  }

  /** Any number of callers can pass the checks before one of them is counted. */
  lemma {:induction false} AdmitMany(g: Strategy, s: System, j: nat) returns (events: seq<Event>)
    requires Admits(g, s) && j <= |s.callers| && s.callers == Waiting(|s.callers|, 0)
    ensures Exec(g, s, events) == s.(callers := Waiting(|s.callers|, j))
  {
    if j == 0 {
      events := [];
    } else {
      var before := AdmitMany(g, s, j - 1);
      var t := s.(callers := Waiting(|s.callers|, j - 1));
      var more := Admit(g, t, j - 1);
      assert t.callers[j - 1 := Admitted] == Waiting(|s.callers|, j);
      ExecConcat(g, s, before, more);
      events := before + more;
    }
  }

  /** A session that was closed by an End frame while its fetchInput goes on. */
  ghost predicate Lingers(s: System, n: nat) {
    n in s.unfinished && n !in s.live
  }

  /** The sessions made a full round of ids before the next n ones all linger. */
  ghost predicate CanHide(s: System, n: nat) {
    && UINT16 <= |s.issued| && n <= UINT16
    && forall q: nat :: |s.issued| - UINT16 <= q < |s.issued| - UINT16 + n ==> Lingers(s, q)
  }

  /** n sessions were made. Either each was ended at once and lingers; or each stays live, and a lingering session of
      the same id has finished, which took the new session's entry from the table. */
  ghost predicate Progress(s: System, t: System, n: nat, stale: bool) {
    && |t.issued| == |s.issued| + n && |t.callers| == |s.callers|
    && (forall q: nat :: Lingers(s, q) && (stale ==> |t.issued| - UINT16 <= q < |s.issued|) ==> Lingers(t, q))
    && (if stale then |t.live| == |s.live| + n
        else t.live == s.live && forall q: nat :: |s.issued| <= q < |t.issued| ==> Lingers(t, q))
  }

  lemma MoreProgress(s: System, t: System, u: System, m: nat, n: nat, stale: bool)
    requires Progress(s, t, m, stale) && Progress(t, u, n, stale) && (stale ==> m + n <= UINT16)
    ensures Progress(s, u, m + n, stale)
  {
    forall q: nat | Lingers(s, q) && (stale ==> |u.issued| - UINT16 <= q < |s.issued|)
      ensures Lingers(u, q)
    {
      assert Lingers(t, q);
    }
  }

  lemma StillCanHide(s: System, t: System, m: nat, n: nat)
    requires CanHide(s, m + n) && Progress(s, t, m, true)
    ensures CanHide(t, n)
  {
    forall q: nat | |t.issued| - UINT16 <= q < |t.issued| - UINT16 + n
      ensures Lingers(t, q)
    {
      assert Lingers(s, q);
    }
  }

  /** The table is empty and j callers are past all checks. */
  ghost predicate Calm(s: System, j: nat) {
    Table(s) && s.sessions == map[] && !s.closed && j <= |s.callers| && s.callers == Waiting(|s.callers|, j)
  }

  ghost predicate Quiet(s: System) {
    Calm(s, 0) && !s.done
  }

  /** What empties the table after an allocation. */
  function Cleared(s: System, stale: bool): Event {
    if stale && UINT16 <= |s.issued| then Finished(|s.issued| - UINT16) else Ended((s.count + 1) % UINT16)
  }

  lemma EndedLingers(g: Strategy, s: System)
    requires Table(s) && s.sessions == map[] && !s.closed
    ensures var t := Next(g, Made(s), Cleared(s, false));
            t.sessions == map[] && Progress(s, t, 1, false) && t.callers == s.callers && t.closed == s.closed
              && t.done == s.done
  {
    var n, t := |s.issued|, Next(g, Made(s), Cleared(s, false));
    assert n !in s.live;
    assert Made(s).issued[n] == (s.count + 1) % UINT16;
    assert t.live == s.live;
  }

  lemma FinishedHides(g: Strategy, s: System)
    requires Table(s) && s.sessions == map[] && !s.closed && CanHide(s, 1)
    ensures var t := Next(g, Made(s), Cleared(s, true));
            t.sessions == map[] && Progress(s, t, 1, true) && t.callers == s.callers && t.closed == s.closed
              && t.done == s.done
  {
    var n, t := |s.issued|, Next(g, Made(s), Cleared(s, true));
    assert n !in s.live && Lingers(s, n - UINT16);
    CountComesRound(n - UINT16 + 1);
    assert Made(s).issued[n - UINT16] == s.issued[n - UINT16] == (s.count + 1) % UINT16;
    assert t.live == s.live + {n};
    forall q: nat | Lingers(s, q) && n + 1 - UINT16 <= q < n
      ensures Lingers(t, q)
    {
    }
  }

  lemma TwoStepsProgress(g: Strategy, s: System, s0: System, stale: bool)
    requires Table(s0) && s0.sessions == map[] && !s0.closed && (stale ==> CanHide(s, 1))
    requires s0.live == s.live && s0.unfinished == s.unfinished && s0.issued == s.issued && |s0.callers| == |s.callers|
    ensures var t := Next(g, Made(s0), Cleared(s0, stale));
            && Progress(s, t, 1, stale)
            && t.sessions == map[] && t.callers == s0.callers && !t.closed && t.done == s0.done
  {
    assert forall q: nat :: Lingers(s, q) <==> Lingers(s0, q);
    if stale { FinishedHides(g, s0); } else { EndedLingers(g, s0); }
  }

  /** One admitted caller allocates, and the table is emptied in one of the two ways. */
  lemma TwoSteps(g: Strategy, s: System, j: nat, stale: bool)
    requires Calm(s, j) && j > 0 && (stale ==> CanHide(s, 1))
    ensures var t := Next(g, Next(g, s, Proceed(j - 1)), Cleared(s, stale));
            Calm(t, j - 1) && t.done == s.done && Progress(s, t, 1, stale)
  {
    var s0 := At(s, j - 1, Idle);
    assert s0.callers == Waiting(|s.callers|, j - 1);
    assert Next(g, s, Proceed(j - 1)) == Made(s0) && Cleared(s0, stale) == Cleared(s, stale);
    TwoStepsProgress(g, s, s0, stale);
    TableKept(g, s, Proceed(j - 1));
    TableKept(g, Made(s0), Cleared(s, stale));
  }

  lemma AllocateOne(g: Strategy, s: System, j: nat, stale: bool) returns (events: seq<Event>)
    requires Calm(s, j) && j > 0 && (stale ==> CanHide(s, 1))
    ensures var t := Exec(g, s, events);
            Calm(t, j - 1) && t.done == s.done && Progress(s, t, 1, stale)
  {
    var e1, e2 := Proceed(j - 1), Cleared(s, stale);
    TwoSteps(g, s, j, stale);
    ExecOne(g, s, e1);
    ExecOne(g, Next(g, s, e1), e2);
    ExecConcat(g, s, [e1], [e2]);
    events := [e1] + [e2];
  }

  /** The admitted callers allocate one after the other. */
  lemma {:induction false} AllocateMany(g: Strategy, s: System, j: nat, stale: bool) returns (events: seq<Event>)
    requires Calm(s, j) && (stale ==> CanHide(s, j))
    ensures var t := Exec(g, s, events);
            Calm(t, 0) && t.done == s.done && Progress(s, t, j, stale)
    decreases j
  {
    if j == 0 {
      events := [];
    } else {
      var first := AllocateOne(g, s, j, stale);
      var t := Exec(g, s, first);
      if stale { StillCanHide(s, t, 1, j - 1); }
      var more := AllocateMany(g, t, j - 1, stale);
      ExecConcat(g, s, first, more);
      MoreProgress(s, t, Exec(g, t, more), 1, j - 1, stale);
      events := first + more;
    }
  }

  /** j callers pass the checks together and allocate. */
  lemma Burst(g: Strategy, s: System, j: nat, stale: bool) returns (events: seq<Event>)
    requires Quiet(s) && Admits(g, s) && j <= |s.callers| && (stale ==> CanHide(s, j))
    ensures var t := Exec(g, s, events);
            Quiet(t) && Progress(s, t, j, stale)
  {
    var first := AdmitMany(g, s, j);
    var t := s.(callers := Waiting(|s.callers|, j));
    if stale {
      forall q: nat | |s.issued| - UINT16 <= q < |s.issued| - UINT16 + j
        ensures Lingers(t, q)
      {
        assert Lingers(s, q);
      }
    }
    var second := AllocateMany(g, t, j, stale);
    ExecConcat(g, s, first, second);
    events := first + second;
    var u := Exec(g, t, second);
    assert forall q: nat :: Lingers(s, q) ==> Lingers(t, q);
  }

  lemma CountAfter(s: System, t: System, n: nat)
    requires Table(s) && Table(t) && |t.issued| == |s.issued| + n
    ensures s.count + n < UINT16 ==> t.count == s.count + n
    ensures n == UINT16 ==> t.count == s.count
  {
    if s.count + n < UINT16 { CountGoesUp(|s.issued|, n); }
    if n == UINT16 { CountComesRound(|s.issued|); }
  }

  /** One caller allocates n times in a row, as far as the count check lets it. */
  lemma {:induction false} InARow(g: Strategy, s: System, n: nat, stale: bool) returns (events: seq<Event>)
    requires Quiet(s) && 0 < |s.callers| && (stale ==> CanHide(s, n))
    requires g.maxConnection == 0 || UINT16 <= g.maxConnection || s.count + n <= g.maxConnection < UINT16
    ensures var t := Exec(g, s, events);
            Quiet(t) && Progress(s, t, n, stale)
    decreases n
  {
    if n == 0 {
      events := [];
    } else {
      if stale { assert CanHide(s, 1); }
      var first := Burst(g, s, 1, stale);
      var t := Exec(g, s, first);
      if stale { StillCanHide(s, t, 1, n - 1); }
      CountAfter(s, t, 1);
      var more := InARow(g, t, n - 1, stale);
      ExecConcat(g, s, first, more);
      MoreProgress(s, t, Exec(g, t, more), 1, n - 1, stale);
      events := first + more;
    }
  }

  /** The count can pass the limit unseen: there is none, or it lies beyond the wrap-around, or the callers can
      overrun it together up to there. */
  predicate Wraps(g: Strategy, k: nat) {
    0 < k && (g.maxConnection == 0 || UINT16 <= g.maxConnection + k - 1)
  }

  /** From a count of 0, a full round of ids later the count is 0 again. */
  lemma Round(g: Strategy, s: System, stale: bool) returns (events: seq<Event>)
    requires Quiet(s) && s.count == 0 && Wraps(g, |s.callers|) && (stale ==> CanHide(s, UINT16))
    ensures var t := Exec(g, s, events);
            Quiet(t) && t.count == 0 && Progress(s, t, UINT16, stale)
  {
    if g.maxConnection == 0 || UINT16 <= g.maxConnection {
      events := InARow(g, s, UINT16, stale);
      CountAfter(s, Exec(g, s, events), UINT16);
    } else {
      var n, j := g.maxConnection - 1, UINT16 - g.maxConnection + 1;
      if stale { assert CanHide(s, n); }
      var first := InARow(g, s, n, stale);
      var t := Exec(g, s, first);
      if stale { StillCanHide(s, t, n, j); }
      CountAfter(s, t, n);
      var second := Burst(g, t, j, stale);
      ExecConcat(g, s, first, second);
      MoreProgress(s, t, Exec(g, t, second), n, j, stale);
      events := first + second;
      CountAfter(s, Exec(g, s, events), UINT16);
    }
  }

  /** One round whose sessions linger and one whose sessions they stale from the table, over and over. */
  lemma {:induction false} Unbounded(g: Strategy, s: System, n: nat) returns (events: seq<Event>)
    requires Quiet(s) && s.count == 0 && Wraps(g, |s.callers|)
    ensures var t := Exec(g, s, events);
            |t.issued| >= |s.issued| + n && |t.live| >= |s.live| + n
    decreases n
  {
    if n == 0 {
      events := [];
    } else {
      var first := Round(g, s, false);
      var t := Exec(g, s, first);
      assert CanHide(t, UINT16);
      var second := Round(g, t, true);
      var u := Exec(g, t, second);
      var more := Unbounded(g, u, n - 1);
      ExecConcat(g, s, first, second);
      ExecConcat(g, s, first + second, more);
      events := first + second + more;
    }
  }

  lemma IdleIsWaiting(k: nat)
    ensures seq(k, _ => Idle) == Waiting(k, 0)
  {
  }

  /** The bound on allocations holds exactly when it lies below the wrap-around; otherwise the 16-bit counter
      passes the limit unseen and, on some runs, allocations go beyond any number. */
  lemma AllocationBoundExact(g: Strategy, k: nat)
    requires 0 < g.maxConnection && 0 < k
    ensures g.maxConnection + k - 1 < 65536
            <==> forall events :: |Exec(g, Initial(k), events).issued| <= g.maxConnection + k - 1
  {
    if g.maxConnection + k - 1 < UINT16 {
      forall events: seq<Event>
        ensures |Exec(g, Initial(k), events).issued| <= g.maxConnection + k - 1
      {
        AllocationsAreBounded(g, k, events);
      }
    } else {
      IdleIsWaiting(k);
      var events := Unbounded(g, Initial(k), g.maxConnection + k);
      assert |Exec(g, Initial(k), events).issued| > g.maxConnection + k - 1;
    }
  }

  /** Main result for admission: live sessions stay within the limit plus k - 1, on all runs of k callers, exactly
      when allocations are limited below the wrap-around. Otherwise an id is given out again while the session that
      had it first goes on; that session's close then takes the new one out of the table, and live sessions go
      beyond any number. */
  lemma LiveBoundExact(g: Strategy, k: nat)
    requires 0 < g.maxConcurrency && 0 < k
    ensures 0 < g.maxConnection && g.maxConnection + k - 1 < 65536
            <==> forall events :: |Exec(g, Initial(k), events).live| <= g.maxConcurrency + k - 1
  {
    if 0 < g.maxConnection && g.maxConnection + k - 1 < UINT16 {
      forall events: seq<Event>
        ensures |Exec(g, Initial(k), events).live| <= g.maxConcurrency + k - 1
      {
        LiveIsBounded(g, k, events);
      }
    } else {
      IdleIsWaiting(k);
      var events := Unbounded(g, Initial(k), g.maxConcurrency + k);
      assert |Exec(g, Initial(k), events).live| > g.maxConcurrency + k - 1;
    }
  }

  // ----- the code of one caller -----

  function FiveSections(c: nat): seq<Event> {
    [Proceed(c)] + [Proceed(c)] + [Proceed(c)] + [Proceed(c)] + [Proceed(c)]
  }

  lemma Undisturbed(g: Strategy, s: System, c: nat)
    requires Admits(g, s) && c < |s.callers| && s.callers[c] == Idle
    ensures Exec(g, s, FiveSections(c)) == Next(g, At(s, c, Admitted), Proceed(c))
  {
    var events := Admit(g, s, c);
    var e := Proceed(c);
    assert events == [e] + [e] + [e] + [e];
    ExecSnoc(g, s, FiveSections(c), events, e);
  }

  class ClientWorker {
    const manager: SessionManager
    const strategy: Strategy
    var done: bool
    // sessions are numbered in the order they are made; issued is the ID of each
    var issued: seq<nat>
    ghost var live: set<nat>
    ghost var unfinished: set<nat>

    constructor (strategy: Strategy)
      ensures this.strategy == strategy && fresh(manager) && manager.Valid() && Snapshot() == Initial(1)
    {
      this.strategy := strategy;
      manager := new SessionManager();
      done, issued, live, unfinished := false, [], {}, {};
    }

    /** This worker with one idle caller. */
    ghost function Snapshot(): System
      reads this, manager
    {
      System(manager.sessions, manager.count, manager.closed, done, seq(1, _ => Idle), issued, live, unfinished)
    }

    method IsClosing() returns (closing: bool)
      ensures closing == (0 < strategy.maxConnection <= manager.count)
    {
      closing := strategy.maxConnection > 0 && manager.count >= strategy.maxConnection;
    }

    method IsFull() returns (full: bool)
      ensures !manager.closed ==> full == !Admits(strategy, Snapshot())
      ensures full == (0 < strategy.maxConnection <= manager.count || done
                       || 0 < strategy.maxConcurrency <= |manager.sessions|)
    {
      var closing := IsClosing();
      if closing || done { return true; }
      return strategy.maxConcurrency > 0 && manager.Size() >= strategy.maxConcurrency;
    }

    /** Dispatch without interference: it is admitted exactly when the checks pass and the table is not closed, and
        then it is the run of its five locked sections. handle is the session made. */
    method Dispatch(handle: nat) returns (ok: bool)
      requires manager.Valid() && handle == |issued|
      modifies manager, `issued, `live, `unfinished
      ensures manager.Valid() && ok == Admits(strategy, old(Snapshot()))
      ensures Snapshot() == if ok then Exec(strategy, old(Snapshot()), FiveSections(0)) else old(Snapshot())
      ensures ok ==> manager.sessions == old(manager.sessions)[manager.count := handle]
    {
      var full := IsFull();
      if full || done { return false; }
      ghost var before := Snapshot();
      if !manager.closed { Undisturbed(strategy, before, 0); }
      var id;
      ok, id := manager.Allocate(handle);
      if !ok { return; }
      issued, live, unfinished := issued + [id], live + {handle}, unfinished + {handle};
      assert seq(1, _ => Idle)[0 := Admitted][0 := Idle] == seq(1, _ => Idle);
    }

    /** Session.Close: the table loses the id, whichever session it names by now. */
    method CloseSession(n: nat)
      requires manager.Valid() && n < |issued|
      modifies manager`sessions, `live
      ensures manager.Valid() && Snapshot() == Close(old(Snapshot()), n)
    {
      manager.Remove(issued[n]);
      live := live - {n};
      assert manager.closed ==> manager.sessions == old(manager.sessions);
    }

    /** handleStatusEnd of an End frame without data. */
    method HandleEnd(id: nat)
      requires manager.Valid() && (forall x {:trigger x in manager.sessions} ::
                 x in manager.sessions ==> manager.sessions[x] < |issued|)
      modifies manager`sessions, `live
      ensures manager.Valid() && Snapshot() == Next(strategy, old(Snapshot()), Ended(id))
    {
      var found, n := manager.Get(id);
      if found { CloseSession(n); }
    }

    /** The deferred close when fetchInput of session n returns. */
    method FinishInput(n: nat)
      requires manager.Valid() && n < |issued| && n in unfinished
      modifies manager`sessions, `live, `unfinished
      ensures manager.Valid() && Snapshot() == Next(strategy, old(Snapshot()), Finished(n))
    {
      CloseSession(n);
      unfinished := unfinished - {n};
    }

    /** A tick of monitor: an empty table is closed and the worker done, and any other left alone. */
    method Tick()
      requires manager.Valid()
      modifies manager`closed, `done
      ensures manager.Valid()
      ensures Snapshot() == if |old(manager.sessions)| != 0 then old(Snapshot())
                else Next(strategy, Next(strategy, old(Snapshot()), Expire), Stop)
    {
      if manager.Size() == 0 {
        var closed := manager.CloseIfNoSession();
        if closed { done := true; }
      }
    }

    /** monitor once the worker is done. */
    method CloseTable()
      requires manager.Valid() && done
      modifies manager`closed, manager`sessions, `live
      ensures manager.Valid() && Snapshot() == Next(strategy, old(Snapshot()), CloseAll)
    {
      var ended := manager.Close();
      live := live - ended;
      assert old(manager.closed) ==> ended == {};
    }
  }
}
