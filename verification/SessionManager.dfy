/** common/mux/session.go: the session table shared by the goroutines of one mux connection. A session is
    represented by a handle. */
module SessionManager {

  const UINT16: nat := 65536

  class SessionManager {
    var sessions: map<nat, nat>
    var count: nat  // uint16, wraps around
    var closed: bool

    /** A closed table is empty; held in every reachable state. */
    ghost predicate Valid()
      reads this
    {
      && count < UINT16
      && (closed ==> sessions == map[])
      && (forall id {:trigger id in sessions} :: id in sessions ==> id < UINT16)
    }

    constructor ()
      ensures Valid() && sessions == map[] && count == 0 && !closed
    {
      sessions, count, closed := map[], 0, false;
    }

    function Size(): nat
      reads this
    {
      |sessions|
    }

    /** None when closed. The new id may already be in the table: count wraps around, and then the older
        session is overwritten. */
    method Allocate(handle: nat) returns (ok: bool, id: nat)
      requires Valid()
      modifies this
      ensures Valid() && closed == old(closed) && ok == !old(closed)
      ensures ok ==> id == count == (old(count) + 1) % 65536 && sessions == old(sessions)[id := handle]
      ensures !ok ==> sessions == old(sessions) && count == old(count)
    {
      if closed { return false, 0; }
      count := (count + 1) % UINT16;
      sessions := sessions[count := handle];
      return true, count;
    }

    method Add(id: nat, handle: nat)
      requires Valid() && id < UINT16
      modifies this
      ensures Valid() && closed == old(closed)
      ensures sessions == if closed then old(sessions) else old(sessions)[id := handle]
      ensures count == if closed then old(count) else (old(count) + 1) % 65536
    {
      if closed { return; }
      count := (count + 1) % UINT16;
      sessions := sessions[id := handle];
    }

    method Remove(id: nat)
      requires Valid()
      modifies `sessions
      ensures Valid() && sessions == old(sessions) - {id}
    {
      if closed { return; }
      sessions := sessions - {id};
      if |sessions| == 0 {
        sessions := map[];
      }
    }

    method Get(id: nat) returns (found: bool, handle: nat)
      requires Valid()
      ensures found == (id in sessions) && (found ==> handle == sessions[id])
    {
      if closed || id !in sessions { return false, 0; }
      return true, sessions[id];
    }

    /** Closes only an empty table. */
    method CloseIfNoSession() returns (done: bool)
      requires Valid()
      modifies `closed
      ensures Valid() && closed == done == (old(closed) || |sessions| == 0)
    {
      if closed { return true; }
      if |sessions| != 0 { return false; }
      closed := true;
      return true;
    }

    /** Closes the table; ended are the sessions whose input and output this call closes. */
    method Close() returns (ended: set<nat>)
      requires Valid()
      modifies `closed, `sessions
      ensures Valid() && closed && ended == old(sessions.Values)
    {
      if closed { return {}; }
      closed := true;
      ended := sessions.Values;
      sessions := map[];
    }
  }
}
