/** common/antireplay/replayfilter.go: two generations of seen sums. The cuckoo filters are taken as exact sets
    that never fill up. */
module ReplayFilter {
  import opened Bytes

  /** The fields of ReplayFilter. */
  datatype Filter = Filter(poolA: set<bytes>, poolB: set<bytes>, poolSwap: bool, lastSwap: int, interval: int)

  datatype Checked = Checked(filter: Filter, accepted: bool)

  /** The first call starts the clock; a clock standing at 0 starts it again. */
  function Started(f: Filter, now: int): Filter {
    if f.lastSwap == 0 then f.(lastSwap := now, poolA := {}, poolB := {}) else f
  }

  /** After an interval the older generation is dropped. */
  function Swapped(f: Filter, now: int): Filter {
    if now - f.lastSwap < f.interval then f
    else if f.poolSwap then f.(poolA := {}, poolSwap := false, lastSwap := now)
    else f.(poolB := {}, poolSwap := true, lastSwap := now)
  }

  /** poolA.InsertUnique(sum) && poolB.InsertUnique(sum): a sum in A is not inserted into B. */
  function Inserted(f: Filter, sum: bytes): Checked {
    if sum in f.poolA then Checked(f, false)
    else Checked(f.(poolA := f.poolA + {sum}, poolB := f.poolB + {sum}), sum !in f.poolB)
  }

  function Judge(f: Filter, sum: bytes, now: int): Checked {
    Inserted(Swapped(Started(f, now), now), sum)
  }

  class ReplayFilter {
    var poolA: set<bytes>
    var poolB: set<bytes>
    var poolSwap: bool
    var lastSwap: int
    const interval: int

    constructor (interval: int)
      ensures State() == New(interval)
    {
      this.interval := interval;
      poolA, poolB, poolSwap, lastSwap := {}, {}, false, 0;
    }

    function State(): Filter
      reads this
    {
      Filter(poolA, poolB, poolSwap, lastSwap, interval)
    }

    /** now is time.Now().Unix(). */
    method Check(sum: bytes, now: int) returns (accepted: bool)
      modifies this
      ensures Checked(State(), accepted) == Judge(old(State()), sum, now)
      ensures sum in poolA
    {
      if lastSwap == 0 {
        lastSwap := now;
        poolA, poolB := {}, {};
      }
      var elapsed := now - lastSwap;
      if elapsed >= interval {
        if poolSwap { poolA := {}; } else { poolB := {}; }
        poolSwap := !poolSwap;
        lastSwap := now;
      }
      accepted := InsertUniqueA(sum);
      if accepted { accepted := InsertUniqueB(sum); }
    }

    method InsertUniqueA(sum: bytes) returns (isNew: bool)
      modifies `poolA
      ensures isNew == (sum !in old(poolA)) && poolA == old(poolA) + {sum}
    {
      isNew := sum !in poolA;
      poolA := poolA + {sum};
    }

    method InsertUniqueB(sum: bytes) returns (isNew: bool)
      modifies `poolB
      ensures isNew == (sum !in old(poolB)) && poolB == old(poolB) + {sum}
    {
      isNew := sum !in poolB;
      poolB := poolB + {sum};
    }
  }

  // ----- runs -----

  datatype Call = Call(sum: bytes, now: int)

  function New(interval: int): Filter {
    Filter({}, {}, false, 0, interval)
  }

  /** The filter after the first n calls. */
  function After(interval: int, calls: seq<Call>, n: nat): Filter
    requires n <= |calls|
  {
    if n == 0 then New(interval)
    else Judge(After(interval, calls, n - 1), calls[n - 1].sum, calls[n - 1].now).filter
  }

  /** The answer to call n. */
  function Answer(interval: int, calls: seq<Call>, n: nat): bool
    requires n < |calls|
  {
    Judge(After(interval, calls, n), calls[n].sum, calls[n].now).accepted
  }

  // ----- what the clock decides -----

  /** The time a call counts from, and whether an interval has passed since. */
  function Since(last: int, now: int): int {
    if last == 0 then now else last
  }

  predicate Elapsed(interval: int, last: int, now: int) {
    now - Since(last, now) >= interval
  }

  /** lastSwap after the first n readings; no sum has any part in it. */
  function LastSwap(interval: int, ts: seq<int>, n: nat): int
    requires n <= |ts|
  {
    if n == 0 then 0
    else
      var last := LastSwap(interval, ts, n - 1);
      if Elapsed(interval, last, ts[n - 1]) then ts[n - 1] else Since(last, ts[n - 1])
  }

  /** Call m starts the filter over, and both generations go. */
  predicate Restarts(interval: int, ts: seq<int>, m: nat)
    requires m < |ts|
  {
    LastSwap(interval, ts, m) == 0
  }

  /** Call m drops the older generation. */
  predicate Swaps(interval: int, ts: seq<int>, m: nat)
    requires m < |ts|
  {
    Elapsed(interval, LastSwap(interval, ts, m), ts[m])
  }

  /** What a caller can check of the clock alone: when two calls are less than an interval apart, no call after the
      first up to the second restarts the filter, and at most one of them swaps. */
  ghost predicate Remembers(interval: int, ts: seq<int>) {
    forall i, j :: 0 <= i < j < |ts| && ts[j] < ts[i] + interval ==> OneSwap(interval, ts, i, j)
  }

  ghost predicate OneSwap(interval: int, ts: seq<int>, i: nat, j: nat)
    requires i <= j < |ts|
  {
    && (forall m :: i < m <= j ==> !Restarts(interval, ts, m))
    && (forall m, n :: i < m < n <= j ==> !(Swaps(interval, ts, m) && Swaps(interval, ts, n)))
  }

  ghost predicate ReadAt(calls: seq<Call>, ts: seq<int>) {
    |calls| == |ts| && forall i :: 0 <= i < |calls| ==> calls[i].now == ts[i]
  }

  /** Whatever sums are checked at these readings, none is accepted twice within an interval. */
  ghost predicate NeverReplays(interval: int, ts: seq<int>) {
    forall calls: seq<Call>, i: nat, j: nat :: ReadAt(calls, ts) && Replays(interval, calls, i, j) ==>
      ts[j] >= ts[i] + interval
  }

  ghost predicate Replays(interval: int, calls: seq<Call>, i: nat, j: nat) {
    i < j < |calls| && calls[i].sum == calls[j].sum && Answer(interval, calls, i) && Answer(interval, calls, j)
  }

  /** The generations dropped at the calls after i and before n; a restart drops both. */
  function Dropped(interval: int, ts: seq<int>, i: nat, n: nat): nat
    requires i < n <= |ts|
  {
    if n == i + 1 then 0 else Dropped(interval, ts, i, n - 1) + DroppedAt(interval, ts, n - 1)
  }

  function DroppedAt(interval: int, ts: seq<int>, m: nat): nat
    requires m < |ts|
  {
    (if Restarts(interval, ts, m) then 2 else 0) + (if Swaps(interval, ts, m) then 1 else 0)
  }

  lemma {:induction false} ClockIsLastSwap(interval: int, calls: seq<Call>, ts: seq<int>, n: nat)
    requires ReadAt(calls, ts) && n <= |calls|
    ensures After(interval, calls, n).lastSwap == LastSwap(interval, ts, n)
              && After(interval, calls, n).interval == interval
  {
    if n > 0 { ClockIsLastSwap(interval, calls, ts, n - 1); }
  }

  /** A sum accepted at call i is still in both generations, or in one after one was dropped. */
  ghost predicate Kept(f: Filter, sum: bytes, dropped: nat) {
    && (dropped == 0 ==> sum in f.poolA && sum in f.poolB)
    && (dropped == 1 ==> sum in f.poolA || sum in f.poolB)
  }

  /** A sum not checked since is gone from the newer generation after one was dropped, and from both after two. */
  ghost predicate Gone(f: Filter, sum: bytes, dropped: nat) {
    && (dropped >= 1 ==> sum !in if f.poolSwap then f.poolB else f.poolA)
    && (dropped >= 2 ==> sum !in f.poolA && sum !in f.poolB)
  }

  /** The filter at call n before the sum is inserted. */
  function Ready(interval: int, calls: seq<Call>, n: nat): Filter
    requires n < |calls|
  {
    Swapped(Started(After(interval, calls, n), calls[n].now), calls[n].now)
  }

  lemma ReadyDrops(interval: int, calls: seq<Call>, ts: seq<int>, n: nat, sum: bytes, dropped: nat)
    requires ReadAt(calls, ts) && n < |calls|
    ensures var f, more := After(interval, calls, n), DroppedAt(interval, ts, n);
            && (Kept(f, sum, dropped) ==> Kept(Ready(interval, calls, n), sum, dropped + more))
            && (Gone(f, sum, dropped) ==> Gone(Ready(interval, calls, n), sum, dropped + more))
  {
    ClockIsLastSwap(interval, calls, ts, n);
  }

  lemma {:induction false} StaysKept(interval: int, calls: seq<Call>, ts: seq<int>, i: nat, n: nat)
    requires ReadAt(calls, ts) && i < n <= |calls| && Answer(interval, calls, i)
    ensures Kept(After(interval, calls, n), calls[i].sum, Dropped(interval, ts, i, n))
  {
    if n > i + 1 {
      StaysKept(interval, calls, ts, i, n - 1);
      ReadyDrops(interval, calls, ts, n - 1, calls[i].sum, Dropped(interval, ts, i, n - 1));
    }
  }

  lemma {:induction false} StaysGone(interval: int, calls: seq<Call>, ts: seq<int>, i: nat, n: nat)
    requires ReadAt(calls, ts) && i < n <= |calls|
    requires forall m :: i < m < n ==> calls[m].sum != calls[i].sum
    ensures Gone(After(interval, calls, n), calls[i].sum, Dropped(interval, ts, i, n))
  {
    if n > i + 1 {
      StaysGone(interval, calls, ts, i, n - 1);
      ReadyDrops(interval, calls, ts, n - 1, calls[i].sum, Dropped(interval, ts, i, n - 1));
    }
  }

  lemma {:induction false} DroppedCounts(interval: int, ts: seq<int>, i: nat, n: nat)
    requires i < n <= |ts|
    ensures Dropped(interval, ts, i, n) == 0 <==>
              forall m :: i < m < n ==> !Restarts(interval, ts, m) && !Swaps(interval, ts, m)
    ensures Dropped(interval, ts, i, n) <= 1 <==> OneSwap(interval, ts, i, n - 1)
  {
    if n > i + 1 { DroppedCounts(interval, ts, i, n - 1); }
  }

  lemma GoneIsAccepted(interval: int, calls: seq<Call>, ts: seq<int>, i: nat, j: nat)
    requires ReadAt(calls, ts) && i < j < |calls| && Dropped(interval, ts, i, j + 1) >= 2
    requires calls[j].sum == calls[i].sum && forall m :: i < m < j ==> calls[m].sum != calls[i].sum
    ensures Answer(interval, calls, j)
  {
    StaysGone(interval, calls, ts, i, j);
    ReadyDrops(interval, calls, ts, j, calls[i].sum, Dropped(interval, ts, i, j));
  }

  /** One sum at calls i and j, another one at all other calls. */
  ghost predicate OnlyAt(calls: seq<Call>, i: nat, j: nat)
    requires i < j < |calls|
  {
    forall m :: 0 <= m < |calls| ==> (calls[m].sum == calls[i].sum <==> m == i || m == j)
  }

  lemma ForgottenReplays(interval: int, calls: seq<Call>, ts: seq<int>, i: nat, j: nat)
    requires ReadAt(calls, ts) && i < j < |calls| && OnlyAt(calls, i, j) && !OneSwap(interval, ts, i, j)
    ensures Replays(interval, calls, i, j)
  {
    FreshIsAccepted(interval, calls, i);
    DroppedCounts(interval, ts, i, j + 1);
    GoneIsAccepted(interval, calls, ts, i, j);
  }

  function Probe(ts: seq<int>, i: nat, j: nat): (calls: seq<Call>)
    requires i < j < |ts|
    ensures ReadAt(calls, ts) && OnlyAt(calls, i, j)
  {
    seq(|ts|, m requires 0 <= m < |ts| => Call(if m == i || m == j then [1] else [], ts[m]))
  }

  lemma RememberedIsRejected(interval: int, calls: seq<Call>, ts: seq<int>, i: nat, j: nat)
    requires ReadAt(calls, ts) && i < j < |calls| && OneSwap(interval, ts, i, j)
    ensures !Replays(interval, calls, i, j)
  {
    if Replays(interval, calls, i, j) {
      StaysKept(interval, calls, ts, i, j);
      ReadyDrops(interval, calls, ts, j, calls[i].sum, Dropped(interval, ts, i, j));
      DroppedCounts(interval, ts, i, j + 1);
    }
  }

  /** Main result: for every clock, no choice of sums is ever accepted twice within an interval if and only if, for
      every two calls less than an interval apart, the filter is not restarted and swapped at most once between. */
  lemma NoReplayExact(interval: int, ts: seq<int>)
    ensures NeverReplays(interval, ts) <==> Remembers(interval, ts)
  {
    if Remembers(interval, ts) {
      forall calls: seq<Call>, i: nat, j: nat | ReadAt(calls, ts) && Replays(interval, calls, i, j)
        ensures ts[j] >= ts[i] + interval
      {
        if ts[j] < ts[i] + interval { RememberedIsRejected(interval, calls, ts, i, j); }
      }
    }
    if NeverReplays(interval, ts) {
      forall i, j | 0 <= i < j < |ts| && ts[j] < ts[i] + interval
        ensures OneSwap(interval, ts, i, j)
      {
        if !OneSwap(interval, ts, i, j) { ForgottenReplays(interval, Probe(ts, i, j), ts, i, j); }
      }
    }
  }

  // ----- a clock that never goes back -----

  /** The clock never goes back and never reads 0. */
  ghost predicate Clocked(ts: seq<int>) {
    && (forall i :: 0 <= i < |ts| ==> ts[i] != 0)
    && (forall i, j :: 0 <= i <= j < |ts| ==> ts[i] <= ts[j])
  }

  /** After a call the last swap is a reading that was taken, and no earlier than any swap before. */
  lemma {:induction false} LastSwapIsRead(interval: int, ts: seq<int>, n: nat, m: nat)
    requires 0 < n <= |ts| && Clocked(ts) && m < n
    ensures LastSwap(interval, ts, n) != 0
    ensures Swaps(interval, ts, m) ==> LastSwap(interval, ts, n) >= ts[m]
    decreases n
  {
    if n > 1 {
      LastSwapIsRead(interval, ts, n - 1, if m < n - 1 then m else 0);
    }
  }

  lemma ClockedRemembers(interval: int, ts: seq<int>)
    requires Clocked(ts)
    ensures Remembers(interval, ts)
  {
    forall i, j | 0 <= i < j < |ts| && ts[j] < ts[i] + interval
      ensures OneSwap(interval, ts, i, j)
    {
      forall m | i < m <= j
        ensures !Restarts(interval, ts, m)
      {
        LastSwapIsRead(interval, ts, m, 0);
      }
      forall m, n | i < m < n <= j
        ensures !(Swaps(interval, ts, m) && Swaps(interval, ts, n))
      {
        LastSwapIsRead(interval, ts, n, m);
      }
    }
  }

  function Readings(calls: seq<Call>): (ts: seq<int>)
    ensures ReadAt(calls, ts)
  {
    seq(|calls|, m requires 0 <= m < |calls| => calls[m].now)
  }

  /** So under such a clock a sum accepted at one call is accepted again only an interval later. */
  lemma NoReplay(interval: int, calls: seq<Call>, i: nat, j: nat)
    requires Clocked(Readings(calls)) && Replays(interval, calls, i, j)
    ensures calls[j].now >= calls[i].now + interval
  {
    var ts := Readings(calls);
    ClockedRemembers(interval, ts);
    NoReplayExact(interval, ts);
    assert ReadAt(calls, ts);
  }

  /** Only sums that were checked are remembered. */
  lemma {:induction false} OnlySeen(interval: int, calls: seq<Call>, n: nat, sum: bytes)
    requires n <= |calls|
    requires forall i :: 0 <= i < n ==> calls[i].sum != sum
    ensures var f := After(interval, calls, n); sum !in f.poolA && sum !in f.poolB
  {
    if n > 0 {
      OnlySeen(interval, calls, n - 1, sum);
      assert calls[n - 1].sum != sum;
    }
  }

  /** A sum never checked before is always accepted, whatever the clock does. */
  lemma FreshIsAccepted(interval: int, calls: seq<Call>, n: nat)
    requires n < |calls|
    requires forall i :: 0 <= i < n ==> calls[i].sum != calls[n].sum
    ensures Answer(interval, calls, n)
  {
    OnlySeen(interval, calls, n, calls[n].sum);
  }

  // ----- what a check leaves in pool A -----

  /** Which generation the next swap drops, after the first n readings: pool A if the swaps so far are odd. */
  function Odd(interval: int, ts: seq<int>, n: nat): bool
    requires n <= |ts|
  {
    n > 0 && (Odd(interval, ts, n - 1) != Swaps(interval, ts, n - 1))
  }

  /** Call m empties pool A. */
  predicate DropsA(interval: int, ts: seq<int>, m: nat)
    requires m < |ts|
  {
    Restarts(interval, ts, m) || (Swaps(interval, ts, m) && Odd(interval, ts, m))
  }

  lemma {:induction false} OddIsPoolSwap(interval: int, calls: seq<Call>, ts: seq<int>, n: nat)
    requires ReadAt(calls, ts) && n <= |calls|
    ensures After(interval, calls, n).poolSwap == Odd(interval, ts, n)
  {
    if n > 0 {
      OddIsPoolSwap(interval, calls, ts, n - 1);
      ClockIsLastSwap(interval, calls, ts, n - 1);
    }
  }

  lemma ReadyKeepsA(interval: int, calls: seq<Call>, ts: seq<int>, n: nat, sum: bytes)
    requires ReadAt(calls, ts) && n < |calls|
    ensures sum in Ready(interval, calls, n).poolA <==>
              sum in After(interval, calls, n).poolA && !DropsA(interval, ts, n)
  {
    ClockIsLastSwap(interval, calls, ts, n);
    OddIsPoolSwap(interval, calls, ts, n);
  }

  lemma {:induction false} StaysInA(interval: int, calls: seq<Call>, ts: seq<int>, i: nat, n: nat)
    requires ReadAt(calls, ts) && i < n <= |calls|
    requires forall m :: i < m < n ==> calls[m].sum != calls[i].sum
    ensures calls[i].sum in After(interval, calls, n).poolA <==> forall m :: i < m < n ==> !DropsA(interval, ts, m)
  {
    if n > i + 1 {
      StaysInA(interval, calls, ts, i, n - 1);
      ReadyKeepsA(interval, calls, ts, n - 1, calls[i].sum);
    }
  }

  /** Accepted or not, a checked sum goes into pool A: its next check finds it there exactly unless pool A was emptied
      in between, and then rejects it. */
  lemma CheckedIsRemembered(interval: int, calls: seq<Call>, ts: seq<int>, i: nat, j: nat)
    requires ReadAt(calls, ts) && i < j < |calls| && calls[j].sum == calls[i].sum
    requires forall m :: i < m < j ==> calls[m].sum != calls[i].sum
    ensures calls[j].sum in Ready(interval, calls, j).poolA <==> forall m :: i < m <= j ==> !DropsA(interval, ts, m)
    ensures (forall m :: i < m <= j ==> !DropsA(interval, ts, m)) ==> !Answer(interval, calls, j)
  {
    StaysInA(interval, calls, ts, i, j);
    ReadyKeepsA(interval, calls, ts, j, calls[i].sum);
  }

  /** Both clock conditions are needed. At 0 every call starts over; and a clock that goes back delays nothing:
      the swaps of a later time are not undone. */
  lemma ZeroClockAcceptsTwice(sum: bytes, interval: int)
    requires interval > 0
    ensures var calls := [Call(sum, 0), Call(sum, 0)]; Answer(interval, calls, 0) && Answer(interval, calls, 1)
  {
    var calls := [Call(sum, 0), Call(sum, 0)];
    assert After(interval, calls, 0) == New(interval);
    assert After(interval, calls, 1) == Judge(New(interval), sum, 0).filter;
  }

  lemma BackwardClockAcceptsTwice(sum: bytes, other: bytes, t: int, interval: int)
    requires 0 < interval && 0 < t && sum != other
    ensures var calls := [Call(sum, t), Call(other, t + interval), Call(other, t + 2 * interval), Call(sum, t)];
            Answer(interval, calls, 0) && Answer(interval, calls, 3)
  {
    var calls := [Call(sum, t), Call(other, t + interval), Call(other, t + 2 * interval), Call(sum, t)];
    var f1 := Judge(New(interval), sum, t).filter;
    var f2 := Judge(f1, other, t + interval).filter;
    var f3 := Judge(f2, other, t + 2 * interval).filter;
    assert After(interval, calls, 0) == New(interval);
    assert After(interval, calls, 1) == f1;
    assert After(interval, calls, 2) == f2;
    assert After(interval, calls, 3) == f3;
  }
}
