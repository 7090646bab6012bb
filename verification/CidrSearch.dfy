/** The binary search of GeoIPMatcher.match4 and match6 as arithmetic on addresses: which stored blocks it looks at,
    and when looking at those is enough. */
module CidrSearch {
  import opened Bytes

  /** x with its n lowest bits cleared. */
  function Floor(x: nat, n: nat): nat {
    if n == 0 then x else 2 * Floor(x / 2, n - 1)
  }

  /** That is x rounded down to a multiple of 2^n. */
  lemma {:induction false} FloorIsQuotient(x: nat, n: nat)
    ensures Floor(x, n) == x / Pow2(n) * Pow2(n)
  {
    if n > 0 {
      FloorIsQuotient(x / 2, n - 1);
      HalfQuotient(x, Pow2(n - 1));
    }
  }

  lemma HalfQuotient(x: nat, p: nat)
    requires p > 0
    ensures x / (2 * p) == x / 2 / p
  {
    var q := x / 2 / p;
    DivBounds(x / 2, p);
    assert q * (2 * p) == 2 * (q * p);
    DivUnique(x, 2 * p, q);
  }

  // ----- the search -----

  /** The loop shared by match4 and match6 from [l, r) on: above[x] says the base at x is above ip, hits[x] that ip
      normalized with the prefix at x is that base. */
  function Probe(above: seq<bool>, hits: seq<bool>, l: nat, r: nat): bool
    requires l <= r <= |above| == |hits|
    decreases r - l
  {
    if l < r then
      var x := (l + r) / 2;
      if above[x] then Probe(above, hits, l, x) else hits[x] || Probe(above, hits, x + 1, r)
    else l > 0 && hits[l - 1]
  }

  function Lookup(above: seq<bool>, hits: seq<bool>): bool
    requires |above| == |hits|
  {
    above != [] && !above[0] && Probe(above, hits, 0, |above|)
  }

  /** A true answer always comes from a stored block. */
  lemma {:induction false} ProbeHits(above: seq<bool>, hits: seq<bool>, l: nat, r: nat)
    requires l <= r <= |above| == |hits| && Probe(above, hits, l, r)
    ensures true in hits
    decreases r - l
  {
    if l < r {
      var x := (l + r) / 2;
      if above[x] { ProbeHits(above, hits, l, x); }
      else if !hits[x] { ProbeHits(above, hits, x + 1, r); }
    }
  }

  /** With exactly the bases from k on above ip, the nearest base at or below it is always tested. */
  lemma {:induction false} PredecessorIsProbed(above: seq<bool>, hits: seq<bool>, l: nat, r: nat, k: nat)
    requires l <= k <= r <= |above| == |hits| && k > 0 && hits[k - 1]
    requires forall i :: 0 <= i < |above| ==> (above[i] <==> k <= i)
    ensures Probe(above, hits, l, r)
    decreases r - l
  {
    if l < r {
      var x := (l + r) / 2;
      if x >= k { PredecessorIsProbed(above, hits, l, x, k); } else { PredecessorIsProbed(above, hits, x + 1, r, k); }
    }
  }

  // ----- the search and the scan on numbers -----

  /** Block i is the addresses from bases[i] to lasts[i]. */
  predicate InBlock(bases: seq<nat>, lasts: seq<nat>, i: nat, ip: nat)
    requires i < |bases| == |lasts|
  {
    bases[i] <= ip <= lasts[i]
  }

  ghost predicate Linear(bases: seq<nat>, lasts: seq<nat>, ip: nat)
    requires |bases| == |lasts|
  {
    exists i: nat :: i < |bases| && InBlock(bases, lasts, i, ip)
  }

  function Above(bases: seq<nat>, ip: nat): seq<bool> {
    seq(|bases|, i requires 0 <= i < |bases| => ip < bases[i])
  }

  function Hits(bases: seq<nat>, lasts: seq<nat>, ip: nat): seq<bool>
    requires |bases| == |lasts|
  {
    seq(|bases|, i requires 0 <= i < |bases| => InBlock(bases, lasts, i, ip))
  }

  function Found(bases: seq<nat>, lasts: seq<nat>, ip: nat): bool
    requires |bases| == |lasts|
  {
    Lookup(Above(bases, ip), Hits(bases, lasts, ip))
  }

  function Max(x: int, y: int): int {
    if x >= y then x else y
  }

  /** The search has come to [l, r) with the addresses from lo to hi, and the blocks it tested on the way reach up to
      best. Wherever it ends, no block outruns best among the addresses that end there. */
  ghost predicate Covered(bases: seq<nat>, lasts: seq<nat>, l: nat, r: nat, lo: int, hi: int, best: int)
    requires l <= r <= |bases| == |lasts|
    decreases r - l
  {
    if l < r then
      var x := (l + r) / 2;
      && Covered(bases, lasts, l, x, lo, Min(hi, bases[x] as int - 1), best)
      && Covered(bases, lasts, x + 1, r, Max(lo, bases[x]), hi, Max(best, lasts[x]))
    else forall i :: 0 <= i < |bases| ==> Reached(bases[i], lasts[i], lo, hi, best)
  }

  /** What the block has of the addresses from lo to hi lies below best. */
  predicate Reached(base: nat, last: nat, lo: int, hi: int, best: int) {
    var top := Min(last, hi);
    top >= Max(base, lo) ==> top <= best
  }

  /** What a caller can check of the arrays, sorted or not: no base is below the first, and no block outruns the ones
      the search tests. */
  ghost predicate Unshadowed(bases: seq<nat>, lasts: seq<nat>, max: nat)
    requires |bases| == |lasts|
  {
    bases == [] || ((forall i :: 0 <= i < |bases| ==> bases[0] <= bases[i])
                    && Covered(bases, lasts, 0, |bases|, bases[0], max, -1))
  }

  ghost predicate Exact(bases: seq<nat>, lasts: seq<nat>, max: nat)
    requires |bases| == |lasts|
  {
    forall ip: nat :: ip <= max ==> (Found(bases, lasts, ip) <==> Linear(bases, lasts, ip))
  }

  /** From [l, r) on, or with the blocks tested before, the search is right about ip. */
  ghost predicate RightFrom(bases: seq<nat>, lasts: seq<nat>, l: nat, r: nat, best: int, ip: nat)
    requires l <= r <= |bases| == |lasts|
  {
    Probe(Above(bases, ip), Hits(bases, lasts, ip), l, r) || ip <= best <==> Linear(bases, lasts, ip)
  }

  ghost predicate AllRight(bases: seq<nat>, lasts: seq<nat>, l: nat, r: nat, lo: int, hi: int, best: int)
    requires l <= r <= |bases| == |lasts|
  {
    forall ip: nat :: lo <= ip <= hi ==> RightFrom(bases, lasts, l, r, best, ip)
  }

  /** The blocks tested so far: what they reach is stored, and the last one is among them. */
  ghost predicate Tested(bases: seq<nat>, lasts: seq<nat>, l: nat, lo: int, hi: int, best: int)
    requires l <= |bases| == |lasts|
  {
    && (forall ip: nat :: lo <= ip <= hi && ip <= best ==> Linear(bases, lasts, ip))
    && (l > 0 ==> bases[l - 1] <= lo && lasts[l - 1] <= best)
  }

  lemma LeafExact(bases: seq<nat>, lasts: seq<nat>, l: nat, lo: nat, hi: int, best: int)
    requires l <= |bases| == |lasts| && Tested(bases, lasts, l, lo, hi, best)
    ensures Covered(bases, lasts, l, l, lo, hi, best) <==> AllRight(bases, lasts, l, l, lo, hi, best)
  {
    if AllRight(bases, lasts, l, l, lo, hi, best) {
      forall i | 0 <= i < |bases|
        ensures Reached(bases[i], lasts[i], lo, hi, best)
      {
        var top := Min(lasts[i], hi);
        if top >= Max(bases[i], lo) {
          assert InBlock(bases, lasts, i, top);
          assert RightFrom(bases, lasts, l, l, best, top);
        }
      }
    }
    if Covered(bases, lasts, l, l, lo, hi, best) {
      forall ip: nat | lo <= ip <= hi
        ensures RightFrom(bases, lasts, l, l, best, ip)
      {
        if Linear(bases, lasts, ip) {
          var i: nat :| i < |bases| && InBlock(bases, lasts, i, ip);
          assert Reached(bases[i], lasts[i], lo, hi, best);
        }
      }
    }
  }

  /** One comparison sends each address to the one side, with the block at x tested or not. */
  lemma SideIsRight(bases: seq<nat>, lasts: seq<nat>, l: nat, r: nat, best: int, ip: nat)
    requires l < r <= |bases| == |lasts|
    ensures var x := (l + r) / 2;
            RightFrom(bases, lasts, l, r, best, ip) <==>
              if ip < bases[x] then RightFrom(bases, lasts, l, x, best, ip)
              else RightFrom(bases, lasts, x + 1, r, Max(best, lasts[x]), ip)
  {
  }

  lemma TestedOneMore(bases: seq<nat>, lasts: seq<nat>, x: nat, lo: int, hi: int, best: int)
    requires x < |bases| == |lasts|
    requires forall ip: nat :: lo <= ip <= hi && ip <= best ==> Linear(bases, lasts, ip)
    ensures Tested(bases, lasts, x + 1, Max(lo, bases[x]), hi, Max(best, lasts[x]))
  {
    forall ip: nat | Max(lo, bases[x]) <= ip <= hi && ip <= Max(best, lasts[x])
      ensures Linear(bases, lasts, ip)
    {
      if ip > best { assert InBlock(bases, lasts, x, ip); }
    }
  }

  lemma TestedStill(bases: seq<nat>, lasts: seq<nat>, l: nat, lo: int, left: int, hi: int, best: int)
    requires l <= |bases| == |lasts| && left <= hi && Tested(bases, lasts, l, lo, hi, best)
    ensures Tested(bases, lasts, l, lo, left, best)
  {
  }

  lemma CoveredSides(bases: seq<nat>, lasts: seq<nat>, l: nat, r: nat, lo: int, hi: int, best: int)
    requires l < r <= |bases| == |lasts|
    ensures var x := (l + r) / 2;
            Covered(bases, lasts, l, r, lo, hi, best) <==>
              && Covered(bases, lasts, l, x, lo, Min(hi, bases[x] as int - 1), best)
              && Covered(bases, lasts, x + 1, r, Max(lo, bases[x]), hi, Max(best, lasts[x]))
  {
  }

  lemma {:induction false} CoveredExact(bases: seq<nat>, lasts: seq<nat>, l: nat, r: nat, lo: nat, hi: int, best: int)
    requires l <= r <= |bases| == |lasts| && Tested(bases, lasts, l, lo, hi, best)
    ensures Covered(bases, lasts, l, r, lo, hi, best) <==> AllRight(bases, lasts, l, r, lo, hi, best)
    decreases r - l, 1
  {
    if l == r {
      LeafExact(bases, lasts, l, lo, hi, best);
    } else {
      NodeExact(bases, lasts, l, r, lo, hi, best);
    }
  }

  lemma {:induction false} NodeExact(bases: seq<nat>, lasts: seq<nat>, l: nat, r: nat, lo: nat, hi: int, best: int)
    requires l < r <= |bases| == |lasts| && Tested(bases, lasts, l, lo, hi, best)
    ensures Covered(bases, lasts, l, r, lo, hi, best) <==> AllRight(bases, lasts, l, r, lo, hi, best)
    decreases r - l, 0
  {
    var x := (l + r) / 2;
    var left, right, best' := Min(hi, bases[x] as int - 1), Max(lo, bases[x]), Max(best, lasts[x]);
    TestedOneMore(bases, lasts, x, lo, hi, best);
    TestedStill(bases, lasts, l, lo, left, hi, best);
    CoveredExact(bases, lasts, l, x, lo, left, best);
    CoveredExact(bases, lasts, x + 1, r, right, hi, best');
    SidesAreRight(bases, lasts, l, r, lo, hi, best);
    CoveredSides(bases, lasts, l, r, lo, hi, best);
  }

  lemma SidesAreRight(bases: seq<nat>, lasts: seq<nat>, l: nat, r: nat, lo: nat, hi: int, best: int)
    requires l < r <= |bases| == |lasts|
    ensures var x := (l + r) / 2;
            AllRight(bases, lasts, l, r, lo, hi, best) <==>
              && AllRight(bases, lasts, l, x, lo, Min(hi, bases[x] as int - 1), best)
              && AllRight(bases, lasts, x + 1, r, Max(lo, bases[x]), hi, Max(best, lasts[x]))
  {
    var x := (l + r) / 2;
    var m, left, right, best' := x + 1, Min(hi, bases[x] as int - 1), Max(lo, bases[x]), Max(best, lasts[x]);
    if AllRight(bases, lasts, l, r, lo, hi, best) {
      forall ip: nat | lo <= ip <= left
        ensures RightFrom(bases, lasts, l, x, best, ip)
      {
        assert RightFrom(bases, lasts, l, r, best, ip);
        SideIsRight(bases, lasts, l, r, best, ip);
      }
      forall ip: nat | right <= ip <= hi
        ensures RightFrom(bases, lasts, m, r, best', ip)
      {
        assert RightFrom(bases, lasts, l, r, best, ip);
        SideIsRight(bases, lasts, l, r, best, ip);
      }
    }
    if AllRight(bases, lasts, l, x, lo, left, best) && AllRight(bases, lasts, x + 1, r, right, hi, best') {
      forall ip: nat | lo <= ip <= hi
        ensures RightFrom(bases, lasts, l, r, best, ip)
      {
        SideIsRight(bases, lasts, l, r, best, ip);
        if ip < bases[x] {
          assert RightFrom(bases, lasts, l, x, best, ip);
        } else {
          assert RightFrom(bases, lasts, x + 1, r, best', ip);
        }
      }
    }
  }

  /** Main result for the address index: on any arrays, the search agrees with the linear scan on every address if and
      only if they are unshadowed. */
  lemma SearchExact(bases: seq<nat>, lasts: seq<nat>, max: nat)
    requires |bases| == |lasts| && forall i :: 0 <= i < |bases| ==> bases[i] <= lasts[i] && bases[i] <= max
    ensures Exact(bases, lasts, max) <==> Unshadowed(bases, lasts, max)
  {
    if bases != [] {
      CoveredExact(bases, lasts, 0, |bases|, bases[0], max, -1);
      if Exact(bases, lasts, max) {
        forall i: nat | i < |bases|
          ensures bases[0] <= bases[i]
        {
          assert InBlock(bases, lasts, i, bases[i]);
          assert Found(bases, lasts, bases[i]);
        }
        assert forall ip: nat :: bases[0] <= ip <= max ==>
                 (Found(bases, lasts, ip) <==> Linear(bases, lasts, ip)) && RightFrom(bases, lasts, 0, |bases|, -1, ip);
      }
      if Unshadowed(bases, lasts, max) {
        forall ip: nat | ip <= max
          ensures Found(bases, lasts, ip) <==> Linear(bases, lasts, ip)
        {
          if bases[0] <= ip { assert RightFrom(bases, lasts, 0, |bases|, -1, ip); }
        }
      }
    }
  }

  // ----- disjoint blocks -----

  ghost predicate Sorted(bases: seq<nat>) {
    forall i, j :: 0 <= i < j < |bases| ==> bases[i] <= bases[j]
  }

  /** Exactly the first k bases are at most ip. */
  ghost predicate Rank(bases: seq<nat>, ip: nat, k: nat) {
    && k <= |bases|
    && (forall i :: 0 <= i < k ==> bases[i] <= ip)
    && (forall i :: k <= i < |bases| ==> ip < bases[i])
  }

  lemma {:induction false} RankExists(bases: seq<nat>, ip: nat) returns (k: nat)
    requires Sorted(bases)
    ensures Rank(bases, ip, k)
  {
    if bases == [] || ip < bases[0] {
      k := 0;
    } else {
      var j := RankExists(bases[1..], ip);
      k := j + 1;
      forall i | 0 <= i < k
        ensures bases[i] <= ip
      {
        if i > 0 { assert bases[i] == bases[1..][i - 1]; }
      }
      forall i | k <= i < |bases|
        ensures ip < bases[i]
      {
        assert bases[i] == bases[1..][i - 1];
      }
    }
  }

  /** Blocks in order that are pairwise disjoint or identical. */
  ghost predicate InRow(bases: seq<nat>, lasts: seq<nat>)
    requires |bases| == |lasts|
  {
    && Sorted(bases)
    && forall i, j :: 0 <= i < j < |bases| ==> lasts[i] < bases[j] || (bases[i] == bases[j] && lasts[i] == lasts[j])
  }

  /** Of such blocks the one that contains an address is the last with a base not above it. */
  lemma RowIsFound(bases: seq<nat>, lasts: seq<nat>, ip: nat)
    requires |bases| == |lasts| && InRow(bases, lasts)
    ensures Found(bases, lasts, ip) <==> Linear(bases, lasts, ip)
  {
    var above, hits := Above(bases, ip), Hits(bases, lasts, ip);
    if Linear(bases, lasts, ip) {
      var i: nat :| i < |bases| && InBlock(bases, lasts, i, ip);
      var k := RankExists(bases, ip);
      assert hits[k - 1];
      PredecessorIsProbed(above, hits, 0, |bases|, k);
    }
    if Found(bases, lasts, ip) {
      ProbeHits(above, hits, 0, |bases|);
      var i: nat :| i < |hits| && hits[i];
      assert InBlock(bases, lasts, i, ip);
    }
  }

  /** So they are never shadowed. */
  lemma DisjointIsUnshadowed(bases: seq<nat>, lasts: seq<nat>, max: nat)
    requires |bases| == |lasts| && InRow(bases, lasts)
    requires forall i :: 0 <= i < |bases| ==> bases[i] <= lasts[i] && bases[i] <= max
    ensures Unshadowed(bases, lasts, max)
  {
    forall ip: nat | ip <= max
      ensures Found(bases, lasts, ip) <==> Linear(bases, lasts, ip)
    {
      RowIsFound(bases, lasts, ip);
    }
    SearchExact(bases, lasts, max);
  }
}
