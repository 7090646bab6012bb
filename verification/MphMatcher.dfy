/** common/strmatcher/mph_matcher.go: rolling hash, two-level perfect hash with seed search, lookup. */
module MphMatcher {
  import opened Bytes
  import opened Matchers
  import opened AhoCorasickTheory
  import opened AcAutomaton

  const PRIME_RK: nat := 16777619

  // ----- rolling hash -----

  function Step(h: uint32, b: byte): uint32 {
    (h * PRIME_RK + b) % 0x1_0000_0000
  }

  /** The hash as a function of the string: bytes enter from the last to the first. */
  function Rolling(s: bytes): uint32 {
    if s == [] then 0 else Step(Rolling(s[1..]), s[0])
  }

  method RollingHash(s: bytes) returns (h: uint32)
    ensures h == Rolling(s)
  {
    h := 0;
    var i := |s|;
    while i > 0
      invariant 0 <= i <= |s|
      invariant h == Rolling(s[i..])
    {
      i := i - 1;
      assert s[i..][1..] == s[i + 1..];
      h := Step(h, s[i]);
    }
  }

  /** The polynomial behind the hash: byte i of s is multiplied i times by 16777619. */
  function Polynomial(s: bytes): nat {
    if s == [] then 0 else s[0] + 16777619 * Polynomial(s[1..])
  }

  lemma ModuloStep(q: nat, b: byte)
    ensures (q % 0x1_0000_0000 * 16777619 + b) % 0x1_0000_0000 == (b + 16777619 * q) % 0x1_0000_0000
  {
    var m, r := 0x1_0000_0000, q % 0x1_0000_0000;
    var x := r * 16777619 + b;
    assert b + 16777619 * q == m * (q / m * 16777619 + x / m) + x % m;
    DivModUnique(b + 16777619 * q, m, q / m * 16777619 + x / m, x % m);
  }

  /** The hash is that polynomial modulo 2^32, with wrap-around at every step or only once. */
  lemma {:induction false} RollingIsPolynomial(s: bytes)
    ensures Rolling(s) == Polynomial(s) % 0x1_0000_0000
  {
    if s != [] {
      RollingIsPolynomial(s[1..]);
      ModuloStep(Polynomial(s[1..]), s[0]);
    }
  }

  // ----- masks and powers of two -----

  function BitAnd(x: nat, y: nat): nat {
    if x == 0 || y == 0 then 0 else (x % 2) * (y % 2) + 2 * BitAnd(x / 2, y / 2)
  }

  /** Masking with 2^k - 1 is the remainder modulo 2^k. */
  lemma {:induction false} MaskIsModulo(x: nat, k: nat)
    ensures BitAnd(x, Pow2(k) - 1) == x % Pow2(k)
  {
    if k > 0 {
      MaskIsModulo(x / 2, k - 1);
      assert (Pow2(k) - 1) / 2 == Pow2(k - 1) - 1;
      assert x % Pow2(k) == x % 2 + 2 * (x / 2 % Pow2(k - 1)) by { ModuloDoubled(x, Pow2(k - 1)); }
    }
  }

  lemma ModuloDoubled(x: nat, m: nat)
    requires m > 0
    ensures x % (2 * m) == x % 2 + 2 * (x / 2 % m)
  {
    var q, r := x / 2 / m, x / 2 % m;
    assert x / 2 == q * m + r;
    assert x == (2 * m) * q + (x % 2 + 2 * r);
    DivModUnique(x, 2 * m, q, x % 2 + 2 * r);
  }

  function BitLen(v: nat): nat {
    if v == 0 then 0 else 1 + BitLen(v / 2)
  }

  const UINT_BITS: nat := 64

  /** MaxUInt >> zeros for a word of zeros + n bits. */
  function ShiftedOnes(zeros: nat, n: nat): int {
    (Pow2(zeros + n) - 1) / Pow2(zeros)
  }

  /** The all-ones word shifted right past the leading zeros of v, plus one. */
  function NextPow2(v: int): int
    requires v > 1 ==> BitLen(v) < UINT_BITS
  {
    if v <= 1 then 1 else ShiftedOnes(UINT_BITS - BitLen(v), BitLen(v)) + 1
  }

  lemma {:induction false} BitLenPow(v: nat)
    requires v > 0
    ensures v < Pow2(BitLen(v)) <= 2 * v
  {
    if v > 1 { BitLenPow(v / 2); } else { assert BitLen(0) == 0 && BitLen(1) == 1; }
  }

  lemma ShiftedOnesAreOnes(zeros: nat, n: nat)
    ensures ShiftedOnes(zeros, n) == Pow2(n) - 1
  {
    Pow2Adds(zeros, n);
    OneLessDivided(Pow2(zeros), Pow2(n));
  }

  lemma OneLessDivided(a: int, b: int)
    requires a > 0
    ensures (a * b - 1) / a == b - 1
  {
    var x := a * b - 1;
    assert x == a * (b - 1) + (a - 1);
    DivModUnique(x, a, b - 1, a - 1);
  }

  /** nextPow2 is a power of two: the least one above v, and 1 for v up to 1. */
  lemma NextPow2IsPower(v: int)
    requires v > 1 ==> BitLen(v) < UINT_BITS
    ensures v <= 1 ==> NextPow2(v) == Pow2(0)
    ensures v > 1 ==> NextPow2(v) == Pow2(BitLen(v)) && v < NextPow2(v) <= 2 * v
  {
    if v > 1 {
      BitLenPow(v);
      ShiftedOnesAreOnes(UINT_BITS - BitLen(v), BitLen(v));
    }
  }

  /** The table sizes Build asks for. */
  function TableSize(v: nat): (n: nat)
    requires v > 1 ==> BitLen(v) < UINT_BITS
    ensures n > 0 && IsPow2(n) && (v > 0 ==> n <= 2 * v) && n == NextPow2(v)
  {
    NextPow2IsPower(v);
    NextPow2(v)
  }

  lemma {:induction false} BitLenMonotone(v: nat, w: nat)
    requires v <= w
    ensures BitLen(v) <= BitLen(w)
  {
    if v > 0 { BitLenMonotone(v / 2, w / 2); }
  }

  ghost predicate IsPow2(n: nat) {
    exists k: nat :: n == Pow2(k)
  }

  /** What int(x) & (n - 1) selects in a table of n entries. */
  function Masked(x: nat, n: nat): nat
    requires n > 0
  {
    BitAnd(x, n - 1)
  }

  lemma MaskedInRange(x: nat, n: nat)
    requires n > 0 && IsPow2(n)
    ensures Masked(x, n) == x % n < n
  {
    var k: nat :| n == Pow2(k);
    MaskIsModulo(x, k);
  }

  // ----- the two-level table -----

  /** strhashFallback, of which nothing is assumed. */
  type Hash = (bytes, uint32) -> nat

  predicate InRange(vals: seq<nat>, n: nat) {
    forall k :: 0 <= k < |vals| ==> vals[k] < n
  }

  function Slots(h: Hash, rules: seq<bytes>, vals: seq<nat>, seed: uint32, n: nat): (r: seq<nat>)
    requires n > 0 && InRange(vals, |rules|)
    ensures |r| == |vals|
    ensures forall k :: 0 <= k < |vals| ==> r[k] == Masked(h(rules[vals[k]], seed), n)
  {
    seq<nat>(|vals|, k requires 0 <= k < |vals| => Masked(h(rules[vals[k]], seed), n))
  }

  /** The seed sends the bucket's keys to pairwise different slots, none of them taken. */
  ghost predicate Fits(slots: seq<nat>, occ: seq<bool>) {
    && (forall k :: 0 <= k < |slots| ==> slots[k] < |occ| && !occ[slots[k]])
    && (forall j, k :: 0 <= j < k < |slots| ==> slots[j] != slots[k])
  }

  /** The state of an attempt that has placed the first k keys of the bucket. */
  ghost predicate Attempt(slots: seq<nat>, vals: seq<nat>, k: nat, occ0: seq<bool>, occ: seq<bool>,
                          table0: seq<nat>, table: seq<nat>)
  {
    && k <= |slots| == |vals| && |occ0| == |occ| == |table0| == |table|
    && Fits(slots[..k], occ0)
    && (forall n :: 0 <= n < |occ| ==> (occ[n] <==> occ0[n] || n in slots[..k]))
    && (forall j :: 0 <= j < k ==> slots[j] < |table| && table[slots[j]] == vals[j])
    && (forall n :: 0 <= n < |occ| && occ0[n] ==> table[n] == table0[n])
    && (forall n :: 0 <= n < |occ| ==> table[n] == table0[n] || table[n] in vals)
  }

  lemma AttemptStep(slots: seq<nat>, vals: seq<nat>, k: nat, occ0: seq<bool>, occ: seq<bool>,
                    table0: seq<nat>, table: seq<nat>)
    requires Attempt(slots, vals, k, occ0, occ, table0, table)
    requires k < |slots| && slots[k] < |occ| && !occ[slots[k]]
    ensures Attempt(slots, vals, k + 1, occ0, occ[slots[k] := true], table0, table[slots[k] := vals[k]])
  {
    assert slots[..k + 1] == slots[..k] + [slots[k]];
    assert forall j :: 0 <= j < k ==> slots[j] in slots[..k];
  }

  /** One attempt of the seed loop. A failed attempt takes back every slot it took. */
  method TrySeed(h: Hash, rules: seq<bytes>, vals: seq<nat>, seed: uint32, occ: array<bool>, level1: array<nat>)
    returns (ok: bool)
    requires level1.Length == occ.Length > 0 && IsPow2(occ.Length)
    requires InRange(vals, |rules|)
    modifies occ, level1
    ensures ok <==> Fits(Slots(h, rules, vals, seed, occ.Length), old(occ[..]))
    ensures !ok ==> occ[..] == old(occ[..])
    ensures ok ==> forall k :: 0 <= k < |vals| ==>
              var n := Slots(h, rules, vals, seed, occ.Length)[k]; occ[n] && level1[n] == vals[k]
    ensures forall n :: 0 <= n < occ.Length && old(occ[n]) ==> occ[n] && level1[n] == old(level1[n])
    ensures forall n :: 0 <= n < occ.Length && occ[n] ==> old(occ[n]) || n in Slots(h, rules, vals, seed, occ.Length)
    ensures forall n :: 0 <= n < occ.Length ==> level1[n] == old(level1[n]) || level1[n] in vals
  {
    ghost var slots := Slots(h, rules, vals, seed, occ.Length);
    ghost var occ0, table0 := occ[..], level1[..];
    var tmpOcc: seq<nat> := [];
    var k := 0;
    while k < |vals|
      invariant 0 <= k <= |vals| && tmpOcc == slots[..k]
      invariant Attempt(slots, vals, k, occ0, occ[..], table0, level1[..])
    {
      var i := vals[k];
      var n := Masked(h(rules[i], seed), occ.Length);
      MaskedInRange(h(rules[i], seed), occ.Length);
      assert slots[k] == n;
      if occ[n] {
        ConflictDoesNotFit(slots, k, occ0);
        Rollback(tmpOcc, occ, occ0);
        return false;
      }
      AttemptStep(slots, vals, k, occ0, occ[..], table0, level1[..]);
      occ[n] := true;
      tmpOcc := tmpOcc + [n];
      level1[n] := i;
      k := k + 1;
    }
    assert slots[..k] == slots;
    assert forall j :: 0 <= j < |slots| ==> slots[j] in slots[..k];
    return true;
  }

  lemma ConflictDoesNotFit(slots: seq<nat>, k: nat, occ: seq<bool>)
    requires k < |slots| && slots[k] < |occ| && (occ[slots[k]] || slots[k] in slots[..k])
    ensures !Fits(slots, occ)
  {
  }

  method Rollback(tmpOcc: seq<nat>, occ: array<bool>, ghost occ0: seq<bool>)
    requires occ.Length == |occ0|
    requires forall j :: 0 <= j < |tmpOcc| ==> tmpOcc[j] < |occ0| && !occ0[tmpOcc[j]]
    requires forall n :: 0 <= n < occ.Length ==> (occ[n] <==> occ0[n] || n in tmpOcc)
    modifies occ
    ensures occ[..] == occ0
  {
    var j := 0;
    while j < |tmpOcc|
      invariant 0 <= j <= |tmpOcc|
      invariant forall n :: 0 <= n < occ.Length ==> (occ0[n] ==> occ[n]) && (occ[n] ==> occ0[n] || n in tmpOcc[j..])
    {
      occ[tmpOcc[j]] := false;
      assert tmpOcc[j..] == [tmpOcc[j]] + tmpOcc[j + 1..];
      j := j + 1;
    }
  }

  ghost predicate Stuck(h: Hash, rules: seq<bytes>, vals: seq<nat>, occ: seq<bool>)
    requires |occ| > 0 && InRange(vals, |rules|)
  {
    forall seed: uint32 :: !Fits(Slots(h, rules, vals, seed, |occ|), occ)
  }

  /** The seed loop. The seed is a uint32 that wraps around and a failed attempt changes nothing,
      so once all seeds have failed the source repeats the same attempts for ever: None. */
  method SearchSeed(h: Hash, rules: seq<bytes>, vals: seq<nat>, occ: array<bool>, level1: array<nat>)
    returns (seed: Option<uint32>)
    requires level1.Length == occ.Length > 0 && IsPow2(occ.Length)
    requires InRange(vals, |rules|)
    modifies occ, level1
    ensures seed.None? <==> Stuck(h, rules, vals, old(occ[..]))
    ensures seed.Some? ==> forall k :: 0 <= k < |vals| ==>
              var n := Slots(h, rules, vals, seed.value, occ.Length)[k];
              n < occ.Length && occ[n] && level1[n] == vals[k]
    ensures seed.Some? ==> forall n :: 0 <= n < occ.Length && occ[n] ==>
              old(occ[n]) || n in Slots(h, rules, vals, seed.value, occ.Length)
    ensures forall n :: 0 <= n < occ.Length && old(occ[n]) ==> occ[n] && level1[n] == old(level1[n])
    ensures forall n :: 0 <= n < occ.Length ==> level1[n] == old(level1[n]) || level1[n] in vals
  {
    var s: uint32 := 0;
    while true
      invariant occ[..] == old(occ[..])
      invariant forall t: uint32 :: t < s ==> !Fits(Slots(h, rules, vals, t, occ.Length), old(occ[..]))
      invariant forall n :: 0 <= n < occ.Length && old(occ[n]) ==> level1[n] == old(level1[n])
      invariant forall n :: 0 <= n < occ.Length ==> level1[n] == old(level1[n]) || level1[n] in vals
      decreases 0x1_0000_0000 - s
    {
      var ok := TrySeed(h, rules, vals, s, occ, level1);
      if ok {
        return Some(s);
      }
      if s == 0xFFFF_FFFF {
        return None;
      }
      s := s + 1;
    }
  }

  // ----- what the tables hold -----

  const EMPTY_KEY: bytes := [101, 109, 112, 116, 121, 95, 95, 95] // "empty___"

  ghost function Dotted(domain: set<bytes>): set<bytes> {
    set d | d in domain :: [DOT] + d
  }

  ghost function TableKeys(full: set<bytes>, domain: set<bytes>): set<bytes> {
    full + domain + Dotted(domain)
  }

  lemma KeysGrow(full: set<bytes>, domain: set<bytes>, p: bytes)
    ensures TableKeys(full, domain + {p}) == TableKeys(full, domain) + {[DOT] + p} + {p}
  {
    assert Dotted(domain + {p}) == Dotted(domain) + {[DOT] + p};
  }

  ghost function StoredKeys(full: set<bytes>, domain: set<bytes>): set<bytes> {
    if TableKeys(full, domain) == {} then {EMPTY_KEY} else TableKeys(full, domain)
  }

  function BucketOf(rule: bytes, n: nat): nat
    requires n > 0
  {
    Masked(Rolling(rule), n)
  }

  /** Following the two levels from rule i ends in i. */
  ghost predicate Placed(h: Hash, rules: seq<bytes>, level0: seq<uint32>, level1: seq<nat>, i: nat)
    requires i < |rules| && |level0| > 0 && |level1| > 0
  {
    var b := BucketOf(rules[i], |level0|);
    b < |level0| &&
    var n := Masked(h(rules[i], level0[b]), |level1|);
    n < |level1| && level1[n] == i
  }

  ghost predicate Occupied(h: Hash, rules: seq<bytes>, level0: seq<uint32>, occ: seq<bool>, i: nat)
    requires i < |rules| && |level0| > 0 && |occ| > 0
  {
    var b := BucketOf(rules[i], |level0|);
    b < |level0| &&
    var n := Masked(h(rules[i], level0[b]), |occ|);
    n < |occ| && occ[n]
  }

  function RuleSet(rules: seq<bytes>): set<bytes> {
    set r | r in rules
  }

  /** Bucket b lists exactly the rules that hash to it, each once. */
  ghost predicate Sorted(rules: seq<bytes>, buckets: seq<seq<nat>>) {
    && |buckets| > 0
    && (forall b :: 0 <= b < |buckets| ==> InRange(buckets[b], |rules|))
    && (forall b, k :: 0 <= b < |buckets| && 0 <= k < |buckets[b]| ==> BucketOf(rules[buckets[b][k]], |buckets|) == b)
    && (forall b, j, k :: 0 <= b < |buckets| && 0 <= j < k < |buckets[b]| ==> buckets[b][j] < buckets[b][k])
    && (forall i :: 0 <= i < |rules| ==>
          BucketOf(rules[i], |buckets|) < |buckets| && i in buckets[BucketOf(rules[i], |buckets|)])
  }

  function SlotOf(h: Hash, rules: seq<bytes>, level0: seq<uint32>, size: nat, i: nat): nat
    requires i < |rules| && |level0| > 0 && size > 0
  {
    var b := BucketOf(rules[i], |level0|);
    if b < |level0| then Masked(h(rules[i], level0[b]), size) else size
  }

  /** Slot n is taken by a rule of a bucket that is placed and no smaller than the remaining ones. */
  ghost predicate Taken(h: Hash, rules: seq<bytes>, buckets: seq<seq<nat>>, level0: seq<uint32>, size: nat,
                        remaining: set<int>, n: nat)
    requires Sorted(rules, buckets) && |level0| == |buckets| && size > 0
  {
    exists i :: 0 <= i < |rules| && SlotOf(h, rules, level0, size, i) == n && Earlier(rules, buckets, remaining, i)
  }

  ghost predicate Earlier(rules: seq<bytes>, buckets: seq<seq<nat>>, remaining: set<int>, i: nat)
    requires Sorted(rules, buckets) && i < |rules|
  {
    var a := BucketOf(rules[i], |buckets|);
    a !in remaining && forall c :: c in remaining && 0 <= c < |buckets| ==> |buckets[c]| <= |buckets[a]|
  }

  /** Placing larger buckets first has come to a bucket that no seed can place beside them. */
  ghost predicate DeadEnd(h: Hash, rules: seq<bytes>, buckets: seq<seq<nat>>, level0: seq<uint32>, occ: seq<bool>,
                          b: nat)
    requires Sorted(rules, buckets) && |level0| == |buckets| && |occ| > 0
  {
    && b < |buckets| && buckets[b] != []
    && (forall n :: 0 <= n < |occ| && occ[n] ==> Taken(h, rules, buckets, level0, |occ|, {b}, n))
    && Stuck(h, rules, buckets[b], occ)
  }

  ghost predicate NoPlacement(h: Hash, rules: seq<bytes>, buckets: seq<seq<nat>>, size: nat)
    requires Sorted(rules, buckets)
  {
    exists level0: seq<uint32>, occ: seq<bool>, b: nat ::
      |level0| == |buckets| && |occ| == size > 0 && DeadEnd(h, rules, buckets, level0, occ, b)
  }

  /** The loop over the rule map, in whatever order it is walked. */
  method FillBuckets(ruleMap: map<bytes, uint32>, n: nat) returns (rules: seq<bytes>, buckets: seq<seq<nat>>)
    requires n > 0 && IsPow2(n)
    requires Hashed(ruleMap)
    ensures |buckets| == n && Sorted(rules, buckets)
    ensures RuleSet(rules) == ruleMap.Keys && |rules| == |ruleMap|
  {
    rules := [];
    buckets := seq(n, _ => []);
    var rest := ruleMap.Keys;
    while rest != {}
      invariant rest <= ruleMap.Keys
      invariant |buckets| == n && Sorted(rules, buckets)
      invariant RuleSet(rules) == ruleMap.Keys - rest && |rules| + |rest| == |ruleMap|
      decreases rest
    {
      var rule :| rule in rest;
      rest := rest - {rule};
      MaskedInRange(Rolling(rule), n);
      var b := Masked(ruleMap[rule], n);
      SortedStep(rules, buckets, rule, b);
      buckets := buckets[b := buckets[b] + [|rules|]];
      rules := rules + [rule];
    }
  }

  lemma SortedStep(rules: seq<bytes>, buckets: seq<seq<nat>>, rule: bytes, b: nat)
    requires Sorted(rules, buckets) && b < |buckets| && b == BucketOf(rule, |buckets|)
    ensures Sorted(rules + [rule], buckets[b := buckets[b] + [|rules|]])
    ensures RuleSet(rules + [rule]) == RuleSet(rules) + {rule}
  {
  }

  /** The loop over the buckets, larger ones first; bySize leaves the order of equal sizes open. */
  method PlaceBuckets(h: Hash, rules: seq<bytes>, buckets: seq<seq<nat>>, level0: array<uint32>, level1: array<nat>)
    returns (ok: bool)
    requires Sorted(rules, buckets) && |rules| > 0
    requires level0.Length == |buckets| && level1.Length > 0 && IsPow2(level1.Length)
    requires forall n :: 0 <= n < level1.Length ==> level1[n] == 0
    modifies level0, level1
    ensures ok ==> forall i :: 0 <= i < |rules| ==> Placed(h, rules, level0[..], level1[..], i)
    ensures !ok ==> NoPlacement(h, rules, buckets, level1.Length)
    ensures forall n :: 0 <= n < level1.Length ==> level1[n] < |rules|
  {
    var occ := new bool[level1.Length](_ => false);
    var remaining := set b | 0 <= b < |buckets| && |buckets[b]| > 0;
    while remaining != {}
      invariant forall b :: b in remaining ==> 0 <= b < |buckets| && buckets[b] != []
      invariant forall n :: 0 <= n < occ.Length && occ[n] ==>
                Taken(h, rules, buckets, level0[..], occ.Length, remaining, n)
      invariant AllPlaced(h, rules, buckets, level0[..], level1[..], occ[..], remaining)
      invariant forall n :: 0 <= n < level1.Length ==> level1[n] < |rules|
      decreases remaining
    {
      ghost var any :| any in remaining;
      LargestBucket(buckets, remaining, any);
      var b :| b in remaining && forall c :: c in remaining ==> |buckets[c]| <= |buckets[b]|;
      ghost var level0Before, level1Before, occBefore := level0[..], level1[..], occ[..];
      var seed := SearchSeed(h, rules, buckets[b], occ, level1);
      if seed.None? {
        TakenBefore(h, rules, buckets, level0Before, occBefore, remaining, b);
        return false;
      }
      level0[b] := seed.value;
      TakenNext(h, rules, buckets, level0Before, level0[..], occBefore, occ[..], remaining, b);
      AllPlacedNext(h, rules, buckets, level0Before, level0[..], level1Before, level1[..], occBefore, occ[..],
                    remaining, b);
      remaining := remaining - {b};
    }
    return true;
  }

  /** The rules of the buckets done so far are in their final slots, and those are marked. */
  ghost predicate AllPlaced(h: Hash, rules: seq<bytes>, buckets: seq<seq<nat>>, level0: seq<uint32>, level1: seq<nat>,
                            occ: seq<bool>, remaining: set<int>)
    requires |level0| == |buckets| > 0 && |level1| == |occ| > 0
  {
    forall i :: 0 <= i < |rules| && BucketOf(rules[i], |buckets|) !in remaining ==>
      Placed(h, rules, level0, level1, i) && Occupied(h, rules, level0, occ, i)
  }

  lemma AllPlacedNext(h: Hash, rules: seq<bytes>, buckets: seq<seq<nat>>, level0: seq<uint32>, level0': seq<uint32>,
                      level1: seq<nat>, level1': seq<nat>, occ: seq<bool>, occ': seq<bool>, remaining: set<int>, b: nat)
    requires Sorted(rules, buckets) && |level0'| == |level0| == |buckets| && b < |buckets|
    requires |level1'| == |level1| == |occ'| == |occ| > 0
    requires AllPlaced(h, rules, buckets, level0, level1, occ, remaining)
    requires forall c :: 0 <= c < |level0| && c != b ==> level0'[c] == level0[c]
    requires forall n :: 0 <= n < |occ| && occ[n] ==> occ'[n] && level1'[n] == level1[n]
    requires forall k :: 0 <= k < |buckets[b]| ==>
               var n := Slots(h, rules, buckets[b], level0'[b], |occ|)[k];
               n < |occ| && occ'[n] && level1'[n] == buckets[b][k]
    ensures AllPlaced(h, rules, buckets, level0', level1', occ', remaining - {b})
  {
    forall i | 0 <= i < |rules| && BucketOf(rules[i], |buckets|) !in remaining - {b}
      ensures Placed(h, rules, level0', level1', i) && Occupied(h, rules, level0', occ', i)
    {
      if BucketOf(rules[i], |buckets|) == b {
        InBucketIsPlaced(h, rules, buckets, b, level0'[b], level0', level1', occ', i);
      } else {
        PlacedElsewhere(h, rules, b, level0, level0', level1, level1', occ, occ', i);
      }
    }
  }

  /** What is taken by earlier buckets is taken by buckets no smaller than b. */
  lemma TakenBefore(h: Hash, rules: seq<bytes>, buckets: seq<seq<nat>>, level0: seq<uint32>, occ: seq<bool>,
                    remaining: set<int>, b: nat)
    requires Sorted(rules, buckets) && |level0| == |buckets| && |occ| > 0
    requires b < |buckets| && b in remaining && buckets[b] != [] && Stuck(h, rules, buckets[b], occ)
    requires forall n :: 0 <= n < |occ| && occ[n] ==> Taken(h, rules, buckets, level0, |occ|, remaining, n)
    ensures NoPlacement(h, rules, buckets, |occ|)
  {
    forall n | 0 <= n < |occ| && occ[n]
      ensures Taken(h, rules, buckets, level0, |occ|, {b}, n)
    {
      ghost var i :| 0 <= i < |rules| && SlotOf(h, rules, level0, |occ|, i) == n
        && Earlier(rules, buckets, remaining, i);
      assert Earlier(rules, buckets, {b}, i);
    }
    assert DeadEnd(h, rules, buckets, level0, occ, b);
  }

  lemma TakenNext(h: Hash, rules: seq<bytes>, buckets: seq<seq<nat>>, level0: seq<uint32>, level0': seq<uint32>,
                  occ: seq<bool>, occ': seq<bool>, remaining: set<int>, b: nat)
    requires Sorted(rules, buckets) && |level0'| == |level0| == |buckets| && |occ'| == |occ| > 0 && b < |buckets|
    requires forall c :: 0 <= c < |level0| && c != b ==> level0'[c] == level0[c]
    requires b in remaining && forall c :: c in remaining ==> 0 <= c < |buckets| && |buckets[c]| <= |buckets[b]|
    requires forall n :: 0 <= n < |occ| && occ[n] ==> Taken(h, rules, buckets, level0, |occ|, remaining, n)
    requires forall n :: 0 <= n < |occ| && occ'[n] ==> occ[n] || n in Slots(h, rules, buckets[b], level0'[b], |occ|)
    ensures forall n :: 0 <= n < |occ| && occ'[n] ==> Taken(h, rules, buckets, level0', |occ|, remaining - {b}, n)
  {
    forall n | 0 <= n < |occ| && occ'[n]
      ensures Taken(h, rules, buckets, level0', |occ|, remaining - {b}, n)
    {
      if occ[n] {
        ghost var i :| 0 <= i < |rules| && SlotOf(h, rules, level0, |occ|, i) == n
          && Earlier(rules, buckets, remaining, i);
        assert SlotOf(h, rules, level0', |occ|, i) == n && Earlier(rules, buckets, remaining - {b}, i);
      } else {
        ghost var slots := Slots(h, rules, buckets[b], level0'[b], |occ|);
        ghost var k :| 0 <= k < |slots| && slots[k] == n;
        ghost var i := buckets[b][k];
        assert SlotOf(h, rules, level0', |occ|, i) == n && Earlier(rules, buckets, remaining - {b}, i);
      }
    }
  }

  lemma InBucketIsPlaced(h: Hash, rules: seq<bytes>, buckets: seq<seq<nat>>, b: nat, seed: uint32,
                         level0: seq<uint32>, level1: seq<nat>, occ: seq<bool>, i: nat)
    requires Sorted(rules, buckets) && |level0| == |buckets| && |level1| == |occ| > 0
    requires b < |buckets| && level0[b] == seed && i < |rules| && BucketOf(rules[i], |buckets|) == b
    requires forall k :: 0 <= k < |buckets[b]| ==>
               var n := Slots(h, rules, buckets[b], seed, |occ|)[k]; n < |occ| && occ[n] && level1[n] == buckets[b][k]
    ensures Placed(h, rules, level0, level1, i) && Occupied(h, rules, level0, occ, i)
  {
    var k :| 0 <= k < |buckets[b]| && buckets[b][k] == i;
    assert Slots(h, rules, buckets[b], seed, |occ|)[k] == Masked(h(rules[i], seed), |occ|);
  }

  lemma PlacedElsewhere(h: Hash, rules: seq<bytes>, b: nat, level0: seq<uint32>, level0': seq<uint32>,
                        level1: seq<nat>, level1': seq<nat>, occ: seq<bool>, occ': seq<bool>, i: nat)
    requires |level0'| == |level0| > 0 && |level1'| == |level1| == |occ'| == |occ| > 0
    requires forall c :: 0 <= c < |level0| && c != b ==> level0'[c] == level0[c]
    requires forall n :: 0 <= n < |occ| && occ[n] ==> occ'[n] && level1'[n] == level1[n]
    requires i < |rules| && BucketOf(rules[i], |level0|) != b
    requires Placed(h, rules, level0, level1, i) && Occupied(h, rules, level0, occ, i)
    ensures Placed(h, rules, level0', level1', i) && Occupied(h, rules, level0', occ', i)
  {
  }

  ghost function Larger(buckets: seq<seq<nat>>, remaining: set<int>, b: int): set<int>
    requires 0 <= b < |buckets| && forall c :: c in remaining ==> 0 <= c < |buckets|
  {
    set c | c in remaining && |buckets[c]| > |buckets[b]|
  }

  lemma {:induction false} LargestBucket(buckets: seq<seq<nat>>, remaining: set<int>, b: int)
    requires forall c :: c in remaining ==> 0 <= c < |buckets|
    requires b in remaining
    ensures exists m :: m in remaining && forall c :: c in remaining ==> |buckets[c]| <= |buckets[m]|
    decreases Larger(buckets, remaining, b)
  {
    if c :| c in remaining && |buckets[c]| > |buckets[b]| {
      assert c in Larger(buckets, remaining, b) && c !in Larger(buckets, remaining, c);
      LargestBucket(buckets, remaining, c);
    }
  }

  // ----- the group -----

  /** The suffixes Match looks up: the whole name and everything from a dot on. */
  ghost predicate TableMatch(keys: set<bytes>, s: bytes) {
    s in keys || exists i :: 0 <= i < |s| && s[i] == DOT && s[i..] in keys
  }

  ghost predicate OtherMatch(others: seq<Entry>, s: bytes) {
    exists k :: 0 <= k < |others| && others[k].m(s)
  }

  /** ids is the id of the first of the others that accepts s. */
  ghost predicate FirstOther(others: seq<Entry>, s: bytes, ids: seq<uint32>) {
    exists k ::
      0 <= k < |others| && others[k].m(s) && ids == [others[k].id] && forall j :: 0 <= j < k ==> !others[j].m(s)
  }

  /** After Build: every stored key is found through both levels, and every slot names a rule. */
  ghost predicate TableReady(h: Hash, rules: seq<bytes>, level0: seq<uint32>, level1: seq<nat>, keys: set<bytes>) {
    && |level0| > 0 && IsPow2(|level0|) && |level1| > 0 && IsPow2(|level1|)
    && RuleSet(rules) == keys
    && (forall i :: 0 <= i < |rules| ==> Placed(h, rules, level0, level1, i))
    && (forall n :: 0 <= n < |level1| ==> level1[n] < |rules|)
  }

  /** Some order of the keys leads the placement into a dead end. */
  ghost predicate Unbuildable(h: Hash, keys: set<bytes>) {
    |keys| > 0 && BitLen(|keys|) < UINT_BITS &&
    assert BitLen(|keys| / 4) < UINT_BITS by { BitLenMonotone(|keys| / 4, |keys|); }
    exists rules: seq<bytes>, buckets: seq<seq<nat>> ::
      && Sorted(rules, buckets) && NoPlacement(h, rules, buckets, TableSize(|keys|))
      && RuleSet(rules) == keys && |rules| == |keys| && |buckets| == TableSize(|keys| / 4)
  }

  /** The table part of Build. */
  method BuildTable(h: Hash, ruleMap: map<bytes, uint32>, ghost keys: set<bytes>)
    returns (ok: bool, rules: seq<bytes>, level0: array<uint32>, level1: array<nat>)
    requires |ruleMap| > 0 && BitLen(|ruleMap|) < UINT_BITS && keys == ruleMap.Keys
    requires Hashed(ruleMap)
    ensures fresh(level0) && fresh(level1)
    ensures |keys| == |ruleMap| && BitLen(|keys| / 4) < UINT_BITS
    ensures level0.Length == NextPow2(|keys| / 4) && level1.Length == NextPow2(|keys|)
    ensures ok ==> TableReady(h, rules, level0[..], level1[..], keys)
    ensures !ok ==> Unbuildable(h, keys)
  {
    var keyLen := |ruleMap|;
    BitLenMonotone(keyLen / 4, keyLen);
    var n0, n1 := TableSize(keyLen / 4), TableSize(keyLen);
    var buckets;
    rules, buckets := FillBuckets(ruleMap, n0);
    assert |RuleSet(rules)| > 0;
    level0 := new uint32[n0](_ => 0);
    level1 := new nat[n1](_ => 0);
    ok := PlaceBuckets(h, rules, buckets, level0, level1);
    assert |ruleMap.Keys| == |ruleMap|;
  }

  ghost predicate Hashed(ruleMap: map<bytes, uint32>) {
    forall r {:trigger ruleMap[r]} :: r in ruleMap ==> ruleMap[r] == Rolling(r)
  }

  /** The rule map holds each key the patterns stand for, under the key's own rolling hash. */
  ghost predicate RulesHashed(ruleMap: map<bytes, uint32>, full: set<bytes>, domain: set<bytes>) {
    Hashed(ruleMap) && ruleMap.Keys == TableKeys(full, domain)
  }

  lemma HashOneMore(ruleMap: map<bytes, uint32>, p: bytes)
    requires Hashed(ruleMap)
    ensures Hashed(ruleMap[p := Rolling(p)]) && ruleMap[p := Rolling(p)].Keys == ruleMap.Keys + {p}
  {
  }

  lemma AddFullRule(ruleMap: map<bytes, uint32>, full: set<bytes>, domain: set<bytes>, p: bytes)
    requires RulesHashed(ruleMap, full, domain)
    ensures RulesHashed(ruleMap[p := Rolling(p)], full + {p}, domain)
  {
    HashOneMore(ruleMap, p);
  }

  /** One more byte in front is one more step of the hash, so "." + p gets its own hash too. */
  lemma AddDomainRule(ruleMap: map<bytes, uint32>, full: set<bytes>, domain: set<bytes>, p: bytes)
    requires RulesHashed(ruleMap, full, domain)
    ensures RulesHashed(ruleMap[[DOT] + p := Step(Rolling(p), DOT)][p := Rolling(p)], full, domain + {p})
  {
    RollingDotted(p);
    KeysGrow(full, domain, p);
    HashOneMore(ruleMap, [DOT] + p);
    HashOneMore(ruleMap[[DOT] + p := Rolling([DOT] + p)], p);
  }

  lemma KeysToStore(ruleMap: map<bytes, uint32>, full: set<bytes>, domain: set<bytes>)
    requires RulesHashed(ruleMap, full, domain)
    ensures StoredKeys(full, domain) == if |ruleMap| == 0 then {EMPTY_KEY} else ruleMap.Keys
  {
    if |ruleMap| == 0 { assert ruleMap.Keys == {}; } else { assert |ruleMap.Keys| > 0; }
  }

  /** The rule map is never empty: a group without rules stores a name nobody asks for. */
  method WithSentinel(ruleMap: map<bytes, uint32>, ghost full: set<bytes>, ghost domain: set<bytes>,
                      ghost keys: set<bytes>)
    returns (stored: map<bytes, uint32>)
    requires RulesHashed(ruleMap, full, domain) && BitLen(|ruleMap|) < UINT_BITS
    requires keys == StoredKeys(full, domain)
    ensures |stored| > 0 && BitLen(|stored|) < UINT_BITS && Hashed(stored)
    ensures stored.Keys == keys
  {
    KeysToStore(ruleMap, full, domain);
    stored := ruleMap;
    if |ruleMap| == 0 {
      assert BitLen(1) == 1;
      var h := RollingHash(EMPTY_KEY);
      stored := map[EMPTY_KEY := h];
    }
  }

  lemma RollingDotted(p: bytes)
    ensures Rolling([DOT] + p) == Step(Rolling(p), DOT)
  {
    assert ([DOT] + p)[1..] == p;
  }

  class MphMatcherGroup {
    const strhash: Hash
    const compile: bytes -> Option<bytes -> bool> // regexp.Compile
    var ac: ACAutomaton?
    var otherMatchers: seq<Entry>
    var rules: seq<bytes>
    var level0: array<uint32>
    var level1: array<nat>
    var count: uint32
    var ruleMap: map<bytes, uint32>
    // the lower-cased patterns added so far, by kind; keywords by their reading
    ghost var full: set<bytes>
    ghost var domain: set<bytes>
    ghost var keywords: set<Word>

    ghost predicate Collecting()
      reads this, ac
    {
      && RulesHashed(ruleMap, full, domain)
      && (if ac == null then keywords == {} else ac.Unbuilt() && KeywordTrie(ac.Marks(), keywords))
    }

    ghost predicate Ready()
      reads this, ac, level0, level1
    {
      && TableReady(strhash, rules, level0[..], level1[..], StoredKeys(full, domain))
      && (if ac == null then keywords == {} else ac.Built() && KeywordTrie(ac.Marks(), keywords))
    }

    constructor (strhash: Hash, compile: bytes -> Option<bytes -> bool>)
      ensures Collecting() && full == {} && domain == {} && keywords == {} && otherMatchers == [] && count == 1
      ensures this.strhash == strhash && this.compile == compile && ac == null
    {
      this.strhash := strhash;
      this.compile := compile;
      ac := null;
      otherMatchers := [];
      rules := [];
      level0 := new uint32[0];
      level1 := new nat[0];
      count := 1;
      ruleMap := map[];
      full, domain, keywords := {}, {}, {};
    }

    method AddFullOrDomainPattern(pattern: bytes, t: Kind)
      requires Collecting() && (t == Full || t == Domain)
      modifies `ruleMap, `full, `domain
      ensures Collecting()
      ensures full == (if t == Full then old(full) + {pattern} else old(full))
      ensures domain == (if t == Domain then old(domain) + {pattern} else old(domain))
    {
      var h := RollingHash(pattern);
      if t == Domain {
        AddDomainRule(ruleMap, full, domain, pattern);
        ruleMap := ruleMap[[DOT] + pattern := Step(h, DOT)];
        domain := domain + {pattern};
      } else {
        AddFullRule(ruleMap, full, domain, pattern);
        full := full + {pattern};
      }
      ruleMap := ruleMap[pattern := h];
    }

    method AddKeyword(pattern: bytes)
      requires Collecting() && Indexable(pattern)
      modifies `ac, `keywords, if ac == null then {} else {ac}
      ensures Collecting()
      ensures ac == old(ac) || (old(ac) == null && fresh(ac))
      ensures keywords == old(keywords) + {Reading(pattern)}
    {
      if ac == null {
        ac := new ACAutomaton();
      }
      KeywordTrieAdd(ac.Marks(), keywords, Reading(pattern));
      ac.Add(pattern, Substr);
      keywords := keywords + {Reading(pattern)};
    }

    method AddPattern(pattern: bytes, t: Kind) returns (id: Option<uint32>)
      requires Collecting() && (t == Substr ==> Indexable(pattern))
      modifies this, if ac == null then {} else {ac}
      ensures Collecting()
      ensures ac == old(ac) || (old(ac) == null && fresh(ac))
      ensures count == old(count) && (t != Substr ==> ac == old(ac))
      ensures id == if t == Regex && compile(pattern).None? then None else Some(count)
      ensures full == (if t == Full then old(full) + {ToLower(pattern)} else old(full))
      ensures domain == (if t == Domain then old(domain) + {ToLower(pattern)} else old(domain))
      ensures keywords == (if t == Substr then old(keywords) + {Reading(pattern)} else old(keywords))
      ensures otherMatchers == old(otherMatchers) +
                if t == Regex && compile(pattern).Some? then [Entry(compile(pattern).value, count)] else []
    {
      match t {
        case Substr =>
          AddKeyword(pattern);
        case Full | Domain =>
          AddFullOrDomainPattern(ToLower(pattern), t);
        case Regex =>
          var ok := AddRegex(pattern);
          if !ok { return None; }
      }
      return Some(count);
    }

    method AddRegex(pattern: bytes) returns (ok: bool)
      modifies `otherMatchers
      ensures ok == compile(pattern).Some?
      ensures otherMatchers == old(otherMatchers) + if ok then [Entry(compile(pattern).value, count)] else []
    {
      var r := compile(pattern);
      if r.None? { return false; }
      otherMatchers := otherMatchers + [Entry(r.value, count)];
      return true;
    }

    /** The tables of Build; false stands for a search that never returns, see SearchSeed. */
    method BuildRules(ghost keys: set<bytes>) returns (ok: bool)
      requires keys == StoredKeys(full, domain)
      requires RulesHashed(ruleMap, full, domain) && BitLen(|ruleMap|) < UINT_BITS
      modifies `ruleMap, `rules, `level0, `level1
      ensures ok ==> TableReady(strhash, rules, level0[..], level1[..], keys)
      ensures !ok ==> Unbuildable(strhash, keys)
    {
      var stored := WithSentinel(ruleMap, full, domain, keys);
      var names, seeds, slots;
      ok, names, seeds, slots := BuildTable(strhash, stored, keys);
      ghost var table0, table1 := seeds[..], slots[..];
      ruleMap, rules, level0, level1 := map[], names, seeds, slots;
      assert level0[..] == table0 && level1[..] == table1;
    }

    method Build() returns (ok: bool)
      requires Collecting()
      requires BitLen(|ruleMap|) < UINT_BITS
      modifies `ruleMap, `rules, `level0, `level1
      modifies if ac == null then {} else {ac}
      ensures ok ==> Ready()
      ensures !ok ==> Unbuildable(strhash, StoredKeys(full, domain))
      ensures unchanged(`full, `domain, `keywords, `otherMatchers, `ac)
    {
      if ac != null {
        ac.Build();
      }
      ok := BuildRules(StoredKeys(full, domain));
    }

    /** Found exactly for stored keys, whatever the hash function; no index is out of range. */
    method Lookup(h: uint32, s: bytes) returns (found: bool)
      requires Ready()
      ensures found ==> s in StoredKeys(full, domain)
      ensures h == Rolling(s) ==> (found <==> s in StoredKeys(full, domain))
    {
      MaskedInRange(h, level0.Length);
      var i0 := Masked(h, level0.Length);
      var seed := level0[i0];
      MaskedInRange(strhash(s, seed), level1.Length);
      var i1 := Masked(strhash(s, seed), level1.Length);
      var n := level1[i1];
      if h == Rolling(s) && s in StoredKeys(full, domain) {
        assert s in rules;
        ghost var i :| 0 <= i < |rules| && rules[i] == s;
        assert Placed(strhash, rules, level0[..], level1[..], i);
      }
      return s == rules[n];
    }

    method Match(pattern: bytes) returns (result: seq<uint32>)
      requires Ready() && (ac != null ==> Indexable(pattern))
      ensures result != [] <==>
                || TableMatch(StoredKeys(full, domain), pattern)
                || (ac != null && MatchSpec(ac.Marks(), Reading(pattern)))
                || OtherMatch(otherMatchers, pattern)
      ensures result == [] || result == [1] || FirstOther(otherMatchers, pattern, result)
    {
      var hash: uint32 := 0;
      var i := |pattern|;
      while i > 0
        invariant 0 <= i <= |pattern|
        invariant hash == Rolling(pattern[i..])
        invariant forall j :: i <= j < |pattern| && pattern[j] == DOT ==> pattern[j..] !in StoredKeys(full, domain)
      {
        i := i - 1;
        assert pattern[i..][1..] == pattern[i + 1..];
        hash := Step(hash, pattern[i]);
        if pattern[i] == DOT {
          var hit := Lookup(hash, pattern[i..]);
          if hit { return [1]; }
        }
      }
      assert pattern[0..] == pattern;
      var hit := Lookup(hash, pattern);
      if hit { return [1]; }
      if ac != null {
        hit := ac.Match(pattern);
        if hit { return [1]; }
      }
      var k := 0;
      while k < |otherMatchers|
        invariant 0 <= k <= |otherMatchers|
        invariant forall j :: 0 <= j < k ==> !otherMatchers[j].m(pattern)
      {
        if otherMatchers[k].m(pattern) { return [otherMatchers[k].id]; }
        k := k + 1;
      }
      return [];
    }
  }
}
