/** common/strmatcher/strmatcher.go and full_matcher.go: the group of matchers and its ids. */
module MatcherGroup {
  import opened Bytes
  import opened Matchers
  import opened Labels
  import opened DomainMatcher

  datatype Matcher = FullMatcher(p: bytes) | DomainMatcher(p: bytes) | OtherMatcher(m: bytes -> bool)

  predicate Accepts(m: Matcher, s: bytes) {
    match m
    case FullMatcher(p) => FullMatch(p, s)
    case DomainMatcher(p) => DomainMatch(p, s)
    case OtherMatcher(f) => f(s)
  }

  /** The count after n calls of Add: a uint32 that wraps around. */
  function Id(n: nat): uint32 {
    n % 0x1_0000_0000
  }

  // ----- where Add puts the first n matchers -----

  /** An exact name is filed like a path of one label. */
  function FullRules(added: seq<Matcher>, n: nat): seq<Rule>
    requires n <= |added|
  {
    if n == 0 then []
    else FullRules(added, n - 1) + if added[n - 1].FullMatcher? then [Rule([added[n - 1].p], Id(n))] else []
  }

  function DomainRules(added: seq<Matcher>, n: nat): seq<Rule>
    requires n <= |added|
  {
    if n == 0 then []
    else DomainRules(added, n - 1) + if added[n - 1].DomainMatcher? then [Rule(PathOf(added[n - 1].p), Id(n))] else []
  }

  function Others(added: seq<Matcher>, n: nat): seq<Entry>
    requires n <= |added|
  {
    if n == 0 then []
    else Others(added, n - 1) + if added[n - 1].OtherMatcher? then [Entry(added[n - 1].m, Id(n))] else []
  }

  function OtherIdsUpTo(others: seq<Entry>, s: bytes, n: nat): seq<uint32>
    requires n <= |others|
  {
    if n == 0 then [] else OtherIdsUpTo(others, s, n - 1) + if others[n - 1].m(s) then [others[n - 1].id] else []
  }

  function OtherIds(others: seq<Entry>, s: bytes): seq<uint32> {
    OtherIdsUpTo(others, s, |others|)
  }

  lemma {:induction false} OtherIdsOfExtended(others: seq<Entry>, e: Entry, s: bytes, n: nat)
    requires n <= |others|
    ensures OtherIdsUpTo(others + [e], s, n) == OtherIdsUpTo(others, s, n)
  {
    if n > 0 { OtherIdsOfExtended(others, e, s, n - 1); }
  }

  /** What Match returns for the first n matchers. */
  ghost function MatchIds(added: seq<Matcher>, n: nat, s: bytes): seq<uint32>
    requires n <= |added|
  {
    ValuesAt(FullRules(added, n), [s]) + MatchSpec(DomainRules(added, n), s) + OtherIds(Others(added, n), s)
  }

  // ----- every accepting id exactly once -----

  function Count(values: seq<uint32>, v: uint32): nat {
    if values == [] then 0
    else var n := |values| - 1; Count(values[..n], v) + if values[n] == v then 1 else 0
  }

  lemma {:induction false} CountAppend(a: seq<uint32>, b: seq<uint32>, v: uint32)
    ensures Count(a + b, v) == Count(a, v) + Count(b, v)
  {
    if b == [] {
      assert a + b == a;
    } else {
      var n := |b| - 1;
      assert (a + b)[..|a + b| - 1] == a + b[..n];
      CountAppend(a, b[..n], v);
    }
  }

  lemma CountAtAppend(rules: seq<Rule>, rule: Rule, path: Path, v: uint32)
    ensures Count(ValuesAt(rules + [rule], path), v) ==
            Count(ValuesAt(rules, path), v) + if rule.path == path && rule.value == v then 1 else 0
  {
    ValuesAtAppend(rules, rule, path);
    CountAppend(ValuesAt(rules, path), [rule.value], v);
    assert ValuesAt(rules, path) + [] == ValuesAt(rules, path);
  }

  ghost predicate OnPath(rule: Rule, path: Path, k: nat)
    requires k <= |path|
  {
    0 < |rule.path| <= k && rule.path == path[..|rule.path|]
  }

  lemma {:induction false} CountAlong(rules: seq<Rule>, rule: Rule, path: Path, k: nat, v: uint32)
    requires k <= |path|
    ensures Count(ValuesAlong(rules + [rule], path, k), v) ==
            Count(ValuesAlong(rules, path, k), v) + if OnPath(rule, path, k) && rule.value == v then 1 else 0
  {
    if k > 0 {
      CountAlong(rules, rule, path, k - 1, v);
      CountAtAppend(rules, rule, path[..k], v);
      CountAppend(ValuesAt(rules, path[..k]), ValuesAlong(rules, path, k - 1), v);
      CountAppend(ValuesAt(rules + [rule], path[..k]), ValuesAlong(rules + [rule], path, k - 1), v);
      assert |path[..k]| == k;
    }
  }

  lemma CountDomain(rules: seq<Rule>, p: bytes, value: uint32, s: bytes, v: uint32)
    ensures Count(MatchSpec(rules + [Rule(PathOf(p), value)], s), v) ==
            Count(MatchSpec(rules, s), v) + if s != [] && DomainMatch(p, s) && value == v then 1 else 0
  {
    if s != [] {
      CountAlong(rules, Rule(PathOf(p), value), PathOf(s), |PathOf(s)|, v);
      DomainMatchIsPrefix(p, s);
    }
  }

  lemma CountOther(others: seq<Entry>, e: Entry, s: bytes, v: uint32)
    ensures Count(OtherIds(others + [e], s), v) == Count(OtherIds(others, s), v) + if e.m(s) && e.id == v then 1 else 0
  {
    OtherIdsOfExtended(others, e, s, |others|);
    CountAppend(OtherIds(others, s), [e.id], v);
    assert OtherIds(others, s) + [] == OtherIds(others, s);
  }

  /** Match finds m on s: m accepts it, but domain rules are not looked up for the empty name. */
  predicate Reported(m: Matcher, s: bytes) {
    Accepts(m, s) && !(s == [] && m.DomainMatcher?)
  }

  // Which part of the group each matcher went to, and whether it reports s.

  datatype Part = FullPart | DomainPart | OtherPart

  function PartOf(m: Matcher): Part {
    match m
    case FullMatcher(_) => FullPart
    case DomainMatcher(_) => DomainPart
    case OtherMatcher(_) => OtherPart
  }

  function Parts(added: seq<Matcher>): seq<Part> {
    seq(|added|, k requires 0 <= k < |added| => PartOf(added[k]))
  }

  function Hits(added: seq<Matcher>, s: bytes): seq<bool> {
    seq(|added|, k requires 0 <= k < |added| => Reported(added[k], s))
  }

  /** How often id v comes from the first n matchers of one part. */
  function PartCount(parts: seq<Part>, hits: seq<bool>, part: Part, n: nat, v: uint32): nat
    requires n <= |parts| == |hits|
  {
    if n == 0 then 0
    else PartCount(parts, hits, part, n - 1, v) + if parts[n - 1] == part && hits[n - 1] && Id(n) == v then 1 else 0
  }

  lemma {:induction false} PartsAddUp(parts: seq<Part>, hits: seq<bool>, n: nat, v: uint32)
    requires n <= |parts| == |hits| < 0x1_0000_0000
    ensures PartCount(parts, hits, FullPart, n, v) + PartCount(parts, hits, DomainPart, n, v) +
              PartCount(parts, hits, OtherPart, n, v)
            == if 1 <= v <= n && hits[v - 1] then 1 else 0
  {
    if n > 0 {
      PartsAddUp(parts, hits, n - 1, v);
      assert Id(n) == n;
    }
  }

  lemma {:induction false} FullPartCount(added: seq<Matcher>, n: nat, s: bytes, v: uint32)
    requires n <= |added|
    ensures Count(ValuesAt(FullRules(added, n), [s]), v) == PartCount(Parts(added), Hits(added, s), FullPart, n, v)
  {
    if n > 0 {
      FullPartCount(added, n - 1, s, v);
      var rules := FullRules(added, n - 1);
      assert Parts(added)[n - 1] == PartOf(added[n - 1]) && Hits(added, s)[n - 1] == Reported(added[n - 1], s);
      if added[n - 1].FullMatcher? {
        CountAtAppend(rules, Rule([added[n - 1].p], Id(n)), [s], v);
        var p := added[n - 1].p;
        assert [p] == [s] <==> p == s by { assert [p][0] == p && [s][0] == s; }
      } else {
        assert rules + [] == rules;
      }
    }
  }

  lemma DomainStep(added: seq<Matcher>, n: nat, s: bytes, v: uint32)
    requires 0 < n <= |added|
    ensures Count(MatchSpec(DomainRules(added, n), s), v) == Count(MatchSpec(DomainRules(added, n - 1), s), v) +
              if added[n - 1].DomainMatcher? && Reported(added[n - 1], s) && Id(n) == v then 1 else 0
  {
    var rules := DomainRules(added, n - 1);
    if added[n - 1].DomainMatcher? {
      CountDomain(rules, added[n - 1].p, Id(n), s, v);
    } else {
      assert rules + [] == rules;
    }
  }

  lemma NoDomainRules(s: bytes)
    ensures MatchSpec([], s) == []
  {
    NoRulesNoValues(PathOf(s), |PathOf(s)|);
  }

  lemma {:induction false} DomainPartCount(added: seq<Matcher>, n: nat, s: bytes, v: uint32)
    requires n <= |added|
    ensures Count(MatchSpec(DomainRules(added, n), s), v) == PartCount(Parts(added), Hits(added, s), DomainPart, n, v)
  {
    if n == 0 {
      NoDomainRules(s);
      assert Count([], v) == 0;
    } else {
      DomainPartCount(added, n - 1, s, v);
      DomainStep(added, n, s, v);
      assert Parts(added)[n - 1] == PartOf(added[n - 1]) && Hits(added, s)[n - 1] == Reported(added[n - 1], s);
    }
  }

  lemma {:induction false} OtherPartCount(added: seq<Matcher>, n: nat, s: bytes, v: uint32)
    requires n <= |added|
    ensures Count(OtherIds(Others(added, n), s), v) == PartCount(Parts(added), Hits(added, s), OtherPart, n, v)
  {
    if n > 0 {
      OtherPartCount(added, n - 1, s, v);
      var others := Others(added, n - 1);
      assert Parts(added)[n - 1] == PartOf(added[n - 1]) && Hits(added, s)[n - 1] == Reported(added[n - 1], s);
      if added[n - 1].OtherMatcher? {
        CountOther(others, Entry(added[n - 1].m, Id(n)), s, v);
      } else {
        assert others + [] == others;
      }
    }
  }

  lemma MatchIdOnce(added: seq<Matcher>, s: bytes, v: uint32)
    requires |added| < 0x1_0000_0000
    ensures Count(MatchIds(added, |added|, s), v) == if 1 <= v <= |added| && Reported(added[v - 1], s) then 1 else 0
  {
    var n := |added|;
    var full, domain, others := ValuesAt(FullRules(added, n), [s]), MatchSpec(DomainRules(added, n), s),
      OtherIds(Others(added, n), s);
    CountAppend(full + domain, others, v);
    CountAppend(full, domain, v);
    FullPartCount(added, n, s, v);
    DomainPartCount(added, n, s, v);
    OtherPartCount(added, n, s, v);
    PartsAddUp(Parts(added), Hits(added, s), n, v);
  }

  /** Each accepting matcher's id exactly once, and nothing else. */
  ghost predicate ExactlyTheAccepting(added: seq<Matcher>, s: bytes) {
    forall v: uint32 ::
      Count(MatchIds(added, |added|, s), v) == if 1 <= v <= |added| && Accepts(added[v - 1], s) then 1 else 0
  }

  /** Main result for the group: Match is exact on s unless s is empty and the empty domain rule,
      which accepts it, was added. */
  lemma GroupMatchExact(added: seq<Matcher>, s: bytes)
    requires |added| < 0x1_0000_0000
    ensures ExactlyTheAccepting(added, s) <==> s != [] || forall i :: 0 <= i < |added| ==> added[i] != DomainMatcher([])
  {
    forall v: uint32
      ensures Count(MatchIds(added, |added|, s), v) == if 1 <= v <= |added| && Reported(added[v - 1], s) then 1 else 0
    {
      MatchIdOnce(added, s, v);
    }
    if s == [] && exists i :: 0 <= i < |added| && added[i] == DomainMatcher([]) {
      var i :| 0 <= i < |added| && added[i] == DomainMatcher([]);
      var v: uint32 := i + 1;
      assert Accepts(added[v - 1], s) && Count(MatchIds(added, |added|, s), v) == 0;
    }
  }

  // ----- order of the domain part -----

  /** The values identify the rules: they grow with insertion. */
  ghost predicate Numbered(rules: seq<Rule>) {
    forall a, b :: 0 <= a < b < |rules| ==> rules[a].value < rules[b].value
  }

  /** v is the value of rule a. */
  ghost predicate Names(rules: seq<Rule>, v: uint32, a: int) {
    0 <= a < |rules| && rules[a].value == v
  }

  /** v is the value of rule a, which lies on path between the two depths. */
  ghost predicate IsFrom(rules: seq<Rule>, v: uint32, a: int, path: Path, lo: nat, hi: nat)
    requires hi <= |path|
  {
    Names(rules, v, a) && lo <= |rules[a].path| <= hi && rules[a].path == path[..|rules[a].path|]
  }

  ghost predicate FromDepths(rules: seq<Rule>, values: seq<uint32>, path: Path, lo: nat, hi: nat)
    requires hi <= |path|
  {
    forall i :: 0 <= i < |values| ==> Located(rules, values[i], path, lo, hi)
  }

  ghost predicate Located(rules: seq<Rule>, v: uint32, path: Path, lo: nat, hi: nat)
    requires hi <= |path|
  {
    exists a :: IsFrom(rules, v, a, path, lo, hi)
  }

  ghost predicate Before(rules: seq<Rule>, a: int, b: int)
    requires 0 <= a < |rules| && 0 <= b < |rules|
  {
    |rules[a].path| > |rules[b].path| || (rules[a].path == rules[b].path && a < b)
  }

  ghost predicate DeeperFirst(rules: seq<Rule>, values: seq<uint32>) {
    forall i, j, a, b {:trigger Names(rules, values[i], a), Names(rules, values[j], b)} ::
      0 <= i < j < |values| && Names(rules, values[i], a) && Names(rules, values[j], b) ==> Before(rules, a, b)
  }

  lemma ValueOrder(rules: seq<Rule>, a: int, b: int)
    requires Numbered(rules) && 0 <= a < |rules| && 0 <= b < |rules|
    ensures rules[a].value < rules[b].value <==> a < b
  {
  }

  ghost predicate Stored(rules: seq<Rule>, v: uint32, path: Path, n: nat) {
    exists a :: Names(rules, v, a) && a < n && rules[a].path == path
  }

  ghost predicate StoredInOrder(rules: seq<Rule>, values: seq<uint32>, path: Path, n: nat) {
    && (forall i :: 0 <= i < |values| ==> Stored(rules, values[i], path, n))
    && (forall i, j :: 0 <= i < j < |values| ==> values[i] < values[j])
  }

  lemma {:induction false} UpToOrdered(rules: seq<Rule>, path: Path, n: nat)
    requires n <= |rules| && Numbered(rules)
    ensures StoredInOrder(rules, ValuesUpTo(rules, path, n), path, n)
  {
    if n > 0 {
      UpToOrdered(rules, path, n - 1);
      var before := ValuesUpTo(rules, path, n - 1);
      assert Names(rules, rules[n - 1].value, n - 1);
      forall i | 0 <= i < |before|
        ensures before[i] < rules[n - 1].value && Stored(rules, before[i], path, n)
      {
        assert Stored(rules, before[i], path, n - 1);
        var a :| Names(rules, before[i], a) && a < n - 1 && rules[a].path == path;
        ValueOrder(rules, a, n - 1);
      }
    }
  }

  lemma AtOrdered(rules: seq<Rule>, path: Path, k: nat)
    requires 0 < k <= |path| && Numbered(rules)
    ensures FromDepths(rules, ValuesAt(rules, path[..k]), path, k, k)
    ensures DeeperFirst(rules, ValuesAt(rules, path[..k]))
  {
    var values := ValuesAt(rules, path[..k]);
    UpToOrdered(rules, path[..k], |rules|);
    forall i, j, a, b | 0 <= i < j < |values| && Names(rules, values[i], a) && Names(rules, values[j], b)
      ensures Before(rules, a, b)
    {
      assert Stored(rules, values[i], path[..k], |rules|) && Stored(rules, values[j], path[..k], |rules|);
      var a' :| Names(rules, values[i], a') && rules[a'].path == path[..k];
      var b' :| Names(rules, values[j], b') && rules[b'].path == path[..k];
      ValueOrder(rules, a, b);
    }
    forall i | 0 <= i < |values|
      ensures Located(rules, values[i], path, k, k)
    {
      assert Stored(rules, values[i], path[..k], |rules|);
      var a :| Names(rules, values[i], a) && rules[a].path == path[..k];
      assert IsFrom(rules, values[i], a, path, k, k);
    }
  }

  lemma OrderedAppend(rules: seq<Rule>, u: seq<uint32>, v: seq<uint32>, path: Path, k: nat)
    requires 0 < k <= |path| && Numbered(rules)
    requires FromDepths(rules, u, path, k, k) && DeeperFirst(rules, u)
    requires FromDepths(rules, v, path, 1, k - 1) && DeeperFirst(rules, v)
    ensures FromDepths(rules, u + v, path, 1, k) && DeeperFirst(rules, u + v)
  {
    var w := u + v;
    forall i | 0 <= i < |w|
      ensures Located(rules, w[i], path, 1, k)
    {
      if i < |u| {
        assert Located(rules, u[i], path, k, k);
        var a :| IsFrom(rules, u[i], a, path, k, k);
        assert IsFrom(rules, w[i], a, path, 1, k);
      } else {
        assert Located(rules, v[i - |u|], path, 1, k - 1);
        var a :| IsFrom(rules, v[i - |u|], a, path, 1, k - 1);
        assert IsFrom(rules, w[i], a, path, 1, k);
      }
    }
    forall i, j, a, b | 0 <= i < j < |w| && Names(rules, w[i], a) && Names(rules, w[j], b)
      ensures Before(rules, a, b)
    {
      if j < |u| {
        assert Names(rules, u[i], a) && Names(rules, u[j], b);
      } else if i >= |u| {
        assert Names(rules, v[i - |u|], a) && Names(rules, v[j - |u|], b);
      } else {
        assert Located(rules, u[i], path, k, k) && Located(rules, v[j - |u|], path, 1, k - 1);
        var a' :| IsFrom(rules, u[i], a', path, k, k);
        var b' :| IsFrom(rules, v[j - |u|], b', path, 1, k - 1);
      }
    }
  }

  lemma {:induction false} AlongOrdered(rules: seq<Rule>, path: Path, k: nat)
    requires k <= |path| && Numbered(rules)
    ensures FromDepths(rules, ValuesAlong(rules, path, k), path, 1, k)
              && DeeperFirst(rules, ValuesAlong(rules, path, k))
  {
    if k > 0 {
      AlongOrdered(rules, path, k - 1);
      AtOrdered(rules, path, k);
      OrderedAppend(rules, ValuesAt(rules, path[..k]), ValuesAlong(rules, path, k - 1), path, k);
    }
  }

  ghost predicate FiledById(added: seq<Matcher>, rules: seq<Rule>, n: nat) {
    && n <= |added| && Numbered(rules)
    && forall a {:trigger rules[a]} :: 0 <= a < |rules| ==>
         1 <= rules[a].value <= n && added[rules[a].value - 1].DomainMatcher? &&
         rules[a].path == PathOf(added[rules[a].value - 1].p)
  }

  lemma {:induction false} DomainRulesFiledById(added: seq<Matcher>, n: nat)
    requires n <= |added| < 0x1_0000_0000
    ensures FiledById(added, DomainRules(added, n), n)
  {
    if n > 0 {
      DomainRulesFiledById(added, n - 1);
      assert Id(n) == n;
    }
  }

  /** In the domain part of the answer, rules for longer names come before rules for shorter ones,
      and rules for one name in the order in which they were added. */
  lemma DomainPartOrder(added: seq<Matcher>, s: bytes, i: nat, j: nat)
    requires |added| < 0x1_0000_0000
    requires i < j < |MatchSpec(DomainRules(added, |added|), s)|
    ensures
      var ids := MatchSpec(DomainRules(added, |added|), s);
      && 1 <= ids[i] <= |added| && 1 <= ids[j] <= |added|
      && var x, y := added[ids[i] - 1], added[ids[j] - 1];
         && x.DomainMatcher? && y.DomainMatcher?
         && (|x.p| > |y.p| || (x.p == y.p && ids[i] < ids[j]))
  {
    var n := |added|;
    var rules := DomainRules(added, n);
    DomainRulesFiledById(added, n);
    var ids := MatchSpec(rules, s);
    var a, b := TwoInOrder(rules, s, i, j);
    assert FiledById(added, rules, n) && rules[a].value == ids[i] && rules[b].value == ids[j];
    DeeperIsLonger(added[ids[i] - 1].p, added[ids[j] - 1].p, PathOf(s));
    ValueOrder(rules, a, b);
  }

  lemma TwoInOrder(rules: seq<Rule>, s: bytes, i: nat, j: nat) returns (a: int, b: int)
    requires Numbered(rules) && i < j < |MatchSpec(rules, s)|
    ensures Names(rules, MatchSpec(rules, s)[i], a) && Names(rules, MatchSpec(rules, s)[j], b)
    ensures rules[a].path <= PathOf(s) && rules[b].path <= PathOf(s) && Before(rules, a, b)
  {
    var path := PathOf(s);
    AlongOrdered(rules, path, |path|);
    var ids := ValuesAlong(rules, path, |path|);
    assert Located(rules, ids[i], path, 1, |path|) && Located(rules, ids[j], path, 1, |path|);
    a :| IsFrom(rules, ids[i], a, path, 1, |path|);
    b :| IsFrom(rules, ids[j], b, path, 1, |path|);
  }

  /** Of two rules on one path, the deeper one has the longer name. */
  lemma DeeperIsLonger(p: bytes, q: bytes, path: Path)
    requires PathOf(p) <= path && PathOf(q) <= path && |PathOf(p)| >= |PathOf(q)|
    ensures |PathOf(p)| > |PathOf(q)| ==> |p| > |q|
    ensures |PathOf(p)| == |PathOf(q)| ==> p == q
  {
    DomainMatchIsPrefix(q, p);
    PathInjective(p, q);
  }

  // ----- order of the whole answer -----

  /** Full matchers come first, then domain matchers, then the others. */
  function Rank(m: Matcher): nat {
    match m
    case FullMatcher(_) => 0
    case DomainMatcher(_) => 1
    case OtherMatcher(_) => 2
  }

  /** The matcher with id v is answered before the one with id w. */
  predicate Earlier(added: seq<Matcher>, v: uint32, w: uint32)
    requires 1 <= v <= |added| && 1 <= w <= |added|
  {
    var x, y := added[v - 1], added[w - 1];
    || Rank(x) < Rank(y)
    || (Rank(x) == Rank(y) != 1 && v < w)
    || (x.DomainMatcher? && y.DomainMatcher? && (|x.p| > |y.p| || (x.p == y.p && v < w)))
  }

  /** ids name matchers of one rank, in the order in which they were added. */
  ghost predicate Ascending(added: seq<Matcher>, ids: seq<uint32>, rank: nat, n: nat)
    requires n <= |added|
  {
    && (forall i {:trigger ids[i]} :: 0 <= i < |ids| ==> 1 <= ids[i] <= n && Rank(added[ids[i] - 1]) == rank)
    && (forall i, j {:trigger ids[i], ids[j]} :: 0 <= i < j < |ids| ==> ids[i] < ids[j])
  }

  ghost predicate FullById(added: seq<Matcher>, rules: seq<Rule>, n: nat) {
    && n <= |added| && Numbered(rules)
    && forall a {:trigger rules[a]} :: 0 <= a < |rules| ==>
         1 <= rules[a].value <= n && added[rules[a].value - 1].FullMatcher?
  }

  lemma {:induction false} FullRulesById(added: seq<Matcher>, n: nat)
    requires n <= |added| < 0x1_0000_0000
    ensures FullById(added, FullRules(added, n), n)
  {
    if n > 0 {
      FullRulesById(added, n - 1);
      assert Id(n) == n;
    }
  }

  lemma FullIdsAscend(added: seq<Matcher>, s: bytes)
    requires |added| < 0x1_0000_0000
    ensures Ascending(added, ValuesAt(FullRules(added, |added|), [s]), 0, |added|)
  {
    var rules := FullRules(added, |added|);
    FullRulesById(added, |added|);
    UpToOrdered(rules, [s], |rules|);
    var ids := ValuesAt(rules, [s]);
    forall i | 0 <= i < |ids|
      ensures 1 <= ids[i] <= |added| && Rank(added[ids[i] - 1]) == 0
    {
      assert Stored(rules, ids[i], [s], |rules|);
      var a :| Names(rules, ids[i], a) && a < |rules| && rules[a].path == [s];
    }
  }

  lemma {:induction false} OtherIdsAscend(added: seq<Matcher>, n: nat, s: bytes)
    requires n <= |added| < 0x1_0000_0000
    ensures Ascending(added, OtherIds(Others(added, n), s), 2, n)
  {
    if n > 0 {
      OtherIdsAscend(added, n - 1, s);
      assert Id(n) == n;
      var others := Others(added, n - 1);
      if added[n - 1].OtherMatcher? {
        OtherIdsOfExtended(others, Entry(added[n - 1].m, Id(n)), s, |others|);
      } else {
        NothingMore(others);
      }
    }
  }

  /** The order of the answer: full matchers by insertion, then domain matchers as DomainPartOrder says, then the others
      by insertion. */
  lemma MatchIdsOrder(added: seq<Matcher>, s: bytes, i: nat, j: nat)
    requires |added| < 0x1_0000_0000 && i < j < |MatchIds(added, |added|, s)|
    ensures var ids := MatchIds(added, |added|, s);
            1 <= ids[i] <= |added| && 1 <= ids[j] <= |added| && Earlier(added, ids[i], ids[j])
  {
    var n, ids := |added|, MatchIds(added, |added|, s);
    var full, domain, others := ValuesAt(FullRules(added, n), [s]), MatchSpec(DomainRules(added, n), s),
      OtherIds(Others(added, n), s);
    FullIdsAscend(added, s);
    OtherIdsAscend(added, n, s);
    DomainIdsAre(added, s);
    forall k | 0 <= k < |ids|
      ensures ids[k] == (if k < |full| then full[k] else if k < |full| + |domain| then domain[k - |full|]
                         else others[k - |full| - |domain|])
    {
    }
    if |full| <= i && j < |full| + |domain| { DomainPartOrder(added, s, i - |full|, j - |full|); }
  }

  lemma DomainIdsAre(added: seq<Matcher>, s: bytes)
    requires |added| < 0x1_0000_0000
    ensures var ids := MatchSpec(DomainRules(added, |added|), s);
            forall i {:trigger ids[i]} :: 0 <= i < |ids| ==> 1 <= ids[i] <= |added| && added[ids[i] - 1].DomainMatcher?
  {
    var rules := DomainRules(added, |added|);
    var ids := MatchSpec(rules, s);
    DomainRulesFiledById(added, |added|);
    forall i | 0 <= i < |ids|
      ensures 1 <= ids[i] <= |added| && added[ids[i] - 1].DomainMatcher?
    {
      var a := RuleOf(rules, s, i);
    }
  }

  lemma RuleOf(rules: seq<Rule>, s: bytes, i: nat) returns (a: int)
    requires Numbered(rules) && i < |MatchSpec(rules, s)|
    ensures Names(rules, MatchSpec(rules, s)[i], a)
  {
    var path := PathOf(s);
    AlongOrdered(rules, path, |path|);
    assert Located(rules, ValuesAlong(rules, path, |path|)[i], path, 1, |path|);
    a :| IsFrom(rules, ValuesAlong(rules, path, |path|)[i], a, path, 1, |path|);
  }

  // ----- the classes -----

  class FullMatcherGroup {
    var matchers: map<bytes, seq<uint32>>
    ghost var rules: seq<Rule>

    ghost predicate Valid()
      reads this
    {
      && (forall p {:trigger matchers[p]} :: p in matchers ==> matchers[p] == ValuesAt(rules, [p]))
      && (forall k :: 0 <= k < |rules| ==> |rules[k].path| == 1 && rules[k].path[0] in matchers)
    }

    constructor ()
      ensures Valid() && rules == []
    {
      matchers, rules := map[], [];
    }

    method Add(domain: bytes, value: uint32)
      requires Valid()
      modifies this
      ensures Valid() && rules == old(rules) + [Rule([domain], value)]
    {
      if domain !in matchers {
        NoValuesUpTo(rules, [domain], |rules|);
      }
      forall p: bytes
        ensures ValuesAt(rules + [Rule([domain], value)], [p]) == ValuesAt(rules, [p]) + if p == domain then [value]
                  else []
      {
        ValuesAtAppend(rules, Rule([domain], value), [p]);
        assert [p] == [domain] <==> p == domain by { assert [p][0] == p && [domain][0] == domain; }
      }
      matchers := matchers[domain := (if domain in matchers then matchers[domain] else []) + [value]];
      rules := rules + [Rule([domain], value)];
    }

    method Match(s: bytes) returns (result: seq<uint32>)
      requires Valid()
      ensures result == ValuesAt(rules, [s])
    {
      if s !in matchers {
        NoValuesUpTo(rules, [s], |rules|);
        return [];
      }
      return matchers[s];
    }
  }

  class MatcherGroup {
    var count: uint32
    const fullMatcher: FullMatcherGroup
    const domainMatcher: DomainMatcherGroup
    var otherMatchers: seq<Entry>
    ghost var added: seq<Matcher>

    ghost predicate Valid()
      reads this, fullMatcher, domainMatcher
    {
      && fullMatcher.Valid() && domainMatcher.Valid()
      && count == Id(|added|)
      && fullMatcher.rules == FullRules(added, |added|)
      && domainMatcher.rules == DomainRules(added, |added|)
      && otherMatchers == Others(added, |added|)
    }

    constructor ()
      ensures Valid() && added == [] && fresh(fullMatcher) && fresh(domainMatcher)
    {
      count := 0;
      fullMatcher := new FullMatcherGroup();
      domainMatcher := new DomainMatcherGroup();
      otherMatchers, added := [], [];
    }

    method Add(m: Matcher) returns (c: uint32)
      requires Valid()
      modifies this, fullMatcher, domainMatcher
      ensures Valid() && added == old(added) + [m] && c == Id(|added|)
    {
      AddedRules(added, m);
      NextId(|added|);
      count := (count + 1) % 0x1_0000_0000;
      c := count;
      File(m, c);
      added := added + [m];
    }

    /** The switch of Add. */
    method File(m: Matcher, c: uint32)
      requires fullMatcher.Valid() && domainMatcher.Valid()
      modifies `otherMatchers, fullMatcher, domainMatcher
      ensures fullMatcher.Valid() && domainMatcher.Valid()
      ensures fullMatcher.rules == old(fullMatcher.rules) + if m.FullMatcher? then [Rule([m.p], c)] else []
      ensures domainMatcher.rules == old(domainMatcher.rules) + if m.DomainMatcher? then [Rule(PathOf(m.p), c)] else []
      ensures otherMatchers == old(otherMatchers) + if m.OtherMatcher? then [Entry(m.m, c)] else []
    {
      match m {
        case FullMatcher(p) => fullMatcher.Add(p, c);
        case DomainMatcher(p) => domainMatcher.Add(p, c);
        case OtherMatcher(f) => otherMatchers := otherMatchers + [Entry(f, c)];
      }
    }

    method Match(pattern: bytes) returns (result: seq<uint32>)
      requires Valid()
      ensures result == MatchIds(added, |added|, pattern)
    {
      var full := fullMatcher.Match(pattern);
      var domain := domainMatcher.Match(pattern);
      result := full + domain;
      var k := 0;
      while k < |otherMatchers|
        invariant 0 <= k <= |otherMatchers|
        invariant result == full + domain + OtherIdsUpTo(otherMatchers, pattern, k)
      {
        if otherMatchers[k].m(pattern) {
          result := result + [otherMatchers[k].id];
        }
        k := k + 1;
      }
    }
  }

  /** One more matcher is one more rule in its part, under the next id. */
  lemma AddedRules(added: seq<Matcher>, m: Matcher)
    ensures var all, n, c := added + [m], |added|, Id(|added| + 1);
            && FullRules(all, n + 1) == FullRules(added, n) + (if m.FullMatcher? then [Rule([m.p], c)] else [])
            && DomainRules(all, n + 1) ==
               DomainRules(added, n) + (if m.DomainMatcher? then [Rule(PathOf(m.p), c)] else [])
            && Others(all, n + 1) == Others(added, n) + (if m.OtherMatcher? then [Entry(m.m, c)] else [])
  {
    var all, n := added + [m], |added|;
    FiledLater(added, m, n);
    assert all[n] == m;
    NothingMore(FullRules(added, n));
    NothingMore(DomainRules(added, n));
    NothingMore(Others(added, n));
  }

  lemma NextId(n: nat)
    ensures Id(n + 1) == (Id(n) + 1) % 0x1_0000_0000
  {
  }

  lemma {:induction false} FiledLater(added: seq<Matcher>, m: Matcher, n: nat)
    requires n <= |added|
    ensures FullRules(added + [m], n) == FullRules(added, n)
    ensures DomainRules(added + [m], n) == DomainRules(added, n)
    ensures Others(added + [m], n) == Others(added, n)
  {
    if n > 0 { FiledLater(added, m, n - 1); }
  }
}
