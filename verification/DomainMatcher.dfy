/** common/strmatcher/domain_matcher.go and full_matcher.go: the label trie and the exact-name map. */
module DomainMatcher {
  import opened Bytes
  import opened Labels

  /** A rule as the trie sees it: the path of its domain, and its value. */
  datatype Rule = Rule(path: Path, value: uint32)

  // ----- what Match returns -----

  /** The values of the first n rules that are stored under path, in insertion order. */
  ghost function ValuesUpTo(rules: seq<Rule>, path: Path, n: nat): seq<uint32>
    requires n <= |rules|
  {
    if n == 0 then [] else ValuesUpTo(rules, path, n - 1) + if rules[n - 1].path == path then [rules[n - 1].value]
      else []
  }

  ghost function ValuesAt(rules: seq<Rule>, path: Path): seq<uint32> {
    ValuesUpTo(rules, path, |rules|)
  }

  lemma {:induction false} ValuesOfExtended(rules: seq<Rule>, rule: Rule, path: Path, n: nat)
    requires n <= |rules|
    ensures ValuesUpTo(rules + [rule], path, n) == ValuesUpTo(rules, path, n)
  {
    if n > 0 { ValuesOfExtended(rules, rule, path, n - 1); }
  }

  lemma ValuesAtAppend(rules: seq<Rule>, rule: Rule, path: Path)
    ensures ValuesAt(rules + [rule], path) == ValuesAt(rules, path) + if rule.path == path then [rule.value] else []
  {
    ValuesOfExtended(rules, rule, path, |rules|);
  }

  lemma {:induction false} NoValuesUpTo(rules: seq<Rule>, path: Path, n: nat)
    requires n <= |rules| && forall k :: 0 <= k < n ==> rules[k].path != path
    ensures ValuesUpTo(rules, path, n) == []
  {
    if n > 0 { NoValuesUpTo(rules, path, n - 1); }
  }

  /** The values along the first k labels of path, deepest first. */
  ghost function ValuesAlong(rules: seq<Rule>, path: Path, k: nat): seq<uint32>
    requires k <= |path|
  {
    if k == 0 then [] else ValuesAt(rules, path[..k]) + ValuesAlong(rules, path, k - 1)
  }

  ghost function MatchSpec(rules: seq<Rule>, s: bytes): seq<uint32> {
    if s == [] then [] else ValuesAlong(rules, PathOf(s), |PathOf(s)|)
  }

  /** The collected lists, last one first. */
  function Flattened(matches: seq<seq<uint32>>): seq<uint32> {
    if matches == [] then [] else matches[|matches| - 1] + Flattened(matches[..|matches| - 1])
  }

  /** The last loop of Match: insert reversely, so that deeper matches rank higher. */
  method Concatenate(matches: seq<seq<uint32>>) returns (result: seq<uint32>)
    ensures result == Flattened(matches)
  {
    result := [];
    var idx := 0;
    assert matches[..|matches|] == matches;
    while idx < |matches|
      invariant 0 <= idx <= |matches|
      invariant Flattened(matches) == result + Flattened(matches[..|matches| - idx])
    {
      var rest := matches[..|matches| - idx];
      assert rest[..|rest| - 1] == matches[..|matches| - idx - 1];
      result := result + matches[|matches| - 1 - idx];
      idx := idx + 1;
    }
  }

  // ----- the trie -----

  /** A trie node; the pointers to child nodes are positions in the group's node list. */
  datatype Node = Node(values: seq<uint32>, sub: map<bytes, nat>)

  const NEW_NODE := Node([], map[])

  /** paths[n] leads from the root to node n, and at is its inverse. */
  ghost predicate Named(paths: seq<Path>, at: map<Path, nat>) {
    && |paths| > 0 && paths[0] == []
    && (forall n :: 0 <= n < |paths| ==> paths[n] in at && at[paths[n]] == n)
    && (forall p {:trigger at[p]} :: p in at ==> at[p] < |paths| && paths[at[p]] == p)
    && (forall p, x {:trigger p + [x]} :: p + [x] in at ==> p in at)
  }

  /** An edge x leaves the node of p exactly when p + [x] has a node, and leads there. */
  ghost predicate LinkedAt(at: map<Path, nat>, p: Path, sub: map<bytes, nat>) {
    && (forall x {:trigger x in sub} :: x in sub ==> p + [x] in at && sub[x] == at[p + [x]])
    && (forall x {:trigger p + [x]} :: p + [x] in at ==> x in sub)
  }

  ghost predicate Linked(nodes: seq<Node>, paths: seq<Path>, at: map<Path, nat>) {
    && |nodes| == |paths|
    && forall n {:trigger nodes[n]} :: 0 <= n < |nodes| ==> LinkedAt(at, paths[n], nodes[n].sub)
  }

  ghost predicate Holding(nodes: seq<Node>, paths: seq<Path>, at: map<Path, nat>, rules: seq<Rule>) {
    && |nodes| == |paths|
    && (forall n {:trigger nodes[n]} :: 0 <= n < |nodes| ==> nodes[n].values == ValuesAt(rules, paths[n]))
    && (forall k :: 0 <= k < |rules| ==> rules[k].path in at)
  }

  lemma SameEnd(p: Path, x: bytes, q: Path, y: bytes)
    ensures p + [x] == q + [y] <==> p == q && x == y
  {
    if p + [x] == q + [y] {
      assert (p + [x])[..|p|] == p && (q + [y])[..|q|] == q;
      assert (p + [x])[|p|] == x;
    }
  }

  lemma NameChild(paths: seq<Path>, at: map<Path, nat>, n: nat, x: bytes)
    requires Named(paths, at) && n < |paths| && paths[n] + [x] !in at
    ensures Named(paths + [paths[n] + [x]], at[paths[n] + [x] := |paths|])
  {
    var child := paths[n] + [x];
    var at' := at[child := |paths|];
    forall p: Path, y: bytes | p + [y] in at'
      ensures p in at'
    {
      SameEnd(p, y, paths[n], x);
    }
  }

  function Grown(nodes: seq<Node>, n: nat, x: bytes): seq<Node>
    requires n < |nodes|
  {
    (nodes + [NEW_NODE])[n := nodes[n].(sub := nodes[n].sub[x := |nodes|])]
  }

  lemma LinkChild(nodes: seq<Node>, paths: seq<Path>, at: map<Path, nat>, n: nat, x: bytes)
    requires Named(paths, at) && Linked(nodes, paths, at) && n < |paths| && paths[n] + [x] !in at
    ensures Linked(Grown(nodes, n, x), paths + [paths[n] + [x]], at[paths[n] + [x] := |paths|])
  {
    var child := paths[n] + [x];
    var at' := at[child := |paths|];
    var nodes' := Grown(nodes, n, x);
    forall m | 0 <= m < |paths|
      ensures LinkedAt(at', paths[m], nodes'[m].sub)
    {
      assert LinkedAt(at, paths[m], nodes[m].sub);
      forall y: bytes
        ensures paths[m] + [y] == child <==> m == n && y == x
      {
        SameEnd(paths[m], y, paths[n], x);
        if paths[m] == paths[n] { assert at[paths[m]] == at[paths[n]]; }
      }
    }
    forall y: bytes
      ensures child + [y] !in at'
    {
      assert |child + [y]| != |child|;
    }
  }

  lemma HoldChild(nodes: seq<Node>, paths: seq<Path>, at: map<Path, nat>, rules: seq<Rule>, n: nat, x: bytes)
    requires Named(paths, at) && Holding(nodes, paths, at, rules) && n < |paths| && paths[n] + [x] !in at
    ensures Holding(Grown(nodes, n, x), paths + [paths[n] + [x]], at[paths[n] + [x] := |paths|], rules)
  {
    NoValuesUpTo(rules, paths[n] + [x], |rules|);
  }

  lemma HoldRule(nodes: seq<Node>, paths: seq<Path>, at: map<Path, nat>, rules: seq<Rule>, n: nat, value: uint32)
    requires Named(paths, at) && Holding(nodes, paths, at, rules) && n < |paths|
    ensures Holding(nodes[n := nodes[n].(values := nodes[n].values + [value])], paths, at,
              rules + [Rule(paths[n], value)])
  {
    var nodes' := nodes[n := nodes[n].(values := nodes[n].values + [value])];
    forall m | 0 <= m < |nodes|
      ensures nodes'[m].values == ValuesAt(rules + [Rule(paths[n], value)], paths[m])
    {
      ValuesAtAppend(rules, Rule(paths[n], value), paths[m]);
      assert nodes[m].values == ValuesAt(rules, paths[m]);
      if paths[m] == paths[n] { assert at[paths[m]] == at[paths[n]]; }
    }
  }

  /** Past the first missing node of a path there are no nodes, hence no rules. */
  lemma {:induction false} NothingBelow(nodes: seq<Node>, paths: seq<Path>, at: map<Path, nat>, rules: seq<Rule>,
                                        path: Path, k: nat, m: nat)
    requires Named(paths, at) && Holding(nodes, paths, at, rules)
    requires k <= m <= |path| && k < |path| && path[..k + 1] !in at
    ensures ValuesAlong(rules, path, m) == ValuesAlong(rules, path, k)
    ensures m > k ==> path[..m] !in at
  {
    if m > k {
      NothingBelow(nodes, paths, at, rules, path, k, m - 1);
      assert path[..m] == path[..m - 1] + [path[m - 1]];
      NoValuesUpTo(rules, path[..m], |rules|);
    }
  }

  class DomainMatcherGroup {
    var nodes: seq<Node>       // nodes[0] is the root; no nodes stand for a nil root
    ghost var paths: seq<Path>
    ghost var at: map<Path, nat>
    ghost var rules: seq<Rule> // every rule added, in order

    ghost predicate Valid()
      reads this
    {
      if nodes == [] then rules == []
      else Named(paths, at) && Linked(nodes, paths, at) && Holding(nodes, paths, at, rules)
    }

    constructor ()
      ensures Valid() && rules == []
    {
      nodes, paths, at, rules := [], [], map[], [];
    }

    /** One step of the walk in Add: the child of current on part, created if it is missing. */
    method Child(current: nat, part: bytes) returns (next: nat)
      requires Valid() && current < |nodes|
      modifies this
      ensures Valid() && rules == old(rules)
      ensures next < |nodes| && paths[next] == old(paths)[current] + [part]
    {
      assert LinkedAt(at, paths[current], nodes[current].sub);
      if part !in nodes[current].sub {
        NameChild(paths, at, current, part);
        LinkChild(nodes, paths, at, current, part);
        HoldChild(nodes, paths, at, rules, current, part);
        next := |nodes|;
        nodes := Grown(nodes, current, part);
        at := at[paths[current] + [part] := next];
        paths := paths + [paths[current] + [part]];
      } else {
        next := nodes[current].sub[part];
      }
    }

    method Add(domain: bytes, value: uint32)
      requires Valid()
      modifies this
      ensures Valid() && rules == old(rules) + [Rule(PathOf(domain), value)]
    {
      if nodes == [] {
        nodes, paths, at := [NEW_NODE], [[]], map[[] := 0];
      }
      var current: nat := 0;
      var parts := Split(domain);
      PathIsReversedSplit(domain);
      ghost var path := PathOf(domain);
      assert path[..0] == [];
      var i := |parts|;
      while i > 0
        invariant 0 <= i <= |parts|
        invariant Valid() && rules == old(rules)
        invariant current < |nodes| && paths[current] == path[..|parts| - i]
      {
        i := i - 1;
        assert path[..|parts| - i] == path[..|parts| - i - 1] + [parts[i]];
        current := Child(current, parts[i]);
      }
      assert path[..|parts|] == path;
      HoldRule(nodes, paths, at, rules, current, value);
      nodes := nodes[current := nodes[current].(values := nodes[current].values + [value])];
      rules := rules + [Rule(path, value)];
    }

    /** The walk of Match, collecting the values of every node it passes. */
    method Walk(domain: bytes, ghost path: Path) returns (matches: seq<seq<uint32>>)
      requires Valid() && nodes != [] && CutsInto(domain, path)
      ensures Flattened(matches) == ValuesAlong(rules, path, |path|)
    {
      var current: nat := 0;
      matches := [];
      ghost var k: nat := 0;
      assert path[..0] == [];
      var idx := |domain|;
      while idx != -1
        invariant k <= |path| && idx == Cut(domain, k)
        invariant current < |nodes| && paths[current] == path[..k]
        invariant Flattened(matches) == ValuesAlong(rules, path, k)
        decreases idx
      {
        var nidx := LastDot(domain, idx);
        var part := domain[nidx + 1..idx];
        assert Cut(domain, k + 1) == nidx;
        assert path[k] == part;
        assert path[..k + 1] == path[..k] + [part];
        assert LinkedAt(at, paths[current], nodes[current].sub);
        if part !in nodes[current].sub {
          NothingBelow(nodes, paths, at, rules, path, k, |path|);
          return;
        }
        current := nodes[current].sub[part];
        idx := nidx;
        k := k + 1;
        if |nodes[current].values| > 0 {
          matches := matches + [nodes[current].values];
        }
      }
    }

    /** Every value whose rule lies on the path of domain, deeper rules first. */
    method Match(domain: bytes) returns (result: seq<uint32>)
      requires Valid()
      ensures result == MatchSpec(rules, domain)
    {
      if domain == [] { return []; }
      if nodes == [] {
        NoRulesNoValues(PathOf(domain), |PathOf(domain)|);
        return [];
      }
      PathCuts(domain);
      var matches := Walk(domain, PathOf(domain));
      match |matches| {
        case 0 => return [];
        case 1 =>
          assert matches == [] + [matches[0]];
          return matches[0];
        case _ =>
          result := Concatenate(matches);
      }
    }
  }

  lemma {:induction false} NoRulesNoValues(path: Path, k: nat)
    requires k <= |path|
    ensures ValuesAlong([], path, k) == []
  {
    if k > 0 { NoRulesNoValues(path, k - 1); }
  }
}
