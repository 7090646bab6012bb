/** app/dns: the table from matcher ids to name servers and rules, and the order in which servers are asked. */
module Dns {
  import opened Bytes

  const UINT16: nat := 65536

  /** A geosite or single rule of the configuration: how many patterns it was expanded into. */
  datatype Rule = Rule(name: bytes, size: nat)

  datatype NameServer = NameServer(patterns: seq<bytes>, rules: seq<Rule>, isLocal: bool, skipFallback: bool)

  /** DomainMatcherInfo: both indexes are uint16. */
  datatype Info = Info(client: nat, rule: nat)

  datatype Client = Client(domains: seq<bytes>, skipFallback: bool)

  // ----- which rule a pattern belongs to -----

  /** ruleCurr and ruleIter before the j-th pattern. */
  datatype Cursor = Cursor(curr: nat, iter: nat)

  function Advance(rules: seq<Rule>, c: Cursor): Cursor {
    if c.curr >= |rules| || c.iter + 1 >= rules[c.curr].size then Cursor(c.curr + 1, 0)
    else c.(iter := c.iter + 1)
  }

  function At(rules: seq<Rule>, j: nat): Cursor {
    if j == 0 then Cursor(0, 0) else Advance(rules, At(rules, j - 1))
  }

  /** The patterns of the first r rules. */
  function Before(rules: seq<Rule>, r: nat): nat
    requires r <= |rules|
  {
    if r == 0 then 0 else Before(rules, r - 1) + rules[r - 1].size
  }

  lemma {:induction false} BeforeGrows(rules: seq<Rule>, r: nat, s: nat)
    requires r <= s <= |rules|
    ensures Before(rules, r) <= Before(rules, s)
  {
    if r < s { BeforeGrows(rules, r, s - 1); }
  }

  /** The first m rules are not empty. */
  ghost predicate FullTo(rules: seq<Rule>, m: nat)
    requires m <= |rules|
  {
    forall i {:trigger rules[i]} :: 0 <= i < m ==> rules[i].size >= 1
  }

  lemma {:induction false} CursorCounts(rules: seq<Rule>, m: nat, j: nat)
    requires m <= |rules| && FullTo(rules, m) && j <= Before(rules, m)
    ensures var c := At(rules, j);
            && c.curr <= m && Before(rules, c.curr) + c.iter == j
            && (c.curr < m ==> c.iter < rules[c.curr].size) && (c.curr == m ==> c.iter == 0)
  {
    if j > 0 {
      CursorCounts(rules, m, j - 1);
    }
  }

  lemma CursorInBlock(rules: seq<Rule>, m: nat, j: nat, r: nat)
    requires m <= |rules| && FullTo(rules, m) && j < Before(rules, m) && r < |rules|
    ensures At(rules, j).curr < m
    ensures At(rules, j).curr == r <==> Before(rules, r) <= j < Before(rules, r + 1)
  {
    CursorCounts(rules, m, j);
    var c := At(rules, j).curr;
    if c < r { BeforeGrows(rules, c + 1, r); }
    if r < c { BeforeGrows(rules, r + 1, c); }
  }

  /** An empty rule only ever comes after all patterns. */
  ghost predicate NoGap(rules: seq<Rule>) {
    forall r: nat {:trigger rules[r]} :: r < |rules| && rules[r].size == 0 ==>
      Before(rules, r) == Before(rules, |rules|)
  }

  /** How many rules come before the first empty one. */
  function Full(rules: seq<Rule>, n: nat): (m: nat)
    requires n <= |rules|
    ensures m <= n && FullTo(rules, m) && (m < n ==> rules[m].size == 0)
  {
    if n == 0 then 0
    else
      var m := Full(rules, n - 1);
      if m < n - 1 || rules[n - 1].size == 0 then m else n
  }

  /** The cursor names, for every pattern within the sizes, the block that holds it. */
  ghost predicate NamesBlocks(rules: seq<Rule>) {
    forall j: nat, r: nat {:trigger At(rules, j), rules[r]} :: j < Before(rules, |rules|) && r < |rules| ==>
      (At(rules, j).curr == r <==> Before(rules, r) <= j < Before(rules, r + 1))
  }

  /** Every pattern is filed under the rule it came from if and only if no empty rule stands before patterns:
      the loop does not skip an empty rule, it gives it the next pattern. */
  lemma NamesBlocksExactly(rules: seq<Rule>)
    ensures NamesBlocks(rules) <==> NoGap(rules)
  {
    var n := |rules|;
    var m := Full(rules, n);
    BeforeGrows(rules, m, n);
    if NoGap(rules) {
      forall j: nat, r: nat | j < Before(rules, n) && r < n
        ensures At(rules, j).curr == r <==> Before(rules, r) <= j < Before(rules, r + 1)
      {
        assert m < n ==> rules[m].size == 0;
        CursorInBlock(rules, m, j, r);
      }
    } else {
      GapIsFirst(rules, m);
      CursorCounts(rules, m, Before(rules, m));
      var c := At(rules, Before(rules, m)).curr;
      if c < m { BeforeGrows(rules, c + 1, m); }
      assert At(rules, Before(rules, m)).curr == m && rules[m].size == 0;
    }
  }

  /** Two patterns under an empty rule between two rules of one pattern each: the second one is filed under the empty
      rule, and nothing under the rule it came from. */
  lemma EmptyRuleTakesPattern(a: bytes, b: bytes, c: bytes)
    ensures var rules := [Rule(a, 1), Rule(b, 0), Rule(c, 1)];
            && Before(rules, 2) == 1 && Before(rules, 3) == 2
            && At(rules, 0).curr == 0 && At(rules, 1).curr == 1
  {
    var rules := [Rule(a, 1), Rule(b, 0), Rule(c, 1)];
    assert Before(rules, 1) == 1;
    assert At(rules, 0) == Cursor(0, 0);
  }

  lemma GapIsFirst(rules: seq<Rule>, m: nat)
    requires !NoGap(rules) && m == Full(rules, |rules|)
    ensures m < |rules| && Before(rules, m) < Before(rules, |rules|)
  {
    var r: nat :| r < |rules| && rules[r].size == 0 && Before(rules, r) != Before(rules, |rules|);
    assert m <= r;
    BeforeGrows(rules, m, r);
    BeforeGrows(rules, r, |rules|);
  }

  // ----- the whole table -----

  /** What became of one name server: its first pattern has id first + 1. */
  datatype Placed = Placed(server: NameServer, first: nat, client: nat)

  /** The patterns and rules NewClient works with: a local server gets its own on top. */
  function Patterns(ns: NameServer, extra: seq<bytes>): seq<bytes> {
    if ns.isLocal then ns.patterns + extra else ns.patterns
  }

  function Rules(ns: NameServer, extra: Rule): seq<Rule> {
    if ns.isLocal then ns.rules + [extra] else ns.rules
  }

  /** The state of New: the table, how many ids are given out, the clients, and where each server went. */
  datatype Tables = Tables(infos: seq<Info>, added: nat, clients: seq<Client>, placed: seq<Placed>)

  /** What a local server adds to its own patterns and rules. */
  datatype Extra = Extra(patterns: seq<bytes>, rule: Rule)

  function PatternsOf(p: Placed, x: Extra): seq<bytes> {
    Patterns(p.server, x.patterns)
  }

  function Next(placed: seq<Placed>, i: nat, added: nat): nat
    requires i < |placed|
  {
    if i + 1 < |placed| then placed[i + 1].first else added
  }

  /** A placed server has its own client, which names a rule for every one of its patterns. */
  ghost predicate PlacedOk(infos: seq<Info>, clients: seq<Client>, p: Placed, x: Extra) {
    && p.client < |clients| && clients[p.client].skipFallback == p.server.skipFallback
    && Filed(infos, p.first, |PatternsOf(p, x)|, Rules(p.server, x.rule), p.client)
    && Listed(clients[p.client].domains, Rules(p.server, x.rule), |PatternsOf(p, x)|)
  }

  /** Server i has the ids in a row up to those of the next one. */
  ghost predicate InRow(t: Tables, i: nat, x: Extra)
    requires i < |t.placed|
  {
    Next(t.placed, i, t.added) == t.placed[i].first + |PatternsOf(t.placed[i], x)|
      && (i == 0 ==> t.placed[0].first == 0)
  }

  ghost predicate TableOk(t: Tables, x: Extra) {
    && t.added < |t.infos| && (t.placed == [] ==> t.added == 0)
    && (forall i: nat {:trigger InRow(t, i, x)} :: i < |t.placed| ==> InRow(t, i, x))
    && (forall i: nat {:trigger t.placed[i]} :: i < |t.placed| ==> PlacedOk(t.infos, t.clients, t.placed[i], x))
  }

  /** Every id handed out belongs to one pattern of one placed server. */
  lemma {:induction false} IdIsPlaced(t: Tables, x: Extra, id: nat, n: nat) returns (i: nat, j: nat)
    requires TableOk(t, x) && n < |t.placed| && 1 <= id <= Next(t.placed, n, t.added)
    ensures i <= n && j < |PatternsOf(t.placed[i], x)| && id == t.placed[i].first + 1 + j
  {
    assert InRow(t, n, x);
    if id > t.placed[n].first {
      i, j := n, id - t.placed[n].first - 1;
    } else {
      i, j := IdIsPlaced(t, x, id, n - 1);
    }
  }

  lemma FiledAt(infos: seq<Info>, first: nat, n: nat, rules: seq<Rule>, client: nat, j: nat)
    requires Filed(infos, first, n, rules, client) && j < n
    ensures infos[first + 1 + j] == Info(client % UINT16, At(rules, j).curr % UINT16)
  {
    assert first < first + 1 + j <= first + n;
  }

  /** Main result for the table: for every id the matcher can return, with no more clients than uint16 can
      number, the stored indexes are in range, and the client is the one the pattern was configured for. */
  lemma TableIsExact(t: Tables, x: Extra, id: nat) returns (i: nat, j: nat)
    requires TableOk(t, x) && 1 <= id <= t.added && |t.clients| <= UINT16
    ensures i < |t.placed| && j < |PatternsOf(t.placed[i], x)| && id == t.placed[i].first + 1 + j
    ensures id < |t.infos| && t.infos[id].client == t.placed[i].client < |t.clients|
    ensures t.infos[id].rule < |t.clients[t.infos[id].client].domains|
    ensures t.infos[id].rule == At(Rules(t.placed[i].server, x.rule), j).curr % UINT16
  {
    i, j := IdIsPlaced(t, x, id, |t.placed| - 1);
    var p := t.placed[i];
    assert PlacedOk(t.infos, t.clients, p, x);
    FiledAt(t.infos, p.first, |PatternsOf(p, x)|, Rules(p.server, x.rule), p.client, j);
  }

  /** With as many rules as uint16 can number, the stored index is the cursor's. */
  lemma RuleIsBlock(rules: seq<Rule>, j: nat, r: nat)
    requires NoGap(rules) && j < Before(rules, |rules|) && r < |rules| <= UINT16
    ensures At(rules, j).curr % UINT16 == r <==> Before(rules, r) <= j < Before(rules, r + 1)
  {
    var m := Full(rules, |rules|);
    assert m < |rules| ==> rules[m].size == 0;
    CursorInBlock(rules, m, j, r);
  }

  // ----- building the table -----

  class Builder {
    var infos: seq<Info>
    var added: nat           // patterns added to the matcher so far; ids are 1 to added
    var clients: seq<Client>

    /** What New reads off its arguments: the local server's own patterns and rule, the patterns that are
        invalid, and how a pattern is shown. */
    const localPatterns: seq<bytes>
    const localRule: Rule
    const isInvalid: bytes -> bool
    const show: bytes -> bytes

    constructor (localPatterns: seq<bytes>, localRule: Rule, isInvalid: bytes -> bool, show: bytes -> bytes,
                 simple: nat, rules: nat)
      ensures this.localPatterns == localPatterns && this.localRule == localRule && this.isInvalid == isInvalid
                && this.show == show
      ensures added == 0 && |infos| == rules + 1 && |clients| == simple
      ensures forall i {:trigger clients[i]} :: 0 <= i < simple ==> clients[i] == Client([], false)
    {
      this.localPatterns, this.localRule, this.isInvalid, this.show := localPatterns, localRule, isInvalid, show;
      infos := seq(rules + 1, _ => Info(0, 0));
      added := 0;
      clients := seq(simple, _ => Client([], false));
    }

    /** updateDomain: the next id of the matcher is filed under this client and rule. */
    method UpdateDomain(client: nat, rule: nat)
      requires added + 1 < |infos|
      modifies `infos, `added
      ensures added == old(added) + 1 && |infos| == |old(infos)|
      ensures infos[added] == Info(client % UINT16, rule % UINT16)
      ensures forall id {:trigger infos[id]} :: 0 <= id < |infos| && id != added ==> infos[id] == old(infos)[id]
    {
      added := added + 1;
      infos := infos[added := Info(client % UINT16, rule % UINT16)];
    }

    /** The rule loop of NewClient. Pattern j gets the id after those of its predecessors. */
    method EstablishRules(patterns: seq<bytes>, rules: seq<Rule>, client: nat) returns (ok: bool, domains: seq<bytes>)
      requires added + |patterns| < |infos|
      modifies `infos, `added
      ensures |infos| == |old(infos)| && ok == forall j {:trigger patterns[j]} :: 0 <= j < |patterns| ==>
                !isInvalid(patterns[j])
      ensures forall id {:trigger infos[id]} :: 0 <= id <= old(added) ==> infos[id] == old(infos)[id]
      ensures ok ==> added == old(added) + |patterns| && Filed(infos, old(added), |patterns|, rules, client)
      ensures ok ==> Listed(domains, rules, |patterns|)
    {
      domains := [];
      var ruleCurr, ruleIter, j := 0, 0, 0;
      while j < |patterns|
        invariant 0 <= j <= |patterns| && added == old(added) + j && |infos| == |old(infos)|
        invariant forall k {:trigger patterns[k]} :: 0 <= k < j ==> !isInvalid(patterns[k])
        invariant At(rules, j) == Cursor(ruleCurr, ruleIter)
        invariant forall id {:trigger infos[id]} :: 0 <= id <= old(added) ==> infos[id] == old(infos)[id]
        invariant Filed(infos, old(added), j, rules, client) && Listed(domains, rules, j)
        invariant ruleCurr <= |domains| <= ruleCurr + 1 && (|domains| == ruleCurr + 1 ==> ruleCurr < |rules|)
      {
        if isInvalid(patterns[j]) { return false, []; }
        var originalRuleIdx := ruleCurr;
        if ruleCurr < |rules| {
          var rule := rules[ruleCurr];
          if ruleCurr >= |domains| {
            domains := domains + [rule.name];
          }
          ruleIter := ruleIter + 1;
          if ruleIter >= rule.size {
            ruleIter := 0;
            ruleCurr := ruleCurr + 1;
          }
        } else {
          domains := domains + [show(patterns[j])];
          ruleCurr := ruleCurr + 1;
        }
        UpdateDomain(client, originalRuleIdx);
        j := j + 1;
      }
      ok := true;
    }

    ghost function State(placed: seq<Placed>): Tables
      reads this
    {
      Tables(infos, added, clients, placed)
    }

    /** The part of NewClient before its loop: a local server gets more patterns, and the table more room. */
    method Extend(ns: NameServer) returns (patterns: seq<bytes>, rules: seq<Rule>)
      modifies `infos
      ensures patterns == Patterns(ns, localPatterns) && rules == Rules(ns, localRule)
      ensures |infos| - |patterns| == |old(infos)| - |ns.patterns|
      ensures forall id {:trigger infos[id]} :: 0 <= id < |old(infos)| ==> infos[id] == old(infos)[id]
    {
      patterns, rules := ns.patterns, ns.rules;
      if ns.isLocal {
        patterns, rules := patterns + localPatterns, rules + [localRule];
        infos := infos + seq(|localPatterns|, _ => Info(0, 0));
      }
    }

    /** NewClient and the append that follows it in New. */
    method AddServer(ns: NameServer, ghost placed: seq<Placed>) returns (ok: bool)
      requires added + |ns.patterns| < |infos| && TableOk(State(placed), Extra(localPatterns, localRule))
      modifies this
      ensures ok == ValidServer(ns, localPatterns, isInvalid)
      ensures ok ==> TableOk(State(placed + [Placed(ns, old(added), |old(clients)|)]), Extra(localPatterns, localRule))
      ensures ok ==> |clients| == |old(clients)| + 1 && |infos| - added == |old(infos)| - old(added) - |ns.patterns|
    {
      var clientIdx := |clients|;
      var patterns, rules := Extend(ns);
      var domains;
      ok, domains := EstablishRules(patterns, rules, clientIdx);
      if ok {
        clients := clients + [Client(domains, ns.skipFallback)];
        TableGrows(old(State(placed)), infos, clients[clientIdx], Placed(ns, old(added), clientIdx),
                   Extra(localPatterns, localRule));
      }
    }
  }

  /** The ids after the first are filed under this client, pattern by pattern. */
  ghost predicate Filed(infos: seq<Info>, first: nat, n: nat, rules: seq<Rule>, client: nat) {
    && first + n < |infos|
    && forall id {:trigger infos[id]} :: first < id <= first + n ==>
         infos[id] == Info(client % UINT16, At(rules, id - first - 1).curr % UINT16)
  }

  /** A client's rule names cover every rule its first n patterns are filed under; configured rules keep their names. */
  ghost predicate Listed(domains: seq<bytes>, rules: seq<Rule>, n: nat) {
    && (forall j {:trigger At(rules, j)} :: 0 <= j < n ==> At(rules, j).curr < |domains|)
    && (forall r {:trigger domains[r]} :: 0 <= r < |domains| && r < |rules| ==> domains[r] == rules[r].name)
  }

  lemma FiledKept(infos: seq<Info>, infos': seq<Info>, first: nat, n: nat, rules: seq<Rule>, client: nat)
    requires Filed(infos, first, n, rules, client) && first + n < |infos'|
    requires forall id {:trigger infos'[id]} :: 0 <= id <= first + n ==> infos'[id] == infos[id]
    ensures Filed(infos', first, n, rules, client)
  {
  }

  lemma TableGrows(t: Tables, infos': seq<Info>, c: Client, p: Placed, x: Extra)
    requires TableOk(t, x) && |t.infos| <= |infos'|
    requires forall id {:trigger infos'[id]} :: 0 <= id <= t.added ==> infos'[id] == t.infos[id]
    requires p.first == t.added && p.client == |t.clients| && PlacedOk(infos', t.clients + [c], p, x)
    ensures TableOk(Tables(infos', t.added + |PatternsOf(p, x)|, t.clients + [c], t.placed + [p]), x)
  {
    var t' := Tables(infos', t.added + |PatternsOf(p, x)|, t.clients + [c], t.placed + [p]);
    forall i: nat | i < |t'.placed|
      ensures PlacedOk(infos', t'.clients, t'.placed[i], x) && InRow(t', i, x)
    {
      if i < |t.placed| {
        var q := t.placed[i];
        assert PlacedOk(t.infos, t.clients, q, x) && InRow(t, i, x);
        UpToAdded(t, x, i);
        FiledKept(t.infos, infos', q.first, |PatternsOf(q, x)|, Rules(q.server, x.rule), q.client);
      }
    }
  }

  lemma {:induction false} UpToAdded(t: Tables, x: Extra, i: nat)
    requires TableOk(t, x) && i < |t.placed|
    ensures t.placed[i].first + |PatternsOf(t.placed[i], x)| <= t.added
    decreases |t.placed| - i
  {
    assert InRow(t, i, x);
    if i + 1 < |t.placed| { UpToAdded(t, x, i + 1); }
  }

  function CountPatterns(servers: seq<NameServer>, n: nat): nat
    requires n <= |servers|
  {
    if n == 0 then 0 else CountPatterns(servers, n - 1) + |servers[n - 1].patterns|
  }

  lemma {:induction false} CountGrows(servers: seq<NameServer>, n: nat, m: nat)
    requires n <= m <= |servers|
    ensures CountPatterns(servers, n) <= CountPatterns(servers, m)
  {
    if n < m { CountGrows(servers, n, m - 1); }
  }

  function FirstOf(servers: seq<NameServer>, x: Extra, n: nat): nat
    requires n <= |servers|
  {
    if n == 0 then 0 else FirstOf(servers, x, n - 1) + |Patterns(servers[n - 1], x.patterns)|
  }

  /** Where New puts its first n servers. */
  function PlacedAll(servers: seq<NameServer>, x: Extra, simple: nat, n: nat): (r: seq<Placed>)
    requires n <= |servers|
    ensures |r| == n
  {
    if n == 0 then []
    else PlacedAll(servers, x, simple, n - 1) + [Placed(servers[n - 1], FirstOf(servers, x, n - 1), simple + n - 1)]
  }

  lemma {:induction false} PlacedEach(servers: seq<NameServer>, x: Extra, simple: nat, n: nat, i: nat)
    requires i < n <= |servers|
    ensures PlacedAll(servers, x, simple, n)[i] == Placed(servers[i], FirstOf(servers, x, i), simple + i)
  {
    if i < n - 1 { PlacedEach(servers, x, simple, n - 1, i); }
  }

  ghost predicate AllValid(servers: seq<NameServer>, extra: seq<bytes>, isInvalid: bytes -> bool, n: nat)
    requires n <= |servers|
  {
    n == 0 || (AllValid(servers, extra, isInvalid, n - 1) && ValidServer(servers[n - 1], extra, isInvalid))
  }

  lemma {:induction false} OneInvalid(servers: seq<NameServer>, extra: seq<bytes>, isInvalid: bytes -> bool, i: nat,
                                      n: nat)
    requires i < n <= |servers| && !ValidServer(servers[i], extra, isInvalid)
    ensures !AllValid(servers, extra, isInvalid, n)
  {
    if i < n - 1 { OneInvalid(servers, extra, isInvalid, i, n - 1); }
  }

  /** In the loop of New after i servers: the table is sound, all ids are given out in a row, and there is room
      for the patterns still to come. */
  ghost predicate Underway(t: Tables, servers: seq<NameServer>, x: Extra, simple: nat, i: nat)
    requires i <= |servers|
  {
    && TableOk(t, x) && |t.clients| == simple + i && t.added == FirstOf(servers, x, i)
    && |t.infos| - t.added == CountPatterns(servers, |servers|) - CountPatterns(servers, i) + 1
  }

  /** New: the servers without rules first, then the configured ones; a local server when there is none. No write
      ever leaves the table, which was made for the configured patterns and grows with every local server. */
  method Build(x: Extra, isInvalid: bytes -> bool, show: bytes -> bytes, simple: nat, servers: seq<NameServer>)
    returns (ok: bool, infos: seq<Info>, added: nat, clients: seq<Client>)
    ensures ok <==> AllValid(servers, x.patterns, isInvalid, |servers|)
    ensures ok ==> TableOk(Tables(infos, added, clients, PlacedAll(servers, x, simple, |servers|)), x)
    ensures ok ==> |clients| == if simple + |servers| == 0 then 1 else simple + |servers|
    ensures ok ==> added == FirstOf(servers, x, |servers|)
  {
    var b := new Builder(x.patterns, x.rule, isInvalid, show, simple, CountPatterns(servers, |servers|));
    var i := 0;
    while i < |servers|
      invariant 0 <= i <= |servers| && AllValid(servers, x.patterns, isInvalid, i)
      invariant b.localPatterns == x.patterns && b.localRule == x.rule && b.isInvalid == isInvalid
      invariant Underway(b.State(PlacedAll(servers, x, simple, i)), servers, x, simple, i)
    {
      ok := PlaceNext(b, servers, x, simple, i);
      if !ok {
        OneInvalid(servers, x.patterns, isInvalid, i, |servers|);
        return false, [], 0, [];
      }
      i := i + 1;
    }
    infos, added, clients := b.infos, b.added, b.clients;
    if |clients| == 0 {
      clients := [Client([], false)];
    }
    ok := true;
  }

  method PlaceNext(b: Builder, servers: seq<NameServer>, x: Extra, simple: nat, i: nat) returns (ok: bool)
    requires i < |servers| && b.localPatterns == x.patterns && b.localRule == x.rule
    requires Underway(b.State(PlacedAll(servers, x, simple, i)), servers, x, simple, i)
    modifies b
    ensures ok == ValidServer(servers[i], x.patterns, b.isInvalid)
    ensures ok ==> Underway(b.State(PlacedAll(servers, x, simple, i + 1)), servers, x, simple, i + 1)
  {
    CountGrows(servers, i + 1, |servers|);
    assert Extra(b.localPatterns, b.localRule) == x;
    ok := b.AddServer(servers[i], PlacedAll(servers, x, simple, i));
    if ok { AddedNext(b.State(PlacedAll(servers, x, simple, i + 1)), x, i); }
  }

  lemma AddedNext(t: Tables, x: Extra, i: nat)
    requires TableOk(t, x) && |t.placed| == i + 1
    ensures t.added == t.placed[i].first + |PatternsOf(t.placed[i], x)|
  {
    assert InRow(t, i, x);
  }

  ghost predicate ValidServer(ns: NameServer, extra: seq<bytes>, isInvalid: bytes -> bool) {
    forall j {:trigger Patterns(ns, extra)[j]} :: 0 <= j < |Patterns(ns, extra)| ==> !isInvalid(Patterns(ns, extra)[j])
  }

  // ----- sortClients -----

  /** The clients of the matches, each at its first match. */
  function FirstUses(cs: seq<nat>): seq<nat> {
    if cs == [] then []
    else
      var before := FirstUses(cs[..|cs| - 1]);
      if cs[|cs| - 1] in cs[..|cs| - 1] then before else before + [cs[|cs| - 1]]
  }

  /** The first n clients that were not matched and may be fallen back to, in configuration order. */
  function Fallbacks(cs: seq<nat>, clients: seq<Client>, n: nat): seq<nat>
    requires n <= |clients|
  {
    if n == 0 then []
    else if n - 1 in cs || clients[n - 1].skipFallback then Fallbacks(cs, clients, n - 1)
    else Fallbacks(cs, clients, n - 1) + [n - 1]
  }

  function Sorted(cs: seq<nat>, clients: seq<Client>, disableFallback: bool): seq<nat> {
    var r := FirstUses(cs) + FallbackPart(cs, clients, disableFallback);
    if r == [] then [0] else r
  }

  /** The clients of the first n matches. */
  function ClientsTo(infos: seq<Info>, matches: seq<nat>, n: nat): seq<nat>
    requires n <= |matches|
  {
    if n == 0 then [] else ClientsTo(infos, matches, n - 1) + [ClientAt(infos, matches[n - 1])]
  }

  function ClientAt(infos: seq<Info>, id: nat): nat {
    if id < |infos| then infos[id].client else 0
  }

  function ClientsOf(infos: seq<Info>, matches: seq<nat>): seq<nat> {
    ClientsTo(infos, matches, |matches|)
  }

  /** Every match has a client, and its rule a name. */
  ghost predicate InRange(infos: seq<Info>, matches: seq<nat>, clients: seq<Client>) {
    forall i {:trigger matches[i]} :: 0 <= i < |matches| ==> Resolves(infos, matches[i], clients)
  }

  ghost predicate Resolves(infos: seq<Info>, id: nat, clients: seq<Client>) {
    id < |infos| && infos[id].client < |clients| && infos[id].rule < |clients[infos[id].client].domains|
  }

  ghost predicate Marked(clientUsed: array<bool>, from: nat, cs: seq<nat>)
    reads clientUsed
  {
    forall c: nat {:trigger clientUsed[c]} :: from <= c < clientUsed.Length ==> (clientUsed[c] <==> c in cs)
  }

  /** The first loop of sortClients: matched clients, each once. */
  method TakeMatched(infos: seq<Info>, matches: seq<nat>, clients: seq<Client>, clientUsed: array<bool>)
    returns (r: seq<nat>)
    requires InRange(infos, matches, clients) && clientUsed.Length == |clients| && Marked(clientUsed, 0, [])
    modifies clientUsed
    ensures r == FirstUses(ClientsOf(infos, matches)) && Marked(clientUsed, 0, ClientsOf(infos, matches))
  {
    r := [];
    var i := 0;
    while i < |matches|
      invariant 0 <= i <= |matches|
      invariant r == FirstUses(ClientsTo(infos, matches, i)) && Marked(clientUsed, 0, ClientsTo(infos, matches, i))
    {
      assert Resolves(infos, matches[i], clients);
      NextUse(ClientsTo(infos, matches, i), ClientAt(infos, matches[i]));
      var info := infos[matches[i]];
      if !clientUsed[info.client] {
        clientUsed[info.client] := true;
        r := r + [info.client];
      }
      i := i + 1;
    }
  }

  /** The second loop: the other clients that may be fallen back to. */
  method TakeFallbacks(clients: seq<Client>, clientUsed: array<bool>, ghost cs: seq<nat>) returns (r: seq<nat>)
    requires clientUsed.Length == |clients| && Marked(clientUsed, 0, cs)
    modifies clientUsed
    ensures r == Fallbacks(cs, clients, |clients|)
  {
    r := [];
    var idx := 0;
    while idx < |clients|
      invariant 0 <= idx <= |clients| && r == Fallbacks(cs, clients, idx) && Marked(clientUsed, idx, cs)
    {
      if !(clientUsed[idx] || clients[idx].skipFallback) {
        clientUsed[idx] := true;
        r := r + [idx];
      }
      idx := idx + 1;
    }
  }

  method SortClients(infos: seq<Info>, matches: seq<nat>, clients: seq<Client>, disableFallback: bool)
    returns (r: seq<nat>)
    requires clients != [] && InRange(infos, matches, clients)
    ensures r == Sorted(ClientsOf(infos, matches), clients, disableFallback)
    ensures Queue(infos, matches, clients, disableFallback, r)
  {
    SortedIsQueue(infos, matches, clients, disableFallback);
    var clientUsed := new bool[|clients|](_ => false);
    r := TakeMatched(infos, matches, clients, clientUsed);
    if !disableFallback {
      var more := TakeFallbacks(clients, clientUsed, ClientsOf(infos, matches));
      r := r + more;
    } else {
      NothingMore(r);
    }
    if |r| == 0 {
      r := [0];
    }
  }

  lemma NextUse(cs: seq<nat>, c: nat)
    ensures FirstUses(cs + [c]) == if c in cs then FirstUses(cs) else FirstUses(cs) + [c]
  {
    assert (cs + [c])[..|cs|] == cs;
  }

  /** Where a client first appears among the matches. */
  function FirstAt(cs: seq<nat>, c: nat): (i: nat)
    requires c in cs
    ensures i < |cs| && cs[i] == c && c !in cs[..i]
  {
    if c in cs[..|cs| - 1] then
      var i := FirstAt(cs[..|cs| - 1], c);
      assert cs[..|cs| - 1][..i] == cs[..i];
      i
    else
      assert cs == cs[..|cs| - 1] + [cs[|cs| - 1]];
      |cs| - 1
  }

  /** Where a client belongs: matched ones by their first match, the others behind them by their number. */
  function Place(cs: seq<nat>, c: nat): nat {
    if c in cs then FirstAt(cs, c) else |cs| + c
  }

  ghost predicate InOrder(cs: seq<nat>, r: seq<nat>) {
    forall i, j {:trigger r[i], r[j]} :: 0 <= i < j < |r| ==> Place(cs, r[i]) < Place(cs, r[j])
  }

  lemma {:induction false} FirstUsesAre(cs: seq<nat>)
    ensures forall c {:trigger c in FirstUses(cs)} {:trigger c in cs} :: c in FirstUses(cs) <==> c in cs
  {
    if cs != [] {
      FirstUsesAre(cs[..|cs| - 1]);
      assert cs == cs[..|cs| - 1] + [cs[|cs| - 1]];
      var before := FirstUses(cs[..|cs| - 1]);
      forall c
        ensures c in FirstUses(cs) <==> c in cs
      {
        assert c in before <==> c in cs[..|cs| - 1];
      }
    }
  }

  /** An earlier match keeps its place when more follow. */
  lemma PlaceKept(cs: seq<nat>, c: nat)
    requires cs != [] && c in cs[..|cs| - 1]
    ensures c in cs && Place(cs, c) == Place(cs[..|cs| - 1], c) < |cs| - 1
  {
    assert cs == cs[..|cs| - 1] + [cs[|cs| - 1]];
  }

  /** Matched clients come once each, in the order of their first matches. */
  lemma {:induction false} FirstUsesInOrder(cs: seq<nat>)
    ensures InOrder(cs, FirstUses(cs))
  {
    if cs != [] {
      var shorter, r := cs[..|cs| - 1], FirstUses(cs);
      FirstUsesInOrder(shorter);
      FirstUsesAre(shorter);
      var before := FirstUses(shorter);
      forall i, j | 0 <= i < j < |r|
        ensures Place(cs, r[i]) < Place(cs, r[j])
      {
        assert before[i] in before;
        PlaceKept(cs, r[i]);
        if j < |before| {
          assert before[j] in before;
          PlaceKept(cs, r[j]);
        }
      }
    }
  }

  lemma {:induction false} FallbackHas(cs: seq<nat>, clients: seq<Client>, n: nat, c: nat)
    requires n <= |clients|
    ensures c in Fallbacks(cs, clients, n) <==> c < n && c !in cs && !clients[c].skipFallback
  {
    if n > 0 { FallbackHas(cs, clients, n - 1, c); }
  }

  ghost predicate Ascends(r: seq<nat>, cs: seq<nat>, n: nat) {
    && (forall i {:trigger r[i]} :: 0 <= i < |r| ==> r[i] < n && r[i] !in cs)
    && (forall i, j {:trigger r[i], r[j]} :: 0 <= i < j < |r| ==> r[i] < r[j])
  }

  lemma AscendsMore(r: seq<nat>, cs: seq<nat>, n: nat, take: bool)
    requires Ascends(r, cs, n) && (take ==> n !in cs)
    ensures Ascends(if take then r + [n] else r, cs, n + 1)
  {
  }

  /** Fallbacks come in configuration order. */
  lemma {:induction false} FallbacksAscend(cs: seq<nat>, clients: seq<Client>, n: nat)
    requires n <= |clients|
    ensures Ascends(Fallbacks(cs, clients, n), cs, n)
  {
    if n > 0 {
      FallbacksAscend(cs, clients, n - 1);
      var before := Fallbacks(cs, clients, n - 1);
      if n - 1 in cs || clients[n - 1].skipFallback {
        AscendsMore(before, cs, n - 1, false);
      } else {
        AscendsMore(before, cs, n - 1, true);
      }
    }
  }

  /** Fallbacks belong behind the matched clients. */
  lemma TogetherInOrder(cs: seq<nat>, a: seq<nat>, b: seq<nat>, n: nat)
    requires InOrder(cs, a) && (forall i {:trigger a[i]} :: 0 <= i < |a| ==> a[i] in cs) && Ascends(b, cs, n)
    ensures InOrder(cs, a + b)
  {
    var r := a + b;
    forall i, j | 0 <= i < j < |r|
      ensures Place(cs, r[i]) < Place(cs, r[j])
    {
      if j >= |a| { assert r[j] == b[j - |a|]; }
      if i >= |a| { assert r[i] == b[i - |a|]; }
    }
  }

  function FallbackPart(cs: seq<nat>, clients: seq<Client>, disableFallback: bool): seq<nat> {
    if disableFallback then [] else Fallbacks(cs, clients, |clients|)
  }

  /** The clients to ask: those matched and, unless fallback is off, those that allow it. */
  ghost predicate Wanted(cs: seq<nat>, clients: seq<Client>, disableFallback: bool, c: nat) {
    c in cs || (!disableFallback && c < |clients| && !clients[c].skipFallback)
  }

  lemma TogetherHas(cs: seq<nat>, clients: seq<Client>, disableFallback: bool, c: nat)
    ensures c in FirstUses(cs) + FallbackPart(cs, clients, disableFallback) <==> Wanted(cs, clients, disableFallback, c)
  {
    FirstUsesAre(cs);
    FallbackHas(cs, clients, |clients|, c);
    assert c in FirstUses(cs) <==> c in cs;
  }

  ghost predicate NoneWanted(cs: seq<nat>, clients: seq<Client>, disableFallback: bool) {
    forall c: nat :: !Wanted(cs, clients, disableFallback, c)
  }

  /** Main result for the order: the clients to ask are all there and no others, except that the first client
      stands in for none; and each is in its place, so the list is this one and no client is asked twice. */
  lemma SortedIsOrder(cs: seq<nat>, clients: seq<Client>, disableFallback: bool)
    ensures InOrder(cs, Sorted(cs, clients, disableFallback))
    ensures forall c: nat :: c in Sorted(cs, clients, disableFallback)
              <==> Wanted(cs, clients, disableFallback, c) || (c == 0 && NoneWanted(cs, clients, disableFallback))
  {
    var a, b := FirstUses(cs), FallbackPart(cs, clients, disableFallback);
    FirstUsesInOrder(cs);
    FallbacksAscend(cs, clients, |clients|);
    forall i | 0 <= i < |a|
      ensures a[i] in cs
    {
      UsesAreUsed(cs, i);
    }
    assert Ascends(b, cs, |clients|);
    TogetherInOrder(cs, a, b, |clients|);
    forall c: nat
      ensures c in a + b <==> Wanted(cs, clients, disableFallback, c)
    {
      TogetherHas(cs, clients, disableFallback, c);
    }
    if a + b != [] {
      assert (a + b)[0] in a + b;
    }
  }

  lemma UsesAreUsed(cs: seq<nat>, i: nat)
    requires i < |FirstUses(cs)|
    ensures FirstUses(cs)[i] in cs
  {
    FirstUsesAre(cs);
    var c: nat := FirstUses(cs)[i];
    assert c in FirstUses(cs);
  }

  // ----- the order in terms of the matches -----

  ghost predicate Matched(infos: seq<Info>, matches: seq<nat>, c: nat)
    requires KnownIds(infos, matches)
  {
    exists i {:trigger matches[i]} :: 0 <= i < |matches| && infos[matches[i]].client == c
  }

  ghost predicate KnownIds(infos: seq<Info>, matches: seq<nat>) {
    forall i {:trigger matches[i]} :: 0 <= i < |matches| ==> matches[i] < |infos|
  }

  /** The client of match i was not matched before. */
  ghost predicate FirstMatch(infos: seq<Info>, matches: seq<nat>, i: nat)
    requires KnownIds(infos, matches) && i < |matches|
  {
    forall k {:trigger matches[k]} :: 0 <= k < i ==> infos[matches[k]].client != infos[matches[i]].client
  }

  ghost predicate AskedBefore(r: seq<nat>, c: nat, d: nat) {
    exists a, b {:trigger r[a], r[b]} :: 0 <= a < b < |r| && r[a] == c && r[b] == d
  }

  ghost predicate MayFallBack(clients: seq<Client>, disableFallback: bool, c: nat) {
    !disableFallback && c < |clients| && !clients[c].skipFallback
  }

  /** r asks the client of the first match first, the matched clients in the order of their first matches, behind them
      in configuration order the others that may be fallen back to, each once, and client 0 if there is no other. */
  ghost predicate Queue(infos: seq<Info>, matches: seq<nat>, clients: seq<Client>, disableFallback: bool, r: seq<nat>)
    requires KnownIds(infos, matches)
  {
    && (matches != [] ==> r != [] && r[0] == infos[matches[0]].client)
    && (forall i, j {:trigger matches[i], matches[j]} :: 0 <= i < j < |matches| ==>
          FirstMatch(infos, matches, i) && FirstMatch(infos, matches, j) ==>
            AskedBefore(r, infos[matches[i]].client, infos[matches[j]].client))
    && (forall c: nat, d: nat {:trigger c in r, d in r} :: c in r && d in r && !Matched(infos, matches, d) ==>
          Matched(infos, matches, c) || c < d ==> AskedBefore(r, c, d))
    && (forall a, b {:trigger r[a], r[b]} :: 0 <= a < b < |r| ==> r[a] != r[b])
    && (forall c: nat {:trigger c in r} :: c in r <==>
          || Matched(infos, matches, c)
          || MayFallBack(clients, disableFallback, c)
          || (c == 0 && matches == [] && forall d: nat :: !MayFallBack(clients, disableFallback, d)))
  }

  lemma {:induction false} ClientsToAt(infos: seq<Info>, matches: seq<nat>, n: nat)
    requires KnownIds(infos, matches) && n <= |matches|
    ensures var cs := ClientsTo(infos, matches, n);
            |cs| == n && forall i {:trigger cs[i]} :: 0 <= i < n ==> cs[i] == infos[matches[i]].client
  {
    if n > 0 { ClientsToAt(infos, matches, n - 1); }
  }

  lemma MatchedIsListed(infos: seq<Info>, matches: seq<nat>, c: nat)
    requires KnownIds(infos, matches)
    ensures c in ClientsOf(infos, matches) <==> Matched(infos, matches, c)
  {
    var cs := ClientsOf(infos, matches);
    ClientsToAt(infos, matches, |matches|);
    if i :| 0 <= i < |matches| && infos[matches[i]].client == c { assert cs[i] == c; }
  }

  /** A list ordered by place puts one client before another if its place comes first. */
  lemma PlacedBefore(cs: seq<nat>, r: seq<nat>, c: nat, d: nat)
    requires InOrder(cs, r) && c in r && d in r && Place(cs, c) < Place(cs, d)
    ensures AskedBefore(r, c, d)
  {
    var a :| 0 <= a < |r| && r[a] == c;
    var b :| 0 <= b < |r| && r[b] == d;
    assert a < b;
  }

  lemma PlaceOfFirst(cs: seq<nat>, i: nat)
    requires i < |cs| && forall k {:trigger cs[k]} :: 0 <= k < i ==> cs[k] != cs[i]
    ensures cs[i] in cs && Place(cs, cs[i]) == i
  {
    var f := FirstAt(cs, cs[i]);
    assert forall k :: 0 <= k < f ==> cs[..f][k] == cs[k];
  }

  lemma FirstIsFirst(infos: seq<Info>, matches: seq<nat>, i: nat)
    requires KnownIds(infos, matches) && i < |matches| && FirstMatch(infos, matches, i)
    ensures var cs, c := ClientsOf(infos, matches), infos[matches[i]].client;
            c in cs && Place(cs, c) == i
  {
    var cs := ClientsOf(infos, matches);
    ClientsToAt(infos, matches, |matches|);
    forall k | 0 <= k < i
      ensures cs[k] != cs[i]
    {
      var m := matches[k];
    }
    PlaceOfFirst(cs, i);
  }

  lemma SortedIsQueue(infos: seq<Info>, matches: seq<nat>, clients: seq<Client>, disableFallback: bool)
    requires KnownIds(infos, matches)
    ensures Queue(infos, matches, clients, disableFallback, Sorted(ClientsOf(infos, matches), clients, disableFallback))
  {
    var cs := ClientsOf(infos, matches);
    var r := Sorted(cs, clients, disableFallback);
    SortedIsOrder(cs, clients, disableFallback);
    ClientsToAt(infos, matches, |matches|);
    QueueHas(infos, matches, clients, disableFallback);
    forall i, j | 0 <= i < j < |matches| && FirstMatch(infos, matches, i) && FirstMatch(infos, matches, j)
      ensures AskedBefore(r, infos[matches[i]].client, infos[matches[j]].client)
    {
      FirstIsFirst(infos, matches, i);
      FirstIsFirst(infos, matches, j);
      PlacedBefore(cs, r, infos[matches[i]].client, infos[matches[j]].client);
    }
    forall c: nat, d: nat | c in r && d in r && !Matched(infos, matches, d) && (Matched(infos, matches, c) || c < d)
      ensures AskedBefore(r, c, d)
    {
      MatchedIsListed(infos, matches, c);
      MatchedIsListed(infos, matches, d);
      PlacedBefore(cs, r, c, d);
    }
    if matches != [] {
      FirstIsFirst(infos, matches, 0);
      FrontIsFirst(cs, r, infos[matches[0]].client);
    }
  }

  lemma FrontIsFirst(cs: seq<nat>, r: seq<nat>, c: nat)
    requires InOrder(cs, r) && c in r && Place(cs, c) == 0
    ensures r[0] == c
  {
    var a :| 0 <= a < |r| && r[a] == c;
    assert forall k :: 0 < k < |r| ==> Place(cs, r[0]) < Place(cs, r[k]);
  }

  lemma QueueHas(infos: seq<Info>, matches: seq<nat>, clients: seq<Client>, disableFallback: bool)
    requires KnownIds(infos, matches)
    ensures forall c: nat :: c in Sorted(ClientsOf(infos, matches), clients, disableFallback) <==>
              || Matched(infos, matches, c)
              || MayFallBack(clients, disableFallback, c)
              || (c == 0 && matches == [] && forall d: nat :: !MayFallBack(clients, disableFallback, d))
  {
    var cs := ClientsOf(infos, matches);
    ClientsToAt(infos, matches, |matches|);
    SortedIsOrder(cs, clients, disableFallback);
    forall c: nat
      ensures Wanted(cs, clients, disableFallback, c) <==>
              Matched(infos, matches, c) || MayFallBack(clients, disableFallback, c)
    {
      MatchedIsListed(infos, matches, c);
    }
    if matches != [] { assert Wanted(cs, clients, disableFallback, cs[0]); }
  }
}
