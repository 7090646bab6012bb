/** The perfect-hash group against the one-pattern matchers of common/strmatcher/matchers.go. */
module MphExact {
  import opened Bytes
  import opened Matchers
  import opened AhoCorasickTheory
  import opened MphMatcher

  /** Some Full or Domain rule accepts s on its own. */
  ghost predicate RuleAccepts(full: set<bytes>, domain: set<bytes>, s: bytes) {
    || (exists p :: p in full && FullMatch(p, s))
    || (exists d :: d in domain && DomainMatch(d, s))
  }

  ghost predicate Agrees(full: set<bytes>, domain: set<bytes>) {
    forall s :: TableMatch(StoredKeys(full, domain), s) <==> RuleAccepts(full, domain, s)
  }

  /** Every pattern that starts with a dot ends in "." and some domain rule. */
  ghost predicate DotCovered(full: set<bytes>, domain: set<bytes>) {
    forall x :: x in full + domain && x != [] && x[0] == DOT ==> EndsInDomain(domain, x)
  }

  ghost predicate EndsInDomain(domain: set<bytes>, x: bytes) {
    exists d :: d in domain && HasSuffix(x, [DOT] + d)
  }

  lemma RuleIsFound(full: set<bytes>, domain: set<bytes>, s: bytes)
    requires RuleAccepts(full, domain, s)
    ensures TableMatch(StoredKeys(full, domain), s)
  {
    var keys := TableKeys(full, domain);
    if p :| p in full && FullMatch(p, s) {
      assert s in keys;
    } else {
      var d :| d in domain && DomainMatch(d, s);
      DomainMatchCases(d, s);
      assert d in keys && [DOT] + d in keys;
      if s != d {
        var i := |s| - |d| - 1;
        assert s[i..] == [DOT] + d;
        assert s[i] == s[i..][0] == DOT;
      }
    }
  }

  lemma SuffixOfSuffix(s: bytes, x: bytes, y: bytes)
    requires HasSuffix(s, x) && HasSuffix(x, y)
    ensures HasSuffix(s, y)
  {
    assert s[|s| - |y|..] == s[|s| - |x|..][|x| - |y|..];
  }

  lemma DotSuffix(keys: set<bytes>, s: bytes) returns (x: bytes)
    requires TableMatch(keys, s)
    ensures x in keys && HasSuffix(s, x)
    ensures x == s || (x != [] && x[0] == DOT)
  {
    x := s;
    if s !in keys {
      var i :| 0 <= i < |s| && s[i] == DOT && s[i..] in keys;
      x := s[i..];
    }
  }

  lemma FoundIsRule(full: set<bytes>, domain: set<bytes>, s: bytes)
    requires TableKeys(full, domain) != {} && DotCovered(full, domain)
    requires TableMatch(StoredKeys(full, domain), s)
    ensures RuleAccepts(full, domain, s)
  {
    var keys := TableKeys(full, domain);
    if s in full {
      assert FullMatch(s, s);
    } else if s in domain {
      assert DomainMatch(s, s);
    } else {
      var x := DotSuffix(keys, s);
      if x in Dotted(domain) {
        var d :| d in domain && x == [DOT] + d;
        DomainMatchCases(d, s);
      } else {
        var d :| d in domain && HasSuffix(x, [DOT] + d);
        SuffixOfSuffix(s, x, [DOT] + d);
        DomainMatchCases(d, s);
      }
    }
  }

  lemma {:induction false} LengthBound(patterns: set<bytes>) returns (n: nat)
    ensures forall p :: p in patterns ==> |p| <= n
    decreases patterns
  {
    n := 0;
    if p :| p in patterns {
      n := LengthBound(patterns - {p});
      assert forall q :: q in patterns ==> q == p || q in patterns - {p};
      n := if |p| > n then |p| else n;
    }
  }

  lemma SuffixPastLetters(y: bytes, x: bytes, z: bytes)
    requires z != [] && forall i :: 0 <= i < |y| ==> y[i] != z[0]
    ensures HasSuffix(y + x, z) <==> HasSuffix(x, z)
  {
    var i := |y + x| - |z|;
    if i >= |y| {
      assert x[i - |y|..] == (y + x)[i..];
    } else if i >= 0 {
      assert (y + x)[i..][0] == y[i];
    }
  }

  /** An uncovered pattern x is found in a longer name that no rule accepts. */
  lemma UncoveredDisagrees(full: set<bytes>, domain: set<bytes>, x: bytes)
    requires x in full + domain && x != [] && x[0] == DOT && !EndsInDomain(domain, x)
    ensures !Agrees(full, domain)
  {
    var n := LengthBound(full + domain);
    var a: byte := 'a' as int;
    var y: bytes := seq<byte>(n + 1, _ => a);
    var s := y + x;
    assert s[n + 1..] == x && x in TableKeys(full, domain);
    assert TableMatch(StoredKeys(full, domain), s);
    forall d | d in domain
      ensures !DomainMatch(d, s)
    {
      DomainMatchCases(d, s);
      assert d in full + domain;
      SuffixPastLetters(y, x, [DOT] + d);
    }
    forall p | p in full
      ensures !FullMatch(p, s)
    {
      assert p in full + domain;
    }
    assert !RuleAccepts(full, domain, s);
  }

  /** Main result for the hash tables: they agree with the one-pattern matchers on every name if
      and only if there is at least one rule and every rule with a leading dot is covered. */
  lemma TableExact(full: set<bytes>, domain: set<bytes>)
    ensures Agrees(full, domain) <==> full + domain != {} && DotCovered(full, domain)
  {
    if full + domain == {} {
      assert Dotted(domain) == {};
      assert TableMatch(StoredKeys(full, domain), EMPTY_KEY);
      assert !RuleAccepts(full, domain, EMPTY_KEY);
    } else if DotCovered(full, domain) {
      var p :| p in full + domain;
      assert p in TableKeys(full, domain);
      forall s
        ensures TableMatch(StoredKeys(full, domain), s) <==> RuleAccepts(full, domain, s)
      {
        if TableMatch(StoredKeys(full, domain), s) { FoundIsRule(full, domain, s); }
        if RuleAccepts(full, domain, s) { RuleIsFound(full, domain, s); }
      }
    } else {
      var x :| x in full + domain && x != [] && x[0] == DOT && !EndsInDomain(domain, x);
      UncoveredDisagrees(full, domain, x);
    }
  }

  /** Two concrete failures: an empty group finds "empty___", and only that name; and the full rule ".com" takes
      "a.com" with it. */
  lemma TableCounterexamples(s: bytes)
    ensures TableMatch(StoredKeys({}, {}), s) <==> s == [101, 109, 112, 116, 121, 95, 95, 95]
    ensures !RuleAccepts({}, {}, s)
    ensures TableMatch(StoredKeys({[46, 99, 111, 109]}, {}), [97, 46, 99, 111, 109])
    ensures !RuleAccepts({[46, 99, 111, 109]}, {}, [97, 46, 99, 111, 109])
  {
    var com: bytes := [46, 99, 111, 109];
    assert Dotted({}) == {} && TableKeys({}, {}) == {} && StoredKeys({}, {}) == {EMPTY_KEY};
    forall i | 0 <= i < |s| && s[i] == DOT
      ensures s[i..] != EMPTY_KEY
    {
      assert s[i..][0] == DOT;
    }
    var name: bytes := [97, 46, 99, 111, 109];
    assert name[1..] == com && name[1] == DOT;
    assert com in TableKeys({com}, {});
    assert StoredKeys({com}, {}) == TableKeys({com}, {});
    assert !FullMatch(com, name);
  }

  // ----- the whole group -----

  /** Some rule, keyword or other matcher added to the group accepts s on its own. */
  ghost predicate SomeAccepts(g: MphMatcherGroup, s: bytes)
    requires g.ac != null ==> Indexable(s)
    reads g
  {
    || RuleAccepts(g.full, g.domain, s)
    || (g.ac != null && SomeOccurs(g.keywords, Reading(s)))
    || OtherMatch(g.otherMatchers, s)
  }

  /** Both exactness conditions on what was added to the group. */
  ghost predicate Faithful(g: MphMatcherGroup)
    reads g
  {
    g.full + g.domain != {} && DotCovered(g.full, g.domain) && Unshadowed(g.keywords)
  }

  /** Match finds something exactly when some added matcher accepts the name, for a group that meets the conditions
      under which its table and its automaton are exact. */
  method MatchAll(g: MphMatcherGroup, s: bytes) returns (result: seq<uint32>)
    requires g.Ready() && (g.ac != null ==> Indexable(s)) && Faithful(g)
    ensures result != [] <==> SomeAccepts(g, s)
  {
    TableExact(g.full, g.domain);
    if g.ac != null { KeywordMatchExact(g.ac.Marks(), g.keywords); }
    result := g.Match(s);
  }
}
