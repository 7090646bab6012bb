/** The perfect-hash group as its caller sees it: patterns in, Build, and which names Match then finds, in terms of the
    patterns as they were given (common/strmatcher/mph_matcher.go with matchers.go). */
module MphGroup {
  import opened Bytes
  import opened Matchers
  import opened AhoCorasickTheory
  import opened MphMatcher
  import opened MphExact

  datatype Pattern = Pattern(text: bytes, kind: Kind)

  type Compile = bytes -> Option<bytes -> bool>

  // ----- what a pattern accepts -----

  /** s ends in p, up to the case of the letters of p. */
  predicate EndsInFold(p: bytes, s: bytes) {
    |p| <= |s| && NoCapitals(s[|s| - |p|..]) && EqualFold(p, s[|s| - |p|..])
  }

  ghost predicate Accepts(p: Pattern, compile: Compile, s: bytes) {
    match p.kind
    case Full => NoCapitals(s) && EqualFold(p.text, s)
    case Domain => EndsInFold(p.text, s) && (|s| == |p.text| || s[|s| - |p.text| - 1] == 46)
    case Substr => ContainsAlike(p.text, s)
    case Regex => compile(p.text).Some? && compile(p.text).value(s)
  }

  ghost predicate SomeAccepts(patterns: seq<Pattern>, compile: Compile, s: bytes) {
    exists i :: 0 <= i < |patterns| && Accepts(patterns[i], compile, s)
  }

  // ----- when the group is exact -----

  predicate IsRule(p: Pattern) {
    p.kind == Full || p.kind == Domain
  }

  /** x ends in "." and d up to case. */
  predicate EndsInDotted(d: bytes, x: bytes) {
    |d| < |x| && x[|x| - |d| - 1] == 46 && EqualFold(d, x[|x| - |d|..])
  }

  ghost predicate EndsInRule(patterns: seq<Pattern>, x: bytes) {
    exists j :: 0 <= j < |patterns| && patterns[j].kind == Domain && EndsInDotted(patterns[j].text, x)
  }

  /** There is a full or domain rule, and every one that begins with a dot ends in "." and a domain rule. */
  ghost predicate RulesCovered(patterns: seq<Pattern>) {
    && (exists i :: 0 <= i < |patterns| && IsRule(patterns[i]))
    && (forall i :: 0 <= i < |patterns| && IsRule(patterns[i]) && patterns[i].text != [] && patterns[i].text[0] == 46
                    ==> EndsInRule(patterns, patterns[i].text))
  }

  predicate HasKeyword(patterns: seq<Pattern>) {
    exists i :: 0 <= i < |patterns| && patterns[i].kind == Substr
  }

  /** Bytes at or above 127 panic when they meet the automaton. */
  predicate KeywordsIndexable(patterns: seq<Pattern>) {
    forall i :: 0 <= i < |patterns| && patterns[i].kind == Substr ==> Indexable(patterns[i].text)
  }

  ghost predicate ContainsKeyword(patterns: seq<Pattern>, t: bytes) {
    exists j :: 0 <= j < |patterns| && patterns[j].kind == Substr && ContainsAlike(patterns[j].text, t)
  }

  predicate EndsAlike(p: bytes, t: bytes) {
    0 < |p| <= |t| && AlikeAt(p, t, |t| - |p|)
  }

  ghost predicate EndsInKeyword(patterns: seq<Pattern>, t: bytes) {
    exists j :: 0 <= j < |patterns| && patterns[j].kind == Substr && EndsAlike(patterns[j].text, t)
  }

  /** Whenever an end of a keyword contains a keyword, it also ends in a non-empty one. */
  ghost predicate KeywordsUnshadowed(patterns: seq<Pattern>) {
    forall i, k :: 0 <= i < |patterns| && patterns[i].kind == Substr && 0 <= k < |patterns[i].text| ==>
      ContainsKeyword(patterns, patterns[i].text[k..]) ==> EndsInKeyword(patterns, patterns[i].text[k..])
  }

  // ----- what AddPattern leaves in the group -----

  datatype Contents = Contents(full: set<bytes>, domain: set<bytes>, keywords: set<Word>, others: seq<Entry>)

  ghost function OneMore(c: Contents, p: Pattern, compile: Compile): Contents
    requires p.kind == Substr ==> Indexable(p.text)
  {
    match p.kind
    case Full => c.(full := c.full + {ToLower(p.text)})
    case Domain => c.(domain := c.domain + {ToLower(p.text)})
    case Substr => c.(keywords := c.keywords + {Reading(p.text)})
    case Regex => if compile(p.text).Some? then c.(others := c.others + [Entry(compile(p.text).value, 1)]) else c
  }

  ghost function AfterAdding(patterns: seq<Pattern>, n: nat, compile: Compile): Contents
    requires n <= |patterns| && KeywordsIndexable(patterns)
  {
    if n == 0 then Contents({}, {}, {}, [])
    else OneMore(AfterAdding(patterns, n - 1, compile), patterns[n - 1], compile)
  }

  ghost function AllAdded(patterns: seq<Pattern>, compile: Compile): Contents
    requires KeywordsIndexable(patterns)
  {
    AfterAdding(patterns, |patterns|, compile)
  }

  ghost function ContentsOf(g: MphMatcherGroup): Contents
    reads g
  {
    Contents(g.full, g.domain, g.keywords, g.otherMatchers)
  }

  ghost predicate LoweredFrom(patterns: seq<Pattern>, n: nat, kind: Kind, x: bytes)
    requires n <= |patterns|
  {
    exists i :: 0 <= i < n && patterns[i].kind == kind && x == ToLower(patterns[i].text)
  }

  lemma {:induction false} InFull(patterns: seq<Pattern>, n: nat, compile: Compile, x: bytes)
    requires n <= |patterns| && KeywordsIndexable(patterns)
    ensures x in AfterAdding(patterns, n, compile).full <==> LoweredFrom(patterns, n, Full, x)
  {
    if n > 0 { InFull(patterns, n - 1, compile, x); }
  }

  lemma {:induction false} InDomain(patterns: seq<Pattern>, n: nat, compile: Compile, x: bytes)
    requires n <= |patterns| && KeywordsIndexable(patterns)
    ensures x in AfterAdding(patterns, n, compile).domain <==> LoweredFrom(patterns, n, Domain, x)
  {
    if n > 0 { InDomain(patterns, n - 1, compile, x); }
  }

  ghost predicate ReadFrom(patterns: seq<Pattern>, n: nat, v: Word)
    requires n <= |patterns| && KeywordsIndexable(patterns)
  {
    exists i :: 0 <= i < n && patterns[i].kind == Substr && v == Reading(patterns[i].text)
  }

  lemma {:induction false} InKeywords(patterns: seq<Pattern>, n: nat, compile: Compile, v: Word)
    requires n <= |patterns| && KeywordsIndexable(patterns)
    ensures v in AfterAdding(patterns, n, compile).keywords <==> ReadFrom(patterns, n, v)
  {
    if n > 0 { InKeywords(patterns, n - 1, compile, v); }
  }

  ghost predicate RegexAccepts(patterns: seq<Pattern>, n: nat, compile: Compile, s: bytes)
    requires n <= |patterns|
  {
    exists i :: 0 <= i < n && patterns[i].kind == Regex && Accepts(patterns[i], compile, s)
  }

  lemma {:induction false} OthersAccept(patterns: seq<Pattern>, n: nat, compile: Compile, s: bytes)
    requires n <= |patterns| && KeywordsIndexable(patterns)
    ensures OtherMatch(AfterAdding(patterns, n, compile).others, s) <==> RegexAccepts(patterns, n, compile, s)
  {
    if n > 0 {
      OthersAccept(patterns, n - 1, compile, s);
      var p, before := patterns[n - 1], AfterAdding(patterns, n - 1, compile).others;
      if p.kind == Regex && compile(p.text).Some? {
        OneMoreOther(before, Entry(compile(p.text).value, 1), s);
      }
    }
  }

  lemma OneMoreOther(others: seq<Entry>, e: Entry, s: bytes)
    ensures OtherMatch(others + [e], s) <==> OtherMatch(others, s) || e.m(s)
  {
    if k :| 0 <= k < |others| && others[k].m(s) { assert (others + [e])[k].m(s); }
    if e.m(s) { assert (others + [e])[|others|].m(s); }
  }

  // ----- each kind on its own -----

  ghost predicate AcceptedByKind(patterns: seq<Pattern>, kind: Kind, compile: Compile, s: bytes) {
    exists i :: 0 <= i < |patterns| && patterns[i].kind == kind && Accepts(patterns[i], compile, s)
  }

  lemma FullByPattern(p: Pattern, compile: Compile, s: bytes)
    requires p.kind == Full
    ensures Accepts(p, compile, s) <==> FullMatch(ToLower(p.text), s)
  {
    LowerCaseFolds(p.text, s);
  }

  lemma DomainByPattern(p: Pattern, compile: Compile, s: bytes)
    requires p.kind == Domain
    ensures Accepts(p, compile, s) <==> DomainMatch(ToLower(p.text), s)
  {
    if |p.text| <= |s| { LowerCaseFolds(p.text, s[|s| - |p.text|..]); }
  }

  ghost predicate SomeFull(full: set<bytes>, s: bytes) {
    exists p :: p in full && FullMatch(p, s)
  }

  ghost predicate SomeDomain(domain: set<bytes>, s: bytes) {
    exists d :: d in domain && DomainMatch(d, s)
  }

  lemma FullsByPattern(patterns: seq<Pattern>, compile: Compile, s: bytes)
    requires KeywordsIndexable(patterns)
    ensures SomeFull(AllAdded(patterns, compile).full, s) <==> AcceptedByKind(patterns, Full, compile, s)
  {
    if p :| p in AllAdded(patterns, compile).full && FullMatch(p, s) {
      InFull(patterns, |patterns|, compile, p);
      var i :| 0 <= i < |patterns| && patterns[i].kind == Full && p == ToLower(patterns[i].text);
      FullByPattern(patterns[i], compile, s);
    }
    if i :| 0 <= i < |patterns| && patterns[i].kind == Full && Accepts(patterns[i], compile, s) {
      FullByPattern(patterns[i], compile, s);
      InFull(patterns, |patterns|, compile, ToLower(patterns[i].text));
    }
  }

  lemma DomainsByPattern(patterns: seq<Pattern>, compile: Compile, s: bytes)
    requires KeywordsIndexable(patterns)
    ensures SomeDomain(AllAdded(patterns, compile).domain, s) <==> AcceptedByKind(patterns, Domain, compile, s)
  {
    if d :| d in AllAdded(patterns, compile).domain && DomainMatch(d, s) {
      InDomain(patterns, |patterns|, compile, d);
      var i :| 0 <= i < |patterns| && patterns[i].kind == Domain && d == ToLower(patterns[i].text);
      DomainByPattern(patterns[i], compile, s);
    }
    if i :| 0 <= i < |patterns| && patterns[i].kind == Domain && Accepts(patterns[i], compile, s) {
      DomainByPattern(patterns[i], compile, s);
      InDomain(patterns, |patterns|, compile, ToLower(patterns[i].text));
    }
  }

  lemma KeywordsByPattern(patterns: seq<Pattern>, compile: Compile, s: bytes)
    requires KeywordsIndexable(patterns) && Indexable(s)
    ensures SomeOccurs(AllAdded(patterns, compile).keywords, Reading(s)) <==>
            AcceptedByKind(patterns, Substr, compile, s)
  {
    if v :| v in AllAdded(patterns, compile).keywords && Occurs(v, Reading(s)) {
      InKeywords(patterns, |patterns|, compile, v);
      var i :| 0 <= i < |patterns| && patterns[i].kind == Substr && v == Reading(patterns[i].text);
      OccursIsContains(s, patterns[i].text);
      assert Accepts(patterns[i], compile, s);
    }
    if i :| 0 <= i < |patterns| && patterns[i].kind == Substr && Accepts(patterns[i], compile, s) {
      OccursIsContains(s, patterns[i].text);
      InKeywords(patterns, |patterns|, compile, Reading(patterns[i].text));
    }
  }

  /** What the three parts of the group find together, on the patterns as given. */
  lemma {:induction false} AcceptedByPattern(patterns: seq<Pattern>, compile: Compile, s: bytes)
    requires KeywordsIndexable(patterns) && (HasKeyword(patterns) ==> Indexable(s))
    ensures var c := AllAdded(patterns, compile);
            SomeAccepts(patterns, compile, s) <==>
              || RuleAccepts(c.full, c.domain, s)
              || (HasKeyword(patterns) && SomeOccurs(c.keywords, Reading(s)))
              || OtherMatch(c.others, s)
  {
    FullsByPattern(patterns, compile, s);
    DomainsByPattern(patterns, compile, s);
    if HasKeyword(patterns) { KeywordsByPattern(patterns, compile, s); }
    OthersAccept(patterns, |patterns|, compile, s);
    assert SomeAccepts(patterns, compile, s) <==>
           || AcceptedByKind(patterns, Full, compile, s) || AcceptedByKind(patterns, Domain, compile, s)
           || AcceptedByKind(patterns, Substr, compile, s) || AcceptedByKind(patterns, Regex, compile, s);
  }

  // ----- the two conditions on the patterns give those of the table and the automaton -----

  lemma DottedByPattern(d: bytes, x: bytes)
    ensures HasSuffix(ToLower(x), [DOT] + ToLower(d)) <==> EndsInDotted(d, x)
  {
    if |d| < |x| {
      var k := |x| - |d| - 1;
      LowerCaseFolds(d, x[k + 1..]);
      LowerByteFolds(x[k], 46);
      assert ToLower(x)[k..] == [ToLowerByte(x[k])] + ToLower(x[k + 1..]);
      assert ([DOT] + ToLower(d))[1..] == ToLower(d);
      assert ToLower(x)[k..][1..] == ToLower(x[k + 1..]);
    }
  }

  lemma CoveredByPattern(patterns: seq<Pattern>, compile: Compile)
    requires KeywordsIndexable(patterns) && RulesCovered(patterns)
    ensures var c := AllAdded(patterns, compile);
            c.full + c.domain != {} && DotCovered(c.full, c.domain)
  {
    var c := AllAdded(patterns, compile);
    var i :| 0 <= i < |patterns| && IsRule(patterns[i]);
    InFull(patterns, |patterns|, compile, ToLower(patterns[i].text));
    InDomain(patterns, |patterns|, compile, ToLower(patterns[i].text));
    assert ToLower(patterns[i].text) in c.full + c.domain;
    forall x | x in c.full + c.domain && x != [] && x[0] == DOT
      ensures EndsInDomain(c.domain, x)
    {
      InFull(patterns, |patterns|, compile, x);
      InDomain(patterns, |patterns|, compile, x);
      var k :| 0 <= k < |patterns| && IsRule(patterns[k]) && x == ToLower(patterns[k].text);
      LowerByteFolds(patterns[k].text[0], 46);
      var j :| 0 <= j < |patterns| && patterns[j].kind == Domain && EndsInDotted(patterns[j].text, patterns[k].text);
      DottedByPattern(patterns[j].text, patterns[k].text);
      InDomain(patterns, |patterns|, compile, ToLower(patterns[j].text));
    }
  }

  lemma EndIsPrefix(p: bytes, t: bytes)
    requires Indexable(p) && Indexable(t) && EndsAlike(p, t)
    ensures Reading(t)[..|p|] == Reading(p)
  {
    AlikeIsSuffix(p, t, |t| - |p|);
    assert Reading(t)[..|p|][0..] == Reading(t)[..|p|];
  }

  /** A beginning of a keyword's reading is the reading of an end of the keyword. */
  lemma BeginsAtEnd(text: bytes, u: Word)
    requires Indexable(text) && u != [] && u <= Reading(text)
    ensures Indexable(text[|text| - |u|..]) && Reading(text[|text| - |u|..]) == u
  {
    var t := text[|text| - |u|..];
    assert forall i :: 0 <= i < |u| ==> u[i] == Reading(text)[i];
    assert Reading(t) == u;
  }

  lemma EndsWithKeyword(patterns: seq<Pattern>, compile: Compile, t: bytes)
    requires KeywordsIndexable(patterns) && Indexable(t) && EndsInKeyword(patterns, t)
    ensures BeginsWithKeyword(AllAdded(patterns, compile).keywords, Reading(t))
  {
    var j :| 0 <= j < |patterns| && patterns[j].kind == Substr && EndsAlike(patterns[j].text, t);
    EndIsPrefix(patterns[j].text, t);
    InKeywords(patterns, |patterns|, compile, Reading(patterns[j].text));
    assert Reading(t)[..|patterns[j].text|] in AllAdded(patterns, compile).keywords;
  }

  lemma UnshadowedByPattern(patterns: seq<Pattern>, compile: Compile)
    requires KeywordsIndexable(patterns) && KeywordsUnshadowed(patterns)
    ensures Unshadowed(AllAdded(patterns, compile).keywords)
  {
    var keywords := AllAdded(patterns, compile).keywords;
    forall u | u != [] && IsPrefixOfSome(keywords, u) && SomeOccurs(keywords, u)
      ensures BeginsWithKeyword(keywords, u)
    {
      var q :| q in keywords && u <= q;
      InKeywords(patterns, |patterns|, compile, q);
      var i :| 0 <= i < |patterns| && patterns[i].kind == Substr && q == Reading(patterns[i].text);
      BeginsAtEnd(patterns[i].text, u);
      var t := patterns[i].text[|q| - |u|..];
      KeywordsByPattern(patterns, compile, t);
      assert ContainsKeyword(patterns, t);
      EndsWithKeyword(patterns, compile, t);
    }
  }

  // ----- the number of keys -----

  lemma {:induction false} SubsetSize(a: set<bytes>, b: set<bytes>)
    requires a <= b
    ensures |a| <= |b|
  {
    if x :| x in a { SubsetSize(a - {x}, b - {x}); }
  }

  lemma TwoMoreKeys(full: set<bytes>, domain: set<bytes>, full': set<bytes>, domain': set<bytes>, p: bytes)
    requires full' <= full + {p} && domain' <= domain + {p}
    ensures |TableKeys(full', domain')| <= |TableKeys(full, domain)| + 2
  {
    SubsetSize(TableKeys(full', domain'), TableKeys(full, domain) + {p} + {[DOT] + p});
  }

  ghost function KeysOf(c: Contents): set<bytes> {
    TableKeys(c.full, c.domain)
  }

  /** A pattern adds at most two keys: itself and, for a domain, its dotted form. */
  lemma {:induction false} KeysBound(patterns: seq<Pattern>, n: nat, compile: Compile)
    requires n <= |patterns| && KeywordsIndexable(patterns)
    ensures |KeysOf(AfterAdding(patterns, n, compile))| <= 2 * n
  {
    if n == 0 {
      assert KeysOf(AfterAdding(patterns, n, compile)) == {};
    } else {
      KeysBound(patterns, n - 1, compile);
      var before, after := AfterAdding(patterns, n - 1, compile), AfterAdding(patterns, n, compile);
      TwoMoreKeys(before.full, before.domain, after.full, after.domain, ToLower(patterns[n - 1].text));
    }
  }

  lemma FewKeys(patterns: seq<Pattern>, compile: Compile, ruleMap: map<bytes, uint32>)
    requires KeywordsIndexable(patterns) && BitLen(2 * |patterns|) < UINT_BITS
    requires ruleMap.Keys == KeysOf(AllAdded(patterns, compile))
    ensures BitLen(|ruleMap|) < UINT_BITS
  {
    KeysBound(patterns, |patterns|, compile);
    assert |ruleMap| == |ruleMap.Keys|;
    BitLenMonotone(|ruleMap|, 2 * |patterns|);
  }

  // ----- the caller's run -----

  /** One AddPattern for each pattern; a regular expression that does not compile leaves nothing behind. */
  method AddAll(g: MphMatcherGroup, patterns: seq<Pattern>)
    requires g.Collecting() && g.ac == null && g.count == 1 && KeywordsIndexable(patterns)
    requires ContentsOf(g) == Contents({}, {}, {}, [])
    modifies g
    ensures g.Collecting() && ContentsOf(g) == AllAdded(patterns, g.compile)
    ensures g.ac != null ==> fresh(g.ac) && HasKeyword(patterns)
  {
    for n := 0 to |patterns|
      invariant g.Collecting() && g.count == 1
      invariant ContentsOf(g) == AfterAdding(patterns, n, g.compile)
      invariant g.ac != null ==> fresh(g.ac) && HasKeyword(patterns)
    {
      var id := g.AddPattern(patterns[n].text, patterns[n].kind);
      assert ContentsOf(g) == OneMore(AfterAdding(patterns, n, g.compile), patterns[n], g.compile);
    }
  }

  /** The group after all calls and Build; false stands for a search that never returns. */
  method AddAndBuild(strhash: Hash, compile: Compile, patterns: seq<Pattern>) returns (g: MphMatcherGroup, built: bool)
    requires KeywordsIndexable(patterns) && BitLen(2 * |patterns|) < UINT_BITS
    ensures ContentsOf(g) == AllAdded(patterns, compile) && (g.ac != null ==> HasKeyword(patterns))
    ensures built ==> g.Ready()
    ensures !built ==> Unbuildable(strhash, StoredKeys(g.full, g.domain))
  {
    g := new MphMatcherGroup(strhash, compile);
    AddAll(g, patterns);
    FewKeys(patterns, compile, g.ruleMap);
    built := g.Build();
  }

  /** Main result for the group, on the patterns as given: after adding them all and Build, Match finds a name exactly
      when one of the patterns accepts it, if the rules are covered and the keywords unshadowed. */
  method BuildAndMatch(strhash: Hash, compile: Compile, patterns: seq<Pattern>, s: bytes)
    returns (built: bool, result: seq<uint32>)
    requires KeywordsIndexable(patterns) && (HasKeyword(patterns) ==> Indexable(s))
    requires BitLen(2 * |patterns|) < UINT_BITS
    requires RulesCovered(patterns) && KeywordsUnshadowed(patterns)
    ensures built ==> (result != [] <==> SomeAccepts(patterns, compile, s))
    ensures !built ==> Unbuildable(strhash, KeysOf(AllAdded(patterns, compile)))
  {
    var g;
    g, built := AddAndBuild(strhash, compile, patterns);
    result := [];
    CoveredByPattern(patterns, compile);
    if built {
      UnshadowedByPattern(patterns, compile);
      AcceptedByPattern(patterns, compile, s);
      result := MatchAll(g, s);
    }
  }
}
