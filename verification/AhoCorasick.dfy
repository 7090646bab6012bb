/** The language side of common/strmatcher/ac_automaton_matcher.go: words over the folded
    alphabet, the longest suffix of a text that is a trie path, and what a match means. */
module AhoCorasickTheory {
  import opened Bytes
  import opened Matchers

  const SYMBOLS: nat := 53
  const INDEXED_BYTES: nat := 127

  type Sym = x: nat | x < SYMBOLS
  type Word = seq<Sym>

  datatype Mark = Mark(kind: Kind, exist: bool)

  const UNMARKED := Mark(Full, false)

  /** The trie as a value: every path with the mark of the node it ends in. */
  type Trie = map<Word, Mark>

  /** char2Index: letters fold to one case, bytes without an entry share index 0 with 'a'. */
  function CharIndex(b: byte): Sym
    requires b < INDEXED_BYTES
  {
    if 'A' as int <= b <= 'Z' as int then b - 'A' as int
    else if 'a' as int <= b <= 'z' as int then b - 'a' as int
    else if '0' as int <= b <= '9' as int then 43 + (b - '0' as int)
    else if b == '!' as int then 26
    else if b == '$' as int then 27
    else if b == '&' as int then 28
    else if b == '\'' as int then 29
    else if b == '(' as int then 30
    else if b == ')' as int then 31
    else if b == '*' as int then 32
    else if b == '+' as int then 33
    else if b == ',' as int then 34
    else if b == ';' as int then 35
    else if b == '=' as int then 36
    else if b == ':' as int then 37
    else if b == '%' as int then 38
    else if b == '-' as int then 39
    else if b == '.' as int then 40
    else if b == '_' as int then 41
    else if b == '~' as int then 42
    else 0
  }

  /** A byte at or above 127 is outside the char2Index table: indexing it panics. */
  predicate Indexable(s: bytes) {
    forall i :: 0 <= i < |s| ==> s[i] < INDEXED_BYTES
  }

  /** The symbols of s in the order the automaton reads them: last byte first. */
  function Reading(s: bytes): (w: Word)
    requires Indexable(s)
    ensures |w| == |s|
    ensures forall i :: 0 <= i < |s| ==> w[i] == CharIndex(s[|s| - 1 - i])
  {
    seq(|s|, i requires 0 <= i < |s| => CharIndex(s[|s| - 1 - i]))
  }

  // ----- suffixes and prefixes -----

  predicate IsSuffix(v: Word, w: Word) {
    |v| <= |w| && w[|w| - |v|..] == v
  }

  function AllButLast(w: Word): Word
    requires w != []
  {
    w[..|w| - 1]
  }

  ghost predicate PrefixClosed(p: set<Word>) {
    && [] in p
    && forall w {:trigger AllButLast(w)} :: w != [] && w in p ==> AllButLast(w) in p
  }

  /** The longest suffix of w that is a path of the trie. */
  ghost function LongestSuffix(p: set<Word>, w: Word): (r: Word)
    requires [] in p
    ensures r in p && |r| <= |w|
  {
    if w in p then w else LongestSuffix(p, w[1..])
  }

  lemma {:induction false} LongestSuffixIsLongest(p: set<Word>, w: Word, v: Word)
    requires [] in p && v in p && IsSuffix(v, w)
    ensures IsSuffix(v, LongestSuffix(p, w)) && IsSuffix(LongestSuffix(p, w), w)
  {
    if w !in p {
      assert v != w;
      assert |v| < |w|;
      assert w[1..][|w| - 1 - |v|..] == w[|w| - |v|..];
      LongestSuffixIsLongest(p, w[1..], v);
    }
  }

  /** The recurrence behind fail links: extending the longest suffix by one symbol and
      falling back again gives the longest suffix of the extended text. */
  lemma {:induction false} LongestSuffixStep(p: set<Word>, w: Word, x: Sym)
    requires PrefixClosed(p)
    ensures LongestSuffix(p, w + [x]) == LongestSuffix(p, LongestSuffix(p, w) + [x])
  {
    if w !in p {
      assert AllButLast(w + [x]) == w;
      assert (w + [x])[1..] == w[1..] + [x];
      LongestSuffixStep(p, w[1..], x);
    }
  }

  lemma {:induction false} PrefixesArePaths(p: set<Word>, w: Word, k: nat)
    requires PrefixClosed(p) && w in p && k <= |w|
    ensures w[..k] in p
    decreases |w| - k
  {
    if k == |w| {
      assert w[..k] == w;
    } else {
      PrefixesArePaths(p, w, k + 1);
      assert AllButLast(w[..k + 1]) == w[..k];
    }
  }

  ghost function Prefixes(w: Word): set<Word> {
    set k | 0 <= k <= |w| :: w[..k]
  }

  // ----- what Add does to the trie -----

  ghost function WithPath(m: Trie, w: Word): (r: Trie)
    ensures r.Keys == m.Keys + Prefixes(w)
  {
    map v | v in m.Keys + Prefixes(w) :: if v in m then m[v] else UNMARKED
  }

  const DOT_INDEX: Sym := 40

  ghost function AddSpec(m: Trie, w: Word, t: Kind): Trie {
    if t == Domain then
      WithPath(WithPath(m, w)[w := Mark(Full, true)], w + [DOT_INDEX])[w + [DOT_INDEX] := Mark(Domain, true)]
    else
      WithPath(m, w)[w := Mark(t, true)]
  }

  // ----- what Match computes -----

  /** The switch in Match after u has been read. */
  ghost predicate Hit(m: Trie, u: Word)
    requires [] in m
  {
    var state := LongestSuffix(m.Keys, u);
    m[state].kind == Substr || (m[state].kind == Domain && u in m)
  }

  ghost predicate MatchSpec(m: Trie, w: Word)
    requires [] in m
  {
    || (exists k :: 0 < k <= |w| && Hit(m, w[..k]))
    || (w in m && m[w].exist)
  }

  // ----- keyword patterns only -----

  ghost predicate Occurs(v: Word, w: Word) {
    exists k :: 0 <= k <= |w| && IsSuffix(v, w[..k])
  }

  ghost predicate SomeOccurs(patterns: set<Word>, w: Word) {
    exists v :: v in patterns && Occurs(v, w)
  }

  ghost predicate IsPrefixOfSome(patterns: set<Word>, u: Word) {
    exists q :: q in patterns && u <= q
  }

  /** The trie that a run of Add(p, Substr) builds. */
  ghost predicate KeywordTrie(m: Trie, patterns: set<Word>) {
    && (forall u {:trigger IsPrefixOfSome(patterns, u)} :: u in m <==> u == [] || IsPrefixOfSome(patterns, u))
    && (forall u {:trigger m[u]} :: u in m ==> m[u] == if u in patterns then Mark(Substr, true) else UNMARKED)
  }

  lemma KeywordPath(m: Trie, patterns: set<Word>, u: Word)
    requires KeywordTrie(m, patterns)
    ensures [] in m && (u in m <==> u == [] || IsPrefixOfSome(patterns, u))
  {
    var rooted := IsPrefixOfSome(patterns, []);
  }

  lemma KeywordTrieAdd(m: Trie, patterns: set<Word>, w: Word)
    requires KeywordTrie(m, patterns)
    ensures KeywordTrie(AddSpec(m, w, Substr), patterns + {w})
  {
    var r := AddSpec(m, w, Substr);
    assert w == w[..|w|];
    forall u
      ensures u in r <==> u == [] || IsPrefixOfSome(patterns + {w}, u)
      ensures u in patterns ==> u in m
    {
      KeywordPath(m, patterns, u);
      assert u in patterns ==> u <= u;
      if u <= w {
        assert u == w[..|u|];
        assert w in patterns + {w};
      }
      if IsPrefixOfSome(patterns, u) {
        var q :| q in patterns && u <= q;
        assert q in patterns + {w};
      }
    }
  }

  lemma KeywordTriePrefixClosed(m: Trie, patterns: set<Word>)
    requires KeywordTrie(m, patterns)
    ensures PrefixClosed(m.Keys)
  {
    KeywordPath(m, patterns, []);
    forall w | w in m.Keys && w != []
      ensures AllButLast(w) in m.Keys
    {
      KeywordPath(m, patterns, w);
      KeywordPath(m, patterns, AllButLast(w));
      var q :| q in patterns && w <= q;
      assert AllButLast(w) <= q;
    }
  }

  /** A true answer is never spurious: some keyword occurs in the text. */
  lemma MatchIsSound(m: Trie, patterns: set<Word>, w: Word)
    requires KeywordTrie(m, patterns) && [] in m
    requires MatchSpec(m, w)
    ensures SomeOccurs(patterns, w)
  {
    if w in m && m[w].exist {
      assert w[..|w|] == w && IsSuffix(w, w);
      assert Occurs(w, w);
    } else {
      var k :| 0 < k <= |w| && Hit(m, w[..k]);
      LongestSuffixIsLongest(m.Keys, w[..k], []);
      assert Occurs(LongestSuffix(m.Keys, w[..k]), w);
    }
  }

  /** The condition under which Build's missing "exists along fail links" never shows: whenever
      a keyword occurs in a non-empty beginning u of a keyword (in reading order), u itself
      begins with a non-empty keyword. */
  ghost predicate Unshadowed(patterns: set<Word>) {
    forall u :: u != [] && IsPrefixOfSome(patterns, u) && SomeOccurs(patterns, u) ==> BeginsWithKeyword(patterns, u)
  }

  ghost predicate BeginsWithKeyword(patterns: set<Word>, u: Word) {
    exists j :: 0 < j <= |u| && u[..j] in patterns
  }

  /** Reading a path of the trie walks its prefixes, so only keyword prefixes are hits. */
  lemma MatchOnPath(m: Trie, patterns: set<Word>, u: Word)
    requires KeywordTrie(m, patterns) && [] in m && u in m && u != []
    ensures MatchSpec(m, u) <==> BeginsWithKeyword(patterns, u)
  {
    KeywordTriePrefixClosed(m, patterns);
    forall k | 0 < k <= |u|
      ensures Hit(m, u[..k]) <==> u[..k] in patterns
    {
      PrefixesArePaths(m.Keys, u, k);
    }
    assert u[..|u|] == u;
  }

  /** If a keyword v ends at position i of w then, unshadowed, Match stops at i or earlier. */
  lemma {:induction false} UnshadowedHits(m: Trie, patterns: set<Word>, w: Word, i: nat, v: Word)
    requires KeywordTrie(m, patterns) && [] in m
    requires Unshadowed(patterns)
    requires 0 < i <= |w| && v in patterns && IsSuffix(v, w[..i])
    ensures exists k :: 0 < k <= i && Hit(m, w[..k])
    decreases i
  {
    assert v <= v;
    KeywordPath(m, patterns, v);
    var u := LongestSuffix(m.Keys, w[..i]);
    LongestSuffixIsLongest(m.Keys, w[..i], v);
    if u == [] {
      assert v == [];
      assert Hit(m, w[..i]);
    } else {
      KeywordPath(m, patterns, u);
      assert u[..|u|] == u;
      assert Occurs(v, u);
      var j :| 0 < j <= |u| && u[..j] in patterns;
      if j == |u| {
        assert Hit(m, w[..i]);
      } else {
        var i' := i - |u| + j;
        assert w[..i'][i' - j..] == u[..j] by {
          assert u == w[..i][i - |u|..];
        }
        assert IsSuffix(u[..j], w[..i']);
        UnshadowedHits(m, patterns, w, i', u[..j]);
      }
    }
  }

  /** Main result for keywords: Match agrees with "some keyword occurs" on every text if and
      only if the keyword set is unshadowed. */
  lemma KeywordMatchExact(m: Trie, patterns: set<Word>)
    requires KeywordTrie(m, patterns) && [] in m
    ensures (forall w :: MatchSpec(m, w) <==> SomeOccurs(patterns, w)) <==> Unshadowed(patterns)
  {
    if forall w :: MatchSpec(m, w) <==> SomeOccurs(patterns, w) {
      forall u | u != [] && IsPrefixOfSome(patterns, u) && SomeOccurs(patterns, u)
        ensures BeginsWithKeyword(patterns, u)
      {
        KeywordPath(m, patterns, u);
        MatchOnPath(m, patterns, u);
      }
    }
    if Unshadowed(patterns) {
      forall w
        ensures MatchSpec(m, w) <==> SomeOccurs(patterns, w)
      {
        if MatchSpec(m, w) {
          MatchIsSound(m, patterns, w);
        }
        if SomeOccurs(patterns, w) {
          UnshadowedIsComplete(m, patterns, w);
        }
      }
    }
  }

  lemma UnshadowedIsComplete(m: Trie, patterns: set<Word>, w: Word)
    requires KeywordTrie(m, patterns) && [] in m
    requires Unshadowed(patterns) && SomeOccurs(patterns, w)
    ensures MatchSpec(m, w)
  {
    var v :| v in patterns && Occurs(v, w);
    var k :| 0 <= k <= |w| && IsSuffix(v, w[..k]);
    if k > 0 {
      UnshadowedHits(m, patterns, w, k, v);
    } else if |w| > 0 {
      assert v == [];
      assert IsSuffix(v, w[..1]);
      UnshadowedHits(m, patterns, w, 1, v);
    } else {
      assert v == [] == w;
    }
  }

  lemma {:induction false} OccursInPrefix(p: Word, u: Word, q: Word)
    requires u <= q && Occurs(p, u)
    ensures Occurs(p, q) && |p| <= |u| && (p == q ==> u == q)
  {
    var k :| 0 <= k <= |u| && IsSuffix(p, u[..k]);
    assert u[..k] == q[..k];
  }

  /** A caller's check that implies the condition: no keyword is empty and none occurs inside another. */
  lemma NoKeywordInsideAnother(patterns: set<Word>)
    requires [] !in patterns
    requires forall p, q :: p in patterns && q in patterns && p != q ==> !Occurs(p, q)
    ensures Unshadowed(patterns)
  {
    forall u | u != [] && IsPrefixOfSome(patterns, u) && SomeOccurs(patterns, u)
      ensures BeginsWithKeyword(patterns, u)
    {
      var q :| q in patterns && u <= q;
      var p :| p in patterns && Occurs(p, u);
      OccursInPrefix(p, u, q);
      assert u[..|u|] == u;
    }
  }

  /** The smallest failing shape: with the keywords "b" and "abc", the text "xbc" contains "b",
      but reading it from the right leads to the inside of "abc" and past the keyword. */
  lemma ShadowedKeywordIsMissed(m: Trie, a: Sym, b: Sym, c: Sym, x: Sym)
    requires a != b && b != c && a != c && x != a && x != b && x != c
    requires KeywordTrie(m, {[b], [c, b, a]})
    ensures [] in m && SomeOccurs({[b], [c, b, a]}, [c, b, x]) && !MatchSpec(m, [c, b, x])
  {
    var w := [c, b, x];
    assert IsSuffix([b], w[..2]);
    assert Occurs([b], w);
    ShadowTrie(m, a, b, c);
    assert w[..1] == [c] && w[..2] == [c, b] && w[..3] == w;
    assert w[2] != [c, b, a][2];
    assert w[1..] == [b, x] && [b, x][1..] == [x] && [x][1..] == [];
    assert LongestSuffix(m.Keys, [x]) == LongestSuffix(m.Keys, []) == [];
    assert LongestSuffix(m.Keys, w) == LongestSuffix(m.Keys, [b, x]) == [];
  }

  lemma ShadowTrie(m: Trie, a: Sym, b: Sym, c: Sym)
    requires a != b && b != c && a != c
    requires KeywordTrie(m, {[b], [c, b, a]})
    ensures m.Keys == {[], [b], [c], [c, b], [c, b, a]}
    ensures forall u :: u in m && u != [b] && u != [c, b, a] ==> m[u] == UNMARKED
  {
    var q := [c, b, a];
    assert q[..0] == [] && q[..1] == [c] && q[..2] == [c, b] && q[..3] == q;
    assert [c] <= q && [c, b] <= q && q <= q && [b] <= [b];
    KeywordPath(m, {[b], q}, [b]);
    KeywordPath(m, {[b], q}, [c]);
    KeywordPath(m, {[b], q}, [c, b]);
    KeywordPath(m, {[b], q}, q);
    forall u | u in m && u != []
      ensures u in {[b], [c], [c, b], q}
    {
      KeywordPath(m, {[b], q}, u);
      var p :| p in {[b], q} && u <= p;
      assert u == p[..|u|];
      assert |u| <= 3 && (|u| == 1 || |u| == 2 || |u| == 3);
      if p == [b] { assert u == [b]; }
    }
  }

  // ----- keyword matching as strings.Contains -----

  /** ! $ & ' ( ) * + , ; = : % - . _ ~ */
  const SIGNS: set<byte> := {33, 36, 38, 39, 40, 41, 42, 43, 44, 59, 61, 58, 37, 45, 46, 95, 126}

  /** The bytes that char2Index lists: the letters in either case, the digits and 17 signs. */
  predicate Listed(b: byte) {
    65 <= b <= 90 || 97 <= b <= 122 || 48 <= b <= 57 || b in SIGNS
  }

  /** The byte as the automaton sees it: a small letter, a sign or a digit, and 'a' for a byte that is not listed. */
  function Seen(b: byte): byte {
    if !Listed(b) then 97 else if Capital(b) then b + 32 else b
  }

  lemma SeenKeepsIndex(b: byte)
    requires b < 127
    ensures Seen(b) < 127 && CharIndex(Seen(b)) == CharIndex(b)
  {
  }

  /** Two bytes that the automaton cannot tell apart: one letter in either case, and every unlisted byte like 'a'. */
  predicate ReadAlike(b: byte, c: byte) {
    SameLetter(if Listed(b) then b else 97, if Listed(c) then c else 97)
  }

  /** The table gives two bytes one index exactly when they are alike; index 40 is the dot of a domain rule. */
  lemma IndexFoldsCase(b: byte, c: byte)
    requires b < 127 && c < 127
    ensures CharIndex(b) == CharIndex(c) <==> ReadAlike(b, c)
    ensures CharIndex(46) == DOT_INDEX
  {
    SeenKeepsIndex(b);
    SeenKeepsIndex(c);
    assert ReadAlike(b, c) <==> Seen(b) == Seen(c);
  }

  predicate AlikeAt(p: bytes, s: bytes, k: nat) {
    k + |p| <= |s| && forall i :: 0 <= i < |p| ==> ReadAlike(p[i], s[k + i])
  }

  /** p stands somewhere in s, bytes that read alike being one. */
  ghost predicate ContainsAlike(p: bytes, s: bytes) {
    exists k :: AlikeAt(p, s, k)
  }

  lemma SameSymbol(p: bytes, s: bytes, k: nat, i: nat)
    requires Indexable(s) && Indexable(p) && i < |p| && k + |p| <= |s|
    ensures Reading(s)[|s| - 1 - k - i] == Reading(p)[|p| - 1 - i] <==> ReadAlike(p[i], s[k + i])
  {
    IndexFoldsCase(p[i], s[k + i]);
  }

  lemma AlikeIsSuffix(p: bytes, s: bytes, k: nat)
    requires Indexable(s) && Indexable(p) && k + |p| <= |s|
    ensures AlikeAt(p, s, k) <==> IsSuffix(Reading(p), Reading(s)[..|s| - k])
  {
    var v, w := Reading(p), Reading(s);
    var tail := w[..|s| - k][|s| - k - |p|..];
    if tail == v {
      forall i | 0 <= i < |p|
        ensures ReadAlike(p[i], s[k + i])
      {
        SameSymbol(p, s, k, i);
        assert tail[|p| - 1 - i] == w[|s| - 1 - k - i];
      }
    }
    if AlikeAt(p, s, k) {
      forall j | 0 <= j < |p|
        ensures tail[j] == v[j]
      {
        SameSymbol(p, s, k, |p| - 1 - j);
      }
      assert tail == v;
    }
  }

  predicate ListedText(s: bytes) {
    forall i :: 0 <= i < |s| ==> Listed(s[i])
  }

  lemma AlikeIsFound(p: bytes, s: bytes, k: nat)
    requires ListedText(s) && ListedText(p)
    ensures AlikeAt(p, s, k) <==> FoundAt(ToLower(s), ToLower(p), k)
  {
    if k + |p| <= |s| {
      forall i | 0 <= i < |p|
        ensures ReadAlike(p[i], s[k + i]) <==> ToLower(s)[k + i] == ToLower(p)[i]
      {
        LowerByteFolds(s[k + i], p[i]);
      }
    }
  }

  /** Occurring in the reading is containing, read alike; on listed bytes that is strings.Contains of the two in lower
      case. */
  lemma OccursIsContains(s: bytes, p: bytes)
    requires Indexable(s) && Indexable(p)
    ensures Occurs(Reading(p), Reading(s)) <==> ContainsAlike(p, s)
    ensures ListedText(s) && ListedText(p) ==> (ContainsAlike(p, s) <==> SubstrMatch(ToLower(p), ToLower(s)))
  {
    if Occurs(Reading(p), Reading(s)) {
      var k :| 0 <= k <= |s| && IsSuffix(Reading(p), Reading(s)[..k]);
      AlikeIsSuffix(p, s, |s| - k);
    }
    if ContainsAlike(p, s) {
      var k: nat :| AlikeAt(p, s, k);
      AlikeIsSuffix(p, s, k);
      if ListedText(s) && ListedText(p) { AlikeIsFound(p, s, k); }
    }
    if ListedText(s) && ListedText(p) && SubstrMatch(ToLower(p), ToLower(s)) {
      var k: nat :| FoundAt(ToLower(s), ToLower(p), k);
      AlikeIsFound(p, s, k);
    }
  }
}
