/** common/strmatcher/ac_automaton_matcher.go: the automaton as it is stored and built in place. */
module AcAutomaton {
  import opened Bytes
  import opened Matchers
  import opened AhoCorasickTheory

  /** An edge of the transition table; edgeType TrieEdge is true, FailEdge is false. */
  datatype Edge = Edge(isTrie: bool, next: nat)

  const NO_EDGE := Edge(false, 0)

  type Row = seq<Edge>

  ghost predicate WellNamed(words: seq<Word>, node: map<Word, nat>) {
    && |words| > 0 && words[0] == []
    && (forall n :: 0 <= n < |words| ==> words[n] in node && node[words[n]] == n)
    && (forall w :: w in node ==> node[w] < |words| && words[node[w]] == w)
    && PrefixClosed(node.Keys)
  }

  /** The row of n before Build: trie edges, and zero where there is none. */
  ghost predicate RawRow(node: map<Word, nat>, w: Word, row: Row) {
    && |row| == SYMBOLS
    && forall i: Sym {:trigger row[i]} :: row[i] == if w + [i] in node then Edge(true, node[w + [i]]) else NO_EDGE
  }

  ghost predicate RawRows(words: seq<Word>, node: map<Word, nat>, trie: seq<Row>) {
    && |trie| == |words|
    && forall n {:trigger trie[n]} :: 0 <= n < |words| ==> RawRow(node, words[n], trie[n])
  }

  ghost function Target(node: map<Word, nat>, w: Word): (n: nat)
    requires [] in node
  {
    node[LongestSuffix(node.Keys, w)]
  }

  /** The row of n after Build: every symbol leads to the longest suffix that is a path. */
  ghost predicate FullRow(node: map<Word, nat>, w: Word, row: Row)
    requires [] in node
  {
    && |row| == SYMBOLS
    && forall i: Sym {:trigger row[i]} :: row[i] == Edge(w + [i] in node, Target(node, w + [i]))
  }

  /** fail[n] is the longest proper suffix of n's word that is a path. */
  ghost predicate FailOf(node: map<Word, nat>, w: Word, f: nat)
    requires [] in node
  {
    if w == [] then f == 0 else f == Target(node, w[1..])
  }

  ghost function MarksOf(node: map<Word, nat>, marks: seq<Mark>): (m: Trie)
    requires forall w :: w in node ==> node[w] < |marks|
    ensures m.Keys == node.Keys
  {
    map w | w in node :: marks[node[w]]
  }

  // ----- growing the trie by one node -----

  lemma NoEdgeNoChild(words: seq<Word>, node: map<Word, nat>, n: nat, x: Sym, row: Row)
    requires WellNamed(words, node) && n < |words| && RawRow(node, words[n], row)
    requires row[x].next == 0
    ensures words[n] + [x] !in node
  {
    assert words[n] + [x] != words[0];
  }

  lemma NameChild(words: seq<Word>, node: map<Word, nat>, n: nat, x: Sym)
    requires WellNamed(words, node) && n < |words| && words[n] + [x] !in node
    ensures WellNamed(words + [words[n] + [x]], node[words[n] + [x] := |words|])
  {
    var w := words[n] + [x];
    var node' := node[w := |words|];
    forall v | v in node'.Keys && v != []
      ensures AllButLast(v) in node'.Keys
    {
      if v == w { assert AllButLast(w) == words[n]; }
    }
  }

  function GrownTrie(trie: seq<Row>, n: nat, x: Sym): seq<Row>
    requires n < |trie| && |trie[n]| == SYMBOLS
  {
    (trie + [seq(SYMBOLS, _ => NO_EDGE)])[n := trie[n][x := Edge(true, |trie|)]]
  }

  lemma GrowRows(words: seq<Word>, node: map<Word, nat>, trie: seq<Row>, n: nat, x: Sym)
    requires WellNamed(words, node) && RawRows(words, node, trie) && n < |words| && words[n] + [x] !in node
    ensures |trie[n]| == SYMBOLS
    ensures RawRows(words + [words[n] + [x]], node[words[n] + [x] := |words|], GrownTrie(trie, n, x))
  {
    assert RawRow(node, words[n], trie[n]);
    var w := words[n] + [x];
    var node' := node[w := |words|];
    var trie' := GrownTrie(trie, n, x);
    forall i: Sym
      ensures w + [i] !in node'
    {
      assert AllButLast(w + [i]) == w;
      assert |w + [i]| != |w|;
    }
    forall m | 0 <= m < |words|
      ensures RawRow(node', words[m], trie'[m])
    {
      assert RawRow(node, words[m], trie[m]);
      forall i: Sym
        ensures words[m] + [i] == w ==> m == n && i == x
      {
        if words[m] + [i] == w {
          assert (words[m] + [i])[..|words[m]|] == words[m];
          assert w[..|words[n]|] == words[n];
          assert node[words[m]] == node[words[n]];
          assert (words[m] + [i])[|words[m]|] == i;
        }
      }
    }
  }

  lemma GrowMarks(words: seq<Word>, node: map<Word, nat>, marks: seq<Mark>, n: nat, x: Sym)
    requires WellNamed(words, node) && |marks| == |words| && n < |words| && words[n] + [x] !in node
    ensures MarksOf(node[words[n] + [x] := |words|], marks + [UNMARKED])
         == MarksOf(node, marks)[words[n] + [x] := UNMARKED]
  {
  }

  lemma SetMark(words: seq<Word>, node: map<Word, nat>, marks: seq<Mark>, n: nat, mark: Mark)
    requires WellNamed(words, node) && |marks| == |words| && n < |words|
    ensures MarksOf(node, marks[n := mark]) == MarksOf(node, marks)[words[n] := mark]
  {
  }

  class ACAutomaton {
    var trie: seq<Row>
    var fail: seq<nat>
    var marks: seq<Mark>
    var count: nat
    // words[n] spells the path from the root to node n, and node is its inverse
    ghost var words: seq<Word>
    ghost var node: map<Word, nat>

    ghost predicate Shaped()
      reads this
    {
      && |trie| == |fail| == |marks| == |words| == count + 1
      && WellNamed(words, node)
    }

    ghost predicate Unbuilt()
      reads this
    {
      && Shaped()
      && RawRows(words, node, trie)
      && (forall n :: 0 <= n < |words| ==> fail[n] == 0)
    }

    ghost predicate Built()
      reads this
    {
      && Shaped()
      && (forall n {:trigger trie[n]} :: 0 <= n < |words| ==> FullRow(node, words[n], trie[n]))
      && (forall n {:trigger fail[n]} :: 0 <= n < |words| ==> FailOf(node, words[n], fail[n]))
    }

    /** The abstract trie: each path with its mark. */
    ghost function Marks(): (m: Trie)
      requires Shaped()
      reads this
      ensures m.Keys == node.Keys
    {
      MarksOf(node, marks)
    }

    constructor ()
      ensures Unbuilt()
      ensures Marks() == map[[] := UNMARKED]
    {
      trie := [seq(SYMBOLS, _ => NO_EDGE)];
      fail := [0];
      marks := [UNMARKED];
      count := 0;
      words := [[]];
      node := map[[] := 0];
    }

    /** One step of the walk in Add: follow the edge of x below n, creating it if it is missing. */
    method Descend(n: nat, x: Sym) returns (child: nat)
      requires Unbuilt() && n < |words|
      modifies this
      ensures Unbuilt()
      ensures child < |words| && words[child] == old(words)[n] + [x]
      ensures Marks() == if words[child] in old(node) then old(Marks()) else old(Marks())[words[child] := UNMARKED]
    {
      assert RawRow(node, words[n], trie[n]);
      if trie[n][x].next == 0 {
        ghost var w := words[n] + [x];
        NoEdgeNoChild(words, node, n, x, trie[n]);
        NameChild(words, node, n, x);
        GrowRows(words, node, trie, n, x);
        GrowMarks(words, node, marks, n, x);
        count := count + 1;
        trie := GrownTrie(trie, n, x);
        fail := fail + [0];
        marks := marks + [UNMARKED];
        words := words + [w];
        node := node[w := count];
        return count;
      }
      child := trie[n][x].next;
    }

    method SetMarkOf(n: nat, mark: Mark)
      requires Unbuilt() && n < |words|
      modifies `marks
      ensures Unbuilt()
      ensures Marks() == old(Marks())[words[n] := mark]
    {
      SetMark(words, node, marks, n, mark);
      marks := marks[n := mark];
    }

    /** The loop of Add: from the last byte of domain to the first, creating the missing path. */
    method Walk(domain: bytes) returns (n: nat)
      requires Unbuilt() && Indexable(domain)
      modifies this
      ensures Unbuilt() && n < |words| && words[n] == Reading(domain)
      ensures Marks() == WithPath(old(Marks()), Reading(domain))
    {
      n := 0;
      ghost var w := Reading(domain);
      ghost var m0 := Marks();
      assert w[..0] == [];
      var i := |domain|;
      while i > 0
        invariant 0 <= i <= |domain|
        invariant Unbuilt() && n < |words| && words[n] == w[..|domain| - i]
        invariant Marks() == WithPath(m0, w[..|domain| - i])
      {
        i := i - 1;
        var x := CharIndex(domain[i]);
        ghost var u := w[..|domain| - i - 1];
        assert w[..|domain| - i] == u + [x];
        WithPathStep(m0, u, x);
        n := Descend(n, x);
      }
      assert w[..|domain|] == w;
    }

    /** Add records the pattern's reading and, for Domain, the reading of "." + pattern. */
    method Add(domain: bytes, t: Kind)
      requires Unbuilt() && Indexable(domain)
      modifies this
      ensures Unbuilt()
      ensures Marks() == AddSpec(old(Marks()), Reading(domain), t)
    {
      var n := Walk(domain);
      SetMarkOf(n, Mark(t, true));
      if t == Domain {
        SetMarkOf(n, Mark(Full, true));
        AddDotted(n);
        PathAlreadyThere(old(Marks()), Reading(domain));
      }
    }

    /** The Domain case of Add: mark the child of n on the dot. */
    method AddDotted(n: nat)
      requires Unbuilt() && n < |words|
      modifies this
      ensures Unbuilt()
      ensures Marks() == WithPath(old(Marks()), old(words)[n] + [DOT_INDEX])[old(words)[n] + [DOT_INDEX] :=
                Mark(Domain, true)]
    {
      WithPathGrows(Marks(), words[n], DOT_INDEX);
      PrefixesOfPath(words, node, n);
      var child := Descend(n, CharIndex(DOT));
      SetMarkOf(child, Mark(Domain, true));
    }

    /** The inner loop of Build on the node u just taken off the queue: give every child its fail
        link and queue it, and replace every missing edge by the fail node's edge. */
    method Expand(u: nat, rest: seq<nat>, ghost finished: set<nat>) returns (queue: seq<nat>)
      requires Shaped() && 0 in finished && Rows(words, node, trie, finished)
      requires u < |words| && u !in finished
      requires FailOf(node, words[u], fail[u]) && fail[u] in finished
      modifies `trie, `fail
      ensures Shaped() && Rows(words, node, trie, finished + {u})
      ensures queue == rest + Children(node, words[u], SYMBOLS)
      ensures FailsAfter(words, node, words[u], SYMBOLS, old(fail), fail)
    {
      queue := rest;
      assert words[u] != [];
      ghost var trie0, fail0 := trie, fail;
      var i := 0;
      while i < SYMBOLS
        invariant 0 <= i <= SYMBOLS
        invariant SameBut(trie0, trie, u)
        invariant queue == Pushed(rest, node, words[u], i)
        invariant Expanding(words, node, u, trie0[u], trie[u], fail0, fail, i)
      {
        queue := ExpandSymbol(u, i, queue, trie0[u], fail0);
        i := i + 1;
      }
      FinishRow(words, node, u, trie0, trie, finished);
      PushedIsAppended(rest, node, words[u], SYMBOLS);
    }

    method ExpandSymbol(u: nat, x: Sym, queue: seq<nat>, ghost raw: Row, ghost fail0: seq<nat>)
      returns (queue': seq<nat>)
      requires WellNamed(words, node) && u < |words| && words[u] != [] && |trie| == |words|
      requires RawRow(node, words[u], raw)
      requires Expanding(words, node, u, raw, trie[u], fail0, fail, x)
      requires FailOf(node, words[u], fail0[u]) && fail0[u] != u
      requires FullRow(node, words[fail0[u]], trie[fail0[u]])
      modifies `trie, `fail
      ensures SameBut(old(trie), trie, u)
      ensures Expanding(words, node, u, raw, trie[u], fail0, fail, x + 1)
      ensures queue' == queue + NewChild(node, words[u], x)
    {
      OwnFailKept(words, node, u, x, fail0, fail);
      if trie[u][x].next != 0 {
        ExpandEdge(words, node, u, raw, trie[u], fail0, fail, x, trie[fail[u]]);
        fail := fail[trie[u][x].next := trie[fail[u]][x].next];
        queue' := queue + [trie[u][x].next];
      } else {
        ExpandGap(words, node, u, raw, trie[u], fail0, fail, x, trie[fail[u]]);
        trie := trie[u := trie[u][x := Edge(false, trie[fail[u]][x].next)]];
        queue' := queue;
      }
    }

    /** Build: breadth-first, so the row a fail link points to is finished before it is copied. */
    method Build()
      requires Unbuilt()
      modifies `trie, `fail
      ensures Built()
      ensures Marks() == old(Marks())
    {
      var queue: seq<nat> := [];
      var i := 0;
      while i < SYMBOLS
        invariant 0 <= i <= SYMBOLS
        invariant Unbuilt() && queue == Pushed([], node, [], i)
      {
        var x: Sym := i;
        assert [] + [x] == words[0] + [x];
        if trie[0][x].next != 0 {
          queue := queue + [trie[0][x].next];
        } else {
          NoEdgeNoChild(words, node, 0, x, trie[0]);
        }
        i := i + 1;
      }
      ghost var finished := {0};
      RootRow(node, trie[0]);
      PushedIsAppended([], node, [], SYMBOLS);
      FirstFrontier(words, node, fail);
      while queue != []
        invariant Shaped() && Rows(words, node, trie, finished)
        invariant Frontier(words, node, fail, queue, finished)
        decreases node.Values - finished
      {
        var u := queue[0];
        assert node[words[u]] == u && u in node.Values;
        FailIsFinished(words, node, fail, queue, finished);
        ghost var fail0, queue0 := fail, queue;
        queue := Expand(u, queue[1..], finished);
        NextFrontier(words, node, fail0, fail, queue0, finished);
        finished := finished + {u};
      }
      forall n | 0 <= n < |words|
        ensures n in finished
      {
        if n !in finished { UnfinishedIsDeep(words, node, fail, queue, finished, n); }
      }
    }

    method Match(s: bytes) returns (found: bool)
      requires Built() && Indexable(s)
      ensures found <==> MatchSpec(Marks(), Reading(s))
    {
      var n: nat := 0;
      var fullMatch := true;
      ghost var w := Reading(s);
      ghost var m := Marks();
      assert w[..0] == [];
      var i := |s|;
      while i > 0
        invariant 0 <= i <= |s|
        invariant Walked(node, w[..|s| - i], n, fullMatch)
        invariant !HitBy(m, w, |s| - i)
      {
        i := i - 1;
        var idx := CharIndex(s[i]);
        assert w[..|s| - i] == w[..|s| - i - 1] + [idx];
        MatchStep(words, node, marks, w[..|s| - i - 1], idx, n, fullMatch, trie[n]);
        HitByStep(m, w, |s| - i);
        fullMatch := fullMatch && trie[n][idx].isTrie;
        n := trie[n][idx].next;
        match marks[n].kind {
          case Substr =>
            HitByMonotone(m, w, |s| - i);
            return true;
          case Domain =>
            if fullMatch {
              HitByMonotone(m, w, |s| - i);
              return true;
            }
          case _ =>
        }
      }
      assert w[..|s|] == w;
      return fullMatch && marks[n].exist;
    }
  }

  /** Where Match stands after reading u: the node it is in and whether it only took trie edges. */
  ghost predicate Walked(node: map<Word, nat>, u: Word, n: nat, fullMatch: bool) {
    && [] in node
    && n == Target(node, u)
    && (fullMatch <==> u in node)
  }

  ghost predicate HitBy(m: Trie, w: Word, bound: nat)
    requires [] in m && bound <= |w|
  {
    exists k :: 0 < k <= bound && Hit(m, w[..k])
  }

  lemma HitByStep(m: Trie, w: Word, bound: nat)
    requires [] in m && 0 < bound <= |w|
    ensures HitBy(m, w, bound) <==> HitBy(m, w, bound - 1) || Hit(m, w[..bound])
  {
  }

  lemma HitByMonotone(m: Trie, w: Word, bound: nat)
    requires [] in m && bound <= |w| && HitBy(m, w, bound)
    ensures MatchSpec(m, w)
  {
  }

  lemma MatchStep(words: seq<Word>, node: map<Word, nat>, marks: seq<Mark>, u: Word, x: Sym,
                  n: nat, fullMatch: bool, row: Row)
    requires WellNamed(words, node) && |marks| == |words|
    requires Walked(node, u, n, fullMatch) && FullRow(node, words[n], row)
    ensures var n', full' := row[x].next, fullMatch && row[x].isTrie;
            && n' < |words|
            && Walked(node, u + [x], n', full')
            && (Hit(MarksOf(node, marks), u + [x]) <==>
                  marks[n'].kind == Substr || (marks[n'].kind == Domain && full'))
  {
    LongestSuffixStep(node.Keys, u, x);
    assert AllButLast(u + [x]) == u;
  }

  lemma WithPathGrows(m: Trie, w: Word, x: Sym)
    ensures Prefixes(w) <= m.Keys ==> WithPath(m, w + [x]) == if w + [x] in m then m else m[w + [x] := UNMARKED]
  {
    forall v
      ensures v in Prefixes(w + [x]) <==> v in Prefixes(w) || v == w + [x]
    {
      if v in Prefixes(w + [x]) {
        var k :| 0 <= k <= |w + [x]| && v == (w + [x])[..k];
        if k <= |w| { assert v == w[..k]; }
      }
      if v in Prefixes(w) {
        var k :| 0 <= k <= |w| && v == w[..k];
        assert v == (w + [x])[..k];
      }
      assert (w + [x])[..|w + [x]|] == w + [x];
    }
  }

  lemma WithPathStep(m: Trie, w: Word, x: Sym)
    ensures WithPath(m, w + [x]) == if w + [x] in WithPath(m, w) then WithPath(m, w)
              else WithPath(m, w)[w + [x] := UNMARKED]
  {
    WithPathGrows(WithPath(m, w), w, x);
    forall v | v in Prefixes(w)
      ensures v in Prefixes(w + [x])
    {
      var k :| 0 <= k <= |w| && v == w[..k];
      assert v == (w + [x])[..k];
    }
  }

  lemma RootRow(node: map<Word, nat>, row: Row)
    requires [] in node && node[[]] == 0 && RawRow(node, [], row)
    ensures FullRow(node, [], row)
  {
    forall i: Sym
      ensures row[i] == Edge([] + [i] in node, Target(node, [] + [i]))
    {
      if [] + [i] !in node {
        assert ([] + [i])[1..] == [];
      }
    }
  }

  lemma PathAlreadyThere(m: Trie, w: Word)
    ensures WithPath(m, w)[w := Mark(Domain, true)][w := Mark(Full, true)] == WithPath(m, w)[w := Mark(Full, true)]
  {
  }

  lemma PrefixesOfPath(words: seq<Word>, node: map<Word, nat>, n: nat)
    requires WellNamed(words, node) && n < |words|
    ensures Prefixes(words[n]) <= node.Keys
  {
    forall v | v in Prefixes(words[n])
      ensures v in node
    {
      var k :| 0 <= k <= |words[n]| && v == words[n][..k];
      PrefixesArePaths(node.Keys, words[n], k);
    }
  }

  // ----- breadth-first bookkeeping -----

  ghost predicate Rows(words: seq<Word>, node: map<Word, nat>, trie: seq<Row>, finished: set<nat>)
    requires [] in node
  {
    && |trie| == |words|
    && forall n {:trigger trie[n]} :: 0 <= n < |words| ==>
         if n in finished then FullRow(node, words[n], trie[n]) else RawRow(node, words[n], trie[n])
  }

  /** Row of w with the first bound entries final and the others still as raw has them. */
  ghost predicate PartRow(node: map<Word, nat>, w: Word, raw: Row, row: Row, bound: nat)
    requires [] in node
  {
    && |row| == |raw| == SYMBOLS
    && forall i: Sym {:trigger row[i]} ::
         row[i] == if i < bound then Edge(w + [i] in node, Target(node, w + [i])) else raw[i]
  }

  predicate IsChild(v: Word, w: Word, bound: nat) {
    v != [] && AllButLast(v) == w && v[|v| - 1] < bound
  }

  /** The children of w on symbols below bound, in symbol order: what the loops push. */
  ghost function Children(node: map<Word, nat>, w: Word, bound: nat): seq<nat>
    requires bound <= SYMBOLS
  {
    if bound == 0 then []
    else
      Children(node, w, bound - 1) + NewChild(node, w, bound - 1)
  }

  ghost function NewChild(node: map<Word, nat>, w: Word, x: Sym): seq<nat> {
    if w + [x] in node then [node[w + [x]]] else []
  }

  /** The queue after pushing the first of those children one by one. */
  ghost function Pushed(queue: seq<nat>, node: map<Word, nat>, w: Word, bound: nat): seq<nat>
    requires bound <= SYMBOLS
  {
    if bound == 0 then queue else Pushed(queue, node, w, bound - 1) + NewChild(node, w, bound - 1)
  }

  lemma {:induction false} PushedIsAppended(queue: seq<nat>, node: map<Word, nat>, w: Word, bound: nat)
    requires bound <= SYMBOLS
    ensures Pushed(queue, node, w, bound) == queue + Children(node, w, bound)
  {
    if bound > 0 { PushedIsAppended(queue, node, w, bound - 1); }
  }

  lemma ChildBelow(v: Word, w: Word, x: Sym)
    ensures IsChild(v, w, x + 1) <==> IsChild(v, w, x) || v == w + [x]
  {
    assert AllButLast(w + [x]) == w;
    if v != [] { assert v == AllButLast(v) + [v[|v| - 1]]; }
  }

  lemma {:induction false} ChildrenAre(words: seq<Word>, node: map<Word, nat>, w: Word, bound: nat)
    requires WellNamed(words, node) && bound <= SYMBOLS
    ensures forall n: nat :: n in Children(node, w, bound) <==> n < |words| && IsChild(words[n], w, bound)
    ensures forall j, k :: 0 <= j < k < |Children(node, w, bound)| ==>
              Children(node, w, bound)[j] != Children(node, w, bound)[k]
  {
    if bound > 0 {
      var x: Sym := bound - 1;
      ChildrenAre(words, node, w, bound - 1);
      var before := Children(node, w, bound - 1);
      var after := Children(node, w, bound);
      forall n: nat
        ensures n in after <==> n < |words| && IsChild(words[n], w, bound)
      {
        if n < |words| { ChildBelow(words[n], w, x); }
      }
      if w + [x] in node {
        assert !IsChild(w + [x], w, x);
        assert node[w + [x]] !in before;
        assert forall j :: 0 <= j < |before| ==> before[j] in before;
      }
    }
  }

  /** The edge of the fail node on x is the longest proper suffix of w + [x] that is a path. */
  lemma FailTransition(words: seq<Word>, node: map<Word, nat>, w: Word, x: Sym, f: nat, row: Row)
    requires WellNamed(words, node) && w != []
    requires FailOf(node, w, f) && FullRow(node, words[f], row)
    ensures FailOf(node, w + [x], row[x].next)
    ensures w + [x] !in node ==> row[x].next == Target(node, w + [x])
  {
    LongestSuffixStep(node.Keys, w[1..], x);
    assert (w + [x])[1..] == w[1..] + [x];
  }

  /** The state of Expand before symbol bound: row and fail are final below it. */
  ghost predicate Expanding(words: seq<Word>, node: map<Word, nat>, u: nat, raw: Row, row: Row,
                            fail0: seq<nat>, fail: seq<nat>, bound: nat)
    requires WellNamed(words, node) && u < |words|
  {
    && PartRow(node, words[u], raw, row, bound)
    && FailsAfter(words, node, words[u], bound, fail0, fail)
  }

  /** fail differs from fail0 in the children of w on symbols below bound, which have their link. */
  ghost predicate FailsAfter(words: seq<Word>, node: map<Word, nat>, w: Word, bound: nat, fail0: seq<nat>,
                             fail: seq<nat>)
    requires [] in node
  {
    && |fail0| == |fail| == |words|
    && forall n {:trigger fail[n]} :: 0 <= n < |words| ==>
         if IsChild(words[n], w, bound) then FailOf(node, words[n], fail[n]) else fail[n] == fail0[n]
  }

  lemma OwnFailKept(words: seq<Word>, node: map<Word, nat>, u: nat, bound: nat, fail0: seq<nat>, fail: seq<nat>)
    requires [] in node && u < |words| && FailsAfter(words, node, words[u], bound, fail0, fail)
    ensures fail[u] == fail0[u]
  {
    assert !IsChild(words[u], words[u], bound);
  }

  ghost predicate SameBut(trie: seq<Row>, trie': seq<Row>, u: nat) {
    && |trie'| == |trie|
    && forall n {:trigger trie'[n]} :: 0 <= n < |trie| && n != u ==> trie'[n] == trie[n]
  }

  lemma FinishRow(words: seq<Word>, node: map<Word, nat>, u: nat, trie: seq<Row>, trie': seq<Row>, finished: set<nat>)
    requires WellNamed(words, node) && Rows(words, node, trie, finished) && u < |words|
    requires SameBut(trie, trie', u) && PartRow(node, words[u], trie[u], trie'[u], SYMBOLS)
    ensures Rows(words, node, trie', finished + {u})
  {
  }

  lemma ExpandEdge(words: seq<Word>, node: map<Word, nat>, u: nat, raw: Row, row: Row,
                   fail0: seq<nat>, fail: seq<nat>, x: Sym, failRow: Row)
    requires WellNamed(words, node) && u < |words| && words[u] != []
    requires RawRow(node, words[u], raw)
    requires Expanding(words, node, u, raw, row, fail0, fail, x)
    requires FailOf(node, words[u], fail0[u]) && FullRow(node, words[fail0[u]], failRow)
    requires row[x].next != 0
    ensures words[u] + [x] in node && row[x].next == node[words[u] + [x]]
    ensures Expanding(words, node, u, raw, row, fail0, fail[row[x].next := failRow[x].next], x + 1)
  {
    FailTransition(words, node, words[u], x, fail0[u], failRow);
    assert row[x] == raw[x];
    NextFailsEdge(words, node, words[u], x, fail0, fail, failRow[x].next);
  }

  lemma ExpandGap(words: seq<Word>, node: map<Word, nat>, u: nat, raw: Row, row: Row,
                   fail0: seq<nat>, fail: seq<nat>, x: Sym, failRow: Row)
    requires WellNamed(words, node) && u < |words| && words[u] != []
    requires RawRow(node, words[u], raw)
    requires Expanding(words, node, u, raw, row, fail0, fail, x)
    requires FailOf(node, words[u], fail0[u]) && FullRow(node, words[fail0[u]], failRow)
    requires row[x].next == 0
    ensures words[u] + [x] !in node
    ensures Expanding(words, node, u, raw, row[x := Edge(false, failRow[x].next)], fail0, fail, x + 1)
  {
    FailTransition(words, node, words[u], x, fail0[u], failRow);
    assert row[x] == raw[x];
    NoEdgeNoChild(words, node, u, x, raw);
    NextFailsGap(words, node, words[u], x, fail0, fail);
  }

  lemma NextFailsEdge(words: seq<Word>, node: map<Word, nat>, w: Word, x: Sym, fail0: seq<nat>, fail: seq<nat>, f: nat)
    requires WellNamed(words, node) && w + [x] in node
    requires FailsAfter(words, node, w, x, fail0, fail) && FailOf(node, w + [x], f)
    ensures FailsAfter(words, node, w, x + 1, fail0, fail[node[w + [x]] := f])
  {
    var fail' := fail[node[w + [x]] := f];
    forall n | 0 <= n < |words|
      ensures if IsChild(words[n], w, x + 1) then FailOf(node, words[n], fail'[n]) else fail'[n] == fail0[n]
    {
      ChildBelow(words[n], w, x);
      assert words[n] == w + [x] <==> n == node[w + [x]];
      assert n != node[w + [x]] ==> fail'[n] == fail[n];
    }
  }

  lemma NextFailsGap(words: seq<Word>, node: map<Word, nat>, w: Word, x: Sym, fail0: seq<nat>, fail: seq<nat>)
    requires WellNamed(words, node) && w + [x] !in node
    requires FailsAfter(words, node, w, x, fail0, fail)
    ensures FailsAfter(words, node, w, x + 1, fail0, fail)
  {
    forall n | 0 <= n < |words|
      ensures IsChild(words[n], w, x + 1) <==> IsChild(words[n], w, x)
    {
      ChildBelow(words[n], w, x);
    }
  }

  ghost predicate QueueIsFresh(words: seq<Word>, queue: seq<nat>, finished: set<nat>) {
    && (forall j :: 0 <= j < |queue| ==> queue[j] < |words| && queue[j] !in finished)
    && (forall j, k :: 0 <= j < k < |queue| ==> queue[j] != queue[k])
  }

  ghost predicate QueueByDepth(words: seq<Word>, queue: seq<nat>) {
    && (forall j :: 0 <= j < |queue| ==> queue[j] < |words|)
    && (forall j, k :: 0 <= j < k < |queue| ==> |words[queue[j]]| <= |words[queue[k]]|)
    && (forall j :: 0 <= j < |queue| ==> |words[queue[j]]| <= |words[queue[0]]| + 1)
  }

  /** A node is finished or queued exactly when its parent is finished. */
  ghost predicate ChildrenFollow(words: seq<Word>, node: map<Word, nat>, queue: seq<nat>, finished: set<nat>)
    requires WellNamed(words, node)
  {
    forall n: nat {:trigger AllButLast(words[n])} :: n < |words| && words[n] != [] ==>
      (n in finished || n in queue <==> node[AllButLast(words[n])] in finished)
  }

  ghost predicate FailsKnown(words: seq<Word>, node: map<Word, nat>, fail: seq<nat>, queue: seq<nat>,
                             finished: set<nat>)
    requires WellNamed(words, node) && |fail| == |words|
  {
    forall n {:trigger fail[n]} :: 0 <= n < |words| && (n in finished || n in queue) ==> FailOf(node, words[n], fail[n])
  }

  /** The state of Build's loop: the queue holds the shallowest unfinished nodes in order of depth. */
  ghost predicate Frontier(words: seq<Word>, node: map<Word, nat>, fail: seq<nat>, queue: seq<nat>, finished: set<nat>)
    requires WellNamed(words, node) && |fail| == |words|
  {
    && 0 in finished
    && QueueIsFresh(words, queue, finished)
    && QueueByDepth(words, queue)
    && ChildrenFollow(words, node, queue, finished)
    && FailsKnown(words, node, fail, queue, finished)
  }

  lemma FirstFrontier(words: seq<Word>, node: map<Word, nat>, fail: seq<nat>)
    requires WellNamed(words, node) && |fail| == |words|
    requires forall n :: 0 <= n < |words| ==> fail[n] == 0
    ensures Frontier(words, node, fail, Children(node, [], SYMBOLS), {0})
  {
    ChildrenAre(words, node, [], SYMBOLS);
    var queue := Children(node, [], SYMBOLS);
    assert forall j :: 0 <= j < |queue| ==> queue[j] in queue;
    forall n: nat | n < |words| && words[n] != []
      ensures n == 0 || n in queue <==> node[AllButLast(words[n])] == 0
    {
      assert node[AllButLast(words[n])] == 0 <==> AllButLast(words[n]) == [];
    }
  }

  /** A queued node's fail link points to a shallower node, and those are all finished. */
  lemma FailIsFinished(words: seq<Word>, node: map<Word, nat>, fail: seq<nat>, queue: seq<nat>, finished: set<nat>)
    requires WellNamed(words, node) && |fail| == |words| && Frontier(words, node, fail, queue, finished)
    requires queue != []
    ensures FailOf(node, words[queue[0]], fail[queue[0]])
    ensures fail[queue[0]] in finished
  {
    var u := queue[0];
    assert u in queue;
    assert words[u] != [];
    assert |words[fail[u]]| < |words[u]|;
    if fail[u] !in finished { UnfinishedIsDeep(words, node, fail, queue, finished, fail[u]); }
  }

  lemma {:induction false} UnfinishedIsDeep(words: seq<Word>, node: map<Word, nat>, fail: seq<nat>, queue: seq<nat>,
                                            finished: set<nat>, n: nat)
    requires WellNamed(words, node) && |fail| == |words| && Frontier(words, node, fail, queue, finished)
    requires n < |words| && n !in finished
    ensures queue != [] && |words[n]| >= |words[queue[0]]|
    decreases |words[n]|
  {
    if n !in queue {
      assert words[n] != [];
      var parent := node[AllButLast(words[n])];
      UnfinishedIsDeep(words, node, fail, queue, finished, parent);
    }
  }

  lemma NextFrontier(words: seq<Word>, node: map<Word, nat>, fail: seq<nat>, fail': seq<nat>, queue: seq<nat>,
                     finished: set<nat>)
    requires WellNamed(words, node) && |fail| == |words| && Frontier(words, node, fail, queue, finished)
    requires queue != [] && FailsAfter(words, node, words[queue[0]], SYMBOLS, fail, fail')
    ensures Frontier(words, node, fail', queue[1..] + Children(node, words[queue[0]], SYMBOLS), finished + {queue[0]})
  {
    var u := queue[0];
    var children := Children(node, words[u], SYMBOLS);
    var next := queue[1..] + children;
    ChildrenAre(words, node, words[u], SYMBOLS);
    assert queue == [u] + queue[1..];
    forall c | c in children
      ensures c < |words| && c !in finished && c != u && c !in queue && |words[c]| == |words[u]| + 1
    {
      assert node[AllButLast(words[c])] == u;
      assert u in queue;
    }
    NextQueueIsFresh(words, queue, children, finished);
    NextQueueByDepth(words, queue, children);
    NextFailsKnown(words, node, fail, fail', queue, children, finished);
  }

  lemma NextFailsKnown(words: seq<Word>, node: map<Word, nat>, fail: seq<nat>, fail': seq<nat>, queue: seq<nat>,
                       children: seq<nat>, finished: set<nat>)
    requires WellNamed(words, node) && |fail| == |fail'| == |words| && queue != [] && queue[0] < |words|
    requires FailsKnown(words, node, fail, queue, finished)
    requires forall n: nat {:trigger n in children} :: n in children <==>
              n < |words| && IsChild(words[n], words[queue[0]], SYMBOLS)
    requires forall n {:trigger fail'[n]} :: 0 <= n < |words| ==>
               if n in children then FailOf(node, words[n], fail'[n]) else fail'[n] == fail[n]
    ensures FailsKnown(words, node, fail', queue[1..] + children, finished + {queue[0]})
  {
    assert queue == [queue[0]] + queue[1..];
  }

  lemma NextQueueIsFresh(words: seq<Word>, queue: seq<nat>, children: seq<nat>, finished: set<nat>)
    requires queue != [] && QueueIsFresh(words, queue, finished)
    requires forall c :: c in children ==> c < |words| && c !in finished && c !in queue
    requires forall j, k :: 0 <= j < k < |children| ==> children[j] != children[k]
    ensures QueueIsFresh(words, queue[1..] + children, finished + {queue[0]})
  {
    var next := queue[1..] + children;
    forall j | 0 <= j < |next|
      ensures next[j] < |words| && next[j] !in finished + {queue[0]}
    {
      if j >= |queue| - 1 { assert next[j] in children; }
    }
    forall j, k | 0 <= j < k < |next|
      ensures next[j] != next[k]
    {
      if j < |queue| - 1 <= k { assert next[j] in queue && next[k] in children; }
    }
  }

  lemma NextQueueByDepth(words: seq<Word>, queue: seq<nat>, children: seq<nat>)
    requires queue != [] && QueueByDepth(words, queue)
    requires forall c :: c in children ==> c < |words| && |words[c]| == |words[queue[0]]| + 1
    ensures QueueByDepth(words, queue[1..] + children)
  {
    var next := queue[1..] + children;
    forall j | 0 <= j < |next|
      ensures next[j] == (if j < |queue| - 1 then queue[j + 1] else children[j - |queue| + 1])
      ensures next[j] < |words| && |words[queue[0]]| <= |words[next[j]]| <= |words[queue[0]]| + 1
    {
      if j >= |queue| - 1 { assert next[j] in children; }
    }
  }
}
