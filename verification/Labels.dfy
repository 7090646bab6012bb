/** Domain names as label paths, from the top-level label down: the keys of the label trie. */
module Labels {
  import opened Bytes
  import opened Matchers

  type Path = seq<bytes>

  /** The nextPart closure of DomainMatcherGroup.Match: the last dot before idx, or -1. */
  function LastDot(s: bytes, idx: int): (i: int)
    requires 0 <= idx <= |s|
    ensures -1 <= i < idx || (i == -1 && idx == 0)
    decreases idx
  {
    if idx == 0 then -1 else if s[idx - 1] == DOT then idx - 1 else LastDot(s, idx - 1)
  }

  lemma {:induction false} LastDotIs(s: bytes, idx: nat)
    requires idx <= |s|
    ensures var i := LastDot(s, idx); (i >= 0 ==> s[i] == DOT) && forall j :: i < j < idx ==> s[j] != DOT
  {
    if idx > 0 && s[idx - 1] != DOT { LastDotIs(s, idx - 1); }
  }

  /** The labels of s[..idx] from right to left; none are left at -1. */
  function PathUpTo(s: bytes, idx: int): Path
    requires -1 <= idx <= |s|
    decreases idx
  {
    if idx == -1 then [] else [s[LastDot(s, idx) + 1..idx]] + PathUpTo(s, LastDot(s, idx))
  }

  function PathOf(s: bytes): Path {
    PathUpTo(s, |s|)
  }

  // ----- strings.Split -----

  /** The labels of s[from..] from left to right. */
  function SplitFrom(s: bytes, from: nat, start: nat): (r: seq<bytes>)
    requires start <= from <= |s|
    decreases |s| - from
  {
    if from == |s| then [s[start..]]
    else if s[from] == DOT then [s[start..from]] + SplitFrom(s, from + 1, from + 1)
    else SplitFrom(s, from + 1, start)
  }

  /** breakDomain: strings.Split at the dots. */
  function Split(s: bytes): seq<bytes> {
    SplitFrom(s, 0, 0)
  }

  function Reverse(p: Path): Path {
    seq<bytes>(|p|, i requires 0 <= i < |p| => p[|p| - 1 - i])
  }

  lemma PassLabel(rest: Path, head: bytes, before: Path)
    ensures Reverse(rest) + ([head] + before) == Reverse([head] + rest) + before
  {
    assert Reverse([head] + rest) == Reverse(rest) + [head];
  }

  /** Reading on from a label boundary: the labels still to come, then those already passed. */
  lemma {:induction false} SplitFromIsPath(s: bytes, from: nat, start: nat)
    requires start <= from <= |s|
    requires start == 0 || s[start - 1] == DOT
    requires forall j :: start <= j < from ==> s[j] != DOT
    ensures PathOf(s) == Reverse(SplitFrom(s, from, start)) + PathUpTo(s, start - 1)
    decreases |s| - from
  {
    if from == |s| {
      LastDotFrom(s, start, |s|);
      assert s[start..|s|] == s[start..];
      assert Reverse([s[start..]]) == [s[start..]];
    } else if s[from] == DOT {
      SplitFromIsPath(s, from + 1, from + 1);
      LastDotFrom(s, start, from);
      PassLabel(SplitFrom(s, from + 1, from + 1), s[start..from], PathUpTo(s, start - 1));
    } else {
      SplitFromIsPath(s, from + 1, start);
    }
  }

  lemma {:induction false} LastDotFrom(s: bytes, start: nat, idx: nat)
    requires start <= idx <= |s|
    requires start == 0 || s[start - 1] == DOT
    requires forall j :: start <= j < idx ==> s[j] != DOT
    ensures LastDot(s, idx) == start - 1
  {
    if start < idx { LastDotFrom(s, start, idx - 1); }
  }

  /** Add walks breakDomain's labels from the last to the first: that is the path. */
  lemma PathIsReversedSplit(s: bytes)
    ensures PathOf(s) == Reverse(Split(s))
  {
    SplitFromIsPath(s, 0, 0);
  }

  // ----- paths and domain rules -----

  /** p[a..i] stands in s, d places further on. */
  predicate SameRun(p: bytes, a: nat, i: nat, s: bytes, d: int)
    requires a <= i <= |p| && 0 <= d + a && d + i <= |s|
  {
    forall k :: a <= k < i ==> s[d + k] == p[k]
  }

  /** p[..i] is a domain rule that accepts s[..j]. */
  predicate Accepts(p: bytes, i: nat, s: bytes, j: nat)
    requires i <= |p| && j <= |s|
  {
    i <= j && SameRun(p, 0, i, s, j - i) && (i == j || s[j - i - 1] == DOT)
  }

  lemma {:induction false} AcceptedShift(p: bytes, i: nat, s: bytes, j: nat)
    requires i <= |p| && j <= |s| && Accepts(p, i, s, j)
    ensures LastDot(p, i) == -1 ==> LastDot(s, j) == j - i - 1
    ensures LastDot(p, i) != -1 ==> LastDot(s, j) == j - i + LastDot(p, i)
  {
    if i > 0 {
      assert s[j - i + (i - 1)] == p[i - 1];
      if p[i - 1] != DOT { AcceptedShift(p, i - 1, s, j - 1); }
    }
  }

  lemma {:induction false} AcceptsIsPrefix(p: bytes, i: nat, s: bytes, j: nat)
    requires i <= |p| && j <= |s|
    ensures Accepts(p, i, s, j) <==> PathUpTo(p, i) <= PathUpTo(s, j)
    decreases i
  {
    var a, b := LastDot(p, i), LastDot(s, j);
    AcceptsAfterLabel(p, i, s, j);
    TailPrefix(p[a + 1..i], PathUpTo(p, a), s[b + 1..j], PathUpTo(s, b));
    if a != -1 && b != -1 { AcceptsIsPrefix(p, a, s, b); }
  }

  /** Acceptance is decided by the last labels and what lies before them. */
  lemma AcceptsAfterLabel(p: bytes, i: nat, s: bytes, j: nat)
    requires i <= |p| && j <= |s|
    ensures var a, b := LastDot(p, i), LastDot(s, j);
            Accepts(p, i, s, j) <==> p[a + 1..i] == s[b + 1..j] && (a == -1 || (b != -1 && Accepts(p, a, s, b)))
  {
    var a, b := LastDot(p, i), LastDot(s, j);
    if Accepts(p, i, s, j) { AcceptedLabel(p, i, s, j); }
    if p[a + 1..i] == s[b + 1..j] {
      if a == -1 {
        LastLabelOnly(p, i, s, j);
      } else if b != -1 && Accepts(p, a, s, b) {
        OneMoreLabel(p, i, s, j);
      }
    }
  }

  lemma AcceptedLabel(p: bytes, i: nat, s: bytes, j: nat)
    requires i <= |p| && j <= |s| && Accepts(p, i, s, j)
    ensures var a, b := LastDot(p, i), LastDot(s, j);
            p[a + 1..i] == s[b + 1..j] && (a == -1 || (b != -1 && Accepts(p, a, s, b)))
  {
    var a, b := LastDot(p, i), LastDot(s, j);
    AcceptedShift(p, i, s, j);
    if a == -1 {
      assert b == j - i - 1;
      SameLabel(p, 0, i, s, b + 1, j);
    } else {
      assert b == j - i + a;
      LastDotIs(p, i);
      RunsJoin(p, a, i, s, j - i);
      SameLabel(p, a + 1, i, s, b + 1, j);
    }
  }

  lemma OneMoreLabel(p: bytes, i: nat, s: bytes, j: nat)
    requires i <= |p| && j <= |s| && LastDot(p, i) != -1 && LastDot(s, j) != -1
    requires p[LastDot(p, i) + 1..i] == s[LastDot(s, j) + 1..j] && Accepts(p, LastDot(p, i), s, LastDot(s, j))
    ensures Accepts(p, i, s, j)
  {
    var a, b := LastDot(p, i), LastDot(s, j);
    LastDotIs(p, i);
    LastDotIs(s, j);
    SameLabel(p, a + 1, i, s, b + 1, j);
    RunsJoin(p, a, i, s, j - i);
  }

  /** A rule of one label accepts a name that ends in it as its last label. */
  lemma LastLabelOnly(p: bytes, i: nat, s: bytes, j: nat)
    requires i <= |p| && j <= |s| && LastDot(p, i) == -1 && p[..i] == s[LastDot(s, j) + 1..j]
    ensures Accepts(p, i, s, j)
  {
    LastDotIs(s, j);
    SameLabel(p, 0, i, s, LastDot(s, j) + 1, j);
  }

  lemma RunsJoin(p: bytes, a: nat, i: nat, s: bytes, d: nat)
    requires a < i <= |p| && d + i <= |s|
    ensures SameRun(p, 0, i, s, d) <==> SameRun(p, 0, a, s, d) && s[d + a] == p[a] && SameRun(p, a + 1, i, s, d)
  {
  }

  lemma SameLabel(p: bytes, a: nat, i: nat, s: bytes, b: nat, j: nat)
    requires a <= i <= |p| && b <= j <= |s|
    ensures p[a..i] == s[b..j] <==> i - a == j - b && SameRun(p, a, i, s, b - a)
  {
    if p[a..i] == s[b..j] {
      forall k | a <= k < i
        ensures s[b - a + k] == p[k]
      {
        assert p[a..i][k - a] == s[b..j][k - a];
      }
    }
  }

  lemma TailPrefix(x: bytes, p: Path, y: bytes, q: Path)
    ensures [x] + p <= [y] + q <==> x == y && p <= q
  {
    if [x] + p <= [y] + q {
      assert ([x] + p)[0] == ([y] + q)[0];
      assert forall k :: 0 <= k < |p| ==> p[k] == ([x] + p)[k + 1] == ([y] + q)[k + 1] == q[k];
    }
  }

  /** A domain rule accepts s exactly when its path starts the path of s. */
  lemma DomainMatchIsPrefix(p: bytes, s: bytes)
    ensures DomainMatch(p, s) <==> PathOf(p) <= PathOf(s)
  {
    AcceptsIsPrefix(p, |p|, s, |s|);
    AcceptsIsDomainMatch(p, s);
  }

  lemma AcceptsIsDomainMatch(p: bytes, s: bytes)
    ensures DomainMatch(p, s) <==> Accepts(p, |p|, s, |s|)
  {
    if |p| <= |s| {
      SameLabel(p, 0, |p|, s, |s| - |p|, |s|);
      assert p[0..|p|] == p && s[|s| - |p|..|s|] == s[|s| - |p|..];
    }
  }

  lemma PathInjective(p: bytes, q: bytes)
    ensures PathOf(p) == PathOf(q) <==> p == q
  {
    if PathOf(p) == PathOf(q) {
      DomainMatchIsPrefix(p, q);
      DomainMatchIsPrefix(q, p);
      assert q[0..] == q;
    }
  }

  // ----- the cursor of DomainMatcherGroup.Match -----

  /** Where idx stands after k labels have been read: -1 once there are none left. */
  function Cut(s: bytes, k: nat): (idx: int)
    ensures -1 <= idx <= |s|
  {
    if k == 0 then |s| else if Cut(s, k - 1) == -1 then -1 else LastDot(s, Cut(s, k - 1))
  }

  /** The labels between the first cuts are the labels of path. */
  ghost predicate CutAlong(s: bytes, path: Path) {
    forall k {:trigger path[k]} :: 0 <= k < |path| ==> Cut(s, k) != -1 && path[k] == s[Cut(s, k + 1) + 1..Cut(s, k)]
  }

  ghost predicate CutsInto(s: bytes, path: Path) {
    CutAlong(s, path) && Cut(s, |path|) == -1
  }

  lemma CutOneMore(s: bytes, done: Path)
    requires CutAlong(s, done) && Cut(s, |done|) != -1
    ensures Cut(s, |done| + 1) == LastDot(s, Cut(s, |done|))
    ensures CutAlong(s, done + [s[LastDot(s, Cut(s, |done|)) + 1..Cut(s, |done|)]])
  {
    var k := |done|;
    assert Cut(s, k + 1) == LastDot(s, Cut(s, k));
    var done' := done + [s[LastDot(s, Cut(s, k)) + 1..Cut(s, k)]];
    forall j | 0 <= j < |done'|
      ensures Cut(s, j) != -1 && done'[j] == s[Cut(s, j + 1) + 1..Cut(s, j)]
    {
      if j < k { assert done'[j] == done[j]; }
    }
  }

  lemma {:induction false} PathFromCut(s: bytes, done: Path)
    requires CutAlong(s, done) && Cut(s, |done|) != -1
    ensures CutsInto(s, done + PathUpTo(s, Cut(s, |done|)))
    decreases Cut(s, |done|)
  {
    CutOneMore(s, done);
    var idx := Cut(s, |done|);
    var nidx := LastDot(s, idx);
    var done' := done + [s[nidx + 1..idx]];
    assert done + PathUpTo(s, idx) == done' + PathUpTo(s, nidx);
    if nidx == -1 {
      assert done' + PathUpTo(s, nidx) == done';
    } else {
      PathFromCut(s, done');
    }
  }

  lemma PathCuts(s: bytes)
    ensures CutsInto(s, PathOf(s))
  {
    PathFromCut(s, []);
    assert [] + PathOf(s) == PathOf(s);
  }
}
