/** GeoIPMatcher: the sorted arrays Init builds, the two binary searches, and what they decide. */
module GeoIpMatcher {
  import opened Bytes
  import opened CidrSearch
  import opened GeoIp

  // ----- addresses as bytes -----

  function BigEndian(b: bytes): nat {
    if b == [] then 0 else b[0] * Pow2(8 * (|b| - 1)) + BigEndian(b[1..])
  }

  lemma {:induction false} BigEndianBound(b: bytes)
    ensures BigEndian(b) < Pow2(8 * |b|)
  {
    if b != [] {
      BigEndianBound(b[1..]);
      var p := Pow2(8 * (|b| - 1));
      Pow2Adds(8, 8 * (|b| - 1));
      assert Pow2(8) == 256;
      var x: int := b[0];
      MulMonotone(x + 1, 256, p);
      assert (x + 1) * p == x * p + p;
    }
  }

  lemma {:induction false} BigEndianConcat(a: bytes, b: bytes)
    ensures BigEndian(a + b) == BigEndian(a) * Pow2(8 * |b|) + BigEndian(b)
  {
    if a == [] {
      assert a + b == b;
    } else {
      assert (a + b)[1..] == a[1..] + b;
      BigEndianConcat(a[1..], b);
      var p, q := Pow2(8 * (|a| - 1)), Pow2(8 * |b|);
      Pow2Adds(8 * (|a| - 1), 8 * |b|);
      assert 8 * (|a + b| - 1) == 8 * (|a| - 1) + 8 * |b|;
      Distribute(a[0], p, q, BigEndian(a[1..]));
    }
  }

  lemma Distribute(x: nat, p: nat, q: nat, y: nat)
    ensures x * (p * q) + y * q == (x * p + y) * q
  {
  }

  /** binary.BigEndian.Uint64 of the two halves. */
  function ToIp6(b: bytes): Ip6
    requires |b| == 16
  {
    Ip6(BigEndian(b[..8]), BigEndian(b[8..]))
  }

  lemma ToIp6Value(b: bytes)
    requires |b| == 16
    ensures Words(ToIp6(b)) && Value6(ToIp6(b)) == BigEndian(b)
  {
    assert b == b[..8] + b[8..];
    BigEndianConcat(b[..8], b[8..]);
    BigEndianBound(b[..8]);
    BigEndianBound(b[8..]);
    WordPower();
    assert 8 * |b[8..]| == WORD;
  }

  /** The byte loop of CIDRList.Less on addresses of one length. */
  predicate LexLess(a: bytes, b: bytes)
    requires |a| == |b|
  {
    a != [] && (a[0] < b[0] || (a[0] == b[0] && LexLess(a[1..], b[1..])))
  }

  lemma {:induction false} LexIsNumeric(a: bytes, b: bytes)
    requires |a| == |b|
    ensures LexLess(a, b) <==> BigEndian(a) < BigEndian(b)
    ensures a == b <==> BigEndian(a) == BigEndian(b)
  {
    if a != [] {
      LexIsNumeric(a[1..], b[1..]);
      BigEndianBound(a[1..]);
      BigEndianBound(b[1..]);
      var p := Pow2(8 * (|a| - 1));
      HighWordDecides(a[0], BigEndian(a[1..]), b[0], BigEndian(b[1..]), p);
      HighWordDecides(b[0], BigEndian(b[1..]), a[0], BigEndian(a[1..]), p);
      assert a == [a[0]] + a[1..] && b == [b[0]] + b[1..];
    }
  }

  // ----- the sort order -----

  datatype Cidr = Cidr(ip: bytes, prefix: nat)

  /** CIDRList.Less: shorter addresses first, then byte order, then prefix. */
  predicate Less(x: Cidr, y: Cidr) {
    |x.ip| < |y.ip| || (|x.ip| == |y.ip| && (LexLess(x.ip, y.ip) || (x.ip == y.ip && x.prefix < y.prefix)))
  }

  /** Less as the code runs it, byte by byte. */
  method LessLoop(x: Cidr, y: Cidr) returns (less: bool)
    ensures less == Less(x, y)
  {
    if |x.ip| < |y.ip| { return true; }
    if |x.ip| > |y.ip| { return false; }
    var k := 0;
    while k < |x.ip|
      invariant 0 <= k <= |x.ip|
      invariant x.ip[..k] == y.ip[..k]
      invariant LexLess(x.ip, y.ip) <==> LexLess(x.ip[k..], y.ip[k..])
    {
      assert x.ip[k..][1..] == x.ip[k + 1..] && y.ip[k..][1..] == y.ip[k + 1..];
      if x.ip[k] < y.ip[k] { return true; }
      if x.ip[k] > y.ip[k] {
        assert x.ip != y.ip;
        return false;
      }
      k := k + 1;
    }
    assert x.ip == x.ip[..k] == y.ip[..k] == y.ip;
    return x.prefix < y.prefix;
  }

  /** Less is a strict total order: irreflexive, transitive, and any two entries compare. */
  lemma LessIsStrictOrder(x: Cidr, y: Cidr, z: Cidr)
    ensures !Less(x, x)
    ensures Less(x, y) && Less(y, z) ==> Less(x, z)
    ensures Less(x, y) || x == y || Less(y, x)
    ensures !(Less(x, y) && Less(y, x))
  {
    LexIsNumeric(x.ip, x.ip);
    if |x.ip| == |y.ip| { LexIsNumeric(x.ip, y.ip); LexIsNumeric(y.ip, x.ip); }
    if |y.ip| == |z.ip| { LexIsNumeric(y.ip, z.ip); }
    if |x.ip| == |z.ip| { LexIsNumeric(x.ip, z.ip); }
  }

  ghost predicate InOrder(list: seq<Cidr>) {
    forall i, j :: 0 <= i < j < |list| ==> !Less(list[j], list[i])
  }

  /** One insertion step of a sort by Less. */
  function Insert(list: seq<Cidr>, c: Cidr): (r: seq<Cidr>)
    ensures |r| == |list| + 1
    ensures forall x :: x in r <==> x in list || x == c
  {
    if list == [] || Less(c, list[0]) then [c] + list
    else
      var r := Insert(list[1..], c);
      assert list == [list[0]] + list[1..];
      [list[0]] + r
  }

  lemma {:induction false} InsertKeepsOrder(list: seq<Cidr>, c: Cidr)
    requires InOrder(list)
    ensures InOrder(Insert(list, c))
  {
    if list == [] {
    } else if Less(c, list[0]) {
      forall j | 0 <= j < |list|
        ensures !Less(list[j], c)
      {
        LessIsStrictOrder(list[j], c, list[0]);
        LessIsStrictOrder(c, list[0], list[0]);
        if j > 0 { assert !Less(list[j], list[0]); }
      }
    } else {
      InsertKeepsOrder(list[1..], c);
      var r := Insert(list[1..], c);
      forall j | 0 <= j < |r|
        ensures !Less(r[j], list[0])
      {
        assert r[j] in r;
        if r[j] in list[1..] {
          var i :| 0 <= i < |list| - 1 && list[1..][i] == r[j];
          assert list[i + 1] == r[j];
        }
      }
    }
  }

  /** sort.Sort by Less: the one ordered list of these entries. */
  function SortList(list: seq<Cidr>): (r: seq<Cidr>)
    ensures |r| == |list|
    ensures forall x :: x in r <==> x in list
  {
    if list == [] then []
    else
      var n := |list| - 1;
      assert list == list[..n] + [list[n]];
      Insert(SortList(list[..n]), list[n])
  }

  lemma {:induction false} SortListInOrder(list: seq<Cidr>)
    ensures InOrder(SortList(list))
  {
    if list != [] {
      SortListInOrder(list[..|list| - 1]);
      InsertKeepsOrder(SortList(list[..|list| - 1]), list[|list| - 1]);
    }
  }

  lemma {:induction false} InsertAdds(list: seq<Cidr>, c: Cidr)
    ensures multiset(Insert(list, c)) == multiset(list) + multiset{c}
  {
    if list != [] && !Less(c, list[0]) {
      InsertAdds(list[1..], c);
      assert list == [list[0]] + list[1..];
    }
  }

  lemma {:induction false} SortListPermutes(list: seq<Cidr>)
    ensures multiset(SortList(list)) == multiset(list)
  {
    if list != [] {
      var n := |list| - 1;
      assert list == list[..n] + [list[n]];
      SortListPermutes(list[..n]);
      InsertAdds(SortList(list[..n]), list[n]);
    }
  }

  lemma SmallestFirst(a: seq<Cidr>, b: seq<Cidr>)
    requires InOrder(a) && InOrder(b) && a != [] && b != [] && a[0] in b && b[0] in a
    ensures a[0] == b[0]
  {
    LessIsStrictOrder(a[0], b[0], a[0]);
  }

  lemma WithoutFirst(a: seq<Cidr>)
    requires a != []
    ensures multiset(a[1..]) == multiset(a) - multiset{a[0]}
    ensures InOrder(a) ==> InOrder(a[1..])
  {
    assert a == [a[0]] + a[1..];
  }

  lemma SameFirst(a: seq<Cidr>, b: seq<Cidr>)
    requires InOrder(a) && InOrder(b) && multiset(a) == multiset(b) && a != [] && b != []
    ensures a[0] == b[0]
  {
    assert a[0] in multiset(b) && b[0] in multiset(a);
    SmallestFirst(a, b);
  }

  /** Whatever algorithm sorts by Less, the result is the same list. */
  lemma {:induction false} OrderedListsEqual(a: seq<Cidr>, b: seq<Cidr>)
    requires InOrder(a) && InOrder(b) && multiset(a) == multiset(b)
    ensures a == b
  {
    assert |a| == |multiset(a)| == |multiset(b)| == |b|;
    if a != [] {
      SameFirst(a, b);
      WithoutFirst(a);
      WithoutFirst(b);
      OrderedListsEqual(a[1..], b[1..]);
      assert a == [a[0]] + a[1..] && b == [b[0]] + b[1..];
    }
  }

  // ----- the arrays Init fills -----

  /** The entries of the first n with addresses of the given length, in order. */
  function OfLength(list: seq<Cidr>, length: nat, n: nat): seq<Cidr>
    requires n <= |list|
  {
    if n == 0 then []
    else OfLength(list, length, n - 1) + if |list[n - 1].ip| == length then [list[n - 1]] else []
  }

  lemma {:induction false} OfLengthInOrder(list: seq<Cidr>, length: nat, n: nat)
    requires n <= |list| && InOrder(list)
    ensures var r := OfLength(list, length, n); InOrder(r)
    ensures forall c :: c in OfLength(list, length, n) <==> c in list[..n] && |c.ip| == length
  {
    if n > 0 {
      OfLengthInOrder(list, length, n - 1);
      assert list[..n] == list[..n - 1] + [list[n - 1]];
      var before := OfLength(list, length, n - 1);
      forall i | 0 <= i < |before|
        ensures !Less(list[n - 1], before[i])
      {
        assert before[i] in before;
        var j :| 0 <= j < n - 1 && list[..n - 1][j] == before[i];
        assert list[j] == before[i];
      }
    }
  }

  function Uint8(x: nat): nat {
    x % 256
  }

  // ----- the search on the two arrays -----

  function Above4(ip4: seq<nat>, ip: nat): seq<bool> {
    seq(|ip4|, i requires 0 <= i < |ip4| => ip < ip4[i])
  }

  function Hits4(ip4: seq<nat>, prefix4: seq<nat>, ip: nat): seq<bool>
    requires |ip4| == |prefix4|
  {
    seq(|ip4|, i requires 0 <= i < |ip4| => Normalize4(ip, prefix4[i]) == ip4[i])
  }

  function Above6(ip6: seq<Ip6>, ip: Ip6): seq<bool> {
    seq(|ip6|, i requires 0 <= i < |ip6| => Less6(ip, ip6[i]))
  }

  function Hits6(ip6: seq<Ip6>, prefix6: seq<nat>, ip: Ip6): seq<bool>
    requires |ip6| == |prefix6|
  {
    seq(|ip6|, i requires 0 <= i < |ip6| => Normalize6(ip, prefix6[i]) == ip6[i])
  }

  ghost predicate Filed4(ip4: seq<nat>, prefix4: seq<nat>, list: seq<Cidr>) {
    && |ip4| == |prefix4| == |list|
    && (forall i {:trigger list[i]} :: 0 <= i < |list| ==> prefix4[i] == Uint8(list[i].prefix))
    && (forall i {:trigger list[i]} :: 0 <= i < |list| ==> ip4[i] == Normalize4(BigEndian(list[i].ip), prefix4[i]))
  }

  ghost predicate Filed6(ip6: seq<Ip6>, prefix6: seq<nat>, list: seq<Cidr>) {
    && |ip6| == |prefix6| == |list|
    && (forall i {:trigger list[i]} :: 0 <= i < |list| ==> |list[i].ip| == 16)
    && (forall i {:trigger list[i]} :: 0 <= i < |list| ==> prefix6[i] == Uint8(list[i].prefix))
    && (forall i {:trigger list[i]} :: 0 <= i < |list| ==> ip6[i] == Normalize6(ToIp6(list[i].ip), prefix6[i]))
  }

  class GeoIPMatcher {
    var reverseMatch: bool
    var ip4: seq<nat>
    var prefix4: seq<nat>
    var ip6: seq<Ip6>
    var prefix6: seq<nat>
    ghost var list4: seq<Cidr>  // the sorted entries behind ip4 and prefix4
    ghost var list6: seq<Cidr>

    ghost predicate Valid()
      reads this
    {
      Filed4(ip4, prefix4, list4) && Filed6(ip6, prefix6, list6)
    }

    constructor (reverseMatch: bool)
      ensures Valid() && this.reverseMatch == reverseMatch
    {
      this.reverseMatch := reverseMatch;
      ip4, prefix4, ip6, prefix6, list4, list6 := [], [], [], [], [], [];
    }

    /** Fails on the first address that is neither 4 nor 16 bytes long; otherwise files every entry. */
    method Init(cidrs: seq<Cidr>) returns (ok: bool)
      requires Valid()
      modifies this
      ensures Valid() && reverseMatch == old(reverseMatch)
      ensures ok <==> forall i :: 0 <= i < |cidrs| ==> |cidrs[i].ip| == 4 || |cidrs[i].ip| == 16
      ensures ok ==>
                var list := SortList(cidrs);
                list4 == OfLength(list, 4, |list|) && list6 == OfLength(list, 16, |list|)
      ensures !ok ==> list4 == old(list4) && list6 == old(list6)
    {
      var i := 0;
      while i < |cidrs|
        invariant 0 <= i <= |cidrs|
        invariant forall j :: 0 <= j < i ==> |cidrs[j].ip| == 4 || |cidrs[j].ip| == 16
      {
        if |cidrs[i].ip| != 4 && |cidrs[i].ip| != 16 { return false; }
        i := i + 1;
      }
      var list := SortList(cidrs);
      ip4, prefix4, ip6, prefix6, list4, list6 := [], [], [], [], [], [];
      i := 0;
      while i < |list|
        invariant 0 <= i <= |list|
        invariant Valid() && reverseMatch == old(reverseMatch)
        invariant list4 == OfLength(list, 4, i) && list6 == OfLength(list, 16, i)
      {
        FileOne(list, i);
        i := i + 1;
      }
      return true;
    }

    /** The body of Init's second loop. */
    method FileOne(list: seq<Cidr>, i: nat)
      requires Valid() && i < |list|
      requires list4 == OfLength(list, 4, i) && list6 == OfLength(list, 16, i)
      modifies `ip4, `prefix4, `ip6, `prefix6, `list4, `list6
      ensures Valid()
      ensures list4 == OfLength(list, 4, i + 1) && list6 == OfLength(list, 16, i + 1)
    {
      var ip, prefix := list[i].ip, Uint8(list[i].prefix);
      if |ip| == 4 {
        ip4 := ip4 + [Normalize4(BigEndian(ip), prefix)];
        prefix4 := prefix4 + [prefix];
        list4 := list4 + [list[i]];
      } else if |ip| == 16 {
        ip6 := ip6 + [Normalize6(ToIp6(ip), prefix)];
        prefix6 := prefix6 + [prefix];
        list6 := list6 + [list[i]];
      }
    }

    method Match4(ip: nat) returns (found: bool)
      requires Valid() && |ip4| <= 0x8000_0000
      ensures found == Lookup(Above4(ip4, ip), Hits4(ip4, prefix4, ip))
    {
      ghost var above, hits := Above4(ip4, ip), Hits4(ip4, prefix4, ip);
      if |ip4| == 0 || ip < ip4[0] { return false; }
      var l, r := 0, |ip4|;
      while l < r
        invariant 0 <= l <= r <= |ip4|
        invariant Probe(above, hits, l, r) == Probe(above, hits, 0, |ip4|)
        decreases r - l
      {
        var x := (l + r) / 2;
        assert above[x] == (ip < ip4[x]);
        if ip < ip4[x] {
          r := x;
        } else {
          if Normalize4(ip, prefix4[x]) == ip4[x] {
            assert hits[x];
            return true;
          }
          l := x + 1;
        }
      }
      return l > 0 && Normalize4(ip, prefix4[l - 1]) == ip4[l - 1];
    }

    method Match6(ip: Ip6) returns (found: bool)
      requires Valid() && |ip6| <= 0x8000_0000
      ensures found == Lookup(Above6(ip6, ip), Hits6(ip6, prefix6, ip))
    {
      ghost var above, hits := Above6(ip6, ip), Hits6(ip6, prefix6, ip);
      if |ip6| == 0 || Less6(ip, ip6[0]) { return false; }
      var l, r := 0, |ip6|;
      while l < r
        invariant 0 <= l <= r <= |ip6|
        invariant Probe(above, hits, l, r) == Probe(above, hits, 0, |ip6|)
        decreases r - l
      {
        var x := (l + r) / 2;
        assert above[x] == Less6(ip, ip6[x]);
        if Less6(ip, ip6[x]) {
          r := x;
        } else {
          if Normalize6(ip, prefix6[x]) == ip6[x] {
            assert hits[x];
            return true;
          }
          l := x + 1;
        }
      }
      return l > 0 && Normalize6(ip, prefix6[l - 1]) == ip6[l - 1];
    }

    /** An address of any other length matches nothing, reversed or not. */
    method Match(ip: bytes) returns (found: bool)
      requires Valid() && |ip4| <= 0x8000_0000 && |ip6| <= 0x8000_0000
      ensures found == Decide(ip4, prefix4, ip6, prefix6, reverseMatch, ip)
    {
      if |ip| == 4 {
        found := Match4(BigEndian(ip));
        return found != reverseMatch;
      } else if |ip| == 16 {
        found := Match6(ToIp6(ip));
        return found != reverseMatch;
      }
      return false;
    }
  }

  function Decide(ip4: seq<nat>, prefix4: seq<nat>, ip6: seq<Ip6>, prefix6: seq<nat>, reversed: bool, ip: bytes): bool
    requires |ip4| == |prefix4| && |ip6| == |prefix6|
  {
    if |ip| == 4 then
      var v := BigEndian(ip);
      Lookup(Above4(ip4, v), Hits4(ip4, prefix4, v)) != reversed
    else if |ip| == 16 then
      var v := ToIp6(ip);
      Lookup(Above6(ip6, v), Hits6(ip6, prefix6, v)) != reversed
    else false
  }
}
