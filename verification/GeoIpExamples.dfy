/** Small lists on which GeoIPMatcher and the scan disagree. */
module GeoIpExamples {
  import opened Bytes
  import opened CidrSearch
  import opened GeoIp
  import opened GeoIpMatcher
  import opened GeoIpExact

  /** The address 0.0.0.x. */
  function Low(x: byte): bytes {
    [0, 0, 0, x]
  }

  lemma LowIs(x: byte)
    ensures BigEndian(Low(x)) == x
  {
    assert Low(x)[1..] == [0, 0, x] && [0, 0, x][1..] == [0, x] && [0, x][1..] == [x];
    assert BigEndian([x]) == x * Pow2(0) + BigEndian([]);
    assert BigEndian([0, x]) == 0 * Pow2(8) + x;
    assert BigEndian([0, 0, x]) == 0 * Pow2(16) + x;
  }

  lemma BlockOf(c: Cidr, p: nat)
    requires |c.ip| == 4 && c.prefix <= 32 && p == Pow2(32 - c.prefix)
    ensures Base(c) == BigEndian(c.ip) / p * p && Last(c) == Base(c) + p - 1 && Acting(c) == c
  {
    assert Acting(c) == c && HostBits(c) == 32 - c.prefix;
    FloorIsQuotient(BigEndian(c.ip), 32 - c.prefix);
  }

  lemma LowBlock(x: byte, prefix: nat, p: nat)
    requires prefix <= 32 && p == Pow2(32 - prefix)
    ensures var c := Cidr(Low(x), prefix);
            BigEndian(c.ip) == x && Base(c) == x / p * p && Last(c) == x / p * p + p - 1 && Acting(c) == c
  {
    LowIs(x);
    BlockOf(Cidr(Low(x), prefix), p);
  }

  /** A sorted list of two IPv4 entries is what Init files, and what Match asks. */
  lemma TwoEntries(ip4: seq<nat>, prefix4: seq<nat>, ip6: seq<Ip6>, prefix6: seq<nat>, c: Cidr, d: Cidr, ip: bytes)
    requires |c.ip| == |d.ip| == |ip| == 4 && BigEndian(c.ip) < BigEndian(d.ip)
    requires Loaded(ip4, prefix4, ip6, prefix6, [c, d])
    ensures Sublist([c, d], 4) == [c, d]
    ensures Decide(ip4, prefix4, ip6, prefix6, false, ip) == Answer([c, d], 4, ip)
  {
    LexIsNumeric(d.ip, c.ip);
    SortListInOrder([c, d]);
    SortListPermutes([c, d]);
    OrderedListsEqual(SortList([c, d]), [c, d]);
    assert OfLength([c, d], 4, 1) == [c];
    DecideIsAnswer(ip4, prefix4, ip6, prefix6, false, [c, d], ip);
  }

  lemma InScan(c: Cidr, list: seq<Cidr>, ip: bytes)
    requires c in list && |c.ip| == |ip| == 4 && Acting(c) == c && Base(c) <= BigEndian(ip) <= Last(c)
    ensures Scan(list, ip)
  {
    MatchIsInterval(c, ip);
  }

  /** Of two nested blocks the search for an address behind the inner one never looks at the outer one. */
  lemma OuterBlockIsMissed(ip4: seq<nat>, prefix4: seq<nat>, ip6: seq<Ip6>, prefix6: seq<nat>, c: Cidr, d: Cidr,
                           ip: bytes)
    requires |c.ip| == |d.ip| == |ip| == 4 && BigEndian(c.ip) < BigEndian(d.ip)
    requires Loaded(ip4, prefix4, ip6, prefix6, [c, d])
    requires Base(c) <= Base(d) && Last(d) < BigEndian(ip) <= Last(c) && Acting(c) == c
    ensures Scan([c, d], ip) && !Decide(ip4, prefix4, ip6, prefix6, false, ip)
  {
    TwoEntries(ip4, prefix4, ip6, prefix6, c, d, ip);
    MatchIsInterval(d, d.ip);
    InScan(c, [c, d], ip);
  }

  /** Below the first base nothing is found, not even in a block that normalising put behind it. */
  lemma LaterBlockIsMissed(ip4: seq<nat>, prefix4: seq<nat>, ip6: seq<Ip6>, prefix6: seq<nat>, c: Cidr, d: Cidr,
                           ip: bytes)
    requires |c.ip| == |d.ip| == |ip| == 4 && BigEndian(c.ip) < BigEndian(d.ip)
    requires Loaded(ip4, prefix4, ip6, prefix6, [c, d])
    requires Base(d) <= BigEndian(ip) < Base(c) && BigEndian(ip) <= Last(d) && Acting(d) == d
    ensures Scan([c, d], ip) && !Decide(ip4, prefix4, ip6, prefix6, false, ip)
  {
    TwoEntries(ip4, prefix4, ip6, prefix6, c, d, ip);
    InScan(d, [c, d], ip);
  }

  /** 0.0.0.0/25 and 0.0.0.16/28: the search for 0.0.0.32 sees the inner block last, and misses the outer one. */
  lemma NestedBlockIsMissed(ip4: seq<nat>, prefix4: seq<nat>, ip6: seq<Ip6>, prefix6: seq<nat>)
    requires Loaded(ip4, prefix4, ip6, prefix6, [Cidr(Low(0), 25), Cidr(Low(16), 28)])
    ensures Scan([Cidr(Low(0), 25), Cidr(Low(16), 28)], Low(32)) && !Decide(ip4, prefix4, ip6, prefix6, false, Low(32))
  {
    LowIs(32);
    LowBlock(0, 25, 128);
    LowBlock(16, 28, 16);
    OuterBlockIsMissed(ip4, prefix4, ip6, prefix6, Cidr(Low(0), 25), Cidr(Low(16), 28), Low(32));
  }

  /** 0.0.0.20/32 and 0.0.0.30/24: normalising the second, sorted behind the first by its host bits, puts its base 0
      behind the base 20. */
  lemma HostBitsUnsort(ip4: seq<nat>, prefix4: seq<nat>, ip6: seq<Ip6>, prefix6: seq<nat>)
    requires Loaded(ip4, prefix4, ip6, prefix6, [Cidr(Low(20), 32), Cidr(Low(30), 24)])
    ensures Scan([Cidr(Low(20), 32), Cidr(Low(30), 24)], Low(5)) && !Decide(ip4, prefix4, ip6, prefix6, false, Low(5))
  {
    LowIs(5);
    LowBlock(20, 32, 1);
    LowBlock(30, 24, 256);
    LaterBlockIsMissed(ip4, prefix4, ip6, prefix6, Cidr(Low(20), 32), Cidr(Low(30), 24), Low(5));
  }
}
