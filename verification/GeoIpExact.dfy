/** GeoIPMatcher against the linear scan: which addresses the sorted arrays and binary searches accept, compared with
    asking every CIDR block in turn (section 3.1 of RFC 4632). */
module GeoIpExact {
  import opened Bytes
  import opened CidrSearch
  import opened GeoIp
  import opened GeoIpMatcher

  // ----- what one entry matches -----

  function Width(b: bytes): nat {
    8 * |b|
  }

  /** The address and the network agree on the leading prefix bits. */
  predicate PrefixMatch(c: Cidr, ip: bytes) {
    && |c.ip| == |ip|
    && c.prefix <= Width(ip)
    && BigEndian(ip) / Pow2(Width(ip) - c.prefix) == BigEndian(c.ip) / Pow2(Width(ip) - c.prefix)
  }

  /** An entry as Init accepts it: host bits and any prefix are allowed. */
  predicate Accepted(c: Cidr) {
    |c.ip| == 4 || |c.ip| == 16
  }

  /** The prefix an entry acts by. It is stored in a byte, and one longer than the address shifts everything out of
      the word it is used on: the only one, or the lower of two. */
  function Effective(c: Cidr): nat {
    if |c.ip| == 4 then Effective4(Uint8(c.prefix)) else Effective6(Uint8(c.prefix))
  }

  function Effective4(p: nat): nat {
    if p <= 32 then p else 0
  }

  function Effective6(p: nat): nat {
    if p <= 128 then p else 64
  }

  function Acting(c: Cidr): Cidr {
    c.(prefix := Effective(c))
  }

  function HostBits(c: Cidr): nat
    requires Accepted(c)
  {
    Width(c.ip) - Effective(c)
  }

  function Base(c: Cidr): nat
    requires Accepted(c)
  {
    Floor(BigEndian(c.ip), HostBits(c))
  }

  function Last(c: Cidr): nat
    requires Accepted(c)
  {
    Base(c) + Pow2(HostBits(c)) - 1
  }

  lemma SameQuotientIsFloor(x: nat, y: nat, n: nat)
    ensures x / Pow2(n) == y / Pow2(n) <==> Floor(x, n) == Floor(y, n)
  {
    FloorIsQuotient(x, n);
    FloorIsQuotient(y, n);
    if Floor(x, n) == Floor(y, n) {
      DivBounds(x, Pow2(n));
      DivUnique(y, Pow2(n), x / Pow2(n)) by { DivBounds(y, Pow2(n)); }
    }
  }

  lemma FloorOfFloor(x: nat, n: nat)
    ensures 0 <= Floor(x, n) <= x < Floor(x, n) + Pow2(n) && Floor(Floor(x, n), n) == Floor(x, n)
  {
    FloorIsQuotient(x, n);
    FloorIsQuotient(Floor(x, n), n);
    DivBounds(x, Pow2(n));
    DivUnique(Floor(x, n), Pow2(n), x / Pow2(n));
  }

  /** An entry matches the interval from its base to its last, its own address among them. */
  lemma MatchIsInterval(c: Cidr, ip: bytes)
    requires Accepted(c) && |c.ip| == |ip|
    ensures PrefixMatch(Acting(c), ip) <==> Base(c) <= BigEndian(ip) <= Last(c)
    ensures Base(c) <= BigEndian(c.ip) <= Last(c)
  {
    SameQuotientIsFloor(BigEndian(ip), BigEndian(c.ip), HostBits(c));
    FloorOfFloor(BigEndian(c.ip), HostBits(c));
    FloorIsBlock(BigEndian(ip), Base(c), HostBits(c));
  }

  /** Clearing as many bits as a word has leaves none. */
  lemma {:induction false} AllCleared(x: nat, n: nat, width: nat)
    requires x < Pow2(width) && n >= width
    ensures Floor(x, n) == 0
  {
    if n > 0 { AllCleared(x / 2, n - 1, if width > 0 then width - 1 else 0); }
  }

  /** normalize4 with any stored prefix rounds down by the effective one. */
  lemma Normalize4Acts(ip: nat, p: nat)
    requires ip < Pow2(IP4_BITS) && p < 256
    ensures Normalize4(ip, p) == Floor(ip, IP4_BITS - Effective4(p))
  {
    if p <= 32 {
      Normalize4IsFloor(ip, p);
    } else {
      ShiftPairIsFloor(ip, 288 - p, IP4_BITS);
      AllCleared(ip, 288 - p, IP4_BITS);
      AllCleared(ip, IP4_BITS, IP4_BITS);
    }
  }

  lemma Normalize6Acts(ip: Ip6, p: nat)
    requires Words(ip) && p < 256
    ensures Words(Normalize6(ip, p)) && Value6(Normalize6(ip, p)) == Floor(Value6(ip), IP6_BITS - Effective6(p))
  {
    NormalizedWords(ip, p);
    WordPower();
    if p <= 128 {
      Normalize6IsFloor(ip, p);
    } else {
      ShiftPairIsFloor(ip.b, 384 - p, WORD);
      AllCleared(ip.b, 384 - p, WORD);
      Normalize6IsFloor(ip, 64);
      assert Normalize6(ip, p) == Ip6(ip.a, 0) == Normalize6(ip, 64);
    }
  }

  lemma NormalizedWords(ip: Ip6, prefix: nat)
    requires Words(ip)
    ensures Words(Normalize6(ip, prefix))
  {
    WordPower();
    ShiftPairIsFloor(ip.a, SubUint8(WORD, prefix), WORD);
    ShiftPairIsFloor(ip.b, SubUint8(IP6_BITS, prefix), WORD);
    FloorIsBelow(ip.a, SubUint8(WORD, prefix));
    FloorIsBelow(ip.b, SubUint8(IP6_BITS, prefix));
  }

  /** The hit test of match4 on one entry. */
  predicate Hit4(c: Cidr, ip: bytes) {
    Normalize4(BigEndian(ip), Uint8(c.prefix)) == Normalize4(BigEndian(c.ip), Uint8(c.prefix))
  }

  predicate Hit6(c: Cidr, ip: bytes)
    requires |c.ip| == |ip| == 16
  {
    Normalize6(ToIp6(ip), Uint8(c.prefix)) == Normalize6(ToIp6(c.ip), Uint8(c.prefix))
  }

  lemma Hit4OnNumbers(x: nat, y: nat, p: nat)
    requires x < Pow2(IP4_BITS) && y < Pow2(IP4_BITS) && p < 256
    ensures var n := IP4_BITS - Effective4(p);
            && Normalize4(y, p) == Floor(y, n)
            && (Normalize4(x, p) == Normalize4(y, p) <==> x / Pow2(n) == y / Pow2(n))
  {
    Normalize4Acts(x, p);
    Normalize4Acts(y, p);
    SameQuotientIsFloor(x, y, IP4_BITS - Effective4(p));
  }

  lemma Hit4Acts(c: Cidr, ip: bytes)
    requires |ip| == |c.ip| == 4
    ensures Normalize4(BigEndian(c.ip), Uint8(c.prefix)) == Base(c)
    ensures Hit4(c, ip) <==> PrefixMatch(Acting(c), ip)
  {
    BigEndianBound(ip);
    BigEndianBound(c.ip);
    Hit4OnNumbers(BigEndian(ip), BigEndian(c.ip), Uint8(c.prefix));
    assert HostBits(c) == IP4_BITS - Effective4(Uint8(c.prefix));
  }

  lemma Hit6Acts(c: Cidr, ip: bytes)
    requires |ip| == |c.ip| == 16
    ensures Words(Normalize6(ToIp6(c.ip), Uint8(c.prefix)))
              && Value6(Normalize6(ToIp6(c.ip), Uint8(c.prefix))) == Base(c)
    ensures Hit6(c, ip) <==> PrefixMatch(Acting(c), ip)
  {
    ToIp6Value(ip);
    ToIp6Value(c.ip);
    Normalize6Acts(ToIp6(ip), Uint8(c.prefix));
    Normalize6Acts(ToIp6(c.ip), Uint8(c.prefix));
    SameQuotientIsFloor(BigEndian(ip), BigEndian(c.ip), HostBits(c));
  }

  ghost predicate TestsItsPrefix4(c: Cidr) {
    forall ip: bytes :: |ip| == 4 ==> (Hit4(c, ip) <==> PrefixMatch(c, ip))
  }

  ghost predicate TestsItsPrefix6(c: Cidr)
    requires |c.ip| == 16
  {
    forall ip: bytes :: |ip| == 16 ==> (Hit6(c, ip) <==> PrefixMatch(c, ip))
  }

  /** The hit test of an entry is its prefix on every address if and only if the prefix fits the address. Init does
      not check that: longer ones act by another prefix, and match the entry's own address at least. */
  lemma HitTest4Exact(c: Cidr)
    requires |c.ip| == 4
    ensures TestsItsPrefix4(c) <==> c.prefix <= 32
  {
    if c.prefix <= 32 {
      assert Acting(c) == c;
      forall ip: bytes | |ip| == 4
        ensures Hit4(c, ip) <==> PrefixMatch(c, ip)
      {
        Hit4Acts(c, ip);
      }
    } else {
      assert Hit4(c, c.ip) && !PrefixMatch(c, c.ip);
    }
  }

  lemma HitTest6Exact(c: Cidr)
    requires |c.ip| == 16
    ensures TestsItsPrefix6(c) <==> c.prefix <= 128
  {
    if c.prefix <= 128 {
      assert Acting(c) == c;
      forall ip: bytes | |ip| == 16
        ensures Hit6(c, ip) <==> PrefixMatch(c, ip)
      {
        Hit6Acts(c, ip);
      }
    } else {
      assert Hit6(c, c.ip) && !PrefixMatch(c, c.ip);
    }
  }

  // ----- the linear scan, and the search on entries -----

  ghost predicate Scan(list: seq<Cidr>, ip: bytes) {
    exists c :: c in list && PrefixMatch(c, ip)
  }

  /** The scan with every prefix as it acts. */
  ghost predicate ActingScan(list: seq<Cidr>, ip: bytes) {
    exists c :: c in list && PrefixMatch(Acting(c), ip)
  }

  /** Where all prefixes fit their addresses, that is the scan. */
  lemma FittingScan(list: seq<Cidr>, ip: bytes)
    requires forall c :: c in list ==> Accepted(c) && c.prefix <= Width(c.ip)
    ensures ActingScan(list, ip) <==> Scan(list, ip)
  {
    assert forall c :: c in list ==> Acting(c) == c;
  }

  ghost predicate AllAccepted(list: seq<Cidr>, length: nat) {
    (length == 4 || length == 16) && forall i {:trigger list[i]} :: 0 <= i < |list| ==> |list[i].ip| == length
  }

  function Bases(list: seq<Cidr>, length: nat): (r: seq<nat>)
    requires AllAccepted(list, length)
    ensures |r| == |list|
  {
    seq<nat>(|list|, i requires 0 <= i < |list| => Base(list[i]))
  }

  function Lasts(list: seq<Cidr>, length: nat): (r: seq<nat>)
    requires AllAccepted(list, length)
    ensures |r| == |list|
  {
    seq<nat>(|list|, i requires 0 <= i < |list| => Last(list[i]))
  }

  /** What match4 and match6 compute, on the entries instead of the words. */
  function Answer(list: seq<Cidr>, length: nat, ip: bytes): bool
    requires AllAccepted(list, length)
  {
    Found(Bases(list, length), Lasts(list, length), BigEndian(ip))
  }

  lemma ScanIsLinear(list: seq<Cidr>, length: nat, ip: bytes)
    requires AllAccepted(list, length) && |ip| == length
    ensures ActingScan(list, ip) <==> Linear(Bases(list, length), Lasts(list, length), BigEndian(ip))
  {
    forall i | 0 <= i < |list|
      ensures PrefixMatch(Acting(list[i]), ip) <==> InBlock(Bases(list, length), Lasts(list, length), i, BigEndian(ip))
    {
      MatchIsInterval(list[i], ip);
    }
    if ActingScan(list, ip) {
      var c :| c in list && PrefixMatch(Acting(c), ip);
      var i :| 0 <= i < |list| && list[i] == c;
      assert InBlock(Bases(list, length), Lasts(list, length), i, BigEndian(ip));
    }
  }

  /** A 4- or 16-byte address for every number of that width. */
  lemma {:induction false} BytesOf(v: nat, n: nat) returns (b: bytes)
    requires v < Pow2(8 * n)
    ensures |b| == n && BigEndian(b) == v
  {
    if n == 0 {
      b := [];
    } else {
      var p := Pow2(8 * (n - 1));
      ByteMore(n - 1);
      DivBounds(v, p);
      QuotientIsByte(v, p);
      var tail := BytesOf(v - v / p * p, n - 1);
      b := [v / p] + tail;
    }
  }

  lemma ByteMore(n: nat)
    ensures Pow2(8 * (n + 1)) == 256 * Pow2(8 * n)
  {
    Pow2Adds(8, 8 * n);
    assert Pow2(8) == 256;
  }

  lemma QuotientIsByte(v: nat, p: nat)
    requires p > 0 && v < 256 * p
    ensures 0 <= v / p < 256
  {
    DivBounds(v, p);
    if v / p >= 256 { MulMonotone(256, v / p, p); }
  }

  ghost predicate AnswersExactly(list: seq<Cidr>, length: nat)
    requires AllAccepted(list, length)
  {
    forall ip: bytes :: |ip| == length ==> (Answer(list, length, ip) <==> ActingScan(list, ip))
  }

  /** No block is shadowed, for the addresses of this length. */
  ghost predicate Clear(list: seq<Cidr>, length: nat)
    requires AllAccepted(list, length)
  {
    Unshadowed(Bases(list, length), Lasts(list, length), Pow2(8 * length) - 1)
  }

  lemma BlocksInRange(list: seq<Cidr>, length: nat)
    requires AllAccepted(list, length)
    ensures forall i :: 0 <= i < |list| ==>
              Bases(list, length)[i] <= Lasts(list, length)[i] && Bases(list, length)[i] <= Pow2(8 * length) - 1
  {
    forall i | 0 <= i < |list|
      ensures Bases(list, length)[i] <= Lasts(list, length)[i] && Bases(list, length)[i] <= Pow2(8 * length) - 1
    {
      BigEndianBound(list[i].ip);
      MatchIsInterval(list[i], list[i].ip);
    }
  }

  ghost predicate ExactOn(list: seq<Cidr>, length: nat)
    requires AllAccepted(list, length)
  {
    Exact(Bases(list, length), Lasts(list, length), Pow2(8 * length) - 1)
  }

  lemma AnswersOnNumbers(list: seq<Cidr>, length: nat)
    requires AllAccepted(list, length) && AnswersExactly(list, length)
    ensures ExactOn(list, length)
  {
    forall v: nat | v <= Pow2(8 * length) - 1
      ensures Found(Bases(list, length), Lasts(list, length), v) <==>
                Linear(Bases(list, length), Lasts(list, length), v)
    {
      var ip := BytesOf(v, length);
      ScanIsLinear(list, length, ip);
      assert Answer(list, length, ip) <==> ActingScan(list, ip);
    }
  }

  lemma NumbersAreAnswers(list: seq<Cidr>, length: nat)
    requires AllAccepted(list, length) && ExactOn(list, length)
    ensures AnswersExactly(list, length)
  {
    forall ip: bytes | |ip| == length
      ensures Answer(list, length, ip) <==> ActingScan(list, ip)
    {
      BigEndianBound(ip);
      ScanIsLinear(list, length, ip);
    }
  }

  /** The search agrees with the scan on every address of this length iff no block is shadowed. */
  lemma AnswersExactlyIffClear(list: seq<Cidr>, length: nat)
    requires AllAccepted(list, length)
    ensures AnswersExactly(list, length) <==> Clear(list, length)
  {
    BlocksInRange(list, length);
    SearchExact(Bases(list, length), Lasts(list, length), Pow2(8 * length) - 1);
    if AnswersExactly(list, length) { AnswersOnNumbers(list, length); }
    if ExactOn(list, length) { NumbersAreAnswers(list, length); }
  }

  // ----- from words to entries -----

  lemma Filed4Answers(ip4: seq<nat>, prefix4: seq<nat>, list: seq<Cidr>, ip: bytes)
    requires Filed4(ip4, prefix4, list) && |ip| == 4 && AllAccepted(list, 4)
    ensures Lookup(Above4(ip4, BigEndian(ip)), Hits4(ip4, prefix4, BigEndian(ip))) == Answer(list, 4, ip)
  {
    var v := BigEndian(ip);
    forall i | 0 <= i < |list|
      ensures Above4(ip4, v)[i] == Above(Bases(list, 4), v)[i]
      ensures Hits4(ip4, prefix4, v)[i] == Hits(Bases(list, 4), Lasts(list, 4), v)[i]
    {
      Hit4Acts(list[i], ip);
      MatchIsInterval(list[i], ip);
    }
    assert Above4(ip4, v) == Above(Bases(list, 4), v);
    assert Hits4(ip4, prefix4, v) == Hits(Bases(list, 4), Lasts(list, 4), v);
  }

  lemma Filed6Answers(ip6: seq<Ip6>, prefix6: seq<nat>, list: seq<Cidr>, ip: bytes)
    requires Filed6(ip6, prefix6, list) && |ip| == 16 && AllAccepted(list, 16)
    ensures Lookup(Above6(ip6, ToIp6(ip)), Hits6(ip6, prefix6, ToIp6(ip))) == Answer(list, 16, ip)
  {
    var v, n := ToIp6(ip), BigEndian(ip);
    forall i | 0 <= i < |list|
      ensures Above6(ip6, v)[i] == Above(Bases(list, 16), n)[i]
      ensures Hits6(ip6, prefix6, v)[i] == Hits(Bases(list, 16), Lasts(list, 16), n)[i]
    {
      assert ip6[i] == Normalize6(ToIp6(list[i].ip), Uint8(list[i].prefix)) && prefix6[i] == Uint8(list[i].prefix);
      AboveActs6(list[i], ip);
      Hit6Acts(list[i], ip);
      MatchIsInterval(list[i], ip);
    }
    assert Above6(ip6, v) == Above(Bases(list, 16), n);
    assert Hits6(ip6, prefix6, v) == Hits(Bases(list, 16), Lasts(list, 16), n);
  }

  lemma AboveActs6(c: Cidr, ip: bytes)
    requires |ip| == |c.ip| == 16
    ensures Less6(ToIp6(ip), Normalize6(ToIp6(c.ip), Uint8(c.prefix))) <==> BigEndian(ip) < Base(c)
  {
    ToIp6Value(ip);
    Hit6Acts(c, ip);
    Less6IsNumeric(ToIp6(ip), Normalize6(ToIp6(c.ip), Uint8(c.prefix)));
  }

  // ----- the whole matcher -----

  function Sublist(cidrs: seq<Cidr>, length: nat): seq<Cidr> {
    var list := SortList(cidrs);
    OfLength(list, length, |list|)
  }

  lemma SublistIs(cidrs: seq<Cidr>, length: nat)
    requires length == 4 || length == 16
    ensures InOrder(Sublist(cidrs, length)) && AllAccepted(Sublist(cidrs, length), length)
    ensures forall c :: c in Sublist(cidrs, length) <==> c in cidrs && |c.ip| == length
  {
    var list := SortList(cidrs);
    SortListInOrder(cidrs);
    OfLengthInOrder(list, length, |list|);
    assert list[..|list|] == list;
    var r := Sublist(cidrs, length);
    assert forall i {:trigger r[i]} :: 0 <= i < |r| ==> r[i] in r;
  }

  /** The arrays a matcher holds after Init(cidrs). */
  ghost predicate Loaded(ip4: seq<nat>, prefix4: seq<nat>, ip6: seq<Ip6>, prefix6: seq<nat>, cidrs: seq<Cidr>) {
    Filed4(ip4, prefix4, Sublist(cidrs, 4)) && Filed6(ip6, prefix6, Sublist(cidrs, 16))
  }

  ghost predicate DecidesByScan(ip4: seq<nat>, prefix4: seq<nat>, ip6: seq<Ip6>, prefix6: seq<nat>, reversed: bool,
                                cidrs: seq<Cidr>)
    requires |ip4| == |prefix4| && |ip6| == |prefix6|
  {
    forall ip: bytes {:trigger ActingScan(cidrs, ip)} :: |ip| == 4 || |ip| == 16 ==>
      Decide(ip4, prefix4, ip6, prefix6, reversed, ip) == (ActingScan(cidrs, ip) != reversed)
  }

  lemma DecideIsAnswer(ip4: seq<nat>, prefix4: seq<nat>, ip6: seq<Ip6>, prefix6: seq<nat>, reversed: bool,
                       cidrs: seq<Cidr>, ip: bytes)
    requires Loaded(ip4, prefix4, ip6, prefix6, cidrs) && (|ip| == 4 || |ip| == 16)
    ensures AllAccepted(Sublist(cidrs, |ip|), |ip|)
    ensures Decide(ip4, prefix4, ip6, prefix6, reversed, ip) == (Answer(Sublist(cidrs, |ip|), |ip|, ip) != reversed)
    ensures ActingScan(cidrs, ip) <==> ActingScan(Sublist(cidrs, |ip|), ip)
  {
    SublistIs(cidrs, |ip|);
    if |ip| == 4 {
      Filed4Answers(ip4, prefix4, Sublist(cidrs, 4), ip);
    } else {
      Filed6Answers(ip6, prefix6, Sublist(cidrs, 16), ip);
    }
  }

  /** What a caller can check of the entries: in neither array a block is shadowed. */
  ghost predicate NothingShadowed(cidrs: seq<Cidr>) {
    SublistIs(cidrs, 4);
    SublistIs(cidrs, 16);
    Clear(Sublist(cidrs, 4), 4) && Clear(Sublist(cidrs, 16), 16)
  }

  /** Main result: whatever entries Init accepted, Match agrees with the linear scan on every IPv4 and IPv6 address if
      and only if no block is shadowed. Nothing is asked of the entries: normalising entries with host bits can break
      the order of the arrays, and then the condition speaks of the arrays as they are. */
  lemma MatchExact(ip4: seq<nat>, prefix4: seq<nat>, ip6: seq<Ip6>, prefix6: seq<nat>, reversed: bool, cidrs: seq<Cidr>)
    requires Loaded(ip4, prefix4, ip6, prefix6, cidrs)
    ensures DecidesByScan(ip4, prefix4, ip6, prefix6, reversed, cidrs) <==> NothingShadowed(cidrs)
  {
    SublistIs(cidrs, 4);
    SublistIs(cidrs, 16);
    AnswersExactlyIffClear(Sublist(cidrs, 4), 4);
    AnswersExactlyIffClear(Sublist(cidrs, 16), 16);
    forall ip: bytes | |ip| == 4 || |ip| == 16
      ensures Decide(ip4, prefix4, ip6, prefix6, reversed, ip) == (Answer(Sublist(cidrs, |ip|), |ip|, ip) != reversed)
      ensures ActingScan(cidrs, ip) <==> ActingScan(Sublist(cidrs, |ip|), ip)
    {
      DecideIsAnswer(ip4, prefix4, ip6, prefix6, reversed, cidrs, ip);
    }
    if DecidesByScan(ip4, prefix4, ip6, prefix6, reversed, cidrs) {
      assert AnswersExactly(Sublist(cidrs, 4), 4);
      assert AnswersExactly(Sublist(cidrs, 16), 16);
    }
  }

  lemma OrderIsNumeric(list: seq<Cidr>, length: nat, i: nat, j: nat)
    requires InOrder(list) && AllAccepted(list, length) && i < j < |list|
    ensures BigEndian(list[i].ip) <= BigEndian(list[j].ip)
  {
    LexIsNumeric(list[j].ip, list[i].ip);
    assert !Less(list[j], list[i]);
  }

  ghost predicate DisjointOrEqual(c: Cidr, d: Cidr)
    requires Accepted(c) && Accepted(d)
  {
    Last(c) < Base(d) || Last(d) < Base(c) || SameBlock(c, d)
  }

  predicate SameBlock(c: Cidr, d: Cidr)
    requires Accepted(c) && Accepted(d)
  {
    Base(c) == Base(d) && Last(c) == Last(d)
  }

  /** The usual case: blocks pairwise disjoint or identical, as in published country lists, host bits or not. */
  lemma DisjointBlocksMatch(ip4: seq<nat>, prefix4: seq<nat>, ip6: seq<Ip6>, prefix6: seq<nat>, reversed: bool,
                            cidrs: seq<Cidr>)
    requires PairwiseDisjoint(cidrs)
    requires Loaded(ip4, prefix4, ip6, prefix6, cidrs)
    ensures DecidesByScan(ip4, prefix4, ip6, prefix6, reversed, cidrs)
  {
    DisjointIsClear(cidrs, 4);
    DisjointIsClear(cidrs, 16);
    MatchExact(ip4, prefix4, ip6, prefix6, reversed, cidrs);
  }

  lemma FollowsInRow(c: Cidr, d: Cidr)
    requires Accepted(c) && Accepted(d) && DisjointOrEqual(c, d) && BigEndian(c.ip) <= BigEndian(d.ip)
    ensures Base(c) <= Base(d) && (Last(c) < Base(d) || SameBlock(c, d))
  {
    MatchIsInterval(c, c.ip);
    MatchIsInterval(d, d.ip);
  }

  ghost predicate PairwiseDisjoint(cidrs: seq<Cidr>) {
    forall c, d :: c in cidrs && d in cidrs && Accepted(c) && |c.ip| == |d.ip| ==> DisjointOrEqual(c, d)
  }

  lemma TwoInRow(cidrs: seq<Cidr>, list: seq<Cidr>, length: nat, i: nat, j: nat)
    requires PairwiseDisjoint(cidrs) && (forall c :: c in list ==> c in cidrs)
    requires AllAccepted(list, length) && InOrder(list) && i < j < |list|
    ensures var c, d := list[i], list[j];
            Base(c) <= Base(d) && (Last(c) < Base(d) || SameBlock(c, d))
  {
    assert list[i] in list && list[j] in list;
    OrderIsNumeric(list, length, i, j);
    FollowsInRow(list[i], list[j]);
  }

  lemma DisjointRow(cidrs: seq<Cidr>, list: seq<Cidr>, length: nat)
    requires PairwiseDisjoint(cidrs) && forall c :: c in list ==> c in cidrs
    requires AllAccepted(list, length) && InOrder(list)
    ensures InRow(Bases(list, length), Lasts(list, length))
  {
    var bases, lasts := Bases(list, length), Lasts(list, length);
    forall i, j | 0 <= i < j < |bases|
      ensures bases[i] <= bases[j] && (lasts[i] < bases[j] || (bases[i] == bases[j] && lasts[i] == lasts[j]))
    {
      TwoInRow(cidrs, list, length, i, j);
    }
  }

  lemma DisjointIsClear(cidrs: seq<Cidr>, length: nat)
    requires length == 4 || length == 16
    requires PairwiseDisjoint(cidrs)
    ensures AllAccepted(Sublist(cidrs, length), length) && Clear(Sublist(cidrs, length), length)
  {
    var list := Sublist(cidrs, length);
    SublistIs(cidrs, length);
    DisjointRow(cidrs, list, length);
    BlocksInRange(list, length);
    DisjointIsUnshadowed(Bases(list, length), Lasts(list, length), Pow2(8 * length) - 1);
  }

  /** On any list, sorted or not, a true answer comes from an entry that covers the address. */
  lemma AnswerIsSound(list: seq<Cidr>, length: nat, ip: bytes)
    requires AllAccepted(list, length) && |ip| == length && Answer(list, length, ip)
    ensures ActingScan(list, ip)
  {
    var n := BigEndian(ip);
    var hits := Hits(Bases(list, length), Lasts(list, length), n);
    ProbeHits(Above(Bases(list, length), n), hits, 0, |hits|);
    var i: nat :| i < |hits| && hits[i];
    assert InBlock(Bases(list, length), Lasts(list, length), i, n);
    ScanIsLinear(list, length, ip);
  }

  /** So Match, before it is reversed, is never true without a covering entry, whatever was loaded. */
  lemma MatchIsSound(ip4: seq<nat>, prefix4: seq<nat>, ip6: seq<Ip6>, prefix6: seq<nat>, cidrs: seq<Cidr>, ip: bytes)
    requires Loaded(ip4, prefix4, ip6, prefix6, cidrs)
    requires Decide(ip4, prefix4, ip6, prefix6, false, ip)
    ensures ActingScan(cidrs, ip)
  {
    DecideIsAnswer(ip4, prefix4, ip6, prefix6, false, cidrs, ip);
    AnswerIsSound(Sublist(cidrs, |ip|), |ip|, ip);
  }

  /** A new matcher, Init and Match: where nothing is shadowed it answers by the scan. */
  method InitAndMatch(reversed: bool, cidrs: seq<Cidr>, ip: bytes) returns (ok: bool, found: bool)
    requires |cidrs| <= 0x8000_0000
    ensures ok <==> forall i :: 0 <= i < |cidrs| ==> Accepted(cidrs[i])
    ensures ok && NothingShadowed(cidrs) && (|ip| == 4 || |ip| == 16) ==>
              found == (ActingScan(cidrs, ip) != reversed)
    ensures |ip| != 4 && |ip| != 16 ==> !found
  {
    var m := new GeoIPMatcher(reversed);
    ok := m.Init(cidrs);
    found := false;
    if ok {
      SublistLength(SortList(cidrs), 4, |cidrs|);
      SublistLength(SortList(cidrs), 16, |cidrs|);
      found := m.Match(ip);
      assert Loaded(m.ip4, m.prefix4, m.ip6, m.prefix6, cidrs);
      MatchExact(m.ip4, m.prefix4, m.ip6, m.prefix6, reversed, cidrs);
      assert ActingScan(cidrs, ip) || !ActingScan(cidrs, ip);
    }
  }

  lemma {:induction false} SublistLength(list: seq<Cidr>, length: nat, n: nat)
    requires n <= |list|
    ensures |OfLength(list, length, n)| <= n
  {
    if n > 0 { SublistLength(list, length, n - 1); }
  }
}
