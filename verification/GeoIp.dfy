/** app/router/condition_geoip.go and the CIDRList order of app/router/config.go. */
module GeoIp {
  import opened Bytes
  import opened CidrSearch

  // ----- machine words -----

  const IP4_BITS: nat := 32
  const WORD: nat := 64
  const IP6_BITS: nat := 128
  const WORD_SIZE: nat := 0x1_0000_0000_0000_0000

  lemma WordPower()
    ensures Pow2(WORD) == WORD_SIZE
  {
    assert Pow2(8) == 256;
    Pow2Square(8, 256);
    Pow2Square(16, 0x1_0000);
    Pow2Square(32, 0x1_0000_0000);
  }

  lemma Pow2Square(n: nat, p: nat)
    requires Pow2(n) == p
    ensures Pow2(n + n) == p * p
  {
    Pow2Adds(n, n);
  }

  /** x >> n, bit by bit; all bits are gone after as many steps as the word is wide. */
  function Shr(x: nat, n: nat): nat {
    if n == 0 then x else Shr(x / 2, n - 1)
  }

  /** x << n on an unsigned word of the given width. */
  function Shl(x: nat, n: nat, width: nat): nat {
    if n == 0 then x else Doubled(Shl(x, n - 1, width), Pow2(width))
  }

  function Doubled(x: nat, size: nat): (r: nat)
    requires size > 0
    ensures r < size
  {
    ModBounds(2 * x, size);
    2 * x % size
  }

  /** uint8 subtraction wraps around. */
  function SubUint8(x: int, y: int): nat {
    (x - y) % 256
  }

  function Normalize4(ip: nat, prefix: nat): nat {
    Shl(Shr(ip, SubUint8(IP4_BITS, prefix)), SubUint8(IP4_BITS, prefix), IP4_BITS)
  }

  datatype Ip6 = Ip6(a: nat, b: nat)

  function Normalize6(ip: Ip6, prefix: nat): Ip6 {
    if prefix <= 64 then Ip6(Shl(Shr(ip.a, SubUint8(WORD, prefix)), SubUint8(WORD, prefix), WORD), 0)
    else ip.(b := Shl(Shr(ip.b, SubUint8(IP6_BITS, prefix)), SubUint8(IP6_BITS, prefix), WORD))
  }

  predicate Less6(x: Ip6, y: Ip6) {
    x.a < y.a || (x.a == y.a && x.b < y.b)
  }

  // ----- what they mean on numbers -----

  lemma DoubledInRange(x: nat, size: nat)
    requires 2 * x < size
    ensures Doubled(x, size) == 2 * x
  {
    DivModUnique(2 * x, size, 0, 2 * x);
  }

  lemma {:induction false} FloorIsBelow(x: nat, n: nat)
    ensures Floor(x, n) <= x
  {
    if n > 0 { FloorIsBelow(x / 2, n - 1); }
  }

  /** Shifting right and left again rounds down. */
  lemma {:induction false} ShiftPairIsFloor(x: nat, n: nat, width: nat)
    requires x < Pow2(width)
    ensures Shl(Shr(x, n), n, width) == Floor(x, n)
  {
    if n > 0 {
      ShiftPairIsFloor(x / 2, n - 1, width);
      FloorIsBelow(x, n);
      DoubledInRange(Floor(x / 2, n - 1), Pow2(width));
    }
  }

  lemma NoWrap(x: nat, y: nat)
    requires y <= x < 256
    ensures SubUint8(x, y) == x - y
  {
  }

  lemma Normalize4IsFloor(ip: nat, prefix: nat)
    requires prefix <= IP4_BITS && ip < Pow2(IP4_BITS)
    ensures Normalize4(ip, prefix) == Floor(ip, IP4_BITS - prefix)
  {
    NoWrap(IP4_BITS, prefix);
    ShiftPairIsFloor(ip, IP4_BITS - prefix, IP4_BITS);
  }

  predicate Words(ip: Ip6) {
    ip.a < WORD_SIZE && ip.b < WORD_SIZE
  }

  function Value6(ip: Ip6): nat {
    ip.a * WORD_SIZE + ip.b
  }

  lemma HalfOfSum(k: nat, p: nat, b: nat)
    ensures (k * (2 * p) + b) / 2 == k * p + b / 2
  {
    assert k * (2 * p) == 2 * (k * p);
  }

  lemma DoubleProduct(k: nat, p: nat)
    ensures 2 * (k * p) == k * (2 * p)
  {
  }

  /** Rounding two words to bits of the high one clears the low one and rounds the high one. */
  lemma {:induction false} FloorAbove(a: nat, b: nat, m: nat, n: nat)
    requires b < Pow2(m)
    ensures Floor(a * Pow2(m) + b, m + n) == Floor(a, n) * Pow2(m)
  {
    if m > 0 {
      FloorAbove(a, b / 2, m - 1, n);
      HalfOfSum(a, Pow2(m - 1), b);
      DoubleProduct(Floor(a, n), Pow2(m - 1));
    }
  }

  /** Rounding two words to bits of the low one leaves the high one. */
  lemma {:induction false} FloorBelow(a: nat, b: nat, m: nat, n: nat)
    requires n <= m
    ensures Floor(a * Pow2(m) + b, n) == a * Pow2(m) + Floor(b, n)
  {
    if n > 0 {
      FloorBelow(a, b / 2, m - 1, n - 1);
      HalfOfSum(a, Pow2(m - 1), b);
      DoubleProduct(a, Pow2(m - 1));
    }
  }

  lemma ClearsLowWord(a: nat, b: nat, n: nat, width: nat)
    requires a < Pow2(width) && b < Pow2(width)
    ensures Shl(Shr(a, n), n, width) * Pow2(width) == Floor(a * Pow2(width) + b, width + n)
  {
    ShiftPairIsFloor(a, n, width);
    FloorAbove(a, b, width, n);
  }

  lemma KeepsHighWord(a: nat, b: nat, n: nat, width: nat)
    requires n <= width && b < Pow2(width)
    ensures a * Pow2(width) + Shl(Shr(b, n), n, width) == Floor(a * Pow2(width) + b, n)
  {
    ShiftPairIsFloor(b, n, width);
    FloorBelow(a, b, width, n);
  }

  lemma HighWordFloor(ip: Ip6, n: nat)
    requires Words(ip)
    ensures Value6(Ip6(Shl(Shr(ip.a, n), n, WORD), 0)) == Floor(Value6(ip), WORD + n)
  {
    WordPower();
    ClearsLowWord(ip.a, ip.b, n, WORD);
  }

  lemma LowWordFloor(ip: Ip6, n: nat)
    requires Words(ip) && n <= WORD
    ensures Value6(Ip6(ip.a, Shl(Shr(ip.b, n), n, WORD))) == Floor(Value6(ip), n)
  {
    WordPower();
    KeepsHighWord(ip.a, ip.b, n, WORD);
  }

  lemma Normalize6Low(ip: Ip6, prefix: nat)
    requires WORD < prefix <= IP6_BITS
    ensures Normalize6(ip, prefix) == Ip6(ip.a, Shl(Shr(ip.b, IP6_BITS - prefix), IP6_BITS - prefix, WORD))
  {
    NoWrap(IP6_BITS, prefix);
  }

  /** normalize6 on the two words is rounding down the 128-bit number. */
  lemma Normalize6IsFloor(ip: Ip6, prefix: nat)
    requires prefix <= IP6_BITS && Words(ip)
    ensures Value6(Normalize6(ip, prefix)) == Floor(Value6(ip), IP6_BITS - prefix)
  {
    if prefix <= WORD {
      HighWordFloor(ip, WORD - prefix);
      assert WORD + (WORD - prefix) == IP6_BITS - prefix;
    } else {
      Normalize6Low(ip, prefix);
      LowWordFloor(ip, IP6_BITS - prefix);
    }
  }

  lemma HighWordDecides(a: nat, b: nat, c: nat, d: nat, w: nat)
    requires b < w && d < w
    ensures a * w + b < c * w + d <==> a < c || (a == c && b < d)
  {
    if a < c { MulMonotone(a + 1, c, w); assert (a + 1) * w == a * w + w; }
    if c < a { MulMonotone(c + 1, a, w); assert (c + 1) * w == c * w + w; }
  }

  /** less6 on the two words is the order of the 128-bit numbers. */
  lemma Less6IsNumeric(x: Ip6, y: Ip6)
    requires Words(x) && Words(y)
    ensures Less6(x, y) <==> Value6(x) < Value6(y)
  {
    HighWordDecides(x.a, x.b, y.a, y.b, WORD_SIZE);
  }

  /** For a base without host bits, rounding an address down to it means lying in its block. */
  lemma FloorIsBlock(ip: nat, base: nat, n: nat)
    requires Floor(base, n) == base
    ensures Floor(ip, n) == base <==> base <= ip <= base + Pow2(n) - 1
  {
    FloorIsQuotient(ip, n);
    FloorIsQuotient(base, n);
    DivBounds(ip, Pow2(n));
    if base <= ip <= base + Pow2(n) - 1 { DivUnique(ip, Pow2(n), base / Pow2(n)); }
  }
}
