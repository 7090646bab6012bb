/** Bytes, byte strings and fixed-width arithmetic shared by every component. */
module Bytes {

  type byte = b: int | 0 <= b < 256
  type bytes = seq<byte>

  type uint32 = x: int | 0 <= x < 0x1_0000_0000

  const DOT: byte := 46

  datatype Option<T> = None | Some(value: T)

  function Pow2(n: nat): (r: nat)
    ensures r > 0
  {
    if n == 0 then 1 else 2 * Pow2(n - 1)
  }

  lemma {:induction false} Pow2Adds(m: nat, n: nat)
    ensures Pow2(m + n) == Pow2(m) * Pow2(n)
  {
    if m > 0 {
      Pow2Adds(m - 1, n);
      assert Pow2(m + n) == 2 * Pow2(m - 1 + n);
    }
  }

  function Min(x: int, y: int): int {
    if x <= y then x else y
  }

  lemma Associates<T>(a: seq<T>, b: seq<T>, c: seq<T>)
    ensures a + (b + c) == a + b + c
  {
  }

  lemma NothingMore<T>(a: seq<T>)
    ensures a + [] == a && [] + a == a
  {
  }

  // ----- binary.BigEndian on 16 bits -----

  function Uint16Bytes(v: nat): (r: bytes)
    requires v < 65536
    ensures |r| == 2
  {
    [v / 256, v % 256]
  }

  /** The number that two bytes spell, high byte first. */
  function HighLow(high: int, low: int): int {
    high * 256 + low
  }

  function Uint16At(b: bytes, i: nat): (v: nat)
    requires i + 2 <= |b|
    ensures v < 65536
  {
    var high: int := b[i];
    high * 256 + b[i + 1]
  }

  lemma Uint16RoundTrip(v: nat)
    requires v < 65536
    ensures Uint16At(Uint16Bytes(v), 0) == v
  {
  }

  // ----- division -----

  lemma Multiple(d: int, e: int)
    requires d > 0 && e != 0
    ensures d * e >= d || d * e <= -d
  {
  }

  lemma DivModUnique(x: int, d: int, q: int, r: int)
    requires d > 0 && 0 <= r < d && x == d * q + r
    ensures x / d == q && x % d == r
  {
    var e := x / d - q;
    assert d * e == r - x % d;
    assert -d < d * e < d;
    if e != 0 { assert false by { Multiple(d, e); } }
  }

  lemma DivBounds(x: nat, d: nat)
    requires d > 0
    ensures 0 <= x / d && x / d * d <= x < x / d * d + d
  {
    assert x == x / d * d + x % d;
  }

  lemma DivUnique(x: int, d: int, q: int)
    requires d > 0 && q * d <= x < q * d + d
    ensures x / d == q
  {
    DivModUnique(x, d, q, x - q * d);
  }

  lemma MulMonotone(x: int, y: int, z: nat)
    requires x <= y
    ensures x * z <= y * z
  {
    assert (y - x) * z >= 0;
    assert (y - x) * z == y * z - x * z;
  }

  lemma ModBounds(x: int, d: int)
    requires d > 0
    ensures 0 <= x % d < d
  {
  }
}
