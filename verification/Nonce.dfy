/** GenerateIncreasingNonce of common/crypto/auth.go: a little-endian counter in a byte array. */
module Nonce {
  import opened Bytes

  function LittleEndian(c: bytes): nat {
    if c == [] then 0 else c[0] + 256 * LittleEndian(c[1..])
  }

  function Pow256(n: nat): (r: nat)
    ensures r > 0
  {
    if n == 0 then 1 else 256 * Pow256(n - 1)
  }

  /** Adds one with carry; the carry out of the last byte is lost. */
  function Increment(c: bytes): (r: bytes)
    ensures |r| == |c|
  {
    if c == [] then []
    else if c[0] == 255 then [0] + Increment(c[1..])
    else [c[0] + 1] + c[1..]
  }

  lemma {:induction false} LittleEndianBound(c: bytes)
    ensures LittleEndian(c) < Pow256(|c|)
  {
    if c != [] { LittleEndianBound(c[1..]); }
  }

  lemma {:induction false} IncrementAddsOne(c: bytes)
    ensures LittleEndian(Increment(c)) == (LittleEndian(c) + 1) % Pow256(|c|)
  {
    LittleEndianBound(c);
    if c != [] {
      var t, p := c[1..], Pow256(|c| - 1);
      LittleEndianBound(t);
      IncrementAddsOne(t);
      assert Increment(c)[1..] == if c[0] == 255 then Increment(t) else t;
      if c[0] == 255 {
        if LittleEndian(t) + 1 < p {
          ModSmall(LittleEndian(t) + 1, p);
          ModSmall(LittleEndian(c) + 1, 256 * p);
        } else {
          DivModUnique(LittleEndian(t) + 1, p, 1, 0);
          DivModUnique(LittleEndian(c) + 1, 256 * p, 1, 0);
        }
      } else {
        ModSmall(LittleEndian(c) + 1, 256 * p);
      }
    }
  }

  lemma ModSmall(x: nat, d: nat)
    requires x < d
    ensures x % d == x
  {
    DivModUnique(x, d, 0, x);
  }

  lemma {:induction false} LittleEndianInjective(a: bytes, b: bytes)
    requires |a| == |b| && LittleEndian(a) == LittleEndian(b)
    ensures a == b
  {
    if a != [] {
      LittleEndianInjective(a[1..], b[1..]);
      assert a == [a[0]] + a[1..] && b == [b[0]] + b[1..];
    }
  }

  /** The nonce after k calls. */
  function After(start: bytes, k: nat): (c: bytes)
    ensures |c| == |start|
  {
    if k == 0 then start else Increment(After(start, k - 1))
  }

  lemma ModAddMod(x: nat, y: nat, d: nat)
    requires d > 0
    ensures (x % d + y) % d == (x + y) % d
  {
    DivBounds(x, d);
    var q := x / d;
    assert x == q * d + x % d;
    var z := x % d + y;
    DivBounds(z, d);
    var r := z / d;
    assert z == r * d + z % d;
    assert x + y == (q + r) * d + z % d by { assert (q + r) * d == q * d + r * d; }
    assert x + y == d * (q + r) + z % d;
    DivModUnique(x + y, d, q + r, z % d);
  }

  /** The k-th nonce is the starting value plus k, modulo the size of the nonce space. */
  lemma {:induction false} KthNonce(start: bytes, k: nat)
    ensures LittleEndian(After(start, k)) == (LittleEndian(start) + k) % Pow256(|start|)
  {
    LittleEndianBound(start);
    if k == 0 {
      ModSmall(LittleEndian(start), Pow256(|start|));
    } else {
      KthNonce(start, k - 1);
      IncrementAddsOne(After(start, k - 1));
      ModAddMod(LittleEndian(start) + k - 1, 1, Pow256(|start|));
    }
  }

  lemma RemaindersAgree(x: nat, y: nat, d: nat)
    requires d > 0 && x <= y
    ensures x % d == y % d <==> (y - x) % d == 0
  {
    var q, r := x / d, (y - x) / d;
    assert x == d * q + x % d && y - x == d * r + (y - x) % d;
    if x % d == y % d {
      var e := y / d - q;
      assert y == d * (y / d) + y % d;
      assert y - x == d * e;
      DivModUnique(y - x, d, e, 0);
    } else if (y - x) % d == 0 {
      assert y == d * (q + r) + x % d;
      DivModUnique(y, d, q + r, x % d);
    }
  }

  /** Two nonces agree exactly when their numbers differ by a multiple of the nonce space: none repeats
      within 256^n calls. */
  lemma NoncesAgree(start: bytes, j: nat, k: nat)
    requires j <= k
    ensures After(start, j) == After(start, k) <==> (k - j) % Pow256(|start|) == 0
  {
    KthNonce(start, j);
    KthNonce(start, k);
    RemaindersAgree(LittleEndian(start) + j, LittleEndian(start) + k, Pow256(|start|));
    if LittleEndian(After(start, j)) == LittleEndian(After(start, k)) {
      LittleEndianInjective(After(start, j), After(start, k));
    }
  }

  /** The carry stops at the first byte below 255, or is lost. */
  lemma {:induction false} CarryStops(c: bytes, i: nat)
    requires i <= |c| && (forall j :: 0 <= j < i ==> c[j] == 255) && (i < |c| ==> c[i] < 255)
    ensures var r := Increment(c);
            && (forall j {:trigger r[j]} :: 0 <= j < i ==> r[j] == 0)
            && (i < |c| ==> r[i] == c[i] + 1)
            && (forall j {:trigger r[j]} :: i < j < |c| ==> r[j] == c[j])
  {
    if i > 0 {
      var t := c[1..];
      CarryStops(t, i - 1);
      assert Increment(c) == [0] + Increment(t);
    }
  }

  /** The closure: its array is incremented in place before every use. */
  class IncreasingNonce {
    const c: array<byte>

    constructor (nonce: bytes)
      ensures fresh(c) && c[..] == nonce
    {
      c := new byte[|nonce|](i requires 0 <= i < |nonce| => nonce[i]);
    }

    method Next() returns (iv: bytes)
      modifies c
      ensures iv == c[..] == Increment(old(c[..]))
    {
      ghost var before := c[..];
      var i := 0;
      while i < c.Length
        invariant 0 <= i <= c.Length
        invariant forall j :: 0 <= j < i ==> before[j] == 255 && c[j] == 0
        invariant forall j :: i <= j < c.Length ==> c[j] == before[j]
      {
        var x: int := c[i];
        c[i] := (x + 1) % 256;
        if c[i] != 0 { break; }
        i := i + 1;
      }
      CarryStops(before, i);
      assert c[..] == Increment(before);
      return c[..];
    }
  }
}
