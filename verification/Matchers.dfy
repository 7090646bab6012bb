/** common/strmatcher/matchers.go and strmatcher.go: the one-pattern matchers every index refines. */
module Matchers {
  import opened Bytes

  datatype Kind = Full | Substr | Domain | Regex

  /** A matcher that is asked in turn, and its id. */
  datatype Entry = Entry(m: bytes -> bool, id: uint32)

  predicate FullMatch(p: bytes, s: bytes) {
    p == s
  }

  predicate FoundAt(s: bytes, p: bytes, k: nat) {
    k + |p| <= |s| && forall i :: 0 <= i < |p| ==> s[k + i] == p[i]
  }

  /** strings.Contains(s, p) */
  ghost predicate SubstrMatch(p: bytes, s: bytes) {
    exists k :: FoundAt(s, p, k)
  }

  predicate HasSuffix(s: bytes, p: bytes) {
    |p| <= |s| && s[|s| - |p|..] == p
  }

  predicate DomainMatch(p: bytes, s: bytes) {
    HasSuffix(s, p) && (|s| == |p| || s[|s| - |p| - 1] == DOT)
  }

  /** A domain rule accepts its own name and every name that ends in "." and it. */
  lemma DomainMatchCases(p: bytes, s: bytes)
    ensures DomainMatch(p, s) <==> s == p || HasSuffix(s, [DOT] + p)
  {
    if |p| < |s| && s[|s| - |p|..] == p {
      assert s[|s| - |p| - 1..] == [s[|s| - |p| - 1]] + s[|s| - |p|..];
    }
    if HasSuffix(s, [DOT] + p) {
      assert s[|s| - |p|..] == s[|s| - |p| - 1..][1..] == ([DOT] + p)[1..] == p;
      assert s[|s| - |p| - 1] == s[|s| - |p| - 1..][0];
    }
  }

  // ----- upper and lower case -----

  function ToLowerByte(b: byte): byte {
    if 'A' as int <= b <= 'Z' as int then b + 32 else b
  }

  /** strings.ToLower on ASCII text. */
  function ToLower(s: bytes): (r: bytes)
    ensures |r| == |s|
    ensures forall i :: 0 <= i < |s| ==> r[i] == ToLowerByte(s[i])
  {
    seq<byte>(|s|, i requires 0 <= i < |s| => ToLowerByte(s[i]))
  }

  /** The 26 capitals are the bytes from 65 on; each stands 32 below its small letter. */
  predicate Capital(b: byte) {
    65 <= b <= 90
  }

  /** One letter in either case, or one byte that is no letter. */
  predicate SameLetter(b: byte, c: byte) {
    b == c || (Capital(b) && c == b + 32) || (Capital(c) && b == c + 32)
  }

  predicate NoCapitals(s: bytes) {
    forall i :: 0 <= i < |s| ==> !Capital(s[i])
  }

  /** Equal up to the case of ASCII letters. */
  predicate EqualFold(p: bytes, s: bytes) {
    |p| == |s| && forall i :: 0 <= i < |p| ==> SameLetter(p[i], s[i])
  }

  lemma LowerByteFolds(b: byte, c: byte)
    ensures ToLowerByte(b) == ToLowerByte(c) <==> SameLetter(b, c)
    ensures !Capital(ToLowerByte(b)) && (!Capital(b) ==> ToLowerByte(b) == b)
  {
  }

  /** Lower case holds no capital, leaves text without capitals alone, and is the same for texts that differ only in
      case. */
  lemma LowerCaseFolds(p: bytes, s: bytes)
    ensures NoCapitals(ToLower(p)) && (NoCapitals(p) ==> ToLower(p) == p)
    ensures ToLower(p) == ToLower(s) <==> EqualFold(p, s)
    ensures ToLower(p) == s <==> NoCapitals(s) && EqualFold(p, s)
  {
    forall i | 0 <= i < |p|
      ensures !Capital(ToLower(p)[i]) && (!Capital(p[i]) ==> ToLower(p)[i] == p[i])
      ensures |p| == |s| ==> (ToLower(p)[i] == ToLower(s)[i] <==> SameLetter(p[i], s[i]))
    {
      LowerByteFolds(p[i], p[i]);
      if |p| == |s| { LowerByteFolds(p[i], s[i]); }
    }
    forall i | 0 <= i < |s|
      ensures !Capital(ToLower(s)[i]) && (!Capital(s[i]) ==> ToLower(s)[i] == s[i])
    {
      LowerByteFolds(s[i], s[i]);
    }
    if NoCapitals(s) { assert ToLower(s) == s; }
  }
}
