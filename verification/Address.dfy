/** common/protocol/address.go: addresses and ports on the wire. */
module Address {
  import opened Bytes

  datatype Result<T> = Ok(value: T) | Err

  datatype Family = FamilyIPv4 | FamilyIPv6 | FamilyDomain

  datatype Addr = IPv4(ip: bytes) | IPv6(ip: bytes) | Domain(name: bytes)

  function FamilyOf(a: Addr): Family {
    match a
    case IPv4(_) => FamilyIPv4
    case IPv6(_) => FamilyIPv6
    case Domain(_) => FamilyDomain
  }

  ghost predicate ValidAddr(a: Addr) {
    match a
    case IPv4(ip) => |ip| == 4
    case IPv6(ip) => |ip| == 16
    case Domain(_) => true
  }

  /** ::ffff:a.b.c.d, section 2.5.5.2 of RFC 4291. */
  predicate IPv4Mapped(ip: bytes) {
    |ip| == 16 && (forall i :: 0 <= i < 10 ==> ip[i] == 0) && ip[10] == 255 && ip[11] == 255
  }

  /** net.IPAddress on 4 or 16 bytes. */
  function IPAddress(ip: bytes): (a: Addr)
    requires |ip| == 4 || |ip| == 16
    ensures ValidAddr(a) && !a.Domain?
  {
    if |ip| == 4 then IPv4(ip) else if IPv4Mapped(ip) then IPv4(ip[12..]) else IPv6(ip)
  }

  // ----- parser tables -----

  /** The option record: family of a wire byte, wire byte of a family, and the byte map applied on reading.
      parse is net.ParseAddress where it yields an IP address, and None where it yields a domain. */
  datatype Parser = Parser(types: map<byte, Family>, codes: map<Family, byte>, typeParser: byte -> byte,
                           portFirst: bool, parse: bytes -> Option<Addr>)

  /** NewAddressParser: the options are applied in order, each setting one entry of each table. */
  function NewParser(options: seq<(byte, Family)>, portFirst: bool, typeParser: byte -> byte,
                     parse: bytes -> Option<Addr>): (p: Parser)
    ensures p.portFirst == portFirst && p.typeParser == typeParser && p.parse == parse
  {
    if options == [] then Parser(map[], map[], typeParser, portFirst, parse)
    else
      var last := options[|options| - 1];
      var p := NewParser(options[..|options| - 1], portFirst, typeParser, parse);
      p.(types := p.types[last.0 := last.1], codes := p.codes[last.1 := last.0])
  }

  ghost predicate Entry(p: Parser, t: byte, f: Family) {
    t in p.types && p.types[t] == f && f in p.codes && p.codes[f] == t
  }

  /** With distinct bytes and distinct families the tables are inverse to each other. */
  lemma {:induction false} TablesAgree(options: seq<(byte, Family)>, portFirst: bool, typeParser: byte -> byte,
                                       parse: bytes -> Option<Addr>)
    requires forall i, j :: 0 <= i < j < |options| ==> options[i].0 != options[j].0 && options[i].1 != options[j].1
    ensures var p := NewParser(options, portFirst, typeParser, parse);
            forall i {:trigger options[i]} :: 0 <= i < |options| ==>
              Entry(p, options[i].0, options[i].1)
  {
    if options != [] {
      var n := |options| - 1;
      TablesAgree(options[..n], portFirst, typeParser, parse);
    }
  }

  predicate MaybeIPPrefix(b: byte) {
    b == 91 || 48 <= b <= 57
  }

  predicate IsDomainByte(c: byte) {
    48 <= c <= 57 || 97 <= c <= 122 || 65 <= c <= 90 || c == 45 || c == 46 || c == 95
  }

  predicate IsValidDomain(d: bytes) {
    forall i :: 0 <= i < |d| ==> IsDomainByte(d[i])
  }

  predicate IsDomainTooLong(d: bytes) {
    |d| > 256
  }

  // ----- writing -----

  function WriteAddress(p: Parser, a: Addr): Result<bytes> {
    if FamilyOf(a) !in p.codes then Err
    else
      var tb := p.codes[FamilyOf(a)];
      match a
      case IPv4(ip) => Ok([tb] + ip)
      case IPv6(ip) => Ok([tb] + ip)
      case Domain(name) => if IsDomainTooLong(name) then Err else Ok([tb, |name| % 256] + name)
  }

  function WriteAddressPort(p: Parser, a: Addr, port: nat): Result<bytes>
    requires port < 65536
  {
    match WriteAddress(p, a)
    case Err => Err
    case Ok(w) => Ok(if p.portFirst then Uint16Bytes(port) + w else w + Uint16Bytes(port))
  }

  // ----- reading -----

  /** A value read, and how many bytes of the input it took. */
  datatype Read<T> = Read(value: T, used: nat) | Failed

  /** A domain of the given length byte. With length 0 the slice BytesFrom(-0) is the whole buffer:
      everything read so far. */
  function DomainText(before: bytes, input: bytes, at: nat, length: nat): bytes
    requires at + length <= |input|
  {
    if length == 0 then before + input[..at] else input[at..at + length]
  }

  function ReadDomain(p: Parser, before: bytes, input: bytes, at: nat): (r: Read<Addr>)
    requires 0 < at <= |input|
    ensures r.Read? ==> r.used <= |input|
  {
    if |input| < at + 1 || |input| < at + 1 + input[at] then Failed
    else
      var length := input[at];
      var domain := DomainText(before, input, at + 1, length);
      var parsed := if MaybeIPPrefix(domain[0]) then p.parse(domain) else None;
      if parsed.Some? then Read(parsed.value, at + 1 + length)
      else if IsValidDomain(domain) then Read(Domain(domain), at + 1 + length)
      else Failed
  }

  /** before is what the caller's buffer already held. */
  function ReadAddress(p: Parser, before: bytes, input: bytes): (r: Read<Addr>)
    ensures r.Read? ==> r.used <= |input|
  {
    if |input| < 1 then Failed
    else
      var t := p.typeParser(input[0]);
      if t >= 16 || t !in p.types then Failed
      else
        match p.types[t]
        case FamilyIPv4 => if |input| < 5 then Failed else Read(IPAddress(input[1..5]), 5)
        case FamilyIPv6 => if |input| < 17 then Failed else Read(IPAddress(input[1..17]), 17)
        case FamilyDomain => ReadDomain(p, before, input, 1)
  }

  function ReadAddressPort(p: Parser, input: bytes): (r: Read<(Addr, nat)>)
    ensures r.Read? ==> r.used <= |input| && r.value.1 < 65536
  {
    if p.portFirst then
      if |input| < 2 then Failed
      else
        match ReadAddress(p, input[..2], input[2..])
        case Failed => Failed
        case Read(a, n) => Read((a, Uint16At(input, 0)), n + 2)
    else
      match ReadAddress(p, [], input)
      case Failed => Failed
      case Read(a, n) => if |input| < n + 2 then Failed else Read((a, Uint16At(input, n)), n + 2)
  }

  // ----- round trip -----

  /** The two tables agree on this family. */
  ghost predicate Mapped(p: Parser, f: Family) {
    && f in p.codes
    && p.typeParser(p.codes[f]) < 16
    && p.typeParser(p.codes[f]) in p.types
    && p.types[p.typeParser(p.codes[f])] == f
  }

  /** Letters, digits, '-', '.' and '_'. */
  predicate IsPlain(name: bytes) {
    forall i {:trigger name[i]} :: 0 <= i < |name| ==>
      || 65 <= name[i] <= 90 || 97 <= name[i] <= 122 || 48 <= name[i] <= 57
      || name[i] == 45 || name[i] == 46 || name[i] == 95
  }

  /** A name that begins with a digit or '[' and is an IP address. */
  predicate IsNumeric(p: Parser, name: bytes)
    requires name != []
  {
    (48 <= name[0] <= 57 || name[0] == 91) && p.parse(name).Some?
  }

  /** The addresses that survive the wire: every IPv4 address, IPv6 addresses that do not begin with ten zeros and 255,
      255, and names of 1 to 255 letters, digits, '-', '.' and '_' that do not begin with a digit or are no address. */
  ghost predicate Portable(p: Parser, a: Addr) {
    match a
    case IPv4(_) => true
    case IPv6(ip) => |ip| == 16 && ip[..12] != [0, 0, 0, 0, 0, 0, 0, 0, 0, 0, 255, 255]
    case Domain(name) =>
      && 1 <= |name| <= 255
      && IsPlain(name)
      && (48 <= name[0] <= 57 ==> p.parse(name) == None)
  }

  lemma MappedPrefix(ip: bytes)
    requires |ip| == 16
    ensures IPv4Mapped(ip) <==> ip[..12] == [0, 0, 0, 0, 0, 0, 0, 0, 0, 0, 255, 255]
  {
    if ip[..12] == [0, 0, 0, 0, 0, 0, 0, 0, 0, 0, 255, 255] {
      assert forall i :: 0 <= i < 12 ==> ip[i] == ip[..12][i];
    }
  }

  /** parse never answers with a domain. */
  ghost predicate ParsesIPs(p: Parser) {
    forall s: bytes :: p.parse(s).Some? ==> !p.parse(s).value.Domain?
  }

  /** A zero length byte is never accepted as a domain: the text then ends in that byte. */
  lemma EmptyDomainIsRejected(p: Parser, before: bytes, input: bytes, at: nat)
    requires ParsesIPs(p) && 0 < at < |input| && input[at] == 0
    ensures var r := ReadDomain(p, before, input, at); r.Read? ==> !r.value.Domain?
  {
    var domain := DomainText(before, input, at + 1, 0);
    assert domain[|domain| - 1] == 0;
  }

  lemma ReadsBackAddress(p: Parser, a: Addr, before: bytes, w: bytes, rest: bytes)
    requires ValidAddr(a) && ParsesIPs(p) && Mapped(p, FamilyOf(a)) && WriteAddress(p, a) == Ok(w)
    ensures ReadAddress(p, before, w + rest) == Read(a, |w|) <==> Portable(p, a)
  {
    var input := w + rest;
    assert input[0] == p.codes[FamilyOf(a)];
    match a
    case IPv4(ip) => assert input[1..5] == ip;
    case IPv6(ip) =>
      MappedPrefix(ip);
      assert input[1..17] == ip;
    case Domain(name) => ReadsBackDomain(p, name, before, w, rest);
  }

  lemma ReadsBackPortFirst(p: Parser, a: Addr, port: nat, x: bytes, rest: bytes)
    requires ValidAddr(a) && ParsesIPs(p) && Mapped(p, FamilyOf(a)) && port < 65536 && p.portFirst
    requires WriteAddress(p, a) == Ok(x)
    ensures ReadAddressPort(p, Uint16Bytes(port) + x + rest) == Read((a, port), |x| + 2) <==> Portable(p, a)
  {
    var pb := Uint16Bytes(port);
    var input := pb + x + rest;
    Uint16RoundTrip(port);
    assert input[..2] == pb && input[2..] == x + rest;
    assert Uint16At(input, 0) == Uint16At(pb, 0);
    ReadsBackAddress(p, a, pb, x, rest);
  }

  lemma ReadsBackPortLast(p: Parser, a: Addr, port: nat, x: bytes, rest: bytes)
    requires ValidAddr(a) && ParsesIPs(p) && Mapped(p, FamilyOf(a)) && port < 65536 && !p.portFirst
    requires WriteAddress(p, a) == Ok(x)
    ensures ReadAddressPort(p, x + Uint16Bytes(port) + rest) == Read((a, port), |x| + 2) <==> Portable(p, a)
  {
    var pb := Uint16Bytes(port);
    var input := x + pb + rest;
    Uint16RoundTrip(port);
    assert input == x + (pb + rest);
    assert input[|x|] == pb[0] && input[|x| + 1] == pb[1];
    assert Uint16At(input, |x|) == Uint16At(pb, 0);
    ReadsBackAddress(p, a, [], x, pb + rest);
  }

  /** Writing and reading back, in both port orders, with anything after it: the address and port come
      back and exactly the written bytes are used, if and only if the address is portable. */
  lemma ReadsBackAddressPort(p: Parser, a: Addr, port: nat, w: bytes, rest: bytes)
    requires ValidAddr(a) && ParsesIPs(p) && Mapped(p, FamilyOf(a)) && port < 65536
    requires WriteAddressPort(p, a, port) == Ok(w)
    ensures ReadAddressPort(p, w + rest) == Read((a, port), |w|) <==> Portable(p, a)
  {
    var x := WriteAddress(p, a).value;
    if p.portFirst { ReadsBackPortFirst(p, a, port, x, rest); } else { ReadsBackPortLast(p, a, port, x, rest); }
  }

  lemma ReadsBackDomain(p: Parser, name: bytes, before: bytes, w: bytes, rest: bytes)
    requires ParsesIPs(p) && Mapped(p, FamilyDomain) && WriteAddress(p, Domain(name)) == Ok(w)
    ensures ReadAddress(p, before, w + rest) == Read(Domain(name), |w|) <==> Portable(p, Domain(name))
  {
    var input := w + rest;
    assert input[1] == |name| % 256;
    if |name| % 256 == 0 {
      EmptyDomainIsRejected(p, before, input, 1);
    } else {
      assert |name| < 256;
      assert input[2..2 + |name|] == name;
    }
  }

  /** What comes back for addresses that are not portable: an IPv6 address that carries an IPv4 address is read as that
      one, and a name that is an IP address as that address; any other name that is not plain is refused. */
  lemma ReadsBackOtherwise(p: Parser, a: Addr, before: bytes, w: bytes, rest: bytes)
    requires ValidAddr(a) && Mapped(p, FamilyOf(a)) && WriteAddress(p, a) == Ok(w)
    ensures a.IPv6? && a.ip[..12] == [0, 0, 0, 0, 0, 0, 0, 0, 0, 0, 255, 255] ==>
              ReadAddress(p, before, w + rest) == Read(IPv4(a.ip[12..]), 17)
    ensures a.Domain? && 1 <= |a.name| <= 255 && IsNumeric(p, a.name) ==>
              ReadAddress(p, before, w + rest) == Read(p.parse(a.name).value, |a.name| + 2)
    ensures a.Domain? && 1 <= |a.name| <= 255 && !IsNumeric(p, a.name) && !IsPlain(a.name) ==>
              ReadAddress(p, before, w + rest) == Failed
  {
    var input := w + rest;
    assert input[0] == p.codes[FamilyOf(a)];
    match a
    case IPv4(ip) =>
    case IPv6(ip) =>
      MappedPrefix(ip);
      assert input[1..17] == ip;
    case Domain(name) =>
      assert input[1] == |name| % 256;
      if 1 <= |name| <= 255 { assert input[2..2 + |name|] == name; }
  }
}
