/** common/mux/frame.go: the metadata that starts every mux frame. */
module Frame {
  import opened Bytes
  import opened Address
  import opened Buffer
  import opened Reader

  const STATUS_NEW: byte := 1
  const STATUS_KEEP: byte := 2
  const STATUS_END: byte := 3
  const STATUS_KEEP_ALIVE: byte := 4

  const OPTION_DATA: byte := 1
  const OPTION_ERROR: byte := 2

  const MAX_META: nat := 512

  /** bitmask.Byte.Has for the two options. */
  predicate HasData(option: byte) {
    option % 2 == 1
  }

  predicate HasError(option: byte) {
    option / 2 % 2 == 1
  }

  datatype Network = TCP | UDP | OtherNetwork

  datatype Destination = Destination(network: Network, address: Addr, port: nat)

  /** The target is set on New frames only; any other frame leaves it unsent. */
  datatype Meta = Meta(target: Option<Destination>, id: nat, option: byte, status: byte)

  ghost predicate ValidMeta(f: Meta) {
    && f.id < 65536
    && (f.target.Some? ==> ValidAddr(f.target.value.address) && f.target.value.port < 65536)
    && (f.status == STATUS_NEW ==> f.target.Some?)
  }

  function Unmasked(b: byte): byte {
    b
  }

  const FAMILIES: seq<(byte, Family)> := [(1, FamilyIPv4), (2, FamilyDomain), (3, FamilyIPv6)]

  function MuxParser(parse: bytes -> Option<Addr>): Parser {
    NewParser(FAMILIES, true, Unmasked, parse)
  }

  lemma MuxParserTables(parse: bytes -> Option<Addr>)
    ensures forall f :: Mapped(MuxParser(parse), f)
  {
    TablesAgree(FAMILIES, true, Unmasked, parse);
    var p := MuxParser(parse);
    forall f: Family
      ensures Mapped(p, f)
    {
      var i := match f case FamilyIPv4 => 0 case FamilyDomain => 1 case FamilyIPv6 => 2;
      assert Entry(p, FAMILIES[i].0, FAMILIES[i].1);
    }
  }

  // ----- writing -----

  function NetworkByte(n: Network): bytes {
    match n
    case TCP => [1]
    case UDP => [2]
    case OtherNetwork => []
  }

  /** Everything after the two length bytes. */
  function Body(p: Parser, f: Meta): Result<bytes>
    requires f.id < 65536 && (f.status == STATUS_NEW ==> f.target.Some? && f.target.value.port < 65536)
  {
    var fixed := Uint16Bytes(f.id) + [f.status, f.option];
    if f.status != STATUS_NEW then Ok(fixed)
    else
      var t := f.target.value;
      match WriteAddressPort(p, t.address, t.port)
      case Err => Err
      case Ok(w) => Ok(fixed + NetworkByte(t.network) + w)
  }

  lemma BodyFits(p: Parser, f: Meta)
    requires ValidMeta(f) && Body(p, f).Ok?
    ensures |Body(p, f).value| <= 265
  {
  }

  function Encode(p: Parser, f: Meta): Result<bytes>
    requires ValidMeta(f)
  {
    match Body(p, f)
    case Err => Err
    case Ok(body) =>
      BodyFits(p, f);
      Ok(Uint16Bytes(|body|) + body)
  }

  /** Reserves the length, writes the fields and fills the length in at the end. */
  method WriteTo(p: Parser, f: Meta, b: Buffer) returns (ok: bool)
    requires ValidMeta(f) && b.Valid() && b.end + MAX_META <= SIZE
    modifies b, b.v
    ensures b.Valid() && ok == Encode(p, f).Ok?
    ensures ok ==> b.Contents() == old(b.Contents()) + Encode(p, f).value
  {
    ghost var before := b.Contents();
    var _, lenBytes := b.Extend(2);
    ghost var gap := b.v[lenBytes..lenBytes + 2];
    var len0 := b.Len();
    ok := WriteFields(p, f, b);
    if !ok { return; }
    ghost var body := Body(p, f).value;
    BodyFits(p, f);
    assert b.Contents() == before + gap + body;
    FillLength(b, lenBytes, b.Len() - len0, before, gap, body);
  }

  method FillLength(b: Buffer, lenBytes: nat, length: nat, ghost before: bytes, ghost gap: bytes, ghost body: bytes)
    requires b.Valid() && b.Contents() == before + gap + body && |gap| == 2
    requires lenBytes == b.start + |before| && length == |body| < 65536
    modifies b.v
    ensures b.Contents() == before + (Uint16Bytes(length) + body)
  {
    PatchedMiddle(before, gap, body, Uint16Bytes(length));
    Associates(before, Uint16Bytes(length), body);
    b.PutUint16(lenBytes, length);
  }

  method WriteFields(p: Parser, f: Meta, b: Buffer) returns (ok: bool)
    requires ValidMeta(f) && b.Valid() && b.end + 400 <= SIZE
    modifies b, b.v
    ensures b.Valid() && b.start == old(b.start) && ok == Body(p, f).Ok?
    ensures ok ==> b.Contents() == old(b.Contents()) + Body(p, f).value
  {
    WriteFixed(f, b);
    if f.status == STATUS_NEW {
      ok := WriteTarget(p, f.target.value, b);
    } else {
      ok := true;
    }
  }

  method WriteFixed(f: Meta, b: Buffer)
    requires f.id < 65536 && b.Valid() && b.end + 4 <= SIZE
    modifies b, b.v
    ensures b.Valid() && b.start == old(b.start) && b.end == old(b.end) + 4
    ensures b.Contents() == old(b.Contents()) + (Uint16Bytes(f.id) + [f.status, f.option])
  {
    var _, session := b.Extend(2);
    PatchedMiddle(old(b.Contents()), b.v[session..session + 2], [], Uint16Bytes(f.id));
    b.PutUint16(session, f.id);
    var _ := b.WriteByte(f.status);
    var _ := b.WriteByte(f.option);
  }

  method WriteNetwork(n: Network, b: Buffer)
    requires b.Valid() && b.end < SIZE
    modifies b, b.v
    ensures b.Valid() && b.start == old(b.start) && b.end <= old(b.end) + 1
    ensures b.Contents() == old(b.Contents()) + NetworkByte(n)
  {
    match n
    case TCP => var _ := b.WriteByte(1);
    case UDP => var _ := b.WriteByte(2);
    case OtherNetwork =>
  }

  method WriteTarget(p: Parser, t: Destination, b: Buffer) returns (ok: bool)
    requires ValidAddr(t.address) && t.port < 65536 && b.Valid() && b.end + 300 <= SIZE
    modifies b, b.v
    ensures b.Valid() && b.start == old(b.start) && ok == WriteAddressPort(p, t.address, t.port).Ok?
    ensures ok ==>
              var w := WriteAddressPort(p, t.address, t.port).value;
              b.Contents() == old(b.Contents()) + NetworkByte(t.network) + w
  {
    WriteNetwork(t.network, b);
    var w := WriteAddressPort(p, t.address, t.port);
    if w.Err? { return false; }
    var _ := b.Write(w.value);
    return true;
  }

  // ----- reading -----

  /** UnmarshalFromBuffer. Bytes after the target are ignored. */
  function DecodeBody(p: Parser, b: bytes): (r: Result<Meta>)
    ensures r.Ok? ==> r.value.id < 65536 && (r.value.target.Some? <==> r.value.status == STATUS_NEW)
  {
    if |b| < 4 then Err
    else if b[2] != STATUS_NEW then Ok(Meta(None, Uint16At(b, 0), b[3], b[2]))
    else if |b| < 8 then Err
    else
      match ReadAddressPort(p, b[5..])
      case Failed => Err
      case Read(target, _) =>
        if b[4] == 1 then Ok(Meta(Some(Destination(TCP, target.0, target.1)), Uint16At(b, 0), b[3], b[2]))
        else if b[4] == 2 then Ok(Meta(Some(Destination(UDP, target.0, target.1)), Uint16At(b, 0), b[3], b[2]))
        else Err
  }

  /** What Unmarshal makes of a stream, and what it leaves unread. */
  datatype Unmarshalled = Unmarshalled(result: Result<Meta>, rest: bytes)

  function Unmarshal(p: Parser, input: bytes): (u: Unmarshalled)
    ensures u.result.Ok? ==> u.result.value.id < 65536
    ensures u.result.Ok? ==> (u.result.value.target.Some? <==> u.result.value.status == STATUS_NEW)
  {
    if |input| < 2 then Unmarshalled(Err, [])
    else
      var n := Uint16At(input, 0);
      if n > MAX_META then Unmarshalled(Err, input[2..])
      else if |input| < 2 + n then Unmarshalled(Err, [])
      else Unmarshalled(DecodeBody(p, input[2..2 + n]), input[2 + n..])
  }

  /** Unmarshal as the code runs it: two full reads, however the bytes arrive. */
  method UnmarshalFrom(p: Parser, reader: BufferedReader) returns (f: Result<Meta>)
    modifies reader
    ensures Unmarshalled(f, reader.Remaining()) == Unmarshal(p, old(reader.Remaining()))
    ensures f.Ok? ==> |reader.Remaining()| + 2 <= |old(reader.Remaining())|
  {
    ghost var input := reader.Remaining();
    var ok, _, lengthBytes := reader.ReadFull(2);
    if !ok { return Err; }
    assert Uint16At(lengthBytes, 0) == Uint16At(input, 0) && reader.Remaining() == input[2..];
    var metaLen := Uint16At(lengthBytes, 0);
    if metaLen > MAX_META { return Err; }
    var full, _, body := reader.ReadFull(metaLen);
    if !full { return Err; }
    assert body == input[2..2 + metaLen] && reader.Remaining() == input[2 + metaLen..];
    f := DecodeBody(p, body);
  }

  // ----- the bytes on the wire -----

  /** A target as the peer's bytes: 1 for TCP or 2 for UDP, the port with its high byte first, then 1 and four bytes,
      2 with a length byte and a name, or 3 and sixteen bytes. */
  function TargetBytes(t: Destination): seq<int> {
    (match t.network case TCP => [1] case UDP => [2] case OtherNetwork => [])
    + [t.port / 256, t.port % 256]
    + match t.address
      case IPv4(ip) => [1] + ip
      case Domain(name) => [2, |name| % 256] + name
      case IPv6(ip) => [3] + ip
  }

  lemma TargetIsBytes(parse: bytes -> Option<Addr>, t: Destination)
    requires t.port < 65536
    ensures var w := WriteAddressPort(MuxParser(parse), t.address, t.port);
            && (w.Err? <==> t.address.Domain? && |t.address.name| > 256)
            && (w.Ok? ==> NetworkByte(t.network) + w.value == TargetBytes(t))
  {
    FamilyCodes(parse);
  }

  predicate NameTooLong(f: Meta)
    requires f.status == 1 ==> f.target.Some?
  {
    f.status == 1 && f.target.value.address.Domain? && |f.target.value.address.name| > 256
  }

  function BehindOption(f: Meta): seq<int>
    requires f.status == 1 ==> f.target.Some?
  {
    if f.status == 1 then TargetBytes(f.target.value) else []
  }

  lemma BodyIsBytes(parse: bytes -> Option<Addr>, f: Meta)
    requires ValidMeta(f)
    ensures var e := Body(MuxParser(parse), f);
            && (e.Err? <==> NameTooLong(f))
            && (e.Ok? ==> e.value == Uint16Bytes(f.id) + [f.status, f.option] + BehindOption(f))
  {
    if f.status == 1 {
      var t := f.target.value;
      TargetIsBytes(parse, t);
      var w := WriteAddressPort(MuxParser(parse), t.address, t.port);
      if w.Ok? { Associates(Uint16Bytes(f.id) + [f.status, f.option], NetworkByte(t.network), w.value); }
    } else {
      NothingMore(Uint16Bytes(f.id) + [f.status, f.option]);
    }
  }

  /** Every frame that encodes, byte by byte: the length of the rest, the id, the status and the option, and the target
      behind status 1 only. Only a domain of more than 256 bytes does not encode. */
  lemma FrameBytes(parse: bytes -> Option<Addr>, f: Meta)
    requires ValidMeta(f)
    ensures var e := Encode(MuxParser(parse), f);
            && (e.Err? <==> NameTooLong(f))
            && (e.Ok? ==> IsFrame(e.value, f))
  {
    BodyIsBytes(parse, f);
    var e := Body(MuxParser(parse), f);
    if e.Ok? {
      BodyFits(MuxParser(parse), f);
      BodyBytes(f, e.value, Uint16Bytes(|e.value|) + e.value);
    }
  }

  predicate IsFrame(w: bytes, f: Meta)
    requires f.status == 1 ==> f.target.Some?
  {
    && |w| >= 6 && HighLow(w[0], w[1]) == |w| - 2
    && HighLow(w[2], w[3]) == f.id && w[4] == f.status && w[5] == f.option
    && w[6..] == BehindOption(f)
  }

  lemma BodyBytes(f: Meta, body: bytes, w: bytes)
    requires f.id < 65536 && |body| < 65536 && (f.status == 1 ==> f.target.Some?)
    requires w == Uint16Bytes(|body|) + body
    requires body == Uint16Bytes(f.id) + [f.status, f.option] + BehindOption(f)
    ensures IsFrame(w, f)
  {
    assert w[2..] == body;
    assert w[6..] == body[4..];
  }

  lemma FamilyCodes(parse: bytes -> Option<Addr>)
    ensures var codes := MuxParser(parse).codes;
            && FamilyIPv4 in codes && codes[FamilyIPv4] == 1
            && FamilyDomain in codes && codes[FamilyDomain] == 2
            && FamilyIPv6 in codes && codes[FamilyIPv6] == 3
  {
    TablesAgree(FAMILIES, true, Unmasked, parse);
    var p := MuxParser(parse);
    assert Entry(p, FAMILIES[0].0, FAMILIES[0].1);
    assert Entry(p, FAMILIES[1].0, FAMILIES[1].1);
    assert Entry(p, FAMILIES[2].0, FAMILIES[2].1);
  }

  /** The two option bits as the code tests them. */
  lemma OptionBits(option: byte)
    ensures HasData(option) <==> (option as bv8) & 1 != 0
    ensures HasError(option) <==> (option as bv8) & 2 != 0
  {
  }

  /** Any input with a status other than 1, byte by byte: at most 512 bytes of metadata are accepted, and at least 4. */
  lemma UnmarshalBytes(p: Parser, input: bytes)
    requires |input| >= 6 && input[4] != 1
    ensures var n := HighLow(input[0], input[1]);
            Unmarshal(p, input) ==
              if n > 512 then Unmarshalled(Err, input[2..])
              else if |input| < 2 + n then Unmarshalled(Err, [])
              else Unmarshalled(if n < 4 then Err else Ok(Meta(None, HighLow(input[2], input[3]), input[5], input[4])),
                                input[2 + n..])
  {
  }

  // ----- round trip -----

  /** What the peer can know of a frame. */
  function Sent(f: Meta): Meta {
    if f.status == STATUS_NEW then f else f.(target := None)
  }

  ghost predicate Travels(p: Parser, f: Meta) {
    f.status == STATUS_NEW ==>
      f.target.Some? && f.target.value.network != OtherNetwork && Portable(p, f.target.value.address)
  }

  /** Main result for the codec: with anything after it, a written frame is read back unchanged and exactly
      its bytes are consumed, if and only if it carries no target, or a TCP or UDP target with a portable
      address. */
  lemma FrameRoundTrip(p: Parser, f: Meta, rest: bytes)
    requires ValidMeta(f) && ParsesIPs(p) && p.portFirst && (forall g :: Mapped(p, g)) && Encode(p, f).Ok?
    ensures Unmarshal(p, Encode(p, f).value + rest) == Unmarshalled(Ok(Sent(f)), rest) <==> Travels(p, f)
  {
    var body := Body(p, f).value;
    BodyFits(p, f);
    Uint16RoundTrip(|body|);
    var input := Encode(p, f).value + rest;
    assert Uint16At(input, 0) == |body|;
    assert input[2..2 + |body|] == body && input[2 + |body|..] == rest;
    BodyRoundTrip(p, f);
  }

  lemma BodyRoundTrip(p: Parser, f: Meta)
    requires ValidMeta(f) && ParsesIPs(p) && p.portFirst && (forall g :: Mapped(p, g)) && Body(p, f).Ok?
    ensures DecodeBody(p, Body(p, f).value) == Ok(Sent(f)) <==> Travels(p, f)
  {
    var body := Body(p, f).value;
    Uint16RoundTrip(f.id);
    assert Uint16At(body, 0) == f.id && body[2] == f.status && body[3] == f.option;
    if f.status == STATUS_NEW && f.target.value.network != OtherNetwork {
      var t := f.target.value;
      var w := WriteAddressPort(p, t.address, t.port).value;
      assert body[5..] == w + [];
      ReadsBackAddressPort(p, t.address, t.port, w, []);
    }
  }
}
