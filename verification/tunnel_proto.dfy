/** The self-tunnel CONNECT header: printer, parser, and why they are inverse. */
module TunnelProto {
  import opened Words

  const VERSION: byte := 1
  const MAC_LEN: nat := 32
  const MAX_DOMAIN_LEN: nat := 253
  const ATYP_IPV4: byte := 0x01
  const ATYP_DOMAIN: byte := 0x03
  const ATYP_IPV6: byte := 0x04
  const REPLY_OK: byte := 0x00
  const REPLY_AUTH_FAIL: byte := 0x01
  const REPLY_DIAL_FAIL: byte := 0x02

  /** The longest header a well-formed target can have. */
  const MAX_WIRE_LEN: nat := 298

  type Tag = t: bytes | |t| == 32 witness seq(32, _ => 0)

  /** HMAC-SHA256 as an arbitrary deterministic function of key and message. */
  type Hmac = (bytes, bytes) -> Tag

  type Ipv4 = a: bytes | |a| == 4 witness [0, 0, 0, 0]
  type Ipv6 = a: bytes | |a| == 16 witness seq(16, _ => 0)

  datatype Host = V4(v4: Ipv4) | Domain(name: Utf8) | V6(v6: Ipv6)

  datatype Target = Target(host: Host, port: uint16)

  datatype ProtoError =
    | Truncated(needed: nat)
    | BadVersion(found: byte)
    | BadAtyp(atyp: byte)
    | BadDomain
    | DomainTooLong(len: nat)
    | BadMac
    | Stale(maxSkew: uint64)

  datatype ParsedRequest = ParsedRequest(target: Target, timestamp: uint64, consumed: nat)

  type Verdict = Result<ParsedRequest, ProtoError>

  predicate IsTruncated(v: Verdict) {
    v.Err? && v.error.Truncated?
  }

  /** The targets the exit node accepts: a name must fit the 253-byte limit. */
  predicate WellFormed(t: Target) {
    t.host.Domain? ==> |t.host.name| <= MAX_DOMAIN_LEN
  }

  /** The targets whose length byte is exact. */
  predicate Encodable(t: Target) {
    t.host.Domain? ==> |t.host.name| <= 255
  }

  // ---- printing ------------------------------------------------------------

  /** `atyp || address`; a name's length is cut to one byte, as the cast in the source does. */
  function EncodeHost(h: Host): (s: bytes)
    ensures |s| > 0
  {
    match h
    case V4(a) => [ATYP_IPV4] + a
    case Domain(d) => [ATYP_DOMAIN, |d| % 256] + d
    case V6(a) => [ATYP_IPV6] + a
  }

  function EncodeAddr(t: Target): bytes {
    EncodeHost(t.host) + Be16(t.port)
  }

  /** Every header byte the tag covers. */
  function SignedPart(timestamp: uint64, t: Target): bytes {
    [VERSION] + Le64(timestamp) + EncodeAddr(t)
  }

  function EncodeRequest(hmac: Hmac, key: bytes, timestamp: uint64, t: Target): bytes {
    SignedPart(timestamp, t) + hmac(key, SignedPart(timestamp, t))
  }

  /** The growing buffer `encode_addr` appends to. */
  class ByteVec {
    var data: bytes

    constructor ()
      ensures data == []
    {
      data := [];
    }

    method Push(b: byte)
      modifies this
      ensures data == old(data) + [b]
    {
      data := data + [b];
    }

    method Extend(s: bytes)
      modifies this
      ensures data == old(data) + s
    {
      data := data + s;
    }
  }

  method EncodeAddrTo(t: Target, out: ByteVec)
    modifies out
    ensures out.data == old(out.data) + EncodeAddr(t)
  {
    match t.host {
      case V4(a) =>
        out.Push(ATYP_IPV4);
        out.Extend(a);
      case Domain(d) =>
        out.Push(ATYP_DOMAIN);
        out.Push(|d| % 256);
        out.Extend(d);
      case V6(a) =>
        out.Push(ATYP_IPV6);
        out.Extend(a);
    }
    assert out.data == old(out.data) + EncodeHost(t.host);
    out.Extend(Be16(t.port));
    assert out.data == old(out.data) + EncodeAddr(t);
  }

  method BuildRequest(hmac: Hmac, key: bytes, timestamp: uint64, t: Target) returns (header: bytes)
    ensures header == EncodeRequest(hmac, key, timestamp, t)
  {
    var buf := new ByteVec();
    buf.Push(VERSION);
    buf.Extend(Le64(timestamp));
    EncodeAddrTo(t, buf);
    assert buf.data == SignedPart(timestamp, t);
    buf.Extend(hmac(key, buf.data));
    header := buf.data;
  }

  /**
   * The layout, byte by byte: version 1, the seconds little-endian, the SOCKS5 address type and address, the
   * port big-endian, and a 32-byte tag over all before it.  `n` is the offset of the port.
   */
  lemma HeaderLayout(hmac: Hmac, key: bytes, timestamp: uint64, t: Target)
    ensures
      var h := EncodeRequest(hmac, key, timestamp, t);
      var n := match t.host case V4(_) => 14 case Domain(d) => 11 + |d| case V6(_) => 26;
      && |h| == n + 34
      && h[0] == 1
      && timestamp ==
           (h[1] as int) + 0x100 * (h[2] as int) + 0x1_0000 * (h[3] as int) + 0x100_0000 * (h[4] as int)
           + 0x1_0000_0000 * (h[5] as int) + 0x100_0000_0000 * (h[6] as int) + 0x1_0000_0000_0000 * (h[7] as int)
           + 0x100_0000_0000_0000 * (h[8] as int)
      && (match t.host
          case V4(a) => h[9] == 1 && h[10..14] == a
          case Domain(d) => h[9] == 3 && h[10] == |d| % 256 && h[11..n] == d
          case V6(a) => h[9] == 4 && h[10..26] == a)
      && 0x100 * (h[n] as int) + h[n + 1] as int == t.port
      && h[n + 2..] == hmac(key, h[..n + 2])
  {
    var h, signed, e := EncodeRequest(hmac, key, timestamp, t), SignedPart(timestamp, t), EncodeHost(t.host);
    var n := 9 + |e|;
    assert h[..n + 2] == signed && h[n + 2..] == hmac(key, signed);
    assert signed[9..n] == e && h[9..n] == signed[9..n];
    assert signed[n..] == Be16(t.port);
    assert h[n] == signed[n] == Be16(t.port)[0] && h[n + 1] == signed[n + 1] == Be16(t.port)[1];
    assert h[1..9] == signed[1..9] == Le64(timestamp);
    Le64Bijective(timestamp, h[1..9]);
    Le64Value(h[1..9]);
    assert h[9] == h[9..n][0] && h[10..n] == h[9..n][1..] == e[1..];
    if t.host.Domain? {
      assert h[10] == h[10..n][0] && h[11..n] == h[10..n][1..] == e[2..];
    }
  }

  // ---- parsing -------------------------------------------------------------

  /** The host field that starts at byte 9, and the offset just past it. */
  function ParseHost(buf: bytes): (r: Result<(Host, nat), ProtoError>)
    requires |buf| >= 10
    ensures r.Ok? ==> 10 <= r.value.1 <= |buf|
  {
    if buf[9] == ATYP_IPV4 then
      if |buf| < 14 then Err(Truncated(14 - |buf|)) else Ok((V4(buf[10..14]), 14))
    else if buf[9] == ATYP_DOMAIN then
      if |buf| < 11 then Err(Truncated(11 - |buf|))
      else if buf[10] > MAX_DOMAIN_LEN then Err(DomainTooLong(buf[10]))
      else
        var end: nat := 11 + buf[10] as int;
        if |buf| < end then Err(Truncated(end - |buf|))
        else if !ValidUtf8(buf[11..end]) then Err(BadDomain)
        else Ok((Domain(buf[11..end]), end))
    else if buf[9] == ATYP_IPV6 then
      if |buf| < 26 then Err(Truncated(26 - |buf|)) else Ok((V6(buf[10..26]), 26))
    else
      Err(BadAtyp(buf[9]))
  }

  /** The verdict on a buffer, stage by stage: length, version, host, port, tag, freshness. */
  function Parse(hmac: Hmac, key: bytes, now: uint64, maxSkew: uint64, buf: bytes): Verdict {
    if |buf| < 10 then Err(Truncated(10 - |buf|))
    else if buf[0] != VERSION then Err(BadVersion(buf[0]))
    else
      match ParseHost(buf)
      case Err(e) => Err(e)
      case Ok((host, at)) =>
        if |buf| < at + 2 then Err(Truncated(at + 2 - |buf|))
        else if |buf| < at + 2 + MAC_LEN then Err(Truncated(at + 2 + MAC_LEN - |buf|))
        else if hmac(key, buf[..at + 2]) != buf[at + 2..at + 2 + MAC_LEN] then Err(BadMac)
        else if AbsDiff(now, FromLe64(buf[1..9])) > maxSkew then Err(Stale(maxSkew))
        else Ok(ParsedRequest(Target(host, FromBe16(buf[at], buf[at + 1])), FromLe64(buf[1..9]), at + 2 + MAC_LEN))
  }

  method ParseRequest(hmac: Hmac, key: bytes, now: uint64, maxSkew: uint64, buf: bytes) returns (r: Verdict)
    ensures r == Parse(hmac, key, now, maxSkew, buf)
  {
    if |buf| < 10 { return Err(Truncated(10 - |buf|)); }
    if buf[0] != VERSION { return Err(BadVersion(buf[0])); }
    var timestamp := FromLe64(buf[1..9]);
    var cursor := 10;
    var host: Host;
    if buf[9] == ATYP_IPV4 {
      if |buf| < cursor + 4 { return Err(Truncated(cursor + 4 - |buf|)); }
      host := V4(buf[cursor..cursor + 4]);
      cursor := cursor + 4;
    } else if buf[9] == ATYP_DOMAIN {
      if |buf| < cursor + 1 { return Err(Truncated(cursor + 1 - |buf|)); }
      var len := buf[cursor];
      cursor := cursor + 1;
      if len > MAX_DOMAIN_LEN { return Err(DomainTooLong(len)); }
      if |buf| < cursor + len { return Err(Truncated(cursor + len - |buf|)); }
      if !ValidUtf8(buf[cursor..cursor + len]) { return Err(BadDomain); }
      host := Domain(buf[cursor..cursor + len]);
      cursor := cursor + len;
    } else if buf[9] == ATYP_IPV6 {
      if |buf| < cursor + 16 { return Err(Truncated(cursor + 16 - |buf|)); }
      host := V6(buf[cursor..cursor + 16]);
      cursor := cursor + 16;
    } else {
      return Err(BadAtyp(buf[9]));
    }
    if |buf| < cursor + 2 { return Err(Truncated(cursor + 2 - |buf|)); }
    var port := FromBe16(buf[cursor], buf[cursor + 1]);
    cursor := cursor + 2;
    if |buf| < cursor + MAC_LEN { return Err(Truncated(cursor + MAC_LEN - |buf|)); }
    var signed, tag := buf[..cursor], buf[cursor..cursor + MAC_LEN];
    if hmac(key, signed) != tag { return Err(BadMac); }
    cursor := cursor + MAC_LEN;
    if AbsDiff(now, timestamp) > maxSkew { return Err(Stale(maxSkew)); }
    return Ok(ParsedRequest(Target(host, port), timestamp, cursor));
  }

  // ---- the two field-level inversions --------------------------------------

  lemma HostReprint(buf: bytes)
    requires |buf| >= 10 && ParseHost(buf).Ok?
    ensures var (host, at) := ParseHost(buf).value; buf[9..at] == EncodeHost(host)
    ensures var (host, _) := ParseHost(buf).value; host.Domain? ==> |host.name| <= MAX_DOMAIN_LEN
  {
    var (host, at) := ParseHost(buf).value;
    if host.Domain? {
      assert buf[9..at] == [buf[9], buf[10]] + buf[11..at];
    } else {
      assert buf[9..at] == [buf[9]] + buf[10..at];
    }
  }

  /** Printing what was parsed gives back the bytes that were read. */
  lemma ParsedFieldsReprint(buf: bytes)
    requires |buf| >= 10 && buf[0] == VERSION && ParseHost(buf).Ok?
    requires |buf| >= ParseHost(buf).value.1 + 2
    ensures
      var (host, at) := ParseHost(buf).value;
      var t := Target(host, FromBe16(buf[at], buf[at + 1]));
      WellFormed(t) && buf[..at + 2] == SignedPart(FromLe64(buf[1..9]), t)
  {
    var (host, at) := ParseHost(buf).value;
    var t := Target(host, FromBe16(buf[at], buf[at + 1]));
    Le64Bijective(FromLe64(buf[1..9]), buf[1..9]);
    HostReprint(buf);
    assert buf[at..at + 2] == Be16(t.port) by {
      assert t.port / 256 == buf[at] && t.port % 256 == buf[at + 1];
    }
    assert buf[..at + 2] == [buf[0]] + buf[1..9] + (buf[9..at] + buf[at..at + 2]);
  }

  /** Parsing what was printed gives back the fields, whatever follows them. */
  lemma PrintedFieldsReparse(timestamp: uint64, t: Target, buf: bytes)
    requires WellFormed(t)
    requires SignedPart(timestamp, t) <= buf
    ensures |buf| >= 12 && buf[0] == VERSION
    ensures FromLe64(buf[1..9]) == timestamp
    ensures ParseHost(buf) == Ok((t.host, |SignedPart(timestamp, t)| - 2))
    ensures
      var at := |SignedPart(timestamp, t)| - 2;
      FromBe16(buf[at], buf[at + 1]) == t.port
  {
    var signed := SignedPart(timestamp, t);
    var e := EncodeHost(t.host);
    var at := |signed| - 2;
    assert signed[1..9] == Le64(timestamp) && buf[1..9] == signed[1..9];
    Le64Bijective(timestamp, buf[1..9]);
    assert signed[9..at] == e && buf[9..at] == signed[9..at];
    assert buf[9] == e[0];
    assert signed[at..] == Be16(t.port);
    assert buf[at] == signed[at] == t.port / 256 && buf[at + 1] == signed[at + 1] == t.port % 256;
    match t.host {
      case V4(a) => assert buf[10..14] == e[1..] == a;
      case Domain(d) =>
        assert buf[10] == e[1] == |d|;
        assert buf[11..at] == e[2..] == d;
      case V6(a) => assert buf[10..26] == e[1..] == a;
    }
  }

  // ---- what each verdict means ---------------------------------------------

  /** The exact verdict on any buffer that starts with well-formed signed fields and a whole tag. */
  lemma SignedVerdict(hmac: Hmac, key: bytes, now: uint64, maxSkew: uint64, timestamp: uint64, t: Target, tag: Tag,
                      buf: bytes)
    requires WellFormed(t)
    requires SignedPart(timestamp, t) + tag <= buf
    ensures
      var signed := SignedPart(timestamp, t);
      Parse(hmac, key, now, maxSkew, buf) ==
      if tag != hmac(key, signed) then Err(BadMac)
      else if AbsDiff(now, timestamp) > maxSkew then Err(Stale(maxSkew))
      else Ok(ParsedRequest(t, timestamp, |signed| + MAC_LEN))
  {
    var signed := SignedPart(timestamp, t);
    assert signed == (signed + tag)[..|signed|] == buf[..|signed|];
    PrintedFieldsReparse(timestamp, t, buf);
    assert tag == (signed + tag)[|signed|..] == buf[|signed|..|signed| + MAC_LEN];
  }

  /**
   * A header is accepted exactly when it is the client's own encoding of a well-formed target under the
   * server's key and its timestamp is fresh; `consumed` is then the length of that encoding.
   */
  lemma AcceptedIff(hmac: Hmac, key: bytes, now: uint64, maxSkew: uint64, buf: bytes, p: ParsedRequest)
    ensures
      Parse(hmac, key, now, maxSkew, buf) == Ok(p) <==>
      && WellFormed(p.target)
      && EncodeRequest(hmac, key, p.timestamp, p.target) <= buf
      && p.consumed == |EncodeRequest(hmac, key, p.timestamp, p.target)|
      && p.timestamp <= now + maxSkew && now <= p.timestamp + maxSkew
  {
    if Parse(hmac, key, now, maxSkew, buf) == Ok(p) {
      AcceptedMeans(hmac, key, now, maxSkew, buf, p);
    }
    if WellFormed(p.target) && EncodeRequest(hmac, key, p.timestamp, p.target) <= buf {
      var signed := SignedPart(p.timestamp, p.target);
      SignedVerdict(hmac, key, now, maxSkew, p.timestamp, p.target, hmac(key, signed), buf);
    }
  }

  lemma AcceptedMeans(hmac: Hmac, key: bytes, now: uint64, maxSkew: uint64, buf: bytes, p: ParsedRequest)
    requires Parse(hmac, key, now, maxSkew, buf) == Ok(p)
    ensures WellFormed(p.target) && EncodeRequest(hmac, key, p.timestamp, p.target) <= buf
    ensures p.consumed == |EncodeRequest(hmac, key, p.timestamp, p.target)|
    ensures p.timestamp <= now + maxSkew && now <= p.timestamp + maxSkew
  {
    ParsedFieldsReprint(buf);
    var signed := SignedPart(p.timestamp, p.target);
    var (_, at) := ParseHost(buf).value;
    GluedIsPrefix(buf, signed, hmac(key, signed)) by {
      assert signed == buf[..at + 2];
      assert buf[at + 2..][..MAC_LEN] == buf[at + 2..at + 2 + MAC_LEN];
    }
  }

  ghost predicate CarriesSigned(buf: bytes, timestamp: uint64, t: Target, tag: Tag) {
    WellFormed(t) && SignedPart(timestamp, t) + tag <= buf
  }

  /** `BadMac` means: whole, well-formed, and the tag is not the one the server computes. */
  lemma BadMacIff(hmac: Hmac, key: bytes, now: uint64, maxSkew: uint64, buf: bytes)
    ensures
      Parse(hmac, key, now, maxSkew, buf) == Err(BadMac) <==>
      exists ts, t, tag :: CarriesSigned(buf, ts, t, tag) && tag != hmac(key, SignedPart(ts, t))
  {
    if Parse(hmac, key, now, maxSkew, buf) == Err(BadMac) {
      var _, _, _ := WholeHeader(hmac, key, now, maxSkew, buf);
    }
    forall ts, t, tag | CarriesSigned(buf, ts, t, tag) && tag != hmac(key, SignedPart(ts, t))
      ensures Parse(hmac, key, now, maxSkew, buf) == Err(BadMac)
    {
      SignedVerdict(hmac, key, now, maxSkew, ts, t, tag, buf);
    }
  }

  /** `Stale` means: authentic, but outside the freshness window. */
  lemma StaleIff(hmac: Hmac, key: bytes, now: uint64, maxSkew: uint64, buf: bytes)
    ensures
      Parse(hmac, key, now, maxSkew, buf) == Err(Stale(maxSkew)) <==>
      exists ts: uint64, t, tag ::
        && CarriesSigned(buf, ts, t, tag) && tag == hmac(key, SignedPart(ts, t))
        && !(ts <= now + maxSkew && now <= ts + maxSkew)
  {
    if Parse(hmac, key, now, maxSkew, buf) == Err(Stale(maxSkew)) {
      var _, _, _ := WholeHeader(hmac, key, now, maxSkew, buf);
    }
    forall ts, t, tag |
      CarriesSigned(buf, ts, t, tag) && tag == hmac(key, SignedPart(ts, t)) && AbsDiff(now, ts) > maxSkew
      ensures Parse(hmac, key, now, maxSkew, buf) == Err(Stale(maxSkew))
    {
      SignedVerdict(hmac, key, now, maxSkew, ts, t, tag, buf);
    }
  }

  /** A buffer judged on its tag or its age does hold a whole header; these are its fields. */
  lemma WholeHeader(hmac: Hmac, key: bytes, now: uint64, maxSkew: uint64, buf: bytes)
    returns (ts: uint64, t: Target, tag: Tag)
    requires
      var v := Parse(hmac, key, now, maxSkew, buf);
      v.Ok? || v.error.BadMac? || v.error.Stale?
    ensures CarriesSigned(buf, ts, t, tag) && ts == FromLe64(buf[1..9])
    ensures
      var v := Parse(hmac, key, now, maxSkew, buf);
      && (v == Err(BadMac) <==> tag != hmac(key, SignedPart(ts, t)))
      && (v == Err(Stale(maxSkew)) ==> AbsDiff(now, ts) > maxSkew)
  {
    ParsedFieldsReprint(buf);
    var (host, at) := ParseHost(buf).value;
    ts, t, tag := FromLe64(buf[1..9]), Target(host, FromBe16(buf[at], buf[at + 1])), buf[at + 2..at + 2 + MAC_LEN];
    assert buf[..at + 2 + MAC_LEN] == buf[..at + 2] + tag;
  }

  /** The refusals made on the bytes alone, before any tag is checked. */
  predicate Structural(v: Verdict) {
    v.Err? && (v.error.BadVersion? || v.error.BadAtyp? || v.error.BadDomain? || v.error.DomainTooLong?)
  }

  /** The tag is looked at exactly when the buffer holds a whole well-formed header. */
  lemma JudgedIffWhole(hmac: Hmac, key: bytes, now: uint64, maxSkew: uint64, buf: bytes)
    ensures
      var v := Parse(hmac, key, now, maxSkew, buf);
      !IsTruncated(v) && !Structural(v) <==> exists ts, t, tag :: CarriesSigned(buf, ts, t, tag)
  {
    var v := Parse(hmac, key, now, maxSkew, buf);
    if !IsTruncated(v) && !Structural(v) {
      var _, _, _ := WholeHeader(hmac, key, now, maxSkew, buf);
    }
    forall ts, t, tag | CarriesSigned(buf, ts, t, tag)
      ensures !IsTruncated(v) && !Structural(v)
    {
      SignedVerdict(hmac, key, now, maxSkew, ts, t, tag, buf);
    }
  }

  // ---- which refusal, and when it is only short ----------------------------

  /** Refused for its version: ten bytes are there and the first is not 1. */
  lemma BadVersionIff(hmac: Hmac, key: bytes, now: uint64, maxSkew: uint64, buf: bytes, found: byte)
    ensures
      Parse(hmac, key, now, maxSkew, buf) == Err(BadVersion(found)) <==>
      |buf| >= 10 && buf[0] != 1 && found == buf[0]
  {
  }

  /** Refused for its address type: the version is right and byte 9 is not a SOCKS5 address type. */
  lemma BadAtypIff(hmac: Hmac, key: bytes, now: uint64, maxSkew: uint64, buf: bytes, atyp: byte)
    ensures
      Parse(hmac, key, now, maxSkew, buf) == Err(BadAtyp(atyp)) <==>
      |buf| >= 10 && buf[0] == 1 && buf[9] !in {1, 3, 4} && atyp == buf[9]
  {
  }

  /** Refused for the length of its name: as soon as the length byte is there. */
  lemma DomainTooLongIff(hmac: Hmac, key: bytes, now: uint64, maxSkew: uint64, buf: bytes, len: nat)
    ensures
      Parse(hmac, key, now, maxSkew, buf) == Err(DomainTooLong(len)) <==>
      |buf| >= 11 && buf[0] == 1 && buf[9] == 3 && buf[10] > 253 && len == buf[10]
  {
  }

  /** Refused for its name: the whole name is there and is not UTF-8. */
  lemma BadDomainIff(hmac: Hmac, key: bytes, now: uint64, maxSkew: uint64, buf: bytes)
    ensures
      Parse(hmac, key, now, maxSkew, buf) == Err(BadDomain) <==>
      && |buf| >= 11 && buf[0] == 1 && buf[9] == 3 && buf[10] <= 253 && |buf| >= 11 + buf[10] as int
      && !ValidUtf8(buf[11..11 + buf[10] as int])
  {
  }

  /** The lengths at which the parser looks again, as far as the bytes that are there tell. */
  function Stops(buf: bytes): (stops: (nat, nat, nat))
    ensures stops.0 <= stops.1 <= stops.2
  {
    if |buf| < 10 then (10, 10, 10)
    else if buf[9] == 1 then (14, 16, 48)
    else if buf[9] == 4 then (26, 28, 60)
    else if |buf| < 11 then (11, 11, 11)
    else (11 + buf[10] as int, 13 + buf[10] as int, 45 + buf[10] as int)
  }

  /**
   * When a buffer is only short, and by how much: nothing it holds is refused, the frame it announces is not all
   * there, and the count is what is missing to the next stop.
   */
  lemma TruncatedIff(hmac: Hmac, key: bytes, now: uint64, maxSkew: uint64, buf: bytes, needed: nat)
    ensures
      var (first, second, third) := Stops(buf);
      Parse(hmac, key, now, maxSkew, buf) == Err(Truncated(needed)) <==>
      && (|buf| >= 10 ==> buf[0] == 1 && buf[9] in {1, 3, 4})
      && (|buf| >= 11 && buf[9] == 3 ==>
          && buf[10] <= 253
          && (|buf| >= 11 + buf[10] as int ==> ValidUtf8(buf[11..11 + buf[10] as int])))
      && |buf| < third
      && |buf| + needed == if |buf| < first then first else if |buf| < second then second else third
  {
  }

  // ---- incremental parsing -------------------------------------------------

  lemma HostOfExtension(buf: bytes, more: bytes)
    requires |buf| >= 10
    ensures
      match ParseHost(buf)
      case Ok(v) => ParseHost(buf + more) == Ok(v)
      case Err(Truncated(n)) =>
        && n >= 1 && |buf| + n <= 264
        && (|more| < n ==> ParseHost(buf + more) == Err(Truncated(n - |more|)))
      case Err(e) => ParseHost(buf + more) == Err(e)
  {
    var whole := buf + more;
    if buf[9] == ATYP_IPV4 && |buf| >= 14 {
      assert whole[10..14] == buf[10..14];
    } else if buf[9] == ATYP_DOMAIN && |buf| >= 11 && |buf| >= 11 + buf[10] as int {
      var end := 11 + buf[10] as int;
      assert whole[11..end] == buf[11..end];
    } else if buf[9] == ATYP_IPV6 && |buf| >= 26 {
      assert whole[10..26] == buf[10..26];
    }
  }

  /** A decided verdict never changes when more bytes arrive. */
  lemma DecidedIsFinal(hmac: Hmac, key: bytes, now: uint64, maxSkew: uint64, buf: bytes, more: bytes)
    requires !IsTruncated(Parse(hmac, key, now, maxSkew, buf))
    ensures Parse(hmac, key, now, maxSkew, buf + more) == Parse(hmac, key, now, maxSkew, buf)
  {
    if buf[0] == VERSION {
      HostOfExtension(buf, more);
      var whole := buf + more;
      assert whole[1..9] == buf[1..9];
      if ParseHost(buf).Ok? {
        var at := ParseHost(buf).value.1;
        assert whole[..at + 2] == buf[..at + 2];
        assert whole[at + 2..at + 2 + MAC_LEN] == buf[at + 2..at + 2 + MAC_LEN];
      }
    }
  }

  /** A structural refusal is never premature: no continuation of the buffer is a well-formed header. */
  lemma StructuralRefusalIsSafe(hmac: Hmac, key: bytes, now: uint64, maxSkew: uint64, buf: bytes, more: bytes,
                                ts: uint64, t: Target, tag: Tag)
    requires Structural(Parse(hmac, key, now, maxSkew, buf))
    ensures !CarriesSigned(buf + more, ts, t, tag)
  {
    DecidedIsFinal(hmac, key, now, maxSkew, buf, more);
    JudgedIffWhole(hmac, key, now, maxSkew, buf + more);
  }

  /**
   * `Truncated { needed }` is honest: at least one byte, never past the 298-byte maximum, and any shorter
   * extension asks for exactly the bytes still missing.
   */
  lemma TruncatedIsHonest(hmac: Hmac, key: bytes, now: uint64, maxSkew: uint64, buf: bytes, more: bytes)
    requires IsTruncated(Parse(hmac, key, now, maxSkew, buf))
    ensures
      var n := Parse(hmac, key, now, maxSkew, buf).error.needed;
      && 1 <= n
      && |buf| + n <= MAX_WIRE_LEN
      && (|more| < n ==> Parse(hmac, key, now, maxSkew, buf + more) == Err(Truncated(n - |more|)))
  {
    if |buf| >= 10 {
      HostOfExtension(buf, more);
    }
  }

  /** Whether bytes are missing depends on neither the key nor the clock nor the skew budget. */
  lemma TruncationIgnoresSecrets(hmac: Hmac, key: bytes, now: uint64, maxSkew: uint64,
                                 hmac': Hmac, key': bytes, now': uint64, maxSkew': uint64, buf: bytes)
    ensures IsTruncated(Parse(hmac, key, now, maxSkew, buf)) ==>
              Parse(hmac', key', now', maxSkew', buf) == Parse(hmac, key, now, maxSkew, buf)
  {
  }

  // ---- honest headers ------------------------------------------------------

  /** The verdict on an honest client's header, for any server key and clock, whatever follows it. */
  lemma HonestVerdict(hmac: Hmac, clientKey: bytes, serverKey: bytes, now: uint64, maxSkew: uint64,
                      timestamp: uint64, t: Target, rest: bytes)
    requires Encodable(t)
    ensures
      var signed := SignedPart(timestamp, t);
      var header := EncodeRequest(hmac, clientKey, timestamp, t);
      Parse(hmac, serverKey, now, maxSkew, header + rest) ==
      if !WellFormed(t) then Err(DomainTooLong(|t.host.name|))
      else if hmac(clientKey, signed) != hmac(serverKey, signed) then Err(BadMac)
      else if AbsDiff(now, timestamp) > maxSkew then Err(Stale(maxSkew))
      else Ok(ParsedRequest(t, timestamp, |header|))
  {
    var signed := SignedPart(timestamp, t);
    var buf := EncodeRequest(hmac, clientKey, timestamp, t) + rest;
    if WellFormed(t) {
      SignedVerdict(hmac, serverKey, now, maxSkew, timestamp, t, hmac(clientKey, signed), buf);
    } else {
      assert signed[9..] == EncodeAddr(t);
      assert buf[9] == signed[9] == ATYP_DOMAIN && buf[10] == signed[10] == |t.host.name|;
    }
  }

  /** Every strict prefix of a well-formed header is reported as truncated, asking for no more than is missing. */
  lemma StrictPrefixIsTruncated(hmac: Hmac, clientKey: bytes, serverKey: bytes, now: uint64, maxSkew: uint64,
                                timestamp: uint64, t: Target, cut: nat)
    requires WellFormed(t) && cut < |EncodeRequest(hmac, clientKey, timestamp, t)|
    ensures
      var header := EncodeRequest(hmac, clientKey, timestamp, t);
      var v := Parse(hmac, serverKey, now, maxSkew, header[..cut]);
      IsTruncated(v) && v.error.needed <= |header| - cut
  {
    var header := EncodeRequest(hmac, clientKey, timestamp, t);
    var signed := SignedPart(timestamp, t);
    var buf := header[..cut];
    assert buf + header[cut..] == header;
    assert signed <= header;
    PrintedFieldsReparse(timestamp, t, header);
    if cut >= 10 {
      HostOfExtension(buf, header[cut..]);
    }
  }

  /** No well-formed header is a proper prefix of another, even one made with a different key. */
  lemma PrefixFree(hmac: Hmac, key1: bytes, ts1: uint64, t1: Target, key2: bytes, ts2: uint64, t2: Target)
    requires WellFormed(t1) && WellFormed(t2)
    requires EncodeRequest(hmac, key1, ts1, t1) <= EncodeRequest(hmac, key2, ts2, t2)
    ensures ts1 == ts2 && t1 == t2
    ensures EncodeRequest(hmac, key1, ts1, t1) == EncodeRequest(hmac, key2, ts2, t2)
  {
    var h1, h2 := EncodeRequest(hmac, key1, ts1, t1), EncodeRequest(hmac, key2, ts2, t2);
    assert SignedPart(ts1, t1) <= h1 && SignedPart(ts2, t2) <= h2;
    PrintedFieldsReparse(ts1, t1, h2);
    PrintedFieldsReparse(ts2, t2, h2);
  }

  /** The round trip succeeds exactly for names of at most 253 bytes and timestamps inside the window. */
  lemma RoundTripIff(hmac: Hmac, key: bytes, now: uint64, maxSkew: uint64, timestamp: uint64, t: Target)
    ensures
      var header := EncodeRequest(hmac, key, timestamp, t);
      Parse(hmac, key, now, maxSkew, header) == Ok(ParsedRequest(t, timestamp, |header|)) <==>
      (t.host.Domain? ==> |t.host.name| <= 253) && timestamp <= now + maxSkew && now <= timestamp + maxSkew
  {
    AcceptedIff(hmac, key, now, maxSkew, EncodeRequest(hmac, key, timestamp, t),
                ParsedRequest(t, timestamp, |EncodeRequest(hmac, key, timestamp, t)|));
  }

  /** The names the round trip loses: the one-byte length admits 254, the parser does not. */
  lemma RoundTripFailsAt254(hmac: Hmac, key: bytes, now: uint64, maxSkew: uint64, timestamp: uint64, port: uint16)
    ensures
      var name := seq(254, _ => 0x61);
      ValidUtf8(name) &&
      Parse(hmac, key, now, maxSkew, EncodeRequest(hmac, key, timestamp, Target(Domain(name), port)))
        == Err(DomainTooLong(254))
  {
    var name: bytes := seq(254, _ => 0x61);
    AsciiIsUtf8(name);
    var t := Target(Domain(name), port);
    HonestVerdict(hmac, key, key, now, maxSkew, timestamp, t, []);
    assert EncodeRequest(hmac, key, timestamp, t) + [] == EncodeRequest(hmac, key, timestamp, t);
  }

  /**
   * Past 255 bytes the length byte wraps and a header may name another destination: with a constant MAC a
   * 256-byte name is read back as the empty name.  So 255 is the limit every end-to-end claim carries.
   */
  lemma LengthByteWraps(key: bytes, timestamp: uint64)
    ensures
      var zeros := seq(32, _ => 0);
      var hmac: Hmac := (_, _) => zeros;
      var name := seq(256, _ => 0);
      && ValidUtf8(name)
      && Parse(hmac, key, timestamp, 0, EncodeRequest(hmac, key, timestamp, Target(Domain(name), 0)))
           == Ok(ParsedRequest(Target(Domain([]), 0), timestamp, 45))
  {
    var zeros: Tag := seq(32, _ => 0);
    var hmac: Hmac := (_, _) => zeros;
    var name: bytes := seq(256, _ => 0);
    AsciiIsUtf8(name);
    var long, short := Target(Domain(name), 0), Target(Domain([]), 0);
    var header := EncodeRequest(hmac, key, timestamp, long);
    var front := [VERSION] + Le64(timestamp) + [ATYP_DOMAIN, 0];
    assert SignedPart(timestamp, short) + zeros == front + seq(34, _ => 0);
    assert header == front + (name + [0, 0] + zeros);
    PrefixIff(SignedPart(timestamp, short) + zeros, header);
    assert header[..45] == front + seq(34, _ => 0);
    SignedVerdict(hmac, key, timestamp, 0, timestamp, short, zeros, header);
  }

  /** A whole honest header is never reported as truncated, and no strict prefix of it is accepted. */
  lemma HonestPrefix(hmac: Hmac, clientKey: bytes, serverKey: bytes, now: uint64, maxSkew: uint64,
                     timestamp: uint64, t: Target, buf: bytes)
    requires Encodable(t)
    requires buf <= EncodeRequest(hmac, clientKey, timestamp, t)
    ensures
      var header := EncodeRequest(hmac, clientKey, timestamp, t);
      var v := Parse(hmac, serverKey, now, maxSkew, buf);
      && (buf == header ==> !IsTruncated(v))
      && (v.Ok? ==> buf == header && v.value == ParsedRequest(t, timestamp, |header|))
  {
    var header := EncodeRequest(hmac, clientKey, timestamp, t);
    var v := Parse(hmac, serverKey, now, maxSkew, buf);
    HonestVerdict(hmac, clientKey, serverKey, now, maxSkew, timestamp, t, []);
    assert header + [] == header;
    assert buf + header[|buf|..] == header;
    if !IsTruncated(v) {
      DecidedIsFinal(hmac, serverKey, now, maxSkew, buf, header[|buf|..]);
      if v.Ok? && |buf| < |header| {
        StrictPrefixIsTruncated(hmac, clientKey, serverKey, now, maxSkew, timestamp, t, |buf|);
      }
    }
  }

  /** Once enough of an honest header has arrived to decide, the decision is the one the whole header gets: to
      accept, if and only if the name fits, the keys give the same tag and the timestamp is fresh. */
  lemma HonestPrefixDecides(hmac: Hmac, clientKey: bytes, serverKey: bytes, now: uint64, maxSkew: uint64,
                            timestamp: uint64, t: Target, buf: bytes)
    requires Encodable(t)
    requires buf <= EncodeRequest(hmac, clientKey, timestamp, t)
    ensures
      var signed := SignedPart(timestamp, t);
      var v := Parse(hmac, serverKey, now, maxSkew, buf);
      !IsTruncated(v) ==>
        (v.Ok? <==>
         && WellFormed(t)
         && hmac(clientKey, signed) == hmac(serverKey, signed)
         && AbsDiff(now, timestamp) <= maxSkew)
  {
    var header := EncodeRequest(hmac, clientKey, timestamp, t);
    if !IsTruncated(Parse(hmac, serverKey, now, maxSkew, buf)) {
      assert buf + header[|buf|..] == header + [];
      DecidedIsFinal(hmac, serverKey, now, maxSkew, buf, header[|buf|..]);
      HonestVerdict(hmac, clientKey, serverKey, now, maxSkew, timestamp, t, []);
    }
  }
}
