/** The SOCKS5 inbound: sections 4 and 5 of RFC 1928, as far as the client implements them. */
module Socks5 {
  import opened Words
  import opened Streams
  import Proto = TunnelProto

  datatype Addr =
    | IPv4(v4: Proto.Ipv4, port: uint16)
    | Domain(name: Utf8, port: uint16)
    | IPv6(v6: Proto.Ipv6, port: uint16)

  datatype Failure =
    | StreamFailed
    | GreetingVersion(ver: byte)
    | RequestVersion(ver: byte)
    | Command(cmd: byte)
    | AddressType(atyp: byte)
    | BadName

  /** What one handshake concludes, writes back and takes from the stream. */
  datatype Transcript = Transcript(result: Result<Addr, Failure>, replies: bytes, consumed: nat)

  const METHOD_REPLY: bytes := [0x05, 0x00]

  function StatusReply(status: byte): bytes {
    [0x05, status, 0x00, 0x01, 0, 0, 0, 0, 0, 0]
  }

  // ---- what the application sends ------------------------------------------

  /** Section 3 of RFC 1928: version, count, methods. */
  function Greeting(methods: bytes): bytes
    requires |methods| <= 255
  {
    [0x05, |methods|] + methods
  }

  predicate Sendable(a: Addr) {
    a.Domain? ==> |a.name| <= 255
  }

  function HostBytes(a: Addr): bytes
    requires Sendable(a)
  {
    match a
    case IPv4(v4, _) => [0x01] + v4
    case Domain(name, _) => [0x03, |name|] + name
    case IPv6(v6, _) => [0x04] + v6
  }

  /** Section 5 of RFC 1928: address type, address, port. */
  function Segment(a: Addr): bytes
    requires Sendable(a)
  {
    HostBytes(a) + Be16(a.port)
  }

  /** Section 4 of RFC 1928, CONNECT only; the reserved byte is read and ignored. */
  function ConnectRequest(reserved: byte, a: Addr): bytes
    requires Sendable(a)
  {
    [0x05, 0x01, reserved] + Segment(a)
  }

  // ---- what the client makes of it -----------------------------------------

  function Failed(f: Failure, replies: bytes, consumed: nat): Transcript {
    Transcript(Err(f), replies, consumed)
  }

  /** The address, on the bytes from its type on. */
  function Address(w: bytes): (t: Transcript)
    requires w != []
    ensures t.consumed <= |w|
  {
    if w[0] == 0x01 then
      if |w| < 7 then Failed(StreamFailed, [], |w|)
      else Transcript(Ok(IPv4(w[1..5], FromBe16(w[5], w[6]))), StatusReply(0x00), 7)
    else if w[0] == 0x03 then
      if |w| < 2 then Failed(StreamFailed, [], |w|)
      else
        var end: nat := 2 + w[1] as int;
        if |w| < end then Failed(StreamFailed, [], |w|)
        else if !ValidUtf8(w[2..end]) then Failed(BadName, [], end)
        else if |w| < end + 2 then Failed(StreamFailed, [], |w|)
        else Transcript(Ok(Domain(w[2..end], FromBe16(w[end], w[end + 1]))), StatusReply(0x00), end + 2)
    else if w[0] == 0x04 then
      if |w| < 19 then Failed(StreamFailed, [], |w|)
      else Transcript(Ok(IPv6(w[1..17], FromBe16(w[17], w[18]))), StatusReply(0x00), 19)
    else Failed(AddressType(w[0]), StatusReply(0x08), 1)
  }

  /** The second half of the handshake, on the bytes after the greeting. */
  function Request(q: bytes): (t: Transcript)
    ensures t.consumed <= |q|
  {
    if |q| < 1 then Failed(StreamFailed, [], |q|)
    else if q[0] != 0x05 then Failed(RequestVersion(q[0]), [], 1)
    else if |q| < 2 then Failed(StreamFailed, [], |q|)
    else if q[1] != 0x01 then Failed(Command(q[1]), StatusReply(0x07), 2)
    else if |q| < 4 then Failed(StreamFailed, [], |q|)
    else
      var t := Address(q[3..]);
      Transcript(t.result, t.replies, 3 + t.consumed)
  }

  function Transact(s: bytes): (t: Transcript)
    ensures t.consumed <= |s|
  {
    if |s| < 1 then Failed(StreamFailed, [], |s|)
    else if s[0] != 0x05 then Failed(GreetingVersion(s[0]), [], 1)
    else if |s| < 2 then Failed(StreamFailed, [], |s|)
    else
      var g: nat := 2 + s[1] as int;
      if |s| < g then Failed(StreamFailed, [], |s|)
      else
        var t := Request(s[g..]);
        Transcript(t.result, METHOD_REPLY + t.replies, g + t.consumed)
  }

  method SendReply(stream: Connection, status: byte) returns (ok: bool)
    modifies stream`sent
    ensures ok ==> stream.sent == old(stream.sent) + StatusReply(status)
    ensures !ok ==> !stream.reliable
    ensures old(stream.sent) <= stream.sent <= old(stream.sent) + StatusReply(status)
  {
    ok := stream.WriteAll([0x05, status, 0x00, 0x01, 0, 0, 0, 0, 0, 0]);
  }

  method ReadByte(stream: Connection) returns (b: Option<byte>)
    modifies stream`incoming
    ensures b.Some? ==> old(stream.incoming) == [b.value] + stream.incoming
    ensures b.None? ==> !stream.reliable || old(stream.incoming) == []
  {
    var got := stream.ReadExact(1);
    return if got.None? then None else Some(got.value[0]);
  }

  method ReadPort(stream: Connection) returns (p: Option<uint16>)
    modifies stream`incoming
    ensures p.Some? ==>
      && |old(stream.incoming)| >= 2
      && p.value == FromBe16(old(stream.incoming)[0], old(stream.incoming)[1])
      && stream.incoming == old(stream.incoming)[2..]
    ensures p.None? ==> !stream.reliable || |old(stream.incoming)| < 2
  {
    var got := stream.ReadExact(2);
    return if got.None? then None else Some(FromBe16(got.value[0], got.value[1]));
  }

  /** Reads the address that follows the type byte. */
  method ReadAddr(stream: Connection, atyp: byte) returns (r: Result<Addr, Failure>)
    modifies stream
    ensures
      var t := Address([atyp] + old(stream.incoming));
      stream.reliable || r != Err(StreamFailed) ==>
        && r == t.result
        && stream.sent == old(stream.sent) + (if r.Ok? then [] else t.replies)
        && (r != Err(StreamFailed) ==> stream.incoming == ([atyp] + old(stream.incoming))[t.consumed..])
    ensures old(stream.sent) <= stream.sent <= old(stream.sent) + Address([atyp] + old(stream.incoming)).replies
    ensures r.Ok? ==> stream.sent == old(stream.sent)
  {
    ghost var w := [atyp] + stream.incoming;
    if atyp == 0x01 {
      var a := stream.ReadExact(4);
      if a.None? { return Err(StreamFailed); }
      assert a.value == w[1..5] && stream.incoming == w[5..];
      var port := ReadPort(stream);
      if port.None? { return Err(StreamFailed); }
      return Ok(IPv4(a.value, port.value));
    } else if atyp == 0x03 {
      var len := ReadByte(stream);
      if len.None? { return Err(StreamFailed); }
      assert len.value == w[1] && stream.incoming == w[2..];
      var name := stream.ReadExact(len.value);
      if name.None? { return Err(StreamFailed); }
      assert name.value == w[2..2 + w[1] as int] && stream.incoming == w[2 + w[1] as int..];
      if !ValidUtf8(name.value) { return Err(BadName); }
      var port := ReadPort(stream);
      if port.None? { return Err(StreamFailed); }
      return Ok(Domain(name.value, port.value));
    } else if atyp == 0x04 {
      var a := stream.ReadExact(16);
      if a.None? { return Err(StreamFailed); }
      assert a.value == w[1..17] && stream.incoming == w[17..];
      var port := ReadPort(stream);
      if port.None? { return Err(StreamFailed); }
      return Ok(IPv6(a.value, port.value));
    } else {
      var ok := SendReply(stream, 0x08);
      return if ok then Err(AddressType(atyp)) else Err(StreamFailed);
    }
  }

  /** The fixed part of the request, up to and including the address type. */
  method ReadCommand(stream: Connection) returns (r: Result<byte, Failure>)
    modifies stream
    ensures
      var q := old(stream.incoming);
      && (r.Ok? ==>
        && |q| >= 4 && q[0] == 0x05 && q[1] == 0x01 && r.value == q[3]
        && stream.incoming == q[4..] && stream.sent == old(stream.sent))
      && (r.Err? && (stream.reliable || r != Err(StreamFailed)) ==>
        && (|q| < 4 || q[0] != 0x05 || q[1] != 0x01)
        && Request(q).result == Err(r.error)
        && stream.sent == old(stream.sent) + Request(q).replies
        && (r != Err(StreamFailed) ==> stream.incoming == q[Request(q).consumed..]))
    ensures old(stream.sent) <= stream.sent <= old(stream.sent) + Request(old(stream.incoming)).replies
  {
    ghost var q := stream.incoming;
    var ver := ReadByte(stream);
    if ver.None? { return Err(StreamFailed); }
    if ver.value != 0x05 { return Err(RequestVersion(ver.value)); }
    var cmd := ReadByte(stream);
    if cmd.None? { return Err(StreamFailed); }
    assert stream.incoming == q[2..];
    if cmd.value != 0x01 {
      var ok := SendReply(stream, 0x07);
      return if ok then Err(Command(cmd.value)) else Err(StreamFailed);
    }
    var reserved := ReadByte(stream);
    if reserved.None? { return Err(StreamFailed); }
    assert stream.incoming == q[3..];
    var atyp := ReadByte(stream);
    if atyp.None? { return Err(StreamFailed); }
    assert stream.incoming == q[4..];
    return Ok(atyp.value);
  }

  /** The request half, after the method reply. */
  method ReadRequest(stream: Connection) returns (r: Result<Addr, Failure>)
    modifies stream
    ensures
      var t := Request(old(stream.incoming));
      stream.reliable || r != Err(StreamFailed) ==>
        && r == t.result
        && stream.sent == old(stream.sent) + t.replies
        && (r != Err(StreamFailed) ==> stream.incoming == old(stream.incoming)[t.consumed..])
    ensures old(stream.sent) <= stream.sent <= old(stream.sent) + Request(old(stream.incoming)).replies
  {
    ghost var q := stream.incoming;
    var atyp := ReadCommand(stream);
    if atyp.Err? { return Err(atyp.error); }
    assert q[3..] == [atyp.value] + stream.incoming;
    r := ReadAddr(stream, atyp.value);
    assert stream.reliable || r != Err(StreamFailed) ==> r == Address(q[3..]).result;
    if r.Ok? {
      var ok := SendReply(stream, 0x00);
      if !ok { return Err(StreamFailed); }
    }
  }

  /** The length of a whole greeting, when there is one. */
  function GreetingLen(s: bytes): Option<nat> {
    if |s| >= 2 && s[0] == 0x05 && |s| >= 2 + s[1] as int then Some(2 + s[1] as int) else None
  }

  /** The greeting half: version, methods (ignored), and the method reply. */
  method ReadGreeting(stream: Connection) returns (failure: Option<Failure>)
    modifies stream
    ensures failure.None? ==>
      && var g := GreetingLen(old(stream.incoming));
      && g.Some?
      && stream.incoming == old(stream.incoming)[g.value..]
      && stream.sent == old(stream.sent) + METHOD_REPLY
    ensures
      var t := Transact(old(stream.incoming));
      failure.Some? && (stream.reliable || failure != Some(StreamFailed)) ==>
        && GreetingLen(old(stream.incoming)).None?
        && t.result == Err(failure.value)
        && stream.sent == old(stream.sent) + t.replies
        && (failure != Some(StreamFailed) ==> stream.incoming == old(stream.incoming)[t.consumed..])
    ensures old(stream.sent) <= stream.sent <= old(stream.sent) + METHOD_REPLY
    ensures old(stream.sent) <= stream.sent <= old(stream.sent) + Transact(old(stream.incoming)).replies
  {
    ghost var s := stream.incoming;
    var ver := ReadByte(stream);
    if ver.None? { return Some(StreamFailed); }
    if ver.value != 0x05 { return Some(GreetingVersion(ver.value)); }
    var nmethods := ReadByte(stream);
    if nmethods.None? { return Some(StreamFailed); }
    assert stream.incoming == s[2..];
    var methods := stream.ReadExact(nmethods.value);
    if methods.None? { return Some(StreamFailed); }
    assert stream.incoming == s[2 + s[1] as int..];
    var ok := stream.WriteAll([0x05, 0x00]);
    if !ok { return Some(StreamFailed); }
    return None;
  }

  /** The handshake: it behaves as `Transact` says of the whole stream, or fails on an I/O error having written
      a prefix of those replies. */
  method Handshake(stream: Connection) returns (r: Result<Addr, Failure>)
    modifies stream
    ensures
      var t := Transact(old(stream.incoming));
      stream.reliable || r != Err(StreamFailed) ==>
        && r == t.result
        && stream.sent == old(stream.sent) + t.replies
        && (r != Err(StreamFailed) ==> stream.incoming == old(stream.incoming)[t.consumed..])
    ensures old(stream.sent) <= stream.sent <= old(stream.sent) + Transact(old(stream.incoming)).replies
  {
    ghost var s, sent := stream.incoming, stream.sent;
    var failure := ReadGreeting(stream);
    if failure.Some? { return Err(failure.value); }
    ghost var q := stream.incoming;
    AfterGreeting(s);
    r := ReadRequest(stream);
    WrittenAfter(sent, METHOD_REPLY, stream.sent, Request(q).replies);
    assert Transact(s).replies == METHOD_REPLY + Request(q).replies;
    assert s[Transact(s).consumed..] == q[Request(q).consumed..];
  }

  lemma AfterGreeting(s: bytes)
    requires GreetingLen(s).Some?
    ensures
      var g := GreetingLen(s).value;
      var t := Request(s[g..]);
      Transact(s) == Transcript(t.result, METHOD_REPLY + t.replies, g + t.consumed)
  {
  }

  lemma WrittenAfter(before: bytes, a: bytes, sent: bytes, b: bytes)
    requires before + a <= sent <= before + a + b
    ensures before <= sent <= before + (a + b)
    ensures sent == before + a + b <==> sent == before + (a + b)
  {
    assert before + a + b == before + (a + b);
  }

  // ---- what the handshake accepts ------------------------------------------

  lemma PortReprints(q: bytes, at: nat)
    requires at + 2 <= |q|
    ensures q[at..at + 2] == Be16(FromBe16(q[at], q[at + 1]))
  {
    var port := FromBe16(q[at], q[at + 1]);
    assert port / 256 == q[at] && port % 256 == q[at + 1];
  }

  lemma AcceptedHostReprints(w: bytes)
    requires w != [] && Address(w).result.Ok?
    ensures
      var a, n := Address(w).result.value, Address(w).consumed;
      Sendable(a) && n >= 2 && w[..n - 2] == HostBytes(a) && a.port == FromBe16(w[n - 2], w[n - 1])
  {
    match Address(w).result.value {
      case IPv4(v4, _) => assert w[..5] == [0x01] + v4;
      case Domain(name, _) => assert w[..2 + |name|] == [0x03, |name|] + name;
      case IPv6(v6, _) => assert w[..17] == [0x04] + v6;
    }
  }

  lemma AcceptedSegmentReprints(w: bytes)
    requires w != [] && Address(w).result.Ok?
    ensures
      var a := Address(w).result.value;
      Sendable(a) && w[..Address(w).consumed] == Segment(a)
  {
    var n := Address(w).consumed;
    AcceptedHostReprints(w);
    PortReprints(w, n - 2);
    assert w[..n] == w[..n - 2] + w[n - 2..n];
  }

  lemma PrintedHostFields(a: Addr, w: bytes)
    requires Sendable(a) && HostBytes(a) <= w
    ensures w != []
    ensures
      var h := HostBytes(a);
      |w| >= |h| + 2 ==>
        var t := Address(w);
        t.consumed == |h| + 2 && t.replies == StatusReply(0x00)
        && t.result == Ok(a.(port := FromBe16(w[|h|], w[|h| + 1])))
  {
    var h := HostBytes(a);
    PrefixIff(h, w);
    assert w[0] == h[0];
    match a {
      case IPv4(v4, _) => assert w[1..5] == h[1..] == v4;
      case Domain(name, _) =>
        assert w[1] == h[1] == |name|;
        assert w[2..|h|] == h[2..] == name;
      case IPv6(v6, _) => assert w[1..17] == h[1..] == v6;
    }
  }

  lemma PrintedSegmentAccepted(a: Addr, w: bytes)
    requires Sendable(a) && Segment(a) <= w
    ensures w != [] && Address(w).result == Ok(a) && Address(w).consumed == |Segment(a)|
  {
    var h, port := HostBytes(a), Be16(a.port);
    var seg := Segment(a);
    assert w[|h|] == seg[|h|] == port[0];
    assert w[|h| + 1] == seg[|h| + 1] == port[1];
    assert seg[..|h|] == h;
    PrefixIff(seg, w);
    assert h == w[..|h|];
    PrefixIff(h, w);
    PrintedHostFields(a, w);
  }

  lemma AcceptedRequestReprints(q: bytes)
    requires Request(q).result.Ok?
    ensures
      var a := Request(q).result.value;
      Sendable(a) && q[..Request(q).consumed] == ConnectRequest(q[2], a)
  {
    AcceptedSegmentReprints(q[3..]);
    GluePrefix(q, 3, Address(q[3..]).consumed);
    assert q[..3] == [0x05, 0x01, q[2]];
  }

  lemma PrintedRequestAccepted(reserved: byte, a: Addr, q: bytes)
    requires Sendable(a) && ConnectRequest(reserved, a) <= q
    ensures Request(q).result == Ok(a) && Request(q).consumed == |ConnectRequest(reserved, a)| && q[2] == reserved
  {
    var r, seg := ConnectRequest(reserved, a), Segment(a);
    assert q[0] == r[0] && q[1] == r[1] && q[2] == r[2];
    assert r[3..] == seg;
    PrefixIff(r, q);
    assert seg == q[3..][..|seg|];
    PrefixIff(seg, q[3..]);
    PrintedSegmentAccepted(a, q[3..]);
  }

  ghost predicate OpensWith(s: bytes, methods: bytes, reserved: byte, a: Addr, n: nat) {
    && |methods| <= 255 && Sendable(a)
    && Greeting(methods) + ConnectRequest(reserved, a) <= s
    && n == |Greeting(methods) + ConnectRequest(reserved, a)|
  }

  lemma OpeningIsAccepted(s: bytes, methods: bytes, reserved: byte, a: Addr, n: nat)
    requires OpensWith(s, methods, reserved, a, n)
    ensures Transact(s).result == Ok(a) && Transact(s).consumed == n
  {
    var greeting, request := Greeting(methods), ConnectRequest(reserved, a);
    var g, opening := |greeting|, greeting + request;
    PrefixIff(opening, s);
    assert s[0] == opening[0] == 0x05 && s[1] == opening[1] == |methods|;
    GluePrefix(s, g, |request|);
    assert opening[g..] == request == s[g..][..|request|];
    PrefixIff(request, s[g..]);
    PrintedRequestAccepted(reserved, a, s[g..]);
  }

  lemma GreetingReprints(s: bytes)
    requires GreetingLen(s).Some?
    ensures var g := GreetingLen(s).value; Greeting(s[2..g]) == s[..g]
  {
    var g := GreetingLen(s).value;
    assert s[..g] == [s[0], s[1]] + s[2..g];
  }

  lemma AcceptedHasOpening(s: bytes) returns (methods: bytes, reserved: byte)
    requires Transact(s).result.Ok?
    ensures OpensWith(s, methods, reserved, Transact(s).result.value, Transact(s).consumed)
  {
    var a := Transact(s).result.value;
    var g := GreetingLen(s).value;
    methods, reserved := s[2..g], s[g..][2];
    GreetingReprints(s);
    AcceptedRequestReprints(s[g..]);
    GluedIsPrefix(s, Greeting(methods), ConnectRequest(reserved, a));
  }

  /** Success means exactly one thing: the stream opens with a greeting and a CONNECT request for `a`, and
      those bytes and no others are consumed. */
  lemma HandshakeOkIff(s: bytes, a: Addr, n: nat)
    ensures
      Transact(s).result == Ok(a) && Transact(s).consumed == n <==>
      exists methods, reserved :: OpensWith(s, methods, reserved, a, n)
    ensures Transact(s).result.Ok? ==> Transact(s).replies == METHOD_REPLY + StatusReply(0x00)
  {
    if Transact(s).result == Ok(a) && Transact(s).consumed == n {
      var methods, reserved := AcceptedHasOpening(s);
    }
    forall methods, reserved | OpensWith(s, methods, reserved, a, n)
      ensures Transact(s).result == Ok(a) && Transact(s).consumed == n
    {
      OpeningIsAccepted(s, methods, reserved, a, n);
    }
  }

  /**
   * What is written back says what happened: nothing without a whole greeting, then the method reply and at
   * most one status reply, 0 for success, 7 for a command other than CONNECT, 8 for an unknown address type.
   * The other failures are silent, so those after the greeting cannot be told apart.
   */
  lemma RepliesMeanResult(s: bytes)
    ensures
      var t := Transact(s);
      && t.replies == (match t.result
           case Ok(_) => [5, 0, 5, 0, 0, 1, 0, 0, 0, 0, 0, 0]
           case Err(Command(_)) => [5, 0, 5, 7, 0, 1, 0, 0, 0, 0, 0, 0]
           case Err(AddressType(_)) => [5, 0, 5, 8, 0, 1, 0, 0, 0, 0, 0, 0]
           case Err(RequestVersion(_)) => [5, 0]
           case Err(BadName) => [5, 0]
           case Err(StreamFailed) => if GreetingLen(s).Some? then [5, 0] else []
           case Err(GreetingVersion(_)) => [])
      && (t.replies == [] <==> GreetingLen(s).None?)
  {
    if GreetingLen(s).Some? {
      AfterGreeting(s);
      var r := Request(s[GreetingLen(s).value..]).replies;
      RequestRepliesMeanResult(s[GreetingLen(s).value..]);
      assert Transact(s).replies == [5, 0] + r;
    } else {
      assert Transact(s).replies == [];
    }
  }

  lemma RequestRepliesMeanResult(q: bytes)
    ensures
      var t := Request(q);
      t.replies == match t.result
        case Ok(_) => [5, 0, 0, 1, 0, 0, 0, 0, 0, 0]
        case Err(Command(_)) => [5, 7, 0, 1, 0, 0, 0, 0, 0, 0]
        case Err(AddressType(_)) => [5, 8, 0, 1, 0, 0, 0, 0, 0, 0]
        case _ => []
    ensures !(Request(q).result.Err? && Request(q).result.error.GreetingVersion?)
  {
  }

  /** The greeting is all there, and ends at `g`. */
  predicate Greeted(s: bytes, g: nat) {
    |s| >= 2 && s[0] == 5 && g == 2 + s[1] as int && |s| >= g
  }

  /**
   * Which failure, byte by byte, and how much of the stream it has taken.  `g` is the offset of the request.
   * Everything else that is not a whole greeting and CONNECT request is a stream that ended too early.
   */
  lemma FailureIff(s: bytes, g: nat)
    requires |s| >= 2 ==> g == 2 + s[1] as int
    ensures
      var t := Transact(s);
      && (forall v: byte :: t.result == Err(GreetingVersion(v)) <==> |s| >= 1 && s[0] != 5 && v == s[0])
      && (forall v: byte :: t.result == Err(RequestVersion(v)) <==>
            Greeted(s, g) && |s| >= g + 1 && s[g] != 5 && v == s[g])
      && (forall cmd: byte :: t.result == Err(Command(cmd)) <==>
            Greeted(s, g) && |s| >= g + 2 && s[g] == 5 && s[g + 1] != 1 && cmd == s[g + 1])
      && (forall atyp: byte :: t.result == Err(AddressType(atyp)) <==>
            Greeted(s, g) && |s| >= g + 4 && s[g] == 5 && s[g + 1] == 1 && s[g + 3] !in {1, 3, 4} && atyp == s[g + 3])
      && (t.result == Err(BadName) <==>
            && Greeted(s, g) && |s| >= g + 5 && s[g] == 5 && s[g + 1] == 1 && s[g + 3] == 3
            && |s| >= g + 5 + s[g + 4] as int && !ValidUtf8(s[g + 5..g + 5 + s[g + 4] as int]))
      && (t.result.Err? ==> t.consumed == match t.result.error
            case GreetingVersion(_) => 1
            case RequestVersion(_) => g + 1
            case Command(_) => g + 2
            case AddressType(_) => g + 4
            case BadName => if |s| >= g + 5 then g + 5 + s[g + 4] as int else 0
            case StreamFailed => |s|)
  {
    if Greeted(s, g) {
      RequestFailureIff(s[g..]);
      var q := s[g..];
      assert forall i :: 0 <= i < |q| ==> q[i] == s[g + i];
      if |q| >= 5 && |q| >= 5 + q[4] as int {
        assert q[5..5 + q[4] as int] == s[g + 5..g + 5 + s[g + 4] as int];
      }
    }
  }

  lemma RequestFailureIff(q: bytes)
    ensures
      var t := Request(q);
      && !(t.result.Err? && t.result.error.GreetingVersion?)
      && (forall v: byte :: t.result == Err(RequestVersion(v)) <==> |q| >= 1 && q[0] != 5 && v == q[0])
      && (forall cmd: byte :: t.result == Err(Command(cmd)) <==> |q| >= 2 && q[0] == 5 && q[1] != 1 && cmd == q[1])
      && (forall atyp: byte :: t.result == Err(AddressType(atyp)) <==>
            |q| >= 4 && q[0] == 5 && q[1] == 1 && q[3] !in {1, 3, 4} && atyp == q[3])
      && (t.result == Err(BadName) <==>
            && |q| >= 5 && q[0] == 5 && q[1] == 1 && q[3] == 3
            && |q| >= 5 + q[4] as int && !ValidUtf8(q[5..5 + q[4] as int]))
      && (t.result.Err? ==> t.consumed == match t.result.error
            case RequestVersion(_) => 1
            case Command(_) => 2
            case AddressType(_) => 4
            case BadName => if |q| >= 5 then 5 + q[4] as int else 0
            case _ => |q|)
  {
    if |q| >= 4 {
      var w := q[3..];
      assert forall i :: 0 <= i < |w| ==> w[i] == q[3 + i];
      if |w| >= 2 && |w| >= 2 + w[1] as int {
        assert w[2..2 + w[1] as int] == q[5..5 + q[4] as int];
      }
    }
  }

  lemma AddressDecidedIsFinal(w: bytes, more: bytes)
    requires w != [] && Address(w).result != Err(StreamFailed)
    ensures Address(w + more) == Address(w)
  {
    var x := w + more;
    if w[0] == 0x01 {
      assert x[1..5] == w[1..5];
    } else if w[0] == 0x03 {
      var end := 2 + w[1] as int;
      assert x[2..end] == w[2..end];
    } else if w[0] == 0x04 {
      assert x[1..17] == w[1..17];
    }
  }

  lemma RequestDecidedIsFinal(q: bytes, more: bytes)
    requires Request(q).result != Err(StreamFailed)
    ensures Request(q + more) == Request(q)
  {
    if |q| >= 4 && q[0] == 0x05 && q[1] == 0x01 {
      assert (q + more)[3..] == q[3..] + more;
      AddressDecidedIsFinal(q[3..], more);
    }
  }

  /** The handshake never looks past its request: bytes that follow change nothing. */
  lemma HandshakeIgnoresWhatFollows(s: bytes, more: bytes)
    requires Transact(s).result != Err(StreamFailed)
    ensures Transact(s + more) == Transact(s)
  {
    if s[0] == 0x05 {
      var g: nat := 2 + s[1] as int;
      assert (s + more)[g..] == s[g..] + more;
      RequestDecidedIsFinal(s[g..], more);
    }
  }

  // ---- onto the tunnel -----------------------------------------------------

  /** `socks_to_target`. */
  function SocksToTarget(a: Addr): Proto.Target {
    match a
    case IPv4(v4, port) => Proto.Target(Proto.V4(v4), port)
    case Domain(name, port) => Proto.Target(Proto.Domain(name), port)
    case IPv6(v6, port) => Proto.Target(Proto.V6(v6), port)
  }

  /** The tunnel header carries the application's address bytes verbatim, at offset 9. */
  lemma AddressBytesSurvive(hmac: Proto.Hmac, key: bytes, timestamp: uint64, a: Addr)
    requires Sendable(a)
    ensures
      var header := Proto.EncodeRequest(hmac, key, timestamp, SocksToTarget(a));
      |header| == 9 + |Segment(a)| + Proto.MAC_LEN && header[9..9 + |Segment(a)|] == Segment(a)
  {
    var t := SocksToTarget(a);
    assert Proto.EncodeAddr(t) == Segment(a);
    assert Proto.SignedPart(timestamp, t)[9..] == Segment(a);
  }

  /**
   * End to end: whatever the application asked for over SOCKS5, an exit node with the same key and a close
   * clock decodes that very destination; the only requests lost are names of 254 or 255 bytes.
   */
  lemma DestinationSurvives(s: bytes, hmac: Proto.Hmac, key: bytes, timestamp: uint64, now: uint64, maxSkew: uint64,
                            rest: bytes)
    requires Transact(s).result.Ok? && AbsDiff(now, timestamp) <= maxSkew
    ensures
      var a := Transact(s).result.value;
      var header := Proto.EncodeRequest(hmac, key, timestamp, SocksToTarget(a));
      Proto.Parse(hmac, key, now, maxSkew, header + rest) ==
      if a.Domain? && |a.name| > 253 then Err(Proto.DomainTooLong(|a.name|))
      else Ok(Proto.ParsedRequest(SocksToTarget(a), timestamp, |header|))
  {
    var a := Transact(s).result.value;
    HandshakeOkIff(s, a, Transact(s).consumed);
    Proto.HonestVerdict(hmac, key, key, now, maxSkew, timestamp, SocksToTarget(a), rest);
  }
}
