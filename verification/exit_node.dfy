/** The exit node's side of one tunnel: read the header, dial, answer, forward what came early. */
module ExitNode {
  import opened Words
  import opened TunnelProto
  import opened Streams

  const MAX_HEADER: nat := 512

  /** The outside world as the exit node sees it. */
  class Network {
    const reachable: Target -> bool
    var dialed: seq<Target>
    var delivered: bytes    // written to the destination

    constructor (reachable: Target -> bool)
      ensures this.reachable == reachable && dialed == [] && delivered == []
    {
      this.reachable := reachable;
      dialed, delivered := [], [];
    }

    method Connect(t: Target) returns (ok: bool)
      modifies this`dialed
      ensures dialed == old(dialed) + [t] && ok == reachable(t)
    {
      dialed := dialed + [t];
      ok := reachable(t);
    }

    method Deliver(data: bytes)
      modifies this`delivered
      ensures delivered == old(delivered) + data
    {
      delivered := delivered + data;
    }
  }

  datatype Outcome =
    | Closed                        // the stream ended before a whole header
    | Rejected(error: ProtoError)
    | DialFailed(request: ParsedRequest)
    | Relaying(request: ParsedRequest)
    | IoError

  /** What the exit node concludes from the whole stream, read at once by a clock that shows `now`. */
  function Conclude(hmac: Hmac, key: bytes, now: uint64, maxSkew: uint64, reachable: Target -> bool, stream: bytes)
    : Outcome
  {
    match Parse(hmac, key, now, maxSkew, stream)
    case Ok(p) => if reachable(p.target) then Relaying(p) else DialFailed(p)
    case Err(Truncated(_)) => Closed
    case Err(e) => Rejected(e)
  }

  /**
   * The conclusions by what the stream holds: a request is served exactly when the stream opens with the
   * server's own encoding of it and is fresh, and whether it is then relayed is a matter of the dial alone.
   */
  lemma ConcludeIff(hmac: Hmac, key: bytes, now: uint64, maxSkew: uint64, reachable: Target -> bool, stream: bytes,
                    p: ParsedRequest)
    ensures
      var o := Conclude(hmac, key, now, maxSkew, reachable, stream);
      var accepted :=
        && (p.target.host.Domain? ==> |p.target.host.name| <= 253)
        && EncodeRequest(hmac, key, p.timestamp, p.target) <= stream
        && p.consumed == |EncodeRequest(hmac, key, p.timestamp, p.target)|
        && p.timestamp <= now + maxSkew && now <= p.timestamp + maxSkew;
      && (o == Relaying(p) <==> accepted && reachable(p.target))
      && (o == DialFailed(p) <==> accepted && !reachable(p.target))
      && (o == Closed <==> IsTruncated(Parse(hmac, key, now, maxSkew, stream)))
      && (o.Rejected? ==> Parse(hmac, key, now, maxSkew, stream) == Err(o.error))
      && o != IoError
  {
    AcceptedIff(hmac, key, now, maxSkew, stream, p);
  }

  /** The one reply byte each conclusion sends. */
  function Reply(o: Outcome): bytes {
    match o
    case Relaying(_) => [REPLY_OK]
    case DialFailed(_) => [REPLY_DIAL_FAIL]
    case Rejected(_) => [REPLY_AUTH_FAIL]
    case _ => []
  }

  function Dials(o: Outcome): seq<Target> {
    if o.Relaying? || o.DialFailed? then [o.request.target] else []
  }

  datatype HeaderRead = Decided(verdict: Verdict) | Ended | Broken

  /**
   * The read loop.  `clock(i)` is what the clock shows at the i-th parse; `parses` counts them, so
   * `clock(parses - 1)` is the reading that decided.  However the stream is cut into reads, the verdict is
   * the one `Parse` gives on the whole stream; the stream ends the loop exactly when that is `Truncated`.
   */
  method ReadHeader(inbound: Connection, hmac: Hmac, key: bytes, clock: nat -> uint64, maxSkew: uint64)
    returns (r: HeaderRead, buf: bytes, parses: nat)
    modifies inbound`incoming
    ensures parses >= 1
    ensures old(inbound.incoming) == buf + inbound.incoming
    ensures
      var now := clock(parses - 1);
      var whole := Parse(hmac, key, now, maxSkew, old(inbound.incoming));
      && (r.Decided? ==> r.verdict == whole == Parse(hmac, key, now, maxSkew, buf) && !IsTruncated(whole))
      && (r.Ended? ==> IsTruncated(whole) && inbound.incoming == [])
      && (r.Broken? ==> !inbound.reliable)
  {
    buf, parses := [], 0;
    ghost var stream := inbound.incoming;
    while true
      invariant stream == buf + inbound.incoming
      decreases MAX_WIRE_LEN - |buf|
    {
      var verdict := ParseRequest(hmac, key, clock(parses), maxSkew, buf);
      parses := parses + 1;
      if !IsTruncated(verdict) {
        DecidedIsFinal(hmac, key, clock(parses - 1), maxSkew, buf, inbound.incoming);
        return Decided(verdict), buf, parses;
      }
      TruncatedIsHonest(hmac, key, clock(parses - 1), maxSkew, buf, []);
      if |buf| >= MAX_HEADER {
        assert false;   // the "header exceeded maximum length" branch: a truncated header has fewer than 298 bytes
      }
      var chunk := inbound.Read(MAX_HEADER);
      if chunk.None? { return Broken, buf, parses; }
      if chunk.value == [] {
        assert buf == stream;
        return Ended, buf, parses;
      }
      buf := buf + chunk.value;
    }
  }

  lemma ConsumedIsWithin(hmac: Hmac, key: bytes, now: uint64, maxSkew: uint64, buf: bytes)
    ensures
      var v := Parse(hmac, key, now, maxSkew, buf);
      v.Ok? ==> v.value.consumed <= |buf|
  {
  }

  lemma DropConcat(a: bytes, b: bytes, n: nat)
    requires n <= |a|
    ensures (a + b)[n..] == a[n..] + b
  {
  }

  /** Dial, answer, and forward the part of `buf` that is already payload. */
  method Serve(inbound: Connection, net: Network, p: ParsedRequest, buf: bytes) returns (o: Outcome)
    requires p.consumed <= |buf|
    modifies inbound`sent, net
    ensures net.dialed == old(net.dialed) + [p.target]
    ensures o == if !net.reachable(p.target) then DialFailed(p) else if o == IoError then IoError else Relaying(p)
    ensures o == IoError ==> !inbound.reliable
    ensures o == Relaying(p) || inbound.reliable ==> inbound.sent == old(inbound.sent) + Reply(o)
    ensures
      var reply := if net.reachable(p.target) then REPLY_OK else REPLY_DIAL_FAIL;
      old(inbound.sent) <= inbound.sent <= old(inbound.sent) + [reply]
    ensures net.delivered == old(net.delivered) + if o == Relaying(p) then buf[p.consumed..] else []
  {
    var connected := net.Connect(p.target);
    if !connected {
      var _ := inbound.WriteAll([REPLY_DIAL_FAIL]);
      return DialFailed(p);
    }
    var told := inbound.WriteAll([REPLY_OK]);
    if !told { return IoError; }
    var leftover := buf[p.consumed..];
    if leftover != [] {
      net.Deliver(leftover);
    }
    return Relaying(p);
  }

  /** The whole of one tunnel up to the relay: read, dial, answer, forward what came early. */
  method Handle(inbound: Connection, net: Network, hmac: Hmac, key: bytes, clock: nat -> uint64, maxSkew: uint64)
    returns (o: Outcome, parses: nat)
    modifies inbound, net
    ensures parses >= 1
    // However the stream was cut into reads, the outcome is the one the whole stream has.
    ensures o != IoError ==> o == Conclude(hmac, key, clock(parses - 1), maxSkew, net.reachable, old(inbound.incoming))
    ensures o == IoError ==> !inbound.reliable
    // Exactly the reply that outcome calls for; a refusal is sent on a best-effort basis.
    ensures o.Relaying? || inbound.reliable ==> inbound.sent == old(inbound.sent) + Reply(o)
    ensures o != IoError ==> old(inbound.sent) <= inbound.sent <= old(inbound.sent) + Reply(o)
    ensures inbound.reliable ==>
      inbound.sent == old(inbound.sent) + match o
        case Relaying(_) => [0x00]
        case Rejected(_) => [0x01]
        case DialFailed(_) => [0x02]
        case _ => []
    // Nothing is dialed before a header is accepted, and then only the target it names.
    ensures o != IoError ==> net.dialed == old(net.dialed) + Dials(o)
    ensures o.Relaying? || o.DialFailed? ==>
      net.dialed == old(net.dialed) + [o.request.target] && net.reachable(o.request.target) == o.Relaying?
    ensures o.Closed? || o.Rejected? ==> net.dialed == old(net.dialed)
    ensures o == IoError ==>
      || (net.dialed == old(net.dialed) && inbound.sent == old(inbound.sent))
      || (var c := Conclude(hmac, key, clock(parses - 1), maxSkew, net.reachable, old(inbound.incoming));
          c.Relaying? && net.dialed == old(net.dialed) + Dials(c)
          && old(inbound.sent) <= inbound.sent <= old(inbound.sent) + Reply(c))
    // Every byte after the header reaches the destination or is still unread, once and in order.
    ensures old(net.delivered) <= net.delivered
    ensures o.Relaying? ==>
      && o.request.consumed <= |old(inbound.incoming)|
      && net.delivered + inbound.incoming == old(net.delivered) + old(inbound.incoming)[o.request.consumed..]
    ensures !o.Relaying? ==> net.delivered == old(net.delivered)
  {
    var header, buf;
    header, buf, parses := ReadHeader(inbound, hmac, key, clock, maxSkew);
    match header {
      case Broken => o := IoError;
      case Ended => o := Closed;
      case Decided(Err(error)) =>
        var _ := inbound.WriteAll([REPLY_AUTH_FAIL]);
        o := Rejected(error);
      case Decided(Ok(p)) =>
        ConsumedIsWithin(hmac, key, clock(parses - 1), maxSkew, buf);
        o := Serve(inbound, net, p, buf);
        DropConcat(buf, inbound.incoming, p.consumed);
        assert old(net.delivered) + buf[p.consumed..] + inbound.incoming
            == old(net.delivered) + (buf[p.consumed..] + inbound.incoming);
    }
  }
}
