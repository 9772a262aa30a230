/**
 * Client, exit node and destination running together over two byte queues.  Bytes may be written, delivered
 * and read in pieces of any size and the parties' steps interleave freely; the exit node's clock shows any
 * value at each parse and the dial may fail.
 */
module TunnelSystem {
  import opened Words
  import opened TunnelProto
  import ExitNode

  datatype Config = Config(
    hmac: Hmac, clientKey: bytes, serverKey: bytes, timestamp: uint64, target: Target, maxSkew: uint64)
  {
    function Header(): bytes {
      EncodeRequest(hmac, clientKey, timestamp, target)
    }

    function Judge(now: uint64, buf: bytes): Verdict {
      Parse(hmac, serverKey, now, maxSkew, buf)
    }
  }

  datatype Client =
    | Sending(rest: bytes)    // of the header
    | Awaiting
    | Relaying
    | Refused(code: byte)

  datatype Server =
    | Parsing(buf: bytes)
    | Hungry(buf: bytes)      // truncated: about to read
    | Dialing(request: ParsedRequest, leftover: bytes)
    | Connected(request: ParsedRequest, leftover: bytes)
    | Answered(leftover: bytes)
    | Relay
    | Rejected(error: ProtoError)
    | Undialable
    | Overflowed

  datatype State = State(
    client: Client,
    server: Server,
    up: bytes,                // client to exit node, in flight
    down: bytes,              // exit node to client, in flight
    dialed: seq<Target>,
    replies: bytes,           // reply bytes the exit node has written
    payload: bytes,           // what the client has sent after the header
    delivered: bytes,         // what the destination has received
    answer: bytes,            // what the destination has sent
    unrelayed: bytes,         // the part of it the exit node has not relayed
    received: bytes)          // what the client has received after the reply byte

  datatype Step =
    | ClientWrites(n: nat)
    | ServerParses(now: uint64)
    | ServerReads(n: nat)
    | ServerDials(ok: bool)
    | ServerAnswers
    | ServerFlushes
    | ClientReadsReply
    | ClientSends(data: bytes)
    | RelayUp(n: nat)
    | DestinationSends(data: bytes)
    | RelayDown(n: nat)
    | ClientReceives(n: nat)

  function Init(c: Config): State {
    State(Sending(c.Header()), Parsing([]), [], [], [], [], [], [], [], [], [])
  }

  predicate Enabled(s: State, step: Step) {
    match step
    case ClientWrites(n) => s.client.Sending? && 1 <= n <= |s.client.rest|
    case ServerParses(_) => s.server.Parsing?
    case ServerReads(n) => s.server.Hungry? && 1 <= n <= |s.up| && n <= ExitNode.MAX_HEADER
    case ServerDials(_) => s.server.Dialing?
    case ServerAnswers => s.server.Connected?
    case ServerFlushes => s.server.Answered?
    case ClientReadsReply => s.client.Awaiting? && s.down != []
    case ClientSends(_) => s.client.Relaying?
    case RelayUp(n) => s.server.Relay? && n <= |s.up|
    case DestinationSends(_) => s.server.Answered? || s.server.Relay?
    case RelayDown(n) => s.server.Relay? && n <= |s.unrelayed|
    case ClientReceives(n) => s.client.Relaying? && n <= |s.down|
  }

  function AfterParse(c: Config, s: State, now: uint64): State
    requires s.server.Parsing?
  {
    var buf := s.server.buf;
    match c.Judge(now, buf)
    case Ok(p) => s.(server := Dialing(p, if p.consumed <= |buf| then buf[p.consumed..] else []))
    case Err(Truncated(_)) => s.(server := if |buf| >= ExitNode.MAX_HEADER then Overflowed else Hungry(buf))
    case Err(e) =>
      s.(server := Rejected(e), down := s.down + [REPLY_AUTH_FAIL], replies := s.replies + [REPLY_AUTH_FAIL])
  }

  function AfterDial(s: State, ok: bool): State
    requires s.server.Dialing?
  {
    var t := s.(dialed := s.dialed + [s.server.request.target]);
    if ok then t.(server := Connected(s.server.request, s.server.leftover))
    else t.(server := Undialable, down := s.down + [REPLY_DIAL_FAIL], replies := s.replies + [REPLY_DIAL_FAIL])
  }

  function Apply(c: Config, s: State, step: Step): State
    requires Enabled(s, step)
  {
    match step
    case ClientWrites(n) =>
      var rest := s.client.rest[n..];
      s.(client := if rest == [] then Awaiting else Sending(rest), up := s.up + s.client.rest[..n])
    case ServerParses(now) => AfterParse(c, s, now)
    case ServerReads(n) => s.(server := Parsing(s.server.buf + s.up[..n]), up := s.up[n..])
    case ServerDials(ok) => AfterDial(s, ok)
    case ServerAnswers =>
      s.(server := Answered(s.server.leftover), down := s.down + [REPLY_OK], replies := s.replies + [REPLY_OK])
    case ServerFlushes => s.(server := Relay, delivered := s.delivered + s.server.leftover)
    case ClientReadsReply =>
      s.(client := if s.down[0] == REPLY_OK then Relaying else Refused(s.down[0]), down := s.down[1..])
    case ClientSends(data) => s.(up := s.up + data, payload := s.payload + data)
    case RelayUp(n) => s.(delivered := s.delivered + s.up[..n], up := s.up[n..])
    case DestinationSends(data) => s.(answer := s.answer + data, unrelayed := s.unrelayed + data)
    case RelayDown(n) => s.(down := s.down + s.unrelayed[..n], unrelayed := s.unrelayed[n..])
    case ClientReceives(n) => s.(received := s.received + s.down[..n], down := s.down[n..])
  }

  /** Taking `steps` in order from `s` is possible and ends in `t`. */
  predicate Runs(c: Config, s: State, steps: seq<Step>, t: State)
    decreases |steps|
  {
    if steps == [] then s == t
    else Enabled(s, steps[0]) && Runs(c, Apply(c, s, steps[0]), steps[1..], t)
  }

  // ---- the invariant -------------------------------------------------------

  predicate Undecided(s: State) {
    s.client.Sending? || s.client.Awaiting?
  }

  /** What the client has written of the header `h`. */
  function Written(h: bytes, client: Client): bytes {
    if client.Sending? && |client.rest| <= |h| then h[..|h| - |client.rest|] else h
  }

  /** The client's own book-keeping. */
  predicate ClientInv(h: bytes, s: State) {
    && (s.client.Sending? ==> 0 < |s.client.rest| <= |h| && s.client.rest == h[|h| - |s.client.rest|..])
    && (!s.client.Relaying? ==> s.payload == [] && s.received == [])
  }

  /** The header bytes the exit node has buffered, and those still on their way. */
  predicate InTransit(h: bytes, s: State, buf: bytes) {
    Undecided(s) && buf + s.up == Written(h, s.client)
  }

  /** Where the client's bytes are. */
  predicate UpstreamInv(c: Config, s: State) {
    match s.server
    case Parsing(buf) => InTransit(c.Header(), s, buf)
    case Hungry(buf) => InTransit(c.Header(), s, buf) && |buf| < |c.Header()|
    case Dialing(p, leftover) => Honest(c, s, p) && leftover == [] && s.up == [] && s.client.Awaiting?
    case Connected(p, leftover) => Honest(c, s, p) && leftover == [] && s.up == [] && s.client.Awaiting?
    case Answered(leftover) => leftover == [] && s.up == s.payload && !s.client.Sending?
    case Relay => s.delivered + s.up == s.payload && !s.client.Sending?
    case Rejected(_) => true
    case Undialable => !s.client.Sending?
    case Overflowed => false
  }

  predicate Honest(c: Config, s: State, p: ParsedRequest) {
    p == ParsedRequest(c.target, c.timestamp, |c.Header()|)
  }

  /** The reply bytes and the dials, by where the exit node is. */
  predicate ReplyInv(c: Config, s: State) {
    match s.server
    case Parsing(_) => s.replies == [] && s.dialed == []
    case Hungry(_) => s.replies == [] && s.dialed == []
    case Dialing(_, _) => s.replies == [] && s.dialed == []
    case Connected(_, _) => s.replies == [] && s.dialed == [c.target]
    case Answered(_) => s.replies == [REPLY_OK] && s.dialed == [c.target]
    case Relay => s.replies == [REPLY_OK] && s.dialed == [c.target]
    case Rejected(_) => s.replies == [REPLY_AUTH_FAIL] && s.dialed == []
    case Undialable => s.replies == [REPLY_DIAL_FAIL] && s.dialed == [c.target]
    case Overflowed => false
  }

  /** Where the answer's bytes are, and that the reply byte comes before all of them. */
  predicate DownstreamInv(s: State) {
    && (Undecided(s) ==> s.replies + s.answer == s.down + s.unrelayed)
    && (s.client.Relaying? ==> s.replies == [REPLY_OK] && s.answer == s.received + s.down + s.unrelayed)
    && (s.client.Refused? ==> s.replies == [s.client.code] && s.client.code != REPLY_OK && s.down == [])
    && (!(s.server.Relay? || s.server.Answered?) ==> s.answer == s.unrelayed == [] && s.delivered == [])
    && (s.server.Answered? ==> s.delivered == [] && s.answer == s.unrelayed)
    && |s.unrelayed| <= |s.answer|
  }

  predicate Inv(c: Config, s: State) {
    ClientInv(c.Header(), s) && UpstreamInv(c, s) && ReplyInv(c, s) && DownstreamInv(s)
  }

  lemma InitInv(c: Config)
    ensures Inv(c, Init(c))
  {
    var h := c.Header();
    assert h[0..] == h;
  }

  lemma ParseKeepsInv(c: Config, s: State, now: uint64)
    requires Encodable(c.target) && Inv(c, s) && s.server.Parsing?
    ensures Inv(c, Apply(c, s, ServerParses(now)))
  {
    var buf := s.server.buf;
    assert buf <= c.Header();
    HonestPrefix(c.hmac, c.clientKey, c.serverKey, now, c.maxSkew, c.timestamp, c.target, buf);
    var v := c.Judge(now, buf);
    if IsTruncated(v) {
      TruncatedIsHonest(c.hmac, c.serverKey, now, c.maxSkew, buf, []);
    } else if v.Ok? {
      assert |Written(c.Header(), s.client)| <= |c.Header()|;
    }
  }

  lemma WriteMovesBytes(h: bytes, s: State, t: State, n: nat)
    requires ClientInv(h, s) && s.client.Sending? && 1 <= n <= |s.client.rest|
    requires
      var rest := s.client.rest[n..];
      t == s.(client := if rest == [] then Awaiting else Sending(rest), up := s.up + s.client.rest[..n])
    ensures ClientInv(h, t)
    ensures forall buf :: InTransit(h, s, buf) ==> InTransit(h, t, buf)
  {
    var rest := s.client.rest;
    var k := |h| - |rest|;
    assert rest[n..] == h[k + n..];
    assert h[..k] + rest[..n] == h[..k + n];
    if n == |rest| {
      assert h[..k + n] == h;
    }
    assert Written(h, t.client) == Written(h, s.client) + rest[..n];
    forall buf | InTransit(h, s, buf)
      ensures InTransit(h, t, buf)
    {
      assert buf + (s.up + rest[..n]) == (buf + s.up) + rest[..n];
    }
  }

  lemma ClientWriteKeepsInv(c: Config, s: State, n: nat)
    requires Inv(c, s) && Enabled(s, ClientWrites(n))
    ensures Inv(c, Apply(c, s, ClientWrites(n)))
  {
    WriteMovesBytes(c.Header(), s, Apply(c, s, ClientWrites(n)), n);
  }

  lemma ServerStepKeepsInv(c: Config, s: State, step: Step)
    requires Inv(c, s) && Enabled(s, step)
    requires step.ServerReads? || step.ServerDials? || step.ServerAnswers? || step.ServerFlushes?
    ensures Inv(c, Apply(c, s, step))
  {
    if step.ServerReads? {
      assert s.server.buf + s.up[..step.n] + s.up[step.n..] == s.server.buf + s.up;
    }
  }

  lemma ReplyComesFirst(c: Config, s: State)
    requires ReplyInv(c, s) && DownstreamInv(s) && s.client.Awaiting? && s.down != []
    ensures s.replies == [s.down[0]] && s.answer == s.down[1..] + s.unrelayed
    ensures s.down[0] != REPLY_OK ==> s.down[1..] == []
  {
    assert |s.replies + s.answer| == |s.down + s.unrelayed|;
    assert (s.replies + s.answer)[0] == (s.down + s.unrelayed)[0] == s.down[0];
    assert (s.replies + s.answer)[1..] == s.answer;
    assert (s.down + s.unrelayed)[1..] == s.down[1..] + s.unrelayed;
  }

  lemma ReplyReadKeepsInv(c: Config, s: State)
    requires Inv(c, s) && Enabled(s, ClientReadsReply)
    ensures Inv(c, Apply(c, s, ClientReadsReply))
  {
    ReplyComesFirst(c, s);
  }

  /** A relaying client has been answered, so the exit node is past its reply. */
  lemma RelayingMeansAnswered(c: Config, s: State)
    requires ReplyInv(c, s) && DownstreamInv(s) && s.client.Relaying?
    ensures s.server.Answered? || s.server.Relay?
  {
  }

  lemma SendKeepsInv(c: Config, s: State, data: bytes)
    requires Inv(c, s) && Enabled(s, ClientSends(data))
    ensures Inv(c, Apply(c, s, ClientSends(data)))
  {
    RelayingMeansAnswered(c, s);
    Assoc(s.delivered, s.up, data);
  }

  lemma RelayUpKeepsInv(c: Config, s: State, n: nat)
    requires Inv(c, s) && Enabled(s, RelayUp(n))
    ensures Inv(c, Apply(c, s, RelayUp(n)))
  {
    Assoc(s.delivered, s.up[..n], s.up[n..]);
    assert s.up[..n] + s.up[n..] == s.up;
  }

  lemma Assoc(a: bytes, b: bytes, d: bytes)
    ensures a + (b + d) == (a + b) + d
  {
  }

  lemma DownstreamStepKeepsInv(c: Config, s: State, step: Step)
    requires Inv(c, s) && Enabled(s, step)
    requires step.DestinationSends? || step.RelayDown? || step.ClientReceives?
    ensures Inv(c, Apply(c, s, step))
  {
    match step {
      case DestinationSends(data) => AnswerGrows(s, data);
      case RelayDown(n) => AnswerMovesDown(s, n);
      case ClientReceives(n) => assert s.received + s.down == (s.received + s.down[..n]) + s.down[n..];
    }
  }

  lemma AnswerGrows(s: State, data: bytes)
    requires DownstreamInv(s) && (s.server.Answered? || s.server.Relay?)
    ensures DownstreamInv(s.(answer := s.answer + data, unrelayed := s.unrelayed + data))
  {
    assert s.replies + (s.answer + data) == (s.replies + s.answer) + data;
    assert s.down + (s.unrelayed + data) == (s.down + s.unrelayed) + data;
    assert s.received + s.down + (s.unrelayed + data) == (s.received + s.down + s.unrelayed) + data;
  }

  lemma AnswerMovesDown(s: State, n: nat)
    requires DownstreamInv(s) && s.server.Relay? && s.replies == [REPLY_OK] && n <= |s.unrelayed|
    ensures DownstreamInv(s.(down := s.down + s.unrelayed[..n], unrelayed := s.unrelayed[n..]))
  {
    assert s.unrelayed == s.unrelayed[..n] + s.unrelayed[n..];
    assert s.down + s.unrelayed == (s.down + s.unrelayed[..n]) + s.unrelayed[n..];
    assert s.received + s.down + s.unrelayed == s.received + (s.down + s.unrelayed[..n]) + s.unrelayed[n..];
  }

  lemma StepKeepsInv(c: Config, s: State, step: Step)
    requires Encodable(c.target) && Inv(c, s) && Enabled(s, step)
    ensures Inv(c, Apply(c, s, step))
  {
    match step {
      case ClientWrites(n) => ClientWriteKeepsInv(c, s, n);
      case ServerParses(now) => ParseKeepsInv(c, s, now);
      case ClientReadsReply => ReplyReadKeepsInv(c, s);
      case ServerReads(_) => ServerStepKeepsInv(c, s, step);
      case ServerDials(_) => ServerStepKeepsInv(c, s, step);
      case ServerAnswers => ServerStepKeepsInv(c, s, step);
      case ServerFlushes => ServerStepKeepsInv(c, s, step);
      case ClientSends(data) => SendKeepsInv(c, s, data);
      case RelayUp(n) => RelayUpKeepsInv(c, s, n);
      case _ => DownstreamStepKeepsInv(c, s, step);
    }
  }

  lemma {:induction false} RunKeepsInv(c: Config, s: State, steps: seq<Step>, t: State)
    requires Encodable(c.target) && Inv(c, s) && Runs(c, s, steps, t)
    ensures Inv(c, t)
    decreases |steps|
  {
    if steps != [] {
      StepKeepsInv(c, s, steps[0]);
      RunKeepsInv(c, Apply(c, s, steps[0]), steps[1..], t);
    }
  }

  // ---- safety --------------------------------------------------------------

  /**
   * In every run, a client that is relaying is talking to the destination it asked for: the exit node
   * decoded that target and that timestamp, dialed it once, wrote one reply byte and had nothing left over.
   * From then on, bytes to the destination and bytes back are neither lost, duplicated nor reordered, and
   * the reply byte is never mistaken for payload.
   */
  lemma RelayIsFaithful(c: Config, steps: seq<Step>, s: State)
    requires Encodable(c.target) && Runs(c, Init(c), steps, s)
    requires s.client.Relaying?
    ensures s.server.Answered? || s.server.Relay?
    ensures s.dialed == [c.target] && s.replies == [0x00]
    ensures s.server.Answered? ==> s.server.leftover == []
    ensures s.delivered + s.up == Payload(steps)
    ensures s.received + s.down + s.unrelayed == AnswerOf(steps)
  {
    InitInv(c);
    RunKeepsInv(c, Init(c), steps, s);
    RunKeepsBooks(c, Init(c), steps, s);
  }

  /** What the client has sent after its header in the course of `steps`. */
  function Payload(steps: seq<Step>): bytes {
    if steps == [] then [] else (if steps[0].ClientSends? then steps[0].data else []) + Payload(steps[1..])
  }

  /** What the destination has sent in the course of `steps`. */
  function AnswerOf(steps: seq<Step>): bytes {
    if steps == [] then [] else (if steps[0].DestinationSends? then steps[0].data else []) + AnswerOf(steps[1..])
  }

  lemma {:induction false} RunKeepsBooks(c: Config, s: State, steps: seq<Step>, t: State)
    requires Runs(c, s, steps, t)
    ensures t.payload == s.payload + Payload(steps) && t.answer == s.answer + AnswerOf(steps)
    decreases |steps|
  {
    if steps != [] {
      var m := Apply(c, s, steps[0]);
      RunKeepsBooks(c, m, steps[1..], t);
      assert m.payload == s.payload + if steps[0].ClientSends? then steps[0].data else [];
      assert m.answer == s.answer + if steps[0].DestinationSends? then steps[0].data else [];
    }
  }

  /**
   * And everything gets through: from any moment of the relay, the remaining steps of the exit node and the
   * network alone bring all that the client has sent to the destination, and all it has answered to the client.
   */
  lemma EverythingArrives(c: Config, steps: seq<Step>, s: State) returns (more: seq<Step>, t: State)
    requires Encodable(c.target) && Runs(c, Init(c), steps, s)
    requires s.client.Relaying?
    ensures Runs(c, s, more, t) && forall step <- more :: !step.ClientSends? && !step.DestinationSends?
    ensures t.delivered == Payload(steps) && t.received == AnswerOf(steps)
  {
    RelayIsFaithful(c, steps, s);
    InitInv(c);
    RunKeepsInv(c, Init(c), steps, s);
    if s.server.Answered? {
      var flushed := Apply(c, s, ServerFlushes);
      more, t := Drain(c, flushed);
      RunsFrom(c, s, ServerFlushes, more, t);
      more := [ServerFlushes] + more;
    } else {
      more, t := Drain(c, s);
    }
  }

  lemma RunsFrom(c: Config, s: State, step: Step, rest: seq<Step>, t: State)
    requires Enabled(s, step) && Runs(c, Apply(c, s, step), rest, t)
    ensures Runs(c, s, [step] + rest, t)
  {
    assert ([step] + rest)[1..] == rest;
  }

  /** Relay what is under way in both directions. */
  lemma Drain(c: Config, s: State) returns (more: seq<Step>, t: State)
    requires s.server.Relay? && s.client.Relaying?
    ensures Runs(c, s, more, t) && forall step <- more :: !step.ClientSends? && !step.DestinationSends?
    ensures t.delivered == s.delivered + s.up && t.received == s.received + s.down + s.unrelayed
  {
    var a, b := RelayUp(|s.up|), RelayDown(|s.unrelayed|);
    var u := Apply(c, s, a);
    var v := Apply(c, u, b);
    var d := ClientReceives(|v.down|);
    t := Apply(c, v, d);
    RunsFrom(c, v, d, [], t);
    RunsFrom(c, u, b, [d], t);
    RunsFrom(c, s, a, [b, d], t);
    more := [a] + ([b] + ([d] + []));
    assert [a] + [b, d] == more && [b] + [d] == [b, d];
  }

  /** Whatever the client ends up holding, the exit node dialed nothing but the client's target, at most once,
      accepted nothing but the client's own header, and wrote at most one reply byte. */
  lemma NothingElseIsDone(c: Config, steps: seq<Step>, s: State)
    requires Encodable(c.target) && Runs(c, Init(c), steps, s)
    ensures s.dialed == [] || s.dialed == [c.target]
    ensures |s.replies| <= 1
    ensures s.server.Dialing? || s.server.Connected? ==>
      s.server.request == ParsedRequest(c.target, c.timestamp, |c.Header()|)
    ensures s.server != Overflowed
    ensures s.client.Refused? ==>
      || (s.client.code == 0x01 && s.server.Rejected? && s.dialed == [])
      || (s.client.code == 0x02 && s.server == Undialable && s.dialed == [c.target])
    ensures !s.client.Relaying? ==> s.delivered == [] && s.received == []
  {
    InitInv(c);
    RunKeepsInv(c, Init(c), steps, s);
  }

  // ---- which answer --------------------------------------------------------

  /** The client's header is one the exit node should accept while it is fresh. */
  predicate Acceptable(c: Config) {
    var signed := SignedPart(c.timestamp, c.target);
    WellFormed(c.target) && c.hmac(c.clientKey, signed) == c.hmac(c.serverKey, signed)
  }

  /** What the exit node's clock showed at the last parse of the run; `before` if it made none. */
  function LastReading(steps: seq<Step>, before: Option<uint64>): Option<uint64>
    decreases |steps|
  {
    if steps == [] then before
    else LastReading(steps[1..], if steps[0].ServerParses? then Some(steps[0].now) else before)
  }

  predicate FreshAt(c: Config, reading: Option<uint64>) {
    reading.Some? && AbsDiff(reading.value, c.timestamp) <= c.maxSkew
  }

  /** A decision was made at the last reading, and it was the right one for that reading. */
  predicate JudgedRight(c: Config, s: State, last: Option<uint64>) {
    match s.server
    case Parsing(_) => true
    case Hungry(_) => true
    case Rejected(_) => last.Some? && !(Acceptable(c) && FreshAt(c, last))
    case _ => Acceptable(c) && FreshAt(c, last)
  }

  lemma ParseJudgesRight(c: Config, s: State, now: uint64)
    requires Encodable(c.target) && Inv(c, s) && s.server.Parsing?
    ensures JudgedRight(c, Apply(c, s, ServerParses(now)), Some(now))
  {
    var buf := s.server.buf;
    assert buf <= c.Header();
    HonestPrefixDecides(c.hmac, c.clientKey, c.serverKey, now, c.maxSkew, c.timestamp, c.target, buf);
    HonestPrefix(c.hmac, c.clientKey, c.serverKey, now, c.maxSkew, c.timestamp, c.target, buf);
    if IsTruncated(c.Judge(now, buf)) {
      TruncatedIsHonest(c.hmac, c.serverKey, now, c.maxSkew, buf, []);
    }
  }

  lemma {:induction false} RunJudgesRight(c: Config, s: State, last: Option<uint64>, steps: seq<Step>, t: State)
    requires Encodable(c.target) && Inv(c, s) && Runs(c, s, steps, t) && JudgedRight(c, s, last)
    ensures JudgedRight(c, t, LastReading(steps, last))
    decreases |steps|
  {
    if steps != [] {
      var step := steps[0];
      StepKeepsInv(c, s, step);
      if step.ServerParses? {
        ParseJudgesRight(c, s, step.now);
      }
      RunJudgesRight(c, Apply(c, s, step), if step.ServerParses? then Some(step.now) else last, steps[1..], t);
    }
  }

  /**
   * The answer is exact, whatever the clocks and the interleaving.  With `last` what the exit node's clock showed
   * at its last parse, a client that has an answer was told AUTH_FAIL if and only if its name is too long, its
   * key is not the exit node's, or its timestamp was not recent at that reading.
   */
  lemma AnswerIsRight(c: Config, steps: seq<Step>, s: State)
    requires Encodable(c.target) && Runs(c, Init(c), steps, s)
    requires !Undecided(s)
    ensures
      var last := LastReading(steps, None);
      var recent := last.Some? && last.value <= c.timestamp + c.maxSkew && c.timestamp <= last.value + c.maxSkew;
      && last.Some?
      && (s.client == Refused(0x01) <==> !Acceptable(c) || !recent)
      && (s.client == Relaying || s.client == Refused(0x02) <==> Acceptable(c) && recent)
  {
    InitInv(c);
    RunJudgesRight(c, Init(c), None, steps, s);
    RunKeepsInv(c, Init(c), steps, s);
  }

  // ---- progress ------------------------------------------------------------

  /** The steps that make up the handshake, as opposed to payload traffic. */
  predicate IsHandshake(step: Step) {
    match step
    case ClientWrites(_) => true
    case ServerParses(_) => true
    case ServerReads(_) => true
    case ServerDials(_) => true
    case ServerAnswers => true
    case ServerFlushes => true
    case ClientReadsReply => true
    case _ => false
  }

  function HandshakeSteps(steps: seq<Step>): nat {
    if steps == [] then 0 else (if IsHandshake(steps[0]) then 1 else 0) + HandshakeSteps(steps[1..])
  }

  /** Header bytes weigh 3 unsent and 2 in flight; the parties' phases weigh the rest. */
  function Measure(s: State): nat {
    (match s.client
     case Sending(rest) => 3 * |rest| + 1
     case Awaiting => 1
     case _ => 0) +
    (match s.server
     case Parsing(_) => 2 * |s.up| + 6
     case Hungry(_) => 2 * |s.up| + 5
     case Dialing(_, _) => 4
     case Connected(_, _) => 3
     case Answered(_) => 2
     case _ => 0)
  }

  lemma ParseLowersMeasure(c: Config, s: State, now: uint64)
    requires Encodable(c.target) && Inv(c, s) && s.server.Parsing?
    ensures Measure(Apply(c, s, ServerParses(now))) + 1 <= Measure(s)
  {
    ParseKeepsInv(c, s, now);
  }

  /** Every handshake step lowers the measure and no payload step changes it. */
  lemma StepLowersMeasure(c: Config, s: State, step: Step)
    requires Encodable(c.target) && Inv(c, s) && Enabled(s, step)
    ensures Measure(Apply(c, s, step)) + (if IsHandshake(step) then 1 else 0) <= Measure(s)
  {
    match step {
      case ServerParses(now) => ParseLowersMeasure(c, s, now);
      case ClientWrites(n) => assert |s.client.rest[n..]| + n == |s.client.rest|;
      case ServerReads(n) => assert |s.up[n..]| + n == |s.up|;
      case _ =>
    }
  }

  lemma {:induction false} RunLowersMeasure(c: Config, s: State, steps: seq<Step>, t: State)
    requires Encodable(c.target) && Inv(c, s) && Runs(c, s, steps, t)
    ensures HandshakeSteps(steps) + Measure(t) <= Measure(s)
    decreases |steps|
  {
    if steps != [] {
      StepLowersMeasure(c, s, steps[0]);
      StepKeepsInv(c, s, steps[0]);
      RunLowersMeasure(c, Apply(c, s, steps[0]), steps[1..], t);
    }
  }

  /** No run has more handshake steps than three for each header byte and seven besides. */
  lemma HandshakeIsBounded(c: Config, steps: seq<Step>, s: State)
    requires Encodable(c.target) && Runs(c, Init(c), steps, s)
    ensures HandshakeSteps(steps) <= 3 * |c.Header()| + 7
  {
    InitInv(c);
    RunLowersMeasure(c, Init(c), steps, s);
  }

  /** The handshake never gets stuck: while the client has no answer, some handshake step can be taken. */
  lemma NeverStuck(c: Config, s: State) returns (step: Step)
    requires Encodable(c.target) && Inv(c, s) && Undecided(s)
    ensures Enabled(s, step) && IsHandshake(step)
  {
    if s.client.Sending? { return ClientWrites(1); }
    match s.server {
      case Parsing(_) => return ServerParses(0);
      case Hungry(buf) =>
        if s.up == [] {
          assert false;
        }
        return ServerReads(1);
      case Dialing(_, _) => return ServerDials(true);
      case Connected(_, _) => return ServerAnswers;
      case _ =>
        assert |s.replies + s.answer| == |s.down| + |s.unrelayed|;
        return ClientReadsReply;
    }
  }

  /** Every run that can take no further handshake step has answered the client, with one of the three replies. */
  lemma MaximalRunAnswers(c: Config, steps: seq<Step>, s: State)
    requires Encodable(c.target) && Runs(c, Init(c), steps, s)
    requires forall step :: Enabled(s, step) ==> !IsHandshake(step)
    ensures s.client == Relaying || s.client == Refused(0x01) || s.client == Refused(0x02)
  {
    InitInv(c);
    RunKeepsInv(c, Init(c), steps, s);
    if Undecided(s) {
      var step := NeverStuck(c, s);
    }
  }
}
