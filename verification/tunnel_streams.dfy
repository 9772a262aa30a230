/**
 * The two parties with any client header at all, also one whose length byte has wrapped: what the exit node dials
 * and delivers is what the client's own bytes mean.
 */
module TunnelStreams {
  import opened Words
  import opened TunnelProto
  import opened TunnelSystem

  /** All the client has written: its header `h` as far as it has got, then payload. */
  function SentBy(h: bytes, s: State): bytes {
    Written(h, s.client) + s.payload
  }

  /** Which requests a byte string is accepted as. */
  type Reading = (bytes, ParsedRequest) -> bool

  ghost predicate Stable(accepts: Reading) {
    forall sent, more, p :: accepts(sent, p) && sent <= more ==> p.consumed <= |sent| && accepts(more, p)
  }

  /** The client's bytes are the request `p`; `front` and then what is in flight is what follows it. */
  ghost predicate Means(h: bytes, accepts: Reading, s: State, p: ParsedRequest, front: bytes) {
    var sent := SentBy(h, s);
    accepts(sent, p) && p.consumed <= |sent| && front + s.up == sent[p.consumed..]
  }

  ghost predicate Unread(h: bytes, s: State, buf: bytes) {
    buf + s.up == SentBy(h, s) && s.dialed == [] && s.delivered == []
  }

  ghost predicate Served(h: bytes, accepts: Reading, s: State, front: bytes) {
    exists p :: Means(h, accepts, s, p, front) && s.dialed == [p.target]
  }

  ghost predicate StreamInv(h: bytes, accepts: Reading, s: State) {
    && ClientInv(h, s)
    && match s.server
       case Parsing(buf) => Unread(h, s, buf)
       case Hungry(buf) => Unread(h, s, buf)
       case Dialing(p, leftover) => Means(h, accepts, s, p, leftover) && s.dialed == [] && s.delivered == []
       case Connected(p, leftover) => Means(h, accepts, s, p, leftover) && s.dialed == [p.target] && s.delivered == []
       case Answered(leftover) => Served(h, accepts, s, leftover) && s.delivered == []
       case Relay => Served(h, accepts, s, s.delivered)
       case _ => true
  }

  /** More bytes from the client, whichever they are, mean no other request. */
  lemma MoreIsPayload(h: bytes, accepts: Reading, s: State, t: State, data: bytes, p: ParsedRequest, front: bytes)
    requires Stable(accepts) && SentBy(h, t) == SentBy(h, s) + data && t.up == s.up + data
    requires Means(h, accepts, s, p, front)
    ensures Means(h, accepts, t, p, front)
  {
    var sent := SentBy(h, s);
    TailGrows(sent, p.consumed, front, s.up, data);
    assert accepts(sent, p) && accepts(SentBy(h, t), p);
  }

  lemma TailGrows(sent: bytes, k: nat, front: bytes, up: bytes, data: bytes)
    requires k <= |sent| && front + up == sent[k..]
    ensures sent <= sent + data && front + (up + data) == (sent + data)[k..]
  {
    assert front + (up + data) == (front + up) + data;
  }

  /** Bytes the client writes go on the wire, and nothing else changes for the exit node. */
  lemma ClientStep(h: bytes, accepts: Reading, s: State, t: State, data: bytes)
    requires Stable(accepts) && StreamInv(h, accepts, s) && ClientInv(h, t)
    requires t.server == s.server && t.dialed == s.dialed && t.delivered == s.delivered
    requires SentBy(h, t) == SentBy(h, s) + data && t.up == s.up + data
    ensures StreamInv(h, accepts, t)
  {
    match s.server {
      case Parsing(buf) => assert buf + (s.up + data) == (buf + s.up) + data;
      case Hungry(buf) => assert buf + (s.up + data) == (buf + s.up) + data;
      case Dialing(p, leftover) => MoreIsPayload(h, accepts, s, t, data, p, leftover);
      case Connected(p, leftover) => MoreIsPayload(h, accepts, s, t, data, p, leftover);
      case Answered(leftover) => MoreIsServed(h, accepts, s, t, data, leftover);
      case Relay => MoreIsServed(h, accepts, s, t, data, s.delivered);
      case _ =>
    }
  }

  lemma MoreIsServed(h: bytes, accepts: Reading, s: State, t: State, data: bytes, front: bytes)
    requires Stable(accepts) && SentBy(h, t) == SentBy(h, s) + data && t.up == s.up + data && t.dialed == s.dialed
    requires Served(h, accepts, s, front)
    ensures Served(h, accepts, t, front)
  {
    var p :| Means(h, accepts, s, p, front) && s.dialed == [p.target];
    MoreIsPayload(h, accepts, s, t, data, p, front);
  }

  lemma WritesAppend(h: bytes, rest: bytes, n: nat)
    requires 0 < |rest| <= |h| && rest == h[|h| - |rest|..] && 1 <= n <= |rest|
    ensures
      var after := if rest[n..] == [] then Awaiting else Sending(rest[n..]);
      Written(h, after) == Written(h, Sending(rest)) + rest[..n]
  {
    var k := |h| - |rest|;
    assert h[..k] + rest[..n] == h[..k + n];
    if n == |rest| {
      assert h[..k + n] == h;
    }
  }

  lemma WriteStep(h: bytes, accepts: Reading, s: State, n: nat)
    requires Stable(accepts) && StreamInv(h, accepts, s) && s.client.Sending? && 1 <= n <= |s.client.rest|
    ensures
      var rest := s.client.rest[n..];
      var up := s.up + s.client.rest[..n];
      StreamInv(h, accepts, s.(client := if rest == [] then Awaiting else Sending(rest), up := up))
  {
    var rest := s.client.rest[n..];
    var t := s.(client := if rest == [] then Awaiting else Sending(rest), up := s.up + s.client.rest[..n]);
    WriteMovesBytes(h, s, t, n);
    WritesAppend(h, s.client.rest, n);
    ClientStep(h, accepts, s, t, s.client.rest[..n]);
  }

  lemma SendStep(h: bytes, accepts: Reading, s: State, data: bytes)
    requires Stable(accepts) && StreamInv(h, accepts, s) && s.client.Relaying?
    ensures StreamInv(h, accepts, s.(up := s.up + data, payload := s.payload + data))
  {
    var t := s.(up := s.up + data, payload := s.payload + data);
    assert SentBy(h, t) == SentBy(h, s) + data;
    ClientStep(h, accepts, s, t, data);
  }

  /** Steps that move no byte of the client's. */
  lemma QuietStep(h: bytes, accepts: Reading, s: State, t: State)
    requires Stable(accepts) && StreamInv(h, accepts, s) && ClientInv(h, t)
    requires t.server == s.server && t.dialed == s.dialed && t.delivered == s.delivered && t.up == s.up
    requires Written(h, t.client) == Written(h, s.client) && t.payload == s.payload
    ensures StreamInv(h, accepts, t)
  {
    assert SentBy(h, t) == SentBy(h, s) + [] && t.up == s.up + [];
    ClientStep(h, accepts, s, t, []);
  }

  lemma AcceptStep(h: bytes, accepts: Reading, s: State, p: ParsedRequest)
    requires Stable(accepts) && StreamInv(h, accepts, s) && s.server.Parsing? && accepts(s.server.buf, p)
    ensures
      var buf := s.server.buf;
      p.consumed <= |buf| && StreamInv(h, accepts, s.(server := Dialing(p, buf[p.consumed..])))
  {
    var buf := s.server.buf;
    assert accepts(buf + s.up, p);
    assert p.consumed <= |buf|;
    assert (buf + s.up)[p.consumed..] == buf[p.consumed..] + s.up;
  }

  lemma ReadStep(h: bytes, accepts: Reading, s: State, n: nat)
    requires StreamInv(h, accepts, s) && s.server.Hungry? && n <= |s.up|
    ensures StreamInv(h, accepts, s.(server := Parsing(s.server.buf + s.up[..n]), up := s.up[n..]))
  {
    Rejoin(s.server.buf, s.up, n);
  }

  lemma FlushStep(h: bytes, accepts: Reading, s: State)
    requires StreamInv(h, accepts, s) && s.server.Answered?
    ensures StreamInv(h, accepts, s.(server := Relay, delivered := s.delivered + s.server.leftover))
  {
    var t := s.(server := Relay, delivered := s.delivered + s.server.leftover);
    var p :| Means(h, accepts, s, p, s.server.leftover) && s.dialed == [p.target];
    assert t.delivered == s.server.leftover;
    assert Means(h, accepts, t, p, t.delivered);
  }

  lemma Rejoin(a: bytes, b: bytes, n: nat)
    requires n <= |b|
    ensures a + b[..n] + b[n..] == a + b
  {
    assert b[..n] + b[n..] == b;
  }

  lemma RelayStep(h: bytes, accepts: Reading, s: State, n: nat)
    requires StreamInv(h, accepts, s) && s.server.Relay? && n <= |s.up|
    ensures StreamInv(h, accepts, s.(delivered := s.delivered + s.up[..n], up := s.up[n..]))
  {
    var t := s.(delivered := s.delivered + s.up[..n], up := s.up[n..]);
    var p :| Means(h, accepts, s, p, s.delivered) && s.dialed == [p.target];
    Rejoin(s.delivered, s.up, n);
    assert Means(h, accepts, t, p, t.delivered);
  }

  /** Every reading of the exit node's parser is one of `accepts`. */
  ghost predicate Covers(c: Config, accepts: Reading) {
    forall now, buf, p :: c.Judge(now, buf) == Ok(p) ==> accepts(buf, p)
  }

  lemma StepKeepsStreamInv(c: Config, h: bytes, accepts: Reading, s: State, step: Step)
    requires Stable(accepts) && Covers(c, accepts) && StreamInv(h, accepts, s) && Enabled(s, step)
    ensures StreamInv(h, accepts, Apply(c, s, step))
  {
    var t := Apply(c, s, step);
    match step {
      case ClientWrites(n) => WriteStep(h, accepts, s, n);
      case ServerParses(now) => ParseStep(c, h, accepts, s, now);
      case ServerReads(n) => ReadStep(h, accepts, s, n);
      case ServerDials(_) => DialStep(h, accepts, s, t);
      case ServerAnswers => DialStep(h, accepts, s, t);
      case ServerFlushes => FlushStep(h, accepts, s);
      case ClientSends(data) => SendStep(h, accepts, s, data);
      case RelayUp(n) => RelayStep(h, accepts, s, n);
      case _ => QuietStep(h, accepts, s, t);
    }
  }

  lemma ParseStep(c: Config, h: bytes, accepts: Reading, s: State, now: uint64)
    requires Stable(accepts) && Covers(c, accepts) && StreamInv(h, accepts, s) && s.server.Parsing?
    ensures StreamInv(h, accepts, AfterParse(c, s, now))
  {
    var v := c.Judge(now, s.server.buf);
    if v.Ok? {
      assert accepts(s.server.buf, v.value);
      AcceptStep(h, accepts, s, v.value);
    }
  }

  /** The dial and the answer: the request and what is left over stay. */
  lemma DialStep(h: bytes, accepts: Reading, s: State, t: State)
    requires StreamInv(h, accepts, s) && (s.server.Dialing? || s.server.Connected?)
    requires t.client == s.client && t.up == s.up && t.payload == s.payload && t.received == s.received
    requires t.delivered == s.delivered
    requires
      var (p, left) := (s.server.request, s.server.leftover);
      if s.server.Dialing? then
        t.dialed == s.dialed + [p.target] && (t.server == Connected(p, left) || t.server == Undialable)
      else
        t.dialed == s.dialed && t.server == Answered(left)
    ensures StreamInv(h, accepts, t)
  {
    var (p, left) := (s.server.request, s.server.leftover);
    assert Means(h, accepts, t, p, left);
  }

  lemma {:induction false} RunKeepsStreamInv(c: Config, h: bytes, accepts: Reading, s: State, steps: seq<Step>,
                                             t: State)
    requires Stable(accepts) && Covers(c, accepts) && StreamInv(h, accepts, s) && Runs(c, s, steps, t)
    ensures StreamInv(h, accepts, t)
    decreases |steps|
  {
    if steps != [] {
      StepKeepsStreamInv(c, h, accepts, s, steps[0]);
      RunKeepsStreamInv(c, h, accepts, Apply(c, s, steps[0]), steps[1..], t);
    }
  }

  ghost predicate AcceptedAt(c: Config, sent: bytes, p: ParsedRequest, now: uint64) {
    c.Judge(now, sent) == Ok(p)
  }

  lemma ParserIsStable(c: Config, accepts: Reading)
    requires forall sent, p :: accepts(sent, p) <==> exists now :: AcceptedAt(c, sent, p, now)
    ensures Stable(accepts)
  {
    forall sent, more, p | accepts(sent, p) && sent <= more
      ensures p.consumed <= |sent| && accepts(more, p)
    {
      var now :| AcceptedAt(c, sent, p, now);
      DecidedIsFinal(c.hmac, c.serverKey, now, c.maxSkew, sent, more[|sent|..]);
      AcceptedIff(c.hmac, c.serverKey, now, c.maxSkew, sent, p);
      assert sent + more[|sent|..] == more;
      assert AcceptedAt(c, more, p, now);
    }
  }

  lemma StartIsUnread(h: bytes, accepts: Reading, s: State)
    requires h != []
    requires s == State(Sending(h), Parsing([]), [], [], [], [], [], [], [], [], [])
    ensures StreamInv(h, accepts, s)
  {
    assert h[0..] == h;
  }

  /**
   * With no hypothesis on the client's target: whenever the exit node has answered OK, the client's bytes taken
   * together are, at some reading of the clock, an acceptable request; its target is what was dialed, once; and
   * the destination has, or is on its way to, every byte after it and no other.
   */
  lemma ClientIsTakenAtItsWord(c: Config, steps: seq<Step>, s: State)
    requires Runs(c, Init(c), steps, s) && (s.server.Answered? || s.server.Relay?)
    ensures
      var sent := SentBy(c.Header(), s);
      exists now: uint64, p ::
        && AcceptedAt(c, sent, p, now)
        && s.dialed == [p.target]
        && p.consumed <= |sent|
        && s.delivered + (if s.server.Answered? then s.server.leftover else []) + s.up == sent[p.consumed..]
  {
    var h := c.Header();
    var accepts: Reading := (sent, p) => exists now :: AcceptedAt(c, sent, p, now);
    ParserIsStable(c, accepts);
    forall now, buf, p | c.Judge(now, buf) == Ok(p)
      ensures accepts(buf, p)
    {
      assert AcceptedAt(c, buf, p, now);
    }
    StartIsUnread(h, accepts, Init(c));
    RunKeepsStreamInv(c, h, accepts, Init(c), steps, s);
    ServedAtLast(h, accepts, s);
  }

  lemma ServedAtLast(h: bytes, accepts: Reading, s: State)
    requires StreamInv(h, accepts, s) && (s.server.Answered? || s.server.Relay?)
    ensures
      var sent := SentBy(h, s);
      exists p ::
        && accepts(sent, p)
        && s.dialed == [p.target]
        && p.consumed <= |sent|
        && s.delivered + (if s.server.Answered? then s.server.leftover else []) + s.up == sent[p.consumed..]
  {
    var front := if s.server.Answered? then s.server.leftover else s.delivered;
    var p :| Means(h, accepts, s, p, front) && s.dialed == [p.target];
    assert s.delivered + (if s.server.Answered? then s.server.leftover else []) == front;
    assert accepts(SentBy(h, s), p);
  }
}
