/** From the application's SOCKS5 request to the destination's bytes, over every run of the two parties. */
module EndToEnd {
  import opened Words
  import opened TunnelSystem
  import Proto = TunnelProto
  import Socks5

  /** A client that tunnels for the application whose stream is `s`. */
  predicate Serves(c: Config, s: bytes) {
    Socks5.Transact(s).result.Ok? && c.target == Socks5.SocksToTarget(Socks5.Transact(s).result.value)
  }

  /** No SOCKS5 request names a host the header cannot carry. */
  lemma RequestIsEncodable(c: Config, s: bytes)
    requires Serves(c, s)
    ensures Proto.Encodable(c.target)
  {
    var a := Socks5.Transact(s).result.value;
    Socks5.HandshakeOkIff(s, a, Socks5.Transact(s).consumed);
  }

  /**
   * Whatever the application asked for, a relaying client is connected to exactly that destination, once, and
   * payload passes unchanged in both directions; and nothing else is ever dialed.
   */
  lemma ApplicationReachesItsDestination(c: Config, s: bytes, steps: seq<Step>, t: State)
    requires Serves(c, s) && Runs(c, Init(c), steps, t)
    ensures
      var target := Socks5.SocksToTarget(Socks5.Transact(s).result.value);
      && (t.dialed == [] || t.dialed == [target])
      && (t.client.Relaying? ==>
          && t.dialed == [target] && t.replies == [0x00]
          && t.delivered + t.up == Payload(steps)
          && t.received + t.down + t.unrelayed == AnswerOf(steps))
  {
    RequestIsEncodable(c, s);
    NothingElseIsDone(c, steps, t);
    if t.client.Relaying? {
      RelayIsFaithful(c, steps, t);
    }
  }

  /**
   * And the answer is exact: AUTH_FAIL if and only if the application named a host of 254 or 255 bytes, the keys
   * give different tags, or the timestamp was stale when the exit node decided.
   */
  lemma ApplicationIsAnsweredRight(c: Config, s: bytes, steps: seq<Step>, t: State)
    requires Serves(c, s) && Runs(c, Init(c), steps, t)
    requires !Undecided(t)
    ensures
      var a, signed := Socks5.Transact(s).result.value, Proto.SignedPart(c.timestamp, c.target);
      var last := LastReading(steps, None);
      && last.Some?
      && (t.client == Refused(0x01) <==>
          || (a.Domain? && |a.name| > 253)
          || c.hmac(c.clientKey, signed) != c.hmac(c.serverKey, signed)
          || !(last.value <= c.timestamp + c.maxSkew && c.timestamp <= last.value + c.maxSkew))
  {
    RequestIsEncodable(c, s);
    AnswerIsRight(c, steps, t);
  }

  /** And it always comes: a run with no handshake step left has answered. */
  lemma ApplicationIsAlwaysAnswered(c: Config, s: bytes, steps: seq<Step>, t: State)
    requires Serves(c, s) && Runs(c, Init(c), steps, t)
    ensures HandshakeSteps(steps) <= 3 * |c.Header()| + 7
    ensures (forall step :: Enabled(t, step) ==> !IsHandshake(step)) ==> !Undecided(t)
  {
    RequestIsEncodable(c, s);
    HandshakeIsBounded(c, steps, t);
    if forall step :: Enabled(t, step) ==> !IsHandshake(step) {
      MaximalRunAnswers(c, steps, t);
    }
  }
}
