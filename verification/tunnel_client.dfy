/** The client's side of one tunnel: send the header, wait for the one-byte answer. */
module TunnelClient {
  import opened Words
  import opened TunnelProto
  import opened Streams

  datatype Opened =
    | Accepted
    | RejectedAuth
    | RejectedDial
    | UnexpectedReply(code: byte)
    | IoError

  function Judge(reply: byte): Opened {
    if reply == REPLY_OK then Accepted
    else if reply == REPLY_AUTH_FAIL then RejectedAuth
    else if reply == REPLY_DIAL_FAIL then RejectedDial
    else UnexpectedReply(reply)
  }

  /**
   * Sends the header and reads exactly one byte of the answer, so that what follows is left for the relay.
   * Without a fault the only failure is an answer that never comes; with one, what was written is still a
   * prefix of the header.
   */
  method Open(stream: Connection, hmac: Hmac, key: bytes, timestamp: uint64, target: Target) returns (o: Opened)
    modifies stream
    ensures o != IoError ==>
      && stream.sent == old(stream.sent) + EncodeRequest(hmac, key, timestamp, target)
      && old(stream.incoming) != []
      && (match old(stream.incoming)[0]
          case 0x00 => o == Accepted
          case 0x01 => o == RejectedAuth
          case 0x02 => o == RejectedDial
          case code => o == UnexpectedReply(code))
      && stream.incoming == old(stream.incoming)[1..]
    ensures o == IoError ==> !stream.reliable || old(stream.incoming) == []
    ensures old(stream.sent) <= stream.sent <= old(stream.sent) + EncodeRequest(hmac, key, timestamp, target)
  {
    var header := BuildRequest(hmac, key, timestamp, target);
    var wrote := stream.WriteAll(header);
    if !wrote { return IoError; }
    var reply := stream.ReadExact(1);
    if reply.None? { return IoError; }
    assert old(stream.incoming)[1..] == stream.incoming;
    return Judge(reply.value[0]);
  }
}
