/** One end of a byte stream: what the peer has sent and is still unread, and what was written back. */
module Streams {
  import opened Words

  class Connection {
    var incoming: bytes     // unread bytes; end of stream comes after them
    var sent: bytes
    const reliable: bool    // a reliable stream fails only by ending

    constructor (incoming: bytes, reliable: bool)
      ensures this.incoming == incoming && sent == [] && this.reliable == reliable
    {
      this.incoming := incoming;
      this.sent := [];
      this.reliable := reliable;
    }

    /** One `read`: some bytes, at most `max`; none only at end of stream; `None` for an I/O error. */
    method Read(max: nat) returns (chunk: Option<bytes>)
      requires max > 0
      modifies this`incoming
      ensures chunk.Some? ==> old(incoming) == chunk.value + incoming && |chunk.value| <= max
      ensures chunk.Some? && old(incoming) != [] ==> |chunk.value| > 0
      ensures chunk.None? ==> !reliable && incoming == old(incoming)
    {
      if !reliable {
        var broken: bool := *;
        if broken { return None; }
      }
      if incoming == [] { return Some([]); }
      var n: nat :| 1 <= n && n <= max && n <= |incoming|;
      chunk := Some(incoming[..n]);
      incoming := incoming[n..];
    }

    /** `read_exact`: exactly `n` bytes, however many reads that takes, or failure. */
    method ReadExact(n: nat) returns (got: Option<bytes>)
      modifies this`incoming
      ensures got.Some? ==> |got.value| == n && old(incoming) == got.value + incoming
      ensures got.None? ==> !reliable || |old(incoming)| < n
    {
      var buf: bytes := [];
      while |buf| < n
        invariant |buf| <= n && old(incoming) == buf + incoming
        decreases n - |buf|
      {
        var chunk := Read(n - |buf|);
        if chunk.None? || chunk.value == [] { return None; }
        buf := buf + chunk.value;
      }
      got := Some(buf);
    }

    /** `write_all`; an unreliable stream may fail after any part of the data. */
    method WriteAll(data: bytes) returns (ok: bool)
      modifies this`sent
      ensures ok ==> sent == old(sent) + data
      ensures !ok ==> !reliable && old(sent) <= sent <= old(sent) + data
    {
      var n := |data|;
      if !reliable {
        n :| 0 <= n <= |data|;
      }
      sent := sent + data[..n];
      ok := n == |data|;
    }
  }
}
