/** Connections as the proxy uses them: a stream of bytes coming in, a log of
    bytes sent out, and whether the proxy has closed its end. */
module Sockets {
  import opened Text

  class Conn {
    /** The bytes the peer will still deliver. Once this is empty the peer has
        closed its end, and every `recv` returns nothing. */
    var incoming: Bytes
    /** Everything written with `sendall`, in order. */
    var sent: Bytes
    var closed: bool

    constructor (incoming: Bytes)
      ensures this.incoming == incoming && sent == [] && !closed
    {
      this.incoming := incoming;
      sent := [];
      closed := false;
    }

    /** `recv(n)`: a non-empty prefix of at most `n` of the pending bytes, or
        nothing once they are exhausted. How many bytes one call returns is
        the network's choice, so the model chooses it arbitrarily. */
    method Recv(n: int) returns (data: Bytes)
      requires n > 0
      modifies this`incoming
      ensures data == [] <==> old(incoming) == []
      ensures |data| <= n && |data| <= |old(incoming)|
      ensures data == old(incoming)[..|data|]
      ensures incoming == old(incoming)[|data|..]
    {
      if incoming == [] {
        data := [];
      } else {
        var k :| 1 <= k <= n && k <= |incoming|;
        data := incoming[..k];
        incoming := incoming[k..];
      }
    }

    /** `sendall(data)`. */
    method SendAll(data: Bytes)
      modifies this`sent
      ensures sent == old(sent) + data
    {
      sent := sent + data;
    }

    method Close()
      modifies this`closed
      ensures closed
    {
      closed := true;
    }
  }

  /** A tunnel between `a` and `b`: whatever one side delivers is sent on to
      the other verbatim and in order. How far each direction gets before the
      relay stops is left open: `toB` is some prefix of what `a` had pending,
      `toA` some prefix of what `b` had pending. The relay stops either on a
      hang-up, a `recv` that returned nothing because one side has no bytes
      left, or quietly, when `select` reports an error condition (or, on the
      client, the idle timeout fires). A run in which neither happens never
      returns and has no outcome here. */
  method Relay(a: Conn, b: Conn) returns (toB: Bytes, toA: Bytes, hangup: bool)
    requires a != b
    modifies a`incoming, a`sent, b`incoming, b`sent
    ensures |toB| <= |old(a.incoming)| && |toA| <= |old(b.incoming)|
    ensures toB == old(a.incoming)[..|toB|] && a.incoming == old(a.incoming)[|toB|..]
    ensures toA == old(b.incoming)[..|toA|] && b.incoming == old(b.incoming)[|toA|..]
    ensures b.sent == old(b.sent) + toB && a.sent == old(a.sent) + toA
    ensures hangup ==> a.incoming == [] || b.incoming == []
  {
    var i :| 0 <= i <= |a.incoming|;
    var j :| 0 <= j <= |b.incoming|;
    hangup :| hangup ==> i == |a.incoming| || j == |b.incoming|;
    toB, toA := a.incoming[..i], b.incoming[..j];
    a.incoming, b.incoming := a.incoming[i..], b.incoming[j..];
    b.SendAll(toB);
    a.SendAll(toA);
  }
}
