/** What the server and the client share beyond the framer: the request line
    and the test that routes a request to the tunnel, the canned responses,
    and the record of one framed read that the loops of both keep. */
module Messages {
  import opened Text
  import opened Sockets
  import opened Framer
  import opened FrameFacts

  const BadGateway: Bytes := "HTTP/1.1 502 Bad Gateway\r\n\r\n"
  const Established: Bytes := "HTTP/1.1 200 Connection established\r\n\r\n"
  const ConnectToken: Bytes := "CONNECT"

  /** `message.split('\r\n')[0]`: the text before the first CRLF, or the
      whole message when it has none. */
  function FirstLine(m: Bytes): Bytes
  {
    Split(m, CRLF)[0]
  }

  /** The request line is a prefix of the message without a CRLF, and is
      followed by one unless it is the whole message. */
  lemma FirstLineShape(m: Bytes)
    ensures IsPrefix(FirstLine(m), m) && !Contains(FirstLine(m), CRLF)
    ensures FirstLine(m) == m || OccursAt(m, CRLF, |FirstLine(m)|)
  {
    FirstField(m, CRLF);
    SplitPieces(m, CRLF);
  }

  /** `'CONNECT' in first_line`: the test both sides route a request by. */
  predicate IsConnect(m: Bytes)
  {
    Contains(FirstLine(m), ConnectToken)
  }

  /** The line in front of the first CRLF is the request line. */
  lemma FirstLineOf(line: Bytes, rest: Bytes)
    requires forall k :: 0 <= k < |line| ==> line[k] != CR
    ensures FirstLine(line + CRLF + rest) == line
  {
    var m := line + CRLF + rest;
    IndexOfCrlfAfter(line, rest);
    FirstField(m, CRLF);
    assert m[..|line|] == line;
  }

  /** A request goes to the tunnel exactly when its request line mentions
      `CONNECT`; the same word in a later header line does not count. */
  lemma RoutedByRequestLine(line: Bytes, rest: Bytes)
    requires forall k :: 0 <= k < |line| ==> line[k] != CR
    ensures IsConnect(line + CRLF + rest) <==> Contains(line, ConnectToken)
  {
    FirstLineOf(line, rest);
  }

  /** The test is a substring test, not a comparison of the method: a
      request line with `CONNECT` anywhere in it, say in the path of a
      `GET`, is routed to the tunnel too. */
  lemma ConnectAnywhere(pre: Bytes, post: Bytes, rest: Bytes)
    requires forall k :: 0 <= k < |pre + ConnectToken + post| ==> (pre + ConnectToken + post)[k] != CR
    ensures IsConnect(pre + ConnectToken + post + CRLF + rest)
  {
    var line := pre + ConnectToken + post;
    assert OccursAt(line, ConnectToken, |pre|) by {
      assert line[|pre|..|pre| + |ConnectToken|] == ConnectToken;
    }
    RoutedByRequestLine(line, rest);
  }

  // ================================================== recorded reads

  /** One call of the framer as the network played it: the bytes pending
      when it began and the two choices of the network it depends on. */
  datatype Read = Read(stream: Bytes, cut: nat, takes: seq<nat>)

  ghost predicate Reads(rd: Read)
  {
    HeadCut(rd.stream, rd.cut) && ValidTakes(rd.takes)
  }

  ghost function Got(rd: Read): Outcome<Bytes>
    requires Reads(rd)
  {
    Frame(rd.stream, rd.cut, rd.takes).result
  }

  ghost function After(rd: Read): Bytes
    requires Reads(rd)
  {
    Frame(rd.stream, rd.cut, rd.takes).rest
  }

  /** A read that yields a message takes at least its header block off the
      stream, so a loop that reads message after message comes to an end. */
  lemma ReadConsumes(rd: Read)
    requires Reads(rd) && Got(rd).Ok?
    ensures |After(rd)| < |rd.stream|
  {
    FrameShape(rd.stream, rd.cut, rd.takes);
    if !Contains(rd.stream, CRLFCRLF) {
      FrameNoHead(rd.stream, rd.cut, rd.takes);
    }
  }

  /** A read that meets the end of the stream leaves nothing unread. */
  lemma ReadEnds(rd: Read)
    requires Reads(rd) && Got(rd).EndOfStream?
    ensures After(rd) == []
  {
    FrameShape(rd.stream, rd.cut, rd.takes);
  }

  /** What a read yields is a complete header block and what follows it: a
      message the framer hands on always holds the blank line that ends
      its headers. */
  lemma ReadHasHead(rd: Read)
    requires Reads(rd) && Got(rd).Ok?
    ensures Contains(Got(rd).value, CRLFCRLF)
  {
    var s := rd.stream;
    FrameShape(s, rd.cut, rd.takes);
    if !Contains(s, CRLFCRLF) {
      FrameNoHead(s, rd.cut, rd.takes);
    } else {
      var e := HeaderEnd(s).value;
      OccursInPrefix(s, CRLFCRLF, rd.cut, e - 4);
      PrefixKeeps(s[..rd.cut], Got(rd).value, CRLFCRLF, e - 4);
    }
  }

  /** `read_http_message(conn)`, with the read it makes recorded in `rd`. */
  method ReadMessage(conn: Conn) returns (r: Outcome<Bytes>, ghost rd: Read)
    modifies conn`incoming
    ensures Reads(rd) && rd.stream == old(conn.incoming)
    ensures r == Got(rd) && conn.incoming == After(rd)
  {
    ghost var s := conn.incoming;
    ghost var cut, takes;
    r, cut, takes := ReadHttpMessage(conn);
    rd := Read(s, cut, takes);
  }

  /** What a proxy passes on for a response it framed: the message, or a
      502 when the stream ended before a whole message (`if not response`)
      or, on the server, carried a length `int()` cannot read. */
  function GatewayReply(r: Outcome<Bytes>): Bytes
  {
    if r.Ok? then r.value else BadGateway
  }

  /** Whatever a framed read gives, the reply passed on is a whole header
      block: the peer waiting for a response is never left with a partial one. */
  lemma GatewayAnswers(rd: Read)
    requires Reads(rd)
    ensures Contains(GatewayReply(Got(rd)), CRLFCRLF)
  {
    if Got(rd).Ok? {
      ReadHasHead(rd);
    } else {
      assert OccursAt(BadGateway, CRLFCRLF, |BadGateway| - 4) by {
        assert BadGateway[|BadGateway| - 4..] == CRLFCRLF;
      }
    }
  }

  /** What occurs in a prefix of `v` occurs in `v`. */
  lemma PrefixKeeps(p: Bytes, v: Bytes, t: Bytes, j: nat)
    requires IsPrefix(p, v) && OccursAt(p, t, j)
    ensures Contains(v, t)
  {
    assert v[..|p|][j..j + |t|] == v[j..j + |t|];
    assert OccursAt(v, t, j);
  }

  /** A step along a stream: a read, then `extra`, the bytes a tunnel
      relayed off the same stream before the next read. */
  datatype Hop = Hop(read: Read, extra: Bytes)

  ghost predicate HopOk(h: Hop)
  {
    Reads(h.read) && IsPrefix(h.extra, After(h.read))
  }

  ghost function HopEnd(h: Hop): Bytes
    requires HopOk(h)
  {
    After(h.read)[|h.extra|..]
  }

  /** `hops` read `s` back to back, leaving `rest` unread: each read begins
      where the previous hop ended. */
  ghost predicate Chain(s: Bytes, hops: seq<Hop>, rest: Bytes)
    decreases |hops|
  {
    if hops == [] then rest == s
    else
      var h := hops[|hops| - 1];
      Chain(s, hops[..|hops| - 1], h.read.stream) && HopOk(h) && rest == HopEnd(h)
  }

  lemma ChainSnoc(s: Bytes, hops: seq<Hop>, h: Hop)
    requires Chain(s, hops, h.read.stream) && HopOk(h)
    ensures Chain(s, hops + [h], HopEnd(h))
  {
    assert (hops + [h])[..|hops|] == hops;
  }

  // ================================================== the loops

  /** How a connection's loop ends: the stream ended and the connection is
      closed, an exception escaped and it is left open, or (on the client
      only) a tunnel hung up and the thread spins in its relay from then on,
      never getting back to the loop or to closing the connection. */
  datatype End = Closed | Crashed | Spins

  /** Whether a loop goes on after a turn. */
  datatype Step = Next | Stop(end: End)
}
