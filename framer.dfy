/** `read_http_message`: reads one HTTP/1.x request or response off a
    connection. The same function appears in the server and in the client;
    this one definition serves both.

    The framer is written as the methods the source's loops are, and each
    method is proved against a specification function of the bytes the peer
    delivers. Two things the network decides are parameters of the
    specification: how many bytes the header loop had buffered when it first
    saw the terminator (`cut`), and how many bytes each unchecked `recv(2)`
    after a chunk returned (`takes`). */
module Framer {
  import opened Text
  import opened Numbers
  import opened Sockets

  /** The buffer size of the header loop's `recv`. */
  const HeaderReadSize: nat := 4096
  const LengthField: Bytes := "content-length:"
  const ChunkedToken: Bytes := "chunked"

  /** What a read produces: a value, `None` because the peer closed the
      stream first, or the `ValueError` of a number `int()` cannot read. */
  datatype Outcome<+T> = Ok(value: T) | EndOfStream | Malformed

  /** An outcome and the bytes left unread on the stream after it. */
  datatype Framing = Framing(result: Outcome<Bytes>, rest: Bytes)

  // ====================================================== specification

  /** Index just past the first CRLFCRLF of `s`: the length of the header block. */
  function HeaderEnd(s: Bytes): (r: Option<nat>)
    ensures r.Some? <==> Contains(s, CRLFCRLF)
    ensures r.Some? ==> 4 <= r.value <= |s| && OccursAt(s, CRLFCRLF, r.value - 4)
    ensures r.Some? ==> forall j: nat :: j < r.value - 4 ==> !OccursAt(s, CRLFCRLF, j)
  {
    match IndexOf(s, CRLFCRLF)
    case None => None
    case Some(i) => Some(i + 4)
  }

  /** The lengths the header buffer can have when the header loop stops:
      the loop reads blocks of at most 4096 bytes and stops at the first
      block after which the buffer holds the terminator, or at the end of
      the stream. */
  ghost predicate HeadCut(s: Bytes, cut: nat)
  {
    cut <= |s| &&
    match HeaderEnd(s)
    case None => cut == |s|
    case Some(e) => e <= cut < e + HeaderReadSize
  }

  /** Each unchecked `recv(2)` returns one or two bytes while bytes are pending. */
  ghost predicate ValidTakes(takes: seq<nat>)
  {
    forall i :: 0 <= i < |takes| ==> 1 <= takes[i] <= 2
  }

  function NextTake(takes: seq<nat>): nat
  {
    if takes == [] then 2 else takes[0]
  }

  function LaterTakes(takes: seq<nat>): seq<nat>
  {
    if takes == [] then [] else takes[1..]
  }

  /** The stream after a `recv(2)` that returned `k` bytes, or all that was left. */
  function Drop(t: Bytes, k: nat): (r: Bytes)
    ensures |r| <= |t| && r == t[|t| - |r|..]
  {
    t[Min(k, |t|)..]
  }

  /** A header line that declares the body length. */
  predicate IsLengthLine(line: Bytes)
  {
    StartsWith(line, LengthField)
  }

  /** `int(line.split(':')[1].strip())`: the text between the first colon
      and the next one, stripped and read as a decimal number. */
  function LengthValue(line: Bytes): Option<int>
    requires IsLengthLine(line)
  {
    assert OccursAt(line, ":", 14) by { assert line[14..15] == LengthField[14..15]; }
    var fields := Split(line, ":");
    assert |fields| >= 2;
    ParseInt(Strip(fields[1], StrSpace), 10)
  }

  /** A length line that `int()` cannot read. */
  predicate BadLengthLine(line: Bytes)
  {
    IsLengthLine(line) && LengthValue(line).None?
  }

  /** Index of the last length line. */
  function LastLengthLine(lines: seq<Bytes>): (r: Option<nat>)
    ensures r.Some? ==> r.value < |lines| && IsLengthLine(lines[r.value])
    ensures r.Some? ==> forall j :: r.value < j < |lines| ==> !IsLengthLine(lines[j])
    ensures r.None? ==> forall j :: 0 <= j < |lines| ==> !IsLengthLine(lines[j])
  {
    if lines == [] then None
    else if IsLengthLine(lines[|lines| - 1]) then Some(|lines| - 1)
    else
      var r := LastLengthLine(lines[..|lines| - 1]);
      assert forall j :: 0 <= j < |lines| - 1 ==> lines[..|lines| - 1][j] == lines[j];
      r
  }

  /** The body length the header lines declare: 0 when no line declares it,
      otherwise the value on the last line that does; `None` when any such
      line does not hold a number. */
  function DeclaredLength(lines: seq<Bytes>): (r: Option<int>)
  {
    if lines == [] then Some(0)
    else
      var init, last := lines[..|lines| - 1], lines[|lines| - 1];
      match DeclaredLength(init)
      case None => None
      case Some(v) =>
        if BadLengthLine(last) then None
        else if IsLengthLine(last) then LengthValue(last)
        else Some(v)
  }

  /** A length line `int()` cannot read makes the whole scan fail. */
  lemma BadLineFails(lines: seq<Bytes>, k: nat)
    requires k < |lines| && BadLengthLine(lines[k])
    ensures DeclaredLength(lines).None?
    decreases |lines|, 1
  {
    if k == |lines| - 1 {
      BadLastLine(lines, k);
    } else {
      BadEarlierLine(lines, k);
    }
  }

  lemma BadLastLine(lines: seq<Bytes>, k: nat)
    requires k == |lines| - 1 && BadLengthLine(lines[k])
    ensures DeclaredLength(lines).None?
  {
  }

  lemma {:induction false} BadEarlierLine(lines: seq<Bytes>, k: nat)
    requires k < |lines| - 1 && BadLengthLine(lines[k])
    ensures DeclaredLength(lines).None?
    decreases |lines|, 0
  {
    var init := lines[..|lines| - 1];
    assert init[k] == lines[k];
    BadLineFails(init, k);
  }

  /** A failed scan points at a length line `int()` cannot read. */
  lemma {:induction false} FailsAtBadLine(lines: seq<Bytes>) returns (k: nat)
    requires DeclaredLength(lines).None?
    ensures k < |lines| && BadLengthLine(lines[k])
  {
    var init := lines[..|lines| - 1];
    if DeclaredLength(init).None? {
      k := FailsAtBadLine(init);
      assert init[k] == lines[k];
    } else {
      k := |lines| - 1;
    }
  }

  /** The scan fails exactly when some length line does not hold a number. */
  lemma DeclaredLengthFails(lines: seq<Bytes>)
    ensures DeclaredLength(lines).None? <==> exists k :: 0 <= k < |lines| && BadLengthLine(lines[k])
  {
    if DeclaredLength(lines).None? {
      var k := FailsAtBadLine(lines);
    }
    if exists k :: 0 <= k < |lines| && BadLengthLine(lines[k]) {
      var k :| 0 <= k < |lines| && BadLengthLine(lines[k]);
      BadLineFails(lines, k);
    }
  }

  /** When the scan succeeds, the last length line decides, and no length
      line at all means 0. */
  lemma {:induction false} DeclaredLengthLastWins(lines: seq<Bytes>)
    requires DeclaredLength(lines).Some?
    ensures LastLengthLine(lines).None? ==> DeclaredLength(lines) == Some(0)
    ensures LastLengthLine(lines).Some? ==> DeclaredLength(lines) == LengthValue(lines[LastLengthLine(lines).value])
  {
    if lines != [] {
      var init := lines[..|lines| - 1];
      DeclaredLengthLastWins(init);
      if !IsLengthLine(lines[|lines| - 1]) {
        assert LastLengthLine(lines) == LastLengthLine(init);
        if LastLengthLine(init).Some? {
          assert lines[LastLengthLine(init).value] == init[LastLengthLine(init).value];
        }
      }
    }
  }

  /** How the body of a message is delimited. */
  datatype Rule = Fixed(length: nat) | Chunked | NoBody | BadLength

  /** The body rule of a header block: the header text is lower-cased; a
      declared length above zero comes first, then `chunked` anywhere in the
      text, and otherwise nothing more is read. */
  function BodyRule(head: Bytes): Rule
  {
    var text := Lower(head);
    match DeclaredLength(Split(text, CRLF))
    case None => BadLength
    case Some(n) =>
      if n > 0 then Fixed(n)
      else if Contains(text, ChunkedToken) then Chunked
      else NoBody
  }

  /** What `while len(buf) < n: buf += recv(n - len(buf))` makes of stream `t`:
      exactly the missing bytes, or the end of the stream. */
  function Exact(buf: Bytes, n: int, t: Bytes): (f: Framing)
    ensures |f.rest| <= |t|
  {
    if n <= |buf| then Framing(Ok(buf), t)
    else if n - |buf| <= |t| then Framing(Ok(buf + t[..n - |buf|]), t[n - |buf|..])
    else Framing(EndOfStream, [])
  }

  /** The chunked-body loop on stream `t`, appending payloads to `body`: a
      size line up to the first CRLF, read as hexadecimal; size 0 ends the
      body; otherwise `size` payload bytes, then an unchecked `recv(2)`. */
  function Dechunk(t: Bytes, takes: seq<nat>, body: Bytes): Framing
    decreases |t|
  {
    match IndexOf(t, CRLF)
    case None => Framing(EndOfStream, [])
    case Some(i) =>
      var after := t[i + 2..];
      match ParseInt(t[..i], 16)
      case None => Framing(Malformed, after)
      case Some(size) =>
        if size == 0 then Framing(Ok(body), Drop(after, NextTake(takes)))
        else
          var payload := Exact([], size, after);
          if payload.result.Ok? then
            Dechunk(Drop(payload.rest, NextTake(takes)), LaterTakes(takes), body + payload.result.value)
          else payload
  }

  function WithHead(head: Bytes, f: Framing): Framing
  {
    if f.result.Ok? then Framing(Ok(head + f.result.value), f.rest) else f
  }

  /** The message with header block `head`, given the bytes `left` the header
      loop read past it and the stream `t` after them. */
  function FrameBody(rule: Rule, head: Bytes, left: Bytes, t: Bytes, takes: seq<nat>): Framing
  {
    match rule
    case BadLength => Framing(Malformed, t)
    case NoBody => Framing(Ok(head + left), t)
    case Fixed(n) => WithHead(head, Exact(left, n, t))
    case Chunked => WithHead(head, Dechunk(t, takes, left))
  }

  /** The message framed from stream `s`, and what is left of the stream. */
  ghost function Frame(s: Bytes, cut: nat, takes: seq<nat>): Framing
    requires HeadCut(s, cut)
  {
    match HeaderEnd(s)
    case None => Framing(EndOfStream, [])
    case Some(e) => FrameBody(BodyRule(s[..e]), s[..e], s[e..cut], s[cut..], takes)
  }

  lemma FrameAt(s: Bytes, cut: nat, takes: seq<nat>, e: nat)
    requires HeadCut(s, cut) && HeaderEnd(s) == Some(e)
    ensures e <= cut
    ensures Frame(s, cut, takes) == FrameBody(BodyRule(s[..e]), s[..e], s[e..cut], s[cut..], takes)
  {
  }

  lemma BodyRuleOf(head: Bytes, n: Option<int>, chunked: bool)
    requires n == DeclaredLength(Split(Lower(head), CRLF))
    requires chunked == IndexOf(Lower(head), ChunkedToken).Some?
    ensures BodyRule(head) ==
      if n.None? then BadLength
      else if n.value > 0 then Fixed(n.value)
      else if chunked then Chunked
      else NoBody
  {
  }

  // ====================================================== the framer

  /** The header loop: `recv(4096)` until the buffer holds CRLFCRLF. */
  method ReadHead(conn: Conn) returns (buf: Option<Bytes>)
    modifies conn`incoming
    ensures buf.None? ==> HeaderEnd(old(conn.incoming)).None? && conn.incoming == []
    ensures buf.Some? ==> HeaderEnd(old(conn.incoming)).Some? && HeadCut(old(conn.incoming), |buf.value|)
    ensures buf.Some? ==> buf.value == old(conn.incoming)[..|buf.value|]
    ensures buf.Some? ==> HeaderEnd(buf.value) == HeaderEnd(old(conn.incoming))
    ensures buf.Some? ==> conn.incoming == old(conn.incoming)[|buf.value|..]
  {
    ghost var s := conn.incoming;
    var headers: Bytes := [];
    ghost var before: nat := 0;
    while IndexOf(headers, CRLFCRLF).None?
      invariant |headers| <= |s| && headers == s[..|headers|] && conn.incoming == s[|headers|..]
      invariant before <= |headers| <= before + HeaderReadSize
      invariant IndexOf(s[..before], CRLFCRLF).None?
      decreases |conn.incoming|
    {
      var data := conn.Recv(HeaderReadSize);
      if data == [] {
        assert s == headers;
        return None;
      }
      before := |headers|;
      PrefixGrows(s, before, data);
      headers := headers + data;
    }
    IndexOfPrefix(s, CRLFCRLF, |headers|);
    var e := HeaderEnd(s).value;
    forall j: nat | j + 4 <= before ensures !OccursAt(s, CRLFCRLF, j) {
      OccursInPrefix(s, CRLFCRLF, before, j);
    }
    assert e > before;
    return Some(headers);
  }

  /** The body loop of the length branch, also used for chunk payloads:
      `recv(n - len(buf))` until `buf` holds `n` bytes. */
  method ReadExact(conn: Conn, buf: Bytes, n: int) returns (r: Outcome<Bytes>)
    modifies conn`incoming
    ensures Framing(r, conn.incoming) == Exact(buf, n, old(conn.incoming))
  {
    ghost var s := conn.incoming;
    var got := buf;
    while |got| < n
      invariant |buf| <= |got| && |got| - |buf| <= |s|
      invariant got == buf + s[..|got| - |buf|] && conn.incoming == s[|got| - |buf|..]
      invariant |got| <= n || got == buf
      decreases n - |got|
    {
      var data := conn.Recv(n - |got|);
      if data == [] {
        return EndOfStream;
      }
      assert s[..|got| - |buf| + |data|] == s[..|got| - |buf|] + data;
      got := got + data;
    }
    if n > |buf| {
      assert |got| - |buf| == n - |buf|;
    }
    return Ok(got);
  }

  /** The size-line loop: `recv(1)` until the line holds CRLF. */
  method ReadSizeLine(conn: Conn) returns (line: Option<Bytes>)
    modifies conn`incoming
    ensures IndexOf(old(conn.incoming), CRLF).None? ==> line.None? && conn.incoming == []
    ensures IndexOf(old(conn.incoming), CRLF).Some? ==>
      var i := IndexOf(old(conn.incoming), CRLF).value;
      line == Some(old(conn.incoming)[..i + 2]) && conn.incoming == old(conn.incoming)[i + 2..]
  {
    ghost var s := conn.incoming;
    var chunkHeader: Bytes := [];
    while IndexOf(chunkHeader, CRLF).None?
      invariant |chunkHeader| <= |s| && chunkHeader == s[..|chunkHeader|]
      invariant conn.incoming == s[|chunkHeader|..]
      invariant chunkHeader != [] ==> IndexOf(chunkHeader[..|chunkHeader| - 1], CRLF).None?
      decreases |conn.incoming|
    {
      var data := conn.Recv(1);
      if data == [] {
        assert s == chunkHeader;
        return None;
      }
      PrefixGrows(s, |chunkHeader|, data);
      chunkHeader := chunkHeader + data;
    }
    IndexOfPrefix(s, CRLF, |chunkHeader|);
    var i := IndexOf(s, CRLF).value;
    assert i + 2 == |chunkHeader| by {
      if i + 2 < |chunkHeader| {
        OccursInPrefix(chunkHeader, CRLF, |chunkHeader| - 1, i);
      }
    }
    return Some(chunkHeader);
  }

  /** The chunked-body loop's turns, unfolded one case at a time. */
  lemma DechunkNoLine(t: Bytes, takes: seq<nat>, body: Bytes)
    requires IndexOf(t, CRLF).None?
    ensures Dechunk(t, takes, body) == Framing(EndOfStream, [])
  {
  }

  lemma DechunkBadSize(t: Bytes, i: nat, takes: seq<nat>, body: Bytes)
    requires IndexOf(t, CRLF) == Some(i) && ParseInt(t[..i], 16).None?
    ensures Dechunk(t, takes, body) == Framing(Malformed, t[i + 2..])
  {
  }

  /** Size 0 ends the body, after an unchecked `recv(2)`. */
  lemma DechunkEnds(t: Bytes, i: nat, takes: seq<nat>, body: Bytes)
    requires IndexOf(t, CRLF) == Some(i) && ParseInt(t[..i], 16) == Some(0)
    ensures Dechunk(t, takes, body) == Framing(Ok(body), Drop(t[i + 2..], NextTake(takes)))
  {
  }

  lemma DechunkShort(t: Bytes, i: nat, size: int, takes: seq<nat>, body: Bytes)
    requires IndexOf(t, CRLF) == Some(i) && ParseInt(t[..i], 16) == Some(size) && size != 0
    requires !Exact([], size, t[i + 2..]).result.Ok?
    ensures Dechunk(t, takes, body) == Exact([], size, t[i + 2..])
  {
  }

  /** The first `recv(2)` length of `[k] + later` is `k`, and `later` are the rest. */
  lemma TakesOf(k: nat, later: seq<nat>)
    ensures NextTake([k] + later) == k && LaterTakes([k] + later) == later
  {
    assert ([k] + later)[1..] == later;
  }

  lemma DechunkPayload(t: Bytes, i: nat, size: int, k: nat, later: seq<nat>, body: Bytes)
    requires IndexOf(t, CRLF) == Some(i) && ParseInt(t[..i], 16) == Some(size) && size != 0
    requires Exact([], size, t[i + 2..]).result.Ok?
    ensures var payload := Exact([], size, t[i + 2..]);
      Dechunk(t, [k] + later, body) == Dechunk(Drop(payload.rest, k), later, body + payload.result.value)
  {
    TakesOf(k, later);
    var payload := Exact([], size, t[i + 2..]);
    assert Dechunk(t, [k] + later, body) ==
      Dechunk(Drop(payload.rest, NextTake([k] + later)), LaterTakes([k] + later), body + payload.result.value);
  }

  /** The chunked-body loop on `s` after the turns whose `recv(2)` calls
      returned `takes`, from `body0`, goes on as the loop on `t` from
      `body`, whatever the later turns' `recv(2)` calls return. */
  ghost predicate Resumes(s: Bytes, takes: seq<nat>, body0: Bytes, t: Bytes, body: Bytes)
  {
    forall later: seq<nat> :: Dechunk(s, takes + later, body0) == Dechunk(t, later, body)
  }

  lemma ResumesHere(s: Bytes, body: Bytes)
    ensures Resumes(s, [], body, s, body)
  {
    assert forall later: seq<nat> :: [] + later == later;
  }

  lemma ResumesThen(s: Bytes, a: seq<nat>, body0: Bytes, m: Bytes, b: seq<nat>, body1: Bytes, t: Bytes, body: Bytes)
    requires Resumes(s, a, body0, m, body1) && Resumes(m, b, body1, t, body)
    ensures Resumes(s, a + b, body0, t, body)
  {
    forall later: seq<nat> ensures Dechunk(s, a + b + later, body0) == Dechunk(t, later, body) {
      assert a + b + later == a + (b + later);
    }
  }

  lemma ResumesEnds(s: Bytes, takes: seq<nat>, body0: Bytes, t: Bytes, body: Bytes, k: nat)
    requires Resumes(s, takes, body0, t, body)
    ensures Dechunk(s, takes + [k], body0) == Dechunk(t, [k], body)
  {
  }

  /** After a whole payload and its `recv(2)`, the loop goes on from the
      enlarged body, whatever the later turns read. */
  lemma PayloadResumes(t: Bytes, i: nat, size: int, k: nat, body: Bytes)
    requires IndexOf(t, CRLF) == Some(i) && ParseInt(t[..i], 16) == Some(size) && size != 0
    requires Exact([], size, t[i + 2..]).result.Ok?
    ensures var payload := Exact([], size, t[i + 2..]);
      Resumes(t, [k], body, Drop(payload.rest, k), body + payload.result.value)
  {
    forall later: seq<nat> {
      DechunkPayload(t, i, size, k, later, body);
    }
  }

  /** What one turn of the chunked-body loop did: appended a chunk and goes
      on, or ended the loop with an outcome. */
  datatype ChunkStep = Continue(body: Bytes) | Done(result: Outcome<Bytes>)

  /** One turn of the chunked-body loop: a size line, then the payload and
      an unchecked `recv(2)`, which returned `k` bytes. */
  method ReadChunk(conn: Conn, body: Bytes) returns (turn: ChunkStep, ghost k: nat)
    modifies conn`incoming
    ensures 1 <= k <= 2
    ensures turn.Done? ==> Dechunk(old(conn.incoming), [k], body) == Framing(turn.result, conn.incoming)
    ensures turn.Continue? ==> |conn.incoming| < |old(conn.incoming)|
    ensures turn.Continue? ==> Resumes(old(conn.incoming), [k], body, conn.incoming, turn.body)
  {
    ghost var here := conn.incoming;
    k := 2;
    var line := ReadSizeLine(conn);
    if line.None? {
      DechunkNoLine(here, [k], body);
      return Done(EndOfStream), k;
    }
    var i := |line.value| - 2;
    ghost var after := conn.incoming;
    assert line.value[..i] == here[..i];
    var size := ParseInt(line.value[..i], 16);
    if size.None? {
      DechunkBadSize(here, i, [k], body);
      return Done(Malformed), k;
    }
    if size.value == 0 {
      var trailer := conn.Recv(2);
      k := if trailer == [] then 2 else |trailer|;
      assert conn.incoming == Drop(after, k);
      DechunkEnds(here, i, [k], body);
      assert Dechunk(here, [k], body) == Framing(Ok(body), Drop(after, k));
      return Done(Ok(body)), k;
    }
    var chunk := ReadExact(conn, [], size.value);
    if !chunk.Ok? {
      DechunkShort(here, i, size.value, [k], body);
      return Done(chunk), k;
    }
    ghost var payloadRest := conn.incoming;
    var trailer := conn.Recv(2);
    k := if trailer == [] then 2 else |trailer|;
    assert conn.incoming == Drop(payloadRest, k);
    PayloadResumes(here, i, size.value, k, body);
    return Continue(body + chunk.value), k;
  }

  /** The chunked-body loop. */
  method ReadChunks(conn: Conn, body0: Bytes) returns (r: Outcome<Bytes>, ghost takes: seq<nat>)
    modifies conn`incoming
    ensures ValidTakes(takes)
    ensures Dechunk(old(conn.incoming), takes, body0) == Framing(r, conn.incoming)
  {
    ghost var s := conn.incoming;
    takes := [];
    var body := body0;
    ResumesHere(s, body0);
    while true
      invariant ValidTakes(takes)
      invariant Resumes(s, takes, body0, conn.incoming, body)
      decreases |conn.incoming|
    {
      ghost var here := conn.incoming;
      ghost var k;
      var turn;
      turn, k := ReadChunk(conn, body);
      if turn.Done? {
        ResumesEnds(s, takes, body0, here, body, k);
        return turn.result, takes + [k];
      }
      ResumesThen(s, takes, body0, here, [k], body, conn.incoming, turn.body);
      takes := takes + [k];
      body := turn.body;
    }
  }

  lemma DeclaredLengthStep(lines: seq<Bytes>, i: nat, v: int)
    requires i < |lines| && DeclaredLength(lines[..i]) == Some(v) && !BadLengthLine(lines[i])
    ensures DeclaredLength(lines[..i + 1]) == if IsLengthLine(lines[i]) then LengthValue(lines[i]) else Some(v)
  {
    assert lines[..i + 1][..i] == lines[..i];
  }

  /** The content-length scan: every line starting with the field name sets
      the length, so the last one wins; the first that `int()` cannot read
      raises. */
  method ScanContentLength(lines: seq<Bytes>) returns (r: Option<int>)
    ensures r == DeclaredLength(lines)
  {
    var contentLength := 0;
    for i := 0 to |lines|
      invariant DeclaredLength(lines[..i]) == Some(contentLength)
    {
      if !BadLengthLine(lines[i]) {
        DeclaredLengthStep(lines, i, contentLength);
      }
      if IsLengthLine(lines[i]) {
        var value := LengthValue(lines[i]);
        if value.None? {
          assert BadLengthLine(lines[i]);
          DeclaredLengthFails(lines);
          return None;
        }
        contentLength := value.value;
      }
    }
    assert lines[..|lines|] == lines;
    return Some(contentLength);
  }

  /** `read_http_message(conn)`. */
  method ReadHttpMessage(conn: Conn) returns (r: Outcome<Bytes>, ghost cut: nat, ghost takes: seq<nat>)
    modifies conn`incoming
    ensures HeadCut(old(conn.incoming), cut) && ValidTakes(takes)
    ensures Frame(old(conn.incoming), cut, takes) == Framing(r, conn.incoming)
  {
    ghost var s := conn.incoming;
    takes := [];
    var buf := ReadHead(conn);
    if buf.None? {
      cut := |s|;
      return EndOfStream, cut, takes;
    }
    var headers := buf.value;
    cut := |headers|;
    var headerEnd := IndexOf(headers, CRLFCRLF).value + 4;
    var headerBytes := headers[..headerEnd];
    var body := headers[headerEnd..];
    assert headerBytes == s[..headerEnd] && body == s[headerEnd..cut];
    FrameAt(s, cut, takes, headerEnd);
    var headerText := Lower(headerBytes);
    var chunked := IndexOf(headerText, ChunkedToken).Some?;
    var contentLength := ScanContentLength(Split(headerText, CRLF));
    BodyRuleOf(headerBytes, contentLength, chunked);
    if contentLength.None? {
      return Malformed, cut, takes;
    }
    if contentLength.value > 0 {
      var got := ReadExact(conn, body, contentLength.value);
      r := if got.Ok? then Ok(headerBytes + got.value) else got;
    } else if chunked {
      var got;
      got, takes := ReadChunks(conn, body);
      FrameAt(s, cut, takes, headerEnd);
      r := if got.Ok? then Ok(headerBytes + got.value) else got;
    } else {
      r := Ok(headerBytes + body);
    }
  }
}
