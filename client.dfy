/** The client side of the proxy: `proxy_thread`, which serves one browser
    connection over the single connection to the server that every browser
    connection shares. */
module Client {
  import opened Text
  import opened Sockets
  import opened Framer
  import opened FrameFacts
  import opened Messages

  /** What a tunnel passes on of the server's first response: the message,
      or nothing when the server closed first. */
  function Passed(r: Outcome<Bytes>): Bytes
  {
    if r.Ok? then r.value else []
  }

  /** What the browser receives for request `m`, given the hop of the
      shared stream that answered it: for a tunnel, the server's response
      if any and then what the relay carried back; otherwise the response
      or a 502. */
  ghost function Answer(m: Bytes, response: Hop): Bytes
    requires Reads(response.read)
  {
    if IsConnect(m) then Passed(Got(response.read)) + response.extra
    else GatewayReply(Got(response.read))
  }

  /** The part of `proxy_thread` under the lock, for the request `m` just
      read: forward it to the server, then either pass on the server's
      response and relay until the tunnel ends, or pass on the response or
      a 502. A length the framer cannot read raises, ending the thread; a
      tunnel that hangs up leaves the thread spinning (`hung`). */
  method Exchange(m: Bytes, browser: Conn, shared: Conn)
    returns (crashed: bool, hung: bool, ghost response: Hop, ghost toShared: Bytes)
    requires browser != shared
    modifies browser`incoming, browser`sent, shared`incoming, shared`sent
    ensures Reads(response.read) && response.read.stream == old(shared.incoming)
    ensures crashed <==> Got(response.read).Malformed?
    ensures hung ==> !crashed && IsConnect(m) && (browser.incoming == [] || shared.incoming == [])
    ensures crashed ==>
      shared.incoming == After(response.read) && shared.sent == old(shared.sent) + m &&
      browser.incoming == old(browser.incoming) && browser.sent == old(browser.sent)
    ensures !crashed ==>
      HopOk(response) && shared.incoming == HopEnd(response) &&
      IsPrefix(toShared, old(browser.incoming)) && browser.incoming == old(browser.incoming)[|toShared|..] &&
      (!IsConnect(m) ==> toShared == [] && response.extra == []) &&
      browser.sent == old(browser.sent) + Answer(m, response) &&
      shared.sent == old(shared.sent) + m + toShared
  {
    shared.SendAll(m);
    if Contains(FirstLine(m), ConnectToken) {
      ghost var rd, toBrowser;
      ghost var b := browser.sent;
      crashed, hung, rd, toShared, toBrowser := PassTunnel(browser, shared);
      response := Hop(rd, toBrowser);
      Regroup(b, Passed(Got(rd)), toBrowser);
    } else {
      ghost var rd;
      crashed, rd := PassPlain(browser, shared);
      hung, response, toShared := false, Hop(rd, []), [];
      NilSuffix(After(rd));
      NilSuffix(old(browser.incoming));
    }
  }

  /** The tunnel branch: read the server's answer to the `CONNECT` and pass
      it on when there is one, then relay both ways. The inner `break`
      on a `recv` that returned nothing leaves only the `for`: the
      `while True` around it goes on selecting the closed side for ever,
      which `hung` reports. */
  method PassTunnel(browser: Conn, shared: Conn)
    returns (crashed: bool, hung: bool, ghost rd: Read, ghost toShared: Bytes, ghost toBrowser: Bytes)
    requires browser != shared
    modifies browser`incoming, browser`sent, shared`incoming, shared`sent
    ensures Reads(rd) && rd.stream == old(shared.incoming)
    ensures crashed <==> Got(rd).Malformed?
    ensures hung ==> !crashed && (browser.incoming == [] || shared.incoming == [])
    ensures crashed ==>
      shared.incoming == After(rd) && shared.sent == old(shared.sent) &&
      browser.incoming == old(browser.incoming) && browser.sent == old(browser.sent)
    ensures !crashed ==>
      IsPrefix(toBrowser, After(rd)) && shared.incoming == After(rd)[|toBrowser|..] &&
      IsPrefix(toShared, old(browser.incoming)) && browser.incoming == old(browser.incoming)[|toShared|..] &&
      browser.sent == old(browser.sent) + Passed(Got(rd)) + toBrowser &&
      shared.sent == old(shared.sent) + toShared
  {
    var response;
    response, rd := ReadMessage(shared);
    toShared, toBrowser := [], [];
    if response.Malformed? {
      return true, false, rd, toShared, toBrowser;
    }
    crashed := false;
    if response.Ok? {
      browser.SendAll(response.value);
    }
    var up, down, hangup := Relay(browser, shared);
    toShared, toBrowser, hung := up, down, hangup;
  }

  /** The normal branch: read the server's response and pass it on, or a
      502 when the server closed before a whole message. */
  method PassPlain(browser: Conn, shared: Conn) returns (crashed: bool, ghost rd: Read)
    modifies browser`sent, shared`incoming
    ensures Reads(rd) && rd.stream == old(shared.incoming) && shared.incoming == After(rd)
    ensures crashed <==> Got(rd).Malformed?
    ensures crashed ==> browser.sent == old(browser.sent)
    ensures !crashed ==> browser.sent == old(browser.sent) + GatewayReply(Got(rd))
  {
    var response;
    response, rd := ReadMessage(shared);
    if response.Malformed? {
      return true, rd;
    }
    crashed := false;
    if response.Ok? {
      browser.SendAll(response.value);
    } else {
      browser.SendAll(BadGateway);
    }
  }

  // ====================================================== the loop

  /** One completed turn of the loop: the hop of the browser's stream that
      read a request (and, for a tunnel, what the relay took from it after),
      and the hop of the shared stream that answered it. */
  datatype Turn = Turn(request: Hop, response: Hop)

  ghost predicate Proxied(t: Turn)
  {
    HopOk(t.request) && Got(t.request.read).Ok? &&
    HopOk(t.response) && !Got(t.response.read).Malformed? &&
    (!IsConnect(Got(t.request.read).value) ==> t.request.extra == [] && t.response.extra == [])
  }

  ghost function Request(t: Turn): Bytes
    requires Proxied(t)
  {
    Got(t.request.read).value
  }

  /** What a turn sent on the shared connection: the request, then what the
      tunnel relayed. */
  ghost function Upward(t: Turn): Bytes
    requires Proxied(t)
  {
    Request(t) + t.request.extra
  }

  ghost function Downward(t: Turn): Bytes
    requires Proxied(t)
  {
    Answer(Request(t), t.response)
  }

  ghost function ToShared(log: seq<Turn>): Bytes
    requires forall i :: 0 <= i < |log| ==> Proxied(log[i])
  {
    if log == [] then [] else ToShared(log[..|log| - 1]) + Upward(log[|log| - 1])
  }

  ghost function ToBrowser(log: seq<Turn>): Bytes
    requires forall i :: 0 <= i < |log| ==> Proxied(log[i])
  {
    if log == [] then [] else ToBrowser(log[..|log| - 1]) + Downward(log[|log| - 1])
  }

  ghost function Requests(log: seq<Turn>): seq<Hop>
  {
    seq(|log|, i requires 0 <= i < |log| => log[i].request)
  }

  ghost function Responses(log: seq<Turn>): seq<Hop>
  {
    seq(|log|, i requires 0 <= i < |log| => log[i].response)
  }

  /** How the loop stopped after its last read `last` of the browser's
      stream: the browser closed (a clean `break`), the request carried a
      length `int()` cannot read, the server's response to it did, read
      as `pending`, or the request opened a tunnel that hung up. */
  ghost predicate Stops(last: Read, pending: Option<Read>, end: End)
    requires Reads(last)
  {
    match Got(last)
    case EndOfStream => end == Closed && pending.None?
    case Malformed => end == Crashed && pending.None?
    case Ok(_) =>
      (end == Crashed && pending.Some? && Reads(pending.value) && Got(pending.value).Malformed?) ||
      (end == Spins && pending.None?)
  }

  /** A plain turn sends the server the request alone, and the browser
      the server's response or a 502: a whole header block either way. */
  lemma PlainTurn(t: Turn)
    requires Proxied(t) && !IsConnect(Request(t))
    ensures Upward(t) == Request(t)
    ensures Got(t.response.read).Ok? ==> Downward(t) == Got(t.response.read).value
    ensures Got(t.response.read).EndOfStream? ==> Downward(t) == BadGateway
    ensures Contains(Downward(t), CRLFCRLF)
  {
    GatewayAnswers(t.response.read);
    assert Request(t) + [] == Request(t);
  }

  /** A tunnel turn sends the server the request and then the bytes the
      browser sent right after it, and the browser the server's first
      response, when there was one, and then the bytes the server sent
      right after that. */
  lemma TunnelTurn(t: Turn)
    requires Proxied(t) && IsConnect(Request(t))
    ensures IsPrefix(Request(t), Upward(t)) && IsPrefix(t.request.extra, After(t.request.read))
    ensures Got(t.response.read).Ok? ==> IsPrefix(Got(t.response.read).value, Downward(t))
    ensures Got(t.response.read).EndOfStream? ==> Downward(t) == t.response.extra
    ensures IsPrefix(t.response.extra, After(t.response.read))
  {
    var r := Got(t.response.read);
    assert Downward(t) == Passed(r) + t.response.extra;
    PrefixOfAppend(Request(t), t.request.extra);
    if r.Ok? {
      PrefixOfAppend(r.value, t.response.extra);
    } else {
      assert [] + t.response.extra == t.response.extra;
    }
  }

  /** One turn of `proxy_thread`'s loop. */
  method ProxyOne(browser: Conn, shared: Conn)
    returns (step: Step, ghost t: Turn, ghost last: Read, ghost pending: Option<Read>)
    requires browser != shared
    modifies browser`incoming, browser`sent, shared`incoming, shared`sent
    ensures Reads(last) && last.stream == old(browser.incoming)
    ensures step.Stop? ==> Stops(last, pending, step.end)
    ensures step.Stop? && step.end != Spins ==>
      browser.incoming == After(last) && browser.sent == old(browser.sent)
    ensures step.Stop? && step.end != Spins && pending.None? ==>
      shared.incoming == old(shared.incoming) && shared.sent == old(shared.sent)
    ensures step.Stop? && pending.Some? ==>
      Got(last).Ok? && Reads(pending.value) && pending.value.stream == old(shared.incoming) &&
      shared.incoming == After(pending.value) && shared.sent == old(shared.sent) + Got(last).value
    ensures step == Stop(Spins) ==>
      Proxied(t) && IsConnect(Request(t)) && (browser.incoming == [] || shared.incoming == [])
    ensures step.Next? || step == Stop(Spins) ==>
      t.request.read == last && Proxied(t) &&
      browser.incoming == HopEnd(t.request) && |browser.incoming| < |old(browser.incoming)| &&
      t.response.read.stream == old(shared.incoming) && shared.incoming == HopEnd(t.response) &&
      browser.sent == old(browser.sent) + Downward(t) && shared.sent == old(shared.sent) + Upward(t)
  {
    var request;
    request, last := ReadMessage(browser);
    pending := None;
    t := Turn(Hop(last, []), Hop(last, []));
    if request.EndOfStream? {
      return Stop(Closed), t, last, pending;
    }
    if request.Malformed? {
      return Stop(Crashed), t, last, pending;
    }
    var m := request.value;
    ReadConsumes(last);
    ghost var up := shared.sent;
    var crashed, hung, response, toShared := Exchange(m, browser, shared);
    Regroup(up, m, toShared);
    if crashed {
      return Stop(Crashed), t, last, Some(response.read);
    }
    t := Turn(Hop(last, toShared), response);
    step := if hung then Stop(Spins) else Next;
  }

  /** The turns `log` read the browser's stream `b0` down to `bRest` and
      the shared stream `s0` down to `sRest`, and sent on each connection
      what they say after what it had been sent before. */
  ghost predicate Proxying(log: seq<Turn>, b0: Bytes, bRest: Bytes, bSent0: Bytes, bSent: Bytes,
                           s0: Bytes, sRest: Bytes, sSent0: Bytes, sSent: Bytes)
  {
    (forall i :: 0 <= i < |log| ==> Proxied(log[i])) &&
    Chain(b0, Requests(log), bRest) && Chain(s0, Responses(log), sRest) &&
    bSent == bSent0 + ToBrowser(log) && sSent == sSent0 + ToShared(log)
  }

  lemma ProxiedSnoc(log: seq<Turn>, t: Turn)
    requires forall i :: 0 <= i < |log| ==> Proxied(log[i])
    requires Proxied(t)
    ensures forall i :: 0 <= i < |log + [t]| ==> Proxied((log + [t])[i])
  {
  }

  lemma SharedSnoc(log: seq<Turn>, t: Turn)
    requires forall i :: 0 <= i < |log| ==> Proxied(log[i])
    requires Proxied(t)
    ensures forall i :: 0 <= i < |log + [t]| ==> Proxied((log + [t])[i])
    ensures ToShared(log + [t]) == ToShared(log) + Upward(t)
  {
    ProxiedSnoc(log, t);
    InitOfSnoc(log, t);
  }

  lemma BrowserSnoc(log: seq<Turn>, t: Turn)
    requires forall i :: 0 <= i < |log| ==> Proxied(log[i])
    requires Proxied(t)
    ensures forall i :: 0 <= i < |log + [t]| ==> Proxied((log + [t])[i])
    ensures ToBrowser(log + [t]) == ToBrowser(log) + Downward(t)
  {
    ProxiedSnoc(log, t);
    InitOfSnoc(log, t);
  }

  lemma HopsSnoc(log: seq<Turn>, t: Turn)
    ensures Requests(log + [t]) == Requests(log) + [t.request]
    ensures Responses(log + [t]) == Responses(log) + [t.response]
  {
  }

  lemma ProxyingSnoc(log: seq<Turn>, t: Turn, b0: Bytes, bSent0: Bytes, bSent: Bytes,
                     s0: Bytes, sSent0: Bytes, sSent: Bytes)
    requires Proxying(log, b0, t.request.read.stream, bSent0, bSent, s0, t.response.read.stream, sSent0, sSent)
    requires Proxied(t)
    ensures Proxying(log + [t], b0, HopEnd(t.request), bSent0, bSent + Downward(t),
                     s0, HopEnd(t.response), sSent0, sSent + Upward(t))
  {
    SharedSnoc(log, t);
    BrowserSnoc(log, t);
    HopsSnoc(log, t);
    ChainSnoc(b0, Requests(log), t.request);
    ChainSnoc(s0, Responses(log), t.response);
    Regroup(bSent0, ToBrowser(log), Downward(t));
    Regroup(sSent0, ToShared(log), Upward(t));
  }

  /** What a whole run of the loop did. The turns `log` read the browser's
      stream `b0` back to back up to the last read `last`, which stopped the
      loop, leaving `bRest`; the browser was sent what the turns answered.
      The shared stream `s0` was read alongside, its responses chained the
      same way; when the loop stopped on a response it could not frame,
      that read is `pending` and the request it answered had been sent.
      When a tunnel hung up, its turn is the last of `log`, and one of the
      two streams is drained. */
  ghost predicate Proxies(log: seq<Turn>, last: Read, pending: Option<Read>, end: End,
                          b0: Bytes, bRest: Bytes, bSent0: Bytes, bSent: Bytes,
                          s0: Bytes, sRest: Bytes, sSent0: Bytes, sSent: Bytes)
  {
    (forall i :: 0 <= i < |log| ==> Proxied(log[i])) &&
    Reads(last) && Stops(last, pending, end) && bSent == bSent0 + ToBrowser(log) &&
    (end == Spins ==>
      log != [] && last == log[|log| - 1].request.read && IsConnect(Request(log[|log| - 1])) &&
      Chain(b0, Requests(log), bRest) && Chain(s0, Responses(log), sRest) &&
      sSent == sSent0 + ToShared(log) && (bRest == [] || sRest == [])) &&
    (end != Spins ==>
      Chain(b0, Requests(log), last.stream) && bRest == After(last) &&
      (pending.None? ==> Chain(s0, Responses(log), sRest) && sSent == sSent0 + ToShared(log)) &&
      (pending.Some? ==>
        Got(last).Ok? && Reads(pending.value) &&
        Chain(s0, Responses(log), pending.value.stream) && sRest == After(pending.value) &&
        sSent == sSent0 + ToShared(log) + Got(last).value))
  }

  /** The `while True` of `proxy_thread`. */
  method ProxyLoop(browser: Conn, shared: Conn)
    returns (end: End, ghost log: seq<Turn>, ghost last: Read, ghost pending: Option<Read>)
    requires browser != shared
    modifies browser`incoming, browser`sent, shared`incoming, shared`sent
    ensures Proxies(log, last, pending, end,
                    old(browser.incoming), browser.incoming, old(browser.sent), browser.sent,
                    old(shared.incoming), shared.incoming, old(shared.sent), shared.sent)
  {
    log := [];
    ghost var b0, bSent0, s0, sSent0 := browser.incoming, browser.sent, shared.incoming, shared.sent;
    while true
      invariant Proxying(log, b0, browser.incoming, bSent0, browser.sent, s0, shared.incoming, sSent0, shared.sent)
      decreases |browser.incoming|
    {
      var step;
      ghost var t;
      ghost var bSent, sSent := browser.sent, shared.sent;
      step, t, last, pending := ProxyOne(browser, shared);
      if step.Stop? && step.end != Spins {
        return step.end, log, last, pending;
      }
      ProxyingSnoc(log, t, b0, bSent0, bSent, s0, sSent0, sSent);
      log := log + [t];
      if step.Stop? {
        return step.end, log, last, pending;
      }
    }
  }

  /** `proxy_thread(browser_conn, addr)` with `shared` the connection to the
      server: the loop, then the browser's connection is closed when the
      loop was left by `break`, that is when the browser closed; an
      exception leaves it open, and so does a tunnel that hung up, since
      the thread never gets past it. The shared connection is never closed. */
  method ProxyThread(browser: Conn, shared: Conn)
    returns (end: End, ghost log: seq<Turn>, ghost last: Read, ghost pending: Option<Read>)
    requires browser != shared
    modifies browser, shared
    ensures Proxies(log, last, pending, end,
                    old(browser.incoming), browser.incoming, old(browser.sent), browser.sent,
                    old(shared.incoming), shared.incoming, old(shared.sent), shared.sent)
    ensures browser.closed == (end == Closed || old(browser.closed)) && shared.closed == old(shared.closed)
  {
    end, log, last, pending := ProxyLoop(browser, shared);
    if end == Closed {
      browser.Close();
    }
  }

  /** The loop ends cleanly, closing the browser's connection, exactly when
      the framer finds the end of the browser's stream; the stream is then
      drained and every request read was forwarded and answered. */
  lemma StopsCleanly(log: seq<Turn>, last: Read, pending: Option<Read>, end: End,
                     b0: Bytes, bRest: Bytes, bSent0: Bytes, bSent: Bytes,
                     s0: Bytes, sRest: Bytes, sSent0: Bytes, sSent: Bytes)
    requires Proxies(log, last, pending, end, b0, bRest, bSent0, bSent, s0, sRest, sSent0, sSent)
    ensures end == Closed <==> Got(last).EndOfStream?
    ensures end == Closed ==>
      bRest == [] && pending.None? && Chain(s0, Responses(log), sRest) && sSent == sSent0 + ToShared(log)
    ensures end == Spins ==>
      Got(last).Ok? && pending.None? && log != [] && IsConnect(Request(log[|log| - 1])) &&
      (bRest == [] || sRest == [])
  {
    if end == Closed {
      ReadEnds(last);
    }
  }
}
