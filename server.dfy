/** The ship-side proxy server: it reads requests one after another off the
    single connection from the client proxy, opens a connection to the
    origin server each request names, and answers on the same connection,
    either with the origin's response or with a 502, or by turning the
    connection into a tunnel for a `CONNECT`.

    The origin servers are a parameter, `Upstream`; `urlparse` is another. */
module Server {
  import opened Text
  import opened Numbers
  import opened Sockets
  import opened Framer
  import opened FrameFacts
  import opened Messages

  /** The two parts of `urlparse(url)` the server looks at. */
  datatype Url = Url(scheme: Bytes, netloc: Bytes)

  /** `urlparse`: the parts of a URL, or `None` for the `ValueError` it
      raises on a URL it cannot take apart, such as an unclosed `[`. */
  type UrlParser = Bytes -> Option<Url>

  /** Where the server connects: host, port, and whether it wraps the
      socket in TLS first. */
  datatype Dial = Dial(host: Bytes, port: int, tls: bool)

  /** The origin servers: given where the server dials and what it sends
      before reading, the bytes that origin sends back, or `None` when
      the connection or the TLS handshake fails. */
  type Upstream = (Dial, Bytes) -> Option<Bytes>

  const Colon: Bytes := ":"
  const HttpToken: Bytes := "http"
  const HttpsScheme: Bytes := "https"

  // ====================================================== targets

  /** A word of a request line: non-empty and without white space. */
  predicate Word(w: Bytes)
  {
    w != [] && NoSpace(w)
  }

  /** No `:` in `h`. */
  predicate Colonless(h: Bytes)
  {
    forall k :: 0 <= k < |h| ==> h[k] != ':'
  }

  /** The port the server falls back on when the URL names none: 80 for any
      scheme that contains `http`, `https` included, and 443 otherwise. */
  function DefaultPort(scheme: Bytes): int
  {
    if Contains(scheme, HttpToken) then 80 else 443
  }

  /** Host and port of a parsed URL: the first field of the netloc split on
      `:`, and `int()` of the second when there is a `:`; `None` stands
      for the `ValueError` of a port that is not a number. */
  function NetlocTarget(u: Url): Option<(Bytes, int)>
  {
    var fields := Split(u.netloc, Colon);
    if Contains(u.netloc, Colon) then
      SplitFields(u.netloc, Colon);
      match IntOfStr(fields[1])
      case None => None
      case Some(port) => Some((fields[0], port))
    else
      Some((fields[0], DefaultPort(u.scheme)))
  }

  /** The middle word of a request line split on white space, or `None`
      for a line of more or fewer than three words, which cannot be
      unpacked into three names. */
  function TargetOf(request: Bytes): Option<Bytes>
  {
    var words := Words(FirstLine(request));
    if |words| == 3 then Some(words[1]) else None
  }

  /** Where `handle_normal_request` dials for `request`; `None` when it
      raises before its `try`. TLS is used for the `https` scheme or a
      request line mentioning `CONNECT`. */
  function NormalDial(request: Bytes, parse: UrlParser): Option<Dial>
  {
    match TargetOf(request)
    case None => None
    case Some(url) =>
      match parse(url)
      case None => None
      case Some(u) =>
        match NetlocTarget(u)
        case None => None
        case Some(hp) => Some(Dial(hp.0, hp.1, u.scheme == HttpsScheme || Contains(FirstLine(request), ConnectToken)))
  }

  /** Host and port of a `CONNECT` authority: the two fields around its
      `:`, or the whole authority and 443 when it has none. An authority
      with two or more `:` cannot be unpacked into two names, and a port
      that is not a number fails `int()`: both are `None`. */
  function ConnectTarget(authority: Bytes): Option<(Bytes, int)>
  {
    if Contains(authority, Colon) then
      var fields := Split(authority, Colon);
      if |fields| != 2 then None
      else
        match IntOfStr(fields[1])
        case None => None
        case Some(port) => Some((fields[0], port))
    else
      Some((authority, 443))
  }

  /** Where `handle_connect_request` dials for `request`, always with TLS;
      `None` when it raises before its `try`. */
  function ConnectDial(request: Bytes): Option<Dial>
  {
    match TargetOf(request)
    case None => None
    case Some(authority) =>
      match ConnectTarget(authority)
      case None => None
      case Some(hp) => Some(Dial(hp.0, hp.1, true))
  }

  // ====================================================== facts about targets

  /** `x:y` with no other `:` splits into `x` and `y`. */
  lemma ColonFields(x: Bytes, y: Bytes)
    requires Colonless(x) && Colonless(y)
    ensures Contains(x + Colon + y, Colon)
    ensures Split(x + Colon + y, Colon) == [x, y]
  {
    var s := x + Colon + y;
    assert Colon == [':'];
    SplitAfterChar(x, ':', y);
    SplitNone(y, ':');
    assert OccursAt(s, Colon, |x|) by { assert s[|x|..|x| + 1] == Colon; }
  }

  /** `x:y:z` with no `:` in `x` or `y` splits into `x`, `y` and the fields of `z`. */
  lemma ColonFields3(x: Bytes, y: Bytes, z: Bytes)
    requires Colonless(x) && Colonless(y)
    ensures Contains(x + Colon + y + Colon + z, Colon)
    ensures Split(x + Colon + y + Colon + z, Colon) == [x, y] + Split(z, Colon)
  {
    var s := x + Colon + y + Colon + z;
    assert Colon == [':'];
    assert s == x + [':'] + (y + [':'] + z);
    SplitAfterChar(x, ':', y + [':'] + z);
    SplitAfterChar(y, ':', z);
    assert OccursAt(s, Colon, |x|) by { assert s[|x|..|x| + 1] == Colon; }
  }

  /** A rendered port holds no `:`. */
  lemma PortColonless(port: nat)
    ensures Colonless(Render(port, 10))
  {
    RenderAvoids(port, 10, ':');
  }

  /** `int()` reads a rendered port back. */
  lemma PortValue(port: nat)
    ensures IntOfStr(Render(port, 10)) == Some(port)
  {
    var r := Render(port, 10);
    IntOfStrRender(port, [], []);
    NilAround(r);
  }

  lemma NetlocTargetOf(u: Url, fields: seq<Bytes>, port: int)
    requires Contains(u.netloc, Colon) && Split(u.netloc, Colon) == fields
    requires |fields| >= 2 && IntOfStr(fields[1]) == Some(port)
    ensures NetlocTarget(u) == Some((fields[0], port))
  {
  }

  lemma ConnectTargetOf(a: Bytes, host: Bytes, text: Bytes, port: int)
    requires Contains(a, Colon) && Split(a, Colon) == [host, text] && IntOfStr(text) == Some(port)
    ensures ConnectTarget(a) == Some((host, port))
  {
  }

  /** A netloc `host:port` yields that host and port. */
  lemma NetlocExplicitPort(scheme: Bytes, host: Bytes, port: nat)
    requires Colonless(host)
    ensures NetlocTarget(Url(scheme, host + Colon + Render(port, 10))) == Some((host, port))
  {
    var r := Render(port, 10);
    PortColonless(port);
    PortValue(port);
    ColonFields(host, r);
    NetlocTargetOf(Url(scheme, host + Colon + r), [host, r], port);
  }

  /** Fields of the netloc after the second are ignored: `host:port:junk`
      still yields `host` and `port`. */
  lemma NetlocExtraFields(scheme: Bytes, host: Bytes, port: nat, junk: Bytes)
    requires Colonless(host)
    ensures NetlocTarget(Url(scheme, host + Colon + Render(port, 10) + Colon + junk)) == Some((host, port))
  {
    var r := Render(port, 10);
    PortColonless(port);
    PortValue(port);
    ColonFields3(host, r, junk);
    var fields := [host, r] + Split(junk, Colon);
    NetlocTargetOf(Url(scheme, host + Colon + r + Colon + junk), fields, port);
  }

  /** A netloc without `:` is the host, on the default port of the scheme. */
  lemma NetlocDefaultPort(u: Url)
    requires Colonless(u.netloc)
    ensures NetlocTarget(u) == Some((u.netloc, DefaultPort(u.scheme)))
  {
    SplitNone(u.netloc, ':');
  }

  /** An empty port, as in `host:`, is a `ValueError`. */
  lemma NetlocEmptyPort(scheme: Bytes, host: Bytes)
    requires Colonless(host)
    ensures NetlocTarget(Url(scheme, host + Colon)) == None
  {
    var netloc := host + Colon;
    assert netloc == host + [':'] + [];
    SplitAfterChar(host, ':', []);
    assert OccursAt(netloc, Colon, |host|) by { assert netloc[|host|..|host| + 1] == Colon; }
    ParseNeedsDigits([], 10);
  }

  /** An `https` URL without a port is dialled on port 80, with TLS. */
  lemma HttpsDefaultsTo80(host: Bytes)
    requires Colonless(host)
    ensures NetlocTarget(Url(HttpsScheme, host)) == Some((host, 80))
  {
    NetlocDefaultPort(Url(HttpsScheme, host));
    assert OccursAt(HttpsScheme, HttpToken, 0) by { assert HttpsScheme[..4] == HttpToken; }
  }

  /** An authority `host:port` yields that host and port. */
  lemma ConnectExplicitPort(host: Bytes, port: nat)
    requires Colonless(host)
    ensures ConnectTarget(host + Colon + Render(port, 10)) == Some((host, port))
  {
    var r := Render(port, 10);
    PortColonless(port);
    PortValue(port);
    ColonFields(host, r);
    ConnectTargetOf(host + Colon + r, host, r, port);
  }

  /** An authority without `:` is the host, on port 443. */
  lemma ConnectDefault(host: Bytes)
    requires Colonless(host)
    ensures ConnectTarget(host) == Some((host, 443))
  {
    SplitNone(host, ':');
  }

  /** An authority with a second `:` fails to unpack, unlike a netloc with one. */
  lemma ConnectExtraFields(host: Bytes, port: Bytes, junk: Bytes)
    requires Colonless(host) && Colonless(port)
    ensures ConnectTarget(host + Colon + port + Colon + junk) == None
  {
    ColonFields3(host, port, junk);
    assert |Split(host + Colon + port + Colon + junk, Colon)| >= 3;
  }

  /** A request line of words holds no carriage return. */
  lemma LineWithoutCr(verb: Bytes, target: Bytes, version: Bytes)
    requires NoSpace(verb) && NoSpace(target) && NoSpace(version)
    ensures forall k :: 0 <= k < |verb + " " + target + " " + version| ==> (verb + " " + target + " " + version)[k] != CR
  {
    var line := verb + " " + target + " " + version;
    forall k | 0 <= k < |line| ensures line[k] != CR {
      if k < |verb| { assert line[k] == verb[k]; }
      else if k == |verb| { }
      else if k < |verb| + 1 + |target| { assert line[k] == target[k - |verb| - 1]; }
      else if k == |verb| + 1 + |target| { }
      else { assert line[k] == version[k - |verb| - 2 - |target|]; }
    }
  }

  /** Three words make a request line whose middle word is the target. */
  lemma RequestTarget(verb: Bytes, target: Bytes, version: Bytes, rest: Bytes)
    requires Word(verb) && Word(target) && Word(version)
    ensures TargetOf(verb + " " + target + " " + version + CRLF + rest) == Some(target)
  {
    LineWithoutCr(verb, target, version);
    FirstLineOf(verb + " " + target + " " + version, rest);
    ThreeWords(verb, target, version);
  }

  /** Whatever white space lays out the request line, the target is the
      middle one of three words, and a line of more or fewer words raises. */
  lemma SpacedTarget(ws: seq<Bytes>, gaps: seq<Bytes>, rest: Bytes)
    requires Layout(ws, gaps)
    requires forall k :: 0 <= k < |Spaced(ws, gaps)| ==> Spaced(ws, gaps)[k] != CR
    ensures TargetOf(Spaced(ws, gaps) + CRLF + rest) == if |ws| == 3 then Some(ws[1]) else None
  {
    FirstLineOf(Spaced(ws, gaps), rest);
    WordsOfSpaced(ws, gaps);
  }

  /** A request line of two words, such as one without the version, cannot
      be unpacked: the server raises before it dials. */
  lemma TwoWordLine(verb: Bytes, target: Bytes, rest: Bytes)
    requires Word(verb) && Word(target)
    ensures TargetOf(verb + " " + target + CRLF + rest) == None
  {
    var line := verb + " " + target;
    assert forall k :: 0 <= k < |line| ==> line[k] != CR by {
      forall k | 0 <= k < |line| ensures line[k] != CR {
        if k < |verb| { assert line[k] == verb[k]; }
        else if k > |verb| { assert line[k] == target[k - |verb| - 1]; }
      }
    }
    FirstLineOf(line, rest);
    WordsCons(verb, target);
    WordsSingle(target);
  }

  /** `host:port` is one word. */
  lemma AuthorityWord(host: Bytes, port: nat)
    requires Word(host)
    ensures Word(host + Colon + Render(port, 10))
  {
    var r := Render(port, 10);
    var authority := host + Colon + r;
    RenderDigits(port, 10);
    forall k | 0 <= k < |authority| ensures !IsSpace(authority[k], StrSpace) {
      if k < |host| { assert authority[k] == host[k]; }
      else if k > |host| { assert authority[k] == r[k - |host| - 1]; }
    }
  }

  lemma ConnectLayout(host: Bytes, r: Bytes, version: Bytes, rest: Bytes)
    ensures ConnectToken + " " + host + Colon + r + " " + version + CRLF + rest
         == ConnectToken + " " + (host + Colon + r) + " " + version + CRLF + rest
  {
  }

  /** A `CONNECT` request line routes to the tunnel and names its authority. */
  lemma ConnectLine(authority: Bytes, version: Bytes, rest: Bytes)
    requires Word(authority) && Word(version)
    ensures IsConnect(ConnectToken + " " + authority + " " + version + CRLF + rest)
    ensures TargetOf(ConnectToken + " " + authority + " " + version + CRLF + rest) == Some(authority)
  {
    assert Word(ConnectToken);
    var line := ConnectToken + " " + authority + " " + version;
    LineWithoutCr(ConnectToken, authority, version);
    RequestTarget(ConnectToken, authority, version, rest);
    assert OccursAt(line, ConnectToken, 0) by { assert line[..7] == ConnectToken; }
    RoutedByRequestLine(line, rest);
  }

  /** A `CONNECT host:port` request opens a TLS connection to that host and port. */
  lemma ConnectRequestDial(host: Bytes, port: nat, version: Bytes, rest: Bytes)
    requires Word(host) && Colonless(host) && Word(version)
    ensures IsConnect(ConnectToken + " " + host + Colon + Render(port, 10) + " " + version + CRLF + rest)
    ensures ConnectDial(ConnectToken + " " + host + Colon + Render(port, 10) + " " + version + CRLF + rest)
         == Some(Dial(host, port, true))
  {
    var r := Render(port, 10);
    ConnectLayout(host, r, version, rest);
    AuthorityWord(host, port);
    ConnectLine(host + Colon + r, version, rest);
    ConnectExplicitPort(host, port);
  }

  /** A `CONNECT host` request without a port opens a TLS connection to port 443 of that host. */
  lemma ConnectDefaultDial(host: Bytes, version: Bytes, rest: Bytes)
    requires Word(host) && Colonless(host) && Word(version)
    ensures IsConnect(ConnectToken + " " + host + " " + version + CRLF + rest)
    ensures ConnectDial(ConnectToken + " " + host + " " + version + CRLF + rest) == Some(Dial(host, 443, true))
  {
    ConnectLine(host, version, rest);
    ConnectDefault(host);
  }

  /** On the path the server's loop takes for a request that is not a
      `CONNECT`, the request line's mention of `CONNECT` never holds, so
      TLS is used exactly for the `https` scheme. */
  lemma NormalTlsIsHttps(request: Bytes, parse: UrlParser)
    requires !IsConnect(request) && NormalDial(request, parse).Some?
    ensures NormalDial(request, parse).value.tls <==> parse(TargetOf(request).value).value.scheme == HttpsScheme
  {
  }

  /** The normal handler raises before it dials exactly when the request
      line has not three words, `urlparse` rejects the target, or the
      netloc's port is not a number. */
  lemma NormalDialFails(request: Bytes, parse: UrlParser)
    ensures NormalDial(request, parse).None? <==>
      TargetOf(request).None? || parse(TargetOf(request).value).None? ||
      NetlocTarget(parse(TargetOf(request).value).value).None?
  {
  }

  // ====================================================== handlers

  /** How the server answered one request. */
  datatype Handling =
    | Forwarded(response: Read)
    | Refused
    | Tunnelled(toTarget: Bytes, toClient: Bytes)

  ghost predicate Replayable(h: Handling)
  {
    h.Forwarded? ==> Reads(h.response)
  }

  /** The bytes a handling relays off the client connection. */
  function Extra(h: Handling): Bytes
  {
    if h.Tunnelled? then h.toTarget else []
  }

  /** `h` is how `handle_normal_request` plays out once it dialled `dial`:
      the origin was reached and its response framed, or it was not. */
  ghost predicate NormalHandled(m: Bytes, dial: Dial, h: Handling, parse: UrlParser, upstream: Upstream)
  {
    NormalDial(m, parse) == Some(dial) &&
    match h
    case Forwarded(rd) => upstream(dial, m) == Some(rd.stream) && Reads(rd)
    case Refused => upstream(dial, m).None?
    case Tunnelled(_, _) => false
  }

  /** `h` is how `handle_connect_request` plays out once it dialled `dial`:
      the origin was reached and some of what it sent was relayed, or it
      was not. */
  ghost predicate TunnelHandled(m: Bytes, dial: Dial, h: Handling, upstream: Upstream)
  {
    ConnectDial(m) == Some(dial) &&
    match h
    case Forwarded(_) => false
    case Refused => upstream(dial, []).None?
    case Tunnelled(_, toClient) => upstream(dial, []).Some? && IsPrefix(toClient, upstream(dial, []).value)
  }

  /** What the normal handler sends back: the origin's framed response or a 502. */
  ghost function NormalReply(h: Handling): Bytes
    requires Replayable(h)
  {
    match h
    case Forwarded(rd) => GatewayReply(Got(rd))
    case Refused => BadGateway
    case Tunnelled(_, _) => []
  }

  /** What the tunnel handler sends back: the 200 and what the origin
      relayed, or nothing at all when the origin could not be reached. */
  function TunnelReply(h: Handling): Bytes
  {
    match h
    case Tunnelled(_, toClient) => Established + toClient
    case _ => []
  }

  /** `handle_normal_request(request, client_conn)`. `crashed` is the
      exception raised before the `try`, which ends the server's loop. */
  method HandleNormal(request: Bytes, client: Conn, parse: UrlParser, upstream: Upstream)
    returns (crashed: bool, ghost dial: Dial, ghost h: Handling)
    modifies client`sent
    ensures crashed <==> NormalDial(request, parse).None?
    ensures crashed ==> client.sent == old(client.sent)
    ensures !crashed ==>
      NormalHandled(request, dial, h, parse, upstream) && Replayable(h) &&
      client.sent == old(client.sent) + NormalReply(h)
  {
    dial, h := Dial([], 0, false), Refused;
    var url := TargetOf(request);
    if url.None? {
      return true, dial, h;
    }
    var parsed := parse(url.value);
    if parsed.None? {
      return true, dial, h;
    }
    var hostPort := NetlocTarget(parsed.value);
    if hostPort.None? {
      return true, dial, h;
    }
    var tls := parsed.value.scheme == HttpsScheme || Contains(FirstLine(request), ConnectToken);
    var where := Dial(hostPort.value.0, hostPort.value.1, tls);
    crashed, dial := false, where;
    h := Forward(request, client, where, upstream);
  }

  /** The `try` of `handle_normal_request`: dial, send the request, frame
      the response and pass it on, with a 502 for every failure. */
  method Forward(request: Bytes, client: Conn, where: Dial, upstream: Upstream) returns (ghost h: Handling)
    modifies client`sent
    ensures upstream(where, request).None? ==> h == Refused
    ensures upstream(where, request).Some? ==>
      h.Forwarded? && h.response.stream == upstream(where, request).value && Reads(h.response)
    ensures Replayable(h) && client.sent == old(client.sent) + NormalReply(h)
  {
    h := Refused;
    var reached := upstream(where, request);
    if reached.None? {
      client.SendAll(BadGateway);
      return;
    }
    var target := new Conn(reached.value);
    target.SendAll(request);
    var response, cut, takes := ReadHttpMessage(target);
    h := Forwarded(Read(reached.value, cut, takes));
    if response.Ok? {
      client.SendAll(response.value);
    } else {
      // `None` is replaced by a 502; the `ValueError` of a bad length is
      // caught and answered with the same 502.
      client.SendAll(BadGateway);
    }
    target.Close();
  }

  /** `handle_connect_request(request, client_conn)`: once the origin is
      reached, a 200 and then the tunnel; nothing at all when it is not. */
  method HandleConnect(request: Bytes, client: Conn, upstream: Upstream)
    returns (crashed: bool, ghost dial: Dial, ghost h: Handling)
    modifies client`sent, client`incoming
    ensures crashed <==> ConnectDial(request).None?
    ensures crashed ==> client.sent == old(client.sent) && client.incoming == old(client.incoming)
    ensures !crashed ==>
      TunnelHandled(request, dial, h, upstream) &&
      IsPrefix(Extra(h), old(client.incoming)) && client.incoming == old(client.incoming)[|Extra(h)|..] &&
      client.sent == old(client.sent) + TunnelReply(h)
  {
    dial, h := Dial([], 0, false), Refused;
    var authority := TargetOf(request);
    if authority.None? {
      return true, dial, h;
    }
    var hostPort := ConnectTarget(authority.value);
    if hostPort.None? {
      return true, dial, h;
    }
    var where := Dial(hostPort.value.0, hostPort.value.1, true);
    crashed, dial := false, where;
    h := Tunnel(client, where, upstream);
  }

  /** The `try` of `handle_connect_request`: dial, report the tunnel open
      and relay; a failure to connect is swallowed and nothing is sent. */
  method Tunnel(client: Conn, where: Dial, upstream: Upstream) returns (ghost h: Handling)
    modifies client`sent, client`incoming
    ensures upstream(where, []).None? ==> h == Refused
    ensures upstream(where, []).Some? ==> h.Tunnelled? && IsPrefix(h.toClient, upstream(where, []).value)
    ensures IsPrefix(Extra(h), old(client.incoming)) && client.incoming == old(client.incoming)[|Extra(h)|..]
    ensures client.sent == old(client.sent) + TunnelReply(h)
  {
    h := Refused;
    var reached := upstream(where, []);
    if reached.None? {
      NilSuffix(client.incoming);
      return;
    }
    var target := new Conn(reached.value);
    client.SendAll(Established);
    var toTarget, toClient, _ := Relay(client, target);
    h := Tunnelled(toTarget, toClient);
    target.Close();
  }

  // ====================================================== the loop

  /** One turn of the server's loop: the request read, where it dialled,
      and what came of it. */
  datatype Exchange = Exchange(hop: Hop, request: Bytes, dial: Dial, handling: Handling)

  /** The request is one a handler raises on before it dials. */
  predicate Rejected(m: Bytes, parse: UrlParser)
  {
    if IsConnect(m) then ConnectDial(m).None? else NormalDial(m, parse).None?
  }

  /** `h` is how the handler the request routes to plays out. */
  ghost predicate Handled(m: Bytes, dial: Dial, h: Handling, parse: UrlParser, upstream: Upstream)
  {
    if IsConnect(m) then TunnelHandled(m, dial, h, upstream) else NormalHandled(m, dial, h, parse, upstream)
  }

  /** What the server sends back to the client for request `m` handled as `h`. */
  ghost function Reply(m: Bytes, h: Handling): Bytes
    requires Replayable(h)
  {
    if IsConnect(m) then TunnelReply(h) else NormalReply(h)
  }

  /** An exchange as the loop and the handlers play it out. */
  ghost predicate Answers(e: Exchange, parse: UrlParser, upstream: Upstream)
  {
    HopOk(e.hop) && Got(e.hop.read) == Ok(e.request) && e.hop.extra == Extra(e.handling) &&
    Handled(e.request, e.dial, e.handling, parse, upstream)
  }

  ghost predicate Playable(e: Exchange)
  {
    Replayable(e.handling)
  }

  /** What the server sent back in one exchange. */
  ghost function Output(e: Exchange): Bytes
    requires Playable(e)
  {
    Reply(e.request, e.handling)
  }

  ghost function Outputs(log: seq<Exchange>): Bytes
    requires forall i :: 0 <= i < |log| ==> Playable(log[i])
  {
    if log == [] then [] else Outputs(log[..|log| - 1]) + Output(log[|log| - 1])
  }

  ghost function Hops(log: seq<Exchange>): seq<Hop>
  {
    seq(|log|, i requires 0 <= i < |log| => log[i].hop)
  }

  /** How the loop stopped after its last read `rd`: the stream ended
      (`None`, a clean close), or a `ValueError` escaped, from the framer
      or from the handler of the request just read. */
  ghost predicate Stops(rd: Read, end: End, parse: UrlParser)
    requires Reads(rd)
  {
    match Got(rd)
    case EndOfStream => end == Closed
    case Malformed => end == Crashed
    case Ok(m) => end == Crashed && Rejected(m, parse)
  }

  lemma PlayableSnoc(log: seq<Exchange>, e: Exchange)
    requires forall i :: 0 <= i < |log| ==> Playable(log[i])
    requires Playable(e)
    ensures forall i :: 0 <= i < |log + [e]| ==> Playable((log + [e])[i])
  {
  }

  lemma AnswersSnoc(log: seq<Exchange>, e: Exchange, parse: UrlParser, upstream: Upstream)
    requires forall i :: 0 <= i < |log| ==> Answers(log[i], parse, upstream)
    requires Answers(e, parse, upstream)
    ensures forall i :: 0 <= i < |log + [e]| ==> Answers((log + [e])[i], parse, upstream)
  {
  }

  lemma OutputsSnoc(log: seq<Exchange>, e: Exchange)
    requires forall i :: 0 <= i < |log| ==> Playable(log[i])
    requires Playable(e)
    ensures forall i :: 0 <= i < |log + [e]| ==> Playable((log + [e])[i])
    ensures Outputs(log + [e]) == Outputs(log) + Output(e)
  {
    PlayableSnoc(log, e);
    assert (log + [e])[..|log|] == log;
  }

  lemma HopsSnoc(log: seq<Exchange>, e: Exchange)
    ensures Hops(log + [e]) == Hops(log) + [e.hop]
  {
  }

  /** The routing of one request: `CONNECT` anywhere in the request line
      goes to the tunnel handler, anything else to the normal one. */
  method Dispatch(m: Bytes, conn: Conn, parse: UrlParser, upstream: Upstream)
    returns (crashed: bool, ghost dial: Dial, ghost h: Handling)
    modifies conn`incoming, conn`sent
    ensures crashed <==> Rejected(m, parse)
    ensures crashed ==> conn.incoming == old(conn.incoming) && conn.sent == old(conn.sent)
    ensures !crashed ==>
      Handled(m, dial, h, parse, upstream) && Replayable(h) &&
      IsPrefix(Extra(h), old(conn.incoming)) && conn.incoming == old(conn.incoming)[|Extra(h)|..] &&
      conn.sent == old(conn.sent) + Reply(m, h)
  {
    if Contains(FirstLine(m), ConnectToken) {
      crashed, dial, h := HandleConnect(m, conn, upstream);
    } else {
      crashed, dial, h := HandleNormal(m, conn, parse, upstream);
      NilSuffix(old(conn.incoming));
    }
  }

  /** One turn of the server's `main` loop: read a request, stop on `None`
      or on the `ValueError` of a bad length, otherwise dispatch it. */
  method ServeOne(conn: Conn, parse: UrlParser, upstream: Upstream)
    returns (step: Step, ghost e: Exchange, ghost rd: Read)
    modifies conn`incoming, conn`sent
    ensures Reads(rd) && rd.stream == old(conn.incoming)
    ensures step.Stop? ==> Stops(rd, step.end, parse) && conn.incoming == After(rd) && conn.sent == old(conn.sent)
    ensures step.Next? ==>
      e.hop.read == rd && Playable(e) && Answers(e, parse, upstream) &&
      conn.incoming == HopEnd(e.hop) && |conn.incoming| < |old(conn.incoming)| &&
      conn.sent == old(conn.sent) + Output(e)
  {
    ghost var s := conn.incoming;
    var request, cut, takes := ReadHttpMessage(conn);
    rd := Read(s, cut, takes);
    e := Exchange(Hop(rd, []), [], Dial([], 0, false), Refused);
    if request.EndOfStream? {
      return Stop(Closed), e, rd;
    }
    if request.Malformed? {
      return Stop(Crashed), e, rd;
    }
    var m := request.value;
    ReadConsumes(rd);
    var crashed, dial, h := Dispatch(m, conn, parse, upstream);
    if crashed {
      return Stop(Crashed), e, rd;
    }
    e := Exchange(Hop(rd, Extra(h)), m, dial, h);
    step := Next;
  }

  /** The exchanges `log` played the stream `start` down to `rest`, and
      the server sent `sent0` followed by their replies. */
  ghost predicate Served(start: Bytes, log: seq<Exchange>, rest: Bytes, sent0: Bytes, sent: Bytes,
                         parse: UrlParser, upstream: Upstream)
  {
    (forall i :: 0 <= i < |log| ==> Playable(log[i])) &&
    (forall i :: 0 <= i < |log| ==> Answers(log[i], parse, upstream)) &&
    Chain(start, Hops(log), rest) && sent == sent0 + Outputs(log)
  }

  lemma ServedSnoc(start: Bytes, log: seq<Exchange>, e: Exchange, sent0: Bytes, sent: Bytes,
                   parse: UrlParser, upstream: Upstream)
    requires Served(start, log, e.hop.read.stream, sent0, sent, parse, upstream)
    requires Playable(e) && Answers(e, parse, upstream)
    ensures Served(start, log + [e], HopEnd(e.hop), sent0, sent + Output(e), parse, upstream)
  {
    AnswersSnoc(log, e, parse, upstream);
    OutputsSnoc(log, e);
    HopsSnoc(log, e);
    ChainSnoc(start, Hops(log), e.hop);
    Regroup(sent0, Outputs(log), Output(e));
  }

  /** What a whole run of the loop did: the exchanges `log` read the
      stream `c0` back to back up to the last read `last`, which stopped the
      loop, leaving `rest`; the client was sent each exchange's reply. */
  ghost predicate Serves(log: seq<Exchange>, last: Read, end: End, c0: Bytes, rest: Bytes,
                         sent0: Bytes, sent: Bytes, parse: UrlParser, upstream: Upstream)
  {
    (forall i :: 0 <= i < |log| ==> Playable(log[i])) &&
    (forall i :: 0 <= i < |log| ==> Answers(log[i], parse, upstream)) &&
    Reads(last) && Chain(c0, Hops(log), last.stream) && rest == After(last) &&
    Stops(last, end, parse) &&
    sent == sent0 + Outputs(log)
  }

  /** The `while True` of the server's `main` on the accepted connection
      `conn`. Every request is framed where the previous exchange left the
      stream, and answered as its handler says. */
  method ServeLoop(conn: Conn, parse: UrlParser, upstream: Upstream)
    returns (end: End, ghost log: seq<Exchange>, ghost last: Read)
    modifies conn`incoming, conn`sent
    ensures Serves(log, last, end, old(conn.incoming), conn.incoming, old(conn.sent), conn.sent, parse, upstream)
  {
    log := [];
    ghost var start, sent0 := conn.incoming, conn.sent;
    while true
      invariant Served(start, log, conn.incoming, sent0, conn.sent, parse, upstream)
      decreases |conn.incoming|
    {
      var step;
      ghost var e;
      ghost var before := conn.sent;
      step, e, last := ServeOne(conn, parse, upstream);
      if step.Stop? {
        return step.end, log, last;
      }
      ServedSnoc(start, log, e, sent0, before, parse, upstream);
      log := log + [e];
    }
  }

  /** The server's `main` on the accepted connection `conn`: the loop, then
      the connection is closed when the loop was left by `break`, that is
      when the stream ended; an exception leaves it open. */
  method Serve(conn: Conn, parse: UrlParser, upstream: Upstream)
    returns (end: End, ghost log: seq<Exchange>, ghost last: Read)
    modifies conn
    ensures Serves(log, last, end, old(conn.incoming), conn.incoming, old(conn.sent), conn.sent, parse, upstream)
    ensures conn.closed == (end == Closed || old(conn.closed))
  {
    end, log, last := ServeLoop(conn, parse, upstream);
    if end == Closed {
      conn.Close();
    }
  }

  /** The loop ends cleanly, closing the connection, exactly when the
      framer finds the end of the client's stream, which is then drained;
      any other end is an exception on the request just read or on its
      framing. */
  lemma ServesCleanly(log: seq<Exchange>, last: Read, end: End, c0: Bytes, rest: Bytes,
                      sent0: Bytes, sent: Bytes, parse: UrlParser, upstream: Upstream)
    requires Serves(log, last, end, c0, rest, sent0, sent, parse, upstream)
    ensures end == Closed <==> Got(last).EndOfStream?
    ensures end == Closed ==> rest == []
    ensures end == Crashed ==> Got(last).Malformed? || Rejected(Got(last).value, parse)
  {
    if end == Closed {
      ReadEnds(last);
    }
  }
}
