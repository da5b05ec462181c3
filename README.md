# ship-proxy in Dafny

ship-proxy is a two-part HTTP proxy. The *client* listens for browser
connections and forwards every request over one shared connection to the
*server*. The server dials the origin named in each request and answers with
the origin's response, or tunnels a `CONNECT`. Both sides delimit messages on
a raw byte stream with the same function, `read_http_message`
(`server.py:8-55`, and `client.py:9-56`, which is identical).

This project models that framer and the decisions built on it:

- `Framer` models `read_http_message` as a method over a connection (`Sockets.Conn`).
  - How many bytes each `recv` returns is the network's choice. The method
    therefore returns, as ghost outputs, the two choices its result depends
    on: the length of the header buffer and the lengths the unchecked
    `recv(2)` calls returned.
  - The method is proved equal to a functional specification `Frame` of
    the stream and those choices.
  - `FrameFacts` then proves what a framed message is for each body rule
    (Content-Length, chunked, neither), whatever the fragmentation.
- `Numbers` models `int(text, base)`: its white-space stripping, the sign and
  the digits. A round-trip lemma shows it reads back what a renderer writes.
- `Text` models the byte-string operations the code relies on: `find`/`in`,
  `split(sep)`, `split()`, `strip()` and ASCII `lower()`.
- `Messages` holds what both sides share:
  - the request line, and the `'CONNECT' in first_line` test that routes requests;
  - the canned 502 and 200 responses;
  - a record of each framed read, so that a loop's reads can be chained along one stream.
- `Server` models the server:
  - target resolution in `handle_normal_request`;
  - authority parsing in `handle_connect_request`;
  - both handlers, with the origin given as a parameter;
  - the `main` loop over the accepted connection.
- `Client` models `proxy_thread`: one browser connection served over the shared connection.

Every loop is proved against a ghost log of its turns:
- the reads chain along each stream, each read starting where the previous turn left the stream;
- every turn is answered as its handler prescribes;
- the bytes sent on each connection are exactly the replies of the log;
- the loop ends exactly when the framer reports the end of the stream, or on
  the first exception, which leaves the connection open; on the client, a
  tunnel that hangs up is a third ending, after which the thread never
  returns.

Where the code departs from what its names and comments announce, or from
HTTP as RFC 9110 and RFC 9112 define it, the model follows the code:

- An `https` URL with no port gets port 80, not the 443 of section 4.2.2 of RFC 9110, because the test is `'http' in parsed.scheme`.
- Requests are routed to the tunnel when `CONNECT` appears anywhere in the request line, not only when it is the method (section 9.3.6 of RFC 9110).
- With neither a length nor chunking, the bytes read past the header terminator are still returned as the body.
- A declared length shorter than those bytes does not trim them.
- In the chunked branch, those bytes stay at the front of the body, and chunk size lines are read from the stream after them.
- The CRLF after a chunk, which section 7.1 of RFC 9112 requires, is taken by an unchecked `recv(2)`. It is never validated, and it may take just one byte.
- The client does not close the browser's connection when an exception, such as an unreadable length, escapes `proxy_thread`.
- The server does not close its connection when an exception ends its loop.
- A request line that does not split into three words, a target `urlparse` rejects, or an unreadable port, raises before the handlers' `try`. This ends the server's loop.
- The server closes only the origin connection after a tunnel. The client closes neither connection after one.
- The server's tunnel has no idle exit: when `select` times out it returns three empty lists, and the relay waits on. It ends only when a side closes, when `select` reports an error condition, or on an exception.
- The client's tunnel relay leaves its `while True` only on an error condition or the 60-second idle timeout. When a peer closes, the inner `break` leaves only the `for`. The closed side stays readable, so the relay spins for ever, holding the lock, and never gets back to the loop or to `browser_conn.close()`. The model ends such a run with `Spins`.
- `int(text, 16)` accepts a `0x` or `0X` prefix after the sign, so a chunk size line such as `0x1A` is read as 26.

## Model

| member | source | states |
|---|---|---|
| `Text.IndexOf` | server.py:16 | `find` gives the first occurrence of the needle, and none exactly when it does not occur |
| `Text.Lower` | server.py:20 | `lower()` keeps the length and maps each ASCII capital to its small letter, every other byte to itself |
| `Text.LowerIdempotent` | server.py:20 | lower-casing twice is lower-casing once |
| `Text.SplitJoin` | server.py:24 | joining the fields of `split(sep)` with `sep` gives the text back |
| `Text.SplitPieces` | server.py:24 | no field of `split(sep)` contains the separator |
| `Text.FirstField` | server.py:59 | the first field of a split is the text before the first separator, or the whole text when there is none |
| `Text.SplitNone` | server.py:62 | a netloc without `:` splits into itself alone |
| `Text.SplitFields` | server.py:63 | when `:` occurs the split has a second field, so `split(':')[1]` exists |
| `Text.SplitAfterChar` | server.py:86 | splitting on a character peels off the text before its first occurrence |
| `Text.TrimStart` | server.py:26 | the stripped text is a suffix whose first byte is not white space, and every byte removed is white space |
| `Text.TrimEnd` | server.py:26 | the stripped text is a prefix whose last byte is not white space, and every byte removed is white space |
| `Text.Words` | server.py:60 | `split()` yields only non-empty words without white space |
| `Text.WordsSkip` | server.py:60 | white space in front of a text does not change its `split()` |
| `Text.WordsBlank` | server.py:60 | text of white space alone, of any kind and length, splits into no words |
| `Text.WordsFirst` | server.py:60 | a word followed by white space, or by nothing, is the first field of `split()` |
| `Text.WordsAfter` | server.py:60 | a word between leading white space and any non-empty run of white space comes first in `split()`, the rest being split on |
| `Text.WordsOfSpaced` | server.py:60 | words laid out with any runs of white space around and between them (tabs, several spaces, leading or trailing white space) split back into exactly those words |
| `Text.SpacedWords` | server.py:60 | every text is such a layout of its own `split()`: the words and the white space between them are all there is |
| `Text.WordsCons` | server.py:60 | a word followed by a space is the first field of `split()` |
| `Text.ThreeWords` | server.py:60 | three words separated by spaces split into exactly those three |
| `Numbers.DigitValue` | server.py:42 | a digit's value is below 36, and a digit is never a space, a sign or a CR |
| `Numbers.DigitsValid` | server.py:42 | a digit string has a value exactly when every character is a digit of the base |
| `Numbers.Render` | server.py:42 | a rendered number is never empty |
| `Numbers.RenderDigits` | server.py:42 | every character of a rendered number is a digit of its base |
| `Numbers.DigitsOfRender` | server.py:42 | reading the digits of a rendered number gives the number back |
| `Numbers.StripAround` | server.py:26 | `strip()` removes exactly the white space around digits |
| `Numbers.ParseRender` | server.py:42 | `int(text, 16)` (or base 10) reads back a rendered number, with or without white space around it |
| `Numbers.ParseHexPrefix` | server.py:42 | `int(text, 16)` reads back a rendered number behind a `0x` or `0X` prefix, with or without white space around it |
| `Numbers.DecimalRejectsPrefix` | server.py:26 | base 10 takes no prefix: `0x` or `0X` followed by anything makes `int()` raise |
| `Numbers.ParseNeedsDigits` | server.py:26 | text of white space alone, such as an empty field, makes `int()` raise |
| `Numbers.IntOfStrRender` | server.py:63 | `int()` on a `str` reads back a rendered port, with or without white space around it |
| `Numbers.RenderAvoids` | server.py:63 | a rendered number holds no non-digit, in particular no `:` |
| `Sockets.Conn.Recv` | server.py:12 | `recv(n)` hands out a non-empty prefix of at most `n` pending bytes, and nothing only once the peer closed |
| `Sockets.Conn.SendAll` | server.py:76 | `sendall` appends the data to what the peer receives |
| `Sockets.Relay` | client.py:74-84 | a tunnel forwards, verbatim and in order, some prefix of each side's pending bytes to the other, and reports a hang-up only when one side has no bytes left |
| `Framer.HeaderEnd` | server.py:16 | the header block ends just past the first CRLFCRLF, and has an end exactly when the terminator occurs |
| `Framer.ReadHead` | server.py:10-15 | the header loop returns `None` exactly when the stream has no terminator, draining it; otherwise it returns a stream prefix holding the first terminator, cut no later than the block that completed it |
| `Framer.Drop` | server.py:53 | an unchecked `recv(2)` takes a prefix of what is left, all of it at most |
| `Framer.LastLengthLine` | server.py:24-26 | finds the last `content-length:` line, and no later line is one |
| `Framer.DeclaredLengthFails` | server.py:24-26 | the length scan raises exactly when some `content-length:` line does not hold a number |
| `Framer.BadLineFails` | server.py:24-26 | one length line `int()` cannot read makes the whole scan raise, wherever it stands |
| `Framer.FailsAtBadLine` | server.py:24-26 | a scan that raises points at a length line `int()` cannot read |
| `Framer.DeclaredLengthLastWins` | server.py:24-26 | when the scan succeeds, the last length line decides the length, and it is 0 when there is none |
| `Framer.DeclaredLengthStep` | server.py:25-26 | one line of the scan replaces the length exactly when it is a length line |
| `Framer.ScanContentLength` | server.py:21-26 | the scanning loop computes the declared length, last line winning, or fails |
| `Framer.BodyRuleOf` | server.py:20-34 | the body rule is a length above 0 first, then `chunked` anywhere in the lower-cased headers, then nothing |
| `Framer.Exact` | server.py:29-33 | reading up to a length never leaves more of the stream than was there |
| `Framer.ReadExact` | server.py:28-33 | the body loop asks for exactly the missing count, so its result and the stream it leaves are fixed by the stream however `recv` splits it |
| `Framer.ReadSizeLine` | server.py:36-41 | the size line stops at the first CRLF on the stream, and is `None` when there is none |
| `Framer.DechunkNoLine` | server.py:37-40 | a stream without a CRLF for the size line ends the body with `None` |
| `Framer.DechunkBadSize` | server.py:42 | a size line `int(.., 16)` cannot read raises |
| `Framer.DechunkEnds` | server.py:43-45 | size 0 ends the body, after an unchecked `recv(2)` |
| `Framer.DechunkShort` | server.py:46-51 | a stream that closes inside a payload ends the body with `None` |
| `Framer.DechunkPayload` | server.py:46-53 | a whole payload is appended to the body, and the loop goes on after an unchecked `recv(2)` |
| `Framer.PayloadResumes` | server.py:46-53 | after a whole payload and its `recv(2)`, the rest of the loop runs from the enlarged body whatever the later reads take |
| `Framer.ReadChunk` | server.py:36-53 | one turn of the chunk loop is one step of the chunked specification |
| `Framer.ReadChunks` | server.py:35-53 | the chunk loop computes the chunked specification for the `recv(2)` lengths the network chose |
| `Framer.FrameAt` | server.py:16-55 | once the header block is found, the message is the one its header's body rule makes of what follows |
| `Framer.ReadHttpMessage` | server.py:8-55 | `read_http_message` returns exactly the specified framing of the stream, for the header cut and `recv(2)` lengths it met, and leaves the rest of the stream unread |
| `FrameFacts.ExactShape` | server.py:28-33 | the length branch leaves a suffix of the stream, drains it on `None`, never raises, and keeps what was read before |
| `FrameFacts.DechunkShape` | server.py:35-53 | the chunk loop leaves a suffix of the stream, drains it on `None`, and only appends to the body |
| `FrameFacts.ChunkShrinks` | server.py:46-53 | a payload and its `recv(2)` take at least the size line off the stream, so the chunk loop ends |
| `FrameFacts.SizeLine` | server.py:36-42 | a hex size line is read back as its number, even after a stray LF left by a short `recv(2)` |
| `FrameFacts.TrailerUnchecked` | server.py:43-45 | the bytes after a zero-size line are never checked: any of them end the body successfully |
| `FrameFacts.DechunkEncoded` | server.py:35-53 | decoding a chunked encoding yields the concatenated payloads, in order and with no size-line or CRLF bytes |
| `FrameFacts.FrameShape` | server.py:16-55 | a framed message begins with the whole header buffer, the rest is a suffix of the stream, and `None` drains the stream |
| `FrameFacts.FrameNoHead` | server.py:11-14 | a stream without a terminator gives `None` |
| `FrameFacts.FrameFixed` | server.py:28-33 | with length `n`, the message is the first `header_end + n` bytes of the stream whatever the fragmentation, `None` when the stream is shorter, and all read-ahead bytes when they exceed `n` |
| `FrameFacts.FrameNoBody` | server.py:17-18 | with neither a length nor chunking, the message is exactly the header buffer, read-ahead bytes included |
| `FrameFacts.FrameBadLength` | server.py:26 | an unreadable length raises |
| `FrameFacts.FrameChunked` | server.py:34-55 | a chunked message sent in its own header buffer is framed as its header block followed by the concatenated payloads |
| `FrameFacts.ChunkedReadAhead` | server.py:18 | a chunked message wholly swallowed by the header buffer gives `None`, since the size lines are read from the stream |
| `FrameFacts.BodyRuleIgnoresCase` | server.py:20-22 | the body rule does not depend on the case of the header text |
| `Messages.FirstLineShape` | server.py:126 | the request line is a prefix of the message without a CRLF, followed by one unless it is all of the message |
| `Messages.FirstLineOf` | client.py:67 | the text before the first CRLF is the request line |
| `Messages.RoutedByRequestLine` | server.py:127 | a request goes to the tunnel exactly when its request line contains `CONNECT`, whatever the later header lines say |
| `Messages.ConnectAnywhere` | client.py:69 | `CONNECT` anywhere in the request line, as in the path of a `GET`, routes to the tunnel |
| `Messages.ReadConsumes` | server.py:122-125 | every read that yields a message takes bytes off the stream |
| `Messages.ReadEnds` | server.py:13-14 | a read that meets the end of the stream leaves nothing unread |
| `Messages.ReadHasHead` | server.py:11-17 | every framed message contains CRLFCRLF, so it is never empty |
| `Messages.ReadMessage` | client.py:9-56 | a framed read as the loops record it: the outcome and the rest of the stream are those of the recorded read |
| `Messages.GatewayAnswers` | server.py:73-78 | a forwarded response or the synthetic 502 always contains a whole header block |
| `Messages.ChainSnoc` | server.py:122-123 | a read that begins where the last hop ended extends the chain of reads along the stream |
| `Server.PortValue` | server.py:63 | `int()` reads back a rendered port |
| `Server.ColonFields` | server.py:62 | `host:port` splits on `:` into exactly host and port |
| `Server.NetlocExplicitPort` | server.py:62-63 | the target of `host:port` is that host and port |
| `Server.NetlocExtraFields` | server.py:62-63 | a netloc with more than one `:` still gives the first two fields, the rest being ignored |
| `Server.NetlocDefaultPort` | server.py:62-63 | a netloc without `:` is the host, with port 80 when `http` is in the scheme and 443 otherwise |
| `Server.NetlocEmptyPort` | server.py:63 | `host:` with nothing after the colon raises |
| `Server.HttpsDefaultsTo80` | server.py:63 | an `https` URL without a port gets port 80 |
| `Server.ConnectExplicitPort` | server.py:86-87 | a `CONNECT` authority `host:port` gives that host and port |
| `Server.ConnectExtraFields` | server.py:86 | an authority with two colons fails to unpack and raises |
| `Server.ConnectDefault` | server.py:86 | an authority without `:` is the host, with port 443 |
| `Server.ConnectDefaultDial` | server.py:84-87 | `CONNECT host HTTP/x` with no port dials that host on port 443 over TLS |
| `Server.RequestTarget` | server.py:60 | the target of a three-word request line is its middle word |
| `Server.TwoWordLine` | server.py:60 | a request line of two words fails to unpack and raises |
| `Server.SpacedTarget` | server.py:59-60 | whatever white space lays out the request line, it has a target exactly when it has three words, and the target is the middle one |
| `Server.ConnectLine` | server.py:85 | a `CONNECT authority version` line is routed to the tunnel and yields its authority |
| `Server.ConnectRequestDial` | server.py:84-93 | `CONNECT host:port HTTP/x` dials that host and port over TLS |
| `Server.NormalDialFails` | server.py:59-63 | the normal handler has no dial exactly when the request line does not have three words, `urlparse` raises, or the port cannot be read |
| `Server.NormalTlsIsHttps` | server.py:67 | a request routed to the normal handler is wrapped in TLS exactly when its scheme is `https` |
| `Server.HandleNormal` | server.py:57-80 | the normal handler raises exactly when target resolution fails; otherwise it dials the resolved target and sends the client the origin's framed response, or the 502 |
| `Server.Forward` | server.py:65-80 | on an unreachable origin the client gets the 502; otherwise the response is framed off the origin's stream and sent on, or the 502 replaces it |
| `Server.HandleConnect` | server.py:82-111 | the tunnel handler raises exactly when authority parsing fails; otherwise it sends the 200 and relays. An unreachable origin sends nothing |
| `Server.Tunnel` | server.py:89-111 | an unreachable origin is swallowed and nothing is sent; otherwise the 200 is followed by what the origin relayed, and only the relayed bytes leave the client's stream |
| `Server.Dispatch` | server.py:126-130 | each request goes to the handler its request line picks; the client gets that handler's reply, and only bytes a tunnel relayed leave the stream |
| `Server.ServeOne` | server.py:123-130 | one turn either stops on `None` or on an exception, sending nothing, or frames a request, answers it, and shortens the stream |
| `Server.ServedSnoc` | server.py:122-130 | an answered exchange that starts where the log left the stream extends the log's invariant |
| `Server.ServeLoop` | server.py:122-130 | the loop's reads chain along the client's stream, every exchange is answered as its handler prescribes, and the client is sent exactly the replies |
| `Server.Serve` | server.py:122-132 | the loop, then the connection is closed exactly when the loop ended on the end of the stream |
| `Server.ServesCleanly` | server.py:123-125 | the loop ends cleanly exactly when the framer meets the end of the stream, which is then drained; otherwise the last request or its framing raised |
| `Client.PassPlain` | client.py:85-91 | the browser gets the server's framed response, or exactly the 502 when the server closed first; an unreadable length raises |
| `Client.PassTunnel` | client.py:69-84 | the server's response to the `CONNECT` is passed on only when one was framed, and then both directions are relayed; it reports the hang-up that leaves the relay spinning only when one of the two streams is drained |
| `Client.Exchange` | client.py:65-91 | the request goes to the server first, then the branch its request line picks runs |
| `Client.PlainTurn` | client.py:85-91 | a plain turn sends the server the request alone and the browser a whole header block: the response, or the 502 |
| `Client.TunnelTurn` | client.py:66-84 | a tunnel turn sends the server the request, then the bytes that followed it; the browser gets the server's response, when one was framed, then the bytes that followed it |
| `Client.ProxyOne` | client.py:60-91 | one turn stops on `None` or on an exception, or forwards a request and its answer and shortens the browser's stream; a tunnel that hung up forwards its turn and then stops with `Spins` |
| `Client.ProxyingSnoc` | client.py:59-91 | a turn that starts where the log left both streams extends the log's invariant |
| `Client.ProxyLoop` | client.py:59-93 | the loop's reads chain along both streams, and each connection is sent exactly what the turns forwarded |
| `Client.ProxyThread` | client.py:58-95 | the loop, then the browser's connection is closed exactly when the loop was left by `break`; after an exception or a hang-up it stays open, and the shared connection is never closed |
| `Client.StopsCleanly` | client.py:61-84 | the loop ends cleanly exactly when the framer meets the end of the browser's stream; the stream is then drained, and nothing is left half-forwarded. A run that spins ended in a tunnel turn, with one of the streams drained |

## Definitions

The functions the contracts above are stated in. They carry no contract of
their own; the lemmas in the table above say what they compute.

- `Text.Contains` (server.py:22): Python's `in` on byte strings: the needle occurs somewhere.
- `Text.Split` (server.py:24): `split(sep)`: the fields between the occurrences of the separator, found from the left.
- `Text.Strip` (server.py:26): `strip()`: the text without its leading and trailing white space.
- `Numbers.ParseInt` (server.py:42): `int(text, base)` on bytes: strip, an optional sign, in base 16 an optional `0x`/`0X`, then at least one digit; `None` for `ValueError`.
- `Numbers.IntOfStr` (server.py:63): `int(text)` on a `str`, which strips the wider white space of `str` first.
- `Framer.LengthValue` (server.py:25-26): the number on a `content-length:` line: the second `:` field, stripped and read in base 10.
- `Framer.DeclaredLength` (server.py:21-26): the length scan: 0 with no length line, the last length line's value otherwise, `None` when any length line is unreadable.
- `Framer.BodyRule` (server.py:20-34): the body rule of a header block: a declared length above 0, else `chunked` in the lower-cased headers, else no body; `BadLength` when the scan raises.
- `Framer.Dechunk` (server.py:35-53): the chunk loop: size line to the first CRLF, read in base 16; size 0 ends after a `recv(2)`; otherwise the payload, a `recv(2)`, and the next chunk.
- `Framer.FrameBody` (server.py:28-55): the message for a body rule: the header block followed by the read-ahead bytes and what the rule reads.
- `Framer.Frame` (server.py:10-55): the message framed off a stream for the header cut and the `recv(2)` lengths the network chose, and what is left of the stream.
- `Messages.FirstLine` (server.py:59): the request line: the text before the first CRLF.
- `Messages.IsConnect` (server.py:126-127): the routing test: `CONNECT` occurs in the request line.
- `Messages.GatewayReply` (server.py:73-76): the response when one was framed, otherwise the 502.
- `Server.TargetOf` (server.py:59-60): the middle word of a request line of exactly three words.
- `Server.DefaultPort` (server.py:63): 80 when `http` occurs in the scheme, 443 otherwise.
- `Server.NetlocTarget` (server.py:62-63): host and port from the netloc: its first two `:` fields, or the whole netloc and the default port.
- `Server.NormalDial` (server.py:59-67): where the normal handler dials: target, `urlparse`, host and port, TLS when the scheme is `https`.
- `Server.ConnectTarget` (server.py:86-87): host and port of a `CONNECT` authority: exactly two `:` fields, or the authority and 443.
- `Server.ConnectDial` (server.py:84-93): where the tunnel handler dials: the authority's host and port, over TLS.

## Left out

- Sockets and TLS: socket creation, `connect`, `bind`/`listen`/`accept`, socket options and TLS wrapping are operating-system and library I/O. The decision to use TLS is kept as a flag of the dial.
- Dialling an origin is a parameter: a function from the dial and the request to the origin's byte stream, or `None` when the connection fails. A failure part-way through `sendall` is not modelled.
- The `select` relays of both sides are abstracted by `Sockets.Relay`: some prefix of each side's pending bytes reaches the other side verbatim. How far each direction gets is left open, which covers readiness and the order in which `select` reports the two sides. A relay run that never stops (an idle server tunnel, or the client relay spinning after a hang-up) has no end state in the model; `Spins` marks the point where the client's turn stops making progress, and bytes the spinning loop might still pass on after that are not modelled.
- Server.Tunnel: the origin's stream is fixed when it is dialled, so what the origin relays does not depend on the bytes tunnelled to it.
- Threads and the shared lock: each browser connection is modelled as one sequential `proxy_thread` owning the shared connection for its whole run. Interleaving between browser connections under the lock is not modelled.
- `ConnectionResetError` on the browser side, and exceptions from `sendall`, are not modelled.
- `urlparse` is a parameter of the normal handler, from the request target to its scheme and netloc, or `None` when it raises `ValueError` (an invalid IPv6 netloc, say). That happens before the handler's `try`, so it ends the server's loop.
- `int()` leniency: underscores between digits, Unicode digits and white space outside ASCII are not modelled. The ASCII white space of `bytes` and of `str`, the sign, the base-16 `0x` prefix and the digits are.
- `int()`'s limit on decimal text (from Python 3.11, more than 4300 digits raise `ValueError`) is not modelled: a `Content-Length` or port of any length is read. The base-16 chunk sizes have no such limit.
- `decode(errors='ignore')`: every byte is taken to be one character, so decoding is the identity.
- The range of a port is not checked; whether a dial with any port reaches anything is up to the dialling parameter.
- `argparse`, `print`, the accept loop of the client and the server's process setup are left out.
