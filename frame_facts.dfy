/** What the framer makes of a stream: what a framed message consists of,
    what is left on the stream, how each body rule reads the body, and the
    chunked encoding it reads back. */
module FrameFacts {
  import opened Text
  import opened Numbers
  import opened Framer

  predicate IsPrefix(p: Bytes, s: Bytes)
  {
    |p| <= |s| && s[..|p|] == p
  }

  predicate IsSuffix(r: Bytes, s: Bytes)
  {
    |r| <= |s| && r == s[|s| - |r|..]
  }

  lemma SuffixTrans(a: Bytes, b: Bytes, c: Bytes)
    requires IsSuffix(a, b) && IsSuffix(b, c)
    ensures IsSuffix(a, c)
  {
    assert c[|c| - |b|..][|b| - |a|..] == c[|c| - |a|..];
  }

  lemma PrefixTrans(a: Bytes, b: Bytes, c: Bytes)
    requires IsPrefix(a, b) && IsPrefix(b, c)
    ensures IsPrefix(a, c)
  {
    assert c[..|b|][..|a|] == c[..|a|];
  }

  /** The empty prefix takes nothing off a stream. */
  lemma NilSuffix(s: Bytes)
    ensures IsPrefix([], s) && s[0..] == s
  {
  }

  lemma PrefixOfAppend(a: Bytes, x: Bytes)
    ensures IsPrefix(a, a + x)
  {
    assert (a + x)[..|a|] == a;
  }

  lemma PrefixJoin(head: Bytes, a: Bytes, v: Bytes)
    requires IsPrefix(a, v)
    ensures IsPrefix(head + a, head + v)
  {
    assert (head + v)[..|head + a|] == head + v[..|a|];
  }

  lemma SuffixOfSlice(t: Bytes, j: nat)
    requires j <= |t|
    ensures IsSuffix(t[j..], t)
  {
  }

  lemma SliceJoin(s: Bytes, i: nat, j: nat)
    requires i <= j <= |s|
    ensures s[..i] + s[i..j] == s[..j]
  {
  }

  /** The pieces of `s` at `e <= cut <= m`: the header block, what the
      header loop read past it, and what a length loop reads after that. */
  lemma SliceJoin3(s: Bytes, e: nat, cut: nat, m: nat)
    requires e <= cut <= m <= |s|
    ensures s[..e] + (s[e..cut] + s[cut..][..m - cut]) == s[..m]
    ensures s[cut..][m - cut..] == s[m..]
  {
  }

  lemma ExactShape(buf: Bytes, n: int, t: Bytes)
    ensures IsSuffix(Exact(buf, n, t).rest, t)
    ensures Exact(buf, n, t).result.EndOfStream? ==> Exact(buf, n, t).rest == []
    ensures !Exact(buf, n, t).result.Malformed?
    ensures Exact(buf, n, t).result.Ok? ==> IsPrefix(buf, Exact(buf, n, t).result.value)
  {
    if n > |buf| && n - |buf| <= |t| {
      PrefixOfAppend(buf, t[..n - |buf|]);
    }
  }

  // ================================================== the chunked loop

  /** One turn of the chunked loop that read a size line and `size` payload
      bytes after it. */
  /** A payload read from a stream that holds all of it. */
  lemma ExactPayload(c: Bytes, rest: Bytes)
    requires c != []
    ensures Exact([], |c|, c + rest) == Framing(Ok(c), rest)
  {
    assert [] + (c + rest)[..|c|] == c && (c + rest)[|c|..] == rest;
  }

  /** One turn of the chunked loop that read a size line and a payload. */
  lemma DechunkStep(t: Bytes, i: nat, size: int, takes: seq<nat>, body: Bytes, v: Bytes, rest: Bytes)
    requires IndexOf(t, CRLF) == Some(i) && ParseInt(t[..i], 16) == Some(size) && size != 0
    requires Exact([], size, t[i + 2..]) == Framing(Ok(v), rest)
    ensures Dechunk(t, takes, body) == Dechunk(Drop(rest, NextTake(takes)), LaterTakes(takes), body + v)
  {
  }

  lemma ShapeCombine(t: Bytes, after: Bytes, rest: Bytes, next: Bytes, f: Framing, body: Bytes, v: Bytes)
    requires IsSuffix(after, t) && IsSuffix(rest, after) && IsSuffix(next, rest) && IsSuffix(f.rest, next)
    requires f.result.Ok? ==> IsPrefix(body + v, f.result.value)
    ensures IsSuffix(f.rest, t)
    ensures f.result.Ok? ==> IsPrefix(body, f.result.value)
  {
    SuffixTrans(next, rest, after);
    SuffixTrans(next, after, t);
    SuffixTrans(f.rest, next, t);
    if f.result.Ok? {
      PrefixOfAppend(body, v);
      PrefixTrans(body, body + v, f.result.value);
    }
  }

  /** What the chunked loop's outcome `f` on stream `t` keeps: it leaves a
      suffix of the stream, nothing once the stream ended, and a body that
      extends `body`. */
  predicate Consumes(t: Bytes, body: Bytes, f: Framing)
  {
    IsSuffix(f.rest, t)
    && (f.result.EndOfStream? ==> f.rest == [])
    && (f.result.Ok? ==> IsPrefix(body, f.result.value))
  }

  lemma PrefixRefl(s: Bytes)
    ensures IsPrefix(s, s)
  {
  }

  /** The chunked loop only consumes the stream; it stops at the end of the
      stream with nothing left; and the body it returns extends the one it
      was given. */
  lemma DechunkShape(t: Bytes, takes: seq<nat>, body: Bytes)
    ensures IsSuffix(Dechunk(t, takes, body).rest, t)
    ensures Dechunk(t, takes, body).result.EndOfStream? ==> Dechunk(t, takes, body).rest == []
    ensures Dechunk(t, takes, body).result.Ok? ==> IsPrefix(body, Dechunk(t, takes, body).result.value)
    decreases |t|, 1
  {
    match IndexOf(t, CRLF)
    case None =>
      DechunkNoLine(t, takes, body);
      assert Consumes(t, body, Framing(EndOfStream, []));
    case Some(i) =>
      match ParseInt(t[..i], 16)
      case None =>
        DechunkBadSize(t, i, takes, body);
        SuffixOfSlice(t, i + 2);
        assert Consumes(t, body, Framing(Malformed, t[i + 2..]));
      case Some(size) =>
        if size == 0 {
          DechunkEnds(t, i, takes, body);
          ConsumesLast(t, i, body, NextTake(takes));
        } else {
          ShapeOfPayload(t, i, size, takes, body);
        }
  }

  lemma ConsumesLast(t: Bytes, i: nat, body: Bytes, k: nat)
    requires i + 2 <= |t|
    ensures Consumes(t, body, Framing(Ok(body), Drop(t[i + 2..], k)))
  {
    SuffixOfSlice(t, i + 2);
    SuffixTrans(Drop(t[i + 2..], k), t[i + 2..], t);
    PrefixRefl(body);
  }

  lemma ConsumesShort(t: Bytes, i: nat, size: int, body: Bytes)
    requires i + 2 <= |t| && !Exact([], size, t[i + 2..]).result.Ok?
    ensures Consumes(t, body, Exact([], size, t[i + 2..]))
  {
    SuffixOfSlice(t, i + 2);
    ExactShape([], size, t[i + 2..]);
    SuffixTrans(Exact([], size, t[i + 2..]).rest, t[i + 2..], t);
  }

  /** A payload and its `recv(2)` take at least the size line off the stream. */
  lemma ChunkShrinks(t: Bytes, i: nat, size: int, k: nat)
    requires i + 2 <= |t| && Exact([], size, t[i + 2..]).result.Ok?
    ensures IsSuffix(Exact([], size, t[i + 2..]).rest, t[i + 2..])
    ensures IsSuffix(Drop(Exact([], size, t[i + 2..]).rest, k), Exact([], size, t[i + 2..]).rest)
    ensures |Drop(Exact([], size, t[i + 2..]).rest, k)| < |t|
  {
    ExactShape([], size, t[i + 2..]);
  }

  lemma {:induction false} ShapeOfPayload(t: Bytes, i: nat, size: int, takes: seq<nat>, body: Bytes)
    requires IndexOf(t, CRLF) == Some(i) && ParseInt(t[..i], 16) == Some(size) && size != 0
    ensures Consumes(t, body, Dechunk(t, takes, body))
    decreases |t|, 0
  {
    assert i + 2 <= |t|;
    var after := t[i + 2..];
    var payload := Exact([], size, after);
    if payload.result.Ok? {
      var v, rest := payload.result.value, payload.rest;
      var next := Drop(rest, NextTake(takes));
      ChunkShrinks(t, i, size, NextTake(takes));
      DechunkStep(t, i, size, takes, body, v, rest);
      var f := Dechunk(next, LaterTakes(takes), body + v);
      DechunkShape(next, LaterTakes(takes), body + v);
      SuffixOfSlice(t, i + 2);
      ShapeCombine(t, after, rest, next, f, body, v);
      assert Consumes(t, body, f);
    } else {
      DechunkShort(t, i, size, takes, body);
      ConsumesShort(t, i, size, body);
    }
  }

  // ================================================== chunked encoding

  predicate NonEmptyChunks(chunks: seq<Bytes>)
  {
    forall i :: 0 <= i < |chunks| ==> chunks[i] != []
  }

  /** The chunked transfer coding of the payloads `chunks`: for each, its
      size in hexadecimal, CRLF, the payload and CRLF; then `0` CRLF CRLF. */
  function EncodeChunks(chunks: seq<Bytes>): Bytes
    requires NonEmptyChunks(chunks)
  {
    if chunks == [] then "0" + CRLF + CRLF
    else Render(|chunks[0]|, 16) + CRLF + chunks[0] + CRLF + EncodeChunks(chunks[1..])
  }

  function Concat(chunks: seq<Bytes>): Bytes
  {
    if chunks == [] then [] else chunks[0] + Concat(chunks[1..])
  }

  /** What is left in front of a size line: nothing, or the LF that a
      one-byte `recv(2)` after the previous payload did not consume. */
  predicate LeftOver(pre: Bytes)
  {
    pre == [] || pre == [LF]
  }

  /** A size line, possibly after a left-over LF, is found and read back. */
  lemma SizeLine(t: Bytes, pre: Bytes, n: nat, y: Bytes)
    requires LeftOver(pre) && t == pre + Render(n, 16) + CRLF + y
    ensures IndexOf(t, CRLF) == Some(|pre| + |Render(n, 16)|)
    ensures ParseInt(t[..|pre| + |Render(n, 16)|], 16) == Some(n)
    ensures t[|pre| + |Render(n, 16)| + 2..] == y
  {
    var x := pre + Render(n, 16);
    RenderDigits(n, 16);
    forall k | 0 <= k < |x| ensures x[k] != CR {
      if k >= |pre| {
        assert x[k] == Render(n, 16)[k - |pre|];
        assert IsDigit(x[k], 16);
      }
    }
    IndexOfCrlfAfter(x, y);
    assert t[..|x|] == x + [];
    assert forall k :: 0 <= k < |pre| ==> IsSpace(pre[k], BytesSpace);
    ParseRender(n, 16, pre, []);
  }

  /** The two bytes after the last size line are not checked: whatever
      follows `0` CRLF, the body ends there. */
  lemma TrailerUnchecked(x: Bytes, takes: seq<nat>, body: Bytes)
    ensures Dechunk("0" + CRLF + x, takes, body).result == Ok(body)
  {
    var t := "0" + CRLF + x;
    assert t == [] + Render(0, 16) + CRLF + x;
    SizeLine(t, [], 0, x);
  }

  /** A one-byte `recv(2)` after a payload leaves the LF of its CRLF behind. */
  lemma DropCrlf(e: Bytes, tail: Bytes, k: nat, pre: Bytes)
    requires 1 <= k <= 2 && pre == (if k == 1 then [LF] else [])
    ensures LeftOver(pre)
    ensures Drop(CRLF + (e + tail), k) == pre + e + tail
  {
    if k == 1 {
      assert (CRLF + (e + tail))[1..] == [LF] + e + tail;
    } else {
      assert (CRLF + (e + tail))[2..] == e + tail;
    }
  }

  /** Where the pieces of one encoded chunk sit in the stream. */
  lemma ChunkLayout(pre: Bytes, r: Bytes, c: Bytes, e: Bytes, tail: Bytes)
    ensures pre + (r + CRLF + c + CRLF + e) + tail == pre + r + CRLF + (c + (CRLF + (e + tail)))
  {
  }

  lemma LastLayout(pre: Bytes, z: Bytes, tail: Bytes)
    ensures pre + (z + CRLF + CRLF) + tail == pre + z + CRLF + (CRLF + tail)
  {
  }

  lemma AppendNil(body: Bytes)
    ensures body + Concat([]) == body
  {
  }

  lemma ConcatCons(body: Bytes, chunks: seq<Bytes>)
    requires chunks != []
    ensures body + chunks[0] + Concat(chunks[1..]) == body + Concat(chunks)
  {
  }

  lemma NonEmptyTail(chunks: seq<Bytes>)
    requires NonEmptyChunks(chunks) && chunks != []
    ensures NonEmptyChunks(chunks[1..])
  {
    assert forall i :: 0 <= i < |chunks| - 1 ==> chunks[1..][i] == chunks[i + 1];
  }

  /** One encoded chunk read off the front of stream `t`. */
  lemma DechunkChunk(t: Bytes, pre: Bytes, c: Bytes, rest: Bytes, takes: seq<nat>, body: Bytes)
    requires LeftOver(pre) && c != [] && t == pre + Render(|c|, 16) + CRLF + (c + rest)
    ensures Dechunk(t, takes, body) == Dechunk(Drop(rest, NextTake(takes)), LaterTakes(takes), body + c)
  {
    SizeLine(t, pre, |c|, c + rest);
    assert IndexOf(t, CRLF) == Some(|pre| + |Render(|c|, 16)|);
    assert ParseInt(t[..|pre| + |Render(|c|, 16)|], 16) == Some(|c|);
    PayloadAt(t, |pre| + |Render(|c|, 16)|, c, rest, takes, body);
  }

  /** A size line ending at `i` that names the length of the payload `c` after it. */
  lemma PayloadAt(t: Bytes, i: nat, c: Bytes, rest: Bytes, takes: seq<nat>, body: Bytes)
    requires c != [] && IndexOf(t, CRLF) == Some(i) && ParseInt(t[..i], 16) == Some(|c|)
    requires t[i + 2..] == c + rest
    ensures Dechunk(t, takes, body) == Dechunk(Drop(rest, NextTake(takes)), LaterTakes(takes), body + c)
  {
    ExactPayload(c, rest);
    DechunkStep(t, i, |c|, takes, body, c, rest);
  }

  /** The last size line read off the front of stream `t`. */
  lemma DechunkLastChunk(t: Bytes, pre: Bytes, tail: Bytes, takes: seq<nat>, body: Bytes)
    requires LeftOver(pre) && t == pre + Render(0, 16) + CRLF + (CRLF + tail)
    ensures Dechunk(t, takes, body).result == Ok(body)
  {
    SizeLine(t, pre, 0, CRLF + tail);
  }

  /** Reading back a chunked encoding: whatever number of bytes each
      unchecked `recv(2)` returned, the body is the concatenated payloads. */
  lemma {:induction false} DechunkEncoded(pre: Bytes, chunks: seq<Bytes>, tail: Bytes, takes: seq<nat>, body: Bytes)
    requires LeftOver(pre) && NonEmptyChunks(chunks) && ValidTakes(takes)
    ensures Dechunk(pre + EncodeChunks(chunks) + tail, takes, body).result == Ok(body + Concat(chunks))
    decreases |chunks|
  {
    var t := pre + EncodeChunks(chunks) + tail;
    if chunks == [] {
      var z := Render(0, 16);
      assert EncodeChunks(chunks) == z + CRLF + CRLF;
      LastLayout(pre, z, tail);
      DechunkLastChunk(t, pre, tail, takes, body);
      AppendNil(body);
    } else {
      var c, cs := chunks[0], chunks[1..];
      NonEmptyTail(chunks);
      var r, e := Render(|c|, 16), EncodeChunks(cs);
      assert EncodeChunks(chunks) == r + CRLF + c + CRLF + e;
      ChunkLayout(pre, r, c, e, tail);
      DechunkChunk(t, pre, c, CRLF + (e + tail), takes, body);
      var k := NextTake(takes);
      var pre' := if k == 1 then [LF] else [];
      DropCrlf(e, tail, k, pre');
      assert ValidTakes(LaterTakes(takes));
      DechunkEncoded(pre', cs, tail, LaterTakes(takes), body + c);
      ConcatCons(body, chunks);
    }
  }

  // ================================================== whole messages

  /** Whatever the body rule, the framer only consumes the stream; it
      returns no message once the stream has ended, and then leaves nothing
      unread; and the message it returns begins with every byte the header
      loop read, the header block and whatever arrived with it. */
  lemma FrameShape(s: Bytes, cut: nat, takes: seq<nat>)
    requires HeadCut(s, cut)
    ensures IsSuffix(Frame(s, cut, takes).rest, s[cut..])
    ensures Frame(s, cut, takes).result.EndOfStream? ==> Frame(s, cut, takes).rest == []
    ensures Frame(s, cut, takes).result.Ok? ==> IsPrefix(s[..cut], Frame(s, cut, takes).result.value)
  {
    match HeaderEnd(s)
    case None =>
    case Some(e) =>
      FrameAt(s, cut, takes, e);
      var head, left, t := s[..e], s[e..cut], s[cut..];
      SliceJoin(s, e, cut);
      var rule := BodyRule(head);
      var v: Bytes;
      if rule.Fixed? {
        ExactShape(left, rule.length, t);
        if Exact(left, rule.length, t).result.Ok? {
          v := Exact(left, rule.length, t).result.value;
          PrefixJoin(head, left, v);
        }
      } else if rule.Chunked? {
        DechunkShape(t, takes, left);
        if Dechunk(t, takes, left).result.Ok? {
          v := Dechunk(t, takes, left).result.value;
          PrefixJoin(head, left, v);
        }
      } else if rule.NoBody? {
        PrefixOfAppend(head + left, []);
        assert head + left + [] == head + left;
      }
  }

  /** A stream without a complete header block is the end of the stream. */
  lemma FrameNoHead(s: Bytes, cut: nat, takes: seq<nat>)
    requires HeadCut(s, cut) && !Contains(s, CRLFCRLF)
    ensures cut == |s| && Frame(s, cut, takes) == Framing(EndOfStream, [])
  {
  }

  /** A declared length: the message is the header block followed by exactly
      that many body bytes, however the stream was fragmented, or the end of
      the stream if there are not so many; but when the header loop already
      read more than the declared length, all of it is kept. */
  lemma FrameFixed(s: Bytes, cut: nat, takes: seq<nat>, e: nat, n: nat)
    requires HeadCut(s, cut) && HeaderEnd(s) == Some(e) && BodyRule(s[..e]) == Fixed(n)
    ensures cut - e <= n && e + n <= |s| ==> Frame(s, cut, takes) == Framing(Ok(s[..e + n]), s[e + n..])
    ensures e + n > |s| ==> Frame(s, cut, takes) == Framing(EndOfStream, [])
    ensures cut - e > n ==> Frame(s, cut, takes) == Framing(Ok(s[..cut]), s[cut..])
  {
    FrameAt(s, cut, takes, e);
    FixedRead(s, e, cut, n);
  }

  /** The length loop on the bytes after the header block. */
  lemma FixedRead(s: Bytes, e: nat, cut: nat, n: nat)
    requires e <= cut <= |s|
    ensures var f := WithHead(s[..e], Exact(s[e..cut], n, s[cut..]));
      && (cut - e <= n && e + n <= |s| ==> f == Framing(Ok(s[..e + n]), s[e + n..]))
      && (e + n > |s| ==> f == Framing(EndOfStream, []))
      && (cut - e > n ==> f == Framing(Ok(s[..cut]), s[cut..]))
  {
    if cut - e <= n && e + n <= |s| {
      SliceJoin3(s, e, cut, e + n);
    } else {
      SliceJoin(s, e, cut);
    }
  }

  /** Neither a length nor `chunked`: the message is everything the header
      loop read, and nothing more is read. */
  lemma FrameNoBody(s: Bytes, cut: nat, takes: seq<nat>, e: nat)
    requires HeadCut(s, cut) && HeaderEnd(s) == Some(e) && BodyRule(s[..e]) == NoBody
    ensures Frame(s, cut, takes) == Framing(Ok(s[..cut]), s[cut..])
  {
    FrameAt(s, cut, takes, e);
    SliceJoin(s, e, cut);
  }

  /** A length `int()` cannot read raises before any body byte is read. */
  lemma FrameBadLength(s: Bytes, cut: nat, takes: seq<nat>, e: nat)
    requires HeadCut(s, cut) && HeaderEnd(s) == Some(e) && BodyRule(s[..e]) == BadLength
    ensures Frame(s, cut, takes) == Framing(Malformed, s[cut..])
  {
    FrameAt(s, cut, takes, e);
  }

  /** A chunked message read from the start of its body: the message is the
      header block followed by the payloads, whatever each unchecked
      `recv(2)` returned. */
  lemma FrameChunked(head: Bytes, chunks: seq<Bytes>, tail: Bytes, takes: seq<nat>)
    requires HeaderEnd(head) == Some(|head|) && BodyRule(head) == Chunked
    requires NonEmptyChunks(chunks) && ValidTakes(takes)
    ensures HeadCut(head + EncodeChunks(chunks) + tail, |head|)
    ensures Frame(head + EncodeChunks(chunks) + tail, |head|, takes).result == Ok(head + Concat(chunks))
  {
    var s := head + EncodeChunks(chunks) + tail;
    HeadLayout(head, EncodeChunks(chunks), tail, Concat(chunks));
    IndexOfPrefix(s, CRLFCRLF, |head|);
    FrameAt(s, |head|, takes, |head|);
    DechunkEncoded([], chunks, tail, takes, []);
  }

  lemma HeadLayout(head: Bytes, x: Bytes, tail: Bytes, body: Bytes)
    ensures (head + x + tail)[..|head|] == head
    ensures (head + x + tail)[|head|..|head|] == []
    ensures (head + x + tail)[|head|..] == [] + x + tail
    ensures head + ([] + body) == head + body
  {
    assert (head + x + tail)[|head|..] == x + tail;
  }

  /** The bytes the header loop read past the header block are kept as the
      start of the body and are not decoded: when a whole chunked message
      arrives with its header block, nothing is left for the chunked loop to
      read, and the message comes out as the end of the stream. */
  lemma ChunkedReadAhead(s: Bytes, takes: seq<nat>, e: nat)
    requires HeadCut(s, |s|) && HeaderEnd(s) == Some(e) && BodyRule(s[..e]) == Chunked
    ensures Frame(s, |s|, takes) == Framing(EndOfStream, [])
  {
    FrameAt(s, |s|, takes, e);
    assert s[|s|..] == [];
  }

  /** Only the lower-cased header text decides how the body is read. */
  lemma BodyRuleIgnoresCase(head: Bytes)
    ensures BodyRule(Lower(head)) == BodyRule(head)
  {
    LowerIdempotent(head);
  }
}
