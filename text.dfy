/** Octets and the handful of byte-string operations the proxy relies on:
    substring search (`in`, `find`), `split` on a separator, `split()` on
    whitespace, `strip()` and ASCII `lower()`. */
module Text {

  /** One octet of a stream. Characters below 256 stand for bytes, so that
      protocol constants can be written as string literals; decoding a header
      block is then the identity (every byte is one character). */
  type Byte = c: char | c as int < 256

  type Bytes = seq<Byte>

  datatype Option<+T> = None | Some(value: T)

  const CR: Byte := '\r'
  const LF: Byte := '\n'
  const CRLF: Bytes := "\r\n"
  const CRLFCRLF: Bytes := "\r\n\r\n"

  function Min(a: int, b: int): int { if a <= b then a else b }

  // ---------------------------------------------------------------- search

  /** `t` occurs in `s` at index `i`. */
  predicate OccursAt(s: Bytes, t: Bytes, i: nat)
  {
    i + |t| <= |s| && s[i..i + |t|] == t
  }

  predicate StartsWith(s: Bytes, p: Bytes)
  {
    |p| <= |s| && s[..|p|] == p
  }

  /** The first occurrence of `t` in `s` at or after index `k`. */
  function IndexFrom(s: Bytes, t: Bytes, k: nat): (r: Option<nat>)
    requires k <= |s|
    ensures r.Some? ==> k <= r.value && OccursAt(s, t, r.value)
    ensures r.Some? ==> forall j: nat :: k <= j < r.value ==> !OccursAt(s, t, j)
    ensures r.None? ==> forall j: nat :: k <= j ==> !OccursAt(s, t, j)
    decreases |s| - k
  {
    if k + |t| > |s| then None
    else if s[k..k + |t|] == t then Some(k)
    else IndexFrom(s, t, k + 1)
  }

  /** Python's `s.find(t)`, with `None` for -1. */
  function IndexOf(s: Bytes, t: Bytes): (r: Option<nat>)
    ensures r.Some? ==> OccursAt(s, t, r.value)
    ensures r.Some? ==> forall j: nat :: j < r.value ==> !OccursAt(s, t, j)
    ensures r.None? ==> forall j: nat :: !OccursAt(s, t, j)
  {
    IndexFrom(s, t, 0)
  }

  /** Python's `t in s`. */
  predicate Contains(s: Bytes, t: Bytes)
  {
    IndexOf(s, t).Some?
  }

  /** A first occurrence inside a prefix of `s` is the first occurrence in `s`. */
  lemma IndexOfPrefix(s: Bytes, t: Bytes, m: nat)
    requires m <= |s| && IndexOf(s[..m], t).Some?
    ensures IndexOf(s, t) == IndexOf(s[..m], t)
  {
    var i := IndexOf(s[..m], t).value;
    OccursInPrefix(s, t, m, i);
    forall j: nat | j < i ensures !OccursAt(s, t, j) {
      OccursInPrefix(s, t, m, j);
    }
  }

  /** Every occurrence inside a prefix of `s` is an occurrence in `s`. */
  lemma OccursInPrefix(s: Bytes, t: Bytes, m: nat, j: nat)
    requires m <= |s| && j + |t| <= m
    ensures OccursAt(s[..m], t, j) <==> OccursAt(s, t, j)
  {
    assert s[..m][j..j + |t|] == s[j..j + |t|];
  }

  /** If `x` holds no carriage return, the first CRLF of `x + CRLF + y` is the one after `x`. */
  lemma IndexOfCrlfAfter(x: Bytes, y: Bytes)
    requires forall k :: 0 <= k < |x| ==> x[k] != CR
    ensures IndexOf(x + CRLF + y, CRLF) == Some(|x|)
  {
    var s := x + CRLF + y;
    assert OccursAt(s, CRLF, |x|) by { assert s[|x|..|x| + 2] == CRLF; }
    forall j: nat | j < |x| ensures !OccursAt(s, CRLF, j) {
      assert s[j] == x[j];
    }
  }

  // ---------------------------------------------------------------- case

  function LowerByte(c: Byte): (r: Byte)
    ensures 'A' <= c <= 'Z' ==> r as int == c as int + 32
    ensures !('A' <= c <= 'Z') ==> r == c
  {
    if 'A' <= c <= 'Z' then (c as int + 32) as char else c
  }

  /** ASCII `lower()`. */
  function Lower(s: Bytes): (r: Bytes)
    ensures |r| == |s|
    ensures forall i :: 0 <= i < |s| ==> r[i] == LowerByte(s[i])
  {
    seq(|s|, i requires 0 <= i < |s| => LowerByte(s[i]))
  }

  /** Lower-casing twice is lower-casing once. */
  lemma LowerIdempotent(s: Bytes)
    ensures Lower(Lower(s)) == Lower(s)
  {
    forall i | 0 <= i < |s| ensures Lower(Lower(s))[i] == Lower(s)[i] {
      var c := s[i];
      if 'A' <= c <= 'Z' {
        assert !('A' <= LowerByte(c) <= 'Z');
      }
    }
  }

  // ---------------------------------------------------------------- split

  /** Python's `s.split(sep)` for a non-empty separator. */
  function Split(s: Bytes, sep: Bytes): (r: seq<Bytes>)
    requires |sep| > 0
    ensures |r| >= 1
    decreases |s|
  {
    match IndexOf(s, sep)
    case None => [s]
    case Some(i) => [s[..i]] + Split(s[i + |sep|..], sep)
  }

  /** Python's `sep.join(parts)`. */
  function Join(parts: seq<Bytes>, sep: Bytes): Bytes
  {
    if |parts| == 0 then []
    else if |parts| == 1 then parts[0]
    else parts[0] + sep + Join(parts[1..], sep)
  }

  lemma JoinCons(x: Bytes, r: seq<Bytes>, sep: Bytes)
    requires |r| >= 1
    ensures Join([x] + r, sep) == x + sep + Join(r, sep)
  {
    var all := [x] + r;
    assert all[0] == x && all[1..] == r;
  }

  lemma SplitStep(s: Bytes, sep: Bytes, i: nat)
    requires |sep| > 0 && IndexOf(s, sep) == Some(i)
    ensures Split(s, sep) == [s[..i]] + Split(s[i + |sep|..], sep)
    ensures s == s[..i] + sep + s[i + |sep|..]
  {
    assert OccursAt(s, sep, i);
    SliceAround(s, i, |sep|);
  }

  /** A text is what comes before a stretch of it, the stretch, and what follows. */
  lemma SliceAround(s: Bytes, i: nat, n: nat)
    requires i + n <= |s|
    ensures s == s[..i] + s[i..i + n] + s[i + n..]
  {
  }

  /** Joining the pieces of a split gives back the text. */
  lemma {:induction false} SplitJoin(s: Bytes, sep: Bytes)
    requires |sep| > 0
    ensures Join(Split(s, sep), sep) == s
    decreases |s|
  {
    var k := IndexOf(s, sep);
    if k.Some? {
      var i := k.value;
      var rest := s[i + |sep|..];
      SplitStep(s, sep, i);
      SplitJoin(rest, sep);
      JoinCons(s[..i], Split(rest, sep), sep);
    }
  }

  /** No piece of a split holds the separator. */
  lemma {:induction false} SplitPieces(s: Bytes, sep: Bytes)
    requires |sep| > 0
    ensures forall k :: 0 <= k < |Split(s, sep)| ==> !Contains(Split(s, sep)[k], sep)
    decreases |s|
  {
    var r := Split(s, sep);
    match IndexOf(s, sep)
    case None =>
    case Some(i) =>
      var rest := s[i + |sep|..];
      SplitPieces(rest, sep);
      assert r == [s[..i]] + Split(rest, sep);
      assert !Contains(s[..i], sep) by {
        forall j: nat | OccursAt(s[..i], sep, j) ensures false {
          OccursInPrefix(s, sep, i, j);
        }
      }
      forall k | 0 <= k < |r| ensures !Contains(r[k], sep) {
        if k > 0 { assert r[k] == Split(rest, sep)[k - 1]; }
      }
  }

  /** The first field of `s.split(sep)` is the text before the first separator. */
  lemma FirstField(s: Bytes, sep: Bytes)
    requires |sep| > 0
    ensures IndexOf(s, sep).None? ==> Split(s, sep)[0] == s
    ensures IndexOf(s, sep).Some? ==> Split(s, sep)[0] == s[..IndexOf(s, sep).value]
  {
  }

  /** Splitting `x + sep + y`, where `x` does not hold the separator, yields `x` first. */
  lemma SplitAfter(x: Bytes, sep: Bytes, y: Bytes)
    requires |sep| > 0 && !Contains(x, sep)
    requires forall j: nat :: j < |x| ==> !OccursAt(x + sep + y, sep, j)
    ensures Split(x + sep + y, sep) == [x] + Split(y, sep)
  {
    var s := x + sep + y;
    assert OccursAt(s, sep, |x|) by { assert s[|x|..|x| + |sep|] == sep; }
    assert IndexOf(s, sep) == Some(|x|);
    assert s[..|x|] == x && s[|x| + |sep|..] == y;
  }

  lemma NilAround(x: Bytes)
    ensures [] + x + [] == x
  {
  }

  /** A prefix of `s` followed by a prefix of the rest is a longer prefix of `s`. */
  lemma PrefixGrows(s: Bytes, n: nat, d: Bytes)
    requires n + |d| <= |s| && d == s[n..][..|d|]
    ensures s[..n] + d == s[..n + |d|]
  {
    assert forall k :: 0 <= k < |d| ==> d[k] == s[n + k];
  }

  lemma ConsTail<T>(s: seq<T>)
    requires s != []
    ensures [s[0]] + s[1..] == s
  {
  }

  lemma InitOfSnoc<T>(s: seq<T>, x: T)
    ensures (s + [x])[..|s|] == s && (s + [x])[|s|] == x
  {
  }

  lemma Regroup(a: Bytes, b: Bytes, c: Bytes)
    ensures a + b + c == a + (b + c)
  {
  }

  /** A text without the character `c` is one field of a split on `c`. */
  lemma SplitNone(x: Bytes, c: Byte)
    requires forall k :: 0 <= k < |x| ==> x[k] != c
    ensures Split(x, [c]) == [x]
  {
    forall j: nat | j + 1 <= |x| ensures !OccursAt(x, [c], j) {
      assert x[j..j + 1][0] == x[j];
    }
  }

  /** A split at a separator that occurs has at least two fields. */
  lemma SplitFields(s: Bytes, sep: Bytes)
    requires |sep| > 0 && Contains(s, sep)
    ensures |Split(s, sep)| >= 2
  {
  }

  /** Splitting on a single character `c`, a first field without `c` comes off first. */
  lemma SplitAfterChar(x: Bytes, c: Byte, y: Bytes)
    requires forall k :: 0 <= k < |x| ==> x[k] != c
    ensures Split(x + [c] + y, [c]) == [x] + Split(y, [c])
  {
    var s := x + [c] + y;
    SplitNone(x, c);
    forall j: nat | j < |x| ensures !OccursAt(s, [c], j) {
      assert s[j..j + 1][0] == s[j] == x[j];
    }
    SplitAfter(x, [c], y);
  }

  // ---------------------------------------------------------------- whitespace

  /** The two white-space classes the source meets: that of `bytes.strip()`
      and `int()`, and that of `str.split()` and `str.strip()`, which below
      128 adds the separators 0x1C to 0x1F. */
  datatype SpaceClass = BytesSpace | StrSpace

  predicate IsSpace(c: Byte, cls: SpaceClass)
  {
    c == ' ' || ('\t' <= c <= '\r') || (cls == StrSpace && 28 <= c as int <= 31)
  }

  /** `s` without its leading white space of class `cls`. */
  function TrimStart(s: Bytes, cls: SpaceClass): (r: Bytes)
    ensures |r| <= |s| && r == s[|s| - |r|..]
    ensures r != [] ==> !IsSpace(r[0], cls)
    ensures forall k :: 0 <= k < |s| - |r| ==> IsSpace(s[k], cls)
  {
    if s != [] && IsSpace(s[0], cls) then TrimStart(s[1..], cls) else s
  }

  /** `s` without its trailing white space of class `cls`. */
  function TrimEnd(s: Bytes, cls: SpaceClass): (r: Bytes)
    ensures |r| <= |s| && r == s[..|r|]
    ensures r != [] ==> !IsSpace(r[|r| - 1], cls)
    ensures forall k :: |r| <= k < |s| ==> IsSpace(s[k], cls)
  {
    if s != [] && IsSpace(s[|s| - 1], cls) then TrimEnd(s[..|s| - 1], cls) else s
  }

  /** Python's `strip()`. */
  function Strip(s: Bytes, cls: SpaceClass): Bytes
  {
    TrimEnd(TrimStart(s, cls), cls)
  }

  predicate NoSpace(w: Bytes)
  {
    forall k :: 0 <= k < |w| ==> !IsSpace(w[k], StrSpace)
  }

  /** The longest prefix of `s` without white space. */
  function WordPrefix(s: Bytes): (r: Bytes)
    ensures |r| <= |s| && r == s[..|r|] && NoSpace(r)
    ensures |r| < |s| ==> IsSpace(s[|r|], StrSpace)
  {
    if s == [] || IsSpace(s[0], StrSpace) then [] else [s[0]] + WordPrefix(s[1..])
  }

  /** Python's `str.split()` with no separator: the maximal runs of non-space characters. */
  function Words(s: Bytes): (r: seq<Bytes>)
    ensures forall k :: 0 <= k < |r| ==> r[k] != [] && NoSpace(r[k])
    decreases |s|
  {
    var t := TrimStart(s, StrSpace);
    if t == [] then []
    else
      var w := WordPrefix(t);
      [w] + Words(t[|w|..])
  }

  lemma WordPrefixOf(w: Bytes, rest: Bytes)
    requires NoSpace(w)
    requires rest == [] || IsSpace(rest[0], StrSpace)
    ensures WordPrefix(w + rest) == w
    decreases |w|
  {
    if w != [] {
      assert (w + rest)[1..] == w[1..] + rest;
      WordPrefixOf(w[1..], rest);
    }
  }

  /** A word followed by a space is split off first. */
  lemma {:induction false} WordsCons(w: Bytes, rest: Bytes)
    requires w != [] && NoSpace(w)
    ensures Words(w + " " + rest) == [w] + Words(" " + rest)
  {
    var s := w + " " + rest;
    assert TrimStart(s, StrSpace) == s by { assert !IsSpace(s[0], StrSpace); }
    assert s == w + (" " + rest);
    WordPrefixOf(w, " " + rest);
    assert s[|w|..] == " " + rest;
  }

  /** A single word, possibly preceded by spaces, is the one element of its split. */
  lemma {:induction false} WordsSingle(w: Bytes)
    requires w != [] && NoSpace(w)
    ensures Words(" " + w) == [w]
  {
    var s := " " + w;
    assert s[1..] == w;
    assert TrimStart(w, StrSpace) == w by { assert !IsSpace(w[0], StrSpace); }
    assert TrimStart(s, StrSpace) == w;
    WordPrefixOf(w, []);
    assert w + [] == w;
    assert w[|w|..] == [];
  }

  lemma {:induction false} WordsSpaced(w: Bytes, rest: Bytes)
    requires w != [] && NoSpace(w)
    ensures Words(" " + w + " " + rest) == [w] + Words(" " + rest)
  {
    var s := " " + w + " " + rest;
    assert s[1..] == w + " " + rest;
    assert TrimStart(s, StrSpace) == TrimStart(w + " " + rest, StrSpace);
    WordsCons(w, rest);
    assert TrimStart(w + " " + rest, StrSpace) == w + " " + rest by {
      assert !IsSpace((w + " " + rest)[0], StrSpace);
    }
  }

  lemma WordsTail(b: Bytes, c: Bytes)
    requires b != [] && NoSpace(b) && c != [] && NoSpace(c)
    ensures Words(" " + b + " " + c) == [b, c]
  {
    WordsSpaced(b, c);
    WordsSingle(c);
  }

  /** `split()` of three space-separated words gives those three words. */
  lemma ThreeWords(a: Bytes, b: Bytes, c: Bytes)
    requires a != [] && NoSpace(a) && b != [] && NoSpace(b) && c != [] && NoSpace(c)
    ensures Words(a + " " + b + " " + c) == [a, b, c]
  {
    var bc := b + " " + c;
    assert a + " " + b + " " + c == a + " " + bc;
    assert " " + bc == " " + b + " " + c;
    WordsCons(a, bc);
    WordsTail(b, c);
  }

  /** Every byte of `p` is white space for `str.split()`. */
  predicate AllSpace(p: Bytes)
  {
    forall k :: 0 <= k < |p| ==> IsSpace(p[k], StrSpace)
  }

  lemma {:induction false} TrimStartSkip(p: Bytes, s: Bytes)
    requires AllSpace(p)
    ensures TrimStart(p + s, StrSpace) == TrimStart(s, StrSpace)
    decreases |p|
  {
    if p != [] {
      assert (p + s)[0] == p[0];
      assert (p + s)[1..] == p[1..] + s;
      TrimStartSkip(p[1..], s);
    } else {
      assert p + s == s;
    }
  }

  /** White space in front of a text does not change its split. */
  lemma WordsSkip(p: Bytes, s: Bytes)
    requires AllSpace(p)
    ensures Words(p + s) == Words(s)
  {
    TrimStartSkip(p, s);
  }

  /** Text of white space alone splits into no words. */
  lemma WordsBlank(p: Bytes)
    requires AllSpace(p)
    ensures Words(p) == []
  {
    WordsSkip(p, []);
    assert p + [] == p;
  }

  /** A word followed by white space or by nothing is split off first. */
  lemma WordsFirst(w: Bytes, r: Bytes)
    requires w != [] && NoSpace(w) && (r == [] || IsSpace(r[0], StrSpace))
    ensures Words(w + r) == [w] + Words(r)
  {
    var s := w + r;
    assert TrimStart(s, StrSpace) == s by { assert s[0] == w[0]; }
    WordPrefixOf(w, r);
    assert s[|w|..] == r;
  }

  /** A word between leading white space and a non-empty stretch of white
      space comes first in the split, whatever white space it is. */
  lemma WordsAfter(p: Bytes, w: Bytes, q: Bytes, rest: Bytes)
    requires AllSpace(p) && w != [] && NoSpace(w) && q != [] && AllSpace(q)
    ensures Words(p + w + q + rest) == [w] + Words(q + rest)
  {
    assert p + w + q + rest == p + (w + (q + rest));
    WordsSkip(p, w + (q + rest));
    assert (q + rest)[0] == q[0];
    WordsFirst(w, q + rest);
  }

  /** The text made of the words `ws` with the stretches of white space
      `gaps` around and between them. */
  function Spaced(ws: seq<Bytes>, gaps: seq<Bytes>): Bytes
    requires |gaps| == |ws| + 1
    decreases |ws|
  {
    if ws == [] then gaps[0] else gaps[0] + ws[0] + Spaced(ws[1..], gaps[1..])
  }

  /** `ws` are words and `gaps` white space, with at least one byte of it
      between two words. */
  predicate Layout(ws: seq<Bytes>, gaps: seq<Bytes>)
  {
    |gaps| == |ws| + 1 &&
    (forall i :: 0 <= i < |ws| ==> ws[i] != [] && NoSpace(ws[i])) &&
    (forall i :: 0 <= i < |gaps| ==> AllSpace(gaps[i])) &&
    (forall i :: 0 < i < |ws| ==> gaps[i] != [])
  }

  lemma LayoutTail(ws: seq<Bytes>, gaps: seq<Bytes>)
    requires Layout(ws, gaps) && ws != []
    ensures Layout(ws[1..], gaps[1..])
  {
    assert forall i :: 0 <= i < |ws| - 1 ==> ws[1..][i] == ws[i + 1];
    assert forall i :: 0 <= i < |gaps| - 1 ==> gaps[1..][i] == gaps[i + 1];
  }

  /** A laid-out text starts with its first gap, or with its first word when that gap is empty. */
  lemma SpacedStart(ws: seq<Bytes>, gaps: seq<Bytes>)
    requires Layout(ws, gaps)
    ensures gaps[0] != [] ==> Spaced(ws, gaps) != [] && Spaced(ws, gaps)[0] == gaps[0][0]
    ensures gaps[0] == [] && ws != [] ==> Spaced(ws, gaps) != [] && Spaced(ws, gaps)[0] == ws[0][0]
    ensures gaps[0] == [] && ws == [] ==> Spaced(ws, gaps) == []
  {
    if ws != [] {
      assert Spaced(ws, gaps) == gaps[0] + ws[0] + Spaced(ws[1..], gaps[1..]);
    }
  }

  /** `split()` gives back the words of any layout of them. */
  lemma {:induction false} WordsOfSpaced(ws: seq<Bytes>, gaps: seq<Bytes>)
    requires Layout(ws, gaps)
    ensures Words(Spaced(ws, gaps)) == ws
    decreases |ws|
  {
    if ws == [] {
      WordsBlank(gaps[0]);
    } else {
      var tail := Spaced(ws[1..], gaps[1..]);
      LayoutTail(ws, gaps);
      WordsOfSpaced(ws[1..], gaps[1..]);
      SpacedStart(ws[1..], gaps[1..]);
      assert gaps[1..][0] == gaps[1];
      assert tail == [] || IsSpace(tail[0], StrSpace);
      assert Spaced(ws, gaps) == gaps[0] + ws[0] + tail;
      Regroup(gaps[0], ws[0], tail);
      WordsSkip(gaps[0], ws[0] + tail);
      WordsFirst(ws[0], tail);
      ConsTail(ws);
    }
  }

  /** A word and the white space before it extend a layout at the front. */
  lemma LayoutCons(p: Bytes, w: Bytes, ws: seq<Bytes>, g: seq<Bytes>)
    requires AllSpace(p) && w != [] && NoSpace(w) && Layout(ws, g) && (ws != [] ==> g[0] != [])
    ensures Layout([w] + ws, [p] + g)
    ensures Spaced([w] + ws, [p] + g) == p + w + Spaced(ws, g)
  {
    var ws1, g1 := [w] + ws, [p] + g;
    assert ws1[1..] == ws && g1[1..] == g;
    assert forall i :: 0 < i < |g1| ==> g1[i] == g[i - 1];
    assert forall i :: 0 < i < |ws1| ==> ws1[i] == ws[i - 1];
  }

  /** Text that is white space through and through has no words. */
  lemma WordsNone(s: Bytes)
    requires TrimStart(s, StrSpace) == []
    ensures Words(s) == [] && AllSpace(s)
  {
  }

  /** The white space `TrimStart` drops is a prefix of the text. */
  lemma LeadingSpace(s: Bytes) returns (p: Bytes)
    ensures AllSpace(p) && s == p + TrimStart(s, StrSpace)
  {
    var t := TrimStart(s, StrSpace);
    SpaceBefore(s, t);
    p := s[..|s| - |t|];
  }

  /** A suffix of `s` with only white space before it is `s` less that white space. */
  lemma SpaceBefore(s: Bytes, t: Bytes)
    requires |t| <= |s| && t == s[|s| - |t|..]
    requires forall k :: 0 <= k < |s| - |t| ==> IsSpace(s[k], StrSpace)
    ensures AllSpace(s[..|s| - |t|]) && s == s[..|s| - |t|] + t
  {
    var n := |s| - |t|;
    assert forall k :: 0 <= k < n ==> s[..n][k] == s[k];
  }

  /** Text that starts with a non-space byte starts with a non-empty word. */
  lemma WordSplit(t: Bytes)
    requires t != [] && !IsSpace(t[0], StrSpace)
    ensures WordPrefix(t) != [] && t == WordPrefix(t) + t[|WordPrefix(t)|..]
  {
  }

  /** The first step of `split()`: the white space in front, the first word, and the rest. */
  lemma WordsStep(s: Bytes) returns (p: Bytes, w: Bytes, rest: Bytes)
    requires TrimStart(s, StrSpace) != []
    ensures AllSpace(p) && w != [] && NoSpace(w) && (rest == [] || IsSpace(rest[0], StrSpace))
    ensures s == p + w + rest && |rest| < |s| && Words(s) == [w] + Words(rest)
  {
    var t := TrimStart(s, StrSpace);
    p := LeadingSpace(s);
    WordSplit(t);
    w := WordPrefix(t);
    rest := t[|w|..];
    assert Words(s) == [w] + Words(rest);
    Regroup(p, w, rest);
  }

  /** A word and the white space before it extend a layout of the rest. */
  lemma SpacedCons(p: Bytes, w: Bytes, rest: Bytes, ws: seq<Bytes>, g: seq<Bytes>)
    requires AllSpace(p) && w != [] && NoSpace(w) && (rest == [] || IsSpace(rest[0], StrSpace))
    requires Layout(ws, g) && Spaced(ws, g) == rest
    ensures Layout([w] + ws, [p] + g) && Spaced([w] + ws, [p] + g) == p + w + rest
  {
    if ws != [] {
      SpacedStart(ws, g);
    }
    LayoutCons(p, w, ws, g);
  }

  /** Every text is a layout of its words: the white space `split()` drops
      is all there is besides them. */
  lemma {:induction false} SpacedWords(s: Bytes) returns (gaps: seq<Bytes>)
    ensures Layout(Words(s), gaps) && Spaced(Words(s), gaps) == s
    decreases |s|
  {
    if TrimStart(s, StrSpace) == [] {
      WordsNone(s);
      gaps := [s];
    } else {
      var p, w, rest := WordsStep(s);
      var g := SpacedWords(rest);
      SpacedCons(p, w, rest, Words(rest), g);
      gaps := [p] + g;
    }
  }
}
