/** Integer parsing as Python's `int(text, base)` does it for ASCII text, and
    the rendering that it inverts. */
module Numbers {
  import opened Text

  /** The value of a digit character in bases up to 36. */
  function DigitValue(c: Byte): (r: Option<nat>)
    ensures r.Some? ==> r.value < 36
    ensures r.Some? ==> c != CR && c != '-' && c != '+' && !IsSpace(c, StrSpace)
  {
    if '0' <= c <= '9' then Some(c as int - '0' as int)
    else if 'a' <= c <= 'z' then Some(c as int - 'a' as int + 10)
    else if 'A' <= c <= 'Z' then Some(c as int - 'A' as int + 10)
    else None
  }

  predicate IsDigit(c: Byte, base: nat)
  {
    DigitValue(c).Some? && DigitValue(c).value < base
  }

  /** The value of digits worth `v` followed by one more digit worth `d`. */
  function AppendDigit(v: nat, base: nat, d: nat): nat
  {
    v * base + d
  }

  /** The number a string of digits denotes, or `None` if one of them is not a digit of `base`. */
  function DigitsValue(ds: Bytes, base: nat): Option<nat>
  {
    if ds == [] then Some(0)
    else
      var init := DigitsValue(ds[..|ds| - 1], base);
      var d := DigitValue(ds[|ds| - 1]);
      if init.Some? && d.Some? && d.value < base then Some(AppendDigit(init.value, base, d.value))
      else None
  }

  /** A string of digits has a value exactly when every character of it is a digit of `base`. */
  lemma {:induction false} DigitsValid(ds: Bytes, base: nat)
    ensures DigitsValue(ds, base).Some? <==> forall k :: 0 <= k < |ds| ==> IsDigit(ds[k], base)
    decreases |ds|
  {
    if ds != [] {
      var init := ds[..|ds| - 1];
      DigitsValid(init, base);
      assert forall k :: 0 <= k < |init| ==> init[k] == ds[k];
    }
  }

  /** The `0x` or `0X` that `int(text, 16)` accepts in front of the digits. */
  predicate HexPrefix(u: Bytes)
  {
    |u| >= 2 && u[0] == '0' && (u[1] == 'x' || u[1] == 'X')
  }

  /** Python's `int(text, base)`: surrounding white space, an optional sign,
      in base 16 an optional `0x` or `0X`, and at least one digit; `None`
      stands for the `ValueError` raised otherwise. */
  function ParseInt(text: Bytes, base: nat): (r: Option<int>)
  {
    var t := Strip(text, BytesSpace);
    var signed := t != [] && (t[0] == '-' || t[0] == '+');
    var unsigned := if signed then t[1..] else t;
    var ds := if base == 16 && HexPrefix(unsigned) then unsigned[2..] else unsigned;
    if ds == [] then None
    else
      match DigitsValue(ds, base)
      case None => None
      case Some(v) =>
        var magnitude: int := v;
        Some(if t[0] == '-' then -magnitude else magnitude)
  }

  /** Python's `int(text)` on a `str`: the same, after stripping the white
      space of `str`, which below 128 adds the separators 0x1C to 0x1F. */
  function IntOfStr(text: Bytes): Option<int>
  {
    ParseInt(Strip(text, StrSpace), 10)
  }

  function DigitChar(d: nat): (c: Byte)
    requires d < 36
    ensures DigitValue(c) == Some(d)
  {
    if d < 10 then ('0' as int + d) as char else ('a' as int + d - 10) as char
  }

  /** The two bases the proxy reads numbers in. */
  predicate IsBase(base: nat)
  {
    base == 10 || base == 16
  }

  /** `n` written in `base` with lower-case digits and no leading zeros. */
  function Render(n: nat, base: nat): (r: Bytes)
    requires IsBase(base)
    ensures r != []
    decreases n
  {
    if n < base then [DigitChar(n)] else Render(n / base, base) + [DigitChar(n % base)]
  }

  /** Every character `Render` writes is a digit of the base. */
  lemma {:induction false} RenderDigits(n: nat, base: nat)
    requires IsBase(base)
    ensures forall k :: 0 <= k < |Render(n, base)| ==> IsDigit(Render(n, base)[k], base)
    decreases n
  {
    if n >= base {
      RenderDigits(n / base, base);
    }
  }

  /** Reading the digits of `Render(n, base)` gives `n` back. */
  lemma {:induction false} DigitsOfRender(n: nat, base: nat)
    requires IsBase(base)
    ensures DigitsValue(Render(n, base), base) == Some(n)
    decreases n
  {
    var r := Render(n, base);
    if n >= base {
      DigitsOfRender(n / base, base);
      assert r[..|r| - 1] == Render(n / base, base);
      assert r[|r| - 1] == DigitChar(n % base);
      assert AppendDigit(n / base, base, n % base) == n;
    }
  }

  lemma {:induction false} TrimStartOf(pre: Bytes, x: Bytes, cls: SpaceClass)
    requires forall k :: 0 <= k < |pre| ==> IsSpace(pre[k], cls)
    requires x != [] && !IsSpace(x[0], cls)
    ensures TrimStart(pre + x, cls) == x
    decreases |pre|
  {
    if pre == [] {
      assert pre + x == x;
    } else {
      assert (pre + x)[0] == pre[0];
      assert (pre + x)[1..] == pre[1..] + x;
      assert forall k :: 0 <= k < |pre| - 1 ==> pre[1..][k] == pre[k + 1];
      TrimStartOf(pre[1..], x, cls);
    }
  }

  lemma TrimEndOf(x: Bytes, post: Bytes, cls: SpaceClass)
    requires forall k :: 0 <= k < |post| ==> IsSpace(post[k], cls)
    requires x != [] && !IsSpace(x[|x| - 1], cls)
    ensures TrimEnd(x + post, cls) == x
    decreases |post|
  {
    if post != [] {
      assert (x + post)[..|x + post| - 1] == x + post[..|post| - 1];
      TrimEndOf(x, post[..|post| - 1], cls);
    }
  }

  /** White space around digits is stripped before they are read. */
  lemma StripAround(pre: Bytes, x: Bytes, post: Bytes, cls: SpaceClass)
    requires forall k :: 0 <= k < |pre| ==> IsSpace(pre[k], cls)
    requires forall k :: 0 <= k < |post| ==> IsSpace(post[k], cls)
    requires x != [] && !IsSpace(x[0], cls) && !IsSpace(x[|x| - 1], cls)
    ensures Strip(pre + x + post, cls) == x
  {
    assert pre + x + post == pre + (x + post);
    TrimStartOf(pre, x + post, cls);
    TrimEndOf(x, post, cls);
  }

  /** Stripped text that is a digit string with neither sign nor prefix reads as its digits. */
  lemma ParseOfDigits(text: Bytes, u: Bytes, base: nat, v: nat)
    requires Strip(text, BytesSpace) == u && u != [] && u[0] != '-' && u[0] != '+'
    requires !(base == 16 && HexPrefix(u)) && DigitsValue(u, base) == Some(v)
    ensures ParseInt(text, base) == Some(v)
  {
  }

  /** Stripped text that is `0x` and a digit string reads, in base 16, as those digits. */
  lemma ParseOfHex(text: Bytes, u: Bytes, v: nat)
    requires Strip(text, BytesSpace) == u && HexPrefix(u) && u[2..] != []
    requires DigitsValue(u[2..], 16) == Some(v)
    ensures ParseInt(text, 16) == Some(v)
  {
  }

  /** `int()` reads back what `Render` writes, whatever white space surrounds it. */
  lemma ParseRender(n: nat, base: nat, pre: Bytes, post: Bytes)
    requires IsBase(base)
    requires forall k :: 0 <= k < |pre| ==> IsSpace(pre[k], BytesSpace)
    requires forall k :: 0 <= k < |post| ==> IsSpace(post[k], BytesSpace)
    ensures ParseInt(pre + Render(n, base) + post, base) == Some(n)
  {
    var r := Render(n, base);
    RenderDigits(n, base);
    assert IsDigit(r[0], base) && IsDigit(r[|r| - 1], base);
    assert |r| >= 2 ==> IsDigit(r[1], base);
    StripAround(pre, r, post, BytesSpace);
    DigitsOfRender(n, base);
    ParseOfDigits(pre + r + post, r, base, n);
  }

  /** Stripping the white space around `0x` and a rendered number leaves both. */
  lemma StripHex(n: nat, x: Byte, pre: Bytes, post: Bytes)
    requires x == 'x' || x == 'X'
    requires forall k :: 0 <= k < |pre| ==> IsSpace(pre[k], BytesSpace)
    requires forall k :: 0 <= k < |post| ==> IsSpace(post[k], BytesSpace)
    ensures Strip(pre + ['0', x] + Render(n, 16) + post, BytesSpace) == ['0', x] + Render(n, 16)
  {
    var r := Render(n, 16);
    var u := ['0', x] + r;
    RenderDigits(n, 16);
    assert IsDigit(r[|r| - 1], 16);
    assert u[|u| - 1] == r[|r| - 1];
    assert pre + ['0', x] + r + post == pre + u + post;
    StripAround(pre, u, post, BytesSpace);
  }

  /** `int(text, 16)` also reads a rendered number behind `0x` or `0X`. */
  lemma ParseHexPrefix(n: nat, x: Byte, pre: Bytes, post: Bytes)
    requires x == 'x' || x == 'X'
    requires forall k :: 0 <= k < |pre| ==> IsSpace(pre[k], BytesSpace)
    requires forall k :: 0 <= k < |post| ==> IsSpace(post[k], BytesSpace)
    ensures ParseInt(pre + ['0', x] + Render(n, 16) + post, 16) == Some(n)
  {
    var r := Render(n, 16);
    var u := ['0', x] + r;
    var text := pre + ['0', x] + r + post;
    StripHex(n, x, pre, post);
    assert Strip(text, BytesSpace) == u;
    RenderDigits(n, 16);
    assert u[2..] == r;
    DigitsOfRender(n, 16);
    ParseOfHex(text, u, n);
  }

  /** Stripping text that begins with two non-space bytes keeps those two. */
  lemma StripKeepsTwo(u: Bytes)
    requires |u| >= 2 && !IsSpace(u[0], BytesSpace) && !IsSpace(u[1], BytesSpace)
    ensures |Strip(u, BytesSpace)| >= 2
    ensures Strip(u, BytesSpace)[0] == u[0] && Strip(u, BytesSpace)[1] == u[1]
  {
    assert TrimStart(u, BytesSpace) == u;
  }

  /** In base 10 the prefix is not accepted: `0x` followed by anything raises. */
  lemma DecimalRejectsPrefix(x: Byte, rest: Bytes)
    requires x == 'x' || x == 'X'
    ensures ParseInt(['0', x] + rest, 10) == None
  {
    var u := ['0', x] + rest;
    StripKeepsTwo(u);
    var t := Strip(u, BytesSpace);
    DigitsValid(t, 10);
    assert !IsDigit(t[1], 10);
  }

  /** `int()` rejects text with no digits at all, such as an empty field. */
  lemma ParseNeedsDigits(text: Bytes, base: nat)
    requires forall k :: 0 <= k < |text| ==> IsSpace(text[k], BytesSpace)
    ensures ParseInt(text, base) == None
  {
  }

  /** `int()` on a `str` reads back a rendered port, whatever white space surrounds it. */
  lemma IntOfStrRender(n: nat, pre: Bytes, post: Bytes)
    requires forall k :: 0 <= k < |pre| ==> IsSpace(pre[k], StrSpace)
    requires forall k :: 0 <= k < |post| ==> IsSpace(post[k], StrSpace)
    ensures IntOfStr(pre + Render(n, 10) + post) == Some(n)
  {
    var r := Render(n, 10);
    RenderDigits(n, 10);
    assert IsDigit(r[0], 10) && IsDigit(r[|r| - 1], 10);
    StripAround(pre, r, post, StrSpace);
    ParseRender(n, 10, [], []);
    NilAround(r);
  }

  /** A rendered number holds no character that is not a digit, such as a separator. */
  lemma RenderAvoids(n: nat, base: nat, c: Byte)
    requires IsBase(base) && DigitValue(c).None?
    ensures forall k :: 0 <= k < |Render(n, base)| ==> Render(n, base)[k] != c
  {
    RenderDigits(n, base);
  }
}
