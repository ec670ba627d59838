/** Escape sequences in a command text, expanded in place. */
module UnEscape {
  import opened Bytes
  import opened CText

  const BACKSLASH: Byte := '\\' as int

  predicate IsOctal(b: Byte) {
    '0' as int <= b <= '7' as int
  }

  predicate IsHex(b: Byte) {
    '0' as int <= b <= '9' as int || 'A' as int <= b <= 'F' as int || 'a' as int <= b <= 'f' as int
  }

  /** The value of a hexadecimal digit. */
  function HexValue(b: Byte): (v: nat)
    requires IsHex(b)
    ensures v < 16
  {
    if b <= '9' as int then b - '0' as int
    else if b <= 'F' as int then b - 'A' as int + 10
    else b - 'a' as int + 10
  }

  /** The byte that a single-letter escape stands for; 256 for any other letter. */
  function Letter(b: Byte): nat {
    if b == BACKSLASH then BACKSLASH
    else if b == 'n' as int then 10
    else if b == 't' as int then 9
    else if b == 'a' as int then 7
    else if b == 'b' as int then 8
    else if b == 'f' as int then 12
    else if b == 'r' as int then 13
    else if b == 'v' as int then 11
    else if b == 'e' as int then 27
    else 256
  }

  /** How many of the first `most` bytes are octal digits, up to the first that is not. */
  function OctalCount(t: seq<Byte>, most: nat): (k: nat)
    ensures k <= |t| && k <= most
  {
    if most == 0 || t == [] || !IsOctal(t[0]) then 0 else 1 + OctalCount(t[1..], most - 1)
  }

  /** The value of octal digits, in one byte. */
  function OctalValue(t: seq<Byte>, k: nat): Byte
    requires k <= |t| && forall i :: 0 <= i < k ==> IsOctal(t[i])
  {
    if k == 0 then 0 else (OctalValue(t, k - 1) * 8 + t[k - 1] - '0' as int) % 0x100
  }

  lemma {:induction false} OctalPrefix(t: seq<Byte>, most: nat, k: nat)
    requires k <= most && k <= |t| && forall i :: 0 <= i < k ==> IsOctal(t[i])
    ensures OctalCount(t, most) >= k
    ensures k == most || k == |t| || !IsOctal(t[k]) ==> OctalCount(t, most) == k
    decreases k
  {
    if k > 0 {
      OctalPrefix(t[1..], most - 1, k - 1);
    }
  }

  lemma {:induction false} OctalDigits(t: seq<Byte>, most: nat)
    ensures forall i :: 0 <= i < OctalCount(t, most) ==> IsOctal(t[i])
    ensures most > 0 && t != [] && IsOctal(t[0]) ==> OctalCount(t, most) >= 1
    decreases most
  {
    if most > 0 && t != [] && IsOctal(t[0]) {
      OctalDigits(t[1..], most - 1);
      assert forall i :: 0 < i < |t| ==> t[i] == t[1..][i - 1];
    }
  }

  /** How many bytes of a text make up its first sequence. */
  function Taken(t: seq<Byte>): (n: nat)
    requires t != []
    ensures 1 <= n <= |t|
  {
    if t[0] != BACKSLASH || |t| == 1 then 1
    else if Letter(t[1]) < 256 then 2
    else if t[1] == 'x' as int then if |t| >= 4 && IsHex(t[2]) && IsHex(t[3]) then 4 else 2
    else 1 + OctalCount(t[1..], 3)
  }

  /** What the first sequence expands to. */
  function First(t: seq<Byte>): (r: seq<Byte>)
    requires t != []
    ensures 1 <= |r| <= 2
  {
    if t[0] != BACKSLASH || |t| == 1 then [t[0]]
    else if Letter(t[1]) < 256 then [Letter(t[1])]
    else if t[1] == 'x' as int then
      if |t| >= 4 && IsHex(t[2]) && IsHex(t[3]) then [HexValue(t[2]) * 16 + HexValue(t[3])]
      else [BACKSLASH, t[1]]
    else if IsOctal(t[1]) then
      OctalDigits(t[1..], 3);
      [OctalValue(t[1..], OctalCount(t[1..], 3))]
    else [BACKSLASH]
  }

  function Expand(t: seq<Byte>): seq<Byte>
    decreases |t|
  {
    if t == [] then [] else First(t) + Expand(t[Taken(t)..])
  }

  /** An expansion is never longer than the text it replaces, so it can be made in place. */
  lemma FirstFits(t: seq<Byte>)
    requires t != []
    ensures |First(t)| <= Taken(t)
  {
  }

  lemma {:induction false} ExpandFits(t: seq<Byte>)
    ensures |Expand(t)| <= |t|
    decreases |t|
  {
    if t != [] {
      FirstFits(t);
      ExpandFits(t[Taken(t)..]);
    }
  }

  // ----- Writing bytes so that they come back

  function HexDigit(n: nat): Byte
    requires n < 16
  {
    if n < 10 then '0' as int + n else 'a' as int + n - 10
  }

  /** Printable characters stand for themselves, a backslash is doubled, and any other byte, NUL
      included, is written in hexadecimal. */
  function Escape(b: Byte): seq<Byte> {
    if b == BACKSLASH then [BACKSLASH, BACKSLASH]
    else if 0x20 <= b < 0x7f then [b]
    else [BACKSLASH, 'x' as int, HexDigit(b / 16), HexDigit(b % 16)]
  }

  function EscapeAll(s: seq<Byte>): seq<Byte> {
    if s == [] then [] else Escape(s[0]) + EscapeAll(s[1..])
  }

  /** Three octal digits. */
  function Octal(b: Byte): seq<Byte> {
    [BACKSLASH, '0' as int + b / 64, '0' as int + b / 8 % 8, '0' as int + b % 8]
  }

  function OctalAll(s: seq<Byte>): seq<Byte> {
    if s == [] then [] else Octal(s[0]) + OctalAll(s[1..])
  }

  lemma EscapeFirst(b: Byte, rest: seq<Byte>)
    ensures Expand(Escape(b) + rest) == [b] + Expand(rest)
    ensures NUL !in Escape(b)
  {
    hide OctalValue, OctalCount;
    var t := Escape(b) + rest;
    assert Taken(t) == |Escape(b)| && First(t) == [b];
    assert t[|Escape(b)|..] == rest;
  }

  lemma {:induction false} EscapeRoundTrip(s: seq<Byte>)
    ensures Expand(EscapeAll(s)) == s
    ensures NUL !in EscapeAll(s)
  {
    hide Escape, First, Taken;
    if s != [] {
      EscapeFirst(s[0], EscapeAll(s[1..]));
      EscapeRoundTrip(s[1..]);
    }
  }

  lemma OctalFirst(b: Byte, rest: seq<Byte>)
    ensures Expand(Octal(b) + rest) == [b] + Expand(rest)
  {
    var t := Octal(b) + rest;
    var d := t[1..];
    OctalPrefix(d, 3, 3);
    hide OctalCount;
    assert OctalValue(d, 1) == b / 64;
    assert OctalValue(d, 2) == b / 64 * 8 + b / 8 % 8 == b / 8;
    assert OctalValue(d, 3) == b / 8 * 8 + b % 8 == b;
    assert Taken(t) == 4 && First(t) == [b];
    assert t[4..] == rest;
  }

  // ----- Every sequence, spelled out

  lemma OneSequence(x: seq<Byte>, rest: seq<Byte>)
    requires x != [] && Taken(x + rest) == |x|
    ensures Expand(x + rest) == First(x + rest) + Expand(rest)
  {
    hide First, Taken;
    assert (x + rest)[|x|..] == rest;
  }

  /** The letters and what they stand for. */
  lemma LetterSequence(k: char, rest: seq<Byte>)
    requires k in {'n', 't', 'a', 'b', 'f', 'r', 'v', 'e', '\\'}
    ensures var v := match k
                     case 'n' => 10 case 't' => 9 case 'a' => 7 case 'b' => 8 case 'f' => 12
                     case 'r' => 13 case 'v' => 11 case 'e' => 27 case _ => 92;
            Expand([92, k as int] + rest) == [v] + Expand(rest)
  {
    hide OctalValue, OctalCount, Expand;
    OneSequence([92, k as int], rest);
  }

  /** Two hexadecimal digits, in either case. */
  lemma HexSequence(i: nat, j: nat, h: Byte, l: Byte, rest: seq<Byte>)
    requires i < 16 && j < 16
    requires h == "0123456789abcdef"[i] as int || h == "0123456789ABCDEF"[i] as int
    requires l == "0123456789abcdef"[j] as int || l == "0123456789ABCDEF"[j] as int
    ensures Expand([92, 'x' as int, h, l] + rest) == [i * 16 + j] + Expand(rest)
  {
    HexIs(i, h);
    HexIs(j, l);
    hide HexValue, IsHex, Expand;
    HexStart(h, l, rest);
    OneSequence([92, 'x' as int, h, l], rest);
  }

  lemma HexStart(h: Byte, l: Byte, rest: seq<Byte>)
    requires IsHex(h) && IsHex(l)
    ensures var t := [92, 'x' as int, h, l] + rest; Taken(t) == 4 && First(t) == [HexValue(h) * 16 + HexValue(l)]
  {
    hide OctalValue, OctalCount, HexValue, IsHex;
    var t := [92, 'x' as int, h, l] + rest;
    assert t[2] == h && t[3] == l;
  }

  lemma HexIs(i: nat, h: Byte)
    requires i < 16 && (h == "0123456789abcdef"[i] as int || h == "0123456789ABCDEF"[i] as int)
    ensures IsHex(h) && HexValue(h) == i
  {
  }

  /** Otherwise the letter x is nothing special. */
  lemma NotHexSequence(rest: seq<Byte>)
    requires |rest| < 2 || !IsHex(rest[0]) || !IsHex(rest[1])
    ensures Expand([92, 'x' as int] + rest) == [92, 'x' as int] + Expand(rest)
  {
    hide OctalValue, OctalCount, Expand, IsHex, HexValue;
    var t := [92, 'x' as int] + rest;
    assert |rest| >= 2 ==> t[2] == rest[0] && t[3] == rest[1];
    OneSequence([92, 'x' as int], rest);
  }

  function DigitAt(ds: seq<Byte>, i: nat): int {
    if i < |ds| then ds[i] as int - 48 else 0
  }

  /** One, two or three octal digits, as far as they go; the value is taken modulo 256. */
  lemma OctalSequence(ds: seq<Byte>, rest: seq<Byte>)
    requires 1 <= |ds| <= 3 && (forall i :: 0 <= i < |ds| ==> 48 <= ds[i] <= 55)
    requires |ds| < 3 ==> rest == [] || !(48 <= rest[0] <= 55)
    ensures var a, b, c := DigitAt(ds, 0), DigitAt(ds, 1), DigitAt(ds, 2);
            var v := if |ds| == 1 then a else if |ds| == 2 then a * 8 + b else a * 64 + b * 8 + c;
            Expand([92] + ds + rest) == [v % 0x100] + Expand(rest)
  {
    hide Expand, OctalCount, OctalValue, DigitAt;
    var d := ds + rest;
    OctalRun(ds, rest);
    OctalValueIs(d, ds);
    OctalStart(d, |ds|);
    assert [92] + d == ([92] + ds) + rest;
    OneSequence([92] + ds, rest);
  }

  lemma OctalRun(ds: seq<Byte>, rest: seq<Byte>)
    requires 1 <= |ds| <= 3 && (forall i :: 0 <= i < |ds| ==> IsOctal(ds[i]))
    requires |ds| < 3 ==> rest == [] || !IsOctal(rest[0])
    ensures OctalCount(ds + rest, 3) == |ds|
  {
    hide OctalCount;
    OctalPrefix(ds + rest, 3, |ds|);
  }

  lemma OctalStart(d: seq<Byte>, k: nat)
    requires d != [] && IsOctal(d[0]) && OctalCount(d, 3) == k && forall i :: 0 <= i < k ==> IsOctal(d[i])
    ensures Taken([92] + d) == 1 + k && First([92] + d) == [OctalValue(d, k)]
  {
    hide OctalCount, OctalValue;
    var t := [92] + d;
    assert t[1..] == d && t[1] == d[0];
  }

  lemma OctalValueIs(d: seq<Byte>, ds: seq<Byte>)
    requires 1 <= |ds| <= 3 && ds <= d && forall i :: 0 <= i < |ds| ==> IsOctal(ds[i])
    ensures forall i :: 0 <= i < |ds| ==> IsOctal(d[i])
    ensures var a, b, c := DigitAt(ds, 0), DigitAt(ds, 1), DigitAt(ds, 2);
            OctalValue(d, |ds|) ==
            (if |ds| == 1 then a else if |ds| == 2 then a * 8 + b else a * 64 + b * 8 + c) % 0x100
  {
    assert OctalValue(d, 0) == 0;
    assert OctalValue(d, 1) == DigitAt(ds, 0);
    if |ds| > 1 {
      assert OctalValue(d, 2) == DigitAt(ds, 0) * 8 + DigitAt(ds, 1);
    }
  }

  /** A backslash before any other byte, or at the end, stays. */
  lemma OtherSequence(rest: seq<Byte>)
    requires rest != [] ==>
               !(48 <= rest[0] <= 55) &&
               rest[0] !in {92, 'n' as int, 't' as int, 'a' as int, 'b' as int, 'f' as int, 'r' as int, 'v' as int,
                            'e' as int, 'x' as int}
    ensures Expand([92] + rest) == [92] + Expand(rest)
  {
    hide OctalValue, Expand;
    var t := [92] + rest;
    assert t[1..] == rest;
    OneSequence([92], rest);
  }

  lemma {:induction false} OctalRoundTrip(s: seq<Byte>)
    ensures Expand(OctalAll(s)) == s
  {
    hide Octal, First, Taken;
    if s != [] {
      OctalFirst(s[0], OctalAll(s[1..]));
      OctalRoundTrip(s[1..]);
    }
  }

  // ----- In place

  lemma NoLetter()
    ensures Letter(NUL) == 256
  {
  }

  /** Expands the sequence at `src` to `dst`, and leaves everything behind it as it is. */
  method ExpandOne(a: array<Byte>, src: nat, dst: nat, ghost e: nat) returns (src': nat, dst': nat)
    requires TextAt(a, src, e) && dst <= src < e
    modifies a
    ensures src' == src + Taken(old(a[src..e])) && dst' == dst + |First(old(a[src..e]))|
    ensures dst' <= src' <= e && a[dst..dst'] == First(old(a[src..e]))
    ensures forall k :: 0 <= k < dst || src' <= k < a.Length ==> a[k] == old(a[k])
  {
    hide OctalCount, OctalValue, HexValue, Letter;
    ghost var t := a[src..e];
    src', dst' := src, dst;
    if a[src] == BACKSLASH {
      src' := src' + 1;
      var c := a[src'];
      NoLetter();
      assert src' < e ==> c == t[1];
      if Letter(c) < 256 {
        a[dst] := Letter(c);
      } else if c == 'x' as int {
        src', dst' := HexAt(a, src', dst, e, t[1..]);
      } else if IsOctal(c) {
        src' := OctalAt(a, src', dst, e, t[1..]);
        src' := src' - 1;
      } else {
        if src' < e {
          OctalPrefix(t[1..], 3, 0);
        }
        a[dst] := BACKSLASH;
        src' := src' - 1;
      }
    } else {
      a[dst] := a[src];
    }
    src', dst' := src' + 1, dst' + 1;
  }

  method HexAt(a: array<Byte>, start: nat, dst: nat, ghost e: nat, ghost t: seq<Byte>) returns (src: nat, dst': nat)
    requires TextAt(a, start, e) && dst < start < e && t == a[start..e] && a[start] == 'x' as int
    modifies a
    ensures if |t| >= 3 && IsHex(t[1]) && IsHex(t[2])
            then src == start + 2 && dst' == dst && a[dst] == HexValue(t[1]) * 16 + HexValue(t[2])
            else src == start && dst' == dst + 1 && a[dst] == BACKSLASH && a[dst + 1] == 'x' as int
    ensures forall k :: 0 <= k < dst || dst' < k < a.Length ==> a[k] == old(a[k])
  {
    src, dst' := start, dst;
    assert |t| >= 2 ==> t[1] == a[start + 1];
    assert |t| >= 3 ==> t[2] == a[start + 2];
    if IsHex(a[src + 1]) && IsHex(a[src + 2]) {
      src := src + 1;
      a[dst] := HexValue(a[src]) * 16;
      src := src + 1;
      a[dst] := a[dst] + HexValue(a[src]);
    } else {
      a[dst'] := BACKSLASH;
      dst' := dst' + 1;
      a[dst'] := 'x' as int;
    }
  }

  method OctalAt(a: array<Byte>, start: nat, dst: nat, ghost e: nat, ghost t: seq<Byte>) returns (src: nat)
    requires TextAt(a, start, e) && dst < start < e && t == a[start..e] && IsOctal(a[start])
    modifies a
    ensures var n := OctalCount(t, 3);
            && n >= 1 && src == start + n && src <= e
            && (forall i :: 0 <= i < n ==> IsOctal(t[i]))
            && a[dst] == OctalValue(t, n)
    ensures forall k :: 0 <= k < a.Length && k != dst ==> a[k] == old(a[k])
  {
    src := start;
    a[dst] := 0;
    var i := 0;
    while i < 3 && IsOctal(a[src])
      invariant 0 <= i <= 3 && src == start + i <= e
      invariant forall k :: 0 <= k < a.Length && k != dst ==> a[k] == old(a[k])
      invariant forall k :: 0 <= k < i ==> IsOctal(t[k])
      invariant a[dst] == OctalValue(t, i)
    {
      assert t[i] == a[src];
      a[dst] := (a[dst] * 8 + a[src] - '0' as int) % 0x100;
      src := src + 1;
      i := i + 1;
    }
    assert i < |t| ==> t[i] == a[src];
    OctalPrefix(t, 3, i);
  }

  ghost function Front(a: array<Byte>, n: int): seq<Byte>
    reads a
    requires 0 <= n <= a.Length
  {
    a[..n]
  }

  /** What has been written and the expansion of what is unread always make up the result. */
  method ExpandNext(a: array<Byte>, src: nat, dst: nat, ghost e: nat) returns (src': nat, dst': nat)
    requires TextAt(a, src, e) && dst <= src < e
    modifies a
    ensures TextAt(a, src', e) && dst' <= src' && src < src'
    ensures Front(a, dst') + Expand(Rest(a, src', e)) == old(Front(a, dst) + Expand(Rest(a, src, e)))
    ensures forall k :: src' <= k < a.Length ==> a[k] == old(a[k])
  {
    hide First, Taken, Expand;
    ghost var done, rest := a[..dst], a[src..e];
    ExpandStep(rest);
    src', dst' := ExpandOne(a, src, dst, e);
    assert a[..dst'] == done + First(rest);
    assert a[src'..e] == rest[Taken(rest)..];
    assert (done + First(rest)) + Expand(a[src'..e]) == done + (First(rest) + Expand(a[src'..e]));
  }

  /** Expands a NUL-terminated text in place and returns its new length; what lies behind the text
      is not touched. */
  method UnEscapeStr(text: array<Byte>, ghost e: nat) returns (n: nat)
    requires TextAt(text, 0, e)
    modifies text
    ensures n <= e && text[..n] == Expand(old(text[..e])) && text[n] == NUL
    ensures forall k :: e < k < text.Length ==> text[k] == old(text[k])
  {
    hide First, Taken, Expand, Front, Rest;
    var src := 0;
    while text[src] != NUL && text[src] != BACKSLASH
      invariant src <= e && forall k :: 0 <= k < src ==> text[k] != BACKSLASH
      decreases e - src
    {
      src := src + 1;
    }
    var dst := src;
    PlainFront(text, src, e);
    ghost var goal := Expand(text[..e]);
    while text[src] != NUL
      invariant 0 <= dst <= src && TextAt(text, src, e)
      invariant forall k :: e < k < text.Length ==> text[k] == old(text[k])
      invariant Front(text, dst) + Expand(Rest(text, src, e)) == goal
      decreases e - src
    {
      src, dst := ExpandNext(text, src, dst, e);
    }
    AllDone(text, src, dst, e);
    text[dst] := NUL;
    n := dst;
  }

  lemma PlainFront(a: array<Byte>, n: nat, e: nat)
    requires n <= e < a.Length && forall k :: 0 <= k < n ==> a[k] != BACKSLASH
    ensures Front(a, n) + Expand(Rest(a, n, e)) == Expand(a[..e])
  {
    hide First, Taken, Expand;
    assert a[..e][..n] == a[..n] && a[..e][n..] == a[n..e];
    ExpandPlain(a[..e], n);
  }

  lemma AllDone(a: array<Byte>, src: nat, dst: nat, e: nat)
    requires dst <= src == e < a.Length
    ensures Front(a, dst) + Expand(Rest(a, src, e)) == a[..dst]
  {
    hide First, Taken, Expand;
    assert a[src..e] == [];
    ExpandNothing();
  }

  lemma ExpandStep(t: seq<Byte>)
    requires t != []
    ensures Expand(t) == First(t) + Expand(t[Taken(t)..])
  {
  }

  lemma PlainFirst(t: seq<Byte>)
    requires t != [] && t[0] != BACKSLASH
    ensures First(t) == [t[0]] && Taken(t) == 1
  {
  }

  lemma ExpandNothing()
    ensures Expand([]) == []
  {
  }

  lemma {:induction false} ExpandPlain(t: seq<Byte>, n: nat)
    requires n <= |t| && BACKSLASH !in t[..n]
    ensures Expand(t) == t[..n] + Expand(t[n..])
  {
    hide First, Taken, Expand;
    if n == 0 {
      assert t[..n] == [] && t[n..] == t;
    } else {
      var u := t[1..];
      assert t[0] in t[..n] && t[..n] == [t[0]] + u[..n - 1] && u[n - 1..] == t[n..];
      PlainFirst(t);
      ExpandStep(t);
      ExpandPlain(u, n - 1);
      var x, y, z := [t[0]], u[..n - 1], Expand(t[n..]);
      assert x + (y + z) == (x + y) + z;
    }
  }
}
