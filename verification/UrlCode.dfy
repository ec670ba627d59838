/** The pieces of a proxy URL: percent-encoded credentials and decimal ports. */
module UrlCode {
  import opened Letters

  /** A character that is not NUL and the same in every ANSI code page. */
  type Ascii = c: char | 0 < c as int < 0x80 witness 'a'

  predicate Unreserved(c: char) {
    '0' <= c <= '9' || 'A' <= c <= 'Z' || 'a' <= c <= 'z' || c == '-' || c == '.' || c == '_'
  }

  const HEX := "0123456789ABCDEF"

  function HexDigit(c: char): (r: int)
    ensures -1 <= r < 16
  {
    if '0' <= c <= '9' then c as int - '0' as int
    else if 'A' <= c <= 'F' then c as int - 'A' as int + 10
    else if 'a' <= c <= 'f' then c as int - 'a' as int + 10
    else -1
  }

  function EncodeChar(c: Ascii): string {
    if Unreserved(c) then [c] else ['%', HEX[c as int / 16], HEX[c as int % 16]]
  }

  function Encode(s: seq<Ascii>): string {
    if s == [] then "" else EncodeChar(s[0]) + Encode(s[1..])
  }

  function Decode(s: string): string {
    if s == "" then ""
    else if s[0] == '%' && |s| > 2 && HexDigit(s[1]) != -1 && HexDigit(s[2]) != -1
    then [(HexDigit(s[1]) * 16 + HexDigit(s[2])) as char] + Decode(s[3..])
    else [s[0]] + Decode(s[1..])
  }

  /** Which characters are written as they are, and how the others are. */
  lemma CharacterTable()
    ensures forall c: Ascii :: EncodeChar(c) == [c] <==>
              '0' <= c <= '9' || 'A' <= c <= 'Z' || 'a' <= c <= 'z' || c in {'-', '.', '_'}
    ensures EncodeChar(' ') == "%20" && EncodeChar('/') == "%2F" && EncodeChar('@') == "%40" && EncodeChar(':') == "%3A"
  {
    assert HEX[2] == '2' && HEX[0] == '0' && HEX[15] == 'F' && HEX[4] == '4' && HEX[3] == '3' && HEX[10] == 'A';
  }

  lemma HexRoundTrip(n: nat)
    requires n < 16
    ensures HexDigit(HEX[n]) == n && Unreserved(HEX[n])
  {
  }

  lemma DecodeChar(c: Ascii, rest: string)
    ensures Decode(EncodeChar(c) + rest) == [c] + Decode(rest)
    ensures forall d :: d in EncodeChar(c) ==> Unreserved(d) || d == '%'
  {
    var e := EncodeChar(c) + rest;
    if Unreserved(c) {
      assert e[1..] == rest;
    } else {
      HexRoundTrip(c as int / 16);
      HexRoundTrip(c as int % 16);
      assert e[3..] == rest && e[1] == HEX[c as int / 16] && e[2] == HEX[c as int % 16];
    }
  }

  /** Percent-encoding loses nothing, and what it emits is free of URL delimiters. */
  lemma {:induction false} CodeRoundTrip(s: seq<Ascii>)
    ensures Decode(Encode(s)) == s && Decoded(Encode(s)) == s
    ensures forall d :: d in Encode(s) ==> Unreserved(d) || d == '%'
  {
    hide EncodeChar, Decode, Unreserved;
    Uncut(s);
    if s == [] {
      DecodeNothing();
    } else {
      CodeRoundTrip(s[1..]);
      DecodeChar(s[0], Encode(s[1..]));
    }
  }

  /** The C string at the start of a text. */
  function CutAtNul(s: string): string {
    if s == "" || s[0] == '\0' then "" else [s[0]] + CutAtNul(s[1..])
  }

  /** What a caller gets: the decoded text ends at its first NUL. */
  function Decoded(s: string): string {
    CutAtNul(Decode(s))
  }

  lemma {:induction false} Uncut(s: seq<Ascii>)
    ensures CutAtNul(s) == s
  {
    if s != [] {
      Uncut(s[1..]);
    }
  }

  /** An encoded NUL hides what follows. */
  lemma NulHides()
    ensures Decode("a%00b") == ['a', 0 as char, 'b'] && Decoded("a%00b") == "a"
  {
    var s := "a%00b";
    DecodeStep(s, 0);
    DecodeStep(s, 1);
    DecodeStep(s, 4);
    assert s[0..] == s && s[5..] == "";
    DecodeNothing();
    var t := ['a', 0 as char, 'b'];
    assert Decode(s) == t;
    assert CutAtNul(t[1..]) == "" && CutAtNul(t) == ['a'] + "";
  }

  lemma DecodeNothing()
    ensures Decode("") == ""
  {
  }

  lemma {:induction false} EncodeAppend(s: seq<Ascii>, c: Ascii)
    ensures Encode(s + [c]) == Encode(s) + EncodeChar(c)
  {
    hide EncodeChar;
    if s == [] {
      assert s + [c] == [c];
      assert Encode([c]) == EncodeChar(c) + Encode([]);
    } else {
      assert (s + [c])[0] == s[0] && (s + [c])[1..] == s[1..] + [c];
      EncodeAppend(s[1..], c);
    }
  }

  /** Appends the encoding to a buffer: runs of unreserved characters are copied in one go. */
  method UrlEncode(s: seq<Ascii>, buffer: string) returns (r: string)
    ensures r == buffer + Encode(s)
  {
    hide EncodeChar, Unreserved, Encode;
    EncodeNothing();
    r := buffer;
    var start, i := 0, 0;
    while i < |s|
      invariant 0 <= start <= i <= |s|
      invariant r + s[start..i] == buffer + Encode(s[..i])
      decreases |s| - i
    {
      assert s[..i + 1] == s[..i] + [s[i]];
      EncodeAppend(s[..i], s[i]);
      EncodeCharIs(s[i]);
      ghost var was := r + s[start..i];
      if !Unreserved(s[i]) {
        if start < i {
          r := r + s[start..i];
        }
        assert r == was;
        var code := s[i] as int;
        r := r + (['%'] + [HEX[code / 16]] + [HEX[code % 16]]);
        start := i + 1;
      } else {
        assert s[start..i + 1] == s[start..i] + [s[i]];
      }
      i := i + 1;
      assert r + s[start..i] == was + EncodeChar(s[i - 1]);
    }
    assert s[..i] == s;
    if start < i {
      r := r + s[start..];
    }
  }

  lemma EncodeNothing()
    ensures Encode([]) == ""
  {
  }

  lemma EncodeCharIs(c: Ascii)
    ensures EncodeChar(c) == if Unreserved(c) then [c] else ['%'] + [HEX[c as int / 16]] + [HEX[c as int % 16]]
  {
  }

  /** An escape sequence starts at `i`. */
  predicate EscapeAt(s: string, i: nat) {
    i + 2 < |s| && s[i] == '%' && HexDigit(s[i + 1]) != -1 && HexDigit(s[i + 2]) != -1
  }

  lemma DecodeStep(s: string, i: nat)
    requires i < |s|
    ensures EscapeAt(s, i) ==>
              Decode(s[i..]) == [(HexDigit(s[i + 1]) * 16 + HexDigit(s[i + 2])) as char] + Decode(s[i + 3..])
    ensures !EscapeAt(s, i) ==> Decode(s[i..]) == [s[i]] + Decode(s[i + 1..])
  {
    hide HexDigit;
    var t := s[i..];
    assert t[0] == s[i] && t[1..] == s[i + 1..];
    if |t| > 2 {
      assert t[1] == s[i + 1] && t[2] == s[i + 2] && t[3..] == s[i + 3..];
    }
  }

  method UrlDecode(s: string) returns (r: string)
    ensures r == Decoded(s)
  {
    hide Decode, CutAtNul;
    r := "";
    var i := 0;
    assert s[0..] == s;
    while i < |s|
      invariant 0 <= i <= |s| && r + Decode(s[i..]) == Decode(s)
      decreases |s| - i
    {
      DecodeStep(s, i);
      ghost var was := r;
      if EscapeAt(s, i) {
        r := r + [(HexDigit(s[i + 1]) * 16 + HexDigit(s[i + 2])) as char];
        i := i + 3;
      } else {
        r := r + [s[i]];
        i := i + 1;
      }
      assert was + (r[|was|..] + Decode(s[i..])) == r + Decode(s[i..]);
    }
    DecodeNothing();
    assert s[i..] == "" && r + "" == r;
    r := CutAtNul(r);
  }

  // ----- Ports

  function Digit(d: int): char
    requires 0 <= d < 10
  {
    ('0' as int + d) as char
  }

  /** A number without leading zeros. */
  function Decimal(n: nat): string {
    if n < 10 then [Digit(n)] else Decimal(n / 10) + [Digit(n % 10)]
  }

  function DigitValue(c: char): nat {
    if IsDigit(c) then c as int - '0' as int else 0
  }

  function Value(s: string): nat {
    if s == "" then 0 else Value(s[..|s| - 1]) * 10 + DigitValue(s[|s| - 1])
  }

  /** A port is a decimal number from 1 to 65535 without leading zeros. */
  predicate IsPort(s: string) {
    s != "" && s[0] != '0' && (forall c :: c in s ==> IsDigit(c)) && Value(s) <= 65535
  }

  lemma {:induction false} DecimalValue(n: nat)
    ensures Decimal(n) != "" && forall c :: c in Decimal(n) ==> IsDigit(c)
    ensures Value(Decimal(n)) == n
    ensures n > 0 ==> Decimal(n)[0] != '0'
  {
    if n >= 10 {
      DecimalValue(n / 10);
      var s := Decimal(n);
      assert s[..|s| - 1] == Decimal(n / 10);
    } else {
      assert Decimal(n)[..0] == "";
    }
  }

  lemma {:induction false} ValueMonotone(s: string, k: nat)
    requires k <= |s|
    ensures Value(s[..k]) <= Value(s)
  {
    if k == |s| {
      assert s[..k] == s;
    } else {
      var t := s[..|s| - 1];
      ValueMonotone(t, k);
      assert t[..k] == s[..k];
    }
  }

  /** Accepts exactly the ports; anything else gives -1. */
  method ParsePort(s: string) returns (port: int)
    ensures port == if IsPort(s) then Value(s) else -1
  {
    if s == "" || s[0] < '1' || '9' < s[0] {
      assert s != "" ==> s[0] in s;
      return -1;
    }
    var digit, i := 0, 0;
    while i < |s|
      invariant 0 <= i <= |s| && (forall c :: c in s[..i] ==> IsDigit(c))
      invariant digit == Value(s[..i]) <= 65535
    {
      assert s[i] in s && s[..i + 1][..i] == s[..i] && s[..i + 1][i] == s[i];
      if !IsDigit(s[i]) {
        return -1;
      }
      digit := digit * 10 + DigitValue(s[i]);
      assert forall c :: c in s[..i + 1] ==> c in s[..i] || c == s[i];
      assert digit == Value(s[..i + 1]);
      if digit > 65535 {
        ValueMonotone(s, i + 1);
        return -1;
      }
      i := i + 1;
    }
    assert s[..i] == s;
    if digit == 0 {
      NotZero(s);
      return -1;
    }
    port := digit;
  }

  /** Ports range from 1 to 65535. */
  lemma PortLimits(s: string)
    ensures IsPort(s) ==> 1 <= Value(s) <= 65535
    ensures s != "" && s[0] != '0' && (forall c :: c in s ==> '0' <= c <= '9') && Value(s) <= 65535 ==> IsPort(s)
    ensures !IsPort("") && !IsPort("0") && !IsPort("080") && !IsPort("8a") && !IsPort("-1")
    ensures forall n :: 0 < n <= 65535 ==> IsPort(Decimal(n))
    ensures forall n :: n > 65535 ==> !IsPort(Decimal(n))
  {
    hide Value, Decimal;
    if IsPort(s) {
      NotZero(s);
    }
    assert "0"[0] == '0' && "080"[0] == '0' && "8a"[1] == 'a' && "-1"[0] == '-';
    assert 'a' in "8a" && !IsDigit('a') && '-' in "-1" && !IsDigit('-');
    forall n: nat ensures n > 0 ==> (IsPort(Decimal(n)) <==> n <= 65535) {
      DecimalValue(n);
    }
  }

  lemma NotZero(s: string)
    requires IsPort(s)
    ensures Value(s) > 0
  {
    assert s[..1][..0] == "" && s[..1][0] == s[0];
    assert s[0] in s;
    ValueMonotone(s, 1);
    assert Value(s[..1]) == DigitValue(s[0]);
  }

  /** The digits of a number from the one worth `digit` on. */
  ghost function Tail(n: nat, digit: nat): string
    requires digit > 0
  {
    if digit < 10 then [Digit(n / digit % 10)] else [Digit(n / digit % 10)] + Tail(n, digit / 10)
  }

  lemma DivDiv(n: nat, digit: nat)
    requires digit in {1, 10, 100, 1000}
    ensures n / 10 / digit == n / (digit * 10)
  {
  }

  /** Working from the last digit gives the same as working from the first. */
  lemma TailStep(n: nat, digit: nat)
    requires digit in {1, 10, 100, 1000}
    ensures Tail(n, digit * 10) == Tail(n / 10, digit) + [Digit(n % 10)]
  {
    hide Digit;
    DivDiv(n, digit);
    assert digit * 10 / 10 == digit;
    if digit > 1 {
      TailStep(n, digit / 10);
      assert digit / 10 * 10 == digit;
    } else {
      assert Tail(n, 1) == [Digit(n % 10)];
    }
  }

  lemma DecimalTail(n: nat, digit: nat)
    requires digit in {1, 10, 100, 1000, 10000} && digit <= n < 10 * digit
    ensures Decimal(n) == Tail(n, digit)
  {
    if digit > 1 {
      DecimalTail(n / 10, digit / 10);
      TailStep(n, digit / 10);
    }
  }

  /** The digits of a port, most significant first. */
  method AppendPort(port: nat, buffer: string) returns (r: string)
    requires 0 < port <= 65535
    ensures r == buffer + Decimal(port)
  {
    hide Digit;
    r := buffer;
    var digit := 10000;
    while digit > 0 && port < digit
      invariant digit in {10000, 1000, 100, 10, 1} && port < 10 * digit
      decreases digit
    {
      digit := digit / 10;
    }
    DecimalTail(port, digit);
    while digit > 0
      invariant digit in {10000, 1000, 100, 10, 1, 0}
      invariant r + (if digit > 0 then Tail(port, digit) else "") == buffer + Decimal(port)
      decreases digit
    {
      ghost var was, rest := r, if digit < 10 then "" else Tail(port, digit / 10);
      var d := port / digit % 10;
      r := r + [Digit(d)];
      digit := digit / 10;
      assert was + ([Digit(d)] + rest) == r + rest;
    }
  }
}
