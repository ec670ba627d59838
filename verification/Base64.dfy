/** The credential of an HTTP proxy (RFC 7617): Base64 (RFC 4648 section 4) by a bit accumulator. */
module Base64 {
  import opened Bytes
  import opened Division

  /** The alphabet: A-Z, a-z, 0-9, +, /. */
  function Digit(n: nat): char
    requires n < 64
  {
    if n < 26 then ('A' as int + n) as char
    else if n < 52 then ('a' as int + n - 26) as char
    else if n < 62 then ('0' as int + n - 52) as char
    else if n == 62 then '+'
    else '/'
  }

  /** Three bytes at a time as four digits, padded at the end. */
  function Encode(s: seq<Byte>): string {
    if s == [] then ""
    else if |s| == 1 then [Digit(s[0] / 4), Digit(s[0] % 4 * 16), '=', '=']
    else if |s| == 2 then [Digit(s[0] / 4), Digit(s[0] % 4 * 16 + s[1] / 16), Digit(s[1] % 16 * 4), '=']
    else Group(s[0], s[1], s[2]) + Encode(s[3..])
  }

  function Group(a: Byte, b: Byte, c: Byte): string {
    [Digit(a / 4), Digit(a % 4 * 16 + b / 16), Digit(b % 16 * 4 + c / 64), Digit(c % 64)]
  }

  /** The value of a digit; 64 for anything else. */
  function DigitValue(c: char): (n: nat)
    ensures n <= 64
  {
    if 'A' <= c <= 'Z' then c as int - 'A' as int
    else if 'a' <= c <= 'z' then c as int - 'a' as int + 26
    else if '0' <= c <= '9' then c as int - '0' as int + 52
    else if c == '+' then 62
    else if c == '/' then 63
    else 64
  }

  /** Decoding of padded text. */
  function Decode(t: string): seq<Byte> {
    if |t| < 4 then []
    else
      var a, b, c, d := DigitValue(t[0]), DigitValue(t[1]), DigitValue(t[2]), DigitValue(t[3]);
      if t[2] == '=' then [(a * 4 + b / 16) % 256]
      else if t[3] == '=' then [(a * 4 + b / 16) % 256, (b % 16 * 16 + c / 4) % 256]
      else [(a * 4 + b / 16) % 256, (b % 16 * 16 + c / 4) % 256, (c % 4 * 64 + d) % 256] + Decode(t[4..])
  }

  /** Table 1 of RFC 4648, section 4. */
  lemma DigitTable(n: nat)
    ensures n < 26 ==> Digit(n) as int == 'A' as int + n && Digit(26 + n) as int == 'a' as int + n
    ensures n < 10 ==> Digit(52 + n) as int == '0' as int + n
    ensures Digit(62) == '+' && Digit(63) == '/'
  {
  }

  /** Test vectors of RFC 4648, section 10. */
  lemma Vectors()
    ensures Encode([]) == "" && Encode([102]) == "Zg==" && Encode([102, 111]) == "Zm8="
    ensures Encode([102, 111, 111]) == "Zm9v" && Encode([102, 111, 111, 98]) == "Zm9vYg=="
  {
    assert [102, 111, 111][3..] == [] && [102, 111, 111, 98][3..] == [98];
    assert Encode([102, 111, 111]) == Group(102, 111, 111) + "";
    assert Encode([98]) == "Yg==";
    assert Encode([102, 111, 111, 98]) == Group(102, 111, 111) + "Yg==";
    assert "Zm9v" + "Yg==" == "Zm9vYg==";
  }

  lemma DigitRoundTrip(n: nat)
    requires n < 64
    ensures DigitValue(Digit(n)) == n && Digit(n) != '='
  {
  }

  lemma Bits(hi: nat, lo: nat)
    requires lo < 16
    ensures (hi * 16 + lo) / 16 == hi && (hi * 16 + lo) % 16 == lo
    ensures lo < 4 ==> (hi * 4 + lo) / 4 == hi && (hi * 4 + lo) % 4 == lo
  {
  }

  lemma Rebuild(a: Byte, b: Byte, c: Byte)
    ensures var x, y, z := a / 4, a % 4 * 16 + b / 16, b % 16 * 4 + c / 64;
            && x * 4 + y / 16 == a && y % 16 * 16 + z / 4 == b && z % 4 * 64 + c % 64 == c
            && y % 16 * 16 + (b % 16 * 4) / 4 == b && x * 4 + (a % 4 * 16) / 16 == a
  {
    Bits(a % 4, b / 16);
    Bits(b % 16, c / 64);
    Bits(a % 4, 0);
    Bits(b % 16, 0);
  }

  lemma GroupRoundTrip(a: Byte, b: Byte, c: Byte, rest: string)
    ensures Decode(Group(a, b, c) + rest) == [a, b, c] + Decode(rest)
  {
    hide Digit, DigitValue;
    DigitRoundTrip(a / 4);
    DigitRoundTrip(a % 4 * 16 + b / 16);
    DigitRoundTrip(b % 16 * 4 + c / 64);
    DigitRoundTrip(c % 64);
    Rebuild(a, b, c);
    var t := Group(a, b, c) + rest;
    assert t[4..] == rest;
  }

  lemma OneRoundTrip(s: seq<Byte>)
    requires |s| == 1
    ensures Decode(Encode(s)) == s
  {
    hide Digit, DigitValue;
    var a: int := s[0];
    Rebuild(a, 0, 0);
    DigitRoundTrip(a / 4);
    DigitRoundTrip(a % 4 * 16);
    assert Encode(s) == [Digit(a / 4), Digit(a % 4 * 16), '=', '='];
    assert Decode(Encode(s)) == [a];
  }

  lemma TwoRoundTrip(s: seq<Byte>)
    requires |s| == 2
    ensures Decode(Encode(s)) == s
  {
    hide Digit, DigitValue;
    var a: int, b: int := s[0], s[1];
    DigitRoundTrip(a / 4);
    DigitRoundTrip(a % 4 * 16 + b / 16);
    DigitRoundTrip(b % 16 * 4);
    var t := [Digit(a / 4), Digit(a % 4 * 16 + b / 16), Digit(b % 16 * 4), '='];
    assert Encode(s) == t;
    hide Encode;
    DecodeTwo(t, a, b);
  }

  lemma DecodeTwo(t: string, a: Byte, b: Byte)
    requires |t| == 4 && t[2] != '=' && t[3] == '='
    requires DigitValue(t[0]) == a / 4 && DigitValue(t[1]) == a % 4 * 16 + b / 16 && DigitValue(t[2]) == b % 16 * 4
    ensures Decode(t) == [a, b]
  {
    hide DigitValue;
    Rebuild(a, b, 0);
  }

  lemma {:induction false} RoundTrip(s: seq<Byte>)
    ensures Decode(Encode(s)) == s
  {
    hide Digit, DigitValue, Group;
    if s == [] {
    } else if |s| == 1 {
      OneRoundTrip(s);
    } else if |s| == 2 {
      TwoRoundTrip(s);
    } else {
      hide Decode;
      GroupRoundTrip(s[0], s[1], s[2], Encode(s[3..]));
      RoundTrip(s[3..]);
      assert s == [s[0], s[1], s[2]] + s[3..];
    }
  }

  // ----- What the accumulator has put out after reading `s`

  /** The whole digits of `s`. */
  function Body(s: seq<Byte>): string {
    if s == [] then ""
    else if |s| == 1 then [Digit(s[0] / 4)]
    else if |s| == 2 then [Digit(s[0] / 4), Digit(s[0] % 4 * 16 + s[1] / 16)]
    else Group(s[0], s[1], s[2]) + Body(s[3..])
  }

  /** The number of bits left over, and their value. */
  function LeftBits(s: seq<Byte>): nat {
    if |s| % 3 == 0 then 0 else if |s| % 3 == 1 then 2 else 4
  }

  function Left(s: seq<Byte>): nat {
    if |s| % 3 == 0 then 0 else if |s| % 3 == 1 then s[|s| - 1] % 4 else s[|s| - 1] % 16
  }

  function Last(s: seq<Byte>): string {
    if |s| % 3 == 0 then "" else if |s| % 3 == 1 then [Digit(Left(s) * 16)] else [Digit(Left(s) * 4)]
  }

  function Padding(s: seq<Byte>): string {
    if |s| % 3 == 0 then "" else if |s| % 3 == 1 then "==" else "="
  }

  /** Dropping a group of three bytes leaves the bits in the accumulator as they are. */
  lemma DropThree(s: seq<Byte>)
    requires |s| >= 3
    ensures LeftBits(s[3..]) == LeftBits(s) && Left(s[3..]) == Left(s)
    ensures Last(s[3..]) == Last(s) && Padding(s[3..]) == Padding(s)
  {
    hide Digit;
    assert |s[3..]| % 3 == |s| % 3;
    assert |s| > 3 ==> s[3..][|s| - 4] == s[|s| - 1];
  }

  lemma GroupLength(a: Byte, b: Byte, c: Byte)
    ensures |Group(a, b, c)| == 4
  {
    hide Digit;
  }

  lemma EncodePartsShort(s: seq<Byte>)
    requires |s| < 3
    ensures Encode(s) == Body(s) + (Last(s) + Padding(s))
    ensures |Encode(s)| == (|s| + 2) / 3 * 4
  {
    hide Digit;
  }

  lemma {:induction false} EncodeParts(s: seq<Byte>)
    ensures Encode(s) == Body(s) + (Last(s) + Padding(s))
    ensures |Encode(s)| == (|s| + 2) / 3 * 4
  {
    if |s| >= 3 {
      hide Digit, Last, Padding, Group;
      assert |Group(s[0], s[1], s[2])| == 4 by { GroupLength(s[0], s[1], s[2]); }
      EncodeParts(s[3..]);
      DropThree(s);
      var g, b, l := Group(s[0], s[1], s[2]), Body(s[3..]), Last(s) + Padding(s);
      assert g + (b + l) == (g + b) + l;
    } else {
      hide *;
      EncodePartsShort(s);
    }
  }

  /** The digits that one more byte completes. */
  function Emitted(bits: nat, left: nat, b: Byte): string
    requires (bits == 0 && left == 0) || (bits == 2 && left < 4) || (bits == 4 && left < 16)
  {
    if bits == 0 then [Digit(b / 4)]
    else if bits == 2 then [Digit(left * 16 + b / 16)]
    else [Digit(left * 4 + b / 64), Digit(b % 64)]
  }

  lemma BodyStepNone(s: seq<Byte>, b: Byte)
    requires |s| == 0
    ensures Body(s + [b]) == Body(s) + Emitted(LeftBits(s), Left(s), b)
  {
    hide Digit;
    assert s + [b] == [b];
  }

  lemma BodyTwo(a: Byte, b: Byte)
    ensures Body([a, b]) == Body([a]) + Emitted(2, a % 4, b)
  {
    hide Digit;
    assert [Digit(a / 4)] + [Digit(a % 4 * 16 + b / 16)] == [Digit(a / 4), Digit(a % 4 * 16 + b / 16)];
  }

  lemma BodyStepOne(s: seq<Byte>, b: Byte)
    requires |s| == 1
    ensures Body(s + [b]) == Body(s) + Emitted(LeftBits(s), Left(s), b)
  {
    hide Body, Emitted;
    BodyTwo(s[0], b);
    assert s == [s[0]] && s + [b] == [s[0], b];
  }

  lemma BodyThree(a: Byte, b: Byte, c: Byte)
    ensures Body([a, b, c]) == Body([a, b]) + Emitted(4, b % 16, c)
  {
    hide Digit;
    assert [a, b, c][3..] == [];
    assert Body([a, b, c]) == Group(a, b, c);
    assert Body([a, b]) == [Digit(a / 4), Digit(a % 4 * 16 + b / 16)];
  }

  lemma BodyStepTwo(s: seq<Byte>, b: Byte)
    requires |s| == 2
    ensures Body(s + [b]) == Body(s) + Emitted(LeftBits(s), Left(s), b)
  {
    hide Body, Emitted;
    BodyThree(s[0], s[1], b);
    assert s == [s[0], s[1]] && s + [b] == [s[0], s[1], b];
  }

  lemma {:induction false} BodyStep(s: seq<Byte>, b: Byte)
    ensures Body(s + [b]) == Body(s) + Emitted(LeftBits(s), Left(s), b)
  {
    if |s| == 0 {
      BodyStepNone(s, b);
    } else if |s| == 1 {
      BodyStepOne(s, b);
    } else if |s| == 2 {
      BodyStepTwo(s, b);
    } else {
      hide Emitted, Digit, Group, LeftBits, Left;
      var t := s + [b];
      BodyStep(s[3..], b);
      DropThree(s);
      assert t[3..] == s[3..] + [b] && t[0] == s[0] && t[1] == s[1] && t[2] == s[2];
      LeftRange(s);
      var g, x, y := Group(s[0], s[1], s[2]), Body(s[3..]), Emitted(LeftBits(s), Left(s), b);
      assert g + (x + y) == (g + x) + y;
    }
  }

  lemma LeftRange(s: seq<Byte>)
    ensures || (LeftBits(s) == 0 && Left(s) == 0)
            || (LeftBits(s) == 2 && Left(s) < 4)
            || (LeftBits(s) == 4 && Left(s) < 16)
  {
  }

  lemma LeftStep(s: seq<Byte>, b: Byte)
    ensures LeftBits(s + [b]) == (if LeftBits(s) == 4 then 0 else LeftBits(s) + 2)
    ensures Left(s + [b]) == if LeftBits(s) == 0 then b % 4 else if LeftBits(s) == 2 then b % 16 else 0
  {
    var t := s + [b];
    assert |t| % 3 == if |s| % 3 == 2 then 0 else |s| % 3 + 1;
    assert t[|t| - 1] == b;
  }

  /** A 32-bit word shifted left by eight bits, with a byte put in: the bits pushed out are lost. */
  function Push(data: UInt32, b: Byte): UInt32 {
    (data * 0x100 + b) % 0x1_0000_0000
  }

  /** The six bits of a word above the lowest `bits`. */
  function Sextet(data: UInt32, bits: nat): (n: nat)
    requires bits in {0, 2, 4, 6}
    ensures n < 64
  {
    var d := if bits == 0 then 1 else if bits == 2 then 4 else if bits == 4 then 16 else 64;
    data / d % 64
  }

  /** Only bits that are still in the word are ever looked at. */
  lemma PushKeeps(data: UInt32, left: nat, scale: nat, b: Byte)
    requires scale in {1, 4, 16} && data % scale == left
    ensures Push(data, b) % (scale * 0x100) == left * 0x100 + b
  {
    var q := data / scale;
    var x: int := data * 0x100 + b;
    var k := x / 0x1_0000_0000;
    assert data == scale * q + left;
    assert Push(data, b) == x - k * 0x1_0000_0000;
    if scale == 1 {
      QuotientUnique(Push(data, b), 0x100, q - k * 0x100_0000, b);
    } else if scale == 4 {
      QuotientUnique(Push(data, b), 0x400, q - k * 0x40_0000, left * 0x100 + b);
    } else {
      QuotientUnique(Push(data, b), 0x1000, q - k * 0x10_0000, left * 0x100 + b);
    }
  }

  lemma Sextets(data: UInt32, left: nat, b: Byte, start: nat)
    requires (start == 0 && left == 0) || (start == 2 && left < 4) || (start == 4 && left < 16)
    requires data % (Scale(start) * 0x100) == left * 0x100 + b
    ensures start == 0 ==> Sextet(data, 2) == b / 4 && data % 4 == b % 4
    ensures start == 2 ==> Sextet(data, 4) == left * 16 + b / 16 && data % 16 == b % 16
    ensures start == 4 ==> Sextet(data, 6) == left * 4 + b / 64 && Sextet(data, 0) == b % 64
  {
    var q := data / (Scale(start) * 0x100);
    if start == 0 {
      assert data == q * 0x100 + b;
      QuotientUnique(data, 4, q * 64 + b / 4, b % 4);
      QuotientUnique(data / 4, 64, q, b / 4);
    } else if start == 2 {
      assert data == q * 0x400 + left * 0x100 + b;
      QuotientUnique(data, 16, q * 64 + left * 16 + b / 16, b % 16);
      QuotientUnique(data / 16, 64, q, left * 16 + b / 16);
    } else {
      assert data == q * 0x1000 + left * 0x100 + b;
      QuotientUnique(data, 64, q * 64 + left * 4 + b / 64, b % 64);
      QuotientUnique(data / 64, 64, q, left * 4 + b / 64);
    }
  }

  function Scale(bits: nat): nat {
    if bits == 0 then 1 else if bits == 2 then 4 else 16
  }

  /** Emits digits while there are six bits or more. */
  method Drain(data: UInt32, start: nat, ghost left: nat, ghost b: Byte) returns (bits: nat, digits: string)
    requires (start == 0 && left == 0) || (start == 2 && left < 4) || (start == 4 && left < 16)
    requires data % (Scale(start) * 0x100) == left * 0x100 + b
    ensures digits == Emitted(start, left, b)
    ensures bits == (if start == 4 then 0 else start + 2)
    ensures data % Scale(bits) == if start == 0 then b % 4 else if start == 2 then b % 16 else 0
  {
    hide Digit, Sextet;
    Sextets(data, left, b, start);
    bits, digits := start + 8, "";
    while bits >= 6
      invariant || (bits == start + 8 && digits == "")
                || (start == 4 && bits == 6 && digits == [Digit(left * 4 + b / 64)])
                || (bits == (if start == 4 then 0 else start + 2) && digits == Emitted(start, left, b))
      decreases bits
    {
      bits := bits - 6;
      digits := digits + [Digit(Sextet(data, bits))];
    }
  }

  lemma Nothing()
    ensures Body([]) == "" && LeftBits([]) == 0 && Left([]) == 0
  {
  }

  /** The Basic credential for a user and a password free of NUL. */
  method BasicCredential(user: seq<Byte>, pass: seq<Byte>) returns (encoded: string)
    requires 0 !in user && 0 !in pass
    ensures encoded == Encode(user + [':' as int] + pass)
    ensures Decode(encoded) == user + [':' as int] + pass
  {
    hide Encode, Decode, Body, Digit, Emitted, Push, Sextet, LeftBits, Left;
    ghost var s: seq<Byte> := user + [':' as int] + pass;
    var auth: seq<Byte> := user + [':' as int] + pass + [0];
    var encodedlen: int := (|user| + 1 + |pass| + 2) / 3 * 4;
    encoded := "";
    var i, bits := 0, 0;
    var data: UInt32 := 0;
    Nothing();
    while auth[i] != 0
      invariant 0 <= i <= |s| && auth == s + [0] && 0 !in s
      invariant bits == LeftBits(s[..i]) && data % Scale(bits) == Left(s[..i])
      invariant encoded == Body(s[..i]) && encodedlen + |encoded| == (|s| + 2) / 3 * 4
      decreases |s| - i
    {
      assert s[..i + 1] == s[..i] + [s[i]] && auth[i] == s[i];
      BodyStep(s[..i], s[i]);
      LeftStep(s[..i], s[i]);
      LeftRange(s[..i]);
      PushKeeps(data, Left(s[..i]), Scale(bits), auth[i]);
      var digits;
      data := Push(data, auth[i]);
      bits, digits := Drain(data, bits, Left(s[..i]), auth[i]);
      encoded := encoded + digits;
      encodedlen := encodedlen - |digits|;
      i := i + 1;
    }
    assert i == |s| && s[..i] == s;
    EncodeParts(s);
    PaddingIs(s);
    if bits > 0 {
      LastDigit(data, s);
      encoded := encoded + [Digit(if bits == 2 then data * 16 % 64 else data * 4 % 64)];
      encodedlen := encodedlen - 1;
    }
    ghost var digits := encoded;
    ghost var padding := "";
    while encodedlen > 0
      invariant 0 <= encodedlen && encodedlen + |padding| == |Padding(s)|
      invariant encoded == digits + padding && forall k :: 0 <= k < |padding| ==> padding[k] == '='
    {
      encodedlen := encodedlen - 1;
      encoded := encoded + ['='];
      padding := padding + ['='];
    }
    assert padding == Padding(s);
    RoundTrip(s);
  }

  lemma LastDigit(data: UInt32, s: seq<Byte>)
    requires LeftBits(s) > 0 && data % Scale(LeftBits(s)) == Left(s)
    ensures LeftBits(s) == 2 || LeftBits(s) == 4
    ensures Last(s) == [Digit(if LeftBits(s) == 2 then data * 16 % 64 else data * 4 % 64)]
  {
    hide Digit;
    if LeftBits(s) == 2 {
      QuotientUnique(data * 16, 64, data / 4, Left(s) * 16);
    } else {
      QuotientUnique(data * 4, 64, data / 16, Left(s) * 4);
    }
  }

  lemma PaddingIs(s: seq<Byte>)
    ensures |Last(s)| == (if LeftBits(s) > 0 then 1 else 0) && |Padding(s)| <= 2
    ensures forall k :: 0 <= k < |Padding(s)| ==> Padding(s)[k] == '='
  {
  }
}
