/** Conversion between UTF-8, UTF-16 and UTF-32 (RFC 3629, RFC 2781): single characters. */
module CodeConv {
  import opened Bytes

  type Unit = u: int | 0 <= u < 0x1_0000
  const MAX_CODE: int := 0x10_ffff
  const QUESTION: int := 63

  /** The outcome of decoding one character: how much input it used (0 if there is no character) and
      its code. */
  datatype Char = Char(used: nat, code: nat)

  predicate IsHigh(u: int) {
    0xd800 <= u < 0xdc00
  }

  predicate IsLow(u: int) {
    0xdc00 <= u < 0xe000
  }

  /** A Unicode scalar value. */
  predicate IsScalar(u: int) {
    0 <= u <= MAX_CODE && !IsHigh(u) && !IsLow(u)
  }

  predicate IsTrail(b: int) {
    0x80 <= b < 0xc0
  }

  function Trail(b: int): int {
    b % 0x40
  }

  /** The decoder takes lead bytes up to 0xf7 and encoded surrogates; the conditions on the second
      byte are those that rule out overlong forms. */
  function Utf8ToUtf32(s: seq<Byte>): (r: Char)
    requires s != []
    ensures r.used <= |s| && r.used <= 4
  {
    var c1 := s[0];
    if c1 <= 0x7f then Char(1, c1)
    else if 0xc2 <= c1 <= 0xdf then
      if |s| >= 2 && IsTrail(s[1]) then Char(2, c1 % 0x20 * 0x40 + Trail(s[1])) else Char(0, 0)
    else if 0xe0 <= c1 <= 0xef then
      if |s| >= 3 && (c1 % 0x10 != 0 || s[1] / 0x20 % 2 != 0) && IsTrail(s[1]) && IsTrail(s[2])
      then Char(3, c1 % 0x10 * 0x1000 + Trail(s[1]) * 0x40 + Trail(s[2])) else Char(0, 0)
    else if 0xf0 <= c1 <= 0xf7 then
      if |s| >= 4 && (c1 % 8 != 0 || s[1] / 0x10 % 4 != 0) && IsTrail(s[1]) && IsTrail(s[2]) && IsTrail(s[3])
      then Char(4, c1 % 8 * 0x4_0000 + Trail(s[1]) * 0x1000 + Trail(s[2]) * 0x40 + Trail(s[3])) else Char(0, 0)
    else Char(0, 0)
  }

  /** Empty if the code is out of range. */
  function Utf32ToUtf8(u: nat): (r: seq<Byte>)
    ensures r == [] <==> u > MAX_CODE
    ensures |r| <= 4
  {
    if u <= 0x7f then [u]
    else if u <= 0x7ff then [0xc0 + u / 0x40, 0x80 + u % 0x40]
    else if u <= 0xffff then [0xe0 + u / 0x1000, 0x80 + u / 0x40 % 0x40, 0x80 + u % 0x40]
    else if u <= MAX_CODE then
      [0xf0 + u / 0x4_0000, 0x80 + u / 0x1000 % 0x40, 0x80 + u / 0x40 % 0x40, 0x80 + u % 0x40]
    else []
  }

  function Utf16ToUtf32(s: seq<Unit>): (r: Char)
    ensures r.used <= |s| && r.used <= 2
  {
    if s == [] then Char(0, 0)
    else if IsHigh(s[0]) then
      if |s| >= 2 && IsLow(s[1]) then
        var hi: int, lo: int := s[0], s[1];
        Char(2, 0x1_0000 + (hi - 0xd800) * 0x400 + (lo - 0xdc00))
      else Char(0, 0)
    else if IsLow(s[0]) then Char(0, 0)
    else Char(1, s[0])
  }

  /** Empty if the code is out of range; a surrogate code is passed through. */
  function Utf32ToUtf16(u: nat): (r: seq<Unit>)
    ensures r == [] <==> u > MAX_CODE
    ensures |r| <= 2
  {
    if u < 0x1_0000 then [u]
    else if u <= MAX_CODE then [(u - 0x1_0000) / 0x400 + 0xd800, (u - 0x1_0000) % 0x400 + 0xdc00]
    else []
  }

  /** A dollar sign, a cent sign, a euro sign and U+10348. */
  lemma Utf8Examples()
    ensures Utf32ToUtf8(0x24) == [0x24] && Utf32ToUtf8(0xa2) == [0xc2, 0xa2]
    ensures Utf32ToUtf8(0x20ac) == [0xe2, 0x82, 0xac] && Utf32ToUtf8(0x1_0348) == [0xf0, 0x90, 0x8d, 0x88]
  {
  }

  /** The example of RFC 2781, section 5, and both ends of what is written in pairs. */
  lemma Utf16Examples()
    ensures Utf32ToUtf16(0x1_2345) == [0xd808, 0xdf45] && Utf32ToUtf16(0x20ac) == [0x20ac]
    ensures Utf32ToUtf16(0x1_0000) == [0xd800, 0xdc00] && Utf32ToUtf16(0x10_ffff) == [0xdbff, 0xdfff]
  {
  }

  // ----- One character

  /** Splitting off the low six bits undoes appending them. */
  lemma Digits(hi: int, lo: int)
    requires 0 <= lo < 0x40
    ensures (hi * 0x40 + lo) / 0x40 == hi && (hi * 0x40 + lo) % 0x40 == lo
  {
  }

  lemma Pack3(h: nat, m: nat, l: nat)
    requires h < 0x10 && m < 0x40 && l < 0x40 && (h != 0 || m >= 0x20)
    ensures var u := h * 0x1000 + m * 0x40 + l;
            0x800 <= u <= 0xffff && u / 0x1000 == h && u / 0x40 % 0x40 == m && u % 0x40 == l
  {
    Digits(h * 0x40 + m, l);
    Digits(h, m);
  }

  lemma Pack4(h: nat, m: nat, n: nat, l: nat)
    requires h < 8 && m < 0x40 && n < 0x40 && l < 0x40 && (h != 0 || m >= 0x10)
    ensures var u := h * 0x4_0000 + m * 0x1000 + n * 0x40 + l;
            0xffff < u && u / 0x4_0000 == h && u / 0x1000 % 0x40 == m && u / 0x40 % 0x40 == n && u % 0x40 == l
  {
    Digits((h * 0x40 + m) * 0x40 + n, l);
    Digits(h * 0x40 + m, n);
    Digits(h, m);
  }

  lemma Unpack3(u: nat)
    requires 0x800 <= u <= 0xffff
    ensures var h, m, l := u / 0x1000, u / 0x40 % 0x40, u % 0x40;
            h < 0x10 && (h != 0 || m >= 0x20) && u == h * 0x1000 + m * 0x40 + l
  {
    var a := u / 0x40;
    assert a == u / 0x1000 * 0x40 + a % 0x40;
  }

  lemma Unpack4(u: nat)
    requires 0xffff < u <= MAX_CODE
    ensures var h, m, n, l := u / 0x4_0000, u / 0x1000 % 0x40, u / 0x40 % 0x40, u % 0x40;
            h <= 4 && (h != 0 || m >= 0x10) && u == h * 0x4_0000 + m * 0x1000 + n * 0x40 + l
  {
    var a, b := u / 0x40, u / 0x1000;
    assert a == b * 0x40 + a % 0x40;
    assert b == u / 0x4_0000 * 0x40 + b % 0x40;
  }

  /** Second bytes of three- and four-byte forms: bit 5, or bits 4 and 5. */
  lemma SecondByte(m: nat)
    requires m < 0x40
    ensures IsTrail(0x80 + m) && Trail(0x80 + m) == m
    ensures m >= 0x20 <==> (0x80 + m) / 0x20 % 2 != 0
    ensures m >= 0x10 <==> (0x80 + m) / 0x10 % 4 != 0
  {
  }

  lemma TrailByte(b: int)
    requires IsTrail(b)
    ensures b == 0x80 + Trail(b) && 0 <= Trail(b) < 0x40
  {
  }

  lemma Decode3(s: seq<Byte>, h: nat, m: nat, l: nat)
    requires h < 0x10 && m < 0x40 && l < 0x40 && (h != 0 || m >= 0x20)
    requires |s| >= 3 && s[0] == 0xe0 + h && s[1] == 0x80 + m && s[2] == 0x80 + l
    ensures Utf8ToUtf32(s) == Char(3, h * 0x1000 + m * 0x40 + l)
  {
    hide Trail, IsTrail;
    SecondByte(m);
    SecondByte(l);
  }

  lemma Decode4(s: seq<Byte>, h: nat, m: nat, n: nat, l: nat)
    requires h < 8 && m < 0x40 && n < 0x40 && l < 0x40 && (h != 0 || m >= 0x10)
    requires |s| >= 4 && s[0] == 0xf0 + h && s[1] == 0x80 + m && s[2] == 0x80 + n && s[3] == 0x80 + l
    ensures Utf8ToUtf32(s) == Char(4, h * 0x4_0000 + m * 0x1000 + n * 0x40 + l)
  {
    hide Trail, IsTrail;
    SecondByte(m);
    SecondByte(n);
    SecondByte(l);
  }

  lemma Utf8DecodesEncoded(u: nat, rest: seq<Byte>)
    requires u <= MAX_CODE
    ensures Utf8ToUtf32(Utf32ToUtf8(u) + rest) == Char(|Utf32ToUtf8(u)|, u)
  {
    if 0x800 <= u <= 0xffff {
      hide Utf8ToUtf32;
      Unpack3(u);
      Decode3(Utf32ToUtf8(u) + rest, u / 0x1000, u / 0x40 % 0x40, u % 0x40);
    } else if u > 0xffff {
      hide Utf8ToUtf32;
      Unpack4(u);
      Decode4(Utf32ToUtf8(u) + rest, u / 0x4_0000, u / 0x1000 % 0x40, u / 0x40 % 0x40, u % 0x40);
    } else {
      var e := Utf32ToUtf8(u);
      assert forall i :: 0 <= i < |e| ==> (e + rest)[i] == e[i];
    }
  }

  lemma Shortest3(s: seq<Byte>)
    requires s != [] && Utf8ToUtf32(s).used == 3
    ensures Utf32ToUtf8(Utf8ToUtf32(s).code) == s[..3]
  {
    hide Trail, IsTrail;
    TrailByte(s[1]);
    TrailByte(s[2]);
    SecondByte(Trail(s[1]));
    Pack3(s[0] % 0x10, Trail(s[1]), Trail(s[2]));
  }

  lemma Shortest4(s: seq<Byte>)
    requires s != [] && Utf8ToUtf32(s).used == 4
    ensures Utf8ToUtf32(s).code <= MAX_CODE ==> Utf32ToUtf8(Utf8ToUtf32(s).code) == s[..4]
  {
    hide Trail, IsTrail;
    TrailByte(s[1]);
    TrailByte(s[2]);
    TrailByte(s[3]);
    SecondByte(Trail(s[1]));
    Pack4(s[0] % 8, Trail(s[1]), Trail(s[2]), Trail(s[3]));
  }

  /** The decoder accepts only shortest forms: a character in range encodes to the bytes it used. */
  lemma Utf8ShortestForm(s: seq<Byte>)
    requires s != []
    ensures var c := Utf8ToUtf32(s); 0 < c.used && c.code <= MAX_CODE ==> Utf32ToUtf8(c.code) == s[..c.used]
  {
    var c := Utf8ToUtf32(s);
    if c.used == 2 {
      Digits(s[0] % 0x20, Trail(s[1]));
    } else if c.used == 3 {
      Shortest3(s);
    } else if c.used == 4 {
      Shortest4(s);
    }
  }

  lemma Utf16DecodesEncoded(u: nat, rest: seq<Unit>)
    requires IsScalar(u)
    ensures Utf16ToUtf32(Utf32ToUtf16(u) + rest) == Char(|Utf32ToUtf16(u)|, u)
  {
    var e := Utf32ToUtf16(u);
    assert forall i :: 0 <= i < |e| ==> (e + rest)[i] == e[i];
  }

  lemma Utf16Unique(s: seq<Unit>)
    ensures var c := Utf16ToUtf32(s); 0 < c.used ==> IsScalar(c.code) && Utf32ToUtf16(c.code) == s[..c.used]
  {
    var c := Utf16ToUtf32(s);
    if c.used == 2 {
      var hi: int, lo: int := s[0], s[1];
      var v := (hi - 0xd800) * 0x400 + (lo - 0xdc00);
      assert v / 0x400 == hi - 0xd800 && v % 0x400 == lo - 0xdc00;
    }
  }
}
