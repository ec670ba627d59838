/** Conversion of whole strings between UTF-8, UTF-16 and UTF-32: what the loops compute, and when
    converting there and back changes nothing. */
module CodeConvStrings {
  import opened Bytes
  import opened CodeConv

  // ----- Decoding, with '?' for one unit of whatever cannot be decoded

  /** The first character of a UTF-16 string as the loops see it. */
  function First16(w: seq<Unit>): (r: Char)
    requires w != []
    ensures 1 <= r.used <= |w| && IsScalar(r.code)
  {
    var c := Utf16ToUtf32(w);
    if c.used == 0 then Char(1, QUESTION) else (Utf16Unique(w); c)
  }

  /** The first character of a UTF-8 string; codes beyond Unicode also become '?'. */
  function First8(b: seq<Byte>): (r: Char)
    requires b != []
    ensures 1 <= r.used <= |b| && r.code <= MAX_CODE
  {
    var c := Utf8ToUtf32(b);
    if c.used == 0 then Char(1, QUESTION) else if c.code > MAX_CODE then Char(c.used, QUESTION) else c
  }

  function Codes16(w: seq<Unit>): (r: seq<nat>)
    ensures forall u :: u in r ==> IsScalar(u)
  {
    if w == [] then [] else [First16(w).code] + Codes16(w[First16(w).used..])
  }

  function Codes8(b: seq<Byte>): (r: seq<nat>)
    ensures forall u :: u in r ==> u <= MAX_CODE
  {
    if b == [] then [] else [First8(b).code] + Codes8(b[First8(b).used..])
  }

  function All8(us: seq<nat>): seq<Byte> {
    if us == [] then [] else Utf32ToUtf8(us[0]) + All8(us[1..])
  }

  function All16(us: seq<nat>): seq<Unit> {
    if us == [] then [] else Utf32ToUtf16(us[0]) + All16(us[1..])
  }

  /** What converting a UTF-16 string to UTF-8 gives. */
  function ToUtf8(w: seq<Unit>): seq<Byte> {
    All8(Codes16(w))
  }

  /** What converting a UTF-8 string to UTF-16 gives. */
  function ToUtf16(b: seq<Byte>): seq<Unit> {
    All16(Codes8(b))
  }

  // ----- Well-formed strings, as the standards define them

  /** RFC 2781 section 2.2: how many units the character at the front takes; 0 if there is none. */
  function Sequence16(w: seq<Unit>): (n: nat)
    ensures n <= |w|
  {
    if w == [] then 0
    else if w[0] < 0xd800 || w[0] > 0xdfff then 1
    else if w[0] <= 0xdbff && |w| >= 2 && 0xdc00 <= w[1] <= 0xdfff then 2
    else 0
  }

  predicate WellFormed16(w: seq<Unit>) {
    w == [] || (Sequence16(w) > 0 && WellFormed16(w[Sequence16(w)..]))
  }

  predicate Tails(b: seq<Byte>, from: nat, to: nat) {
    to <= |b| && forall i :: from <= i < to ==> 0x80 <= b[i] <= 0xbf
  }

  /** RFC 3629 section 4, `UTF8-char`: how many bytes the character at the front takes. */
  function Sequence8(b: seq<Byte>): (n: nat)
    ensures n <= |b|
  {
    if b == [] then 0
    else if b[0] <= 0x7f then 1
    else if |b| < 2 then 0
    else if 0xc2 <= b[0] <= 0xdf then if Tails(b, 1, 2) then 2 else 0
    else if b[0] == 0xe0 then if 0xa0 <= b[1] <= 0xbf && Tails(b, 2, 3) then 3 else 0
    else if 0xe1 <= b[0] <= 0xec then if Tails(b, 1, 3) then 3 else 0
    else if b[0] == 0xed then if 0x80 <= b[1] <= 0x9f && Tails(b, 2, 3) then 3 else 0
    else if 0xee <= b[0] <= 0xef then if Tails(b, 1, 3) then 3 else 0
    else if b[0] == 0xf0 then if 0x90 <= b[1] <= 0xbf && Tails(b, 2, 4) then 4 else 0
    else if 0xf1 <= b[0] <= 0xf3 then if Tails(b, 1, 4) then 4 else 0
    else if b[0] == 0xf4 then if 0x80 <= b[1] <= 0x8f && Tails(b, 2, 4) then 4 else 0
    else 0
  }

  predicate WellFormed8(b: seq<Byte>)
    decreases |b|
  {
    b == [] || (Sequence8(b) > 0 && WellFormed8(b[Sequence8(b)..]))
  }

  /** The UTF-16 decoder accepts exactly the characters of the standard. */
  lemma Accepted16(w: seq<Unit>)
    ensures Utf16ToUtf32(w).used == Sequence16(w)
  {
  }

  lemma Scalar3(h: nat, m: nat, l: nat)
    requires h < 0x10 && m < 0x40 && l < 0x40
    ensures IsScalar(h * 0x1000 + m * 0x40 + l) <==> !(h == 13 && m >= 0x20)
  {
  }

  lemma Scalar4(h: nat, m: nat, n: nat, l: nat)
    requires h < 8 && m < 0x40 && n < 0x40 && l < 0x40 && (h != 0 || m >= 0x10)
    ensures IsScalar(h * 0x4_0000 + m * 0x1000 + n * 0x40 + l) <==> h < 4 || (h == 4 && m < 0x10)
  {
  }

  lemma Accepted3(b: seq<Byte>)
    requires b != [] && 0xe0 <= b[0] <= 0xef
    ensures var c := Utf8ToUtf32(b);
            Sequence8(b) == if c.used > 0 && IsScalar(c.code) then c.used else 0
  {
    hide Trail, IsScalar;
    if |b| >= 3 {
      SecondByteRange(b[1]);
      SecondByteRange(b[2]);
      if IsTrail(b[1]) && IsTrail(b[2]) {
        Scalar3(b[0] % 0x10, Trail(b[1]), Trail(b[2]));
      }
    }
  }

  lemma Accepted4(b: seq<Byte>)
    requires b != [] && 0xf0 <= b[0]
    ensures var c := Utf8ToUtf32(b);
            Sequence8(b) == if c.used > 0 && IsScalar(c.code) then c.used else 0
  {
    hide Trail, IsScalar;
    if |b| >= 4 {
      SecondByteRange(b[1]);
      SecondByteRange(b[2]);
      SecondByteRange(b[3]);
      var h := b[0] % 8;
      if IsTrail(b[1]) && IsTrail(b[2]) && IsTrail(b[3]) && (h != 0 || Trail(b[1]) >= 0x10) {
        Scalar4(h, Trail(b[1]), Trail(b[2]), Trail(b[3]));
      }
    }
  }

  /** The UTF-8 decoder accepts the characters of the standard, and else only what is no scalar
      value: surrogates and codes beyond Unicode. */
  lemma Accepted8(b: seq<Byte>)
    requires b != []
    ensures var c := Utf8ToUtf32(b);
            Sequence8(b) == if c.used > 0 && IsScalar(c.code) then c.used else 0
  {
    if b[0] >= 0xf0 {
      Accepted4(b);
    } else if b[0] >= 0xe0 {
      Accepted3(b);
    } else if |b| >= 2 {
      SecondByteRange(b[1]);
    }
  }

  lemma SecondByteRange(b: int)
    requires 0 <= b < 0x100
    ensures IsTrail(b) ==>
              && Trail(b) == b - 0x80
              && (b / 0x20 % 2 != 0 <==> b >= 0xa0) && (b / 0x10 % 4 != 0 <==> b >= 0x90)
  {
  }

  /** A surrogate encoded in UTF-8 is not well-formed, but the decoder lets it through, and it
      comes back as '?'. */
  lemma EncodedSurrogate()
    ensures var b := [0xed, 0xa0, 0x80];
            !WellFormed8(b) && ToUtf16(b) == [0xd800] && ToUtf8(ToUtf16(b)) == [QUESTION]
  {
    var b: seq<Byte> := [0xed, 0xa0, 0x80];
    assert Sequence8(b) == 0;
    assert Utf8ToUtf32(b) == Char(3, 0xd800);
    assert Codes8(b) == [0xd800] + Codes8(b[3..]) && b[3..] == [];
    assert All16([0xd800]) == [0xd800] + All16([]);
    var w: seq<Unit> := [0xd800];
    assert Codes16(w) == [QUESTION] + Codes16(w[1..]) && w[1..] == [];
    assert All8([QUESTION]) == [QUESTION] + All8([]);
  }

  /** Each byte or unit that cannot be decoded becomes a question mark of its own, a code beyond
      Unicode becomes one as a whole, and so does a character that does not fit. */
  lemma Replacements()
    ensures QUESTION == 63
    ensures ToUtf16([0xff, 0x41]) == [63, 0x41] && ToUtf16([0xe2, 0x82]) == [63, 63]
    ensures ToUtf16([0xf5, 0x80, 0x80, 0x80]) == [63] && ToUtf8([0xd800, 0x41]) == [63, 0x41]
    ensures FillBy(Utf32ToUtf8, [0xe9], 1) == [63] && Fill16([0xf0, 0x90, 0x8d, 0x88], 1) == [63]
  {
    TwoBad(0xff, 0x41);
    TwoBad(0xe2, 0x82);
    var b: seq<Byte> := [0xf5, 0x80, 0x80, 0x80];
    assert First8(b) == Char(4, QUESTION) && b[4..] == [];
    ToUtf16Step(b);
    NoWide();
    assert ToUtf16(b) == [63] + [];
    var w: seq<Unit> := [0xd800, 0x41];
    assert First16(w) == Char(1, QUESTION) && w[1..] == [0x41] && First16([0x41]) == Char(1, 0x41);
    ToUtf8Step(w);
    ToUtf8Step(w[1..]);
    assert [0x41][1..] == [];
    assert ToUtf8([0x41]) == [0x41] + [] && ToUtf8(w) == [63] + [0x41];
    NoRoom();
  }

  lemma TwoBad(a: Byte, c: Byte)
    requires (a == 0xff && c == 0x41) || (a == 0xe2 && c == 0x82)
    ensures ToUtf16([a, c]) == [63, if c == 0x41 then 0x41 else 63]
  {
    var b: seq<Byte> := [a, c];
    var code := if c == 0x41 then 0x41 else 63;
    assert First8(b) == Char(1, QUESTION) && b[1..] == [c] && First8([c]) == Char(1, code) && [c][1..] == [];
    ToUtf16Step(b);
    ToUtf16Step([c]);
    NoWide();
    assert ToUtf16([c]) == [code] + [] && ToUtf16(b) == [63] + [code];
  }

  lemma NoRoom()
    ensures FillBy(Utf32ToUtf8, [0xe9], 1) == [63] && Fill16([0xf0, 0x90, 0x8d, 0x88], 1) == [63]
  {
    var w: seq<Unit> := [0xe9];
    assert |CharBy(Utf32ToUtf8, w)| == 2 && PutBy(Utf32ToUtf8, w, 1) == [63] && w[1..] == [];
    assert FillBy(Utf32ToUtf8, w, 1) == [63] + FillBy(Utf32ToUtf8, w[First16(w).used..], 0);
    var b: seq<Byte> := [0xf0, 0x90, 0x8d, 0x88];
    assert First8(b) == Char(4, 0x1_0348) && Put16(0x1_0348, 1) == [63];
    assert Fill16(b, 1) == [63] + Fill16(b[4..], 0);
  }

  // ----- Encoding scalar values and decoding them again

  lemma {:induction false} Codes8All8(us: seq<nat>)
    requires forall u :: u in us ==> u <= MAX_CODE
    ensures Codes8(All8(us)) == us
  {
    if us != [] {
      var e, rest := Utf32ToUtf8(us[0]), All8(us[1..]);
      assert us[0] in us;
      Utf8DecodesEncoded(us[0], rest);
      assert forall u :: u in us[1..] ==> u in us;
      Codes8All8(us[1..]);
      assert (e + rest)[|e|..] == rest;
    }
  }

  lemma {:induction false} Codes16All16(us: seq<nat>)
    requires forall u :: u in us ==> IsScalar(u)
    ensures Codes16(All16(us)) == us
  {
    if us != [] {
      var e, rest := Utf32ToUtf16(us[0]), All16(us[1..]);
      assert us[0] in us;
      Utf16DecodesEncoded(us[0], rest);
      Codes16All16(us[1..]);
      assert (e + rest)[|e|..] == rest;
    }
  }

  lemma {:induction false} WellFormed8All8(us: seq<nat>)
    requires forall u :: u in us ==> IsScalar(u)
    ensures WellFormed8(All8(us))
  {
    if us != [] {
      var e, rest := Utf32ToUtf8(us[0]), All8(us[1..]);
      assert us[0] in us;
      Utf8DecodesEncoded(us[0], rest);
      Accepted8(e + rest);
      WellFormed8All8(us[1..]);
      assert (e + rest)[|e|..] == rest;
    }
  }

  // ----- UTF-16 to UTF-8 to UTF-16

  lemma Codes16Step(w: seq<Unit>)
    requires w != []
    ensures var c := First16(w);
            All16(Codes16(w)) == Utf32ToUtf16(c.code) + All16(Codes16(w[c.used..]))
  {
    hide Utf32ToUtf16;
    var c := First16(w);
    assert Codes16(w)[1..] == Codes16(w[c.used..]);
  }

  lemma {:induction false} Codes16Faithful(w: seq<Unit>)
    ensures All16(Codes16(w)) == w <==> WellFormed16(w)
  {
    hide Utf16ToUtf32, Utf32ToUtf16, Codes16, All16, Sequence16;
    if w == [] {
      NoCodes();
    } else {
      Accepted16(w);
      var c := First16(w);
      var rest := w[c.used..];
      Codes16Step(w);
      if Utf16ToUtf32(w).used == 0 {
        QuestionUnit(w);
        assert (Utf32ToUtf16(c.code) + All16(Codes16(rest)))[0] == QUESTION;
      } else {
        Codes16Faithful(rest);
        Utf16Unique(w);
        assert w == w[..c.used] + rest;
        SamePrefix(w[..c.used], All16(Codes16(rest)), rest);
      }
    }
  }

  lemma NoCodes()
    ensures All16(Codes16([])) == []
  {
  }

  lemma QuestionUnit(w: seq<Unit>)
    requires w != [] && Utf16ToUtf32(w).used == 0
    ensures w[0] != QUESTION && Utf32ToUtf16(QUESTION) == [QUESTION]
  {
  }

  /** There and back gives the string with every stray surrogate replaced by '?', that is, the
      string itself exactly if it is well-formed. */
  lemma RoundTrip16(w: seq<Unit>)
    ensures ToUtf16(ToUtf8(w)) == All16(Codes16(w))
    ensures ToUtf16(ToUtf8(w)) == w <==> WellFormed16(w)
  {
    Codes8All8(Codes16(w));
    Codes16Faithful(w);
  }

  // ----- UTF-8 to UTF-16 to UTF-8

  lemma ToUtf16Step(b: seq<Byte>)
    requires b != []
    ensures var c := First8(b); ToUtf16(b) == Utf32ToUtf16(c.code) + ToUtf16(b[c.used..])
  {
    hide Utf32ToUtf16;
    assert Codes8(b)[1..] == Codes8(b[First8(b).used..]);
  }

  /** A scalar value passes through UTF-16 without touching what follows. */
  lemma Through16(u: nat, rest: seq<Unit>)
    requires IsScalar(u)
    ensures ToUtf8(Utf32ToUtf16(u) + rest) == Utf32ToUtf8(u) + ToUtf8(rest)
  {
    hide Utf16ToUtf32, Utf32ToUtf16, Utf32ToUtf8;
    var e := Utf32ToUtf16(u);
    Utf16DecodesEncoded(u, rest);
    assert (e + rest)[|e|..] == rest;
    assert Codes16(e + rest)[1..] == Codes16(rest);
  }

  /** There and back gives the bytes themselves exactly if they are well-formed UTF-8. */
  lemma {:induction false} RoundTrip8(b: seq<Byte>)
    ensures ToUtf8(ToUtf16(b)) == b <==> WellFormed8(b)
    decreases |b|
  {
    hide Utf8ToUtf32, Utf32ToUtf8, Utf16ToUtf32, Utf32ToUtf16, ToUtf8, ToUtf16, Sequence8;
    if b == [] {
      NothingBoth();
    } else {
      Accepted8(b);
      var c := First8(b);
      var rest := b[c.used..];
      ToUtf16Step(b);
      if Utf8ToUtf32(b).used > 0 && IsScalar(Utf8ToUtf32(b).code) {
        RoundTrip8(rest);
        Utf8ShortestForm(b);
        Through16(c.code, ToUtf16(rest));
        assert b == b[..c.used] + rest;
        SamePrefix(b[..c.used], ToUtf8(ToUtf16(rest)), rest);
      } else {
        BadFirstByte(b);
        FirstOut(c.code, ToUtf16(rest));
      }
    }
  }

  lemma NothingBoth()
    ensures ToUtf8(ToUtf16([])) == []
  {
  }

  /** A character that is not a scalar value starts with a byte that no '?' and no character beyond
      the basic plane starts with. */
  lemma BadFirstByte(b: seq<Byte>)
    requires b != [] && !(Utf8ToUtf32(b).used > 0 && IsScalar(Utf8ToUtf32(b).code))
    ensures var c := First8(b);
            (c.code == QUESTION && b[0] != QUESTION) || ((IsHigh(c.code) || IsLow(c.code)) && b[0] == 0xed)
  {
    var c := Utf8ToUtf32(b);
    if c.used == 3 {
      assert 0xd000 <= c.code < 0xe000 ==> b[0] % 0x10 == 13;
    }
  }

  /** The first byte that comes out for a '?' or a lone surrogate followed by anything. */
  lemma FirstOut(u: nat, rest: seq<Unit>)
    requires u == QUESTION || IsHigh(u) || IsLow(u)
    ensures var out := ToUtf8(Utf32ToUtf16(u) + rest);
            out != [] && (u == QUESTION ==> out[0] == QUESTION) && out[0] != 0xed
  {
    var w := Utf32ToUtf16(u) + rest;
    assert w[0] == u;
    var c := First16(w);
    assert Codes16(w)[0] == c.code;
    FirstByte(c.code);
  }

  lemma FirstByte(u: nat)
    requires u == QUESTION || 0x1_0000 <= u <= MAX_CODE
    ensures Utf32ToUtf8(u)[0] != 0xed && (u == QUESTION ==> Utf32ToUtf8(u) == [QUESTION])
  {
  }

  /** Decoding and encoding normalises any bytes to well-formed UTF-8, and once is enough. */
  lemma Normalised(b: seq<Byte>)
    ensures WellFormed8(ToUtf8(ToUtf16(b)))
    ensures ToUtf8(ToUtf16(ToUtf8(ToUtf16(b)))) == ToUtf8(ToUtf16(b))
  {
    var n := ToUtf8(ToUtf16(b));
    WellFormed8All8(Codes16(ToUtf16(b)));
    RoundTrip8(n);
  }

  lemma ToUtf8Step(w: seq<Unit>)
    requires w != []
    ensures var c := First16(w); ToUtf8(w) == Utf32ToUtf8(c.code) + ToUtf8(w[c.used..])
  {
    hide Utf32ToUtf8;
    assert Codes16(w)[1..] == Codes16(w[First16(w).used..]);
  }

  // ----- Bounded output buffers

  /** An encoder of single characters; empty where it has none. */
  type Encoder = nat -> seq<Byte>

  /** What the loops rely on: no character takes more than four bytes. */
  ghost predicate Short(enc: Encoder) {
    forall u :: |enc(u)| <= 4
  }

  /** The bytes for the first character; '?' if it cannot be decoded or encoded. */
  function CharBy(enc: Encoder, w: seq<Unit>): (r: seq<Byte>)
    requires w != []
    ensures r != []
  {
    var c := Utf16ToUtf32(w);
    if c.used == 0 || enc(c.code) == [] then [QUESTION] else enc(c.code)
  }

  /** What converting a whole string with an encoder gives. */
  function ConvertBy(enc: Encoder, w: seq<Unit>): seq<Byte> {
    if w == [] then [] else CharBy(enc, w) + ConvertBy(enc, w[First16(w).used..])
  }

  /** What is written for the first character when `cap` bytes are left. */
  function PutBy(enc: Encoder, w: seq<Unit>, cap: nat): (r: seq<Byte>)
    requires w != [] && 0 < cap
    ensures 1 <= |r| <= cap
  {
    if |CharBy(enc, w)| > cap then [QUESTION] else CharBy(enc, w)
  }

  /** What is written into a buffer of `cap` bytes. */
  function FillBy(enc: Encoder, w: seq<Unit>, cap: nat): (r: seq<Byte>)
    ensures |r| <= cap
  {
    if w == [] || cap == 0 then []
    else
      var out := PutBy(enc, w, cap);
      out + FillBy(enc, w[First16(w).used..], cap - |out|)
  }

  /** How much of the string that uses up. */
  function TakenBy(enc: Encoder, w: seq<Unit>, cap: nat): (n: nat)
    ensures n <= |w|
  {
    if w == [] || cap == 0 then 0
    else
      var used := First16(w).used;
      used + TakenBy(enc, w[used..], cap - |PutBy(enc, w, cap)|)
  }

  /** For every encoder, a buffer takes the whole conversion exactly if the counted size fits. */
  lemma {:induction false} WholeBy(enc: Encoder, w: seq<Unit>, cap: nat)
    ensures FillBy(enc, w, cap) == ConvertBy(enc, w) && TakenBy(enc, w, cap) == |w| <==> |ConvertBy(enc, w)| <= cap
    decreases |w|
  {
    hide CharBy;
    if w != [] && cap > 0 {
      var out, rest := PutBy(enc, w, cap), w[First16(w).used..];
      WholeBy(enc, rest, cap - |out|);
      if |CharBy(enc, w)| <= cap {
        SamePrefix(out, FillBy(enc, rest, cap - |out|), ConvertBy(enc, rest));
      }
    }
  }

  /** UTF-8 is such an encoder, and converting with it is the conversion above. */
  lemma {:induction false} ConvertUtf8(w: seq<Unit>)
    ensures ConvertBy(Utf32ToUtf8, w) == ToUtf8(w) && Short(Utf32ToUtf8)
    decreases |w|
  {
    hide Utf32ToUtf8, ToUtf8, Utf16ToUtf32;
    ShortUtf8();
    if w == [] {
      NoWide();
    } else {
      ToUtf8Step(w);
      ConvertUtf8(w[First16(w).used..]);
    }
  }

  lemma ShortUtf8()
    ensures Short(Utf32ToUtf8) && Utf32ToUtf8(QUESTION) == [QUESTION]
  {
  }

  lemma ToUtf8Length(w: seq<Unit>)
    ensures w != [] ==> |ToUtf8(w)| >= 1
  {
    if w != [] {
      ToUtf8Step(w);
    }
  }

  lemma NoWide()
    ensures ToUtf8([]) == [] && ToUtf16([]) == []
  {
  }

  function Put16(u: nat, cap: nat): (r: seq<Unit>)
    requires 0 < cap
    ensures 1 <= |r| <= cap
  {
    var e := Utf32ToUtf16(u);
    if e == [] || |e| > cap then [QUESTION] else e
  }

  function Fill16(b: seq<Byte>, cap: nat): (r: seq<Unit>)
    ensures |r| <= cap
  {
    if b == [] || cap == 0 then []
    else
      var c := First8(b);
      var out := Put16(c.code, cap);
      out + Fill16(b[c.used..], cap - |out|)
  }

  lemma {:induction false} Fill16Whole(b: seq<Byte>, cap: nat)
    ensures Fill16(b, cap) == ToUtf16(b) <==> |ToUtf16(b)| <= cap
    decreases |b|
  {
    hide Utf32ToUtf16, ToUtf16;
    if b == [] {
      NoWide();
    } else {
      ToUtf16Step(b);
      if cap > 0 {
        var c := First8(b);
        var out := Put16(c.code, cap);
        Fill16Whole(b[c.used..], cap - |out|);
        if |Utf32ToUtf16(c.code)| <= cap {
          SamePrefix(out, Fill16(b[c.used..], cap - |out|), ToUtf16(b[c.used..]));
        }
      }
    }
  }
}
