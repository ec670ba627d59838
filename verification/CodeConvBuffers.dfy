/** The conversion loops over caller-supplied buffers, and the wrappers that count first and then
    convert into a buffer of the counted size. */
module CodeConvBuffers {
  import opened Bytes
  import opened CodeConv
  import opened CodeConvStrings

  /** The string a caller means: `len` units, or up to and including the first NUL if `len` is 0. */
  function Meant<T(==)>(s: seq<T>, nul: T, len: nat): (r: seq<T>)
    requires len == 0 ==> nul in s
    requires len <= |s|
    ensures r <= s && r != [] && (len > 0 ==> |r| == len)
  {
    if len > 0 then s[..len] else UpTo(s, nul)
  }

  function UpTo<T(==)>(s: seq<T>, nul: T): (r: seq<T>)
    requires nul in s
    ensures r <= s && r != [] && r[|r| - 1] == nul && nul !in r[..|r| - 1]
  {
    if s[0] == nul then [nul] else [s[0]] + UpTo(s[1..], nul)
  }

  method Length<T(==)>(s: seq<T>, nul: T, len: nat) returns (n: nat)
    requires len == 0 ==> nul in s
    requires len <= |s|
    ensures n <= |s| && s[..n] == Meant(s, nul, len)
  {
    if len > 0 {
      return len;
    }
    n := 0;
    while s[n] != nul
      invariant 0 <= n < |s| && nul !in s[..n]
      decreases |s| - n
    {
      n := n + 1;
    }
    n := n + 1;
    UpToIs(s, nul, n);
  }

  lemma {:induction false} UpToIs<T>(s: seq<T>, nul: T, n: nat)
    requires 0 < n <= |s| && s[n - 1] == nul && nul !in s[..n - 1]
    ensures UpTo(s, nul) == s[..n]
  {
    if n > 1 {
      assert s[0] in s[..n - 1];
      assert s[1..][..n - 2] == s[..n - 1][1..];
      UpToIs(s[1..], nul, n - 1);
    }
  }

  /** The first `n` elements of an output buffer; nothing if the caller only counts. */
  ghost function Written<T>(buf: array?<T>, n: nat): seq<T>
    requires buf != null ==> n <= buf.Length
    reads buf
  {
    if buf == null then [] else buf[..n]
  }

  /** Writes one converted character, unless the caller only counts. */
  method Emit<T>(buf: array?<T>, at: nat, data: seq<T>)
    requires buf != null ==> at + |data| <= buf.Length
    modifies if buf == null then {} else {buf}
    ensures buf != null ==> Written(buf, at + |data|) == old(Written(buf, at)) + data
    ensures buf != null ==> forall k :: at + |data| <= k < buf.Length ==> buf[k] == old(buf[k])
  {
    if buf != null {
      forall k | 0 <= k < |data| {
        buf[at + k] := data[k];
      }
    }
  }

  lemma NothingWritten<T>(buf: array?<T>)
    ensures Written(buf, 0) == []
  {
  }

  /** One character of the loop in terms of what the whole string gives. */
  lemma StepBy(enc: Encoder, w: seq<Unit>, room: nat)
    requires w != [] && 0 < room
    ensures var used := First16(w).used; var data := PutBy(enc, w, room);
            && (|CharBy(enc, w)| <= room ==> |ConvertBy(enc, w)| == |data| + |ConvertBy(enc, w[used..])|)
            && FillBy(enc, w, room) == data + FillBy(enc, w[used..], room - |data|)
            && TakenBy(enc, w, room) == used + TakenBy(enc, w[used..], room - |data|)
  {
    hide CharBy, First16;
  }

  lemma EndBy(enc: Encoder, w: seq<Unit>, room: nat)
    requires w == [] || room == 0
    ensures FillBy(enc, w, room) == [] && TakenBy(enc, w, room) == 0 && (w == [] ==> ConvertBy(enc, w) == [])
  {
  }

  lemma CharFits(enc: Encoder, w: seq<Unit>)
    requires w != [] && Short(enc)
    ensures |CharBy(enc, w)| <= 4
  {
  }

  /** The conversion of the next character, as the loop does it. */
  method ConvertChar(enc: Encoder, w: seq<Unit>, room: nat) returns (used: nat, data: seq<Byte>)
    requires w != [] && 0 < room
    ensures used == First16(w).used && data == PutBy(enc, w, room)
  {
    var c := Utf16ToUtf32(w);
    if c.used == 0 {
      return 1, [QUESTION];
    }
    used, data := c.used, enc(c.code);
    if data == [] || |data| > room {
      data := [QUESTION];
    }
  }

  /** UTF-16 to the encoder's bytes. With a null buffer only the length is computed. Otherwise the
      buffer is filled as `FillBy` says, never past `cap`. */
  method WideCharToMB(w: seq<Unit>, len: nat, mb: array?<Byte>, cap: nat, enc: Encoder) returns (wIn: nat, out: nat)
    requires len <= |w| && (len == 0 ==> 0 in w) && Short(enc)
    requires mb != null ==> cap <= mb.Length
    modifies if mb == null then {} else {mb}
    ensures mb == null ==> out == |ConvertBy(enc, Meant(w, 0, len))| && wIn == |Meant(w, 0, len)|
    ensures mb != null ==> out <= cap && Written(mb, out) == FillBy(enc, Meant(w, 0, len), cap)
    ensures mb != null ==> wIn == TakenBy(enc, Meant(w, 0, len), cap)
    ensures mb != null ==> forall k :: out <= k < mb.Length ==> mb[k] == old(mb[k])
  {
    hide ConvertBy, FillBy, TakenBy, PutBy, CharBy, First16, Written, Meant, Short;
    var n := Length(w, 0, len);
    ghost var src := w[..n];
    // one character is taken to fit when nothing is written
    var room: nat := if mb == null then 4 else cap;
    wIn, out := 0, 0;
    NothingWritten(mb);
    assert src[0..] == src;
    while room > 0 && wIn < n
      invariant wIn <= n && src == w[..n] == Meant(w, 0, len)
      invariant mb == null ==> room == 4 && out + |ConvertBy(enc, src[wIn..])| == |ConvertBy(enc, src)|
      invariant mb != null ==> out + room == cap <= mb.Length
      invariant mb != null ==> Written(mb, out) + FillBy(enc, src[wIn..], room) == FillBy(enc, src, cap)
      invariant mb != null ==> wIn + TakenBy(enc, src[wIn..], room) == TakenBy(enc, src, cap)
      invariant mb != null ==> forall k :: out <= k < mb.Length ==> mb[k] == old(mb[k])
      decreases n - wIn
    {
      ghost var rest, before := src[wIn..], Written(mb, out);
      assert rest == w[wIn..n];
      StepBy(enc, rest, room);
      CharFits(enc, rest);
      var used, data := ConvertChar(enc, w[wIn..n], room);
      assert rest[used..] == src[wIn + used..];
      Emit(mb, out, data);
      wIn, out := wIn + used, out + |data|;
      if mb != null {
        room := room - |data|;
        Assoc(before, data, FillBy(enc, src[wIn..], room));
      }
    }
    EndBy(enc, src[wIn..], room);
    assert mb != null ==> Written(mb, out) + [] == Written(mb, out);
  }

  method WideCharToUtf8(w: seq<Unit>, len: nat, mb: array?<Byte>, cap: nat) returns (wIn: nat, out: nat)
    requires len <= |w| && (len == 0 ==> 0 in w)
    requires mb != null ==> cap <= mb.Length
    modifies if mb == null then {} else {mb}
    ensures mb == null ==> out == |ToUtf8(Meant(w, 0, len))| && wIn == |Meant(w, 0, len)|
    ensures mb != null ==> out <= cap && Written(mb, out) == FillBy(Utf32ToUtf8, Meant(w, 0, len), cap)
    ensures mb != null ==> wIn == TakenBy(Utf32ToUtf8, Meant(w, 0, len), cap)
    ensures mb != null && cap >= |ToUtf8(Meant(w, 0, len))| ==>
              Written(mb, out) == ToUtf8(Meant(w, 0, len)) && wIn == |Meant(w, 0, len)|
    ensures mb != null ==> forall k :: out <= k < mb.Length ==> mb[k] == old(mb[k])
  {
    hide ConvertBy, FillBy, TakenBy, Written, Meant, Short, ToUtf8;
    ConvertUtf8(Meant(w, 0, len));
    WholeBy(Utf32ToUtf8, Meant(w, 0, len), cap);
    wIn, out := WideCharToMB(w, len, mb, cap, Utf32ToUtf8);
  }

  lemma Step16(b: seq<Byte>, room: nat)
    requires b != [] && 0 < room
    ensures var c := First8(b); var data := Put16(c.code, room);
            && (2 <= room ==> |ToUtf16(b)| == |data| + |ToUtf16(b[c.used..])|)
            && Fill16(b, room) == data + Fill16(b[c.used..], room - |data|)
  {
    hide ToUtf16;
    ToUtf16Step(b);
  }

  lemma End16(b: seq<Byte>, room: nat)
    requires b == [] || room == 0
    ensures Fill16(b, room) == [] && (b == [] ==> ToUtf16(b) == [])
  {
    NoWide();
  }

  method Convert16(b: seq<Byte>, room: nat) returns (used: nat, data: seq<Unit>)
    requires b != [] && 0 < room
    ensures used == First8(b).used && data == Put16(First8(b).code, room)
  {
    var code;
    if b[0] == 0 {
      used, code := 1, 0;
    } else {
      var c := Utf8ToUtf32(b);
      used, code := c.used, c.code;
      if used == 0 {
        used, code := 1, QUESTION;
      }
    }
    if code < 0x1_0000 {
      data := [code];
    } else if code <= MAX_CODE {
      if room >= 2 {
        data := Utf32ToUtf16(code);
      } else {
        data := [QUESTION];
      }
    } else {
      data := [QUESTION];
    }
  }

  /** UTF-8 to UTF-16, in the same way; `auto` stands for a negative length. */
  method Utf8ToWideChar(b: seq<Byte>, len: nat, auto: bool, ws: array?<Unit>, cap: nat) returns (out: nat)
    requires len <= |b| && (auto ==> 0 in b)
    requires ws != null ==> cap <= ws.Length
    modifies if ws == null then {} else {ws}
    ensures var src := if auto then Meant(b, 0, 0) else b[..len];
            if ws == null then out == |ToUtf16(src)| else out <= cap && Written(ws, out) == Fill16(src, cap)
    ensures ws != null ==> forall k :: out <= k < ws.Length ==> ws[k] == old(ws[k])
  {
    hide ToUtf16, Fill16, Put16, First8, Written, Meant;
    var n := len;
    if auto {
      n := Length(b, 0, 0);
    }
    ghost var src := b[..n];
    var room: nat := if ws == null then 2 else cap;
    var i := 0;
    out := 0;
    NothingWritten(ws);
    assert src[0..] == src;
    while room > 0 && i < n
      invariant 0 <= i <= n && src == b[..n]
      invariant ws == null ==> room == 2 && out + |ToUtf16(src[i..])| == |ToUtf16(src)|
      invariant ws != null ==> out + room == cap <= ws.Length
      invariant ws != null ==> Written(ws, out) + Fill16(src[i..], room) == Fill16(src, cap)
      invariant ws != null ==> forall k :: out <= k < ws.Length ==> ws[k] == old(ws[k])
      decreases n - i
    {
      ghost var rest, before := src[i..], Written(ws, out);
      assert rest == b[i..n];
      Step16(rest, room);
      var used, data := Convert16(b[i..n], room);
      assert rest[used..] == src[i + used..];
      Emit(ws, out, data);
      i, out := i + used, out + |data|;
      if ws != null {
        room := room - |data|;
        Assoc(before, data, Fill16(src[i..], room));
      }
    }
    End16(src[i..], room);
    assert ws != null ==> Written(ws, out) + [] == Written(ws, out);
  }

  /** UTF-16 to UTF-32: one code for every character. */
  method WideCharToUtf32(w: seq<Unit>, len: nat, us: array?<nat>, cap: nat) returns (wIn: nat, out: nat)
    requires len <= |w| && (len == 0 ==> 0 in w)
    requires us != null ==> cap <= us.Length
    modifies if us == null then {} else {us}
    ensures var codes := Codes16(Meant(w, 0, len));
            if us == null then out == |codes| && wIn == |Meant(w, 0, len)|
            else out == (if cap < |codes| then cap else |codes|) && Written(us, out) == codes[..out]
    ensures us != null ==> forall k :: out <= k < us.Length ==> us[k] == old(us[k])
  {
    hide First16, Written, Meant, Codes16;
    var n := Length(w, 0, len);
    ghost var src := w[..n];
    ghost var codes := Codes16(src);
    wIn, out := 0, 0;
    NothingWritten(us);
    assert src[0..] == src && codes[0..] == codes;
    while (us == null || out < cap) && wIn < n
      invariant wIn <= n && src == w[..n] && codes == Codes16(src)
      invariant out <= |codes| && Codes16(src[wIn..]) == codes[out..]
      invariant us != null ==> out <= cap && Written(us, out) == codes[..out]
      invariant us != null ==> forall k :: out <= k < us.Length ==> us[k] == old(us[k])
      decreases n - wIn
    {
      ghost var rest := src[wIn..];
      assert rest == w[wIn..n];
      CodesStep(rest);
      var c := Utf16ToUtf32(w[wIn..n]);
      var used, code := c.used, c.code;
      FirstIs(rest);
      if used == 0 {
        used, code := 1, QUESTION;
      }
      assert rest[used..] == src[wIn + used..];
      assert codes[out..][1..] == codes[out + 1..] && codes[out..][0] == codes[out];
      Emit(us, out, [code]);
      assert codes[..out + 1] == codes[..out] + [codes[out]];
      wIn, out := wIn + used, out + 1;
    }
    CodesNone(src[wIn..]);
  }

  lemma CodesStep(w: seq<Unit>)
    requires w != []
    ensures |Codes16(w)| > 0 && Codes16(w)[0] == First16(w).code && Codes16(w)[1..] == Codes16(w[First16(w).used..])
  {
  }

  lemma CodesNone(w: seq<Unit>)
    ensures w == [] <==> Codes16(w) == []
  {
  }

  lemma FirstIs(w: seq<Unit>)
    requires w != []
    ensures First16(w) == if Utf16ToUtf32(w).used == 0 then Char(1, QUESTION) else Utf16ToUtf32(w)
  {
  }

  // ----- Counting first

  /** The caller gets the whole conversion, in a buffer of exactly its length. */
  method WideCharToMultiByte(w: seq<Unit>, len: nat, enc: Encoder) returns (mb: array<Byte>)
    requires len <= |w| && (len == 0 ==> 0 in w) && Short(enc)
    ensures mb[..] == ConvertBy(enc, Meant(w, 0, len)) && fresh(mb)
  {
    hide ConvertBy, FillBy, TakenBy;
    var wl, size := WideCharToMB(w, len, null, 0, enc);
    mb := new Byte[size];
    var out;
    wl, out := WideCharToMB(w, len, mb, size, enc);
    WholeBy(enc, Meant(w, 0, len), size);
    assert mb[..] == mb[..out];
  }

  method MultiByteToWideChar(b: seq<Byte>, len: nat) returns (ws: array<Unit>)
    requires len <= |b| && (len == 0 ==> 0 in b)
    ensures ws[..] == ToUtf16(Meant(b, 0, len)) && fresh(ws)
  {
    hide ToUtf16, Fill16;
    var n := Length(b, 0, len);
    var size := Utf8ToWideChar(b, n, false, null, 0);
    ws := new Unit[size];
    var out := Utf8ToWideChar(b, n, false, ws, size);
    Fill16Whole(Meant(b, 0, len), size);
    assert ws[..] == ws[..out];
  }

  /** Through UTF-8 and back, on the buffers: the same string exactly if it is well-formed. */
  method ThereAndBack(w: seq<Unit>) returns (back: array<Unit>)
    requires w != []
    ensures back[..] == w <==> WellFormed16(w)
  {
    hide ToUtf8, ToUtf16, WellFormed16, ConvertBy, Short;
    assert Meant(w, 0, |w|) == w;
    ConvertUtf8(w);
    var mb := WideCharToMultiByte(w, |w|, Utf32ToUtf8);
    ToUtf8Length(w);
    assert |mb[..]| > 0;
    back := MultiByteToWideChar(mb[..], |mb[..]|);
    assert Meant(mb[..], 0, |mb[..]|) == mb[..];
    RoundTrip16(w);
  }
}
