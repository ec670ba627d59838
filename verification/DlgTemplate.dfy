/** Copying a dialog template with its font replaced, into a buffer whose size is forecast. */
module DlgTemplate {
  import opened DlgFormat
  import opened DlgBytes
  import DlgWriter

  const LF_FACESIZE := 32

  /** The part of LOGFONT that is used. */
  datatype Logfont = Logfont(height: int, weight: int, italic: int, charset: int, face: seq<Word>)

  /** The words that setting `lf` writes. */
  function FontFrom(lay: Layout, lf: Logfont): (f: Font)
    requires lay == CLASSIC || lay == EXTENDED
    requires 0 <= lf.italic < 0x100 && 0 <= lf.charset < 0x100
    ensures |f.attributes| == lay.font - 1 && f.face == lf.face
  {
    Font(lf.height % 0x1_0000,
         if lay == EXTENDED then [lf.weight % 0x1_0000, lf.italic + lf.charset * 0x100] else [], lf.face)
  }

  /** What is read from a template's font. */
  function LogfontOf(lay: Layout, f: Font): (lf: Logfont)
    requires |f.attributes| == lay.font - 1 && (lay == CLASSIC || lay == EXTENDED)
    ensures 0 <= lf.italic < 0x100 && 0 <= lf.charset < 0x100 && lf.face == f.face
  {
    if lay == EXTENDED
    then Logfont(f.points, f.attributes[0], f.attributes[1] % 0x100, f.attributes[1] / 0x100, f.face)
    else Logfont(f.points, 0, 0, 0, f.face)
  }

  /** The font a template ends up with: its weight and slant are kept. */
  function Replaced(lay: Layout, f: Font, face: seq<Word>, height: int, charset: int): Font
    requires |f.attributes| == lay.font - 1 && (lay == CLASSIC || lay == EXTENDED) && 0 <= charset < 0x100
  {
    Font(height % 0x1_0000,
         if lay == EXTENDED then [f.attributes[0], f.attributes[1] % 0x100 + charset * 0x100] else [], face)
  }

  lemma ReplacedIs(lay: Layout, f: Font, face: seq<Word>, height: int, charset: int)
    requires |f.attributes| == lay.font - 1 && (lay == CLASSIC || lay == EXTENDED) && 0 <= charset < 0x100
    ensures FontFrom(lay, LogfontOf(lay, f).(face := face, height := height, charset := charset))
         == Replaced(lay, f, face, height, charset)
  {
  }

  /** Putting back a font's own name, size and charset changes nothing. */
  lemma ReplacedSame(lay: Layout, f: Font)
    requires |f.attributes| == lay.font - 1 && (lay == CLASSIC || lay == EXTENDED)
    ensures Replaced(lay, f, f.face, f.points, LogfontOf(lay, f).charset) == f
  {
    if lay == EXTENDED {
      assert f.attributes == [f.attributes[0], f.attributes[1]];
    } else {
      assert f.attributes == [];
    }
  }

  // ----- Copying; a null destination only measures

  /** `n` words of `src` are at `dp`. */
  ghost predicate Copied(dest: array?<Word>, dp: nat, src: seq<Word>, n: nat)
    reads dest
  {
    dest != null ==> dp + n <= dest.Length && n <= |src| && forall k :: 0 <= k < n ==> dest[dp + k] == src[k]
  }

  /** memcpy */
  method CopyWords(src: seq<Word>, n: nat, dest: array?<Word>, dp: nat)
    requires n <= |src| && (dest != null ==> dp + n <= dest.Length)
    modifies if dest == null then {} else {dest}
    ensures Copied(dest, dp, src, n)
    ensures dest != null ==> forall k :: 0 <= k < dest.Length && !(dp <= k < dp + n) ==> dest[k] == old(dest[k])
  {
    if dest != null {
      forall k | 0 <= k < n {
        dest[dp + k] := src[k];
      }
    }
  }

  method CopySz(src: seq<Word>, dest: array?<Word>, dp: nat) returns (size: nat)
    requires Sz(src).Good? && (dest != null ==> dp + Sz(src).size <= dest.Length)
    modifies if dest == null then {} else {dest}
    ensures size == Sz(src).size && Copied(dest, dp, src, size)
    ensures dest != null ==> forall k :: 0 <= k < dest.Length && !(dp <= k < dp + size) ==> dest[k] == old(dest[k])
  {
    ghost var n := Sz(src).size;
    assert src[..n][n - 1] == 0 && forall k :: 0 <= k < n - 1 ==> src[..n][k] == Sz(src).value[k];
    size := 0;
    var more := true;
    while more
      invariant 0 <= size <= n && more == (size < n)
      invariant Copied(dest, dp, src, size)
      invariant dest != null ==> forall k :: 0 <= k < dest.Length && !(dp <= k < dp + size) ==> dest[k] == old(dest[k])
      decreases n - size
    {
      if dest != null {
        dest[dp + size] := src[size];
      }
      assert src[size] == src[..n][size];
      more := src[size] != 0;
      size := size + 1;
    }
  }

  method CopySzOrOrd(src: seq<Word>, dest: array?<Word>, dp: nat) returns (size: nat)
    requires NameOf(src).Good? && (dest != null ==> dp + NameOf(src).size <= dest.Length)
    modifies if dest == null then {} else {dest}
    ensures size == NameOf(src).size && Copied(dest, dp, src, size)
    ensures dest != null ==> forall k :: 0 <= k < dest.Length && !(dp <= k < dp + size) ==> dest[k] == old(dest[k])
  {
    if src[0] == 0 {
      if dest != null {
        dest[dp] := src[0];
      }
      size := 1;
    } else if src[0] == 0xffff {
      if dest != null {
        dest[dp] := src[0];
        dest[dp + 1] := src[1];
      }
      size := 2;
    } else {
      size := CopySz(src, dest, dp);
    }
  }

  lemma CopiedMore(dest: array?<Word>, dp: nat, src: seq<Word>, a: nat, b: nat)
    requires Copied(dest, dp, src, a) && a <= |src| && Copied(dest, dp + a, src[a..], b)
    ensures Copied(dest, dp, src, a + b)
  {
    if dest != null {
      forall k | 0 <= k < a + b
        ensures dest[dp + k] == src[k]
      {
        if k >= a {
          assert src[a..][k - a] == src[k];
          assert dest[dp + a + (k - a)] == src[a..][k - a];
        }
      }
    }
  }

  method CopyDlgItem(lay: Layout, src: seq<Word>, dest: array?<Word>, dp: nat) returns (size: nat)
    requires ItemOf(lay.item, src).Good? && (dest != null ==> dp + ItemOf(lay.item, src).size <= dest.Length)
    modifies if dest == null then {} else {dest}
    ensures size == Even(ItemOf(lay.item, src).size) && Copied(dest, dp, src, ItemOf(lay.item, src).size)
    ensures dest != null ==> forall k :: 0 <= k < dest.Length && !(dp <= k < dp + size) ==> dest[k] == old(dest[k])
  {
    hide NameOf, Sz;
    size := lay.item;
    CopyWords(src, size, dest, dp);
    var t := CopySzOrOrd(src[size..], dest, dp + size);
    CopiedMore(dest, dp, src, size, t);
    size := size + t;
    t := CopySzOrOrd(src[size..], dest, dp + size);
    CopiedMore(dest, dp, src, size, t);
    size := size + t;
    var extraCount := src[size];
    CopyWords(src[size..], 1, dest, dp + size);
    CopiedMore(dest, dp, src, size, 1);
    size := size + 1;
    if extraCount != 0 {
      CopyWords(src[size..], extraCount, dest, dp + size);
      CopiedMore(dest, dp, src, size, extraCount);
      size := size + extraCount;
    }
    size := Even(size);
  }

  /** Writing one more control behind those already there. */
  lemma ItemWritten(headLen: nat, before: seq<Word>, dest: array<Word>, dp: nat, i: nat, s: seq<Word>)
    requires ItemsAt(headLen, before, dp, i).Good? && |before| == dest.Length && ItemOf(headLen, s).Good?
    requires var q := ItemsAt(headLen, before, dp, i).size;
             && Copied(dest, q, s, ItemOf(headLen, s).size)
             && forall k :: 0 <= k < q && k < |before| ==> dest[k] == before[k]
    ensures var was, it := ItemsAt(headLen, before, dp, i), ItemOf(headLen, s);
            ItemsAt(headLen, dest[..], dp, i + 1) == Good(was.value + [it.value], was.size + Even(it.size))
  {
    hide ItemOf, ItemsAt;
    var q, n := ItemsAt(headLen, before, dp, i).size, ItemOf(headLen, s).size;
    var after := dest[..];
    ItemsLocal(headLen, before, after, dp, i);
    assert after[q..][..n] == s[..n];
    ItemLocal(headLen, s, n, after[q..]);
    ItemsAppend(headLen, after, dp, i);
  }

  /** The loop over the controls: those at `dp` parse to those at `sp`. */
  method CopyItems(lay: Layout, src: seq<Word>, sp: nat, n: nat, dest: array?<Word>, dp: nat) returns (size: nat)
    requires ItemsAt(lay.item, src, sp, n).Good?
    requires dest != null ==> dp + (ItemsAt(lay.item, src, sp, n).size - sp) <= dest.Length
    modifies if dest == null then {} else {dest}
    ensures size == ItemsAt(lay.item, src, sp, n).size - sp
    ensures dest != null ==> ItemsAt(lay.item, dest[..], dp, n) == Good(ItemsAt(lay.item, src, sp, n).value, dp + size)
    ensures dest != null ==> forall k :: 0 <= k < dp && k < dest.Length ==> dest[k] == old(dest[k])
  {
    hide ItemOf, ItemsAt;
    size := 0;
    ghost var items := ItemsAt(lay.item, src, sp, n).value;
    NoItems(lay.item, src, sp);
    if dest != null {
      NoItems(lay.item, dest[..], dp);
    }
    for i := 0 to n
      invariant ItemsAt(lay.item, src, sp, i) == Good(items[..i], sp + size)
      invariant sp + size <= ItemsAt(lay.item, src, sp, n).size && |items| == n
      invariant dest != null ==> ItemsAt(lay.item, dest[..], dp, i) == Good(items[..i], dp + size)
      invariant dest != null ==> forall k :: 0 <= k < dp && k < dest.Length ==> dest[k] == old(dest[k])
    {
      ItemsPrefix(lay.item, src, sp, n, i);
      ItemsAppend(lay.item, src, sp, i);
      assert items[..i + 1] == items[..i] + [items[i]];
      ghost var before := if dest == null then [] else dest[..];
      var t := CopyDlgItem(lay, src[sp + size..], dest, dp + size);
      if dest != null {
        ItemWritten(lay.item, before, dest, dp, i, src[sp + size..]);
      }
      size := size + t;
    }
    assert items[..n] == items;
  }

  lemma NoItems(headLen: nat, ws: seq<Word>, p: nat)
    ensures ItemsAt(headLen, ws, p, 0) == Good([], p)
  {
  }

  // ----- Whole templates

  /** A template that names a font whose face name a LOGFONT can hold. */
  predicate Readable(src: seq<Word>) {
    TemplateOf(src).Good? && |TemplateOf(src).value.font.face| < LF_FACESIZE
  }

  ghost function LayoutAt(src: seq<Word>): Layout
    requires src != []
  {
    LayoutOf(src[0])
  }

  lemma Parts(src: seq<Word>)
    requires TemplateOf(src).Good?
    ensures src != []
    ensures var lay, t := LayoutAt(src), TemplateOf(src);
            var header := HeaderOf(lay, src);
            && header.Good? && header.value == t.value.header && HasFont(lay, t.value.header.head)
            && FontOf(lay, src[header.size..]) == Good(t.value.font, lay.font + |t.value.font.face| + 1)
            && ItemsAt(lay.item, src, Even(header.size + lay.font + |t.value.font.face| + 1),
                       t.value.header.head[lay.count])
               == Good(t.value.items, t.size)
  {
    hide ItemsAt;
  }

  /** Header, font and controls in place make a template. */
  lemma Assembled(src: seq<Word>, d: seq<Word>, font: Font, e: nat)
    requires TemplateOf(src).Good?
    requires var lay, t, h := LayoutAt(src), TemplateOf(src).value, HeaderOf(LayoutAt(src), src).size;
             var f := lay.font + |font.face| + 1;
             && |font.attributes| == lay.font - 1 && 0 !in font.face && h + f <= |d|
             && d[..h] == src[..h] && d[h..h + f] == FontWords(font)
             && ItemsAt(lay.item, d, Even(h + f), t.header.head[lay.count]) == Good(t.items, e)
    ensures TemplateOf(d) == Good(TemplateOf(src).value.(font := font), e)
  {
    hide ItemsAt, HeaderOf, FontOf, TemplateOf, FontWords, HasFont;
    Parts(src);
    var lay, t, h := LayoutAt(src), TemplateOf(src).value, HeaderOf(LayoutAt(src), src).size;
    var f := lay.font + |font.face| + 1;
    HeaderLocal(lay, src, h, d);
    HeaderFirst(lay, src);
    assert d[0] == d[..h][0] == src[0];
    assert d[h..] == FontWords(font) + d[h + f..];
    FontWritten(lay, font, d[h + f..]);
    Composed(d, h, t.header, font, t.items, e);
  }

  lemma Composed(ws: seq<Word>, h: nat, header: Header, font: Font, items: seq<Item>, e: nat)
    requires ws != [] && HeaderOf(LayoutAt(ws), ws) == Good(header, h) && h <= |ws|
    requires HasFont(LayoutAt(ws), header.head) && FontOf(LayoutAt(ws), ws[h..]).Good?
    requires FontOf(LayoutAt(ws), ws[h..]).value == font
    requires ItemsAt(LayoutAt(ws).item, ws, Even(h + LayoutAt(ws).font + |font.face| + 1),
                     header.head[LayoutAt(ws).count]) == Good(items, e)
    ensures TemplateOf(ws) == Good(Template(header, font, items), e)
  {
    hide ItemsAt, HasFont, FontWords, HeaderOf, FontOf;
  }

  lemma HeaderFirst(lay: Layout, src: seq<Word>)
    requires HeaderOf(lay, src).Good?
    ensures 0 < HeaderOf(lay, src).size <= |src|
  {
  }

  method CopyHeader(lay: Layout, src: seq<Word>, dest: array?<Word>) returns (size: nat)
    requires HeaderOf(lay, src).Good? && (dest != null ==> HeaderOf(lay, src).size <= dest.Length)
    modifies if dest == null then {} else {dest}
    ensures size == HeaderOf(lay, src).size && Copied(dest, 0, src, size)
  {
    hide NameOf, Sz;
    size := lay.head;
    CopyWords(src, size, dest, 0);
    var t := CopySzOrOrd(src[size..], dest, size);
    CopiedMore(dest, 0, src, size, t);
    size := size + t;
    t := CopySzOrOrd(src[size..], dest, size);
    CopiedMore(dest, 0, src, size, t);
    size := size + t;
    t := CopySz(src[size..], dest, size);
    CopiedMore(dest, 0, src, size, t);
    size := size + t;
  }

  /** Without a destination: the size in bytes, and the font. */
  method MeasureTemplate(src: seq<Word>) returns (bytes: nat, lf: Logfont)
    requires Readable(src)
    ensures bytes == 2 * TemplateOf(src).size && bytes % 4 == 0
    ensures src != [] && lf == LogfontOf(LayoutAt(src), TemplateOf(src).value.font)
  {
    hide ItemsAt, HeaderOf, TemplateOf;
    Parts(src);
    var lay := LayoutOf(src[0]);
    ghost var font := TemplateOf(src).value.font;
    var size := CopyHeader(lay, src, null);
    FontParts(lay, src[size..]);
    var rest := src[size..];
    var t := CopySz(rest[lay.font..], null, 0);
    lf := LogfontOf(lay, Font(rest[0], rest[1..lay.font], rest[lay.font..][..t - 1]));
    size := Even(size + t + lay.font);
    HeadCount(lay, src);
    var n := CopyItems(lay, src, size, src[lay.count], null, 0);
    ItemsEven(lay.item, src, size, src[lay.count]);
    bytes := 2 * (size + n);
  }

  lemma FontParts(lay: Layout, ws: seq<Word>)
    requires FontOf(lay, ws).Good?
    ensures var f := FontOf(lay, ws).value;
            && 1 <= lay.font <= |ws| && Sz(ws[lay.font..]) == Good(f.face, |f.face| + 1)
            && f == Font(ws[0], ws[1..lay.font], ws[lay.font..][..|f.face|])
  {
    var s := ws[lay.font..];
    var f := FontOf(lay, ws).value;
    assert s[..|f.face| + 1][..|f.face|] == f.face;
  }

  lemma HeadCount(lay: Layout, src: seq<Word>)
    requires lay == CLASSIC || lay == EXTENDED
    requires HeaderOf(lay, src).Good?
    ensures lay.head <= |src| && src[lay.count] == HeaderOf(lay, src).value.head[lay.count]
  {
  }

  lemma {:induction false} ItemsEven(headLen: nat, ws: seq<Word>, p: nat, n: nat)
    requires ItemsAt(headLen, ws, p, n).Good? && p % 2 == 0
    ensures ItemsAt(headLen, ws, p, n).size % 2 == 0
    decreases n
  {
    hide ItemOf;
    if n > 0 {
      ItemsEven(headLen, ws, p + Even(ItemOf(headLen, ws[p..]).size), n - 1);
    }
  }

  /** The size in words of `src` with another face name: both parts are rounded up to even. */
  ghost function NewEnd(src: seq<Word>, face: seq<Word>): nat
    requires TemplateOf(src).Good?
  {
    Parts(src);
    var lay, t, h := LayoutAt(src), TemplateOf(src), HeaderOf(LayoutAt(src), src).size;
    Even(h + lay.font + |face| + 1) + (t.size - Even(h + lay.font + |t.value.font.face| + 1))
  }

  /** With a destination: header and controls as in the source, and the font given. */
  method CopyTemplate(src: seq<Word>, dest: array<Word>, font: Font) returns (bytes: nat)
    requires TemplateOf(src).Good? && src != []
    requires |font.attributes| == LayoutAt(src).font - 1 && 0 !in font.face
    requires NewEnd(src, font.face) <= dest.Length
    modifies dest
    ensures bytes == 2 * NewEnd(src, font.face)
    ensures TemplateOf(dest[..]) == Good(TemplateOf(src).value.(font := font), NewEnd(src, font.face))
  {
    hide ItemsAt, HeaderOf, TemplateOf, FontOf, FontWords, Sz, HasFont;
    Parts(src);
    var lay := LayoutOf(src[0]);
    var h := CopyHeader(lay, src, dest);
    FontParts(lay, src[h..]);
    // the replacement, and past the old one in the source
    var dsize := CopyFont(font, dest, h);
    var t := CopySz(src[h..][lay.font..], null, 0);
    var sp, dp := Even(h + lay.font + t), Even(dsize);
    HeadCount(lay, src);
    ghost var before := dest[..];
    var n := CopyItems(lay, src, sp, src[lay.count], dest, dp);
    ghost var d := dest[..];
    assert d[..h] == src[..h];
    assert d[h..dsize] == before[h..dsize] == FontWords(font);
    Assembled(src, d, font, dp + n);
    bytes := 2 * (dp + n);
  }

  method CopyFont(font: Font, dest: array<Word>, dp: nat) returns (end: nat)
    requires 0 !in font.face && dp + |font.attributes| + |font.face| + 2 <= dest.Length
    modifies dest
    ensures end == dp + |font.attributes| + |font.face| + 2 && dest[dp..end] == FontWords(font)
    ensures forall k :: 0 <= k < dp ==> dest[k] == old(dest[k])
  {
    hide Sz;
    dest[dp] := font.points;
    CopyWords(font.attributes, |font.attributes|, dest, dp + 1);
    end := dp + 1 + |font.attributes|;
    SzOf(font.face, []);
    assert font.face + [0] + [] == font.face + [0];
    var t := CopySz(font.face + [0], dest, end);
    end := end + t;
  }

  /** A new template with the face, size and charset given, or a plain copy if the face is empty.
      It parses to the old one with only the font changed, and it never exceeds the space that is
      allocated for it, although the length of the name shifts the alignment of what follows. The
      same holds of its parse with creation data counted in bytes, if the code finds every control of
      the source. */
  method GetDlgTemplate(src: seq<Word>, face: seq<Word>, height: int, charset: int)
    returns (dest: array<Word>, prevSize: nat, newSize: nat)
    requires Readable(src)
    requires 0 !in face && |face| < LF_FACESIZE && 0 <= charset < 0x100
    ensures fresh(dest) && newSize <= 2 * dest.Length && newSize % 2 == 0
    ensures src != [] && prevSize == 2 * TemplateOf(src).size
    ensures var t := TemplateOf(src).value;
            TemplateOf(dest[..]) == Good(
              if face == [] then t else t.(font := Replaced(LayoutAt(src), t.font, face, height, charset)), newSize / 2)
    ensures face == [] ==> newSize == prevSize
    ensures Found(src) ==>
              var d := DialogOf(src).value;
              && DialogOf(dest[..]).Good? && DialogOf(dest[..]).size <= newSize / 2
              && DialogOf(dest[..]).value ==
                   if face == [] then d else d.(font := Replaced(LayoutAt(src), d.font, face, height, charset))
    ensures Sound(src) ==> DialogOf(dest[..]).size == newSize / 2
  {
    hide ItemsAt, TemplateOf, HeaderOf, FontOf, NewEnd, Replaced, FontFrom, LogfontOf, Found, DialogOf;
    hide AllTight;
    var lf;
    Parts(src);
    NewEndEven(src, face);
    prevSize, lf := MeasureTemplate(src);
    var lay := LayoutOf(src[0]);
    ghost var t := TemplateOf(src).value;
    if face == [] {
      dest := new Word[prevSize / 2];
      // the font words of the source are copied as they are
      NewEndSame(src);
      newSize := CopyTemplate(src, dest, FontAt(lay, src));
      assert t.(font := t.font) == t;
    } else {
      var nameDiff := (|face| - |lf.face|) * 2 + 3;
      var forecast := (prevSize + nameDiff + 3) / 4 * 4;
      Forecast(src, face);
      dest := new Word[forecast / 2];
      lf := lf.(charset := charset, height := height, face := face);
      newSize := CopyTemplate(src, dest, FontFrom(lay, lf));
      ReplacedIs(lay, t.font, face, height, charset);
    }
    if Found(src) {
      FoundCopy(src, dest[..]);
    }
  }

  /** A copy that the code parses to the same controls has them in the sense of the format, too. */
  lemma FoundCopy(src: seq<Word>, copy: seq<Word>)
    requires Found(src) && TemplateOf(src).Good? && TemplateOf(copy).Good?
    requires TemplateOf(copy).value.items == TemplateOf(src).value.items
    ensures DialogOf(src).Good? && DialogOf(src).value == AsDialog(TemplateOf(src).value)
    ensures DialogOf(copy).Good? && DialogOf(copy).value == AsDialog(TemplateOf(copy).value)
    ensures DialogOf(copy).size <= TemplateOf(copy).size
    ensures Sound(src) ==> DialogOf(copy).size == TemplateOf(copy).size
  {
    hide TemplateOf, DialogOf, AllTight, Tight, LastFits;
    FoundDialog(src);
    assert AllTightButLast(DialogOf(src).value.controls);
    RetracedTemplate(copy);
  }

  /** Every template that its own format can parse, with a face that fits and little enough creation
      data, can be given another font. */
  lemma FoundReadable(src: seq<Word>)
    requires Found(src) && |DialogOf(src).value.font.face| < LF_FACESIZE
    ensures Readable(src)
  {
    hide TemplateOf, DialogOf, InPlace;
    FoundDialog(src);
  }

  lemma NewEndSame(src: seq<Word>)
    requires TemplateOf(src).Good?
    ensures NewEnd(src, TemplateOf(src).value.font.face) == TemplateOf(src).size
  {
    hide ItemsAt, TemplateOf, HeaderOf, FontOf;
    Parts(src);
  }

  lemma NewEndEven(src: seq<Word>, face: seq<Word>)
    requires TemplateOf(src).Good?
    ensures 2 * NewEnd(src, face) / 2 == NewEnd(src, face)
  {
  }

  function FontAt(lay: Layout, src: seq<Word>): (f: Font)
    requires HeaderOf(lay, src).Good? && FontOf(lay, src[HeaderOf(lay, src).size..]).Good?
    ensures f == FontOf(lay, src[HeaderOf(lay, src).size..]).value
  {
    FontOf(lay, src[HeaderOf(lay, src).size..]).value
  }

  lemma Forecast(src: seq<Word>, face: seq<Word>)
    requires TemplateOf(src).Good?
    ensures var t := TemplateOf(src);
            var forecast := (2 * t.size + (|face| - |t.value.font.face|) * 2 + 3 + 3) / 4 * 4;
            2 * NewEnd(src, face) <= forecast && forecast % 4 == 0
  {
    hide ItemsAt, TemplateOf, HeaderOf, FontOf, HasFont;
    Parts(src);
  }

  // ----- Templates given by their fields

  /** Size, charset and face are replaced; weight and slant, and everything else, stay. */
  function WithFont(p: DlgWriter.Page, face: seq<Word>, height: int, charset: int): DlgWriter.Page {
    p.(font := p.font.(points := height % 0x1_0000, charset := charset, face := face))
  }

  lemma FontReplaced(extended: bool, f: DlgWriter.Type, face: seq<Word>, height: int, charset: int)
    requires DlgWriter.TypeOk(f) && 0 !in face && 0 <= charset < 0x100
    ensures Replaced(if extended then EXTENDED else CLASSIC, DlgWriter.AsFont(extended, f), face, height, charset) ==
            DlgWriter.AsFont(extended, f.(points := height % 0x1_0000, charset := charset, face := face))
  {
    if extended {
      assert (f.italic + f.charset * 0x100) % 0x100 == f.italic;
    }
  }

  lemma SameFace(extended: bool, f: DlgWriter.Type)
    requires DlgWriter.TypeOk(f)
    ensures DlgWriter.AsFont(extended, f).face == f.face
  {
  }

  /** Giving another font to a template that has been laid out field by field is giving its page
      another font. */
  method Rewrite(p: DlgWriter.Page, face: seq<Word>, height: int, charset: int) returns (dest: array<Word>)
    requires DlgWriter.PageOk(p) && |p.font.face| < LF_FACESIZE
    requires face != [] && 0 !in face && |face| < LF_FACESIZE && 0 <= charset < 0x100
    ensures TemplateOf(dest[..]).Good?
    ensures TemplateOf(dest[..]).value == DlgWriter.Meant(WithFont(p, face, height, charset))
  {
    hide TemplateOf, DialogOf, Found, Sound, Replaced, DlgWriter.PageWords, DlgWriter.AsFont, DlgWriter.AsItems;
    DlgWriter.PageBack(p);
    FontReplaced(p.extended, p.font, face, height, charset);
    SameFace(p.extended, p.font);
    var src := DlgWriter.PageWords(p);
    PageLayout(p);
    var prev, size;
    dest, prev, size := GetDlgTemplate(src, face, height, charset);
  }

  lemma PageLayout(p: DlgWriter.Page)
    requires DlgWriter.PageOk(p)
    ensures var ws := DlgWriter.PageWords(p);
            ws != [] && LayoutAt(ws) == if p.extended then EXTENDED else CLASSIC
  {
    hide HeaderOf, HasFont;
    var o := DlgWriter.OpeningWords(p);
    var t := DlgWriter.TypeWords(p.extended, p.font);
    var rest := DlgWriter.PageWords(p)[|o|..];
    assert DlgWriter.PageWords(p)[..|o|] == o;
    assert DlgWriter.PageWords(p) == o + rest;
    DlgWriter.HeaderBack(p, rest);
  }
}
