/** Dialog templates written field by field, as a resource compiler lays them out, and read back. */
module DlgWriter {
  import opened DlgFormat

  /** A double word, lowest word first. */
  datatype Long = Long(low: Word, high: Word)

  /** The fields in front of the names, but for the number of controls; `help` is only in the extended
      format. */
  datatype Start = Start(help: Long, exStyle: Long, style: Long, x: Word, y: Word, cx: Word, cy: Word)

  /** A control, with its own fields. */
  datatype Entry = Entry(start: Start, id: Long, cls: Name, title: Name, extra: seq<Word>)

  function LongWords(l: Long): seq<Word> {
    [l.low, l.high]
  }

  function HeadWords(extended: bool, s: Start, count: Word): seq<Word> {
    if extended
    then [1, 0xffff] + LongWords(s.help) + LongWords(s.exStyle) + LongWords(s.style) + [count, s.x, s.y, s.cx, s.cy]
    else LongWords(s.style) + LongWords(s.exStyle) + [count, s.x, s.y, s.cx, s.cy]
  }

  function EntryHead(extended: bool, e: Entry): (r: seq<Word>)
    ensures |r| == if extended then 12 else 9
  {
    var s := e.start;
    if extended
    then LongWords(s.help) + LongWords(s.exStyle) + LongWords(s.style) + [s.x, s.y, s.cx, s.cy] + LongWords(e.id)
    else LongWords(s.style) + LongWords(s.exStyle) + [s.x, s.y, s.cx, s.cy, e.id.low]
  }

  predicate NameOk(n: Name) {
    n.Text? ==> n.text != [] && n.text[0] != 0xffff && 0 !in n.text
  }

  function NameWords(n: Name): seq<Word> {
    match n
    case NoName => [0]
    case Ordinal(v) => [0xffff, v]
    case Text(s) => s + [0]
  }

  /** The font: its size, in the extended format weight, italic and charset, and the face. */
  datatype Type = Type(points: Word, weight: Word, italic: int, charset: int, face: seq<Word>)

  predicate TypeOk(f: Type) {
    0 <= f.italic < 0x100 && 0 <= f.charset < 0x100 && 0 !in f.face
  }

  function TypeWords(extended: bool, f: Type): seq<Word>
    requires TypeOk(f)
  {
    [f.points] + (if extended then [f.weight, f.italic + f.charset * 0x100] else []) + f.face + [0]
  }

  function Padded(ws: seq<Word>): (r: seq<Word>)
    ensures |r| == Even(|ws|) && r[..|ws|] == ws
  {
    if |ws| % 2 == 0 then ws else ws + [0]
  }

  predicate EntryOk(e: Entry) {
    NameOk(e.cls) && NameOk(e.title) && |e.extra| < 0x1_0000
  }

  function EntryWords(extended: bool, e: Entry): seq<Word>
    requires EntryOk(e)
  {
    EntryHead(extended, e) + NameWords(e.cls) + NameWords(e.title) + [|e.extra|] + e.extra
  }

  function EntriesWords(extended: bool, es: seq<Entry>): seq<Word>
    requires forall e :: e in es ==> EntryOk(e)
  {
    if es == [] then [] else Padded(EntryWords(extended, es[0])) + EntriesWords(extended, es[1..])
  }

  function AsItem(extended: bool, e: Entry): Item {
    Item(EntryHead(extended, e), e.cls, e.title, e.extra)
  }

  function AsItems(extended: bool, es: seq<Entry>): (r: seq<Item>)
    ensures |r| == |es|
  {
    if es == [] then [] else [AsItem(extended, es[0])] + AsItems(extended, es[1..])
  }

  function AsFont(extended: bool, f: Type): Font
    requires TypeOk(f)
  {
    Font(f.points, if extended then [f.weight, f.italic + f.charset * 0x100] else [], f.face)
  }

  datatype Page = Page(extended: bool, start: Start, menu: Name, cls: Name, title: seq<Word>, font: Type,
                       entries: seq<Entry>)

  /** The style says that there is a font; a classic template does not look like an extended one. */
  predicate PageOk(p: Page) {
    && NameOk(p.menu) && NameOk(p.cls) && 0 !in p.title && TypeOk(p.font)
    && |p.entries| < 0x1_0000 && (forall e :: e in p.entries ==> EntryOk(e))
    && p.start.style.low / 0x40 % 2 == 1 && (!p.extended ==> p.start.style.low != 1)
  }

  function OpeningWords(p: Page): seq<Word>
    requires PageOk(p)
  {
    HeadWords(p.extended, p.start, |p.entries|) + NameWords(p.menu) + NameWords(p.cls) + (p.title + [0])
  }

  function PageWords(p: Page): seq<Word>
    requires PageOk(p)
  {
    Padded(OpeningWords(p) + TypeWords(p.extended, p.font)) + EntriesWords(p.extended, p.entries)
  }

  /** What a page means. */
  function Meant(p: Page): Template
    requires PageOk(p)
  {
    Template(Header(HeadWords(p.extended, p.start, |p.entries|), p.menu, p.cls, p.title),
             AsFont(p.extended, p.font), AsItems(p.extended, p.entries))
  }

  lemma NameBack(n: Name, rest: seq<Word>)
    requires NameOk(n)
    ensures NameOf(NameWords(n) + rest) == Good(n, |NameWords(n)|)
  {
    if n.Text? {
      assert n.text[0] in n.text;
      SzOf(n.text, rest);
    }
  }

  lemma FrontBack(a: seq<Word>, b: seq<Word>, c: seq<Word>, d: seq<Word>, cls: Name, title: Name)
    requires a != [] && d != []
    requires NameOf(b + (c + d)) == Good(cls, |b|) && NameOf(c + d) == Good(title, |c|)
    ensures var ws := a + (b + (c + d)); FrontOf(|a|, ws) == Good(Item(a, cls, title, []), |a| + |b| + |c|)
  {
    hide NameOf;
    var ws := a + (b + (c + d));
    assert ws[..|a|] == a && ws[|a|..] == b + (c + d) && ws[|a| + |b|..] == c + d;
  }

  lemma ItemBack(headLen: nat, front: seq<Word>, it: Item, extra: seq<Word>, rest: seq<Word>)
    requires |extra| < 0x1_0000
    requires FrontOf(headLen, front + ([|extra|] + extra + rest)) == Good(it, |front|)
    ensures ItemOf(headLen, front + ([|extra|] + extra + rest)) ==
            Good(it.(extra := extra), |front| + 1 + |extra|)
  {
    hide FrontOf;
    var ws := front + ([|extra|] + extra + rest);
    assert ws[|front|] == |extra| && ws[|front| + 1..|front| + 1 + |extra|] == extra;
  }

  lemma EntryBack(extended: bool, e: Entry, rest: seq<Word>)
    requires EntryOk(e)
    ensures var h := if extended then 12 else 9;
            ItemOf(h, EntryWords(extended, e) + rest) == Good(AsItem(extended, e), |EntryWords(extended, e)|)
  {
    hide NameOf, NameWords, EntryHead, FrontOf, ItemOf;
    var a, b, c := EntryHead(extended, e), NameWords(e.cls), NameWords(e.title);
    var d := [|e.extra|] + e.extra + rest;
    NameBack(e.cls, c + d);
    NameBack(e.title, d);
    FrontBack(a, b, c, d, e.cls, e.title);
    assert a + (b + (c + d)) == (a + b + c) + d;
    ItemBack(|a|, a + b + c, Item(a, e.cls, e.title, []), e.extra, rest);
    assert EntryWords(extended, e) + rest == (a + b + c) + d;
  }

  lemma ItemsFirst(headLen: nat, front: seq<Word>, tail: seq<Word>, n: nat, it: Item, k: nat, its: seq<Item>, e: nat)
    requires n > 0 && ItemOf(headLen, tail) == Good(it, k)
    requires ItemsAt(headLen, front + tail, |front| + Even(k), n - 1) == Good(its, e)
    ensures ItemsAt(headLen, front + tail, |front|, n) == Good([it] + its, e)
  {
    hide ItemOf;
    assert (front + tail)[|front|..] == tail;
  }

  lemma Assoc(x: seq<Word>, y: seq<Word>, z: seq<Word>)
    ensures x + (y + z) == (x + y) + z
  {
  }

  lemma PadIs(ws: seq<Word>) returns (pad: seq<Word>)
    ensures Padded(ws) == ws + pad && |ws| + |pad| == Even(|ws|)
  {
    pad := if |ws| % 2 == 0 then [] else [0];
    assert ws + [] == ws;
  }

  lemma {:induction false} EntriesBack(extended: bool, front: seq<Word>, es: seq<Entry>)
    requires |front| % 2 == 0 && forall e :: e in es ==> EntryOk(e)
    ensures var h := if extended then 12 else 9;
            var ws := front + EntriesWords(extended, es);
            ItemsAt(h, ws, |front|, |es|) == Good(AsItems(extended, es), |ws|)
    decreases |es|
  {
    hide ItemOf, EntryWords, AsItem, EntryOk, Padded;
    if es == [] {
      assert EntriesWords(extended, es) == [];
    } else {
      hide ItemsAt;
      var h := if extended then 12 else 9;
      var words, rest := EntryWords(extended, es[0]), EntriesWords(extended, es[1..]);
      var pad := PadIs(words);
      EntryBack(extended, es[0], pad + rest);
      Assoc(words, pad, rest);
      EntriesBack(extended, front + (words + pad), es[1..]);
      Assoc(front, words + pad, rest);
      ItemsFirst(h, front, words + (pad + rest), |es|, AsItem(extended, es[0]), |words|,
                 AsItems(extended, es[1..]), |front| + |words| + |pad| + |rest|);
    }
  }

  lemma HeadFields(extended: bool, s: Start, count: Word)
    ensures var lay := if extended then EXTENDED else CLASSIC;
            var a := HeadWords(extended, s, count);
            && |a| == lay.head && a[lay.count] == count && a[lay.style] == s.style.low
            && a[0] == if extended then 1 else s.style.low
  {
  }

  lemma HeaderParts(lay: Layout, a: seq<Word>, b: seq<Word>, c: seq<Word>, d: seq<Word>, rest: seq<Word>,
                    menu: Name, cls: Name, title: seq<Word>)
    requires |a| == lay.head && |d| == |title| + 1
    requires NameOf(b + (c + (d + rest))) == Good(menu, |b|) && NameOf(c + (d + rest)) == Good(cls, |c|)
    requires Sz(d + rest) == Good(title, |d|)
    ensures HeaderOf(lay, a + (b + (c + (d + rest)))) == Good(Header(a, menu, cls, title), |a| + |b| + |c| + |d|)
  {
    hide NameOf, Sz;
    var ws := a + (b + (c + (d + rest)));
    assert ws[..|a|] == a && ws[|a|..] == b + (c + (d + rest));
    assert ws[|a| + |b|..] == c + (d + rest);
    assert ws[|a| + |b| + |c|..] == d + rest;
  }

  lemma HeaderBack(p: Page, rest: seq<Word>)
    requires PageOk(p)
    ensures var lay := if p.extended then EXTENDED else CLASSIC;
            var ws := OpeningWords(p) + rest;
            && ws != [] && LayoutOf(ws[0]) == lay
            && HeaderOf(lay, ws) == Good(Meant(p).header, |OpeningWords(p)|)
            && HasFont(lay, Meant(p).header.head) && Meant(p).header.head[lay.count] == |p.entries|
  {
    hide NameOf, NameWords, Sz, AsFont, AsItems, NameOk, EntryOk, HeadWords, HeaderOf;
    HeadFields(p.extended, p.start, |p.entries|);
    var lay := if p.extended then EXTENDED else CLASSIC;
    var a, b, c, d := HeadWords(p.extended, p.start, |p.entries|), NameWords(p.menu), NameWords(p.cls), p.title + [0];
    var ws := OpeningWords(p) + rest;
    NameBack(p.menu, c + (d + rest));
    NameBack(p.cls, d + rest);
    SzOf(p.title, rest);
    HeaderParts(lay, a, b, c, d, rest, p.menu, p.cls, p.title);
    Assoc(c, d, rest);
    Assoc(b, c, d + rest);
    Assoc(a, b + c, d + rest);
    Assoc(a + (b + c), d, rest);
    Assoc(a, b, c);
    assert ws == a + (b + (c + (d + rest)));
  }

  lemma FontBack(p: Page, rest: seq<Word>)
    requires PageOk(p)
    ensures var lay := if p.extended then EXTENDED else CLASSIC;
            var t := TypeWords(p.extended, p.font);
            FontOf(lay, t + rest) == Good(AsFont(p.extended, p.font), |t|)
  {
    hide FontOf;
    var lay := if p.extended then EXTENDED else CLASSIC;
    var f := AsFont(p.extended, p.font);
    assert FontWords(f) == TypeWords(p.extended, p.font);
    FontWritten(lay, f, rest);
  }

  /** Whatever is laid out in either format is read back, all fields in their places. */
  lemma PageBack(p: Page)
    requires PageOk(p)
    ensures TemplateOf(PageWords(p)) == Good(Meant(p), |PageWords(p)|)
  {
    hide ItemsAt, HeaderOf, FontOf, OpeningWords, TypeWords, EntriesWords, HasFont, AsItems, HeadWords;
    var o, t := OpeningWords(p), TypeWords(p.extended, p.font);
    var front, es := Padded(o + t), EntriesWords(p.extended, p.entries);
    var pad := front[|o + t|..];
    assert front == o + t + pad;
    var ws := PageWords(p);
    assert ws == o + (t + (pad + es));
    HeaderBack(p, t + (pad + es));
    FontBack(p, pad + es);
    assert ws[|o|..] == t + (pad + es);
    EntriesBack(p.extended, front, p.entries);
  }
}
