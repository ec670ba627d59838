/** The binary format of dialog templates (classic and extended), as the font replacer reads it. */
module DlgFormat {
  type Word = w: int | 0 <= w < 0x1_0000

  datatype Parsed<+T> = Bad | Good(value: T, size: nat)

  /** A menu, a window class or a control title: nothing, a resource ordinal, or a string. */
  datatype Name = NoName | Ordinal(value: Word) | Text(text: seq<Word>)

  datatype Item = Item(head: seq<Word>, cls: Name, title: Name, extra: seq<Word>)

  /** `attributes` holds weight, italic and charset in the extended format, else nothing. */
  datatype Font = Font(points: Word, attributes: seq<Word>, face: seq<Word>)

  /** Everything in front of the font. */
  datatype Header = Header(head: seq<Word>, menu: Name, cls: Name, title: seq<Word>)

  datatype Template = Template(header: Header, font: Font, items: seq<Item>)

  /** Where things are, in words: the sizes of the fixed parts, the low word of the style and the
      item count in the header, and the number of words in front of the face name. */
  datatype Layout = Layout(head: nat, item: nat, style: nat, count: nat, font: nat)

  const CLASSIC := Layout(9, 9, 0, 4, 1)
  const EXTENDED := Layout(13, 12, 6, 8, 3)
  const DS_SETFONT := 0x40

  function LayoutOf(first: Word): (r: Layout)
    ensures r == CLASSIC || r == EXTENDED
  {
    if first == 1 then EXTENDED else CLASSIC
  }

  predicate HasFont(lay: Layout, head: seq<Word>)
    requires lay.style < |head|
  {
    head[lay.style] / DS_SETFONT % 2 == 1
  }

  function Even(n: nat): (r: nat)
    ensures r % 2 == 0 && n <= r <= n + 1
  {
    n + n % 2
  }

  /** A zero-terminated string; its size counts the terminator. */
  function Sz(ws: seq<Word>): (r: Parsed<seq<Word>>)
    ensures r.Good? ==> r.size == |r.value| + 1 <= |ws| && ws[..r.size] == r.value + [0] && 0 !in r.value
  {
    if ws == [] then Bad
    else if ws[0] == 0 then Good([], 1)
    else
      match Sz(ws[1..])
      case Bad => Bad
      case Good(s, n) =>
        assert ws[..n + 1] == [ws[0]] + ws[1..][..n];
        Good([ws[0]] + s, n + 1)
  }

  function NameOf(ws: seq<Word>): (r: Parsed<Name>)
    ensures r.Good? ==> 1 <= r.size <= |ws|
  {
    if ws == [] then Bad
    else if ws[0] == 0 then Good(NoName, 1)
    else if ws[0] == 0xffff then if |ws| >= 2 then Good(Ordinal(ws[1]), 2) else Bad
    else
      match Sz(ws)
      case Bad => Bad
      case Good(s, n) => Good(Text(s), n)
  }

  /** A control up to its creation data; the size is the place of the word that counts them. */
  function FrontOf(headLen: nat, ws: seq<Word>): (r: Parsed<Item>)
    ensures r.Good? ==> 1 <= r.size < |ws| && r.value.extra == []
  {
    if |ws| < headLen then Bad else
    match NameOf(ws[headLen..])
    case Bad => Bad
    case Good(cls, c) =>
      match NameOf(ws[headLen + c..])
      case Bad => Bad
      case Good(title, t) =>
        if headLen + c + t < |ws| then Good(Item(ws[..headLen], cls, title, []), headLen + c + t) else Bad
  }

  /** A control as the code reads it, with as many words of creation data as counted; the size does
      not include the padding behind it. */
  function ItemOf(headLen: nat, ws: seq<Word>): (r: Parsed<Item>)
    ensures r.Good? ==> 1 <= r.size <= |ws|
  {
    match FrontOf(headLen, ws)
    case Bad => Bad
    case Good(front, p) =>
      if p + 1 + ws[p] <= |ws| then Good(front.(extra := ws[p + 1..p + 1 + ws[p]]), p + 1 + ws[p]) else Bad
  }

  /** `n` controls from word `p` on, each at an even distance from the one before; the size is the
      even position behind the last. */
  function ItemsAt(headLen: nat, ws: seq<Word>, p: nat, n: nat): (r: Parsed<seq<Item>>)
    ensures r.Good? ==> |r.value| == n && p <= r.size
    decreases n
  {
    if n == 0 then Good([], p)
    else if p > |ws| then Bad
    else
      match ItemOf(headLen, ws[p..])
      case Bad => Bad
      case Good(it, k) =>
        match ItemsAt(headLen, ws, p + Even(k), n - 1)
        case Bad => Bad
        case Good(its, e) => Good([it] + its, e)
  }

  function HeaderOf(lay: Layout, ws: seq<Word>): (r: Parsed<Header>)
    ensures r.Good? ==> lay.head < r.size <= |ws| && r.value.head == ws[..lay.head]
  {
    if |ws| < lay.head then Bad else
    match NameOf(ws[lay.head..])
    case Bad => Bad
    case Good(menu, m) =>
      match NameOf(ws[lay.head + m..])
      case Bad => Bad
      case Good(cls, c) =>
        match Sz(ws[lay.head + m + c..])
        case Bad => Bad
        case Good(title, t) => Good(Header(ws[..lay.head], menu, cls, title), lay.head + m + c + t)
  }

  function FontOf(lay: Layout, ws: seq<Word>): (r: Parsed<Font>)
    ensures r.Good? ==> r.size == lay.font + |r.value.face| + 1 <= |ws| && |r.value.attributes| == lay.font - 1
    ensures r.Good? ==> 0 !in r.value.face
    ensures r.Good? ==> ws[..r.size] == FontWords(r.value)
  {
    if |ws| < lay.font || lay.font < 1 then Bad else
    match Sz(ws[lay.font..])
    case Bad => Bad
    case Good(face, f) =>
      assert ws[..lay.font + f] == ws[..lay.font] + ws[lay.font..][..f];
      Good(Font(ws[0], ws[1..lay.font], face), lay.font + f)
  }

  function FontWords(f: Font): seq<Word> {
    [f.points] + f.attributes + (f.face + [0])
  }

  /** The header and the font of a template whose style says that it names one. */
  function OpeningOf(ws: seq<Word>): (r: Parsed<(Header, Font)>)
    ensures r.Good? ==>
              ws != [] && var lay := LayoutOf(ws[0]);
              lay.count < |r.value.0.head| && HeaderOf(lay, ws).Good? && HasFont(lay, r.value.0.head)
  {
    if ws == [] then Bad
    else
      var lay := LayoutOf(ws[0]);
      match HeaderOf(lay, ws)
      case Bad => Bad
      case Good(header, h) =>
        if !HasFont(lay, header.head) then Bad
        else
          match FontOf(lay, ws[h..])
          case Bad => Bad
          case Good(font, f) => Good((header, font), h + f)
  }

  /** The template as the code reads it. */
  function TemplateOf(ws: seq<Word>): Parsed<Template> {
    match OpeningOf(ws)
    case Bad => Bad
    case Good((header, font), f) =>
      var lay := LayoutOf(ws[0]);
      match ItemsAt(lay.item, ws, Even(f), header.head[lay.count])
      case Bad => Bad
      case Good(items, e) => Good(Template(header, font, items), e)
  }

  // ----- Parsing looks only at what it covers

  lemma {:induction false} SzLocal(ws: seq<Word>, n: nat, ws': seq<Word>)
    requires Sz(ws).Good? && Sz(ws).size == n && n <= |ws'| && ws[..n] == ws'[..n]
    ensures Sz(ws') == Sz(ws)
  {
    assert ws[..n][0] == ws[0] && ws'[..n][0] == ws'[0];
    if ws[0] != 0 {
      assert ws[1..][..n - 1] == ws[..n][1..] && ws'[1..][..n - 1] == ws'[..n][1..];
      SzLocal(ws[1..], n - 1, ws'[1..]);
    }
  }

  lemma SzOf(s: seq<Word>, rest: seq<Word>)
    requires 0 !in s
    ensures Sz(s + [0] + rest) == Good(s, |s| + 1)
  {
    var ws := s + [0] + rest;
    if s == [] {
      assert ws[0] == 0;
    } else {
      assert s[0] in s;
      assert ws[1..] == s[1..] + [0] + rest;
      SzOf(s[1..], rest);
      assert [s[0]] + s[1..] == s;
    }
  }

  lemma NameLocal(ws: seq<Word>, n: nat, ws': seq<Word>)
    requires NameOf(ws).Good? && NameOf(ws).size == n && n <= |ws'| && ws[..n] == ws'[..n]
    ensures NameOf(ws') == NameOf(ws)
  {
    assert ws[..n][0] == ws[0] && ws'[..n][0] == ws'[0];
    if ws[0] == 0xffff {
      assert ws[..n][1] == ws[1] && ws'[..n][1] == ws'[1];
    } else if ws[0] != 0 {
      SzLocal(ws, n, ws');
    }
  }

  /** Agreement of two word sequences on a range, for the part from `a` on. */
  lemma Shifted(ws: seq<Word>, ws': seq<Word>, n: nat, a: nat, b: nat)
    requires a + b <= n <= |ws| && n <= |ws'| && ws[..n] == ws'[..n]
    ensures ws[a..][..b] == ws'[a..][..b]
  {
    assert ws[a..][..b] == ws[..n][a..a + b] && ws'[a..][..b] == ws'[..n][a..a + b];
  }

  lemma ItemLocal(headLen: nat, ws: seq<Word>, n: nat, ws': seq<Word>)
    requires ItemOf(headLen, ws).Good? && ItemOf(headLen, ws).size == n && n <= |ws'| && ws[..n] == ws'[..n]
    ensures ItemOf(headLen, ws') == ItemOf(headLen, ws)
  {
    hide NameOf;
    var c := NameOf(ws[headLen..]).size;
    var t := NameOf(ws[headLen + c..]).size;
    var p := headLen + c + t;
    Shifted(ws, ws', n, headLen, c);
    NameLocal(ws[headLen..], c, ws'[headLen..]);
    Shifted(ws, ws', n, headLen + c, t);
    NameLocal(ws[headLen + c..], t, ws'[headLen + c..]);
    assert ws[..n][p] == ws[p] && ws'[..n][p] == ws'[p];
    assert ws[..n][..headLen] == ws[..headLen] && ws'[..n][..headLen] == ws'[..headLen];
    assert ws[..n][p + 1..n] == ws[p + 1..n] && ws'[..n][p + 1..n] == ws'[p + 1..n];
  }

  lemma HeaderLocal(lay: Layout, ws: seq<Word>, n: nat, ws': seq<Word>)
    requires HeaderOf(lay, ws).Good? && HeaderOf(lay, ws).size == n && n <= |ws'| && ws[..n] == ws'[..n]
    ensures HeaderOf(lay, ws') == HeaderOf(lay, ws)
  {
    hide NameOf, Sz;
    var m := NameOf(ws[lay.head..]).size;
    var c := NameOf(ws[lay.head + m..]).size;
    var t := Sz(ws[lay.head + m + c..]).size;
    Shifted(ws, ws', n, lay.head, m);
    NameLocal(ws[lay.head..], m, ws'[lay.head..]);
    Shifted(ws, ws', n, lay.head + m, c);
    NameLocal(ws[lay.head + m..], c, ws'[lay.head + m..]);
    Shifted(ws, ws', n, lay.head + m + c, t);
    SzLocal(ws[lay.head + m + c..], t, ws'[lay.head + m + c..]);
    assert ws[..n][..lay.head] == ws[..lay.head] && ws'[..n][..lay.head] == ws'[..lay.head];
  }

  lemma FontWritten(lay: Layout, f: Font, rest: seq<Word>)
    requires |f.attributes| == lay.font - 1 && 0 !in f.face
    ensures FontOf(lay, FontWords(f) + rest) == Good(f, lay.font + |f.face| + 1)
  {
    hide Sz;
    var ws := FontWords(f) + rest;
    assert ws[lay.font..] == f.face + [0] + rest;
    SzOf(f.face, rest);
    assert ws[1..lay.font] == f.attributes;
  }

  /** Controls parsed so far stay parsed when words behind them change. */
  lemma {:induction false} ItemsLocal(headLen: nat, ws: seq<Word>, ws': seq<Word>, p: nat, n: nat)
    requires ItemsAt(headLen, ws, p, n).Good? && |ws| == |ws'|
    requires forall k :: p <= k < ItemsAt(headLen, ws, p, n).size && k < |ws| ==> ws[k] == ws'[k]
    ensures ItemsAt(headLen, ws', p, n) == ItemsAt(headLen, ws, p, n)
    decreases n
  {
    hide ItemOf;
    if n > 0 {
      var k := ItemOf(headLen, ws[p..]).size;
      assert ws[p..][..k] == ws'[p..][..k];
      ItemLocal(headLen, ws[p..], k, ws'[p..]);
      ItemsLocal(headLen, ws, ws', p + Even(k), n - 1);
    }
  }

  lemma {:induction false} ItemsAppend(headLen: nat, ws: seq<Word>, p: nat, n: nat)
    requires ItemsAt(headLen, ws, p, n).Good?
    requires var e := ItemsAt(headLen, ws, p, n).size; e <= |ws| && ItemOf(headLen, ws[e..]).Good?
    ensures var e := ItemsAt(headLen, ws, p, n).size;
            var it := ItemOf(headLen, ws[e..]);
            ItemsAt(headLen, ws, p, n + 1) == Good(ItemsAt(headLen, ws, p, n).value + [it.value], e + Even(it.size))
    decreases n
  {
    hide ItemOf;
    var e := ItemsAt(headLen, ws, p, n).size;
    var it := ItemOf(headLen, ws[e..]);
    if n == 0 {
      assert ItemsAt(headLen, ws, p + Even(it.size), 0) == Good([], p + Even(it.size));
      assert [it.value] + [] == [] + [it.value];
    } else {
      var first := ItemOf(headLen, ws[p..]);
      ItemsAppend(headLen, ws, p + Even(first.size), n - 1);
      var tail := ItemsAt(headLen, ws, p + Even(first.size), n - 1).value;
      assert [first.value] + (tail + [it.value]) == ([first.value] + tail) + [it.value];
    }
  }

  /** The first controls of a list that parses, parse. */
  lemma {:induction false} ItemsPrefix(headLen: nat, ws: seq<Word>, p: nat, n: nat, i: nat)
    requires ItemsAt(headLen, ws, p, n).Good? && i < n
    ensures ItemsAt(headLen, ws, p, i).Good?
    ensures var e := ItemsAt(headLen, ws, p, i).size;
            && e <= |ws| && ItemOf(headLen, ws[e..]).Good?
            && ItemsAt(headLen, ws, p, i).value == ItemsAt(headLen, ws, p, n).value[..i]
    ensures var e := ItemsAt(headLen, ws, p, i).size; var it := ItemOf(headLen, ws[e..]);
            it.value == ItemsAt(headLen, ws, p, n).value[i] && e + Even(it.size) <= ItemsAt(headLen, ws, p, n).size
    decreases i
  {
    hide ItemOf;
    if i > 0 {
      ItemsPrefix(headLen, ws, p + Even(ItemOf(headLen, ws[p..]).size), n - 1, i - 1);
    }
  }
}
