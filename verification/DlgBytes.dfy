/** Dialog templates as their format defines them, with creation data counted in bytes, and for which
    of them the code, which takes the count as one of words, finds every control in its place. */
module DlgBytes {
  import opened DlgFormat

  /** A control: what comes in front of the creation data, their length in bytes, and the words
      that hold them. */
  datatype Control = Control(front: Item, count: nat, data: seq<Word>)

  datatype Dialog = Dialog(header: Header, font: Font, controls: seq<Control>)

  /** How many words hold `count` bytes. */
  function WordsFor(count: nat): (n: nat)
    ensures n <= count && count <= 2 * n <= count + 1
  {
    (count + 1) / 2
  }

  function ControlOf(headLen: nat, ws: seq<Word>): (r: Parsed<Control>)
    ensures r.Good? ==> 1 <= r.size <= |ws|
  {
    match FrontOf(headLen, ws)
    case Bad => Bad
    case Good(front, p) =>
      var n := WordsFor(ws[p]);
      if p + 1 + n <= |ws| then Good(Control(front, ws[p], ws[p + 1..p + 1 + n]), p + 1 + n) else Bad
  }

  function ControlsAt(headLen: nat, ws: seq<Word>, p: nat, n: nat): (r: Parsed<seq<Control>>)
    ensures r.Good? ==> |r.value| == n && p <= r.size
    decreases n
  {
    if n == 0 then Good([], p)
    else if p > |ws| then Bad
    else
      match ControlOf(headLen, ws[p..])
      case Bad => Bad
      case Good(c, k) =>
        match ControlsAt(headLen, ws, p + Even(k), n - 1)
        case Bad => Bad
        case Good(cs, e) => Good([c] + cs, e)
  }

  /** The template, parsed as its format defines it. */
  function DialogOf(ws: seq<Word>): Parsed<Dialog> {
    match OpeningOf(ws)
    case Bad => Bad
    case Good((header, font), f) =>
      var lay := LayoutOf(ws[0]);
      match ControlsAt(lay.item, ws, Even(f), header.head[lay.count])
      case Bad => Bad
      case Good(controls, e) => Good(Dialog(header, font, controls), e)
  }

  // ----- What the code reads, compared with the format

  /** A control as the code reads it, looked at through the format. */
  function AsControl(it: Item): Control {
    Control(it.(extra := []), |it.extra|, it.extra[..WordsFor(|it.extra|)])
  }

  function AsControls(its: seq<Item>): (r: seq<Control>)
    ensures |r| == |its| && forall i :: 0 <= i < |its| ==> r[i] == AsControl(its[i])
  {
    if its == [] then [] else [AsControl(its[0])] + AsControls(its[1..])
  }

  function AsDialog(t: Template): Dialog {
    Dialog(t.header, t.font, AsControls(t.items))
  }

  function NameSize(n: Name): nat {
    match n
    case NoName => 1
    case Ordinal(_) => 2
    case Text(s) => |s| + 1
  }

  /** The size of a control in words, without padding. */
  function ControlSize(c: Control): nat {
    |c.front.head| + NameSize(c.front.cls) + NameSize(c.front.title) + 1 + |c.data|
  }

  /** The code reads past the creation data, but no further than the padding: at most one byte of
      data, or up to three where a word of padding follows. */
  predicate Tight(c: Control) {
    c.count <= 1 || (c.count <= 3 && ControlSize(c) % 2 == 1)
  }

  predicate AllTight(cs: seq<Control>) {
    forall i :: 0 <= i < |cs| ==> Tight(cs[i])
  }

  predicate AllTightButLast(cs: seq<Control>) {
    forall i :: 0 <= i < |cs| - 1 ==> Tight(cs[i])
  }

  /** Where the code finds the end of controls that end at `end`: only behind the last one can it be
      another place without any harm. */
  function EndRead(cs: seq<Control>, end: int): int {
    if cs == [] then end
    else
      var last := cs[|cs| - 1];
      end - Even(ControlSize(last)) + Even(ControlSize(last) + last.count / 2)
  }

  /** What the code takes for the data of the last control is still there. */
  predicate LastFits(cs: seq<Control>, end: int, length: nat) {
    cs != [] ==>
      var last := cs[|cs| - 1];
      end - Even(ControlSize(last)) + ControlSize(last) + last.count / 2 <= length
  }

  predicate InPlace(cs: seq<Control>, end: int, length: nat) {
    AllTightButLast(cs) && LastFits(cs, end, length)
  }

  lemma NameSizeIs(ws: seq<Word>)
    ensures NameOf(ws).Good? ==> NameOf(ws).size == NameSize(NameOf(ws).value)
  {
  }

  lemma ControlSizeIs(headLen: nat, ws: seq<Word>)
    requires ControlOf(headLen, ws).Good?
    ensures ControlOf(headLen, ws).size == ControlSize(ControlOf(headLen, ws).value)
  {
    hide NameOf;
    var c := NameOf(ws[headLen..]).size;
    NameSizeIs(ws[headLen..]);
    NameSizeIs(ws[headLen + c..]);
  }

  /** The code finds a control's end `count / 2` words behind the true one. */
  lemma ReadTooFar(headLen: nat, ws: seq<Word>)
    requires ControlOf(headLen, ws).Good?
    ensures var c := ControlOf(headLen, ws);
            var it := ItemOf(headLen, ws);
            && (it.Good? <==> c.size + c.value.count / 2 <= |ws|)
            && (it.Good? ==> it.size == c.size + c.value.count / 2 && AsControl(it.value) == c.value)
  {
    hide FrontOf;
    var p := FrontOf(headLen, ws).size;
    var n := WordsFor(ws[p]);
    assert n + ws[p] / 2 == ws[p];
    if ItemOf(headLen, ws).Good? {
      assert ws[p + 1..p + 1 + ws[p]][..n] == ws[p + 1..p + 1 + n];
    }
  }

  lemma WholeItem(headLen: nat, ws: seq<Word>)
    requires ItemOf(headLen, ws).Good?
    ensures ControlOf(headLen, ws).Good?
  {
    hide FrontOf;
  }

  lemma TightIs(c: Control)
    ensures Tight(c) <==> Even(ControlSize(c)) == Even(ControlSize(c) + c.count / 2)
  {
  }

  /** Control after control, the code looks where the control is, and can read it. */
  predicate Finds(headLen: nat, ws: seq<Word>, p: nat, n: nat)
    decreases n
  {
    n == 0 ||
    (p <= |ws| && ControlOf(headLen, ws[p..]).Good? && ItemOf(headLen, ws[p..]).Good? &&
     var k := Even(ControlOf(headLen, ws[p..]).size);
     n == 1 || (Even(ItemOf(headLen, ws[p..]).size) == k && Finds(headLen, ws, p + k, n - 1)))
  }

  lemma FirstOfMany(c: Control, cs: seq<Control>, end: int, length: nat)
    requires cs != []
    ensures InPlace([c] + cs, end, length) <==> Tight(c) && InPlace(cs, end, length)
    ensures EndRead([c] + cs, end) == EndRead(cs, end)
  {
    hide Tight, ControlSize;
    var all := [c] + cs;
    assert all[|all| - 1] == cs[|cs| - 1];
    assert all[0] == c && forall i :: 0 <= i < |cs| ==> cs[i] == all[i + 1];
  }

  lemma OnlyOne(c: Control, p: nat, length: nat)
    ensures var end := p + Even(ControlSize(c));
            && (InPlace([c], end, length) <==> p + ControlSize(c) + c.count / 2 <= length)
            && EndRead([c], end) == p + Even(ControlSize(c) + c.count / 2)
  {
    hide Tight, ControlSize;
  }

  /** That is so exactly if no control but the last has more creation data than its padding makes up
      for, and what is read behind the last one is there. */
  lemma {:induction false} FindsIff(headLen: nat, ws: seq<Word>, p: nat, n: nat)
    requires ControlsAt(headLen, ws, p, n).Good?
    ensures var cs := ControlsAt(headLen, ws, p, n);
            Finds(headLen, ws, p, n) <==> InPlace(cs.value, cs.size, |ws|)
    decreases n
  {
    hide ControlOf, ItemOf, Tight, InPlace, ControlSize;
    if n == 0 {
      NoneInPlace(p, |ws|);
    } else {
      var c := ControlOf(headLen, ws[p..]);
      var q := p + Even(c.size);
      ControlSizeIs(headLen, ws[p..]);
      ReadTooFar(headLen, ws[p..]);
      TightIs(c.value);
      if n == 1 {
        assert ControlsAt(headLen, ws, q, 0) == Good([], q) && [c.value] + [] == [c.value];
        OnlyOne(c.value, p, |ws|);
      } else {
        var tail := ControlsAt(headLen, ws, q, n - 1);
        FirstOfMany(c.value, tail.value, tail.size, |ws|);
        FindsIff(headLen, ws, q, n - 1);
      }
    }
  }

  lemma NoneInPlace(end: nat, length: nat)
    ensures InPlace([], end, length)
  {
  }

  /** Then both parses agree on every control, and the code's end is known. */
  lemma {:induction false} FindsAgree(headLen: nat, ws: seq<Word>, p: nat, n: nat)
    requires Finds(headLen, ws, p, n) && ControlsAt(headLen, ws, p, n).Good?
    ensures var its, cs := ItemsAt(headLen, ws, p, n), ControlsAt(headLen, ws, p, n);
            its.Good? && AsControls(its.value) == cs.value && its.size == EndRead(cs.value, cs.size)
    decreases n
  {
    hide ControlOf, ItemOf, AsControl, ControlSize, EndRead, InPlace, Tight;
    if n == 0 {
      NoneRead(p);
    } else {
      var c, it := ControlOf(headLen, ws[p..]), ItemOf(headLen, ws[p..]);
      var q := p + Even(c.size);
      ControlSizeIs(headLen, ws[p..]);
      ReadTooFar(headLen, ws[p..]);
      if n == 1 {
        OnlyOne(c.value, p, |ws|);
        var e := p + Even(it.size);
        assert ControlsAt(headLen, ws, q, 0) == Good([], q) && ItemsAt(headLen, ws, e, 0) == Good([], e);
        assert [c.value] + [] == [c.value] && [it.value] + [] == [it.value];
        OneControl(it.value);
      } else {
        FindsAgree(headLen, ws, q, n - 1);
        var tail, items := ControlsAt(headLen, ws, q, n - 1), ItemsAt(headLen, ws, q, n - 1);
        FirstOfMany(c.value, tail.value, tail.size, |ws|);
        FirstControls(it.value, items.value);
      }
    }
  }

  lemma NoneRead(end: int)
    ensures EndRead([], end) == end
  {
  }

  lemma FirstControls(it: Item, its: seq<Item>)
    ensures AsControls([it] + its) == [AsControl(it)] + AsControls(its)
  {
    assert ([it] + its)[1..] == its;
  }

  lemma OneControl(it: Item)
    ensures AsControls([it]) == [AsControl(it)]
  {
    FirstControls(it, []);
    assert [it] + [] == [it] && AsControls([]) == [];
  }

  /** What the code reads decides as well: if all its controls but the last are tight, it has found
      the true ones. */
  lemma {:induction false} Retraced(headLen: nat, ws: seq<Word>, p: nat, n: nat)
    requires ItemsAt(headLen, ws, p, n).Good? && AllTightButLast(AsControls(ItemsAt(headLen, ws, p, n).value))
    ensures Finds(headLen, ws, p, n) && ControlsAt(headLen, ws, p, n).Good?
    decreases n
  {
    hide ControlOf, ItemOf, AsControl, Tight, ControlSize;
    if n > 0 {
      var it := ItemOf(headLen, ws[p..]);
      WholeItem(headLen, ws[p..]);
      ControlSizeIs(headLen, ws[p..]);
      ReadTooFar(headLen, ws[p..]);
      var q := p + Even(ControlOf(headLen, ws[p..]).size);
      if n == 1 {
        assert ControlsAt(headLen, ws, q, 0).Good?;
      } else {
        var tail := ItemsAt(headLen, ws, p + Even(it.size), n - 1).value;
        FirstControls(it.value, tail);
        var cs, rest := AsControls([it.value] + tail), AsControls(tail);
        assert Tight(cs[0]) && forall i :: 0 <= i < |rest| ==> rest[i] == cs[i + 1];
        TightIs(cs[0]);
        Retraced(headLen, ws, q, n - 1);
      }
    }
  }

  lemma NoneTight()
    ensures AllTight([])
  {
  }

  lemma SameRest(it: Item, its: seq<Item>, c: Control, cs: seq<Control>)
    requires AsControls([it] + its) == [c] + cs
    ensures AsControl(it) == c && AsControls(its) == cs
    ensures AllTight([c] + cs) <==> Tight(c) && AllTight(cs)
  {
    hide Tight, AsControl;
    FirstControls(it, its);
    var all := [c] + cs;
    assert all[0] == c && all[1..] == cs && ([AsControl(it)] + AsControls(its))[1..] == AsControls(its);
    assert forall i :: 0 <= i < |cs| ==> cs[i] == all[i + 1];
  }

  /** If the code finds the same controls and the same end, it has found every control in its place,
      and no control makes it read past the padding. */
  lemma {:induction false} SameEnds(headLen: nat, ws: seq<Word>, p: nat, p': nat, n: nat)
    requires ItemsAt(headLen, ws, p', n).Good? && ControlsAt(headLen, ws, p, n).Good?
    requires AsControls(ItemsAt(headLen, ws, p', n).value) == ControlsAt(headLen, ws, p, n).value
    ensures var its, cs := ItemsAt(headLen, ws, p', n), ControlsAt(headLen, ws, p, n);
            && cs.size - p <= its.size - p'
            && (cs.size - p == its.size - p' <==> AllTight(cs.value))
    decreases n
  {
    hide ControlOf, ItemOf, AsControl, AsControls, Tight, AllTight, ControlSize;
    if n == 0 {
      NoneTight();
    } else {
      var c, it := ControlOf(headLen, ws[p..]), ItemOf(headLen, ws[p'..]);
      WholeItem(headLen, ws[p'..]);
      ControlSizeIs(headLen, ws[p..]);
      ControlSizeIs(headLen, ws[p'..]);
      ReadTooFar(headLen, ws[p'..]);
      TightIs(c.value);
      var q, q' := p + Even(c.size), p' + Even(it.size);
      var cs, items := ControlsAt(headLen, ws, q, n - 1).value, ItemsAt(headLen, ws, q', n - 1).value;
      SameRest(it.value, items, c.value, cs);
      SameEnds(headLen, ws, q, q', n - 1);
    }
  }

  /** A template in which the code finds every control: this can be checked on its controls. */
  predicate Found(ws: seq<Word>) {
    match DialogOf(ws)
    case Bad => false
    case Good(d, e) => InPlace(d.controls, e, |ws|)
  }

  /** And its end as well. */
  predicate Sound(ws: seq<Word>) {
    Found(ws) && AllTight(DialogOf(ws).value.controls)
  }

  /** Where the first control of a template is. */
  function FirstControl(ws: seq<Word>): nat
    requires OpeningOf(ws).Good?
  {
    Even(OpeningOf(ws).size)
  }

  /** For these templates, and no others, the code looks for every control where it is. */
  lemma FoundDialog(ws: seq<Word>)
    requires DialogOf(ws).Good?
    ensures var lay, d := LayoutOf(ws[0]), DialogOf(ws);
            Found(ws) <==> Finds(lay.item, ws, FirstControl(ws), d.value.header.head[lay.count])
    ensures Found(ws) ==>
              var d, t := DialogOf(ws), TemplateOf(ws);
              t.Good? && AsDialog(t.value) == d.value && t.size == EndRead(d.value.controls, d.size)
  {
    hide ControlsAt, ItemsAt, Finds, InPlace, OpeningOf, AsControls, EndRead;
    var lay := LayoutOf(ws[0]);
    var header := OpeningOf(ws).value.0;
    FindsIff(lay.item, ws, FirstControl(ws), header.head[lay.count]);
    if Found(ws) {
      FindsAgree(lay.item, ws, FirstControl(ws), header.head[lay.count]);
    }
  }

  /** For the sound ones, and no others, it parses to the same dialog with the same end. */
  lemma SoundDialog(ws: seq<Word>)
    requires DialogOf(ws).Good?
    ensures Sound(ws) <==>
              && TemplateOf(ws).Good? && TemplateOf(ws).size == DialogOf(ws).size
              && AsDialog(TemplateOf(ws).value) == DialogOf(ws).value
  {
    hide ControlsAt, ItemsAt, Finds, InPlace, OpeningOf, AsControls, EndRead, AllTight, AllTightButLast;
    var lay := LayoutOf(ws[0]);
    var header := OpeningOf(ws).value.0;
    var p, n := FirstControl(ws), header.head[lay.count];
    FoundDialog(ws);
    if TemplateOf(ws).Good? && AsDialog(TemplateOf(ws).value) == DialogOf(ws).value {
      SameEnds(lay.item, ws, p, p, n);
      if AllTight(DialogOf(ws).value.controls) {
        ButLast(DialogOf(ws).value.controls);
        Retraced(lay.item, ws, p, n);
      }
    }
  }

  lemma ButLast(cs: seq<Control>)
    requires AllTight(cs)
    ensures AllTightButLast(cs)
  {
  }

  /** The controls that the code reads in a template decide as well. */
  lemma RetracedTemplate(ws: seq<Word>)
    requires TemplateOf(ws).Good? && AllTightButLast(AsDialog(TemplateOf(ws).value).controls)
    ensures Found(ws)
    ensures var d, t := DialogOf(ws), TemplateOf(ws);
            && d.value == AsDialog(t.value) && d.size <= t.size
            && (d.size == t.size <==> AllTight(d.value.controls))
  {
    hide ControlsAt, ItemsAt, Finds, InPlace, OpeningOf, AsControls, EndRead, AllTight, AllTightButLast;
    var lay := LayoutOf(ws[0]);
    var header := OpeningOf(ws).value.0;
    var p, n := FirstControl(ws), header.head[lay.count];
    Retraced(lay.item, ws, p, n);
    FindsIff(lay.item, ws, p, n);
    FindsAgree(lay.item, ws, p, n);
    SameEnds(lay.item, ws, p, p, n);
  }

  // ----- A template that is misread

  const NO_HEAD: seq<Word> := seq(12, i => 0)

  /** Header and font of an extended dialog, with no names and two controls. */
  const OPENING: seq<Word> := [1, 0xffff, 0, 0, 0, 0, 0x40, 0, 2, 0, 0, 0, 0] + [0, 0, 0] + [8, 400, 0, 0]

  /** A button with two bytes of creation data, and an edit control with the title "A". */
  const BUTTON_WORDS: seq<Word> := NO_HEAD + [0xffff, 0x80, 0xffff, 1, 2, 7]
  const EDIT_WORDS: seq<Word> := NO_HEAD + [0xffff, 0x81, 65, 0, 0, 0]
  const DIALOG: seq<Word> := OPENING + (BUTTON_WORDS + EDIT_WORDS)

  const BUTTON := Control(Item(NO_HEAD, Ordinal(0x80), Ordinal(1), []), 2, [7])
  const EDIT := Control(Item(NO_HEAD, Ordinal(0x81), Text([65]), []), 0, [])

  /** What the code takes for the second control. */
  const MISREAD := Item(EDIT_WORDS[2..14], Text([65]), NoName, [])

  lemma NothingAt(ws: seq<Word>, k: nat)
    requires k < |ws| && ws[k] == 0
    ensures NameOf(ws[k..]) == Good(NoName, 1) && Sz(ws[k..]) == Good([], 1)
  {
  }

  lemma OrdinalAt(ws: seq<Word>, k: nat)
    requires k + 1 < |ws| && ws[k] == 0xffff
    ensures NameOf(ws[k..]) == Good(Ordinal(ws[k + 1]), 2)
  {
    assert ws[k..][1] == ws[k + 1];
  }

  lemma LetterAt(ws: seq<Word>, k: nat)
    requires k + 1 < |ws| && ws[k] == 65 && ws[k + 1] == 0
    ensures NameOf(ws[k..]) == Good(Text([65]), 2)
  {
    hide Sz;
    NothingAt(ws, k + 1);
    LetterFirst(ws[k..]);
    assert ws[k..][1..] == ws[k + 1..];
  }

  lemma LetterFirst(ws: seq<Word>)
    requires |ws| > 1 && ws[0] == 65 && Sz(ws[1..]) == Good([], 1)
    ensures Sz(ws) == Good([65], 2)
  {
    assert [ws[0]] + [] == [65];
  }

  lemma Opened(rest: seq<Word>)
    ensures var ws := OPENING + rest;
            && OpeningOf(ws).Good? && OpeningOf(ws).size == 20
            && OpeningOf(ws).value.0.head[8] == 2 && LayoutOf(ws[0]) == EXTENDED
  {
    hide NameOf, Sz;
    var ws := OPENING + rest;
    NothingAt(ws, 13);
    NothingAt(ws, 14);
    NothingAt(ws, 15);
    assert HeaderOf(EXTENDED, ws) == Good(Header(ws[..13], NoName, NoName, []), 16);
    NothingAt(ws, 19);
    assert ws[16..][3..] == ws[19..];
    assert ws[6] == 0x40 && ws[8] == 2;
  }

  lemma ButtonParsed(rest: seq<Word>)
    ensures ControlOf(12, BUTTON_WORDS + rest) == Good(BUTTON, 18)
  {
    hide NameOf;
    var ws := BUTTON_WORDS + rest;
    OrdinalAt(ws, 12);
    OrdinalAt(ws, 14);
    assert ws[..12] == NO_HEAD && ws[16] == 2 && ws[17..18] == [7];
  }

  lemma EditParsed()
    ensures ControlOf(12, EDIT_WORDS) == Good(EDIT, 17)
  {
    hide NameOf;
    var ws := EDIT_WORDS;
    OrdinalAt(ws, 12);
    LetterAt(ws, 14);
    assert ws[..12] == NO_HEAD && ws[16] == 0 && ws[17..17] == [];
  }

  lemma SecondRead()
    ensures ItemOf(12, EDIT_WORDS[2..]) == Good(MISREAD, 16)
  {
    hide NameOf;
    var ws := EDIT_WORDS[2..];
    LetterAt(ws, 12);
    NothingAt(ws, 14);
    assert ws[..12] == MISREAD.head && ws[15] == 0 && ws[16..16] == [];
  }

  lemma TrueControls(ws: seq<Word>)
    requires |ws| == 56 && ws[20..] == BUTTON_WORDS + EDIT_WORDS && ws[38..] == EDIT_WORDS
    ensures ControlsAt(12, ws, 20, 2) == Good([BUTTON, EDIT], 56)
  {
    hide ControlOf;
    ButtonParsed(EDIT_WORDS);
    EditParsed();
    assert ControlsAt(12, ws, 56, 0) == Good([], 56);
    assert [EDIT] + [] == [EDIT] && [BUTTON] + [EDIT] == [BUTTON, EDIT];
    assert ControlsAt(12, ws, 38, 1) == Good([EDIT], 56);
  }

  lemma ReadControls(ws: seq<Word>)
    requires |ws| == 56 && ws[20..] == BUTTON_WORDS + EDIT_WORDS && ws[40..] == EDIT_WORDS[2..]
    ensures var its := ItemsAt(12, ws, 20, 2); its.Good? && its.size == 56 && its.value[1] == MISREAD
  {
    hide ControlOf, ItemOf;
    ButtonParsed(EDIT_WORDS);
    ReadTooFar(12, ws[20..]);
    SecondRead();
    assert ItemsAt(12, ws, 56, 0) == Good([], 56);
    assert [MISREAD] + [] == [MISREAD];
    assert ItemsAt(12, ws, 40, 1) == Good([MISREAD], 56);
  }

  /** The format has both controls in this template. The code takes two words for the two bytes, skips
      two words of the second control, and finds another class, title and other fields in it. */
  lemma Misread(ws: seq<Word>)
    requires ws == DIALOG
    ensures !Found(ws) && DialogOf(ws).Good? && DialogOf(ws).value.controls == [BUTTON, EDIT]
    ensures var t := TemplateOf(ws);
            && t.Good? && t.value.items[1] == MISREAD && AsDialog(t.value) != DialogOf(ws).value
  {
    hide ControlsAt, ItemsAt, OpeningOf, AsControl, Tight;
    Opened(BUTTON_WORDS + EDIT_WORDS);
    assert ws[20..] == BUTTON_WORDS + EDIT_WORDS && ws[38..] == EDIT_WORDS && ws[40..] == EDIT_WORDS[2..];
    TrueControls(ws);
    ReadControls(ws);
    TooMuch();
    var its := TemplateOf(ws).value.items;
    assert AsControls(its)[1] == AsControl(MISREAD);
    assert DialogOf(ws).value.controls[0] == BUTTON && DialogOf(ws).value.controls[1] == EDIT;
  }

  lemma TooMuch()
    ensures !Tight(BUTTON) && AsControl(MISREAD) != EDIT
  {
    assert AsControl(MISREAD).front.cls == Text([65]) && EDIT.front.cls == Ordinal(0x81);
  }
}
