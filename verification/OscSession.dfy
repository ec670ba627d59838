/** Whole sessions with commands for the kanji codes in them: what a received stream does, and that
    saved codes come back. */
module OscSession {
  import opened Bytes
  import opened Letters
  import opened CText
  import opened Wrappers
  import opened OscParser

  // ----- Saving and restoring, in any stream of bytes

  datatype Side = Transmit | Receive

  function Word(side: Side): string {
    if side == Transmit then "kt" else "kr"
  }

  function CodeOf(side: Side, c: Codes): Code {
    if side == Transmit then c.send else c.echo
  }

  function SettingOf(side: Side, c: Codes): Code {
    if side == Transmit then c.tsSend else c.tsEcho
  }

  function Stack(side: Side, c: Codes): seq<Code> {
    if side == Transmit then c.sendStack else c.echoStack
  }

  /** How many codes of one side are saved on top of those saved at the start, if none of the
      latter is taken off. */
  function Depth(side: Side, verb: Verb, segs: seq<seq<Byte>>, d: nat): Option<nat> {
    if segs == [] then Some(d)
    else if !Same(segs[0], Word(side)) then Depth(side, verb, segs[1..], d)
    else if verb == Save then Depth(side, verb, segs[1..], d + 1)
    else if verb == Restore then if d == 0 then None else Depth(side, verb, segs[1..], d - 1)
    else Depth(side, verb, segs[1..], d)
  }

  /** The same over all orders among the command texts; other commands do not matter. */
  function DepthAll(side: Side, texts: seq<seq<Byte>>, d: nat): Option<nat>
    decreases |texts|
  {
    if texts == [] then Some(d)
    else
      match DepthAll(side, texts[..|texts| - 1], d)
      case None => None
      case Some(m) =>
        match OrderOf(texts[|texts| - 1])
        case None => Some(m)
        case Some(o) => Depth(side, o.verb, o.segs, m)
  }

  /** `after` still has, under `m` codes of its own, what `before` had under `n`. */
  predicate SameBase(before: seq<Code>, n: nat, after: seq<Code>, m: nat) {
    n <= |before| && m <= |after| && before[n..] == after[m..]
  }

  lemma ActKeepsBase(side: Side, verb: Verb, seg: seq<Byte>, c: Codes, d: nat)
    requires d <= |Stack(side, c)|
    ensures !Same(seg, Word(side)) || verb == Set || verb == Ask ==> Stack(side, Act(verb, seg, c)) == Stack(side, c)
    ensures Same(seg, Word(side)) && verb == Save ==>
              SameBase(Stack(side, c), d, Stack(side, Act(verb, seg, c)), d + 1)
    ensures Same(seg, Word(side)) && verb == Restore && d > 0 ==>
              SameBase(Stack(side, c), d, Stack(side, Act(verb, seg, c)), d - 1)
  {
    hide CodeNamed, Reply;
    SidesDiffer(seg);
    var st := Stack(side, c);
    assert ([CodeOf(side, c)] + st)[d + 1..] == st[d..];
    if d > 0 {
      assert st[1..][d - 1..] == st[d..];
    }
  }

  lemma SidesDiffer(seg: seq<Byte>)
    ensures !(Same(seg, "kt") && Same(seg, "kr"))
  {
    if Same(seg, "kt") {
      assert ToLower(seg[1] as char) == "kt"[1];
      assert "kr"[1] != "kt"[1];
    }
  }

  lemma {:induction false} SegmentsKeepBase(side: Side, verb: Verb, segs: seq<seq<Byte>>, c: Codes, d: nat)
    requires d <= |Stack(side, c)| && Depth(side, verb, segs, d).Some?
    ensures SameBase(Stack(side, c), d, Stack(side, ActAll(verb, segs, c)), Depth(side, verb, segs, d).value)
    decreases |segs|
  {
    hide Act, Same, Stack;
    if segs != [] {
      ActKeepsBase(side, verb, segs[0], c, d);
      var c' := Act(verb, segs[0], c);
      if !Same(segs[0], Word(side)) || verb == Set || verb == Ask {
        SegmentsKeepBase(side, verb, segs[1..], c', d);
      } else if verb == Save {
        SegmentsKeepBase(side, verb, segs[1..], c', d + 1);
      } else {
        SegmentsKeepBase(side, verb, segs[1..], c', d - 1);
      }
    }
  }

  lemma FinishKeeps(side: Side, verb: Verb, c: Codes)
    ensures var r := Finish(verb, c);
            && Stack(side, r) == Stack(side, c)
            && CodeOf(side, r) == CodeOf(side, c) && SettingOf(side, r) == SettingOf(side, c)
  {
  }

  /** Codes saved before are kept below those of the commands, on the side considered. */
  lemma {:induction false} TextsKeepBase(side: Side, texts: seq<seq<Byte>>, c: Codes, d: nat)
    requires d <= |Stack(side, c)| && DepthAll(side, texts, d).Some?
    ensures SameBase(Stack(side, c), d, Stack(side, ObeyAll(texts, c)), DepthAll(side, texts, d).value)
    decreases |texts|
  {
    hide Depth, ActAll, Stack, Finish, OrderOf;
    if texts != [] {
      var front, t := texts[..|texts| - 1], texts[|texts| - 1];
      TextsKeepBase(side, front, c, d);
      var c' := ObeyAll(front, c);
      match OrderOf(t)
      case None =>
      case Some(o) =>
        SegmentsKeepBase(side, o.verb, o.segs, c', DepthAll(side, front, d).value);
        FinishKeeps(side, o.verb, ActAll(o.verb, o.segs, c'));
    }
  }

  /** A command that saves the code of one side once; it may name the other side too. */
  predicate SavesOnce(side: Side, t: seq<Byte>) {
    match OrderOf(t)
    case None => false
    case Some(o) => o.verb == Save && Depth(side, Save, o.segs, 0) == Some(1)
  }

  predicate RestoresOnce(side: Side, t: seq<Byte>) {
    match OrderOf(t)
    case None => false
    case Some(o) => o.verb == Restore && Depth(side, Restore, o.segs, 1) == Some(0)
  }

  lemma SaveOneSide(side: Side, seg: seq<Byte>, c: Codes)
    ensures CodeOf(side, SaveOne(seg, c)) == CodeOf(side, c)
    ensures Stack(side, SaveOne(seg, c)) ==
            if Same(seg, Word(side)) then [CodeOf(side, c)] + Stack(side, c) else Stack(side, c)
  {
    SidesDiffer(seg);
    hide Same;
  }

  lemma RestoreOneSide(side: Side, seg: seq<Byte>, c: Codes)
    ensures !Same(seg, Word(side)) ==>
              var r := RestoreOne(seg, c);
              && Stack(side, r) == Stack(side, c)
              && CodeOf(side, r) == CodeOf(side, c) && SettingOf(side, r) == SettingOf(side, c)
    ensures Same(seg, Word(side)) && Stack(side, c) != [] ==>
              var r, st := RestoreOne(seg, c), Stack(side, c);
              Stack(side, r) == st[1..] && CodeOf(side, r) == SettingOf(side, r) == st[0]
  {
    SidesDiffer(seg);
    hide Same;
  }

  lemma {:induction false} DepthGrows(side: Side, segs: seq<seq<Byte>>, d: nat)
    ensures Depth(side, Save, segs, d).Some? && Depth(side, Save, segs, d).value >= d
    decreases |segs|
  {
    if segs != [] {
      DepthGrows(side, segs[1..], d);
      DepthGrows(side, segs[1..], d + 1);
    }
  }

  lemma {:induction false} Saved(side: Side, segs: seq<seq<Byte>>, c: Codes, d: nat, k: nat)
    requires k <= 1 && Depth(side, Save, segs, d) == Some(d + k)
    ensures var r := ActAll(Save, segs, c);
            && CodeOf(side, r) == CodeOf(side, c)
            && Stack(side, r) == if k == 1 then [CodeOf(side, c)] + Stack(side, c) else Stack(side, c)
    decreases |segs|
  {
    hide SaveOne, Same, CodeOf, Stack;
    if segs != [] {
      SaveOneSide(side, segs[0], c);
      var c' := SaveOne(segs[0], c);
      if Same(segs[0], Word(side)) {
        DepthGrows(side, segs[1..], d + 1);
        Saved(side, segs[1..], c', d + 1, 0);
      } else {
        Saved(side, segs[1..], c', d, k);
      }
    }
  }

  lemma {:induction false} DepthShrinks(side: Side, segs: seq<seq<Byte>>, d: nat)
    ensures var r := Depth(side, Restore, segs, d); r.Some? ==> r.value <= d
    decreases |segs|
  {
    if segs != [] {
      DepthShrinks(side, segs[1..], d);
      if d > 0 {
        DepthShrinks(side, segs[1..], d - 1);
      }
    }
  }

  lemma {:induction false} Untouched(side: Side, segs: seq<seq<Byte>>, c: Codes, d: nat)
    requires Depth(side, Restore, segs, d) == Some(d)
    ensures var r := ActAll(Restore, segs, c);
            && Stack(side, r) == Stack(side, c)
            && CodeOf(side, r) == CodeOf(side, c) && SettingOf(side, r) == SettingOf(side, c)
    decreases |segs|
  {
    hide RestoreOne, Same, CodeOf, SettingOf, Stack;
    if segs != [] {
      RestoreOneSide(side, segs[0], c);
      if Same(segs[0], Word(side)) {
        DepthShrinks(side, segs[1..], d - 1);
        assert false;
      } else {
        Untouched(side, segs[1..], RestoreOne(segs[0], c), d);
      }
    }
  }

  lemma {:induction false} TakenBack(side: Side, segs: seq<seq<Byte>>, c: Codes)
    requires Depth(side, Restore, segs, 1) == Some(0) && Stack(side, c) != []
    ensures var r, st := ActAll(Restore, segs, c), Stack(side, c);
            Stack(side, r) == st[1..] && CodeOf(side, r) == SettingOf(side, r) == st[0]
    decreases |segs|
  {
    hide RestoreOne, Same, CodeOf, SettingOf, Stack;
    RestoreOneSide(side, segs[0], c);
    var c' := RestoreOne(segs[0], c);
    if Same(segs[0], Word(side)) {
      Untouched(side, segs[1..], c', 0);
    } else {
      TakenBack(side, segs[1..], c');
    }
  }

  lemma Balanced(side: Side, first: seq<Byte>, inner: seq<seq<Byte>>, last: seq<Byte>, c: Codes)
    requires SavesOnce(side, first) && RestoresOnce(side, last) && DepthAll(side, inner, 0) == Some(0)
    ensures var r := Obey(last, ObeyAll(inner, Obey(first, c)));
            && CodeOf(side, r) == SettingOf(side, r) == CodeOf(side, c)
            && Stack(side, r) == Stack(side, c)
  {
    hide ActAll, Stack, CodeOf, SettingOf, Depth, DepthAll, Finish, OrderOf, ObeyAll;
    var o, p := OrderOf(first).value, OrderOf(last).value;
    Saved(side, o.segs, c, 0, 1);
    FinishKeeps(side, Save, ActAll(Save, o.segs, c));
    var saved := Obey(first, c);
    var st := [CodeOf(side, c)] + Stack(side, c);
    assert Stack(side, saved) == st;
    TextsKeepBase(side, inner, saved, 0);
    var before := ObeyAll(inner, saved);
    assert Stack(side, before) == st;
    TakenBack(side, p.segs, before);
    FinishKeeps(side, Restore, ActAll(Restore, p.segs, before));
    assert st[1..] == Stack(side, c);
  }

  lemma {:induction false} ObeyFirst(first: seq<Byte>, texts: seq<seq<Byte>>, c: Codes)
    ensures ObeyAll([first] + texts, c) == ObeyAll(texts, Obey(first, c))
    decreases |texts|
  {
    hide Obey;
    var all := [first] + texts;
    if texts == [] {
      assert all[..0] == [] && all[0] == first;
      assert ObeyAll(all[..0], c) == c;
    } else {
      var n := |texts| - 1;
      ObeyFirst(first, texts[..n], c);
      assert all[..n + 1] == [first] + texts[..n] && all[n + 1] == texts[n];
    }
  }

  /** Whatever stream is received, from whatever state, whole or cut into reads: if the first command
      heard saves the code of one side and the last restores it, and those between are balanced on
      that side, then that code is in use again, with the same codes saved below it, whatever the
      stream does to the other side. */
  lemma Restored(c1: bool, side: Side, s: State, input: seq<Byte>)
    requires Settled(s)
    requires var heard := Heard(c1, s, input);
             && |heard| >= 2 && SavesOnce(side, heard[0]) && RestoresOnce(side, heard[|heard| - 1])
             && DepthAll(side, heard[1..|heard| - 1], 0) == Some(0)
    ensures var r := Steps(c1, s, input).codes;
            && CodeOf(side, r) == SettingOf(side, r) == CodeOf(side, s.codes)
            && Stack(side, r) == Stack(side, s.codes)
  {
    hide Steps, Heard, SavesOnce, RestoresOnce, DepthAll, Obey;
    var heard := Heard(c1, s, input);
    var first, inner, last := heard[0], heard[1..|heard| - 1], heard[|heard| - 1];
    CodesHeard(c1, s, input);
    assert heard[..|heard| - 1] == [first] + inner;
    ObeyFirst(first, inner, s.codes);
    Balanced(side, first, inner, last, s.codes);
  }

  // ----- How commands are sent

  datatype Intro = EscBracket | OneByte

  datatype End = Bell | EscBackslash | StringTerminator

  /** A stream is other text, escape sequences included, and commands in turn. */
  datatype Piece = Plain(text: seq<Byte>) | Command(intro: Intro, text: seq<Byte>, end: End)

  /** Text in which no command begins: the byte behind an escape is never a bracket, and the
      eight-bit introducer stands only there, if it is accepted. */
  predicate Ignored(acc: bool, t: seq<Byte>)
    decreases |t|
  {
    if t == [] then true
    else if t[0] == ESC then |t| >= 2 && t[1] != ']' as int && Ignored(acc, t[2..])
    else !(acc && t[0] == OSC) && Ignored(acc, t[1..])
  }

  /** Text in which no command ends. */
  predicate Inner(acc: bool, t: seq<Byte>)
    decreases |t|
  {
    if t == [] then true
    else if t[0] == ESC then |t| >= 2 && t[1] != '\\' as int && Inner(acc, t[2..])
    else t[0] != BEL && !(acc && t[0] == ST) && Inner(acc, t[1..])
  }

  /** `acc` says whether eight-bit controls are accepted at the moment. */
  predicate Proper(acc: bool, p: Piece) {
    match p
    case Plain(text) => Ignored(acc, text)
    case Command(intro, text, end) =>
      && Inner(acc, text) && |text| < IN_BUFF_SIZE - 1
      && (intro == OneByte || end == StringTerminator ==> acc)
  }

  predicate ProperAll(c1: bool, c: Codes, ps: seq<Piece>)
    decreases |ps|
  {
    ps == [] || (Proper(AcceptC1(c1, c), ps[0]) && ProperAll(c1, Effect(ps[0], c), ps[1..]))
  }

  function Opening(intro: Intro): seq<Byte> {
    if intro == OneByte then [OSC] else [ESC, ']' as int]
  }

  function Closing(end: End): seq<Byte> {
    match end
    case Bell => [BEL]
    case EscBackslash => [ESC, '\\' as int]
    case StringTerminator => [ST]
  }

  function Wire(p: Piece): seq<Byte> {
    match p
    case Plain(text) => text
    case Command(intro, text, end) => Opening(intro) + text + Closing(end)
  }

  function WireAll(ps: seq<Piece>): seq<Byte> {
    if ps == [] then [] else Wire(ps[0]) + WireAll(ps[1..])
  }

  function Effect(p: Piece, c: Codes): Codes {
    if p.Plain? then c else Obey(CString(p.text), c)
  }

  function Effects(ps: seq<Piece>, c: Codes): Codes {
    if ps == [] then c else Effects(ps[1..], Effect(ps[0], c))
  }

  /** The texts of the commands, up to their first NULs. */
  function Texts(ps: seq<Piece>): seq<seq<Byte>> {
    if ps == [] then []
    else (if ps[0].Plain? then [] else [CString(ps[0].text)]) + Texts(ps[1..])
  }

  function Ground(c: Codes): State {
    State(First, [], c)
  }

  lemma StepOne(c1: bool, s: State, b: Byte)
    requires Settled(s)
    ensures Steps(c1, s, [b]) == Step(c1, s, b) && Heard(c1, s, [b]) == Told(c1, s, b)
  {
    hide Step, Told, Settled;
    assert [b][..0] == [];
    assert [] + Told(c1, s, b) == Told(c1, s, b);
  }

  lemma StepTwo(c1: bool, s: State, a: Byte, b: Byte)
    requires Settled(s)
    ensures Steps(c1, s, [a, b]) == Step(c1, Step(c1, s, a), b)
    ensures Heard(c1, s, [a, b]) == Told(c1, s, a) + Told(c1, Step(c1, s, a), b)
  {
    hide Step, Told, Settled, Steps, Heard;
    Onward(c1, s, [a], [b], [a, b]);
    StepOne(c1, s, a);
    StepOne(c1, Step(c1, s, a), b);
  }

  lemma Onward(c1: bool, s: State, a: seq<Byte>, rest: seq<Byte>, t: seq<Byte>)
    requires Settled(s) && t == a + rest
    ensures Steps(c1, s, t) == Steps(c1, Steps(c1, s, a), rest)
    ensures Heard(c1, s, t) == Heard(c1, s, a) + Heard(c1, Steps(c1, s, a), rest)
  {
    hide Step, Told, Settled, Steps, Heard;
    StepsConcat(c1, s, a, rest);
    HeardConcat(c1, s, a, rest);
  }

  lemma {:induction false} IgnoresPlain(c1: bool, c: Codes, t: seq<Byte>)
    requires Ignored(AcceptC1(c1, c), t)
    ensures Steps(c1, Ground(c), t) == Ground(c) && Heard(c1, Ground(c), t) == []
    decreases |t|
  {
    hide Steps, Processed, Collected, AcceptC1;
    if t == [] {
      StepsNothing(c1, Ground(c));
    } else if t[0] == ESC {
      StepTwo(c1, Ground(c), ESC, t[1]);
      Onward(c1, Ground(c), [ESC, t[1]], t[2..], t);
      IgnoresPlain(c1, c, t[2..]);
    } else {
      StepOne(c1, Ground(c), t[0]);
      Onward(c1, Ground(c), [t[0]], t[1..], t);
      IgnoresPlain(c1, c, t[1..]);
    }
  }

  lemma StepsNothing(c1: bool, s: State)
    requires Settled(s)
    ensures Steps(c1, s, []) == s && Heard(c1, s, []) == []
  {
  }

  lemma CollectsOne(c1: bool, c: Codes, buff: seq<Byte>, b: Byte)
    requires b != ESC && b != BEL && !(AcceptC1(c1, c) && b == ST) && |buff| + 1 < IN_BUFF_SIZE - 1
    ensures Steps(c1, State(Osc, buff, c), [b]) == State(Osc, buff + [b], c)
    ensures Heard(c1, State(Osc, buff, c), [b]) == []
  {
    hide Steps, Heard, Processed, AcceptC1;
    StepOne(c1, State(Osc, buff, c), b);
  }

  lemma CollectsTwo(c1: bool, c: Codes, buff: seq<Byte>, b: Byte)
    requires b != '\\' as int && |buff| + 2 < IN_BUFF_SIZE - 1
    ensures Steps(c1, State(Osc, buff, c), [ESC, b]) == State(Osc, buff + [ESC, b], c)
    ensures Heard(c1, State(Osc, buff, c), [ESC, b]) == []
  {
    hide Steps, Heard, Processed, AcceptC1;
    StepTwo(c1, State(Osc, buff, c), ESC, b);
  }

  lemma InnerFirst(acc: bool, t: seq<Byte>)
    requires Inner(acc, t) && t != []
    ensures if t[0] == ESC then |t| >= 2 && t[1] != '\\' as int && Inner(acc, t[2..])
            else t[0] != BEL && !(acc && t[0] == ST) && Inner(acc, t[1..])
  {
  }

  lemma CollectsFirst(c1: bool, c: Codes, buff: seq<Byte>, t: seq<Byte>) returns (n: nat)
    requires Inner(AcceptC1(c1, c), t) && t != [] && |buff| + |t| < IN_BUFF_SIZE - 1
    ensures 1 <= n <= |t| && Inner(AcceptC1(c1, c), t[n..])
    ensures Steps(c1, State(Osc, buff, c), t[..n]) == State(Osc, buff + t[..n], c)
    ensures Heard(c1, State(Osc, buff, c), t[..n]) == []
  {
    hide Steps, Heard, AcceptC1, Inner;
    InnerFirst(AcceptC1(c1, c), t);
    if t[0] == ESC {
      n := 2;
      assert t[..n] == [ESC, t[1]];
      CollectsTwo(c1, c, buff, t[1]);
    } else {
      n := 1;
      assert t[..n] == [t[0]];
      CollectsOne(c1, c, buff, t[0]);
    }
  }

  lemma {:induction false} Collects(c1: bool, c: Codes, buff: seq<Byte>, t: seq<Byte>)
    requires Inner(AcceptC1(c1, c), t) && |buff| + |t| < IN_BUFF_SIZE - 1
    ensures Steps(c1, State(Osc, buff, c), t) == State(Osc, buff + t, c)
    ensures Heard(c1, State(Osc, buff, c), t) == []
    decreases |t|
  {
    hide Steps, Heard, AcceptC1, Inner;
    var s := State(Osc, buff, c);
    if t == [] {
      StepsNothing(c1, s);
      assert buff + t == buff;
    } else {
      var n := CollectsFirst(c1, c, buff, t);
      var first, rest := t[..n], t[n..];
      assert t == first + rest;
      Onward(c1, s, first, rest, t);
      Collects(c1, c, buff + first, rest);
      assert (buff + first) + rest == buff + t;
    }
  }

  lemma Opens(c1: bool, c: Codes, intro: Intro)
    requires intro == OneByte ==> AcceptC1(c1, c)
    ensures Steps(c1, Ground(c), Opening(intro)) == State(Osc, [], c) && Heard(c1, Ground(c), Opening(intro)) == []
  {
    hide Steps, Processed, Collected, AcceptC1;
    if intro == OneByte {
      StepOne(c1, Ground(c), OSC);
    } else {
      StepTwo(c1, Ground(c), ESC, ']' as int);
    }
  }

  lemma Closes(c1: bool, c: Codes, buff: seq<Byte>, end: End)
    requires |buff| < IN_BUFF_SIZE - 1 && (end == StringTerminator ==> AcceptC1(c1, c))
    ensures Steps(c1, State(Osc, buff, c), Closing(end)) == Ground(Obey(CString(buff), c))
    ensures Heard(c1, State(Osc, buff, c), Closing(end)) == [CString(buff)]
  {
    hide Steps, Obey, CString, Collected, AcceptC1;
    var s := State(Osc, buff, c);
    match end
    case Bell => StepOne(c1, s, BEL);
    case EscBackslash => StepTwo(c1, s, ESC, '\\' as int);
    case StringTerminator => StepOne(c1, s, ST);
  }

  /** Every command, with every introducer and terminator, is collected, heard and obeyed. */
  lemma CommandObeyed(c1: bool, c: Codes, p: Piece)
    requires p.Command? && Proper(AcceptC1(c1, c), p)
    ensures Steps(c1, Ground(c), Wire(p)) == Ground(Obey(CString(p.text), c))
    ensures Heard(c1, Ground(c), Wire(p)) == [CString(p.text)]
  {
    hide Steps, Heard, Obey, CString, Opening, Closing, Inner, AcceptC1;
    var open, close := Opening(p.intro), Closing(p.end);
    Opens(c1, c, p.intro);
    Collects(c1, c, [], p.text);
    Closes(c1, c, p.text, p.end);
    Onward(c1, Ground(c), open + p.text, close, Wire(p));
    Onward(c1, Ground(c), open, p.text, open + p.text);
    assert [] + p.text == p.text;
  }

  lemma PieceRuns(c1: bool, c: Codes, p: Piece)
    requires Proper(AcceptC1(c1, c), p)
    ensures Steps(c1, Ground(c), Wire(p)) == Ground(Effect(p, c)) && Heard(c1, Ground(c), Wire(p)) == Texts([p])
  {
    hide Steps, Heard, Obey, CString, Inner, AcceptC1;
    if p.Plain? {
      IgnoresPlain(c1, c, p.text);
    } else {
      CommandObeyed(c1, c, p);
    }
  }

  /** A stream does what its commands say, one after the other, whatever text lies between. */
  lemma {:induction false} SessionRuns(c1: bool, c: Codes, ps: seq<Piece>)
    requires ProperAll(c1, c, ps)
    ensures Steps(c1, Ground(c), WireAll(ps)) == Ground(Effects(ps, c))
    ensures Heard(c1, Ground(c), WireAll(ps)) == Texts(ps)
    decreases |ps|
  {
    hide Effect, Steps, Heard, Proper, Wire;
    if ps == [] {
      StepsNothing(c1, Ground(c));
    } else {
      PieceRuns(c1, c, ps[0]);
      Onward(c1, Ground(c), Wire(ps[0]), WireAll(ps[1..]), WireAll(ps));
      SessionRuns(c1, Effect(ps[0], c), ps[1..]);
    }
  }

  function Digits(verb: Verb): seq<Byte> {
    var last: Byte := match verb case Set => 51 case Ask => 52 case Save => 53 case Restore => 54;
    [53, 57, 54, last]
  }

  function Body(verb: Verb, segs: seq<seq<Byte>>): seq<Byte> {
    Digits(verb) + [SEMICOLON] + Join(segs)
  }

  lemma DecimalStep(ds: seq<Byte>, d: nat, t: seq<Byte>)
    requires d < 10 && (forall i :: 0 <= i < |ds| ==> IsDigit(ds[i] as char)) && t == ds + ['0' as int + d]
    ensures (forall i :: 0 <= i < |t| ==> IsDigit(t[i] as char)) && Decimal(t) == Decimal(ds) * 10 + d
  {
    assert t[..|ds|] == ds;
  }

  /** The number modulo 2^32 selects the command, and the segments are found again. */
  lemma NumberOrders(ds: seq<Byte>, segs: seq<seq<Byte>>)
    requires ds != [] && (forall i :: 0 <= i < |ds| ==> IsDigit(ds[i] as char)) && Joinable(segs)
    ensures OrderOf(ds + [SEMICOLON] + Join(segs)) ==
            match VerbOf(Decimal(ds) % 0x1_0000_0000)
            case None => None
            case Some(verb) => Some(Order(verb, segs))
  {
    hide Segments, Join, Joinable, VerbOf, Decimal;
    var t := ds + [SEMICOLON] + Join(segs);
    DigitsUnique(t, |ds|);
    assert t[..|ds|] == ds && t[|ds| + 1..] == Join(segs);
    SegmentsJoin(segs);
  }

  lemma BodyOrders(verb: Verb, segs: seq<seq<Byte>>)
    requires Joinable(segs)
    ensures OrderOf(Body(verb, segs)) == Some(Order(verb, segs))
  {
    hide Decimal, Join, Joinable, OrderOf;
    DecimalFour(verb);
    NumberOrders(Digits(verb), segs);
  }

  function WordBytes(side: Side): seq<Byte> {
    ['k' as int, if side == Transmit then 't' as int else 'r' as int]
  }

  /** The commands "5965;kt" and "5966;kt", or with "kr", save and restore one code. */
  lemma SaveAndRestore(side: Side)
    ensures SavesOnce(side, CString(Body(Save, [WordBytes(side)])))
    ensures RestoresOnce(side, CString(Body(Restore, [WordBytes(side)])))
  {
    hide OrderOf, Body, CString;
    var w := WordBytes(side);
    assert Same(w, Word(side));
    hide Same;
    var ws: seq<seq<Byte>> := [w];
    assert ws[1..] == [];
    assert Depth(side, Save, ws, 0) == Depth(side, Save, [], 1) == Some(1);
    assert Depth(side, Restore, ws, 1) == Depth(side, Restore, [], 0) == Some(0);
    WordBody(Save, w);
    WordBody(Restore, w);
    BodyOrders(Save, [w]);
    BodyOrders(Restore, [w]);
  }

  lemma WordBody(verb: Verb, w: seq<Byte>)
    requires w != [] && NUL !in w && SEMICOLON !in w
    ensures CString(Body(verb, [w])) == Body(verb, [w]) && Joinable([w])
  {
    var t := Body(verb, [w]);
    assert t == Digits(verb) + [SEMICOLON] + w;
    CStringIs(t, |t|);
  }

  lemma DecimalFour(verb: Verb)
    ensures forall i :: 0 <= i < 4 ==> IsDigit(Digits(verb)[i] as char)
    ensures VerbOf(Decimal(Digits(verb)) % 0x1_0000_0000) == Some(verb)
  {
    hide Decimal;
    var last := Digits(verb)[3] - '0' as int;
    NoDigits();
    DecimalStep([], 5, [53]);
    DecimalStep([53], 9, [53, 57]);
    DecimalStep([53, 57], 6, [53, 57, 54]);
    DecimalStep([53, 57, 54], last, Digits(verb));
  }

  lemma NoDigits()
    ensures Decimal([]) == 0
  {
  }

  /** The number 4294973259, which is 2^32 + 5963, sets a code just like 5963. */
  lemma WrappedNumber(segs: seq<seq<Byte>>)
    requires Joinable(segs)
    ensures var ds := [52, 50, 57, 52, 57, 55, 51, 50, 53, 57];
            OrderOf(ds + [SEMICOLON] + Join(segs)) == Some(Order(Set, segs))
  {
    hide Decimal, Join, Joinable, OrderOf;
    NoDigits();
    DecimalStep([], 4, [52]);
    DecimalStep([52], 2, [52, 50]);
    DecimalStep([52, 50], 9, [52, 50, 57]);
    DecimalStep([52, 50, 57], 4, [52, 50, 57, 52]);
    DecimalStep([52, 50, 57, 52], 9, [52, 50, 57, 52, 57]);
    DecimalStep([52, 50, 57, 52, 57], 7, [52, 50, 57, 52, 57, 55]);
    DecimalStep([52, 50, 57, 52, 57, 55], 3, [52, 50, 57, 52, 57, 55, 51]);
    DecimalStep([52, 50, 57, 52, 57, 55, 51], 2, [52, 50, 57, 52, 57, 55, 51, 50]);
    DecimalStep([52, 50, 57, 52, 57, 55, 51, 50], 5, [52, 50, 57, 52, 57, 55, 51, 50, 53]);
    DecimalStep([52, 50, 57, 52, 57, 55, 51, 50, 53], 9, [52, 50, 57, 52, 57, 55, 51, 50, 53, 57]);
    NumberOrders([52, 50, 57, 52, 57, 55, 51, 50, 53, 57], segs);
  }

  /** So it is with any session of text and commands between the two, sent in any of the ways that
      are accepted, and balanced on the side that is saved. */
  lemma RestoredSession(c1: bool, side: Side, c: Codes, ps: seq<Piece>,
                        intros: (Intro, Intro), ends: (End, End))
    requires var save := Command(intros.0, Body(Save, [WordBytes(side)]), ends.0);
             var restore := Command(intros.1, Body(Restore, [WordBytes(side)]), ends.1);
             ProperAll(c1, c, [save] + ps + [restore])
    requires DepthAll(side, Texts(ps), 0) == Some(0)
    ensures var save := Command(intros.0, Body(Save, [WordBytes(side)]), ends.0);
            var restore := Command(intros.1, Body(Restore, [WordBytes(side)]), ends.1);
            var s := Steps(c1, Ground(c), WireAll([save] + ps + [restore]));
            && s == Ground(s.codes)
            && CodeOf(side, s.codes) == SettingOf(side, s.codes) == CodeOf(side, c)
            && Stack(side, s.codes) == Stack(side, c)
  {
    hide Steps, Heard, WireAll, Effects, Body, CString, Texts, ProperAll, DepthAll;
    hide SavesOnce, RestoresOnce, CodeOf, SettingOf, Stack;
    var save := Command(intros.0, Body(Save, [WordBytes(side)]), ends.0);
    var restore := Command(intros.1, Body(Restore, [WordBytes(side)]), ends.1);
    SaveAndRestore(side);
    SessionRuns(c1, c, [save] + ps + [restore]);
    TextsConcat([save] + ps, [restore]);
    TextsConcat([save], ps);
    TextsOne(save);
    TextsOne(restore);
    var first, last := CString(save.text), CString(restore.text);
    var heard := [first] + Texts(ps) + [last];
    assert heard[1..|heard| - 1] == Texts(ps);
    Restored(c1, side, Ground(c), WireAll([save] + ps + [restore]));
  }

  lemma {:induction false} TextsConcat(a: seq<Piece>, b: seq<Piece>)
    ensures Texts(a + b) == Texts(a) + Texts(b)
    decreases |a|
  {
    hide CString;
    if a == [] {
      assert a + b == b;
    } else {
      assert (a + b)[1..] == a[1..] + b;
      TextsConcat(a[1..], b);
    }
  }

  lemma TextsOne(p: Piece)
    requires p.Command?
    ensures Texts([p]) == [CString(p.text)]
  {
    hide CString;
  }

  // ----- Setting and asking for codes

  function Chars(w: string): seq<Byte>
    requires forall i :: 0 <= i < |w| ==> w[i] as int < 0x80
  {
    seq(|w|, i requires 0 <= i < |w| => w[i] as int)
  }

  /** `t` is `word`, which is in lower case, in any case. */
  predicate Spells(t: seq<Byte>, word: string) {
    |t| == |word| &&
    forall i :: 0 <= i < |t| ==> t[i] == word[i] as int || ('a' <= word[i] <= 'z' && t[i] == word[i] as int - 32)
  }

  /** The names of the codes. */
  function NamesOf(code: Code): set<string> {
    match code
    case Sjis => {"sjis"}
    case Euc => {"euc"}
    case Jis => {"jis"}
    case Utf8 => {"utf8", "utf-8"}
    case OtherCode(_) => {}
  }

  function Equals(side: Side): string {
    if side == Transmit then "kt=" else "kr="
  }

  function OtherSide(side: Side): Side {
    if side == Transmit then Receive else Transmit
  }

  lemma SpellsSame(t: seq<Byte>, word: string)
    requires forall i :: 0 <= i < |word| ==> !('A' <= word[i] <= 'Z')
    ensures Spells(t, word) <==> Same(t, word)
  {
  }

  lemma Named(name: seq<Byte>, code: Code, word: string)
    requires word in NamesOf(code) && Spells(name, word)
    ensures CodeNamed(name) == Some(code)
  {
    SpellsSame(name, word);
    var n := ToLower(name[0] as char);
    assert n == word[0];
    assert "sjis"[0] == 's' && "euc"[0] == 'e' && "jis"[0] == 'j' && "utf8"[0] == "utf-8"[0] == 'u';
  }

  lemma OneOrder(verb: Verb, ds: seq<Byte>, seg: seq<Byte>, t: seq<Byte>, c: Codes)
    requires ds == Digits(verb) && t == ds + [SEMICOLON] + seg && seg != [] && SEMICOLON !in seg
    ensures Obey(t, c) == Finish(verb, Act(verb, seg, c))
  {
    hide OrderOf, Act, Digits;
    assert Join([seg]) == seg;
    assert Joinable([seg]);
    assert t == Body(verb, [seg]);
    BodyOrders(verb, [seg]);
    ActOne(verb, seg, c);
  }

  lemma ActOne(verb: Verb, seg: seq<Byte>, c: Codes)
    ensures ActAll(verb, [seg], c) == Act(verb, seg, c)
  {
    hide Act;
    assert [seg][1..] == [];
  }

  lemma SetOneSide(side: Side, eq: seq<Byte>, name: seq<Byte>, code: Code, word: string, c: Codes)
    requires Spells(eq, Equals(side)) && word in NamesOf(code) && Spells(name, word)
    ensures SetOne(eq + name, c) ==
            if side == Transmit then c.(send := code, tsSend := code) else c.(echo := code, tsEcho := code)
  {
    SpellsSame(eq, Equals(side));
    var seg := eq + name;
    assert seg[3..] == name;
    assert Starts(seg, Equals(side)) by {
      assert forall i :: 0 <= i < 3 ==> seg[i] == eq[i];
    }
    assert ToLower(seg[1] as char) == Equals(side)[1];
    assert "kt="[1] != "kr="[1];
    hide Spells, Same;
    Named(name, code, word);
  }

  lemma NoSemicolon(t: seq<Byte>, word: string)
    requires Spells(t, word) && forall i :: 0 <= i < |word| ==> word[i] != ';'
    ensures SEMICOLON !in t
  {
  }

  /** "5963;kt=" or "5963;kr=" and a name, all in any case, set exactly the code of that side. */
  lemma SetNamed(side: Side, eq: seq<Byte>, name: seq<Byte>, code: Code, word: string, c: Codes)
    requires Spells(eq, Equals(side)) && word in NamesOf(code) && Spells(name, word)
    ensures var r := Obey(Chars("5963;") + eq + name, c);
            && CodeOf(side, r) == SettingOf(side, r) == code
            && CodeOf(OtherSide(side), r) == CodeOf(OtherSide(side), c)
            && SettingOf(OtherSide(side), r) == SettingOf(OtherSide(side), c)
            && Stack(Transmit, r) == Stack(Transmit, c) && Stack(Receive, r) == Stack(Receive, c)
            && r.typed == c.typed
  {
    var ds: seq<Byte> := [53, 57, 54, 51];
    var t := Chars("5963;") + eq + name;
    assert Chars("5963;") == ds + [SEMICOLON];
    assert t == ds + [SEMICOLON] + (eq + name);
    NoSemicolon(eq, Equals(side));
    NoSemicolon(name, word);
    OneOrder(Set, ds, eq + name, t, c);
    SetOneSide(side, eq, name, code, word, c);
  }

  /** The reply that names a code; none for a code without a name. */
  function Reported(side: Side, code: Code): seq<string> {
    match code
    case Sjis => if side == Transmit then ["kt=SJIS;"] else ["kr=SJIS;"]
    case Euc => if side == Transmit then ["kt=EUC;"] else ["kr=EUC;"]
    case Jis => if side == Transmit then ["kt=JIS;"] else ["kr=JIS;"]
    case Utf8 => if side == Transmit then ["kt=UTF8;"] else ["kr=UTF8;"]
    case OtherCode(_) => []
  }

  lemma ReplyIs(side: Side, code: Code)
    ensures Reply(Word(side), code) == Reported(side, code)
  {
    assert "kt" + "=SJIS;" == "kt=SJIS;" && "kt" + "=EUC;" == "kt=EUC;";
    assert "kt" + "=JIS;" == "kt=JIS;" && "kt" + "=UTF8;" == "kt=UTF8;";
    assert "kr" + "=SJIS;" == "kr=SJIS;" && "kr" + "=EUC;" == "kr=EUC;";
    assert "kr" + "=JIS;" == "kr=JIS;" && "kr" + "=UTF8;" == "kr=UTF8;";
  }

  /** "5964;kt" or "5964;kr", in any case, types the code of that side and a newline, and changes
      nothing. */
  lemma AskReports(side: Side, word: seq<Byte>, c: Codes)
    requires Spells(word, Word(side))
    ensures Obey(Chars("5964;") + word, c) == c.(typed := c.typed + Reported(side, CodeOf(side, c)) + ["\r"])
  {
    var ds: seq<Byte> := [53, 57, 54, 52];
    var t := Chars("5964;") + word;
    assert Chars("5964;") == ds + [SEMICOLON];
    assert t == ds + [SEMICOLON] + word;
    NoSemicolon(word, Word(side));
    OneOrder(Ask, ds, word, t, c);
    SpellsSame(word, Word(side));
    SidesDiffer(word);
    ReplyIs(side, CodeOf(side, c));
    hide Spells, Same, Reply, Reported;
  }

  /** What has been set by a name is what is reported. */
  lemma SetThenAsk(side: Side, eq: seq<Byte>, name: seq<Byte>, code: Code, word: string, ask: seq<Byte>, c: Codes)
    requires Spells(eq, Equals(side)) && word in NamesOf(code) && Spells(name, word) && Spells(ask, Word(side))
    ensures var r := Obey(Chars("5964;") + ask, Obey(Chars("5963;") + eq + name, c));
            r.typed == c.typed + Reported(side, code) + ["\r"] && CodeOf(side, r) == code
  {
    hide Obey, Reported, Spells, NamesOf;
    SetNamed(side, eq, name, code, word, c);
    AskReports(side, ask, Obey(Chars("5963;") + eq + name, c));
  }

  /** Any other name changes nothing. */
  lemma NotNamed(side: Side, eq: seq<Byte>, name: seq<Byte>, c: Codes)
    requires Spells(eq, Equals(side)) && SEMICOLON !in name
    requires !Spells(name, "sjis") && !Spells(name, "euc") && !Spells(name, "jis")
    requires !Spells(name, "utf8") && !Spells(name, "utf-8")
    ensures Obey(Chars("5963;") + eq + name, c) == c
  {
    var ds: seq<Byte> := [53, 57, 54, 51];
    var t := Chars("5963;") + eq + name;
    assert Chars("5963;") == ds + [SEMICOLON];
    assert t == ds + [SEMICOLON] + (eq + name);
    NoSemicolon(eq, Equals(side));
    OneOrder(Set, ds, eq + name, t, c);
    SpellsSame(name, "sjis");
    SpellsSame(name, "euc");
    SpellsSame(name, "jis");
    SpellsSame(name, "utf8");
    SpellsSame(name, "utf-8");
    assert (eq + name)[3..] == name;
  }

  /** The texts of `SaveAndRestore`, spelled out. */
  lemma SaveTexts()
    ensures Body(Save, [WordBytes(Transmit)]) == Chars("5965;kt")
    ensures Body(Save, [WordBytes(Receive)]) == Chars("5965;kr")
    ensures Body(Restore, [WordBytes(Transmit)]) == Chars("5966;kt")
    ensures Body(Restore, [WordBytes(Receive)]) == Chars("5966;kr")
  {
    assert Join([WordBytes(Transmit)]) == WordBytes(Transmit) && Join([WordBytes(Receive)]) == WordBytes(Receive);
    assert Chars("5965;kt") == [53, 57, 54, 53, 59, 107, 116] && Chars("5965;kr") == [53, 57, 54, 53, 59, 107, 114];
    assert Chars("5966;kt") == [53, 57, 54, 54, 59, 107, 116] && Chars("5966;kr") == [53, 57, 54, 54, 59, 107, 114];
  }
}
