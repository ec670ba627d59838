/** Kanji codes switched by operating-system commands in the received text: the collecting parser,
    the commands it obeys, and the two stacks on which the codes are saved. */
module OscParser {
  import opened Bytes
  import opened Letters
  import opened CText
  import opened Division
  import opened Wrappers

  const IN_BUFF_SIZE: nat := 0x1_0000
  const BEL: Byte := 0x07
  const ESC: Byte := 0x1b
  const ST: Byte := 0x9c
  const OSC: Byte := 0x9d
  const SEMICOLON: Byte := ';' as int

  datatype Mode = First | Esc | Osc | Esc2 | Proc

  datatype Code = Sjis | Euc | Jis | Utf8 | OtherCode(id: int)

  /** The codes in use, their copies in the settings, the saved codes (last first) and the replies
      typed so far. */
  datatype Codes = Codes(
    send: Code, echo: Code, tsSend: Code, tsEcho: Code,
    sendStack: seq<Code>, echoStack: seq<Code>, typed: seq<string>)

  datatype Verb = Set | Ask | Save | Restore

  // ----- What one command does

  predicate Starts(t: seq<Byte>, word: string) {
    |word| <= |t| && forall i :: 0 <= i < |word| ==> ToLower(t[i] as char) == word[i]
  }

  predicate Same(t: seq<Byte>, word: string) {
    |t| == |word| && Starts(t, word)
  }

  function CodeNamed(t: seq<Byte>): Option<Code> {
    if Same(t, "sjis") then Some(Sjis)
    else if Same(t, "euc") then Some(Euc)
    else if Same(t, "jis") then Some(Jis)
    else if Same(t, "utf8") || Same(t, "utf-8") then Some(Utf8)
    else None
  }

  function Reply(head: string, code: Code): seq<string> {
    match code
    case Sjis => [head + "=SJIS;"]
    case Euc => [head + "=EUC;"]
    case Jis => [head + "=JIS;"]
    case Utf8 => [head + "=UTF8;"]
    case OtherCode(_) => []
  }

  function SetOne(seg: seq<Byte>, c: Codes): Codes {
    if Starts(seg, "kt=") then
      match CodeNamed(seg[3..])
      case Some(k) => c.(send := k, tsSend := k)
      case None => c
    else if Starts(seg, "kr=") then
      match CodeNamed(seg[3..])
      case Some(k) => c.(echo := k, tsEcho := k)
      case None => c
    else c
  }

  function AskOne(seg: seq<Byte>, c: Codes): Codes {
    if Same(seg, "kt") then c.(typed := c.typed + Reply("kt", c.send))
    else if Same(seg, "kr") then c.(typed := c.typed + Reply("kr", c.echo))
    else c
  }

  function SaveOne(seg: seq<Byte>, c: Codes): Codes {
    if Same(seg, "kt") then c.(sendStack := [c.send] + c.sendStack)
    else if Same(seg, "kr") then c.(echoStack := [c.echo] + c.echoStack)
    else c
  }

  function RestoreOne(seg: seq<Byte>, c: Codes): Codes {
    if Same(seg, "kt") then
      if c.sendStack == [] then c
      else c.(send := c.sendStack[0], tsSend := c.sendStack[0], sendStack := c.sendStack[1..])
    else if Same(seg, "kr") then
      if c.echoStack == [] then c
      else c.(echo := c.echoStack[0], tsEcho := c.echoStack[0], echoStack := c.echoStack[1..])
    else c
  }

  function Act(verb: Verb, seg: seq<Byte>, c: Codes): Codes {
    match verb
    case Set => SetOne(seg, c)
    case Ask => AskOne(seg, c)
    case Save => SaveOne(seg, c)
    case Restore => RestoreOne(seg, c)
  }

  function ActAll(verb: Verb, segs: seq<seq<Byte>>, c: Codes): Codes {
    if segs == [] then c else ActAll(verb, segs[1..], Act(verb, segs[0], c))
  }

  /** Every question is closed with a newline. */
  function Finish(verb: Verb, c: Codes): Codes {
    if verb == Ask then c.(typed := c.typed + ["\r"]) else c
  }

  function VerbOf(number: UInt32): Option<Verb> {
    if number == 5963 then Some(Set)
    else if number == 5964 then Some(Ask)
    else if number == 5965 then Some(Save)
    else if number == 5966 then Some(Restore)
    else None
  }

  // ----- The text of a command

  /** The text in front of the first NUL. */
  function CString(s: seq<Byte>): seq<Byte> {
    if s == [] || s[0] == NUL then [] else [s[0]] + CString(s[1..])
  }

  function DigitCount(t: seq<Byte>): (k: nat)
    ensures k <= |t| && (k < |t| ==> !IsDigit(t[k] as char)) && forall i :: 0 <= i < k ==> IsDigit(t[i] as char)
  {
    if t == [] || !IsDigit(t[0] as char) then 0 else 1 + DigitCount(t[1..])
  }

  /** The number that decimal digits stand for. */
  function Decimal(ds: seq<Byte>): nat
    requires forall i :: 0 <= i < |ds| ==> IsDigit(ds[i] as char)
  {
    if ds == [] then 0
    else
      assert IsDigit(ds[|ds| - 1] as char);
      Decimal(ds[..|ds| - 1]) * 10 + (ds[|ds| - 1] - '0' as int)
  }

  function FindSemicolon(t: seq<Byte>): (k: nat)
    ensures k <= |t| && (k < |t| ==> t[k] == SEMICOLON) && forall i :: 0 <= i < k ==> t[i] != SEMICOLON
  {
    if t == [] || t[0] == SEMICOLON then 0 else 1 + FindSemicolon(t[1..])
  }

  /** The parts between semicolons; nothing follows a final semicolon. */
  function Segments(t: seq<Byte>): seq<seq<Byte>>
    decreases |t|
  {
    if t == [] then []
    else
      var k := FindSemicolon(t);
      [t[..k]] + if k == |t| then [] else Segments(t[k + 1..])
  }

  lemma SegmentsFirst(t: seq<Byte>, k: nat)
    requires t != [] && k == FindSemicolon(t)
    ensures Segments(t) == [t[..k]] + if k == |t| then [] else Segments(t[k + 1..])
  {
  }

  lemma Nothing(verb: Verb, c: Codes)
    ensures Segments([]) == [] && ActAll(verb, [], c) == c
  {
  }

  lemma ActAllFirst(verb: Verb, seg: seq<Byte>, segs: seq<seq<Byte>>, c: Codes)
    ensures ActAll(verb, [seg] + segs, c) == ActAll(verb, segs, Act(verb, seg, c))
  {
    assert ([seg] + segs)[1..] == segs;
  }

  function Join(segs: seq<seq<Byte>>): seq<Byte> {
    if segs == [] then []
    else if |segs| == 1 then segs[0]
    else segs[0] + [SEMICOLON] + Join(segs[1..])
  }

  predicate Joinable(segs: seq<seq<Byte>>) {
    (segs != [] ==> segs[|segs| - 1] != []) && forall i :: 0 <= i < |segs| ==> SEMICOLON !in segs[i]
  }

  lemma FindUnique(t: seq<Byte>, k: nat)
    requires k <= |t| && (k < |t| ==> t[k] == SEMICOLON) && forall i :: 0 <= i < k ==> t[i] != SEMICOLON
    ensures FindSemicolon(t) == k
  {
    assert FindSemicolon(t) >= k;
  }

  /** Splitting undoes joining. */
  lemma {:induction false} SegmentsJoin(segs: seq<seq<Byte>>)
    requires Joinable(segs)
    ensures Segments(Join(segs)) == segs
  {
    var t := Join(segs);
    if |segs| == 1 {
      FindUnique(t, |t|);
      assert t[..|t|] == t && segs == [t];
    } else if |segs| > 1 {
      FindUnique(t, |segs[0]|);
      assert t[..|segs[0]|] == segs[0] && t[|segs[0]| + 1..] == Join(segs[1..]);
      SegmentsJoin(segs[1..]);
    }
  }

  datatype Order = Order(verb: Verb, segs: seq<seq<Byte>>)

  /** What a command text orders: a number, modulo the word size, and behind a semicolon its
      segments. Other commands are not for this parser. */
  function OrderOf(t: seq<Byte>): Option<Order> {
    var k := DigitCount(t);
    if k == 0 || k == |t| || t[k] != SEMICOLON then None
    else
      match VerbOf(Decimal(t[..k]) % 0x1_0000_0000)
      case None => None
      case Some(verb) => Some(Order(verb, Segments(t[k + 1..])))
  }

  function Obey(t: seq<Byte>, c: Codes): Codes {
    match OrderOf(t)
    case None => c
    case Some(o) => Finish(o.verb, ActAll(o.verb, o.segs, c))
  }

  // ----- The parser, one byte at a time

  datatype State = State(mode: Mode, buff: seq<Byte>, codes: Codes)

  /** What holds between two bytes. */
  predicate Settled(s: State) {
    && s.mode != Proc && |s.buff| < IN_BUFF_SIZE - 1
    && (s.mode == First || s.mode == Esc ==> s.buff == [])
  }

  /** Eight-bit controls are taken only in EUC and JIS, on a terminal that accepts them. */
  predicate AcceptC1(c1: bool, c: Codes) {
    (c.echo == Euc || c.echo == Jis) && c1
  }

  function CommandText(buff: seq<Byte>): seq<Byte> {
    CString(if |buff| < IN_BUFF_SIZE then buff else buff[..IN_BUFF_SIZE - 1])
  }

  function Processed(s: State): State {
    State(First, [], Obey(CommandText(s.buff), s.codes))
  }

  /** A buffer that has become full is processed at once. */
  function Collected(mode: Mode, buff: seq<Byte>, codes: Codes): State {
    var s := State(mode, buff, codes);
    if |buff| >= IN_BUFF_SIZE - 1 then Processed(s) else s
  }

  function Step(c1: bool, s: State, b: Byte): (r: State)
    requires Settled(s)
    ensures Settled(r)
  {
    match s.mode
    case First =>
      if b == ESC then s.(mode := Esc)
      else if b == OSC && AcceptC1(c1, s.codes) then s.(mode := Osc)
      else s
    case Esc => s.(mode := if b == ']' as int then Osc else First)
    case Osc =>
      if b == ESC then s.(mode := Esc2)
      else if b == BEL || (b == ST && AcceptC1(c1, s.codes)) then Processed(s)
      else Collected(Osc, s.buff + [b], s.codes)
    case Esc2 =>
      if b == '\\' as int then Processed(s)
      else Collected(Osc, s.buff + [ESC, b], s.codes)
  }

  function Steps(c1: bool, s: State, input: seq<Byte>): (r: State)
    requires Settled(s)
    ensures Settled(r)
    decreases |input|
  {
    if input == [] then s else Step(c1, Steps(c1, s, input[..|input| - 1]), input[|input| - 1])
  }

  /** Final state and replies do not depend on how the stream is split into calls. */
  lemma {:induction false} StepsConcat(c1: bool, s: State, a: seq<Byte>, b: seq<Byte>)
    requires Settled(s)
    ensures Steps(c1, s, a + b) == Steps(c1, Steps(c1, s, a), b)
    decreases |b|
  {
    hide Step, Settled;
    if b == [] {
      assert a + b == a;
    } else {
      var n := |b| - 1;
      assert (a + b)[..|a + b| - 1] == a + b[..n] && (a + b)[|a + b| - 1] == b[n];
      StepsConcat(c1, s, a, b[..n]);
    }
  }

  /** The command texts that are processed on one byte, at most one. */
  function Told(c1: bool, s: State, b: Byte): (r: seq<seq<Byte>>)
    ensures |r| <= 1
  {
    match s.mode
    case Osc =>
      if b == ESC then []
      else if b == BEL || (b == ST && AcceptC1(c1, s.codes)) then [CommandText(s.buff)]
      else Full(s.buff + [b])
    case Esc2 => if b == '\\' as int then [CommandText(s.buff)] else Full(s.buff + [ESC, b])
    case _ => []
  }

  function Full(buff: seq<Byte>): seq<seq<Byte>> {
    if |buff| >= IN_BUFF_SIZE - 1 then [CommandText(buff)] else []
  }

  /** The command texts that are processed while `input` is read, in order. */
  function Heard(c1: bool, s: State, input: seq<Byte>): seq<seq<Byte>>
    requires Settled(s)
    decreases |input|
  {
    if input == [] then []
    else
      var n := |input| - 1;
      Heard(c1, s, input[..n]) + Told(c1, Steps(c1, s, input[..n]), input[n])
  }

  function ObeyAll(texts: seq<seq<Byte>>, c: Codes): Codes
    decreases |texts|
  {
    if texts == [] then c else Obey(texts[|texts| - 1], ObeyAll(texts[..|texts| - 1], c))
  }

  lemma StepTold(c1: bool, s: State, b: Byte)
    requires Settled(s)
    ensures Step(c1, s, b).codes ==
            if Told(c1, s, b) == [] then s.codes else Obey(Told(c1, s, b)[0], s.codes)
  {
    hide Obey, CommandText;
  }

  /** Whatever is received, codes, stacks and replies are those of the commands heard. */
  lemma {:induction false} CodesHeard(c1: bool, s: State, input: seq<Byte>)
    requires Settled(s)
    ensures Steps(c1, s, input).codes == ObeyAll(Heard(c1, s, input), s.codes)
    decreases |input|
  {
    hide Step, Told, Obey, Settled;
    if input != [] {
      var n := |input| - 1;
      var before := Heard(c1, s, input[..n]);
      var told := Told(c1, Steps(c1, s, input[..n]), input[n]);
      CodesHeard(c1, s, input[..n]);
      StepTold(c1, Steps(c1, s, input[..n]), input[n]);
      if told == [] {
        assert before + told == before;
      } else {
        assert (before + told)[..|before|] == before;
      }
    }
  }

  lemma {:induction false} HeardConcat(c1: bool, s: State, a: seq<Byte>, b: seq<Byte>)
    requires Settled(s)
    ensures Heard(c1, s, a + b) == Heard(c1, s, a) + Heard(c1, Steps(c1, s, a), b)
    decreases |b|
  {
    hide Step, Told, Settled, Steps;
    if b == [] {
      assert a + b == a;
    } else {
      var n := |b| - 1;
      assert (a + b)[..|a + b| - 1] == a + b[..n] && (a + b)[|a + b| - 1] == b[n];
      StepsConcat(c1, s, a, b[..n]);
      HeardConcat(c1, s, a, b[..n]);
    }
  }

  function Calls(c1: bool, s: State, chunks: seq<seq<Byte>>): (r: State)
    requires Settled(s)
    ensures Settled(r)
    decreases |chunks|
  {
    if chunks == [] then s else Calls(c1, Steps(c1, s, chunks[0]), chunks[1..])
  }

  lemma {:induction false} SplitIndependence(c1: bool, s: State, chunks: seq<seq<Byte>>)
    requires Settled(s)
    ensures Calls(c1, s, chunks) == Steps(c1, s, Flatten(chunks))
    decreases |chunks|
  {
    hide Step, Settled;
    if chunks != [] {
      StepsConcat(c1, s, chunks[0], Flatten(chunks[1..]));
      SplitIndependence(c1, Steps(c1, s, chunks[0]), chunks[1..]);
    }
  }

  // ----- The parser as it runs

  lemma {:induction false} CStringIs(s: seq<Byte>, e: nat)
    requires e <= |s| && (e < |s| ==> s[e] == NUL) && forall i :: 0 <= i < e ==> s[i] != NUL
    ensures CString(s) == s[..e]
  {
    if e > 0 {
      CStringIs(s[1..], e - 1);
      assert s[..e] == [s[0]] + s[1..][..e - 1];
    }
  }

  lemma {:induction false} CStringShape(s: seq<Byte>)
    ensures var n := |CString(s)|; n <= |s| && CString(s) == s[..n] && (n < |s| ==> s[n] == NUL)
    ensures NUL !in CString(s)
  {
    if s != [] && s[0] != NUL {
      CStringShape(s[1..]);
      var n := |CString(s[1..])|;
      assert s[..n + 1] == [s[0]] + s[1..][..n];
    }
  }

  lemma DigitsUnique(t: seq<Byte>, k: nat)
    requires k <= |t| && (k < |t| ==> !IsDigit(t[k] as char)) && forall i :: 0 <= i < k ==> IsDigit(t[i] as char)
    ensures DigitCount(t) == k
  {
    assert DigitCount(t) >= k;
  }

  class Parser {
    const c1: bool
    const buff: array<Byte>
    var mode: Mode
    var blen: nat
    var codes: Codes

    ghost predicate Sound()
      reads this
    {
      buff.Length == IN_BUFF_SIZE && blen <= IN_BUFF_SIZE
    }

    ghost function Abs(): State
      reads this, buff
      requires Sound()
    {
      State(mode, buff[..blen], codes)
    }

    ghost predicate Valid()
      reads this, buff
    {
      Sound() && Settled(Abs())
    }

    constructor (c1: bool, codes: Codes)
      ensures Valid() && fresh(buff) && this.c1 == c1
      ensures Abs() == State(First, [], codes)
    {
      this.c1, this.codes, mode, blen := c1, codes, First, 0;
      buff := new Byte[IN_BUFF_SIZE];
    }

    /** Parses what one read has received. A byte that completes a command is looked at twice. */
    method ParseInputStr(rstr: seq<Byte>)
      requires Valid()
      modifies this, buff
      ensures Valid() && Abs() == Steps(c1, old(Abs()), rstr)
    {
      hide Step, Processed;
      var i: int := 0;
      ghost var s0 := Abs();
      while i < |rstr|
        invariant 0 <= i <= |rstr| && Sound()
        invariant mode != Proc ==> Valid() && Abs() == Steps(c1, s0, rstr[..i])
        invariant mode == Proc ==> i < |rstr| && Processed(Abs()) == Steps(c1, s0, rstr[..i + 1])
        decreases |rstr| - i, if mode == Proc then 0 else 1
      {
        if mode == Proc {
          Process();
        } else {
          assert rstr[..i + 1][..i] == rstr[..i];
          var again := Collect(rstr[i]);
          if again {
            i := i - 1;
          }
        }
        i := i + 1;
      }
      assert rstr[..i] == rstr;
    }

    method Collect(b: Byte) returns (again: bool)
      requires Valid()
      modifies this`mode, this`blen, buff
      ensures Sound() && again == (mode == Proc)
      ensures again ==> Processed(Abs()) == Step(c1, old(Abs()), b)
      ensures !again ==> Valid() && Abs() == Step(c1, old(Abs()), b)
    {
      hide Obey, CommandText;
      again := false;
      if mode == First {
        if b == ESC {
          mode := Esc;
        } else if b == OSC && AcceptC1(c1, codes) {
          mode := Osc;
        }
      } else if mode == Esc {
        mode := if b == ']' as int then Osc else First;
      } else if mode == Osc {
        if b == ESC {
          mode := Esc2;
        } else if b == BEL || (b == ST && AcceptC1(c1, codes)) {
          mode, again := Proc, true;
        } else {
          if blen < IN_BUFF_SIZE - 1 {
            buff[blen] := b;
            blen := blen + 1;
            assert buff[..blen] == old(buff[..blen]) + [b];
          }
        }
        if blen >= IN_BUFF_SIZE - 1 {
          mode, again := Proc, true;
        }
      } else if b == '\\' as int {
        mode, again := Proc, true;
      } else {
        if blen < IN_BUFF_SIZE - 1 {
          buff[blen] := ESC;
          buff[blen + 1] := b;
          blen := blen + 2;
          assert buff[..blen] == old(buff[..blen]) + [ESC, b];
        }
        if blen >= IN_BUFF_SIZE - 1 {
          mode, again := Proc, true;
        } else {
          mode := Osc;
        }
      }
    }

    method StrChr(p: nat, ghost e: nat) returns (q: int)
      requires TextAt(buff, p, e)
      ensures q == -1 ==> FindSemicolon(buff[p..e]) == e - p
      ensures q != -1 ==> p <= q < e && FindSemicolon(buff[p..e]) == q - p && buff[q] == SEMICOLON
    {
      q := p;
      while buff[q] != NUL && buff[q] != SEMICOLON
        invariant p <= q <= e && forall k :: p <= k < q ==> buff[k] != SEMICOLON
        decreases e - q
      {
        q := q + 1;
      }
      FindUnique(buff[p..e], q - p);
      if buff[q] == NUL {
        q := -1;
      }
    }

    method CStringAt(p: nat, ghost e: nat) returns (s: seq<Byte>)
      requires TextAt(buff, p, e)
      ensures s == buff[p..e]
    {
      var q := p;
      while buff[q] != NUL
        invariant p <= q <= e
        decreases e - q
      {
        q := q + 1;
      }
      s := buff[p..q];
    }

    /** The segments that are still to be looked at; -1 stands for the null pointer. */
    ghost function Segs(p: int, e: int): seq<seq<Byte>>
      reads buff
      requires p == -1 || TextAt(buff, p, e)
    {
      if p == -1 then [] else Segments(buff[p..e])
    }

    /** The loop that the four commands share: every semicolon is overwritten with a NUL. */
    method ObeySegments(verb: Verb, start: nat, ghost e: nat)
      requires TextAt(buff, start, e)
      modifies this`codes, buff
      ensures codes == ActAll(verb, Segments(old(buff[start..e])), old(codes))
    {
      hide Act, ActAll, Segments, FindSemicolon;
      var p: int := start;
      ghost var goal := ActAll(verb, Segments(buff[start..e]), codes);
      while p != -1 && buff[p] != NUL
        invariant p == -1 || TextAt(buff, p, e)
        invariant ActAll(verb, Segs(p, e), codes) == goal
        decreases if p == -1 then 0 else e + 1 - p
      {
        ghost var t := buff[p..e];
        var q := StrChr(p, e);
        ghost var e' := e;
        if q != -1 {
          buff[q] := NUL;
          e' := q;
          q := q + 1;
        }
        var seg := CStringAt(p, e');
        ghost var k := FindSemicolon(t);
        SegmentsFirst(t, k);
        assert seg == t[..k];
        assert q != -1 ==> buff[q..e] == t[k + 1..];
        ActAllFirst(verb, seg, Segs(q, e), codes);
        codes := Act(verb, seg, codes);
        p := q;
      }
      assert p == -1 || p == e;
      Nothing(verb, codes);
      assert p == e ==> buff[p..e] == [];
    }

    method Number(ghost t: seq<Byte>) returns (p: nat, func: UInt32)
      requires buff.Length > |t| && buff[..|t|] == t && TextAt(buff, 0, |t|)
      ensures p == DigitCount(t) && func == Decimal(t[..p]) % 0x1_0000_0000
    {
      p, func := 0, 0;
      while IsDigit(buff[p] as char)
        invariant p <= |t| && forall i :: 0 <= i < p ==> IsDigit(t[i] as char)
        invariant func == Decimal(t[..p]) % 0x1_0000_0000
        decreases |t| - p
      {
        assert t[p] == buff[p];
        assert t[..p + 1][..p] == t[..p];
        Wrap(Decimal(t[..p]), buff[p] - '0' as int);
        func := (func * 10 + buff[p] - '0' as int) % 0x1_0000_0000;
        p := p + 1;
      }
      assert p < |t| ==> t[p] == buff[p];
      DigitsUnique(t, p);
    }

    method Process()
      requires Sound() && mode == Proc
      modifies this, buff
      ensures Valid() && Abs() == Processed(old(Abs()))
    {
      hide ActAll, Segments, Decimal, CString, VerbOf, Finish;
      ghost var was, c := buff[..blen], codes;
      ghost var t := CommandText(was);
      TextInBuffer(was);
      buff[if blen < IN_BUFF_SIZE then blen else IN_BUFF_SIZE - 1] := NUL;
      assert buff[..|t|] == t;
      assert buff[|t|] == NUL;
      blen, mode := 0, First;
      var p, func := Number(t);
      assert p < |t| ==> buff[p] == t[p];
      if buff[p] != SEMICOLON || p == 0 {
        return;
      }
      p := p + 1;
      var verb := VerbOf(func);
      if verb.Some? {
        assert buff[p..|t|] == t[p..];
        ObeySegments(verb.value, p, |t|);
        codes := Finish(verb.value, codes);
      }
    }
  }

  lemma Wrap(n: nat, d: nat)
    ensures (n % 0x1_0000_0000 * 10 + d) % 0x1_0000_0000 == (n * 10 + d) % 0x1_0000_0000
  {
    var m := 0x1_0000_0000;
    var q := n / m;
    assert n == q * m + n % m;
    var x := n % m * 10 + d;
    assert n * 10 + d == q * 10 * m + x;
    Mod(q * 10, m, x);
  }

  lemma Mod(q: nat, m: nat, x: nat)
    requires m > 0
    ensures (q * m + x) % m == x % m
  {
    assert m * (q + x / m) == m * q + m * (x / m);
    QuotientUnique(q * m + x, m, q + x / m, x % m);
  }

  lemma TextInBuffer(buff: seq<Byte>)
    requires |buff| <= IN_BUFF_SIZE
    ensures var t := CommandText(buff);
            && |t| <= |buff| && |t| < IN_BUFF_SIZE && t == buff[..|t|] && NUL !in t
            && (|t| < |buff| && |t| < IN_BUFF_SIZE - 1 ==> buff[|t|] == NUL)
  {
    CStringShape(if |buff| < IN_BUFF_SIZE then buff else buff[..IN_BUFF_SIZE - 1]);
  }
}
