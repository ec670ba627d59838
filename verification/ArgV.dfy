/** A command line cut into arguments, in place: quotes and backslashes are removed by moving the
    bytes of each argument to the left. */
module ArgV {
  import opened Bytes
  import opened CText

  const SPACE: Byte := ' ' as int
  const SINGLE: Byte := '\'' as int
  const DOUBLE: Byte := '\"' as int
  const BACKSLASH: Byte := '\\' as int

  /** The null pointer that closes the vector. */
  const NULL: int := -1

  predicate IsSpace(b: Byte) {
    b == SPACE || 9 <= b <= 13
  }

  datatype Quotes = Quotes(esc: bool, sq: bool, dq: bool)

  const PLAIN := Quotes(false, false, false)

  predicate Ends(q: Quotes, b: Byte) {
    IsSpace(b) && q == PLAIN
  }

  predicate Marks(q: Quotes, b: Byte) {
    !q.esc && ((b == SINGLE && !q.dq) || (b == DOUBLE && !q.sq) || b == BACKSLASH)
  }

  function Next(q: Quotes, b: Byte): Quotes {
    if !Marks(q, b) then q.(esc := false)
    else if b == SINGLE then q.(sq := !q.sq)
    else if b == DOUBLE then q.(dq := !q.dq)
    else q.(esc := true)
  }

  /** The argument at the start of `t`, unquoted. */
  function WordOf(t: seq<Byte>, q: Quotes): seq<Byte> {
    if t == [] || Ends(q, t[0]) then []
    else (if Marks(q, t[0]) then [] else [t[0]]) + WordOf(t[1..], Next(q, t[0]))
  }

  /** How much of `t` it takes up, the blank behind it included. */
  function WordTaken(t: seq<Byte>, q: Quotes): (n: nat)
    ensures n <= |t| && (t != [] ==> n > 0)
  {
    if t == [] then 0 else if Ends(q, t[0]) then 1 else 1 + WordTaken(t[1..], Next(q, t[0]))
  }

  function SkipCount(t: seq<Byte>): (k: nat)
    ensures k <= |t|
  {
    if t == [] || !IsSpace(t[0]) then 0 else 1 + SkipCount(t[1..])
  }

  /** At most `n` arguments. */
  function Tokens(t: seq<Byte>, n: nat): (r: seq<seq<Byte>>)
    ensures |r| <= n
    decreases n
  {
    var u := t[SkipCount(t)..];
    if n == 0 || u == [] then [] else [WordOf(u, PLAIN)] + Tokens(u[WordTaken(u, PLAIN)..], n - 1)
  }

  /** An argument is never longer than its quoted form; unless the line ends there, there is room
      for its NUL as well. */
  lemma {:induction false} WordFits(t: seq<Byte>, q: Quotes)
    ensures |WordOf(t, q)| <= WordTaken(t, q)
    ensures WordTaken(t, q) < |t| ==> |WordOf(t, q)| < WordTaken(t, q)
    ensures NUL !in t ==> NUL !in WordOf(t, q)
    decreases |t|
  {
    if t != [] && !Ends(q, t[0]) {
      WordFits(t[1..], Next(q, t[0]));
    }
  }

  // ----- Every way of writing arguments

  const IN_SINGLE := Quotes(false, true, false)
  const IN_DOUBLE := Quotes(false, false, true)

  /** A byte as it is, or behind a backslash. */
  datatype Char = Raw(b: Byte) | Esc(b: Byte)

  /** A piece of an argument: outside quotes, in single quotes or in double quotes. In either quotes a
      backslash protects the next byte. */
  datatype Piece = Bare(c: Char) | Single(chars: seq<Char>) | Double(chars: seq<Char>)

  /** What may stand without a backslash outside quotes, in single and in double quotes. */
  predicate RawOk(q: Quotes, b: Byte) {
    if q == PLAIN then b !in {9, 10, 11, 12, 13, 32, 34, 39, 92}
    else if q == IN_SINGLE then b != 39 && b != 92
    else b != 34 && b != 92
  }

  predicate CharOk(q: Quotes, c: Char) {
    c.Raw? ==> RawOk(q, c.b)
  }

  predicate PieceOk(p: Piece) {
    match p
    case Bare(c) => CharOk(PLAIN, c)
    case Single(chars) => forall c :: c in chars ==> CharOk(IN_SINGLE, c)
    case Double(chars) => forall c :: c in chars ==> CharOk(IN_DOUBLE, c)
  }

  function CharText(c: Char): seq<Byte> {
    if c.Raw? then [c.b] else [92, c.b]
  }

  function CharsText(cs: seq<Char>): seq<Byte> {
    if cs == [] then [] else CharText(cs[0]) + CharsText(cs[1..])
  }

  function CharsValue(cs: seq<Char>): seq<Byte> {
    if cs == [] then [] else [cs[0].b] + CharsValue(cs[1..])
  }

  function PieceText(p: Piece): seq<Byte> {
    match p
    case Bare(c) => CharText(c)
    case Single(chars) => [39] + CharsText(chars) + [39]
    case Double(chars) => [34] + CharsText(chars) + [34]
  }

  function PieceValue(p: Piece): seq<Byte> {
    if p.Bare? then [p.c.b] else CharsValue(p.chars)
  }

  function ArgText(ps: seq<Piece>): seq<Byte> {
    if ps == [] then [] else PieceText(ps[0]) + ArgText(ps[1..])
  }

  /** The argument: the bytes of its pieces. */
  function ArgValue(ps: seq<Piece>): seq<Byte> {
    if ps == [] then [] else PieceValue(ps[0]) + ArgValue(ps[1..])
  }

  /** An argument as it is written, and the white space behind it. */
  datatype Written = Written(pieces: seq<Piece>, blanks: seq<Byte>)

  predicate Blank(s: seq<Byte>) {
    forall i :: 0 <= i < |s| ==> s[i] in {9, 10, 11, 12, 13, 32}
  }

  /** Arguments are made of at least one piece and separated by at least one blank. */
  predicate LineOk(ws: seq<Written>) {
    forall i :: 0 <= i < |ws| ==>
      && ws[i].pieces != [] && (forall p :: p in ws[i].pieces ==> PieceOk(p))
      && Blank(ws[i].blanks) && (i < |ws| - 1 ==> ws[i].blanks != [])
  }

  function LineText(ws: seq<Written>): seq<Byte> {
    if ws == [] then [] else ArgText(ws[0].pieces) + ws[0].blanks + LineText(ws[1..])
  }

  function LineValues(ws: seq<Written>): (r: seq<seq<Byte>>)
    ensures |r| == |ws|
  {
    if ws == [] then [] else [ArgValue(ws[0].pieces)] + LineValues(ws[1..])
  }

  lemma WordStep(b: Byte, rest: seq<Byte>, q: Quotes)
    ensures !Ends(q, b) ==>
              && WordOf([b] + rest, q) == (if Marks(q, b) then [] else [b]) + WordOf(rest, Next(q, b))
              && WordTaken([b] + rest, q) == 1 + WordTaken(rest, Next(q, b))
    ensures Ends(q, b) ==> WordOf([b] + rest, q) == [] && WordTaken([b] + rest, q) == 1
  {
    assert ([b] + rest)[1..] == rest;
  }

  /** `text` is read in state `q` as `value`, and leaves the state as it is. */
  predicate Reads(text: seq<Byte>, value: seq<Byte>, rest: seq<Byte>, q: Quotes) {
    && WordOf(text + rest, q) == value + WordOf(rest, q)
    && WordTaken(text + rest, q) == |text| + WordTaken(rest, q)
  }

  lemma CharRead(c: Char, rest: seq<Byte>, q: Quotes)
    requires (q == PLAIN || q == IN_SINGLE || q == IN_DOUBLE) && CharOk(q, c)
    ensures Reads(CharText(c), [c.b], rest, q)
  {
    hide WordOf, WordTaken;
    if c.Raw? {
      WordStep(c.b, rest, q);
    } else {
      WordStep(BACKSLASH, [c.b] + rest, q);
      WordStep(c.b, rest, q.(esc := true));
      assert CharText(c) + rest == [BACKSLASH] + ([c.b] + rest);
    }
  }

  lemma ReadsMore(t: seq<Byte>, v: seq<Byte>, t': seq<Byte>, v': seq<Byte>, rest: seq<Byte>, q: Quotes)
    requires Reads(t, v, t' + rest, q) && Reads(t', v', rest, q)
    ensures Reads(t + t', v + v', rest, q)
  {
    hide WordOf, WordTaken;
    assert (t + t') + rest == t + (t' + rest);
    assert (v + v') + WordOf(rest, q) == v + (v' + WordOf(rest, q));
  }

  lemma ReadsNothing(rest: seq<Byte>, q: Quotes)
    ensures Reads([], [], rest, q)
  {
    assert [] + rest == rest;
  }

  lemma {:induction false} CharsRead(cs: seq<Char>, rest: seq<Byte>, q: Quotes)
    requires (q == IN_SINGLE || q == IN_DOUBLE) && forall c :: c in cs ==> CharOk(q, c)
    ensures Reads(CharsText(cs), CharsValue(cs), rest, q)
    decreases |cs|
  {
    hide Reads, CharOk, CharText;
    if cs == [] {
      ReadsNothing(rest, q);
    } else {
      CharsRead(cs[1..], rest, q);
      CharRead(cs[0], CharsText(cs[1..]) + rest, q);
      ReadsMore(CharText(cs[0]), [cs[0].b], CharsText(cs[1..]), CharsValue(cs[1..]), rest, q);
    }
  }

  lemma QuotedRead(mark: Byte, cs: seq<Char>, rest: seq<Byte>, q: Quotes)
    requires (mark == 39 && q == IN_SINGLE) || (mark == 34 && q == IN_DOUBLE)
    requires forall c :: c in cs ==> CharOk(q, c)
    ensures Reads([mark] + CharsText(cs) + [mark], CharsValue(cs), rest, PLAIN)
  {
    hide WordOf, WordTaken, CharOk, CharsText, CharsValue;
    var t := CharsText(cs);
    WordStep(mark, t + ([mark] + rest), PLAIN);
    CharsRead(cs, [mark] + rest, q);
    WordStep(mark, rest, q);
    assert [mark] + t + [mark] + rest == [mark] + (t + ([mark] + rest));
  }

  lemma PieceRead(p: Piece, rest: seq<Byte>)
    requires PieceOk(p)
    ensures Reads(PieceText(p), PieceValue(p), rest, PLAIN)
  {
    hide Reads, CharOk;
    match p
    case Bare(c) => CharRead(c, rest, PLAIN);
    case Single(chars) => QuotedRead(39, chars, rest, IN_SINGLE);
    case Double(chars) => QuotedRead(34, chars, rest, IN_DOUBLE);
  }

  lemma {:induction false} ArgRead(ps: seq<Piece>, rest: seq<Byte>)
    requires forall p :: p in ps ==> PieceOk(p)
    ensures Reads(ArgText(ps), ArgValue(ps), rest, PLAIN)
    decreases |ps|
  {
    hide Reads, PieceOk, PieceText, PieceValue;
    if ps == [] {
      ReadsNothing(rest, PLAIN);
    } else {
      ArgRead(ps[1..], rest);
      PieceRead(ps[0], ArgText(ps[1..]) + rest);
      ReadsMore(PieceText(ps[0]), PieceValue(ps[0]), ArgText(ps[1..]), ArgValue(ps[1..]), rest, PLAIN);
    }
  }

  lemma ArgStarts(ps: seq<Piece>)
    requires ps != [] && PieceOk(ps[0])
    ensures ArgText(ps) != [] && !IsSpace(ArgText(ps)[0])
  {
    assert PieceText(ps[0]) != [] && !IsSpace(PieceText(ps[0])[0]);
  }

  lemma {:induction false} SkipBlanks(blanks: seq<Byte>, t: seq<Byte>)
    requires Blank(blanks)
    ensures SkipCount(blanks + t) == |blanks| + SkipCount(t)
    decreases |blanks|
  {
    if blanks == [] {
      assert blanks + t == t;
    } else {
      assert (blanks + t)[1..] == blanks[1..] + t;
      SkipBlanks(blanks[1..], t);
    }
  }

  lemma TokensStep(t: seq<Byte>, n: nat, u: seq<Byte>)
    requires u == t[SkipCount(t)..]
    ensures Tokens(t, n) ==
              if n == 0 || u == [] then [] else [WordOf(u, PLAIN)] + Tokens(u[WordTaken(u, PLAIN)..], n - 1)
  {
  }

  lemma TokensSkip(blanks: seq<Byte>, t: seq<Byte>, n: nat)
    requires Blank(blanks)
    ensures Tokens(blanks + t, n) == Tokens(t, n)
  {
    hide Tokens, SkipCount, WordOf, WordTaken, Blank;
    SkipBlanks(blanks, t);
    var u := t[SkipCount(t)..];
    assert (blanks + t)[SkipCount(blanks + t)..] == u;
    TokensStep(t, n, u);
    TokensStep(blanks + t, n, u);
  }

  /** The first argument, if `used` is what it takes up of a line. */
  lemma TokensAt(ps: seq<Piece>, rest: seq<Byte>, used: nat, n: nat)
    requires n > 0 && ps != [] && forall p :: p in ps ==> PieceOk(p)
    requires WordOf(rest, PLAIN) == [] && used == |ArgText(ps)| + WordTaken(rest, PLAIN)
    ensures used <= |ArgText(ps) + rest|
    ensures Tokens(ArgText(ps) + rest, n) == [ArgValue(ps)] + Tokens((ArgText(ps) + rest)[used..], n - 1)
  {
    hide Tokens, SkipCount, WordOf, WordTaken, ArgText, ArgValue, PieceOk;
    var u := ArgText(ps) + rest;
    ArgStarts(ps);
    ArgRead(ps, rest);
    assert ArgValue(ps) + [] == ArgValue(ps);
    NoSkip(u);
    TokensStep(u, n, u);
  }

  /** The first argument of a line, if it is followed by a blank or by nothing. */
  lemma TokensFirst(ps: seq<Piece>, blanks: seq<Byte>, t: seq<Byte>, n: nat)
    requires n > 0 && ps != [] && (forall p :: p in ps ==> PieceOk(p)) && Blank(blanks) && (blanks != [] || t == [])
    ensures Tokens(ArgText(ps) + blanks + t, n) == [ArgValue(ps)] + Tokens(t, n - 1)
  {
    hide Tokens, SkipCount, WordOf, WordTaken, ArgText, ArgValue, PieceOk, Blank;
    var a, rest := ArgText(ps), blanks + t;
    assert a + blanks + t == a + rest;
    if blanks == [] {
      NoWord(PLAIN);
      assert rest == [];
      TokensAt(ps, rest, |a|, n);
      assert (a + rest)[|a|..] == t;
    } else {
      BlankFirst(blanks);
      var more := blanks[1..] + t;
      assert rest == [blanks[0]] + more;
      WordStep(blanks[0], more, PLAIN);
      TokensAt(ps, rest, |a| + 1, n);
      assert (a + rest)[|a| + 1..] == more;
      TokensSkip(blanks[1..], t, n - 1);
    }
  }

  lemma BlankFirst(blanks: seq<Byte>)
    requires Blank(blanks) && blanks != []
    ensures IsSpace(blanks[0]) && Blank(blanks[1..])
  {
  }

  lemma NoSkip(t: seq<Byte>)
    requires t != [] && !IsSpace(t[0])
    ensures SkipCount(t) == 0 && t[SkipCount(t)..] == t
  {
  }

  lemma NoWord(q: Quotes)
    ensures WordOf([], q) == [] && WordTaken([], q) == 0
  {
  }

  /** However arguments are written and whatever white space separates them, the line is cut into
      exactly these arguments, or the first `n` of them. */
  lemma {:induction false} LineRead(lead: seq<Byte>, ws: seq<Written>, n: nat)
    requires Blank(lead) && LineOk(ws)
    ensures Tokens(lead + LineText(ws), n) == if n < |ws| then LineValues(ws)[..n] else LineValues(ws)
    decreases |ws|
  {
    hide Tokens, SkipCount, WordOf, WordTaken, ArgText, ArgValue, PieceOk, Blank;
    TokensSkip(lead, LineText(ws), n);
    if ws == [] || n == 0 {
      TokensStep(LineText(ws), n, LineText(ws)[SkipCount(LineText(ws))..]);
    } else {
      var w, rest := ws[0], ws[1..];
      assert forall i :: 0 <= i < |rest| ==> rest[i] == ws[i + 1];
      TokensFirst(w.pieces, w.blanks, LineText(rest), n);
      NoBlanks();
      LineRead([], rest, n - 1);
      assert [] + LineText(rest) == LineText(rest);
    }
  }

  lemma NoBlanks()
    ensures Blank([])
  {
  }

  /** Every argument, the empty one and any bytes included, can be written. */
  lemma {:induction false} Writable(w: seq<Byte>) returns (cs: seq<Char>)
    ensures PieceOk(Double(cs)) && PieceValue(Double(cs)) == w
  {
    cs := [];
    if w != [] {
      var more := Writable(w[1..]);
      cs := [Esc(w[0])] + more;
      assert cs[1..] == more;
    }
  }

  /** Quotes that are not closed reach to the end of the line. */
  lemma Unclosed(mark: Byte, cs: seq<Char>, n: nat)
    requires n > 0 && (mark == 39 || mark == 34)
    requires forall c :: c in cs ==> CharOk(if mark == 39 then IN_SINGLE else IN_DOUBLE, c)
    ensures Tokens([mark] + CharsText(cs), n) == [CharsValue(cs)]
  {
    hide Tokens, SkipCount, WordOf, WordTaken, CharOk, CharsText, CharsValue;
    var q := if mark == 39 then IN_SINGLE else IN_DOUBLE;
    var t := CharsText(cs);
    var u := [mark] + t;
    CharsRead(cs, [], q);
    NoWord(q);
    assert t + [] == t && CharsValue(cs) + [] == CharsValue(cs);
    WordStep(mark, t, PLAIN);
    assert WordOf(u, PLAIN) == CharsValue(cs) && WordTaken(u, PLAIN) == |u|;
    NoSkip(u);
    TokensStep(u, n, u);
    assert u[|u|..] == [];
    NothingLeft(n - 1);
  }

  /** A blank in single quotes does not end an argument, nor does one behind a backslash. */
  lemma QuotedBlank()
    ensures Tokens([39, 97, 32, 98, 39], 9) == [[97, 32, 98]]
    ensures Tokens([97, 92, 32, 98], 9) == [[97, 32, 98]]
  {
    hide Tokens;
    OneArg([Single([Raw(97), Raw(32), Raw(98)])]);
    OneArg([Bare(Raw(97)), Bare(Esc(32)), Bare(Raw(98))]);
    ThreeChars(Raw(97), Raw(32), Raw(98));
    ThreeBare(Raw(97), Esc(32), Raw(98));
    assert ArgText([Single([Raw(97), Raw(32), Raw(98)])]) == [39, 97, 32, 98, 39] by {
      OnePiece(Single([Raw(97), Raw(32), Raw(98)]));
    }
    OnePiece(Single([Raw(97), Raw(32), Raw(98)]));
    assert ArgText([Bare(Raw(97)), Bare(Esc(32)), Bare(Raw(98))]) == [97, 92, 32, 98];
  }

  lemma OneArg(ps: seq<Piece>)
    requires ps != [] && forall p :: p in ps ==> PieceOk(p)
    ensures Tokens(ArgText(ps), 9) == [ArgValue(ps)]
  {
    hide Tokens, ArgText, ArgValue, PieceOk;
    TokensFirst(ps, [], [], 9);
    assert ArgText(ps) + [] + [] == ArgText(ps);
    NothingLeft(8);
  }

  lemma NothingLeft(n: nat)
    ensures Tokens([], n) == []
  {
  }

  lemma OnePiece(p: Piece)
    ensures ArgText([p]) == PieceText(p) && ArgValue([p]) == PieceValue(p)
  {
    assert [p][1..] == [];
    assert ArgText([p]) == PieceText(p) + [] && ArgValue([p]) == PieceValue(p) + [];
  }

  lemma ThreeChars(a: Char, b: Char, c: Char)
    ensures CharsText([a, b, c]) == CharText(a) + CharText(b) + CharText(c)
    ensures CharsValue([a, b, c]) == [a.b, b.b, c.b]
  {
    assert [a, b, c][1..] == [b, c] && [b, c][1..] == [c] && [c][1..] == [];
    assert CharsText([c]) == CharText(c) && CharsValue([c]) == [c.b];
    assert CharsText([b, c]) == CharText(b) + CharText(c) && CharsValue([b, c]) == [b.b, c.b];
  }

  lemma ThreeBare(a: Char, b: Char, c: Char)
    ensures ArgText([Bare(a), Bare(b), Bare(c)]) == CharText(a) + CharText(b) + CharText(c)
    ensures ArgValue([Bare(a), Bare(b), Bare(c)]) == [a.b, b.b, c.b]
  {
    hide CharText;
    var ps := [Bare(a), Bare(b), Bare(c)];
    assert ps[1..] == [Bare(b), Bare(c)] && [Bare(b), Bare(c)][1..] == [Bare(c)];
    OnePiece(Bare(c));
    assert ArgText([Bare(b), Bare(c)]) == CharText(b) + CharText(c);
    assert ArgValue([Bare(b), Bare(c)]) == [b.b] + [c.b];
  }

  // ----- In place

  /** An argument as a C string inside the text. */
  predicate StoredAt(mem: seq<Byte>, p: int, word: seq<Byte>) {
    0 <= p && p + |word| < |mem| && mem[p..p + |word|] == word && mem[p + |word|] == NUL && NUL !in word
  }

  /** The arguments found so far, all of them in front of `s`. */
  predicate AllStored(mem: seq<Byte>, at: seq<int>, words: seq<seq<Byte>>, s: int) {
    |at| == |words| && forall i :: 0 <= i < |words| ==> StoredAt(mem, at[i], words[i]) && at[i] + |words[i]| < s
  }

  lemma StillStored(before: seq<Byte>, after: seq<Byte>, at: seq<int>, words: seq<seq<Byte>>, s: int, s': int)
    requires AllStored(before, at, words, s') && s' <= s
    requires |before| == |after| && forall k :: 0 <= k < s && k < |before| ==> after[k] == before[k]
    ensures AllStored(after, at, words, s)
  {
    forall i | 0 <= i < |words| ensures StoredAt(after, at[i], words[i]) {
      var p, n := at[i], |words[i]|;
      assert StoredAt(before, p, words[i]);
      assert after[p..p + n] == before[p..p + n];
    }
  }

  lemma NoneStored(mem: seq<Byte>, s: int)
    ensures AllStored(mem, [], [], s)
  {
  }

  lemma EachStored(mem: seq<Byte>, at: seq<int>, words: seq<seq<Byte>>, s: int)
    requires AllStored(mem, at, words, s)
    ensures |at| == |words| && forall i :: 0 <= i < |words| ==> StoredAt(mem, at[i], words[i])
  {
    hide StoredAt;
  }

  lemma OneMoreStored(mem: seq<Byte>, at: seq<int>, words: seq<seq<Byte>>, s: int, word: seq<Byte>, next: int)
    requires AllStored(mem, at, words, s) && s <= next && StoredAt(mem, s, word) && s + |word| < next
    ensures AllStored(mem, at + [s], words + [word], next)
  {
  }

  /** Moves the bytes of the argument at `start` together, up to `p`. */
  method MoveWord(text: array<Byte>, start: nat, ghost e: nat) returns (p: nat, s: nat)
    requires TextAt(text, start, e) && start < e
    modifies text
    ensures var t := old(text[start..e]);
            && s == start + WordTaken(t, PLAIN) && start <= p <= s <= e
            && p == start + |WordOf(t, PLAIN)|
            && forall k :: 0 <= k < |WordOf(t, PLAIN)| ==> text[start + k] == WordOf(t, PLAIN)[k]
    ensures forall k :: 0 <= k < start || s <= k < text.Length ==> text[k] == old(text[k])
  {
    hide WordOf, WordTaken, Next, Marks;
    ghost var t := text[start..e];
    ghost var goal, word: seq<Byte> := WordOf(t, PLAIN), [];
    s, p := start, start;
    var q := PLAIN;
    assert t[0..] == t;
    while text[s] != NUL
      invariant start <= p <= s <= e && p == start + |word|
      invariant forall k :: 0 <= k < start || s <= k < text.Length ==> text[k] == old(text[k])
      invariant forall k :: 0 <= k < |word| ==> text[start + k] == word[k]
      invariant word + WordOf(t[s - start..], q) == goal
      invariant s + WordTaken(t[s - start..], q) == start + WordTaken(t, PLAIN)
      decreases e - s
    {
      var c := text[s];
      ghost var rest := t[s + 1 - start..];
      assert t[s - start..] == [c] + rest;
      WordStep(c, rest, q);
      s := s + 1;
      if IsSpace(c) && q == PLAIN {
        return;
      }
      if !Marks(q, c) {
        text[p] := c;
        p := p + 1;
        word := word + [c];
        assert word + WordOf(rest, Next(q, c)) == goal;
      }
      q := Next(q, c);
    }
    assert t[s - start..] == [];
    NoWord(q);
  }

  /** Makes a C string of the argument at `start`; `s` is where the next one is looked for. */
  method TakeWord(text: array<Byte>, start: nat, ghost e: nat) returns (s: nat)
    requires TextAt(text, start, e) && start < e
    modifies text
    ensures var t := old(Rest(text, start, e));
            && start < s <= e && StoredAt(text[..], start, WordOf(t, PLAIN))
            && (start + |WordOf(t, PLAIN)| < s || s == e)
            && Rest(text, s, e) == t[WordTaken(t, PLAIN)..]
    ensures TextAt(text, s, e)
    ensures forall k :: 0 <= k < start || s <= k < text.Length ==> text[k] == old(text[k])
  {
    hide WordOf, WordTaken, StoredAt;
    ghost var t, before := text[start..e], text[..];
    WordFits(t, PLAIN);
    var p;
    p, s := MoveWord(text, start, e);
    text[p] := NUL;
    WordStored(text[..], start, WordOf(t, PLAIN));
    BehindKept(before, text[..], start, s, e);
  }

  lemma BehindKept(before: seq<Byte>, after: seq<Byte>, start: nat, s: nat, e: nat)
    requires start <= s <= e <= |before| == |after| && forall k :: s <= k < e ==> after[k] == before[k]
    ensures after[s..e] == before[start..e][s - start..]
  {
  }

  lemma WordStored(mem: seq<Byte>, start: nat, word: seq<Byte>)
    requires start + |word| < |mem| && mem[start + |word|] == NUL && NUL !in word
    requires forall k :: 0 <= k < |word| ==> mem[start + k] == word[k]
    ensures StoredAt(mem, start, word)
  {
    assert mem[start..start + |word|] == word;
  }

  method SkipSpaces(text: array<Byte>, start: nat, ghost e: nat, ghost n: nat) returns (s: nat, ghost u: seq<Byte>)
    requires TextAt(text, start, e)
    ensures start <= s <= e && TextAt(text, s, e) && u == Rest(text, s, e) && |u| == e - s
    ensures Tokens(Rest(text, start, e), n) ==
              if n == 0 || u == [] then [] else [WordOf(u, PLAIN)] + Tokens(u[WordTaken(u, PLAIN)..], n - 1)
  {
    hide SkipCount, Tokens, WordOf, WordTaken;
    s := start;
    assert text[s..e] == text[start..e];
    while IsSpace(text[s])
      invariant start <= s <= e && s + SkipCount(text[s..e]) == start + SkipCount(text[start..e])
      decreases e - s
    {
      SkipStep(text[s..e]);
      assert text[s..e][1..] == text[s + 1..e];
      s := s + 1;
    }
    SkipStep(text[s..e]);
    u := text[s..e];
    ghost var t := text[start..e];
    assert u == t[SkipCount(t)..];
    TokensStep(t, n, u);
  }

  lemma SkipStep(t: seq<Byte>)
    ensures SkipCount(t) == if t == [] || !IsSpace(t[0]) then 0 else 1 + SkipCount(t[1..])
  {
  }

  /** Fills the vector with at most `maxc - 1` arguments and closes it with NULL. */
  method GetArgv(argv: array<int>, maxc: int, text: array<Byte>, ghost e: nat)
    requires 1 <= maxc <= argv.Length && TextAt(text, 0, e)
    modifies argv, text
    ensures var words := Tokens(old(text[..e]), maxc - 1);
            && argv[|words|] == NULL
            && (forall i :: 0 <= i < |words| ==> StoredAt(text[..], argv[i], words[i]))
            && (forall i :: |words| < i < argv.Length ==> argv[i] == old(argv[i]))
    ensures forall k :: e < k < text.Length ==> text[k] == old(text[k])
  {
    hide WordOf, WordTaken, SkipCount, Tokens, StoredAt, AllStored, Rest, TextAt;
    TextRange(text, 0, e);
    ghost var t := Rest(text, 0, e);
    assert t == text[..e] by { AllRest(text, e); }
    ghost var words: seq<seq<Byte>> := [];
    ghost var at: seq<int> := [];
    ghost var bound := 0;
    var s, argc := 0, 0;
    NoneStored(text[..], bound);
    while argc < maxc - 1
      invariant 0 <= argc <= maxc - 1 && argc == |words| && TextAt(text, s, e) && 0 <= s <= e < text.Length
      invariant words + Tokens(Rest(text, s, e), maxc - 1 - argc) == Tokens(t, maxc - 1)
      invariant AllStored(text[..], at, words, bound) && (s < e ==> bound <= s)
      invariant |at| == argc && forall i :: 0 <= i < argc ==> argv[i] == at[i]
      invariant forall i :: argc <= i < argv.Length ==> argv[i] == old(argv[i])
      invariant forall k :: e < k < text.Length ==> text[k] == old(text[k])
    {
      ghost var u;
      s, u := SkipSpaces(text, s, e, maxc - 1 - argc);
      TextRange(text, s, e);
      if text[s] == NUL {
        break;
      }
      ghost var before := text[..];
      ghost var word := WordOf(u, PLAIN);
      argv[argc] := s;
      var next := TakeWord(text, s, e);
      TextRange(text, next, e);
      StillStored(before, text[..], at, words, s, bound);
      bound := s + |word| + 1;
      OneMoreStored(text[..], at, words, s, word, bound);
      words, at := words + [word], at + [s];
      s := next;
      argc := argc + 1;
    }
    EachStored(text[..], at, words, bound);
    argv[argc] := NULL;
  }

  lemma TextRange(a: array<Byte>, i: int, e: int)
    requires TextAt(a, i, e)
    ensures 0 <= i <= e < a.Length && (a[i] == NUL <==> i == e)
  {
  }

  lemma AllRest(a: array<Byte>, e: int)
    requires 0 <= e < a.Length
    ensures Rest(a, 0, e) == a[..e]
  {
  }
}
