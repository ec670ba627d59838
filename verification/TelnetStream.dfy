/** Telnet byte streams (RFC 854): what a conforming stream is, the data it carries, and the
    functions that the sender and the two independent receivers of Tera Term compute on it. */
module TelnetStream {
  import opened Bytes

  const IAC: Byte := 255
  const WILL: Byte := 251
  const DONT: Byte := 254
  const SB: Byte := 250
  const SE: Byte := 240
  const TERMINAL_TYPE: Byte := 24
  const NAWS: Byte := 31
  const CR: Byte := 13
  const LF: Byte := 10

  /** One unit of a telnet stream. */
  datatype Item =
    | Data(b: Byte)
    | Command(cmd: Byte)
    | Negotiation(cmd: Byte, option: Byte)
    | Subnegotiation(body: seq<Byte>)

  /** What RFC 854 allows on the wire; subnegotiation bodies free of IAC. */
  predicate WellFormed(it: Item) {
    match it
    case Data(_) => true
    case Command(cmd) => cmd < SB
    case Negotiation(cmd, _) => WILL <= cmd <= DONT
    case Subnegotiation(body) => IAC !in body
  }

  /** What may arrive during a session: a window size is four bytes long and the terminal type
      has been settled before. */
  predicate SessionItem(it: Item) {
    WellFormed(it) &&
    (it.Subnegotiation? && it.body != [] ==>
       it.body[0] != TERMINAL_TYPE && (it.body[0] == NAWS ==> |it.body| == 5))
  }

  function ItemWire(it: Item): seq<Byte> {
    match it
    case Data(b) => if b == IAC then [IAC, IAC] else [b]
    case Command(cmd) => [IAC, cmd]
    case Negotiation(cmd, option) => [IAC, cmd, option]
    case Subnegotiation(body) => [IAC, SB] + body + [IAC, SE]
  }

  function Wire(items: seq<Item>): seq<Byte> {
    if items == [] then [] else ItemWire(items[0]) + Wire(items[1..])
  }

  /** The data bytes of a stream, commands removed and IAC unescaped. */
  function Payload(items: seq<Item>): seq<Byte> {
    if items == [] then [] else ItemData(items[0]) + Payload(items[1..])
  }

  function ItemData(it: Item): seq<Byte> {
    if it.Data? then [it.b] else []
  }

  function DataItems(s: seq<Byte>): seq<Item> {
    if s == [] then [] else [Data(s[0])] + DataItems(s[1..])
  }

  lemma {:induction false} DataItemsPayload(s: seq<Byte>)
    ensures Payload(DataItems(s)) == s
    ensures forall it :: it in DataItems(s) ==> it.Data?
  {
    if s != [] {
      DataItemsPayload(s[1..]);
      assert DataItems(s)[1..] == DataItems(s[1..]);
    }
  }

  lemma {:induction false} PayloadConcat(a: seq<Item>, b: seq<Item>)
    ensures Payload(a + b) == Payload(a) + Payload(b)
  {
    if a == [] {
      assert a + b == b;
    } else {
      assert (a + b)[0] == a[0] && (a + b)[1..] == a[1..] + b;
      PayloadConcat(a[1..], b);
      assert ItemData(a[0]) + (Payload(a[1..]) + Payload(b)) == (ItemData(a[0]) + Payload(a[1..])) + Payload(b);
    }
  }

  lemma {:induction false} WireConcat(a: seq<Item>, b: seq<Item>)
    ensures Wire(a + b) == Wire(a) + Wire(b)
  {
    if a == [] {
      assert a + b == b;
    } else {
      assert (a + b)[0] == a[0] && (a + b)[1..] == a[1..] + b;
      WireConcat(a[1..], b);
      assert ItemWire(a[0]) + (Wire(a[1..]) + Wire(b)) == (ItemWire(a[0]) + Wire(a[1..])) + Wire(b);
    }
  }

  // ----- The sender: cygterm doubles every IAC that the shell prints.

  function EscapeIac(s: seq<Byte>): seq<Byte> {
    if s == [] then [] else (if s[0] == IAC then [IAC, IAC] else [s[0]]) + EscapeIac(s[1..])
  }

  lemma {:induction false} EscapeIacConcat(a: seq<Byte>, b: seq<Byte>)
    ensures EscapeIac(a + b) == EscapeIac(a) + EscapeIac(b)
  {
    if a == [] {
      assert a + b == b;
    } else {
      assert (a + b)[1..] == a[1..] + b;
      EscapeIacConcat(a[1..], b);
    }
  }

  lemma {:induction false} EscapeIacIsWire(s: seq<Byte>)
    ensures EscapeIac(s) == Wire(DataItems(s))
  {
    if s != [] {
      EscapeIacIsWire(s[1..]);
      assert DataItems(s)[1..] == DataItems(s[1..]);
    }
  }

  // ----- The recorder: a five-state machine that removes commands byte by byte.

  /** The numbers the plugin keeps in `tel_mode`: 0 data, 1 after IAC, 2 before a negotiated
      option, 3 in a subnegotiation, 4 after IAC in a subnegotiation. */
  type Mode = m: int | 0 <= m <= 4

  function NextMode(mode: Mode, b: Byte): Mode {
    match mode
    case 0 => if b == IAC then 1 else 0
    case 1 => if WILL <= b <= DONT then 2 else if b == SB then 3 else 0
    case 2 => 0
    case 3 => if b == IAC then 4 else 3
    case 4 => if b == SE then 0 else if b == IAC then 4 else 3
  }

  function Kept(mode: Mode, b: Byte): seq<Byte> {
    if (mode == 0 && b != IAC) || (mode == 1 && b == IAC) then [b] else []
  }

  function StripMode(mode: Mode, s: seq<Byte>): Mode
    decreases |s|
  {
    if s == [] then mode else StripMode(NextMode(mode, s[0]), s[1..])
  }

  function Strip(mode: Mode, s: seq<Byte>): seq<Byte>
    decreases |s|
  {
    if s == [] then [] else Kept(mode, s[0]) + Strip(NextMode(mode, s[0]), s[1..])
  }

  /** Stripping is independent of how the stream is cut into reads. */
  lemma {:induction false} StripConcat(mode: Mode, a: seq<Byte>, b: seq<Byte>)
    ensures StripMode(mode, a + b) == StripMode(StripMode(mode, a), b)
    ensures Strip(mode, a + b) == Strip(mode, a) + Strip(StripMode(mode, a), b)
    decreases |a|
  {
    hide NextMode, Kept;
    if a == [] {
      assert a + b == b;
    } else {
      assert (a + b)[0] == a[0] && (a + b)[1..] == a[1..] + b;
      var m := NextMode(mode, a[0]);
      StripConcat(m, a[1..], b);
      var x, y, z := Kept(mode, a[0]), Strip(m, a[1..]), Strip(StripMode(mode, a), b);
      assert x + (y + z) == (x + y) + z;
    }
  }

  lemma {:induction false} StripBody(body: seq<Byte>)
    requires IAC !in body
    ensures StripMode(3, body) == 3 && Strip(3, body) == []
  {
    if body != [] {
      StripBody(body[1..]);
    }
  }

  lemma StripTwo(mode: Mode, a: Byte, b: Byte)
    ensures StripMode(mode, [a, b]) == NextMode(NextMode(mode, a), b)
    ensures Strip(mode, [a, b]) == Kept(mode, a) + Kept(NextMode(mode, a), b)
  {
    assert [a, b][1..] == [b];
    assert [b][1..] == [];
    var m := NextMode(mode, a);
    assert StripMode(m, [b]) == NextMode(m, b) && Strip(m, [b]) == Kept(m, b);
  }

  lemma StripItem(it: Item)
    requires WellFormed(it)
    ensures StripMode(0, ItemWire(it)) == 0 && Strip(0, ItemWire(it)) == ItemData(it)
  {
    match it
    case Data(b) =>
      StripTwo(0, IAC, IAC);
    case Command(cmd) =>
      StripTwo(0, IAC, cmd);
    case Negotiation(cmd, option) =>
      StripTwo(1, cmd, option);
      assert [IAC, cmd, option][1..] == [cmd, option];
    case Subnegotiation(body) =>
      StripTwo(0, IAC, SB);
      StripTwo(3, IAC, SE);
      StripBody(body);
      StripConcat(3, body, [IAC, SE]);
      StripConcat(0, [IAC, SB], body + [IAC, SE]);
      assert ItemWire(it) == [IAC, SB] + (body + [IAC, SE]);
  }

  /** On a well-formed stream the recorder keeps exactly the data bytes and ends in the data state. */
  lemma {:induction false} StripWire(items: seq<Item>)
    requires forall it :: it in items ==> WellFormed(it)
    ensures StripMode(0, Wire(items)) == 0 && Strip(0, Wire(items)) == Payload(items)
  {
    if items != [] {
      StripItem(items[0]);
      StripWire(items[1..]);
      StripConcat(0, ItemWire(items[0]), Wire(items[1..]));
    }
  }

  /** In a subnegotiation a doubled 0xff does not count as one byte: SE behind it ends it. */
  lemma DoubledInside()
    ensures StripMode(3, [255, 255, 240]) == 0 && Strip(3, [255, 255, 240]) == []
    ensures StripMode(3, [255, 2, 240]) == 3 && Strip(3, [255, 2, 240]) == []
  {
    StripThree(3, 255, 255, 240);
    StripThree(3, 255, 2, 240);
  }

  lemma StripThree(mode: Mode, a: Byte, b: Byte, c: Byte)
    ensures StripMode(mode, [a, b, c]) == NextMode(NextMode(NextMode(mode, a), b), c)
    ensures Strip(mode, [a, b, c]) ==
            Kept(mode, a) + Kept(NextMode(mode, a), b) + Kept(NextMode(NextMode(mode, a), b), c)
  {
    hide NextMode, Kept;
    assert [a, b, c][1..] == [b, c];
    StripTwo(NextMode(mode, a), b, c);
  }

  // ----- The terminal-to-shell relay: on top of removing commands it drops one LF or NUL after a CR.

  /** The relay's `cr` flag. An (unescaped) IAC byte is passed on without touching it. */
  function NextCr(cr: bool, b: Byte): bool {
    if b == IAC then cr else b == CR
  }

  function Relayed(cr: bool, b: Byte): seq<Byte> {
    if cr && (b == LF || b == NUL) then [] else [b]
  }

  function RelayCr(cr: bool, s: seq<Byte>): bool
    decreases |s|
  {
    if s == [] then cr else RelayCr(NextCr(cr, s[0]), s[1..])
  }

  /** What reaches the shell. */
  function Relay(cr: bool, s: seq<Byte>): seq<Byte>
    decreases |s|
  {
    if s == [] then [] else Relayed(cr, s[0]) + Relay(NextCr(cr, s[0]), s[1..])
  }

  lemma {:induction false} RelayConcat(cr: bool, a: seq<Byte>, b: seq<Byte>)
    ensures RelayCr(cr, a + b) == RelayCr(RelayCr(cr, a), b)
    ensures Relay(cr, a + b) == Relay(cr, a) + Relay(RelayCr(cr, a), b)
    decreases |a|
  {
    hide NextCr, Relayed;
    if a == [] {
      assert a + b == b;
    } else {
      assert (a + b)[0] == a[0] && (a + b)[1..] == a[1..] + b;
      var c := NextCr(cr, a[0]);
      RelayConcat(c, a[1..], b);
      var x, y, z := Relayed(cr, a[0]), Relay(c, a[1..]), Relay(RelayCr(cr, a), b);
      assert x + (y + z) == (x + y) + z;
    }
  }

  /** The NVT reading of RFC 854: CR LF and CR NUL both stand for one carriage return. */
  function FoldCr(s: seq<Byte>): seq<Byte> {
    if s == [] then []
    else if s[0] == CR && |s| > 1 && (s[1] == LF || s[1] == NUL) then [CR] + FoldCr(s[2..])
    else [s[0]] + FoldCr(s[1..])
  }

  /** A run of 0xff bytes (possibly none) and then an LF or NUL. */
  predicate IacRunThenLf(s: seq<Byte>) {
    s != [] && (if s[0] == IAC then IacRunThenLf(s[1..]) else s[0] == LF || s[0] == NUL)
  }

  /** Some CR is followed by at least one 0xff byte and then an LF or NUL. */
  predicate CrIacLf(s: seq<Byte>) {
    s != [] &&
    ((s[0] == CR && |s| > 1 && s[1] == IAC && IacRunThenLf(s[1..])) || CrIacLf(s[1..]))
  }

  /** A pending `cr` flag costs exactly one byte, and only if an LF or NUL comes before any byte
      that would clear it. */
  lemma {:induction false} PendingCr(s: seq<Byte>)
    ensures if IacRunThenLf(s) then |Relay(true, s)| == |Relay(false, s)| - 1
            else Relay(true, s) == Relay(false, s)
  {
    if s != [] && s[0] == IAC {
      PendingCr(s[1..]);
    }
  }

  lemma {:induction false} RelayIsFoldCrAux(s: seq<Byte>)
    ensures |Relay(false, s)| <= |FoldCr(s)|
    ensures Relay(false, s) == FoldCr(s) <==> !CrIacLf(s)
    ensures CrIacLf(s) ==> |Relay(false, s)| < |FoldCr(s)|
  {
    if s == [] {
    } else if s[0] == CR && |s| > 1 && (s[1] == LF || s[1] == NUL) {
      RelayIsFoldCrAux(s[2..]);
      assert s[1..][1..] == s[2..];
      assert Relay(true, s[1..]) == Relay(false, s[2..]);
      assert !CrIacLf(s) <==> !CrIacLf(s[2..]);
    } else {
      RelayIsFoldCrAux(s[1..]);
      PendingCr(s[1..]);
      var rest := Relay(NextCr(false, s[0]), s[1..]);
      assert Relay(false, s) == [s[0]] + rest;
      assert FoldCr(s) == [s[0]] + FoldCr(s[1..]);
      assert ([s[0]] + rest)[1..] == rest;
      assert FoldCr(s)[1..] == FoldCr(s[1..]);
    }
  }

  /** The relay implements the NVT reading exactly on the inputs in which no CR is separated from
      an LF or NUL by nothing but 0xff bytes. */
  lemma RelayIsFoldCr(s: seq<Byte>)
    ensures Relay(false, s) == FoldCr(s) <==> !CrIacLf(s)
  {
    RelayIsFoldCrAux(s);
  }

  /** A CR, an escaped 0xff and an LF: the LF is lost. */
  lemma LfLost()
    ensures Relay(false, [CR, IAC, LF]) == [CR, IAC] && FoldCr([CR, IAC, LF]) == [CR, IAC, LF]
    ensures CrIacLf([CR, IAC, LF])
  {
    var s := [CR, IAC, LF];
    assert s[1..] == [IAC, LF] && [IAC, LF][1..] == [LF] && [LF][1..] == [];
    assert Relay(true, [LF]) == [] + Relay(false, [LF][1..]) == [];
    assert FoldCr([LF]) == [LF] + FoldCr([LF][1..]) == [LF];
    assert Relay(true, [IAC, LF]) == [IAC] + [] && FoldCr([IAC, LF]) == [IAC] + [LF];
    assert [IAC] + [LF] == [IAC, LF];
  }

  /** The two receivers agree: on every conforming stream the relay hands the shell what the
      recorder keeps, with the LF or NUL after each CR removed. */
  lemma ReceiversAgree(items: seq<Item>)
    requires forall it :: it in items ==> WellFormed(it)
    ensures Relay(false, Payload(items)) == FoldCr(Strip(0, Wire(items)))
            <==> !CrIacLf(Payload(items))
  {
    StripWire(items);
    RelayIsFoldCr(Payload(items));
  }
}
