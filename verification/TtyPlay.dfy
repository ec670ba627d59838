/** The replay plugin: a file of frames handed out, paced by its timestamps, through a staging buffer. */
module TtyPlay {
  import opened Bytes
  import opened TimeVal
  import opened TtyRec

  const ESC: Byte := 0x1b
  const BEL: Byte := 7
  const FORWARD_MAX: nat := 2048

  datatype Marker = Marker(id: nat, tv: Time)

  /** What the keyboard controls. */
  datatype Control = Control(
    speed: int, skip: nat, skipIni: nat, quit: bool, loop: bool, again: bool, pause: bool, nowait: bool,
    wait: Time, markers: seq<Marker>)

  ghost predicate ControlOk(c: Control) {
    -8 <= c.speed <= 8 && |c.markers| == 8
  }

  // ----- Keys

  datatype ParseMode = First | Esc | Csi | Str | StrEsc

  function NextParse(mode: ParseMode, b: Byte): ParseMode {
    match mode
    case First => if b == ESC then Esc else First
    case Esc =>
      if b as char == '[' then Csi
      else if b as char in {'P', ']', 'X', '^', '_'} then Str
      else First
    case Csi => if b < 0x20 || b > 0x3f then First else Csi
    case Str => if b == ESC then StrEsc else if b == BEL then First else Str
    case StrEsc => if b as char == '\\' then First else if b != ESC then Str else StrEsc
  }

  /** The keys that are not part of an escape sequence. */
  function Plain(mode: ParseMode, keys: seq<Byte>): seq<Byte>
    decreases |keys|
  {
    if keys == [] then []
    else (if mode == First && keys[0] != ESC then [keys[0]] else []) + Plain(NextParse(mode, keys[0]), keys[1..])
  }

  datatype Key = NormalSpeed | Faster | Slower | Pause | NextFrame | ToggleTitle | ToggleWait | Skip
    | Again | End | ToggleLoop | Mark | Jump | Other

  function KeyOf(b: Byte): Key {
    var k := b as char;
    if k == '1' then NormalSpeed
    else if k == 'f' || k == 'F' || k == '+' then Faster
    else if k == 's' || k == 'S' || k == '-' then Slower
    else if k == 'p' || k == 'P' then Pause
    else if k == ' ' || k == '.' then NextFrame
    else if k == 't' || k == 'T' then ToggleTitle
    else if k == 'q' || k == 'Q' then ToggleWait
    else if k == 'k' || k == 'K' then Skip
    else if k == 'b' || k == 'B' then Again
    else if k == 'e' || k == 'E' then End
    else if k == 'l' || k == 'L' then ToggleLoop
    else if k == 'm' || k == 'M' then Mark
    else if k == 'j' || k == 'J' then Jump
    else Other
  }

  function Press(c: Control, key: Key): (r: Control)
    requires |c.markers| == 8
    ensures |r.markers| == 8 && (-8 <= c.speed <= 8 ==> -8 <= r.speed <= 8)
  {
    match key
    case NormalSpeed => c.(speed := 0)
    case Faster => if c.speed < 8 then c.(speed := c.speed + 1) else c
    case Slower => if c.speed > -8 then c.(speed := c.speed - 1) else c
    case Pause => c.(pause := !c.pause)
    case NextFrame => c.(wait := c.wait.(sec := 0))
    case ToggleTitle => c
    case ToggleWait => c.(nowait := !c.nowait)
    case Skip => c.(wait := c.wait.(sec := 0), skip := c.skip + c.skipIni)
    case Again => c.(quit := true, again := true)
    case End => c.(quit := true)
    case ToggleLoop => c.(loop := !c.loop)
    case Mark => if c.markers[1].id != c.markers[0].id then c.(markers := [c.markers[0]] + c.markers[..7]) else c
    case Jump =>
      // to the marker: forward by skipping, or again from the start
      if c.markers[1].id >= c.markers[0].id then c.(skip := c.markers[1].id - c.markers[0].id)
      else c.(skip := c.markers[1].id, quit := true, again := true)
    case Other => c
  }

  function PressAll(c: Control, keys: seq<Byte>): (r: Control)
    requires |c.markers| == 8
    ensures |r.markers| == 8
    ensures -8 <= c.speed <= 8 ==> -8 <= r.speed <= 8
    decreases |keys|
  {
    if keys == [] then c else PressAll(Press(c, KeyOf(keys[0])), keys[1..])
  }

  /** The keys that are passed on to the device. */
  function Others(keys: seq<Byte>): seq<Byte> {
    if keys == [] then [] else (if KeyOf(keys[0]) == Other then [keys[0]] else []) + Others(keys[1..])
  }

  lemma {:induction false} PlainConcat(mode: ParseMode, a: seq<Byte>, b: Byte)
    ensures ParseAfter(mode, a + [b]) == NextParse(ParseAfter(mode, a), b)
    ensures Plain(mode, a + [b]) == Plain(mode, a) + if ParseAfter(mode, a) == First && b != ESC then [b] else []
    decreases |a|
  {
    if a == [] {
      assert [] + [b] == [b] && [b][1..] == [];
    } else {
      assert (a + [b])[0] == a[0] && (a + [b])[1..] == a[1..] + [b];
      PlainConcat(NextParse(mode, a[0]), a[1..], b);
    }
  }

  function ParseAfter(mode: ParseMode, keys: seq<Byte>): ParseMode
    decreases |keys|
  {
    if keys == [] then mode else ParseAfter(NextParse(mode, keys[0]), keys[1..])
  }

  lemma {:induction false} PressConcat(c: Control, a: seq<Byte>, b: Byte)
    requires |c.markers| == 8
    ensures PressAll(c, a + [b]) == Press(PressAll(c, a), KeyOf(b))
    ensures Others(a + [b]) == Others(a) + if KeyOf(b) == Other then [b] else []
    decreases |a|
  {
    hide Press, KeyOf;
    if a == [] {
      assert [] + [b] == [b] && [b][1..] == [];
    } else {
      assert (a + [b])[0] == a[0] && (a + [b])[1..] == a[1..] + [b];
      PressConcat(Press(c, KeyOf(a[0])), a[1..], b);
    }
  }

  // ----- What keys do, spelled out

  /** An escape sequence that is not introduced by one of the six characters is two bytes long. */
  lemma ShortSequence(b: Byte, rest: seq<Byte>)
    requires b as char !in {'[', 'P', ']', 'X', '^', '_'}
    ensures Plain(First, [27, b] + rest) == Plain(First, rest)
  {
    var t := [27, b] + rest;
    assert t[1..][1..] == rest && t[1..][0] == b;
  }

  lemma {:induction false} InCsi(params: seq<Byte>, final: Byte, rest: seq<Byte>)
    requires (forall i :: 0 <= i < |params| ==> 0x20 <= params[i] <= 0x3f) && !(0x20 <= final <= 0x3f)
    ensures Plain(Csi, params + [final] + rest) == Plain(First, rest)
    decreases |params|
  {
    var t := params + [final] + rest;
    if params == [] {
      assert t[1..] == rest;
    } else {
      assert t[1..] == params[1..] + [final] + rest;
      InCsi(params[1..], final, rest);
    }
  }

  /** A control sequence ends with the first byte outside 0x20 to 0x3f. */
  lemma ControlSequence(params: seq<Byte>, final: Byte, rest: seq<Byte>)
    requires (forall i :: 0 <= i < |params| ==> 0x20 <= params[i] <= 0x3f) && !(0x20 <= final <= 0x3f)
    ensures Plain(First, [27, '[' as int] + (params + [final] + rest)) == Plain(First, rest)
  {
    hide Plain;
    TwoFirst('[' as int, params + [final] + rest);
    InCsi(params, final, rest);
  }

  lemma TwoFirst(b: Byte, rest: seq<Byte>)
    ensures Plain(First, [27, b] + rest) == Plain(NextParse(Esc, b), rest)
  {
    var t := [27, b] + rest;
    assert t[1..][1..] == rest && t[1..][0] == b;
  }

  lemma {:induction false} InString(body: seq<Byte>, end: seq<Byte>, rest: seq<Byte>)
    requires ESC !in body && BEL !in body && (end == [7] || end == [27, '\\' as int])
    ensures Plain(Str, body + end + rest) == Plain(First, rest)
    decreases |body|
  {
    var t := body + end + rest;
    if body != [] {
      assert body[0] in body && t[1..] == body[1..] + end + rest;
      InString(body[1..], end, rest);
    } else if end == [7] {
      assert t[1..] == rest;
    } else {
      assert t[0] == 27 && t[1..][0] == '\\' as int && t[1..][1..] == rest;
    }
  }

  /** A string sequence ends with BEL or with ESC and a backslash. */
  lemma StringSequence(intro: char, body: seq<Byte>, end: seq<Byte>, rest: seq<Byte>)
    requires intro in {'P', ']', 'X', '^', '_'}
    requires ESC !in body && BEL !in body && (end == [7] || end == [27, '\\' as int])
    ensures Plain(First, [27, intro as int] + (body + end + rest)) == Plain(First, rest)
  {
    hide Plain;
    TwoFirst(intro as int, body + end + rest);
    InString(body, end, rest);
  }

  lemma {:induction false} NoEscape(keys: seq<Byte>)
    requires ESC !in keys
    ensures Plain(First, keys) == keys
  {
    if keys != [] {
      NoEscape(keys[1..]);
      assert keys == [keys[0]] + keys[1..];
    }
  }

  function Clamp(speed: int): int {
    if speed > 8 then 8 else if speed < -8 then -8 else speed
  }

  /** The keys for each command. */
  function KeysOf(key: Key): set<char> {
    match key
    case NormalSpeed => {'1'}
    case Faster => {'f', 'F', '+'}
    case Slower => {'s', 'S', '-'}
    case Pause => {'p', 'P'}
    case NextFrame => {' ', '.'}
    case ToggleTitle => {'t', 'T'}
    case ToggleWait => {'q', 'Q'}
    case Skip => {'k', 'K'}
    case Again => {'b', 'B'}
    case End => {'e', 'E'}
    case ToggleLoop => {'l', 'L'}
    case Mark => {'m', 'M'}
    case Jump => {'j', 'J'}
    case Other => {}
  }

  lemma KeyIs(k: Byte, key: Key)
    requires key != Other
    ensures KeyOf(k) == key <==> k as char in KeysOf(key)
  {
  }

  /** A key outside escape sequences acts as its command, and is not forwarded. */
  lemma KeyPressed(c: Control, k: Byte, key: Key)
    requires |c.markers| == 8 && k as char in KeysOf(key)
    ensures PressAll(c, [k]) == Press(c, key) && Others([k]) == []
  {
    hide Press, KeyOf, PressAll, Others;
    KeyIs(k, key);
    PressOne(c, k);
  }

  /** A key that belongs to no command changes nothing, and is forwarded. */
  lemma KeyForwarded(c: Control, k: Byte)
    requires |c.markers| == 8 && forall key :: k as char !in KeysOf(key)
    ensures PressAll(c, [k]) == c && Others([k]) == [k]
  {
    hide KeyOf, PressAll, Others, KeysOf;
    if KeyOf(k) != Other {
      KeyIs(k, KeyOf(k));
    }
    PressOne(c, k);
  }

  /** What the commands do. */
  lemma Commands(c: Control)
    requires ControlOk(c)
    ensures Press(c, NormalSpeed) == c.(speed := 0)
    ensures Press(c, Faster) == c.(speed := Clamp(c.speed + 1)) && Press(c, Slower) == c.(speed := Clamp(c.speed - 1))
    ensures Press(c, Pause) == c.(pause := !c.pause) && Press(c, ToggleWait) == c.(nowait := !c.nowait)
    ensures Press(c, ToggleLoop) == c.(loop := !c.loop) && Press(c, ToggleTitle) == c
  {
  }

  lemma MoreCommands(c: Control)
    requires ControlOk(c)
    ensures Press(c, NextFrame) == c.(wait := Time(0, c.wait.usec))
    ensures Press(c, Skip) == c.(wait := Time(0, c.wait.usec), skip := c.skip + c.skipIni)
    ensures Press(c, Again) == c.(quit := true, again := true) && Press(c, End) == c.(quit := true)
  {
  }

  /** The marker list: the current frame is put in front, unless it is there already; jumping goes to
      it, forward by skipping and backward from the start. */
  lemma Markers(c: Control)
    requires ControlOk(c)
    ensures var m := c.markers;
            && Press(c, Mark) == c.(markers := if m[1].id == m[0].id then m
                                               else [m[0], m[0], m[1], m[2], m[3], m[4], m[5], m[6]])
            && Press(c, Jump) == if m[1].id >= m[0].id then c.(skip := m[1].id - m[0].id)
                                 else c.(skip := m[1].id, quit := true, again := true)
  {
    var m := c.markers;
    assert [m[0]] + m[..7] == [m[0], m[0], m[1], m[2], m[3], m[4], m[5], m[6]];
  }

  lemma PressOne(c: Control, b: Byte)
    requires |c.markers| == 8
    ensures PressAll(c, [b]) == Press(c, KeyOf(b))
    ensures Others([b]) == if KeyOf(b) == Other then [b] else []
  {
    hide Press, KeyOf;
    assert [b][1..] == [];
  }

  // ----- Pacing

  predicate Reached(elapsed: Time, wait: Time) {
    elapsed.sec > wait.sec || (elapsed.sec == wait.sec && elapsed.usec >= wait.usec)
  }

  /** Whether what has been waiting since `last` may be handed out. */
  predicate Open(c: Control, last: Time, now: Time, wait: Time) {
    c.nowait || Reached(Diff(last, now), wait)
  }

  /** On normalised times the gate is a matter of total microseconds. */
  lemma OpenIs(c: Control, last: Time, now: Time, wait: Time)
    requires Normal(last) && Normal(now) && Normal(wait)
    ensures Open(c, last, now, wait) <==> c.nowait || Total(now) - Total(last) >= Total(wait)
  {
    AddDiffExact(last, now);
  }

  /** The clock starts again only at the end of a wait that was kept. */
  lemma RestartIs(c: Control, last: Time, now: Time, wait: Time)
    ensures Restart(last, now, c, Time(0, 0)) == last
    ensures c.nowait ==> Restart(last, now, c, wait) == last
    ensures !c.nowait && wait != Time(0, 0) ==> Restart(last, now, c, wait) == now
  {
  }

  /** The time from which the next wait counts: the end of this one, if there was any. */
  function Restart(last: Time, now: Time, c: Control, wait: Time): Time {
    if wait != Time(0, 0) && !c.nowait then now else last
  }

  /** The wait before a frame recorded at `tv`, the previous one having been recorded at `prev`;
      `prev.sec == 0` stands for no previous frame. */
  function NextWait(c: Control, prev: Time, tv: Time, minwait: int, maxwait: int): Time {
    if c.skip > 0 then Time(0, 0)
    else if prev.sec == 0 then c.wait
    else
      var w := Shift(Diff(prev, tv), c.speed);
      if w.sec < minwait then Time(0, 0)
      else if maxwait != 0 && w.sec >= maxwait then Time(maxwait, 0)
      else w
  }

  /** The settings after the header of frame `id`, recorded at `tv`. */
  function Headed(c: Control, id: nat, prev: Time, tv: Time, minwait: int, maxwait: int): Control
    requires |c.markers| == 8
  {
    c.(wait := NextWait(c, prev, tv, minwait, maxwait), skip := if c.skip > 0 then c.skip - 1 else 0,
       markers := c.markers[0 := Marker(id, tv)])
  }

  /** One frame less is to be skipped, and the newest marker is this frame's. */
  lemma HeadedIs(c: Control, id: nat, prev: Time, tv: Time, minwait: int, maxwait: int)
    requires |c.markers| == 8
    ensures var h := Headed(c, id, prev, tv, minwait, maxwait);
            && (c.skip > 0 ==> h.skip == c.skip - 1) && (c.skip == 0 ==> h.skip == 0)
            && |h.markers| == 8 && h.markers[0] == Marker(id, tv) && h.markers[1..] == c.markers[1..]
            && h.speed == c.speed && h.loop == c.loop && h.again == c.again
  {
    hide NextWait;
  }

  /** The time in a header: seconds first. */
  function HeaderTime(header: seq<Byte>): Time
    requires |header| == HEADER_SIZE
  {
    Time(FromLittleEndian(header[0..4]), FromLittleEndian(header[4..8]))
  }

  /** The header of a frame, as the recorder has written it, gives its time and length back. */
  lemma HeaderOfRecord(f: Frame, rest: seq<Byte>)
    requires |f.data| < 0x8000_0000
    ensures var file := FrameBytes(f) + rest;
            && |file| >= HEADER_SIZE && file[HEADER_SIZE..] == f.data + rest
            && HeaderTime(file[..HEADER_SIZE]) == Time(f.sec, f.usec)
            && HeaderLength(file[..HEADER_SIZE]) == |f.data|
  {
    hide LittleEndian, FromLittleEndian, HeaderLength;
    HeaderOfFrame(f, rest);
    var s, u, n := LittleEndian(f.sec), LittleEndian(f.usec), LittleEndian(|f.data|);
    assert (FrameBytes(f) + rest)[..HEADER_SIZE] == s + u + n;
    assert (s + u + n)[0..4] == s && (s + u + n)[4..8] == u;
    LittleEndianRoundTrip(f.sec);
    LittleEndianRoundTrip(f.usec);
  }

  /** How much a time is, if a speed setting of `speed` steps is used. */
  function AtSpeed(total: int, speed: int): int {
    if speed >= 0 then total / Power2(if speed > 8 then 8 else speed)
    else total * Power2(if speed < -8 then 8 else -speed)
  }

  /** The wait before a frame, in microseconds: none while frames are skipped, the one left over if
      there is no previous frame, and else the time between the recorded times, divided by two for
      every step of speed; nothing if it is below the lower limit, and no more than the upper one. */
  lemma WaitIs(c: Control, prev: Time, tv: Time, minwait: int, maxwait: int)
    requires Normal(prev) && Normal(tv)
    ensures var w := NextWait(c, prev, tv, minwait, maxwait);
            var d := AtSpeed(Total(tv) - Total(prev), c.speed);
            && (c.skip > 0 ==> Total(w) == 0)
            && (c.skip == 0 && prev.sec == 0 ==> w == c.wait)
            && (c.skip == 0 && prev.sec != 0 ==>
                  Normal(w) &&
                  Total(w) == if d < minwait * MICRO then 0
                              else if maxwait != 0 && d >= maxwait * MICRO then maxwait * MICRO
                              else d)
  {
    hide Scale, Power2, Shift;
    AddDiffExact(prev, tv);
    var d := Diff(prev, tv);
    ShiftTotal(d, c.speed);
    var w := Shift(d, c.speed);
    assert w.sec < minwait <==> Total(w) < minwait * MICRO;
    assert w.sec >= maxwait <==> Total(w) >= maxwait * MICRO;
  }

  /** Frames recorded at 100 s and 101.5 s: one and a half seconds at normal speed, half of it one
      step faster, twice as long one step slower; nothing with a lower limit of two seconds, and one
      second with an upper limit of one. */
  lemma WaitExample(c: Control)
    requires c.skip == 0 && c.speed == 0
    ensures var a, b := Time(100, 0), Time(101, 500_000);
            && NextWait(c, a, b, 0, 0) == Time(1, 500_000)
            && NextWait(c.(speed := 1), a, b, 0, 0) == Time(0, 750_000)
            && NextWait(c.(speed := -1), a, b, 0, 0) == Time(3, 0)
            && NextWait(c, a, b, 2, 0) == Time(0, 0) && NextWait(c, a, b, 0, 1) == Time(1, 0)
  {
  }

  lemma ShiftTotal(t: Time, speed: int)
    requires Normal(t)
    ensures Normal(Shift(t, speed)) && Total(Shift(t, speed)) == AtSpeed(Total(t), speed)
  {
    hide Scale, Power2;
    if speed > 0 {
      ShiftDown(t, speed);
      ScaleIsPower(speed);
    } else if speed < 0 {
      ShiftUp(t, speed);
      ScaleIsPower(-speed);
    } else {
      PowerNone();
    }
  }

  lemma PowerNone()
    ensures Power2(0) == 1
  {
  }

  /** How the reads of one call turn out; reads of frame data may be short. */
  datatype Outcome = Outcome(headerFails: bool, payloadFails: bool, shortBy: nat)

  /** The number of bytes asked for, as an unsigned word. */
  function Asked(len: Int32): UInt32 {
    if len < 0 then len + 0x1_0000_0000 else if len < BUFF_SIZE then len else BUFF_SIZE
  }

  /** Subtraction in 32 bits. */
  function Minus(len: Int32, n: nat): Int32
    requires n <= BUFF_SIZE
  {
    if len - n < -0x8000_0000 then len - n + 0x1_0000_0000 else len - n
  }

  /** A payload read asks for no more than the staging buffer holds exactly if the length is not
      negative; in a playable file it never gets more. */
  lemma ReadFits(len: Int32, file: seq<Byte>)
    ensures Asked(len) <= BUFF_SIZE <==> len >= 0
    ensures PlayableRest(len, file) ==> Asked(len) <= BUFF_SIZE || |file| <= BUFF_SIZE
  {
  }

  /** A header with the length -1 and 2001 bytes behind it: they would all be read. */
  lemma NegativeLength(data: seq<Byte>)
    requires |data| == 2001
    ensures var file := LittleEndian(1) + LittleEndian(0) + LittleEndian(-1) + data;
            && HeaderLength(file[..HEADER_SIZE]) == -1 && Asked(-1) > |data| > BUFF_SIZE && !Playable(file)
  {
    hide LittleEndian, FromLittleEndian;
    var file := LittleEndian(1) + LittleEndian(0) + LittleEndian(-1) + data;
    assert file[..HEADER_SIZE][8..12] == LittleEndian(-1) && file[HEADER_SIZE..] == data;
    LittleEndianRoundTrip(-1);
  }

  class Player {
    var file: seq<Byte>
    var prhLen: Int32
    var prhTv: Time
    var lbytes: nat
    const ibuff: array<Byte>
    var active: bool
    var frameId: nat
    var last: Time
    var ctl: Control
    const minwait: int
    const maxwait: int

    ghost predicate Valid()
      reads this
    {
      ibuff.Length == BUFF_SIZE && lbytes <= BUFF_SIZE && ControlOk(ctl) &&
      (if active then PlayableRest(prhLen, file) else Playable(file))
    }

    /** What is still to be handed out. Before the first call the counters of an earlier replay
        do not matter. */
    ghost function Pending(): seq<Byte>
      requires Valid()
      reads this, ibuff
    {
      if active then ibuff[..lbytes] + Rest(prhLen, file) else Contents(file)
    }

    /** Bytes of the file and the staging buffer that are still to be used up. */
    ghost function Left(): nat
      reads this
    {
      |file| + if active then lbytes else 0
    }

    constructor (file: seq<Byte>, ctl: Control, now: Time, minwait: int, maxwait: int)
      requires Playable(file) && ControlOk(ctl)
      ensures Valid() && Pending() == Contents(file) && !active && this.ctl == ctl && this.file == file && fresh(ibuff)
    {
      this.file, this.ctl, last := file, ctl, now;
      this.minwait, this.maxwait := minwait, maxwait;
      prhLen, prhTv, lbytes, active, frameId := 0, Time(0, 0), 0, false, 0;
      ibuff := new Byte[BUFF_SIZE];
    }

    /** The recording is a regular file: a read returns all it is asked for while there is enough,
        less what an outcome takes away (never everything). */
    method ReadFile(max: nat, shortBy: nat) returns (data: seq<Byte>)
      modifies this`file
      ensures old(file) == data + file && |data| <= max
      ensures data == [] <==> max == 0 || old(file) == []
      ensures shortBy == 0 ==> |data| == max || file == []
    {
      var n := if max < |file| then max else |file|;
      if shortBy < n {
        n := n - shortBy;
      }
      data, file := file[..n], file[n..];
    }

    /** First read of a replay: forget the previous one. */
    method Activate()
      requires Valid()
      modifies this`active, this`ctl, this`prhLen, this`prhTv, this`lbytes, this`frameId
      ensures Valid() && active && ctl == if old(active) then old(ctl) else old(ctl).(pause := false)
      ensures old(active) ==> prhLen == old(prhLen) && prhTv == old(prhTv) && lbytes == old(lbytes)
      ensures !old(active) ==> prhLen == 0 && lbytes == 0 && prhTv == Time(0, 0)
      ensures Pending() == old(Pending()) && Left() == old(Left())
    {
      if !active {
        active := true;
        ctl := ctl.(pause := false);
        prhLen, prhTv, lbytes, frameId := 0, Time(0, 0), 0, 0;
        NoRest(file);
        assert ibuff[..0] == [];
      }
    }

    lemma NoRest(f: seq<Byte>)
      ensures Rest(0, f) == Contents(f) && PlayableRest(0, f) == Playable(f)
    {
      RestSplit(0, f);
      assert f[0..] == f;
    }

    lemma PendingIsRest()
      requires Valid() && active && lbytes == 0
      ensures Pending() == Rest(prhLen, file) && Left() == |file|
      ensures prhLen == 0 ==> Pending() == Contents(file) && Playable(file)
    {
      assert ibuff[..0] == [];
      NoRest(file);
    }

    /** Takes over a header that has been read and sets the wait for its frame. */
    method TakeHeader(b: seq<Byte>)
      requires ibuff.Length == BUFF_SIZE && active && lbytes == 0 && |b| == HEADER_SIZE && ControlOk(ctl)
      requires PlayableRest(HeaderLength(b), file)
      modifies this`ctl, this`frameId, this`prhLen, this`prhTv
      ensures Valid() && prhLen == HeaderLength(b) && prhTv == HeaderTime(b) && frameId == old(frameId) + 1
      ensures ctl == Headed(old(ctl), old(frameId), old(prhTv), prhTv, minwait, maxwait)
    {
      hide NextWait, FromLittleEndian;
      var h := Time(FromLittleEndian(b[0..4]), FromLittleEndian(b[4..8]));
      ctl := ctl.(wait := NextWait(ctl, prhTv, h, minwait, maxwait), skip := if ctl.skip > 0 then ctl.skip - 1 else 0,
                  markers := ctl.markers[0 := Marker(frameId, h)]);
      frameId := frameId + 1;
      prhTv, prhLen := h, HeaderLength(b);
    }

    /** Reads the next header, if there is one. */
    method ReadHeader(fails: bool) returns (go: bool, ok: bool)
      requires Valid() && active && prhLen == 0 && lbytes == 0
      modifies this`file, this`ctl, this`frameId, this`prhLen, this`prhTv
      ensures Valid() && Pending() == old(Pending())
      ensures go == (!fails && |old(file)| >= HEADER_SIZE)
      ensures go ==> Left() < old(Left()) && file == old(file)[HEADER_SIZE..]
      ensures go ==> var b := old(file)[..HEADER_SIZE]; prhTv == HeaderTime(b) && prhLen == HeaderLength(b)
      ensures go ==> ctl == Headed(old(ctl), old(frameId), old(prhTv), prhTv, minwait, maxwait)
      ensures !go && fails ==> !ok && Left() == old(Left()) && ctl == old(ctl)
      ensures !go && !fails ==> Pending() == [] && ok == (old(file) == [])
      ensures !go && !fails ==> if ok then Left() == 0 && ctl == old(ctl).(again := old(ctl.loop))
                                else Left() < old(Left()) && ctl == old(ctl).(quit := true)
    {
      hide Rest, Contents, Playable, PlayableRest, NextWait, HeaderLength, HeaderTime, FromLittleEndian;
      hide Pending, Left, Headed;
      PendingIsRest();
      go, ok := false, false;
      if fails {
        return;
      }
      ghost var was := file;
      var b := ReadFile(HEADER_SIZE, 0);
      if |b| != HEADER_SIZE {
        assert was == b;
        NothingMore(was, file);
        NoRest(file);
        if b == [] {
          // end of file
          ctl := ctl.(again := ctl.loop);
          ok := true;
        } else {
          ctl := ctl.(quit := true);
        }
      } else {
        HeaderRead(was, b, file);
        assert was[..HEADER_SIZE] == b && was[HEADER_SIZE..] == file;
        HeadedKeeps(ctl);
        TakeHeader(b);
        go := true;
      }
      PendingIsRest();
    }

    /** A header changes nothing about pause, speed or the end of the replay. */
    lemma HeadedKeeps(c: Control)
      requires ControlOk(c)
      ensures forall id, prev, tv ::
                var h := Headed(c, id, prev, tv, minwait, maxwait);
                && ControlOk(h) && h.pause == c.pause && h.quit == c.quit && h.nowait == c.nowait
                && h.wait == NextWait(c, prev, tv, minwait, maxwait)
    {
      hide NextWait;
    }

    lemma NothingMore(was: seq<Byte>, now: seq<Byte>)
      requires |was| < HEADER_SIZE && now == []
      ensures Contents(was) == [] && Contents(now) == [] && Playable(now)
    {
    }

    lemma HeaderRead(was: seq<Byte>, b: seq<Byte>, now: seq<Byte>)
      requires was == b + now && |b| == HEADER_SIZE && Playable(was)
      ensures Contents(was) == Rest(HeaderLength(b), now) && PlayableRest(HeaderLength(b), now)
    {
      assert was[..HEADER_SIZE] == b && was[HEADER_SIZE..] == now;
    }

    /** Moves data from the file to the staging buffer when that is empty. */
    method Refill(fails: bool, shortBy: nat) returns (go: bool, ok: bool)
      requires Valid() && active
      modifies this`file, this`ctl, this`prhLen, this`lbytes, ibuff
      ensures Valid() && active && prhTv == old(prhTv) && Pending() == old(Pending()) && Left() == old(Left())
      ensures go ==> ctl == old(ctl) && (old(prhLen) != 0 || old(lbytes) != 0 ==> lbytes != 0)
      ensures !go ==> if fails then !ok && ctl == old(ctl)
                      else ok && Pending() == [] && ctl == old(ctl).(again := old(ctl.loop))
      ensures !fails && (old(lbytes) != 0 || old(file) != []) ==> go
    {
      hide Rest, Contents, Playable, PlayableRest;
      if prhLen != 0 && lbytes == 0 {
        if fails {
          return false, false;
        }
        ghost var was, n := file, prhLen;
        ReadFits(prhLen, file);
        var data := ReadFile(Asked(prhLen), shortBy);
        assert ibuff[..0] == [];
        if data == [] {
          // the recording stops short
          ctl := ctl.(again := ctl.loop);
          NothingLeft(prhLen);
          return false, true;
        }
        forall k | 0 <= k < |data| {
          ibuff[k] := data[k];
        }
        lbytes := |data|;
        prhLen := Minus(prhLen, lbytes);
        assert ibuff[..lbytes] == data;
        Took(was, n, data, file);
      }
      go, ok := true, false;
    }

    lemma NothingLeft(n: int)
      ensures Rest(n, []) == []
    {
    }

    lemma Took(was: seq<Byte>, n: Int32, data: seq<Byte>, now: seq<Byte>)
      requires was == data + now && 0 < |data| <= BUFF_SIZE && (n >= 0 ==> |data| <= n) && PlayableRest(n, was)
      ensures Rest(n, was) == data + Rest(Minus(n, |data|), now) && PlayableRest(Minus(n, |data|), now)
    {
      if 0 <= n < |was| {
        assert was[..n] == data + now[..n - |data|] && was[n..] == now[n - |data|..];
      }
    }

    lemma NextWaitIgnoresPause(c: Control, prev: Time)
      ensures forall tv :: NextWait(c.(pause := false), prev, tv, minwait, maxwait)
                           == NextWait(c, prev, tv, minwait, maxwait)
    {
    }

    /** Hands out at most `oblen` bytes of the staging buffer. */
    method Deliver(obuff: array<Byte>, oblen: nat) returns (n: nat)
      requires Valid() && active && 0 < lbytes && oblen <= obuff.Length && obuff != ibuff
      modifies this`lbytes, ibuff, obuff
      ensures Valid() && n <= oblen && (0 < oblen ==> 0 < n)
      ensures old(Pending()) == obuff[..n] + Pending() && Left() == old(Left()) - n
    {
      hide Rest;
      ghost var staged := ibuff[..lbytes];
      if lbytes < oblen {
        forall k | 0 <= k < lbytes {
          obuff[k] := ibuff[k];
        }
        n := lbytes;
        lbytes := 0;
        assert obuff[..n] == staged && ibuff[..0] == [];
      } else {
        forall k | 0 <= k < oblen {
          obuff[k] := ibuff[k];
        }
        lbytes := lbytes - oblen;
        forall k | 0 <= k < lbytes {
          ibuff[k] := ibuff[oblen + k];
        }
        n := oblen;
        assert obuff[..n] == staged[..n] && ibuff[..lbytes] == staged[n..];
      }
    }

    /** The wait is over. */
    method EndWait(now: Time)
      requires Valid()
      modifies this`ctl, this`last
      ensures Valid() && Pending() == old(Pending()) && Left() == old(Left())
      ensures ctl == old(ctl).(wait := Time(0, 0)) && last == Restart(old(last), now, old(ctl), old(ctl.wait))
    {
      if ctl.wait != Time(0, 0) {
        ctl := ctl.(wait := Time(0, 0));
        if !ctl.nowait {
          last := now;
        }
      }
    }

    method TakeQuit()
      requires Valid()
      modifies this`ctl
      ensures Valid() && Pending() == old(Pending()) && ctl == old(ctl).(pause := false, quit := false)
    {
      ctl := ctl.(pause := false, quit := false);
    }

    /** The wait gate, and what comes after it. */
    method HandOut(obuff: array<Byte>, oblen: nat, now: Time, out: Outcome) returns (ok: bool, n: nat)
      requires Valid() && active && oblen <= obuff.Length && obuff != ibuff
      modifies this`ctl, this`last, this`file, this`prhLen, this`lbytes, ibuff, obuff
      ensures Valid() && n <= oblen && (0 < n ==> ok) && old(Pending()) == obuff[..n] + Pending()
      ensures prhTv == old(prhTv) && Left() <= old(Left())
      ensures if Open(old(ctl), old(last), now, old(ctl.wait))
              then ctl.wait == Time(0, 0) && last == Restart(old(last), now, old(ctl), old(ctl.wait))
              else !ok && n == 0 && ctl == old(ctl) && last == old(last)
      ensures Open(old(ctl), old(last), now, old(ctl.wait)) && !out.payloadFails && 0 < oblen ==>
        if ok && n == 0 then Pending() == []
        else Left() < old(Left()) || (old(prhLen) == 0 && old(lbytes) == 0)
      ensures Open(old(ctl), old(last), now, old(ctl.wait)) && !out.payloadFails && 0 < oblen ==>
                (old(lbytes) != 0 || (old(prhLen) != 0 && old(file) != []) ==> 0 < n)
      ensures ctl.nowait == old(ctl.nowait) && ctl.pause == old(ctl.pause) && ctl.quit == old(ctl.quit)
    {
      hide Rest, Contents, Playable, PlayableRest, Pending, Left, Diff, Reached;
      Nothing(obuff);
      ok, n := false, 0;
      var tdiff := Diff(last, now);
      assert Open(ctl, last, now, ctl.wait) == (ctl.nowait || Reached(tdiff, ctl.wait));
      hide Open, Restart;
      if ctl.nowait || Reached(tdiff, ctl.wait) {
        EndWait(now);
        ok, n := Supply(obuff, oblen, out);
      }
    }

    /** What comes after the gate: data from the staging buffer, which is filled if it is empty. */
    method Supply(obuff: array<Byte>, oblen: nat, out: Outcome) returns (ok: bool, n: nat)
      requires Valid() && active && oblen <= obuff.Length && obuff != ibuff
      modifies this`ctl, this`file, this`prhLen, this`lbytes, ibuff, obuff
      ensures Valid() && n <= oblen && (0 < n ==> ok) && old(Pending()) == obuff[..n] + Pending()
      ensures prhTv == old(prhTv) && Left() == old(Left()) - n && ctl == old(ctl).(again := ctl.again)
      ensures !out.payloadFails && 0 < oblen ==>
                if ok && n == 0 then Pending() == [] else 0 < n || (old(prhLen) == 0 && old(lbytes) == 0)
      ensures !out.payloadFails && 0 < oblen && (old(lbytes) != 0 || (old(prhLen) != 0 && old(file) != [])) ==> 0 < n
      ensures ok && n == 0 && 0 < oblen ==> ctl.again == old(ctl.loop)
    {
      hide Rest, Contents, Playable, PlayableRest, Pending, Left;
      Nothing(obuff);
      n := 0;
      var go;
      go, ok := Refill(out.payloadFails, out.shortBy);
      if !go {
        return;
      }
      ok := lbytes > 0;
      if lbytes > 0 {
        n := Deliver(obuff, oblen);
      }
    }

    /** One read by the terminal at time `now`. Whatever happens, the bytes handed out are the next
        ones; without pause, quit or read errors data that is due is handed out exactly if its wait is over,
        and with the wait over every call makes progress until all has been handed out. */
    method TTXReadFile(obuff: array<Byte>, oblen: nat, now: Time, out: Outcome)
        returns (ok: bool, n: nat, ghost gate: Time)
      requires Valid() && oblen <= obuff.Length && obuff != ibuff
      modifies this, ibuff, obuff
      ensures Valid() && n <= oblen && (0 < n ==> ok) && old(Pending()) == obuff[..n] + Pending()
      ensures 0 < n || last != old(last) ==>
                Open(old(ctl), old(last), now, gate) && last == Restart(old(last), now, old(ctl), gate)
      ensures 0 < n ==> ctl.wait == Time(0, 0)
      ensures 0 < n && !old(HeaderDue()) ==> gate == old(ctl.wait)
      ensures 0 < n && old(HeaderDue()) ==>
                && |old(file)| >= HEADER_SIZE && prhTv == HeaderTime(old(file)[..HEADER_SIZE])
                && gate == NextWait(old(ctl), old(Previous()), prhTv, minwait, maxwait)
      ensures Unhindered(old(ctl), out) && 0 < oblen && Open(old(ctl), old(last), now, gate) ==>
        if ok && n == 0 then Pending() == [] else Left() < old(Left()) && (ctl.quit ==> Pending() == [])
      ensures Unhindered(old(ctl), out) && 0 < oblen && old(DataDue()) ==>
                && (0 < n <==> Open(old(ctl), old(last), now, gate))
                && if old(HeaderDue())
                   then prhTv == HeaderTime(old(file)[..HEADER_SIZE])
                        && gate == NextWait(old(ctl), old(Previous()), prhTv, minwait, maxwait)
                   else gate == old(ctl.wait)
      ensures ctl.nowait == old(ctl.nowait) && (ctl.pause ==> old(ctl.pause))
      ensures old(ctl.quit) ==> ok && n == 0 && !ctl.quit
      ensures old(ctl.pause) && !old(ctl.quit) ==> !ok && n == 0 && ctl == old(ctl) && Left() == old(Left())
    {
      hide Rest, Contents, Playable, PlayableRest, NextWait, Pending, Left, Diff, Reached, HeaderTime, HeaderLength;
      hide Headed;
      NextWaitIgnoresPause(ctl, Previous());
      HeadedKeeps(ctl);
      HeadedKeeps(ctl.(pause := false));
      n, gate := 0, ctl.wait;
      Nothing(obuff);
      if ctl.quit {
        TakeQuit();
        return true, 0, gate;
      }
      if ctl.pause {
        return false, 0, gate;
      }
      Activate();
      if prhLen == 0 && lbytes == 0 {
        var go;
        go, ok := ReadHeader(out.headerFails);
        if !go {
          return ok, 0, gate;
        }
      }
      gate := ctl.wait;
      ok, n := HandOut(obuff, oblen, now, out);
    }

    lemma Nothing(obuff: array<Byte>)
      requires Valid()
      ensures Pending() == obuff[..0] + Pending()
    {
      assert obuff[..0] == [];
    }

    /** The next read starts with a header. */
    ghost predicate HeaderDue()
      reads this
    {
      !active || (prhLen == 0 && lbytes == 0)
    }

    /** There is data to be handed out, once its wait is over. */
    ghost predicate DataDue()
      reads this
    {
      if HeaderDue() then |file| > HEADER_SIZE && HeaderLength(file[..HEADER_SIZE]) != 0
      else lbytes != 0 || file != []
    }

    ghost function Previous(): Time
      reads this
    {
      if active then prhTv else Time(0, 0)
    }
  }

  /** Nothing but a wait holds the replay up. */
  predicate Unhindered(c: Control, out: Outcome) {
    !c.pause && !c.quit && !out.headerFails && !out.payloadFails
  }

  class Keyboard {
    const player: Player
    var forwarded: seq<Byte>

    constructor (player: Player)
      ensures this.player == player && forwarded == []
    {
      this.player, forwarded := player, [];
    }

    /** Keys typed during a replay: those outside escape sequences steer it, and of the others the
        first 2048 go to the device. The data still to be handed out is not touched. */
    method TTXWriteFile(keys: seq<Byte>)
      requires player.Valid()
      modifies this`forwarded, player`ctl
      ensures player.Valid() && player.Pending() == old(player.Pending())
      ensures player.ctl == PressAll(old(player.ctl), Plain(First, keys))
      ensures var others := Others(Plain(First, keys));
              forwarded == old(forwarded) + if |others| <= FORWARD_MAX then others else others[..FORWARD_MAX]
    {
      hide Press, KeyOf, NextParse, Plain, PressAll, Others, ParseAfter, Player.Pending;
      KeyStart(player.ctl, keys);
      var mode := First;
      var tmp: seq<Byte> := [];
      ghost var c0 := player.ctl;
      for i := 0 to |keys|
        invariant player.Valid() && forwarded == old(forwarded) && player.Pending() == old(player.Pending())
        invariant mode == ParseAfter(First, keys[..i])
        invariant player.ctl == PressAll(c0, Plain(First, keys[..i]))
        invariant tmp == Cut(Others(Plain(First, keys[..i])))
      {
        KeyStep(c0, keys, i);
        if mode == First && keys[i] != ESC {
          var key := KeyOf(keys[i]);
          PressKey(key);
          if key == Other && |tmp| < FORWARD_MAX {
            tmp := tmp + [keys[i]];
          }
        }
        mode := NextParse(mode, keys[i]);
      }
      assert keys[..|keys|] == keys;
      forwarded := forwarded + tmp;
    }

    method PressKey(key: Key)
      requires player.Valid()
      modifies player`ctl
      ensures player.Valid() && player.Pending() == old(player.Pending())
      ensures player.ctl == Press(old(player.ctl), key)
    {
      player.ctl := Press(player.ctl, key);
    }

    lemma KeyStart(c: Control, keys: seq<Byte>)
      requires |c.markers| == 8
      ensures ParseAfter(First, keys[..0]) == First && Plain(First, keys[..0]) == []
      ensures PressAll(c, []) == c && Others([]) == []
    {
    }

    lemma KeyStep(c: Control, keys: seq<Byte>, i: nat)
      requires i < |keys| && |c.markers| == 8
      ensures var mode, plain := ParseAfter(First, keys[..i]), Plain(First, keys[..i]);
              var plain' := Plain(First, keys[..i + 1]);
              && ParseAfter(First, keys[..i + 1]) == NextParse(mode, keys[i])
              && if mode == First && keys[i] != ESC
                 then PressAll(c, plain') == Press(PressAll(c, plain), KeyOf(keys[i])) &&
                      Others(plain') == Others(plain) + if KeyOf(keys[i]) == Other then [keys[i]] else []
                 else plain' == plain
    {
      hide Press, KeyOf, NextParse;
      assert keys[..i + 1] == keys[..i] + [keys[i]];
      PlainConcat(First, keys[..i], keys[i]);
      PressConcat(c, Plain(First, keys[..i]), keys[i]);
    }

    function Cut(s: seq<Byte>): seq<Byte> {
      if |s| <= FORWARD_MAX then s else s[..FORWARD_MAX]
    }
  }

  /** What can happen to a replay: the terminal reads, or the user types. */
  datatype Event = Read(oblen: nat, now: Time, out: Outcome) | Type(keys: seq<Byte>)

  /** Every run: under any interleaving of reads and keys the bytes handed out are the recorded
      ones, in order, without loss or repetition, as far as the replay has come. */
  method Replay(file: seq<Byte>, ctl: Control, start: Time, events: seq<Event>, minwait: int, maxwait: int)
    returns (out: seq<Byte>, p: Player)
    requires Playable(file) && ControlOk(ctl)
    ensures p.Valid() && out + p.Pending() == Contents(file)
  {
    p := new Player(file, ctl, start, minwait, maxwait);
    var kb := new Keyboard(p);
    hide Contents, Playable, Unhindered, NextWait, Player.Pending;
    out := [];
    for i := 0 to |events|
      invariant fresh(p) && fresh(p.ibuff) && kb.player == p && fresh(kb)
      invariant p.Valid() && out + p.Pending() == Contents(file)
    {
      match events[i] {
        case Read(oblen, now, outcome) =>
          var obuff := new Byte[oblen];
          ghost var before := p.Pending();
          var ok, n;
          ghost var gate;
          ok, n, gate := p.TTXReadFile(obuff, oblen, now, outcome);
          Moved(out, obuff[..n], before, p.Pending());
          out := out + obuff[..n];
        case Type(keys) =>
          kb.TTXWriteFile(keys);
      }
    }
  }

  lemma Moved(out: seq<Byte>, step: seq<Byte>, before: seq<Byte>, after: seq<Byte>)
    requires before == step + after
    ensures (out + step) + after == out + before
  {
  }

  /** Nowait replay to the end, with any other settings, any buffer sizes and any short reads:
      everything comes out. */
  method ReplayAll(file: seq<Byte>, ctl: Control, start: Time, minwait: int, maxwait: int,
                   sizes: seq<nat>, shorts: seq<nat>)
    returns (out: seq<Byte>)
    requires Playable(file) && sizes != [] && shorts != [] && 0 !in sizes
    requires ControlOk(ctl) && ctl.nowait && !ctl.pause && !ctl.quit
    ensures out == Contents(file)
  {
    var p := new Player(file, ctl, start, minwait, maxwait);
    hide Contents, Playable, NextWait, Player.Pending;
    out := [];
    var done := false;
    var i := 0;
    while !done
      invariant fresh(p) && fresh(p.ibuff) && p.Valid() && 0 <= i
      invariant out + p.Pending() == Contents(file)
      invariant p.ctl.nowait && !p.ctl.pause
      invariant p.ctl.quit || done ==> p.Pending() == []
      decreases if done then 0 else 1, if p.ctl.quit then 0 else 1, p.Left()
    {
      var size := sizes[i % |sizes|];
      assert size in sizes;
      var obuff := new Byte[size];
      ghost var before := p.Pending();
      var ok, n;
      ghost var gate;
      ok, n, gate := p.TTXReadFile(obuff, size, Time(0, 0), Outcome(false, false, shorts[i % |shorts|]));
      Moved(out, obuff[..n], before, p.Pending());
      out := out + obuff[..n];
      done := ok && n == 0;
      i := i + 1;
    }
  }
}
