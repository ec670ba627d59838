/** The whole chain: what a shell prints is escaped onto a telnet wire, cut into reads, stripped and
    recorded in frames, and replayed through a bounded staging buffer. */
module Pipeline {
  import opened Bytes
  import opened TelnetStream
  import CygTerm
  import CommOut
  import TtyRec
  import TimeVal
  import TtyPlay

  /** Recording and replaying a well-formed telnet stream gives back its data bytes, however the
      stream is cut into reads and whatever buffers the terminal reads the replay into. */
  method RecordAndReplay(ghost items: seq<Item>, chunks: seq<seq<Byte>>, times: seq<(Int32, Int32)>,
                         ctl: TtyPlay.Control, sizes: seq<nat>, shorts: seq<nat>)
    returns (out: seq<Byte>)
    requires TtyPlay.ControlOk(ctl) && ctl.nowait && !ctl.pause && !ctl.quit
    requires forall it :: it in items ==> WellFormed(it)
    requires Flatten(chunks) == Wire(items) && |times| == |chunks|
    requires forall r :: r in chunks ==> |r| < 0x8000_0000
    requires sizes != [] && shorts != [] && 0 !in sizes
    ensures out == Payload(items)
  {
    var file := TtyRec.RecordSession(chunks, times, true);
    StripWire(items);
    out := TtyPlay.ReplayAll(file, ctl, TimeVal.Time(0, 0), 0, 0, sizes, shorts);
  }

  /** The player finds in the header the time at which the recorder has written the frame, and the
      number of bytes. */
  method ReadBack(data: seq<Byte>, sec: Int32, usec: Int32, ctl: TtyPlay.Control)
    returns (tv: TimeVal.Time, length: Int32)
    requires |data| < 0x8000_0000 && TtyPlay.ControlOk(ctl)
    ensures tv == TimeVal.Time(sec, usec) && length == |data|
  {
    var rec := new TtyRec.Recorder(false);
    rec.WriteData(data, sec, usec);
    ghost var f := TtyRec.Frame(sec, usec, data);
    assert rec.file == TtyRec.FrameBytes(f) == TtyRec.FrameBytes(f) + [];
    TtyRec.ContentsOfFrame(f);
    TtyPlay.HeaderOfRecord(f, []);
    var p := new TtyPlay.Player(rec.file, ctl, TimeVal.Time(0, 0), 0, 0);
    p.Activate();
    var go, ok := p.ReadHeader(false);
    tv, length := p.prhTv, p.prhLen;
  }

  /** Cuts a stream into reads at arbitrary places. */
  method CutIntoReads(s: seq<Byte>) returns (chunks: seq<seq<Byte>>, times: seq<(Int32, Int32)>)
    ensures Flatten(chunks) == s && |times| == |chunks|
    ensures forall r :: r in chunks ==> |r| <= 1024
  {
    chunks, times := [], [];
    var i := 0;
    while i < |s|
      invariant 0 <= i <= |s| && Flatten(chunks) == s[..i] && |times| == |chunks|
      invariant forall r :: r in chunks ==> |r| <= 1024
    {
      var n :| 1 <= n <= 1024 && i + n <= |s|;
      FlattenAppend(chunks, s[i..i + n]);
      chunks, times := chunks + [s[i..i + n]], times + [(0, 0)];
      i := i + n;
    }
  }

  /** Commands without data, as either side may send them at any time. */
  predicate Commands(items: seq<Item>) {
    forall it :: it in items ==> WellFormed(it) && !it.Data?
  }

  lemma {:induction false} NoPayload(items: seq<Item>)
    requires Commands(items)
    ensures Payload(items) == []
  {
    if items != [] {
      NoPayload(items[1..]);
    }
  }

  /** Puts commands between the escaped bytes of a stream, `gaps[k]` in front of the k-th. */
  method Weave(wire: seq<Byte>, ghost s: seq<Byte>, gaps: seq<seq<Item>>)
    returns (woven: seq<Byte>, ghost items: seq<Item>)
    requires wire == EscapeIac(s) && forall g :: g in gaps ==> Commands(g)
    ensures woven == Wire(items) && Payload(items) == s && forall it :: it in items ==> WellFormed(it)
    ensures Strip(0, woven) == Strip(0, wire)
  {
    hide EscapeIac, Wire, Payload, WellFormed, ItemWire, Strip, StripMode, DataItems;
    woven, items := [], [];
    var i, k := 0, 0;
    assert wire[0..] == wire && s[0..] == s;
    Empty();
    while i < |wire|
      invariant 0 <= i <= |wire| && 0 <= k <= |s| && wire[i..] == EscapeIac(s[k..])
      invariant woven == Wire(items) && Payload(items) == s[..k] && forall it :: it in items ==> WellFormed(it)
      decreases |wire| - i
    {
      ghost var unit := EscapedFirst(s[k..]);
      var n := if wire[i] == IAC then 2 else 1;
      var gap := if k < |gaps| then gaps[k] else [];
      assert wire[i..][0] == wire[i] && s[k..][0] == s[k] && s[k..][1..] == s[k + 1..];
      assert wire[i..i + n] == unit by { assert wire[i..][..n] == wire[i..i + n]; }
      assert wire[i + n..] == EscapeIac(s[k + 1..]) by { assert wire[i..][n..] == wire[i + n..]; }
      OneMore(items, gap, s[k]);
      assert s[..k + 1] == s[..k] + [s[k]];
      woven := woven + Wire(gap) + wire[i..i + n];
      items := items + gap + [Data(s[k])];
      i, k := i + n, k + 1;
    }
    assert wire[i..] == [];
    EscapedNothing(s[k..]);
    assert s[..k] == s;
    StripWire(items);
    KeptOfEscaped(s);
  }

  lemma Empty()
    ensures Wire([]) == [] && Payload([]) == []
  {
  }

  lemma KeptOfEscaped(s: seq<Byte>)
    ensures Strip(0, EscapeIac(s)) == s
  {
    hide EscapeIac, Wire, Strip, StripMode, DataItems;
    EscapeIacIsWire(s);
    DataItemsPayload(s);
    assert forall it :: it in DataItems(s) ==> WellFormed(it);
    StripWire(DataItems(s));
  }

  lemma EscapedNothing(s: seq<Byte>)
    ensures EscapeIac(s) == [] <==> s == []
  {
  }

  lemma EscapedFirst(s: seq<Byte>) returns (unit: seq<Byte>)
    requires EscapeIac(s) != []
    ensures s != [] && unit == ItemWire(Data(s[0])) && |unit| == if s[0] == IAC then 2 else 1
    ensures EscapeIac(s) == unit + EscapeIac(s[1..]) && (unit[0] == IAC <==> s[0] == IAC)
  {
    unit := if s[0] == IAC then [IAC, IAC] else [s[0]];
  }

  lemma OneMore(items: seq<Item>, gap: seq<Item>, b: Byte)
    requires Commands(gap)
    ensures Wire(items + gap + [Data(b)]) == Wire(items) + Wire(gap) + ItemWire(Data(b))
    ensures Payload(items + gap + [Data(b)]) == Payload(items) + [b]
    ensures WellFormed(Data(b)) && forall it :: it in gap ==> WellFormed(it)
  {
    hide ItemWire;
    WireConcat(items + gap, [Data(b)]);
    WireConcat(items, gap);
    PayloadConcat(items + gap, [Data(b)]);
    PayloadConcat(items, gap);
    NoPayload(gap);
    assert Wire([Data(b)]) == ItemWire(Data(b)) + Wire([]) && Payload([Data(b)]) == [b] + Payload([]);
  }

  /** From the shell to the screen of a replay, while the terminal sends `input` the other way and
      commands are interleaved with the output: unless a write failed, what is shown is exactly what
      cygterm has read from the shell, and that is everything after enough passes; and the shell has
      received its part. */
  method ShellToScreen(shell: seq<Byte>, input: seq<Byte>, ghost items: seq<Item>, gaps: seq<seq<Item>>,
                       ready: seq<(bool, bool)>, ctl: TtyPlay.Control, sizes: seq<nat>, shorts: seq<nat>)
    returns (out: seq<Byte>, pty: CygTerm.Channel, broken: bool, ghost n: nat)
    requires input == Wire(items) && forall it :: it in items ==> SessionItem(it)
    requires forall g :: g in gaps ==> Commands(g)
    requires TtyPlay.ControlOk(ctl) && ctl.nowait && !ctl.pause && !ctl.quit
    requires sizes != [] && shorts != [] && 0 !in sizes
    ensures !broken ==> shell == out + pty.incoming
    ensures !broken ==> n <= |items| && pty.written == Relay(false, Payload(items[..n]))
    ensures !broken && |ready| > |shell| && (forall i :: 0 <= i < |ready| ==> ready[i] == (true, false)) ==>
              out == shell
  {
    hide EscapeIac, Wire, Payload, Relay, RelayCr, WellFormed, SessionItem, DataItems;
    var terminal := new CygTerm.Channel(input);
    pty := new CygTerm.Channel(shell);
    var session := new CygTerm.Session(terminal, pty);
    ghost var printed;
    printed, n := session.Run(ready, items);
    broken := terminal.broken || pty.broken;
    out := [];
    if !broken {
      ghost var woven;
      var wire;
      wire, woven := Weave(terminal.written, printed, gaps);
      var chunks, times := CutIntoReads(wire);
      out := RecordAndReplay(woven, chunks, times, ctl, sizes, shorts);
      if forall i :: 0 <= i < |ready| ==> ready[i] == (true, false) {
        CygTerm.OneSided(ready, |ready|);
      }
    }
  }

  /** From the keyboard to the shell: what a plugin types into an empty output buffer, if it fits,
      reaches the shell byte for byte once the relay has read it all if and only if the newline
      setting is transparent to it; enough passes read it all. */
  method KeyboardToShell(cfg: CommOut.Settings, typed: seq<Byte>, ready: seq<(bool, bool)>)
    returns (received: seq<Byte>, broken: bool, done: bool)
    requires cfg.telnet && CommOut.Fits(cfg, typed, CommOut.OUT_BUFF_SIZE)
    ensures done && !broken ==> (received == typed <==> CommOut.Transparent(cfg, typed))
    ensures !broken && |ready| > 2 * |typed| && (forall i :: 0 <= i < |ready| ==> ready[i] == (false, true)) ==> done
  {
    hide CommOut.Fits, CommOut.Transparent, CommOut.Encode, CommOut.Queued, CommOut.TypedData, CommOut.Sent;
    hide Wire, Payload, Relay, RelayCr, DataItems, EscapeIac;
    ghost var items := DataItems(CommOut.TypedData(cfg, typed));
    CommOut.KeyboardRoundTrip(cfg, typed);
    DataItemsPayload(CommOut.TypedData(cfg, typed));
    ItemCount(cfg, typed);
    var sent := Type(cfg, typed);
    var terminal := new CygTerm.Channel(sent);
    var pty := new CygTerm.Channel([]);
    var session := new CygTerm.Session(terminal, pty);
    ghost var printed, n;
    printed, n := session.Run(ready, items);
    WireEmpty(items, n);
    done, received, broken := terminal.incoming == [], pty.written, terminal.broken || pty.broken;
    if forall i :: 0 <= i < |ready| ==> ready[i] == (false, true) {
      CygTerm.OneSided(ready, |ready|);
    }
  }

  /** Every typed byte becomes at most two bytes of data. */
  lemma ItemCount(cfg: CommOut.Settings, typed: seq<Byte>)
    requires cfg.telnet
    ensures |DataItems(CommOut.TypedData(cfg, typed))| <= 2 * |typed|
  {
    TypedLength(cfg, typed);
    ItemsLength(CommOut.TypedData(cfg, typed));
  }

  lemma {:induction false} TypedLength(cfg: CommOut.Settings, typed: seq<Byte>)
    requires cfg.telnet
    ensures |CommOut.TypedData(cfg, typed)| <= 2 * |typed|
  {
    if typed != [] {
      TypedLength(cfg, typed[1..]);
    }
  }

  lemma {:induction false} ItemsLength(s: seq<Byte>)
    ensures |DataItems(s)| == |s|
  {
    if s != [] {
      ItemsLength(s[1..]);
    }
  }

  method Type(cfg: CommOut.Settings, typed: seq<Byte>) returns (sent: seq<Byte>)
    requires CommOut.Fits(cfg, typed, CommOut.OUT_BUFF_SIZE)
    ensures sent == CommOut.Encode(cfg, typed)
  {
    hide CommOut.Fits, CommOut.Encode, CommOut.Queued, CommOut.Sent;
    var buffer := new CommOut.OutputBuffer(cfg);
    buffer.CommOut(typed);
    sent := buffer.buff[buffer.ptr..buffer.ptr + buffer.count];
    ghost var k, cut := CommOut.QueuedIsPrefix(cfg, typed, CommOut.OUT_BUFF_SIZE);
    assert sent == [] + CommOut.Queued(cfg, typed, CommOut.OUT_BUFF_SIZE);
  }

  lemma WireEmpty(items: seq<Item>, n: nat)
    requires n <= |items|
    ensures Wire(items[n..]) == [] ==> n == |items| && items[..n] == items
  {
    if n < |items| {
      assert items[n..] != [] && ItemWire(items[n..][0]) != [];
    }
  }
}
