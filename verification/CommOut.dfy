/** The bounded output buffer into which plugins type (`CommOut`), with its newline translation and
    telnet escaping, and what the far end of a telnet session makes of the typed bytes. */
module CommOut {
  import opened Bytes
  import opened TelnetStream

  const OUT_BUFF_SIZE: nat := 16384

  datatype CrSend = SendCr | SendCrLf | SendLf

  /** The connection settings that decide how a byte is sent. */
  datatype Settings = Settings(telnet: bool, binary: bool, crSend: CrSend)

  function EncodeByte(cfg: Settings, b: Byte): (r: seq<Byte>)
    ensures 1 <= |r| <= 2
    ensures |r| == 2 ==> b == CR || b == IAC
  {
    if b == CR then
      match cfg.crSend
      case SendCr => if cfg.telnet && !cfg.binary then [CR, NUL] else [CR]
      case SendLf => [LF]
      case SendCrLf => [CR, LF]
    else if b == IAC && cfg.telnet then [IAC, IAC]
    else [b]
  }

  function Encode(cfg: Settings, s: seq<Byte>): seq<Byte> {
    if s == [] then [] else EncodeByte(cfg, s[0]) + Encode(cfg, s[1..])
  }

  lemma {:induction false} EncodeConcat(cfg: Settings, a: seq<Byte>, b: seq<Byte>)
    ensures Encode(cfg, a + b) == Encode(cfg, a) + Encode(cfg, b)
  {
    if a == [] {
      assert a + b == b;
    } else {
      assert (a + b)[1..] == a[1..] + b;
      EncodeConcat(cfg, a[1..], b);
    }
  }

  /** Everything but CR and, on telnet, 0xff is sent as it is. */
  lemma {:induction false} SentAsIs(cfg: Settings, a: seq<Byte>)
    requires CR !in a && (cfg.telnet ==> IAC !in a)
    ensures Encode(cfg, a) == a
  {
    if a != [] {
      SentAsIs(cfg, a[1..]);
      assert a == [a[0]] + a[1..];
    }
  }

  lemma SentBetween(cfg: Settings, a: seq<Byte>, b: Byte, c: seq<Byte>)
    ensures Encode(cfg, a + [b] + c) == Encode(cfg, a) + EncodeByte(cfg, b) + Encode(cfg, c)
  {
    hide EncodeByte;
    EncodeConcat(cfg, a + [b], c);
    EncodeConcat(cfg, a, [b]);
    assert Encode(cfg, [b]) == EncodeByte(cfg, b) + Encode(cfg, [b][1..]);
  }

  /** What is sent for a newline, wherever it stands. */
  lemma Newline(cfg: Settings, a: seq<Byte>, b: seq<Byte>)
    ensures var nl := match cfg.crSend
                      case SendCr => if cfg.telnet && !cfg.binary then [13, 0] else [13]
                      case SendLf => [10]
                      case SendCrLf => [13, 10];
            Encode(cfg, a + [13] + b) == Encode(cfg, a) + nl + Encode(cfg, b)
  {
    SentBetween(cfg, a, CR, b);
  }

  /** 0xff is doubled on telnet, and only there. */
  lemma Doubled(cfg: Settings, a: seq<Byte>, b: seq<Byte>)
    ensures Encode(cfg, a + [255] + b) == Encode(cfg, a) + (if cfg.telnet then [255, 255] else [255]) + Encode(cfg, b)
  {
    SentBetween(cfg, a, IAC, b);
  }

  lemma {:induction false} EncodeLength(cfg: Settings, s: seq<Byte>)
    ensures |s| <= |Encode(cfg, s)|
    ensures |Encode(cfg, s)| == |s| ==> forall i :: 0 <= i < |s| ==> |EncodeByte(cfg, s[i])| == 1
  {
    if s != [] {
      EncodeLength(cfg, s[1..]);
      assert forall i :: 0 < i < |s| ==> s[i] == s[1..][i - 1];
    }
  }

  /** CR and 0xff take the branches that may shorten the input. */
  predicate Special(b: Byte) {
    b == CR || b == IAC
  }

  /** What one byte contributes when `free` bytes are left: if a pair does not fit, a CR pair is cut
      in two and an IAC pair is not written at all. */
  function Put(cfg: Settings, b: Byte, free: nat): (r: seq<Byte>)
    requires 0 < free
    ensures |r| <= free
  {
    if |EncodeByte(cfg, b)| <= free then EncodeByte(cfg, b) else if b == CR then [CR] else []
  }

  /** What the loop appends, given the free space and the number of input bytes it still means to
      take. A special byte that leaves too little space costs one input byte more. */
  function Fill(cfg: Settings, s: seq<Byte>, free: nat, outlen: int): seq<Byte>
    requires outlen <= free && outlen <= |s|
    decreases |s|
  {
    if outlen <= 0 then []
    else
      var sent := Put(cfg, s[0], free);
      var left := if Special(s[0]) && free - |sent| < outlen then outlen - 2 else outlen - 1;
      sent + Fill(cfg, s[1..], free - |sent|, left)
  }

  /** The encoding of `s`, or all of it but the second half of its final CR pair. */
  function Sent(cfg: Settings, s: seq<Byte>, cut: bool): seq<Byte> {
    if cut && s != [] then Encode(cfg, s[..|s| - 1]) + [CR] else Encode(cfg, s)
  }

  lemma SentStep(cfg: Settings, b: Byte, s: seq<Byte>, cut: bool)
    requires cut ==> s != []
    ensures Sent(cfg, [b] + s, cut) == EncodeByte(cfg, b) + Sent(cfg, s, cut)
  {
    if cut {
      assert ([b] + s)[..|s|] == [b] + s[..|s| - 1];
    }
  }

  lemma SentFirst(cfg: Settings, b: Byte)
    requires b == CR
    ensures Sent(cfg, [b], true) == [CR]
  {
    assert [b][..0] == [];
  }

  lemma PutCases(cfg: Settings, b: Byte, free: nat)
    requires 0 < free
    ensures Put(cfg, b, free) == EncodeByte(cfg, b) ||
            (free == 1 && |EncodeByte(cfg, b)| == 2 && Put(cfg, b, free) == if b == CR then [CR] else [])
  {
  }

  /** What is appended is the encoding of a prefix of the input; an IAC pair is never split, and
      only a final CR pair can be cut after its CR, when it is the last byte of the buffer. */
  lemma {:induction false} FillIsPrefix(cfg: Settings, s: seq<Byte>, free: nat, outlen: int) returns (k: nat, cut: bool)
    requires outlen <= free && outlen <= |s|
    ensures k <= |s| && (k == 0 || k <= outlen)
    ensures Fill(cfg, s, free, outlen) == Sent(cfg, s[..k], cut)
    ensures cut ==> 0 < k && s[k - 1] == CR && |EncodeByte(cfg, CR)| == 2 && |Fill(cfg, s, free, outlen)| == free
    decreases |s|
  {
    hide EncodeByte, Sent, Put;
    if outlen <= 0 {
      SentNothing(cfg, s[..0]);
      return 0, false;
    }
    var b, t := s[0], s[1..];
    var sent := Put(cfg, b, free);
    var left := if Special(b) && free - |sent| < outlen then outlen - 2 else outlen - 1;
    PutCases(cfg, b, free);
    if sent == EncodeByte(cfg, b) {
      k, cut := FillIsPrefix(cfg, t, free - |sent|, left);
      SentStep(cfg, b, t[..k], cut);
      assert s[..k + 1] == [b] + t[..k];
      k := k + 1;
    } else {
      FillNothing(cfg, t, free - |sent|, left);
      if b == CR {
        SentFirst(cfg, b);
        assert s[..1] == [b];
        return 1, true;
      }
      SentNothing(cfg, s[..0]);
      return 0, false;
    }
  }

  lemma SentNothing(cfg: Settings, s: seq<Byte>)
    requires s == []
    ensures Sent(cfg, s, false) == []
  {
  }

  lemma FillNothing(cfg: Settings, s: seq<Byte>, free: nat, outlen: int)
    requires outlen <= free && outlen <= 0
    ensures Fill(cfg, s, free, outlen) == []
  {
  }

  /** Nothing before the last byte of `s` is special. */
  predicate PlainButLast(s: seq<Byte>) {
    |s| <= 1 || (!Special(s[0]) && PlainButLast(s[1..]))
  }

  /** When the whole of `s` is queued: its encoding leaves a byte free, or it fills the space
      exactly and either its last byte is sent as a pair or nothing before that byte is special. */
  predicate Fits(cfg: Settings, s: seq<Byte>, free: nat) {
    || |Encode(cfg, s)| < free
    || (|Encode(cfg, s)| == free && (s == [] || |EncodeByte(cfg, s[|s| - 1])| == 2 || PlainButLast(s)))
  }

  lemma {:induction false} PlainLength(cfg: Settings, s: seq<Byte>)
    requires s != [] && |EncodeByte(cfg, s[|s| - 1])| == 1 && PlainButLast(s)
    ensures |Encode(cfg, s)| == |s|
  {
    if |s| > 1 {
      PlainLength(cfg, s[1..]);
    }
  }

  lemma LengthSplit(cfg: Settings, s: seq<Byte>, k: nat)
    requires k <= |s|
    ensures |Encode(cfg, s[..k])| + (|s| - k) <= |Encode(cfg, s)|
  {
    hide Encode;
    assert s == s[..k] + s[k..];
    EncodeConcat(cfg, s[..k], s[k..]);
    EncodeLength(cfg, s[k..]);
  }

  lemma ShorterPrefix(cfg: Settings, s: seq<Byte>, k: nat, cut: bool)
    requires k < |s|
    ensures |Sent(cfg, s[..k], cut)| < |Encode(cfg, s)|
  {
    hide Encode;
    LengthSplit(cfg, s, k);
    if cut && k > 0 {
      LengthSplit(cfg, s, k - 1);
      assert s[..k][..k - 1] == s[..k - 1];
    }
  }

  /** `Fits` before and after a first byte that has something behind it. */
  lemma FitsStep(cfg: Settings, s: seq<Byte>, free: nat)
    requires 1 < |s| <= free
    ensures var w := |EncodeByte(cfg, s[0])|;
            if Special(s[0]) && free - w < |s| then !Fits(cfg, s, free)
            else Fits(cfg, s, free) <==> Fits(cfg, s[1..], free - w)
  {
    var t := s[1..];
    EncodeLength(cfg, t);
    if |EncodeByte(cfg, t[|t| - 1])| == 1 && PlainButLast(t) {
      PlainLength(cfg, t);
    }
  }

  /** Nothing is lost exactly if the loop means to take all of `s` and it fits. */
  lemma {:induction false} FillIsWhole(cfg: Settings, s: seq<Byte>, free: nat, outlen: int)
    requires outlen <= free && outlen <= |s|
    ensures Fill(cfg, s, free, outlen) == Encode(cfg, s) <==> (s == [] || outlen == |s|) && Fits(cfg, s, free)
    decreases |s|
  {
    if s == [] {
    } else if outlen < |s| {
      var k, cut := FillIsPrefix(cfg, s, free, outlen);
      ShorterPrefix(cfg, s, k, cut);
    } else if |s| > 1 {
      var t, w := s[1..], |EncodeByte(cfg, s[0])|;
      var left := if Special(s[0]) && free - w < outlen then outlen - 2 else outlen - 1;
      FillIsWhole(cfg, t, free - w, left);
      FitsStep(cfg, s, free);
      SamePrefix(EncodeByte(cfg, s[0]), Fill(cfg, t, free - w, left), Encode(cfg, t));
    } else {
      assert s[1..] == [];
    }
  }

  lemma FillStep(cfg: Settings, s: seq<Byte>, i: nat, free: nat, outlen: int)
    requires i < |s| && 0 < outlen <= free && outlen <= |s| - i
    ensures var sent := Put(cfg, s[i], free);
            var left := if Special(s[i]) && free - |sent| < outlen then outlen - 2 else outlen - 1;
            left <= free - |sent| &&
            Fill(cfg, s[i..], free, outlen) == sent + Fill(cfg, s[i + 1..], free - |sent|, left)
  {
    assert s[i..][1..] == s[i + 1..];
  }

  /** What a call appends when `room` bytes are free. */
  function Queued(cfg: Settings, s: seq<Byte>, room: nat): seq<Byte> {
    Fill(cfg, s, room, if |s| > room then room else |s|)
  }

  /** The buffer is never overrun, what is appended is the encoding of the first `k` input bytes (a
      final CR pair possibly cut after its CR), and nothing is lost exactly if the input fits. */
  lemma QueuedIsPrefix(cfg: Settings, s: seq<Byte>, room: nat) returns (k: nat, cut: bool)
    ensures |Queued(cfg, s, room)| <= room && k <= |s|
    ensures Queued(cfg, s, room) == Sent(cfg, s[..k], cut)
    ensures cut ==> 0 < k && s[k - 1] == CR && |EncodeByte(cfg, CR)| == 2 && |Queued(cfg, s, room)| == room
    ensures Queued(cfg, s, room) == Encode(cfg, s) <==> Fits(cfg, s, room)
  {
    var outlen := if |s| > room then room else |s|;
    k, cut := FillIsPrefix(cfg, s, room, outlen);
    FillIsWhole(cfg, s, room, outlen);
    FillFree(cfg, s, room, outlen);
    EncodeLength(cfg, s);
  }

  lemma AfterIac(cfg: Settings, room: nat)
    requires cfg.crSend == SendCr && !cfg.binary && room == if cfg.telnet then 3 else 2
    ensures Queued(cfg, [255, 97], room) == if cfg.telnet then [255, 255] else [255]
  {
    var s: seq<Byte> := [255, 97];
    assert s[1..] == [97];
    var sent := Put(cfg, 255, room);
    assert Fill(cfg, s[1..], room - |sent|, 0) == [];
    assert Queued(cfg, s, room) == sent + [];
  }

  /** CR and a letter would fill two free bytes exactly, but the letter is dropped; without the CR
      both fit. */
  lemma ByteDropped()
    ensures var cfg := Settings(false, false, SendCr);
            && Queued(cfg, [CR, 97], 2) == [CR] && Encode(cfg, [CR, 97]) == [CR, 97] && !Fits(cfg, [CR, 97], 2)
            && Queued(cfg, [96, 97], 2) == [96, 97]
    ensures Queued(Settings(false, false, SendCr), [255, 97], 2) == [255]
    ensures Queued(Settings(true, false, SendCr), [255, 97], 3) == [255, 255]
  {
    AfterIac(Settings(false, false, SendCr), 2);
    AfterIac(Settings(true, false, SendCr), 3);
    var cfg := Settings(false, false, SendCr);
    var s, t: seq<Byte> := [CR, 97], [96, 97];
    assert s[1..] == [97] && t[1..] == [97];
    assert Fill(cfg, s[1..], 1, 0) == [] && [CR] + [] == [CR];
    assert Encode(cfg, s[1..]) == [97] + Encode(cfg, []) && [CR] + [97] == [CR, 97];
    assert Fill(cfg, t[1..], 1, 1) == [97] + Fill(cfg, [], 0, 0) && [96] + [97] == [96, 97];
  }

  lemma {:induction false} FillFree(cfg: Settings, s: seq<Byte>, free: nat, outlen: int)
    requires outlen <= free && outlen <= |s|
    ensures |Fill(cfg, s, free, outlen)| <= free
    decreases |s|
  {
    if outlen > 0 {
      var sent := Put(cfg, s[0], free);
      FillFree(cfg, s[1..], free - |sent|, if Special(s[0]) && free - |sent| < outlen then outlen - 2 else outlen - 1);
    }
  }

  // ----- What the shell at the far end of a telnet session receives of the typed bytes.

  /** The data bytes sent for one typed byte, before telnet escaping. */
  function KeyData(cfg: Settings, b: Byte): seq<Byte> {
    if b == CR then EncodeByte(cfg, b) else [b]
  }

  function TypedData(cfg: Settings, s: seq<Byte>): seq<Byte> {
    if s == [] then [] else KeyData(cfg, s[0]) + TypedData(cfg, s[1..])
  }

  lemma {:induction false} EncodeIsEscapedData(cfg: Settings, s: seq<Byte>)
    requires cfg.telnet
    ensures Encode(cfg, s) == EscapeIac(TypedData(cfg, s))
  {
    if s != [] {
      EncodeIsEscapedData(cfg, s[1..]);
      EscapeIacConcat(KeyData(cfg, s[0]), TypedData(cfg, s[1..]));
      EscapeShort(cfg, s[0]);
    }
  }

  lemma EscapeShort(cfg: Settings, b: Byte)
    requires cfg.telnet
    ensures EscapeIac(KeyData(cfg, b)) == EncodeByte(cfg, b)
  {
    var d := KeyData(cfg, b);
    assert EscapeIac(d[1..]) == d[1..] by {
      if |d| == 2 {
        assert d[1..] == [d[1]] && d[1..][1..] == [];
      }
    }
  }

  /** Some CR is followed by an LF or NUL with nothing but 0xff bytes between them. */
  predicate CrRunLf(s: seq<Byte>) {
    s != [] && ((s[0] == CR && IacRunThenLf(s[1..])) || CrRunLf(s[1..]))
  }

  /** When typing `s` is transparent: always if CR is sent as a pair; if CR is sent bare, unless a
      CR swallows a later LF or NUL; if CR is sent as LF, only if there is none. */
  predicate Transparent(cfg: Settings, s: seq<Byte>) {
    match cfg.crSend
    case SendCrLf => true
    case SendCr => (cfg.telnet && !cfg.binary) || !CrRunLf(s)
    case SendLf => CR !in s
  }

  lemma {:induction false} PairedCr(cfg: Settings, s: seq<Byte>)
    requires |EncodeByte(cfg, CR)| == 2
    ensures Relay(false, TypedData(cfg, s)) == s
  {
    if s != [] {
      PairedCr(cfg, s[1..]);
      var d := KeyData(cfg, s[0]);
      RelayConcat(false, d, TypedData(cfg, s[1..]));
      if s[0] == CR {
        assert d[1..] == [d[1]] && d[1..][1..] == [];
        assert Relay(true, d[1..]) == [] && !RelayCr(true, d[1..]);
      } else {
        assert d[1..] == [];
      }
      assert Relay(false, d) == [s[0]] && !RelayCr(false, d);
    }
  }

  lemma {:induction false} BareCr(cfg: Settings, s: seq<Byte>)
    requires EncodeByte(cfg, CR) == [CR]
    ensures TypedData(cfg, s) == s
    ensures |Relay(false, s)| <= |s|
    ensures |Relay(false, s)| == |s| <==> !CrRunLf(s)
    ensures !CrRunLf(s) ==> Relay(false, s) == s
  {
    if s != [] {
      BareCr(cfg, s[1..]);
      PendingCr(s[1..]);
    }
  }

  lemma {:induction false} CrAsLf(cfg: Settings, s: seq<Byte>)
    requires EncodeByte(cfg, CR) == [LF]
    ensures |TypedData(cfg, s)| == |s| && Relay(false, TypedData(cfg, s)) == TypedData(cfg, s)
    ensures CR !in TypedData(cfg, s)
    ensures CR !in s ==> TypedData(cfg, s) == s
  {
    if s != [] {
      CrAsLf(cfg, s[1..]);
      var t := TypedData(cfg, s[1..]);
      assert TypedData(cfg, s) == KeyData(cfg, s[0]) + t && (KeyData(cfg, s[0]) + t)[1..] == t;
    }
  }

  /** In binary telnet CR and LF are typed as they are, and the relay drops the LF; with LF for a
      newline a CR arrives as LF. */
  lemma NewlineChanged()
    ensures var cfg := Settings(true, true, SendCr);
            && Relay(false, TypedData(cfg, [CR, LF])) == [CR] && !Transparent(cfg, [CR, LF])
    ensures var cfg := Settings(true, false, SendLf);
            && Relay(false, TypedData(cfg, [CR])) == [LF] && !Transparent(cfg, [CR])
  {
    var binary, newline := Settings(true, true, SendCr), Settings(true, false, SendLf);
    var s: seq<Byte> := [CR, LF];
    BareCr(binary, s);
    assert s[1..] == [LF] && [LF][1..] == [];
    assert Relay(true, [LF]) == [] + Relay(false, [LF][1..]) == [];
    assert Relay(false, s) == [CR] + Relay(true, s[1..]) == [CR];
    CrAsLf(newline, [CR]);
    assert TypedData(newline, [CR]) == [LF] + TypedData(newline, [CR][1..]) == [LF];
    KeyboardRoundTrip(binary, s);
    KeyboardRoundTrip(newline, [CR]);
    DataItemsPayload(TypedData(binary, s));
    DataItemsPayload(TypedData(newline, [CR]));
  }

  /** Keyboard round trip: the wire carries `Encode`, whose data bytes reach the shell unchanged
      exactly for the transparent inputs. */
  lemma KeyboardRoundTrip(cfg: Settings, s: seq<Byte>)
    requires cfg.telnet
    ensures Encode(cfg, s) == Wire(DataItems(TypedData(cfg, s)))
    ensures Relay(false, Payload(DataItems(TypedData(cfg, s)))) == s <==> Transparent(cfg, s)
  {
    var d := TypedData(cfg, s);
    EncodeIsEscapedData(cfg, s);
    EscapeIacIsWire(d);
    DataItemsPayload(d);
    if |EncodeByte(cfg, CR)| == 2 {
      PairedCr(cfg, s);
    } else if cfg.crSend == SendCr {
      BareCr(cfg, s);
    } else {
      CrAsLf(cfg, s);
    }
  }

  class OutputBuffer {
    var buff: array<Byte>
    var ptr: nat
    var count: nat
    var cfg: Settings

    ghost predicate Valid()
      reads this
    {
      buff.Length == OUT_BUFF_SIZE && ptr + count <= OUT_BUFF_SIZE
    }

    /** The bytes waiting to be sent. */
    ghost function Pending(): seq<Byte>
      requires Valid()
      reads this, buff
    {
      buff[ptr..ptr + count]
    }

    ghost function Room(): nat
      requires Valid()
      reads this
    {
      OUT_BUFF_SIZE - count
    }

    constructor (cfg: Settings)
      ensures Valid() && Pending() == [] && this.cfg == cfg && fresh(buff)
    {
      buff := new Byte[OUT_BUFF_SIZE];
      ptr, count := 0, 0;
      this.cfg := cfg;
    }

    method PutCr(c: nat) returns (d: nat)
      requires Valid() && c < OUT_BUFF_SIZE
      modifies buff
      ensures d == c + |Put(cfg, CR, OUT_BUFF_SIZE - c)| <= OUT_BUFF_SIZE
      ensures buff[..d] == old(buff[..c]) + Put(cfg, CR, OUT_BUFF_SIZE - c)
    {
      d := c + 1;
      match cfg.crSend {
        case SendCr =>
          buff[c] := CR;
          if d < OUT_BUFF_SIZE && cfg.telnet && !cfg.binary {
            buff[d] := NUL;
            d := d + 1;
          }
        case SendLf =>
          buff[c] := LF;
        case SendCrLf =>
          buff[c] := CR;
          if d < OUT_BUFF_SIZE {
            buff[d] := LF;
            d := d + 1;
          }
      }
    }

    method PutIac(c: nat) returns (d: nat)
      requires Valid() && c < OUT_BUFF_SIZE
      modifies buff
      ensures d == c + |Put(cfg, IAC, OUT_BUFF_SIZE - c)| <= OUT_BUFF_SIZE
      ensures buff[..d] == old(buff[..c]) + Put(cfg, IAC, OUT_BUFF_SIZE - c)
    {
      d := c;
      if cfg.telnet {
        if c < OUT_BUFF_SIZE - 1 {
          buff[c] := IAC;
          buff[c + 1] := IAC;
          d := c + 2;
        }
      } else {
        buff[c] := IAC;
        d := c + 1;
      }
    }

    /** The body of the switch. */
    method PutByte(b: Byte, c: nat) returns (d: nat)
      requires Valid() && c < OUT_BUFF_SIZE
      modifies buff
      ensures d == c + |Put(cfg, b, OUT_BUFF_SIZE - c)| <= OUT_BUFF_SIZE
      ensures buff[..d] == old(buff[..c]) + Put(cfg, b, OUT_BUFF_SIZE - c)
    {
      if b == CR {
        d := PutCr(c);
      } else if b == IAC {
        d := PutIac(c);
      } else {
        buff[c] := b;
        d := c + 1;
      }
    }

    /** memmove of the pending bytes to the front */
    method Compact()
      requires Valid()
      modifies this`ptr, buff
      ensures Valid() && ptr == 0 && buff[..count] == old(Pending())
    {
      if ptr > 0 {
        var p := ptr;
        forall j | 0 <= j < count {
          buff[j] := buff[p + j];
        }
        ptr := 0;
      }
    }

    /** Appends what fits of the encoding of `str`, as QueuedIsPrefix says. */
    method CommOut(str: seq<Byte>)
      requires Valid()
      modifies this`ptr, this`count, buff
      ensures Valid()
      ensures Pending() == old(Pending()) + Queued(cfg, str, old(Room()))
    {
      hide Fill, Put, EncodeByte, Pending;
      var outlen := if |str| > OUT_BUFF_SIZE - count then OUT_BUFF_SIZE - count else |str|;
      Compact();
      ghost var was := buff[..count];
      FillFrom(str, outlen, count);
      assert buff[..count] == was + Queued(cfg, str, old(Room()));
      PendingAtFront();
    }

    lemma PendingAtFront()
      requires Valid() && ptr == 0
      ensures Pending() == buff[..count]
    {
    }

    /** The loop over the input. */
    method FillFrom(str: seq<Byte>, allowance: int, start: nat)
      requires Valid() && ptr == 0 && start <= OUT_BUFF_SIZE
      requires allowance <= OUT_BUFF_SIZE - start && allowance <= |str|
      modifies this`count, buff
      ensures Valid() && count == start + |Fill(cfg, str, OUT_BUFF_SIZE - start, allowance)|
      ensures buff[..count] == old(buff[..start]) + Fill(cfg, str, OUT_BUFF_SIZE - start, allowance)
    {
      hide Fill, Put, EncodeByte;
      var c, outlen, i := start, allowance, 0;
      ghost var total := buff[..c] + Fill(cfg, str, OUT_BUFF_SIZE - c, outlen);
      assert str[0..] == str;
      while outlen > 0
        invariant Valid() && 0 <= i <= |str| && 0 <= c <= OUT_BUFF_SIZE
        invariant outlen <= OUT_BUFF_SIZE - c && outlen <= |str| - i
        invariant buff[..c] + Fill(cfg, str[i..], OUT_BUFF_SIZE - c, outlen) == total
        decreases outlen
      {
        FillStep(cfg, str, i, OUT_BUFF_SIZE - c, outlen);
        ghost var before, sent := buff[..c], Put(cfg, str[i], OUT_BUFF_SIZE - c);
        c := PutByte(str[i], c);
        if Special(str[i]) && c + outlen > OUT_BUFF_SIZE {
          outlen := outlen - 1;
        }
        i := i + 1;
        outlen := outlen - 1;
        Assoc(before, sent, Fill(cfg, str[i..], OUT_BUFF_SIZE - c, outlen));
      }
      FillNothing(cfg, str[i..], OUT_BUFF_SIZE - c, outlen);
      assert buff[..c] + [] == buff[..c];
      count := c;
    }
  }
}
