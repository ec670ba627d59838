/** cygterm: buffered I/O on two descriptors and the relay between a telnet terminal and a shell. */
module CygTerm {
  import opened Bytes
  import opened TelnetStream

  const BUF_SIZE: nat := 4096

  /** A descriptor: what can still be read from it, what has been written to it, and whether a write
      has failed. Reads and writes may be short; a read returns nothing only at the end of input. */
  class Channel {
    var incoming: seq<Byte>
    var written: seq<Byte>
    var broken: bool

    constructor (incoming: seq<Byte>)
      ensures this.incoming == incoming && written == [] && !broken
    {
      this.incoming, written, broken := incoming, [], false;
    }

    method Read(max: nat) returns (r: seq<Byte>)
      requires 0 < max
      modifies this`incoming
      ensures old(incoming) == r + incoming && |r| <= max
      ensures r == [] ==> old(incoming) == []
    {
      var n := 0;
      if incoming != [] {
        n :| 1 <= n <= max && n <= |incoming|;
      }
      r, incoming := incoming[..n], incoming[n..];
    }

    method Write(data: seq<Byte>) returns (n: int)
      requires data != []
      modifies this`written, this`broken
      ensures n <= 0 ==> broken && written == old(written)
      ensures 0 < n ==> n <= |data| && written == old(written) + data[..n] && broken == old(broken)
    {
      n :| -1 <= n <= |data|;
      if n <= 0 {
        broken := true;
      } else {
        written := written + data[..n];
      }
    }
  }

  class IOBuf {
    const fd: Channel
    const iBuf: array<Byte>
    const oBuf: array<Byte>
    var iPos: nat
    var iLen: nat
    var oPos: nat

    ghost predicate Valid()
      reads this
    {
      iBuf.Length == BUF_SIZE && oBuf.Length == BUF_SIZE && iBuf != oBuf && iPos <= iLen <= BUF_SIZE && oPos <= BUF_SIZE
    }

    /** What the program has yet to see of the input. */
    ghost function Input(): seq<Byte>
      requires Valid()
      reads this, iBuf, fd
    {
      iBuf[iPos..iLen] + fd.incoming
    }

    /** What the program has put out so far. */
    ghost function Output(): seq<Byte>
      requires Valid()
      reads this, oBuf, fd
    {
      fd.written + oBuf[..oPos]
    }

    constructor (fd: Channel)
      ensures Valid() && this.fd == fd && fresh(iBuf) && fresh(oBuf)
      ensures iPos == iLen == oPos == 0
    {
      this.fd := fd;
      iBuf, oBuf := new Byte[BUF_SIZE], new Byte[BUF_SIZE];
      iPos, iLen, oPos := 0, 0, 0;
    }

    lemma OutputFlushed()
      requires Valid() && oPos == 0
      ensures Output() == fd.written
    {
      assert oBuf[..0] == [];
    }

    lemma InputDrained()
      requires Valid() && iPos == iLen
      ensures Input() == fd.incoming
    {
      assert iBuf[iPos..iLen] == [];
    }

    /** Refills the input buffer, which must have been used up. */
    method FlushIn() returns (ok: bool)
      requires Valid() && iPos == iLen
      modifies this`iPos, this`iLen, iBuf, fd`incoming
      ensures ok ==> Valid() && Input() == old(fd.incoming) && iPos == 0 < iLen
      ensures ok ==> old(fd.incoming) == iBuf[..iLen] + fd.incoming
      ensures !ok ==> old(fd.incoming) == fd.incoming == []
    {
      var r := fd.Read(BUF_SIZE);
      iLen := |r|;
      if r == [] {
        return false;
      }
      forall k | 0 <= k < |r| {
        iBuf[k] := r[k];
      }
      iPos := 0;
      assert iBuf[..iLen] == iBuf[0..iLen] == r;
      ok := true;
    }

    method Getc() returns (ok: bool, c: Byte)
      requires Valid()
      modifies this`iPos
      ensures Valid() && ok == (old(iPos) < iLen)
      ensures ok ==> old(Input()) == [c] + Input() && iPos == old(iPos) + 1 && c == iBuf[old(iPos)]
      ensures !ok ==> iPos == old(iPos)
    {
      if iPos == iLen {
        return false, 0;
      }
      c := iBuf[iPos];
      assert iBuf[iPos..iLen] == [c] + iBuf[iPos + 1..iLen];
      iPos := iPos + 1;
      ok := true;
    }

    /** Like Getc, but waits for more input when the buffer is used up. */
    method Nextc() returns (ok: bool, c: Byte)
      requires Valid() && Input() != []
      modifies this`iPos, this`iLen, iBuf, fd`incoming
      ensures Valid() && ok && old(Input()) == [c] + Input()
    {
      if iPos == iLen {
        InputDrained();
        ok := FlushIn();
      }
      ok, c := Getc();
    }

    /** Buffers one byte; unless a write has failed, it has been added to the output. */
    method Putc(c: Byte) returns (ok: bool)
      requires Valid()
      modifies this`oPos, oBuf, fd`written, fd`broken
      ensures Valid() && (old(fd.broken) ==> fd.broken) && (!ok ==> fd.broken)
      ensures !fd.broken ==> Output() == old(Output()) + [c]
    {
      if oPos == BUF_SIZE {
        ok := FlushOut();
        if !ok {
          return false;
        }
        OutputFlushed();
      }
      ghost var before := oBuf[..oPos];
      oBuf[oPos] := c;
      oPos := oPos + 1;
      assert oBuf[..oPos] == before + [c];
      ok := true;
    }

    /** Writes the buffer out, in as many short writes as it takes. */
    method FlushOut() returns (ok: bool)
      requires Valid()
      modifies this`oPos, fd`written, fd`broken
      ensures Valid() && (old(fd.broken) ==> fd.broken) && (!ok ==> fd.broken)
      ensures ok ==> oPos == 0 && fd.written == old(Output())
    {
      var i := 0;
      while i < oPos
        invariant 0 <= i <= oPos == old(oPos)
        invariant fd.written == old(fd.written) + oBuf[..i]
        invariant fd.broken == old(fd.broken)
      {
        var n := fd.Write(oBuf[i..oPos]);
        if n <= 0 {
          return false;
        }
        assert oBuf[..i] + oBuf[i..oPos][..n] == oBuf[..i + n];
        i := i + n;
      }
      oPos := 0;
      ok := true;
    }
  }

  /** An item whose wire form starts with IAC. */
  ghost predicate Opened(it: Item) {
    it.Data? ==> it.b == IAC
  }

  /** The bytes after that IAC. */
  ghost function AfterIac(it: Item): (r: seq<Byte>)
    requires Opened(it)
    ensures [IAC] + r == ItemWire(it)
  {
    match it
    case Data(_) => [IAC]
    case Command(cmd) => [cmd]
    case Negotiation(cmd, option) => [cmd, option]
    case Subnegotiation(body) =>
      assert [IAC, SB] + body + [IAC, SE] == [IAC] + ([SB] + (body + [IAC, SE]));
      [SB] + (body + [IAC, SE])
  }

  lemma Uncons(c: Byte, x: seq<Byte>, s: seq<Byte>, rest: seq<Byte>)
    requires [c] + x == s + rest && s != []
    ensures c == s[0] && x == s[1..] + rest
  {
    assert ([c] + x)[0] == c && ([c] + x)[1..] == x;
    assert (s + rest)[1..] == s[1..] + rest;
  }

  ghost predicate IsNaws(it: Item) {
    it.Subnegotiation? && it.body != [] && it.body[0] == NAWS
  }

  /** How often the shell has been read after `n` passes. */
  function ShellTurns(ready: seq<(bool, bool)>, n: nat): nat
    requires n <= |ready|
  {
    if n == 0 then 0 else ShellTurns(ready, n - 1) + if ready[n - 1].0 then 1 else 0
  }

  /** How many passes in a row the terminal has been left waiting for the shell. */
  function Waiting(ready: seq<(bool, bool)>, n: nat): (c: nat)
    requires n <= |ready|
    ensures c <= 20
  {
    if n == 0 then 0
    else
      var c := Waiting(ready, n - 1);
      if !ready[n - 1].0 then c else if c < 20 then c + 1 else 0
  }

  /** How often the terminal has been read: when it is ready and the shell is not, or the shell has
      had twenty turns before this one. */
  function TerminalTurns(ready: seq<(bool, bool)>, n: nat): nat
    requires n <= |ready|
  {
    if n == 0 then 0
    else
      TerminalTurns(ready, n - 1) +
      if ready[n - 1].1 && (!ready[n - 1].0 || Waiting(ready, n - 1) == 20) then 1 else 0
  }

  /** After `i` passes both sides have had their turns, and each turn has moved something. */
  predicate Fair(ready: seq<(bool, bool)>, i: nat, cnt: nat, printed: nat, n: nat) {
    && i <= |ready| && cnt == Waiting(ready, i)
    && ShellTurns(ready, i) <= printed && (ShellTurns(ready, i) == 0 ==> printed == 0)
    && TerminalTurns(ready, i) <= n && (TerminalTurns(ready, i) == 0 ==> n == 0)
  }

  lemma FairStep(ready: seq<(bool, bool)>, i: nat, cnt: nat, printed: nat, n: nat, printed': nat, n': nat)
    requires Fair(ready, i, cnt, printed, n) && i < |ready|
    requires if ready[i].0 then printed < printed' else printed == printed'
    requires if ready[i].1 && (!ready[i].0 || cnt == 20) then n < n' else n == n'
    ensures Fair(ready, i + 1, if !ready[i].0 then cnt else if cnt < 20 then cnt + 1 else 0, printed', n')
  {
  }

  lemma FairStart(ready: seq<(bool, bool)>)
    ensures Fair(ready, 0, 0, 0, 0)
  {
  }

  lemma FairEnd(ready: seq<(bool, bool)>, cnt: nat, printed: nat, n: nat)
    requires Fair(ready, |ready|, cnt, printed, n)
    ensures ShellTurns(ready, |ready|) <= printed && TerminalTurns(ready, |ready|) <= n
    ensures (ShellTurns(ready, |ready|) == 0 ==> printed == 0) && (TerminalTurns(ready, |ready|) == 0 ==> n == 0)
  {
  }

  /** A run that was left during pass `i`, perhaps after the shell's turn. */
  lemma FairBreak(ready: seq<(bool, bool)>, i: nat, cnt: nat, printed: nat, n: nat, printed': nat, n': nat)
    requires Fair(ready, i, cnt, printed, n) && i < |ready|
    requires !ready[i].0 ==> printed == printed'
    requires !(ready[i].1 && (!ready[i].0 || cnt == 20)) ==> n == n'
    ensures (ShellTurns(ready, |ready|) == 0 ==> printed' == 0) && (TerminalTurns(ready, |ready|) == 0 ==> n' == 0)
    ensures ready[i].0 ==> ShellTurns(ready, |ready|) > 0
    ensures ready[i].1 && (!ready[i].0 || cnt == 20) ==> TerminalTurns(ready, |ready|) > 0
  {
    TurnsGrow(ready, i + 1);
  }

  lemma {:induction false} TurnsGrow(ready: seq<(bool, bool)>, n: nat)
    requires n <= |ready|
    ensures ShellTurns(ready, n) <= ShellTurns(ready, |ready|)
    ensures TerminalTurns(ready, n) <= TerminalTurns(ready, |ready|)
    decreases |ready| - n
  {
    if n < |ready| {
      TurnsGrow(ready, n + 1);
    }
  }

  /** If both sides are always ready, the terminal gets every twenty-first pass. */
  lemma {:induction false} EveryTwentyFirst(ready: seq<(bool, bool)>, n: nat)
    requires n <= |ready| && forall i :: 0 <= i < n ==> ready[i] == (true, true)
    ensures Waiting(ready, n) == n % 21 && TerminalTurns(ready, n) == n / 21 && ShellTurns(ready, n) == n
  {
    if n > 0 {
      EveryTwentyFirst(ready, n - 1);
    }
  }

  /** If only one side ever has something to read, it has all the turns. */
  lemma {:induction false} OneSided(ready: seq<(bool, bool)>, n: nat)
    requires n <= |ready|
    ensures (forall i :: 0 <= i < n ==> ready[i] == (true, false)) ==>
              ShellTurns(ready, n) == n && TerminalTurns(ready, n) == 0
    ensures (forall i :: 0 <= i < n ==> ready[i] == (false, true)) ==>
              ShellTurns(ready, n) == 0 && TerminalTurns(ready, n) == n
  {
    if n > 0 {
      OneSided(ready, n - 1);
    }
  }

  class Session {
    const te: IOBuf
    const sh: IOBuf
    var cr: bool
    var cnt: nat
    var wsCol: nat
    var wsRow: nat
    var willTerm: bool
    var willNaws: bool

    ghost predicate Valid()
      reads this, te, sh
    {
      te.Valid() && sh.Valid() && te != sh && te.fd != sh.fd &&
      te.iBuf != sh.iBuf && te.iBuf != sh.oBuf && te.oBuf != sh.iBuf && te.oBuf != sh.oBuf
    }

    ghost predicate Idle()
      requires Valid()
      reads this, te, sh
    {
      te.iPos == te.iLen && sh.iPos == sh.iLen && te.oPos == sh.oPos == 0
    }

    constructor (teSock: Channel, shPty: Channel)
      requires teSock != shPty
      ensures Valid() && Idle() && !cr && te.fd == teSock && sh.fd == shPty && cnt == 0
      ensures fresh(te) && fresh(sh) && fresh(te.iBuf) && fresh(te.oBuf) && fresh(sh.iBuf) && fresh(sh.oBuf)
    {
      te := new IOBuf(teSock);
      sh := new IOBuf(shPty);
      cr, cnt, wsCol, wsRow, willTerm, willNaws := false, 0, 0, 0, false, false;
    }

    /** Reads byte `k` of the bytes `s` that come next, up to `rest`. */
    method Next(ghost s: seq<Byte>, ghost k: nat, ghost rest: seq<Byte>) returns (c: Byte)
      requires Valid() && k < |s| && te.Input() == s[k..] + rest
      modifies te`iPos, te`iLen, te.iBuf, te.fd`incoming
      ensures Valid() && c == s[k] && te.Input() == s[k + 1..] + rest
    {
      hide IOBuf.Input;
      var ok;
      ghost var was := te.Input();
      ok, c := te.Nextc();
      Uncons(c, te.Input(), s[k..], rest);
      assert s[k..][1..] == s[k + 1..];
    }

    /** Reads the rest of a telnet command and reports which one it was: 255 for an escaped IAC, 31
        for a window size (which it records), else the command byte. */
    method TelnetCmd(ghost it: Item, ghost rest: seq<Byte>) returns (cmd: Byte)
      requires Valid() && SessionItem(it) && Opened(it)
      requires te.Input() == AfterIac(it) + rest
      modifies this`wsCol, this`wsRow, this`willTerm, this`willNaws, te`iPos, te`iLen, te.iBuf, te.fd`incoming
      ensures Valid() && te.Input() == rest
      ensures cmd == IAC <==> it.Data?
      ensures IsNaws(it) ==>
                && cmd == NAWS
                && wsCol == (it.body[1] as int) * 0x100 + it.body[2]
                && wsRow == (it.body[3] as int) * 0x100 + it.body[4]
      ensures !IsNaws(it) ==> wsCol == old(wsCol) && wsRow == old(wsRow)
      ensures willTerm == (old(willTerm) || it == Negotiation(WILL, TERMINAL_TYPE))
      ensures willNaws == (old(willNaws) || it == Negotiation(WILL, NAWS))
    {
      hide IOBuf.Input;
      ghost var s := AfterIac(it);
      assert s[0..] == s;
      cmd := Next(s, 0, rest);
      if cmd == SB {
        assert s[1..] == it.body + [IAC, SE];
        var naws := Subnegotiation(it.body, rest);
        if naws {
          cmd := NAWS;
        }
      } else if WILL <= cmd <= DONT {
        var c := Next(s, 1, rest);
        assert s[2..] + rest == rest;
        if cmd == WILL && c == TERMINAL_TYPE {
          willTerm := true;
        } else if cmd == WILL && c == NAWS {
          willNaws := true;
        }
      } else {
        assert s[1..] + rest == rest;
      }
    }

    method Subnegotiation(ghost body: seq<Byte>, ghost rest: seq<Byte>) returns (naws: bool)
      requires Valid() && SessionItem(Item.Subnegotiation(body))
      requires te.Input() == (body + [IAC, SE]) + rest
      modifies this`wsCol, this`wsRow, te`iPos, te`iLen, te.iBuf, te.fd`incoming
      ensures Valid() && te.Input() == rest
      ensures naws == (body != [] && body[0] == NAWS)
      ensures naws ==> wsCol == (body[1] as int) * 0x100 + body[2] && wsRow == (body[3] as int) * 0x100 + body[4]
      ensures !naws ==> wsCol == old(wsCol) && wsRow == old(wsRow)
    {
      hide IOBuf.Input;
      ghost var s := body + [IAC, SE];
      assert s[0..] == s;
      var c := Next(s, 0, rest);
      // the terminal type was settled before the session
      if c == NAWS {
        WindowSize(s, rest);
        return true;
      }
      SkipTo(c, body, s, rest);
      naws := false;
    }

    /** The four bytes of a window size and the IAC SE behind them. */
    method WindowSize(ghost s: seq<Byte>, ghost rest: seq<Byte>)
      requires Valid() && |s| == 7 && te.Input() == s[1..] + rest
      modifies this`wsCol, this`wsRow, te`iPos, te`iLen, te.iBuf, te.fd`incoming
      ensures Valid() && te.Input() == rest
      ensures wsCol == (s[1] as int) * 0x100 + s[2] && wsRow == (s[3] as int) * 0x100 + s[4]
    {
      hide IOBuf.Input;
      var colHigh := Next(s, 1, rest);
      var colLow := Next(s, 2, rest);
      var rowHigh := Next(s, 3, rest);
      var rowLow := Next(s, 4, rest);
      var c := Next(s, 5, rest);
      c := Next(s, 6, rest);
      assert s[7..] + rest == rest;
      wsCol, wsRow := (colHigh as int) * 0x100 + colLow, (rowHigh as int) * 0x100 + rowLow;
    }

    /** Any other subnegotiation is skipped up to its IAC SE. */
    method SkipTo(first: Byte, ghost body: seq<Byte>, ghost s: seq<Byte>, ghost rest: seq<Byte>)
      requires Valid() && IAC !in body && s == body + [IAC, SE] && first == s[0] && te.Input() == s[1..] + rest
      modifies te`iPos, te`iLen, te.iBuf, te.fd`incoming
      ensures Valid() && te.Input() == rest
    {
      hide IOBuf.Input;
      var c := first;
      ghost var k := 0;
      while c != IAC
        invariant Valid() && 0 <= k <= |body| && c == if k < |body| then body[k] else IAC
        invariant te.Input() == s[k + 1..] + rest
        decreases |body| - k
      {
        c := Next(s, k + 1, rest);
        k := k + 1;
      }
      assert k == |body|;
      c := Next(s, k + 1, rest);
      assert s[k + 2..] + rest == rest;
    }

    /** Buffers one byte for the terminal, doubling IAC. */
    method PutEscaped(c: Byte)
      requires Valid()
      modifies te`oPos, te.oBuf, te.fd`written, te.fd`broken
      ensures Valid() && (old(te.fd.broken) ==> te.fd.broken)
      ensures !te.fd.broken ==> te.Output() == old(te.Output()) + if c == IAC then [IAC, IAC] else [c]
    {
      hide IOBuf.Output;
      var ok;
      if c == IAC {
        ok := te.Putc(c);
      }
      ok := te.Putc(c);
    }

    /** One pass over what the shell has printed. */
    method ShellToTerminal() returns (ok: bool, ghost chunk: seq<Byte>)
      requires Valid() && Idle()
      modifies sh`iPos, sh`iLen, sh.iBuf, sh.fd`incoming, te`oPos, te.oBuf, te.fd`written, te.fd`broken
      ensures old(sh.fd.incoming) == chunk + sh.fd.incoming && (old(te.fd.broken) ==> te.fd.broken)
      ensures !te.fd.broken ==> te.fd.written == old(te.fd.written) + EscapeIac(chunk)
      ensures if ok then Valid() && Idle() && chunk != [] else te.fd.broken || sh.fd.incoming == []
    {
      hide EscapeIac, IOBuf.Output, IOBuf.Input;
      EscapeNothing();
      chunk := [];
      ok := sh.FlushIn();
      if !ok {
        return;
      }
      chunk := sh.iBuf[..sh.iLen];
      te.OutputFlushed();
      ghost var start := te.fd.written;
      var more, c := sh.Getc();
      ghost var k := 0;
      while more
        invariant Valid() && sh.iLen == |chunk| && sh.iBuf[..sh.iLen] == chunk
        invariant old(sh.fd.incoming) == chunk + sh.fd.incoming
        invariant more ==> k < |chunk| && sh.iPos == k + 1 && c == chunk[k]
        invariant !more ==> k == |chunk| == sh.iPos
        invariant te.iPos == te.iLen && sh.oPos == 0 && old(te.fd.broken) ==> te.fd.broken
        invariant !te.fd.broken ==> te.Output() == start + EscapeIac(chunk[..k])
        decreases |chunk| - k
      {
        EscapeStep(chunk, k);
        PutEscaped(c);
        k := k + 1;
        more, c := sh.Getc();
      }
      assert chunk[..k] == chunk;
      ok := te.FlushOut();
    }

    lemma EscapeNothing()
      ensures EscapeIac([]) == []
    {
    }

    lemma EscapeStep(s: seq<Byte>, k: nat)
      requires k < |s|
      ensures EscapeIac(s[..0]) == []
      ensures EscapeIac(s[..k + 1]) == EscapeIac(s[..k]) + if s[k] == IAC then [IAC, IAC] else [s[k]]
    {
      assert s[..k + 1] == s[..k] + [s[k]];
      EscapeIacConcat(s[..k], [s[k]]);
    }

    /** One item from the terminal whose first byte has been read. */
    method RelayOne(c: Byte, ghost it: Item, ghost rest: seq<Byte>)
      requires Valid() && SessionItem(it) && [c] + te.Input() == ItemWire(it) + rest
      modifies this`cr, this`wsCol, this`wsRow, this`willTerm, this`willNaws
      modifies te`iPos, te`iLen, te.iBuf, te.fd`incoming, sh`oPos, sh.oBuf, sh.fd`written, sh.fd`broken
      ensures Valid() && te.Input() == rest && (old(sh.fd.broken) ==> sh.fd.broken)
      ensures cr == if it.Data? then NextCr(old(cr), it.b) else old(cr)
      ensures !sh.fd.broken ==> sh.Output() == old(sh.Output()) + if it.Data? then Relayed(old(cr), it.b) else []
    {
      hide IOBuf.Input, IOBuf.Output;
      FirstByte(c, te.Input(), it, rest);
      if c == IAC {
        var cmd := TelnetCmd(it, rest);
        if cmd == NAWS {
          // the size of the pty follows wsCol and wsRow
          return;
        }
        if cmd != IAC {
          return;
        }
      } else if c == CR {
        cr := true;
      } else if c == LF || c == NUL {
        if cr {
          cr := false;
          return;
        }
      } else {
        cr := false;
      }
      var ok := sh.Putc(c);
    }

    lemma FirstByte(c: Byte, x: seq<Byte>, it: Item, rest: seq<Byte>)
      requires [c] + x == ItemWire(it) + rest
      ensures c != IAC ==> it == Data(c) && x == rest
      ensures c == IAC ==> Opened(it) && x == AfterIac(it) + rest
    {
      Uncons(c, x, ItemWire(it), rest);
      if c == IAC {
        assert ([IAC] + AfterIac(it))[1..] == AfterIac(it);
      } else {
        assert [c][1..] + rest == rest;
      }
    }

    lemma RelayNothing(cr0: bool, items: seq<Item>)
      ensures RelayCr(cr0, Payload(items[..0])) == cr0 && Relay(cr0, Payload(items[..0])) == []
    {
    }

    lemma RelayStep(cr0: bool, items: seq<Item>, n: nat)
      requires n < |items|
      ensures var it, cr1 := items[n], RelayCr(cr0, Payload(items[..n]));
              && RelayCr(cr0, Payload(items[..n + 1])) == (if it.Data? then NextCr(cr1, it.b) else cr1)
              && Relay(cr0, Payload(items[..n + 1])) ==
                 Relay(cr0, Payload(items[..n])) + (if it.Data? then Relayed(cr1, it.b) else [])
    {
      var it := items[n];
      assert items[..n + 1] == items[..n] + [it];
      PayloadConcat(items[..n], [it]);
      assert Payload([it]) == ItemData(it);
      RelayConcat(cr0, Payload(items[..n]), ItemData(it));
    }

    lemma WireStep(items: seq<Item>, n: nat)
      requires n <= |items|
      ensures n == |items| ==> Wire(items[n..]) == []
      ensures n < |items| ==> Wire(items[n..]) == ItemWire(items[n]) + Wire(items[n + 1..])
    {
      if n < |items| {
        assert items[n..][1..] == items[n + 1..];
      }
    }

    /** One pass over what the terminal has sent. The input buffer can run out only between items,
        because a command that has begun is read to its end. */
    method TerminalToShell(ghost items: seq<Item>) returns (ok: bool, ghost n: nat)
      requires Valid() && Idle()
      requires te.fd.incoming == Wire(items) && forall it :: it in items ==> SessionItem(it)
      modifies this`cr, this`wsCol, this`wsRow, this`willTerm, this`willNaws
      modifies te`iPos, te`iLen, te.iBuf, te.fd`incoming, sh`oPos, sh.oBuf, sh.fd`written, sh.fd`broken
      ensures n <= |items| && te.fd.incoming == Wire(items[n..]) && (old(sh.fd.broken) ==> sh.fd.broken)
      ensures cr == RelayCr(old(cr), Payload(items[..n]))
      ensures !sh.fd.broken ==> sh.fd.written == old(sh.fd.written) + Relay(old(cr), Payload(items[..n]))
      ensures if ok then Valid() && Idle() && 0 < n else sh.fd.broken || te.fd.incoming == []
    {
      hide IOBuf.Input, IOBuf.Output, Wire, Payload, Relay, RelayCr, ItemWire, NextCr, Relayed, SessionItem;
      RelayNothing(cr, items);
      assert items[0..] == items;
      n := 0;
      ok := te.FlushIn();
      if !ok {
        return;
      }
      sh.OutputFlushed();
      ghost var start, cr0 := sh.fd.written, cr;
      WireStep(items, 0);
      var more, c := te.Getc();
      while more
        invariant Valid() && sh.iPos == sh.iLen && te.oPos == 0 && (old(sh.fd.broken) ==> sh.fd.broken)
        invariant n <= |items| && (n == 0 ==> more)
        invariant more ==> n < |items| && [c] + te.Input() == ItemWire(items[n]) + Wire(items[n + 1..])
        invariant !more ==> te.iPos == te.iLen && te.Input() == Wire(items[n..])
        invariant cr == RelayCr(cr0, Payload(items[..n]))
        invariant !sh.fd.broken ==> sh.Output() == start + Relay(cr0, Payload(items[..n]))
        decreases |items| - n
      {
        RelayStep(cr0, items, n);
        RelayOne(c, items[n], Wire(items[n + 1..]));
        n := n + 1;
        WireStep(items, n);
        more, c := te.Getc();
      }
      te.InputDrained();
      ok := sh.FlushOut();
    }

    /** What a run has achieved: it has taken `printed` from the shell's output and `n` items from
        the terminal's stream, and has passed them on. */
    ghost predicate Relaying(output: seq<Byte>, items: seq<Item>, printed: seq<Byte>, n: nat)
      reads this`cr, te.fd, sh.fd
    {
      && n <= |items| && te.fd.incoming == Wire(items[n..]) && output == printed + sh.fd.incoming
      && cr == RelayCr(false, Payload(items[..n]))
      && (!te.fd.broken ==> te.fd.written == EscapeIac(printed))
      && (!sh.fd.broken ==> sh.fd.written == Relay(false, Payload(items[..n])))
    }

    method ShellTurn(ghost output: seq<Byte>, ghost items: seq<Item>, ghost was: seq<Byte>, ghost n: nat)
        returns (ok: bool, ghost printed: seq<Byte>)
      requires Valid() && Idle() && Relaying(output, items, was, n)
      modifies sh`iPos, sh`iLen, sh.iBuf, sh.fd`incoming, te`oPos, te.oBuf, te.fd`written, te.fd`broken
      ensures Relaying(output, items, printed, n)
      ensures if ok then Valid() && Idle() && |was| < |printed| else te.fd.broken || sh.fd.incoming == []
    {
      hide IOBuf.Input, IOBuf.Output, Wire, Payload, Relay, RelayCr, EscapeIac;
      ghost var chunk;
      ok, chunk := ShellToTerminal();
      EscapeIacConcat(was, chunk);
      printed := was + chunk;
      assert was + (chunk + sh.fd.incoming) == printed + sh.fd.incoming;
    }

    method TerminalTurn(ghost output: seq<Byte>, ghost items: seq<Item>, ghost printed: seq<Byte>, ghost was: nat)
        returns (ok: bool, ghost n: nat)
      requires Valid() && Idle() && Relaying(output, items, printed, was)
      requires forall it :: it in items ==> SessionItem(it)
      modifies this`cr, this`wsCol, this`wsRow, this`willTerm, this`willNaws
      modifies te`iPos, te`iLen, te.iBuf, te.fd`incoming, sh`oPos, sh.oBuf, sh.fd`written, sh.fd`broken
      ensures Relaying(output, items, printed, n)
      ensures if ok then Valid() && Idle() && was < n else sh.fd.broken || te.fd.incoming == []
    {
      hide IOBuf.Input, IOBuf.Output, Wire, Payload, Relay, RelayCr, EscapeIac, SessionItem;
      ghost var m;
      ok, m := TerminalToShell(items[was..]);
      RelayMore(items, was, m);
      n := was + m;
    }

    /** The terminal has its turn: the shell has nothing to say, or has had twenty turns. */
    predicate TheirTurn(shReady: bool, teReady: bool, cnt: nat) {
      teReady && (!shReady || cnt == 20)
    }

    /** One pass of the relay loop. Output from the shell goes first, but after twenty such passes in a
        row the terminal gets its turn in the next one. */
    method Pass(shReady: bool, teReady: bool, ghost output: seq<Byte>, ghost items: seq<Item>,
                ghost printed: seq<Byte>, ghost n: nat)
        returns (go: bool, ghost printed': seq<Byte>, ghost n': nat)
      requires Valid() && Idle() && cnt <= 20 && Relaying(output, items, printed, n)
      requires forall it :: it in items ==> SessionItem(it)
      modifies this`cnt, this`cr, this`wsCol, this`wsRow, this`willTerm, this`willNaws
      modifies te`iPos, te`iLen, te`oPos, te.iBuf, te.oBuf, te.fd
      modifies sh`iPos, sh`iLen, sh`oPos, sh.iBuf, sh.oBuf, sh.fd
      ensures Relaying(output, items, printed', n')
      ensures go ==> Valid() && Idle()
      ensures go ==> cnt == if !shReady then old(cnt) else if old(cnt) < 20 then old(cnt) + 1 else 0
      ensures if shReady then go ==> |printed| < |printed'| else printed' == printed
      ensures if TheirTurn(shReady, teReady, old(cnt)) then go ==> n < n' else n' == n
      ensures !go ==> || te.fd.broken || sh.fd.broken || (shReady && sh.fd.incoming == [])
                      || (TheirTurn(shReady, teReady, old(cnt)) && te.fd.incoming == [])
    {
      hide IOBuf.Input, IOBuf.Output, Wire, Payload, Relay, RelayCr, EscapeIac, SessionItem, Relaying;
      printed', n' := printed, n;
      go := true;
      if shReady {
        go, printed' := ShellTurn(output, items, printed, n);
        if !go {
          return;
        }
        cnt := cnt + 1;
        if cnt <= 20 {
          return;
        }
        cnt := 0;
      }
      if teReady {
        go, n' := TerminalTurn(output, items, printed', n);
      }
    }

    /** Both sides have had their turns and every turn has moved something, unless a write has failed or
        a side that was read has ended. */
    ghost predicate Moved(ready: seq<(bool, bool)>, printed: nat, n: nat)
      reads te.fd, sh.fd
    {
      && (TerminalTurns(ready, |ready|) == 0 ==> n == 0) && (ShellTurns(ready, |ready|) == 0 ==> printed == 0)
      && (|| te.fd.broken || sh.fd.broken
          || (ShellTurns(ready, |ready|) <= printed && TerminalTurns(ready, |ready|) <= n)
          || (sh.fd.incoming == [] && ShellTurns(ready, |ready|) > 0)
          || (te.fd.incoming == [] && TerminalTurns(ready, |ready|) > 0))
    }

    method Passes(ready: seq<(bool, bool)>, ghost output: seq<Byte>, ghost items: seq<Item>)
        returns (ghost printed: seq<Byte>, ghost n: nat)
      requires Valid() && Idle() && cnt == 0 && Relaying(output, items, [], 0)
      requires forall it :: it in items ==> SessionItem(it)
      modifies this, te, sh, te.iBuf, te.oBuf, sh.iBuf, sh.oBuf, te.fd, sh.fd
      ensures Relaying(output, items, printed, n) && Moved(ready, |printed|, n)
    {
      hide IOBuf.Input, IOBuf.Output, SessionItem, Relaying, Fair, ShellTurns, TerminalTurns, Waiting;
      printed, n := [], 0;
      FairStart(ready);
      var i := 0;
      while i < |ready|
        invariant 0 <= i <= |ready| && Valid() && Idle() && cnt <= 20
        invariant Relaying(output, items, printed, n) && Fair(ready, i, cnt, |printed|, n)
      {
        ghost var cnt0, printed0, n0 := cnt, |printed|, n;
        var go;
        go, printed, n := Pass(ready[i].0, ready[i].1, output, items, printed, n);
        if !go {
          FairBreak(ready, i, cnt0, printed0, n0, |printed|, n);
          return;
        }
        FairStep(ready, i, cnt0, printed0, n0, |printed|, n);
        i := i + 1;
      }
      FairEnd(ready, cnt, |printed|, n);
    }

    /** The relay loop: `ready` says, select by select, which side has something to read. Output from
        the shell goes first, but after twenty-one such passes in a row the terminal gets its turn.
        Every pass moves something on, unless a write fails or a side that is read has ended. */
    method Run(ready: seq<(bool, bool)>, ghost items: seq<Item>) returns (ghost printed: seq<Byte>, ghost n: nat)
      requires Valid() && Idle() && !cr && cnt == 0 && te.fd.written == sh.fd.written == []
      requires te.fd.incoming == Wire(items) && forall it :: it in items ==> SessionItem(it)
      modifies this, te, sh, te.iBuf, te.oBuf, sh.iBuf, sh.oBuf, te.fd, sh.fd
      ensures old(sh.fd.incoming) == printed + sh.fd.incoming
      ensures !te.fd.broken ==> te.fd.written == EscapeIac(printed)
      ensures n <= |items| && te.fd.incoming == Wire(items[n..])
      ensures !sh.fd.broken ==> sh.fd.written == Relay(false, Payload(items[..n]))
      ensures Moved(ready, |printed|, n)
    {
      hide IOBuf.Input, IOBuf.Output, SessionItem, Moved;
      ghost var output := sh.fd.incoming;
      RelayNothing(false, items);
      EscapeNothing();
      assert items[0..] == items && [] + output == output;
      assert Relaying(output, items, [], 0);
      hide Wire, Payload, Relay, RelayCr, EscapeIac, Relaying;
      printed, n := Passes(ready, output, items);
      Achieved(output, items, printed, n);
    }

    lemma Achieved(output: seq<Byte>, items: seq<Item>, printed: seq<Byte>, n: nat)
      requires Relaying(output, items, printed, n)
      ensures n <= |items| && te.fd.incoming == Wire(items[n..]) && output == printed + sh.fd.incoming
      ensures !te.fd.broken ==> te.fd.written == EscapeIac(printed)
      ensures !sh.fd.broken ==> sh.fd.written == Relay(false, Payload(items[..n]))
    {
      hide Wire, Payload, Relay, RelayCr, EscapeIac;
    }

    lemma RelayMore(items: seq<Item>, n: nat, m: nat)
      requires n + m <= |items|
      ensures items[n..][m..] == items[n + m..]
      ensures var cr1 := RelayCr(false, Payload(items[..n]));
              && RelayCr(false, Payload(items[..n + m])) == RelayCr(cr1, Payload(items[n..][..m]))
              && Relay(false, Payload(items[..n + m])) ==
                 Relay(false, Payload(items[..n])) + Relay(cr1, Payload(items[n..][..m]))
    {
      assert items[..n + m] == items[..n] + items[n..][..m];
      PayloadConcat(items[..n], items[n..][..m]);
      RelayConcat(false, Payload(items[..n]), Payload(items[n..][..m]));
    }
  }
}
