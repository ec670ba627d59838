/** The recording plugin: frames of received data, with telnet removed, appended to a file. */
module TtyRec {
  import opened Bytes
  import opened TelnetStream

  const HEADER_SIZE: nat := 12

  /** One record of a recording: when, and what was received. */
  datatype Frame = Frame(sec: Int32, usec: Int32, data: seq<Byte>)

  /** A frame as written to the file: three native 32-bit integers and the data. */
  function FrameBytes(f: Frame): seq<Byte>
    requires |f.data| < 0x8000_0000
  {
    LittleEndian(f.sec) + LittleEndian(f.usec) + LittleEndian(|f.data|) + f.data
  }

  /** The length field of a header. */
  function HeaderLength(header: seq<Byte>): Int32
    requires |header| == HEADER_SIZE
  {
    FromLittleEndian(header[8..12])
  }

  /** The size of the player's staging buffer. */
  const BUFF_SIZE: nat := 2000

  /** The payload of a recording of which `n` bytes of the current frame are still to come. A
      negative number asks for more than any file has. */
  function Rest(n: int, file: seq<Byte>): seq<Byte>
    decreases |file|, 1
  {
    if n < 0 || n >= |file| then file else file[..n] + Contents(file[n..])
  }

  /** The concatenated payloads of all frames of a recording; the last one may be cut short. */
  function Contents(file: seq<Byte>): seq<Byte>
    decreases |file|, 0
  {
    if |file| < HEADER_SIZE then [] else Rest(HeaderLength(file[..HEADER_SIZE]), file[HEADER_SIZE..])
  }

  /** A header with a negative length is followed by no more than the player's staging buffer holds. */
  ghost predicate Playable(file: seq<Byte>)
    decreases |file|, 0
  {
    |file| >= HEADER_SIZE ==> PlayableRest(HeaderLength(file[..HEADER_SIZE]), file[HEADER_SIZE..])
  }

  ghost predicate PlayableRest(n: int, file: seq<Byte>)
    decreases |file|, 1
  {
    if n < 0 then |file| <= BUFF_SIZE else n < |file| ==> Playable(file[n..])
  }

  /** A recording made of whole frames can be extended by one frame. */
  ghost predicate Complete(file: seq<Byte>)
    decreases |file|
  {
    file == [] ||
    (|file| >= HEADER_SIZE &&
     var n := HeaderLength(file[..HEADER_SIZE]);
     n >= 0 && HEADER_SIZE + n <= |file| && Complete(file[HEADER_SIZE + n..]))
  }

  lemma HeaderOfFrame(f: Frame, rest: seq<Byte>)
    requires |f.data| < 0x8000_0000
    ensures |FrameBytes(f) + rest| >= HEADER_SIZE + |f.data|
    ensures HeaderLength((FrameBytes(f) + rest)[..HEADER_SIZE]) == |f.data|
    ensures (FrameBytes(f) + rest)[HEADER_SIZE..] == f.data + rest
  {
    var s, u, n := LittleEndian(f.sec), LittleEndian(f.usec), LittleEndian(|f.data|);
    assert (FrameBytes(f) + rest)[..HEADER_SIZE] == s + u + n;
    assert (s + u + n)[8..12] == n;
    LittleEndianRoundTrip(|f.data|);
  }

  /** The layout of a frame: seconds, microseconds and length, lowest bytes first, and the data. */
  lemma FrameLayout()
    ensures FrameBytes(Frame(0x0403_0201, 5, [65, 66])) == [1, 2, 3, 4, 5, 0, 0, 0, 2, 0, 0, 0, 65, 66]
    ensures LittleEndian(-1) == [255, 255, 255, 255]
  {
    assert LittleEndian(0x0403_0201) == [1, 2, 3, 4] && LittleEndian(5) == [5, 0, 0, 0];
    assert LittleEndian(2) == [2, 0, 0, 0];
  }

  lemma ContentsOfFrame(f: Frame)
    requires |f.data| < 0x8000_0000
    ensures Contents(FrameBytes(f)) == f.data && Playable(FrameBytes(f)) && Complete(FrameBytes(f))
  {
    hide LittleEndian, FromLittleEndian, FrameBytes, HeaderLength;
    HeaderOfFrame(f, []);
    assert FrameBytes(f) + [] == FrameBytes(f) && f.data + [] == f.data;
    assert FrameBytes(f)[HEADER_SIZE + |f.data|..] == [];
  }

  /** Appending frames appends their payload. */
  lemma {:induction false} ContentsAppend(file: seq<Byte>, more: seq<Byte>)
    requires Complete(file)
    ensures Contents(file + more) == Contents(file) + Contents(more)
    ensures Playable(more) ==> Playable(file + more)
    ensures Complete(more) ==> Complete(file + more)
    decreases |file|
  {
    hide HeaderLength;
    if file == [] {
      assert file + more == more;
    } else {
      var all := file + more;
      var n := HeaderLength(file[..HEADER_SIZE]);
      assert all[..HEADER_SIZE] == file[..HEADER_SIZE];
      var body, tail := file[HEADER_SIZE..][..n], file[HEADER_SIZE + n..];
      assert file[HEADER_SIZE..][n..] == tail;
      assert all[HEADER_SIZE..][n..] == tail + more && all[HEADER_SIZE + n..] == tail + more;
      assert all[HEADER_SIZE..][..n] == body;
      ContentsAppend(tail, more);
      RestSplit(n, file[HEADER_SIZE..]);
      RestSplit(n, all[HEADER_SIZE..]);
      assert body + (Contents(tail) + Contents(more)) == (body + Contents(tail)) + Contents(more);
    }
  }

  lemma RestSplit(n: nat, file: seq<Byte>)
    requires n <= |file|
    ensures Rest(n, file) == file[..n] + Contents(file[n..])
    ensures PlayableRest(n, file) == Playable(file[n..])
  {
    if n == |file| {
      assert file[..n] == file && file[n..] == [];
    }
  }

  class Recorder {
    var file: seq<Byte>
    var record: bool
    var telFlag: bool
    var telMode: Mode
    var telBuf: array<Byte>

    constructor (telFlag: bool)
      ensures file == [] && record && this.telFlag == telFlag && telMode == 0 && fresh(telBuf)
    {
      file, record, telMode := [], true, 0;
      this.telFlag := telFlag;
      telBuf := new Byte[32];
    }

    /** The file has grown by one frame holding `kept`, or not at all if nothing was kept. */
    ghost predicate Appended(before: seq<Byte>, kept: seq<Byte>, limit: nat, sec: Int32, usec: Int32)
      requires limit < 0x8000_0000
      reads this`file
    {
      |kept| <= limit && file == before + if kept == [] then [] else FrameBytes(Frame(sec, usec, kept))
    }

    method WriteData(data: seq<Byte>, sec: Int32, usec: Int32)
      requires |data| < 0x8000_0000
      modifies this`file
      ensures file == old(file) + FrameBytes(Frame(sec, usec, data))
    {
      file := file + (LittleEndian(sec) + LittleEndian(usec) + LittleEndian(|data|));
      file := file + data;
      assert old(file) + (LittleEndian(sec) + LittleEndian(usec) + LittleEndian(|data|)) + data
          == old(file) + FrameBytes(Frame(sec, usec, data));
    }

    /** Strips one read, remembering in `telMode` where in a command it ended; nothing is written
        when nothing is left. */
    method WriteDataTelnet(data: seq<Byte>, sec: Int32, usec: Int32)
      requires |data| < 0x8000_0000
      modifies this`file, this`telMode, this`telBuf, telBuf
      ensures telMode == StripMode(old(telMode), data)
      ensures Appended(old(file), Strip(old(telMode), data), |data|, sec, usec)
      ensures telBuf == old(telBuf) || fresh(telBuf)
    {
      if telBuf.Length < |data| {
        telBuf := new Byte[|data|];
      }
      hide Kept, NextMode, FrameBytes;
      StripNothing(telMode, data);
      var p := 0;
      ghost var mode0 := telMode;
      for i := 0 to |data|
        invariant p <= i && telBuf.Length >= |data| && (telBuf == old(telBuf) || fresh(telBuf))
        invariant file == old(file) && telMode == StripMode(mode0, data[..i])
        invariant telBuf[..p] == Strip(mode0, data[..i])
      {
        StripStep(mode0, data, i);
        ghost var before, mode1 := telBuf[..p], telMode;
        p := StripOne(data[i], p);
        assert telBuf[..p] == before + Kept(mode1, data[i]);
      }
      assert data[..|data|] == data;
      if p > 0 {
        WriteData(telBuf[..p], sec, usec);
      }
    }

    /** The switch over the mode. */
    method StripOne(ch: Byte, p: nat) returns (q: nat)
      requires p < telBuf.Length
      modifies this`telMode, telBuf
      ensures telMode == NextMode(old(telMode), ch)
      ensures q == p + |Kept(old(telMode), ch)| <= p + 1
      ensures telBuf[..q] == old(telBuf[..p]) + Kept(old(telMode), ch)
    {
      q := p;
      match telMode {
        case 0 =>
          if ch == IAC {
            telMode := 1;
          } else {
            telBuf[q] := ch;
            q := q + 1;
          }
        case 1 =>
          if ch == IAC {
            telBuf[q] := ch;
            q := q + 1;
            telMode := 0;
          } else if WILL <= ch <= DONT {
            telMode := 2;
          } else if ch == SB {
            telMode := 3;
          } else {
            telMode := 0;
          }
        case 2 =>
          telMode := 0;
        case 3 =>
          if ch == IAC {
            telMode := 4;
          }
        case 4 =>
          if ch == SE {
            telMode := 0;
          } else if ch != IAC {
            telMode := 3;
          }
      }
    }

    lemma StripNothing(mode: Mode, data: seq<Byte>)
      ensures StripMode(mode, data[..0]) == mode && Strip(mode, data[..0]) == []
    {
    }

    lemma StripStep(mode: Mode, data: seq<Byte>, i: nat)
      requires i < |data|
      ensures var m := StripMode(mode, data[..i]);
              && StripMode(mode, data[..i + 1]) == NextMode(m, data[i])
              && Strip(mode, data[..i + 1]) == Strip(mode, data[..i]) + Kept(m, data[i])
    {
      assert data[..i + 1] == data[..i] + [data[i]];
      StripConcat(mode, data[..i], [data[i]]);
      var m := StripMode(mode, data[..i]);
      assert Strip(m, [data[i]]) == Kept(m, data[i]);
    }

    /** What was received in one read, if anything, goes through the recorder. */
    method Recv(data: seq<Byte>, sec: Int32, usec: Int32)
      requires |data| < 0x8000_0000
      modifies this`file, this`telMode, this`telBuf, telBuf
      ensures record && telFlag ==>
        telMode == StripMode(old(telMode), data) && Appended(old(file), Strip(old(telMode), data), |data|, sec, usec)
      ensures record && !telFlag ==> telMode == old(telMode) && Appended(old(file), data, |data|, sec, usec)
      ensures !record ==> telMode == old(telMode) && file == old(file)
      ensures telBuf == old(telBuf) || fresh(telBuf)
    {
      if record && data != [] {
        if telFlag {
          WriteDataTelnet(data, sec, usec);
        } else {
          WriteData(data, sec, usec);
        }
      }
    }
  }

  /** Records a whole session. However the stream is cut into chunks, the recording is made of whole
      frames whose payloads add up to the stripped stream. */
  method RecordSession(chunks: seq<seq<Byte>>, times: seq<(Int32, Int32)>, telFlag: bool) returns (file: seq<Byte>)
    requires |times| == |chunks|
    requires forall r :: r in chunks ==> |r| < 0x8000_0000
    ensures Playable(file) && Complete(file)
    ensures Contents(file) == if telFlag then Strip(0, Flatten(chunks)) else Flatten(chunks)
  {
    var rec := new Recorder(telFlag);
    hide Contents, Playable, Complete, FrameBytes, Strip, StripMode;
    Nothing();
    for i := 0 to |chunks|
      invariant rec.record && rec.telFlag == telFlag && fresh(rec) && fresh(rec.telBuf)
      invariant Playable(rec.file) && Complete(rec.file)
      invariant telFlag ==> rec.telMode == StripMode(0, Flatten(chunks[..i]))
      invariant Contents(rec.file) == if telFlag then Strip(0, Flatten(chunks[..i])) else Flatten(chunks[..i])
    {
      assert chunks[..i + 1] == chunks[..i] + [chunks[i]];
      FlattenAppend(chunks[..i], chunks[i]);
      ghost var before, mode := rec.file, rec.telMode;
      rec.Recv(chunks[i], times[i].0, times[i].1);
      if telFlag {
        StripConcat(0, Flatten(chunks[..i]), chunks[i]);
        FrameAdded(before, rec.file, times[i].0, times[i].1, Strip(mode, chunks[i]));
      } else {
        FrameAdded(before, rec.file, times[i].0, times[i].1, chunks[i]);
      }
    }
    assert chunks[..|chunks|] == chunks;
    file := rec.file;
  }

  lemma Nothing()
    ensures Playable([]) && Complete([]) && Contents([]) == []
    ensures Strip(0, []) == [] && StripMode(0, []) == 0 && Flatten<Byte>([]) == []
  {
  }

  lemma FrameAdded(before: seq<Byte>, after: seq<Byte>, sec: Int32, usec: Int32, kept: seq<Byte>)
    requires Complete(before) && Playable(before) && |kept| < 0x8000_0000
    requires after == before + if kept == [] then [] else FrameBytes(Frame(sec, usec, kept))
    ensures Playable(after) && Complete(after) && Contents(after) == Contents(before) + kept
  {
    hide FrameBytes, Contents, Playable, Complete;
    if kept == [] {
      assert after == before;
    } else {
      ContentsOfFrame(Frame(sec, usec, kept));
      ContentsAppend(before, FrameBytes(Frame(sec, usec, kept)));
    }
  }
}
