/** One connection of cygterm's ssh-agent proxy: length-prefixed requests in, replies out, driven by
    select. */
module AgentProxy {
  import opened Bytes

  const MAX_MSGLEN: nat := 8192

  /** The agent's answer to the i-th request of a connection; empty if it could not be asked. */
  type Agent = (nat, seq<Byte>) -> seq<Byte>

  // ----- Framing

  function GetUint32(s: seq<Byte>): (v: UInt32)
    requires |s| >= 4
  {
    var b0: int, b1: int, b2: int, b3: int := s[0], s[1], s[2], s[3];
    b0 * 0x100_0000 + b1 * 0x1_0000 + b2 * 0x100 + b3
  }

  function SetUint32(v: UInt32): (s: seq<Byte>)
    ensures |s| == 4
  {
    [v / 0x100_0000, v / 0x1_0000 % 0x100, v / 0x100 % 0x100, v % 0x100]
  }

  lemma Uint32Back(s: seq<Byte>)
    requires |s| == 4
    ensures SetUint32(GetUint32(s)) == s
  {
    var b0: int, b1: int, b2: int, b3: int := s[0], s[1], s[2], s[3];
    var v := GetUint32(s);
    var h := (b0 * 0x100 + b1) * 0x100 + b2;
    assert v == h * 0x100 + b3;
    assert v / 0x100 == h && v % 0x100 == b3;
    assert v / 0x1_0000 == b0 * 0x100 + b1;
    assert v / 0x100_0000 == b0;
  }

  lemma Uint32Forth(v: UInt32)
    ensures GetUint32(SetUint32(v)) == v
  {
    var h, m := v / 0x100, v / 0x1_0000;
    assert v == h * 0x100 + v % 0x100;
    assert h == m * 0x100 + h % 0x100;
    assert m == v / 0x100_0000 * 0x100 + m % 0x100;
  }

  /** The highest byte comes first. */
  lemma HighestFirst()
    ensures GetUint32([1, 2, 3, 4]) == 0x0102_0304 && SetUint32(0x0102_0304) == [1, 2, 3, 4]
  {
  }

  /** The length of the frame that starts a stream, header included. */
  function FrameLength(s: seq<Byte>): (n: nat)
    requires |s| >= 4
    ensures n >= 4
  {
    GetUint32(s) + 4
  }

  predicate HasFrame(s: seq<Byte>) {
    |s| >= 4 && FrameLength(s) <= |s|
  }

  predicate IsFrame(f: seq<Byte>) {
    HasFrame(f) && FrameLength(f) == |f|
  }

  /** The requests in a stream of bytes; an incomplete one at the end is not among them. */
  function Requests(s: seq<Byte>): seq<seq<Byte>> {
    if HasFrame(s) then [s[..FrameLength(s)]] + Requests(s[FrameLength(s)..]) else []
  }

  lemma RequestsFirst(f: seq<Byte>, rest: seq<Byte>)
    requires IsFrame(f)
    ensures Requests(f + rest) == [f] + Requests(rest)
  {
    hide FrameLength;
    var s := f + rest;
    SameLength(f, s);
    assert s[..|f|] == f && s[|f|..] == rest;
  }

  lemma {:induction false} RequestsAppend(frames: seq<seq<Byte>>, rest: seq<Byte>)
    requires forall f :: f in frames ==> IsFrame(f)
    ensures Requests(Flatten(frames) + rest) == frames + Requests(rest)
  {
    hide Requests, IsFrame;
    if frames == [] {
      assert Flatten(frames) + rest == rest;
    } else {
      var f, tail := frames[0], frames[1..];
      RequestsAppend(tail, rest);
      RequestsFirst(f, Flatten(tail) + rest);
      assert Flatten(frames) + rest == f + (Flatten(tail) + rest);
      assert frames == [f] + tail;
    }
  }

  lemma SameLength(f: seq<Byte>, s: seq<Byte>)
    requires |f| >= 4 && f <= s
    ensures |s| >= 4 && FrameLength(s) == FrameLength(f)
  {
  }

  /** The proxy keeps the length of a request in an `int`. */
  const INT_MAX := 0x7fff_ffff

  /** No request in the stream is longer than `max`. */
  ghost predicate Lengths(max: nat, s: seq<Byte>) {
    |s| >= 4 ==> FrameLength(s) <= max && (HasFrame(s) ==> Lengths(max, s[FrameLength(s)..]))
  }

  lemma {:induction false} LengthsRest(max: nat, frames: seq<seq<Byte>>, rest: seq<Byte>)
    requires forall f :: f in frames ==> IsFrame(f)
    requires Lengths(max, Flatten(frames) + rest)
    ensures Lengths(max, rest)
  {
    hide FrameLength;
    if frames == [] {
      assert Flatten(frames) + rest == rest;
    } else {
      var f, tail := frames[0], frames[1..];
      assert f in frames && forall g :: g in tail ==> g in frames;
      var s := Flatten(frames) + rest;
      assert s == f + (Flatten(tail) + rest);
      SameLength(f, s);
      assert s[|f|..] == Flatten(tail) + rest;
      LengthsRest(max, tail, rest);
    }
  }

  // ----- Replies

  /** What is queued for an answer. When the agent could not be asked, a failure message of five
      bytes is prepared but only its first byte is queued. */
  function Reply(answer: seq<Byte>): (r: seq<Byte>)
    ensures r != []
  {
    if answer == [] then SetUint32(1)[..1] else answer
  }

  /** The replies to a list of requests, in request order. */
  function Replies(agent: Agent, frames: seq<seq<Byte>>): (r: seq<seq<Byte>>)
    ensures |r| == |frames|
    ensures forall i :: 0 <= i < |frames| ==> r[i] == Reply(agent(i, frames[i]))
  {
    if frames == [] then []
    else
      var n := |frames| - 1;
      Replies(agent, frames[..n]) + [Reply(agent(n, frames[n]))]
  }

  /** Every request is answered by the agent with exactly one complete message. */
  predicate WellAnswered(agent: Agent, frames: seq<seq<Byte>>) {
    forall i :: 0 <= i < |frames| ==> IsFrame(agent(i, frames[i]))
  }

  /** A failed request is never answered with a message; all else depends on the agent. */
  lemma ReplyIsFrame(answer: seq<Byte>)
    ensures IsFrame(Reply(answer)) <==> IsFrame(answer)
    ensures !HasFrame(Reply([])) && Reply([]) == [0]
  {
  }

  lemma {:induction false} RequestsAreFrames(s: seq<Byte>)
    ensures forall f :: f in Requests(s) ==> IsFrame(f)
  {
    hide FrameLength;
    if HasFrame(s) {
      var f := s[..FrameLength(s)];
      SameLength(f, s);
      RequestsAreFrames(s[FrameLength(s)..]);
    }
  }

  /** A client can cut the bytes it receives back into one reply per request if and only if the
      agent has answered every request with exactly one message. */
  lemma RepliesCutApart(agent: Agent, frames: seq<seq<Byte>>)
    ensures Requests(Flatten(Replies(agent, frames))) == Replies(agent, frames) <==> WellAnswered(agent, frames)
  {
    hide Requests, Flatten, IsFrame, Reply;
    var rs := Replies(agent, frames);
    RequestsAreFrames(Flatten(rs));
    forall i | 0 <= i < |frames|
      ensures rs[i] in rs && (IsFrame(rs[i]) <==> IsFrame(agent(i, frames[i])))
    {
      ReplyIsFrame(agent(i, frames[i]));
    }
    if WellAnswered(agent, frames) {
      RequestsAppend(rs, []);
      NoRequests();
      assert Flatten(rs) + [] == Flatten(rs) && rs + [] == rs;
    }
  }

  /** An agent that hands back one message or, if it could not be asked, nothing. */
  ghost predicate Frames(agent: Agent) {
    forall i, f :: agent(i, f) == [] || IsFrame(agent(i, f))
  }

  /** With such an agent, the replies can be cut apart exactly if no request has failed. */
  lemma NoneFailed(agent: Agent, frames: seq<seq<Byte>>)
    requires Frames(agent)
    ensures Requests(Flatten(Replies(agent, frames))) == Replies(agent, frames)
            <==> forall i :: 0 <= i < |frames| ==> agent(i, frames[i]) != []
  {
    hide Requests, Flatten, Replies, FrameLength;
    RepliesCutApart(agent, frames);
    assert forall i :: 0 <= i < |frames| ==> (IsFrame(agent(i, frames[i])) <==> agent(i, frames[i]) != []);
  }

  lemma NoRequests()
    ensures Requests([]) == []
  {
  }

  class Connection {
    const ibuff: array<Byte>
    const obuff: array<Byte>
    var recvlen: nat
    var sendlen: nat
    var inRead: bool
    var inWrite: bool
    var closed: bool
    // the agent on the other side, and how often it has been asked
    const agent: Agent
    var asked: nat
    // the history of the connection
    ghost var received: seq<Byte>
    ghost var sent: seq<Byte>
    ghost var frames: seq<seq<Byte>>

    ghost predicate Sizes()
      reads this
    {
      ibuff.Length == obuff.Length == MAX_MSGLEN && ibuff != obuff && recvlen <= MAX_MSGLEN && sendlen <= MAX_MSGLEN &&
      forall i, f :: |agent(i, f)| <= MAX_MSGLEN
    }

    ghost function In(): seq<Byte>
      requires Sizes()
      reads this, ibuff
    {
      ibuff[..recvlen]
    }

    ghost function Out(): seq<Byte>
      requires Sizes()
      reads this, obuff
    {
      obuff[..sendlen]
    }

    /** Bytes received are the processed requests followed by the input buffer; bytes sent followed
        by the output buffer are the replies to them. */
    ghost predicate Accounted()
      reads this, ibuff, obuff
    {
      && Sizes()
      && (forall f :: f in frames ==> IsFrame(f))
      && received == Flatten(frames) + In()
      && sent + Out() == Flatten(Replies(agent, frames))
      && asked == |frames|
    }

    ghost predicate Valid()
      reads this, ibuff, obuff
    {
      && Accounted()
      && (!closed ==> inWrite == (sendlen > 0) && inRead == (sendlen == 0))
      && (sendlen == 0 ==> !HasFrame(In()))
    }

    constructor (agent: Agent)
      requires forall i, f :: |agent(i, f)| <= MAX_MSGLEN
      ensures Valid() && received == [] && sent == [] && frames == [] && !closed && this.agent == agent
      ensures fresh(ibuff) && fresh(obuff)
    {
      ibuff, obuff := new Byte[MAX_MSGLEN], new Byte[MAX_MSGLEN];
      recvlen, sendlen, inRead, inWrite, closed := 0, 0, true, false, false;
      this.agent, asked := agent, 0;
      received, sent, frames := [], [], [];
    }

    /** memmove of the bytes behind the first `n` of the input buffer */
    method DropIn(n: nat)
      requires Sizes() && n <= recvlen
      modifies this`recvlen, ibuff
      ensures Sizes() && recvlen == old(recvlen) - n && old(In()) == old(In()[..n]) + In()
    {
      ghost var was := In();
      recvlen := recvlen - n;
      forall k | 0 <= k < recvlen {
        ibuff[k] := ibuff[n + k];
      }
      assert In() == was[n..];
    }

    method DropOut(n: nat)
      requires Sizes() && n <= sendlen
      modifies this`sendlen, obuff
      ensures Sizes() && sendlen == old(sendlen) - n && old(Out()) == old(Out()[..n]) + Out()
    {
      ghost var was := Out();
      sendlen := sendlen - n;
      forall k | 0 <= k < sendlen {
        obuff[k] := obuff[n + k];
      }
      assert Out() == was[n..];
    }

    /** The agent's answer goes into the output buffer. */
    method QueueReply(answer: seq<Byte>)
      requires Sizes() && sendlen == 0 && |answer| <= MAX_MSGLEN
      modifies this`sendlen, obuff
      ensures Sizes() && Out() == Reply(answer) && sendlen > 0
    {
      if answer != [] {
        forall k | 0 <= k < |answer| {
          obuff[k] := answer[k];
        }
        sendlen := |answer|;
      } else {
        var one := SetUint32(1);
        obuff[0], obuff[1], obuff[2], obuff[3] := one[0], one[1], one[2], one[3];
        obuff[4] := 5;
        sendlen := 1;
      }
    }

    /** Processes the request at the head of the input buffer, if it is complete and no reply is
        waiting. */
    method ProcRecvd() returns (ret: bool)
      requires Accounted() && Lengths(INT_MAX, In())
      modifies this`recvlen, this`sendlen, this`asked, this`frames, ibuff, obuff
      ensures Accounted() && received == old(received) && sent == old(sent)
      ensures ret == (old(sendlen) == 0 && HasFrame(old(In())))
      ensures if ret then sendlen > 0 && frames == old(frames) + [old(In())[..FrameLength(old(In()))]]
              else sendlen == old(sendlen) && recvlen == old(recvlen) && frames == old(frames) && In() == old(In())
    {
      hide GetUint32, FrameLength, Flatten, Replies, Reply;
      ret := false;
      if sendlen > 0 {
        return;
      }
      InIs();
      if recvlen < 4 {
        return;
      }
      var head := ibuff[..recvlen];
      var reqlen := FrameLength(head);
      if recvlen < reqlen {
        return;
      }
      var req := head[..reqlen];
      SameLength(req, head);
      QueueReply(agent(asked, req));
      asked := asked + 1;
      DropIn(reqlen);
      ghost var was := frames;
      frames := frames + [req];
      Bookkeeping(was, req);
      assert Flatten(was) + (req + In()) == (Flatten(was) + req) + In();
      assert sent + [] == sent;
      ret := true;
    }

    lemma InIs()
      requires Sizes()
      ensures In() == ibuff[..recvlen] && |In()| == recvlen && Out() == obuff[..sendlen] && |Out()| == sendlen
      ensures sendlen == 0 ==> Out() == []
    {
    }

    lemma Bookkeeping(was: seq<seq<Byte>>, req: seq<Byte>)
      ensures Flatten(was + [req]) == Flatten(was) + req
      ensures Flatten(Replies(agent, was + [req])) == Flatten(Replies(agent, was)) + Reply(agent(|was|, req))
    {
      FlattenAppend(was, req);
      RepliesStep(agent, was, req);
    }

    method SetFds(ret: bool)
      modifies this`inRead, this`inWrite
      ensures inWrite == ret && inRead == !ret
    {
      inWrite, inRead := ret, !ret;
    }

    /** A connection error: the descriptor leaves both sets. */
    method Close()
      requires Accounted() && (sendlen == 0 ==> !HasFrame(In()))
      modifies this`inRead, this`inWrite, this`closed
      ensures Valid() && closed
    {
      inRead, inWrite, closed := false, false, true;
    }

    /** After a pass over the buffers: the connection waits to write exactly if a reply is pending. */
    method Dispatch()
      requires Accounted() && Lengths(INT_MAX, In()) && !closed && sendlen == 0
      modifies this`recvlen, this`sendlen, this`asked, this`frames, this`inRead, this`inWrite, ibuff, obuff
      ensures Valid() && received == old(received) && sent == old(sent)
    {
      hide FrameLength, Flatten, Replies, Reply;
      var ret := ProcRecvd();
      SetFds(ret);
    }

    /** `send` took the whole pending reply. */
    method SentAll()
      requires Valid() && Lengths(INT_MAX, In()) && !closed && sendlen > 0
      modifies this, ibuff, obuff
      ensures Valid() && received == old(received) && !closed && sent == old(sent) + old(Out())
    {
      hide FrameLength, Flatten, Replies, Reply, Lengths;
      sent := sent + Out();
      sendlen := 0;
      assert Out() == [] && sent + [] == sent;
      Dispatch();
    }

    /** `send` took `len` bytes of the pending reply, or failed. */
    method OnWritable(len: int)
      requires Valid() && Lengths(INT_MAX, In()) && !closed && inWrite && len <= sendlen
      modifies this, ibuff, obuff
      ensures Valid() && received == old(received)
      ensures sent == old(sent) + old(Out())[..if len > 0 then len else 0] && closed == (len < 0)
    {
      hide FrameLength, Flatten, Replies, Reply, Lengths, HasFrame;
      ghost var was, sent0 := Out(), sent;
      assert sent0 + [] == sent0;
      if len < 0 {
        Close();
      } else if len >= sendlen {
        SentAll();
        assert was[..len] == was;
      } else {
        DropOut(len);
        sent := sent0 + was[..len];
        assert sent0 + (was[..len] + Out()) == sent + Out();
      }
    }

    /** `recv` delivered `data`, or nothing, which is an error or the end. */
    method OnReadable(data: seq<Byte>)
      requires Valid() && !closed && inRead && |data| <= MAX_MSGLEN - recvlen
      requires Lengths(INT_MAX, In() + data)
      modifies this, ibuff, obuff
      ensures Valid() && received == old(received) + data && sent == old(sent)
      ensures closed == (data == []) && (closed ==> sendlen == 0)
    {
      hide FrameLength, Flatten, Replies, Reply;
      if data == [] {
        Close();
        assert received + [] == received;
      } else {
        ghost var was := In();
        forall k | 0 <= k < |data| {
          ibuff[recvlen + k] := data[k];
        }
        recvlen := recvlen + |data|;
        received := received + data;
        assert In() == was + data;
        assert Flatten(frames) + (was + data) == (Flatten(frames) + was) + data;
        Dispatch();
      }
    }

    /** A connection that waits to read has room for at least one more byte, unless the request at
        the head of its buffer is longer than the buffer. */
    lemma RoomToRead()
      requires Valid() && !closed && inRead
      ensures recvlen < MAX_MSGLEN || MAX_MSGLEN < FrameLength(In())
    {
    }

    lemma HeadFits(max: nat, client: seq<Byte>)
      requires Accounted() && Lengths(max, received + client)
      ensures Lengths(max, In() + client) && Lengths(max, In())
    {
      assert received + client == Flatten(frames) + (In() + client);
      LengthsRest(max, frames, In() + client);
      LengthsPrefix(max, In(), client);
    }

    /** If the requests fit into the buffer, a connection that waits to read has room. */
    lemma RoomForMore(client: seq<Byte>)
      requires Valid() && !closed && Lengths(MAX_MSGLEN, received + client)
      ensures inRead ==> recvlen < MAX_MSGLEN
    {
      hide Flatten, Replies, FrameLength;
      HeadFits(MAX_MSGLEN, client);
    }

    /** A productive round moves at least one byte, or finds that the client has finished. */
    method Turn(client: seq<Byte>, e: Ready) returns (rest: seq<Byte>)
      requires Valid() && Lengths(INT_MAX, received + client)
      modifies this, ibuff, obuff
      ensures Valid() && received + rest == old(received) + client
      ensures Productive(e) && Lengths(MAX_MSGLEN, old(received) + client) && !old(closed) ==>
                if closed then rest == [] && sendlen == 0 else |rest| - |sent| < |client| - |old(sent)|
      ensures old(closed) ==> closed && rest == client && sendlen == old(sendlen)
    {
      hide FrameLength, Flatten, Replies, Reply, In, Out, Lengths;
      if !closed && Lengths(MAX_MSGLEN, received + client) {
        RoomForMore(client);
        InIs();
      }
      rest := Round(client, e.writable, e.readable, e.sendLen, e.recvLen);
    }

    /** One round of the select loop. The sets consulted are those from before the round. What the
        client has sent is `client`; `sendLen` and `recvLen` say how the system calls turn out. */
    method Round(client: seq<Byte>, writable: bool, readable: bool, sendLen: int, recvLen: int)
        returns (rest: seq<Byte>)
      requires Valid() && Lengths(INT_MAX, received + client)
      modifies this, ibuff, obuff
      ensures Valid() && received + rest == old(received) + client
      ensures if !old(closed) && old(inWrite) && writable then
                && rest == client && closed == (sendLen < 0)
                && sent == old(sent) + old(Out())[..Least(sendLen, old(sendlen), old(sendlen))]
              else if !old(closed) && old(inRead) && readable then
                var n := Least(recvLen, |client|, MAX_MSGLEN - old(recvlen));
                rest == client[n..] && sent == old(sent) && closed == (n == 0) && (closed ==> sendlen == 0)
              else rest == client && sent == old(sent) && closed == old(closed) && sendlen == old(sendlen)
    {
      hide FrameLength, Flatten, Replies, Reply, In, Out, Lengths;
      rest := client;
      if closed {
        return;
      }
      var w, r := inWrite && writable, inRead && readable;
      HeadFits(INT_MAX, client);
      if w {
        OnWritable(if sendLen > sendlen then sendlen else sendLen);
      }
      if r {
        var n := Least(recvLen, |client|, MAX_MSGLEN - recvlen);
        var data := client[..n];
        rest := client[n..];
        HeadFitsPart(client, n);
        OnReadable(data);
        assert (old(received) + data) + rest == old(received) + client by {
          assert data + rest == client;
        }
      }
    }

    lemma HeadFitsPart(client: seq<Byte>, n: nat)
      requires Accounted() && Lengths(INT_MAX, received + client) && n <= |client|
      ensures Lengths(INT_MAX, In() + client[..n])
    {
      hide Lengths, Flatten, Replies, In, Out, IsFrame;
      assert received + client == (received + client[..n]) + client[n..];
      LengthsPrefix(INT_MAX, received + client[..n], client[n..]);
      HeadFits(INT_MAX, client[..n]);
    }
  }

  function Least(a: int, b: nat, c: nat): (r: nat)
    ensures r <= b && r <= c
  {
    var m := if b < c then b else c;
    if a < 0 then 0 else if a < m then a else m
  }

  lemma {:induction false} LengthsPrefix(max: nat, a: seq<Byte>, b: seq<Byte>)
    requires Lengths(max, a + b)
    ensures Lengths(max, a)
    decreases |a|
  {
    if |a| >= 4 {
      SameLength(a, a + b);
      if HasFrame(a) {
        var n := FrameLength(a);
        assert (a + b)[n..] == a[n..] + b;
        LengthsPrefix(max, a[n..], b);
      }
    }
  }

  datatype Ready = Ready(writable: bool, readable: bool, sendLen: int, recvLen: int)

  /** A round in which both calls are possible and move something. */
  predicate Productive(e: Ready) {
    e.writable && e.readable && e.sendLen >= 1 && e.recvLen >= 1
  }

  /** Every run of a connection: the requests processed are the first ones of the client's stream,
      the bytes sent are a prefix of the replies to them in request order, and once everything has
      been read and sent, they are the replies to all complete requests. That is so after enough
      productive rounds, if no request is longer than the buffer. */
  method Serve(agent: Agent, stream: seq<Byte>, rounds: seq<Ready>)
    returns (c: Connection, rest: seq<Byte>)
    requires Lengths(INT_MAX, stream)
    requires forall i, f :: |agent(i, f)| <= MAX_MSGLEN
    ensures c.frames <= Requests(stream) && c.sent <= Flatten(Replies(agent, c.frames))
    ensures c.sendlen == 0 && rest == [] ==> c.sent == Flatten(Replies(agent, Requests(stream)))
    ensures c.sendlen == 0 && rest == [] ==>
              (Requests(c.sent) == Replies(agent, Requests(stream)) <==> WellAnswered(agent, Requests(stream)))
    ensures (forall e :: e in rounds ==> Productive(e)) && Lengths(MAX_MSGLEN, stream)
            && |rounds| > |stream| + |Flatten(Replies(agent, Requests(stream)))|
            ==> c.sent == Flatten(Replies(agent, Requests(stream)))
  {
    hide Flatten, Replies, Lengths, Requests, Productive, WellAnswered;
    c := new Connection(agent);
    rest := stream;
    assert c.received + rest == stream;
    ghost var productive := (forall e :: e in rounds ==> Productive(e)) && Lengths(MAX_MSGLEN, stream);
    for i := 0 to |rounds|
      invariant fresh(c) && fresh(c.ibuff) && fresh(c.obuff)
      invariant c.Valid() && c.agent == agent && c.received + rest == stream
      invariant productive && c.closed ==> rest == [] && c.sendlen == 0
      invariant productive && !c.closed ==> i <= |stream| - |rest| + |c.sent|
    {
      var e := rounds[i];
      assert e in rounds;
      rest := c.Turn(rest, e);
    }
    Final(c, stream, rest);
    RepliesCutApart(agent, Requests(stream));
  }

  lemma Final(c: Connection, stream: seq<Byte>, rest: seq<Byte>)
    requires c.Valid() && c.received + rest == stream
    ensures c.frames <= Requests(stream) && c.sent <= Flatten(Replies(c.agent, c.frames))
    ensures |c.sent| <= |Flatten(Replies(c.agent, Requests(stream)))|
    ensures c.sendlen == 0 && rest == [] ==> c.sent == Flatten(Replies(c.agent, Requests(stream)))
  {
    assert stream == Flatten(c.frames) + (c.In() + rest);
    RequestsAppend(c.frames, c.In() + rest);
    RepliesPrefix(c.agent, c.frames, Requests(c.In() + rest));
    if c.sendlen == 0 && rest == [] {
      assert c.In() + rest == c.In();
      assert Requests(c.In()) == [];
      assert c.frames + [] == c.frames;
      assert c.sent + c.Out() == c.sent;
    }
  }

  lemma {:induction false} RepliesPrefix(agent: Agent, a: seq<seq<Byte>>, b: seq<seq<Byte>>)
    ensures |Flatten(Replies(agent, a))| <= |Flatten(Replies(agent, a + b))|
    decreases |b|
  {
    hide Flatten, Replies, Reply;
    if b == [] {
      assert a + b == a;
    } else {
      var n := |b| - 1;
      RepliesPrefix(agent, a, b[..n]);
      RepliesStep(agent, a + b[..n], b[n]);
      assert a + b == (a + b[..n]) + [b[n]];
    }
  }

  lemma RepliesStep(agent: Agent, was: seq<seq<Byte>>, req: seq<Byte>)
    ensures Flatten(Replies(agent, was + [req])) == Flatten(Replies(agent, was)) + Reply(agent(|was|, req))
  {
    assert (was + [req])[..|was|] == was;
    FlattenAppend(Replies(agent, was), Reply(agent(|was|, req)));
  }
}
