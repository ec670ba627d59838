# Byte-stream pipelines and in-place rewriters of Tera Term, verified

This project models the parts of Tera Term that move bytes about, and proves what they do to them.

* **Telnet, recording, replay.** `cygterm` escapes what a shell prints onto a telnet wire (RFC 854); the
  recorder strips telnet from reads that are cut anywhere and appends timed frames to a file; the player
  brings the frames back through a 2000-byte staging buffer, held up by pauses, waits and short reads.
  In the other direction plugins type into a bounded output buffer, and `cygterm` decodes what arrives.
* **The ssh-agent proxy connection**, a select-driven machine with framing and partial sends.
* **Unicode conversion** between UTF-8, UTF-16 and UTF-32 with counting and writing passes (RFC 3629,
  sections 3 and 4; RFC 2781, sections 2.1 and 2.2).
* **Dialog templates** copied with another font into a buffer whose size is forecast.
* **Proxy URLs** written and read, and the Basic credential (RFC 7617 section 2, RFC 4648 section 4).
* **Smaller stateful cores**: the kanji-code command parser, the table of loaded libraries, escape
  sequences and argument vectors rewritten in place, time shifting, the once-only initialisation and the
  64-bit tick count.

Objects whose methods change them are classes here, with the buffers as arrays; every such method is
proved equal to a function of the old state, and the promises are proved about those functions. System
calls are streams, parameters or lists of events: `Channel` stands for a socket or a terminal that reads
and writes as little as it likes, `Answers` for the loader, `Outcome` for the file and the clock.

## Where the code does not do what one would expect

Each point names a lemma at an input, and the exact condition where there is one.

* The `cr` flag of the relay survives an escaped 0xff, so CR 0xff LF loses its LF (`TelnetStream.LfLost`).
  `TelnetStream.RelayIsFoldCr` and `ReceiversAgree` say exactly for which streams the two telnet receivers agree.
* The output buffer stops early when a CR or 0xff leaves less space than there seems to be input left: a byte is
  dropped although it would fit (`CommOut.ByteDropped`). `CommOut.FillIsWhole` says exactly when everything is queued.
* CR is typed as CR without a second byte in binary telnet, and as LF in the LF setting; typing is
  transparent exactly under `CommOut.Transparent` (`CommOut.NewlineChanged`, `CommOut.KeyboardRoundTrip`).
* A doubled 0xff in a telnet subnegotiation is not undone by the recorder (`TelnetStream.DoubledInside`).
* The agent proxy answers a failed request with a single byte, which is not a message
  (`AgentProxy.ReplyIsFrame`). A client can cut the replies apart exactly if the agent has answered every request
  with one message (`AgentProxy.RepliesCutApart`), that is, if no request has failed (`AgentProxy.NoneFailed`).
* `proxy.port` is unsigned, so a bad port is never refused but becomes 65535 (`ProxyUrl.BadPortKept`). The host
  keeps its brackets if no port follows (`ProxyUrl.BracketsStay`), and an `@` behind the host is taken for the
  end of credentials; `ProxyUrl.UrlRoundTrip` has the exact condition.
* UTF-8 to UTF-16 lets surrogates encoded in UTF-8 through (`CodeConvStrings.EncodedSurrogate`);
  `CodeConvStrings.Accepted8` compares the decoder with the grammar of RFC 3629, section 4, and
  `CodeConvStrings.RoundTrip8` has the exact condition for strings.
* A failed lookup in a library that was only looked for in memory gives back a reference that somebody else
  has taken (`DllTable.LostReference`); `DllTable.Table.GetApiAddressFromList` says exactly when.
* The comment on the tick count says that it fails once 0xffffffff milliseconds have passed between two calls;
  it is still right at 0xffffffff and fails from 0x100000000 on (`TickCount.TurnMissed`, `TickCount.CallExact`).
* The number of a kanji-code command is taken modulo 2^32, so 4294973259 acts like 5963
  (`OscSession.WrappedNumber`, `OscSession.NumberOrders`).
* The extra data of a dialog control is copied as a number of words, while the format counts bytes (the comment
  at teraterm/common/dlglib_tmpl.cpp:84, on the extended control; the model assumes the same of the classic one).
  With two bytes the control behind can be misread (`DlgBytes.Misread`). `DlgBytes.FoundDialog` says exactly for
  which templates the code looks for every control in its place, and for these `DlgTemplate.GetDlgTemplate` is
  right in the sense of the format, too; `DlgBytes.SoundDialog` says exactly for which both parses agree, the end
  included.
* An encoded NUL in credentials hides what follows it (`UrlCode.NulHides`).
* A negative frame length in a recording makes the player ask for more than its staging buffer holds
  (`TtyPlay.NegativeLength`, `TtyPlay.ReadFits`).

## Model

| member | source | states |
|---|---|---|
| TelnetStream.EscapeIacIsWire | cygwin/cygterm/cygterm.cpp:1227-1233 | Doubling 0xff turns any shell output into a telnet stream that carries exactly these bytes as data. |
| TelnetStream.StripConcat | TTXSamples/TTXttyrec/TTXttyrec.c:165-211 | What the recorder keeps, and the mode it is left in, do not depend on where the stream is cut into reads. |
| TelnetStream.StripWire | TTXSamples/TTXttyrec/TTXttyrec.c:165-211 | From every well-formed stream the recorder keeps exactly the data bytes and is back in its first mode. |
| TelnetStream.DoubledInside | TTXSamples/TTXttyrec/TTXttyrec.c:195-207 | In a subnegotiation a doubled 0xff is not one byte: SE behind it ends the subnegotiation, any other byte does not. |
| TelnetStream.RelayConcat | cygwin/cygterm/cygterm.cpp:1242-1267 | The relay to the shell, with its CR flag, does not depend on where the data are cut. |
| TelnetStream.RelayIsFoldCr | cygwin/cygterm/cygterm.cpp:1248-1267 | The relay removes the LF or NUL right behind each CR if and only if no CR is followed by 0xff bytes and then LF or NUL. |
| TelnetStream.LfLost | cygwin/cygterm/cygterm.cpp:1248-1267 | CR, an escaped 0xff and LF: the LF is lost, which the NVT reading keeps. |
| TelnetStream.ReceiversAgree | cygwin/cygterm/cygterm.cpp:1242-1267 | On every well-formed stream the two independent telnet decoders agree, up to the CR folding, exactly under that condition. |
| CygTerm.IOBuf.FlushIn | cygwin/cygterm/cygterm.cpp:1029-1035 | A read of any length moves bytes from the channel to the input buffer and loses none. |
| CygTerm.IOBuf.Nextc | cygwin/cygterm/cygterm.cpp:1048-1054 | Takes the next byte of the stream, reading on when the buffer is used up. |
| CygTerm.IOBuf.Putc | cygwin/cygterm/cygterm.cpp:1058-1064 | Unless a write has failed, the bytes written and waiting grow by exactly this byte, also when the buffer is full. |
| CygTerm.IOBuf.FlushOut | cygwin/cygterm/cygterm.cpp:1068-1076 | However short the writes, all waiting bytes reach the channel in order, or the channel has failed. |
| CygTerm.Session.TelnetCmd | cygwin/cygterm/cygterm.cpp:1097-1141 | Consumes exactly one command, wherever its bytes are cut by reads; an escaped 0xff is reported as IAC, a window size is stored, nothing else changes the window. |
| CygTerm.Session.Subnegotiation | cygwin/cygterm/cygterm.cpp:1101-1130 | Consumes a subnegotiation with its end; only a window size is stored. |
| CygTerm.Session.ShellToTerminal | cygwin/cygterm/cygterm.cpp:1222-1236 | What is read from the shell is written escaped, byte for byte. |
| CygTerm.Session.RelayOne | cygwin/cygterm/cygterm.cpp:1246-1269 | One unit of the stream adds to the shell's input what the specification says for its data byte, or nothing. |
| CygTerm.Session.TerminalToShell | cygwin/cygterm/cygterm.cpp:1242-1273 | Consumes a number of whole units and writes to the shell their data with CR folded, whatever the reads and writes do. |
| CygTerm.Session.Pass | cygwin/cygterm/cygterm.cpp:1222-1272 | One pass: the shell first, and the terminal if the shell is silent or has had twenty turns. |
| CygTerm.EveryTwentyFirst | cygwin/cygterm/cygterm.cpp:1237-1240 | If both sides are always ready, the terminal gets every twenty-first pass. |
| CygTerm.Session.Run | cygwin/cygterm/cygterm.cpp:1206-1275 | Over every run of the select loop the terminal has received the escaped shell output so far, and the shell the folded data of the units consumed so far; both sides have their turns and each turn moves something on, until a write fails or a side that is read ends. |
| CommOut.EncodeConcat | TTXSamples/TTXRecurringCommand/TTXRecurringCommand.c:201-242 | The encoding of typed bytes is byte by byte. |
| CommOut.SentAsIs | TTXSamples/TTXRecurringCommand/TTXRecurringCommand.c:225-241 | Everything but CR and, on telnet, 0xff is sent as it is. |
| CommOut.Newline | TTXSamples/TTXRecurringCommand/TTXRecurringCommand.c:202-219 | On every kind of connection a CR is sent as CR, LF or CR LF by the newline setting, with a NUL behind a single CR on telnet that is not binary. |
| CommOut.Doubled | TTXSamples/TTXRecurringCommand/TTXRecurringCommand.c:225-236 | 0xff is doubled on telnet, and only there. |
| CommOut.FillIsPrefix | TTXSamples/TTXRecurringCommand/TTXRecurringCommand.c:200-242 | From any state the loop appends the encoding of a prefix of the input; an IAC pair is never split, and only a final CR pair can be cut behind its CR, when the buffer is full. |
| CommOut.FillIsWhole | TTXSamples/TTXRecurringCommand/TTXRecurringCommand.c:200-242 | Everything is appended if and only if it fits by the code's own, slightly early, measure. |
| CommOut.ByteDropped | TTXSamples/TTXRecurringCommand/TTXRecurringCommand.c:200-242 | With two bytes free, CR and a letter are cut to CR, though both would fit, as two letters do. |
| CommOut.QueuedIsPrefix | TTXSamples/TTXRecurringCommand/TTXRecurringCommand.c:186-245 | A call never exceeds the room there is, queues the encoding of a prefix, and of the whole if and only if it fits. |
| CommOut.KeyboardRoundTrip | TTXSamples/TTXRecurringCommand/TTXRecurringCommand.c:200-242 | Typed bytes are a telnet stream, and the relay turns its data back into the typed bytes if and only if the newline setting is transparent to them (always for CR NUL and CR LF). |
| CommOut.NewlineChanged | TTXSamples/TTXRecurringCommand/TTXRecurringCommand.c:200-220 | In binary telnet CR LF arrives as CR, and with LF for a newline CR arrives as LF. |
| CommOut.OutputBuffer.CommOut | TTXSamples/TTXRecurringCommand/TTXRecurringCommand.c:186-245 | The buffer afterwards holds what was pending, and behind it exactly what the specification queues; it stays within its 16384 bytes. |
| CommOut.OutputBuffer.FillFrom | TTXSamples/TTXKcodeChange/TTXKcodeChange.c:70-113 | The loop, which adjusts its own counter, appends exactly the specified bytes. |
| CommOut.OutputBuffer.Compact | TTXSamples/TTXRecurringCommand/TTXRecurringCommand.c:195-198 | Moving the pending bytes to the front keeps them. |
| TtyRec.ContentsOfFrame | TTXSamples/TTXttyrec/TTXttyrec.c:140-153 | A frame as written to the file is read back as the bytes recorded. |
| TtyRec.FrameLayout | TTXSamples/TTXttyrec/TTXttyrec.c:140-153 | A frame in bytes: seconds, microseconds and length, lowest bytes first, and the data. |
| TtyRec.ContentsAppend | TTXSamples/TTXttyrec/TTXttyrec.c:140-153 | The contents of a complete recording and of what is appended to it add up. |
| TtyRec.Recorder.WriteData | TTXSamples/TTXttyrec/TTXttyrec.c:140-153 | Appends exactly one frame with the time, the length and the bytes. |
| TtyRec.Recorder.WriteDataTelnet | TTXSamples/TTXttyrec/TTXttyrec.c:155-219 | Appends a frame of the bytes kept, or nothing if there are none, and leaves the mode for the next read. |
| TtyRec.Recorder.Recv | TTXSamples/TTXttyrec/TTXttyrec.c:248-261 | Records a read stripped, plainly or not at all, according to the settings. |
| TtyRec.RecordSession | TTXSamples/TTXttyrec/TTXttyrec.c:248-261 | For every series of reads the file is complete, and its contents are the stripped stream. |
| TimeVal.AddDiffExact | TTXSamples/TTXttyrec/gettimeofday.c:38-62 | Sum and difference are exact and normalised, adding a difference gives the later time, and comparison is that of the totals. |
| TimeVal.ScaleIsPower | TTXSamples/TTXttyrec/gettimeofday.c:64-90 | The scale of s steps is 2^s, for at most eight steps. |
| TimeVal.ShiftDown | TTXSamples/TTXttyrec/gettimeofday.c:64-90 | Speeding up by s is floor division of the total microseconds by 2^s, normalised, and its products stay below 2^31. |
| TimeVal.ShiftUp | TTXSamples/TTXttyrec/gettimeofday.c:64-90 | Slowing down by s multiplies the total exactly, normalised. |
| TimeVal.ShiftRoundTrip | TTXSamples/TTXttyrec/gettimeofday.c:64-90 | Slowing down and speeding up again by the same amount is the identity. |
| TimeVal.ShiftMonotone | TTXSamples/TTXttyrec/gettimeofday.c:64-90 | A longer time stays at least as long at any speed. |
| TtyPlay.PressConcat | TTXSamples/TTXttyrec/TTXttyplay.c:543-617 | Pressing keys acts key by key. |
| TtyPlay.KeyPressed | TTXSamples/TTXttyrec/TTXttyplay.c:544-617 | Each of the 26 keys acts as its command and is not forwarded. |
| TtyPlay.KeyForwarded | TTXSamples/TTXttyrec/TTXttyplay.c:621-625 | Any other key changes nothing and is forwarded. |
| TtyPlay.Commands | TTXSamples/TTXttyrec/TTXttyplay.c:545-602 | Speed up, slow down and back to normal within eight steps, pause, waits on and off, loop. |
| TtyPlay.MoreCommands | TTXSamples/TTXttyrec/TTXttyplay.c:570-597 | Next frame, skip, again and end. |
| TtyPlay.Markers | TTXSamples/TTXttyrec/TTXttyplay.c:603-617 | Setting a marker puts the current frame in front of the list; jumping skips forward to it, or starts again. |
| TtyPlay.ControlSequence | TTXSamples/TTXttyrec/TTXttyplay.c:627-648 | A control sequence, of any parameters, is no key. |
| TtyPlay.StringSequence | TTXSamples/TTXttyrec/TTXttyplay.c:632-663 | Nor is a string sequence, closed in either way. |
| TtyPlay.ShortSequence | TTXSamples/TTXttyrec/TTXttyplay.c:627-643 | Nor is any other escape sequence, of two bytes. |
| TtyPlay.Keyboard.TTXWriteFile | TTXSamples/TTXttyrec/TTXttyplay.c:531-682 | Exactly the keys outside escape sequences act, in order, unknown ones are forwarded up to the size of the buffer, and nothing in the replay is lost. |
| TtyPlay.Player.Activate | TTXSamples/TTXttyrec/TTXttyplay.c:396-406 | The first read starts from the beginning of a frame; later ones change nothing. |
| TtyPlay.HeaderOfRecord | TTXSamples/TTXttyrec/TTXttyplay.c:443-445 | The header of a frame gives back the seconds, microseconds and length that were recorded. |
| TtyPlay.WaitIs | TTXSamples/TTXttyrec/TTXttyplay.c:449-474 | The wait before a frame, in microseconds: none while skipping, else the time between the two recorded times divided by 2^speed, nothing below the lower limit and no more than the upper one. |
| TtyPlay.WaitExample | TTXSamples/TTXttyrec/TTXttyplay.c:449-474 | Frames at 100 s and 101.5 s: the waits at three speeds and with limits. |
| TtyPlay.HeadedIs | TTXSamples/TTXttyrec/TTXttyplay.c:446-455 | A header takes one frame off those to be skipped and sets the newest marker. |
| TtyPlay.OpenIs | TTXSamples/TTXttyrec/TTXttyplay.c:489-490 | A wait is over when that many microseconds have passed since the clock was started. |
| TtyPlay.Player.ReadHeader | TTXSamples/TTXttyrec/TTXttyplay.c:419-477 | Reading a header changes nothing that is still to be shown; time and length are those in the file, and wait, skip count and newest marker follow from them. |
| TtyPlay.Player.Refill | TTXSamples/TTXttyrec/TTXttyplay.c:500-510 | A payload read of any length into the staging buffer keeps what is still to be shown. |
| TtyPlay.ReadFits | TTXSamples/TTXttyrec/TTXttyplay.c:500-501 | A payload read asks for no more than the staging buffer holds exactly if the length is not negative; in a playable recording it never gets more. |
| TtyPlay.NegativeLength | TTXSamples/TTXttyrec/TTXttyplay.c:500-501 | A header with the length -1 and 2001 bytes behind it: more is asked for, and there, than the buffer holds. |
| TtyPlay.Player.Deliver | TTXSamples/TTXttyrec/TTXttyplay.c:512-524 | The caller gets at least one byte, if it asks for any, and no more than it asked for; these and the rest are what was still to be shown. |
| TtyPlay.Player.TTXReadFile | TTXSamples/TTXttyrec/TTXttyplay.c:365-529 | In every state what is handed out, followed by what is left, is what was left before; data that is due is handed out if and only if the wait given by the times in the file is over, from whose end the next wait counts; a paused call changes nothing; unhindered calls make progress until nothing is left. |
| TtyPlay.Replay | TTXSamples/TTXttyrec/TTXttyplay.c:365-529 | Under any interleaving of keys, time, errors and short reads, with any limits on waits, the bytes shown so far and those still to come are the contents of the file. |
| TtyPlay.ReplayAll | TTXSamples/TTXttyrec/TTXttyplay.c:365-529 | Without waits every replay ends, whatever the other settings, the caller's buffers and the reads, and has shown the whole contents. |
| Pipeline.RecordAndReplay | TTXSamples/TTXttyrec/TTXttyplay.c:365-529 | Recording and replaying any well-formed telnet stream, commands included, gives back exactly its data, for every split into reads and all buffer sizes. |
| Pipeline.ReadBack | TTXSamples/TTXttyrec/TTXttyplay.c:443-445 | What the recorder writes as the time of a frame is what the player reads, for every time and length. |
| Pipeline.Weave | cygwin/cygterm/cygterm.cpp:1227-1233 | Commands put between the escaped bytes of a stream leave it a well-formed one, from which the recorder keeps the same bytes. |
| Pipeline.ShellToScreen | cygwin/cygterm/cygterm.cpp:1206-1275 | From the shell through relay, recorder and player, with commands interleaved and the terminal sending the other way, exactly what was read from the shell is shown, after enough passes everything; and the shell has received its part. |
| Pipeline.KeyboardToShell | cygwin/cygterm/cygterm.cpp:1242-1273 | From the typing plugin through the relay the shell receives the typed bytes if and only if the newline setting is transparent to them, once everything has been read, which enough passes ensure. |
| AgentProxy.Uint32Back | cygwin/cygterm/cygterm.cpp:398-413 | Writing a length that was read gives the same four bytes. |
| AgentProxy.Uint32Forth | cygwin/cygterm/cygterm.cpp:398-413 | Reading a length that was written gives the same number. |
| AgentProxy.HighestFirst | cygwin/cygterm/cygterm.cpp:398-413 | Lengths are written and read highest byte first. |
| AgentProxy.RequestsAppend | cygwin/cygterm/cygterm.cpp:492-529 | Cutting a stream into requests is unaffected by what follows complete requests. |
| AgentProxy.ReplyIsFrame | cygwin/cygterm/cygterm.cpp:510-519 | What is queued for a request is a complete message exactly if the agent's answer is; what is queued for a failed request never is. |
| AgentProxy.RepliesCutApart | cygwin/cygterm/cygterm.cpp:492-529 | The bytes sent can be cut back into one reply per request if and only if the agent has answered every request with exactly one message. |
| AgentProxy.NoneFailed | cygwin/cygterm/cygterm.cpp:415-473 | With an agent that hands back one message or nothing, as the source does, that is so if and only if no request has failed. |
| AgentProxy.Connection.ProcRecvd | cygwin/cygterm/cygterm.cpp:492-529 | Processes a request if and only if one is complete and no reply is pending; then the request moves from the input to the history and its reply to the output, and otherwise nothing changes. |
| AgentProxy.Connection.OnWritable | cygwin/cygterm/cygterm.cpp:606-648 | What a send of any length has accepted is gone from the output and nothing else; when the output is empty the next request is taken. |
| AgentProxy.Connection.OnReadable | cygwin/cygterm/cygterm.cpp:650-675 | What is received is appended; the connection is closed exactly at the end of the stream. |
| AgentProxy.Connection.RoomToRead | cygwin/cygterm/cygterm.cpp:650-652 | A connection that waits to read has room in its buffer, unless the request at its head is larger than the buffer. |
| AgentProxy.Connection.RoomForMore | cygwin/cygterm/cygterm.cpp:650-652 | If all requests of the stream fit into the buffer, a connection that waits to read always has room. |
| AgentProxy.Connection.Round | cygwin/cygterm/cygterm.cpp:606-675 | A round does exactly what its calls allow, and keeps the invariant: received bytes are the processed requests and the input buffer, sent bytes and the output buffer are their replies in order, and the socket waits to write exactly while a reply is pending and to read exactly while none is. |
| AgentProxy.Connection.Turn | cygwin/cygterm/cygterm.cpp:606-675 | If the calls are possible and move something, a round sends or receives at least one byte, or closes a connection whose client has finished and has all its replies. |
| AgentProxy.Serve | cygwin/cygterm/cygterm.cpp:606-675 | Over every run the processed requests are the first ones of the stream, the bytes sent are a prefix of the replies in request order, and all of them once everything is read and sent; enough productive rounds get there, if every request fits into the buffer; the client can then cut the replies apart exactly if every answer is one message. |
| CodeConv.Utf8DecodesEncoded | teraterm/common/codeconv.cpp:268-340 | The UTF-8 decoder reads every encoded code point back, with the same length, whatever follows. |
| CodeConv.Utf8ShortestForm | teraterm/common/codeconv.cpp:268-340 | Whatever sequence the decoder accepts, up to 0x10ffff, is the one the encoder writes. |
| CodeConv.Utf16DecodesEncoded | teraterm/common/codeconv.cpp:350-381 | The UTF-16 decoder reads every scalar value back, whatever follows. |
| CodeConv.Utf16Unique | teraterm/common/codeconv.cpp:350-381 | Whatever the UTF-16 decoder accepts is a scalar value and what the encoder writes for it. |
| CodeConv.Utf8Examples | teraterm/common/codeconv.cpp:436-486 | Four characters of one to four bytes. |
| CodeConv.Utf16Examples | teraterm/common/codeconv.cpp:496-529 | The example of RFC 2781, section 5, and both ends of the surrogate range. |
| CodeConvStrings.Accepted8 | teraterm/common/codeconv.cpp:268-340 | Against the byte ranges of RFC 3629, section 4: the decoder takes exactly the characters of the grammar, and besides only what stands for no scalar value. |
| CodeConvStrings.Accepted16 | teraterm/common/codeconv.cpp:350-381 | The UTF-16 decoder takes exactly the characters of RFC 2781, section 2.2. |
| CodeConvStrings.EncodedSurrogate | teraterm/common/codeconv.cpp:292-309 | The bytes ED A0 80 are not well-formed but decoded to a surrogate, and come back as a question mark. |
| CodeConvStrings.Replacements | teraterm/common/codeconv.cpp:660-684 | Every byte or unit that cannot be decoded becomes a question mark of its own, a code beyond Unicode becomes one, and so does what does not fit. |
| CodeConvStrings.Codes8All8 | teraterm/common/codeconv.cpp:436-486 | Decoding the UTF-8 encoding of any code points gives them back. |
| CodeConvStrings.Codes16All16 | teraterm/common/codeconv.cpp:744-793 | Decoding the UTF-16 encoding of any scalar values gives them back. |
| CodeConvStrings.RoundTrip16 | teraterm/common/codeconv.cpp:638-693 | UTF-16 to UTF-8 and back is the identity if and only if the string is well-formed by RFC 2781; otherwise it is the string with its stray surrogates replaced. |
| CodeConvStrings.RoundTrip8 | teraterm/common/codeconv.cpp:796-859 | UTF-8 to UTF-16 and back is the identity if and only if the bytes are well-formed by the grammar of RFC 3629, section 4. |
| CodeConvStrings.Normalised | teraterm/common/codeconv.cpp:796-859 | Going there and back makes arbitrary bytes well-formed by that grammar, and doing it again changes nothing. |
| CodeConvStrings.WholeBy | teraterm/common/codeconv.cpp:638-693 | For every encoder, the writing pass consumes everything and writes the whole conversion if and only if the buffer has the counted size. |
| CodeConvStrings.ConvertUtf8 | teraterm/common/codeconv.cpp:696-699 | UTF-8 is such an encoder, with at most four bytes for a character, and the loop with it is the conversion to UTF-8. |
| CodeConvStrings.Fill16Whole | teraterm/common/codeconv.cpp:796-859 | The same towards UTF-16. |
| CodeConvBuffers.Length | teraterm/common/codeconv.cpp:654-658 | A length of zero stands for the text up to and including its NUL. |
| CodeConvBuffers.WideCharToMB | teraterm/common/codeconv.cpp:638-693 | For every encoder of at most four bytes a character: without a buffer the exact size is counted; with one, a prefix of the conversion is written, with question marks where a character does not fit, and nothing behind the capacity. |
| CodeConvBuffers.WideCharToUtf8 | teraterm/common/codeconv.cpp:696-699 | The same for UTF-8; a buffer of the counted size gets the whole conversion. |
| CodeConvBuffers.Utf8ToWideChar | teraterm/common/codeconv.cpp:796-859 | The same from UTF-8. |
| CodeConvBuffers.WideCharToUtf32 | teraterm/common/codeconv.cpp:744-793 | Counts the code points, or writes as many of them as there is room for. |
| CodeConvBuffers.WideCharToMultiByte | teraterm/common/codeconv.cpp:873-925 | Count and write agree for every input and every encoder: the array allocated is filled exactly with the conversion. |
| CodeConvBuffers.MultiByteToWideChar | teraterm/common/codeconv.cpp:979-1028 | The same in the other direction. |
| CodeConvBuffers.ThereAndBack | teraterm/common/codeconv.cpp:873-1028 | Through both allocating functions a non-empty string comes back if and only if it is well-formed. |
| DlgFormat.FontWritten | teraterm/common/dlglib_tmpl.cpp:204-217 | A font that is written is parsed back, whatever follows. |
| DlgFormat.HeaderLocal | teraterm/common/dlglib_tmpl.cpp:168-187 | The header depends only on the words it takes up. |
| DlgFormat.ItemsLocal | teraterm/common/dlglib_tmpl.cpp:227-232 | So do the controls, at the same alignment. |
| DlgFormat.ItemsAppend | teraterm/common/dlglib_tmpl.cpp:227-232 | A control copied behind others is parsed as the next one, and the next but one starts aligned. |
| DlgWriter.PageBack | teraterm/common/dlglib_tmpl.cpp:276-363 | Every template laid out field by field, in either format, is read back with all its fields, names, font and controls. |
| DlgWriter.EntriesBack | teraterm/common/dlglib_tmpl.cpp:221-232 | Controls of any names and data, padded to double words, are read back in order. |
| DlgTemplate.CopySz | teraterm/common/dlglib_tmpl.cpp:88-98 | Copies a string with its terminator and returns its size; null measures. |
| DlgTemplate.CopySzOrOrd | teraterm/common/dlglib_tmpl.cpp:100-121 | Copies a name of any of the three kinds and nothing else. |
| DlgTemplate.CopyDlgItem | teraterm/common/dlglib_tmpl.cpp:123-155 | Copies a control word for word; the size returned is that of the parsed control, aligned. |
| DlgTemplate.CopyItems | teraterm/common/dlglib_tmpl.cpp:220-232 | All controls are parsed back equal and in order at their new place. |
| DlgTemplate.MeasureTemplate | teraterm/common/dlglib_tmpl.cpp:276-363 | With a null destination the size is that of the parsed template and the font returned is its font. |
| DlgTemplate.Assembled | teraterm/common/dlglib_tmpl.cpp:163-234 | The copied header, another font and the copied controls make up the same template with only its font changed. |
| DlgTemplate.CopyTemplate | teraterm/common/dlglib_tmpl.cpp:163-234 | The copy parses to the source with only the font replaced, and its size is known in advance. |
| DlgTemplate.Forecast | teraterm/common/dlglib_tmpl.cpp:380-387 | The forecast is at least the size written, although the length of the name shifts the alignment behind it. |
| DlgTemplate.ReplacedSame | teraterm/common/dlglib_tmpl.cpp:365-403 | Replacing a font by itself changes nothing; weight and slant are always kept. |
| DlgBytes.ReadTooFar | teraterm/common/dlglib_tmpl.cpp:139-151 | The code takes a control to end `count / 2` words behind its true end, and reads that far. |
| DlgBytes.FindsIff | teraterm/common/dlglib_tmpl.cpp:227-232 | Control after control the code looks where the control is and can read it, if and only if every control but the last has at most one byte of creation data, or up to three with a word of padding to read, and what is read behind the last one is there. |
| DlgBytes.FindsAgree | teraterm/common/dlglib_tmpl.cpp:227-232 | Then what the code reads is, control by control, what the format means; only the end may be another, by as much as is read behind the last control. |
| DlgBytes.Retraced | teraterm/common/dlglib_tmpl.cpp:227-232 | The controls as the code reads them decide as well: if all but the last are tight, they have been found in their places. |
| DlgBytes.SameEnds | teraterm/common/dlglib_tmpl.cpp:227-232 | If both parses give the same controls, they take up the same space if and only if every control is tight. |
| DlgBytes.FoundDialog | teraterm/common/dlglib_tmpl.cpp:163-234 | For a whole template: the condition on its controls is exact for finding every control in its place, and under it both parses give the same dialog. |
| DlgBytes.SoundDialog | teraterm/common/dlglib_tmpl.cpp:163-234 | Both parses give the same dialog with the same end if and only if the code finds every control and all are tight. |
| DlgBytes.RetracedTemplate | teraterm/common/dlglib_tmpl.cpp:163-234 | The same, decided by the controls as the code reads them, for the copy. |
| DlgBytes.Misread | teraterm/common/dlglib_tmpl.cpp:252-264 | An extended template of two controls, the first with two bytes of data: the code reads the second one from a wrong place, with another class, title and other fields, and parses the template to another dialog. |
| DlgTemplate.FoundReadable | teraterm/common/dlglib_tmpl.cpp:365-403 | Every template in which the code finds its controls and whose face fits can be given another font. |
| DlgTemplate.GetDlgTemplate | teraterm/common/dlglib_tmpl.cpp:365-403 | The new template parses to the old one with point size, face and charset replaced, or unchanged for an empty face, and lies within what was allocated; so it does with creation data counted in bytes, if the code finds every control of the source in the sense of `FoundDialog`. |
| DlgTemplate.Rewrite | teraterm/common/dlglib_tmpl.cpp:365-403 | For a template laid out field by field: the new one is that of the same page with point size, face and charset replaced; weight, slant and all else stay. |
| UrlCode.CodeRoundTrip | TTProxy/ProxyWSockHook.h:431-494 | Decoding undoes encoding for every ASCII text, and the encoded text has no delimiters. |
| UrlCode.UrlEncode | TTProxy/ProxyWSockHook.h:469-494 | The loop, which appends runs of plain characters, appends the encoding of the text. |
| UrlCode.CharacterTable | TTProxy/ProxyWSockHook.h:469-494 | Which characters are written as they are; the others as a percent sign and two upper-case digits. |
| UrlCode.UrlDecode | TTProxy/ProxyWSockHook.h:443-461 | The loop yields the decoding up to its first NUL, malformed escapes taken as they are. |
| UrlCode.NulHides | TTProxy/ProxyWSockHook.h:443-461 | The text "a%00b" is decoded to the C string "a". |
| UrlCode.DecimalValue | TTProxy/ProxyWSockHook.h:415-425 | A decimal number has the value it was made from, and no leading zero. |
| UrlCode.ParsePort | TTProxy/ProxyWSockHook.h:242-258 | Accepts exactly numbers from 1 to 65535 without leading zero and returns their value, else -1. |
| UrlCode.PortLimits | TTProxy/ProxyWSockHook.h:242-258 | Ports are exactly the decimal numbers from 1 to 65535 without leading zero. |
| UrlCode.AppendPort | TTProxy/ProxyWSockHook.h:415-425 | Appends the decimal form of the port. |
| ProxyUrl.TypeNameRoundTrip | TTProxy/ProxyWSockHook.h:192-238 | The name of every server type is read back as that type, although some types have several names. |
| ProxyUrl.ParseTypeIs | TTProxy/ProxyWSockHook.h:169-213 | A text is read as a type if and only if it spells one of its names, aliases included, in any case. |
| ProxyUrl.ParseNamed | TTProxy/ProxyWSockHook.h:317-327 | A URL is read in the same way under each of these names. |
| ProxyUrl.NoProxy | TTProxy/ProxyWSockHook.h:318-326 | Without "://", or with an unknown name, there is no proxy. |
| ProxyUrl.OtherTypes | TTProxy/ProxyWSockHook.h:364-379 | Types without a server take no host from a plain text; a server needs one. |
| ProxyUrl.UrlRoundTrip | TTProxy/ProxyWSockHook.h:317-429 | Reading a written URL gives back type, host, port, user and password if and only if a host with a colon has a port, and the tail has no `@` where there is no user; then the tail is returned as well. |
| ProxyUrl.RestReadsBack | TTProxy/ProxyWSockHook.h:326-385 | The same for what stands behind the type, with the remaining text. |
| ProxyUrl.BracketsStay | TTProxy/ProxyWSockHook.h:343-371 | The host "::1" without a port comes back with brackets; with a port it comes back as it was. |
| ProxyUrl.BadPortKept | TTProxy/ProxyWSockHook.h:372-379 | A text that is not a port number is stored as 65535 and not refused. |
| ProxyUrl.ProxyInfo.Parse | TTProxy/ProxyWSockHook.h:317-386 | The parser, which fills in the record field by field, computes the specified record and rest for every text. |
| ProxyUrl.GenerateURL | TTProxy/ProxyWSockHook.h:388-429 | The printer, which appends piece by piece, yields the URL of the record. |
| ProxyUrl.StoreAndLoad | TTProxy/ProxyWSockHook.h:317-429 | A record stored as URL and loaded again is the same if and only if a host with a colon has a port. |
| Base64.RoundTrip | TTProxy/ProxyWSockHook.h:1334-1366 | Decoding by groups of four digits undoes the RFC 4648 encoding of every byte string. |
| Base64.DigitTable | TTProxy/ProxyWSockHook.h:1327-1327 | The alphabet of RFC 4648, table 1. |
| Base64.Vectors | TTProxy/ProxyWSockHook.h:1334-1366 | The test vectors of RFC 4648, section 10. |
| Base64.EncodeParts | TTProxy/ProxyWSockHook.h:1337-1366 | The encoding consists of whole digits, a last digit and padding, of the length computed beforehand. |
| Base64.BodyStep | TTProxy/ProxyWSockHook.h:1350-1358 | One more byte completes exactly the digits that the accumulator emits for it. |
| Base64.PushKeeps | TTProxy/ProxyWSockHook.h:1351-1351 | Although the 32-bit accumulator loses bits with every byte, those still to be used are kept. |
| Base64.Drain | TTProxy/ProxyWSockHook.h:1353-1357 | The inner loop emits the completed digits and leaves the other bits. |
| Base64.BasicCredential | TTProxy/ProxyWSockHook.h:1334-1366 | For every user and password the loop emits the RFC 4648 encoding of user, colon, password, with correct padding. |
| OscParser.SegmentsJoin | TTXSamples/TTXKcodeChange/TTXKcodeChange.c:196-199 | Cutting a command at its semicolons gives back the parts it was joined from. |
| OscParser.StepsConcat | TTXSamples/TTXKcodeChange/TTXKcodeChange.c:128-315 | Parsing two texts in a row is parsing them joined. |
| OscParser.SplitIndependence | TTXSamples/TTXKcodeChange/TTXKcodeChange.c:115-317 | Final state, codes, stacks and replies do not depend on how the stream is split into calls. |
| OscParser.CodesHeard | TTXSamples/TTXKcodeChange/TTXKcodeChange.c:128-315 | For every stream, from every state, codes, stacks and replies are those of the command texts processed, in order. |
| OscParser.HeardConcat | TTXSamples/TTXKcodeChange/TTXKcodeChange.c:128-315 | Which commands are heard does not depend on where the stream is cut. |
| OscParser.Step | TTXSamples/TTXKcodeChange/TTXKcodeChange.c:129-180 | Between two bytes the collected text is always shorter than the buffer, empty outside commands, and no command is left half processed. |
| OscParser.Parser.ParseInputStr | TTXSamples/TTXKcodeChange/TTXKcodeChange.c:115-317 | The loop, which looks twice at the byte that ends a command, takes the state to that of the byte-by-byte specification. |
| OscParser.Parser.Collect | TTXSamples/TTXKcodeChange/TTXKcodeChange.c:129-180 | One byte either moves the collecting parser on, or the command is to be processed and nothing else changes. |
| OscParser.Parser.Process | TTXSamples/TTXKcodeChange/TTXKcodeChange.c:181-312 | Obeys the collected text up to its first NUL, also when the buffer is full, and starts afresh. |
| OscParser.Parser.Number | TTXSamples/TTXKcodeChange/TTXKcodeChange.c:185-187 | The number read is that of the leading digits modulo 2^32. |
| OscParser.Parser.ObeySegments | TTXSamples/TTXKcodeChange/TTXKcodeChange.c:195-309 | Overwriting the semicolons with NULs one after the other, the loop acts on exactly the segments of the text, in order. |
| OscSession.TextsKeepBase | TTXSamples/TTXKcodeChange/TTXKcodeChange.c:264-309 | Command texts that do not take off codes saved before leave them as they are, on the side considered, below their own. |
| OscSession.Restored | TTXSamples/TTXKcodeChange/TTXKcodeChange.c:115-317 | For every stream of bytes and every state: if the first command heard saves the code of one side, the last restores it, and those between are balanced on that side, then the code and the codes saved below it are back, whatever else the stream contains and does. |
| OscSession.CommandObeyed | TTXSamples/TTXKcodeChange/TTXKcodeChange.c:129-184 | A command of any text, with each introducer and terminator the parser accepts at that moment, is collected, heard and obeyed, and the parser is back in its ground state. |
| OscSession.IgnoresPlain | TTXSamples/TTXKcodeChange/TTXKcodeChange.c:129-145 | Text in which no command begins, other escape sequences included, changes nothing. |
| OscSession.SessionRuns | TTXSamples/TTXKcodeChange/TTXKcodeChange.c:115-317 | A stream of such text and commands does what its commands say, one after the other, and exactly these are heard. |
| OscSession.NumberOrders | TTXSamples/TTXKcodeChange/TTXKcodeChange.c:185-198 | A command is selected by its number modulo 2^32, and its segments are those it was written with. |
| OscSession.SaveAndRestore | TTXSamples/TTXKcodeChange/TTXKcodeChange.c:264-309 | The command texts that save and restore one code do so once, in the sense of `Restored`. |
| OscSession.SaveTexts | TTXSamples/TTXKcodeChange/TTXKcodeChange.c:264-309 | These texts are "5965;kt", "5966;kt" and the same with "kr". |
| OscSession.SetNamed | TTXSamples/TTXKcodeChange/TTXKcodeChange.c:195-223 | "5963;kt=" or "5963;kr=" and a name, in any case, set exactly the code of that side, and leave the other side, the saved codes and the replies alone. |
| OscSession.NotNamed | TTXSamples/TTXKcodeChange/TTXKcodeChange.c:195-223 | Any other name changes nothing. |
| OscSession.AskReports | TTXSamples/TTXKcodeChange/TTXKcodeChange.c:224-263 | "5964;kt" or "5964;kr" types the name of the code in use and a newline, and changes nothing. |
| OscSession.SetThenAsk | TTXSamples/TTXKcodeChange/TTXKcodeChange.c:195-263 | What has been set by a name is what is reported. |
| OscSession.RestoredSession | TTXSamples/TTXKcodeChange/TTXKcodeChange.c:115-317 | What `Restored` says, for streams written as text and commands, with any introducers and terminators accepted at the moment. |
| OscSession.WrappedNumber | TTXSamples/TTXKcodeChange/TTXKcodeChange.c:185-187 | The number 2^32 + 5963 sets a code. |
| DllTable.HeldCounts | teraterm/common/dllutil.cpp:41-46 | In a table without duplicate names the count of an entry is the number of references held to its name. |
| DllTable.AcquiredHolds | teraterm/common/dllutil.cpp:56-66 | One more reference is held, the same libraries are owned. |
| DllTable.RemoveHolds | teraterm/common/dllutil.cpp:137-151 | Removing an entry with its last reference takes away that reference and, if the table had loaded it, that library. |
| DllTable.GivenBack | teraterm/common/dllutil.cpp:334-346 | Getting a library and freeing it by name restores the table, entry for entry. |
| DllTable.Table.GetHandle | teraterm/common/dllutil.cpp:51-127 | The handle comes from the table, from memory or from loading, in this order; a library is loaded only if it is in neither; the table afterwards is determined, and the books are kept: names are unique, counts are at least 1 and are references taken less given back, libraries loaded are those freed and those owned. |
| DllTable.NotOurs | teraterm/common/dllutil.cpp:79-127 | A library that is in memory already is neither loaded nor freed by the table. |
| DllTable.Table.FreeFromList | teraterm/common/dllutil.cpp:137-151 | Gives back exactly one reference; the last one removes the entry and frees the library, if the table had loaded it. |
| DllTable.Table.FreeByFileName | teraterm/common/dllutil.cpp:179-193 | Gives back one reference to a name in the table, and does nothing for any other name. |
| DllTable.Table.FreeByHandle | teraterm/common/dllutil.cpp:158-172 | The same by handle. |
| DllTable.Table.GetApiAddressFromList | teraterm/common/dllutil.cpp:238-287 | It succeeds exactly if a handle is obtained and every function is there or may be missing; then every place has its address and the table holds the library. On failure every place is NULL, and the table is as before if and only if not a library in memory was looked for whose name is in the table. |
| DllTable.LostReference | teraterm/common/dllutil.cpp:238-287 | One caller holds a library, another looks for it in memory in vain: the entry is gone and the library freed. |
| DllTable.Table.Exit | teraterm/common/dllutil.cpp:334-346 | Frees exactly what is owned: afterwards libraries freed equal libraries loaded. |
| UnEscape.ExpandFits | TTXSamples/TTXRecurringCommand/TTXRecurringCommand.c:101-180 | An expanded text is never longer than its source, so the write cursor never overtakes the read cursor. |
| UnEscape.EscapeRoundTrip | TTXSamples/TTXRecurringCommand/TTXRecurringCommand.c:113-175 | Every byte string, NULs included, can be written with plain, doubled and hexadecimal sequences and is expanded back. |
| UnEscape.OctalRoundTrip | TTXSamples/TTXRecurringCommand/TTXRecurringCommand.c:149-165 | So it can with octal sequences. |
| UnEscape.LetterSequence | TTXSamples/TTXRecurringCommand/TTXRecurringCommand.c:113-122 | What each letter behind a backslash stands for. |
| UnEscape.HexSequence | TTXSamples/TTXRecurringCommand/TTXRecurringCommand.c:125-147 | Two hexadecimal digits in either case. |
| UnEscape.NotHexSequence | TTXSamples/TTXRecurringCommand/TTXRecurringCommand.c:143-147 | Without two such digits the letter x is nothing special. |
| UnEscape.OctalSequence | TTXSamples/TTXRecurringCommand/TTXRecurringCommand.c:149-165 | One to three octal digits as far as they go, modulo 256. |
| UnEscape.OtherSequence | TTXSamples/TTXRecurringCommand/TTXRecurringCommand.c:166-169 | A backslash before anything else stays. |
| UnEscape.ExpandPlain | TTXSamples/TTXRecurringCommand/TTXRecurringCommand.c:107-109 | Text in front of the first backslash stays as it is. |
| UnEscape.ExpandOne | TTXSamples/TTXRecurringCommand/TTXRecurringCommand.c:111-173 | One sequence is replaced by its expansion and the unread text is untouched. |
| UnEscape.UnEscapeStr | TTXSamples/TTXRecurringCommand/TTXRecurringCommand.c:101-180 | In place, the text becomes its expansion, terminated and with its length returned, and nothing behind it changes. |
| ArgV.WordFits | cygwin/cygterm/cygterm.cpp:869-903 | An unquoted argument is never longer than its quoted form, and there is room for its NUL. |
| ArgV.LineRead | cygwin/cygterm/cygterm.cpp:869-903 | However arguments are written, of bare bytes, escaped bytes, single-quoted and double-quoted pieces in any order, and whatever white space separates them, the line is cut into exactly these arguments, or the first of them if the vector is short. |
| ArgV.Writable | cygwin/cygterm/cygterm.cpp:869-903 | Every argument, the empty one and any bytes included, can be written so. |
| ArgV.Unclosed | cygwin/cygterm/cygterm.cpp:882-897 | Quotes that are not closed reach to the end of the line. |
| ArgV.QuotedBlank | cygwin/cygterm/cygterm.cpp:882-897 | A blank in single quotes or behind a backslash does not end an argument. |
| ArgV.TakeWord | cygwin/cygterm/cygterm.cpp:878-897 | One argument is moved together and terminated, and the rest of the line is untouched. |
| ArgV.GetArgv | cygwin/cygterm/cygterm.cpp:869-903 | In place, the vector points at C strings that are the arguments of the line, at most maxc-1 of them, and is closed with NULL. |
| InitOnce.StepSafe | libcompatwin/initonceexeconce.cpp:31-59 | Every atomic step of every thread keeps the flag, the busy thread and the counts consistent. |
| InitOnce.OnceOnly | libcompatwin/initonceexeconce.cpp:31-59 | For any number of threads and any interleaving the init function starts at most once, the flag is 1 exactly while one thread is initialising, and no call returns before the init function has ended. |
| InitOnce.Progress | libcompatwin/initonceexeconce.cpp:41-57 | From every reachable state at most four steps bring a waiting thread back to its caller. |
| TickCount.CallExact | teraterm/common/compat_win.cpp:1002-1024 | A call is exact if and only if less than 2^32 milliseconds have passed since the last one. |
| TickCount.TurnMissed | teraterm/common/compat_win.cpp:1002-1024 | 2^32 - 1 milliseconds apart two calls are exact; 2^32 apart the second one counts from 0 again. |
| TickCount.RunExact | teraterm/common/compat_win.cpp:967-1024 | A run is the true time less a constant from beginning to end if and only if no two calls are further apart. |
| TickCount.RunMonotone | teraterm/common/compat_win.cpp:1002-1024 | Within 2^64 milliseconds results never go back and never run ahead of the true time, however far apart the calls are and whichever threads make them. |
| TickCount.Counter.GetTickCount64 | teraterm/common/compat_win.cpp:1002-1024 | Each call computes the specified result and state. |

## Left out

- TimeVal.ShiftUp: does not model overflow of 32-bit seconds and products when slowing down; times are integers.
- TtyPlay.Replay: does not cover recordings in which a negative frame length is followed by more than 2000 bytes, which the code reads past its staging buffer.
- TtyPlay.ReplayAll: the same.
- TtyPlay.Player.TTXReadFile: does not model window titles, which only show the times, and the marker titles.
- AgentProxy.Serve: covers one connection; the list of connections, whose `prev` never moves on, is not modelled, and request lengths must fit into a C `int`.
- CygTerm.Session.TelnetCmd: expects conforming input (a window size of four bytes, no 0xff in subnegotiations, no terminal type during a session) and is not given a stream that ends inside a command.
- DlgTemplate.GetDlgTemplate: needs a template with a font (DS_SETFONT), because the size is only set for those; a template whose controls, as the code walks them, lie outside it is not covered either. The classic and the extended functions share one model over a layout.
- UrlCode.UrlDecode: characters are ASCII; the conversion to the system code page and DBCS lead bytes are not part of this model.
- ProxyUrl.UrlRoundTrip: covers the server types; the types without a server (`none`, `ssl`) are not printed.
- OscParser.Parser.Process: replies are listed as calls; the buffer they go to is `CommOut.OutputBuffer`.
- Bytes are unsigned throughout, also where the code has plain `char`; overlapping `memcpy` moves bytes; allocation does not fail.
- The telnet negotiation before a session, the `dumb` mode, terminal-type subnegotiation and process launch of cygterm.
- The frame with the screen size that the recorder can write first; recordings are regular files, so only payload reads come out short.
- Conversions through system code pages and mapping tables.
- The contents of ssh-agent messages; the agent is any function of the request and its position in the run.
- The result of the init function, which the once-only initialisation ignores.
- The tick counter's own set-up and removal beyond its first reading.
- Dialogs, menus, configuration, registry, sockets and other Windows calls.
- Single-code conversions and substitutions, which would only add easy members.
