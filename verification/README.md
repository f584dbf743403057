# Verification of Socket++'s stateful core

Socket++ wraps BSD sockets in C++ stream classes. Most of it forwards calls to the system. The parts below
keep state across calls, and this project models those parts in Dafny and proves what they promise. Every
theorem is about all inputs and all behaviours of the system calls: how much a `write` accepts, how much a
`read` delivers, which call fails and when, what `fork` and `waitpid` return, are arbitrary.

| file | models |
|---|---|
| `Lines.dfy` | CR LF lines, shared by the protocol modules |
| `Sockets.dfy` | the kernel's side of a stream socket and of a file (environments with free choices), and C++ exceptions as results |
| `SockStream.dfy` | `sockbuf` of `sockstream.cpp`: real get and put areas, moved by offsets |
| `StreamRuns.dfy` | whole runs: writer, network and reader; reads under any chunking; all handles of one descriptor |
| `SmtpData.dfy` | what `send_buf` puts on the wire, and a receiver written from section 4.5.2 of RFC 821 |
| `SmtpChunks.dfy` | a text that `send_buf` gets in several calls, out of one buffer, and what the receiver makes of it |
| `SmtpServer.dfy` | what an RFC 821 server, which may refuse DATA, makes of the bytes a client sent, and the replies it owes |
| `Protocol.dfy` | what `smtpbuf` and `ftpbuf` share: sending the parts of a command, taking one reply line |
| `ReplyReads.dfy` | a reply reader's loop, turn by turn, and how it depends on where the kernel ends a read |
| `SmtpReply.dfy` | the loop of SMTP's `get_response` as a function of what each read brings |
| `Smtp.dfy` | `smtpbuf`: the reply reader, the commands, whole sessions |
| `FtpPort.dfy` | the argument of PORT, built in place in a C string, and its parser (section 4.1.2 of RFC 959) |
| `FtpReply.dfy` | the loop of FTP's `get_response` as a function of what each read brings |
| `Ftp.dfy` | `ftpbuf`: the reply reader, `send_cmd`, `useraddr`, and uploads |
| `FtpSession.dfy` | whole sessions of `ftpbuf` with an RFC 959 server: commands, renames, uploads over data connections |
| `Fork.dfy` | the list of child processes and the kernel's table of the same children |
| `Sig.dfy` | the signal handler registry and the kernel's dispositions |
| `Echo.dfy` | the echo server's per-client loop |

## How the model reads the code

- A C++ `char` is a Dafny `char`. `int_type` is `Eof` or a character, since the code converts to
  `unsigned char` to keep the two apart. `BUFSIZ` is any positive size.
- Pointers into an area are offsets; a null area is a null array. `memcpy` is an update of the array.
- An exception is a `Threw` result: a `socketpp::err`, a `sockoob`, or the `int` that `write` throws. After an
  exception the model still says what state is left behind.
- The kernel object (`Sockets.Socket`) records what it accepted (`sent`), what has arrived and how much of that
  was read. Constant flags say what one kernel may do, or promises: whether writes, reads or shutdowns may fail, and
  whether a read delivers whole lines when it can; likewise for `fork`, `sigaction` and files. A
  theorem names the flags it needs; without a flag anything goes. What `select` answers a wait with a timeout, and
  whether the next byte is out-of-band, is part of the object's state and can change at any time.
  As on a POSIX stream socket, a `write` of a positive length accepts at least one byte or fails.
- The streambuf inlines `sputc`, `sgetc`, `sbumpc` and `gbump` are modelled as the C++ standard gives them.
- `smtpbuf` and `ftpbuf` derive from `sockbuf`; here they hold one. While a client waits for a reply the server
  acts: `SmtpServer.Server.Serve`, `FtpSession.Server.Serve` and the arrival of the reply in `Ftp.FtpBuf.SendCmd` are
  those steps. An `accept` for which the server opens no connection waits for ever.
- Ghost parameters (the lines of a reply, the text printed before) only name what a contract talks about.

## What the code requires of its surroundings

- Both `get_response` loops look at a line only when five bytes are unread, never read more while something is
  unread, and look for a CR LF only in what is buffered. So a reply that arrives whole, but with a read that ends
  inside one of its lines, is not taken: the loop spins, or SMTP's stops without the last line, or FTP's steps
  past the end of the get area. `SmtpReply.LoopExactly` and `FtpReply.LoopExactly` prove, for all replies
  and all ways the kernel can cut the bytes into reads, that the reply is taken exactly if and only if no read
  ends there; `CutReplies` gives inputs. `Turns` equates the loops of the classes with these functions, turn for
  turn, and `ReplyTurns` states the same condition of the classes themselves.
- `GetResponse`, and sessions, are about kernels that do not cut: whole lines per read, or for FTP the whole
  reply buffered.
- `send_buf` looks at one byte past the text when the text ends in LF. The byte is a parameter of the model.
  A text arrives intact unless it ends in LF and that byte is a period; `SmtpData.DataRoundTrip` proves this
  condition exact and says what arrives otherwise.
- `data (filename)` calls `send_buf` once per read, and all reads go into one buffer. A period that starts a read
  in the middle of a line is doubled; and after a read that ends in LF the byte that `send_buf` looks at is what an
  earlier read left there (`SmtpChunks.StaleByte`), so a stray period can go out, which can end the text.
  `SmtpChunks.ChunkedSending` proves for all chunks and all bytes past them exactly when the file arrives unchanged,
  and says what arrives otherwise; `SmtpChunks.LostEndings` gives inputs.
- `data (buf, len)` does not look at the reply to DATA. If the server refuses, the text is heard at the prompt: each
  line is a command, up to one that reads DATA and is accepted. At least one reply is then left unread, and one is
  after a text that ends in LF before a period. `Smtp.SmtpBuf.DataText` proves for every server and every text that a
  client in step stays in step if and only if neither happens; `Smtp.SmtpBuf.Session` adds up what whole sessions leave
  unread, and `Smtp.OneTextRefused` is an input.
- `ftpdata` does not look at the reply to PORT, and calls `accept` whenever the next reply is no error.
  `FtpSession.WaitsExactly` says exactly when a session is left waiting for a data connection that does not come;
  `FtpSession.PortRefused` is an input.
- `reaper_nohang` waits for one child per SIGCHLD. When two have died before it runs, one stays listed:
  `Fork.OneWaitIsEnough` is the exact condition, `Fork.OneStaysListed` an input.
- A copied `sockbuf` has no areas, so it takes no bytes and delivers none; the comment in the copy
  constructor assumes otherwise.
- The comment at the head of `sockstream.cpp` says that a line-buffered stream is flushed after each LF. The code
  has no such case; the model follows the code.

## Model

| member | source | states |
|---|---|---|
| Lines.CrlfAt | socket++/smtp.cpp:34-40 | the index of the first CR LF pair: a pair is there and none before it, or there is none at all |
| Lines.FirstLineBuffered | socket++/smtp.cpp:25-40 | when whole lines are buffered, the first CR LF in the buffer ends the stream's first line, and what follows is whole lines again |
| SockStream.ShiftToFront | socket++/sockstream.cpp:161-165 | the forward, in-place shift keeps exactly the bytes from..end, at the front, although source and target overlap |
| SockStream.Sockbuf.constructor | socket++/sockstream.cpp:82-91 | a new sockbuf has both areas, nothing pending and nothing unread |
| SockStream.Sockbuf.Copy | socket++/sockstream.cpp:112-119 | a copy shares the descriptor, raises its use count and has null areas |
| SockStream.Sockbuf.Destroy | socket++/sockstream.cpp:122-139 | everything pending is on the wire; the descriptor is closed exactly when this was its last handle; after a failed flush, which needs pending bytes, nothing is lost, closed or released |
| SockStream.Sockbuf.Write | socket++/sockstream.cpp:376-397 | throws a timeout exactly when a timeout is set and select does not answer ready, and then sends nothing; otherwise returns only when all len bytes are out, or throws how many went out, which are the first ones |
| SockStream.Sockbuf.Read | socket++/sockstream.cpp:298-316 | with a timeout set and no readiness it throws and takes nothing; then, with oob set, it throws sockoob at the mark and takes nothing, and only there; otherwise it delivers the next bytes of the kernel's queue in order, 0 only at end of stream, or read(2) fails; nothing is consumed when it throws |
| SockStream.Sockbuf.KeepUnsent | socket++/sockstream.cpp:159-167 | after a partial write what is pending is exactly the unsent suffix |
| SockStream.Sockbuf.Sync | socket++/sockstream.cpp:141-181 | wire followed by pending never changes, even when a write fails midway; on success nothing is pending; with a timeout set and no readiness it throws and sends nothing |
| SockStream.Sockbuf.Showmanyc | socket++/sockstream.cpp:184-189 | the number of unread bytes, 0 for a disabled stream |
| SockStream.Sockbuf.Underflow | socket++/sockstream.cpp:191-207 | the input stream is unchanged; Eof exactly at end of stream or when disabled; otherwise at least one byte is buffered and the first is returned; unread bytes are never overwritten; a refill that times out throws, and one at the mark throws sockoob if oob is set |
| SockStream.Sockbuf.Uflow | socket++/sockstream.cpp:209-217 | takes exactly the first byte of the input stream; it throws only when none is buffered, and then takes none |
| SockStream.Sockbuf.Sgetc | socket++/sockstream.cpp:191-207 | shows the first byte of the input stream and takes none; it throws only when none is buffered |
| SockStream.Sockbuf.Sbumpc | socket++/sockstream.cpp:209-217 | takes exactly the first byte of the input stream, buffered or not; it throws only when none is buffered, and then takes none |
| SockStream.Sockbuf.Xsgetn | socket++/sockstream.cpp:219-235 | stores the next bytes of the stream, in order, and touches no other memory; fewer than n only at end of stream; before an exception it has stored at least all that was buffered; the recursion ends |
| SockStream.Sockbuf.Overflow | socket++/sockstream.cpp:247-260 | the output stream grows by the character exactly when it returns it, which it does when there is room; Eof flushes; Eof is returned exactly for a disabled stream |
| SockStream.Sockbuf.Sputc | socket++/sockstream.cpp:247-260 | the output stream grows by the character, or not at all when it throws; while there is room there is no write and no exception |
| SockStream.Sockbuf.Xsputn | socket++/sockstream.cpp:262-278 | wire followed by pending grows by exactly s, or by some first k bytes of s when a write fails; while there is room there is no write and no exception; the recursion through overflow and sync ends |
| SockStream.Sockbuf.Shutdown | socket++/sockstream.cpp:518-535 | drops the areas it disables, with what is in them, and leaves the other untouched; shutdown(2) is called once, or three times for both, in order; for both, the put area and its bytes go only if the first of these calls succeeded |
| StreamRuns.Link.WriterStep | socket++/sockstream.cpp:141-181 | every writer operation keeps the link's invariant; without write failures exactly what was offered is accepted |
| StreamRuns.Link.ReaderStep | socket++/sockstream.cpp:191-235 | every reader operation keeps the invariant; without read failures it delivers the next n bytes of the stream, or all there are |
| StreamRuns.Link.NetworkStep | socket++/sockstream.cpp:298-316 | bytes in transit arrive in order, any number at a time |
| StreamRuns.Link.Run | socket++/sockstream.cpp:141-278 | over any interleaving of writer, network and reader operations with any partial transfers, failures, timeouts and out-of-band marks: what is delivered is a prefix of what was accepted, also after shutdowns; while both areas live, accepted = delivered followed by what is on the way; without write failures exactly what was offered is accepted; at every moment the operation changes what was accepted, pending, sent, arrived and delivered only as it may, a flush that cannot fail leaves nothing pending and the network carries what it is asked to |
| StreamRuns.Link.Conservation | socket++/sockstream.cpp:141-278 | accepted = delivered, reader's buffer, kernel queue, bytes in transit, writer's buffer, in this order: nothing lost, repeated or reordered |
| StreamRuns.UnbufferedInOrder | socket++/sockstream.cpp:184-235 | the reference stream hands out its bytes in order, each once |
| StreamRuns.ReadOne | socket++/sockstream.cpp:184-235 | one buffered read answers like the unbuffered stream and leaves the same rest |
| StreamRuns.ReadAll | socket++/sockstream.cpp:184-235 | any sequence of reads answers like an unbuffered stream, however the kernel cuts the source |
| StreamRuns.ReadBoth | socket++/sockstream.cpp:184-235 | two sockbufs with the same bytes to come, chunked differently, answer alike |
| StreamRuns.Descriptor.CopyHandle | socket++/sockstream.cpp:112-119 | a copy of any handle keeps the descriptor's invariant |
| StreamRuns.Descriptor.StoreBytes | socket++/sockstream.cpp:262-278 | only the first handle takes bytes, and takes all of them |
| StreamRuns.Descriptor.DropHandle | socket++/sockstream.cpp:122-139 | destroying any handle keeps the invariant: use count, flushing and closing agree |
| StreamRuns.Descriptor.Run | socket++/sockstream.cpp:82-139 | over any sequence of copies of copies, writes through any handle and destructions in any order: the descriptor is open while a handle lives, closed exactly once by the last destruction, and by then every accepted byte is on the wire; each operation has exactly its effect |
| StreamRuns.SyncUntilDone | socket++/sockstream.cpp:141-181 | over any number of failing flushes wire followed by pending stays the same, and the first flush that succeeds puts all of it on the wire, with no loss, repeat or reordering |
| SmtpData.ReceiveLines | socket++/smtp.cpp:87-107 | the receiver reads off the wire exactly the lines of the text, or stops early in the one case a stray period ends it |
| SmtpData.DataRoundTrip | socket++/smtp.cpp:87-118 | decoding what data (buf, len) sends gives back the text and leaves exactly what follows the terminator, if and only if the text does not end in LF before a period; in that case it loses its LF and leaves ".CRLF" over |
| SmtpData.EncodeInjective | socket++/smtp.cpp:87-107 | different texts are sent differently, whatever byte is past them |
| SmtpChunks.TwoChunks | socket++/smtp.cpp:87-107 | two calls send what one call for both texts sends, if and only if after an LF the byte past the first text is no period, and elsewhere the second text does not start with one |
| SmtpChunks.SendChunks | socket++/smtp.cpp:144-149 | any chunks, with any bytes past them, go out as the whole text's encoding and one period more for each boundary inside a line before a period and each LF that a period is past; equal if and only if there are none |
| SmtpChunks.ScanDecodes | socket++/smtp.cpp:87-107 | the line-by-line receiver of section 4.5.2 of RFC 821 is an automaton that takes one byte after the other |
| SmtpChunks.ChunkedSending | socket++/smtp.cpp:120-160 | for any chunks and any bytes past them: what the receiver gets; and it gets exactly the whole text if and only if no chunk starts with a period inside a line, or with a period or LF after a stray period, and no stray period is last |
| SmtpChunks.LostEndings | socket++/smtp.cpp:98-107 | two inputs whose stray period takes the text's last LF, or ends the text before its second chunk |
| SmtpChunks.ReadIntoBuffer | socket++/smtp.cpp:131-149 | a read overwrites the start of the buffer, and the byte past the chunk is what was there before |
| SmtpChunks.StaleByte | socket++/smtp.cpp:131-149 | a longer read followed by one that ends in LF where the first had a period never arrives intact |
| SmtpServer.ReceiveAppend | socket++/smtp.cpp:109-114 | once a message's end was seen, more bytes only add to what is left over |
| SmtpServer.EventsAppend | socket++/smtp.cpp:47-59 | from a prompt on, the server takes what follows by itself: what was heard is kept, what comes is heard in addition |
| SmtpServer.OneCommand | socket++/smtp.cpp:47-55 | a command line without a CR LF inside, other than DATA, is heard as one command and leaves the server at its prompt |
| SmtpServer.DataMessage | socket++/smtp.cpp:109-118 | DATA, when it is accepted, and an encoded text are heard as one command and one message, the text unchanged, and leave the server at its prompt; a text that ends in LF before a period loses the LF, and the period is heard as a command |
| SmtpServer.RefusedText | socket++/smtp.cpp:109-118 | after a refused DATA, for any server and any text, exactly what the server hears of the text, and that it is back at its prompt |
| SmtpServer.TextOnWire | socket++/smtp.cpp:87-114 | what goes out for a text, spelled out: its lines, none holding an LF, each with a period before it if and only if it starts with one, then a line with a period, all ended by CR LF |
| SmtpServer.LinesHeard | socket++/smtp.cpp:87-114 | a text heard at the prompt: each line as it goes out is a command, up to one that reads DATA and is accepted, after which the rest is a message |
| SmtpServer.HeardByLine | socket++/smtp.cpp:87-114 | when no line that reads DATA is accepted, the lines, stuffed, and the period at the end are the commands |
| SmtpServer.Server.Serve | socket++/smtp.cpp:56-58 | the server's replies that have arrived are one for the greeting and one per command and message |
| Protocol.LineEnd | socket++/smtp.cpp:33-40 | the search for CR LF stops one past the first pair, or at n+1 when there is none |
| Protocol.NextBytes | socket++/ftp.cpp:100 | underflow at the start of a turn reads only when nothing is unread; what it reads is the next bytes of the stream |
| Protocol.Pass | socket++/ftp.cpp:115-117 | writes exactly the next i bytes to the output and takes exactly those off the stream |
| Protocol.BufferLine | socket++/ftp.cpp:99-103 | with whole lines per read, or the line already buffered, after underflow the next line is buffered and the five-byte guard holds, so the loop cannot spin |
| Protocol.Put | socket++/smtp.cpp:49-54 | a part is appended to what was sent; if a write fails a prefix of the line has gone into the stream |
| SmtpReply.LoopExactly | socket++/smtp.cpp:20-45 | for every reply and every cutting of the bytes into reads, after enough turns: exactly the reply is printed and taken if and only if no read ends inside one of its lines; otherwise the loop is still running, or has stopped with the last line not taken |
| SmtpReply.CutReplies | socket++/smtp.cpp:24-43 | on a reply cut after three bytes the loop runs for any number of turns; cut after five it is left unread |
| Smtp.SmtpBuf.LoopTurn | socket++/smtp.cpp:25-43 | whatever is unread, spelled out: below five bytes nothing happens; else the first line, if it is there whole, is printed and stepped over, and the loop stops if and only if the fourth byte is no hyphen |
| Smtp.SmtpBuf.Turns | socket++/smtp.cpp:24-44 | for any bytes and any reads, n turns leave the class exactly where n turns of the loop function on exactly the bytes that arrived put it, with the same bytes printed; waiting only when underflow returned EOF or threw |
| Smtp.SmtpBuf.ReplyTurns | socket++/smtp.cpp:20-45 | with a reply next in the stream and any reads, the loop has stopped after as many turns as there are lines, with exactly the reply printed and taken, if and only if no read ended inside a line; otherwise it runs on, or stopped before the last line |
| Smtp.SmtpBuf.TakeLine | socket++/smtp.cpp:29-43 | one turn of the loop consumes one line and stops exactly at the reply's last |
| Smtp.SmtpBuf.GetResponse | socket++/smtp.cpp:20-45 | terminates; consumes and prints exactly one multi-line reply across any number of reads and leaves the rest; if a read fails, whole lines have been consumed and printed |
| Smtp.SmtpBuf.SendLine | socket++/smtp.cpp:47-55 | exactly the command line is appended and flushed; if a write fails a prefix of it was accepted |
| Smtp.SmtpBuf.SendBuf | socket++/smtp.cpp:87-107 | the loop emits exactly the encoding; if a write fails, a prefix of it |
| Smtp.SmtpBuf.SendFile | socket++/smtp.cpp:131-149 | the reading loop emits the encodings of what the reads bring, one after the other, each with the byte that the 1024-byte buffer then holds past it; the whole file unless a read fails |
| Smtp.SmtpBuf.SendBody | socket++/smtp.cpp:112-114 | text and terminator are sent and flushed |
| Smtp.SmtpBuf.TakeReply | socket++/smtp.cpp:56-58 | the next reply is read and printed, however many replies the client is behind |
| Smtp.SmtpBuf.SendCmd | socket++/smtp.cpp:47-59 | one line out and one reply in, or none in without an output: with one, as many replies are unread afterwards as before |
| Smtp.SmtpBuf.Helo | socket++/smtp.cpp:61-66 | HELO is heard; takes two replies, the greeting's and its own, or none without an output |
| Smtp.SmtpBuf.Mail | socket++/smtp.cpp:68-74 | the server hears one MAIL command, with an empty path for a null one |
| Smtp.SmtpBuf.Rcpt | socket++/smtp.cpp:76-80 | the server hears one RCPT command, or nothing for a null path |
| Smtp.SmtpBuf.Verb | socket++/smtp.cpp:82-85 | the server hears the verb with its optional argument |
| Smtp.SmtpBuf.DataText | socket++/smtp.cpp:109-118 | for any server and any text: the bytes sent are "DATA", CR LF, the encoded text and the terminator; exactly what the server hears; two replies are read, or none without an output; a client in step is in step afterwards if and only if it has an output, DATA is accepted and the text does not end in LF before a period |
| Smtp.SmtpBuf.Session | socket++/smtp.cpp:20-118 | over any session that starts with helo, with any server, DATA refused or not, with or without an output: exactly what the server hears; the client has printed the server's first replies in order, and exactly how many are left unread; none if and only if there is an output, every DATA is accepted and no text ends in LF before a period |
| Smtp.Unread | socket++/smtp.cpp:47-118 | what a session leaves unread is what is heard less what is read: the sum over its texts, which is zero if and only if all are heard well |
| Smtp.OneTextRefused | socket++/smtp.cpp:109-118 | a one-line text whose DATA is refused leaves one reply unread |
| Smtp.DataExchange | socket++/smtp.cpp:109-118 | DATA and the text make the server hear what DataHeard says, owe a reply for each, and come back to its prompt |
| FtpReply.LoopExactly | socket++/ftp.cpp:95-130 | for every reply, short middle lines included, and every cutting of the bytes into reads, after enough turns: exactly the reply is printed and taken, and its code kept, if and only if no read ends inside one of its lines or less than five bytes after the start of one; otherwise the first such read decides: the loop steps past the get area if five bytes of the line are there, and runs on if not |
| FtpReply.CutReplies | socket++/ftp.cpp:100-117 | on a reply cut after three bytes the loop runs for any number of turns; cut after five it steps past the end |
| FtpReply.ShortLine | socket++/ftp.cpp:124-125 | comparing four bytes as strncmp does decides rightly even when the line is shorter |
| Ftp.FtpBuf.LoopTurn | socket++/ftp.cpp:101-126 | whatever is unread, NULs included, spelled out: below five bytes nothing happens; without a CR LF it is about to overrun; else the first line is printed and stepped over, a first line's code is kept and stops the loop if and only if a space follows it, and a later line stops it if and only if it starts with the code and a space as strncmp compares them |
| Ftp.FtpBuf.CopyCode | socket++/ftp.cpp:120-121 | three bytes, each NUL if a NUL comes before it, and a space |
| Ftp.FtpBuf.SameCode | socket++/ftp.cpp:125 | true exactly when each of the four bytes that no NUL comes before is the code's, or the space |
| Ftp.FtpBuf.Turns | socket++/ftp.cpp:99-127 | for any bytes and any reads, n turns leave the class, and its reply code, exactly where n turns of the loop function on exactly the bytes that arrived put it, with the same bytes printed; waiting only when underflow returned EOF or threw |
| Ftp.FtpBuf.ReplyTurns | socket++/ftp.cpp:95-130 | with a reply next in the stream and any reads, the loop has stopped after as many turns as there are lines, with exactly the reply printed and taken and its first digit returned, if and only if no read cut it; otherwise the first cut decides whether it is about to step past the get area or runs on |
| Ftp.FtpBuf.TakeLine | socket++/ftp.cpp:105-126 | with a reply's line buffered, it is taken whole, and the loop stops exactly at the reply's last line |
| Ftp.FtpBuf.GetResponse | socket++/ftp.cpp:95-130 | terminates; consumes and copies exactly one reply, leaves the rest, returns the code's first digit |
| Ftp.FtpBuf.ReadReply | socket++/ftp.cpp:95-130 | when nothing follows the reply, all of it is taken and nothing is left |
| Ftp.FtpBuf.SendLine | socket++/ftp.cpp:135-141 | exactly the command line is appended and flushed; if a write fails a prefix of it was accepted |
| Ftp.FtpBuf.SendCmd | socket++/ftp.cpp:132-144 | one line out, one reply in, its first digit returned; after an exception, which needs a failing call, a prefix of the line was accepted |
| Ftp.FtpBuf.SendPort | socket++/ftp.cpp:168-197 | sends "PORT", a space, and an argument that parses to the address and port; for 0.0.0.0 it parses to the local host's address, or the call throws and sends nothing; otherwise it throws only if a write fails |
| Ftp.PortLineParses | socket++/ftp.cpp:181-196 | the PORT line on the wire parses to the requested address and port |
| FtpPort.PortExample | socket++/ftp.cpp:186-194 | address 10.0.0.5 and port 10000 give 10,0,0,5,39,16 |
| FtpPort.ByteDecimal | socket++/ftp.cpp:194 | a byte is printed in decimal with one to three digits and no leading zero |
| FtpPort.PortRoundTrip | socket++/ftp.cpp:186-194 | for all octets and ports the argument parses as h1,h2,h3,h4,p1,p2 to the same octets, and p1*256+p2 is the port |
| FtpPort.NumberDecimal | socket++/ftp.cpp:194 | a number printed with %d reads back |
| FtpPort.PortArgFits | socket++/ftp.cpp:184 | the 80-byte buffer is large enough |
| FtpPort.DotsToCommas | socket++/ftp.cpp:188-189 | the strchr loop terminates with every dot, and nothing else, replaced |
| FtpPort.BuildPortArg | socket++/ftp.cpp:184-194 | the C string built in place is the argument |
| Ftp.SendFile | socket++/ftp.cpp:77-86 | however the file is cut into reads of up to 1024 bytes, all that could be read goes into the data connection and "write error" is never printed; that is the whole file unless a read fails, which looks like its end; if a write fails, a prefix of what was read |
| Ftp.Upload | socket++/ftp.cpp:74-90 | after the data connection's destruction its wire content is what was read of the file: all of it unless a read failed |
| FtpSession.Client.Command | socket++/ftp.cpp:132-144 | the bytes sent are the command, a space and the argument if there is one, and CR LF; the server hears that line more, and the client has read its reply and returns the first digit |
| FtpSession.Client.UserAddr | socket++/ftp.cpp:168-197 | likewise for PORT with the offered address |
| FtpSession.Client.Rename | socket++/ftp.cpp:297-306 | RNFR is heard, and RNTO too if and only if the reply to RNFR starts with a digit below 4; a reply is read for each |
| FtpSession.RenameReplies | socket++/ftp.cpp:302-305 | a 350 answer to RNFR leads to RNTO, a 550 answer does not |
| FtpSession.Client.PutFile | socket++/ftp.cpp:52-93 | PORT with the offered address and then the command are heard; the server gets the whole file, and a third reply is read, if and only if PORT was not refused and the command's reply starts with 1; the client waits if and only if that reply is no error and the server does not connect |
| FtpSession.Client.Session | socket++/ftp.cpp:52-321 | over any sequence of commands, renames and uploads after the greeting, with or without an output stream: the server has heard exactly the lines and got exactly the files that are expected, the client has read every reply it is owed, in order, none early and none left unread, and waits only if expected |
| FtpSession.WaitsExactly | socket++/ftp.cpp:57-75 | a session is left waiting if and only if, for one of its uploads, the command was not refused but PORT was or no transfer was announced |
| FtpSession.PortRefused | socket++/ftp.cpp:57-75 | an upload whose PORT is refused and whose transfer is announced is left waiting |
| Fork.ForkList.Construct | socket++/fork.cpp:44-79 | the parent's list gets the child at its head; a forked child's list is emptied, nobody is signalled or waited for; a failed fork lists nothing, and only a fork that may fail does |
| Fork.ForkList.Abandon | socket++/fork.cpp:61-69 | the child deletes every node of its copy, each with pid 0, so that nobody is signalled or waited for |
| Fork.ForkList.Relink | socket++/fork.cpp:88-97 | removal from the head or the middle makes the links pass over the node and changes no other order |
| Fork.ForkList.Delete | socket++/fork.cpp:81-99 | a node with a pid is ended and unlinked; one whose pid was set to 0 or -1 is only released: no list, signal or wait is touched |
| Fork.ForkList.Destroy | socket++/fork.cpp:81-99 | the list is the old one without the node; the child was signalled if asked for and then waited for; list and kernel agree |
| Fork.ForkList.ReaperNohang | socket++/fork.cpp:132-160 | if any child has died, exactly one that has is waited for, and leaves the list if it is in it; the dead children still listed are those of before but this one; for any other signal, or none dead, nothing changes |
| Fork.OneWaitIsEnough | socket++/fork.cpp:139 | after any SIGCHLD step, whichever child the kernel names, no dead child is listed, if and only if before it none was or only one child had died |
| Fork.OneStaysListed | socket++/fork.cpp:139 | two listed children have died: after one SIGCHLD one of them is still listed |
| Fork.ForkList.Remove | socket++/fork.cpp:140-158 | the search finds the node with the pid, wherever it is, and unlinks it; otherwise no node has that pid |
| Fork.ForkList.CommitSuicideHandler | socket++/fork.cpp:162-173 | terminates with an empty list; every child got exactly one signal and then one wait, in list order, although each deletion rewrites the list being walked |
| Fork.ForkList.Run | socket++/fork.cpp:44-160 | over any sequence of forks, deletions, deaths and SIGCHLDs the list is acyclic, without freed nodes, and agrees with the kernel at every moment; each step changes list and kernel in exactly its own way: a fork that does not fail lists the child, and a SIGCHLD reaps a dead child if there is one |
| Fork.EndingsOnce | socket++/fork.cpp:166-173 | with distinct pids the record holds one signal and one wait per child, the wait right after the signal, and no other event for that pid |
| Fork.AgreesWaited | socket++/fork.cpp:88-97 | waiting for a child and unlinking its node keep list and kernel in agreement |
| Fork.AgreesForked | socket++/fork.cpp:57-59 | listing a new child keeps them in agreement |
| Sig.Registry.Set | socket++/sig.cpp:48-90 | true exactly for a new handler, which is then last; the first one installs the library's action with an empty mask and no flags, unless it is installed; it throws only for a signal without handlers that is invalid, or that the kernel may refuse and the library did not have, and then nothing is registered; other signals' lists and actions are unchanged |
| Sig.Registry.Unset | socket++/sig.cpp:92-105 | true exactly for a registered handler, which is then gone, the others staying in order |
| Sig.Registry.Unbind | socket++/sig.cpp:107-128 | the list is empty, even if resetting the action fails, which needs a kernel that may refuse; the library's own action becomes the default one with an empty mask; another's stays, and so does every other signal's |
| Sig.Registry.Mask | socket++/sig.cpp:149-160 | the signal's action is the library's with sigb added to its mask, or to an empty one if the action was another's; no other signal's action changes, and none on failure, which needs an invalid signal or a kernel that may refuse |
| Sig.Registry.Unmask | socket++/sig.cpp:162-174 | likewise with sigb taken out of the mask |
| Sig.Registry.Kill | socket++/sig.cpp:218-225 | every registered handler is called once with the signal, in order of registration |
| Sig.Registry.Run | socket++/sig.cpp:48-225 | over any sequence of operations each list holds exactly the handlers then registered, in order of registration, and a nonempty list implies that the library's handler is installed; each operation registers, removes, calls and installs exactly what it should, and fails only where the kernel may refuse; if it may refuse no registration, all are made |
| Sig.NoneTwice | socket++/sig.cpp:84-89 | no handler is listed twice |
| Sig.Adding | socket++/sig.cpp:80-87 | appending a new handler keeps the list in order of registration |
| Sig.Removing | socket++/sig.cpp:98-102 | erasing a handler keeps the rest in order, and exactly it stops being registered |
| Echo.EchoChunk | socket++/echo.cpp:55-60 | a chunk is written whole, or a prefix of it is and a write failed; the inner loop, which never advances its buffer, runs once |
| Echo.ServeClient | socket++/echo.cpp:53-61 | what is written is always a prefix of what was read, equals it each time the outer test is reached, and equals all that came when the client has finished; an exception needs a failing call, or a client that goes silent after everything was echoed |

## Left out

- KillForks::~KillForks: it reads a node's `next` after deleting the node, so it has no defined behaviour to model.
- ForkProcess::kill_process: it reaps a child without unlinking its node, so list and kernel disagree afterwards.
- A SIGCHLD handler that interrupts another list operation: handlers are taken as atomic steps.
- Fork handles (`Fork::~Fork`) that outlive a process object the reaper has freed; the printing of exit reasons.
- The receiving half of `ftpdata`: its loop waits for EOF from `sgetn`, which returns 0 at end of file, so it does not end.
- `filelikebuf`, `pipestream` and `processstream`: an unfinished duplicate of `sockbuf`.
- `data (filename)`: opening and closing the file, the loop over standard input when it cannot be opened, and the exchange of DATA around it; the reading loop and what it sends are modelled.
- Fork.ForkList.Run: deletion is by position in the list, standing for a caller's pointer to a listed node.
- Smtp.SmtpBuf.GetResponse: asks for whole lines per read, without which the loop need not end; what it does for any reads is in Smtp.SmtpBuf.Turns and Smtp.SmtpBuf.ReplyTurns.
- Ftp.FtpBuf.GetResponse: asks for whole lines per read or the whole reply buffered, likewise; the general case is in Ftp.FtpBuf.Turns and Ftp.FtpBuf.ReplyTurns, which end where the code would step past the get area.
- Smtp.SmtpBuf.Session: `help`, `vrfy`, `expn`, `quit`, `turn`, `rset` and `noop` share one member, `Verb`; the server answers each command and message once, and does not close the connection.
- FtpSession.Client.Session: the server sends one reply to each line and one when a data connection is closed, and opens one exactly when it refused no PORT and announced the transfer; neither connection fails, and the file's reads do not; opening the local file and the choice of a free port are not modelled.
- `data ()`, which sends the bare DATA command and leaves the text to the caller.
- Smtp.SmtpBuf.SendBuf: the null buffer and a negative length, for which the source returns at once, are the empty text.
- Sig.Registry.Kill: handlers do not edit the list they are called from, and what a handler does is not modelled.
- Single-signal masks, `sysresume`, pending signals; the branch for systems without `sigaction`.
- `send`, `sendto`, `recv` and the message calls: the same loops as `write` and `read`, or plain forwarding.
- Freeing of the areas, exceptions that leave destructors, and the Winsock branches.
- Socket options, ioctl wrappers, name resolution and address classes, error classification, stream class constructors.
