/** socket++/smtp.cpp: the client's reply reader, its commands, and whole sessions against a server
    that reads what the client sent by RFC 821. */
module Smtp {
  import opened Lines
  import opened Sockets
  import opened SockStream
  import opened SmtpData
  import opened SmtpChunks
  import opened Protocol
  import opened SmtpServer
  import opened SmtpReply
  import opened ReplyReads

  ghost predicate Fits(lines: seq<seq<char>>, size: nat) {
    forall i :: 0 <= i < |lines| ==> |lines[i]| <= size
  }

  /** Every reply of the server is well formed, with no line longer than size. */
  ghost predicate ProperReplies(reply: nat -> seq<seq<char>>, size: nat) {
    forall i: nat :: IsReply(reply(i)) && Fits(reply(i), size)
  }

  /** What send_cmd sends. */
  function Line(cmd: seq<char>, s: Option<seq<char>>, p: Option<seq<char>>): seq<char> {
    cmd + OrEmpty(s) + OrEmpty(p) + CRLF
  }

  class SmtpBuf {
    const sb: Sockbuf
    const output: Output?
    const server: Server   // the host sb is connected to; it acts while the client waits for a reply

    constructor (sb: Sockbuf, output: Output?, server: Server)
      ensures this.sb == sb && this.output == output && this.server == server
    {
      this.sb, this.output, this.server := sb, output, server;
    }

    /** send_cmd up to and including sync. */
    method SendLine(cmd: seq<char>, s: Option<seq<char>>, p: Option<seq<char>>) returns (r: Res<()>)
      requires sb.Valid()
      modifies sb`pptr, sb`epptr, sb.pbuf, sb.rep.sock`sent
      ensures sb.Valid() && Went(old(sb.OutStream()), Kept(sb, Line(cmd, s, p)), sb.OutStream(), r.Returned?)
      ensures r.Returned? ==> sb.Pending() == []
      ensures r.Threw? ==> sb.rep.sock.writesFail
    {
      hide Went;
      ghost var before, line := sb.OutStream(), Line(cmd, s, p);
      var _ :- Put(sb, cmd, before, [], line);
      var _ :- PutOption(sb, s, before, cmd, line);
      var _ :- PutOption(sb, p, before, cmd + OrEmpty(s), line);
      r := Finish(sb, before, cmd + OrEmpty(s) + OrEmpty(p));
    }

    /** Where the reader stands when line k of a reply is next: the kernel delivers whole lines, and the
        get area holds whole lines or nothing. */
    ghost predicate AtLine(lines: seq<seq<char>>, k: nat, rest: seq<char>)
      reads sb, sb.rep, sb.rep.sock, sb.gbuf
    {
      && sb.Valid() && sb.gbuf != null && sb.rep.sock.lineReads && Fits(lines, sb.gbuf.Length)
      && k <= |lines| && sb.InStream() == Flatten(lines[k..]) + rest && LinesOnly(sb.Unread())
    }

    /** underflow as get_response uses it. */
    method Await(ghost lines: seq<seq<char>>, ghost k: nat, ghost rest: seq<char>) returns (u: Res<IntType>)
      requires IsReply(lines) && k < |lines| && AtLine(lines, k, rest)
      modifies sb`gptr, sb`egptr, sb.gbuf, sb.rep.sock`taken
      ensures AtLine(lines, k, rest)
      ensures u.Threw? ==> sb.rep.sock.readsFail
      ensures u.Returned? ==> u.value != Eof && sb.egptr - sb.gptr >= 5 && LineBuffered(lines[k], sb.Unread())
      ensures u.Returned? ==> LinesOnly(sb.Unread()[|lines[k]|..])
    {
      NextLine(lines, k, rest);
      hide Flatten, IsReply, LineBuffered, LinesOnly;
      u := BufferLine(sb, lines[k], Flatten(lines[k + 1..]) + rest, false);
    }

    /** One turn of the loop of get_response, past underflow, whatever is unread. */
    method LoopTurn() returns (stop: bool)
      requires sb.Valid() && sb.gbuf != null
      modifies sb`gptr, output
      ensures sb.Valid() && stop == Turn(old(sb.Unread()), None).next.Stop?
      ensures sb.Unread() == Turn(old(sb.Unread()), None).left
      // spelled out, for any bytes
      ensures stop <==> |old(sb.Unread())| >= 5 && old(sb.Unread())[3] != '-'
      ensures var u := old(sb.Unread());
              if |u| < 5 || CrlfAt(u) == |u| then
                sb.Unread() == u && (output != null ==> output.text == old(output.text))
              else
                && sb.Unread() == u[CrlfAt(u) + 2..]
                && (output != null ==> output.text == old(output.text) + u[..CrlfAt(u) + 2])
      ensures Takes(old(sb.InStream()), Turn(old(sb.Unread()), None).got, sb.InStream())
      ensures output != null ==> output.text == old(output.text) + Turn(old(sb.Unread()), None).got
    {
      hide Takes, Turn, CrlfAt;
      TurnSpelled(sb.Unread(), None);
      OutputStays();
      var n := sb.egptr - sb.gptr;
      if n < 5 {
        TurnOnFew(sb.Unread());
        TakesNothing(sb.InStream());
        OutputStays();
        return false;
      }
      stop := LineTurn(n);
    }

    /** The same with n >= 5 bytes unread. */
    method LineTurn(n: nat) returns (stop: bool)
      requires sb.Valid() && sb.gbuf != null && n == |sb.Unread()| >= 5
      modifies sb`gptr, output
      ensures sb.Valid() && stop == Turn(old(sb.Unread()), None).next.Stop?
      ensures sb.Unread() == Turn(old(sb.Unread()), None).left
      ensures Takes(old(sb.InStream()), Turn(old(sb.Unread()), None).got, sb.InStream())
      ensures output != null ==> output.text == old(output.text) + Turn(old(sb.Unread()), None).got
    {
      hide *;
      var q := sb.gptr;
      ghost var unread := sb.Unread();
      ByteAt(q, n);
      var i := LineEnd(sb, n);
      TurnOnMany(unread, i);
      TakesNothing(sb.InStream());
      OutputStays();
      if i <= n {
        Pass(sb, output, i);
      }
      return sb.gbuf[q + 3] != '-';
    }

    lemma ByteAt(q: nat, n: nat)
      requires sb.Valid() && sb.gbuf != null && q == sb.gptr && n == |sb.Unread()| >= 5
      ensures q + n <= sb.gbuf.Length && sb.gbuf[q + 3] == sb.Unread()[3]
    {
    }

    lemma OutputStays()
      ensures output != null ==> output.text + [] == output.text
    {
    }

    lemma TurnOnFew(unread: seq<char>)
      requires |unread| < 5
      ensures Turn(unread, None) == Turned([], unread, None, GoOn)
    {
    }

    lemma TurnOnMany(unread: seq<char>, i: nat)
      requires |unread| >= 5 && i == if CrlfAt(unread) < |unread| then CrlfAt(unread) + 2 else |unread| + 1
      ensures var next := if unread[3] != '-' then Stop else GoOn;
              Turn(unread, None) == if i <= |unread| then Turned(unread[..i], unread[i..], None, next)
                                    else Turned([], unread, None, next)
    {
      hide CrlfAt;
      assert unread[0..] == unread;
    }

    /** A turn with the next line buffered: consumes line k and says whether to stop. */
    method TakeLine(ghost lines: seq<seq<char>>, ghost k: nat, ghost rest: seq<char>) returns (stop: bool)
      requires IsReply(lines) && k < |lines| && AtLine(lines, k, rest) && LineBuffered(lines[k], sb.Unread())
      requires LinesOnly(sb.Unread()[|lines[k]|..])
      modifies sb`gptr, output
      ensures AtLine(lines, k + 1, rest)
      ensures output != null ==> output.text == old(output.text) + lines[k]
      ensures stop <==> k + 1 == |lines|
    {
      NextLine(lines, k, rest);
      ghost var stream, line, more := sb.InStream(), lines[k], Flatten(lines[k + 1..]) + rest;
      TurnOnLine(line, more, sb.Unread(), sb.rep.sock.Queue(), None);
      hide IsReply, LineBuffered, Turn, Flatten, CrlfAt;
      stop := LoopTurn();
      TakesOnce(stream, line, more, sb.InStream());
    }

    lemma GoesOnOrStops(unread: seq<char>)
      ensures var next := Turn(unread, None).next;
              ProgressAfter(next) == if next.Stop? then Stopped else Running
      ensures Turn(unread, None).code == None
    {
      hide CrlfAt;
    }

    /** One more turn of a loop that stands here after i turns and those reads. It is Waiting when underflow
        returned EOF or threw r. */
    method MoreTurn(ghost i: nat, ghost first: seq<char>, ghost seen: seq<seq<char>>, ghost printed: seq<char>)
      returns (progress: Progress, r: Res<()>, ghost more: seq<seq<char>>, ghost got: seq<char>)
      requires sb.Valid() && sb.gbuf != null
      requires Loop(Turn, i, first, None, seen) == Stand(Running, printed, sb.Unread(), None, [])
      modifies output, sb`gptr, sb`egptr, sb.gbuf, sb.rep.sock`taken
      ensures sb.Valid() && Reads(more) && old(sb.rep.sock.taken) <= sb.rep.sock.taken
      ensures Loop(Turn, i + 1, first, None, seen + more) == Stand(progress, printed + got, sb.Unread(), None, [])
      ensures Flatten(more) == sb.rep.sock.arrived[old(sb.rep.sock.taken)..sb.rep.sock.taken]
      ensures Takes(old(sb.InStream()), got, sb.InStream())
      ensures output != null ==> output.text == old(output.text) + got
      ensures r.Threw? ==> progress.Waiting? && (sb.rep.sock.readsFail || (sb.InStream() == [] && !sb.rep.sock.ended))
      ensures r.Returned? && progress.Waiting? ==> sb.InStream() == [] && sb.rep.sock.ended
    {
      hide *;
      ghost var s := Loop(Turn, i, first, None, seen);
      var u;
      u, more := NextBytes(sb);
      if u.Threw? || u.value == Eof {
        NoMoreReads(Turn, i, first, None, seen, s);
        TakesNothing(sb.InStream());
        assert seen + [] == seen && printed + [] == printed;
        OutputStays();
        return Waiting, if u.Threw? then Threw(u.exn) else Returned(()), [], [];
      }
      ghost var t := Turn(sb.Unread(), None);
      OneMoreTurn(Turn, i, first, None, seen, s, more, sb.Unread());
      GoesOnOrStops(sb.Unread());
      var stop := LoopTurn();
      return if stop then Stopped else Running, Returned(()), more, t.got;
    }

    /** One more turn of a loop that stands here. */
    method NextTurn(ghost i: nat, ghost first: seq<char>, ghost stream: seq<char>, ghost start: nat,
        ghost seen: seq<seq<char>>, ghost printed: seq<char>)
      returns (progress: Progress, r: Res<()>, ghost more: seq<seq<char>>, ghost got: seq<char>)
      requires Standing(sb, Turn, i, first, stream, start, Running, false, seen, printed, None)
      modifies output, sb`gptr, sb`egptr, sb.gbuf, sb.rep.sock`taken
      ensures Standing(sb, Turn, i + 1, first, stream, start, progress, r.Threw?, seen + more, printed + got, None)
      ensures output != null ==> output.text == old(output.text) + got
    {
      hide Loop, Turn, Takes, Flatten, Reads;
      ghost var mark, mid := sb.rep.sock.taken, sb.InStream();
      progress, r, more, got := MoreTurn(i, first, seen, printed);
      TurnsJoin(sb.rep.sock.arrived, start, mark, sb.rep.sock.taken, seen, more);
      TakesTwice(stream, printed, mid, got, sb.InStream());
    }

    /** n turns of get_response's loop, unless it ends before, for any bytes and any reads. */
    method Turns(n: nat) returns (progress: Progress, r: Res<()>, ghost seen: seq<seq<char>>, ghost printed: seq<char>)
      requires sb.Valid() && sb.gbuf != null
      modifies output, sb`gptr, sb`egptr, sb.gbuf, sb.rep.sock`taken
      ensures Standing(sb, Turn, n, old(sb.Unread()), old(sb.InStream()), old(sb.rep.sock.taken), progress, r.Threw?,
                       seen, printed, None)
      ensures output != null ==> output.text == old(output.text) + printed
    {
      hide *;
      ghost var first, stream, start := sb.Unread(), sb.InStream(), sb.rep.sock.taken;
      ghost var text := if output == null then [] else output.text;
      seen, printed, progress, r := [], [], Running, Returned(());
      StandsAtFirst(sb, Turn);
      assert text + [] == text;
      var i := 0;
      while i < n && progress == Running
        invariant i <= n && Standing(sb, Turn, i, first, stream, start, progress, r.Threw?, seen, printed, None)
        invariant output != null ==> output.text == text + printed
      {
        NotYetThrown(sb, Turn, i, first, stream, start, r.Threw?, seen, printed, None);
        ghost var more, got;
        progress, r, more, got := NextTurn(i, first, stream, start, seen, printed);
        Associate(text, printed, got);
        seen, printed, i := seen + more, printed + got, i + 1;
      }
      if progress != Running {
        StandsFor(sb, Turn, i, n - i, first, stream, start, progress, r.Threw?, seen, printed, None);
      }
    }

    /** With a reply next in the stream, however the kernel cuts the stream into reads: after enough turns
        get_response has stopped with exactly the reply printed and taken, if and only if no read has ended
        inside one of the reply's lines. */
    method ReplyTurns(n: nat, ghost lines: seq<seq<char>>, ghost rest: seq<char>)
      returns (progress: Progress, r: Res<()>, ghost seen: seq<seq<char>>, ghost printed: seq<char>)
      requires sb.Valid() && sb.gbuf != null && IsReply(lines) && n >= |lines|
      requires sb.InStream() == Flatten(lines) + rest
      modifies output, sb`gptr, sb`egptr, sb.gbuf, sb.rep.sock`taken
      ensures sb.Valid() && Reads(seen) && old(sb.rep.sock.taken) <= sb.rep.sock.taken
      ensures Flatten(seen) == sb.rep.sock.arrived[old(sb.rep.sock.taken)..sb.rep.sock.taken]
      ensures output != null ==> output.text == old(output.text) + printed
      ensures r.Threw? ==> sb.rep.sock.readsFail
      ensures r.Returned? ==>
                var exactly := progress == Stopped && printed == Flatten(lines) && sb.InStream() == rest;
                exactly <==> Uncut(lines, |old(sb.Unread())|, seen)
      ensures r.Returned? && !Uncut(lines, |old(sb.Unread())|, seen) ==>
                var init, last := lines[..|lines| - 1], lines[|lines| - 1];
                if Uncut(Front(lines), |old(sb.Unread())|, seen)
                then progress == Stopped && printed == Flatten(init) && sb.InStream() == last + rest
                else progress == Running
    {
      hide Uncut, Flatten, Loop, IsReply, Front, Takes, Standing, Reads;
      ghost var first, start := sb.Unread(), sb.rep.sock.taken;
      progress, r, seen, printed := Turns(n);
      Decided(n, first, start, progress, r.Threw?, seen, printed, lines, rest);
      ButLastDiffers(lines);
    }

    lemma Decided(n: nat, first: seq<char>, start: nat, progress: Progress, threw: bool,
        seen: seq<seq<char>>, printed: seq<char>, lines: seq<seq<char>>, rest: seq<char>)
      requires Standing(sb, Turn, n, first, Flatten(lines) + rest, start, progress, threw, seen, printed, None)
      requires IsReply(lines) && n >= |lines|
      ensures sb.Valid() && Reads(seen) && start <= sb.rep.sock.taken
      ensures Flatten(seen) == sb.rep.sock.arrived[start..sb.rep.sock.taken]
      ensures threw ==> sb.rep.sock.readsFail
      ensures !threw ==>
                var init, last := lines[..|lines| - 1], lines[|lines| - 1];
                if Uncut(lines, |first|, seen)
                then progress == Stopped && printed == Flatten(lines) && sb.InStream() == rest
                else if Uncut(Front(lines), |first|, seen)
                then progress == Stopped && printed == Flatten(init) && sb.InStream() == last + rest
                else progress == Running
    {
      assert |lines| > 0;
      hide Standing, Loop, Turn, Reads, Uncut, IsReply, Front, Flatten, AsRead;
      Stood(sb, Turn, n, first, Flatten(lines) + rest, start, progress, threw, seen, printed, None);
      LoopSoFar(lines, rest, first, seen, sb.rep.sock.Queue(), n, Stand(progress, printed, sb.Unread(), None, []));
    }

    /** Consumes exactly one reply, across any number of reads, and copies it to output. k is the number
        of its lines consumed; it is less than all of them only when a read fails. */
    method GetResponse(ghost lines: seq<seq<char>>, ghost rest: seq<char>) returns (r: Res<()>, ghost k: nat)
      requires IsReply(lines) && AtLine(lines, 0, rest)
      modifies output, sb`gptr, sb`egptr, sb.gbuf, sb.rep.sock`taken
      ensures AtLine(lines, k, rest)
      ensures output != null ==> output.text == old(output.text) + Flatten(lines[..k])
      ensures r.Returned? ==> sb.Valid() && k == |lines| && sb.InStream() == rest
      ensures r.Threw? ==> k < |lines| && sb.rep.sock.readsFail
    {
      hide *;
      k := 0;
      ghost var printed := if output == null then [] else output.text;
      NoneTaken(lines, rest);
      while true
        invariant k < |lines| && AtLine(lines, k, rest)
        invariant output != null ==> output.text == printed + Flatten(lines[..k])
        decreases |lines| - k
      {
        var u := Await(lines, k, rest);
        if u.Threw? {
          return Threw(u.exn), k;
        }
        if u.value == Eof {
          break;
        }
        FlattenSnoc(lines, k);
        var stop := TakeLine(lines, k, rest);
        k := k + 1;
        if stop {
          break;
        }
      }
      AllTaken(lines, rest);
      return Returned(()), k;
    }

    lemma AllTaken(lines: seq<seq<char>>, rest: seq<char>)
      requires AtLine(lines, |lines|, rest)
      ensures sb.Valid() && sb.InStream() == rest && LinesOnly(sb.Unread())
    {
      assert lines[|lines|..] == [];
    }

    lemma NoneTaken(lines: seq<seq<char>>, rest: seq<char>)
      requires AtLine(lines, 0, rest)
      ensures Flatten(lines[..0]) == []
      ensures IsReply(lines) ==> |lines| > 0
    {
      assert lines[..0] == [];
    }

    /** send_buf: the text, with the byte past its end, goes out encoded. */
    method SendBuf(text: seq<char>, past: char) returns (r: Res<()>)
      requires sb.Valid()
      modifies sb`pptr, sb`epptr, sb.pbuf, sb.rep.sock`sent
      ensures sb.Valid() && Went(old(sb.OutStream()), Kept(sb, Encode(text, past)), sb.OutStream(), r.Returned?)
      ensures r.Threw? ==> sb.rep.sock.writesFail
    {
      if |text| <= 0 {
        return Returned(());
      }
      ghost var before, wire := sb.OutStream(), Encode(text, past);
      ghost var done := DotIf(StartsWithDot(text));
      if text[0] == '.' {
        var _ :- PutChar(sb, '.', before, [], wire);
      }
      for i := 0 to |text|
        invariant sb.Valid() && sb.OutStream() == before + Kept(sb, done)
        invariant done + EncodeBytes(text[i..], past) == wire
      {
        var _ :- SendByte(text, past, i, before, done, wire);
        done := done + EncodeByte(text[i], text[i + 1..], past);
      }
      assert done == wire;
      return Returned(());
    }

    /** The loop of data (filename). The chunks are what the reads bring; the byte past a chunk is what
        earlier reads left in the buffer, or lies past the buffer's end. */
    method SendFile(f: File) returns (r: Res<()>, ghost initial: seq<char>, ghost chunks: seq<Chunk>)
      requires sb.Valid() && f.Valid()
      modifies f`pos, sb`pptr, sb`epptr, sb.pbuf, sb.rep.sock`sent
      ensures sb.Valid() && f.Valid() && |initial| == 1024 && FromBuffer(initial, chunks)
      ensures f.Taken() == old(f.Taken()) + Whole(chunks)
      ensures Went(old(sb.OutStream()), Kept(sb, SendAll(chunks)), sb.OutStream(), r.Returned?)
      ensures r.Threw? ==> sb.rep.sock.writesFail
      ensures r.Returned? && !f.readsFail ==> f.Taken() == f.data
    {
      hide SendAll, Whole, Stored, FromBuffer, Fit, Kept, Went, Encode;
      ghost var before, start := sb.OutStream(), f.Taken();
      var buf := new char[1024];
      initial, chunks := buf[..], [];
      NoChunks(before, initial, start);
      while true
        invariant sb.Valid() && f.Valid() && |initial| == 1024 && Fit(chunks, 1024) && FromBuffer(initial, chunks)
        invariant sb.OutStream() == before + Kept(sb, SendAll(chunks))
        invariant f.Taken() == start + Whole(chunks) && StoredIs(initial, chunks, buf[..])
        decreases |f.data| - f.pos
      {
        ghost var was := buf[..];
        var rcnt := f.Read(buf, 1024);
        if rcnt <= 0 {
          break;
        }
        var beyond: char := *;
        var past := if rcnt < 1024 then buf[rcnt] else beyond;
        ghost var c, mid := Chunk(buf[..rcnt], past), sb.OutStream();
        Brought(initial, chunks, c, was, buf[..]);
        Associate(start, Whole(chunks), c.text);
        r := SendBuf(buf[..rcnt], past);
        OneChunk(chunks + [c], |chunks|, before, mid, r.Returned?);
        chunks := chunks + [c];
        if r.Threw? {
          return;
        }
      }
      WentAll(before, Kept(sb, SendAll(chunks)));
      return Returned(()), initial, chunks;
    }

    ghost predicate StoredIs(initial: seq<char>, chunks: seq<Chunk>, buf: seq<char>) {
      Fit(chunks, |initial|) && Stored(initial, chunks) == buf
    }

    /** A read has brought c, and left the rest of the buffer. */
    lemma {:induction false} Brought(initial: seq<char>, chunks: seq<Chunk>, c: Chunk, was: seq<char>, buf: seq<char>)
      requires FromBuffer(initial, chunks) && StoredIs(initial, chunks, was)
      requires |initial| == |was| == |buf| && 0 < |c.text| <= |buf|
      requires c.text == buf[..|c.text|] && buf[|c.text|..] == was[|c.text|..]
      requires |c.text| < |buf| ==> c.past == buf[|c.text|]
      ensures FromBuffer(initial, chunks + [c]) && Fit(chunks + [c], |initial|) && StoredIs(initial, chunks + [c], buf)
      ensures Whole(chunks + [c]) == Whole(chunks) + c.text
      ensures (chunks + [c])[..|chunks|] == chunks && (chunks + [c])[..|chunks| + 1] == chunks + [c]
    {
      var n := |c.text|;
      assert n < |buf| ==> buf[n] == buf[n..][0] == was[n..][0] == was[n];
      assert buf == buf[..n] + buf[n..];
      ReadIntoBuffer(initial, chunks, c);
    }

    lemma NoChunks(before: seq<char>, initial: seq<char>, start: seq<char>)
      ensures before == before + Kept(sb, SendAll([])) && FromBuffer(initial, []) && start + Whole([]) == start
      ensures StoredIs(initial, [], initial) && Fit([], 1024)
    {
      assert start + [] == start;
    }

    lemma OneChunk(chunks: seq<Chunk>, i: nat, before: seq<char>, mid: seq<char>, done: bool)
      requires sb.Valid() && i < |chunks| && mid == before + Kept(sb, SendAll(chunks[..i]))
      requires Went(mid, Kept(sb, Encode(chunks[i].text, chunks[i].past)), sb.OutStream(), done)
      ensures done ==> sb.OutStream() == before + Kept(sb, SendAll(chunks[..i + 1]))
      ensures !done ==> Went(before, Kept(sb, SendAll(chunks)), sb.OutStream(), false)
    {
      hide *;
      var all, one := SendAll(chunks[..i]), Encode(chunks[i].text, chunks[i].past);
      SendAllNext(chunks, i);
      SendAllGrows(chunks, i + 1);
      KeptBoth(sb, before, all, one);
      KeptBoth(sb, before, all + one, SendAll(chunks));
      if done {
        WentDone(mid, Kept(sb, one), sb.OutStream());
      } else {
        WentPart(before, Kept(sb, all), Kept(sb, one), Kept(sb, SendAll(chunks)), sb.OutStream());
      }
    }

    /** One turn of send_buf's loop. */
    method SendByte(text: seq<char>, past: char, i: nat, ghost before: seq<char>, ghost done: seq<char>,
        ghost wire: seq<char>)
      returns (r: Res<()>)
      requires sb.Valid() && sb.OutStream() == before + Kept(sb, done)
      requires i < |text| && done + EncodeBytes(text[i..], past) == wire
      modifies sb`pptr, sb`epptr, sb.pbuf, sb.rep.sock`sent
      ensures sb.Valid()
      ensures r.Returned? ==> sb.OutStream() == before + Kept(sb, done + EncodeByte(text[i], text[i + 1..], past))
      ensures done + EncodeByte(text[i], text[i + 1..], past) + EncodeBytes(text[i + 1..], past) == wire
      ensures r.Threw? ==> sb.rep.sock.writesFail && Went(before, Kept(sb, wire), sb.OutStream(), false)
    {
      ghost var bytes := EncodeByte(text[i], text[i + 1..], past);
      assert done + bytes + EncodeBytes(text[i + 1..], past) == wire;
      assert done + bytes <= wire;
      hide EncodeBytes;
      if text[i] == '\n' {
        r := SendLf(if i + 1 < |text| then text[i + 1] else past, before, done, wire);
      } else {
        r := PutChar(sb, text[i], before, done, wire);
      }
    }

    /** An LF, with the byte after it. */
    method SendLf(next: char, ghost before: seq<char>, ghost done: seq<char>, ghost wire: seq<char>)
      returns (r: Res<()>)
      requires sb.Valid() && sb.OutStream() == before + Kept(sb, done)
      requires done + (CRLF + DotIf(next == '.')) <= wire
      modifies sb`pptr, sb`epptr, sb.pbuf, sb.rep.sock`sent
      ensures sb.Valid()
      ensures r.Returned? ==> sb.OutStream() == before + Kept(sb, done + (CRLF + DotIf(next == '.')))
      ensures r.Threw? ==> sb.rep.sock.writesFail && Went(before, Kept(sb, wire), sb.OutStream(), false)
    {
      assert done + (CRLF + DotIf(next == '.')) == done + ['\r'] + ['\n'] + DotIf(next == '.');
      hide Went;
      var _ :- PutChar(sb, '\r', before, done, wire);
      var _ :- PutChar(sb, '\n', before, done + ['\r'], wire);
      if next == '.' {
        var _ :- PutChar(sb, '.', before, done + ['\r'] + ['\n'], wire);
      }
      return Returned(());
    }

    // -------------------------------------------------------------- with a server

    /** What talking to a server needs of the world: both areas there, a kernel that does not fail
        and hands over whole lines, and well-formed replies whose lines fit the get area. */
    ghost predicate Reliable()
      reads sb, sb.rep, sb.rep.sock
    {
      && sb.Valid() && sb.gbuf != null && sb.pbuf != null && server.sock == sb.rep.sock
      && !sb.rep.sock.writesFail && !sb.rep.sock.readsFail && sb.rep.sock.lineReads
      && ProperReplies(server.reply, sb.gbuf.Length)
    }

    /** Nothing is pending, and m replies have arrived; the first n of them have been read, and printed, if there
        is an output, after what was printed at first. */
    ghost predicate Lag(n: nat, m: nat, printed: seq<char>)
      reads sb, sb.rep, sb.rep.sock, sb.gbuf, sb.pbuf, output
    {
      && Reliable() && sb.Pending() == [] && LinesOnly(sb.Unread()) && n <= m
      && sb.rep.sock.arrived == ReplyText(server.reply, m)
      && ReplyText(server.reply, n) + sb.InStream() == sb.rep.sock.arrived
      && (output != null ==> output.text == printed + ReplyText(server.reply, n))
    }

    /** The server has sent all it owes, of which the first n replies have been read and printed. */
    ghost predicate Behind(n: nat, printed: seq<char>)
      reads sb, sb.rep, sb.rep.sock, sb.gbuf, sb.pbuf, output
    {
      Lag(n, Due(sb.rep.sock.sent, server.refuses), printed)
    }

    /** Everything the server owes for what was sent has arrived, and the client has read all of it. */
    ghost predicate InStep()
      reads sb, sb.rep, sb.rep.sock, sb.gbuf, sb.pbuf
    {
      && Reliable() && sb.Pending() == [] && sb.InStream() == []
      && sb.rep.sock.arrived == ReplyText(server.reply, Due(sb.rep.sock.sent, server.refuses))
    }

    /** The client is in step if and only if the replies it has read are all that the server owes. */
    lemma {:induction false} StepIff(n: nat, printed: seq<char>)
      requires Behind(n, printed)
      ensures InStep() <==> n == Due(sb.rep.sock.sent, server.refuses)
    {
      var total := Due(sb.rep.sock.sent, server.refuses);
      if n < total {
        SomeText(n);
        ReplyTextLonger(server.reply, n, total);
      }
      hide Due, ReplyText, ProperReplies;
      NothingLeft(ReplyText(server.reply, n), sb.InStream(), ReplyText(server.reply, total));
    }

    lemma {:induction false} NothingLeft(a: seq<char>, b: seq<char>, all: seq<char>)
      requires a + b == all
      ensures b == [] <==> |a| == |all|
    {
    }

    lemma {:induction false} SomeText(n: nat)
      requires Reliable()
      ensures |Flatten(server.reply(n))| > 0
    {
      assert IsReply(server.reply(n));
      assert |server.reply(n)[0]| >= 5;
    }

    /** get_response, with a kernel that does not fail. */
    method ReadReply(ghost lines: seq<seq<char>>, ghost rest: seq<char>)
      requires IsReply(lines) && AtLine(lines, 0, rest) && !sb.rep.sock.readsFail && output != null
      modifies output, sb`gptr, sb`egptr, sb.gbuf, sb.rep.sock`taken
      ensures sb.Valid() && sb.InStream() == rest && LinesOnly(sb.Unread())
      ensures output.text == old(output.text) + Flatten(lines)
    {
      hide *;
      var _, k := GetResponse(lines, rest);
      assert lines[..|lines|] == lines;
      AllTaken(lines, rest);
    }

    /** More replies come in. */
    lemma {:induction false} StreamGrows(read: seq<char>, unread: seq<char>, before: seq<char>, after: seq<char>,
        taken: nat)
      requires taken <= |before| && before <= after && read + (unread + before[taken..]) == before
      ensures read + (unread + after[taken..]) == after
    {
      var more := after[|before|..];
      assert after == before + more && after[taken..] == before[taken..] + more;
      Associate(unread, before[taken..], more);
      Associate(read, unread + before[taken..], more);
    }

    lemma {:induction false} ReplyNext(n: nat, rest: seq<char>)
      requires Reliable() && LinesOnly(sb.Unread()) && sb.InStream() == Flatten(server.reply(n)) + rest
      ensures IsReply(server.reply(n)) && AtLine(server.reply(n), 0, rest)
    {
      var lines := server.reply(n);
      assert IsReply(lines) && Fits(lines, sb.gbuf.Length);
      assert lines[0..] == lines && 0 <= |lines|;
      hide Flatten, IsReply;
    }

    /** The server's replies come, up to all it owes. */
    method ServerActs(ghost n: nat, ghost m: nat, ghost printed: seq<char>)
      requires Lag(n, m, printed) && m <= Due(sb.rep.sock.sent, server.refuses)
      modifies sb.rep.sock`arrived
      ensures Behind(n, printed)
    {
      hide Due, ProperReplies, ReplyText, LinesOnly;
      ghost var before := sb.rep.sock.arrived;
      ReplyTextGrows(server.reply, m, Due(sb.rep.sock.sent, server.refuses));
      server.Serve(m);
      StreamGrows(ReplyText(server.reply, n), sb.Unread(), before, sb.rep.sock.arrived, sb.rep.sock.taken);
    }

    /** The n-th reply is next; rest is what comes after it. */
    lemma {:induction false} NextReply(n: nat, printed: seq<char>) returns (rest: seq<char>)
      requires Behind(n, printed) && n < Due(sb.rep.sock.sent, server.refuses)
      ensures Reliable() && sb.rep.sock.arrived == ReplyText(server.reply, n + 1) + rest
      ensures ReplyText(server.reply, n + 1) == ReplyText(server.reply, n) + Flatten(server.reply(n))
      ensures IsReply(server.reply(n)) && AtLine(server.reply(n), 0, rest)
    {
      hide Due, AtLine, IsReply, Flatten, ProperReplies, ReplyText, LinesOnly;
      rest := ReplyTextRest(server.reply, n, Due(sb.rep.sock.sent, server.refuses));
      StreamFrom(ReplyText(server.reply, n), sb.InStream(), sb.rep.sock.arrived);
      ReplyNext(n, rest);
    }

    lemma {:induction false} StreamFrom(read: seq<char>, stream: seq<char>, arrived: seq<char>)
      requires read + stream == arrived
      ensures stream == arrived[|read|..]
    {
    }

    /** get_response reads the next reply. */
    method TakeReply(ghost n: nat, ghost printed: seq<char>)
      requires Behind(n, printed) && n < Due(sb.rep.sock.sent, server.refuses) && output != null
      modifies output, sb`gptr, sb`egptr, sb.gbuf, sb.rep.sock`taken
      ensures Behind(n + 1, printed)
    {
      hide Due, AtLine, IsReply, Flatten, ProperReplies, ReplyText, LinesOnly;
      ghost var lines, earlier := server.reply(n), ReplyText(server.reply, n);
      ghost var rest := NextReply(n, printed);
      ReadReply(lines, rest);
      Associate(printed, earlier, Flatten(lines));
    }

    lemma {:induction false} AllOut(n: nat, m: nat, printed: seq<char>)
      requires Lag(n, m, printed)
      ensures sb.Valid() && sb.pbuf != null && sb.OutStream() == sb.rep.sock.sent
    {
    }

    lemma {:induction false} AllSent(before: seq<char>, text: seq<char>)
      requires sb.Valid() && sb.pbuf != null && sb.Pending() == []
      requires Went(before, Kept(sb, text), sb.OutStream(), true)
      ensures sb.rep.sock.sent == before + text
    {
    }

    /** send_cmd, up to the reply. */
    method SayLine(cmd: seq<char>, s: Option<seq<char>>, p: Option<seq<char>>, ghost n: nat, ghost m: nat,
        ghost printed: seq<char>)
      requires Lag(n, m, printed)
      modifies sb`pptr, sb`epptr, sb.pbuf, sb.rep.sock`sent
      ensures Lag(n, m, printed) && sb.rep.sock.sent == old(sb.rep.sock.sent) + Line(cmd, s, p)
    {
      hide ReplyText, Line, ProperReplies, Went, LinesOnly;
      ghost var before := sb.rep.sock.sent;
      AllOut(n, m, printed);
      var _ := SendLine(cmd, s, p);
      AllSent(before, Line(cmd, s, p));
    }

    lemma OwedSoFar(n: nat, printed: seq<char>)
      ensures Behind(n, printed) <==> Lag(n, Due(sb.rep.sock.sent, server.refuses), printed)
      ensures Behind(n, printed) ==> n <= Due(sb.rep.sock.sent, server.refuses)
    {
      hide Due, ReplyText, ProperReplies;
    }

    /** send_cmd: without an output no reply is read. */
    method SendCmd(cmd: seq<char>, s: Option<seq<char>>, p: Option<seq<char>>, ghost n: nat, ghost printed: seq<char>)
      requires Behind(n, printed)
      requires Due(sb.rep.sock.sent + Line(cmd, s, p), server.refuses) > Due(sb.rep.sock.sent, server.refuses)
      modifies output, sb`gptr, sb`egptr, sb.gbuf, sb`pptr, sb`epptr, sb.pbuf
      modifies sb.rep.sock`sent, sb.rep.sock`taken, sb.rep.sock`arrived
      ensures Behind(n + if output != null then 1 else 0, printed)
      ensures sb.rep.sock.sent == old(sb.rep.sock.sent) + Line(cmd, s, p)
    {
      hide *;
      ghost var due := Due(sb.rep.sock.sent, server.refuses);
      OwedSoFar(n, printed);
      SayLine(cmd, s, p, n, due, printed);
      ServerActs(n, due, printed);
      if output != null {
        TakeReply(n, printed);
      }
    }

    /** The server waits for a command, and the first n replies it owes have been read and printed. */
    ghost predicate InSession(n: nat, printed: seq<char>)
      reads sb, sb.rep, sb.rep.sock, sb.gbuf, sb.pbuf, output
    {
      Behind(n, printed) && AtPrompt(sb.rep.sock.sent, server.refuses, 0)
    }

    /** The commands and messages the server has heard. */
    ghost function Heard(): seq<Event>
      reads sb.rep.sock
    {
      Events(sb.rep.sock.sent, server.refuses, 0)
    }

    /** send_cmd of anything but DATA. */
    method Command(cmd: seq<char>, s: Option<seq<char>>, p: Option<seq<char>>, ghost n: nat, ghost printed: seq<char>)
      requires InSession(n, printed)
      requires NoCrlf(cmd + OrEmpty(s) + OrEmpty(p)) && cmd + OrEmpty(s) + OrEmpty(p) != "DATA"
      modifies output, sb`gptr, sb`egptr, sb.gbuf, sb`pptr, sb`epptr, sb.pbuf
      modifies sb.rep.sock`sent, sb.rep.sock`taken, sb.rep.sock`arrived
      ensures InSession(n + if output != null then 1 else 0, printed)
      ensures Heard() == old(Heard()) + [SmtpServer.Command(cmd + OrEmpty(s) + OrEmpty(p))]
    {
      OneCommand(sb.rep.sock.sent, cmd + OrEmpty(s) + OrEmpty(p), server.refuses);
      hide Events, AtPrompt, Behind;
      SendCmd(cmd, s, p, n, printed);
    }

    /** Nothing has been sent, arrived or printed. */
    ghost predicate New(printed: seq<char>)
      reads sb, sb.rep, sb.rep.sock, sb.gbuf, sb.pbuf, output
    {
      Lag(0, 0, printed) && sb.rep.sock.sent == []
    }

    lemma FreshConnection()
      ensures Events([], server.refuses, 0) == [] && Due([], server.refuses) == 1 && AtPrompt([], server.refuses, 0)
    {
    }

    lemma {:induction false} Greeted(n: nat, printed: seq<char>)
      requires Behind(n, printed) && sb.rep.sock.sent == []
      ensures InSession(n, printed) && Heard() == []
    {
      FreshConnection();
      hide Behind, Events, AtPrompt;
    }

    /** helo: the greeting is read first. */
    method Helo(host: seq<char>, ghost printed: seq<char>)
      requires New(printed) && NoCrlf(host)
      modifies output, sb`gptr, sb`egptr, sb.gbuf, sb`pptr, sb`epptr, sb.pbuf
      modifies sb.rep.sock`sent, sb.rep.sock`taken, sb.rep.sock`arrived
      ensures InSession(if output != null then 2 else 0, printed)
      ensures Heard() == [SmtpServer.Command("HELO " + host)]
    {
      hide Lag, Behind, InSession, Heard, Due, Events, AtPrompt, NoCrlf;
      FreshConnection();
      AllOut(0, 0, printed);
      WithOption("HELO ", host);
      ServerActs(0, 0, printed);
      ghost var n := if output != null then 1 else 0;
      if output != null {
        TakeReply(0, printed);
      }
      Greeted(n, printed);
      Command("HELO ", Some(host), None, n, printed);
    }

    method Mail(path: Option<seq<char>>, ghost n: nat, ghost printed: seq<char>)
      requires InSession(n, printed) && NoCrlf(OrEmpty(path))
      modifies output, sb`gptr, sb`egptr, sb.gbuf, sb`pptr, sb`epptr, sb.pbuf
      modifies sb.rep.sock`sent, sb.rep.sock`taken, sb.rep.sock`arrived
      ensures InSession(n + if output != null then 1 else 0, printed)
      ensures Heard() == old(Heard())
           + [SmtpServer.Command("MAIL FROM:<" + (if path.Some? then path.value else []) + ">")]
    {
      hide InSession, Heard;
      if path.Some? {
        OneLine("MAIL FROM:<", path.value, ">");
        Command("MAIL FROM:<", path, Some(">"), n, printed);
      } else {
        OneLine("MAIL FROM:<", [], ">");
        assert "MAIL FROM:<>" + OrEmpty(None) + OrEmpty(None) == "MAIL FROM:<" + [] + ">";
        Command("MAIL FROM:<>", None, None, n, printed);
      }
    }

    method Rcpt(path: Option<seq<char>>, ghost n: nat, ghost printed: seq<char>)
      requires InSession(n, printed) && NoCrlf(OrEmpty(path))
      modifies output, sb`gptr, sb`egptr, sb.gbuf, sb`pptr, sb`epptr, sb.pbuf
      modifies sb.rep.sock`sent, sb.rep.sock`taken, sb.rep.sock`arrived
      ensures InSession(n + if output != null && path.Some? then 1 else 0, printed)
      ensures Heard() == old(Heard())
           + if path.Some? then [SmtpServer.Command("RCPT TO:<" + path.value + ">")] else []
    {
      hide InSession, Heard;
      if path.Some? {
        OneLine("RCPT TO:<", path.value, ">");
        Command("RCPT TO:<", path, Some(">"), n, printed);
      }
    }

    /** help, vrfy and expn with an optional argument; quit, turn, rset and noop without one. */
    method Verb(verb: seq<char>, arg: Option<seq<char>>, ghost n: nat, ghost printed: seq<char>)
      requires InSession(n, printed) && NoCrlf(OrEmpty(arg)) && IsVerb(verb)
      modifies output, sb`gptr, sb`egptr, sb.gbuf, sb`pptr, sb`epptr, sb.pbuf
      modifies sb.rep.sock`sent, sb.rep.sock`taken, sb.rep.sock`arrived
      ensures InSession(n + if output != null then 1 else 0, printed)
      ensures Heard() == old(Heard()) + [SmtpServer.Command(verb + if arg.Some? then arg.value else [])]
    {
      hide InSession, Heard;
      OneLine(verb, OrEmpty(arg), []);
      assert verb + OrEmpty(arg) + OrEmpty(None) == verb + OrEmpty(arg) + [] == verb + OrEmpty(arg);
      Command(verb, arg, None, n, printed);
    }

    /** The part of data (buf, len) between its two replies. */
    method SendBody(text: seq<char>, past: char) returns (r: Res<()>)
      requires sb.Valid()
      modifies sb`pptr, sb`epptr, sb.pbuf, sb.rep.sock`sent
      ensures sb.Valid() && Went(old(sb.OutStream()), Kept(sb, DataWire(text, past)), sb.OutStream(), r.Returned?)
      ensures r.Returned? ==> sb.Pending() == []
      ensures r.Threw? ==> sb.rep.sock.writesFail
    {
      hide Encode;
      ghost var before := sb.OutStream();
      r := SendBuf(text, past);
      if r.Threw? {
        WentLess(before, Kept(sb, Encode(text, past)), sb.OutStream(), Kept(sb, TERMINATOR));
        return;
      }
      var _ :- Put(sb, TERMINATOR, before, Encode(text, past), DataWire(text, past));
      var _ :- sb.Sync();
      return Returned(());
    }

    /** The part of data (buf, len) between its two replies, on a connection that does not fail. */
    method SayBody(text: seq<char>, past: char, ghost n: nat, ghost m: nat, ghost printed: seq<char>)
      requires Lag(n, m, printed)
      modifies sb`pptr, sb`epptr, sb.pbuf, sb.rep.sock`sent
      ensures Lag(n, m, printed) && sb.rep.sock.sent == old(sb.rep.sock.sent) + DataWire(text, past)
    {
      hide ReplyText, DataWire, ProperReplies, Went, LinesOnly;
      ghost var before := sb.rep.sock.sent;
      AllOut(n, m, printed);
      var _ := SendBody(text, past);
      AllSent(before, DataWire(text, past));
    }

    /** The part of data (buf, len) after DATA's reply. */
    method DataReply(text: seq<char>, past: char, ghost n: nat, ghost printed: seq<char>)
      requires Behind(n, printed)
      requires Due(sb.rep.sock.sent + DataWire(text, past), server.refuses) > Due(sb.rep.sock.sent, server.refuses)
      modifies output, sb`gptr, sb`egptr, sb.gbuf, sb`pptr, sb`epptr, sb.pbuf
      modifies sb.rep.sock`sent, sb.rep.sock`taken, sb.rep.sock`arrived
      ensures Behind(n + if output != null then 1 else 0, printed)
      ensures sb.rep.sock.sent == old(sb.rep.sock.sent) + DataWire(text, past)
    {
      hide *;
      ghost var due := Due(sb.rep.sock.sent, server.refuses);
      OwedSoFar(n, printed);
      SayBody(text, past, n, due, printed);
      ServerActs(n, due, printed);
      if output != null {
        TakeReply(n, printed);
      }
    }

    /** data (buf, len). It sends the text whether or not DATA is accepted, and reads two replies. A server that
        accepts DATA hears the text unchanged, unless it ends in LF before a period; one that refuses it hears the text
        at its prompt. In those two cases it owes a reply more, at least: a client that was in step is in step if and
        only if DATA was accepted and the text does not end so. */
    method DataText(text: seq<char>, past: char, ghost n: nat, ghost printed: seq<char>)
      requires InSession(n, printed)
      modifies output, sb`gptr, sb`egptr, sb.gbuf, sb`pptr, sb`epptr, sb.pbuf
      modifies sb.rep.sock`sent, sb.rep.sock`taken, sb.rep.sock`arrived
      ensures InSession(n + if output != null then 2 else 0, printed)
      ensures sb.rep.sock.sent == old(sb.rep.sock.sent) + ("DATA\r\n" + Encode(text, past) + "\r\n.\r\n")
      ensures Heard() == old(Heard()) + DataHeard(text, past, server.refuses, old(|Heard()|))
      ensures old(|Heard()|) !in server.refuses && !(EndsWithLf(text) && past == '.') ==>
                Heard() == old(Heard()) + [SmtpServer.Command("DATA"), Message(text)]
      ensures old(InStep()) ==> (InStep() <==> output != null && HeardWell(text, past, server.refuses, old(|Heard()|)))
      // when no line of the text is a DATA that is accepted, each is a command
      ensures NoDataAccepted(["DATA"] + Stuffed(SplitLf(text)), server.refuses, old(|Heard()|))
              && !(EndsWithLf(text) && past == '.') ==>
                Heard() == old(Heard()) + Commands(["DATA"] + Stuffed(SplitLf(text)) + ["."])
    {
      hide InSession, Heard, InStep, DataHeard, DataWire, Line, NoDataAccepted, Commands, Stuffed, SplitLf;
      ghost var wire, k, was := sb.rep.sock.sent, |Heard()|, InStep();
      StandsAt(n, printed);
      SendData(text, past, n, printed);
      if NoDataAccepted(["DATA"] + Stuffed(SplitLf(text)), server.refuses, k) && !(EndsWithLf(text) && past == '.') {
        TextByLine(text, past, server.refuses, k);
      }
      NowAt(n + if output != null then 2 else 0, printed, Heard());
      hide *;
      DataHeardLength(text, past, server.refuses, k);
    }

    /** What a session says of the server's replies. */
    lemma {:induction false} StandsAt(n: nat, printed: seq<char>)
      requires InSession(n, printed)
      ensures InStep() <==> n == 1 + |Heard()|
    {
      StepIff(n, printed);
      hide InStep, Behind, Events, AtPrompt;
    }

    lemma {:induction false} NowAt(n: nat, printed: seq<char>, heard: seq<Event>)
      requires InSession(n, printed) && Heard() == heard
      ensures InStep() <==> n == 1 + |heard|
    {
      StandsAt(n, printed);
    }

    /** What data (buf, len) sends and reads, whether DATA is accepted or not. */
    method SendData(text: seq<char>, past: char, ghost n: nat, ghost printed: seq<char>)
      requires InSession(n, printed)
      modifies output, sb`gptr, sb`egptr, sb.gbuf, sb`pptr, sb`epptr, sb.pbuf
      modifies sb.rep.sock`sent, sb.rep.sock`taken, sb.rep.sock`arrived
      ensures InSession(n + if output != null then 2 else 0, printed)
      ensures sb.rep.sock.sent == old(sb.rep.sock.sent) + ("DATA\r\n" + Encode(text, past) + "\r\n.\r\n")
      ensures Heard() == old(Heard()) + DataHeard(text, past, server.refuses, old(|Heard()|))
    {
      hide *;
      ghost var before := sb.rep.sock.sent;
      AtThePrompt(n, printed);
      DataExchange(sb.rep.sock.sent, text, past, server.refuses);
      SendCmd("DATA", None, None, n, printed);
      DataReply(text, past, n + if output != null then 1 else 0, printed);
      DataSpelled(before, text, past);
      AtThePrompt(n + if output != null then 2 else 0, printed);
    }

    lemma AtThePrompt(n: nat, printed: seq<char>)
      ensures InSession(n, printed) <==> Behind(n, printed) && AtPrompt(sb.rep.sock.sent, server.refuses, 0)
      ensures Heard() == Events(sb.rep.sock.sent, server.refuses, 0)
    {
    }

    /** Any request after helo. */
    method Do(q: Request, ghost n: nat, ghost printed: seq<char>)
      requires InSession(n, printed) && Sound(q)
      modifies output, sb`gptr, sb`egptr, sb.gbuf, sb`pptr, sb`epptr, sb.pbuf
      modifies sb.rep.sock`sent, sb.rep.sock`taken, sb.rep.sock`arrived
      ensures InSession(n + if output != null then RepliesRead(q) else 0, printed)
      ensures Heard() == old(Heard()) + Meaning(q, server.refuses, old(|Heard()|))
    {
      hide InSession, Heard, DataHeard, InStep;
      match q {
        case Mail(path) => Mail(path, n, printed);
        case Rcpt(path) => Rcpt(path, n, printed);
        case Verb(verb, arg) => Verb(verb, arg, n, printed);
        case DataText(text, past) => DataText(text, past, n, printed);
      }
    }

    /** A whole session on a new connection, with any server. It hears what was asked, except that a text whose DATA
        it refused is heard at its prompt. Without an output the client reads nothing. With one it has read and
        printed the server's first replies, in order: two for helo, and those the requests read. It has left unread one
        for each thing heard too much, so none if and only if every DATA was accepted and no text ended in LF before a
        period. */
    method Session(host: seq<char>, qs: seq<Request>, ghost printed: seq<char>)
      requires New(printed) && NoCrlf(host) && forall i :: 0 <= i < |qs| ==> Sound(qs[i])
      modifies output, sb`gptr, sb`egptr, sb.gbuf, sb`pptr, sb`epptr, sb.pbuf
      modifies sb.rep.sock`sent, sb.rep.sock`taken, sb.rep.sock`arrived
      ensures Heard() == [SmtpServer.Command("HELO " + host)] + Meanings(qs, server.refuses)
      ensures Behind(if output != null then 2 + AllRead(qs) else 0, printed)
      ensures Due(sb.rep.sock.sent, server.refuses) == 2 + AllRead(qs) + LeftUnread(qs, server.refuses)
      ensures InStep() <==> output != null && AllHeardWell(qs, server.refuses)
    {
      hide *;
      Helo(host, printed);
      ghost var first := Heard();
      NoMeanings(qs, server.refuses);
      for i := 0 to |qs|
        invariant InSession(if output != null then 2 + AllRead(qs[..i]) else 0, printed)
        invariant Heard() == first + Meanings(qs[..i], server.refuses)
      {
        MeaningsNext(qs, i, server.refuses);
        Do(qs[i], if output != null then 2 + AllRead(qs[..i]) else 0, printed);
        ghost var heard := Meanings(qs[..i], server.refuses);
        Associate(first, heard, Meaning(qs[i], server.refuses, |first + heard|));
      }
      assert qs[..|qs|] == qs;
      SessionOver(qs, printed);
      Unread(qs, server.refuses);
    }

    lemma {:induction false} SessionOver(qs: seq<Request>, printed: seq<char>)
      requires InSession(if output != null then 2 + AllRead(qs) else 0, printed)
      requires |Heard()| == 1 + |Meanings(qs, server.refuses)|
      ensures Behind(if output != null then 2 + AllRead(qs) else 0, printed)
      ensures Due(sb.rep.sock.sent, server.refuses) == 2 + |Meanings(qs, server.refuses)|
      ensures InStep() <==> output != null && AllRead(qs) == |Meanings(qs, server.refuses)|
    {
      hide Meanings, AllRead, InStep, Events, AtPrompt, Behind;
      StandsAt(if output != null then 2 + AllRead(qs) else 0, printed);
    }
  }

  datatype Request =
    | Mail(path: Option<seq<char>>) | Rcpt(path: Option<seq<char>>)
    | Verb(verb: seq<char>, arg: Option<seq<char>>) | DataText(text: seq<char>, past: char)

  /** What the requests ask of their arguments: no line break in a command. A text can be any. */
  ghost predicate Sound(q: Request) {
    match q
    case Mail(path) => NoCrlf(OrEmpty(path))
    case Rcpt(path) => NoCrlf(OrEmpty(path))
    case Verb(verb, arg) => IsVerb(verb) && NoCrlf(OrEmpty(arg))
    case DataText(_, _) => true
  }

  /** What is heard of data (buf, len) after k events. */
  function DataHeard(text: seq<char>, past: char, refuses: set<nat>, k: nat): seq<Event> {
    if k !in refuses then MessageHeard(text, EndsWithLf(text) && past == '.')
    else [SmtpServer.Command("DATA")] + TextHeard(text, PastOf(text, past), refuses, k + 1)
  }

  /** It is accepted, and no stray period comes after the text. */
  predicate HeardWell(text: seq<char>, past: char, refuses: set<nat>, k: nat) {
    k !in refuses && !(EndsWithLf(text) && past == '.')
  }

  lemma DataHeardLength(text: seq<char>, past: char, refuses: set<nat>, k: nat)
    ensures |DataHeard(text, past, refuses, k)| >= 2
    ensures |DataHeard(text, past, refuses, k)| == 2 <==> HeardWell(text, past, refuses, k)
    ensures HeardWell(text, past, refuses, k) ==>
              DataHeard(text, past, refuses, k) == [SmtpServer.Command("DATA"), Message(text)]
  {
    hide TextHeard;
  }

  /** What the server hears of a request after k events: rcpt (0) is not sent, a text takes two exchanges. */
  function Meaning(q: Request, refuses: set<nat>, k: nat): seq<Event> {
    match q
    case Mail(path) => [SmtpServer.Command("MAIL FROM:<" + OrEmpty(path) + ">")]
    case Rcpt(path) => if path.Some? then [SmtpServer.Command("RCPT TO:<" + path.value + ">")] else []
    case Verb(verb, arg) => [SmtpServer.Command(verb + OrEmpty(arg))]
    case DataText(text, past) => DataHeard(text, past, refuses, k)
  }

  /** How many replies the client reads for it. */
  function RepliesRead(q: Request): nat {
    match q
    case Mail(_) => 1
    case Rcpt(path) => if path.Some? then 1 else 0
    case Verb(_, _) => 1
    case DataText(_, _) => 2
  }

  /** What the server hears after HELO. */
  function Meanings(qs: seq<Request>, refuses: set<nat>): seq<Event> {
    if |qs| == 0 then []
    else
      var before := Meanings(qs[..|qs| - 1], refuses);
      before + Meaning(qs[|qs| - 1], refuses, 1 + |before|)
  }

  function AllRead(qs: seq<Request>): nat {
    if |qs| == 0 then 0 else AllRead(qs[..|qs| - 1]) + RepliesRead(qs[|qs| - 1])
  }

  /** For a text two replies are read, and there is one for each thing that is heard. */
  function Excess(q: Request, refuses: set<nat>, k: nat): nat {
    if q.DataText? then
      DataHeardLength(q.text, q.past, refuses, k);
      |DataHeard(q.text, q.past, refuses, k)| - 2
    else 0
  }

  function LeftUnread(qs: seq<Request>, refuses: set<nat>): nat {
    if |qs| == 0 then 0
    else
      var before := qs[..|qs| - 1];
      LeftUnread(before, refuses) + Excess(qs[|qs| - 1], refuses, 1 + |Meanings(before, refuses)|)
  }

  /** Every DATA of these requests is accepted, and no stray period comes after its text. */
  ghost predicate AllHeardWell(qs: seq<Request>, refuses: set<nat>) {
    forall i :: 0 <= i < |qs| && qs[i].DataText? ==>
      HeardWell(qs[i].text, qs[i].past, refuses, 1 + |Meanings(qs[..i], refuses)|)
  }

  lemma NoMeanings(qs: seq<Request>, refuses: set<nat>)
    ensures Meanings(qs[..0], refuses) == [] && AllRead(qs[..0]) == 0
  {
  }

  lemma {:induction false} MeaningsNext(qs: seq<Request>, i: nat, refuses: set<nat>)
    requires i < |qs|
    ensures var before := Meanings(qs[..i], refuses);
            Meanings(qs[..i + 1], refuses) == before + Meaning(qs[i], refuses, 1 + |before|)
    ensures AllRead(qs[..i + 1]) == AllRead(qs[..i]) + RepliesRead(qs[i])
  {
    hide Meaning, RepliesRead;
    assert qs[..i + 1][..i] == qs[..i];
  }

  lemma {:induction false} AcceptedNext(qs: seq<Request>, refuses: set<nat>)
    requires |qs| > 0
    ensures var (before, q) := (qs[..|qs| - 1], qs[|qs| - 1]);
            AllHeardWell(qs, refuses) <==>
            AllHeardWell(before, refuses)
            && (q.DataText? ==> HeardWell(q.text, q.past, refuses, 1 + |Meanings(before, refuses)|))
  {
    hide Meanings, HeardWell;
    var before := qs[..|qs| - 1];
    forall i | 0 <= i < |before| ensures before[..i] == qs[..i] && before[i] == qs[i] {
    }
    if AllHeardWell(qs, refuses) {
      forall i | 0 <= i < |before| && before[i].DataText?
        ensures HeardWell(before[i].text, before[i].past, refuses, 1 + |Meanings(before[..i], refuses)|)
      {
        assert qs[i].DataText?;
      }
    } else {
      var i :| 0 <= i < |qs| && qs[i].DataText?
               && !HeardWell(qs[i].text, qs[i].past, refuses, 1 + |Meanings(qs[..i], refuses)|);
      assert i < |before| ==> before[i].DataText?;
    }
  }

  lemma MeaningLength(q: Request, refuses: set<nat>, k: nat)
    ensures |Meaning(q, refuses, k)| == RepliesRead(q) + Excess(q, refuses, k)
    ensures Excess(q, refuses, k) == 0 <==> (q.DataText? ==> HeardWell(q.text, q.past, refuses, k))
  {
    hide DataHeard, HeardWell;
    if q.DataText? {
      DataHeardLength(q.text, q.past, refuses, k);
    }
  }

  /** What is heard, what is read, and what is left. */
  lemma {:induction false} Unread(qs: seq<Request>, refuses: set<nat>)
    ensures |Meanings(qs, refuses)| == AllRead(qs) + LeftUnread(qs, refuses)
    ensures LeftUnread(qs, refuses) == 0 <==> AllHeardWell(qs, refuses)
  {
    if |qs| == 0 {
    } else {
      var before, q := qs[..|qs| - 1], qs[|qs| - 1];
      Unread(before, refuses);
      MeaningLength(q, refuses, 1 + |Meanings(before, refuses)|);
      AcceptedNext(qs, refuses);
      hide AllHeardWell, Meaning, RepliesRead, Excess;
    }
  }

  /** A text of one line whose DATA, the second thing heard, is refused: three things are heard, two replies are
      read, and so one is left. */
  lemma OneTextRefused(past: char, refuses: set<nat>)
    requires 1 in refuses
    ensures Meanings([DataText("x", past)], refuses)
         == [SmtpServer.Command("DATA"), SmtpServer.Command("x"), SmtpServer.Command(".")]
    ensures LeftUnread([DataText("x", past)], refuses) == 1 && !AllHeardWell([DataText("x", past)], refuses)
  {
    hide *;
    var qs := [DataText("x", past)];
    OneLineHeard(past, refuses);
    OneRequest(qs[0], refuses);
    OneRead(qs);
    Unread(qs, refuses);
  }

  lemma OneRequest(q: Request, refuses: set<nat>)
    ensures Meanings([q], refuses) == Meaning(q, refuses, 1)
  {
    NoMeanings([q], refuses);
    MeaningsNext([q], 0, refuses);
    hide *;
    assert [q][..1] == [q] && [] + Meaning(q, refuses, 1) == Meaning(q, refuses, 1);
  }

  lemma OneRead(qs: seq<Request>)
    requires |qs| == 1 && qs[0].DataText?
    ensures AllRead(qs) == 2
  {
    assert AllRead(qs[..0]) == 0;
  }

  lemma OneLineHeard(past: char, refuses: set<nat>)
    requires 1 in refuses
    ensures Meaning(DataText("x", past), refuses, 1)
         == [SmtpServer.Command("DATA"), SmtpServer.Command("x"), SmtpServer.Command(".")]
  {
    assert LfAt("x") == 1 && "x"[..1] == "x" && FirstOut("x", past) == "x";
    LastHeard("x", past, refuses, 2);
    assert "x" != "DATA" by {
      assert |"DATA"| == 4;
    }
    hide TextHeard, FirstOut, LfAt;
  }

  lemma {:induction false} TextByLine(text: seq<char>, past: char, refuses: set<nat>, k: nat)
    requires NoDataAccepted(["DATA"] + Stuffed(SplitLf(text)), refuses, k) && !(EndsWithLf(text) && past == '.')
    ensures DataHeard(text, past, refuses, k) == Commands(["DATA"] + Stuffed(SplitLf(text)) + ["."])
  {
    assert !StrayAfter(text, PastOf(text, past));
    hide TextHeard, Stuffed, SplitLf, Commands, NoDataAccepted, StrayAfter;
    var lines := Stuffed(SplitLf(text));
    FirstOfLines("DATA", lines, refuses, k);
    HeardByLine(text, PastOf(text, past), refuses, k + 1);
    CommandsLast(["DATA"] + lines, ".");
    Associate([SmtpServer.Command("DATA")], Commands(lines), [SmtpServer.Command(".")]);
  }

  /** What data (buf, len) makes the server hear and owe. */
  lemma {:induction false} DataExchange(wire: seq<char>, text: seq<char>, past: char, refuses: set<nat>)
    requires AtPrompt(wire, refuses, 0)
    ensures var next := wire + Line("DATA", None, None);
            var last := next + DataWire(text, past);
            && Due(wire, refuses) < Due(next, refuses) < Due(last, refuses) && AtPrompt(last, refuses, 0)
            && Events(last, refuses, 0)
               == Events(wire, refuses, 0) + DataHeard(text, past, refuses, |Events(wire, refuses, 0)|)
  {
    hide *;
    var k, command, body := |Events(wire, refuses, 0)|, "DATA" + CRLF, DataWire(text, past);
    DataLine();
    DueIs(wire, refuses);
    DueIs(wire + command, refuses);
    DueIs(wire + command + body, refuses);
    DataCommand(wire, refuses);
    Associate(wire, command, body);
    DataHeardIs(text, past, refuses, k);
    DataHeardLength(text, past, refuses, k);
    if k !in refuses {
      DataMessage(wire, text, past, refuses);
    } else {
      RefusedText(wire, text, past, refuses);
    }
  }

  lemma DataSpelled(before: seq<char>, text: seq<char>, past: char)
    ensures before + Line("DATA", None, None) + DataWire(text, past)
         == before + ("DATA\r\n" + Encode(text, past) + "\r\n.\r\n")
  {
    DataLine();
    DataWireSpelled(text, past);
    assert "DATA" + CRLF == "DATA\r\n";
    hide *;
    Associate(before, "DATA\r\n", Encode(text, past) + "\r\n.\r\n");
    Associate("DATA\r\n", Encode(text, past), "\r\n.\r\n");
  }

  lemma DataLine()
    ensures Line("DATA", None, None) == "DATA" + CRLF
  {
  }

  lemma DueIs(wire: seq<char>, refuses: set<nat>)
    ensures Due(wire, refuses) == 1 + |Events(wire, refuses, 0)|
  {
  }

  lemma DataHeardIs(text: seq<char>, past: char, refuses: set<nat>, k: nat)
    ensures DataHeard(text, past, refuses, k)
         == if k !in refuses then MessageHeard(text, EndsWithLf(text) && past == '.')
            else [SmtpServer.Command("DATA")] + TextHeard(text, PastOf(text, past), refuses, k + 1)
  {
  }

  predicate IsVerb(verb: seq<char>) {
    verb in ["HELP ", "VRFY ", "EXPN ", "QUIT", "TURN", "RSET", "NOOP"]
  }

  lemma WithOption(cmd: seq<char>, s: seq<char>)
    requires NoCrlf(s) && cmd != [] && cmd[0] != 'D' && '\r' !in cmd && '\n' !in cmd
    ensures cmd + OrEmpty(Some(s)) + OrEmpty(None) == cmd + s
    ensures NoCrlf(cmd + s) && cmd + s != "DATA"
  {
    OneLine(cmd, s, []);
    assert cmd + s + [] == cmd + s;
  }

  /** A command's text is one line, and not DATA. */
  lemma OneLine(a: seq<char>, s: seq<char>, b: seq<char>)
    requires NoCrlf(s) && a != [] && a[0] != 'D' && '\r' !in a && '\n' !in a && '\n' !in b && |b| <= 1
    ensures NoCrlf(a + s + b) && a + s + b != "DATA"
  {
    var t := a + s + b;
    assert t[0] == a[0] && "DATA"[0] == 'D';
    forall i | CrlfPair(t, i) ensures false {
      assert t[i] == '\r' && t[i + 1] == '\n';
      if i >= |a| && i + 1 < |a| + |s| {
        assert CrlfPair(s, i - |a|);
      }
    }
  }

  lemma SendAllNext(chunks: seq<Chunk>, i: nat)
    requires i < |chunks|
    ensures SendAll(chunks[..i + 1]) == SendAll(chunks[..i]) + Encode(chunks[i].text, chunks[i].past)
  {
    hide Encode;
    assert chunks[..i + 1][..i] == chunks[..i];
  }

  lemma {:induction false} SendAllGrows(chunks: seq<Chunk>, i: nat)
    requires i <= |chunks|
    ensures SendAll(chunks[..i]) <= SendAll(chunks)
    decreases |chunks| - i
  {
    hide Encode;
    if i < |chunks| {
      SendAllNext(chunks, i);
      SendAllGrows(chunks, i + 1);
    } else {
      assert chunks[..i] == chunks;
    }
  }

  lemma NextLine(lines: seq<seq<char>>, k: nat, rest: seq<char>)
    requires IsReply(lines) && k < |lines|
    ensures Flatten(lines[k..]) + rest == lines[k] + (Flatten(lines[k + 1..]) + rest)
    ensures IsLine(lines[k]) && |lines[k]| >= 5 && (lines[k][3] == '-' <==> k + 1 < |lines|)
  {
    FlattenSnoc(lines, k);
  }
}
