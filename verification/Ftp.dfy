/** socket++/ftp.cpp: the reply reader, the PORT command, and the sending half of a data transfer. */
module Ftp {
  import opened Lines
  import opened Sockets
  import opened SockStream
  import opened Protocol
  import opened FtpPort
  import opened FtpReply
  import opened ReplyReads

  /** The whole of what is left of the reply is buffered; or the kernel delivers whole lines, all long
      enough not to be mistaken for a part of one. */
  ghost predicate Reachable(sb: Sockbuf, lines: seq<seq<char>>, k: nat)
    requires sb.Valid() && sb.gbuf != null && k <= |lines|
    reads sb, sb.rep, sb.rep.sock, sb.gbuf
  {
    || |sb.Unread()| >= |Flatten(lines[k..])|
    || (&& sb.rep.sock.lineReads && LinesOnly(sb.Unread())
        && forall i :: 0 <= i < |lines| ==> 5 <= |lines[i]| <= sb.gbuf.Length)
  }

  ghost predicate AtLine(sb: Sockbuf, lines: seq<seq<char>>, k: nat, rest: seq<char>)
    reads sb, sb.rep, sb.rep.sock, sb.gbuf
  {
    && sb.Valid() && sb.gbuf != null && k <= |lines|
    && sb.InStream() == Flatten(lines[k..]) + rest && Reachable(sb, lines, k)
  }

  lemma NextLine(lines: seq<seq<char>>, k: nat, rest: seq<char>)
    requires IsFtpReply(lines) && k < |lines|
    ensures Flatten(lines[k..]) == lines[k] + Flatten(lines[k + 1..])
    ensures Flatten(lines[k..]) + rest == lines[k] + (Flatten(lines[k + 1..]) + rest)
    ensures IsLine(lines[k])
  {
    FlattenSnoc(lines, k);
  }

  /** The last line, or the only one, has room for a code, a space and a CR LF. */
  lemma {:induction false} FiveLeft(lines: seq<seq<char>>, k: nat)
    requires IsFtpReply(lines) && k < |lines|
    ensures |Flatten(lines[k..])| >= 5
    decreases |lines| - k
  {
    FlattenSnoc(lines, k);
    if k + 1 < |lines| {
      FiveLeft(lines, k + 1);
    } else {
      var last := lines[k];
      assert k > 0 ==> last[3] == ' ';
      assert last[|last| - 2] == '\r';
    }
  }

  /** What send_cmd sends. */
  function Line(cmd: seq<char>, arg: Option<seq<char>>): seq<char> {
    cmd + (if arg.Some? then " " else []) + OrEmpty(arg) + CRLF
  }

  class FtpBuf {
    const sb: Sockbuf
    const o: Output?
    const replycode: array<char>   // char replycode [5]

    constructor (sb: Sockbuf, o: Output?)
      ensures this.sb == sb && this.o == o && fresh(replycode) && Valid()
    {
      this.sb, this.o, replycode := sb, o, new char[5];
      new;
      replycode[4] := '\0';
    }

    ghost predicate Valid()
      reads sb`gbuf, sb`pbuf
    {
      replycode.Length == 5 && replycode != sb.gbuf && replycode != sb.pbuf
    }

    /** underflow as get_response uses it: afterwards line k is buffered. */
    method Await(ghost lines: seq<seq<char>>, ghost k: nat, ghost rest: seq<char>) returns (u: Res<IntType>)
      requires Valid() && IsFtpReply(lines) && k < |lines| && AtLine(sb, lines, k, rest)
      modifies sb`gptr, sb`egptr, sb.gbuf, sb.rep.sock`taken
      ensures Valid() && AtLine(sb, lines, k, rest) && sb.Valid() && sb.gbuf != null
      ensures u.Threw? ==> sb.rep.sock.readsFail
      ensures u.Returned? ==> u.value != Eof && sb.egptr - sb.gptr >= 5
      ensures u.Returned? ==> |sb.Unread()| >= 5 && LineBuffered(lines[k], sb.Unread())
      ensures u.Returned? ==> |sb.Unread()| >= |Flatten(lines[k..])| || LinesOnly(sb.Unread()[|lines[k]|..])
    {
      ghost var line, more := lines[k], Flatten(lines[k + 1..]) + rest;
      NextLine(lines, k, rest);
      FiveLeft(lines, k);
      hide IsFtpReply, LineBuffered, LinesOnly, Flatten;
      u := BufferLine(sb, line, more, |sb.Unread()| >= |Flatten(lines[k..])|);
    }

    /** The C library's strncpy of three bytes into replycode, and the space after. */
    method CopyCode(q: nat)
      requires replycode.Length == 5 && sb.gbuf != null && replycode != sb.gbuf && q + 4 <= sb.gbuf.Length
      modifies replycode
      ensures replycode[3] == ' '
      ensures forall j :: 0 <= j < 3 ==> replycode[j] == if '\0' in sb.gbuf[q..q + j] then '\0' else sb.gbuf[q + j]
      ensures replycode[..4] == Padded(sb.gbuf[q..q + 3]) + [' ']
    {
      ghost var s := sb.gbuf[q..q + 3];
      var ended := false;
      for i := 0 to 3
        invariant ended <==> '\0' in s[..i]
        invariant forall j :: 0 <= j < i ==> replycode[j] == if '\0' in s[..j] then '\0' else s[j]
      {
        replycode[i] := if ended then '\0' else sb.gbuf[q + i];
        assert s[..i + 1] == s[..i] + [s[i]];
        ended := ended || sb.gbuf[q + i] == '\0';
      }
      replycode[3] := ' ';
      assert forall j :: 0 <= j < 3 ==> sb.gbuf[q..q + j] == s[..j] && sb.gbuf[q + j] == s[j];
      assert replycode[..3] == Padded(s);
    }

    /** The C library's strncmp of four bytes with replycode, compared with 0. */
    method SameCode(q: nat) returns (same: bool)
      requires replycode.Length == 5 && sb.gbuf != null && replycode != sb.gbuf && q + 4 <= sb.gbuf.Length
      ensures same <==> forall j :: 0 <= j < 4 && '\0' !in sb.gbuf[q..q + j] ==> sb.gbuf[q + j] == replycode[j]
      ensures same <==> SameText(sb.gbuf[q..q + 4], replycode[..4])
    {
      ghost var s, t := sb.gbuf[q..q + 4], replycode[..4];
      assert forall j :: 0 <= j < 4 ==> s[..j] == sb.gbuf[q..q + j] && s[j] == sb.gbuf[q + j] && t[j] == replycode[j];
      for i := 0 to 4
        invariant '\0' !in s[..i] && forall j :: 0 <= j < i ==> s[j] == t[j]
      {
        assert s[i] == sb.gbuf[q + i] && t[i] == replycode[i];
        if sb.gbuf[q + i] != replycode[i] {
          return false;
        }
        if sb.gbuf[q + i] == '\0' {
          assert forall j :: i < j < 4 ==> s[..j][i] == '\0';
          return true;
        }
        assert s[..i + 1] == s[..i] + [s[i]];
      }
      return true;
    }

    /** The reply's code, once its first line was seen. */
    ghost function Code(firstline: bool): Option<seq<char>>
      reads replycode
    {
      if firstline then None else Some(replycode[..if replycode.Length < 3 then 0 else 3])
    }

    /** One turn of get_response's loop, past underflow, whatever is unread: it does what t says; but the step past
        the get area, when that holds no CR LF, is not taken. */
    method LoopTurn(firstline: bool, ghost t: Turned) returns (next: Next, still: bool)
      requires Valid() && sb.Valid() && sb.gbuf != null && (!firstline ==> replycode[3] == ' ')
      requires t == Turn(sb.Unread(), Code(firstline))
      modifies sb`gptr, o, replycode
      ensures Valid() && sb.Valid() && (!still ==> replycode[3] == ' ')
      ensures next == t.next && Code(still) == t.code && sb.Unread() == t.left
      // spelled out, for any bytes
      ensures var u := old(sb.Unread());
              if |u| < 5 then next == GoOn && still == firstline && sb.Unread() == u
              else if CrlfAt(u) == |u| then next == Overrun && sb.Unread() == u
              else
                && next != Overrun && !still && sb.Unread() == u[CrlfAt(u) + 2..]
                && (o != null ==> o.text == old(o.text) + u[..CrlfAt(u) + 2])
                && if firstline then
                     && (next == Stop <==> u[3] == ' ')
                     && forall j :: 0 <= j < 3 ==> replycode[j] == if '\0' in u[..j] then '\0' else u[j]
                   else
                     && (next == Stop <==> forall j :: 0 <= j < 4 && '\0' !in u[..j] ==> u[j] == old(replycode[j]))
                     && forall j :: 0 <= j < 3 ==> replycode[j] == old(replycode[j])
      ensures Takes(old(sb.InStream()), t.got, sb.InStream())
      ensures o != null ==> o.text == old(o.text) + t.got
    {
      hide *;
      TurnSpelled(sb.Unread(), Code(firstline));
      CodeWas(firstline);
      next, still := TurnOnce(firstline, t);
      CodeWas(still);
    }

    lemma CodeWas(firstline: bool)
      requires Valid()
      ensures replycode.Length == 5 && (firstline ==> Code(firstline) == None)
      ensures !firstline ==> Code(firstline).Some? && |Code(firstline).value| == 3
      ensures !firstline ==> forall j :: 0 <= j < 3 ==> Code(firstline).value[j] == replycode[j]
    {
    }

    /** The turn itself. */
    method TurnOnce(firstline: bool, ghost t: Turned) returns (next: Next, still: bool)
      requires Valid() && sb.Valid() && sb.gbuf != null && (!firstline ==> replycode[3] == ' ')
      requires t == Turn(sb.Unread(), Code(firstline))
      modifies sb`gptr, o, replycode
      ensures Valid() && sb.Valid() && (!still ==> replycode[3] == ' ')
      ensures still ==> firstline
      ensures |old(sb.Unread())| < 5 ==> still == firstline
      ensures next == t.next && Code(still) == t.code && sb.Unread() == t.left
      ensures Takes(old(sb.InStream()), t.got, sb.InStream())
      ensures o != null ==> o.text == old(o.text) + t.got
    {
      hide CrlfAt, Takes, Turn, KeptCode, StopsHere;
      var n, q := sb.egptr - sb.gptr, sb.gptr;
      ghost var unread, code := sb.Unread(), Code(firstline);
      TakesNothing(sb.InStream());
      if n < 5 {
        TurnOnFew(unread, code);
        OutputStays();
        return GoOn, firstline;
      }
      var i := LineEnd(sb, n);
      TurnOnMany(unread, code, i);
      if i > n {
        OutputStays();
        return Overrun, firstline;
      }
      var stop := TakeFirst(i, firstline);
      return if stop then Stop else GoOn, false;
    }

    /** The first i bytes go to o and are stepped over; their start decides. */
    method TakeFirst(i: nat, firstline: bool) returns (stop: bool)
      requires Valid() && sb.Valid() && sb.gbuf != null && (!firstline ==> replycode[3] == ' ')
      requires 5 <= |sb.Unread()| && i <= |sb.Unread()|
      modifies sb`gptr, o, replycode
      ensures Valid() && sb.Valid() && replycode[3] == ' '
      ensures stop == StopsHere(old(sb.Unread()), old(Code(firstline)))
      ensures Code(false) == Some(KeptCode(old(sb.Unread()), old(Code(firstline))))
      ensures sb.Unread() == old(sb.Unread()[i..])
      ensures Takes(old(sb.InStream()), old(sb.Unread()[..i]), sb.InStream())
      ensures o != null ==> o.text == old(o.text) + old(sb.Unread()[..i])
    {
      hide Takes, KeptCode, StopsHere;
      var q := sb.gptr;
      ghost var unread, code := sb.Unread(), Code(firstline);
      FrontOf(q, |unread|);
      Pass(sb, o, i);
      stop := Decide(q, firstline, unread);
      CodeKnown(KeptCode(unread, code));
    }

    lemma OutputStays()
      ensures o != null ==> o.text + [] == o.text
    {
    }

    lemma TurnOnFew(unread: seq<char>, code: Option<seq<char>>)
      requires |unread| < 5
      ensures Turn(unread, code) == Turned([], unread, code, GoOn)
    {
    }

    lemma TurnOnMany(unread: seq<char>, code: Option<seq<char>>, i: nat)
      requires |unread| >= 5 && i == if CrlfAt(unread) < |unread| then CrlfAt(unread) + 2 else |unread| + 1
      ensures Turn(unread, code) ==
              if i > |unread| then Turned([], unread, code, Overrun)
              else Turned(unread[..i], unread[i..], Some(KeptCode(unread, code)),
                          if StopsHere(unread, code) then Stop else GoOn)
    {
      hide CrlfAt, KeptCode, StopsHere;
    }

    lemma FrontOf(q: nat, n: nat)
      requires sb.Valid() && sb.gbuf != null && q == sb.gptr && n == |sb.Unread()| >= 4
      ensures q + n <= sb.gbuf.Length && sb.gbuf[q..q + 4] == sb.Unread()[..4]
    {
      assert sb.Unread() == sb.gbuf[q..q + n];
    }

    /** What get_response does with a line's first bytes: keeps the code, or compares it. */
    method Decide(q: nat, firstline: bool, ghost unread: seq<char>) returns (stop: bool)
      requires replycode.Length == 5 && sb.gbuf != null && replycode != sb.gbuf && q + 4 <= sb.gbuf.Length
      requires |unread| >= 5 && sb.gbuf[q..q + 4] == unread[..4] && (!firstline ==> replycode[3] == ' ')
      modifies replycode
      ensures stop == StopsHere(unread, old(Code(firstline)))
      ensures replycode[..4] == KeptCode(unread, old(Code(firstline))) + [' ']
    {
      hide Padded, SameText;
      if firstline {
        CopyCode(q);
        assert sb.gbuf[q..q + 3] == sb.gbuf[q..q + 4][..3] == unread[..3];
        assert sb.gbuf[q + 3] == sb.gbuf[q..q + 4][3];
        return sb.gbuf[q + 3] == ' ';
      }
      assert replycode[..4] == replycode[..3] + [' '];
      stop := SameCode(q);
    }

    lemma CodeKnown(c: seq<char>)
      requires Valid() && replycode[..4] == c + [' ']
      ensures Code(false) == Some(c) && replycode[3] == ' '
    {
      assert replycode[..3] == replycode[..4][..3];
      assert replycode[3] == replycode[..4][3];
    }

    /** The reply's code is known. */
    ghost predicate Knows(c: seq<char>)
      reads replycode
    {
      replycode.Length == 5 && Code(false) == Some(c) && replycode[3] == ' '
    }

    /** A turn with the next line buffered: consumes line k, and says whether the reply ends here. */
    method TakeLine(ghost lines: seq<seq<char>>, ghost k: nat, ghost rest: seq<char>, firstline: bool)
      returns (last: bool)
      requires Valid() && IsFtpReply(lines) && k < |lines| && AtLine(sb, lines, k, rest)
      requires LineBuffered(lines[k], sb.Unread())
      requires |sb.Unread()| >= 5
      requires |sb.Unread()| >= |Flatten(lines[k..])| || LinesOnly(sb.Unread()[|lines[k]|..])
      requires firstline <==> k == 0
      requires k > 0 ==> Knows(lines[0][..3])
      modifies sb`gptr, o, replycode
      ensures Valid() && AtLine(sb, lines, k + 1, rest)
      ensures o != null ==> o.text == old(o.text) + lines[k]
      ensures Knows(lines[0][..3])
      ensures last <==> k + 1 == |lines|
    {
      hide *;
      NextTurnTakes(lines, k, rest, firstline);
      ghost var stream, line, more := sb.InStream(), lines[k], Flatten(lines[k + 1..]) + rest;
      ghost var unread, whole := sb.Unread(), |sb.Unread()| >= |Flatten(lines[k..])|;
      ghost var stop: Next := if k + 1 == |lines| then Stop else GoOn;
      WhenNotWhole(lines, k, rest);
      var next, still := LoopTurn(firstline, Turned(line, unread[|line|..], Some(lines[0][..3]), stop));
      TakesOnce(stream, line, more, sb.InStream());
      AtNext(lines, k, rest, unread, whole);
      KnownCode(lines[0][..3], still);
      return next == Stop;
    }

    /** How what comes after line k can be reached. */
    ghost predicate Onward(lines: seq<seq<char>>, k: nat, unread: seq<char>, whole: bool)
      requires k < |lines| && |lines[k]| <= |unread|
      reads sb`gbuf
    {
      if whole then |unread| >= |Flatten(lines[k..])|
      else
        && sb.gbuf != null && sb.rep.sock.lineReads && LinesOnly(unread[|lines[k]|..])
        && forall i :: 0 <= i < |lines| ==> 5 <= |lines[i]| <= sb.gbuf.Length
    }

    lemma WhenNotWhole(lines: seq<seq<char>>, k: nat, rest: seq<char>)
      requires k < |lines| && AtLine(sb, lines, k, rest) && |lines[k]| <= |sb.Unread()|
      requires |sb.Unread()| >= |Flatten(lines[k..])| || LinesOnly(sb.Unread()[|lines[k]|..])
      ensures Onward(lines, k, sb.Unread(), |sb.Unread()| >= |Flatten(lines[k..])|)
    {
    }

    /** Line k has been taken. */
    lemma AtNext(lines: seq<seq<char>>, k: nat, rest: seq<char>, unread: seq<char>, whole: bool)
      requires sb.Valid() && sb.gbuf != null && k < |lines| && |lines[k]| <= |unread|
      requires Onward(lines, k, unread, whole)
      requires sb.Unread() == unread[|lines[k]|..] && sb.InStream() == Flatten(lines[k + 1..]) + rest
      ensures AtLine(sb, lines, k + 1, rest)
    {
      FlattenSnoc(lines, k);
    }

    lemma NextTurnTakes(lines: seq<seq<char>>, k: nat, rest: seq<char>, firstline: bool)
      requires Valid() && IsFtpReply(lines) && k < |lines| && AtLine(sb, lines, k, rest)
      requires LineBuffered(lines[k], sb.Unread())
      requires |sb.Unread()| >= 5 && (firstline <==> k == 0)
      requires k > 0 ==> Knows(lines[0][..3])
      ensures sb.Valid() && sb.gbuf != null && replycode.Length == 5 && (!firstline ==> replycode[3] == ' ')
      ensures |lines[0]| >= 3 && |sb.Unread()| >= |lines[k]|
      ensures Takes(sb.InStream(), lines[k], Flatten(lines[k + 1..]) + rest)
      ensures Turn(sb.Unread(), Code(firstline)) ==
              Turned(lines[k], sb.Unread()[|lines[k]|..], Some(lines[0][..3]), if k + 1 == |lines| then Stop else GoOn)
    {
      NextLine(lines, k, rest);
      TailFrom(lines, k, Code(firstline));
      assert |lines[0]| >= 3;
      hide IsFtpReply, Flatten, LinesOnly, Turn, CrlfAt;
      TurnOnLine(lines[k..], Code(firstline), Flatten(lines[k + 1..]) + rest, sb.Unread(), sb.rep.sock.Queue());
    }

    lemma KnownCode(c: seq<char>, still: bool)
      requires Valid() && Code(still) == Some(c) && (!still ==> replycode[3] == ' ')
      ensures Knows(c)
    {
    }

    // -------------------------------------------------------------- any bytes, any reads

    lemma Apart()
      requires Valid()
      ensures replycode.Length == 5 && replycode != sb.gbuf && replycode != sb.pbuf
    {
    }

    lemma HasTurned(next: Next)
      ensures !ProgressAfter(next).Waiting?
    {
    }

    /** One more turn of a loop that stands here after i turns and those reads. */
    method MoreTurn(ghost i: nat, ghost first: seq<char>, ghost seen: seq<seq<char>>, ghost printed: seq<char>,
        firstline: bool)
      returns (progress: Progress, r: Res<()>, ghost more: seq<seq<char>>, ghost got: seq<char>, still: bool)
      requires Valid() && sb.Valid() && sb.gbuf != null && (!firstline ==> replycode[3] == ' ')
      requires Loop(Turn, i, first, None, seen) == Stand(Running, printed, sb.Unread(), Code(firstline), [])
      modifies o, replycode, sb`gptr, sb`egptr, sb.gbuf, sb.rep.sock`taken
      ensures Valid() && sb.Valid() && Reads(more) && old(sb.rep.sock.taken) <= sb.rep.sock.taken
      ensures !still ==> replycode[3] == ' '
      ensures Loop(Turn, i + 1, first, None, seen + more)
           == Stand(progress, printed + got, sb.Unread(), Code(still), [])
      ensures Flatten(more) == sb.rep.sock.arrived[old(sb.rep.sock.taken)..sb.rep.sock.taken]
      ensures Takes(old(sb.InStream()), got, sb.InStream())
      ensures o != null ==> o.text == old(o.text) + got
      ensures r.Threw? ==> progress.Waiting? && (sb.rep.sock.readsFail || (sb.InStream() == [] && !sb.rep.sock.ended))
      ensures r.Returned? && progress.Waiting? ==> sb.InStream() == [] && sb.rep.sock.ended
    {
      hide *;
      Apart();
      ghost var s := Loop(Turn, i, first, None, seen);
      var u;
      u, more := NextBytes(sb);
      if u.Threw? || u.value == Eof {
        NoMoreReads(Turn, i, first, None, seen, s);
        TakesNothing(sb.InStream());
        assert seen + [] == seen && printed + [] == printed;
        OutputStays();
        return Waiting, if u.Threw? then Threw(u.exn) else Returned(()), [], [], firstline;
      }
      ghost var t := Turn(sb.Unread(), Code(firstline));
      OneMoreTurn(Turn, i, first, None, seen, s, more, sb.Unread());
      var next;
      next, still := LoopTurn(firstline, t);
      HasTurned(next);
      return ProgressAfter(next), Returned(()), more, t.got, still;
    }

    /** One more turn of a loop that stands here. */
    method NextTurn(ghost i: nat, ghost first: seq<char>, ghost stream: seq<char>, ghost start: nat,
        ghost seen: seq<seq<char>>, ghost printed: seq<char>, firstline: bool)
      returns (progress: Progress, r: Res<()>, ghost more: seq<seq<char>>, ghost got: seq<char>, still: bool)
      requires Valid() && (!firstline ==> replycode[3] == ' ')
      requires Standing(sb, Turn, i, first, stream, start, Running, false, seen, printed, Code(firstline))
      modifies o, replycode, sb`gptr, sb`egptr, sb.gbuf, sb.rep.sock`taken
      ensures Valid() && (!still ==> replycode[3] == ' ')
      ensures Standing(sb, Turn, i + 1, first, stream, start, progress, r.Threw?, seen + more, printed + got,
                       Code(still))
      ensures o != null ==> o.text == old(o.text) + got
    {
      hide Loop, Turn, Takes, Flatten, Reads, Code;
      ghost var mark, mid := sb.rep.sock.taken, sb.InStream();
      progress, r, more, got, still := MoreTurn(i, first, seen, printed, firstline);
      TurnsJoin(sb.rep.sock.arrived, start, mark, sb.rep.sock.taken, seen, more);
      TakesTwice(stream, printed, mid, got, sb.InStream());
    }

    /** n turns of get_response's loop, unless it ends before, for any bytes and any reads. */
    method Turns(n: nat)
      returns (progress: Progress, r: Res<()>, ghost seen: seq<seq<char>>, ghost printed: seq<char>, firstline: bool)
      requires Valid() && sb.Valid() && sb.gbuf != null
      modifies o, replycode, sb`gptr, sb`egptr, sb.gbuf, sb.rep.sock`taken
      ensures Valid()
      ensures Standing(sb, Turn, n, old(sb.Unread()), old(sb.InStream()), old(sb.rep.sock.taken), progress, r.Threw?,
                       seen, printed, Code(firstline))
      ensures o != null ==> o.text == old(o.text) + printed
    {
      hide Standing, Loop, Turn, Reads, Flatten;
      ghost var first, stream, start := sb.Unread(), sb.InStream(), sb.rep.sock.taken;
      ghost var text := if o == null then [] else o.text;
      seen, printed, progress, r, firstline := [], [], Running, Returned(()), true;
      StandsAtFirst(sb, Turn);
      assert text + [] == text;
      var i := 0;
      while i < n && progress == Running
        invariant Valid() && i <= n && (!firstline ==> replycode[3] == ' ')
        invariant Standing(sb, Turn, i, first, stream, start, progress, r.Threw?, seen, printed, Code(firstline))
        invariant o != null ==> o.text == text + printed
      {
        NotYetThrown(sb, Turn, i, first, stream, start, r.Threw?, seen, printed, Code(firstline));
        ghost var more, got;
        progress, r, more, got, firstline := NextTurn(i, first, stream, start, seen, printed, firstline);
        Associate(text, printed, got);
        seen, printed, i := seen + more, printed + got, i + 1;
      }
      if progress != Running {
        StandsFor(sb, Turn, i, n - i, first, stream, start, progress, r.Threw?, seen, printed, Code(firstline));
      }
    }

    /** With a reply next in the stream, however the kernel cuts the stream into reads: after enough turns
        get_response has stopped with exactly the reply printed and taken, if and only if no read has ended
        inside one of the reply's lines, or less than five bytes after the start of one; otherwise the first such
        read decides whether it is about to overrun or goes round for ever. */
    method ReplyTurns(n: nat, ghost lines: seq<seq<char>>, ghost rest: seq<char>)
      returns (progress: Progress, r: Res<char>, ghost seen: seq<seq<char>>, ghost printed: seq<char>)
      requires Valid() && sb.Valid() && sb.gbuf != null && IsFtpReply(lines) && n >= |lines|
      requires sb.InStream() == Flatten(lines) + rest
      modifies o, replycode, sb`gptr, sb`egptr, sb.gbuf, sb.rep.sock`taken
      ensures Valid() && sb.Valid() && Reads(seen) && old(sb.rep.sock.taken) <= sb.rep.sock.taken
      ensures Flatten(seen) == sb.rep.sock.arrived[old(sb.rep.sock.taken)..sb.rep.sock.taken]
      ensures o != null ==> o.text == old(o.text) + printed
      ensures r.Threw? ==> sb.rep.sock.readsFail
      ensures r.Returned? ==>
                if Uncut(lines, |old(sb.Unread())|, seen)
                then progress == Stopped && printed == Flatten(lines) && sb.InStream() == rest && r.value == lines[0][0]
                else progress == if FirstCutLate(lines, |old(sb.Unread())|, seen) then Overran else Running
    {
      hide Uncut, FirstCutLate, Flatten, Loop, IsFtpReply, Takes, Standing, Reads;
      ghost var first, start := sb.Unread(), sb.rep.sock.taken;
      var u, firstline;
      progress, u, seen, printed, firstline := Turns(n);
      Decided(n, first, start, progress, u.Threw?, seen, printed, Code(firstline), lines, rest);
      r := if u.Threw? then Threw(u.exn) else Returned(replycode[0]);
      if u.Returned? && progress == Stopped {
        assert replycode[0] == replycode[..3][0];
      }
    }

    lemma Decided(n: nat, first: seq<char>, start: nat, progress: Progress, threw: bool,
        seen: seq<seq<char>>, printed: seq<char>, code: Option<seq<char>>, lines: seq<seq<char>>, rest: seq<char>)
      requires Standing(sb, Turn, n, first, Flatten(lines) + rest, start, progress, threw, seen, printed, code)
      requires IsFtpReply(lines) && n >= |lines|
      ensures sb.Valid() && Reads(seen) && start <= sb.rep.sock.taken
      ensures Flatten(seen) == sb.rep.sock.arrived[start..sb.rep.sock.taken]
      ensures threw ==> sb.rep.sock.readsFail
      ensures |lines| > 0 && |lines[0]| >= 3 && lines[0][..3][0] == lines[0][0]
      ensures !threw ==>
                if Uncut(lines, |first|, seen)
                then progress == Stopped && printed == Flatten(lines) && sb.InStream() == rest
                     && code == Some(lines[0][..3])
                else progress == if FirstCutLate(lines, |first|, seen) then Overran else Running
    {
      assert |lines| > 0 && |lines[0]| >= 3;
      hide Standing, Loop, Turn, Reads, Uncut, FirstCutLate, IsFtpReply, Flatten, AsRead;
      Stood(sb, Turn, n, first, Flatten(lines) + rest, start, progress, threw, seen, printed, code);
      LoopSoFar(lines, rest, first, seen, sb.rep.sock.Queue(), n, Stand(progress, printed, sb.Unread(), code, []));
    }

    /** Consumes exactly one reply, copies it to o, and returns its first digit. k is the number of its
        lines consumed; it is less than all of them only when a read fails. */
    method GetResponse(ghost lines: seq<seq<char>>, ghost rest: seq<char>) returns (r: Res<char>, ghost k: nat)
      requires Valid() && IsFtpReply(lines) && AtLine(sb, lines, 0, rest)
      modifies replycode, o, sb`gptr, sb`egptr, sb.gbuf, sb.rep.sock`taken
      ensures AtLine(sb, lines, k, rest)
      ensures o != null ==> o.text == old(o.text) + Flatten(lines[..k])
      ensures r.Returned? ==> sb.Valid() && r.value == lines[0][0] && k == |lines| && sb.InStream() == rest
      ensures r.Threw? ==> k < |lines| && sb.rep.sock.readsFail
    {
      hide *;
      k := 0;
      var firstline := true;
      ghost var printed := if o == null then [] else o.text;
      Starts(lines);
      while true
        invariant Valid() && k < |lines| && AtLine(sb, lines, k, rest)
        invariant o != null ==> o.text == printed + Flatten(lines[..k])
        invariant (firstline <==> k == 0) && (k > 0 ==> Knows(lines[0][..3]))
        decreases |lines| - k
      {
        var u := Await(lines, k, rest);
        if u.Threw? {
          return Threw(u.exn), k;
        }
        if u.value == Eof {
          break;
        }
        FlattenSnoc(lines, k);
        var last := TakeLine(lines, k, rest, firstline);
        k, firstline := k + 1, false;
        if last {
          break;
        }
      }
      AllTaken(lines, rest);
      FirstDigit(lines[0][..3]);
      return Returned(replycode[0]), k;
    }

    lemma FirstDigit(c: seq<char>)
      requires Knows(c)
      ensures |c| == 3 && replycode[0] == c[0]
    {
    }

    lemma Starts(lines: seq<seq<char>>)
      requires IsFtpReply(lines) && Valid()
      ensures replycode.Length == 5 && replycode != sb.gbuf
      ensures |lines| > 0 && |lines[0]| >= 3 && Flatten(lines[..0]) == []
    {
    }

    lemma AllTaken(lines: seq<seq<char>>, rest: seq<char>)
      requires AtLine(sb, lines, |lines|, rest)
      ensures sb.Valid() && sb.InStream() == rest
    {
      assert lines[|lines|..] == [];
    }

    /** send_cmd up to and including sync. */
    method SendLine(cmd: seq<char>, arg: Option<seq<char>>) returns (r: Res<()>)
      requires sb.Valid()
      modifies sb`pptr, sb`epptr, sb.pbuf, sb.rep.sock`sent
      ensures sb.Valid() && Went(old(sb.OutStream()), Kept(sb, Line(cmd, arg)), sb.OutStream(), r.Returned?)
      ensures r.Returned? ==> sb.Pending() == []
      ensures r.Threw? ==> sb.rep.sock.writesFail
    {
      hide Went;
      ghost var before, line := sb.OutStream(), Line(cmd, arg);
      ghost var space: seq<char> := if arg.Some? then " " else [];
      var _ :- Put(sb, cmd, before, [], line);
      var _ :- PutOption(sb, if arg.Some? then Some(" ") else None, before, cmd, line);
      var _ :- PutOption(sb, arg, before, cmd + space, line);
      r := Finish(sb, before, cmd + space + OrEmpty(arg));
    }

    /** send_cmd. While the client waits the server's reply arrives; lines is what it consists of. */
    method SendCmd(cmd: seq<char>, arg: Option<seq<char>>, reply: seq<char>, ghost lines: seq<seq<char>>)
      returns (r: Res<char>)
      requires Valid() && sb.Valid() && sb.gbuf != null && sb.pbuf != null && sb.InStream() == []
      requires IsFtpReply(lines) && reply == Flatten(lines) && sb.rep.sock.lineReads
      requires forall i :: 0 <= i < |lines| ==> 5 <= |lines[i]| <= sb.gbuf.Length
      modifies replycode, o, sb`gptr, sb`egptr, sb.gbuf, sb.rep.sock`taken, sb.rep.sock`arrived
      modifies sb`pptr, sb`epptr, sb.pbuf, sb.rep.sock`sent
      ensures sb.Valid() && (r.Threw? ==> sb.rep.sock.writesFail || sb.rep.sock.readsFail)
      ensures Went(old(sb.OutStream()), Line(cmd, arg), sb.OutStream(), r.Returned?)
      ensures r.Returned? ==>
                && sb.rep.sock.sent == old(sb.OutStream()) + Line(cmd, arg)
                && r.value == lines[0][0] && sb.InStream() == []
                && (o != null ==> o.text == old(o.text) + reply)
    {
      hide IsFtpReply, Line, Flatten;
      var s := SendLine(cmd, arg);
      if s.Threw? {
        return Threw(s.exn);
      }
      ghost var line := Line(cmd, arg);
      assert sb.rep.sock.sent == old(sb.OutStream()) + line;
      sb.rep.sock.Arrive(reply);
      ReplyComes(lines);
      WentAll(old(sb.OutStream()), line);
      hide AtLine, Went;
      r := ReadReply(lines);
    }

    /** get_response, when nothing comes after the reply. */
    method ReadReply(ghost lines: seq<seq<char>>) returns (r: Res<char>)
      requires Valid() && IsFtpReply(lines) && AtLine(sb, lines, 0, [])
      modifies replycode, o, sb`gptr, sb`egptr, sb.gbuf, sb.rep.sock`taken
      ensures sb.Valid() && (r.Threw? ==> sb.rep.sock.readsFail)
      ensures r.Returned? ==> |lines| > 0 && |lines[0]| > 0 && r.value == lines[0][0] && sb.InStream() == []
      ensures r.Returned? && o != null ==> o.text == old(o.text) + Flatten(lines)
    {
      hide *;
      Starts(lines);
      ghost var k;
      r, k := GetResponse(lines, []);
      assert lines[..|lines|] == lines;
      StillValid(lines, k);
    }

    lemma StillValid(lines: seq<seq<char>>, k: nat)
      requires AtLine(sb, lines, k, [])
      ensures sb.Valid()
    {
    }

    lemma ReplyComes(lines: seq<seq<char>>)
      requires sb.Valid() && sb.gbuf != null && sb.Unread() == [] && sb.rep.sock.Queue() == Flatten(lines)
      requires sb.rep.sock.lineReads && forall i :: 0 <= i < |lines| ==> 5 <= |lines[i]| <= sb.gbuf.Length
      ensures AtLine(sb, lines, 0, [])
    {
      assert lines[0..] == lines;
    }

    /** useraddr (sa), up to the reply: address h and port of sa, or for the any-address what the local
        host's name resolves to, if it does. */
    method SendPort(h: seq<nat>, port: nat, local: Option<seq<nat>>) returns (r: Res<()>, ghost arg: seq<char>)
      requires sb.Valid() && IsAddress(h) && port < 65536 && (local.Some? ==> IsAddress(local.value))
      modifies sb`pptr, sb`epptr, sb.pbuf, sb.rep.sock`sent
      ensures sb.Valid()
      ensures h == [0, 0, 0, 0] && local == None ==> r == Threw(Err) && sb.OutStream() == old(sb.OutStream())
      ensures h != [0, 0, 0, 0] || local.Some? ==>
                && Went(old(sb.OutStream()), Kept(sb, "PORT " + arg + "\r\n"), sb.OutStream(), r.Returned?)
                && (r.Threw? ==> sb.rep.sock.writesFail)
      ensures h == [0, 0, 0, 0] && local.Some? ==>
                arg == PortArg(local.value, port) && ParsePort(arg) == Some(local.value + [port / 256, port % 256])
      ensures h != [0, 0, 0, 0] ==>
                arg == PortArg(h, port) && ParsePort(arg) == Some(h + [port / 256, port % 256])
      ensures r.Returned? ==> sb.Pending() == []
    {
      arg := [];
      var a := h;
      if h == [0, 0, 0, 0] {
        if local == None {
          return Threw(Err), arg;
        }
        a := local.value;
      }
      var addr := BuildPortArg(a, port);
      arg := addr;
      PortRoundTrip(a, port);
      PortSpelled(arg);
      hide Went, Line, PortArg, ParsePort;
      r := SendLine("PORT", Some(addr));
    }

    lemma PortSpelled(arg: seq<char>)
      ensures Line("PORT", Some(arg)) == "PORT " + arg + "\r\n"
    {
    }
  }

  predicate IsAddress(h: seq<nat>) {
    |h| == 4 && forall i :: 0 <= i < 4 ==> h[i] < 256
  }

  /** After a PORT command went out, the server reads off its line the address and port that were asked for. */
  lemma PortLineParses(h: seq<nat>, port: nat)
    requires IsAddress(h) && port < 65536
    ensures var line := Line("PORT", Some(PortArg(h, port)));
            line[..5] == "PORT " && ParsePort(line[5..|line| - 2]) == Some(h + [port / 256, port % 256])
  {
    PortRoundTrip(h, port);
    hide ParsePort, PortArg;
    var line := Line("PORT", Some(PortArg(h, port)));
    assert line == "PORT " + PortArg(h, port) + CRLF;
    assert line[5..|line| - 2] == PortArg(h, port);
  }

  // ---------------------------------------------------------------- the sending half of ftpdata

  /** One chunk of the file, which follows done, goes into c. */
  method SendChunk(c: Sockbuf, chunk: seq<char>, ghost before: seq<char>, ghost done: seq<char>, ghost data: seq<char>)
    returns (r: Res<nat>)
    requires c.Valid() && c.pbuf != null && c.OutStream() == before + done && done + chunk <= data
    modifies c`pptr, c`epptr, c.pbuf, c.rep.sock`sent
    ensures c.Valid()
    ensures r.Returned? ==> r.value == |chunk| && c.OutStream() == before + (done + chunk)
    ensures r.Threw? ==> c.rep.sock.writesFail && Went(before, data, c.OutStream(), false)
  {
    ghost var k;
    r, k := c.Xsputn(chunk);
    if r.Threw? {
      assert before + done + chunk[..k] + chunk[k..] == before + done + chunk;
      WentPart(before, done, chunk, data, c.OutStream());
    }
  }

  /** The loop of ftpdata over the data connection c; i stands for the local file's streambuf, which answers 0 at the
      end and after a failed read. complaints counts the times "write error" would be printed. */
  method SendFile(c: Sockbuf, i: File) returns (r: Res<()>, complaints: nat)
    requires c.Valid() && c.pbuf != null && i.Valid() && i.pos == 0
    modifies i`pos, c`pptr, c`epptr, c.pbuf, c.rep.sock`sent
    ensures c.Valid() && i.Valid() && Went(old(c.OutStream()), i.Taken(), c.OutStream(), r.Returned?)
    ensures r.Threw? ==> c.rep.sock.writesFail
    ensures r.Returned? && !i.readsFail ==> i.Taken() == i.data
    ensures complaints == 0
  {
    hide Went;
    complaints := 0;
    ghost var before, done := c.OutStream(), [];
    var buf := new char[1024];
    var rdsz := i.Read(buf, 1024);
    while rdsz > 0
      invariant c.Valid() && c.OutStream() == before + done
      invariant rdsz <= buf.Length && i.Valid() && i.Taken() == done + if rdsz > 0 then buf[..rdsz] else []
      invariant rdsz == 0 ==> i.Taken() == i.data
      invariant rdsz < 0 ==> i.readsFail
      invariant complaints == 0
      decreases |i.data| - i.pos + if rdsz > 0 then rdsz else 0
    {
      ghost var chunk := buf[..rdsz];
      var w := SendChunk(c, buf[..rdsz], before, done, i.Taken());
      if w.Threw? {
        return Threw(w.exn), complaints;
      }
      done := done + chunk;
      complaints := complaints + if rdsz != w.value then 1 else 0;
      rdsz := i.Read(buf, 1024);
    }
    assert done + [] == done;
    WentAll(before, done);
    return Returned(()), complaints;
  }

  /** The loop, and the data connection's destruction at the end of its scope: what could be read of the file is on
      the wire. */
  method Upload(c: Sockbuf, i: File) returns (r: Res<()>)
    requires c.Valid() && c.pbuf != null && c.rep.useCount > 0 && i.Valid() && i.pos == 0 && !c.rep.sock.writesFail
    modifies i`pos, c`pptr, c`epptr, c.pbuf, c.rep`useCount, c.rep.sock`sent, c.rep.sock`closes
    ensures r.Returned? && c.Valid() && i.Valid() && c.rep.sock.sent == old(c.OutStream()) + i.Taken()
    ensures !i.readsFail ==> i.Taken() == i.data
  {
    var _, _ := SendFile(c, i);
    r := c.Destroy();
  }
}
