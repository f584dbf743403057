/** What the SMTP and FTP client buffers share: sending the parts of a command, and finding, refilling
    and passing on one line of a reply. */
module Protocol {
  import opened Lines
  import opened Sockets
  import opened SockStream
  import opened ReplyReads

  /** std::ostream, as far as write is concerned. */
  class Output {
    var text: seq<char>

    constructor ()
      ensures text == []
    {
      text := [];
    }

    method Write(buf: array<char>, from: nat, n: nat)
      requires from + n <= buf.Length
      modifies `text
      ensures text == old(text) + buf[from..from + n]
    {
      text := text + buf[from..from + n];
    }
  }

  /** Nothing, or whole lines. */
  predicate LinesOnly(buffered: seq<char>) {
    buffered == [] || EndsCrlf(buffered)
  }

  /** The search common to both get_response functions: i is one past the first CR LF in the n unread
      bytes, or n+1 when they hold none. */
  method LineEnd(sb: Sockbuf, n: nat) returns (i: nat)
    requires sb.Valid() && sb.gbuf != null && n == |sb.Unread()| && n >= 2
    ensures i == if CrlfAt(sb.Unread()) < n then CrlfAt(sb.Unread()) + 2 else n + 1
  {
    ghost var unread := sb.Unread();
    var p := sb.gptr;
    i := 2;
    while i <= n
      invariant 2 <= i <= n + 1 && p == sb.gptr + i - 2
      invariant forall j :: j < i - 2 ==> !CrlfPair(unread, j)
    {
      assert unread[i - 2] == sb.gbuf[p] && unread[i - 1] == sb.gbuf[p + 1];
      if sb.gbuf[p] == '\r' && sb.gbuf[p + 1] == '\n' {
        assert CrlfPair(unread, i - 2);
        return;
      }
      assert !CrlfPair(unread, i - 2);
      i, p := i + 1, p + 1;
    }
  }

  lemma SliceJoin(s: seq<char>, a: nat, b: nat, c: nat)
    requires a <= b <= c <= |s|
    ensures s[a..b] + s[b..c] == s[a..c]
  {
  }

  /** underflow at the start of a turn; more is what it reads, if it has to. */
  method NextBytes(sb: Sockbuf) returns (u: Res<IntType>, ghost more: seq<seq<char>>)
    requires sb.Valid() && sb.gbuf != null
    modifies sb`gptr, sb`egptr, sb.gbuf, sb.rep.sock`taken
    ensures sb.Valid() && old(sb.rep.sock.taken) <= sb.rep.sock.taken && sb.InStream() == old(sb.InStream())
    ensures Flatten(more) == sb.rep.sock.arrived[old(sb.rep.sock.taken)..sb.rep.sock.taken] && Reads(more)
    ensures u.Returned? && u.value != Eof ==>
              && sb.Unread() != [] && old(sb.Unread()) + Flatten(more) == sb.Unread()
              && more == if old(sb.Unread()) == [] then [sb.Unread()] else []
    ensures old(sb.Unread()) != [] ==> sb.Unread() == old(sb.Unread())
    ensures u.Threw? || u.value == Eof ==> sb.Unread() == old(sb.Unread()) == [] && more == []
    ensures u == Returned(Eof) ==> sb.rep.sock.ended && sb.InStream() == []
    ensures u.Threw? ==> sb.rep.sock.readsFail || (sb.InStream() == [] && !sb.rep.sock.ended)
  {
    hide Flatten;
    ghost var unread := sb.Unread();
    u := sb.Underflow();
    more := if unread == [] && sb.Unread() != [] then [sb.Unread()] else [];
    QueueMoved(sb.rep.sock.arrived, old(sb.rep.sock.taken), sb.rep.sock.taken, unread, sb.Unread());
  }

  lemma QueueMoved(arrived: seq<char>, start: nat, now: nat, before: seq<char>, after: seq<char>)
    requires start <= |arrived| && now <= |arrived| && before + arrived[start..] == after + arrived[now..]
    requires before == [] || before == after
    ensures start <= now
    ensures before == [] ==> after == arrived[start..now] && (after == [] ==> now == start)
    ensures before != [] ==> now == start
    ensures Flatten([]) == [] && Flatten([after]) == after
    ensures before + [] == before && [] + after == after && arrived[start..start] == []
  {
    assert |before| + |arrived| - start == |after| + |arrived| - now;
    if before == [] {
      assert [] + arrived[start..] == arrived[start..];
      assert arrived[start..][..|after|] == (after + arrived[now..])[..|after|] == after;
    }
    assert Flatten([after]) == after + Flatten([after][1..]);
  }

  /** Where a loop stands that began when first was unread, stream was to come, and start bytes had been read:
      exactly where Loop puts it that has seen these reads, and no others. It has printed this. When underflow
      has returned EOF, or thrown, it waits. */
  ghost predicate Standing(sb: Sockbuf, turn: (seq<char>, Option<seq<char>>) -> Turned, i: nat, first: seq<char>,
      stream: seq<char>, start: nat, progress: Progress, threw: bool, seen: seq<seq<char>>, printed: seq<char>,
      code: Option<seq<char>>)
    reads sb, sb.rep, sb.rep.sock, sb.gbuf
  {
    && sb.Valid() && sb.gbuf != null && Reads(seen)
    && start <= sb.rep.sock.taken && stream == first + sb.rep.sock.arrived[start..]
    && Flatten(seen) == sb.rep.sock.arrived[start..sb.rep.sock.taken]
    && Loop(turn, i, first, None, seen) == Stand(progress, printed, sb.Unread(), code, [])
    && Takes(stream, printed, sb.InStream())
    && (threw ==> progress.Waiting? && (sb.rep.sock.readsFail || (sb.InStream() == [] && !sb.rep.sock.ended)))
    && (!threw && progress.Waiting? ==> sb.InStream() == [] && sb.rep.sock.ended)
  }

  lemma StandsAtFirst(sb: Sockbuf, turn: (seq<char>, Option<seq<char>>) -> Turned)
    requires sb.Valid() && sb.gbuf != null
    ensures Standing(sb, turn, 0, sb.Unread(), sb.InStream(), sb.rep.sock.taken, Running, false, [], [], None)
  {
    TakesNothing(sb.InStream());
    NoReads();
  }

  /** What a standing loop knows of the stream. */
  lemma Stood(sb: Sockbuf, turn: (seq<char>, Option<seq<char>>) -> Turned, n: nat, first: seq<char>,
      stream: seq<char>, start: nat, progress: Progress, threw: bool, seen: seq<seq<char>>, printed: seq<char>,
      code: Option<seq<char>>)
    requires Standing(sb, turn, n, first, stream, start, progress, threw, seen, printed, code)
    ensures sb.Valid() && sb.gbuf != null && Reads(seen) && start <= sb.rep.sock.taken
    ensures Flatten(seen) == sb.rep.sock.arrived[start..sb.rep.sock.taken]
    ensures first + Flatten(seen) + sb.rep.sock.Queue() == stream
    ensures sb.InStream() == sb.Unread() + sb.rep.sock.Queue()
    ensures Stand(progress, printed, sb.Unread(), code, []) == Loop(turn, n, first, None, seen)
    ensures threw ==> progress.Waiting? && (sb.rep.sock.readsFail || sb.rep.sock.Queue() == [])
    ensures !threw && progress.Waiting? ==> sb.rep.sock.Queue() == []
  {
    hide Loop, Takes, Flatten, Reads;
    StreamParts(sb.rep.sock.arrived, first, start, sb.rep.sock.taken);
  }

  lemma StreamParts(arrived: seq<char>, first: seq<char>, start: nat, taken: nat)
    requires start <= taken <= |arrived|
    ensures first + arrived[start..taken] + arrived[taken..] == first + arrived[start..]
  {
    SliceJoin(arrived, start, taken, |arrived|);
  }

  lemma NotYetThrown(sb: Sockbuf, turn: (seq<char>, Option<seq<char>>) -> Turned, i: nat,
      first: seq<char>, stream: seq<char>, start: nat, threw: bool, seen: seq<seq<char>>, printed: seq<char>,
      code: Option<seq<char>>)
    requires Standing(sb, turn, i, first, stream, start, Running, threw, seen, printed, code)
    ensures !threw
  {
  }

  lemma StandsFor(sb: Sockbuf, turn: (seq<char>, Option<seq<char>>) -> Turned, i: nat, m: nat,
      first: seq<char>, stream: seq<char>, start: nat, progress: Progress, threw: bool, seen: seq<seq<char>>,
      printed: seq<char>, code: Option<seq<char>>)
    requires Standing(sb, turn, i, first, stream, start, progress, threw, seen, printed, code) && progress != Running
    ensures Standing(sb, turn, i + m, first, stream, start, progress, threw, seen, printed, code)
  {
    LoopEnded(turn, i, m, first, None, seen);
    hide Loop, Takes, Flatten, Reads;
  }

  lemma TurnsJoin(arrived: seq<char>, start: nat, mark: nat, now: nat, seen: seq<seq<char>>,
      more: seq<seq<char>>)
    requires start <= mark <= now <= |arrived| && Reads(seen) && Reads(more)
    requires Flatten(seen) == arrived[start..mark] && Flatten(more) == arrived[mark..now]
    ensures Reads(seen + more) && Flatten(seen + more) == arrived[start..now]
  {
    ReadsJoin(seen, more);
    SliceJoin(arrived, start, mark, now);
  }

  /** Writes the next i unread bytes to output, if there is one, and steps over them. */
  method Pass(sb: Sockbuf, output: Output?, i: nat)
    requires sb.Valid() && sb.gbuf != null && i <= |sb.Unread()|
    modifies sb`gptr, output
    ensures sb.Valid() && sb.Unread() == old(sb.Unread()[i..])
    ensures Takes(old(sb.InStream()), old(sb.Unread()[..i]), sb.InStream())
    ensures output != null ==> output.text == old(output.text) + old(sb.Unread()[..i])
  {
    assert sb.gbuf[sb.gptr..sb.gptr + i] == sb.Unread()[..i];
    if output != null {
      output.Write(sb.gbuf, sb.gptr, i);
    }
    sb.Gbump(i);
  }

  /** The get area holds the whole of line, its first. */
  ghost predicate LineBuffered(line: seq<char>, unread: seq<char>) {
    2 <= |line| <= |unread| && unread[..|line|] == line && CrlfAt(unread) + 2 == |line|
  }

  /** A line that is in the get area whole is its first. */
  lemma LineIsFirst(unread: seq<char>, queue: seq<char>, line: seq<char>, more: seq<char>)
    requires IsLine(line) && unread + queue == line + more && |line| <= |unread|
    ensures LineBuffered(line, unread)
  {
    hide CrlfAt;
    assert unread == (unread + queue)[..|unread|];
    assert unread[..|line|] == (line + more)[..|line|] == line;
    assert CrlfPair(line, |line| - 2) && CrlfPair(unread, |line| - 2);
    assert CrlfAt(unread) < |line| - 2 ==> CrlfPair(line, CrlfAt(unread));
  }

  lemma LineComes(queue: seq<char>, line: seq<char>, more: seq<char>)
    requires IsLine(line) && queue == line + more
    ensures WholeLines(queue, |line|)
  {
    assert queue[..|line|] == line;
  }

  lemma LineIsBuffered(unread: seq<char>, queue: seq<char>, line: seq<char>, more: seq<char>)
    requires IsLine(line) && |line| >= 5 && unread + queue == line + more && EndsCrlf(unread)
    ensures LineBuffered(line, unread) && |unread| >= 5 && LinesOnly(unread) && LinesOnly(unread[|line|..])
  {
    assert unread <= unread + queue;
    FirstLineBuffered(unread, line, more);
  }

  /** underflow with line next in the stream: afterwards it is buffered. Either it was buffered whole
      before, or the kernel delivers whole lines and the get area holds nothing else. */
  method BufferLine(sb: Sockbuf, ghost line: seq<char>, ghost more: seq<char>, ghost whole: bool)
    returns (u: Res<IntType>)
    requires sb.Valid() && sb.gbuf != null && IsLine(line) && sb.InStream() == line + more
    requires if whole then |line| <= |sb.Unread()| && 5 <= |sb.Unread()|
             else sb.rep.sock.lineReads && 5 <= |line| <= sb.gbuf.Length && LinesOnly(sb.Unread())
    modifies sb`gptr, sb`egptr, sb.gbuf, sb.rep.sock`taken
    ensures sb.Valid() && sb.InStream() == line + more
    ensures whole ==> sb.Unread() == old(sb.Unread())
    ensures !whole ==> LinesOnly(sb.Unread())
    ensures u.Threw? ==> sb.rep.sock.readsFail
    ensures u.Returned? ==> u.value != Eof && sb.egptr - sb.gptr >= 5 && LineBuffered(line, sb.Unread())
    ensures u.Returned? && !whole ==> LinesOnly(sb.Unread()[|line|..])
  {
    hide IsLine, LineBuffered;
    if sb.Unread() == [] {
      assert [] + sb.rep.sock.Queue() == sb.rep.sock.Queue();
      LineComes(sb.rep.sock.Queue(), line, more);
    }
    u := sb.Underflow();
    if u.Returned? {
      if whole {
        LineIsFirst(sb.Unread(), sb.rep.sock.Queue(), line, more);
      } else {
        LineIsBuffered(sb.Unread(), sb.rep.sock.Queue(), line, more);
      }
    }
  }

  // ---------------------------------------------------------------- sending

  /** Of text, what came before has been followed by a part: by all of it when done. */
  ghost predicate Went(before: seq<char>, text: seq<char>, now: seq<char>, done: bool) {
    before <= now <= before + text && (done ==> now == before + text)
  }

  lemma WentAll(before: seq<char>, text: seq<char>)
    ensures Went(before, text, before + text, true) && Went(before, text, before + text, false)
  {
  }

  lemma WentDone(before: seq<char>, text: seq<char>, now: seq<char>)
    requires Went(before, text, now, true)
    ensures now == before + text
  {
  }

  lemma WentPart(before: seq<char>, done: seq<char>, part: seq<char>, text: seq<char>, now: seq<char>)
    requires Went(before + done, part, now, false) && done + part <= text
    ensures Went(before, text, now, false)
  {
    assert before + done + part + text[|done + part|..] == before + text;
    assert before <= before + done;
  }

  lemma WentLess(before: seq<char>, a: seq<char>, now: seq<char>, b: seq<char>)
    requires Went(before, a, now, false)
    ensures Went(before, a + b, now, false)
  {
    assert before + a + b == before + (a + b);
  }

  function OrEmpty(s: Option<seq<char>>): seq<char> {
    if s.Some? then s.value else []
  }

  /** A stream that has been shut down takes nothing, and says nothing. */
  ghost function Kept(sb: Sockbuf, s: seq<char>): seq<char>
    reads sb`pbuf
  {
    if sb.pbuf == null then [] else s
  }

  lemma KeptBoth(sb: Sockbuf, before: seq<char>, a: seq<char>, b: seq<char>)
    ensures before + Kept(sb, a) + Kept(sb, b) == before + Kept(sb, a + b)
    ensures a <= b ==> Kept(sb, a) <= Kept(sb, b)
    ensures Kept(sb, a + b) == Kept(sb, a) + Kept(sb, b)
  {
  }

  /** xsputn and sputc as called here: the result is not looked at. Part is the piece of text that
      comes after done. */
  method Put(sb: Sockbuf, part: seq<char>, ghost before: seq<char>, ghost done: seq<char>, ghost text: seq<char>)
    returns (r: Res<()>)
    requires sb.Valid() && sb.OutStream() == before + Kept(sb, done) && done + part <= text
    modifies sb`pptr, sb`epptr, sb.pbuf, sb.rep.sock`sent
    ensures sb.Valid()
    ensures r.Returned? ==> sb.OutStream() == before + Kept(sb, done + part)
    ensures r.Threw? ==> sb.rep.sock.writesFail && Went(before, Kept(sb, text), sb.OutStream(), false)
  {
    var n, k := sb.Xsputn(part);
    if n.Threw? {
      assert before + done + part[..k] + part[k..] == before + done + part;
      WentPart(before, done, part, text, sb.OutStream());
      return Threw(n.exn);
    }
    return Returned(());
  }

  method PutOption(sb: Sockbuf, part: Option<seq<char>>, ghost before: seq<char>, ghost done: seq<char>,
      ghost text: seq<char>)
    returns (r: Res<()>)
    requires sb.Valid() && sb.OutStream() == before + Kept(sb, done) && done + OrEmpty(part) <= text
    modifies sb`pptr, sb`epptr, sb.pbuf, sb.rep.sock`sent
    ensures sb.Valid()
    ensures r.Returned? ==> sb.OutStream() == before + Kept(sb, done + OrEmpty(part))
    ensures r.Threw? ==> sb.rep.sock.writesFail && Went(before, Kept(sb, text), sb.OutStream(), false)
  {
    if part.Some? {
      r := Put(sb, part.value, before, done, text);
    } else {
      assert done + [] == done;
      r := Returned(());
    }
  }

  /** The end of send_cmd: the line's CR LF, and sync. */
  method Finish(sb: Sockbuf, ghost before: seq<char>, ghost done: seq<char>) returns (r: Res<()>)
    requires sb.Valid() && sb.OutStream() == before + Kept(sb, done)
    modifies sb`pptr, sb`epptr, sb.pbuf, sb.rep.sock`sent
    ensures sb.Valid() && Went(before, Kept(sb, done + CRLF), sb.OutStream(), r.Returned?)
    ensures r.Returned? ==> sb.Pending() == []
    ensures r.Threw? ==> sb.rep.sock.writesFail
  {
    var _ :- Put(sb, CRLF, before, done, done + CRLF);
    WentAll(before, Kept(sb, done + CRLF));
    var _ :- sb.Sync();
    return Returned(());
  }

  method PutChar(sb: Sockbuf, c: char, ghost before: seq<char>, ghost done: seq<char>, ghost text: seq<char>)
    returns (r: Res<()>)
    requires sb.Valid() && sb.OutStream() == before + Kept(sb, done) && done + [c] <= text
    modifies sb`pptr, sb`epptr, sb.pbuf, sb.rep.sock`sent
    ensures sb.Valid()
    ensures r.Returned? ==> sb.OutStream() == before + Kept(sb, done + [c])
    ensures r.Threw? ==> sb.rep.sock.writesFail && Went(before, Kept(sb, text), sb.OutStream(), false)
  {
    var n := sb.Sputc(c);
    if n.Threw? {
      WentPart(before, done, [c], text, sb.OutStream());
      return Threw(n.exn);
    }
    return Returned(());
  }
}
