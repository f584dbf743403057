/** How the reply readers of socket++/smtp.cpp and socket++/ftp.cpp depend on where the kernel ends a read. */
module ReplyReads {
  import opened Lines

  // ---------------------------------------------------------------- the loop, turn by turn

  datatype Next = GoOn | Stop | Overrun

  /** What a turn of get_response's loop does with the unread bytes: prints and steps over got; knows the
      reply's code from then on, if it keeps one; and goes on, stops, or is about to step past the get area. */
  datatype Turned = Turned(got: seq<char>, left: seq<char>, code: Option<seq<char>>, next: Next)

  /** A loop may have had its turns; have stopped; be about to overrun; or want to read when there are no more
      reads. */
  datatype Progress = Running | Stopped | Overran | Waiting

  /** Where a loop stands: what it has printed, what is unread, and the reads it has not seen yet. */
  datatype Stand = Stand(progress: Progress, printed: seq<char>, unread: seq<char>, code: Option<seq<char>>,
                         chunks: seq<seq<char>>)
  {
    /** The same, with text printed before. */
    function After(text: seq<char>): Stand {
      this.(printed := text + printed)
    }

    /** Stopped, with text printed and taken, and nothing of what follows it. */
    ghost predicate Took(text: seq<char>, rest: seq<char>) {
      progress == Stopped && printed == text && unread + Flatten(chunks) == rest
    }
  }

  /** n turns of a loop; each begins with underflow, which reads the next chunk when nothing is unread. */
  function Loop(turn: (seq<char>, Option<seq<char>>) -> Turned, n: nat, unread: seq<char>, code: Option<seq<char>>,
                chunks: seq<seq<char>>): Stand
  {
    if n == 0 then Stand(Running, [], unread, code, chunks)
    else if unread == [] && chunks == [] then Stand(Waiting, [], unread, code, chunks)
    else
      var (u, more) := if unread == [] then (chunks[0], chunks[1..]) else (unread, chunks);
      var t := turn(u, code);
      match t.next
      case GoOn => Loop(turn, n - 1, t.left, t.code, more).After(t.got)
      case Stop => Stand(Stopped, t.got, t.left, t.code, more)
      case Overrun => Stand(Overran, t.got, t.left, t.code, more)
  }

  lemma LoopStep(turn: (seq<char>, Option<seq<char>>) -> Turned, n: nat, unread: seq<char>,
      code: Option<seq<char>>, chunks: seq<seq<char>>)
    requires n > 0 && unread != []
    ensures var t := turn(unread, code);
            Loop(turn, n, unread, code, chunks) ==
            match t.next
            case GoOn => Loop(turn, n - 1, t.left, t.code, chunks).After(t.got)
            case Stop => Stand(Stopped, t.got, t.left, t.code, chunks)
            case Overrun => Stand(Overran, t.got, t.left, t.code, chunks)
  {
  }

  lemma AfterTwice(s: Stand, a: seq<char>, b: seq<char>)
    ensures s.After(b).After(a) == s.After(a + b)
    ensures s.After([]) == s
  {
    assert a + b + s.printed == a + (b + s.printed);
  }

  lemma FirstOf(chunks: seq<seq<char>>, more: seq<seq<char>>)
    requires chunks != []
    ensures (chunks + more)[0] == chunks[0] && (chunks + more)[1..] == chunks[1..] + more
  {
  }

  /** More turns, and more reads: a loop that was running takes them up where it stands; one that has ended
      does not see them. */
  lemma {:induction false} LoopThen(turn: (seq<char>, Option<seq<char>>) -> Turned, n: nat, m: nat, unread: seq<char>,
      code: Option<seq<char>>, chunks: seq<seq<char>>, more: seq<seq<char>>)
    ensures var s := Loop(turn, n, unread, code, chunks);
            match s.progress
            case Running => Loop(turn, n + m, unread, code, chunks + more)
                         == Loop(turn, m, s.unread, s.code, s.chunks + more).After(s.printed)
            case Waiting => true
            case _ => Loop(turn, n + m, unread, code, chunks + more) == s.(chunks := s.chunks + more)
    decreases n
  {
    if n == 0 {
      AfterTwice(Loop(turn, m, unread, code, chunks + more), [], []);
    } else if unread != [] || chunks != [] {
      if unread == [] {
        FirstOf(chunks, more);
      }
      var (u, later) := if unread == [] then (chunks[0], chunks[1..]) else (unread, chunks);
      var t := turn(u, code);
      if t.next.GoOn? {
        LoopThen(turn, n - 1, m, t.left, t.code, later, more);
        var s := Loop(turn, n - 1, t.left, t.code, later);
        AfterTwice(Loop(turn, m, s.unread, s.code, s.chunks + more), t.got, s.printed);
      }
    }
  }

  /** A loop that has ended, or waits, is where it was after more turns. */
  lemma {:induction false} LoopEnded(turn: (seq<char>, Option<seq<char>>) -> Turned, n: nat, m: nat,
      unread: seq<char>, code: Option<seq<char>>, chunks: seq<seq<char>>)
    requires Loop(turn, n, unread, code, chunks).progress != Running
    ensures Loop(turn, n + m, unread, code, chunks) == Loop(turn, n, unread, code, chunks)
    decreases n
  {
    if n > 0 && (unread != [] || chunks != []) {
      var (u, later) := if unread == [] then (chunks[0], chunks[1..]) else (unread, chunks);
      var t := turn(u, code);
      if t.next.GoOn? {
        LoopEnded(turn, n - 1, m, t.left, t.code, later);
      }
    }
  }

  function ProgressAfter(next: Next): Progress {
    match next
    case GoOn => Running
    case Stop => Stopped
    case Overrun => Overran
  }

  /** A running loop that has nothing left to read makes one more turn, with what underflow brings, if it
      brings something. */
  lemma OneMoreTurn(turn: (seq<char>, Option<seq<char>>) -> Turned, n: nat, first: seq<char>,
      code0: Option<seq<char>>, seen: seq<seq<char>>, s: Stand, more: seq<seq<char>>, unread: seq<char>)
    requires s == Loop(turn, n, first, code0, seen) && s.progress == Running && s.chunks == []
    requires unread != [] && if s.unread == [] then more == [unread] else more == [] && unread == s.unread
    ensures var t := turn(unread, s.code);
            Loop(turn, n + 1, first, code0, seen + more)
            == Stand(ProgressAfter(t.next), s.printed + t.got, t.left, t.code, [])
  {
    LoopThen(turn, n, 1, first, code0, seen, more);
    assert [] + more == more;
    LoopOnce(turn, s.unread, s.code, more, unread);
    hide Loop;
  }

  lemma LoopOnce(turn: (seq<char>, Option<seq<char>>) -> Turned, here: seq<char>,
      code: Option<seq<char>>, more: seq<seq<char>>, unread: seq<char>)
    requires unread != [] && if here == [] then more == [unread] else more == [] && unread == here
    ensures var t := turn(unread, code);
            Loop(turn, 1, here, code, more) == Stand(ProgressAfter(t.next), t.got, t.left, t.code, [])
  {
    var t := turn(unread, code);
    assert [unread][1..] == [] && t.got + [] == t.got;
    assert Loop(turn, 0, t.left, t.code, []) == Stand(Running, [], t.left, t.code, []);
  }

  lemma NoMoreReads(turn: (seq<char>, Option<seq<char>>) -> Turned, n: nat, first: seq<char>,
      code0: Option<seq<char>>, seen: seq<seq<char>>, s: Stand)
    requires s == Loop(turn, n, first, code0, seen) && s.progress == Running && s.chunks == [] && s.unread == []
    ensures Loop(turn, n + 1, first, code0, seen) == s.(progress := Waiting)
  {
    LoopThen(turn, n, 1, first, code0, seen, []);
    assert seen + [] == seen && s.printed + [] == s.printed;
  }

  /** underflow reads into an empty get area. */
  lemma Refill(turn: (seq<char>, Option<seq<char>>) -> Turned, n: nat, unread: seq<char>,
      code: Option<seq<char>>, chunks: seq<seq<char>>, stream: seq<char>)
    requires unread == [] && Reads(chunks) && unread + Flatten(chunks) == stream != [] && n > 0
    ensures chunks != [] && chunks[0] != [] && Reads(chunks[1..]) && chunks[0] + Flatten(chunks[1..]) == stream
    ensures Loop(turn, n, unread, code, chunks) == Loop(turn, n, chunks[0], code, chunks[1..])
  {
    assert unread + Flatten(chunks) == Flatten(chunks);
    assert forall c <- chunks[1..] :: c in chunks;
    assert chunks[0] in chunks;
  }

  lemma AfterTook(s: Stand, line: seq<char>, text: seq<char>, rest: seq<char>)
    ensures s.After(line).Took(line + text, rest) <==> s.Took(text, rest)
    ensures s.After(line).progress == s.progress && s.After(line).code == s.code
  {
    assert (line + s.printed)[|line|..] == s.printed && (line + text)[|line|..] == text;
  }

  lemma OnlyLine(lines: seq<seq<char>>, unread: seq<char>, chunks: seq<seq<char>>,
      code: Option<seq<char>>, rest: seq<char>)
    requires |lines| == 1 && |lines[0]| <= |unread|
    requires unread[|lines[0]|..] + Flatten(chunks) == Flatten(lines[1..]) + rest
    ensures lines[1..] == [] && Stand(Stopped, lines[0], unread[|lines[0]|..], code, chunks).Took(Flatten(lines), rest)
  {
  }

  /** A turn that changes nothing is followed by any number of such turns. */
  lemma {:induction false} Spins(turn: (seq<char>, Option<seq<char>>) -> Turned, n: nat, unread: seq<char>,
      code: Option<seq<char>>, chunks: seq<seq<char>>)
    requires unread != [] && turn(unread, code) == Turned([], unread, code, GoOn)
    ensures Loop(turn, n, unread, code, chunks) == Stand(Running, [], unread, code, chunks)
  {
    if n == 0 {
    } else {
      Spins(turn, n - 1, unread, code, chunks);
    }
  }

  // ---------------------------------------------------------------- reads that end inside a line

  /** Every read brings something; one that does not is the end of the stream. */
  ghost predicate Reads(chunks: seq<seq<char>>) {
    forall c <- chunks :: c != []
  }

  lemma NoReads()
    ensures Reads([]) && Flatten([]) == []
  {
  }

  lemma ReadsJoin(a: seq<seq<char>>, b: seq<seq<char>>)
    requires Reads(a) && Reads(b)
    ensures Reads(a + b) && Flatten(a + b) == Flatten(a) + Flatten(b)
  {
    FlattenAppend(a, b);
    hide Flatten;
  }

  /** What is still in the kernel's queue, as one read. */
  function AsRead(queue: seq<char>): (chunks: seq<seq<char>>)
    ensures Flatten(chunks) == queue && Reads(chunks)
  {
    if queue == [] then []
    else
      assert Flatten([queue]) == queue + Flatten([queue][1..]);
      [queue]
  }

  /** A loop that has had its turns stands where it would if the rest of the stream were to be read next. */
  lemma LoopAsIf(turn: (seq<char>, Option<seq<char>>) -> Turned, n: nat, first: seq<char>,
      code: Option<seq<char>>, seen: seq<seq<char>>, queue: seq<char>, s: Stand)
    requires s == Loop(turn, n, first, code, seen) && s.chunks == [] && (s.progress == Waiting ==> queue == [])
    ensures Loop(turn, n, first, code, seen + AsRead(queue)) == s.(chunks := AsRead(queue))
  {
    var more := AsRead(queue);
    LoopThen(turn, n, 0, first, code, seen, more);
    assert [] + more == more && s.printed + [] == s.printed && seen + [] == seen;
  }

  /** The loops look at a line only with five bytes unread. */
  function Need(line: seq<char>): nat {
    if |line| < 5 then 5 else |line|
  }

  lemma NeedIsMore(line: seq<char>)
    ensures Need(line) >= |line|
  {
  }

  /** A read that ends b bytes into the lines ends inside one of them, or less than five bytes after its start. */
  predicate CutAt(lines: seq<seq<char>>, b: int) {
    lines != [] && (0 < b < Need(lines[0]) || CutAt(lines[1..], b - |lines[0]|))
  }

  /** No read ends there: neither the one that ended b bytes into the lines, nor those that follow. */
  predicate Uncut(lines: seq<seq<char>>, b: int, chunks: seq<seq<char>>)
    decreases chunks
  {
    !CutAt(lines, b) && (chunks == [] || Uncut(lines, b + |chunks[0]|, chunks[1..]))
  }

  /** A read that ends b bytes into the lines, inside one of them, leaves five bytes of that line or more. */
  predicate CutLate(lines: seq<seq<char>>, b: int) {
    lines != [] && if 0 < b < Need(lines[0]) then b >= 5 else CutLate(lines[1..], b - |lines[0]|)
  }

  /** The first read that ends inside a line leaves five bytes of it or more. */
  predicate FirstCutLate(lines: seq<seq<char>>, b: int, chunks: seq<seq<char>>)
    decreases chunks
  {
    if CutAt(lines, b) then CutLate(lines, b) else chunks != [] && FirstCutLate(lines, b + |chunks[0]|, chunks[1..])
  }

  lemma {:induction false} NotBefore(lines: seq<seq<char>>, b: int)
    requires b <= 0
    ensures !CutAt(lines, b)
  {
    if lines == [] {
    } else {
      NotBefore(lines[1..], b - |lines[0]|);
    }
  }

  /** Past a line's last relevant byte, cuts are those of the lines that follow. */
  lemma {:induction false} UncutNext(lines: seq<seq<char>>, b: int, chunks: seq<seq<char>>)
    requires lines != [] && b >= Need(lines[0])
    ensures Uncut(lines, b, chunks) <==> Uncut(lines[1..], b - |lines[0]|, chunks)
    decreases chunks
  {
    if chunks == [] {
    } else {
      UncutNext(lines, b + |chunks[0]|, chunks[1..]);
    }
  }

  /** The same for where the first cut is. */
  lemma {:induction false} CutLateNext(lines: seq<seq<char>>, b: int, chunks: seq<seq<char>>)
    requires lines != [] && b >= Need(lines[0])
    ensures FirstCutLate(lines, b, chunks) <==> FirstCutLate(lines[1..], b - |lines[0]|, chunks)
    decreases chunks
  {
    if chunks == [] {
    } else {
      CutLateNext(lines, b + |chunks[0]|, chunks[1..]);
    }
  }

  lemma {:induction false} UncutNone(b: int, chunks: seq<seq<char>>)
    ensures Uncut([], b, chunks)
    decreases chunks
  {
    if chunks == [] {
    } else {
      UncutNone(b + |chunks[0]|, chunks[1..]);
    }
  }

  lemma UncutHere(lines: seq<seq<char>>, b: int, chunks: seq<seq<char>>)
    ensures CutAt(lines, b) ==> !Uncut(lines, b, chunks) && (FirstCutLate(lines, b, chunks) <==> CutLate(lines, b))
  {
  }

  lemma UncutRead(lines: seq<seq<char>>, chunks: seq<seq<char>>)
    requires chunks != []
    ensures Uncut(lines, 0, chunks) <==> Uncut(lines, |chunks[0]|, chunks[1..])
    ensures FirstCutLate(lines, 0, chunks) <==> FirstCutLate(lines, |chunks[0]|, chunks[1..])
  {
    NotBefore(lines, 0);
  }

  /** The unread bytes up to the first CR LF are the line, if it is there whole; else they hold no CR LF. */
  lemma {:induction false} LineOrNone(unread: seq<char>, queue: seq<char>, line: seq<char>, more: seq<char>)
    requires IsLine(line) && unread + queue == line + more
    ensures |line| <= |unread| ==> unread[..|line|] == line && CrlfAt(unread) + 2 == |line|
    ensures |line| <= |unread| ==> unread[|line|..] + queue == more
    ensures |unread| < |line| ==> unread == line[..|unread|] && CrlfAt(unread) == |unread|
  {
    hide CrlfAt;
    assert unread == (line + more)[..|unread|];
    if |line| <= |unread| {
      assert unread[..|line|] == (line + more)[..|line|] == line;
      assert more == (unread + queue)[|line|..];
      assert CrlfPair(line, |line| - 2) && CrlfPair(unread, |line| - 2);
      assert CrlfAt(unread) < |line| - 2 ==> CrlfPair(line, CrlfAt(unread));
    } else {
      assert CrlfAt(unread) < |unread| ==> CrlfPair(line, CrlfAt(unread));
    }
  }

  lemma DropLine(unread: seq<char>, queue: seq<char>, line: seq<char>, more: seq<char>)
    requires unread + queue == line + more && |line| <= |unread|
    ensures unread[|line|..] + queue == more && |unread[|line|..]| == |unread| - |line|
  {
    assert (unread + queue)[|line|..] == (line + more)[|line|..];
  }

  lemma FlattenNext(lines: seq<seq<char>>, rest: seq<char>)
    requires lines != []
    ensures Flatten(lines) + rest == lines[0] + (Flatten(lines[1..]) + rest)
    ensures Flatten(lines) == lines[0] + Flatten(lines[1..])
  {
  }

  lemma CutHere(lines: seq<seq<char>>, b: int)
    requires lines != [] && 0 < b < Need(lines[0])
    ensures CutAt(lines, b) && (CutLate(lines, b) <==> b >= 5)
  {
  }

  /** From the start of any of the lines there are at least five bytes. */
  ghost predicate FiveFrom(lines: seq<seq<char>>) {
    lines == [] || (|Flatten(lines)| >= 5 && FiveFrom(lines[1..]))
  }

  lemma {:induction false} NotAfter(lines: seq<seq<char>>, b: int)
    requires FiveFrom(lines) && b >= |Flatten(lines)|
    ensures !CutAt(lines, b)
  {
    if lines == [] {
    } else {
      NotAfter(lines[1..], b - |lines[0]|);
    }
  }

  lemma UncutAsRead(lines: seq<seq<char>>, b: int, chunks: seq<seq<char>>, queue: seq<char>)
    requires FiveFrom(lines) && b + |Flatten(chunks)| + |queue| >= |Flatten(lines)|
    ensures Uncut(lines, b, chunks + AsRead(queue)) <==> Uncut(lines, b, chunks)
    ensures FirstCutLate(lines, b, chunks + AsRead(queue)) <==> FirstCutLate(lines, b, chunks)
  {
    UncutMore(lines, b, chunks, queue);
    assert chunks + [] == chunks;
  }

  /** A read that brings all that is left of the stream, after the others, cuts nothing. */
  lemma {:induction false} UncutMore(lines: seq<seq<char>>, b: int, chunks: seq<seq<char>>, queue: seq<char>)
    requires FiveFrom(lines) && b + |Flatten(chunks)| + |queue| >= |Flatten(lines)|
    ensures Uncut(lines, b, chunks + [queue]) <==> Uncut(lines, b, chunks)
    ensures FirstCutLate(lines, b, chunks + [queue]) <==> FirstCutLate(lines, b, chunks)
    decreases chunks
  {
    if chunks == [] {
      NotAfter(lines, b + |queue|);
      assert [queue][1..] == [];
    } else {
      FirstOf(chunks, [queue]);
      UncutMore(lines, b + |chunks[0]|, chunks[1..], queue);
    }
  }

  lemma NoCr(s: seq<char>)
    requires '\r' !in s
    ensures CrlfAt(s) == |s|
  {
    hide CrlfAt;
    assert CrlfAt(s) < |s| ==> CrlfPair(s, CrlfAt(s));
  }

  // ---------------------------------------------------------------- replies in order

  /** The text of the first n replies. */
  function ReplyText(reply: nat -> seq<seq<char>>, n: nat): seq<char> {
    if n == 0 then [] else ReplyText(reply, n - 1) + Flatten(reply(n - 1))
  }

  /** The replies from the n-th on, of which there are m. */
  lemma ReplyTextRest(reply: nat -> seq<seq<char>>, n: nat, m: nat) returns (rest: seq<char>)
    requires n < m
    ensures ReplyText(reply, m) == ReplyText(reply, n + 1) + rest
    ensures ReplyText(reply, m)[|ReplyText(reply, n)|..] == Flatten(reply(n)) + rest
    ensures ReplyText(reply, n + 1) == ReplyText(reply, n) + Flatten(reply(n))
  {
    ReplyTextGrows(reply, n + 1, m);
    ReplyTextNext(reply, n);
    rest := ReplyText(reply, m)[|ReplyText(reply, n + 1)|..];
    hide ReplyText, Flatten;
    AfterFront(ReplyText(reply, n), Flatten(reply(n)), rest);
  }

  lemma ReplyTextNext(reply: nat -> seq<seq<char>>, n: nat)
    ensures ReplyText(reply, n + 1) == ReplyText(reply, n) + Flatten(reply(n))
  {
  }

  lemma AfterFront(a: seq<char>, b: seq<char>, c: seq<char>)
    ensures (a + b + c)[|a|..] == b + c && (a + b + c)[..|a + b|] == a + b && (a + b + c)[|a + b|..] == c
  {
  }

  lemma {:induction false} ReplyTextGrows(reply: nat -> seq<seq<char>>, m: nat, n: nat)
    requires m <= n
    ensures ReplyText(reply, m) <= ReplyText(reply, n)
  {
    if m == n {
    } else {
      ReplyTextGrows(reply, m, n - 1);
    }
  }

  lemma {:induction false} ReplyTextLonger(reply: nat -> seq<seq<char>>, m: nat, n: nat)
    requires m < n && |Flatten(reply(m))| > 0
    ensures |ReplyText(reply, m)| < |ReplyText(reply, n)|
  {
    ReplyTextNext(reply, m);
    ReplyTextGrows(reply, m + 1, n);
    hide ReplyText, Flatten;
  }
}
