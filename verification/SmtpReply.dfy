/** get_response of socket++/smtp.cpp as a function of what each read brings. */
module SmtpReply {
  import opened Lines
  import opened ReplyReads

  /** A reply of Appendix E of RFC 821: only the last line does not continue. */
  ghost predicate IsReply(lines: seq<seq<char>>) {
    && lines != []
    && forall i :: 0 <= i < |lines| ==>
         IsLine(lines[i]) && |lines[i]| >= 5 && (lines[i][3] == '-' <==> i + 1 < |lines|)
  }

  /** One turn of the loop past underflow. It keeps no code. */
  function Turn(unread: seq<char>, code: Option<seq<char>>): (t: Turned)
    ensures unread == t.got + t.left && t.code == code && !t.next.Overrun?
  {
    if |unread| < 5 then Turned([], unread, code, GoOn)
    else
      var n := if CrlfAt(unread) < |unread| then CrlfAt(unread) + 2 else 0;
      Turned(unread[..n], unread[n..], code, if unread[3] != '-' then Stop else GoOn)
  }

  /** A turn, spelled out for any bytes. */
  lemma TurnSpelled(u: seq<char>, code: Option<seq<char>>)
    ensures |u| < 5 ==> Turn(u, code) == Turned([], u, code, GoOn)
    ensures |u| >= 5 ==>
              var t := Turn(u, code);
              && (t.next == Stop <==> u[3] != '-') && (t.next == GoOn <==> u[3] == '-')
              && (CrlfAt(u) == |u| ==> t.got == [] && t.left == u)
              && (CrlfAt(u) < |u| ==> t.got == u[..CrlfAt(u) + 2] && t.left == u[CrlfAt(u) + 2..])
  {
    hide CrlfAt;
  }

  lemma ReplyRest(lines: seq<seq<char>>)
    requires IsReply(lines)
    ensures IsLine(lines[0]) && |lines[0]| >= 5 && (lines[0][3] == '-' <==> |lines| > 1)
    ensures |lines| > 1 ==> IsReply(lines[1..])
    ensures |Flatten(lines)| >= 5
  {
  }

  lemma {:induction false} ReplyFives(lines: seq<seq<char>>)
    requires IsReply(lines)
    ensures FiveFrom(lines)
  {
    ReplyRest(lines);
    if |lines| > 1 {
      ReplyFives(lines[1..]);
    }
  }

  /** The reply's lines, the last of them up to its fifth byte. */
  function Front(lines: seq<seq<char>>): (front: seq<seq<char>>)
    requires lines != [] && |lines[|lines| - 1]| >= 5
    ensures |front| == |lines|
  {
    lines[..|lines| - 1] + [lines[|lines| - 1][..5]]
  }

  /** A turn that finds the next line whole. */
  lemma TurnOnLine(line: seq<char>, more: seq<char>, unread: seq<char>, queue: seq<char>,
      code: Option<seq<char>>)
    requires IsLine(line) && 5 <= |line| <= |unread| && unread + queue == line + more
    ensures unread[|line|..] + queue == more
    ensures Turn(unread, code) == Turned(line, unread[|line|..], code, if line[3] != '-' then Stop else GoOn)
  {
    LineOrNone(unread, queue, line, more);
    assert unread[3] == unread[..|line|][3];
    hide CrlfAt, IsLine;
  }

  /** A turn that finds only a part of it. */
  lemma TurnOnPart(line: seq<char>, more: seq<char>, unread: seq<char>, queue: seq<char>,
      code: Option<seq<char>>)
    requires IsLine(line) && 5 <= |line| && 0 < |unread| < |line| && unread + queue == line + more
    ensures Turn(unread, code) == Turned([], unread, code, if |unread| >= 5 && line[3] != '-' then Stop else GoOn)
  {
    LineOrNone(unread, queue, line, more);
    hide CrlfAt, IsLine;
  }

  /** How the loop ends that has what is left of a reply before it: with all of it taken; without the last
      line, if that is cut after its first five bytes and nothing else is; or never. */
  ghost predicate EndsRight(s: Stand, lines: seq<seq<char>>, rest: seq<char>, b: int, chunks: seq<seq<char>>)
    requires IsReply(lines)
  {
    var init, last := lines[..|lines| - 1], lines[|lines| - 1];
    if Uncut(lines, b, chunks) then s.Took(Flatten(lines), rest)
    else if Uncut(Front(lines), b, chunks) then s.Took(Flatten(init), last + rest)
    else s.progress == Running
  }

  /** Front, and all lines but the last, from the next line on. */
  lemma FrontRest(lines: seq<seq<char>>)
    requires IsReply(lines)
    ensures |lines| > 1 ==> Front(lines)[0] == lines[0] && Front(lines)[1..] == Front(lines[1..])
    ensures |lines| > 1 ==>
              Flatten(lines[..|lines| - 1]) == lines[0] + Flatten(lines[1..][..|lines| - 2])
              && lines[1..][|lines| - 2] == lines[|lines| - 1]
    ensures |lines| == 1 ==> |Front(lines)| == 1 && Need(Front(lines)[0]) == 5 && Flatten(lines[..0]) == []
  {
    if |lines| > 1 {
      var init := lines[..|lines| - 1];
      assert init[0] == lines[0] && init[1..] == lines[1..][..|lines| - 2];
    }
  }

  lemma LastOnly(lines: seq<seq<char>>, rest: seq<char>)
    requires |lines| == 1
    ensures Flatten(lines[1..]) + rest == rest && Flatten(lines[..0]) == []
  {
    assert lines[1..] == [];
    assert [] + rest == rest;
  }

  /** The next line is there in part. */
  lemma EndsCut(lines: seq<seq<char>>, rest: seq<char>, unread: seq<char>, chunks: seq<seq<char>>,
      code: Option<seq<char>>, n: nat)
    requires IsReply(lines) && n > 0 && 0 < |unread| < |lines[0]|
    requires unread + Flatten(chunks) == lines[0] + (Flatten(lines[1..]) + rest)
    ensures EndsRight(Loop(Turn, n, unread, code, chunks), lines, rest, |unread|, chunks)
  {
    var line := lines[0];
    ReplyRest(lines);
    FrontRest(lines);
    CutHere(lines, |unread|);
    UncutHere(lines, |unread|, chunks);
    hide IsReply, IsLine, Uncut, CutAt, Turn, Loop, Flatten;
    TurnOnPart(line, Flatten(lines[1..]) + rest, unread, Flatten(chunks), code);
    assert Need(Front(lines)[0]) == if |lines| == 1 then 5 else |line|;
    assert |lines| == 1 ==> Front(lines)[1..] == [];
    hide Front, Need;
    if |unread| < Need(Front(lines)[0]) {
      Spins(Turn, n, unread, code, chunks);
      CutHere(Front(lines), |unread|);
      UncutHere(Front(lines), |unread|, chunks);
    } else {
      LoopStep(Turn, n, unread, code, chunks);
      UncutNext(Front(lines), |unread|, chunks);
      UncutNone(|unread| - |Front(lines)[0]|, chunks);
      LastOnly(lines, rest);
    }
  }

  /** The next line is there whole, and so is the last. */
  lemma EndsLast(lines: seq<seq<char>>, rest: seq<char>, unread: seq<char>, chunks: seq<seq<char>>,
      code: Option<seq<char>>, n: nat)
    requires IsReply(lines) && |lines| == 1 && n > 0 && |lines[0]| <= |unread|
    requires unread + Flatten(chunks) == lines[0] + (Flatten(lines[1..]) + rest)
    ensures EndsRight(Loop(Turn, n, unread, code, chunks), lines, rest, |unread|, chunks)
  {
    var line := lines[0];
    ReplyRest(lines);
    TurnOnLine(line, Flatten(lines[1..]) + rest, unread, Flatten(chunks), code);
    hide IsReply, IsLine, Uncut, CutAt, Turn, Flatten, Loop, Stand.Took;
    LoopStep(Turn, n, unread, code, chunks);
    UncutNext(lines, |unread|, chunks);
    UncutNone(|unread| - |line|, chunks);
    OnlyLine(lines, unread, chunks, code, rest);
  }

  /** The next line is there whole; the lines after it end right. */
  lemma {:induction false} EndsNext(lines: seq<seq<char>>, rest: seq<char>, unread: seq<char>, chunks: seq<seq<char>>,
      s: Stand)
    requires IsReply(lines) && |lines| > 1 && |lines[0]| <= |unread| && IsReply(lines[1..])
    requires EndsRight(s, lines[1..], rest, |unread| - |lines[0]|, chunks)
    ensures EndsRight(s.After(lines[0]), lines, rest, |unread|, chunks)
  {
    hide IsReply, IsLine, Uncut, CutAt, Flatten, Stand.Took, Stand.After;
    var line := lines[0];
    ReplyRest(lines);
    FrontRest(lines);
    FlattenNext(lines, rest);
    UncutNext(lines, |unread|, chunks);
    assert Need(Front(lines)[0]) == |line|;
    hide Front, Need;
    UncutNext(Front(lines), |unread|, chunks);
    AfterTook(s, line, Flatten(lines[1..]), rest);
    AfterTook(s, line, Flatten(lines[1..][..|lines| - 2]), lines[|lines| - 1] + rest);
  }

  /** Nothing is unread, and the next read comes. */
  lemma EndsRefill(lines: seq<seq<char>>, rest: seq<char>, chunks: seq<seq<char>>, s: Stand)
    requires IsReply(lines) && chunks != [] && EndsRight(s, lines, rest, |chunks[0]|, chunks[1..])
    ensures EndsRight(s, lines, rest, 0, chunks)
  {
    ReplyRest(lines);
    UncutRead(lines, chunks);
    UncutRead(Front(lines), chunks);
    hide IsReply, Uncut, Front, Stand.Took;
  }

  lemma {:induction false} LoopEnds(lines: seq<seq<char>>, rest: seq<char>, unread: seq<char>, chunks: seq<seq<char>>,
      code: Option<seq<char>>, n: nat)
    requires IsReply(lines) && Reads(chunks) && n >= |lines| > 0
    requires unread + Flatten(chunks) == Flatten(lines) + rest
    ensures EndsRight(Loop(Turn, n, unread, code, chunks), lines, rest, |unread|, chunks)
    decreases n, 1
  {
    hide *;
    ReplyRest(lines);
    FlattenNext(lines, rest);
    if unread == [] {
      Refill(Turn, n, unread, code, chunks, Flatten(lines) + rest);
      LoopEndsFrom(lines, rest, chunks[0], chunks[1..], code, n);
      EndsRefill(lines, rest, chunks, Loop(Turn, n, unread, code, chunks));
    } else {
      LoopEndsFrom(lines, rest, unread, chunks, code, n);
    }
  }

  lemma {:induction false} LoopEndsFrom(lines: seq<seq<char>>, rest: seq<char>, unread: seq<char>,
      chunks: seq<seq<char>>, code: Option<seq<char>>, n: nat)
    requires IsReply(lines) && Reads(chunks) && n >= |lines| > 0 && |unread| > 0
    requires unread + Flatten(chunks) == lines[0] + (Flatten(lines[1..]) + rest)
    ensures EndsRight(Loop(Turn, n, unread, code, chunks), lines, rest, |unread|, chunks)
    decreases n, 0
  {
    hide *;
    ReplyRest(lines);
    var line := lines[0];
    if |unread| < |line| {
      EndsCut(lines, rest, unread, chunks, code, n);
    } else if |lines| == 1 {
      EndsLast(lines, rest, unread, chunks, code, n);
    } else {
      DropLine(unread, Flatten(chunks), line, Flatten(lines[1..]) + rest);
      LoopEnds(lines[1..], rest, unread[|line|..], chunks, code, n - 1);
      EndsOneMore(lines, rest, unread, chunks, code, n);
    }
  }

  lemma EndsOneMore(lines: seq<seq<char>>, rest: seq<char>, unread: seq<char>,
      chunks: seq<seq<char>>, code: Option<seq<char>>, n: nat)
    requires |lines| > 1 && IsReply(lines) && IsReply(lines[1..]) && n > 0 && |lines[0]| <= |unread|
    requires unread + Flatten(chunks) == lines[0] + (Flatten(lines[1..]) + rest)
    requires var left := unread[|lines[0]|..];
             EndsRight(Loop(Turn, n - 1, left, code, chunks), lines[1..], rest, |left|, chunks)
    ensures EndsRight(Loop(Turn, n, unread, code, chunks), lines, rest, |unread|, chunks)
  {
    var line := lines[0];
    ReplyRest(lines);
    TurnOnLine(line, Flatten(lines[1..]) + rest, unread, Flatten(chunks), code);
    assert unread != [];
    hide *;
    LoopStep(Turn, n, unread, code, chunks);
    EndsNext(lines, rest, unread, chunks, Loop(Turn, n - 1, unread[|line|..], code, chunks));
  }

  /** For every reply, however the kernel cuts the stream into reads, and any number of turns that is enough:
      get_response takes exactly the reply if and only if no read ends inside one of the reply's lines. */
  lemma {:induction false} LoopExactly(lines: seq<seq<char>>, rest: seq<char>, unread: seq<char>,
      chunks: seq<seq<char>>, code: Option<seq<char>>, n: nat)
    requires IsReply(lines) && Reads(chunks) && n >= |lines|
    requires unread + Flatten(chunks) == Flatten(lines) + rest
    ensures EndsRight(Loop(Turn, n, unread, code, chunks), lines, rest, |unread|, chunks)
    ensures Loop(Turn, n, unread, code, chunks).Took(Flatten(lines), rest) <==> Uncut(lines, |unread|, chunks)
  {
    LoopEnds(lines, rest, unread, chunks, code, n);
    ButLastDiffers(lines);
    hide Loop, Turn, Uncut, Flatten;
  }

  lemma {:induction false} FrontFives(lines: seq<seq<char>>)
    requires IsReply(lines)
    ensures FiveFrom(Front(lines)) && |Flatten(Front(lines))| <= |Flatten(lines)|
  {
    ReplyRest(lines);
    FrontRest(lines);
    if |lines| > 1 {
      FrontFives(lines[1..]);
      FlattenNext(lines, []);
      FlattenNext(Front(lines), []);
    } else {
      LastOnly(lines, []);
      assert Flatten(Front(lines)) == Front(lines)[0] + Flatten(Front(lines)[1..]);
    }
    hide IsReply, IsLine, Front;
  }

  /** The same for a loop that has seen only these reads: the rest of the stream is in the kernel's queue. If
      that is empty the loop does not wait. */
  lemma {:induction false} LoopSoFar(lines: seq<seq<char>>, rest: seq<char>, first: seq<char>, seen: seq<seq<char>>,
      queue: seq<char>, n: nat, s: Stand)
    requires IsReply(lines) && Reads(seen) && n >= |lines| && first + Flatten(seen) + queue == Flatten(lines) + rest
    requires s == Loop(Turn, n, first, None, seen) && s.chunks == []
    ensures s.progress == Waiting ==> queue != []
    ensures s.progress != Waiting ==> EndsRight(s.(chunks := AsRead(queue)), lines, rest, |first|, seen)
  {
    if s.progress != Waiting || queue == [] {
      var more := AsRead(queue);
      LoopAsIf(Turn, n, first, None, seen, queue, s);
      ReadsJoin(seen, more);
      Associate(first, Flatten(seen), queue);
      LoopExactly(lines, rest, first, seen + more, None, n);
      ReplyFives(lines);
      FrontFives(lines);
      assert |first| + |Flatten(seen)| + |queue| == |Flatten(lines) + rest|;
      UncutAsRead(lines, |first|, seen, queue);
      UncutAsRead(Front(lines), |first|, seen, queue);
      hide Loop, Turn, Uncut, Flatten, Front, AsRead, FiveFrom, Reads;
      assert EndsRight(s.(chunks := more), lines, rest, |first|, seen);
    }
  }

  lemma ButLastDiffers(lines: seq<seq<char>>)
    requires IsReply(lines)
    ensures Flatten(lines[..|lines| - 1]) != Flatten(lines)
  {
    FlattenSnoc(lines, |lines| - 1);
    assert lines[..|lines|] == lines;
  }

  /** Two replies that arrive whole but in two reads: on the first the reader spins, however often it turns;
      the second it leaves. */
  lemma CutReplies(n: nat)
    ensures Loop(Turn, n, "250", None, [" ok\r\n"]).progress == Running
    ensures n > 0 ==> Loop(Turn, n, "250 o", None, ["k\r\n"]) == Stand(Stopped, [], "250 o", None, ["k\r\n"])
    ensures !Uncut(["250 ok\r\n"], 3, [" ok\r\n"]) && !Uncut(["250 ok\r\n"], 5, ["k\r\n"])
  {
    Spins(Turn, n, "250", None, [" ok\r\n"]);
    NoCr("250 o");
    hide CrlfAt, Loop;
    if n > 0 {
      LoopStep(Turn, n, "250 o", None, ["k\r\n"]);
    }
    assert Turn("250 o", None) == Turned([], "250 o", None, Stop);
    assert CutAt(["250 ok\r\n"], 3) && CutAt(["250 ok\r\n"], 5);
  }
}
