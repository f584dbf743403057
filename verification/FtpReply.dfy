/** get_response of socket++/ftp.cpp as a function of what each read brings. */
module FtpReply {
  import opened Lines
  import opened Protocol
  import opened ReplyReads

  predicate IsDigit(c: char) {
    '0' <= c <= '9'
  }

  /** line starts with this three-digit code and the byte after. */
  predicate StartsWith(line: seq<char>, code: seq<char>, after: char) {
    |line| >= 4 && line[..4] == code + [after]
  }

  /** A reply of section 4.2 of RFC 959: one line, or a line that starts with the code and a hyphen, any
      lines that do not start with the code and a space, and one that does. */
  ghost predicate IsFtpReply(lines: seq<seq<char>>) {
    && lines != [] && (forall i :: 0 <= i < |lines| ==> IsLine(lines[i]))
    && |lines[0]| >= 6 && IsDigit(lines[0][0]) && IsDigit(lines[0][1]) && IsDigit(lines[0][2])
    && lines[0][3] == (if |lines| == 1 then ' ' else '-')
    && forall i :: 0 < i < |lines| ==> (StartsWith(lines[i], lines[0][..3], ' ') <==> i + 1 == |lines|)
  }

  // ---------------------------------------------------------------- the code, as a C string

  /** strncpy of all of s: from the first NUL on, NULs. */
  function Padded(s: seq<char>): (t: seq<char>)
    ensures |t| == |s|
  {
    seq(|s|, i requires 0 <= i < |s| => if '\0' in s[..i] then '\0' else s[i])
  }

  /** strncmp of a and b, as many bytes as both have, is 0: they agree up to the first NUL. */
  predicate SameText(a: seq<char>, b: seq<char>)
    requires |a| == |b|
  {
    forall i :: 0 <= i < |a| && '\0' !in a[..i] ==> a[i] == b[i]
  }

  lemma PaddedNoNul(s: seq<char>)
    requires '\0' !in s
    ensures Padded(s) == s
  {
  }

  lemma {:induction false} SameNoNul(a: seq<char>, b: seq<char>, k: nat)
    requires |a| == |b| && k <= |a| && '\0' !in b && SameText(a, b)
    ensures a[..k] == b[..k]
  {
    if k == 0 {
    } else {
      SameNoNul(a, b, k - 1);
      assert a[..k - 1] == b[..k - 1] <= b;
      assert forall c <- b[..k - 1] :: c in b;
    }
  }

  /** Comparing four bytes with the code and a space decides rightly, even when the line is shorter: then its
      CR is where the code has a digit. */
  lemma ShortLine(line: seq<char>, unread: seq<char>, code: seq<char>)
    requires IsLine(line) && LineBuffered(line, unread) && |unread| >= 4 && IsCode(code)
    ensures StartsWith(line, code, ' ') <==> SameText(unread[..4], code + [' '])
  {
    var first, text := unread[..4], code + [' '];
    assert SameText(first, text) <==> first == text by {
      if SameText(first, text) {
        SameNoNul(first, text, 4);
        assert first[..4] == first && text[..4] == text;
      }
    }
    hide SameText;
    if |line| >= 4 {
      assert unread[..4] == line[..4];
    } else {
      assert unread[|line| - 2] == line[|line| - 2] == '\r';
      assert unread[..4][|line| - 2] == '\r';
    }
  }

  // ---------------------------------------------------------------- the loop, for the reads it sees

  /** The code after a turn that takes a line: the first line's first three bytes, as a C string. */
  function KeptCode(unread: seq<char>, code: Option<seq<char>>): seq<char>
    requires |unread| >= 5
  {
    if code.None? then Padded(unread[..3]) else code.value
  }

  /** What makes a line the last: in the first line a space after the code, later the code and a space. */
  predicate StopsHere(unread: seq<char>, code: Option<seq<char>>)
    requires |unread| >= 5
  {
    if code.None? then unread[3] == ' ' else |code.value| == 3 && SameText(unread[..4], code.value + [' '])
  }

  /** One turn past underflow; code is the reply's, once its first line was seen. */
  function Turn(unread: seq<char>, code: Option<seq<char>>): (t: Turned)
    ensures unread == t.got + t.left
  {
    if |unread| < 5 then Turned([], unread, code, GoOn)
    else if CrlfAt(unread) == |unread| then Turned([], unread, code, Overrun)
    else
      var n := CrlfAt(unread) + 2;
      Turned(unread[..n], unread[n..], Some(KeptCode(unread, code)), if StopsHere(unread, code) then Stop else GoOn)
  }

  /** A turn, spelled out for any bytes. */
  lemma TurnSpelled(u: seq<char>, code: Option<seq<char>>)
    ensures |u| < 5 ==> Turn(u, code) == Turned([], u, code, GoOn)
    ensures |u| >= 5 && CrlfAt(u) == |u| ==> Turn(u, code) == Turned([], u, code, Overrun)
    ensures |u| >= 5 && CrlfAt(u) < |u| ==>
              var t := Turn(u, code);
              && t.got == u[..CrlfAt(u) + 2] && t.left == u[CrlfAt(u) + 2..] && t.code.Some? && t.next != Overrun
              && (code.None? ==>
                    && (t.next == Stop <==> u[3] == ' ') && |t.code.value| == 3
                    && forall j :: 0 <= j < 3 ==> t.code.value[j] == if '\0' in u[..j] then '\0' else u[j])
              && (code.Some? && |code.value| == 3 ==>
                    && t.code == code
                    && (t.next == Stop <==>
                          forall j :: 0 <= j < 4 && '\0' !in u[..j] ==> u[j] == if j < 3 then code.value[j] else ' '))
  {
    hide CrlfAt;
    if |u| >= 5 {
      assert forall j :: 0 <= j < 3 ==> u[..3][..j] == u[..j];
      assert forall j :: 0 <= j < 4 ==> u[..4][..j] == u[..j];
    }
  }

  predicate IsCode(code: seq<char>) {
    |code| == 3 && IsDigit(code[0]) && IsDigit(code[1]) && IsDigit(code[2])
  }

  /** What is left of a reply when its code is known; or a whole reply. */
  ghost predicate IsTail(lines: seq<seq<char>>, code: Option<seq<char>>) {
    if code.None? then IsFtpReply(lines)
    else
      && IsCode(code.value) && lines != []
      && forall i :: 0 <= i < |lines| ==>
           IsLine(lines[i]) && (StartsWith(lines[i], code.value, ' ') <==> i + 1 == |lines|)
  }

  /** The reply's code, when its next line has been seen. */
  function CodeAfter(line: seq<char>, code: Option<seq<char>>): seq<char>
    requires code.None? ==> |line| >= 3
  {
    if code.None? then line[..3] else code.value
  }

  lemma TailRest(lines: seq<seq<char>>, code: Option<seq<char>>)
    requires IsTail(lines, code)
    ensures |Flatten(lines)| >= 2
    ensures lines != [] && IsLine(lines[0]) && |lines[0]| >= 2 && (code.None? ==> |lines[0]| >= 6)
    ensures |lines| > 1 ==> IsTail(lines[1..], Some(CodeAfter(lines[0], code)))
  {
    assert |lines[0]| >= 2;
    hide IsLine;
    if code.None? && |lines| > 1 {
      var c := lines[0][..3];
      assert c[0] == lines[0][0] && c[1] == lines[0][1] && c[2] == lines[0][2];
    }
  }

  /** What follows k lines of a reply. */
  lemma TailFrom(lines: seq<seq<char>>, k: nat, code: Option<seq<char>>)
    requires IsFtpReply(lines) && k < |lines|
    requires code == if k == 0 then None else Some(lines[0][..3])
    ensures IsTail(lines[k..], code) && IsLine(lines[k]) && (code.None? ==> |lines[k]| >= 6)
    ensures CodeAfter(lines[k], code) == lines[0][..3]
  {
    hide IsLine, StartsWith;
    if k == 0 {
      assert lines[0..] == lines;
    } else {
      var c := lines[0][..3];
      assert c[0] == lines[0][0] && c[1] == lines[0][1] && c[2] == lines[0][2];
      forall i | 0 <= i < |lines| - k ensures lines[k..][i] == lines[k + i] {
      }
    }
  }

  lemma {:induction false} TailFives(lines: seq<seq<char>>, code: Option<seq<char>>)
    requires IsTail(lines, code)
    ensures FiveFrom(lines)
  {
    TailRest(lines, code);
    if |lines| > 1 {
      TailFives(lines[1..], Some(CodeAfter(lines[0], code)));
    } else {
      var last := lines[0];
      assert code.Some? ==> last[..4][3] == ' ';
      assert last[|last| - 2] == '\r';
      assert Flatten(lines) == last + Flatten(lines[1..]);
    }
  }

  /** The next line is unread whole, with at least five bytes. */
  lemma TurnOnLine(lines: seq<seq<char>>, code: Option<seq<char>>, more: seq<char>,
      unread: seq<char>, queue: seq<char>)
    requires lines != [] && IsTail(lines, code) && Need(lines[0]) <= |unread| && unread + queue == lines[0] + more
    requires IsLine(lines[0]) && (code.None? ==> |lines[0]| >= 6)
    ensures |lines[0]| <= |unread| && unread[|lines[0]|..] + queue == more
    ensures Turn(unread, code) == Turned(lines[0], unread[|lines[0]|..], Some(CodeAfter(lines[0], code)),
                                         if |lines| == 1 then Stop else GoOn)
  {
    var line := lines[0];
    hide CrlfAt;
    LineOrNone(unread, queue, line, more);
    assert LineBuffered(line, unread);
    if code.None? {
      hide IsLine;
      assert unread[..|line|][3] == line[3] && unread[..|line|][..3] == unread[..3];
      assert unread[..3] == line[..3] && '\0' !in line[..3];
      PaddedNoNul(line[..3]);
      hide Padded;
    } else {
      ShortLine(line, unread, code.value);
      hide IsLine, SameText;
    }
  }

  /** A turn that finds only a part of it, or less than five bytes. */
  lemma TurnOnPart(line: seq<char>, code: Option<seq<char>>, more: seq<char>, unread: seq<char>,
      queue: seq<char>)
    requires IsLine(line) && 0 < |unread| < Need(line) && unread + queue == line + more
    ensures Turn(unread, code) == Turned([], unread, code, if |unread| < 5 then GoOn else Overrun)
  {
    LineOrNone(unread, queue, line, more);
    hide CrlfAt, IsLine;
  }

  /** How the loop ends that has what is left of a reply before it: with all of it taken; or else it is about to
      step past the end of the get area, if the first read that cuts a line leaves five bytes of it; or else it goes
      round for ever. */
  ghost predicate EndsRight(s: Stand, lines: seq<seq<char>>, code: seq<char>, rest: seq<char>, b: int,
                            chunks: seq<seq<char>>)
  {
    if Uncut(lines, b, chunks) then s.Took(Flatten(lines), rest) && s.code == Some(code)
    else s.progress == if FirstCutLate(lines, b, chunks) then Overran else Running
  }

  /** The next line is there in part. */
  lemma EndsCut(lines: seq<seq<char>>, code: Option<seq<char>>, c: seq<char>, rest: seq<char>,
      unread: seq<char>, chunks: seq<seq<char>>, n: nat)
    requires |lines| > 0 && IsLine(lines[0]) && n > 0 && 0 < |unread| < Need(lines[0])
    requires unread + Flatten(chunks) == lines[0] + (Flatten(lines[1..]) + rest)
    ensures EndsRight(Loop(Turn, n, unread, code, chunks), lines, c, rest, |unread|, chunks)
  {
    CutHere(lines, |unread|);
    UncutHere(lines, |unread|, chunks);
    hide IsLine, Uncut, CutAt, FirstCutLate, CutLate, Turn, Loop, Flatten, Need;
    TurnOnPart(lines[0], code, Flatten(lines[1..]) + rest, unread, Flatten(chunks));
    if |unread| < 5 {
      Spins(Turn, n, unread, code, chunks);
    } else {
      LoopStep(Turn, n, unread, code, chunks);
    }
  }

  /** The next line is there whole; the lines after it end right. */
  lemma EndsNext(lines: seq<seq<char>>, code: Option<seq<char>>, rest: seq<char>,
      unread: seq<char>, chunks: seq<seq<char>>, n: nat)
    requires |lines| > 0 && IsTail(lines, code) && IsLine(lines[0]) && (code.None? ==> |lines[0]| >= 6)
    requires n > 0 && Need(lines[0]) <= |unread|
    requires unread + Flatten(chunks) == lines[0] + (Flatten(lines[1..]) + rest)
    requires |lines| > 1 && |lines[0]| <= |unread| ==>
               var c, left := CodeAfter(lines[0], code), unread[|lines[0]|..];
               EndsRight(Loop(Turn, n - 1, left, Some(c), chunks), lines[1..], c, rest, |left|, chunks)
    ensures EndsRight(Loop(Turn, n, unread, code, chunks), lines, CodeAfter(lines[0], code), rest, |unread|, chunks)
  {
    hide IsTail, IsLine, Uncut, FirstCutLate, Flatten, Loop, Turn, CutAt, CodeAfter, Stand.After, Stand.Took;
    var line, c := lines[0], CodeAfter(lines[0], code);
    FlattenNext(lines, rest);
    TurnOnLine(lines, code, Flatten(lines[1..]) + rest, unread, Flatten(chunks));
    LoopStep(Turn, n, unread, code, chunks);
    UncutNext(lines, |unread|, chunks);
    CutLateNext(lines, |unread|, chunks);
    hide Need;
    if |lines| > 1 {
      var s := Loop(Turn, n - 1, unread[|line|..], Some(c), chunks);
      AfterTook(s, line, Flatten(lines[1..]), rest);
    } else {
      UncutNone(|unread| - |line|, chunks);
      OnlyLine(lines, unread, chunks, Some(c), rest);
    }
  }

  /** Nothing is unread, and the next read comes. */
  lemma EndsRefill(lines: seq<seq<char>>, code: seq<char>, rest: seq<char>,
      chunks: seq<seq<char>>, s: Stand)
    requires chunks != [] && EndsRight(s, lines, code, rest, |chunks[0]|, chunks[1..])
    ensures EndsRight(s, lines, code, rest, 0, chunks)
  {
    UncutRead(lines, chunks);
    hide Uncut, FirstCutLate, Stand.Took;
  }

  lemma TailEnds(lines: seq<seq<char>>, code: Option<seq<char>>, rest: seq<char>,
      unread: seq<char>, chunks: seq<seq<char>>, n: nat)
    requires IsTail(lines, code) && Reads(chunks) && n >= |lines|
    requires unread + Flatten(chunks) == Flatten(lines) + rest
    requires |lines| > 0 && (code.None? ==> |lines[0]| >= 6)
    ensures EndsRight(Loop(Turn, n, unread, code, chunks), lines, CodeAfter(lines[0], code), rest, |unread|, chunks)
    decreases n, 1
  {
    hide *;
    TailRest(lines, code);
    FlattenNext(lines, rest);
    var c := CodeAfter(lines[0], code);
    if unread == [] {
      Refill(Turn, n, unread, code, chunks, Flatten(lines) + rest);
      TailEndsFrom(lines, code, rest, chunks[0], chunks[1..], n);
      EndsRefill(lines, c, rest, chunks, Loop(Turn, n, unread, code, chunks));
    } else {
      TailEndsFrom(lines, code, rest, unread, chunks, n);
    }
  }

  lemma TailEndsFrom(lines: seq<seq<char>>, code: Option<seq<char>>, rest: seq<char>,
      unread: seq<char>, chunks: seq<seq<char>>, n: nat)
    requires IsTail(lines, code) && Reads(chunks) && n >= |lines| && |unread| > 0
    requires |lines| > 0 && (code.None? ==> |lines[0]| >= 6)
    requires unread + Flatten(chunks) == lines[0] + (Flatten(lines[1..]) + rest)
    ensures EndsRight(Loop(Turn, n, unread, code, chunks), lines, CodeAfter(lines[0], code), rest, |unread|, chunks)
    decreases n, 0
  {
    hide *;
    TailRest(lines, code);
    var line, c := lines[0], CodeAfter(lines[0], code);
    NeedIsMore(line);
    if |unread| < Need(line) {
      EndsCut(lines, code, c, rest, unread, chunks, n);
    } else {
      if |lines| > 1 {
        DropLine(unread, Flatten(chunks), line, Flatten(lines[1..]) + rest);
        CodeStays(lines[1], c);
        TailEnds(lines[1..], Some(c), rest, unread[|line|..], chunks, n - 1);
      }
      EndsNext(lines, code, rest, unread, chunks, n);
    }
  }

  lemma CodeStays(line: seq<char>, c: seq<char>)
    ensures CodeAfter(line, Some(c)) == c
  {
  }

  /** For every reply, however the kernel cuts the stream into reads, and any number of turns that is enough:
      get_response takes exactly the reply, and knows its code, if and only if no read ends inside one of the
      reply's lines, or less than five bytes after the start of one. Otherwise the first such read decides: it steps
      past the end of the get area if five bytes of the cut line are there, and goes round for ever if not. */
  lemma {:induction false} LoopExactly(lines: seq<seq<char>>, rest: seq<char>, unread: seq<char>,
      chunks: seq<seq<char>>, n: nat)
    requires IsFtpReply(lines) && Reads(chunks) && n >= |lines|
    requires unread + Flatten(chunks) == Flatten(lines) + rest
    ensures EndsRight(Loop(Turn, n, unread, None, chunks), lines, lines[0][..3], rest, |unread|, chunks)
    ensures Loop(Turn, n, unread, None, chunks).Took(Flatten(lines), rest) <==> Uncut(lines, |unread|, chunks)
  {
    TailEnds(lines, None, rest, unread, chunks, n);
    hide Loop, Turn, Uncut, FirstCutLate, Flatten;
  }

  /** The same for a loop that has seen only these reads: the rest of the stream is in the kernel's queue. If
      that is empty the loop does not wait. */
  lemma {:induction false} LoopSoFar(lines: seq<seq<char>>, rest: seq<char>, first: seq<char>, seen: seq<seq<char>>,
      queue: seq<char>, n: nat, s: Stand)
    requires IsFtpReply(lines) && Reads(seen) && n >= |lines| && first + Flatten(seen) + queue == Flatten(lines) + rest
    requires s == Loop(Turn, n, first, None, seen) && s.chunks == []
    ensures s.progress == Waiting ==> queue != []
    ensures s.progress != Waiting ==> EndsRight(s.(chunks := AsRead(queue)), lines, lines[0][..3], rest, |first|, seen)
  {
    if s.progress != Waiting || queue == [] {
      var more := AsRead(queue);
      LoopAsIf(Turn, n, first, None, seen, queue, s);
      ReadsJoin(seen, more);
      Associate(first, Flatten(seen), queue);
      LoopExactly(lines, rest, first, seen + more, n);
      TailFives(lines, None);
      assert |first| + |Flatten(seen)| + |queue| == |Flatten(lines) + rest|;
      UncutAsRead(lines, |first|, seen, queue);
      hide Loop, Turn, Uncut, FirstCutLate, Flatten, AsRead, FiveFrom, Reads;
      assert EndsRight(s.(chunks := more), lines, lines[0][..3], rest, |first|, seen);
    }
  }

  /** A reply that arrives whole, but in two reads: the reader spins, however often it turns, or it is about
      to step past the get area. */
  lemma CutReplies(n: nat)
    ensures Loop(Turn, n, "220", None, [" hi\r\n"]).progress == Running
    ensures n > 0 ==> Loop(Turn, n, "220 h", None, ["i\r\n"]).progress == Overran
    ensures !Uncut(["220 hi\r\n"], 3, [" hi\r\n"]) && !Uncut(["220 hi\r\n"], 5, ["i\r\n"])
  {
    Spins(Turn, n, "220", None, [" hi\r\n"]);
    NoCr("220 h");
    hide CrlfAt, Loop;
    if n > 0 {
      LoopStep(Turn, n, "220 h", None, ["i\r\n"]);
    }
    assert Turn("220 h", None) == Turned([], "220 h", None, Overrun);
    assert CutAt(["220 hi\r\n"], 3) && CutAt(["220 hi\r\n"], 5);
  }
}
