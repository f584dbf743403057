/** The other end of an SMTP session, written from RFC 821: what a server makes of the bytes a client
    has sent, and when it owes a reply. */
module SmtpServer {
  import opened Lines
  import opened Sockets
  import opened SmtpData
  import opened ReplyReads

  datatype Event = Command(line: seq<char>) | Message(text: seq<char>)

  /** The commands and messages that are complete in wire, in order, for a server that has heard n before.
      When it refuses a DATA that is its i-th event, as it does for these i, what follows are commands. */
  function Events(wire: seq<char>, refuses: set<nat>, n: nat): seq<Event>
    decreases |wire|
  {
    var i := CrlfAt(wire);
    if i == |wire| then []
    else
      var line, rest := wire[..i], wire[i + 2..];
      [Command(line)] +
      if line != "DATA" || n in refuses then Events(rest, refuses, n + 1)
      else
        match Decode(rest)
        case None => []
        case Some((text, left)) => [Message(text)] + Events(left, refuses, n + 2)
  }

  /** The server has dealt with all of wire and waits for a command. */
  predicate AtPrompt(wire: seq<char>, refuses: set<nat>, n: nat)
    decreases |wire|
  {
    wire == [] ||
    var i := CrlfAt(wire);
    i < |wire| &&
    var line, rest := wire[..i], wire[i + 2..];
    if line != "DATA" || n in refuses then AtPrompt(rest, refuses, n + 1)
    else
      match Decode(rest)
      case None => false
      case Some((text, left)) => AtPrompt(left, refuses, n + 2)
  }

  /** Once the end of a message has been seen, more bytes only add to what is left over. */
  lemma {:induction false} ReceiveAppend(w: seq<char>, x: seq<char>)
    requires Receive(w).Some?
    ensures Receive(w + x) == Some((Receive(w).value.0, Receive(w).value.1 + x))
    decreases |w|
  {
    CrlfAtAppend(w, x);
    hide CrlfAt;
    if w[..CrlfAt(w)] != "." {
      ReceiveAppend(w[CrlfAt(w) + 2..], x);
    }
  }

  /** A line that begins no message. */
  lemma HearLine(wire: seq<char>, refuses: set<nat>, n: nat)
    requires var i := CrlfAt(wire); i < |wire| && (wire[..i] != "DATA" || n in refuses)
    ensures var (line, rest) := (wire[..CrlfAt(wire)], wire[CrlfAt(wire) + 2..]);
            && Events(wire, refuses, n) == [Command(line)] + Events(rest, refuses, n + 1)
            && (AtPrompt(wire, refuses, n) <==> AtPrompt(rest, refuses, n + 1))
  {
    hide CrlfAt;
  }

  /** A DATA that is accepted, and the message after it. */
  lemma HearMessage(wire: seq<char>, refuses: set<nat>, n: nat)
    requires var i := CrlfAt(wire); i < |wire| && wire[..i] == "DATA" && n !in refuses && Decode(wire[i + 2..]).Some?
    ensures var (text, left) := Decode(wire[CrlfAt(wire) + 2..]).value;
            && Events(wire, refuses, n) == [Command("DATA"), Message(text)] + Events(left, refuses, n + 2)
            && (AtPrompt(wire, refuses, n) <==> AtPrompt(left, refuses, n + 2))
  {
    hide CrlfAt, Decode;
    var (text, left) := Decode(wire[CrlfAt(wire) + 2..]).value;
    assert [Command("DATA")] + ([Message(text)] + Events(left, refuses, n + 2))
        == [Command("DATA"), Message(text)] + Events(left, refuses, n + 2);
  }

  lemma DecodeAppend(w: seq<char>, x: seq<char>)
    requires Decode(w).Some?
    ensures Decode(w + x) == Some((Decode(w).value.0, Decode(w).value.1 + x))
  {
    ReceiveAppend(w, x);
    hide Receive, JoinLf;
  }

  /** A prompt is reached only when the message is complete. */
  lemma PromptMessage(wire: seq<char>, refuses: set<nat>, n: nat)
    requires AtPrompt(wire, refuses, n) && wire != []
    ensures var i := CrlfAt(wire); i < |wire| && (wire[..i] == "DATA" && n !in refuses ==> Decode(wire[i + 2..]).Some?)
  {
    hide CrlfAt, Decode;
  }

  lemma EventsNone(refuses: set<nat>, n: nat)
    ensures Events([], refuses, n) == [] && AtPrompt([], refuses, n)
  {
  }

  /** What the server hears of more bytes x, when it is at its prompt after w, of which it heard k. */
  ghost predicate Continues(w: seq<char>, x: seq<char>, refuses: set<nat>, n: nat, k: nat) {
    && |Events(w, refuses, n)| == k
    && Events(w + x, refuses, n) == Events(w, refuses, n) + Events(x, refuses, n + k)
    && (AtPrompt(x, refuses, n + k) ==> AtPrompt(w + x, refuses, n))
  }

  lemma ContinuesNone(x: seq<char>, refuses: set<nat>, n: nat)
    ensures Continues([], x, refuses, n, 0)
  {
    EventsNone(refuses, n);
    assert [] + x == x && [] + Events(x, refuses, n) == Events(x, refuses, n);
    hide Events, AtPrompt;
  }

  lemma {:induction false} ContinuesLine(w: seq<char>, x: seq<char>, refuses: set<nat>, n: nat, k: nat)
    requires var i := CrlfAt(w); i < |w| && (w[..i] != "DATA" || n in refuses)
    requires Continues(w[CrlfAt(w) + 2..], x, refuses, n + 1, k)
    ensures Continues(w, x, refuses, n, k + 1)
  {
    CrlfAtAppend(w, x);
    HearLine(w, refuses, n);
    HearLine(w + x, refuses, n);
    var line, rest := w[..CrlfAt(w)], w[CrlfAt(w) + 2..];
    assert n + 1 + k == n + (k + 1);
    hide Events, AtPrompt, CrlfAt;
    Associate([Command(line)], Events(rest, refuses, n + 1), Events(x, refuses, n + (k + 1)));
  }

  lemma {:induction false} ContinuesMessage(w: seq<char>, x: seq<char>, refuses: set<nat>, n: nat, k: nat)
    requires var i := CrlfAt(w); i < |w| && w[..i] == "DATA" && n !in refuses && Decode(w[i + 2..]).Some?
    requires Continues(Decode(w[CrlfAt(w) + 2..]).value.1, x, refuses, n + 2, k)
    ensures Continues(w, x, refuses, n, k + 2)
  {
    CrlfAtAppend(w, x);
    DecodeAppend(w[CrlfAt(w) + 2..], x);
    HearMessage(w, refuses, n);
    HearMessage(w + x, refuses, n);
    var (text, left) := Decode(w[CrlfAt(w) + 2..]).value;
    assert n + 2 + k == n + (k + 2);
    hide Events, AtPrompt, CrlfAt, Decode;
    Associate([Command("DATA"), Message(text)], Events(left, refuses, n + 2), Events(x, refuses, n + (k + 2)));
  }

  /** From a prompt on, the server takes what follows by itself. */
  lemma {:induction false} EventsAppend(w: seq<char>, x: seq<char>, refuses: set<nat>, n: nat) returns (k: nat)
    requires AtPrompt(w, refuses, n)
    ensures Continues(w, x, refuses, n, k)
    decreases |w|
  {
    if w == [] {
      ContinuesNone(x, refuses, n);
      k := 0;
    } else {
      PromptMessage(w, refuses, n);
      var i := CrlfAt(w);
      assert |w[i + 2..]| < |w|;
      hide *;
      if w[..i] != "DATA" || n in refuses {
        HearLine(w, refuses, n);
        k := EventsAppend(w[i + 2..], x, refuses, n + 1);
        ContinuesLine(w, x, refuses, n, k);
        k := k + 1;
      } else {
        HearMessage(w, refuses, n);
        k := EventsAppend(Decode(w[i + 2..]).value.1, x, refuses, n + 2);
        ContinuesMessage(w, x, refuses, n, k);
        k := k + 2;
      }
    }
  }

  lemma AfterPrompt(w: seq<char>, x: seq<char>, refuses: set<nat>)
    requires AtPrompt(w, refuses, 0)
    ensures var n := |Events(w, refuses, 0)|;
            && Events(w + x, refuses, 0) == Events(w, refuses, 0) + Events(x, refuses, n)
            && (AtPrompt(x, refuses, n) ==> AtPrompt(w + x, refuses, 0))
  {
    hide Events, AtPrompt;
    var k := EventsAppend(w, x, refuses, 0);
    assert 0 + k == k;
  }

  /** A line that holds no CR LF and is not DATA is one command, answered at once. */
  lemma OneCommand(w: seq<char>, line: seq<char>, refuses: set<nat>)
    requires AtPrompt(w, refuses, 0) && NoCrlf(line) && line != "DATA"
    ensures Events(w + (line + CRLF), refuses, 0) == Events(w, refuses, 0) + [Command(line)]
    ensures AtPrompt(w + (line + CRLF), refuses, 0)
  {
    hide *;
    AfterPrompt(w, line + CRLF, refuses);
    CommandAlone(line, refuses, |Events(w, refuses, 0)|);
  }

  lemma CommandAlone(line: seq<char>, refuses: set<nat>, n: nat)
    requires NoCrlf(line)
    ensures Events(line + CRLF, refuses, n) == [Command(line)]
    ensures line != "DATA" || n in refuses ==> AtPrompt(line + CRLF, refuses, n)
  {
    LineAlone(line);
    hide CrlfAt;
  }

  lemma NoCrlfInData()
    ensures NoCrlf("DATA") && '\n' !in "DATA"
  {
  }

  /** DATA alone is one command. */
  lemma DataCommand(w: seq<char>, refuses: set<nat>)
    requires AtPrompt(w, refuses, 0)
    ensures Events(w + ("DATA" + CRLF), refuses, 0) == Events(w, refuses, 0) + [Command("DATA")]
    ensures |Events(w, refuses, 0)| in refuses ==> AtPrompt(w + ("DATA" + CRLF), refuses, 0)
  {
    hide *;
    NoCrlfInData();
    AfterPrompt(w, "DATA" + CRLF, refuses);
    CommandAlone("DATA", refuses, |Events(w, refuses, 0)|);
  }

  /** DATA, accepted, and an encoded text are a command and that text as a message. When the text ends in LF and the
      byte past it is a period, it loses that LF, and a period is heard as a command. */
  lemma DataMessage(w: seq<char>, text: seq<char>, past: char, refuses: set<nat>)
    requires AtPrompt(w, refuses, 0) && |Events(w, refuses, 0)| !in refuses
    ensures Events(w + ("DATA" + CRLF + DataWire(text, past)), refuses, 0)
         == Events(w, refuses, 0) + MessageHeard(text, EndsWithLf(text) && past == '.')
    ensures AtPrompt(w + ("DATA" + CRLF + DataWire(text, past)), refuses, 0)
  {
    hide *;
    AfterPrompt(w, "DATA" + CRLF + DataWire(text, past), refuses);
    MessageAlone(text, past, refuses, |Events(w, refuses, 0)|);
  }

  /** What is heard of DATA and a text when DATA is accepted; stray says whether a stray period comes after the text. */
  function MessageHeard(text: seq<char>, stray: bool): seq<Event> {
    if stray then [Command("DATA"), Message(ButLf(text)), Command(".")] else [Command("DATA"), Message(text)]
  }

  /** A line that is heard by itself, and what follows it. */
  lemma HearFirst(line: seq<char>, tail: seq<char>, refuses: set<nat>, n: nat)
    requires '\n' !in line
    ensures line != "DATA" || n in refuses ==>
              && Events(line + CRLF + tail, refuses, n) == [Command(line)] + Events(tail, refuses, n + 1)
              && (AtPrompt(line + CRLF + tail, refuses, n) <==> AtPrompt(tail, refuses, n + 1))
    ensures line == "DATA" && n !in refuses && Decode(tail).Some? ==>
              var (text, left) := Decode(tail).value;
              && Events(line + CRLF + tail, refuses, n)
                 == [Command("DATA"), Message(text)] + Events(left, refuses, n + 2)
              && (AtPrompt(line + CRLF + tail, refuses, n) <==> AtPrompt(left, refuses, n + 2))
  {
    var wire := line + CRLF + tail;
    FirstLine(line, tail);
    hide Decode, CrlfAt, Events, AtPrompt;
    assert wire[..CrlfAt(wire)] == line && wire[CrlfAt(wire) + 2..] == tail && CrlfAt(wire) < |wire|;
    if line != "DATA" || n in refuses {
      HearLine(wire, refuses, n);
    } else if Decode(tail).Some? {
      HearMessage(wire, refuses, n);
    }
  }

  lemma PeriodAlone(refuses: set<nat>, n: nat)
    ensures Decode("." + CRLF) == Some(([], []))
    ensures Events("." + CRLF, refuses, n) == [Command(".")] && AtPrompt("." + CRLF, refuses, n)
    ensures ".\r\n" + [] == "." + CRLF
  {
    ReceiveLine(".", []);
    assert "." + CRLF + [] == "." + CRLF;
    hide Receive;
    CommandAlone(".", refuses, n);
  }

  /** DATA is accepted, and what follows decodes as a text, after which nothing or a stray period comes. */
  lemma HearText(tail: seq<char>, text: seq<char>, stray: bool, refuses: set<nat>, n: nat)
    requires n !in refuses
    requires Decode(tail) == Some(if stray then (ButLf(text), ".\r\n" + []) else (text, []))
    ensures Events("DATA" + CRLF + tail, refuses, n) == MessageHeard(text, stray)
    ensures AtPrompt("DATA" + CRLF + tail, refuses, n)
  {
    hide *;
    NoCrlfInData();
    HearFirst("DATA", tail, refuses, n);
    PeriodAlone(refuses, n + 2);
    EventsNone(refuses, n + 2);
    MessageHeardIs(text, stray);
  }

  lemma MessageHeardIs(text: seq<char>, stray: bool)
    ensures MessageHeard(text, stray)
         == if stray then [Command("DATA"), Message(ButLf(text))] + [Command(".")]
            else [Command("DATA"), Message(text)] + []
  {
  }

  lemma WholeText(text: seq<char>, past: char)
    ensures Decode(DataWire(text, past))
         == Some(if EndsWithLf(text) && past == '.' then (ButLf(text), ".\r\n" + []) else (text, []))
  {
    hide Decode, DataWire;
    DataRoundTrip(text, past, []);
    assert DataWire(text, past) + [] == DataWire(text, past);
  }

  lemma MessageAlone(text: seq<char>, past: char, refuses: set<nat>, n: nat)
    requires n !in refuses
    ensures Events("DATA" + CRLF + DataWire(text, past), refuses, n)
         == MessageHeard(text, EndsWithLf(text) && past == '.')
    ensures AtPrompt("DATA" + CRLF + DataWire(text, past), refuses, n)
  {
    hide *;
    WholeText(text, past);
    HearText(DataWire(text, past), text, EndsWithLf(text) && past == '.', refuses, n);
  }

  // ---------------------------------------------------------------- a text that follows a refused DATA

  /** A text's first line as it goes out. */
  function FirstOut(s: seq<char>, past: char): (line: seq<char>)
    ensures '\n' !in line
  {
    StuffedLine(s, past);
    Stuffing(s, past) + s[..LfAt(s)]
  }

  /** What comes after the last line is a period: past stands at a line's start. */
  predicate StrayAfter(s: seq<char>, past: char) {
    EndsAtLineStart(s) && past == '.'
  }

  /** What is heard of a text, and the period at its end, at a prompt: each line is a command, up to one that reads
      DATA and is accepted; the lines after that are a message. */
  function TextHeard(s: seq<char>, past: char, refuses: set<nat>, n: nat): (events: seq<Event>)
    ensures |events| >= 2
    decreases |s|
  {
    var j, line := LfAt(s), FirstOut(s, past);
    if j < |s| then
      var next := s[j + 1..];
      if line == "DATA" && n !in refuses then MessageHeard(next, StrayAfter(next, past))
      else [Command(line)] + TextHeard(next, past, refuses, n + 1)
    else if line == "DATA" && n !in refuses then MessageHeard([], false)
    else [Command(line)] + [Command(".")]
  }

  lemma {:induction false} LastOut(s: seq<char>, past: char)
    requires LfAt(s) == |s|
    ensures EncodeLines(s, past) + TERMINATOR == FirstOut(s, past) + CRLF + ("." + CRLF)
  {
    EncodeLastLine(s, past);
    assert s[..|s|] == s;
    hide LfAt, EncodeLines, Stuffing;
    assert FirstOut(s, past) + TERMINATOR == FirstOut(s, past) + CRLF + ("." + CRLF);
  }

  lemma {:induction false} LastHeard(s: seq<char>, past: char, refuses: set<nat>, n: nat)
    requires LfAt(s) == |s|
    ensures TextHeard(s, past, refuses, n) ==
            if FirstOut(s, past) == "DATA" && n !in refuses then MessageHeard([], false)
            else [Command(FirstOut(s, past))] + [Command(".")]
  {
    hide LfAt, FirstOut, MessageHeard;
  }

  lemma {:induction false} HeardLast(s: seq<char>, past: char, refuses: set<nat>, n: nat)
    requires LfAt(s) == |s|
    ensures Events(EncodeLines(s, past) + TERMINATOR, refuses, n) == TextHeard(s, past, refuses, n)
    ensures AtPrompt(EncodeLines(s, past) + TERMINATOR, refuses, n)
  {
    hide *;
    LastHeard(s, past, refuses, n);
    LastOut(s, past);
    PeriodAlone(refuses, n + 1);
    if FirstOut(s, past) == "DATA" && n !in refuses {
      HearText("." + CRLF, [], false, refuses, n);
    } else {
      HearFirst(FirstOut(s, past), "." + CRLF, refuses, n);
    }
  }

  lemma {:induction false} NextOut(s: seq<char>, past: char)
    requires LfAt(s) < |s|
    ensures EncodeLines(s, past) + TERMINATOR
         == FirstOut(s, past) + CRLF + (EncodeLines(s[LfAt(s) + 1..], past) + TERMINATOR)
  {
    EncodeNextLine(s, past);
    hide LfAt, EncodeLines, Stuffing;
    Associate(FirstOut(s, past) + CRLF, EncodeLines(s[LfAt(s) + 1..], past), TERMINATOR);
  }

  lemma {:induction false} NextHeard(s: seq<char>, past: char, refuses: set<nat>, n: nat)
    requires LfAt(s) < |s|
    ensures var next := s[LfAt(s) + 1..];
            TextHeard(s, past, refuses, n) ==
            if FirstOut(s, past) == "DATA" && n !in refuses then MessageHeard(next, StrayAfter(next, past))
            else [Command(FirstOut(s, past))] + TextHeard(next, past, refuses, n + 1)
  {
    hide LfAt, FirstOut, MessageHeard, StrayAfter;
  }

  lemma {:induction false} HeardNext(s: seq<char>, past: char, refuses: set<nat>, n: nat)
    requires LfAt(s) < |s|
    requires var tail := EncodeLines(s[LfAt(s) + 1..], past) + TERMINATOR;
             && Events(tail, refuses, n + 1) == TextHeard(s[LfAt(s) + 1..], past, refuses, n + 1)
             && AtPrompt(tail, refuses, n + 1)
    ensures Events(EncodeLines(s, past) + TERMINATOR, refuses, n) == TextHeard(s, past, refuses, n)
    ensures AtPrompt(EncodeLines(s, past) + TERMINATOR, refuses, n)
  {
    hide *;
    var next := s[LfAt(s) + 1..];
    var tail := EncodeLines(next, past) + TERMINATOR;
    NextOut(s, past);
    NextHeard(s, past, refuses, n);
    if FirstOut(s, past) == "DATA" && n !in refuses {
      LinesDecode(next, past);
      HearText(tail, next, StrayAfter(next, past), refuses, n);
    } else {
      HearFirst(FirstOut(s, past), tail, refuses, n);
    }
  }

  lemma LinesDecode(s: seq<char>, past: char)
    ensures Decode(EncodeLines(s, past) + TERMINATOR)
         == Some(if StrayAfter(s, past) then (ButLf(s), ".\r\n" + []) else (s, []))
  {
    ReceiveLines(s, past, []);
    JoinSplit(s);
    if s == [] {
      SplitOne(s);
    } else if EndsWithLf(s) {
      SplitEndsWithLf(s);
      JoinSplit(ButLf(s));
      assert (SplitLf(ButLf(s)) + [[]])[..|SplitLf(ButLf(s))|] == SplitLf(ButLf(s));
    }
    hide Receive, EncodeLines, JoinLf, SplitLf;
    assert EncodeLines(s, past) + TERMINATOR + [] == EncodeLines(s, past) + TERMINATOR;
  }

  lemma {:induction false} LinesHeard(s: seq<char>, past: char, refuses: set<nat>, n: nat)
    ensures Events(EncodeLines(s, past) + TERMINATOR, refuses, n) == TextHeard(s, past, refuses, n)
    ensures AtPrompt(EncodeLines(s, past) + TERMINATOR, refuses, n)
    decreases |s|
  {
    if LfAt(s) == |s| {
      HeardLast(s, past, refuses, n);
    } else {
      LinesHeard(s[LfAt(s) + 1..], past, refuses, n + 1);
      HeardNext(s, past, refuses, n);
    }
  }

  /** The byte at the pointer does not matter when there is no text: nothing is sent before the terminator. */
  function PastOf(text: seq<char>, past: char): char {
    if text == [] then ' ' else past
  }

  lemma DataWireIs(text: seq<char>, past: char)
    ensures DataWire(text, past) == EncodeLines(text, PastOf(text, past)) + TERMINATOR
  {
    if text == [] {
      assert Encode([], past) == [] == EncodeLines([], ' ');
    } else {
      hide EncodeBytes;
    }
  }

  /** After a refused DATA the text is heard at the prompt, and the server comes back to its prompt. */
  lemma RefusedText(w: seq<char>, text: seq<char>, past: char, refuses: set<nat>)
    requires AtPrompt(w, refuses, 0) && |Events(w, refuses, 0)| in refuses
    ensures var heard := TextHeard(text, PastOf(text, past), refuses, |Events(w, refuses, 0)| + 1);
            Events(w + ("DATA" + CRLF + DataWire(text, past)), refuses, 0)
            == Events(w, refuses, 0) + ([Command("DATA")] + heard)
    ensures AtPrompt(w + ("DATA" + CRLF + DataWire(text, past)), refuses, 0)
  {
    hide *;
    var n := |Events(w, refuses, 0)|;
    AfterPrompt(w, "DATA" + CRLF + DataWire(text, past), refuses);
    DataWireIs(text, past);
    LinesHeard(text, PastOf(text, past), refuses, n + 1);
    NoCrlfInData();
    HearFirst("DATA", DataWire(text, past), refuses, n);
  }

  function Commands(lines: seq<seq<char>>): seq<Event> {
    if lines == [] then [] else [Command(lines[0])] + Commands(lines[1..])
  }

  /** The lines of a text as they go out. */
  function Stuffed(lines: seq<seq<char>>): (r: seq<seq<char>>)
    ensures |r| == |lines|
  {
    if lines == [] then [] else [DotIf(StartsWithDot(lines[0])) + lines[0]] + Stuffed(lines[1..])
  }

  /** None of these lines, heard after n events, is a DATA that is accepted. */
  ghost predicate NoDataAccepted(lines: seq<seq<char>>, refuses: set<nat>, n: nat) {
    forall k :: 0 <= k < |lines| && lines[k] == "DATA" ==> n + k in refuses
  }

  lemma FirstOfLines(line: seq<char>, lines: seq<seq<char>>, refuses: set<nat>, n: nat)
    ensures Commands([line] + lines) == [Command(line)] + Commands(lines) && Commands([]) == []
    ensures NoDataAccepted([line] + lines, refuses, n) ==>
              (line == "DATA" ==> n in refuses) && NoDataAccepted(lines, refuses, n + 1)
  {
    var all := [line] + lines;
    assert all[1..] == lines && all[0] == line;
    assert forall k :: 0 <= k < |lines| ==> lines[k] == all[k + 1] && n + 1 + k == n + (k + 1);
  }

  lemma {:induction false} CommandsLast(lines: seq<seq<char>>, last: seq<char>)
    ensures Commands(lines + [last]) == Commands(lines) + [Command(last)]
  {
    if lines == [] {
      assert lines + [last] == [last];
    } else {
      assert (lines + [last])[1..] == lines[1..] + [last];
      CommandsLast(lines[1..], last);
    }
  }

  lemma StuffedFirst(line: seq<char>, lines: seq<seq<char>>)
    ensures Stuffed([line] + lines) == [DotIf(StartsWithDot(line)) + line] + Stuffed(lines)
    ensures Stuffed([]) == []
  {
    assert ([line] + lines)[1..] == lines;
  }

  lemma FirstStarts(s: seq<char>, past: char)
    requires s != [] || past != '.'
    ensures FirstOut(s, past) == DotIf(StartsWithDot(s[..LfAt(s)])) + s[..LfAt(s)]
  {
    hide LfAt;
    assert LfAt(s) > 0 ==> s[..LfAt(s)][0] == s[0];
  }

  lemma {:induction false} StuffedSplit(s: seq<char>, past: char)
    requires !StrayAfter(s, past)
    ensures Stuffed(SplitLf(s))
         == [FirstOut(s, past)] + if LfAt(s) < |s| then Stuffed(SplitLf(s[LfAt(s) + 1..])) else []
  {
    var lines := if LfAt(s) < |s| then SplitLf(s[LfAt(s) + 1..]) else [];
    FirstStarts(s, past);
    StuffedFirst(s[..LfAt(s)], lines);
    hide LfAt, SplitLf, StartsWithDot, Stuffed, FirstOut, StrayAfter;
    if LfAt(s) < |s| {
      SplitStep(s);
    } else {
      SplitOne(s);
      assert s[..LfAt(s)] == s && [s] + [] == [s];
    }
  }

  /** If no line that reads DATA is accepted, and no stray period comes after the text, every line is a command. */
  lemma {:induction false} HeardByLine(s: seq<char>, past: char, refuses: set<nat>, n: nat)
    requires NoDataAccepted(Stuffed(SplitLf(s)), refuses, n) && !StrayAfter(s, past)
    ensures TextHeard(s, past, refuses, n) == Commands(Stuffed(SplitLf(s))) + [Command(".")]
    decreases |s|
  {
    var next := if LfAt(s) < |s| then Stuffed(SplitLf(s[LfAt(s) + 1..])) else [];
    if LfAt(s) < |s| {
      SplitStep(s);
    }
    hide *;
    StuffedSplit(s, past);
    FirstOfLines(FirstOut(s, past), next, refuses, n);
    if LfAt(s) == |s| {
      LastHeard(s, past, refuses, n);
    } else {
      NextHeard(s, past, refuses, n);
      HeardByLine(s[LfAt(s) + 1..], past, refuses, n + 1);
      Associate([Command(FirstOut(s, past))], Commands(next), [Command(".")]);
    }
  }

  // ---------------------------------------------------------------- a text on the wire

  lemma FirstWireLine(line: seq<char>, tail: seq<char>)
    requires '\n' !in line
    ensures WireLines(line + CRLF + tail) == [line] + WireLines(tail)
    ensures OnlyLines(line + CRLF + tail) <==> OnlyLines(tail)
  {
    FirstLine(line, tail);
    hide CrlfAt;
  }

  lemma PeriodLine()
    ensures WireLines("." + CRLF) == ["."] && OnlyLines("." + CRLF)
  {
    FirstWireLine(".", []);
    assert "." + CRLF + [] == "." + CRLF && ["."] + WireLines([]) == ["."];
  }

  lemma {:induction false} LinesOnWire(s: seq<char>, past: char)
    requires !StrayAfter(s, past)
    ensures WireLines(EncodeLines(s, past) + TERMINATOR) == Stuffed(SplitLf(s)) + ["."]
    ensures OnlyLines(EncodeLines(s, past) + TERMINATOR)
    decreases |s|
  {
    if LfAt(s) < |s| {
      SplitStep(s);
    }
    var line, next := FirstOut(s, past), if LfAt(s) < |s| then s[LfAt(s) + 1..] else [];
    hide *;
    StuffedSplit(s, past);
    if LfAt(s) == |s| {
      LastOut(s, past);
      PeriodLine();
      FirstWireLine(line, "." + CRLF);
    } else {
      NextOut(s, past);
      LinesOnWire(next, past);
      FirstWireLine(line, EncodeLines(next, past) + TERMINATOR);
      Associate([line], Stuffed(SplitLf(next)), ["."]);
    }
  }

  lemma {:induction false} NoLfInLines(s: seq<char>, i: nat)
    requires i < |SplitLf(s)|
    ensures '\n' !in SplitLf(s)[i]
    decreases |s|
  {
    if i > 0 {
      NoLfInLines(s[LfAt(s) + 1..], i - 1);
    }
  }

  lemma {:induction false} StuffedAt(lines: seq<seq<char>>, i: nat)
    requires i < |lines|
    ensures Stuffed(lines)[i] == if lines[i] != [] && lines[i][0] == '.' then "." + lines[i] else lines[i]
  {
    if i == 0 {
      assert [] + lines[0] == lines[0];
    } else {
      StuffedAt(lines[1..], i - 1);
    }
  }

  /** What goes out for a text, byte by byte: the text's lines, with CR LF for LF and a period before each that
      starts with one, and a line with a period. */
  lemma TextOnWire(text: seq<char>, past: char)
    requires !(EndsWithLf(text) && past == '.')
    ensures var (lines, out) := (SplitLf(text), WireLines(Encode(text, past) + "\r\n.\r\n"));
            && JoinLf(lines) == text && |out| == |lines| + 1 && out[|lines|] == "."
            && forall i :: 0 <= i < |lines| ==>
                 && '\n' !in lines[i]
                 && out[i] == if lines[i] != [] && lines[i][0] == '.' then "." + lines[i] else lines[i]
    ensures OnlyLines(Encode(text, past) + "\r\n.\r\n")
  {
    assert !StrayAfter(text, PastOf(text, past));
    hide *;
    JoinSplit(text);
    DataWireSpelled(text, past);
    DataWireIs(text, past);
    LinesOnWire(text, PastOf(text, past));
    var lines := SplitLf(text);
    forall i | 0 <= i < |lines|
      ensures '\n' !in lines[i]
      ensures Stuffed(lines)[i] == if lines[i] != [] && lines[i][0] == '.' then "." + lines[i] else lines[i]
    {
      NoLfInLines(text, i);
      StuffedAt(lines, i);
    }
  }

  lemma DataWireSpelled(text: seq<char>, past: char)
    ensures DataWire(text, past) == Encode(text, past) + "\r\n.\r\n"
  {
  }

  // ---------------------------------------------------------------- replies

  /** Replies owed for what was sent: the greeting, and one for each command and each message. */
  function Due(wire: seq<char>, refuses: set<nat>): nat {
    1 + |Events(wire, refuses, 0)|
  }

  /** The remote host at the end of sock; reply(i) is its i-th reply, the greeting being the 0-th. */
  class Server {
    const sock: Socket
    const reply: nat -> seq<seq<char>>
    const refuses: set<nat>      // it refuses a DATA that is the i-th thing it hears for these i

    constructor (sock: Socket, reply: nat -> seq<seq<char>>, refuses: set<nat>)
      ensures this.sock == sock && this.reply == reply && this.refuses == refuses
    {
      this.sock, this.reply, this.refuses := sock, reply, refuses;
    }

    /** The server deals with all that has been sent to it, and its replies arrive. */
    method Serve(ghost m: nat)
      requires sock.Valid() && m <= Due(sock.sent, refuses) && sock.arrived == ReplyText(reply, m)
      modifies sock`arrived
      ensures sock.Valid() && sock.arrived == ReplyText(reply, Due(sock.sent, refuses))
    {
      ReplyTextGrows(reply, m, Due(sock.sent, refuses));
      sock.Arrive(ReplyText(reply, Due(sock.sent, refuses))[|sock.arrived|..]);
    }
  }
}
