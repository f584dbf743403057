/** socket++/smtp.cpp, send_buf: the encoding of a message text for the DATA command, and a receiver
    for it written from section 4.5.2 of RFC 821. */
module SmtpData {
  import opened Lines

  const TERMINATOR: seq<char> := "\r\n.\r\n"

  // ---------------------------------------------------------------- what send_buf puts on the wire

  predicate StartsWithDot(s: seq<char>) {
    s != [] && s[0] == '.'
  }

  predicate EndsWithLf(s: seq<char>) {
    s != [] && s[|s| - 1] == '\n'
  }

  /** A text without its last LF. */
  function ButLf(text: seq<char>): seq<char> {
    if text == [] then [] else text[..|text| - 1]
  }

  function DotIf(b: bool): seq<char> {
    if b then "." else []
  }

  /** The byte at the pointer p: the text's first, or the one past its end. */
  function FirstByte(text: seq<char>, past: char): char {
    if text == [] then past else text[0]
  }

  /** The period before text at a line's start. */
  function Stuffing(text: seq<char>, past: char): seq<char> {
    DotIf(FirstByte(text, past) == '.')
  }

  /** One turn of the loop, at byte c with text still to come. */
  function EncodeByte(c: char, text: seq<char>, past: char): seq<char> {
    if c == '\n' then CRLF + Stuffing(text, past) else [c]
  }

  /** The loop over the whole text. */
  function EncodeBytes(text: seq<char>, past: char): seq<char> {
    if text == [] then [] else EncodeByte(text[0], text[1..], past) + EncodeBytes(text[1..], past)
  }

  function Encode(text: seq<char>, past: char): seq<char> {
    DotIf(StartsWithDot(text)) + EncodeBytes(text, past)
  }

  /** All that follows the DATA command's reply: the text and the terminator. */
  function DataWire(text: seq<char>, past: char): seq<char> {
    Encode(text, past) + TERMINATOR
  }

  // ---------------------------------------------------------------- the receiver of RFC 821

  /** A line as transmitted loses one leading period. */
  function Unstuff(line: seq<char>): seq<char> {
    if StartsWithDot(line) then line[1..] else line
  }

  /** Lines are split at CR LF; the line "." ends the text. Yields the lines of the text and what
      follows it, or None while the end has not been seen. */
  function Receive(wire: seq<char>): (r: Option<(seq<seq<char>>, seq<char>)>)
    ensures r.Some? ==> |r.value.1| < |wire|
    decreases |wire|
  {
    var i := CrlfAt(wire);
    if i == |wire| then None
    else
      var line, rest := wire[..i], wire[i + 2..];
      if line == "." then Some(([], rest))
      else
        match Receive(rest)
        case None => None
        case Some((lines, left)) => Some(([Unstuff(line)] + lines, left))
  }

  function JoinLf(lines: seq<seq<char>>): seq<char> {
    if lines == [] then []
    else if |lines| == 1 then lines[0]
    else lines[0] + "\n" + JoinLf(lines[1..])
  }

  /** The received text and what follows it. */
  function Decode(wire: seq<char>): (r: Option<(seq<char>, seq<char>)>)
    ensures r.Some? ==> |r.value.1| < |wire|
  {
    match Receive(wire)
    case None => None
    case Some((lines, left)) => Some((JoinLf(lines), left))
  }

  // ---------------------------------------------------------------- lines of a text

  function LfAt(s: seq<char>): (i: nat)
    ensures i <= |s| && (i < |s| ==> s[i] == '\n')
    ensures forall j :: 0 <= j < i ==> s[j] != '\n'
  {
    if s == [] || s[0] == '\n' then 0 else 1 + LfAt(s[1..])
  }

  /** The text cut at every LF: one more piece than there are LFs. */
  function SplitLf(s: seq<char>): (ls: seq<seq<char>>)
    ensures |ls| > 0
  {
    var j := LfAt(s);
    if j == |s| then [s] else [s[..j]] + SplitLf(s[j + 1..])
  }

  lemma JoinFirst(line: seq<char>, lines: seq<seq<char>>)
    ensures JoinLf([line]) == line
    ensures lines != [] ==> JoinLf([line] + lines) == line + "\n" + JoinLf(lines)
  {
    assert ([line] + lines)[1..] == lines;
  }

  lemma {:induction false} AtLf(s: seq<char>)
    requires LfAt(s) < |s|
    ensures s == s[..LfAt(s)] + "\n" + s[LfAt(s) + 1..]
  {
  }

  lemma {:induction false} JoinSplit(s: seq<char>)
    ensures JoinLf(SplitLf(s)) == s
    decreases |s|
  {
    hide LfAt, SplitLf, JoinLf, EndsAtLineStart;
    if LfAt(s) == |s| {
      SplitOne(s);
      JoinFirst(s, []);
    } else {
      SplitStep(s);
      JoinSplit(s[LfAt(s) + 1..]);
      JoinFirst(s[..LfAt(s)], SplitLf(s[LfAt(s) + 1..]));
      AtLf(s);
    }
  }

  // ---------------------------------------------------------------- encoding, line by line

  /** What is sent for text s at a line's start. */
  function EncodeLines(s: seq<char>, past: char): seq<char> {
    Stuffing(s, past) + EncodeBytes(s, past)
  }

  /** Up to the next LF bytes go out as they are. */
  lemma {:induction false} EncodeToLf(s: seq<char>, past: char)
    ensures EncodeBytes(s, past) == s[..LfAt(s)] + EncodeBytes(s[LfAt(s)..], past)
  {
    if LfAt(s) == 0 {
      assert s[0..] == s && s[..0] == [];
    } else {
      EncodeToLf(s[1..], past);
      EncodeToLfStep(s, past);
    }
  }

  lemma {:induction false} EncodeToLfStep(s: seq<char>, past: char)
    requires LfAt(s) > 0
    requires EncodeBytes(s[1..], past) == s[1..][..LfAt(s[1..])] + EncodeBytes(s[1..][LfAt(s[1..])..], past)
    ensures EncodeBytes(s, past) == s[..LfAt(s)] + EncodeBytes(s[LfAt(s)..], past)
  {
    hide LfAt;
    var j := LfAt(s);
    assert LfAt(s[1..]) == j - 1;
    assert EncodeBytes(s, past) == [s[0]] + EncodeBytes(s[1..], past);
    assert s[1..][j - 1..] == s[j..];
    assert s[..j] == [s[0]] + s[1..][..j - 1];
    hide *;
    Associate([s[0]], s[1..][..j - 1], EncodeBytes(s[j..], past));
  }

  /** A last line goes out as it is. */
  lemma {:induction false} EncodeLastLine(s: seq<char>, past: char)
    requires LfAt(s) == |s|
    ensures EncodeLines(s, past) == Stuffing(s, past) + s
  {
    EncodeToLf(s, past);
    assert s[..|s|] == s && s[|s|..] == [];
  }

  /** Any other line is followed by CR LF and the lines after it. */
  lemma {:induction false} EncodeNextLine(s: seq<char>, past: char)
    requires LfAt(s) < |s|
    ensures EncodeLines(s, past) == Stuffing(s, past) + s[..LfAt(s)] + CRLF + EncodeLines(s[LfAt(s) + 1..], past)
  {
    var j := LfAt(s);
    var rest := s[j + 1..];
    EncodeToLf(s, past);
    assert s[j..][1..] == rest;
    assert EncodeBytes(s[j..], past) == CRLF + Stuffing(rest, past) + EncodeBytes(rest, past);
    hide LfAt, EncodeBytes, EncodeByte, Stuffing;
    Regroup(Stuffing(s, past), s[..j], Stuffing(rest, past), EncodeBytes(rest, past));
  }

  lemma Regroup(a: seq<char>, b: seq<char>, c: seq<char>, d: seq<char>)
    ensures a + (b + (CRLF + c + d)) == a + b + CRLF + (c + d)
  {
  }

  /** A line without LF that is followed by CR LF is the receiver's first line. */
  lemma FirstLine(line: seq<char>, rest: seq<char>)
    requires '\n' !in line
    ensures CrlfAt(line + CRLF + rest) == |line|
    ensures (line + CRLF + rest)[..|line|] == line && (line + CRLF + rest)[|line| + 2..] == rest
  {
    var w := line + CRLF + rest;
    assert CrlfPair(w, |line|);
    assert forall i :: 0 <= i < |line| ==> w[i] == line[i];
    assert w[|line|] == '\r';
  }

  /** The receiver takes one line off the wire. */
  lemma ReceiveLine(line: seq<char>, tail: seq<char>)
    requires '\n' !in line
    ensures line == "." ==> Receive(line + CRLF + tail) == Some(([], tail))
    ensures line != "." && Receive(tail).Some? ==>
              Receive(line + CRLF + tail) == Some(([Unstuff(line)] + Receive(tail).value.0, Receive(tail).value.1))
  {
    FirstLine(line, tail);
  }

  lemma StuffedLine(s: seq<char>, past: char)
    ensures '\n' !in Stuffing(s, past) + s[..LfAt(s)]
    ensures Stuffing(s, past) + s[..LfAt(s)] == "." <==> s == [] && past == '.'
    ensures s != [] || past != '.' ==> Unstuff(Stuffing(s, past) + s[..LfAt(s)]) == s[..LfAt(s)]
  {
    hide LfAt;
    var j := LfAt(s);
    assert ("." + s[..j])[1..] == s[..j] && [] + s[..j] == s[..j];
    if j > 0 {
      assert s[..j][0] == s[0];
    }
  }

  /** The text ends at a line's start. */
  predicate EndsAtLineStart(s: seq<char>) {
    s == [] || EndsWithLf(s)
  }

  /** What the receiver makes of the lines of s. When the last line is empty and past is a period, that
      period is taken for the end of the text. */
  function Received(s: seq<char>, past: char, rest: seq<char>): (seq<seq<char>>, seq<char>) {
    if past == '.' && EndsAtLineStart(s) then (SplitLf(s)[..|SplitLf(s)| - 1], ".\r\n" + rest)
    else (SplitLf(s), rest)
  }

  lemma ButLast(line: seq<char>, lines: seq<seq<char>>)
    requires lines != []
    ensures ([line] + lines)[..|lines|] == [line] + lines[..|lines| - 1]
  {
  }

  lemma {:induction false} SplitStep(s: seq<char>)
    requires LfAt(s) < |s|
    ensures SplitLf(s) == [s[..LfAt(s)]] + SplitLf(s[LfAt(s) + 1..])
    ensures EndsAtLineStart(s) <==> EndsAtLineStart(s[LfAt(s) + 1..])
  {
    hide LfAt;
    var next := s[LfAt(s) + 1..];
    assert next != [] ==> next[|next| - 1] == s[|s| - 1];
  }

  lemma ReceivedStep(s: seq<char>, past: char, rest: seq<char>)
    requires LfAt(s) < |s|
    ensures Received(s, past, rest)
         == ([s[..LfAt(s)]] + Received(s[LfAt(s) + 1..], past, rest).0, Received(s[LfAt(s) + 1..], past, rest).1)
  {
    hide LfAt, SplitLf, EndsAtLineStart;
    SplitStep(s);
    ButLast(s[..LfAt(s)], SplitLf(s[LfAt(s) + 1..]));
  }

  /** The receiver reads the lines of s off the wire. */
  lemma {:induction false} ReceiveLines(s: seq<char>, past: char, rest: seq<char>)
    ensures Receive(EncodeLines(s, past) + TERMINATOR + rest) == Some(Received(s, past, rest))
    decreases |s|
  {
    if LfAt(s) < |s| {
      ReceiveLines(s[LfAt(s) + 1..], past, rest);
      ReceiveNextLine(s, past, rest);
    } else {
      ReceiveLastLine(s, past, rest);
    }
  }

  lemma ReceiveNextLine(s: seq<char>, past: char, rest: seq<char>)
    requires LfAt(s) < |s|
    requires Receive(EncodeLines(s[LfAt(s) + 1..], past) + TERMINATOR + rest)
          == Some(Received(s[LfAt(s) + 1..], past, rest))
    ensures Receive(EncodeLines(s, past) + TERMINATOR + rest) == Some(Received(s, past, rest))
  {
    hide LfAt, SplitLf, EncodeLines, EncodeBytes, Receive, Received, Unstuff;
    var line, next := Stuffing(s, past) + s[..LfAt(s)], s[LfAt(s) + 1..];
    var tail := EncodeLines(next, past) + TERMINATOR + rest;
    StuffedLine(s, past);
    ReceivedStep(s, past, rest);
    EncodeNextLine(s, past);
    ReceiveLine(line, tail);
    hide *;
    Reassociate(line, EncodeLines(next, past), TERMINATOR, rest);
  }

  lemma Reassociate(a: seq<char>, b: seq<char>, c: seq<char>, d: seq<char>)
    ensures (a + CRLF + b) + c + d == a + CRLF + (b + c + d)
  {
  }

  lemma ReceiveLastLine(s: seq<char>, past: char, rest: seq<char>)
    requires LfAt(s) == |s|
    ensures Receive(EncodeLines(s, past) + TERMINATOR + rest) == Some(Received(s, past, rest))
  {
    hide LfAt, Receive, EncodeLines, EncodeBytes;
    var line, tail := Stuffing(s, past) + s, ".\r\n" + rest;
    assert s[..|s|] == s;
    StuffedLine(s, past);
    EncodeLastLine(s, past);
    ReceiveLine(".", rest);
    assert tail == "." + CRLF + rest;
    assert SplitLf(s) == [s] && [s][..0] == [];
    assert [Unstuff(line)] + [] == [Unstuff(line)];
    assert Received(s, past, rest) == if line == "." then ([], tail) else ([s], rest);
    hide Received, Stuffing;
    assert line + TERMINATOR + rest == line + CRLF + tail;
    ReceiveLine(line, tail);
  }

  // ---------------------------------------------------------------- the round trip

  lemma SplitOne(s: seq<char>)
    requires LfAt(s) == |s|
    ensures SplitLf(s) == [s]
  {
  }

  lemma {:induction false} SplitEndsWithLf(s: seq<char>)
    requires EndsWithLf(s)
    ensures SplitLf(s) == SplitLf(s[..|s| - 1]) + [[]]
    decreases |s|
  {
    hide LfAt, SplitLf;
    var body, j := s[..|s| - 1], LfAt(s);
    var next := s[j + 1..];
    SplitStep(s);
    if next == [] {
      assert s[..j] == body;
      SplitOne(body);
      SplitOne(next);
    } else {
      SplitEndsWithLf(next);
      assert LfAt(body) == j && body[j + 1..] == next[..|next| - 1] && body[..j] == s[..j];
      SplitStep(body);
      hide *;
      assert [s[..j]] + (SplitLf(next[..|next| - 1]) + [[]]) == [s[..j]] + SplitLf(next[..|next| - 1]) + [[]];
    }
  }

  /** A text reaches the receiver unchanged, with nothing left over, except when it ends in LF and the
      byte past its end is a period: then it loses that LF and its terminator is left over. */
  lemma DataRoundTrip(text: seq<char>, past: char, rest: seq<char>)
    ensures Decode(DataWire(text, past) + rest) == Some((text, rest)) <==> !(EndsWithLf(text) && past == '.')
    ensures EndsWithLf(text) && past == '.' ==>
              Decode(DataWire(text, past) + rest) == Some((ButLf(text), ".\r\n" + rest))
  {
    JoinSplit(text);
    if text == [] {
      // nothing is sent before the terminator, whatever the byte at the pointer
      ReceiveLines([], ' ', rest);
    } else {
      ReceiveLines(text, past, rest);
      if EndsWithLf(text) {
        SplitEndsWithLf(text);
        JoinSplit(ButLf(text));
      }
    }
  }

  /** Different texts are sent differently. */
  lemma {:induction false} EncodeInjective(a: seq<char>, b: seq<char>, past: char)
    requires Encode(a, past) == Encode(b, past)
    ensures a == b
  {
    hide Encode, Decode;
    DataRoundTrip(a, past, []);
    DataRoundTrip(b, past, []);
    assert EndsWithLf(a) ==> a == ButLf(a) + "\n";
    assert EndsWithLf(b) ==> b == ButLf(b) + "\n";
  }
}
