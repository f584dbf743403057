/** socket++/smtp.cpp, the loop of data (filename): a text that send_buf gets in several calls, and what of
    it a receiver makes. */
module SmtpChunks {
  import opened Lines
  import opened SmtpData

  /** A call of send_buf: the text, and the byte past its end. */
  datatype Chunk = Chunk(text: seq<char>, past: char)

  function SendAll(chunks: seq<Chunk>): seq<char> {
    if chunks == [] then []
    else
      var last := chunks[|chunks| - 1];
      SendAll(chunks[..|chunks| - 1]) + Encode(last.text, last.past)
  }

  function Whole(chunks: seq<Chunk>): seq<char> {
    if chunks == [] then [] else Whole(chunks[..|chunks| - 1]) + chunks[|chunks| - 1].text
  }

  /** Encoding a + b: b's own encoding, but its first byte is at a line's start only after an LF. */
  lemma {:induction false} EncodeBytesAppend(a: seq<char>, b: seq<char>, past: char)
    ensures EncodeBytes(a + b, past) == EncodeBytes(a, FirstByte(b, past)) + EncodeBytes(b, past)
  {
    if a == [] {
      assert a + b == b;
    } else {
      assert (a + b)[1..] == a[1..] + b;
      EncodeBytesAppend(a[1..], b, past);
    }
  }

  /** The byte past the end matters only after an LF, and only by being a period. */
  lemma {:induction false} EncodeBytesPast(a: seq<char>, p: char)
    ensures EncodeBytes(a, p) == EncodeBytes(a, ' ') + DotIf(EndsWithLf(a) && p == '.')
  {
    if |a| > 1 {
      EncodeBytesPast(a[1..], p);
    } else if |a| == 1 {
      assert EncodeBytes(a[1..], p) == EncodeBytes(a[1..], ' ') == [];
    }
  }

  /** Two calls next to one call for both texts: every byte is the same but for the periods between. */
  lemma {:induction false} SendTwo(a: seq<char>, pa: char, b: seq<char>, pb: char)
    requires a != [] && b != []
    ensures Encode(a, pa) + Encode(b, pb)
         == Encode(a, ' ') + (DotIf(EndsWithLf(a) && pa == '.') + DotIf(b[0] == '.') + EncodeBytes(b, pb))
    ensures Encode(a + b, pb) == Encode(a, ' ') + (DotIf(EndsWithLf(a) && b[0] == '.') + EncodeBytes(b, pb))
  {
    EncodePast(a, pa);
    EncodePast(a, b[0]);
    EncodeBytesAppend(a, b, pb);
    var (start, next) := (DotIf(StartsWithDot(a)), EncodeBytes(b, pb));
    assert Encode(a + b, pb) == start + (EncodeBytes(a, b[0]) + next);
    assert Encode(a, b[0]) == start + EncodeBytes(a, b[0]);
    assert Encode(b, pb) == DotIf(b[0] == '.') + next;
    hide *;
    Associate(start, EncodeBytes(a, b[0]), next);
    Associate(Encode(a, ' '), DotIf(EndsWithLf(a) && b[0] == '.'), next);
    Associate(Encode(a, ' '), DotIf(EndsWithLf(a) && pa == '.'), DotIf(b[0] == '.') + next);
    Associate(DotIf(EndsWithLf(a) && pa == '.'), DotIf(b[0] == '.'), next);
  }

  lemma EncodePast(a: seq<char>, p: char)
    ensures Encode(a, p) == Encode(a, ' ') + DotIf(EndsWithLf(a) && p == '.')
  {
    EncodeBytesPast(a, p);
    hide EncodeBytes;
  }

  /** Two nonempty chunks go out like the whole exactly when, after an LF, the byte past the first chunk
      is no period and, elsewhere, the second chunk does not start with one. */
  lemma TwoChunks(a: seq<char>, pa: char, b: seq<char>, pb: char)
    requires a != [] && b != []
    ensures Encode(a, pa) + Encode(b, pb) == Encode(a + b, pb)
       <==> if EndsWithLf(a) then pa != '.' else b[0] != '.'
  {
    SendTwo(a, pa, b, pb);
    var extra := DotIf(EndsWithLf(a) && pa == '.') + DotIf(b[0] == '.');
    assert |extra| == |DotIf(EndsWithLf(a) && b[0] == '.')| ==> extra == DotIf(EndsWithLf(a) && b[0] == '.');
  }

  // ---------------------------------------------------------------- how many bytes too many

  /** b starts with a period, but not at a line's start of the text a + b. */
  predicate BadBoundary(a: seq<char>, b: seq<char>) {
    StartsWithDot(b) && !EndsAtLineStart(a)
  }

  /** The periods that one call for the whole text would not send: one where a chunk that starts with a
      period comes in the middle of a line, and one where the byte past a chunk's last LF is a period. */
  function Extras(chunks: seq<Chunk>): nat {
    if chunks == [] then 0
    else
      var before, last := chunks[..|chunks| - 1], chunks[|chunks| - 1];
      Extras(before) + |DotIf(BadBoundary(Whole(before), last.text))|
      + |DotIf(EndsWithLf(last.text) && last.past == '.')|
  }

  lemma OneMoreChunk(whole: seq<char>, t: seq<char>, p: char)
    ensures |Encode(whole, ' ')| + |Encode(t, p)|
         == |Encode(whole + t, ' ')| + |DotIf(BadBoundary(whole, t))| + |DotIf(EndsWithLf(t) && p == '.')|
    ensures !BadBoundary(whole, t) && !(EndsWithLf(t) && p == '.') ==>
              Encode(whole, ' ') + Encode(t, p) == Encode(whole + t, ' ')
  {
    EncodePast(t, p);
    hide EncodeBytes;
    if whole == [] || t == [] {
      assert whole + t == if whole == [] then t else whole;
      EncodeNone(' ');
      EncodeNone(p);
      hide Encode;
    } else {
      hide Encode;
      OneMoreText(whole, t);
    }
  }

  lemma EncodeNone(p: char)
    ensures Encode([], p) == []
  {
  }

  lemma OneMoreText(whole: seq<char>, t: seq<char>)
    requires whole != [] && t != []
    ensures |Encode(whole, ' ')| + |Encode(t, ' ')| == |Encode(whole + t, ' ')| + |DotIf(BadBoundary(whole, t))|
    ensures !BadBoundary(whole, t) ==> Encode(whole, ' ') + Encode(t, ' ') == Encode(whole + t, ' ')
  {
    SendTwo(whole, ' ', t, ' ');
    hide Encode, EncodeBytes;
    var sent := Encode(whole, ' ') + Encode(t, ' ');
    assert |sent| == |Encode(whole, ' ')| + |Encode(t, ' ')|;
    assert DotIf(EndsWithLf(whole) && ' ' == '.') + DotIf(t[0] == '.') == DotIf(t[0] == '.');
  }

  lemma SendNone()
    ensures SendAll([]) == Whole([]) == Encode([], ' ') == []
  {
  }

  /** What goes out is as long as the whole text's encoding and the extra periods together; without such
      periods it is that encoding. */
  lemma {:induction false} SendChunks(chunks: seq<Chunk>)
    ensures |SendAll(chunks)| == |Encode(Whole(chunks), ' ')| + Extras(chunks)
    ensures SendAll(chunks) == Encode(Whole(chunks), ' ') <==> Extras(chunks) == 0
  {
    if chunks == [] {
      SendNone();
    } else {
      var before, last := chunks[..|chunks| - 1], chunks[|chunks| - 1];
      SendChunks(before);
      OneMoreChunk(Whole(before), last.text, last.past);
      hide Encode, BadBoundary;
    }
  }

  // ---------------------------------------------------------------- the receiver, byte by byte

  /** Where in a line the receiver is. Dot: a period has come at the line's start, and nothing after it. */
  datatype Place = Start | Dot | Mid

  /** What the receiver has after some bytes: the text so far, an LF after each line that was ended; or that
      text and what follows it, once the text's end has come. */
  datatype Scanned = More(text: seq<char>, at: Place) | End(text: seq<char>, left: seq<char>)

  /** The receiver as an automaton that has got text, and now gets wire. */
  function Scan(wire: seq<char>, text: seq<char>, at: Place): Scanned {
    if wire == [] then More(text, at)
    else if CrlfPair(wire, 0) then
      if at.Dot? then End(text, wire[2..]) else Scan(wire[2..], text + "\n", Start)
    else if at.Start? && wire[0] == '.' then Scan(wire[1..], text, Dot)
    else Scan(wire[1..], text + [wire[0]], Mid)
  }

  lemma {:induction false} CrlfNext(wire: seq<char>)
    requires wire != [] && !CrlfPair(wire, 0)
    ensures CrlfAt(wire) == 1 + CrlfAt(wire[1..])
    ensures wire[..CrlfAt(wire)] == [wire[0]] + wire[1..][..CrlfAt(wire[1..])]
    ensures CrlfAt(wire) < |wire| ==> wire[CrlfAt(wire) + 2..] == wire[1..][CrlfAt(wire[1..]) + 2..]
  {
  }

  /** Inside a line, the bytes up to CR LF are the rest of it. */
  lemma {:induction false} ScanLine(wire: seq<char>, text: seq<char>)
    ensures var i := CrlfAt(wire);
            if i == |wire| then Scan(wire, text, Mid).More?
            else Scan(wire, text, Mid) == Scan(wire[i + 2..], text + wire[..i] + "\n", Start)
  {
    if wire == [] {
    } else if CrlfPair(wire, 0) {
      assert text + wire[..0] == text;
    } else {
      CrlfNext(wire);
      ScanLine(wire[1..], text + [wire[0]]);
      hide CrlfAt;
      Associate(text, [wire[0]], wire[1..][..CrlfAt(wire[1..])]);
    }
  }

  /** From a line's start, a line goes without its leading period; and a lone period ends the text. */
  lemma {:induction false} ScanStart(wire: seq<char>, text: seq<char>)
    ensures var i := CrlfAt(wire);
            if i == |wire| then Scan(wire, text, Start).More?
            else Scan(wire, text, Start) == if wire[..i] == "." then End(text, wire[i + 2..])
                                            else Scan(wire[i + 2..], text + Unstuff(wire[..i]) + "\n", Start)
  {
    if wire == [] {
    } else if CrlfPair(wire, 0) {
      assert text + wire[..0] == text;
    } else {
      CrlfNext(wire);
      var w := wire[1..];
      if wire[0] != '.' {
        ScanLine(w, text + [wire[0]]);
        hide CrlfAt;
        Associate(text, [wire[0]], w[..CrlfAt(w)]);
      } else if w == [] || CrlfPair(w, 0) {
        assert w != [] ==> w[2..] == wire[3..];
      } else {
        CrlfNext(w);
        ScanLine(w[1..], text + [w[0]]);
        hide CrlfAt;
        Associate(text, [w[0]], w[1..][..CrlfAt(w[1..])]);
        assert wire[..CrlfAt(wire)][1..] == w[..CrlfAt(w)];
      }
    }
  }

  function AllLf(lines: seq<seq<char>>): seq<char> {
    if lines == [] then [] else lines[0] + "\n" + AllLf(lines[1..])
  }

  lemma {:induction false} JoinIsButLf(lines: seq<seq<char>>)
    ensures JoinLf(lines) == ButLf(AllLf(lines))
  {
    if |lines| > 1 {
      JoinIsButLf(lines[1..]);
      assert AllLf(lines[1..]) != [];
    } else if |lines| == 1 {
      assert AllLf(lines) == lines[0] + "\n";
    }
  }

  lemma {:induction false} ScanLines(wire: seq<char>, text: seq<char>)
    ensures match Receive(wire)
            case None => Scan(wire, text, Start).More?
            case Some((lines, left)) => Scan(wire, text, Start) == End(text + AllLf(lines), left)
    decreases |wire|
  {
    ScanStart(wire, text);
    var i := CrlfAt(wire);
    hide CrlfAt;
    if i == |wire| {
    } else {
      var line, rest := wire[..i], wire[i + 2..];
      if line == "." {
        assert text + AllLf([]) == text;
      } else {
        ScanLines(rest, text + Unstuff(line) + "\n");
        if Receive(rest).Some? {
          var lines := Receive(rest).value.0;
          assert ([Unstuff(line)] + lines)[1..] == lines;
          Associate(text + Unstuff(line), "\n", AllLf(lines));
          Associate(text, Unstuff(line), "\n" + AllLf(lines));
          Associate(Unstuff(line), "\n", AllLf(lines));
        }
      }
    }
  }

  /** The automaton is the receiver. */
  lemma ScanDecodes(wire: seq<char>)
    ensures Decode(wire) == match Scan(wire, [], Start)
                            case More(_, _) => None
                            case End(text, left) => Some((ButLf(text), left))
  {
    ScanLines(wire, []);
    if Receive(wire).Some? {
      JoinIsButLf(Receive(wire).value.0);
      assert [] + AllLf(Receive(wire).value.0) == AllLf(Receive(wire).value.0);
    }
    hide Receive, Scan, JoinLf, AllLf;
  }

  /** It may get the bytes in two parts, unless the second starts with an LF. */
  lemma {:induction false} ScanAppend(w: seq<char>, x: seq<char>, text: seq<char>, at: Place)
    requires x == [] || x[0] != '\n'
    ensures Scan(w + x, text, at) == match Scan(w, text, at)
                                     case More(t, a) => Scan(x, t, a)
                                     case End(t, left) => End(t, left + x)
  {
    if w == [] {
      assert w + x == x;
    } else if CrlfPair(w, 0) {
      assert (w + x)[2..] == w[2..] + x;
      if !at.Dot? {
        ScanAppend(w[2..], x, text + "\n", Start);
      }
    } else {
      assert (w + x)[1..] == w[1..] + x;
      if at.Start? && w[0] == '.' {
        ScanAppend(w[1..], x, text, Dot);
      } else {
        ScanAppend(w[1..], x, text + [w[0]], Mid);
      }
    }
  }

  // ---------------------------------------------------------------- the receiver, chunk by chunk

  /** Where a chunk that is not empty leaves the receiver. */
  function PlaceAfter(text: seq<char>, past: char): Place {
    if !EndsWithLf(text) then Mid else if past == '.' then Dot else Start
  }

  lemma NoLfFirst(t: seq<char>, p: char)
    ensures EncodeBytes(t, p) == [] || EncodeBytes(t, p)[0] != '\n'
    ensures Encode(t, p) == [] || Encode(t, p)[0] != '\n'
  {
  }

  lemma ScanDot(text: seq<char>, at: Place)
    ensures Scan(".", text, at) == if at.Start? then More(text, Dot) else More(text + ".", Mid)
  {
    assert "."[1..] == [];
  }

  lemma ScanCrlf(x: seq<char>, text: seq<char>, at: Place)
    ensures Scan(CRLF + x, text, at) == if at.Dot? then End(text, x) else Scan(x, text + "\n", Start)
  {
    assert CrlfPair(CRLF + x, 0) && (CRLF + x)[2..] == x;
  }

  lemma ScanByte(c: char, t: seq<char>, p: char, text: seq<char>, at: Place)
    requires (c == '.' ==> at != Start) && (at == Dot ==> c != '\n')
    ensures Scan(EncodeByte(c, t, p), text, at)
         == More(text + [c], if c != '\n' then Mid else if FirstByte(t, p) == '.' then Dot else Start)
  {
    if c == '\n' {
      ScanCrlf(Stuffing(t, p), text, at);
      ScanDot(text + "\n", Start);
    } else {
      assert !CrlfPair([c], 0) && [c][1..] == [];
    }
  }

  lemma ScanNone(p: char, text: seq<char>, at: Place)
    ensures Scan(EncodeBytes([], p), text, at) == More(text, at)
  {
  }

  /** The bytes of a text that cannot be taken for stuffing, or for the text's end, arrive as they are. */
  lemma {:induction false} ScanBytes(t: seq<char>, p: char, text: seq<char>, at: Place)
    requires t != [] && (t[0] == '.' ==> at != Start) && (at == Dot ==> t[0] != '\n')
    ensures Scan(EncodeBytes(t, p), text, at) == More(text + t, PlaceAfter(t, p))
    decreases |t|
  {
    hide *;
    var c, next := t[0], t[1..];
    var at' := if c != '\n' then Mid else if FirstByte(next, p) == '.' then Dot else Start;
    ScanByte(c, next, p, text, at);
    NoLfFirst(next, p);
    FirstEncoded(t, p);
    ScanAppend(EncodeByte(c, next, p), EncodeBytes(next, p), text, at);
    if next == [] {
      ScanNone(p, text + [c], at');
    } else {
      ScanBytes(next, p, text + [c], at');
      Associate(text, [c], next);
    }
  }

  lemma FirstEncoded(t: seq<char>, p: char)
    requires t != []
    ensures EncodeBytes(t, p) == EncodeByte(t[0], t[1..], p) + EncodeBytes(t[1..], p) && t == [t[0]] + t[1..]
    ensures t[1..] == [] ==>
              PlaceAfter(t, p) == if t[0] != '\n' then Mid else if FirstByte([], p) == '.' then Dot else Start
    ensures t[1..] != [] ==>
              && PlaceAfter(t, p) == PlaceAfter(t[1..], p)
              && (t[1..][0] == '.' <==> FirstByte(t[1..], p) == '.')
  {
    hide EncodeByte;
  }

  /** A chunk's encoding: a period of it that does not come at a line's start is kept, and one more. */
  lemma ScanChunk(t: seq<char>, p: char, text: seq<char>, at: Place)
    requires t != []
    ensures Scan(Encode(t, p), text, at)
         == if at.Dot? && t[0] == '\n' then End(text, Encode(t, p)[2..])
            else More(text + DotIf(t[0] == '.' && !at.Start?) + t, PlaceAfter(t, p))
  {
    if t[0] == '.' {
      NoLfFirst(t, p);
      ScanDot(text, at);
      ScanAppend(".", EncodeBytes(t, p), text, at);
      ScanBytes(t, p, if at.Start? then text else text + ".", if at.Start? then Dot else Mid);
      assert text + [] == text;
    } else {
      assert [] + EncodeBytes(t, p) == EncodeBytes(t, p);
      if at.Dot? && t[0] == '\n' {
        assert CrlfPair(Encode(t, p), 0);
      } else {
        ScanBytes(t, p, text, at);
        assert text + [] + t == text + t;
      }
    }
  }

  /** What the receiver has when the chunks have been sent. */
  function Reaches(chunks: seq<Chunk>): Scanned {
    if chunks == [] then More([], Start)
    else
      var c := chunks[|chunks| - 1];
      match Reaches(chunks[..|chunks| - 1])
      case End(text, left) => End(text, left + Encode(c.text, c.past))
      case More(text, at) =>
        if c.text == [] then More(text, at)
        else if at.Dot? && c.text[0] == '\n' then End(text, Encode(c.text, c.past)[2..])
        else More(text + DotIf(c.text[0] == '.' && !at.Start?) + c.text, PlaceAfter(c.text, c.past))
  }

  lemma ReachesLast(before: seq<Chunk>, c: Chunk)
    ensures Reaches([]) == More([], Start)
    ensures Reaches(before).More? ==>
              var (text, at) := (Reaches(before).text, Reaches(before).at);
              Reaches(before + [c]) ==
              if c.text == [] then More(text, at)
              else if at.Dot? && c.text[0] == '\n' then End(text, Encode(c.text, c.past)[2..])
              else More(text + DotIf(c.text[0] == '.' && !at.Start?) + c.text, PlaceAfter(c.text, c.past))
  {
    assert (before + [c])[..|before|] == before;
  }

  lemma {:induction false} ScanAll(chunks: seq<Chunk>)
    ensures Scan(SendAll(chunks), [], Start) == Reaches(chunks)
  {
    if chunks == [] {
    } else {
      var before, c := chunks[..|chunks| - 1], chunks[|chunks| - 1];
      ScanAll(before);
      NoLfFirst(c.text, c.past);
      ScanAppend(SendAll(before), Encode(c.text, c.past), [], Start);
      if c.text == [] {
        assert Encode([], c.past) == [];
      } else if Reaches(before).More? {
        ScanChunk(c.text, c.past, Reaches(before).text, Reaches(before).at);
      }
      hide Encode, PlaceAfter;
    }
  }

  lemma ScanTerminator(rest: seq<char>, text: seq<char>, at: Place)
    ensures Scan(TERMINATOR + rest, text, at) == if at.Dot? then End(text, ".\r\n" + rest) else End(text + "\n", rest)
  {
    var v := ".\r\n" + rest;
    assert TERMINATOR + rest == CRLF + v && !CrlfPair(v, 0) && v[1..] == CRLF + rest;
    ScanCrlf(v, text, at);
    ScanCrlf(rest, text + "\n", Dot);
  }

  /** The text that arrives, and what the receiver has left over after it. */
  function Arrives(chunks: seq<Chunk>, rest: seq<char>): (seq<char>, seq<char>) {
    match Reaches(chunks)
    case End(text, left) => (ButLf(text), left + TERMINATOR + rest)
    case More(text, at) => if at.Dot? then (ButLf(text), ".\r\n" + rest) else (text, rest)
  }

  lemma ChunksArrive(chunks: seq<Chunk>, rest: seq<char>)
    ensures Decode(SendAll(chunks) + TERMINATOR + rest) == Some(Arrives(chunks, rest))
  {
    assert (TERMINATOR + rest)[0] != '\n';
    hide *;
    var wire := SendAll(chunks);
    Associate(wire, TERMINATOR, rest);
    ScanDecodes(wire + (TERMINATOR + rest));
    ScanAppend(wire, TERMINATOR + rest, [], Start);
    ScanAll(chunks);
    ArrivesIs(chunks, rest);
    if Reaches(chunks).More? {
      ScanTerminator(rest, Reaches(chunks).text, Reaches(chunks).at);
    } else {
      Associate(Reaches(chunks).left, TERMINATOR, rest);
    }
  }

  lemma ArrivesIs(chunks: seq<Chunk>, rest: seq<char>)
    ensures Arrives(chunks, rest) == match Reaches(chunks)
                                     case End(text, left) => (ButLf(text), left + TERMINATOR + rest)
                                     case More(text, at) => if at.Dot? then (ButLf(text), ".\r\n" + rest)
                                                            else (ButLf(text + "\n"), rest)
  {
  }

  // ---------------------------------------------------------------- when the text arrives intact

  /** A period from past a chunk has gone out at a line's start, and nothing after it. */
  predicate Stray(chunks: seq<Chunk>) {
    chunks != [] &&
    var c := chunks[|chunks| - 1];
    if c.text == [] then Stray(chunks[..|chunks| - 1]) else EndsWithLf(c.text) && c.past == '.'
  }

  /** How text may go on after these chunks: after a stray period with neither a period nor an LF; in the
      middle of a line, not with a period. */
  predicate GoesOn(before: seq<Chunk>, text: seq<char>) {
    text == [] ||
    if Stray(before) then text[0] != '.' && text[0] != '\n' else !BadBoundary(Whole(before), text)
  }

  predicate AllGoOn(chunks: seq<Chunk>) {
    forall i :: 0 <= i < |chunks| ==> GoesOn(chunks[..i], chunks[i].text)
  }

  predicate Intact(chunks: seq<Chunk>) {
    AllGoOn(chunks) && !Stray(chunks)
  }

  lemma AllGoOnLast(chunks: seq<Chunk>)
    requires chunks != []
    ensures var before := chunks[..|chunks| - 1];
            AllGoOn(chunks) <==> AllGoOn(before) && GoesOn(before, chunks[|chunks| - 1].text)
  {
    var before := chunks[..|chunks| - 1];
    assert forall i :: 0 <= i < |before| ==> before[..i] == chunks[..i] && before[i] == chunks[i];
    hide GoesOn;
  }

  function PlaceOf(chunks: seq<Chunk>): Place {
    if Stray(chunks) then Dot else if EndsAtLineStart(Whole(chunks)) then Start else Mid
  }

  lemma PlaceOfLast(chunks: seq<Chunk>)
    requires chunks != []
    ensures var before, c := chunks[..|chunks| - 1], chunks[|chunks| - 1];
            PlaceOf(chunks) == if c.text == [] then PlaceOf(before) else PlaceAfter(c.text, c.past)
    ensures Whole(chunks) == Whole(chunks[..|chunks| - 1]) + chunks[|chunks| - 1].text
  {
  }

  /** The text so far is the whole text if every chunk goes on well, and else it is longer or has ended. */
  ghost predicate ReachesRight(chunks: seq<Chunk>) {
    && (AllGoOn(chunks) ==> Reaches(chunks) == More(Whole(chunks), PlaceOf(chunks)))
    && (Reaches(chunks).More? ==>
          && Reaches(chunks).at == PlaceOf(chunks)
          && |Reaches(chunks).text| >= |Whole(chunks)| + if AllGoOn(chunks) then 0 else 1)
  }

  lemma {:induction false} RightAfterNothing(chunks: seq<Chunk>)
    requires |chunks| > 0 && chunks[|chunks| - 1].text == [] && ReachesRight(chunks[..|chunks| - 1])
    ensures ReachesRight(chunks)
  {
    AllGoOnLast(chunks);
    PlaceOfLast(chunks);
    hide AllGoOn, PlaceAfter, PlaceOf, Encode, Whole, Stray, BadBoundary;
    assert Whole(chunks[..|chunks| - 1]) + [] == Whole(chunks[..|chunks| - 1]);
  }

  lemma {:induction false} RightAfterText(chunks: seq<Chunk>)
    requires |chunks| > 0 && chunks[|chunks| - 1].text != [] && ReachesRight(chunks[..|chunks| - 1])
    ensures ReachesRight(chunks)
  {
    hide AllGoOn, PlaceAfter, PlaceOf, Encode, Whole, Stray, GoesOn, Reaches, BadBoundary, DotIf;
    var before, c := chunks[..|chunks| - 1], chunks[|chunks| - 1];
    AllGoOnLast(chunks);
    PlaceOfLast(chunks);
    GoesOnFrom(before, c.text);
    assert before + [c] == chunks;
    ReachesLast(before, c);
    StaysEnded(before, c);
    if Reaches(before).More? {
      Lengthens(Reaches(before).text, c.text, c.text[0] == '.' && !Reaches(before).at.Start?);
    }
  }

  lemma Lengthens(text: seq<char>, t: seq<char>, dotted: bool)
    ensures |text + DotIf(dotted) + t| == |text| + |t| + if dotted then 1 else 0
    ensures !dotted ==> text + DotIf(dotted) + t == text + t
  {
  }

  lemma StaysEnded(before: seq<Chunk>, c: Chunk)
    ensures Reaches(before).End? ==> Reaches(before + [c]).End?
  {
    assert (before + [c])[..|before|] == before;
  }

  /** How a text may go on is a matter of where the receiver is. */
  lemma GoesOnFrom(before: seq<Chunk>, text: seq<char>)
    requires text != []
    ensures GoesOn(before, text) <==>
            match PlaceOf(before)
            case Start => true
            case Dot => text[0] != '.' && text[0] != '\n'
            case Mid => text[0] != '.'
  {
    hide Whole, Stray;
  }

  lemma {:induction false} ReachesWhole(chunks: seq<Chunk>)
    ensures ReachesRight(chunks)
  {
    if chunks == [] {
    } else {
      hide *;
      ReachesWhole(chunks[..|chunks| - 1]);
      if chunks[|chunks| - 1].text == [] {
        RightAfterNothing(chunks);
      } else {
        RightAfterText(chunks);
      }
    }
  }

  /** What the receiver gets of a text that went out in chunks; it gets exactly the whole text if and only if
      no chunk goes on badly and no stray period precedes the terminator. */
  lemma {:induction false} ChunkedSending(chunks: seq<Chunk>, rest: seq<char>)
    ensures Decode(SendAll(chunks) + TERMINATOR + rest) == Some(Arrives(chunks, rest))
    ensures Decode(SendAll(chunks) + TERMINATOR + rest) == Some((Whole(chunks), rest)) <==> Intact(chunks)
  {
    ChunksArrive(chunks, rest);
    ReachesWhole(chunks);
    hide AllGoOn, Reaches, Decode, SendAll;
  }

  /** Two ways to lose an end: the last byte sent before the terminator is a stray period; or a stray period
      and the next chunk's LF make a line of their own. */
  lemma LostEndings(rest: seq<char>)
    ensures Decode(SendAll([Chunk("hi\n", '.')]) + TERMINATOR + rest) == Some(("hi", ".\r\n" + rest))
    ensures Decode(SendAll([Chunk("a\n", '.'), Chunk("\nb", '\0')]) + TERMINATOR + rest)
         == Some(("a", "b" + TERMINATOR + rest))
  {
    var (hi, a, b) := (Chunk("hi\n", '.'), Chunk("a\n", '.'), Chunk("\nb", '\0'));
    EndsReached();
    ChunksArrive([hi], rest);
    ChunksArrive([a, b], rest);
    hide Reaches, Decode, SendAll, Encode;
    assert ButLf("hi\n") == "hi" && ButLf("a\n") == "a";
  }

  lemma EndsReached()
    ensures Reaches([Chunk("hi\n", '.')]) == More("hi\n", Dot)
    ensures Reaches([Chunk("a\n", '.'), Chunk("\nb", '\0')]) == End("a\n", "b")
  {
    var (hi, a, b) := (Chunk("hi\n", '.'), Chunk("a\n", '.'), Chunk("\nb", '\0'));
    ReachesLast([], hi);
    ReachesLast([], a);
    ReachesLast([a], b);
    LfThenB();
    hide Reaches, Encode;
    assert [] + [hi] == [hi] && [] + [a] == [a] && [a] + [b] == [a, b];
    assert [] + [] + hi.text == hi.text && [] + [] + a.text == a.text;
  }

  lemma LfThenB()
    ensures Encode("\nb", '\0')[2..] == "b" && |Encode("\nb", '\0')| == 3
  {
    assert "\nb"[1..] == "b" && "b"[1..] == [];
    assert EncodeBytes("b", '\0') == "b";
    assert Encode("\nb", '\0') == CRLF + "b";
  }

  // ---------------------------------------------------------------- chunks that come out of one buffer

  ghost predicate Fit(chunks: seq<Chunk>, size: nat) {
    forall c <- chunks :: 0 < |c.text| <= size
  }

  /** The buffer after these reads: what a read does not overwrite stays. */
  ghost function Stored(initial: seq<char>, chunks: seq<Chunk>): (buf: seq<char>)
    requires Fit(chunks, |initial|)
    ensures |buf| == |initial|
  {
    if chunks == [] then initial
    else
      var last := chunks[|chunks| - 1];
      last.text + Stored(initial, chunks[..|chunks| - 1])[|last.text|..]
  }

  /** Each chunk is what one read brought into the buffer, and the byte past its end is the one that the
      buffer holds there; past the buffer it is any. */
  ghost predicate FromBuffer(initial: seq<char>, chunks: seq<Chunk>) {
    && Fit(chunks, |initial|)
    && forall i :: 0 <= i < |chunks| && |chunks[i].text| < |initial| ==>
         chunks[i].past == Stored(initial, chunks[..i])[|chunks[i].text|]
  }

  lemma {:induction false} ReadIntoBuffer(initial: seq<char>, chunks: seq<Chunk>, c: Chunk)
    requires FromBuffer(initial, chunks) && 0 < |c.text| <= |initial|
    requires |c.text| < |initial| ==> c.past == Stored(initial, chunks)[|c.text|]
    ensures FromBuffer(initial, chunks + [c])
    ensures Stored(initial, chunks + [c]) == c.text + Stored(initial, chunks)[|c.text|..]
    ensures Whole(chunks + [c]) == Whole(chunks) + c.text
  {
    hide Stored;
    var all := chunks + [c];
    assert forall d <- all :: d in chunks || d == c;
    assert Fit(all, |initial|) && all[|chunks|] == c;
    StoredLast(initial, chunks, c);
    forall i | 0 <= i < |all| && |all[i].text| < |initial|
      ensures all[i].past == Stored(initial, all[..i])[|all[i].text|]
    {
      if i < |chunks| {
        assert all[..i] == chunks[..i] && all[i] == chunks[i];
      } else {
        assert all[..i] == chunks;
      }
    }
  }

  lemma StoredLast(initial: seq<char>, chunks: seq<Chunk>, c: Chunk)
    requires Fit(chunks, |initial|) && Fit(chunks + [c], |initial|)
    ensures Stored(initial, chunks + [c]) == c.text + Stored(initial, chunks)[|c.text|..]
    ensures Whole(chunks + [c]) == Whole(chunks) + c.text
  {
    assert (chunks + [c])[..|chunks|] == chunks;
  }

  /** A read that fills the buffer and then a shorter one that ends in LF, where the first left a period:
      the text does not arrive, whatever it is. */
  lemma StaleByte(initial: seq<char>, first: Chunk, second: Chunk, rest: seq<char>)
    requires FromBuffer(initial, [first, second])
    requires |second.text| < |first.text| && first.text[|second.text|] == '.' && EndsWithLf(second.text)
    ensures second.past == '.'
    ensures Decode(SendAll([first, second]) + TERMINATOR + rest) != Some((first.text + second.text, rest))
  {
    var chunks := [first, second];
    assert chunks[0] == first && chunks[1] == second && chunks[..1] == [first] && [first][..0] == [];
    assert Stored(initial, [first]) == first.text + Stored(initial, [])[|first.text|..];
    assert Stored(initial, [first])[|second.text|] == '.';
    assert Whole([first]) == [] + first.text == first.text;
    assert Whole(chunks) == Whole([first]) + second.text;
    ChunkedSending(chunks, rest);
    hide AllGoOn, Arrives;
  }
}
