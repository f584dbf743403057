/** Whole sessions of socket++/ftp.cpp: a client against a server that replies by section 5.4 of RFC 959, over
    any sequence of commands, renames and uploads. */
module FtpSession {
  import opened Lines
  import opened Sockets
  import opened SockStream
  import opened Protocol
  import opened ReplyReads
  import opened FtpReply
  import opened FtpPort
  import opened Ftp

  // ---------------------------------------------------------------- the server

  /** A well-formed reply, with lines that fit the get area and are not too short for a read alone. */
  ghost predicate Proper(lines: seq<seq<char>>, size: nat) {
    IsFtpReply(lines) && forall i :: 0 <= i < |lines| ==> 5 <= |lines[i]| <= size
  }

  ghost predicate ProperReplies(reply: nat -> seq<seq<char>>, size: nat) {
    forall i: nat :: Proper(reply(i), size)
  }

  /** The first digit of the i-th reply. */
  function CodeDigit(reply: nat -> seq<seq<char>>, i: nat): char {
    if |reply(i)| > 0 && |reply(i)[0]| > 0 then reply(i)[0][0] else '0'
  }

  /** The server opens a data connection if it did not refuse the port, and announces the transfer. */
  predicate Connects(reply: nat -> seq<seq<char>>, port: nat, command: nat) {
    CodeDigit(reply, port) < '4' && CodeDigit(reply, command) == '1'
  }

  /** The remote host; reply(i) is its i-th reply, the greeting being the 0-th. */
  class Server {
    const sock: Socket
    const reply: nat -> seq<seq<char>>
    var stored: seq<seq<char>>   // what came over the data connections, one file each

    constructor (sock: Socket, reply: nat -> seq<seq<char>>)
      ensures this.sock == sock && this.reply == reply && stored == []
    {
      this.sock, this.reply, stored := sock, reply, [];
    }

    /** The replies it owes: the greeting, one for each command line, and one for each transfer that is over. */
    function Due(): nat
      reads this`stored, sock`sent
    {
      1 + |WireLines(sock.sent)| + |stored|
    }

    /** It deals with all that has been sent to it, and its replies arrive. */
    method Serve(ghost m: nat)
      requires sock.Valid() && m <= Due() && sock.arrived == ReplyText(reply, m)
      modifies sock`arrived
      ensures sock.Valid() && sock.arrived == ReplyText(reply, Due())
    {
      ReplyTextGrows(reply, m, Due());
      sock.Arrive(ReplyText(reply, Due())[|sock.arrived|..]);
    }

    /** Its last replies were to PORT and to the command that moves the file: it opens a data connection. */
    predicate ConnectsNow()
      requires Due() >= 2
      reads this`stored, sock`sent
    {
      Connects(reply, Due() - 2, Due() - 1)
    }

    /** The data connection at whose other end data is has been closed. */
    method DataClosed(data: Socket)
      modifies this`stored
      ensures stored == old(stored) + [data.sent]
    {
      stored := stored + [data.sent];
    }
  }

  // ---------------------------------------------------------------- what a session comes to

  type Address = h: seq<nat> | IsAddress(h) witness [0, 0, 0, 0]

  /** A command with an optional argument; or a rename; or an upload of data by some command, offering address h
      and port, where local is what the local host's name resolves to. */
  datatype Request =
    | Cmd(cmd: seq<char>, arg: Option<seq<char>>)
    | Rename(path: seq<char>, name: seq<char>)
    | PutFile(h: Address, port: nat, local: Option<Address>, cmd: seq<char>, arg: Option<seq<char>>, data: seq<char>)

  /** A command's line. */
  function Text(cmd: seq<char>, arg: Option<seq<char>>): seq<char> {
    cmd + if arg.Some? then " " + arg.value else []
  }

  /** The address that is offered. */
  function Offered(h: Address, local: Option<Address>): Address {
    if h == [0, 0, 0, 0] && local.Some? then local.value else h
  }

  /** No line break in a line, a port, and an address to offer. */
  ghost predicate Sound(q: Request) {
    match q
    case Cmd(cmd, arg) => NoCrlf(Text(cmd, arg))
    case Rename(path, name) => NoCrlf(Text("RNFR", Some(path))) && NoCrlf(Text("RNTO", Some(name)))
    case PutFile(h, port, local, cmd, arg, _) => SoundPort(h, port, local) && NoCrlf(Text(cmd, arg))
  }

  ghost predicate SoundPort(h: Address, port: nat, local: Option<Address>) {
    port < 65536 && (h != [0, 0, 0, 0] || local.Some?)
  }

  /** What has come of some requests: the lines the server has heard, the files it has got; and whether the client
      waits for a data connection that does not come. */
  datatype Outcome = Outcome(lines: seq<seq<char>>, files: seq<seq<char>>, waits: bool) {
    /** The greeting has a reply, and so has each line and each file. */
    function Replies(): nat {
      1 + |lines| + |files|
    }

    function Said(line: seq<char>): (o: Outcome)
      ensures o.Replies() == Replies() + 1
    {
      this.(lines := lines + [line])
    }

    function Sent(file: seq<char>): (o: Outcome)
      ensures o.Replies() == Replies() + 1
    {
      this.(files := files + [file])
    }
  }

  /** What comes of one more request. */
  function Doing(o: Outcome, q: Request, reply: nat -> seq<seq<char>>): Outcome {
    match q
    case Cmd(cmd, arg) => o.Said(Text(cmd, arg))
    case Rename(path, name) =>
      var from := o.Said(Text("RNFR", Some(path)));
      if CodeDigit(reply, o.Replies()) >= '4' then from else from.Said(Text("RNTO", Some(name)))
    case PutFile(h, port, local, cmd, arg, data) =>
      var asked := o.Said(Text("PORT", Some(PortArg(Offered(h, local), port)))).Said(Text(cmd, arg));
      if CodeDigit(reply, o.Replies() + 1) >= '4' then asked
      else if Connects(reply, o.Replies(), o.Replies() + 1) then asked.Sent(data)
      else asked.(waits := true)
  }

  lemma RenameLines(o: Outcome, path: seq<char>, name: seq<char>, reply: nat -> seq<seq<char>>)
    ensures var (next, more) := (Doing(o, Rename(path, name), reply), CodeDigit(reply, o.Replies()) < '4');
            && next.lines == o.lines + (if more then ["RNFR " + path, "RNTO " + name] else ["RNFR " + path])
            && next.files == o.files && next.Replies() == o.Replies() + if more then 2 else 1
    ensures NoCrlf(Text("RNFR", Some(path))) && NoCrlf(Text("RNTO", Some(name))) <==> Sound(Rename(path, name))
    ensures var from := o.Said(Text("RNFR", Some(path)));
            Doing(o, Rename(path, name), reply)
            == if CodeDigit(reply, o.Replies()) < '4' then from.Said(Text("RNTO", Some(name))) else from
  {
    hide CodeDigit, NoCrlf;
    assert Text("RNFR", Some(path)) == "RNFR " + path && Text("RNTO", Some(name)) == "RNTO " + name;
  }

  lemma PutLines(o: Outcome, h: Address, port: nat, local: Option<Address>, cmd: seq<char>, arg: Option<seq<char>>,
      data: seq<char>, reply: nat -> seq<seq<char>>)
    requires !o.waits
    ensures var (code, portcode) := (CodeDigit(reply, o.Replies() + 1), CodeDigit(reply, o.Replies()));
            var next := Doing(o, PutFile(h, port, local, cmd, arg, data), reply);
            var moved := code == '1' && portcode < '4';
            && next.lines == o.lines
               + ["PORT " + PortArg(if h == [0, 0, 0, 0] && local.Some? then local.value else h, port),
                  cmd + if arg.Some? then " " + arg.value else []]
            && next.files == o.files + (if moved then [data] else [])
            && next.Replies() == o.Replies() + (if moved then 3 else 2)
            && (next.waits <==> code < '4' && !moved)
  {
    hide CodeDigit, PortArg;
    var portarg := PortArg(if h == [0, 0, 0, 0] && local.Some? then local.value else h, port);
    assert Text("PORT", Some(portarg)) == "PORT " + portarg;
  }

  /** What comes of all of them; a client that waits does nothing more. */
  function Expected(qs: seq<Request>, reply: nat -> seq<seq<char>>): Outcome {
    if |qs| == 0 then Outcome([], [], false)
    else
      var o := Expected(qs[..|qs| - 1], reply);
      if o.waits then o else Doing(o, qs[|qs| - 1], reply)
  }

  lemma ExpectedNone(reply: nat -> seq<seq<char>>)
    ensures Expected([], reply) == Outcome([], [], false)
  {
  }

  lemma ExpectedNext(qs: seq<Request>, i: nat, reply: nat -> seq<seq<char>>)
    requires i < |qs|
    ensures var o := Expected(qs[..i], reply);
            Expected(qs[..i + 1], reply) == if o.waits then o else Doing(o, qs[i], reply)
  {
    assert qs[..i + 1][..i] == qs[..i];
    hide Doing;
  }

  lemma {:induction false} ExpectedWaits(qs: seq<Request>, i: nat, reply: nat -> seq<seq<char>>)
    requires i <= |qs| && Expected(qs[..i], reply).waits
    ensures Expected(qs, reply) == Expected(qs[..i], reply)
    decreases |qs| - i
  {
    if i == |qs| {
      assert qs[..i] == qs;
    } else {
      ExpectedNext(qs, i, reply);
      ExpectedWaits(qs, i + 1, reply);
    }
  }

  /** accept waits for ever: the command was not refused, but there is no data connection, because PORT was
      refused, which ftpdata does not look at, or because the command's reply is not a preliminary one. */
  ghost predicate Hangs(o: Outcome, q: Request, reply: nat -> seq<seq<char>>) {
    && q.PutFile? && CodeDigit(reply, o.Replies() + 1) < '4'
    && (CodeDigit(reply, o.Replies()) >= '4' || CodeDigit(reply, o.Replies() + 1) != '1')
  }

  lemma DoingWaits(o: Outcome, q: Request, reply: nat -> seq<seq<char>>)
    requires !o.waits
    ensures Doing(o, q, reply).waits <==> Hangs(o, q, reply)
  {
    hide Text, PortArg, CodeDigit;
  }

  /** Of the first k requests, one that was come to hung. */
  ghost predicate OneHangs(qs: seq<Request>, k: nat, reply: nat -> seq<seq<char>>)
    requires k <= |qs|
  {
    exists i :: 0 <= i < k && !Expected(qs[..i], reply).waits && Hangs(Expected(qs[..i], reply), qs[i], reply)
  }

  /** The client is left waiting if and only if one of its requests hangs. */
  lemma {:induction false} WaitsExactly(qs: seq<Request>, k: nat, reply: nat -> seq<seq<char>>)
    requires k <= |qs|
    ensures Expected(qs[..k], reply).waits <==> OneHangs(qs, k, reply)
  {
    hide Expected, Doing, Hangs;
    ExpectedNone(reply);
    if k == 0 {
      assert qs[..0] == [];
    } else {
      WaitsExactly(qs, k - 1, reply);
      ExpectedNext(qs, k - 1, reply);
      var o := Expected(qs[..k - 1], reply);
      if !o.waits {
        DoingWaits(o, qs[k - 1], reply);
      }
    }
  }

  /** The server refuses PORT and announces the transfer all the same: the client waits for it to connect. */
  lemma PortRefused(local: Address, data: seq<char>, reply: nat -> seq<seq<char>>)
    requires reply(1) == ["500 no\r\n"] && reply(2) == ["150 ok\r\n"]
    ensures Expected([PutFile([0, 0, 0, 0], 10000, Some(local), "STOR", Some("x"), data)], reply).waits
  {
    var qs := [PutFile([0, 0, 0, 0], 10000, Some(local), "STOR", Some("x"), data)];
    hide PortArg, Text;
    assert qs[..0] == [] && qs[..1] == qs;
    ExpectedNone(reply);
    ExpectedNext(qs, 0, reply);
    assert CodeDigit(reply, 1) == '5' && CodeDigit(reply, 2) == '1';
  }

  /** A rename goes on after a reply of 350, and stops after one of 550. */
  lemma RenameReplies(reply: nat -> seq<seq<char>>)
    ensures reply(1) == ["350 go on\r\n"] ==> Expected([Rename("a", "b")], reply).lines == ["RNFR a", "RNTO b"]
    ensures reply(1) == ["550 no\r\n"] ==> Expected([Rename("a", "b")], reply).lines == ["RNFR a"]
  {
    var qs := [Rename("a", "b")];
    assert qs[..0] == [] && qs[..1] == qs;
    ExpectedNone(reply);
    ExpectedNext(qs, 0, reply);
    RenameLines(Outcome([], [], false), "a", "b", reply);
    assert "RNFR " + "a" == "RNFR a" && "RNTO " + "b" == "RNTO b";
    assert reply(1) == ["350 go on\r\n"] ==> CodeDigit(reply, 1) == '3';
    assert reply(1) == ["550 no\r\n"] ==> CodeDigit(reply, 1) == '5';
    hide *;
  }

  // ---------------------------------------------------------------- the client

  class Client {
    const f: FtpBuf
    const server: Server   // the host f is connected to; it acts while the client waits

    constructor (f: FtpBuf, server: Server)
      ensures this.f == f && this.server == server
    {
      this.f, this.server := f, server;
    }

    /** What lock-step needs of the world: both areas there, a kernel that does not fail and hands over
        whole lines, and well-formed replies whose lines fit the get area. */
    ghost predicate Reliable()
      reads f.sb, f.sb.rep, f.sb.rep.sock
    {
      var sb := f.sb;
      && f.Valid() && sb.Valid() && sb.gbuf != null && sb.pbuf != null && server.sock == sb.rep.sock
      && !sb.rep.sock.writesFail && !sb.rep.sock.readsFail && sb.rep.sock.lineReads
      && ProperReplies(server.reply, sb.gbuf.Length)
    }

    /** Whole lines have been sent and nothing is pending; n replies have arrived, and they have all been read and
        printed, if there is an o, after what was printed at first. */
    ghost predicate After(n: nat, printed: seq<char>)
      reads f.sb, f.sb.rep, f.sb.rep.sock, f.sb.gbuf, f.sb.pbuf, f.o
    {
      && Reliable() && f.sb.Pending() == [] && f.sb.InStream() == [] && OnlyLines(f.sb.rep.sock.sent)
      && f.sb.rep.sock.arrived == ReplyText(server.reply, n)
      && (f.o != null ==> f.o.text == printed + ReplyText(server.reply, n))
    }

    /** This is what has come of the requests so far, and the client has read all the replies it is owed. */
    ghost predicate Did(o: Outcome, printed: seq<char>)
      reads f.sb, f.sb.rep, f.sb.rep.sock, f.sb.gbuf, f.sb.pbuf, f.o, server`stored
    {
      After(o.Replies(), printed) && WireLines(f.sb.rep.sock.sent) == o.lines && server.stored == o.files
    }

    // -------------------------------------------------------------- one line out

    lemma AllOut(n: nat, printed: seq<char>)
      requires After(n, printed)
      ensures f.sb.Valid() && f.sb.OutStream() == f.sb.rep.sock.sent
    {
    }

    lemma OneLineOut(sent: seq<char>, text: seq<char>)
      requires OnlyLines(sent) && NoCrlf(text)
      ensures WireLines(sent + (text + CRLF)) == WireLines(sent) + [text] && OnlyLines(sent + (text + CRLF))
    {
      WireLineAlone(text);
      WireLinesAppend(sent, text + CRLF);
      hide WireLines, OnlyLines;
    }

    lemma AllSent(before: seq<char>, line: seq<char>)
      requires f.sb.Valid() && f.sb.pbuf != null && f.sb.Pending() == []
      requires Went(before, Kept(f.sb, line), f.sb.OutStream(), true)
      ensures f.sb.rep.sock.sent == before + line
    {
    }

    /** send_cmd, up to the reply. */
    method Say(cmd: seq<char>, arg: Option<seq<char>>, ghost n: nat, ghost printed: seq<char>)
      requires After(n, printed) && NoCrlf(Text(cmd, arg))
      modifies f.sb`pptr, f.sb`epptr, f.sb.pbuf, f.sb.rep.sock`sent
      ensures After(n, printed)
      ensures f.sb.rep.sock.sent == old(f.sb.rep.sock.sent) + (Text(cmd, arg) + CRLF)
      ensures WireLines(f.sb.rep.sock.sent) == old(WireLines(f.sb.rep.sock.sent)) + [Text(cmd, arg)]
    {
      hide ReplyText, WireLines, OnlyLines, Went, ProperReplies, Line;
      ghost var before := f.sb.rep.sock.sent;
      AllOut(n, printed);
      var _ := f.SendLine(cmd, arg);
      AllSent(before, Line(cmd, arg));
      LineText(cmd, arg);
      OneLineOut(before, Text(cmd, arg));
    }

    lemma LineText(cmd: seq<char>, arg: Option<seq<char>>)
      ensures Line(cmd, arg) == Text(cmd, arg) + CRLF
    {
      if arg.Some? {
        assert cmd + " " + arg.value + CRLF == cmd + (" " + arg.value) + CRLF;
      } else {
        assert cmd + [] + [] == cmd + [];
      }
    }

    /** useraddr, up to the reply. */
    method SayPort(h: Address, port: nat, local: Option<Address>, ghost n: nat, ghost printed: seq<char>)
      requires After(n, printed) && SoundPort(h, port, local)
      modifies f.sb`pptr, f.sb`epptr, f.sb.pbuf, f.sb.rep.sock`sent
      ensures After(n, printed)
      ensures WireLines(f.sb.rep.sock.sent)
           == old(WireLines(f.sb.rep.sock.sent)) + [Text("PORT", Some(PortArg(Offered(h, local), port)))]
    {
      hide ReplyText, WireLines, OnlyLines, Went, ProperReplies, Line, PortArg, ParsePort, Text;
      ghost var before := f.sb.rep.sock.sent;
      AllOut(n, printed);
      var _, arg := f.SendPort(h, port, local);
      AllSent(before, "PORT " + arg + "\r\n");
      PortText(arg);
      PortLine(Offered(h, local), port);
      OneLineOut(before, Text("PORT", Some(arg)));
    }

    // -------------------------------------------------------------- one reply in

    /** The server's one reply arrives. */
    method ReplyArrives(ghost n: nat, ghost printed: seq<char>)
      requires After(n, printed) && server.Due() == n + 1
      modifies f.sb.rep.sock`arrived
      ensures Reliable() && f.sb.Pending() == [] && f.sb.rep.sock.arrived == ReplyText(server.reply, n + 1)
      ensures AtLine(f.sb, server.reply(n), 0, [])
    {
      NothingUnread(n, printed);
      hide ReplyText, WireLines, OnlyLines, ProperReplies, AtLine, Flatten;
      ghost var _ := ReplyTextRest(server.reply, n, n + 1);
      ReplyTextNext(server.reply, n);
      server.Serve(n);
      ReplyComes(n);
    }

    lemma NothingUnread(n: nat, printed: seq<char>)
      requires After(n, printed)
      ensures f.sb.Unread() == [] && f.sb.rep.sock.taken == |ReplyText(server.reply, n)| == |f.sb.rep.sock.arrived|
    {
    }

    lemma {:induction false} ReplyComes(n: nat)
      requires Reliable() && f.sb.Unread() == [] && f.sb.rep.sock.taken == |ReplyText(server.reply, n)|
      requires f.sb.rep.sock.arrived == ReplyText(server.reply, n) + Flatten(server.reply(n))
      ensures AtLine(f.sb, server.reply(n), 0, [])
    {
      hide ReplyText, Flatten;
      assert Proper(server.reply(n), f.sb.gbuf.Length);
      f.ReplyComes(server.reply(n));
    }

    /** The server replies, and get_response reads that reply and returns its first digit. */
    method TakeReply(ghost n: nat, ghost printed: seq<char>) returns (d: char)
      requires After(n, printed) && server.Due() == n + 1
      modifies f.o, f.replycode, f.sb`gptr, f.sb`egptr, f.sb.gbuf, f.sb.rep.sock`taken, f.sb.rep.sock`arrived
      ensures After(n + 1, printed) && d == CodeDigit(server.reply, n)
    {
      hide ReplyText, WireLines, OnlyLines, ProperReplies, AtLine, Flatten, IsFtpReply;
      ghost var lines, earlier := server.reply(n), ReplyText(server.reply, n);
      ReplyArrives(n, printed);
      IsProper(n);
      var r := f.ReadReply(lines);
      ReplyTextNext(server.reply, n);
      Associate(printed, earlier, Flatten(lines));
      d := r.value;
    }

    lemma IsProper(n: nat)
      requires Reliable()
      ensures IsFtpReply(server.reply(n)) && |server.reply(n)| > 0 && |server.reply(n)[0]| > 0
      ensures CodeDigit(server.reply, n) == server.reply(n)[0][0]
    {
      assert Proper(server.reply(n), f.sb.gbuf.Length);
    }

    lemma Connected(n: nat, printed: seq<char>)
      requires After(n, printed)
      ensures server.sock == f.sb.rep.sock
    {
    }

    // -------------------------------------------------------------- requests

    lemma TextIs(cmd: seq<char>, arg: Option<seq<char>>)
      ensures Text(cmd, arg) + CRLF == cmd + (if arg.Some? then " " + arg.value else []) + "\r\n"
    {
    }

    lemma Outcomes(o: Outcome, printed: seq<char>)
      requires Did(o, printed)
      ensures WireLines(f.sb.rep.sock.sent) == o.lines && server.stored == o.files && After(o.Replies(), printed)
    {
    }

    /** send_cmd. */
    method Command(cmd: seq<char>, arg: Option<seq<char>>, ghost o: Outcome, ghost printed: seq<char>) returns (d: char)
      requires Did(o, printed) && NoCrlf(Text(cmd, arg))
      modifies f.o, f.replycode, f.sb`gptr, f.sb`egptr, f.sb.gbuf, f.sb`pptr, f.sb`epptr, f.sb.pbuf
      modifies f.sb.rep.sock`sent, f.sb.rep.sock`taken, f.sb.rep.sock`arrived
      ensures f.sb.rep.sock.sent
           == old(f.sb.rep.sock.sent) + (cmd + (if arg.Some? then " " + arg.value else []) + "\r\n")
      ensures Did(o.Said(Text(cmd, arg)), printed) && d == CodeDigit(server.reply, o.Replies())
    {
      hide After, WireLines, Text;
      TextIs(cmd, arg);
      Say(cmd, arg, o.Replies(), printed);
      Connected(o.Replies(), printed);
      d := TakeReply(o.Replies(), printed);
    }

    /** useraddr. */
    method UserAddr(h: Address, port: nat, local: Option<Address>, ghost o: Outcome, ghost printed: seq<char>)
      requires Did(o, printed) && SoundPort(h, port, local)
      modifies f.o, f.replycode, f.sb`gptr, f.sb`egptr, f.sb.gbuf, f.sb`pptr, f.sb`epptr, f.sb.pbuf
      modifies f.sb.rep.sock`sent, f.sb.rep.sock`taken, f.sb.rep.sock`arrived
      ensures Did(o.Said(Text("PORT", Some(PortArg(Offered(h, local), port)))), printed)
    {
      hide After, WireLines, Text, PortArg;
      SayPort(h, port, local, o.Replies(), printed);
      Connected(o.Replies(), printed);
      var _ := TakeReply(o.Replies(), printed);
    }

    /** rename. */
    method Rename(path: seq<char>, name: seq<char>, ghost o: Outcome, ghost printed: seq<char>)
      requires Did(o, printed) && Sound(Request.Rename(path, name))
      modifies f.o, f.replycode, f.sb`gptr, f.sb`egptr, f.sb.gbuf, f.sb`pptr, f.sb`epptr, f.sb.pbuf
      modifies f.sb.rep.sock`sent, f.sb.rep.sock`taken, f.sb.rep.sock`arrived
      // RNTO goes out if and only if the reply to RNFR is no error
      ensures var more := CodeDigit(server.reply, o.Replies()) < '4';
              && WireLines(f.sb.rep.sock.sent) == old(WireLines(f.sb.rep.sock.sent))
                 + (if more then ["RNFR " + path, "RNTO " + name] else ["RNFR " + path])
              && After(o.Replies() + (if more then 2 else 1), printed) && server.stored == old(server.stored)
      ensures Did(Doing(o, Request.Rename(path, name), server.reply), printed)
    {
      hide *;
      Outcomes(o, printed);
      RenameLines(o, path, name, server.reply);
      var d := Command("RNFR", Some(path), o, printed);
      if d < '4' {
        var _ := Command("RNTO", Some(name), o.Said(Text("RNFR", Some(path))), printed);
      }
      Outcomes(Doing(o, Request.Rename(path, name), server.reply), printed);
    }

    /** ftpdata with a file to send; the reply to PORT is not looked at. It waits when accept does. */
    method PutFile(h: Address, port: nat, local: Option<Address>, cmd: seq<char>, arg: Option<seq<char>>,
        data: seq<char>, ghost o: Outcome, ghost printed: seq<char>) returns (waits: bool)
      requires Did(o, printed) && Sound(Request.PutFile(h, port, local, cmd, arg, data)) && !o.waits
      modifies f.o, f.replycode, f.sb`gptr, f.sb`egptr, f.sb.gbuf, f.sb`pptr, f.sb`epptr, f.sb.pbuf
      modifies f.sb.rep.sock`sent, f.sb.rep.sock`taken, f.sb.rep.sock`arrived, server`stored
      // PORT and the command go out; the file goes over if the server connects, and then one more reply comes
      ensures var (code, portcode) := (CodeDigit(server.reply, o.Replies() + 1), CodeDigit(server.reply, o.Replies()));
              var moved := code == '1' && portcode < '4';
              && WireLines(f.sb.rep.sock.sent) == old(WireLines(f.sb.rep.sock.sent))
                 + ["PORT " + PortArg(if h == [0, 0, 0, 0] && local.Some? then local.value else h, port),
                    cmd + if arg.Some? then " " + arg.value else []]
              && server.stored == old(server.stored) + (if moved then [data] else [])
              && After(o.Replies() + (if moved then 3 else 2), printed)
              && (waits <==> code < '4' && !moved)
      ensures var next := Doing(o, Request.PutFile(h, port, local, cmd, arg, data), server.reply);
              Did(next, printed) && waits == next.waits
    {
      hide *;
      Outcomes(o, printed);
      PutLines(o, h, port, local, cmd, arg, data, server.reply);
      waits := Put(h, port, local, cmd, arg, data, o, printed);
      Outcomes(Doing(o, Request.PutFile(h, port, local, cmd, arg, data), server.reply), printed);
    }

    method Put(h: Address, port: nat, local: Option<Address>, cmd: seq<char>, arg: Option<seq<char>>,
        data: seq<char>, ghost o: Outcome, ghost printed: seq<char>) returns (waits: bool)
      requires Did(o, printed) && Sound(Request.PutFile(h, port, local, cmd, arg, data)) && !o.waits
      modifies f.o, f.replycode, f.sb`gptr, f.sb`egptr, f.sb.gbuf, f.sb`pptr, f.sb`epptr, f.sb.pbuf
      modifies f.sb.rep.sock`sent, f.sb.rep.sock`taken, f.sb.rep.sock`arrived, server`stored
      ensures var next := Doing(o, Request.PutFile(h, port, local, cmd, arg, data), server.reply);
              Did(next, printed) && waits == next.waits
    {
      hide Did, Text, PortArg;
      UserAddr(h, port, local, o, printed);
      ghost var offered := o.Said(Text("PORT", Some(PortArg(Offered(h, local), port))));
      var d := Command(cmd, arg, offered, printed);
      if d >= '4' {
        return false;
      }
      waits := AcceptAndSend(data, offered.Said(Text(cmd, arg)), printed);
    }

    /** After the command that moves the file was not refused. */
    method AcceptAndSend(data: seq<char>, ghost asked: Outcome, ghost printed: seq<char>) returns (waits: bool)
      requires Did(asked, printed) && !asked.waits && asked.Replies() >= 2
      modifies f.o, f.replycode, f.sb`gptr, f.sb`egptr, f.sb.gbuf
      modifies f.sb.rep.sock`taken, f.sb.rep.sock`arrived, server`stored
      ensures waits == !Connects(server.reply, asked.Replies() - 2, asked.Replies() - 1)
      ensures Did(if waits then asked.(waits := true) else asked.Sent(data), printed)
    {
      hide Did;
      AllDue(asked, printed);
      waits := !server.ConnectsNow();
      if waits {
        StillDid(asked, asked.(waits := true), printed);
      } else {
        Transfer(data, asked, printed);
      }
    }

    lemma AllDue(o: Outcome, printed: seq<char>)
      requires Did(o, printed)
      ensures server.Due() == o.Replies()
    {
    }

    lemma StillDid(o: Outcome, p: Outcome, printed: seq<char>)
      requires Did(o, printed) && o.lines == p.lines && o.files == p.files
      ensures Did(p, printed)
    {
    }

    /** The server connects; the file goes over, the data connection is closed, and the last reply comes. */
    method Transfer(data: seq<char>, ghost o: Outcome, ghost printed: seq<char>)
      requires Did(o, printed)
      modifies f.o, f.replycode, f.sb`gptr, f.sb`egptr, f.sb.gbuf
      modifies f.sb.rep.sock`taken, f.sb.rep.sock`arrived, server`stored
      ensures Did(o.Sent(data), printed)
    {
      hide After, WireLines;
      Connected(o.Replies(), printed);
      var sock := Carry(data);
      server.DataClosed(sock);
      var _ := TakeReply(o.Replies(), printed);
    }

    /** The data connection, from accept to its destruction. */
    method Carry(data: seq<char>) returns (sock: Socket)
      ensures fresh(sock) && sock.sent == data
    {
      sock := new Socket(false, false, false, false, false);
      var bufsiz: nat :| bufsiz > 0;
      var c := new Sockbuf(sock, bufsiz);
      var i := new File(data, false);
      var _ := Upload(c, i);
    }

    /** Any request, of a client that does not wait. */
    method Do(q: Request, ghost o: Outcome, ghost printed: seq<char>) returns (waits: bool)
      requires Did(o, printed) && Sound(q) && !o.waits
      modifies f.o, f.replycode, f.sb`gptr, f.sb`egptr, f.sb.gbuf, f.sb`pptr, f.sb`epptr, f.sb.pbuf
      modifies f.sb.rep.sock`sent, f.sb.rep.sock`taken, f.sb.rep.sock`arrived, server`stored
      ensures Did(Doing(o, q, server.reply), printed) && waits == Doing(o, q, server.reply).waits
    {
      hide Did, Text, PortArg;
      waits := false;
      match q {
        case Cmd(cmd, arg) => var _ := Command(cmd, arg, o, printed);
        case Rename(path, name) => Rename(path, name, o, printed);
        case PutFile(h, port, local, cmd, arg, data) => waits := PutFile(h, port, local, cmd, arg, data, o, printed);
      }
    }

    /** A whole session on a new connection, the greeting first. */
    method Session(qs: seq<Request>, ghost printed: seq<char>) returns (waits: bool)
      requires After(0, printed) && f.sb.rep.sock.sent == [] && server.stored == []
      requires forall i :: 0 <= i < |qs| ==> Sound(qs[i])
      modifies f.o, f.replycode, f.sb`gptr, f.sb`egptr, f.sb.gbuf, f.sb`pptr, f.sb`epptr, f.sb.pbuf
      modifies f.sb.rep.sock`sent, f.sb.rep.sock`taken, f.sb.rep.sock`arrived, server`stored
      ensures Did(Expected(qs, server.reply), printed) && waits == Expected(qs, server.reply).waits
      ensures After(server.Due(), printed)
    {
      hide After, WireLines, Doing, Expected, Sound;
      Connected(0, printed);
      NoLines();
      var _ := TakeReply(0, printed);
      NothingYet(printed);
      assert qs[..0] == [];
      waits := false;
      var i := 0;
      while i < |qs| && !waits
        invariant i <= |qs| && Did(Expected(qs[..i], server.reply), printed)
        invariant waits == Expected(qs[..i], server.reply).waits
      {
        ExpectedNext(qs, i, server.reply);
        waits := Do(qs[i], Expected(qs[..i], server.reply), printed);
        i := i + 1;
      }
      if waits {
        ExpectedWaits(qs, i, server.reply);
      } else {
        assert qs[..i] == qs;
      }
    }

    lemma NoLines()
      ensures WireLines([]) == []
    {
    }

    lemma NothingYet(printed: seq<char>)
      requires After(1, printed) && f.sb.rep.sock.sent == [] && server.stored == []
      ensures Expected([], server.reply) == Outcome([], [], false) && Did(Expected([], server.reply), printed)
    {
    }
  }

  lemma PortText(arg: seq<char>)
    ensures Text("PORT", Some(arg)) + CRLF == "PORT " + arg + "\r\n"
  {
    assert "PORT" + (" " + arg) == "PORT " + arg;
  }

  lemma PortLine(h: seq<nat>, port: nat)
    requires |h| == 4
    ensures NoCrlf(Text("PORT", Some(PortArg(h, port))))
  {
    hide Decimal;
    assert '\r' !in PortArg(h, port);
  }
}
