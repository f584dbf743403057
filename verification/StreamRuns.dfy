/** Whole runs of socket++/sockstream.cpp: a connected pair of sockbufs, reads under arbitrary
    chunking, and the life of all handles on one descriptor. */
module StreamRuns {
  import opened Lines
  import opened Sockets
  import opened SockStream

  // ---------------------------------------------------------------- writer, network, reader

  datatype WriterOp = PutC(c: char) | PutN(s: seq<char>) | Flush | StopWriting

  datatype ReaderOp = Peek | Take | Get(n: nat) | StopReading

  datatype LinkOp =
    | AtWriter(put: WriterOp) | AtReader(get: ReaderOp) | Carry(n: nat)
    | Answer(readWait: nat -> Wait, atMark: nat -> Option<bool>, writeWait: nat -> Wait)

  /** What a writer's operation offers to the stream. */
  function Offered(op: WriterOp): seq<char> {
    match op
    case PutC(c) => [c]
    case PutN(s) => s
    case Flush => []
    case StopWriting => []
  }

  /** How many bytes a reader's operation takes off the stream if they are there. */
  function Asked(op: ReaderOp): nat {
    match op
    case Peek => 0
    case Take => 1
    case Get(n) => n
    case StopReading => 0
  }

  /** The log grows by the front of the stream: by n bytes, or all there are, unless a read may fail. */
  ghost predicate Gets(before: seq<char>, stream: seq<char>, n: nat, after: seq<char>, mayFail: bool) {
    exists k: nat ::
      k <= n && k <= |stream| && after == before + stream[..k] && (k == n || k == |stream| || mayFail)
  }

  function OfferedBy(op: LinkOp): seq<char> {
    if op.AtWriter? then Offered(op.put) else []
  }

  /** Everything that a run's operations offer, in order. */
  function AllOffered(ops: seq<LinkOp>): seq<char> {
    if ops == [] then [] else AllOffered(ops[..|ops| - 1]) + OfferedBy(ops[|ops| - 1])
  }

  lemma AllOfferedEnds(ops: seq<LinkOp>)
    ensures AllOffered(ops[..0]) == [] && ops[..|ops|] == ops
  {
  }

  lemma AllOfferedNext(before: seq<char>, ops: seq<LinkOp>, i: nat)
    requires i < |ops|
    ensures before + AllOffered(ops[..i + 1]) == before + AllOffered(ops[..i]) + OfferedBy(ops[i])
  {
    assert ops[..i + 1][..i] == ops[..i];
  }

  /** What the writer took from its callers; what of it is pending, and what it sent; how much of that has
      arrived; what the reader's calls can still get of it, and what they have got. */
  datatype Moment = Moment(accepted: seq<char>, pending: seq<char>, sent: seq<char>, arrived: nat,
                           coming: seq<char>, delivered: seq<char>)

  /** What an operation of the writer does: it takes a front part of what it is offered; a flush that cannot
      fail, and stopping, leave nothing pending. The other end is as it was. */
  ghost predicate WriterPassed(a: Moment, op: WriterOp, b: Moment, writesFail: bool) {
    && a.accepted <= b.accepted <= a.accepted + Offered(op) && a.sent <= b.sent
    && (op == StopWriting || (op == Flush && !writesFail) ==> b.pending == [])
    && b.arrived == a.arrived && b.coming == a.coming && b.delivered == a.delivered
  }

  /** What an operation of the reader does: its caller gets the front of what is coming. */
  ghost predicate ReaderPassed(a: Moment, op: ReaderOp, b: Moment, readsFail: bool) {
    && Gets(a.delivered, a.coming, Asked(op), b.delivered, readsFail)
    && b.accepted == a.accepted && b.pending == a.pending && b.sent == a.sent && b.arrived == a.arrived
  }

  ghost predicate Passed(a: Moment, op: LinkOp, b: Moment, writesFail: bool, readsFail: bool) {
    match op
    case AtWriter(put) => WriterPassed(a, put, b, writesFail)
    case AtReader(get) => ReaderPassed(a, get, b, readsFail)
    case Carry(n) =>
      // the network carries n bytes, or all there are
      && b.arrived == (if a.arrived + n <= |a.sent| then a.arrived + n else |a.sent|)
      && a.coming <= b.coming && b == a.(arrived := b.arrived, coming := b.coming)
    case Answer(_, _, _) => b == a
  }

  lemma GetsFront(before: seq<char>, stream: seq<char>, got: seq<char>, rest: seq<char>, n: nat,
      mayFail: bool)
    requires Takes(stream, got, rest) && |got| <= n && (|got| == n || rest == [] || mayFail)
    ensures Gets(before, stream, n, before + got, mayFail)
  {
    assert stream[..|got|] == got;
  }

  lemma GetsNothing(before: seq<char>, stream: seq<char>, mayFail: bool)
    ensures Gets(before, stream, 0, before, mayFail)
  {
    assert before == before + stream[..0];
  }

  /** One direction of a connection. Either end may see any operation fail. */
  class Link {
    const w: Sockbuf
    const r: Sockbuf
    ghost var accepted: seq<char>   // everything the writer's calls took from their callers
    ghost var delivered: seq<char>  // everything the reader's calls stored for their callers

    ghost predicate Apart()
      reads this, w, r, w.rep, r.rep
    {
      && w != r && w.rep != r.rep && w.rep.sock != r.rep.sock
      && (w.pbuf != null ==> w.pbuf != r.gbuf)
    }

    ghost predicate WriterFlow()
      requires w.Valid()
      reads `accepted, w, w.rep, w.rep.sock, w.pbuf
    {
      if w.pbuf != null then accepted == w.OutStream() else w.rep.sock.sent <= accepted
    }

    ghost predicate ReaderFlow()
      requires r.Valid()
      reads `delivered, r, r.rep, r.rep.sock, r.gbuf
    {
      if r.gbuf != null then Takes(r.rep.sock.arrived, delivered, r.InStream())
      else delivered <= r.rep.sock.arrived
    }

    ghost predicate Inv()
      reads this, w, r, w.rep, r.rep, w.rep.sock, r.rep.sock, w.pbuf, r.gbuf
    {
      && Apart() && w.Valid() && r.Valid()
      && WriterFlow() && ReaderFlow()
      && r.rep.sock.arrived <= w.rep.sock.sent
    }

    constructor (w: Sockbuf, r: Sockbuf)
      requires w.Valid() && r.Valid() && w.pbuf != null && r.gbuf != null
      requires w != r && w.rep != r.rep && w.rep.sock != r.rep.sock && w.pbuf != r.gbuf
      requires w.OutStream() == [] && r.InStream() == [] && r.rep.sock.arrived == []
      ensures Inv() && this.w == w && this.r == r && accepted == delivered == []
    {
      this.w, this.r, accepted, delivered := w, r, [], [];
    }

    method WriterStep(op: WriterOp)
      requires Inv()
      modifies `accepted, w, w.pbuf, w.rep.sock`sent, w.rep.sock`shuts
      ensures Inv() && old(accepted) <= accepted <= old(accepted) + Offered(op)
      ensures !w.rep.sock.writesFail && old(w.pbuf) != null ==> accepted == old(accepted) + Offered(op)
      ensures w.pbuf == if op == StopWriting then null else old(w.pbuf)
      ensures w.Valid() && (op == StopWriting || (op == Flush && !w.rep.sock.writesFail) ==> w.Pending() == [])
      ensures old(w.rep.sock.sent) <= w.rep.sock.sent
    {
      hide Inv;
      assert accepted + [] == accepted;
      match op {
        case PutC(c) =>
          WriterPutsOne(c);
        case PutN(s) =>
          WriterPuts(s);
        case Flush =>
          WriterFlushes();
        case StopWriting =>
          WriterStops();
      }
      WriterValid();
    }

    lemma WriterValid()
      requires Inv()
      ensures w.Valid()
    {
    }

    method WriterPutsOne(c: char)
      requires Inv()
      modifies `accepted, w`pptr, w`epptr, w.pbuf, w.rep.sock`sent
      ensures Inv() && old(accepted) <= accepted <= old(accepted) + [c]
      ensures old(w.rep.sock.sent) <= w.rep.sock.sent
      ensures !w.rep.sock.writesFail && w.pbuf != null ==> accepted == old(accepted) + [c]
    {
      hide ReaderFlow;
      var ret := w.Sputc(c);
      accepted := accepted + if ret.Returned? && ret.value != Eof then [c] else [];
    }

    method WriterFlushes()
      requires Inv()
      modifies w`pptr, w`epptr, w.pbuf, w.rep.sock`sent
      ensures Inv() && old(w.rep.sock.sent) <= w.rep.sock.sent
      ensures w.Valid() && (!w.rep.sock.writesFail ==> w.Pending() == [])
    {
      hide ReaderFlow;
      var _ := w.Sync();
    }

    method WriterStops()
      requires Inv()
      modifies w, w.rep.sock`shuts
      ensures Inv() && w.pbuf == null && w.Valid() && w.Pending() == []
    {
      hide ReaderFlow;
      var _ := w.Shutdown(ShutWrite);
    }

    method WriterPuts(s: seq<char>)
      requires Inv()
      modifies `accepted, w`pptr, w`epptr, w.pbuf, w.rep.sock`sent
      ensures Inv() && old(accepted) <= accepted <= old(accepted) + s
      ensures old(w.rep.sock.sent) <= w.rep.sock.sent
      ensures !w.rep.sock.writesFail && w.pbuf != null ==> accepted == old(accepted) + s
    {
      hide ReaderFlow;
      var _, k := w.Xsputn(s);
      accepted := accepted + s[..k];
      assert accepted + s[k..] == old(accepted) + s;
    }

    method ReaderStep(op: ReaderOp)
      requires Inv()
      modifies `delivered, r, r.gbuf, r.rep.sock`taken, r.rep.sock`shuts
      ensures Inv() && Gets(old(delivered), old(r.InStream()), Asked(op), delivered, r.rep.sock.readsFail)
      ensures r.gbuf == if op == StopReading then null else old(r.gbuf)
    {
      hide Inv, Gets;
      match op {
        case Peek =>
          ReaderPeeks();
        case Take =>
          ReaderTakes();
        case Get(n) =>
          ReaderGets(n);
        case StopReading =>
          ReaderStops();
      }
    }

    method ReaderPeeks()
      requires Inv()
      modifies r`gptr, r`egptr, r.gbuf, r.rep.sock`taken
      ensures Inv() && r.gbuf == old(r.gbuf)
      ensures Gets(old(delivered), old(r.InStream()), 0, delivered, r.rep.sock.readsFail)
    {
      hide WriterFlow, Takes, Gets;
      GetsNothing(delivered, r.InStream(), r.rep.sock.readsFail);
      var _ := r.Sgetc();
    }

    method ReaderStops()
      requires Inv()
      modifies r, r.rep.sock`shuts
      ensures Inv() && r.gbuf == null
      ensures Gets(old(delivered), old(r.InStream()), 0, delivered, r.rep.sock.readsFail)
    {
      hide WriterFlow, Takes, Gets;
      GetsNothing(delivered, r.InStream(), r.rep.sock.readsFail);
      Delivered();
      var _ := r.Shutdown(ShutRead);
    }

    lemma Delivered()
      requires r.Valid() && ReaderFlow()
      ensures delivered <= r.rep.sock.arrived
    {
    }

    method ReaderTakes()
      requires Inv()
      modifies `delivered, r`gptr, r`egptr, r.gbuf, r.rep.sock`taken
      ensures Inv() && r.gbuf == old(r.gbuf)
      ensures Gets(old(delivered), old(r.InStream()), 1, delivered, r.rep.sock.readsFail)
    {
      hide WriterFlow, ReaderFlow, Takes, Gets;
      ghost var stream := r.InStream();
      FlowsOn(stream);
      var got := TakeByte();
      Advance(stream, got);
      GetsFront(old(delivered), stream, got, r.InStream(), 1, r.rep.sock.readsFail);
    }

    lemma FlowsOn(stream: seq<char>)
      requires r.Valid() && ReaderFlow() && stream == r.InStream()
      ensures if r.gbuf != null then Takes(r.rep.sock.arrived, delivered, stream)
              else stream == [] && delivered <= r.rep.sock.arrived
    {
    }

    /** sbumpc, and what the caller has of it. */
    method TakeByte() returns (got: seq<char>)
      requires r.Valid()
      modifies r`gptr, r`egptr, r.gbuf, r.rep.sock`taken
      ensures r.Valid() && Takes(old(r.InStream()), got, r.InStream())
      ensures |got| <= 1 && (|got| == 1 || r.InStream() == [] || r.rep.sock.readsFail)
    {
      hide Takes;
      var ret := r.Sbumpc();
      TakesNothing(r.InStream());
      got := if ret.Returned? && ret.value != Eof then [ret.value.c] else [];
    }

    method ReaderGets(n: nat)
      requires Inv()
      modifies `delivered, r`gptr, r`egptr, r.gbuf, r.rep.sock`taken
      ensures Inv() && r.gbuf == old(r.gbuf)
      ensures Gets(old(delivered), old(r.InStream()), n, delivered, r.rep.sock.readsFail)
    {
      hide WriterFlow, Takes, Gets;
      ghost var stream := r.InStream();
      var s := new char[n];
      var _, got := r.Xsgetn(s, 0, n);
      Advance(stream, got);
      GetsFront(old(delivered), stream, got, r.InStream(), n, r.rep.sock.readsFail);
    }

    /** The reader's log after a call that took got off the front of its input stream. */
    ghost method Advance(stream: seq<char>, got: seq<char>)
      requires r.Valid() && Takes(stream, got, r.InStream())
      requires if r.gbuf != null then Takes(r.rep.sock.arrived, delivered, stream)
               else stream == [] && delivered <= r.rep.sock.arrived
      modifies `delivered
      ensures ReaderFlow() && delivered == old(delivered) + got
    {
      if r.gbuf != null {
        TakesTwice(r.rep.sock.arrived, delivered, stream, got, r.InStream());
      }
      delivered := delivered + got;
    }

    lemma TakesMore(arrived: seq<char>, got: seq<char>, stream: seq<char>, more: seq<char>)
      requires Takes(arrived, got, stream)
      ensures Takes(arrived + more, got, stream + more)
    {
    }

    /** The network brings the reader's kernel the next bytes in transit. */
    method Deliver(more: seq<char>)
      requires Inv() && r.rep.sock.arrived + more <= w.rep.sock.sent
      modifies r.rep.sock`arrived
      ensures Inv() && r.rep.sock.arrived == old(r.rep.sock.arrived) + more && old(r.InStream()) <= r.InStream()
    {
      hide WriterFlow, Takes;
      var arrived := r.rep.sock.arrived;
      ghost var stream, queue := r.InStream(), r.rep.sock.Queue();
      r.rep.sock.Arrive(more);
      if r.gbuf != null {
        assert r.rep.sock.Queue() == queue + more;
        assert r.Unread() + (queue + more) == r.Unread() + queue + more;
        TakesMore(arrived, delivered, stream, more);
      } else {
        assert arrived <= arrived + more;
      }
    }

    /** The network carries up to n of the bytes in transit; after the last one it may carry the end
        of the stream. */
    method NetworkStep(n: nat)
      requires Inv()
      modifies r.rep.sock`arrived, r.rep.sock`ended
      ensures Inv() && old(r.InStream()) <= r.InStream()
      ensures |r.rep.sock.arrived| == if |old(r.rep.sock.arrived)| + n <= |w.rep.sock.sent|
                                      then |old(r.rep.sock.arrived)| + n else |w.rep.sock.sent|
    {
      hide WriterFlow;
      var sent, arrived := w.rep.sock.sent, r.rep.sock.arrived;
      var to := if |arrived| + n <= |sent| then |arrived| + n else |sent|;
      assert arrived + sent[|arrived|..to] == sent[..to];
      Deliver(sent[|arrived|..to]);
      if to == |sent| && w.rep.sock.Finished() {
        r.rep.sock.ended := true;
      }
    }

    /** The kernels change how they answer the two ends. */
    method KernelStep(readWait: nat -> Wait, atMark: nat -> Option<bool>, writeWait: nat -> Wait)
      requires Inv()
      modifies r.rep.sock`readWait, r.rep.sock`atMark, r.rep.sock`writeWait
      modifies w.rep.sock`readWait, w.rep.sock`atMark, w.rep.sock`writeWait
      ensures Inv() && r.InStream() == old(r.InStream()) && w.Pending() == old(w.Pending())
    {
      r.rep.sock.Answer(readWait, atMark, writeWait);
      w.rep.sock.Answer(readWait, atMark, writeWait);
    }

    ghost function Now(): Moment
      requires w.Valid() && r.Valid()
      reads this, w, w.rep, w.rep.sock, w.pbuf, r, r.rep, r.rep.sock, r.gbuf
    {
      Moment(accepted, w.Pending(), w.rep.sock.sent, |r.rep.sock.arrived|, r.InStream(), delivered)
    }

    method Step(op: LinkOp)
      requires Inv()
      modifies this, w, r, w.pbuf, r.gbuf, w.rep.sock, r.rep.sock
      ensures Inv() && Passed(old(Now()), op, Now(), w.rep.sock.writesFail, r.rep.sock.readsFail)
      ensures !w.rep.sock.writesFail && old(w.pbuf) != null ==> accepted == old(accepted) + OfferedBy(op)
      ensures w.pbuf == if op == AtWriter(StopWriting) then null else old(w.pbuf)
      ensures r.gbuf == if op == AtReader(StopReading) then null else old(r.gbuf)
    {
      hide Gets, WriterFlow, ReaderFlow;
      assert w.rep.sock != r.rep.sock;
      match op {
        case AtWriter(put) => WriterStep(put);
        case AtReader(get) => ReaderStep(get);
        case Carry(n) => NetworkStep(n);
        case Answer(readWait, atMark, writeWait) => KernelStep(readWait, atMark, writeWait);
      }
    }

    /** Any interleaving of operations, with any kernel chunking and any failures. At every moment of the
        run, which leads through trace, the next operation has exactly its effect. */
    method Run(ops: seq<LinkOp>) returns (ghost trace: seq<Moment>)
      requires Inv()
      modifies this, w, r, w.pbuf, r.gbuf, w.rep.sock, r.rep.sock
      ensures Inv() && |trace| == |ops| + 1 && trace[0] == old(Now()) && trace[|ops|] == Now()
      ensures forall i :: 0 <= i < |ops| ==>
                Passed(trace[i], ops[i], trace[i + 1], w.rep.sock.writesFail, r.rep.sock.readsFail)
      ensures delivered <= accepted
      ensures w.pbuf != null && r.gbuf != null ==> accepted == delivered + OnTheWay()
      ensures !w.rep.sock.writesFail && w.pbuf != null ==> accepted == old(accepted) + AllOffered(ops)
    {
      hide Gets, Passed, WriterFlow, ReaderFlow, OfferedBy;
      trace := [Now()];
      AllOfferedEnds(ops);
      for i := 0 to |ops|
        invariant Inv()
        invariant w.pbuf == null || w.pbuf == old(w.pbuf)
        invariant r.gbuf == null || r.gbuf == old(r.gbuf)
        invariant |trace| == i + 1 && trace[0] == old(Now()) && trace[i] == Now()
        invariant forall k :: 0 <= k < i ==>
                    Passed(trace[k], ops[k], trace[k + 1], w.rep.sock.writesFail, r.rep.sock.readsFail)
        invariant !w.rep.sock.writesFail && w.pbuf != null ==> accepted == old(accepted) + AllOffered(ops[..i])
      {
        AllOfferedNext(old(accepted), ops, i);
        Step(ops[i]);
        trace := trace + [Now()];
      }
      if w.pbuf != null && r.gbuf != null {
        Conservation();
      }
      Prefix();
    }

    lemma Prefix()
      requires Inv()
      ensures delivered <= accepted
    {
    }

    /** The reader's buffer, its kernel's queue, what is in transit, and the writer's buffer. */
    ghost function OnTheWay(): seq<char>
      requires Inv()
      reads this, w, r, w.rep, r.rep, w.rep.sock, r.rep.sock, w.pbuf, r.gbuf
    {
      r.Unread() + r.rep.sock.Queue() + w.rep.sock.sent[|r.rep.sock.arrived|..] + w.Pending()
    }

    /** No byte is lost, repeated or reordered while neither side is shut down. */
    lemma Conservation()
      requires Inv() && w.pbuf != null && r.gbuf != null
      ensures accepted == delivered + OnTheWay()
    {
      var sent, arrived := w.rep.sock.sent, r.rep.sock.arrived;
      InOrder(sent, arrived, delivered, r.Unread(), r.rep.sock.Queue(), w.Pending());
    }

    lemma InOrder(sent: seq<char>, arrived: seq<char>, delivered: seq<char>, unread: seq<char>, queue: seq<char>,
        pending: seq<char>)
      requires arrived <= sent && arrived == delivered + (unread + queue)
      ensures sent + pending == delivered + (unread + queue + sent[|arrived|..] + pending)
    {
      var transit := sent[|arrived|..];
      assert sent == arrived + transit;
      Concat(delivered, unread + queue, transit);
      Concat(delivered, unread + queue + transit, pending);
    }

    lemma Concat(a: seq<char>, b: seq<char>, c: seq<char>)
      ensures a + b + c == a + (b + c)
    {
    }
  }

  // ---------------------------------------------------------------- reads do not depend on chunking

  datatype ReadOp = Look | One | Many(n: nat)

  datatype Answer = Char(c: IntType) | Chars(s: seq<char>)

  function Head(stream: seq<char>): IntType {
    if stream == [] then Eof else Chr(stream[0])
  }

  function Min(a: nat, b: nat): nat {
    if a < b then a else b
  }

  /** One read from an unbuffered stream: the answer and how many bytes it consumes. */
  function Serve(stream: seq<char>, op: ReadOp): (r: (Answer, nat))
    ensures r.1 <= |stream|
  {
    match op
    case Look => (Char(Head(stream)), 0)
    case One => (Char(Head(stream)), Min(1, |stream|))
    case Many(n) => (Chars(stream[..Min(n, |stream|)]), Min(n, |stream|))
  }

  /** The answers of an unbuffered stream to a sequence of reads. */
  function Unbuffered(stream: seq<char>, ops: seq<ReadOp>): seq<Answer> {
    if ops == [] then []
    else
      var (a, k) := Serve(stream, ops[0]);
      [a] + Unbuffered(stream[k..], ops[1..])
  }

  /** Bytes an answer took off the stream. */
  function Consumed(op: ReadOp, a: Answer): seq<char> {
    match a
    case Char(c) => if op.One? && c.Chr? then [c.c] else []
    case Chars(s) => s
  }

  function AllConsumed(ops: seq<ReadOp>, answers: seq<Answer>): seq<char>
    requires |ops| == |answers|
  {
    if ops == [] then [] else Consumed(ops[0], answers[0]) + AllConsumed(ops[1..], answers[1..])
  }

  lemma AllConsumedFirst(ops: seq<ReadOp>, a: Answer, rest: seq<Answer>)
    requires |ops| == 1 + |rest|
    ensures AllConsumed(ops, [a] + rest) == Consumed(ops[0], a) + AllConsumed(ops[1..], rest)
  {
    assert ([a] + rest)[1..] == rest;
  }

  lemma UnbufferedFirst(stream: seq<char>, ops: seq<ReadOp>)
    requires ops != []
    ensures var (a, k) := Serve(stream, ops[0]);
            Unbuffered(stream, ops) == [a] + Unbuffered(stream[k..], ops[1..]) && Consumed(ops[0], a) == stream[..k]
  {
  }

  lemma PrefixOfRest(stream: seq<char>, k: nat, more: seq<char>)
    requires k <= |stream| && more <= stream[k..]
    ensures stream[..k] + more <= stream
  {
  }

  /** The reference stream hands out its bytes in order, each once. */
  lemma {:induction false} UnbufferedInOrder(stream: seq<char>, ops: seq<ReadOp>)
    ensures |Unbuffered(stream, ops)| == |ops|
    ensures AllConsumed(ops, Unbuffered(stream, ops)) <= stream
  {
    if ops == [] {
    } else {
      hide *;
      var (a, k) := Serve(stream, ops[0]);
      var rest := Unbuffered(stream[k..], ops[1..]);
      UnbufferedFirst(stream, ops);
      UnbufferedInOrder(stream[k..], ops[1..]);
      AllConsumedFirst(ops, a, rest);
      PrefixOfRest(stream, k, AllConsumed(ops[1..], rest));
    }
  }

  /** What was taken off a stream is its front. */
  lemma TookFront(stream: seq<char>, got: seq<char>, rest: seq<char>, n: nat)
    requires Takes(stream, got, rest) && |got| <= n && (|got| == n || rest == [])
    ensures got == stream[..Min(n, |stream|)] && rest == stream[Min(n, |stream|)..]
  {
  }

  lemma StoredFront(mem: seq<char>, got: seq<char>)
    requires |got| <= |mem|
    ensures Overwrite(mem, 0, got)[..|got|] == got
  {
  }

  method ReadMany(sb: Sockbuf, n: nat) returns (a: seq<char>)
    requires sb.Valid() && sb.gbuf != null && sb.rep.sock.ended && !sb.rep.sock.readsFail
    modifies sb`gptr, sb`egptr, sb.gbuf, sb.rep.sock`taken
    ensures sb.Valid() && a == old(sb.InStream())[..Min(n, |old(sb.InStream())|)]
    ensures sb.InStream() == old(sb.InStream())[Min(n, |old(sb.InStream())|)..]
  {
    hide Takes, Overwrite;
    ghost var stream := sb.InStream();
    var s := new char[n];
    ghost var mem := s[..];
    var r, got := sb.Xsgetn(s, 0, n);
    StoredFront(mem, got);
    assert s[..r.value] == s[..][..r.value];
    TookFront(stream, got, sb.InStream(), n);
    return s[..r.value];
  }

  method ReadNext(sb: Sockbuf) returns (c: IntType)
    requires sb.Valid() && sb.gbuf != null && sb.rep.sock.ended && !sb.rep.sock.readsFail
    modifies sb`gptr, sb`egptr, sb.gbuf, sb.rep.sock`taken
    ensures sb.Valid() && c == Head(old(sb.InStream()))
    ensures sb.InStream() == old(sb.InStream())[Min(1, |old(sb.InStream())|)..]
  {
    hide Takes;
    ghost var stream := sb.InStream();
    var r := sb.Sbumpc();
    if r.value != Eof {
      TookFront(stream, [r.value.c], sb.InStream(), 1);
      assert stream[..1] == [stream[0]];
    }
    return r.value;
  }

  /** One read through a sockbuf whose source is complete and never fails. */
  method ReadOne(sb: Sockbuf, op: ReadOp) returns (a: Answer)
    requires sb.Valid() && sb.gbuf != null && sb.rep.sock.ended && !sb.rep.sock.readsFail
    modifies sb`gptr, sb`egptr, sb.gbuf, sb.rep.sock`taken
    ensures sb.Valid() && a == Serve(old(sb.InStream()), op).0
    ensures sb.InStream() == old(sb.InStream())[Serve(old(sb.InStream()), op).1..]
  {
    hide Min;
    match op {
      case Look =>
        var r := sb.Sgetc();
        a := Char(r.value);
      case One =>
        var c := ReadNext(sb);
        a := Char(c);
      case Many(n) =>
        var s := ReadMany(sb, n);
        a := Chars(s);
    }
  }

  /** However the kernel cuts the source into reads, the answers are those of an unbuffered stream. */
  method ReadAll(sb: Sockbuf, ops: seq<ReadOp>) returns (answers: seq<Answer>)
    requires sb.Valid() && sb.gbuf != null && sb.rep.sock.ended && !sb.rep.sock.readsFail
    modifies sb`gptr, sb`egptr, sb.gbuf, sb.rep.sock`taken
    ensures answers == Unbuffered(old(sb.InStream()), ops)
  {
    hide *;
    ghost var all := Unbuffered(sb.InStream(), ops);
    UnbufferedEnds(sb.InStream(), ops);
    answers := [];
    for i := 0 to |ops|
      invariant sb.Valid() && sb.gbuf == old(sb.gbuf)
      invariant answers + Unbuffered(sb.InStream(), ops[i..]) == all
    {
      UnbufferedStep(sb.InStream(), ops, i);
      ghost var done := answers;
      var a := ReadOne(sb, ops[i]);
      answers := answers + [a];
      assert done + ([a] + Unbuffered(sb.InStream(), ops[i + 1..]))
          == answers + Unbuffered(sb.InStream(), ops[i + 1..]);
    }
    UnbufferedEnds(sb.InStream(), ops);
  }

  lemma UnbufferedEnds(stream: seq<char>, ops: seq<ReadOp>)
    ensures ops[0..] == ops && Unbuffered(stream, ops[|ops|..]) == []
  {
  }

  lemma UnbufferedStep(stream: seq<char>, ops: seq<ReadOp>, i: nat)
    requires i < |ops|
    ensures Unbuffered(stream, ops[i..])
         == [Serve(stream, ops[i]).0] + Unbuffered(stream[Serve(stream, ops[i]).1..], ops[i + 1..])
  {
    assert ops[i..][1..] == ops[i + 1..];
  }

  /** Two sockbufs with the same bytes to come, chunked differently, answer alike. */
  method ReadBoth(a: Sockbuf, b: Sockbuf, ops: seq<ReadOp>) returns (x: seq<Answer>, y: seq<Answer>)
    requires a.Valid() && a.gbuf != null && a.rep.sock.ended && !a.rep.sock.readsFail
    requires b.Valid() && b.gbuf != null && b.rep.sock.ended && !b.rep.sock.readsFail
    requires a != b && a.gbuf != b.gbuf && a.rep.sock != b.rep.sock
    requires a.InStream() == b.InStream()
    modifies a`gptr, a`egptr, a.gbuf, a.rep.sock`taken, b`gptr, b`egptr, b.gbuf, b.rep.sock`taken
    ensures x == y
  {
    x := ReadAll(a, ops);
    y := ReadAll(b, ops);
  }

  // ---------------------------------------------------------------- all handles on one descriptor

  datatype HandleOp = CopyOf(i: nat) | Store(i: nat, s: seq<char>) | Drop(i: nat)

  /** Distinct valid handles that share first's descriptor; only first has areas. */
  ghost predicate Handles(live: seq<Sockbuf>, first: Sockbuf)
    reads live, first, first.rep, first.rep.sock
  {
    && (forall h <- live :: h.rep == first.rep && h.Valid() && (h != first ==> h.pbuf == null))
    && (forall i, j :: 0 <= i < j < |live| ==> live[i] != live[j])
  }

  lemma HandlesWith(live: seq<Sockbuf>, first: Sockbuf, c: Sockbuf)
    requires Handles(live, first) && c !in live && c != first && c.rep == first.rep && c.Valid() && c.pbuf == null
    ensures Handles(live + [c], first) && (first in live + [c] <==> first in live)
  {
    var all := live + [c];
    forall i, j | 0 <= i < j < |all| ensures all[i] != all[j] {
      assert all[i] == live[i];
      assert j < |live| ==> all[j] == live[j];
    }
  }

  lemma HandlesWithout(live: seq<Sockbuf>, first: Sockbuf, i: nat)
    requires Handles(live, first) && i < |live|
    ensures Handles(live[..i] + live[i + 1..], first)
    ensures first in live[..i] + live[i + 1..] <==> first in live && live[i] != first
  {
  }

  /** The handles that are alive, and what they accepted. */
  datatype LifeMoment = LifeMoment(live: seq<Sockbuf>, accepted: seq<char>)

  class Descriptor {
    const first: Sockbuf             // the handle created from the descriptor
    var live: seq<Sockbuf>           // handles not yet destroyed
    ghost var accepted: seq<char>    // bytes the handles' xsputn calls reported as taken

    ghost predicate Inv()
      reads this, live, first, first.rep, first.rep.sock, first.pbuf
    {
      && first.Valid() && first.pbuf != null && !first.rep.sock.writesFail
      && Handles(live, first)
      && first.rep.useCount == |live|
      && first.rep.sock.closes == (if live == [] then 1 else 0)
      && accepted == (if first in live then first.OutStream() else first.rep.sock.sent)
    }

    constructor (sock: Socket, bufsiz: nat)
      requires sock.Valid() && !sock.writesFail && sock.closes == 0 && bufsiz > 0
      ensures Inv() && live == [first] && accepted == sock.sent && first.rep.sock == sock
    {
      var sb := new Sockbuf(sock, bufsiz);
      first, live, accepted := sb, [sb], sock.sent;
    }

    method CopyHandle(i: nat)
      requires Inv() && i < |live|
      modifies `live, first.rep`useCount
      ensures Inv() && |live| == |old(live)| + 1 && live[..|old(live)|] == old(live) && fresh(live[|old(live)|])
    {
      SharesFirst(i);
      var c := new Sockbuf.Copy(live[i]);
      assert Handles(live, first);
      hide Handles;
      HandlesWith(live, first, c);
      live := live + [c];
    }

    lemma SharesFirst(i: nat)
      requires Inv() && i < |live|
      ensures live[i].rep == first.rep && live[i].Valid()
    {
    }

    method StoreBytes(i: nat, s: seq<char>)
      requires Inv() && i < |live|
      modifies `accepted, live[i], first.pbuf, first.rep.sock`sent
      ensures first.pbuf == old(first.pbuf)
      ensures Inv() && accepted == old(accepted) + (if live[i] == first then s else [])
    {
      var r, k := live[i].Xsputn(s);
      accepted := accepted + s[..r.value];
    }

    method DropHandle(i: nat)
      requires Inv() && i < |live|
      modifies `live, live[i], first.pbuf, first.rep`useCount
      modifies first.rep.sock`sent, first.rep.sock`closes
      ensures first.pbuf == old(first.pbuf)
      ensures Inv() && live == old(live[..i] + live[i + 1..])
    {
      End(i);
      HandlesWithout(live, first, i);
      hide Handles;
      live := live[..i] + live[i + 1..];
    }

    /** live[i]'s destructor; the handle is not yet forgotten. */
    method End(i: nat)
      requires Inv() && i < |live|
      modifies live[i], first.pbuf, first.rep`useCount, first.rep.sock`sent, first.rep.sock`closes
      ensures first.Valid() && first.pbuf == old(first.pbuf) && Handles(live, first)
      ensures first.rep.useCount == |live| - 1 && first.rep.sock.closes == if |live| == 1 then 1 else 0
      ensures accepted == if first in live && live[i] != first then first.OutStream() else first.rep.sock.sent
    {
      var h := live[i];
      assert h.rep == first.rep;
      var _ := h.Destroy();
    }

    ghost function Now(): LifeMoment
      reads this
    {
      LifeMoment(live, accepted)
    }

    /** What an operation through a live handle does; a dangling handle is not used. */
    ghost predicate Passed(a: LifeMoment, op: HandleOp, b: LifeMoment) {
      if op.i >= |a.live| then b == a
      else
        match op
        case CopyOf(i) => b.accepted == a.accepted && |b.live| == |a.live| + 1 && a.live <= b.live
        case Store(i, s) => b == a.(accepted := a.accepted + if a.live[i] == first then s else [])
        case Drop(i) => b == a.(live := a.live[..i] + a.live[i + 1..])
    }

    method Step(op: HandleOp)
      requires Inv()
      modifies this, live, first.pbuf, first.rep`useCount, first.rep.sock`sent, first.rep.sock`closes
      ensures Inv() && first.pbuf == old(first.pbuf) && Passed(old(Now()), op, Now())
      ensures forall j :: 0 <= j < |live| ==> live[j] in old(live) || fresh(live[j])
    {
      if op.i < |live| {
        match op {
          case CopyOf(i) => CopyHandle(i);
          case Store(i, s) => StoreBytes(i, s);
          case Drop(i) => DropHandle(i);
        }
      }
    }

    /** Any life of the handles: copies of copies, writes through any handle, any order of destruction. The
        descriptor is closed exactly once, by the last destruction; by then every accepted byte is out. */
    method Run(ops: seq<HandleOp>) returns (ghost trace: seq<LifeMoment>)
      requires Inv()
      modifies this, live, first.pbuf, first.rep`useCount, first.rep.sock`sent, first.rep.sock`closes
      ensures Inv() && |trace| == |ops| + 1 && trace[0] == old(Now()) && trace[|ops|] == Now()
      ensures forall k :: 0 <= k < |ops| ==> Passed(trace[k], ops[k], trace[k + 1])
      ensures first.rep.sock.closes == if live == [] then 1 else 0
      ensures live == [] ==> first.rep.sock.sent == accepted
    {
      hide *;
      trace := [Now()];
      for k := 0 to |ops|
        invariant Inv() && first.pbuf == old(first.pbuf)
        invariant forall j :: 0 <= j < |live| ==> live[j] in old(live) || fresh(live[j])
        invariant |trace| == k + 1 && trace[0] == old(Now()) && trace[k] == Now()
        invariant forall j :: 0 <= j < k ==> Passed(trace[j], ops[j], trace[j + 1])
      {
        Step(ops[k]);
        trace := trace + [Now()];
      }
      AtLast();
    }

    lemma AtLast()
      requires Inv()
      ensures first.rep.sock.closes == if live == [] then 1 else 0
      ensures live == [] ==> first.rep.sock.sent == accepted
    {
    }
  }

  // ---------------------------------------------------------------- after a failed flush

  /** sync, again and again: whatever failed before, the first success puts everything on the wire. */
  method SyncUntilDone(sb: Sockbuf, tries: nat) returns (done: bool)
    requires sb.Valid()
    modifies sb`pptr, sb`epptr, sb.pbuf, sb.rep.sock`sent
    ensures sb.Valid() && sb.OutStream() == old(sb.OutStream())
    ensures done ==> sb.rep.sock.sent == old(sb.OutStream())
    ensures tries > 0 && !sb.rep.sock.writesFail ==> done
  {
    done := false;
    for i := 0 to tries
      invariant sb.Valid() && sb.OutStream() == old(sb.OutStream())
      invariant done ==> sb.Pending() == []
      invariant i > 0 && !sb.rep.sock.writesFail ==> done
    {
      if !done {
        var r := sb.Sync();
        done := r.Returned?;
      }
    }
  }
}
