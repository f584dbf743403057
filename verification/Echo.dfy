/** socket++/echo.cpp: what a child of the echo server does with its connection (RFC 862). */
module Echo {
  import opened Sockets
  import opened SockStream

  /** The inner loop: len bytes of buf are written. */
  method EchoChunk(s: Sockbuf, buf: array<char>, len: nat) returns (r: Res<()>)
    requires len <= buf.Length
    modifies s.rep.sock`sent
    ensures r.Returned? ==> s.rep.sock.sent == old(s.rep.sock.sent) + buf[..len]
    ensures old(s.rep.sock.sent) <= s.rep.sock.sent <= old(s.rep.sock.sent) + buf[..len]
    ensures r.Threw? ==> s.rep.sock.writesFail
  {
    var rcnt := len;
    while rcnt != 0
      invariant || (rcnt == len && s.rep.sock.sent == old(s.rep.sock.sent))
                || (rcnt == 0 && s.rep.sock.sent == old(s.rep.sock.sent) + buf[..len])
    {
      var wcnt := s.Write(buf, rcnt);
      if wcnt.Threw? {
        return Threw(wcnt.exn);
      }
      rcnt := rcnt - wcnt.value;
    }
    return Returned(());
  }

  /** What has been written, and how many bytes have been read. */
  datatype Moment = Moment(sent: seq<char>, taken: nat)

  /** At each of these moments everything read since the first has been written, and nothing else. */
  ghost predicate Echoed(trace: seq<Moment>, arrived: seq<char>) {
    && trace != []
    && (forall i :: 0 <= i < |trace| ==>
          trace[0].taken <= trace[i].taken <= |arrived|
          && trace[i].sent == trace[0].sent + arrived[trace[0].taken..trace[i].taken])
    && forall i :: 0 < i < |trace| ==> trace[i - 1].taken < trace[i].taken
  }

  /** The loop of serve_clients. It uses read and write directly, not the areas of s. The trace holds the
      moments at which the outer loop's test was reached. */
  method ServeClient(s: Sockbuf) returns (r: Res<()>, ghost trace: seq<Moment>)
    requires s.rep.sock.Valid()
    modifies s.rep.sock`sent, s.rep.sock`taken
    ensures s.rep.sock.Valid() && old(s.rep.sock.taken) <= s.rep.sock.taken
    ensures Echoed(trace, s.rep.sock.arrived) && trace[0] == Moment(old(s.rep.sock.sent), old(s.rep.sock.taken))
    // at all times a prefix of what has been read
    ensures trace[|trace| - 1].sent <= s.rep.sock.sent
    ensures s.rep.sock.sent <= old(s.rep.sock.sent) + s.rep.sock.arrived[old(s.rep.sock.taken)..s.rep.sock.taken]
    // and everything, once the client has finished
    ensures r.Returned? ==>
              && s.rep.sock.ended && s.rep.sock.Queue() == []
              && s.rep.sock.sent == old(s.rep.sock.sent) + old(s.rep.sock.Queue())
    // it throws only when a call fails, or when everything has been echoed and the client sends no more
    ensures r.Threw? && !s.rep.sock.writesFail && !s.rep.sock.readsFail ==>
              && !s.rep.sock.ended && s.rep.sock.Queue() == []
              && s.rep.sock.sent == old(s.rep.sock.sent) + old(s.rep.sock.Queue())
  {
    hide Echoed;
    ghost var sock := s.rep.sock;
    ghost var sent, start := sock.sent, sock.taken;
    var buf := new char[1024];
    trace := [Moment(sent, start)];
    FirstMoment(sent, start, sock.arrived);
    while true
      invariant sock.Valid() && start <= sock.taken && |trace| > 0
      invariant Echoed(trace, sock.arrived) && trace[0] == Moment(sent, start)
      invariant trace[|trace| - 1] == Moment(sock.sent, sock.taken)
      decreases |sock.arrived| - sock.taken
    {
      ghost var before := trace[|trace| - 1];
      LastMoment(trace, sock.arrived);
      var rcnt: Res<nat> := s.Read(buf, 1024);
      if rcnt.Threw? {
        return Threw(rcnt.exn), trace;
      }
      var len: nat := rcnt.value;
      if len == 0 {
        break;
      }
      SentSoFar(trace, sock.arrived, sock.taken);
      var w := EchoChunk(s, buf, len);
      if w.Threw? {
        return Threw(w.exn), trace;
      }
      NextMoment(trace, sock.arrived, Moment(sock.sent, sock.taken));
      trace := trace + [Moment(sock.sent, sock.taken)];
    }
    return Returned(()), trace;
  }

  lemma FirstMoment(sent: seq<char>, start: nat, arrived: seq<char>)
    requires start <= |arrived|
    ensures Echoed([Moment(sent, start)], arrived)
  {
    assert sent + arrived[start..start] == sent;
  }

  lemma LastMoment(trace: seq<Moment>, arrived: seq<char>)
    requires |trace| > 0 && Echoed(trace, arrived)
    ensures var (first, last) := (trace[0], trace[|trace| - 1]);
            && first.taken <= last.taken <= |arrived|
            && last.sent == first.sent + arrived[first.taken..last.taken]
            && (last.taken == |arrived| ==> last.sent == first.sent + arrived[first.taken..])
  {
  }

  /** Up to taken bytes have been read. */
  lemma SentSoFar(trace: seq<Moment>, arrived: seq<char>, taken: nat)
    requires |trace| > 0 && Echoed(trace, arrived) && trace[|trace| - 1].taken <= taken <= |arrived|
    ensures var (first, last) := (trace[0], trace[|trace| - 1]);
            && first.taken <= last.taken
            && last.sent + arrived[last.taken..taken] == first.sent + arrived[first.taken..taken]
  {
    var (first, last) := (trace[0], trace[|trace| - 1]);
    assert arrived[first.taken..last.taken] + arrived[last.taken..taken] == arrived[first.taken..taken];
  }

  lemma NextMoment(trace: seq<Moment>, arrived: seq<char>, m: Moment)
    requires |trace| > 0 && Echoed(trace, arrived) && trace[|trace| - 1].taken < m.taken <= |arrived|
    requires m.sent == trace[|trace| - 1].sent + arrived[trace[|trace| - 1].taken..m.taken]
    ensures Echoed(trace + [m], arrived)
  {
    SentSoFar(trace, arrived, m.taken);
  }
}
