/** socket++/sockstream.cpp: the buffered duplex stream sockbuf. */
module SockStream {
  import opened Lines
  import opened Sockets

  /** int_type: eofValue, or a character converted to unsigned char. */
  datatype IntType = Eof | Chr(c: char)

  /** sockcnt: what all copies of a sockbuf share. useCount is the shared_ptr's count. */
  class Sockcnt {
    const sock: Socket
    var stmo: int
    var rtmo: int
    var oob: bool
    var gend: nat
    var pend: nat
    var useCount: nat

    constructor (sock: Socket)
      ensures this.sock == sock && stmo == rtmo == -1 && !oob && gend == pend == 0 && useCount == 1
    {
      this.sock := sock;
      stmo, rtmo, oob, gend, pend, useCount := -1, -1, false, 0, 0, 1;
    }
  }

  /** In place, move the bytes from..end of buf to its front, lowest first. */
  method ShiftToFront(buf: array<char>, from: nat, end: nat)
    requires from <= end <= buf.Length
    modifies buf
    ensures buf[..end - from] == old(buf[from..end])
  {
    var pto, pfrom := 0, from;
    while pfrom < end
      invariant from <= pfrom <= end && pto == pfrom - from
      invariant forall i :: 0 <= i < pto ==> buf[i] == old(buf[from + i])
      invariant forall i :: pfrom <= i < end ==> buf[i] == old(buf[i])
    {
      buf[pto] := buf[pfrom];
      pto, pfrom := pto + 1, pfrom + 1;
    }
  }

  /** What a recursive transfer returns after m bytes of its own: m more, or the callee's exception. */
  function AddCount(m: nat, r: Res<nat>): Res<nat> {
    if r.Returned? then Returned(m + r.value) else r
  }

  lemma CountIs(m: nat, r: Res<nat>)
    ensures AddCount(m, r) == if r.Returned? then Returned(m + r.value) else r
  {
  }

  /** mem with data stored from index off on. */
  ghost function Overwrite(mem: seq<char>, off: nat, data: seq<char>): seq<char>
    requires off + |data| <= |mem|
  {
    mem[..off] + data + mem[off + |data|..]
  }

  lemma NothingStored(mem: seq<char>, off: nat, data: seq<char>)
    requires off <= |mem|
    ensures data[0..] == data && data[..0] == [] && Overwrite(mem, off, []) == mem
  {
  }

  lemma OverwriteTwice(mem: seq<char>, off: nat, a: seq<char>, b: seq<char>)
    requires off + |a| + |b| <= |mem|
    ensures Overwrite(Overwrite(mem, off, a), off + |a|, b) == Overwrite(mem, off, a + b)
  {
  }

  /** Taking got off the front of stream leaves rest. */
  ghost predicate Takes(stream: seq<char>, got: seq<char>, rest: seq<char>) {
    stream == got + rest
  }

  lemma TakesNothing(stream: seq<char>)
    ensures Takes(stream, [], stream)
  {
  }

  lemma TakesFront(unread: seq<char>, m: nat, queue: seq<char>)
    requires m <= |unread|
    ensures Takes(unread + queue, unread[..m], unread[m..] + queue)
  {
    assert unread == unread[..m] + unread[m..];
  }

  lemma TakesTwice(stream: seq<char>, a: seq<char>, mid: seq<char>, b: seq<char>, rest: seq<char>)
    requires Takes(stream, a, mid) && Takes(mid, b, rest)
    ensures Takes(stream, a + b, rest)
  {
  }

  lemma TakesOnce(stream: seq<char>, got: seq<char>, rest: seq<char>, rest': seq<char>)
    requires Takes(stream, got, rest) && Takes(stream, got, rest')
    ensures rest == rest'
  {
    assert rest == stream[|got|..] == rest';
  }

  lemma Regroup(stream: seq<char>, s: seq<char>, m: nat, j: nat)
    requires m + j <= |s|
    ensures stream + s[..m] + s[m..][..j] == stream + s[..m + j]
  {
  }

  method Memcpy(dst: array<char>, off: nat, src: seq<char>)
    requires off + |src| <= dst.Length
    modifies dst
    ensures dst[..] == Overwrite(old(dst[..]), off, src)
  {
    forall i | 0 <= i < |src| {
      dst[off + i] := src[i];
    }
  }

  class Sockbuf {
    const rep: Sockcnt
    // Pointers are offsets into their area; eback() and pbase() are offset 0 of a non-null area.
    var gbuf: array?<char>
    var gptr: nat
    var egptr: nat
    var pbuf: array?<char>
    var pptr: nat
    var epptr: nat

    ghost predicate Valid()
      reads this, rep, rep.sock
    {
      && rep.sock.Valid()
      && gptr <= egptr
      && pptr <= epptr
      && (gbuf == null ==> egptr == 0)
      && (gbuf != null ==> gbuf.Length == rep.gend > 0 && egptr <= gbuf.Length)
      && (pbuf == null ==> epptr == 0)
      && (pbuf != null ==> pbuf.Length == rep.pend == epptr > 0)
      && (gbuf != null ==> gbuf != pbuf)
    }

    /** Bytes accepted but not yet handed to the kernel. */
    ghost function Pending(): seq<char>
      requires Valid()
      reads this, rep, rep.sock, pbuf
    {
      if pbuf == null then [] else pbuf[..pptr]
    }

    /** Bytes read from the kernel but not yet handed to the caller. */
    ghost function Unread(): seq<char>
      requires Valid()
      reads this, rep, rep.sock, gbuf
    {
      if gbuf == null then [] else gbuf[gptr..egptr]
    }

    /** The output side seen as an unbuffered stream: what went out followed by what will go out. */
    ghost function OutStream(): seq<char>
      requires Valid()
      reads this, rep, rep.sock, pbuf
    {
      rep.sock.sent + Pending()
    }

    /** The input side seen as an unbuffered stream: what the caller will still get. */
    ghost function InStream(): seq<char>
      requires Valid()
      reads this, rep, rep.sock, gbuf
    {
      if gbuf == null then [] else Unread() + rep.sock.Queue()
    }

    /** The caller has everything that will ever come. */
    ghost predicate AtEof()
      requires Valid()
      reads this, rep, rep.sock, gbuf
    {
      InStream() == [] && (gbuf != null ==> rep.sock.ended)
    }

    /** A sockbuf on an open descriptor, with both areas empty. */
    constructor (sock: Socket, bufsiz: nat)
      requires sock.Valid() && bufsiz > 0
      ensures Valid() && fresh(rep) && rep.sock == sock && rep.useCount == 1
      ensures rep.stmo == rep.rtmo == -1 && !rep.oob
      ensures gbuf != null && pbuf != null && fresh(gbuf) && fresh(pbuf)
      ensures gbuf.Length == pbuf.Length == bufsiz
      ensures Pending() == [] && Unread() == []
    {
      rep := new Sockcnt(sock);
      var g, p := new char[bufsiz], new char[bufsiz];
      gbuf, gptr, egptr := g, bufsiz, bufsiz;
      pbuf, pptr, epptr := p, 0, bufsiz;
      new;
      rep.gend, rep.pend := bufsiz, bufsiz;
    }

    /** The copy constructor: shares rep; the streambuf base, hence both areas, starts out null. */
    constructor Copy(sb: Sockbuf)
      requires sb.Valid()
      modifies sb.rep`useCount
      ensures Valid() && rep == sb.rep && rep.useCount == old(sb.rep.useCount) + 1
      ensures gbuf == null && pbuf == null && Pending() == [] && Unread() == []
    {
      rep := sb.rep;
      gbuf, gptr, egptr := null, 0, 0;
      pbuf, pptr, epptr := null, 0, 0;
      new;
      rep.useCount := rep.useCount + 1;
    }

    /** The destructor, including the release of rep. */
    method Destroy() returns (r: Res<()>)
      requires Valid() && rep.useCount > 0
      modifies `pptr, `epptr, pbuf, rep`useCount, rep.sock`sent, rep.sock`closes
      ensures Valid() && OutStream() == old(OutStream()) && old(rep.sock.sent) <= rep.sock.sent
      ensures !rep.sock.writesFail || old(|Pending()|) == 0 ==> r.Returned?
      ensures r.Returned? ==> Pending() == [] && rep.useCount == old(rep.useCount) - 1
      ensures r.Returned? ==>
                rep.sock.closes == old(rep.sock.closes) + (if old(rep.useCount) == 1 then 1 else 0)
      ensures r.Threw? ==> rep.useCount == old(rep.useCount) && rep.sock.closes == old(rep.sock.closes)
    {
      var _ :- Overflow(Eof);
      if rep.useCount == 1 {
        rep.sock.Close();
      }
      rep.useCount := rep.useCount - 1;
      return Returned(());
    }

    /** Throws the number of bytes written so far when the kernel refuses one of the writes. */
    method Write(buf: array<char>, len: nat) returns (r: Res<nat>)
      requires len <= buf.Length
      modifies rep.sock`sent
      ensures r.Returned? ==> r.value == len && rep.sock.sent == old(rep.sock.sent) + buf[..len]
      // with a timeout, select is asked first; then only write can fail
      ensures r == Threw(Err) <==> rep.stmo != -1 && old(rep.sock.WriteWait()) != Ready
      ensures r == Threw(Err) ==> rep.sock.sent == old(rep.sock.sent)
      ensures r.Threw? ==> rep.sock.writesFail && r.exn != Oob
      ensures r.Threw? && r.exn.Wrote? ==>
                r.exn.count < len && rep.sock.sent == old(rep.sock.sent) + buf[..r.exn.count]
    {
      if rep.stmo != -1 {
        var ready :- rep.sock.Select(rep.sock.WriteWait());
        if !ready {
          return Threw(Err);
        }
      }
      var left, wlen := len, 0;
      while left > 0
        invariant left + wlen == len
        invariant rep.sock.sent == old(rep.sock.sent) + buf[..wlen]
      {
        var w := rep.sock.Write(buf, wlen, left);
        if w.Threw? {
          return Threw(Wrote(wlen));
        }
        assert buf[..wlen] + buf[wlen..wlen + w.value] == buf[..wlen + w.value];
        left, wlen := left - w.value, wlen + w.value;
      }
      return Returned(wlen);
    }

    method Read(buf: array<char>, len: nat) returns (r: Res<nat>)
      requires rep.sock.Valid() && 0 < len <= buf.Length
      modifies rep.sock`taken, buf
      ensures rep.sock.Valid()
      ensures r.Threw? ==> rep.sock.taken == old(rep.sock.taken) && buf[..] == old(buf[..])
      ensures r.Threw? ==> rep.sock.readsFail || (rep.sock.Queue() == [] && !rep.sock.ended)
      // with a timeout, select is asked first; then, if it matters, whether the next byte is out-of-band
      ensures rep.rtmo != -1 && old(rep.sock.ReadWait()) != Ready ==> r == Threw(Err)
      ensures (rep.rtmo == -1 || old(rep.sock.ReadWait()) == Ready) && rep.oob ==>
                && (old(rep.sock.AtMark()) == Some(true) ==> r == Threw(Oob))
                && (old(rep.sock.AtMark()) == None ==> r == Threw(Err))
      ensures r == Threw(Oob) ==> rep.oob && old(rep.sock.AtMark()) == Some(true)
      ensures r == Threw(Err) ==>
                || (rep.rtmo != -1 && old(rep.sock.ReadWait()) != Ready) || (rep.oob && old(rep.sock.AtMark()) == None)
                || (rep.sock.readsFail && rep.sock.readBreaks) || (rep.sock.Queue() == [] && !rep.sock.ended)
      ensures r.Threw? ==> r.exn == Err || r.exn == Oob
      ensures r.Returned? ==>
                && r.value <= len
                && rep.sock.taken == old(rep.sock.taken) + r.value
                && buf[..r.value] == rep.sock.arrived[old(rep.sock.taken)..rep.sock.taken]
      ensures r == Returned(0) ==> rep.sock.ended && rep.sock.Queue() == []
      ensures r.Returned? && r.value > 0 && rep.sock.lineReads && old(rep.sock.CanReadLine(len)) ==>
                EndsCrlf(buf[..r.value])
    {
      if rep.rtmo != -1 {
        var ready :- rep.sock.Select(rep.sock.ReadWait());
        if !ready {
          return Threw(Err);
        }
      }
      if rep.oob {
        var mark :- rep.sock.AskMark();
        if mark {
          return Threw(Oob);
        }
      }
      r := rep.sock.Read(buf, len);
    }

    /** Repositions the unwritten bytes after wlen of the pending ones went out. */
    method KeepUnsent(wlen: nat, ghost before: seq<char>)
      requires Valid() && pbuf != null && wlen <= pptr
      requires rep.sock.sent == before + Pending()[..wlen]
      modifies `pptr, `epptr, pbuf
      ensures Valid() && OutStream() == before + old(Pending()) && pptr == old(pptr) - wlen
    {
      ghost var pending := Pending();
      var len := pptr - wlen;
      ShiftToFront(pbuf, wlen, pptr);
      pptr, epptr := 0, rep.pend;
      pptr := pptr + len;
      assert pending == pending[..wlen] + Pending();
    }

    /** Hands every pending byte to the kernel; after a partial failure the unsent ones stay pending. */
    method Sync() returns (r: Res<IntType>)
      requires Valid()
      modifies `pptr, `epptr, pbuf, rep.sock`sent
      ensures Valid() && OutStream() == old(OutStream()) && old(rep.sock.sent) <= rep.sock.sent
      ensures r.Returned? ==> r.value == Chr('\0') && Pending() == [] && pptr == 0
      ensures r.Threw? ==> rep.sock.writesFail && r.exn == Err && 0 < pptr <= old(pptr)
      ensures old(|Pending()|) > 0 && rep.stmo != -1 && old(rep.sock.WriteWait()) != Ready ==>
                r == Threw(Err) && rep.sock.sent == old(rep.sock.sent)
    {
      if pbuf != null && 0 < pptr <= epptr {
        ghost var before := rep.sock.sent;
        var w := Write(pbuf, pptr);
        if w.Threw? {
          if w.exn.Wrote? && w.exn.count > 0 {
            hide OutStream;
            KeepUnsent(w.exn.count, before);
          }
          return Threw(Err);
        }
        pptr, epptr := 0, rep.pend;
      }
      return Returned(Chr('\0'));
    }

    /** How many bytes can be had without a read. */
    method Showmanyc() returns (n: nat)
      requires Valid()
      ensures n == |Unread()|
    {
      return if gbuf != null && gptr < egptr then egptr - gptr else 0;
    }

    /** streambuf::gbump. */
    method Gbump(n: nat)
      requires Valid() && n <= |Unread()|
      modifies `gptr
      ensures Valid() && gptr == old(gptr) + n && Unread() == old(Unread()[n..])
      ensures Takes(old(InStream()), old(Unread()[..n]), InStream())
    {
      TakesFront(Unread(), n, rep.sock.Queue());
      gptr := gptr + n;
      assert Unread() == old(Unread()[n..]);
    }

    /** Makes at least one byte available, refilling the get area only when it is used up. */
    method Underflow() returns (r: Res<IntType>)
      requires Valid()
      modifies `gptr, `egptr, gbuf, rep.sock`taken
      ensures Valid() && InStream() == old(InStream())
      ensures r.Threw? ==>
                rep.sock.readsFail || (gbuf != null && InStream() == [] && !rep.sock.ended)
      // a refill asks select first, with a timeout; and then, if it matters, whether the next byte is out-of-band
      ensures gbuf != null && old(|Unread()|) == 0 && rep.rtmo != -1 && old(rep.sock.ReadWait()) != Ready ==>
                r == Threw(Err)
      ensures gbuf != null && old(|Unread()|) == 0 && rep.oob
              && (rep.rtmo == -1 || old(rep.sock.ReadWait()) == Ready) ==>
                && (old(rep.sock.AtMark()) == Some(true) ==> r == Threw(Oob))
                && (old(rep.sock.AtMark()) == None ==> r == Threw(Err))
      ensures r == Threw(Oob) ==> rep.oob && old(rep.sock.AtMark()) == Some(true)
      ensures r.Threw? || r.value == Eof ==> Unread() == old(Unread()) == []
      ensures r.Returned? ==> (r.value == Eof <==> AtEof())
      ensures r.Returned? && r.value != Eof ==> Unread() != [] && r.value.c == Unread()[0]
      ensures old(Unread()) != [] ==> r.Returned? && Unread() == old(Unread())
      ensures r.Returned? && r.value != Eof && old(Unread()) == [] ==>
                (rep.sock.lineReads && old(rep.sock.CanReadLine(rep.gend)) ==> EndsCrlf(Unread()))
    {
      if gbuf == null {
        return Returned(Eof);
      }
      if gptr < egptr {
        return Returned(Chr(gbuf[gptr]));
      }
      r := Refill();
    }

    /** The read of underflow, into an area that is used up. */
    method Refill() returns (r: Res<IntType>)
      requires Valid() && gbuf != null && gptr == egptr
      modifies `gptr, `egptr, gbuf, rep.sock`taken
      ensures Valid() && InStream() == old(InStream())
      ensures r.Threw? ==> rep.sock.readsFail || (InStream() == [] && !rep.sock.ended)
      // with a timeout, select is asked first; then, if it matters, whether the next byte is out-of-band
      ensures rep.rtmo != -1 && old(rep.sock.ReadWait()) != Ready ==> r == Threw(Err)
      ensures (rep.rtmo == -1 || old(rep.sock.ReadWait()) == Ready) && rep.oob ==>
                && (old(rep.sock.AtMark()) == Some(true) ==> r == Threw(Oob))
                && (old(rep.sock.AtMark()) == None ==> r == Threw(Err))
      ensures r == Threw(Oob) ==> rep.oob && old(rep.sock.AtMark()) == Some(true)
      ensures r == Threw(Err) ==>
                || (rep.rtmo != -1 && old(rep.sock.ReadWait()) != Ready) || (rep.oob && old(rep.sock.AtMark()) == None)
                || (rep.sock.readsFail && rep.sock.readBreaks) || (rep.sock.Queue() == [] && !rep.sock.ended)
      ensures r.Threw? ==> r.exn == Err || r.exn == Oob
      ensures r.Threw? || r.value == Eof ==> Unread() == []
      ensures r.Returned? ==> (r.value == Eof <==> AtEof())
      ensures r.Returned? && r.value != Eof ==> Unread() != [] && r.value.c == Unread()[0]
      ensures r.Returned? && r.value != Eof ==>
                (rep.sock.lineReads && old(rep.sock.CanReadLine(rep.gend)) ==> EndsCrlf(Unread()))
    {
      ghost var queue := rep.sock.Queue();
      var rlen :- Read(gbuf, rep.gend);
      if rlen == 0 {
        return Returned(Eof);
      }
      gptr, egptr := 0, rlen;
      assert Unread() == gbuf[..rlen] == queue[..rlen];
      assert queue == queue[..rlen] + rep.sock.Queue();
      assert InStream() == queue == old(InStream());
      hide InStream;
      return Returned(Chr(gbuf[gptr]));
    }

    /** Takes one byte. */
    method Uflow() returns (r: Res<IntType>)
      requires Valid()
      modifies `gptr, `egptr, gbuf, rep.sock`taken
      ensures Valid()
      ensures r.Threw? ==>
                rep.sock.readsFail || (gbuf != null && InStream() == [] && !rep.sock.ended)
      ensures r.Threw? ==> InStream() == old(InStream()) && old(|Unread()|) == 0
      ensures r.Returned? && r.value == Eof ==> old(InStream()) == [] && AtEof()
      ensures r.Returned? && r.value != Eof ==> Takes(old(InStream()), [r.value.c], InStream())
    {
      var ret :- Underflow();
      if ret == Eof {
        return Returned(Eof);
      }
      hide Takes, InStream;
      assert Unread()[..1] == [ret.c];
      Gbump(1);
      return Returned(ret);
    }

    /** streambuf::sgetc: look at the next byte. */
    method Sgetc() returns (r: Res<IntType>)
      requires Valid()
      modifies `gptr, `egptr, gbuf, rep.sock`taken
      ensures Valid() && InStream() == old(InStream())
      ensures r.Threw? ==>
                rep.sock.readsFail || (gbuf != null && InStream() == [] && !rep.sock.ended)
      ensures r.Threw? ==> old(|Unread()|) == 0
      ensures r.Returned? && r.value == Eof ==> AtEof()
      ensures r.Returned? && r.value != Eof ==> InStream() != [] && r.value.c == InStream()[0]
    {
      if gptr < egptr {
        return Returned(Chr(gbuf[gptr]));
      }
      r := Underflow();
    }

    /** streambuf::sbumpc: take the next byte. */
    method Sbumpc() returns (r: Res<IntType>)
      requires Valid()
      modifies `gptr, `egptr, gbuf, rep.sock`taken
      ensures Valid()
      ensures r.Threw? ==>
                rep.sock.readsFail || (gbuf != null && InStream() == [] && !rep.sock.ended)
      ensures r.Threw? ==> InStream() == old(InStream()) && old(|Unread()|) == 0
      ensures r.Returned? && r.value == Eof ==> old(InStream()) == [] && AtEof()
      ensures r.Returned? && r.value != Eof ==> Takes(old(InStream()), [r.value.c], InStream())
    {
      if gptr < egptr {
        hide Takes, InStream;
        assert Unread()[..1] == [gbuf[gptr]];
        Gbump(1);
        return Returned(Chr(gbuf[gptr - 1]));
      }
      r := Uflow();
    }

    /** memcpy of the next m unread bytes to dst[off..], and gbump(m). */
    method CopyOut(dst: array<char>, off: nat, m: nat)
      requires Valid() && m <= |Unread()| && off + m <= dst.Length && dst != gbuf && dst != pbuf
      modifies `gptr, dst
      ensures Valid() && Unread() == old(Unread()[m..])
      ensures Takes(old(InStream()), old(Unread()[..m]), InStream())
      ensures dst[..] == Overwrite(old(dst[..]), off, old(Unread()[..m]))
    {
      hide *;
      if m == 0 {
        TakesNothing(InStream());
        NothingStored(dst[..], off, Unread());
      } else {
        NextUnread(m);
        Memcpy(dst, off, gbuf[gptr..gptr + m]);
        Gbump(m);
      }
    }

    lemma NextUnread(m: nat)
      requires Valid() && 0 < m <= |Unread()|
      ensures gbuf != null && gptr + m <= gbuf.Length && gbuf[gptr..gptr + m] == Unread()[..m]
    {
    }

    /** The middle of xsgetn: copy all that is unread, then underflow. */
    method DrainAndRefill(s: array<char>, off: nat, rval: nat) returns (u: Res<IntType>)
      requires Valid() && rval == |Unread()| && off + rval <= s.Length && s != gbuf && s != pbuf
      modifies `gptr, `egptr, gbuf, rep.sock`taken, s
      ensures Valid() && s[..] == Overwrite(old(s[..]), off, old(Unread()))
      ensures Takes(old(InStream()), old(Unread()), InStream())
      ensures u.Returned? ==> (u.value == Eof <==> AtEof()) && (u.value != Eof ==> Unread() != [])
      ensures u.Threw? ==>
                rep.sock.readsFail || (gbuf != null && InStream() == [] && !rep.sock.ended)
    {
      CopyOut(s, off, rval);
      assert old(Unread())[..rval] == old(Unread()) && Unread() == [];
      ghost var mem := s[..];
      u := Underflow();
      assert s[..] == mem;
    }

    /** Copies up to n bytes to s[off..]. got is what it copied, also when it throws. */
    method Xsgetn(s: array<char>, off: nat, n: nat) returns (r: Res<nat>, ghost got: seq<char>)
      requires Valid() && off + n <= s.Length && s != gbuf && s != pbuf
      modifies `gptr, `egptr, gbuf, rep.sock`taken, s
      ensures Valid() && |got| <= n && Takes(old(InStream()), got, InStream())
      ensures s[..] == Overwrite(old(s[..]), off, got)
      ensures r.Returned? ==> r.value == |got| && (|got| < n ==> AtEof())
      ensures r.Threw? ==> old(|Unread()|) <= |got| < n
      ensures r.Threw? ==>
                rep.sock.readsFail || (gbuf != null && InStream() == [] && !rep.sock.ended)
      decreases n, gptr == egptr
    {
      hide *;
      UnreadIs();
      var rval := Showmanyc();
      ghost var unread, stream := Unread(), InStream();
      if rval >= n {
        CopyOut(s, off, n);
        return Returned(n), unread[..n];
      }
      var u := DrainAndRefill(s, off, rval);
      if u.Threw? {
        return Threw(u.exn), unread;
      }
      if u.value == Eof {
        return Returned(rval), unread;
      }
      ghost var mid := InStream();
      UnreadIs();
      var more, tail := Xsgetn(s, off + rval, n - rval);
      CountIs(rval, more);
      OverwriteTwice(old(s[..]), off, unread, tail);
      TakesTwice(stream, unread, mid, tail, InStream());
      r, got := AddCount(rval, more), unread + tail;
    }

    lemma UnreadIs()
      requires Valid()
      ensures |Unread()| == egptr - gptr
    {
    }

    /** memcpy of m bytes into the put area, and pbump(m). */
    method CopyIn(s: seq<char>, m: nat)
      requires Valid() && m <= |s| && m <= epptr - pptr
      modifies `pptr, pbuf
      ensures Valid() && OutStream() == old(OutStream()) + s[..m] && pptr == old(pptr) + m
    {
      if m > 0 {
        Memcpy(pbuf, pptr, s[..m]);
        pptr := pptr + m;
        assert Pending() == old(Pending()) + s[..m];
      }
    }

    /** Eof flushes; a character is stored after making room for it. */
    method Overflow(c: IntType) returns (r: Res<IntType>)
      requires Valid()
      modifies `pptr, `epptr, pbuf, rep.sock`sent
      ensures Valid() && old(rep.sock.sent) <= rep.sock.sent
      ensures pbuf == null ==> r == Returned(Eof)
      ensures r.Threw? ==> rep.sock.writesFail && r.exn == Err && 0 < pptr <= old(pptr)
      ensures pbuf != null && r.Returned? ==> r.value == if c.Eof? then Chr('\0') else c
      ensures OutStream() == old(OutStream()) + (if pbuf != null && r.Returned? && c.Chr? then [c.c] else [])
      ensures c.Chr? && old(pptr) < epptr ==> r.Returned? && rep.sock.sent == old(rep.sock.sent)
      ensures pbuf != null && r.Returned? && c == Eof ==> Pending() == [] && pptr == 0
    {
      if pbuf == null {
        return Returned(Eof);
      }
      if c == Eof {
        r := Sync();
        return;
      }
      if pptr == epptr {
        var _ :- Sync();
      }
      pbuf[pptr] := c.c;
      pptr := pptr + 1;
      return Returned(c);
    }

    /** streambuf::sputc. */
    method Sputc(c: char) returns (r: Res<IntType>)
      requires Valid()
      modifies `pptr, `epptr, pbuf, rep.sock`sent
      ensures Valid() && old(rep.sock.sent) <= rep.sock.sent
      ensures pbuf == null ==> r == Returned(Eof)
      ensures r.Threw? ==> rep.sock.writesFail && r.exn == Err
      ensures pbuf != null && r.Returned? ==> r.value == Chr(c)
      ensures OutStream() == old(OutStream()) + (if pbuf != null && r.Returned? then [c] else [])
      ensures old(pptr) < epptr ==> r.Returned? && rep.sock.sent == old(rep.sock.sent)
    {
      if pptr < epptr {
        pbuf[pptr] := c;
        pptr := pptr + 1;
        return Returned(Chr(c));
      }
      r := Overflow(Chr(c));
    }

    /** Accepts s. k is how many bytes were accepted, also when it throws. */
    method Xsputn(s: seq<char>) returns (r: Res<nat>, ghost k: nat)
      requires Valid()
      modifies `pptr, `epptr, pbuf, rep.sock`sent
      ensures Valid() && old(rep.sock.sent) <= rep.sock.sent
      ensures k <= |s| && OutStream() == old(OutStream()) + s[..k]
      ensures r.Returned? ==> r.value == k == if pbuf == null then 0 else |s|
      ensures |s| <= old(epptr) - old(pptr) ==> r.Returned? && rep.sock.sent == old(rep.sock.sent)
      ensures r.Threw? ==> rep.sock.writesFail && r.exn == Err && pbuf != null
      decreases |s|, pptr
    {
      hide OutStream;
      var n := |s|;
      var wval := epptr - pptr;
      if n <= wval {
        CopyIn(s, n);
        return Returned(n), n;
      }
      ghost var stream := OutStream();
      CopyIn(s, wval);
      var o := Overflow(Eof);
      if o.Threw? {
        return Threw(o.exn), wval;
      }
      if o.value == Eof {
        return Returned(wval), wval;
      }
      assert OutStream() == stream + s[..wval];
      var more, j := Xsputn(s[wval..]);
      Regroup(stream, s, wval, j);
      r, k := AddCount(wval, more), wval + j;
    }

    /** Drops an area, and what is in it, and shuts the descriptor down. For both areas it does so to one
        after the other and then shuts the descriptor down once more: when the first of these calls fails,
        the put area stays, with what is pending in it. */
    method Shutdown(how: ShutHow) returns (r: Res<()>)
      requires Valid()
      modifies this, rep.sock`shuts
      ensures Valid() && old(rep.sock.shuts) <= rep.sock.shuts && (r.Threw? ==> rep.sock.shutsFail)
      ensures if how == ShutWrite then gbuf == old(gbuf) && gptr == old(gptr) && egptr == old(egptr)
              else gbuf == null && Unread() == []
      ensures how == ShutRead ==> pbuf == old(pbuf) && pptr == old(pptr) && epptr == old(epptr)
      ensures how == ShutWrite || (how == ShutReadWrite && r.Returned?) ==> pbuf == null && Pending() == []
      ensures how != ShutReadWrite ==> rep.sock.shuts == old(rep.sock.shuts) + if r.Returned? then [how] else []
      ensures how == ShutReadWrite && r.Returned? ==>
                rep.sock.shuts == old(rep.sock.shuts) + [ShutRead, ShutWrite, ShutReadWrite]
      ensures how == ShutReadWrite && r.Threw? ==>
                || (rep.sock.shuts == old(rep.sock.shuts)
                    && pbuf == old(pbuf) && pptr == old(pptr) && epptr == old(epptr))
                || (pbuf == null && Pending() == []
                    && (rep.sock.shuts == old(rep.sock.shuts) + [ShutRead]
                        || rep.sock.shuts == old(rep.sock.shuts) + [ShutRead, ShutWrite]))
      decreases how == ShutReadWrite
    {
      match how {
        case ShutRead =>
          gbuf, gptr, egptr := null, 0, 0;
        case ShutWrite =>
          pbuf, pptr, epptr := null, 0, 0;
        case ShutReadWrite =>
          var _ :- Shutdown(ShutRead);
          var _ :- Shutdown(ShutWrite);
      }
      r := rep.sock.Shutdown(how);
    }
  }
}
