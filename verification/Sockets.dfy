/** The operating system's side of one stream socket, as an environment: every choice the kernel
    makes (how much to accept, how much to deliver, whether to fail) is arbitrary. */
module Sockets {
  import opened Lines

  /** What a C++ exception carries: a socketpp::err, a sockoob, or the int thrown by write. */
  datatype Exn = Err | Oob | Wrote(count: nat)

  datatype Res<+T> = Returned(value: T) | Threw(exn: Exn) {
    predicate IsFailure() { Threw? }

    function PropagateFailure<U>(): Res<U>
      requires Threw?
    {
      Threw(exn)
    }

    function Extract(): T
      requires Returned?
    {
      value
    }
  }

  /** The first k bytes of queue end with a line's end. */
  predicate WholeLines(queue: seq<char>, k: nat) {
    k <= |queue| && EndsCrlf(queue[..k])
  }

  /** select(2)'s answer when it waits no longer than a timeout. */
  datatype Wait = Ready | TimedOut | Failed

  datatype ShutHow = ShutRead | ShutWrite | ShutReadWrite

  class Socket {
    var sent: seq<char>     // every byte the kernel has accepted from write, in order
    var arrived: seq<char>  // every byte that has reached this end, in order
    var taken: nat          // how many of them read has handed out
    var ended: bool         // the peer finished sending: arrived will not grow
    var shuts: seq<ShutHow> // the calls of shutdown that succeeded, in order
    var closes: nat         // how often close was called

    // The answers to be had, which the environment may change at any time.
    var readWait: nat -> Wait           // by select for reading, when so many bytes have been handed out
    var atMark: nat -> Option<bool>     // by ioctl SIOCATMARK, likewise: is the next byte out-of-band? None: it fails
    var writeWait: nat -> Wait          // by select for writing, when so many bytes have been accepted

    // What this environment promises.
    const writesFail: bool  // write, or the wait for it, may fail
    const readsFail: bool   // read, the wait for it, or the question for the mark, may fail
    const readBreaks: bool  // if so, it may be read itself
    const shutsFail: bool   // shutdown may fail
    const lineReads: bool   // a read delivers whole lines when it can

    constructor (writesFail: bool, readsFail: bool, readBreaks: bool, shutsFail: bool, lineReads: bool)
      ensures Valid()
      ensures sent == arrived == [] && taken == closes == 0 && !ended && shuts == []
      ensures this.writesFail == writesFail && this.readsFail == readsFail && this.readBreaks == readBreaks
      ensures this.shutsFail == shutsFail && this.lineReads == lineReads
    {
      sent, arrived, taken, ended, shuts, closes := [], [], 0, false, [], 0;
      readWait, atMark, writeWait := n => Ready, n => Some(false), n => Ready;
      this.writesFail, this.readsFail, this.readBreaks := writesFail, readsFail, readBreaks;
      this.shutsFail, this.lineReads := shutsFail, lineReads;
    }

    /** select for reading would answer this. */
    function ReadWait(): Wait
      reads `readWait, `taken
    {
      if readsFail then readWait(taken) else Ready
    }

    /** The next byte is out-of-band, or it cannot be known. */
    function AtMark(): Option<bool>
      reads `atMark, `taken
    {
      if readsFail then atMark(taken) else Some(false)
    }

    /** select for writing would answer this. */
    function WriteWait(): Wait
      reads `writeWait, `sent
    {
      if writesFail then writeWait(|sent|) else Ready
    }

    /** The sending side has been shut down. */
    predicate Finished()
      reads `shuts
    {
      ShutWrite in shuts || ShutReadWrite in shuts
    }

    ghost predicate Valid()
      reads this
    {
      taken <= |arrived|
    }

    /** Bytes in the kernel's receive queue. */
    ghost function Queue(): seq<char>
      requires Valid()
      reads this
    {
      arrived[taken..]
    }

    /** write(2): accepts 1..len bytes, or fails with -1 (Threw) and accepts none. */
    method Write(buf: array<char>, off: nat, len: nat) returns (r: Res<nat>)
      requires 0 < len && off + len <= buf.Length
      modifies this`sent
      ensures r.Returned? ==> 1 <= r.value <= len && sent == old(sent) + buf[off..off + r.value]
      ensures r.Threw? ==> sent == old(sent) && writesFail && r == Threw(Err)
    {
      var fail: bool := *;
      if writesFail && fail {
        return Threw(Err);
      }
      var k :| 1 <= k <= len;
      sent := sent + buf[off..off + k];
      return Returned(k);
    }

    /** read(2): hands out 1..len queued bytes; 0 only at end of stream; may fail with -1 (Threw). */
    method Read(buf: array<char>, len: nat) returns (r: Res<nat>)
      requires Valid() && 0 < len <= buf.Length
      modifies this`taken, buf
      ensures Valid()
      ensures r.Threw? ==> taken == old(taken) && buf[..] == old(buf[..])
      ensures r.Threw? ==> r == Threw(Err) && ((readsFail && readBreaks) || (Queue() == [] && !ended))
      ensures r.Returned? ==>
                r.value <= len && taken == old(taken) + r.value && buf[..r.value] == arrived[old(taken)..taken]
      ensures r == Returned(0) ==> ended && Queue() == []
      ensures r.Returned? && r.value > 0 && lineReads && old(CanReadLine(len)) ==> EndsCrlf(buf[..r.value])
    {
      var fail: bool := *;
      if readsFail && readBreaks && fail {
        return Threw(Err);
      }
      if taken == |arrived| {
        // a read that would block for ever is reported as a failure
        return if ended then Returned(0) else Threw(Err);
      }
      var k: nat := 1;
      if lineReads && exists j: nat :: j <= len && WholeLines(arrived[taken..], j) {
        k :| k <= len && WholeLines(arrived[taken..], k);
      } else {
        k :| 1 <= k <= len && taken + k <= |arrived|;
      }
      forall i | 0 <= i < k {
        buf[i] := arrived[taken + i];
      }
      assert buf[..k] == arrived[taken..][..k];
      taken := taken + k;
      return Returned(k);
    }

    ghost predicate CanReadLine(len: nat)
      requires Valid()
      reads this
    {
      exists j: nat :: j <= len && WholeLines(Queue(), j)
    }

    /** select(2): ready or timed out; -1 is a Threw. */
    method Select(wait: Wait) returns (r: Res<bool>)
      ensures r == if wait.Failed? then Threw(Err) else Returned(wait.Ready?)
    {
      return if wait.Failed? then Threw(Err) else Returned(wait.Ready?);
    }

    /** ioctl SIOCATMARK: is the next byte out-of-band? */
    method AskMark() returns (r: Res<bool>)
      ensures r == if AtMark() == None then Threw(Err) else Returned(AtMark().value)
    {
      return if AtMark() == None then Threw(Err) else Returned(AtMark().value);
    }

    /** The environment changes its mind. */
    method Answer(readWait: nat -> Wait, atMark: nat -> Option<bool>, writeWait: nat -> Wait)
      modifies `readWait, `atMark, `writeWait
      ensures this.readWait == readWait && this.atMark == atMark && this.writeWait == writeWait
    {
      this.readWait, this.atMark, this.writeWait := readWait, atMark, writeWait;
    }

    /** shutdown(2). */
    method Shutdown(how: ShutHow) returns (r: Res<()>)
      modifies this`shuts
      ensures shuts == old(shuts) + if r.Returned? then [how] else []
      ensures r.Threw? ==> shutsFail
    {
      var fail: bool := *;
      if shutsFail && fail {
        return Threw(Err);
      }
      shuts := shuts + [how];
      return Returned(());
    }

    method Close()
      modifies this`closes
      ensures closes == old(closes) + 1
    {
      closes := closes + 1;
    }

    /** The network brings more bytes from the peer. */
    method Arrive(more: seq<char>)
      requires Valid()
      modifies this`arrived
      ensures Valid() && arrived == old(arrived) + more
    {
      arrived := arrived + more;
    }
  }

  /** A local file, open for reading. */
  class File {
    const data: seq<char>
    const readsFail: bool   // read may fail
    var pos: nat

    constructor (data: seq<char>, readsFail: bool)
      ensures Valid() && this.data == data && this.readsFail == readsFail && pos == 0
    {
      this.data, this.readsFail, pos := data, readsFail, 0;
    }

    ghost predicate Valid()
      reads this
    {
      pos <= |data|
    }

    ghost function Taken(): (t: seq<char>)
      requires Valid()
      reads this
      ensures t <= data
    {
      data[..pos]
    }

    /** read(2): the next 1..n bytes, 0 at the end, or -1; the rest of buf stays. */
    method Read(buf: array<char>, n: nat) returns (k: int)
      requires Valid() && 0 < n <= buf.Length
      modifies this`pos, buf
      ensures Valid() && -1 <= k <= n
      ensures k > 0 ==> pos == old(pos) + k && Taken() == old(Taken()) + buf[..k]
      ensures k > 0 ==> buf[k..] == old(buf[k..])
      ensures k <= 0 ==> pos == old(pos) && buf[..] == old(buf[..])
      ensures k == 0 ==> Taken() == data
      ensures k < 0 ==> readsFail
    {
      var fail: bool := *;
      if readsFail && fail {
        return -1;
      }
      if pos == |data| {
        return 0;
      }
      k :| 1 <= k <= n && pos + k <= |data|;
      forall i | 0 <= i < k {
        buf[i] := data[pos + i];
      }
      assert buf[..k] == data[pos..pos + k];
      pos := pos + k;
    }
  }
}
