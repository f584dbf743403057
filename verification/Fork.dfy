/** socket++/fork.cpp: the list of child processes, and the kernel's view of the same children. */
module Fork {
  // ---------------------------------------------------------------- the kernel

  datatype Signal = SIGTERM | SIGKILL

  /** What the kernel was asked to do about the library's children, in order. */
  datatype Event = Forked(pid: int) | Killed(pid: int, sig: Signal) | Waited(pid: int)

  /** The children that were forked and not waited for since. */
  function Unreaped(log: seq<Event>): set<int> {
    if log == [] then {}
    else
      var before := Unreaped(log[..|log| - 1]);
      match log[|log| - 1]
      case Forked(pid) => before + {pid}
      case Killed(_, _) => before
      case Waited(pid) => before - {pid}
  }

  lemma UnreapedSnoc(log: seq<Event>, e: Event)
    ensures e.Forked? ==> Unreaped(log + [e]) == Unreaped(log) + {e.pid}
    ensures e.Killed? ==> Unreaped(log + [e]) == Unreaped(log)
    ensures e.Waited? ==> Unreaped(log + [e]) == Unreaped(log) - {e.pid}
  {
    assert (log + [e])[..|log|] == log;
  }

  datatype Disposition = Default | ReaperNohang | CommitSuicide

  lemma SomeMember(s: set<int>)
    requires s != {}
    ensures exists p :: p in s
  {
    if forall p :: p !in s {
      assert false;
    }
  }

  lemma Above(s: set<int>) returns (bound: int)
    ensures bound > 0 && forall p <- s :: p < bound
  {
    bound := 1;
    var rest := s;
    while rest != {}
      invariant bound > 0 && rest <= s && forall p <- s :: p in rest || p < bound
      decreases |rest|
    {
      SomeMember(rest);
      var p :| p in rest;
      bound, rest := if p < bound then bound else p + 1, rest - {p};
    }
  }

  lemma FreePid(taken: set<int>)
    ensures exists pid :: pid > 0 && pid !in taken
  {
    var bound := Above(taken);
    assert bound !in taken;
  }

  class Kernel {
    var log: seq<Event>
    var foreign: set<int>        // children this process forked without the library, not waited for yet
    var dead: set<int>           // children of either kind that have died and were not waited for yet
    var sigchld: Disposition
    var sigterm: Disposition
    const forksFail: bool        // fork may fail
    const entersChild: bool      // what is followed may be the child that a fork makes, from then on

    constructor (forksFail: bool, entersChild: bool)
      ensures Valid() && log == [] && dead == {} && sigchld == sigterm == Default
      ensures this.forksFail == forksFail && this.entersChild == entersChild
    {
      log, foreign, dead, sigchld, sigterm := [], {}, {}, Default, Default;
      this.forksFail, this.entersChild := forksFail, entersChild;
    }

    ghost predicate Valid()
      reads this
    {
      && foreign !! Unreaped(log) && (forall p <- Unreaped(log) :: p > 0) && (forall p <- foreign :: p > 0)
      && dead <= Unreaped(log) + foreign
    }

    /** fork(2): -1; or the child's pid, in the parent; or 0, in the child, which has no children. */
    method ForkProcess() returns (pid: int)
      requires Valid()
      modifies `log, `foreign, `dead
      ensures Valid()
      ensures pid > 0 ==> pid !in old(Unreaped(log)) && log == old(log) + [Forked(pid)]
      ensures pid == 0 ==> entersChild && log == [] && foreign == dead == {}
      ensures pid < 0 ==> forksFail && log == old(log)
      ensures pid != 0 ==> foreign == old(foreign) && dead == old(dead)
    {
      var fail, child: bool := *, *;
      if forksFail && fail {
        return -1;
      }
      if entersChild && child {
        log, foreign, dead := [], {}, {};
        return 0;
      }
      FreePid(foreign + Unreaped(log));
      pid :| pid > 0 && pid !in foreign + Unreaped(log);
      UnreapedSnoc(log, Forked(pid));
      log := log + [Forked(pid)];
    }

    method Kill(pid: int, sig: Signal)
      requires Valid()
      modifies `log
      ensures Valid() && log == old(log) + [Killed(pid, sig)]
    {
      UnreapedSnoc(log, Killed(pid, sig));
      log := log + [Killed(pid, sig)];
    }

    /** A child dies. */
    method Die(pid: int)
      requires Valid() && pid in Unreaped(log) + foreign
      modifies `dead
      ensures Valid() && dead == old(dead) + {pid}
    {
      dead := dead + {pid};
    }

    /** waitpid(2) for one child of the library: blocks until it has died. */
    method WaitPid(pid: int)
      requires Valid() && pid in Unreaped(log)
      modifies `log, `dead
      ensures Valid() && log == old(log) + [Waited(pid)] && dead == old(dead) - {pid}
    {
      UnreapedSnoc(log, Waited(pid));
      log, dead := log + [Waited(pid)], dead - {pid};
    }

    /** waitpid(2) for any child, without blocking: one that has died, whoever forked it; 0 or -1 if none has. */
    method WaitAny() returns (pid: int)
      requires Valid()
      modifies `log, `foreign, `dead
      ensures Valid() && dead == old(dead) - {pid}
      ensures old(dead) != {} ==> pid in old(dead) && pid > 0
      ensures old(dead) == {} ==> pid <= 0
      ensures pid in old(Unreaped(log)) ==> log == old(log) + [Waited(pid)] && foreign == old(foreign)
      ensures pid !in old(Unreaped(log)) ==> log == old(log) && foreign == old(foreign) - {pid}
    {
      if dead == {} {
        var children: bool := *;
        return if children then 0 else -1;
      }
      SomeMember(dead);
      pid :| pid in dead;
      if pid in Unreaped(log) {
        UnreapedSnoc(log, Waited(pid));
        log := log + [Waited(pid)];
      } else {
        foreign := foreign - {pid};
      }
      dead := dead - {pid};
    }
  }

  // ---------------------------------------------------------------- the list

  const SIGCHLD := 17

  class ForkProcess {
    var pid: int
    const killChild: bool
    var next: ForkProcess?
    var freed: bool          // set by delete; nothing may be read after it

    constructor (kill: bool)
      ensures killChild == kill && next == null && !freed
    {
      killChild, next, freed := kill, null, false;
    }
  }

  datatype Child = Child(pid: int, kill: bool)

  ghost function PidsOf(children: seq<Child>): set<int> {
    set c <- children :: c.pid
  }

  ghost function At(nodes: seq<ForkProcess>, i: nat): ForkProcess? {
    if i < |nodes| then nodes[i] else null
  }

  function Without<T>(s: seq<T>, i: nat): (t: seq<T>)
    requires i < |s|
    ensures |t| == |s| - 1
  {
    s[..i] + s[i + 1..]
  }

  /** Where item j was before item i was taken out. */
  function Shift(i: nat, j: nat): nat {
    if j < i then j else j + 1
  }

  lemma WithoutAt<T>(s: seq<T>, i: nat, j: nat)
    requires i < |s| && j < |s| - 1
    ensures Without(s, i)[j] == s[Shift(i, j)]
  {
  }

  /** Distinct nodes, none freed, holding children. */
  ghost predicate Holds(nodes: seq<ForkProcess>, children: seq<Child>)
    reads nodes`freed, nodes`pid
  {
    && |nodes| == |children|
    && (forall i, j :: 0 <= i < j < |nodes| ==> nodes[i] != nodes[j])
    && forall i :: 0 <= i < |nodes| ==>
         !nodes[i].freed && nodes[i].pid == children[i].pid && nodes[i].killChild == children[i].kill
  }

  /** From first on, every link leads to the next node; but nodes[skip], if there is one, is passed over. */
  ghost predicate Linked(first: ForkProcess?, nodes: seq<ForkProcess>, skip: int)
    reads nodes`next
  {
    && first == At(nodes, if skip == 0 then 1 else 0)
    && forall i :: 0 <= i < |nodes| && i != skip ==>
         nodes[i].next == At(nodes, if i + 1 == skip then skip + 1 else i + 1)
  }

  lemma HoldsPush(p: ForkProcess, nodes: seq<ForkProcess>, children: seq<Child>)
    requires Holds(nodes, children) && p !in nodes && !p.freed
    ensures Holds([p] + nodes, [Child(p.pid, p.killChild)] + children)
  {
  }

  lemma LinkedPush(p: ForkProcess, nodes: seq<ForkProcess>)
    requires Linked(p.next, nodes, -1)
    ensures Linked(p, [p] + nodes, -1)
  {
    var all := [p] + nodes;
    forall i | 0 <= i < |all| ensures all[i].next == At(all, i + 1) {
      assert i > 0 ==> all[i] == nodes[i - 1];
    }
  }

  lemma HoldsWithout(nodes: seq<ForkProcess>, children: seq<Child>, i: nat)
    requires Holds(nodes, children) && i < |nodes|
    ensures Holds(Without(nodes, i), Without(children, i))
  {
    forall j | 0 <= j < |nodes| - 1
      ensures Without(nodes, i)[j] == nodes[Shift(i, j)] && Without(children, i)[j] == children[Shift(i, j)]
    {
      WithoutAt(nodes, i, j);
      WithoutAt(children, i, j);
    }
    hide Without;
  }

  /** A node that is passed over can be forgotten. */
  lemma LinkedWithout(first: ForkProcess?, nodes: seq<ForkProcess>, i: nat)
    requires i < |nodes| && Linked(first, nodes, i)
    ensures Linked(first, Without(nodes, i), -1)
  {
    forall j | 0 <= j < |nodes| - 1 ensures Without(nodes, i)[j] == nodes[Shift(i, j)] {
      WithoutAt(nodes, i, j);
    }
    hide Without;
  }

  lemma NotWithout(nodes: seq<ForkProcess>, i: nat)
    requires i < |nodes| && forall j, k :: 0 <= j < k < |nodes| ==> nodes[j] != nodes[k]
    ensures nodes[i] !in Without(nodes, i)
  {
  }

  /** The listed children are, each once, those that the kernel holds for the library. */
  ghost predicate Agrees(children: seq<Child>, log: seq<Event>) {
    && PidsOf(children) == Unreaped(log)
    && forall i, j :: 0 <= i < j < |children| ==> children[i].pid != children[j].pid
  }

  lemma PidsWithout(children: seq<Child>, i: nat)
    requires i < |children| && forall j, k :: 0 <= j < k < |children| ==> children[j].pid != children[k].pid
    ensures PidsOf(Without(children, i)) == PidsOf(children) - {children[i].pid}
  {
    var rest := Without(children, i);
    forall p | p in PidsOf(children) - {children[i].pid} ensures p in PidsOf(rest) {
      var k :| 0 <= k < |children| && children[k].pid == p;
      assert rest[if k < i then k else k - 1] == children[k];
    }
    forall p | p in PidsOf(rest) ensures p in PidsOf(children) - {children[i].pid} {
      var k :| 0 <= k < |rest| && rest[k].pid == p;
      WithoutAt(children, i, k);
    }
  }

  /** A child that is waited for, and leaves the list. */
  lemma AgreesWaited(children: seq<Child>, log: seq<Event>, i: nat)
    requires i < |children| && Agrees(children, log)
    ensures Agrees(Without(children, i), log + [Waited(children[i].pid)])
  {
    PidsWithout(children, i);
    UnreapedSnoc(log, Waited(children[i].pid));
  }

  lemma AgreesKilled(children: seq<Child>, log: seq<Event>, pid: int, sig: Signal)
    requires Agrees(children, log)
    ensures Agrees(children, log + [Killed(pid, sig)])
  {
    UnreapedSnoc(log, Killed(pid, sig));
  }

  lemma NotListed(children: seq<Child>, log: seq<Event>, pid: int)
    requires Agrees(children, log) && forall i :: 0 <= i < |children| ==> children[i].pid != pid
    ensures pid !in Unreaped(log)
  {
    assert pid !in PidsOf(children);
  }

  lemma Listed(children: seq<Child>, log: seq<Event>, i: nat)
    requires i < |children| && Agrees(children, log)
    ensures children[i].pid in Unreaped(log)
  {
    assert children[i].pid in PidsOf(children);
  }

  /** What becomes of a child whose node is deleted. */
  function Ending(c: Child): seq<Event> {
    (if c.kill then [Killed(c.pid, SIGTERM)] else []) + [Waited(c.pid)]
  }

  lemma AgreesForked(children: seq<Child>, log: seq<Event>, c: Child)
    requires Agrees(children, log) && c.pid !in Unreaped(log)
    ensures Agrees([c] + children, log + [Forked(c.pid)])
  {
    UnreapedSnoc(log, Forked(c.pid));
    assert PidsOf([c] + children) == {c.pid} + PidsOf(children);
    forall i | 0 <= i < |children| ensures children[i].pid != c.pid {
      Listed(children, log, i);
    }
  }

  /** One signal and one wait for a child: SIGTERM if it was to be killed with its parent, else SIGKILL. */
  function Suicide(c: Child): seq<Event> {
    [Killed(c.pid, if c.kill then SIGTERM else SIGKILL), Waited(c.pid)]
  }

  function Endings(children: seq<Child>): seq<Event> {
    if children == [] then [] else Endings(children[..|children| - 1]) + Suicide(children[|children| - 1])
  }

  lemma EndingsFrom(children: seq<Child>)
    ensures Endings(children[..0]) == [] && children[0..] == children && children[..|children|] == children
  {
  }

  lemma EndingsNext(children: seq<Child>, k: nat)
    requires k < |children|
    ensures Endings(children[..k + 1]) == Endings(children[..k]) + Suicide(children[k])
    ensures children[k..][0] == children[k] && children[k..][1..] == children[k + 1..]
  {
    assert children[..k + 1][..k] == children[..k];
  }

  // ---------------------------------------------------------------- runs

  datatype ForkStep = NewFork(kill: bool) | Delete(i: nat) | Dies(pid: int) | SigChld

  /** What is listed; what the kernel was asked to do; the children that are not the library's, and those of
      either kind that have died and were not waited for. */
  datatype Moment = Moment(children: seq<Child>, log: seq<Event>, foreign: set<int>, dead: set<int>)

  /** Child i is not listed any more, and was waited for at the end of these events. */
  ghost predicate Lost(a: Moment, i: nat, events: seq<Event>, b: Moment)
    requires i < |a.children|
  {
    b == Moment(Without(a.children, i), a.log + events, a.foreign, a.dead - {a.children[i].pid})
  }

  /** A dead child, if there is one, was waited for; it is not listed any more if it was. */
  ghost predicate Reaped(a: Moment, pid: int, b: Moment) {
    if pid in PidsOf(a.children) then
      exists i: nat :: i < |a.children| && a.children[i].pid == pid && Lost(a, i, [Waited(pid)], b)
    else b == a.(foreign := a.foreign - {pid}, dead := a.dead - {pid})
  }

  /** What a step does: fork makes a new child the first, or returns in the child or fails if it may; a deletion
      ends the child; a SIGCHLD makes the library wait for one dead child, whichever the kernel names, if there is
      any. */
  ghost predicate Stepped(a: Moment, step: ForkStep, b: Moment, os: Kernel) {
    match step
    case NewFork(kill) =>
      || (b == a && os.forksFail)
      || (b == Moment([], [], {}, {}) && os.entersChild)
      || (b.children != []
          && b == a.(children := [Child(b.children[0].pid, kill)] + a.children,
                     log := a.log + [Forked(b.children[0].pid)]))
    case Delete(i) => if i < |a.children| then Lost(a, i, Ending(a.children[i]), b) else b == a
    case Dies(pid) => b == if pid in Unreaped(a.log) + a.foreign then a.(dead := a.dead + {pid}) else a
    case SigChld => if a.dead == {} then b == a else exists pid <- a.dead :: Reaped(a, pid, b)
  }

  /** No dead child is listed. */
  ghost predicate NoneDeadListed(a: Moment) {
    a.dead * PidsOf(a.children) == {}
  }

  /** A SIGCHLD for which the kernel names pid. */
  lemma ReapOne(a: Moment, pid: int) returns (b: Moment)
    requires Agrees(a.children, a.log) && pid in a.dead
    ensures Reaped(a, pid, b) && b.dead == a.dead - {pid}
    ensures b.dead * PidsOf(b.children) == a.dead * PidsOf(a.children) - {pid}
  {
    if pid in PidsOf(a.children) {
      var i :| 0 <= i < |a.children| && a.children[i].pid == pid;
      PidsWithout(a.children, i);
      b := Moment(Without(a.children, i), a.log + [Waited(pid)], a.foreign, a.dead - {pid});
      assert Lost(a, i, [Waited(pid)], b);
    } else {
      b := a.(foreign := a.foreign - {pid}, dead := a.dead - {pid});
    }
  }

  lemma ReapedLeaves(a: Moment, pid: int, b: Moment)
    requires Agrees(a.children, a.log) && Reaped(a, pid, b)
    ensures b.dead * PidsOf(b.children) == a.dead * PidsOf(a.children) - {pid}
  {
    if pid in PidsOf(a.children) {
      var i: nat :| i < |a.children| && a.children[i].pid == pid && Lost(a, i, [Waited(pid)], b);
      PidsWithout(a.children, i);
    }
  }

  lemma TwoMembers(s: set<int>, p: int) returns (w: int)
    requires p in s && |s| > 1
    ensures w in s && w != p
  {
    assert |s - {p}| == |s| - 1;
    SomeMember(s - {p});
    w :| w in s - {p};
  }

  lemma OnlyMember(s: set<int>, p: int)
    requires p in s && |s| <= 1
    ensures s == {p}
  {
    assert |s - {p}| == |s| - 1;
    assert s == s - {p} + {p};
  }

  /** After a SIGCHLD no dead child is listed, whichever child the kernel names, if and only if no listed child had
      died, or only one child had died at all. */
  lemma OneWaitIsEnough(a: Moment, os: Kernel)
    requires Agrees(a.children, a.log)
    ensures (forall b :: Stepped(a, SigChld, b, os) ==> NoneDeadListed(b))
       <==> NoneDeadListed(a) || |a.dead| == 1
  {
    hide PidsOf, Agrees, Reaped, Lost;
    if NoneDeadListed(a) || |a.dead| == 1 {
      forall b | Stepped(a, SigChld, b, os) ensures NoneDeadListed(b) {
        if a.dead != {} {
          var pid :| pid in a.dead && Reaped(a, pid, b);
          ReapedLeaves(a, pid, b);
          if |a.dead| == 1 {
            OnlyMember(a.dead, pid);
          }
        }
      }
    } else {
      SomeMember(a.dead * PidsOf(a.children));
      var p :| p in a.dead * PidsOf(a.children);
      assert a.dead != {};
      OneOrMore(a.dead, p);
      var w := TwoMembers(a.dead, p);
      var b := ReapOne(a, w);
      assert p in b.dead * PidsOf(b.children);
      assert Stepped(a, SigChld, b, os);
    }
  }

  lemma OneOrMore(s: set<int>, p: int)
    requires p in s
    ensures |s| >= 1
  {
    assert |s - {p}| == |s| - 1;
  }

  /** Two listed children have died before the handler runs: whichever it waits for, the other stays listed. */
  lemma OneStaysListed(a: Moment, b: Moment, os: Kernel)
    requires a.children == [Child(5, true), Child(7, true)] && a.dead == {5, 7}
    requires Stepped(a, SigChld, b, os)
    ensures |b.children| == 1 && b.dead == {b.children[0].pid}
  {
    var pid :| pid in a.dead && Reaped(a, pid, b);
    assert a.children[0].pid == 5 && a.children[1].pid == 7;
    assert pid in PidsOf(a.children) by {
      assert a.children[0] in a.children && a.children[1] in a.children;
    }
  }

  /** The class's static members. The nodes are the list's, in order; children is what they hold. */
  class ForkList {
    const os: Kernel
    var list: ForkProcess?
    ghost var nodes: seq<ForkProcess>
    ghost var children: seq<Child>

    ghost predicate Chain()
      reads this, nodes
    {
      Holds(nodes, children) && Linked(list, nodes, -1)
    }

    /** The list is well formed and agrees with the kernel. */
    ghost predicate Valid()
      reads this, nodes, os
    {
      && Chain() && os.Valid()
      && Agrees(children, os.log)
      && (nodes != [] ==> os.sigchld == Disposition.ReaperNohang)
    }

    constructor (os: Kernel)
      requires os.Valid() && os.log == []
      ensures Valid() && this.os == os && list == null
    {
      this.os, list, nodes, children := os, null, [], [];
    }

    /** The links pass over p, which can be the first node or any other. */
    method Relink(p: ForkProcess, ghost i: nat)
      requires Chain() && i < |nodes| && nodes[i] == p
      modifies this`list, nodes`next
      ensures Holds(nodes, children) && Linked(list, nodes, i)
    {
      if list == p {
        assert nodes[0] == p && i == 0;
        list := list.next;
      } else {
        var q := list;
        ghost var k := 0;
        while q != null
          invariant Chain() && k < i && q == nodes[k]
          decreases i - k
        {
          if q.next == p {
            assert nodes[k + 1] == p && nodes[i] == p && k + 1 == i;
            q.next := p.next;
            assert Linked(list, nodes, i);
            break;
          }
          q, k := q.next, k + 1;
        }
      }
    }

    /** delete p: a node with a pid is in the list, at i, and ~ForkProcess ends its child and unlinks it; any other is
        only released. */
    method Delete(p: ForkProcess, ghost i: nat)
      requires p.pid > 0 ==> Valid() && i < |nodes| && nodes[i] == p
      modifies p`freed, (if p.pid > 0 then {this} else {})`list
      modifies (if p.pid > 0 then {this} else {})`nodes, (if p.pid > 0 then {this} else {})`children
      modifies (if p.pid > 0 then nodes else [])`next, (if p.pid > 0 then {os} else {})`log
      modifies (if p.pid > 0 then {os} else {})`dead
      ensures p.freed
      ensures p.pid > 0 ==>
                && Valid() && nodes == Without(old(nodes), i) && children == Without(old(children), i)
                && os.log == old(os.log) + Ending(old(children[i])) && os.dead == old(os.dead) - {old(children[i]).pid}
    {
      hide Agrees, Ending, Without, Holds, Linked;
      if p.pid > 0 {
        Node(p, i);
        End(p, i);
        Relink(p, i);
        Forget(p, i);
      }
      p.freed := true;
    }

    /** delete p, for a node of the list. */
    method Destroy(p: ForkProcess, ghost i: nat)
      requires Valid() && i < |nodes| && nodes[i] == p
      modifies this`list, this`nodes, this`children, nodes, os`log, os`dead
      ensures Valid() && p.freed
      ensures nodes == Without(old(nodes), i) && children == Without(old(children), i)
      ensures os.log == old(os.log) + Ending(old(children[i])) && os.dead == old(os.dead) - {old(children[i]).pid}
    {
      hide Agrees, Ending, Without, Holds, Linked;
      Node(p, i);
      Delete(p, i);
    }

    lemma Node(p: ForkProcess, i: nat)
      requires Valid() && i < |nodes| && nodes[i] == p
      ensures i < |children| && p.pid == children[i].pid > 0 && p.killChild == children[i].kill
      ensures |Without(nodes, i)| > 0 ==> |nodes| > 0
    {
      Listed(children, os.log, i);
    }

    /** The destructor's dealings with the child itself: SIGTERM if asked for, and reap_child. */
    method End(p: ForkProcess, ghost i: nat)
      requires os.Valid() && Agrees(children, os.log)
      requires i < |children| && p.pid == children[i].pid && p.killChild == children[i].kill
      modifies os`log, os`dead
      ensures os.Valid() && Agrees(Without(children, i), os.log)
      ensures os.log == old(os.log) + Ending(children[i]) && os.dead == old(os.dead) - {children[i].pid}
    {
      hide Agrees, Unreaped;
      if p.killChild {
        AgreesKilled(children, os.log, p.pid, SIGTERM);
        os.Kill(p.pid, SIGTERM);
      }
      Listed(children, os.log, i);
      AgreesWaited(children, os.log, i);
      os.WaitPid(p.pid);
    }

    ghost method Forget(p: ForkProcess, i: nat)
      requires i < |nodes| && nodes[i] == p && Holds(nodes, children) && Linked(list, nodes, i)
      modifies `nodes, `children
      ensures Chain() && p !in nodes
      ensures nodes == Without(old(nodes), i) && children == Without(old(children), i)
    {
      HoldsWithout(nodes, children, i);
      LinkedWithout(list, nodes, i);
      NotWithout(nodes, i);
      nodes, children := Without(nodes, i), Without(children, i);
    }

    /** The listed children that have died. */
    ghost function DeadListed(): set<int>
      reads this, os
    {
      os.dead * PidsOf(children)
    }

    /** reaper_nohang: if any child has died, one is waited for, and leaves the list if it is in it. That child
        is wpid, and its node was the k-th. */
    method ReaperNohang(signo: int) returns (wpid: int, ghost k: int)
      requires Valid()
      modifies this`list, this`nodes, this`children, nodes, os`log, os`foreign, os`dead
      ensures Valid() && -1 <= k < |old(nodes)| == |old(children)|
      ensures k >= 0 ==> nodes == Without(old(nodes), k) && children == Without(old(children), k)
      ensures k >= 0 ==> wpid == old(children[k]).pid && os.log == old(os.log) + [Waited(wpid)]
      ensures k < 0 ==> nodes == old(nodes) && children == old(children) && os.log == old(os.log)
      ensures signo == SIGCHLD && old(os.dead) != {} ==> wpid in old(os.dead)
      ensures signo != SIGCHLD || old(os.dead) == {} ==> wpid <= 0 && k < 0
      ensures os.dead == old(os.dead) - {wpid} && os.foreign == old(os.foreign) - {wpid}
      ensures k >= 0 <==> wpid in old(PidsOf(children))
      ensures k >= 0 ==> os.foreign == old(os.foreign)
      // no dead child is listed any more if and only if none was but this one
      ensures DeadListed() == old(DeadListed()) - {wpid}
    {
      hide Agrees, PidsOf, Unreaped, Holds, Linked, Without;
      ghost var log, foreign := os.log, os.foreign;
      ListedPids();
      k, wpid := -1, 0;
      if signo != SIGCHLD {
        return;
      }
      wpid := os.WaitAny();
      if wpid > 0 {
        k := Remove(wpid);
        if k >= 0 {
          PidAt(old(children), k);
          AgreesWaited(old(children), log, k);
          PidsAfter(old(children), log, k);
        } else {
          NotListed(children, log, wpid);
          PidsAre(children, log);
        }
      }
    }

    lemma ListedPids()
      requires Valid()
      ensures |nodes| == |children| && PidsOf(children) == Unreaped(os.log) && PidsOf(children) !! os.foreign
      ensures forall p <- PidsOf(children) + os.foreign :: p > 0
    {
    }

    static lemma PidAt(children: seq<Child>, k: nat)
      requires k < |children|
      ensures children[k].pid in PidsOf(children)
    {
      assert children[k] in children;
    }

    static lemma PidsAre(children: seq<Child>, log: seq<Event>)
      requires Agrees(children, log)
      ensures PidsOf(children) == Unreaped(log)
    {
    }

    static lemma PidsAfter(children: seq<Child>, log: seq<Event>, k: nat)
      requires k < |children| && Agrees(children, log)
      ensures PidsOf(Without(children, k)) == PidsOf(children) - {children[k].pid}
    {
      PidsWithout(children, k);
    }

    /** reaper_nohang's loop: the node of the child that died, which is nodes[k], leaves the list. */
    method Remove(wpid: int) returns (ghost k: int)
      requires Chain()
      modifies this`list, this`nodes, this`children, nodes
      ensures Chain() && -1 <= k < |old(nodes)|
      ensures k >= 0 ==> old(children[k]).pid == wpid
      ensures k >= 0 ==> nodes == Without(old(nodes), k) && children == Without(old(children), k)
      ensures k < 0 ==> nodes == old(nodes) && children == old(children)
      ensures k < 0 ==> forall i :: 0 <= i < |children| ==> children[i].pid != wpid
    {
      var prev: ForkProcess?, cur := null, list;
      k := 0;
      while cur != null
        invariant Chain() && nodes == old(nodes) && children == old(children)
        invariant 0 <= k <= |nodes| && cur == At(nodes, k) && prev == if k == 0 then null else nodes[k - 1]
        invariant forall i :: 0 <= i < k ==> children[i].pid != wpid
        decreases |nodes| - k
      {
        if cur.pid == wpid {
          Extract(prev, cur, k);
          return;
        }
        prev, cur, k := cur, cur.next, k + 1;
      }
      k := -1;
    }

    /** The links pass over cur. */
    method Unlink(prev: ForkProcess?, cur: ForkProcess, ghost k: nat)
      requires Chain() && k < |nodes| && nodes[k] == cur && prev == if k == 0 then null else nodes[k - 1]
      modifies this`list, nodes`next
      ensures Holds(nodes, children) && Linked(list, nodes, k)
    {
      hide Chain, Holds;
      LinksAll();
      if prev != null {
        prev.next := cur.next;
      } else {
        list := list.next;
      }
    }

    /** The body of reaper_nohang's loop for the node of the child that died. */
    method Extract(prev: ForkProcess?, cur: ForkProcess, ghost k: nat)
      requires Chain() && k < |nodes| && nodes[k] == cur && prev == if k == 0 then null else nodes[k - 1]
      modifies this`list, this`nodes, this`children, nodes
      ensures Chain() && cur.freed && cur.pid == -1
      ensures nodes == Without(old(nodes), k) && children == Without(old(children), k)
    {
      hide Holds, Linked, Without;
      Unlink(prev, cur, k);
      Forget(cur, k);
      cur.pid := -1;
      Delete(cur, 0);
    }

    /** new ForkProcess (kill, _): in the parent the new child heads the list; in the child the list is
        emptied and nobody is signalled or waited for; when fork fails nothing is listed. */
    method Construct(kill: bool) returns (p: ForkProcess)
      requires Valid()
      modifies this`list, this`nodes, this`children, nodes, os
      ensures Valid() && p.killChild == kill && fresh(p)
      ensures p.pid > 0 ==>
                && nodes == [p] + old(nodes) && children == [Child(p.pid, kill)] + old(children)
                && os.log == old(os.log) + [Forked(p.pid)]
      ensures p.pid == 0 ==> os.entersChild && nodes == [] && os.log == [] && os.foreign == os.dead == {}
      ensures p.pid != 0 ==> os.foreign == old(os.foreign) && os.dead == old(os.dead)
      ensures p.pid == 0 ==> forall q <- old(nodes) :: q.freed && q.pid == 0
      ensures p.pid < 0 ==> os.forksFail && nodes == old(nodes) && children == old(children) && os.log == old(os.log)
      ensures os.sigchld == if old(list) == null then Disposition.ReaperNohang else old(os.sigchld)
      ensures os.sigterm == if p.pid == 0 && kill then CommitSuicide else old(os.sigterm)
    {
      hide Agrees, Chain, Unreaped, PidsOf;
      Parts();
      p := new ForkProcess(kill);
      if list == null {
        os.sigchld := Disposition.ReaperNohang;
      }
      ghost var log := os.log;
      p.pid := os.ForkProcess();
      if p.pid > 0 {
        AgreesForked(children, log, Child(p.pid, kill));
        PushFront(p);
      } else if p.pid == 0 {
        BecomeChild(p);
      }
    }

    /** The constructor's part in the child process. */
    method BecomeChild(p: ForkProcess)
      requires Chain() && os.Valid() && os.log == []
      modifies this`list, this`nodes, this`children, nodes, os`sigterm
      ensures Valid() && nodes == [] && os.sigterm == if p.killChild then CommitSuicide else old(os.sigterm)
      ensures forall q <- old(nodes) :: q.freed && q.pid == 0
    {
      Abandon();
      NoChildren();
      if p.killChild {
        os.sigterm := CommitSuicide;
      }
    }

    lemma NoChildren()
      ensures Agrees([], [])
    {
    }

    lemma Parts()
      requires Valid()
      ensures Chain() && (list == null <==> nodes == [])
    {
    }

    /** The new node becomes the first one. */
    method PushFront(p: ForkProcess)
      requires Chain() && p !in nodes && !p.freed
      requires os.Valid() && Agrees([Child(p.pid, p.killChild)] + children, os.log)
      requires os.sigchld == Disposition.ReaperNohang
      modifies this`list, this`nodes, this`children, p`next
      ensures Valid() && nodes == [p] + old(nodes) && children == [Child(p.pid, p.killChild)] + old(children)
    {
      hide Holds, Linked, Agrees;
      p.next := list;
      HoldsPush(p, nodes, children);
      LinkedPush(p, nodes);
      list := p;
      nodes, children := [p] + nodes, [Child(p.pid, p.killChild)] + children;
    }

    /** The child's copy of its parent's list is deleted, node by node, with pid 0. */
    method Abandon()
      requires Chain()
      modifies this`list, this`nodes, this`children, nodes
      ensures Chain() && nodes == [] && children == []
      ensures forall q <- old(nodes) :: q.freed && q.pid == 0
    {
      hide Chain, Holds, Linked, Dropped;
      LinksAll();
      var p := list;
      ghost var k := 0;
      NoneDropped();
      while p != null
        invariant k <= |nodes| && nodes == old(nodes) && p == At(nodes, k) && Dropped(k)
        invariant forall i :: 0 <= i < |nodes| ==> nodes[i].next == At(nodes, i + 1)
        decreases |nodes| - k
      {
        var nxt := p.next;
        DropCopy(p, k);
        p, k := nxt, k + 1;
      }
      AllDropped(k);
      list, nodes, children := null, [], [];
      NoLinks();
    }

    /** The first k nodes have been deleted with pid 0, and no others. */
    ghost predicate Dropped(k: nat)
      reads this`nodes, nodes`freed, nodes`pid
    {
      && (forall i :: 0 <= i < k && i < |nodes| ==> nodes[i].freed && nodes[i].pid == 0)
      && (forall i :: k <= i < |nodes| ==> !nodes[i].freed)
      && forall i, j :: 0 <= i < j < |nodes| ==> nodes[i] != nodes[j]
    }

    lemma NoneDropped()
      requires Chain()
      ensures Dropped(0)
    {
    }

    lemma AllDropped(k: nat)
      requires Dropped(k) && k >= |nodes|
      ensures forall q <- nodes :: q.freed && q.pid == 0
    {
    }

    /** The next node's pid becomes 0, and it is deleted. */
    method DropCopy(p: ForkProcess, ghost k: nat)
      requires k < |nodes| && nodes[k] == p && Dropped(k)
      modifies p`pid, p`freed
      ensures Dropped(k + 1)
    {
      p.pid := 0;
      Delete(p, 0);
    }

    lemma LinksAll()
      requires Chain()
      ensures Holds(nodes, children) && list == At(nodes, 0)
      ensures forall i, j :: 0 <= i < j < |nodes| ==> nodes[i] != nodes[j]
      ensures forall i :: 0 <= i < |nodes| ==> !nodes[i].freed && nodes[i].next == At(nodes, i + 1)
    {
    }

    lemma NoLinks()
      requires list == null && nodes == [] && children == []
      ensures Chain()
    {
    }

    /** commit_suicide, up to exit: every child is signalled once and then waited for, in list order. */
    method CommitSuicideHandler()
      requires Valid()
      modifies this`list, this`nodes, this`children, nodes, os`log, os`dead
      ensures Valid() && nodes == [] && list == null
      ensures os.log == old(os.log) + Endings(old(children))
    {
      hide *;
      ghost var all, k := children, 0;
      EndingsFrom(all);
      Ends();
      var p := list;
      while p != null
        invariant Valid() && p == list && k <= |all| && children == all[k..] && (p == null <==> nodes == [])
        invariant forall i :: 0 <= i < |nodes| ==> nodes[i] in old(nodes)
        invariant os.log == old(os.log) + Endings(all[..k])
        decreases |all| - k
      {
        Ends();
        ghost var e := Suicide(children[0]);
        p := KillFirst(p);
        EndingsNext(all, k);
        assert old(os.log) + Endings(all[..k]) + e == old(os.log) + (Endings(all[..k]) + e);
        k := k + 1;
        Ends();
      }
      Ends();
      assert k == |all| && all[..k] == all;
    }

    lemma Ends()
      requires Valid()
      ensures (list == null <==> nodes == []) && |nodes| == |children|
    {
    }

    /** One turn of commit_suicide's loop, for the node that is the list's first by then. */
    method KillFirst(p: ForkProcess) returns (next: ForkProcess?)
      requires Valid() && list == p
      modifies this`list, this`nodes, this`children, nodes, os`log, os`dead
      ensures Valid() && next == list && old(children) != [] && children == old(children[1..])
      ensures |nodes| < |old(nodes)| && forall i :: 0 <= i < |nodes| ==> nodes[i] in old(nodes)
      ensures os.log == old(os.log) + Suicide(old(children)[0])
    {
      hide Agrees, Holds, Linked, Without, PidsOf, Unreaped;
      Head(p);
      Node(p, 0);
      next := p.next;
      if !p.killChild {
        AgreesKilled(children, os.log, p.pid, SIGKILL);
        os.Kill(p.pid, SIGKILL);
      }
      Destroy(p, 0);
      First();
    }

    lemma First()
      requires Chain()
      ensures list == At(nodes, 0) && |nodes| == |children|
    {
    }

    lemma Head(p: ForkProcess)
      requires Chain() && list == p
      ensures nodes != [] && children != [] && nodes[0] == p && p.next == At(nodes[1..], 0)
      ensures Without(nodes, 0) == nodes[1..] && Without(children, 0) == children[1..]
    {
    }

    // -------------------------------------------------------------- whole runs

    /** The i-th node of the list. */
    method NodeAt(i: nat) returns (p: ForkProcess?)
      requires Chain()
      ensures p == At(nodes, i)
    {
      p := list;
      var k := 0;
      while p != null && k < i
        invariant k <= i && k <= |nodes| && p == At(nodes, k)
        decreases |nodes| - k
      {
        p, k := p.next, k + 1;
      }
    }

    ghost function Now(): Moment
      reads this, os
    {
      Moment(children, os.log, os.foreign, os.dead)
    }

    method Step(step: ForkStep)
      requires Valid()
      modifies this`list, this`nodes, this`children, nodes, os
      ensures Valid() && Stepped(old(Now()), step, Now(), os)
      ensures forall i :: 0 <= i < |nodes| ==> nodes[i] in old(nodes) || fresh(nodes[i])
    {
      hide Holds, Linked, Agrees, Unreaped, Reaped;
      Ends();
      match step {
        case NewFork(kill) =>
          var p := Construct(kill);
          Ends();
        case Delete(i) =>
          var p := NodeAt(i);
          if p != null {
            Destroy(p, i);
          }
        case Dies(pid) =>
          Death(pid);
        case SigChld =>
          HandleSigChld();
      }
    }

    /** A child dies, if there is one with this pid. */
    method Death(pid: int)
      requires Valid()
      modifies os`dead
      ensures Valid() && Stepped(old(Now()), Dies(pid), Now(), os)
    {
      hide Holds, Linked, Agrees, Unreaped;
      if pid in Unreaped(os.log) + os.foreign {
        os.Die(pid);
      }
    }

    method HandleSigChld()
      requires Valid()
      modifies this`list, this`nodes, this`children, nodes, os`log, os`foreign, os`dead
      ensures Valid() && Stepped(old(Now()), SigChld, Now(), os)
      ensures forall i :: 0 <= i < |nodes| ==> nodes[i] in old(nodes)
    {
      hide Holds, Linked, Agrees, Unreaped, PidsOf;
      ghost var before := Now();
      var pid, k := ReaperNohang(SIGCHLD);
      assert k >= 0 ==> Lost(before, k, [Waited(pid)], Now());
      assert before.dead != {} ==> Reaped(before, pid, Now());
    }

    /** Any sequence of forks, deletions, deaths and SIGCHLDs, whatever fork and waitpid return. At every moment of
        the run, which leads through trace, the next step has exactly its effect; and the list stays well
        formed and lists exactly the children the kernel holds for the library. */
    method Run(steps: seq<ForkStep>) returns (ghost trace: seq<Moment>)
      requires Valid()
      modifies this`list, this`nodes, this`children, nodes, os
      ensures Valid()
      ensures |trace| == |steps| + 1 && trace[0] == old(Now()) && trace[|steps|] == Now()
      ensures forall i :: 0 <= i < |steps| ==> Stepped(trace[i], steps[i], trace[i + 1], os)
      ensures forall i :: 0 <= i < |trace| ==> Agrees(trace[i].children, trace[i].log)
    {
      hide Agrees, Chain, Stepped;
      trace := [Now()];
      for k := 0 to |steps|
        invariant Valid()
        invariant forall i :: 0 <= i < |nodes| ==> nodes[i] in old(nodes) || fresh(nodes[i])
        invariant |trace| == k + 1 && trace[0] == old(Now()) && trace[k] == Now()
        invariant forall i :: 0 <= i < k ==> Stepped(trace[i], steps[i], trace[i + 1], os)
        invariant forall i :: 0 <= i < |trace| ==> Agrees(trace[i].children, trace[i].log)
      {
        Step(steps[k]);
        trace := trace + [Now()];
      }
    }
  }

  /** With distinct pids, commit_suicide's record holds for each child one signal and one wait, the wait
      right after the signal, and the children are dealt with in list order. */
  lemma EndingsOnce(children: seq<Child>, i: nat)
    requires i < |children|
    requires forall j, k :: 0 <= j < k < |children| ==> children[j].pid != children[k].pid
    ensures |Endings(children)| == 2 * |children|
    ensures Endings(children)[2 * i] == Killed(children[i].pid, if children[i].kill then SIGTERM else SIGKILL)
    ensures Endings(children)[2 * i + 1] == Waited(children[i].pid)
    ensures forall j :: 0 <= j < 2 * |children| && Endings(children)[j].pid == children[i].pid ==> j / 2 == i
  {
    EndingsAt(children);
  }

  lemma {:induction false} EndingsAt(children: seq<Child>)
    ensures |Endings(children)| == 2 * |children|
    ensures forall j :: 0 <= j < 2 * |children| ==> Endings(children)[j] == Suicide(children[j / 2])[j % 2]
  {
    if children == [] {
    } else {
      var before, last := children[..|children| - 1], children[|children| - 1];
      EndingsAt(before);
      forall j | 0 <= j < 2 * |children| ensures Endings(children)[j] == Suicide(children[j / 2])[j % 2] {
        if j < 2 * |before| {
          assert Endings(children)[j] == Endings(before)[j];
          assert before[j / 2] == children[j / 2];
        } else {
          assert j / 2 == |before| && Endings(children)[j] == Suicide(last)[j - 2 * |before|];
        }
      }
    }
  }
}
