/** socket++/sig.cpp: the registry of signal handlers, kept in step with the kernel's dispositions. */
module Sig {
  import opened Sockets

  // ---------------------------------------------------------------- the kernel

  datatype Disposition = SigDfl | SigHandler | Other   // SigHandler is the library's own

  /** struct sigaction; flags are the library's 0, or whatever was there. */
  datatype SigAction = SigAction(handler: Disposition, mask: set<int>, flags: int)

  class SignalTable {
    var actions: map<int, SigAction>
    const valid: int -> bool        // signal numbers sigaction accepts
    const refuses: int -> bool      // it may refuse to change their actions, as for SIGKILL

    constructor (valid: int -> bool, refuses: int -> bool)
      ensures this.valid == valid && this.refuses == refuses && actions == map[]
    {
      this.valid, this.refuses, actions := valid, refuses, map[];
    }

    /** It will change signo's action when asked to. */
    predicate Obeys(signo: int) {
      valid(signo) && !refuses(signo)
    }

    function Action(signo: int): SigAction
      reads this
    {
      ActionIn(actions, signo)
    }

    /** sigaction (signo, 0, &sa). */
    method Get(signo: int) returns (r: Res<SigAction>)
      ensures r == if valid(signo) then Returned(Action(signo)) else Threw(Err)
    {
      return if valid(signo) then Returned(Action(signo)) else Threw(Err);
    }

    /** sigaction (signo, &sa, 0). */
    method Set(signo: int, sa: SigAction) returns (r: Res<()>)
      modifies this
      ensures r.Returned? ==> actions == old(actions)[signo := sa]
      ensures r.Threw? ==> actions == old(actions) && !Obeys(signo)
      ensures !valid(signo) ==> r.Threw?
    {
      var refuse: bool := *;
      if !valid(signo) || (refuses(signo) && refuse) {
        return Threw(Err);
      }
      actions := actions[signo := sa];
      return Returned(());
    }
  }

  // ---------------------------------------------------------------- histories

  /** phnd: a handler's address. */
  type Handler = nat

  /** What took effect on the registry. */
  datatype Change = Added(signo: int, h: Handler) | Removed(signo: int, h: Handler) | Cleared(signo: int)

  /** When h's present registration for signo was made: the index of the Added that is in force, or -1. */
  ghost function Since(history: seq<Change>, signo: int, h: Handler): int {
    if history == [] then -1
    else
      var before := Since(history[..|history| - 1], signo, h);
      match history[|history| - 1]
      case Added(s, g) => if s == signo && g == h && before < 0 then |history| - 1 else before
      case Removed(s, g) => if s == signo && g == h then -1 else before
      case Cleared(s) => if s == signo then -1 else before
  }

  /** list holds exactly the handlers that are registered for signo, in the order of their registration. */
  ghost predicate InOrder(history: seq<Change>, signo: int, list: seq<Handler>) {
    && (forall h :: h in list <==> Since(history, signo, h) >= 0)
    && forall i, j :: 0 <= i < j < |list| ==> Since(history, signo, list[i]) < Since(history, signo, list[j])
  }

  lemma SinceSnoc(history: seq<Change>, c: Change, signo: int, h: Handler)
    ensures Since(history + [c], signo, h) ==
            (match c
             case Added(s, g) =>
               if s == signo && g == h && Since(history, signo, h) < 0 then |history| else Since(history, signo, h)
             case Removed(s, g) => if s == signo && g == h then -1 else Since(history, signo, h)
             case Cleared(s) => if s == signo then -1 else Since(history, signo, h))
  {
    assert (history + [c])[..|history|] == history;
  }

  lemma {:induction false} SinceBound(history: seq<Change>, signo: int, h: Handler)
    ensures -1 <= Since(history, signo, h) < |history|
  {
    if history == [] {
    } else {
      SinceBound(history[..|history| - 1], signo, h);
    }
  }

  /** A change for one signal leaves the other signals' lists in order. */
  lemma Elsewhere(history: seq<Change>, c: Change, s: int, list: seq<Handler>)
    requires s != c.signo && InOrder(history, s, list)
    ensures InOrder(history + [c], s, list)
  {
    forall h ensures Since(history + [c], s, h) == Since(history, s, h) {
      SinceSnoc(history, c, s, h);
    }
    hide Since;
  }

  lemma Adding(history: seq<Change>, signo: int, h: Handler, list: seq<Handler>)
    requires InOrder(history, signo, list) && h !in list
    ensures InOrder(history + [Added(signo, h)], signo, list + [h])
  {
    forall g
      ensures Since(history + [Added(signo, h)], signo, g) == if g == h then |history| else Since(history, signo, g)
    {
      SinceSnoc(history, Added(signo, h), signo, g);
      SinceBound(history, signo, g);
    }
    forall g ensures Since(history, signo, g) < |history| {
      SinceBound(history, signo, g);
    }
    hide Since;
  }

  lemma RemovedSince(history: seq<Change>, signo: int, h: Handler)
    ensures forall g ::
              Since(history + [Removed(signo, h)], signo, g) == if g == h then -1 else Since(history, signo, g)
  {
    forall g
      ensures Since(history + [Removed(signo, h)], signo, g) == if g == h then -1 else Since(history, signo, g)
    {
      SinceSnoc(history, Removed(signo, h), signo, g);
    }
  }

  /** A list without its j-th item, which occurs once, keeps the others. */
  lemma WithoutOne(list: seq<Handler>, j: nat)
    requires j < |list| && forall i, k :: 0 <= i < k < |list| ==> list[i] != list[k]
    ensures forall g :: g in list[..j] + list[j + 1..] <==> g in list && g != list[j]
  {
    var rest := list[..j] + list[j + 1..];
    forall g | g in list && g != list[j] ensures g in rest {
      var k :| 0 <= k < |list| && list[k] == g;
      assert rest[if k < j then k else k - 1] == g;
    }
  }

  lemma Removing(history: seq<Change>, signo: int, list: seq<Handler>, j: nat)
    requires InOrder(history, signo, list) && j < |list|
    ensures InOrder(history + [Removed(signo, list[j])], signo, list[..j] + list[j + 1..])
  {
    hide Since;
    RemovedSince(history, signo, list[j]);
    WithoutOne(list, j);
  }

  lemma Clearing(history: seq<Change>, signo: int)
    ensures InOrder(history + [Cleared(signo)], signo, [])
  {
    forall g ensures Since(history + [Cleared(signo)], signo, g) == -1 {
      SinceSnoc(history, Cleared(signo), signo, g);
    }
    hide Since;
  }

  /** No handler is listed twice. */
  lemma NoneTwice(history: seq<Change>, signo: int, list: seq<Handler>)
    requires InOrder(history, signo, list)
    ensures forall i, j :: 0 <= i < j < |list| ==> list[i] != list[j]
  {
  }

  function Calls(list: seq<Handler>, signo: int): seq<(Handler, int)> {
    seq(|list|, i requires 0 <= i < |list| => (list[i], signo))
  }

  lemma CallsAre(list: seq<Handler>, signo: int)
    ensures |Calls(list, signo)| == |list| && forall i :: 0 <= i < |list| ==> Calls(list, signo)[i] == (list[i], signo)
  {
  }

  lemma CallsEnds(list: seq<Handler>, signo: int)
    ensures Calls(list[..0], signo) == [] && list[..|list|] == list
  {
  }

  lemma CallsNext(before: seq<(Handler, int)>, list: seq<Handler>, i: nat, signo: int)
    requires i < |list|
    ensures before + Calls(list[..i + 1], signo) == before + Calls(list[..i], signo) + [(list[i], signo)]
  {
    assert Calls(list[..i + 1], signo) == Calls(list[..i], signo) + [(list[i], signo)];
  }

  // ---------------------------------------------------------------- runs

  /** What is registered, by its history; which handlers have been called; and the kernel's dispositions. */
  datatype Moment = Moment(history: seq<Change>, calls: seq<(Handler, int)>, actions: map<int, SigAction>)

  function ActionIn(actions: map<int, SigAction>, signo: int): SigAction {
    if signo in actions then actions[signo] else SigAction(SigDfl, {}, 0)
  }

  /** Signal s has this action now, and every other signal the action it had. */
  ghost predicate Installed(before: map<int, SigAction>, after: map<int, SigAction>, s: int, sa: SigAction) {
    forall t :: ActionIn(after, t) == if t == s then sa else ActionIn(before, t)
  }

  /** What is registered after an operation that the kernel does not refuse. */
  ghost function Changed(history: seq<Change>, op: Op): seq<Change> {
    match op
    case Set(s, h) => if h != 0 && Since(history, s, h) < 0 then history + [Added(s, h)] else history
    case Unset(s, h) => if h != 0 && Since(history, s, h) >= 0 then history + [Removed(s, h)] else history
    case Unbind(s) => history + [Cleared(s)]
    case Mask(_, _) => history
    case Unmask(_, _) => history
    case Kill(_) => history
  }

  /** What an operation does. A new handler is registered unless the kernel does not obey, and then only if there
      was none for the signal; unbind clears the list in any case; dispositions change as they should, or not at
      all if the kernel does not obey. */
  ghost predicate Stepped(os: SignalTable, a: Moment, op: Op, b: Moment) {
    match op
    case Set(s, h) =>
      && b.calls == a.calls
      && if h == 0 || Since(a.history, s, h) >= 0 then b == a
         else
           || (b.history == a.history + [Added(s, h)]
               && if ActionIn(a.actions, s).handler == SigHandler then b.actions == a.actions
                  else Installed(a.actions, b.actions, s, SigAction(SigHandler, {}, 0)))
           || (b == a && InOrder(a.history, s, []) && !os.Obeys(s))
    case Unset(s, h) =>
      b == if h != 0 && Since(a.history, s, h) >= 0 then a.(history := a.history + [Removed(s, h)]) else a
    case Unbind(s) =>
      && b.history == a.history + [Cleared(s)] && b.calls == a.calls
      && if ActionIn(a.actions, s).handler != SigHandler then b.actions == a.actions
         else Installed(a.actions, b.actions, s, SigAction(SigDfl, {}, 0)) || (b.actions == a.actions && !os.Obeys(s))
    case Mask(s, t) =>
      && b.history == a.history && b.calls == a.calls
      && var was := ActionIn(a.actions, s);
         var (mask, flags) := if was.handler == SigHandler then (was.mask, was.flags) else ({}, 0);
         || Installed(a.actions, b.actions, s, SigAction(SigHandler, mask + {t}, flags))
         || (b == a && !(os.Obeys(s) && os.valid(t)))
    case Unmask(s, t) =>
      && b.history == a.history && b.calls == a.calls
      && var was := ActionIn(a.actions, s);
         var (mask, flags) := if was.handler == SigHandler then (was.mask, was.flags) else ({}, 0);
         || Installed(a.actions, b.actions, s, SigAction(SigHandler, mask - {t}, flags))
         || (b == a && !(os.Obeys(s) && os.valid(t)))
    case Kill(s) => exists list :: InOrder(a.history, s, list) && b == a.(calls := a.calls + Calls(list, s))
  }

  /** What is registered after some operations of which the kernel refuses none. */
  ghost function AllChanged(history: seq<Change>, ops: seq<Op>): seq<Change> {
    if ops == [] then history else Changed(AllChanged(history, ops[..|ops| - 1]), ops[|ops| - 1])
  }

  lemma AllChangedEnds(history: seq<Change>, ops: seq<Op>)
    ensures AllChanged(history, ops[..0]) == history && ops[..|ops|] == ops
  {
  }

  lemma AllChangedNext(history: seq<Change>, ops: seq<Op>, i: nat)
    requires i < |ops|
    ensures AllChanged(history, ops[..i + 1]) == Changed(AllChanged(history, ops[..i]), ops[i])
  {
    assert ops[..i + 1][..i] == ops[..i];
  }

  /** The kernel will let the library have every signal for which a handler is set. */
  ghost predicate Obeyed(os: SignalTable, ops: seq<Op>) {
    forall i :: 0 <= i < |ops| && ops[i].Set? ==> os.Obeys(ops[i].signo)
  }

  /** A step that the kernel cannot refuse registers what it should. */
  lemma NotRefused(os: SignalTable, a: Moment, op: Op, b: Moment)
    requires Stepped(os, a, op, b) && (op.Set? ==> os.Obeys(op.signo))
    ensures b.history == Changed(a.history, op)
  {
  }

  lemma Membership(history: seq<Change>, signo: int, list: seq<Handler>, op: Op)
    requires InOrder(history, signo, list)
    ensures op.Set? || op.Unset? ==> (op.h in list <==> Since(history, signo, op.h) >= 0)
  {
  }

  // ---------------------------------------------------------------- the registry

  class Registry {
    const os: SignalTable
    var smap: map<int, seq<Handler>>
    var calls: seq<(Handler, int)>     // invocations of handlers, in order
    ghost var history: seq<Change>

    constructor (os: SignalTable)
      ensures Valid() && this.os == os && history == [] && calls == []
    {
      this.os, smap, calls, history := os, map[], [], [];
    }

    function List(signo: int): seq<Handler>
      reads this`smap
    {
      if signo in smap then smap[signo] else []
    }

    /** Signal s: the list is as the history has it; if it is not empty the library gets the signal. */
    ghost predicate Good(s: int)
      reads this`smap, this`history, os
    {
      InOrder(history, s, List(s)) && (List(s) != [] ==> os.Action(s).handler == SigHandler)
    }

    ghost predicate Valid()
      reads this`smap, this`history, os
    {
      forall s :: Good(s)
    }

    method Set(signo: int, h: Handler) returns (r: Res<bool>)
      requires Valid()
      modifies this`smap, this`history, os
      ensures Valid()
      ensures r.Returned? ==> (r.value <==> h != 0 && h !in old(List(signo)))
      ensures r.Threw? ==> h != 0 && old(List(signo)) == [] && !os.Obeys(signo)
      ensures r.Threw? && os.valid(signo) ==> old(os.Action(signo)).handler != SigHandler
      ensures h != 0 && old(List(signo)) == [] && !os.valid(signo) ==> r.Threw?
      ensures history == old(history) + if r == Returned(true) then [Added(signo, h)] else []
      ensures List(signo) == old(List(signo)) + if r == Returned(true) then [h] else []
      // the first handler has the library take the signal over, with an empty mask, if it has not got it
      ensures os.Action(signo) == if r == Returned(true) && old(os.Action(signo)).handler != SigHandler
                                  then SigAction(SigHandler, {}, 0) else old(os.Action(signo))
      ensures forall s :: s != signo ==> os.Action(s) == old(os.Action(s))
      ensures r != Returned(true) || old(os.Action(signo)).handler == SigHandler ==> os.actions == old(os.actions)
      ensures forall s :: s != signo ==> List(s) == old(List(s))
    {
      hide InOrder;
      if h == 0 {
        return Returned(false);
      }
      Touch(signo);
      var v := List(signo);
      if v == [] {
        var _ :- Claim(signo);
        Append(signo, h);
        return Returned(true);
      }
      assert Good(signo);
      if h !in v {
        Append(signo, h);
        return Returned(true);
      }
      return Returned(false);
    }

    /** smap [signo] makes an empty list when there is none. */
    method Touch(signo: int)
      requires Valid()
      modifies this`smap
      ensures Valid() && signo in smap && forall s :: List(s) == old(List(s))
    {
      hide InOrder;
      smap := smap[signo := List(signo)];
      assert forall s :: List(s) == old(List(s));
      assert forall s :: old(Good(s)) ==> Good(s);
    }

    /** The library takes the signal over, unless it has it. */
    method Claim(signo: int) returns (r: Res<()>)
      requires Valid()
      modifies os
      ensures Valid()
      ensures r.Returned? ==> os.Action(signo).handler == SigHandler
      ensures r.Threw? ==> !os.Obeys(signo)
      ensures r.Threw? && os.valid(signo) ==> old(os.Action(signo)).handler != SigHandler
      ensures !os.valid(signo) ==> r.Threw?
      ensures os.Action(signo) == if r.Returned? && old(os.Action(signo)).handler != SigHandler
                                  then SigAction(SigHandler, {}, 0) else old(os.Action(signo))
      ensures forall s :: s != signo ==> os.Action(s) == old(os.Action(s))
      ensures r.Threw? || old(os.Action(signo)).handler == SigHandler ==> os.actions == old(os.actions)
    {
      hide InOrder;
      var sa :- os.Get(signo);
      if sa.handler != SigHandler {
        r := os.Set(signo, SigAction(SigHandler, {}, 0));
        assert forall s :: old(Good(s)) ==> Good(s);
        return;
      }
      return Returned(());
    }

    /** push_back. */
    method Append(signo: int, h: Handler)
      requires Valid() && h !in List(signo) && os.Action(signo).handler == SigHandler
      modifies this`smap, this`history
      ensures Valid() && history == old(history) + [Added(signo, h)]
      ensures List(signo) == old(List(signo)) + [h] && forall s :: s != signo ==> List(s) == old(List(s))
    {
      assert Good(signo);
      Adding(history, signo, h, List(signo));
      Update(signo, List(signo) + [h], Added(signo, h));
    }

    /** One list changes, and the history with it. */
    method Update(signo: int, v: seq<Handler>, ghost c: Change)
      requires Valid() && c.signo == signo && InOrder(history + [c], signo, v)
      requires v != [] ==> os.Action(signo).handler == SigHandler
      modifies this`smap, this`history
      ensures Valid() && history == old(history) + [c] && List(signo) == v
      ensures forall s :: s != signo ==> List(s) == old(List(s))
    {
      hide InOrder;
      forall s | s != signo ensures InOrder(history + [c], s, List(s)) {
        assert Good(s);
        Elsewhere(history, c, s, List(s));
      }
      smap := smap[signo := v];
      history := history + [c];
      assert forall s :: s != signo ==> List(s) == old(List(s));
      forall s ensures Good(s) {
        assert old(Good(s));
      }
    }

    /** std::find: the index of the first h, or |v|. */
    method Find(v: seq<Handler>, h: Handler) returns (j: nat)
      ensures j <= |v| && h !in v[..j] && (j < |v| ==> v[j] == h)
    {
      j := 0;
      while j < |v| && v[j] != h
        invariant j <= |v| && h !in v[..j]
      {
        j := j + 1;
      }
    }

    method Unset(signo: int, h: Handler) returns (r: bool)
      requires Valid()
      modifies this`smap, this`history
      ensures Valid() && (r <==> h != 0 && h in old(List(signo)))
      ensures history == old(history) + if r then [Removed(signo, h)] else []
      ensures if r then exists j :: 0 <= j < |old(List(signo))| && old(List(signo))[j] == h
                                    && List(signo) == old(List(signo))[..j] + old(List(signo))[j + 1..]
              else List(signo) == old(List(signo))
      ensures forall s :: s != signo ==> List(s) == old(List(s))
    {
      if h == 0 {
        return false;
      }
      Touch(signo);
      var v := List(signo);
      var j := Find(v, h);
      if j < |v| {
        assert Good(signo);
        Removing(history, signo, v, j);
        Update(signo, v[..j] + v[j + 1..], Removed(signo, h));
        return true;
      }
      assert v[..j] == v;
      return false;
    }

    /** The list goes, even when resetting the disposition then fails. */
    method Unbind(signo: int) returns (r: Res<()>)
      requires Valid()
      modifies this`smap, this`history, os
      ensures Valid() && List(signo) == [] && history == old(history) + [Cleared(signo)]
      ensures forall s :: s != signo ==> List(s) == old(List(s))
      ensures r.Returned? ==> os.Action(signo).handler != SigHandler
      ensures r.Threw? ==> !os.Obeys(signo) && (os.valid(signo) ==> old(os.Action(signo)).handler == SigHandler)
      ensures !os.valid(signo) ==> r.Threw?
      ensures os.Action(signo) == if r.Returned? && old(os.Action(signo)).handler == SigHandler
                                  then SigAction(SigDfl, {}, 0) else old(os.Action(signo))
      ensures forall s :: s != signo ==> os.Action(s) == old(os.Action(s))
      ensures r.Threw? || old(os.Action(signo)).handler != SigHandler ==> os.actions == old(os.actions)
    {
      Clearing(history, signo);
      Update(signo, [], Cleared(signo));
      r := Release(signo);
    }

    /** The signal is given back, if the library has it. */
    method Release(signo: int) returns (r: Res<()>)
      requires Valid() && List(signo) == []
      modifies os
      ensures Valid() && (r.Returned? ==> os.Action(signo).handler != SigHandler)
      ensures r.Threw? ==> !os.Obeys(signo) && (os.valid(signo) ==> old(os.Action(signo)).handler == SigHandler)
      ensures !os.valid(signo) ==> r.Threw?
      ensures os.Action(signo) == if r.Returned? && old(os.Action(signo)).handler == SigHandler
                                  then SigAction(SigDfl, {}, 0) else old(os.Action(signo))
      ensures forall s :: s != signo ==> os.Action(s) == old(os.Action(s))
      ensures r.Threw? || old(os.Action(signo)).handler != SigHandler ==> os.actions == old(os.actions)
    {
      hide InOrder;
      var sa :- os.Get(signo);
      if sa.handler == SigHandler {
        r := os.Set(signo, SigAction(SigDfl, {}, 0));
        assert forall s :: old(Good(s)) ==> Good(s);
        return;
      }
      return Returned(());
    }

    /** mask (siga, sigb): sigb is blocked while siga is handled. */
    method Mask(siga: int, sigb: int) returns (r: Res<()>)
      requires Valid()
      modifies os
      ensures Valid()
      ensures r.Returned? ==>
                var was := old(os.Action(siga));
                os.Action(siga) == SigAction(SigHandler, (if was.handler == SigHandler then was.mask else {}) + {sigb},
                                             if was.handler == SigHandler then was.flags else 0)
      ensures r.Threw? ==> os.actions == old(os.actions)
      ensures forall s :: s != siga ==> os.Action(s) == old(os.Action(s))
      ensures r.Threw? ==> !(os.Obeys(siga) && os.valid(sigb))
      ensures !os.valid(siga) || !os.valid(sigb) ==> r.Threw?
    {
      hide InOrder;
      var sa :- os.Get(siga);
      if sa.handler != SigHandler {
        sa := SigAction(SigHandler, {}, 0);
      }
      if !os.valid(sigb) {
        return Threw(Err);
      }
      r := os.Set(siga, sa.(mask := sa.mask + {sigb}));
      assert forall s :: old(Good(s)) ==> Good(s);
    }

    method Unmask(siga: int, sigb: int) returns (r: Res<()>)
      requires Valid()
      modifies os
      ensures Valid()
      ensures r.Returned? ==>
                var was := old(os.Action(siga));
                os.Action(siga) == SigAction(SigHandler, (if was.handler == SigHandler then was.mask else {}) - {sigb},
                                             if was.handler == SigHandler then was.flags else 0)
      ensures r.Threw? ==> os.actions == old(os.actions)
      ensures forall s :: s != siga ==> os.Action(s) == old(os.Action(s))
      ensures r.Threw? ==> !os.Obeys(siga) || (!os.valid(sigb) && old(os.Action(siga)).handler == SigHandler)
      ensures !os.valid(siga) || (!os.valid(sigb) && old(os.Action(siga)).handler == SigHandler) ==> r.Threw?
    {
      hide InOrder;
      var sa :- os.Get(siga);
      if sa.handler != SigHandler {
        sa := SigAction(SigHandler, {}, 0);
        assert sa.mask - {sigb} == sa.mask;
      } else {
        if !os.valid(sigb) {
          return Threw(Err);
        }
        sa := sa.(mask := sa.mask - {sigb});
      }
      r := os.Set(siga, sa);
      assert forall s :: old(Good(s)) ==> Good(s);
    }

    /** Every handler of the list is called, with the signal, in order; handlers do not edit the list. */
    method Kill(signo: int)
      requires Valid()
      modifies this`smap, this`calls
      ensures Valid() && forall s :: List(s) == old(List(s))
      ensures |calls| == |old(calls)| + |List(signo)| && calls[..|old(calls)|] == old(calls)
      ensures forall i :: 0 <= i < |List(signo)| ==> calls[|old(calls)| + i] == (List(signo)[i], signo)
      ensures calls == old(calls) + Calls(List(signo), signo)
    {
      hide InOrder, Calls;
      Touch(signo);
      var v := List(signo);
      CallsEnds(v, signo);
      for i := 0 to |v|
        invariant Valid() && v == List(signo) && forall s :: List(s) == old(List(s))
        invariant calls == old(calls) + Calls(v[..i], signo)
      {
        CallsNext(old(calls), v, i, signo);
        calls := calls + [(v[i], signo)];
      }
      CallsAre(v, signo);
    }

    ghost function Now(): Moment
      reads this, os
    {
      Moment(history, calls, os.actions)
    }

    method Step(op: Op)
      requires Valid()
      modifies this, os
      ensures Valid() && Stepped(os, old(Now()), op, Now())
    {
      hide InOrder;
      assert old(Good(op.signo));
      ghost var list := List(op.signo);
      match op {
        case Set(signo, h) => var _ := Set(signo, h);
        case Unset(signo, h) => var _ := Unset(signo, h);
        case Unbind(signo) => var _ := Unbind(signo);
        case Mask(signo, sigb) => var _ := Mask(signo, sigb);
        case Unmask(signo, sigb) => var _ := Unmask(signo, sigb);
        case Kill(signo) => Kill(signo);
      }
      assert forall t :: ActionIn(os.actions, t) == os.Action(t);
      assert forall t :: ActionIn(old(os.actions), t) == old(os.Action(t));
      assert InOrder(old(history), op.signo, list);
      Membership(old(history), op.signo, list, op);
    }

    /** Any sequence of operations, any of which the kernel may refuse. At every moment of the run, which
        leads through trace, the next operation has exactly its effect on who is registered and who is
        called. If the kernel refuses no registration, the history is what the operations ask for. In the end, for
        every signal the list holds the handlers registered by then, each once and in the order of registration;
        and while it holds any, the signal comes to the library. */
    method Run(ops: seq<Op>) returns (ghost trace: seq<Moment>)
      requires Valid()
      modifies this, os
      ensures Valid()
      ensures |trace| == |ops| + 1 && trace[0] == old(Now()) && trace[|ops|] == Now()
      ensures forall i :: 0 <= i < |ops| ==> Stepped(os, trace[i], ops[i], trace[i + 1])
      ensures forall s :: InOrder(history, s, List(s)) && (List(s) != [] ==> os.Action(s).handler == SigHandler)
      ensures Obeyed(os, ops) ==> history == AllChanged(old(history), ops)
    {
      hide InOrder, Stepped, Changed, AllChanged;
      trace := [Now()];
      AllChangedEnds(old(history), ops);
      for i := 0 to |ops|
        invariant Valid()
        invariant |trace| == i + 1 && trace[0] == old(Now()) && trace[i] == Now()
        invariant forall k :: 0 <= k < i ==> Stepped(os, trace[k], ops[k], trace[k + 1])
        invariant Obeyed(os, ops) ==> history == AllChanged(old(history), ops[..i])
      {
        ghost var before := Now();
        Step(ops[i]);
        AllChangedNext(old(history), ops, i);
        if Obeyed(os, ops) {
          assert ops[i].Set? ==> os.Obeys(ops[i].signo);
          NotRefused(os, before, ops[i], Now());
          assert history == Changed(before.history, ops[i]);
        }
        trace := trace + [Now()];
      }
      forall s ensures InOrder(history, s, List(s)) && (List(s) != [] ==> os.Action(s).handler == SigHandler) {
        assert Good(s);
      }
    }
  }

  datatype Op =
    | Set(signo: int, h: Handler) | Unset(signo: int, h: Handler) | Unbind(signo: int)
    | Mask(signo: int, sigb: int) | Unmask(signo: int, sigb: int) | Kill(signo: int)
}
