/**
  The epoll back end of src/async/epoll.c: the registry, the kernel's interest set beside it, and
  the dispatch of a batch of ready descriptors to callbacks that may change the registry.
 */
module Epoll {
  import opened HandlerLists
  import opened Handlers
  import opened Sequences
  import opened Wrappers

  // ----- the registry as a map

  /** The registered handlers, and the events the kernel watches for. */
  datatype Loop = Loop(handlers: Registry, kernel: map<nat, Events>)

  /** What a call asks of its surroundings: is there memory, does the system call go through. */
  datatype Env = Env(memory: bool, ctl: bool)

  datatype Op =
    | Add(fd: int, events: Events, target: Option<Target>, env: Env)
    | Mod(fd: int, events: Events, env: Env)
    | Del(fd: int, env: Env)

  predicate AddSucceeds(l: Loop, op: Op)
    requires op.Add?
  {
    op.fd >= 0 && op.target.Some? && op.fd !in l.handlers && op.env.memory && op.env.ctl && op.fd !in l.kernel
  }

  predicate DelReachesKernel(l: Loop, op: Op)
    requires op.Del?
  {
    op.fd >= 0 && op.env.ctl && op.fd in l.kernel
  }

  /** The effect of a call. A modification that the kernel refuses has changed the handler already. */
  function Apply(l: Loop, op: Op): Loop {
    match op
    case Add(fd, events, target, _) =>
      if AddSucceeds(l, op)
      then Loop(l.handlers[fd := Registration(events, target.value)], l.kernel[fd := events]) else l
    case Mod(fd, events, env) =>
      if fd in l.handlers
      then Loop(l.handlers[fd := l.handlers[fd].(events := events)],
                if env.ctl && fd in l.kernel then l.kernel[fd := events] else l.kernel)
      else l
    case Del(fd, _) =>
      if DelReachesKernel(l, op) then Loop(l.handlers - {fd}, l.kernel - {fd}) else l
  }

  function Result(l: Loop, op: Op): int {
    match op
    case Add(_, _, _, _) => if AddSucceeds(l, op) then 0 else -1
    case Mod(fd, _, env) => if fd in l.handlers && env.ctl && fd in l.kernel then 0 else -1
    case Del(fd, _) => if DelReachesKernel(l, op) && fd in l.handlers then 0 else -1
  }

  function ApplyAll(l: Loop, ops: seq<Op>): Loop
    decreases |ops|
  {
    if ops == [] then l else ApplyAll(Apply(l, ops[0]), ops[1..])
  }

  /** The kernel watches every registered descriptor for its events, and no other. */
  predicate Agrees(l: Loop) {
    l.kernel == map fd | fd in l.handlers :: l.handlers[fd].events
  }

  /** The one way for the two to drift apart: the kernel refuses a modification that changes something. */
  predicate DriftsApart(l: Loop, op: Op) {
    op.Mod? && op.fd in l.handlers && !op.env.ctl && op.events != l.handlers[op.fd].events
  }

  /** A call keeps handlers and kernel in agreement exactly when it is not such a modification. */
  lemma AgreementKeptIff(l: Loop, op: Op)
    requires Agrees(l)
    ensures Agrees(Apply(l, op)) <==> !DriftsApart(l, op)
  {
    if op.Mod? && op.fd in l.handlers && !op.env.ctl {
      assert Apply(l, op).kernel[op.fd] == l.handlers[op.fd].events;
    }
  }

  function OpOf(call: Call, env: Env): Op {
    match call
    case Adding(fd, events, target) => Add(fd, events, target, env)
    case Changing(fd, events) => Mod(fd, events, env)
    case Removing(fd) => Del(fd, env)
  }

  /** The kernel goes along: it knows the descriptor, or, for an addition, does not. */
  predicate KernelTakes(l: Loop, call: Call, env: Env) {
    call.fd >= 0 && env.ctl && (call.Adding? <==> call.fd !in l.kernel)
  }

  /**
    A call returns 0 exactly when it is permitted, an addition finds memory and the kernel goes along, and
    then it has been made. Otherwise it returns -1 and changes no handler but the one that a modification
    is about.
   */
  lemma CallIs(l: Loop, call: Call, env: Env)
    ensures var r, after := Result(l, OpOf(call, env)), Apply(l, OpOf(call, env));
            && (r == 0 || r == -1)
            && (r == 0 <==>
                  Permitted(l.handlers, call) && (call.Adding? ==> env.memory) && KernelTakes(l, call, env))
            && (if Permitted(l.handlers, call) && (r == 0 || call.Changing?)
                then IsMade(l.handlers, call, after.handlers) else after.handlers == l.handlers)
  {
    if call.Removing? && !Permitted(l.handlers, call) {
      assert l.handlers - {call.fd} == l.handlers;
    }
  }

  /**
    The kernel watches the descriptor of a call that it took as the call says, and every other one as
    before. A deletion it takes even when no handler is registered.
   */
  lemma KernelIs(l: Loop, call: Call, env: Env, fd: nat)
    ensures var after := Apply(l, OpOf(call, env)).kernel;
            var isTaken := KernelTakes(l, call, env) && (call.Removing? || Result(l, OpOf(call, env)) == 0);
            && (fd in after <==> if fd == call.fd && isTaken then !call.Removing? else fd in l.kernel)
            && (fd in after ==> after[fd] == if fd == call.fd && isTaken then call.events else l.kernel[fd])
  {
  }

  /** As long as system calls succeed, every call keeps the agreement, over any number of calls. */
  lemma {:induction false} AgreementOverRuns(l: Loop, ops: seq<Op>)
    requires Agrees(l) && forall i :: 0 <= i < |ops| ==> ops[i].env.ctl
    ensures Agrees(ApplyAll(l, ops))
    decreases |ops|
  {
    if ops != [] {
      AgreementKeptIff(l, ops[0]);
      AgreementOverRuns(Apply(l, ops[0]), ops[1..]);
    }
  }

  // ----- dispatch

  /** A ready descriptor with the kernel's event bits. */
  datatype Ready = Ready(fd: nat, input: bool, output: bool, error: bool, hangup: bool)

  /** A callback invocation: the descriptor, the translated events and the callback with its data. */
  datatype Invocation = Invocation(fd: nat, events: Events, target: Target)

  function Translate(r: Ready): Events {
    Events(r.input, r.output, r.error || r.hangup)
  }

  /** What the next callback does to the registry, and what the ones after it do. */
  function FirstScript(scripts: seq<seq<Op>>): seq<Op> {
    if scripts == [] then [] else scripts[0]
  }

  function LaterScripts(scripts: seq<seq<Op>>): seq<seq<Op>> {
    if scripts == [] then [] else scripts[1..]
  }

  /** Dispatching a batch: the loop afterwards, the invocations, and the scripts not yet used. */
  function Dispatch(l: Loop, batch: seq<Ready>, scripts: seq<seq<Op>>): (Loop, seq<Invocation>, seq<seq<Op>>)
    decreases |batch|
  {
    if batch == [] then (l, [], scripts)
    else
      var r := batch[0];
      if r.fd in l.handlers then
        var (l', log, left) := Dispatch(ApplyAll(l, FirstScript(scripts)), batch[1..], LaterScripts(scripts));
        (l', [Invocation(r.fd, Translate(r), l.handlers[r.fd].target)] + log, left)
      else Dispatch(l, batch[1..], scripts)
  }

  /** Calls are made one after the other. */
  lemma {:induction false} OneMoreCall(l: Loop, ops: seq<Op>, op: Op)
    ensures ApplyAll(l, []) == l && ApplyAll(l, ops + [op]) == Apply(ApplyAll(l, ops), op)
    decreases |ops|
  {
    hide Apply;
    var all := ops + [op];
    if ops == [] {
      assert all[1..] == [];
    } else {
      assert all[1..] == ops[1..] + [op];
      OneMoreCall(Apply(l, ops[0]), ops[1..], op);
    }
  }

  lemma {:induction false} CallsAppend(l: Loop, ops: seq<Op>, more: seq<Op>)
    ensures ApplyAll(l, ops + more) == ApplyAll(ApplyAll(l, ops), more)
    decreases |ops|
  {
    hide Apply;
    if ops == [] {
      assert ops + more == more;
    } else {
      assert (ops + more)[1..] == ops[1..] + more;
      CallsAppend(Apply(l, ops[0]), ops[1..], more);
    }
  }

  /** All that these callbacks do, one after the other. */
  function Joined(scripts: seq<seq<Op>>): seq<Op> {
    if scripts == [] then [] else scripts[0] + Joined(scripts[1..])
  }

  /** One callback after another performs its script: as many as were invoked, and nothing else changes the loop. */
  lemma {:induction false} InvokedPerform(l: Loop, batch: seq<Ready>, scripts: seq<seq<Op>>)
    ensures var (after, log, left) := Dispatch(l, batch, scripts);
            var n := if |log| < |scripts| then |log| else |scripts|;
            after == ApplyAll(l, Joined(scripts[..n])) && left == scripts[n..]
    decreases |batch|
  {
    hide ApplyAll, Translate;
    OneMoreCall(l, [], Del(0, Env(true, true)));
    if batch == [] {
      assert scripts[..0] == [];
    } else if batch[0].fd in l.handlers {
      if scripts == [] {
        InvokedPerform(l, batch[1..], []);
      } else {
        InvokedPerform(ApplyAll(l, scripts[0]), batch[1..], scripts[1..]);
        var log := Dispatch(ApplyAll(l, scripts[0]), batch[1..], scripts[1..]).1;
        var n := if |log| < |scripts| - 1 then |log| else |scripts| - 1;
        assert scripts[..n + 1][1..] == scripts[1..][..n];
        CallsAppend(l, scripts[0], Joined(scripts[1..][..n]));
      }
    } else {
      InvokedPerform(l, batch[1..], scripts);
    }
  }

  lemma {:induction false} DispatchAppend(l: Loop, batch: seq<Ready>, more: seq<Ready>, scripts: seq<seq<Op>>)
    ensures var (l1, log1, left1) := Dispatch(l, batch, scripts);
            var (l2, log2, left2) := Dispatch(l1, more, left1);
            Dispatch(l, batch + more, scripts) == (l2, log1 + log2, left2)
    decreases |batch|
  {
    if batch == [] {
      assert batch + more == more;
      assert [] + Dispatch(l, more, scripts).1 == Dispatch(l, more, scripts).1;
    } else {
      hide ApplyAll, Translate, FirstScript, LaterScripts;
      assert (batch + more)[1..] == batch[1..] + more;
      var r := batch[0];
      if r.fd in l.handlers {
        var next, later := ApplyAll(l, FirstScript(scripts)), LaterScripts(scripts);
        DispatchAppend(next, batch[1..], more, later);
        var (l1, log1, left1) := Dispatch(next, batch[1..], later);
        Associate([Invocation(r.fd, Translate(r), l.handlers[r.fd].target)], log1, Dispatch(l1, more, left1).1);
      } else {
        DispatchAppend(l, batch[1..], more, scripts);
      }
    }
  }

  /**
    The descriptor at a position of the batch is invoked exactly when it is registered after everything
    the earlier callbacks of the batch did, and then with the callback and data registered for it.
   */
  lemma InvokedIffRegisteredThen(l: Loop, batch: seq<Ready>, scripts: seq<seq<Op>>, i: nat)
    requires i < |batch|
    ensures var (then_, log, left) := Dispatch(l, batch[..i], scripts);
            var r := batch[i];
            Dispatch(l, batch[..i + 1], scripts).1
            == log + (if r.fd in then_.handlers
                      then [Invocation(r.fd, Events(r.input, r.output, r.error || r.hangup),
                                       then_.handlers[r.fd].target)] else [])
  {
    assert batch[..i + 1] == batch[..i] + [batch[i]];
    DispatchAppend(l, batch[..i], [batch[i]], scripts);
    var then_ := Dispatch(l, batch[..i], scripts).0;
    assert [batch[i]][1..] == [];
    assert [Invocation(batch[i].fd, Translate(batch[i]), Target(0, 0))] + []
        == [Invocation(batch[i].fd, Translate(batch[i]), Target(0, 0))];
  }

  // ----- what is reported is what was asked for

  /** A report of nothing that the kernel does not watch; errors and hang-ups are always reported. */
  predicate IsWatched(kernel: map<nat, Events>, r: Ready) {
    r.fd in kernel && (r.input ==> kernel[r.fd].read) && (r.output ==> kernel[r.fd].write)
  }

  predicate LeavesAlone(ops: seq<Op>, fd: nat) {
    forall i :: 0 <= i < |ops| ==> ops[i].fd != fd
  }

  lemma {:induction false} SameAfterOthers(l: Loop, ops: seq<Op>, fd: nat)
    requires LeavesAlone(ops, fd)
    ensures LookUp(ApplyAll(l, ops).handlers, fd) == LookUp(l.handlers, fd)
    decreases |ops|
  {
    if ops != [] {
      SameAfterOthers(Apply(l, ops[0]), ops[1..], fd);
    }
  }

  lemma {:induction false} SameAfterDispatch(l: Loop, batch: seq<Ready>, scripts: seq<seq<Op>>, fd: nat)
    requires forall i :: 0 <= i < |scripts| ==> LeavesAlone(scripts[i], fd)
    ensures LookUp(Dispatch(l, batch, scripts).0.handlers, fd) == LookUp(l.handlers, fd)
    decreases |batch|
  {
    if batch != [] {
      assert LeavesAlone([], fd);
      hide LeavesAlone, LookUp;
      if batch[0].fd in l.handlers {
        SameAfterOthers(l, FirstScript(scripts), fd);
        SameAfterDispatch(ApplyAll(l, FirstScript(scripts)), batch[1..], LaterScripts(scripts), fd);
      } else {
        SameAfterDispatch(l, batch[1..], scripts, fd);
      }
    }
  }

  /**
    When handlers and kernel agree at the time of the report and no callback of the batch changes the
    descriptor, the callback registered for it is invoked, with no event that it is not registered for
    but an error.
   */
  lemma ReportedIsRegistered(l: Loop, batch: seq<Ready>, scripts: seq<seq<Op>>, i: nat)
    requires Agrees(l) && i < |batch| && IsWatched(l.kernel, batch[i])
    requires forall k :: 0 <= k < |scripts| ==> LeavesAlone(scripts[k], batch[i].fd)
    ensures var log, fd := Dispatch(l, batch[..i], scripts).1, batch[i].fd;
            var more := Dispatch(l, batch[..i + 1], scripts).1;
            && |more| == |log| + 1 && more[..|log|] == log && fd in l.handlers
            && var inv := more[|log|];
               && inv.fd == fd && inv.target == l.handlers[fd].target
               && (inv.events.read ==> l.handlers[fd].events.read)
               && (inv.events.write ==> l.handlers[fd].events.write)
  {
    hide ApplyAll, Dispatch, LeavesAlone;
    InvokedIffRegisteredThen(l, batch, scripts, i);
    SameAfterDispatch(l, batch[..i], scripts, batch[i].fd);
  }

  predicate AddsNowhere(ops: seq<Op>, fd: nat) {
    forall i :: 0 <= i < |ops| ==> !(ops[i].Add? && ops[i].fd == fd)
  }

  lemma {:induction false} StaysUnregistered(l: Loop, ops: seq<Op>, fd: nat)
    requires fd !in l.handlers && AddsNowhere(ops, fd)
    ensures fd !in ApplyAll(l, ops).handlers
    decreases |ops|
  {
    if ops != [] {
      StaysUnregistered(Apply(l, ops[0]), ops[1..], fd);
    }
  }

  /** A descriptor that has been removed is never invoked until some callback adds it again. */
  lemma {:induction false} RemovedIsNeverInvoked(l: Loop, batch: seq<Ready>, scripts: seq<seq<Op>>, fd: nat)
    requires fd !in l.handlers && forall i :: 0 <= i < |scripts| ==> AddsNowhere(scripts[i], fd)
    ensures forall k :: 0 <= k < |Dispatch(l, batch, scripts).1| ==> Dispatch(l, batch, scripts).1[k].fd != fd
    decreases |batch|
  {
    if batch != [] {
      assert AddsNowhere([], fd);
      hide AddsNowhere;
      if batch[0].fd in l.handlers {
        StaysUnregistered(l, FirstScript(scripts), fd);
        RemovedIsNeverInvoked(ApplyAll(l, FirstScript(scripts)), batch[1..], LaterScripts(scripts), fd);
      } else {
        RemovedIsNeverInvoked(l, batch[1..], scripts, fd);
      }
    }
  }

  // ----- the registry as an object

  class EpollRegistry {
    const list: HandlerList
    var kernel: map<nat, Events>

    ghost predicate Valid()
      reads this, list, list.repr
    {
      list.Valid() && UniqueFds(list.contents)
    }

    ghost function Abs(): Loop
      reads this, list
    {
      Loop(AsMap(list.contents), kernel)
    }

    constructor ()
      ensures Valid() && fresh(list) && list.repr == {} && Abs() == Loop(map[], map[])
    {
      list := new HandlerList();
      kernel := map[];
    }

    method AddHandler(fd: int, events: Events, callback: Option<Target>, env: Env) returns (r: int)
      requires Valid()
      modifies this, list
      ensures Valid() && fresh(list.repr - old(list.repr))
      ensures var op := Add(fd, events, callback, env); Abs() == old(Apply(Abs(), op)) && r == old(Result(Abs(), op))
    {
      hide AsMap, Position, UniqueFds, HandlerList.Valid;
      if fd < 0 || callback.None? {
        return -1;
      }
      PositionInMap(list.contents, fd);
      var found, i := list.Find(fd);
      if found != null {
        return -1;
      }
      if !env.memory {
        return -1;
      }
      var entry := new Entry(fd, events, callback.value);
      if !env.ctl || fd in kernel {
        return -1;
      }
      kernel := kernel[fd as nat := events];
      AdditionAdds(entry.Value(), list.contents);
      list.Prepend(entry);
      return 0;
    }

    method ModHandler(fd: int, events: Events, env: Env) returns (r: int)
      requires Valid()
      modifies this, list, list.repr
      ensures Valid() && list.repr == old(list.repr)
      ensures var op := Mod(fd, events, env); Abs() == old(Apply(Abs(), op)) && r == old(Result(Abs(), op))
    {
      hide AsMap, Position, UniqueFds, HandlerList.Valid;
      if fd < 0 {
        return -1;
      }
      PositionInMap(list.contents, fd);
      var entry, i := list.Find(fd);
      if entry == null {
        return -1;
      }
      AsMapAt(list.contents, i);
      UpdateUpdates(list.contents, i, Registration(events, entry.target));
      list.SetEvents(entry, events, i);
      if !env.ctl || fd !in kernel {
        return -1;
      }
      kernel := kernel[fd as nat := events];
      return 0;
    }

    method DelHandler(fd: int, env: Env) returns (r: int)
      requires Valid()
      modifies this, list, list.repr
      ensures Valid() && list.repr == old(list.repr)
      ensures var op := Del(fd, env); Abs() == old(Apply(Abs(), op)) && r == old(Result(Abs(), op))
    {
      hide AsMap, Position, UniqueFds, HandlerList.Valid;
      if fd < 0 {
        return -1;
      }
      if !env.ctl || fd !in kernel {
        return -1;
      }
      kernel := kernel - {fd};
      PositionInMap(list.contents, fd);
      ghost var i := Position(list.contents, fd);
      if i < |list.contents| {
        RemovalRemoves(list.contents, i);
      } else {
        assert AsMap(list.contents) - {fd} == AsMap(list.contents);
      }
      var removed := list.Remove(fd);
      return if removed then 0 else -1;
    }

    method PerformOne(op: Op)
      requires Valid()
      modifies this, list, list.repr
      ensures Valid() && fresh(list.repr - old(list.repr))
      ensures Abs() == old(Apply(Abs(), op))
    {
      hide Apply, Result, AsMap, UniqueFds;
      match op {
        case Add(fd, events, target, env) => var _ := AddHandler(fd, events, target, env);
        case Mod(fd, events, env) => var _ := ModHandler(fd, events, env);
        case Del(fd, env) => var _ := DelHandler(fd, env);
      }
    }

    /** What one callback does. */
    method Perform(ops: seq<Op>)
      requires Valid()
      modifies this, list, list.repr
      ensures Valid() && fresh(list.repr - old(list.repr))
      ensures Abs() == old(ApplyAll(Abs(), ops))
      decreases |ops|
    {
      hide Apply, AsMap, UniqueFds;
      if ops != [] {
        PerformOne(ops[0]);
        Perform(ops[1..]);
      }
    }

    /** The callback and data registered for a descriptor. */
    method TargetOf(fd: nat) returns (target: Option<Target>)
      requires Valid()
      ensures var handlers := Abs().handlers;
              target == if fd in handlers then Some(handlers[fd].target) else None
    {
      hide AsMap, Position, UniqueFds;
      PositionInMap(list.contents, fd);
      var entry, k := list.Find(fd);
      if entry == null {
        return None;
      }
      AsMapAt(list.contents, k);
      return Some(entry.target);
    }

    /** Looks a ready descriptor up and invokes its callback, which performs the given operations. */
    method Deliver(r: Ready, script: seq<Op>) returns (invoked: Option<Invocation>)
      requires Valid()
      modifies this, list, list.repr
      ensures Valid() && fresh(list.repr - old(list.repr))
      ensures var l := old(Abs());
              if r.fd in l.handlers
              then
                && invoked == Some(Invocation(r.fd, Events(r.input, r.output, r.error || r.hangup),
                                              l.handlers[r.fd].target))
                && Abs() == ApplyAll(l, script)
              else invoked == None && Abs() == l
    {
      hide ApplyAll, AsMap, UniqueFds;
      var target := TargetOf(r.fd);
      if target.None? {
        return None;
      }
      invoked := Some(Invocation(r.fd, Translate(r), target.value));
      Perform(script);
    }

    /** Looks every ready descriptor up again before it is invoked. */
    method Wait(batch: seq<Ready>, scripts: seq<seq<Op>>) returns (log: seq<Invocation>)
      requires Valid()
      modifies this, list, list.repr
      ensures Valid() && fresh(list.repr - old(list.repr))
      ensures var (after, invoked, left) := old(Dispatch(Abs(), batch, scripts)); Abs() == after && log == invoked
    {
      hide ApplyAll, AsMap, UniqueFds, FirstScript, LaterScripts;
      log := [];
      var left := scripts;
      ghost var start := Abs();
      assert batch[0..] == batch;
      assert [] + Dispatch(start, batch, scripts).1 == Dispatch(start, batch, scripts).1;
      for i := 0 to |batch|
        invariant Valid() && fresh(list.repr - old(list.repr))
        invariant Dispatch(start, batch, scripts) == Resumed(log, Dispatch(Abs(), batch[i..], left))
      {
        ghost var before, had := Abs(), log;
        assert batch[i..][0] == batch[i] && batch[i..][1..] == batch[i + 1..];
        var script := FirstScript(left);
        var invoked := Deliver(batch[i], script);
        if invoked.Some? {
          Associate(had, [invoked.value], Dispatch(Abs(), batch[i + 1..], LaterScripts(left)).1);
          log := log + [invoked.value];
          left := LaterScripts(left);
        }
      }
      assert log + [] == log;
    }
  }

  /** The outcome of a dispatch that had already invoked some callbacks. */
  function Resumed(log: seq<Invocation>, rest: (Loop, seq<Invocation>, seq<seq<Op>>))
    : (Loop, seq<Invocation>, seq<seq<Op>>)
  {
    (rest.0, log + rest.1, rest.2)
  }
}
