/**
  The kqueue back end of src/async/kqueue.c. The kernel keeps one filter per descriptor and
  direction; a modification is turned into the additions and deletions that lead from the old
  events to the new ones.
 */
module Kqueue {
  import opened HandlerLists
  import opened Handlers
  import opened Wrappers

  datatype Direction = Reading | Writing

  datatype Filter = Filter(fd: nat, direction: Direction)

  datatype Change = Change(filter: Filter, isAddition: bool)

  /** The registered handlers and the filters in the kernel. */
  datatype Loop = Loop(handlers: Registry, filters: set<Filter>)

  // ----- change lists

  function Wants(e: Events, d: Direction): bool {
    match d
    case Reading => e.read
    case Writing => e.write
  }

  /** The changes the back end lists for going from old events to new ones: deletions, then additions. */
  function Differences(fd: nat, before: Events, after: Events): seq<Change> {
    (if before.read && !after.read then [Change(Filter(fd, Reading), false)] else [])
    + (if before.write && !after.write then [Change(Filter(fd, Writing), false)] else [])
    + (if !before.read && after.read then [Change(Filter(fd, Reading), true)] else [])
    + (if !before.write && after.write then [Change(Filter(fd, Writing), true)] else [])
  }

  const NO_EVENTS: Events := Events(false, false, false)

  /** The kernel works through a change list from its start. */
  function Changed(filters: set<Filter>, changes: seq<Change>): set<Filter>
    decreases |changes|
  {
    if changes == [] then filters
    else if changes[0].isAddition then Changed(filters + {changes[0].filter}, changes[1..])
    else Changed(filters - {changes[0].filter}, changes[1..])
  }

  /** The kernel holds exactly the filters that the registered events ask for. */
  ghost predicate Agrees(l: Loop) {
    forall f: Filter :: f in l.filters <==> f.fd in l.handlers && Wants(l.handlers[f.fd].events, f.direction)
  }

  /** A filter changed by a list ends up as its last change says; any other stays as it was. */
  lemma {:induction false} ChangedAt(filters: set<Filter>, changes: seq<Change>, f: Filter)
    requires forall i, j :: 0 <= i < j < |changes| ==> changes[i].filter != changes[j].filter
    ensures (forall i :: 0 <= i < |changes| ==> changes[i].filter != f)
            ==> (f in Changed(filters, changes) <==> f in filters)
    ensures forall i :: 0 <= i < |changes| && changes[i].filter == f
                        ==> (f in Changed(filters, changes) <==> changes[i].isAddition)
    decreases |changes|
  {
    if changes != [] {
      var c, rest := changes[0], changes[1..];
      ChangedAt(if c.isAddition then filters + {c.filter} else filters - {c.filter}, rest, f);
      assert forall i :: 1 <= i < |changes| ==> changes[i] == rest[i - 1];
    }
  }

  /** A difference list names every filter at most once and only filters that it really changes. */
  lemma DifferencesAre(fd: nat, before: Events, after: Events)
    ensures var cs := Differences(fd, before, after);
            && (forall i, j :: 0 <= i < j < |cs| ==> cs[i].filter != cs[j].filter)
            && forall d: Direction ::
                 if Wants(before, d) == Wants(after, d) then forall i :: 0 <= i < |cs| ==> cs[i].filter != Filter(fd, d)
                 else exists i :: 0 <= i < |cs| && cs[i] == Change(Filter(fd, d), Wants(after, d))
  {
    var cs := Differences(fd, before, after);
    var i := if before.read && !after.read then 1 else 0;
    if before.read != after.read {
      var at := if before.read then 0 else if before.write && !after.write then 1 else 0;
      assert cs[at] == Change(Filter(fd, Reading), after.read);
    }
    if before.write != after.write {
      var at := if before.write then (if before.read && !after.read then 1 else 0)
                else (if before.read != after.read then 1 else 0);
      assert cs[at] == Change(Filter(fd, Writing), after.write);
    }
  }

  // ----- calls

  /** Is there memory, and how many changes does the kernel take before it refuses one. */
  datatype Env = Env(memory: bool, taken: nat)

  datatype Op =
    | Add(fd: int, events: Events, target: Option<Target>, env: Env)
    | Mod(fd: int, events: Events, env: Env)
    | Del(fd: int, env: Env)

  /** The call gets as far as the kernel. */
  predicate Proceeds(l: Loop, op: Op) {
    match op
    case Add(fd, _, target, env) => fd >= 0 && target.Some? && fd !in l.handlers && env.memory
    case Mod(fd, _, _) => fd in l.handlers
    case Del(fd, _) => fd in l.handlers
  }

  function Before(l: Loop, op: Op): Events
    requires Proceeds(l, op)
  {
    if op.Add? then NO_EVENTS else l.handlers[op.fd].events
  }

  function After(op: Op): Events {
    if op.Del? then NO_EVENTS else op.events
  }

  function ChangeList(l: Loop, op: Op): seq<Change>
    requires Proceeds(l, op)
  {
    Differences(op.fd, Before(l, op), After(op))
  }

  /** The changes the kernel takes. */
  function Taken(l: Loop, op: Op): (cs: seq<Change>)
    requires Proceeds(l, op)
  {
    if op.env.taken < |ChangeList(l, op)| then ChangeList(l, op)[..op.env.taken] else ChangeList(l, op)
  }

  predicate Completes(l: Loop, op: Op)
    requires Proceeds(l, op)
  {
    op.env.taken >= |ChangeList(l, op)|
  }

  /** The handlers change when all changes were taken; a deletion goes on regardless. */
  function Apply(l: Loop, op: Op): Loop {
    if !Proceeds(l, op) then l
    else
      var handlers :=
        if op.Del? then l.handlers - {op.fd}
        else if !Completes(l, op) then l.handlers
        else if op.Add? then l.handlers[op.fd := Registration(op.events, op.target.value)]
        else l.handlers[op.fd := l.handlers[op.fd].(events := op.events)];
      Loop(handlers, Changed(l.filters, Taken(l, op)))
  }

  function Result(l: Loop, op: Op): int {
    if Proceeds(l, op) && (op.Del? || Completes(l, op)) then 0 else -1
  }

  function ApplyAll(l: Loop, ops: seq<Op>): Loop
    decreases |ops|
  {
    if ops == [] then l else ApplyAll(Apply(l, ops[0]), ops[1..])
  }

  /** Only part of a change list was taken, or none of it while the handler goes away. */
  predicate IsCutShort(l: Loop, op: Op) {
    Proceeds(l, op) && !Completes(l, op) && (op.Del? || op.env.taken > 0)
  }

  lemma CompletedKeepsAgreement(l: Loop, op: Op)
    requires Agrees(l) && Proceeds(l, op) && Completes(l, op)
    ensures Agrees(Apply(l, op))
  {
    var cs, l' := ChangeList(l, op), Apply(l, op);
    hide Differences, Changed;
    DifferencesAre(op.fd, Before(l, op), After(op));
    forall f: Filter
      ensures f in l'.filters <==> f.fd in l'.handlers && Wants(l'.handlers[f.fd].events, f.direction)
    {
      ChangedAt(l.filters, cs, f);
      if f.fd == op.fd {
        assert f == Filter(op.fd, f.direction);
        assert f in l.filters <==> Wants(Before(l, op), f.direction);
        assert f in l'.filters <==> Wants(After(op), f.direction);
      }
    }
  }

  /** A list that is cut short leaves a filter that no registered event explains, or misses one. */
  lemma CutShortBreaksAgreement(l: Loop, op: Op)
    requires Agrees(l) && IsCutShort(l, op)
    ensures !Agrees(Apply(l, op))
  {
    var cs, taken, l' := ChangeList(l, op), Taken(l, op), Apply(l, op);
    DifferencesAre(op.fd, Before(l, op), After(op));
    EveryChangeChanges(op.fd, Before(l, op), After(op));
    hide Differences, Changed;
    var k := if op.Del? then op.env.taken else 0;
    var f := cs[k].filter;
    assert forall i :: 0 <= i < |taken| ==> taken[i] == cs[i];
    ChangedAt(l.filters, taken, f);
    assert f in l.filters <==> Wants(Before(l, op), f.direction);
  }

  lemma EveryChangeChanges(fd: nat, before: Events, after: Events)
    ensures var cs := Differences(fd, before, after);
            forall i :: 0 <= i < |cs| ==>
              && cs[i].filter.fd == fd && cs[i].isAddition == Wants(after, cs[i].filter.direction)
              && cs[i].isAddition != Wants(before, cs[i].filter.direction)
  {
  }

  /** Handlers and kernel stay in agreement exactly when no change list is cut short. */
  lemma AgreementKeptIff(l: Loop, op: Op)
    requires Agrees(l)
    ensures Agrees(Apply(l, op)) <==> !IsCutShort(l, op)
  {
    if !Proceeds(l, op) {
    } else if Completes(l, op) {
      CompletedKeepsAgreement(l, op);
    } else if IsCutShort(l, op) {
      CutShortBreaksAgreement(l, op);
    } else {
      assert Taken(l, op) == [];
    }
  }

  function OpOf(call: Call, env: Env): Op {
    match call
    case Adding(fd, events, target) => Add(fd, events, target, env)
    case Changing(fd, events) => Mod(fd, events, env)
    case Removing(fd) => Del(fd, env)
  }

  /** How many filters a call adds or deletes: those that are wanted before and not after, or after and not before. */
  function ChangesNeeded(before: Events, after: Events): nat {
    (if before.read == after.read then 0 else 1) + (if before.write == after.write then 0 else 1)
  }

  /**
    A call returns 0 exactly when it is permitted, an addition finds memory and, unless it is a deletion,
    the kernel takes all the changes needed; then it has been made. Otherwise the handlers stay.
   */
  lemma CallIs(l: Loop, call: Call, env: Env)
    ensures var r, after := Result(l, OpOf(call, env)), Apply(l, OpOf(call, env));
            && (r == 0 || r == -1)
            && (r == 0 <==>
                  && Permitted(l.handlers, call) && (call.Adding? ==> env.memory)
                  && (!call.Removing? ==>
                        env.taken >= ChangesNeeded(if call.Adding? then Events(false, false, false)
                                                   else l.handlers[call.fd].events, call.events)))
            && (if r == 0 then IsMade(l.handlers, call, after.handlers) else after.handlers == l.handlers)
  {
    hide Changed;
  }

  /** Calls are made one after the other. */
  lemma {:induction false} OneMoreCall(l: Loop, ops: seq<Op>, op: Op)
    ensures ApplyAll(l, []) == l && ApplyAll(l, ops + [op]) == Apply(ApplyAll(l, ops), op)
    decreases |ops|
  {
    hide Apply;
    var all := ops + [op];
    if ops == [] {
      assert all[1..] == [];
    } else {
      assert all[1..] == ops[1..] + [op];
      OneMoreCall(Apply(l, ops[0]), ops[1..], op);
    }
  }

  /** No call needs more than two changes. */
  lemma TwoAreEnough(l: Loop, op: Op)
    requires Agrees(l) && op.env.taken >= 2
    ensures Agrees(Apply(l, op))
    ensures forall before: Events, after: Events :: ChangesNeeded(before, after) <= 2
  {
    AgreementKeptIff(l, op);
    if Proceeds(l, op) {
      assert |Differences(op.fd, Before(l, op), After(op))| <= 2;
    }
  }

  /** No change list has more than two entries, so a kernel that takes two takes all. */
  lemma {:induction false} AgreementOverRuns(l: Loop, ops: seq<Op>)
    requires Agrees(l) && forall i :: 0 <= i < |ops| ==> ops[i].env.taken >= 2
    ensures Agrees(ApplyAll(l, ops))
    decreases |ops|
  {
    if ops != [] {
      AgreementKeptIff(l, ops[0]);
      if Proceeds(l, ops[0]) {
        assert |Differences(ops[0].fd, Before(l, ops[0]), After(ops[0]))| <= 2;
      }
      AgreementOverRuns(Apply(l, ops[0]), ops[1..]);
    }
  }

  // ----- the registry as an object

  class KqueueRegistry {
    const list: HandlerList
    var filters: set<Filter>

    ghost predicate Valid()
      reads this, list, list.repr
    {
      list.Valid() && UniqueFds(list.contents)
    }

    ghost function Abs(): Loop
      reads this, list
    {
      Loop(AsMap(list.contents), filters)
    }

    constructor ()
      ensures Valid() && fresh(list) && list.repr == {} && Abs() == Loop(map[], {})
    {
      list := new HandlerList();
      filters := {};
    }

    /** The system call that hands a change list to the kernel. */
    method Kevent(changes: seq<Change>, taken: nat) returns (ok: bool)
      modifies this`filters
      ensures ok == (taken >= |changes|)
      ensures filters == Changed(old(filters), if taken < |changes| then changes[..taken] else changes)
    {
      var n := if taken < |changes| then taken else |changes|;
      for i := 0 to n
        invariant Changed(filters, changes[i..n]) == old(Changed(filters, changes[..n]))
      {
        assert changes[i..n][0] == changes[i] && changes[i..n][1..] == changes[i + 1..n];
        if changes[i].isAddition {
          filters := filters + {changes[i].filter};
        } else {
          filters := filters - {changes[i].filter};
        }
      }
      assert changes[..|changes|] == changes;
      return taken >= |changes|;
    }

    method AddHandler(fd: int, events: Events, callback: Option<Target>, env: Env) returns (r: int)
      requires Valid()
      modifies this, list
      ensures Valid() && fresh(list.repr - old(list.repr))
      ensures var op := Add(fd, events, callback, env); Abs() == old(Apply(Abs(), op)) && r == old(Result(Abs(), op))
    {
      hide AsMap, Position, UniqueFds, HandlerList.Valid, Changed, Differences;
      if fd < 0 || callback.None? {
        return -1;
      }
      PositionInMap(list.contents, fd);
      var found, i := list.Find(fd);
      if found != null {
        return -1;
      }
      if !env.memory {
        return -1;
      }
      var entry := new Entry(fd, events, callback.value);
      var changes := ListAdditions(fd, events);
      var ok := Kevent(changes, env.taken);
      if !ok {
        return -1;
      }
      AdditionAdds(entry.Value(), list.contents);
      list.Prepend(entry);
      return 0;
    }

    method ModHandler(fd: int, events: Events, env: Env) returns (r: int)
      requires Valid()
      modifies this, list, list.repr
      ensures Valid() && list.repr == old(list.repr)
      ensures var op := Mod(fd, events, env); Abs() == old(Apply(Abs(), op)) && r == old(Result(Abs(), op))
    {
      hide AsMap, Position, UniqueFds, HandlerList.Valid, Changed, Differences;
      if fd < 0 {
        return -1;
      }
      PositionInMap(list.contents, fd);
      var entry, i := list.Find(fd);
      if entry == null {
        return -1;
      }
      AsMapAt(list.contents, i);
      var changes := ListChanges(fd, entry.events, events);
      var ok := Kevent(changes, env.taken);
      if !ok {
        return -1;
      }
      UpdateUpdates(list.contents, i, Registration(events, entry.target));
      list.SetEvents(entry, events, i);
      return 0;
    }

    static method ListAdditions(fd: nat, events: Events) returns (changes: seq<Change>)
      ensures changes == Differences(fd, NO_EVENTS, events)
    {
      changes := [];
      if events.read {
        changes := changes + [Change(Filter(fd, Reading), true)];
      }
      if events.write {
        changes := changes + [Change(Filter(fd, Writing), true)];
      }
    }

    static method ListDeletions(fd: nat, events: Events) returns (changes: seq<Change>)
      ensures changes == Differences(fd, events, NO_EVENTS)
    {
      changes := [];
      if events.read {
        changes := changes + [Change(Filter(fd, Reading), false)];
      }
      if events.write {
        changes := changes + [Change(Filter(fd, Writing), false)];
      }
    }

    static method ListChanges(fd: nat, oldEvents: Events, events: Events) returns (changes: seq<Change>)
      ensures changes == Differences(fd, oldEvents, events)
    {
      changes := [];
      if oldEvents.read && !events.read {
        changes := changes + [Change(Filter(fd, Reading), false)];
      }
      if oldEvents.write && !events.write {
        changes := changes + [Change(Filter(fd, Writing), false)];
      }
      if !oldEvents.read && events.read {
        changes := changes + [Change(Filter(fd, Reading), true)];
      }
      if !oldEvents.write && events.write {
        changes := changes + [Change(Filter(fd, Writing), true)];
      }
    }

    method DelHandler(fd: int, env: Env) returns (r: int)
      requires Valid()
      modifies this, list, list.repr
      ensures Valid() && list.repr == old(list.repr)
      ensures var op := Del(fd, env); Abs() == old(Apply(Abs(), op)) && r == old(Result(Abs(), op))
    {
      hide AsMap, Position, UniqueFds, HandlerList.Valid, Changed, Differences;
      if fd < 0 {
        return -1;
      }
      PositionInMap(list.contents, fd);
      var entry, i := list.Find(fd);
      if entry == null {
        return -1;
      }
      AsMapAt(list.contents, i);
      var changes := ListDeletions(fd, entry.events);
      var _ := Kevent(changes, env.taken);
      RemovalRemoves(list.contents, i);
      var removed := list.Remove(fd);
      return if removed then 0 else -1;
    }
  }
}
