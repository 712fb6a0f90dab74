/**
  The WSAPoll back end of src/async/wsapoll.c: an array of poll slots that is rebuilt from the
  handler list after every change and grows when the list does.
 */
module WsaPoll {
  import opened HandlerLists
  import opened Handlers
  import opened Sequences
  import opened Wrappers

  /** One slot of the array; the returned events are cleared by a rebuild. */
  datatype PollFd = PollFd(fd: nat, input: bool, output: bool)

  const HEADROOM: nat := 16

  function SlotOf(h: Handler): PollFd {
    PollFd(h.fd, h.registration.events.read, h.registration.events.write)
  }

  function SlotsOf(hs: seq<Handler>): (slots: seq<PollFd>)
    ensures |slots| == |hs|
  {
    seq(|hs|, i requires 0 <= i < |hs| => SlotOf(hs[i]))
  }

  datatype Op =
    | Add(fd: int, events: Events, target: Option<Target>, memory: bool, growth: bool)
    | Mod(fd: int, events: Events)
    | Del(fd: int)

  /** The handlers in list order and the capacity of the array. */
  datatype State = State(handlers: seq<Handler>, capacity: nat)

  /** An addition needs memory for its entry, and for a larger array when that is full. */
  predicate Succeeds(s: State, op: Op) {
    match op
    case Add(fd, _, target, memory, growth) =>
      fd >= 0 && target.Some? && fd !in AsMap(s.handlers) && memory && (|s.handlers| < s.capacity || growth)
    case Mod(fd, _) => fd in AsMap(s.handlers)
    case Del(fd) => fd in AsMap(s.handlers)
  }

  function Apply(s: State, op: Op): State {
    if !Succeeds(s, op) then s
    else
      match op
      case Add(fd, events, target, _, _) =>
        State([Handler(fd, Registration(events, target.value))] + s.handlers,
              if |s.handlers| < s.capacity then s.capacity else |s.handlers| + 1 + HEADROOM)
      case Mod(fd, events) =>
        PositionInMap(s.handlers, fd);
        var i := Position(s.handlers, fd);
        s.(handlers := s.handlers[i := Handler(s.handlers[i].fd, s.handlers[i].registration.(events := events))])
      case Del(fd) =>
        PositionInMap(s.handlers, fd);
        s.(handlers := RemoveAt(s.handlers, Position(s.handlers, fd)))
  }

  /** What every call keeps: unique descriptors, and no more handlers than slots. */
  predicate IsConsistent(s: State) {
    UniqueFds(s.handlers) && |s.handlers| <= s.capacity
  }

  /** The map that the three kinds of call stand for. */
  function ApplyToMap(m: Registry, op: Op): Registry {
    match op
    case Add(fd, events, target, _, _) =>
      if fd >= 0 && target.Some? then m[fd := Registration(events, target.value)] else m
    case Mod(fd, events) => if fd in m then m[fd := m[fd].(events := events)] else m
    case Del(fd) => m - {fd}
  }

  /** A call that succeeds does to the map what it should; one that fails changes nothing. */
  lemma ApplyRefinesMap(s: State, op: Op)
    requires IsConsistent(s)
    ensures IsConsistent(Apply(s, op))
    ensures Succeeds(s, op) ==> AsMap(Apply(s, op).handlers) == ApplyToMap(AsMap(s.handlers), op)
    ensures !Succeeds(s, op) ==> Apply(s, op) == s
  {
    if Succeeds(s, op) {
      hide AsMap, Position, UniqueFds, HandlerList.Valid;
      match op {
        case Add(fd, events, target, _, _) =>
          AdditionAdds(Handler(fd, Registration(events, target.value)), s.handlers);
        case Mod(fd, events) =>
          PositionInMap(s.handlers, fd);
          var i := Position(s.handlers, fd);
          AsMapAt(s.handlers, i);
          UpdateUpdates(s.handlers, i, s.handlers[i].registration.(events := events));
        case Del(fd) =>
          PositionInMap(s.handlers, fd);
          RemovalRemoves(s.handlers, Position(s.handlers, fd));
      }
    }
  }

  function OpOf(call: Call, memory: bool, growth: bool): Op {
    match call
    case Adding(fd, events, target) => Add(fd, events, target, memory, growth)
    case Changing(fd, events) => Mod(fd, events)
    case Removing(fd) => Del(fd)
  }

  /**
    A call succeeds exactly when it is permitted and an addition finds memory for its entry and, when all
    slots are taken, for more slots, and else changes nothing.
   */
  lemma CallIs(s: State, call: Call, memory: bool, growth: bool)
    requires IsConsistent(s)
    ensures var op, m := OpOf(call, memory, growth), AsMap(s.handlers);
            && (Succeeds(s, op) <==>
                  Permitted(m, call) && (call.Adding? ==> memory && (|s.handlers| == s.capacity ==> growth)))
            && (if Succeeds(s, op) then IsMade(m, call, AsMap(Apply(s, op).handlers)) else Apply(s, op) == s)
            && IsConsistent(Apply(s, op))
  {
    hide AsMap, UniqueFds, Apply, ApplyToMap;
    ApplyRefinesMap(s, OpOf(call, memory, growth));
    if Permitted(AsMap(s.handlers), call) {
      MapCallIs(AsMap(s.handlers), call, memory, growth);
    }
  }

  lemma MapCallIs(m: Registry, call: Call, memory: bool, growth: bool)
    requires Permitted(m, call)
    ensures IsMade(m, call, ApplyToMap(m, OpOf(call, memory, growth)))
  {
  }

  /** Slot i of the array asks for the descriptor and events of handler i. */
  lemma SlotsAsk(hs: seq<Handler>, i: nat)
    requires i < |hs|
    ensures var slot := SlotsOf(hs)[i];
            && slot.fd == hs[i].fd && (slot.input <==> hs[i].registration.events.read)
            && (slot.output <==> hs[i].registration.events.write)
  {
  }

  /** Modifying and deleting never need a larger array, so they cannot fail on a registered descriptor. */
  lemma OnlyAdditionsGrow(s: State, op: Op)
    requires IsConsistent(s)
    ensures !op.Add? ==> Apply(s, op).capacity == s.capacity && |Apply(s, op).handlers| <= s.capacity
    ensures op.Add? && |s.handlers| < s.capacity ==> Apply(s, op).capacity == s.capacity
    ensures op.Add? && Succeeds(s, op) && |s.handlers| == s.capacity ==>
              |Apply(s, op).handlers| == |s.handlers| + 1 && Apply(s, op).capacity == |Apply(s, op).handlers| + 16
  {
    hide AsMap, Position;
    ApplyRefinesMap(s, op);
  }

  class PollRegistry {
    const list: HandlerList
    var pollFds: array<PollFd>
    var nfds: nat

    /** The array mirrors the list: as many slots in use as handlers, each with its handler's mask. */
    ghost predicate Valid()
      reads this, list, list.repr, pollFds
    {
      && list.Valid() && IsConsistent(Abs())
      && nfds == |list.contents| && pollFds[..nfds] == SlotsOf(list.contents)
    }

    ghost function Abs(): State
      reads this, list, pollFds
    {
      State(list.contents, pollFds.Length)
    }

    constructor ()
      ensures Valid() && fresh(list) && fresh(pollFds) && list.repr == {} && Abs() == State([], 0)
    {
      list := new HandlerList();
      pollFds := new PollFd[0];
      nfds := 0;
    }

    method CountHandlers() returns (count: nat)
      requires list.Valid()
      ensures count == |list.contents|
    {
      count := 0;
      var curr := list.head;
      while curr != null
        invariant count <= |list.nodes| && curr == list.NodeAt(count)
        decreases |list.nodes| - count
      {
        count := count + 1;
        curr := curr.next;
      }
    }

    /** Fills the slots from the list. */
    method FillSlots()
      requires list.Valid() && |list.contents| <= pollFds.Length
      modifies this`nfds, pollFds
      ensures nfds == |list.contents| && pollFds[..nfds] == SlotsOf(list.contents)
    {
      nfds := 0;
      var curr := list.head;
      while curr != null
        invariant nfds <= |list.nodes| && curr == list.NodeAt(nfds)
        invariant forall i :: 0 <= i < nfds ==> pollFds[i] == SlotOf(list.contents[i])
        decreases |list.nodes| - nfds
      {
        assert curr.Value() == list.contents[nfds];
        pollFds[nfds] := PollFd(curr.fd, curr.events.read, curr.events.write);
        nfds := nfds + 1;
        curr := curr.next;
      }
    }

    /** Grows the array when the list has become longer, if there is memory, and fills it. */
    method RebuildPollFds(growth: bool) returns (r: int)
      requires list.Valid() && nfds <= pollFds.Length
      modifies this`pollFds, this`nfds, pollFds
      ensures r == (if |list.contents| <= old(pollFds.Length) || growth then 0 else -1)
      ensures r == 0 ==> nfds == |list.contents| <= pollFds.Length && pollFds[..nfds] == SlotsOf(list.contents)
      ensures r == -1 ==> nfds == old(nfds) && pollFds == old(pollFds) && pollFds[..] == old(pollFds[..])
      ensures |list.contents| <= old(pollFds.Length) ==> pollFds == old(pollFds)
      ensures r == 0 && |list.contents| > old(pollFds.Length) ==>
                fresh(pollFds) && pollFds.Length == |list.contents| + HEADROOM
    {
      var count := CountHandlers();
      if count > pollFds.Length {
        if !growth {
          return -1;
        }
        pollFds := new PollFd[count + HEADROOM];
      }
      FillSlots();
      return 0;
    }

    method AddHandler(fd: int, events: Events, callback: Option<Target>, memory: bool, growth: bool) returns (r: int)
      requires Valid()
      modifies this, list, pollFds
      ensures Valid() && fresh(list.repr - old(list.repr)) && (pollFds == old(pollFds) || fresh(pollFds))
      ensures var op := Add(fd, events, callback, memory, growth);
              Abs() == old(Apply(Abs(), op)) && r == old(if Succeeds(Abs(), op) then 0 else -1)
    {
      hide AsMap, Position, UniqueFds, HandlerList.Valid, SlotsOf, RemoveAt;
      if fd < 0 || callback.None? {
        return -1;
      }
      PositionInMap(list.contents, fd);
      var found, i := list.Find(fd);
      if found != null {
        return -1;
      }
      if !memory {
        return -1;
      }
      var entry := new Entry(fd, events, callback.value);
      AdditionAdds(entry.Value(), list.contents);
      list.Prepend(entry);
      r := RebuildPollFds(growth);
      if r < 0 {
        list.RemoveHead();
        return -1;
      }
    }

    method ModHandler(fd: int, events: Events) returns (r: int)
      requires Valid()
      modifies this, list, list.repr, pollFds
      ensures Valid() && list.repr == old(list.repr) && pollFds == old(pollFds)
      ensures var op := Mod(fd, events);
              Abs() == old(Apply(Abs(), op)) && r == old(if Succeeds(Abs(), op) then 0 else -1)
    {
      hide AsMap, Position, UniqueFds, HandlerList.Valid, SlotsOf, RemoveAt;
      if fd < 0 {
        return -1;
      }
      PositionInMap(list.contents, fd);
      var entry, i := list.Find(fd);
      if entry == null {
        return -1;
      }
      UpdateUpdates(list.contents, i, Registration(events, entry.target));
      list.SetEvents(entry, events, i);
      r := RebuildPollFds(false);
    }

    method DelHandler(fd: int) returns (r: int)
      requires Valid()
      modifies this, list, list.repr, pollFds
      ensures Valid() && list.repr == old(list.repr) && pollFds == old(pollFds)
      ensures var op := Del(fd);
              Abs() == old(Apply(Abs(), op)) && r == old(if Succeeds(Abs(), op) then 0 else -1)
    {
      hide AsMap, Position, UniqueFds, HandlerList.Valid, SlotsOf, RemoveAt;
      if fd < 0 {
        return -1;
      }
      PositionInMap(list.contents, fd);
      ghost var i := Position(list.contents, fd);
      if i < |list.contents| {
        RemovalRemoves(list.contents, i);
      }
      var removed := list.Remove(fd);
      if !removed {
        return -1;
      }
      r := RebuildPollFds(false);
    }
  }
}
