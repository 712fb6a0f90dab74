/**
  The select back end of src/async/select.c: the registry with a cached maximum descriptor, which
  bounds the descriptors that select examines.
 */
module Select {
  import opened HandlerLists
  import opened Handlers
  import opened Wrappers

  datatype Op =
    | Add(fd: int, events: Events, target: Option<Target>, memory: bool)
    | Mod(fd: int, events: Events)
    | Del(fd: int)

  predicate Succeeds(m: Registry, op: Op) {
    match op
    case Add(fd, _, target, memory) => fd >= 0 && target.Some? && fd !in m && memory
    case Mod(fd, _) => fd in m
    case Del(fd) => fd in m
  }

  function Apply(m: Registry, op: Op): Registry {
    if !Succeeds(m, op) then m
    else
      match op
      case Add(fd, events, target, _) => m[fd := Registration(events, target.value)]
      case Mod(fd, events) => m[fd := m[fd].(events := events)]
      case Del(fd) => m - {fd}
  }

  function OpOf(call: Call, memory: bool): Op {
    match call
    case Adding(fd, events, target) => Add(fd, events, target, memory)
    case Changing(fd, events) => Mod(fd, events)
    case Removing(fd) => Del(fd)
  }

  /** A call succeeds exactly when it is permitted and an addition finds memory, and else changes nothing. */
  lemma CallIs(m: Registry, call: Call, memory: bool)
    ensures var op := OpOf(call, memory);
            && (Succeeds(m, op) <==> Permitted(m, call) && (call.Adding? ==> memory))
            && if Succeeds(m, op) then IsMade(m, call, Apply(m, op)) else Apply(m, op) == m
  {
  }

  /** The largest registered descriptor, or -1 when there is none. */
  ghost predicate IsMaximum(m: Registry, max: int) {
    (forall fd :: fd in m ==> fd <= max) && (if max == -1 then m == map[] else max in m)
  }

  lemma MaximumAfterAddition(m: Registry, max: int, fd: nat, r: Registration)
    requires IsMaximum(m, max)
    ensures IsMaximum(m[fd := r], if fd > max then fd else max)
  {
  }

  /** The loop over the list, in terms of the list. */
  function LargestFd(hs: seq<Handler>): (max: int)
    ensures max >= -1
  {
    if hs == [] then -1
    else
      var rest := LargestFd(hs[1..]);
      if hs[0].fd > rest then hs[0].fd else rest
  }

  lemma {:induction false} LargestFdIsMaximum(hs: seq<Handler>)
    ensures IsMaximum(AsMap(hs), LargestFd(hs))
  {
    if hs != [] {
      LargestFdIsMaximum(hs[1..]);
    }
  }

  class SelectRegistry {
    const list: HandlerList
    var maxFd: int

    ghost predicate Valid()
      reads this, list, list.repr
    {
      list.Valid() && UniqueFds(list.contents) && IsMaximum(Abs(), maxFd)
    }

    ghost function Abs(): Registry
      reads list
    {
      AsMap(list.contents)
    }

    constructor ()
      ensures Valid() && fresh(list) && list.repr == {} && Abs() == map[]
    {
      list := new HandlerList();
      maxFd := -1;
    }

    method UpdateMaxFd()
      requires list.Valid()
      modifies this`maxFd
      ensures maxFd == LargestFd(list.contents)
    {
      maxFd := -1;
      var curr := list.head;
      ghost var i := 0;
      assert list.contents[0..] == list.contents;
      while curr != null
        invariant i <= |list.nodes| && curr == list.NodeAt(i) && maxFd >= -1
        invariant LargestFd(list.contents) == Larger(maxFd, LargestFd(list.contents[i..]))
        decreases |list.nodes| - i
      {
        assert curr.Value() == list.contents[i];
        assert list.contents[i..][1..] == list.contents[i + 1..];
        if curr.fd > maxFd {
          maxFd := curr.fd;
        }
        curr := curr.next;
        i := i + 1;
      }
      assert list.contents[i..] == [];
    }

    method AddHandler(fd: int, events: Events, callback: Option<Target>, memory: bool) returns (r: int)
      requires Valid()
      modifies this, list
      ensures Valid() && fresh(list.repr - old(list.repr))
      ensures var op := Add(fd, events, callback, memory);
              Abs() == old(Apply(Abs(), op)) && r == old(if Succeeds(Abs(), op) then 0 else -1)
    {
      hide AsMap, Position, UniqueFds, HandlerList.Valid, IsMaximum;
      if fd < 0 || callback.None? {
        return -1;
      }
      PositionInMap(list.contents, fd);
      var found, i := list.Find(fd);
      if found != null {
        return -1;
      }
      if !memory {
        return -1;
      }
      var entry := new Entry(fd, events, callback.value);
      AdditionAdds(entry.Value(), list.contents);
      MaximumAfterAddition(Abs(), maxFd, fd, Registration(events, callback.value));
      list.Prepend(entry);
      if fd > maxFd {
        maxFd := fd;
      }
      return 0;
    }

    method ModHandler(fd: int, events: Events) returns (r: int)
      requires Valid()
      modifies this, list, list.repr
      ensures Valid() && list.repr == old(list.repr)
      ensures var op := Mod(fd, events);
              Abs() == old(Apply(Abs(), op)) && r == old(if Succeeds(Abs(), op) then 0 else -1)
    {
      hide AsMap, Position, UniqueFds, HandlerList.Valid;
      if fd < 0 {
        return -1;
      }
      PositionInMap(list.contents, fd);
      var entry, i := list.Find(fd);
      if entry == null {
        return -1;
      }
      AsMapAt(list.contents, i);
      UpdateUpdates(list.contents, i, Registration(events, entry.target));
      list.SetEvents(entry, events, i);
      return 0;
    }

    method DelHandler(fd: int) returns (r: int)
      requires Valid()
      modifies this, list, list.repr
      ensures Valid() && list.repr == old(list.repr)
      ensures var op := Del(fd);
              Abs() == old(Apply(Abs(), op)) && r == old(if Succeeds(Abs(), op) then 0 else -1)
    {
      hide AsMap, Position, UniqueFds, HandlerList.Valid, LargestFd;
      if fd < 0 {
        return -1;
      }
      PositionInMap(list.contents, fd);
      ghost var i := Position(list.contents, fd);
      if i < |list.contents| {
        RemovalRemoves(list.contents, i);
      }
      var removed := list.Remove(fd);
      if !removed {
        return -1;
      }
      UpdateMaxFd();
      LargestFdIsMaximum(list.contents);
      return 0;
    }
  }

  function Larger(a: int, b: int): int {
    if a > b then a else b
  }
}
