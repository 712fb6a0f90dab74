/**
  The event handlers of the loop back ends in src/async: what a registry holds, as a sequence of
  handlers in list order and as the map from descriptors that the sequence stands for.
 */
module Handlers {
  import opened Sequences
  import opened Wrappers

  /** The three event bits. */
  datatype Events = Events(read: bool, write: bool, error: bool)

  /** A callback and its data, as far as a registry can tell them apart. */
  datatype Target = Target(callback: nat, data: nat)

  datatype Registration = Registration(events: Events, target: Target)

  datatype Handler = Handler(fd: nat, registration: Registration)

  type Registry = map<nat, Registration>

  predicate UniqueFds(hs: seq<Handler>) {
    forall i, j :: 0 <= i < j < |hs| ==> hs[i].fd != hs[j].fd
  }

  /** The position of the first handler of a descriptor, or the length. */
  function Position(hs: seq<Handler>, fd: nat): (k: nat)
    ensures k <= |hs| && (k < |hs| ==> hs[k].fd == fd)
    ensures forall i :: 0 <= i < k ==> hs[i].fd != fd
  {
    if hs == [] || hs[0].fd == fd then 0 else 1 + Position(hs[1..], fd)
  }

  function Fds(hs: seq<Handler>): set<nat> {
    set i | 0 <= i < |hs| :: hs[i].fd
  }

  function AsMap(hs: seq<Handler>): (m: Registry) {
    if hs == [] then map[] else AsMap(hs[1..])[hs[0].fd := hs[0].registration]
  }

  lemma {:induction false} AsMapKeys(hs: seq<Handler>)
    ensures AsMap(hs).Keys == Fds(hs)
  {
    if hs != [] {
      AsMapKeys(hs[1..]);
      assert hs == [hs[0]] + hs[1..];
      assert Fds(hs) == {hs[0].fd} + Fds(hs[1..]) by {
        forall fd | fd in Fds(hs)
          ensures fd in {hs[0].fd} + Fds(hs[1..])
        {
          var i :| 0 <= i < |hs| && hs[i].fd == fd;
          assert i > 0 ==> hs[1..][i - 1].fd == fd;
        }
        forall fd | fd in Fds(hs[1..])
          ensures fd in Fds(hs)
        {
          var i :| 0 <= i < |hs[1..]| && hs[1..][i].fd == fd;
          assert hs[i + 1].fd == fd;
        }
      }
    }
  }

  lemma {:induction false} AsMapAt(hs: seq<Handler>, i: nat)
    requires UniqueFds(hs) && i < |hs|
    ensures hs[i].fd in AsMap(hs) && AsMap(hs)[hs[i].fd] == hs[i].registration
  {
    if i > 0 {
      AsMapAt(hs[1..], i - 1);
    }
  }

  /** A descriptor is registered exactly when some handler has it. */
  lemma PositionInMap(hs: seq<Handler>, fd: nat)
    ensures fd in AsMap(hs) <==> Position(hs, fd) < |hs|
  {
    AsMapKeys(hs);
    var i := Position(hs, fd);
    assert i < |hs| ==> hs[i].fd in Fds(hs);
  }

  lemma UniqueRest(hs: seq<Handler>)
    requires UniqueFds(hs) && hs != []
    ensures UniqueFds(hs[1..]) && hs[0].fd !in AsMap(hs[1..])
  {
    AsMapKeys(hs[1..]);
  }

  /** Taking a handler out of the list takes its descriptor out of the map. */
  lemma {:induction false} RemovalRemoves(hs: seq<Handler>, i: nat)
    requires UniqueFds(hs) && i < |hs|
    ensures UniqueFds(RemoveAt(hs, i)) && AsMap(RemoveAt(hs, i)) == AsMap(hs) - {hs[i].fd}
  {
    UniqueRest(hs);
    var rest := hs[1..];
    if i == 0 {
      assert RemoveAt(hs, 0) == rest;
    } else {
      RemovalRemoves(rest, i - 1);
      assert RemoveAt(hs, i) == [hs[0]] + RemoveAt(rest, i - 1);
      assert RemoveAt(hs, i)[1..] == RemoveAt(rest, i - 1);
      assert AsMap(hs) - {hs[i].fd} == (AsMap(rest) - {hs[i].fd})[hs[0].fd := hs[0].registration];
    }
  }

  /** Changing a handler in place changes the map at its descriptor alone. */
  lemma {:induction false} UpdateUpdates(hs: seq<Handler>, i: nat, r: Registration)
    requires UniqueFds(hs) && i < |hs|
    ensures var changed := hs[i := Handler(hs[i].fd, r)];
            UniqueFds(changed) && AsMap(changed) == AsMap(hs)[hs[i].fd := r]
  {
    UniqueRest(hs);
    var changed, rest := hs[i := Handler(hs[i].fd, r)], hs[1..];
    if i == 0 {
      assert changed[1..] == rest;
    } else {
      UpdateUpdates(rest, i - 1, r);
      assert changed[1..] == rest[i - 1 := Handler(hs[i].fd, r)];
    }
  }

  /** A new handler at the head adds its descriptor to the map. */
  lemma AdditionAdds(h: Handler, hs: seq<Handler>)
    requires UniqueFds(hs) && h.fd !in AsMap(hs)
    ensures UniqueFds([h] + hs) && AsMap([h] + hs) == AsMap(hs)[h.fd := h.registration]
  {
    AsMapKeys(hs);
    var all := [h] + hs;
    assert all[1..] == hs;
    forall j | 0 <= j < |hs|
      ensures hs[j].fd != h.fd
    {
      assert hs[j].fd in Fds(hs);
    }
    assert forall j :: 1 <= j < |all| ==> all[j] == hs[j - 1];
  }
  // ----- what a call means, whatever the back end

  /** A call, apart from what it needs of its surroundings. */
  datatype Call =
    | Adding(fd: int, events: Events, target: Option<Target>)
    | Changing(fd: int, events: Events)
    | Removing(fd: int)

  /** The call makes sense: a valid descriptor that is not there yet, with a callback, or one that is there. */
  predicate Permitted(m: Registry, call: Call) {
    match call
    case Adding(fd, _, target) => fd >= 0 && target.Some? && fd !in m
    case Changing(fd, _) => fd in m
    case Removing(fd) => fd in m
  }

  function LookUp(m: Registry, fd: int): Option<Registration> {
    if fd in m then Some(m[fd]) else None
  }

  /** What the call leaves at its own descriptor: a change keeps the callback and its data. */
  function Left(m: Registry, call: Call): Option<Registration>
    requires Permitted(m, call)
  {
    match call
    case Adding(_, events, target) => Some(Registration(events, target.value))
    case Changing(fd, events) => Some(Registration(events, m[fd].target))
    case Removing(_) => None
  }

  /** One registry is the other after the call: it differs at the descriptor of the call alone. */
  ghost predicate IsMade(m: Registry, call: Call, after: Registry)
    requires Permitted(m, call)
  {
    forall fd: nat :: LookUp(after, fd) == if fd == call.fd then Left(m, call) else LookUp(m, fd)
  }

  lemma SameLookUps(a: Registry, b: Registry)
    requires forall fd: nat :: LookUp(a, fd) == LookUp(b, fd)
    ensures a == b
  {
    forall fd: nat
      ensures (fd in a <==> fd in b) && (fd in a ==> a[fd] == b[fd])
    {
      assert LookUp(a, fd) == LookUp(b, fd);
    }
  }

  /** A call leaves no choice. */
  lemma MadeOnce(m: Registry, call: Call, a: Registry, b: Registry)
    requires Permitted(m, call) && IsMade(m, call, a) && IsMade(m, call, b)
    ensures a == b
  {
    hide LookUp;
    forall fd: nat
      ensures LookUp(a, fd) == LookUp(b, fd)
    {
    }
    SameLookUps(a, b);
  }
}
