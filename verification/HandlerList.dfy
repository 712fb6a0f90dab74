/**
  The singly linked handler list that every back end in src/async keeps, with its search, its
  insertion at the head and its removal through the preceding entry.
 */
module HandlerLists {
  import opened Handlers
  import opened Sequences

  class Entry {
    const fd: nat
    var events: Events
    const target: Target
    var next: Entry?

    constructor (fd: nat, events: Events, target: Target)
      ensures this.fd == fd && this.events == events && this.target == target && next == null
    {
      this.fd, this.events, this.target := fd, events, target;
      next := null;
    }

    function Value(): Handler
      reads this`events
    {
      Handler(fd, Registration(events, target))
    }
  }

  class HandlerList {
    var head: Entry?
    ghost var nodes: seq<Entry>
    ghost var contents: seq<Handler>
    ghost var repr: set<Entry>

    /** The entry at a position, and null at the end. */
    ghost function NodeAt(i: nat): Entry?
      requires i <= |nodes|
      reads this
    {
      if i < |nodes| then nodes[i] else null
    }

    ghost predicate Valid()
      reads this, repr
    {
      && (forall i :: 0 <= i < |nodes| ==> nodes[i] in repr)
      && (forall i, j :: 0 <= i < j < |nodes| ==> nodes[i] != nodes[j])
      && head == NodeAt(0)
      && (forall i :: 0 <= i < |nodes| ==> nodes[i].next == NodeAt(i + 1))
      && |contents| == |nodes|
      && forall i :: 0 <= i < |nodes| ==> nodes[i].Value() == contents[i]
    }

    constructor ()
      ensures Valid() && contents == [] && repr == {}
    {
      head, nodes, contents, repr := null, [], [], {};
    }

    method Find(fd: nat) returns (entry: Entry?, ghost i: nat)
      requires Valid()
      ensures i == Position(contents, fd) && i <= |nodes| && entry == NodeAt(i)
      ensures entry != null <==> Position(contents, fd) < |contents|
      ensures entry != null ==> entry in repr && entry.fd == fd && entry.Value() == contents[Position(contents, fd)]
    {
      i := 0;
      entry := head;
      while entry != null && entry.fd != fd
        invariant i <= |nodes| && entry == NodeAt(i)
        invariant forall k :: 0 <= k < i ==> contents[k].fd != fd
        decreases |nodes| - i
      {
        assert nodes[i].Value() == contents[i];
        entry := entry.next;
        i := i + 1;
      }
      assert i < |nodes| ==> nodes[i].Value() == contents[i];
      PositionIs(contents, fd, i);
    }

    method Prepend(entry: Entry)
      requires Valid() && entry !in repr
      modifies this, entry`next
      ensures Valid() && repr == old(repr) + {entry} && contents == [entry.Value()] + old(contents)
    {
      entry.next := head;
      head := entry;
      ghost var was := nodes;
      nodes, contents, repr := [entry] + nodes, [entry.Value()] + contents, repr + {entry};
      assert forall i :: 1 <= i < |nodes| ==> nodes[i] == was[i - 1];
    }

    /** Takes the head off again. */
    method RemoveHead()
      requires Valid() && contents != []
      modifies this
      ensures Valid() && repr == old(repr) && contents == old(contents)[1..]
    {
      head := head.next;
      nodes, contents := nodes[1..], contents[1..];
    }

    method SetEvents(entry: Entry, events: Events, ghost i: nat)
      requires Valid() && i < |contents| && i <= |nodes| && entry == NodeAt(i)
      modifies this`contents, entry`events
      ensures Valid() && repr == old(repr)
      ensures contents == old(contents)[i := Handler(entry.fd, Registration(events, entry.target))]
    {
      entry.events := events;
      contents := contents[i := Handler(entry.fd, Registration(events, entry.target))];
    }

    /** Links the entry before a position, or the head, to what follows it. */
    method Unlink(prev: Entry?, curr: Entry, ghost i: nat)
      requires Valid() && i < |nodes| && curr == nodes[i]
      requires if i == 0 then prev == null else prev == nodes[i - 1]
      modifies this, repr`next
      ensures Valid() && repr == old(repr) && nodes == RemoveAt(old(nodes), i) && contents == RemoveAt(old(contents), i)
    {
      if prev != null {
        prev.next := curr.next;
      } else {
        head := curr.next;
      }
      hide RemoveAt;
      nodes, contents := RemoveAt(nodes, i), RemoveAt(contents, i);
    }

    /** Unlinks the first entry of a descriptor. */
    method Remove(fd: nat) returns (removed: bool)
      requires Valid()
      modifies this, repr`next
      ensures Valid() && repr == old(repr)
      ensures var i := Position(old(contents), fd);
              && removed == (i < |old(contents)|)
              && contents == (if removed then RemoveAt(old(contents), i) else old(contents))
    {
      var prev: Entry? := null;
      var curr := head;
      ghost var i := 0;
      while curr != null && curr.fd != fd
        invariant i <= |nodes| && curr == NodeAt(i)
        invariant if i == 0 then prev == null else prev == nodes[i - 1]
        invariant forall k :: 0 <= k < i ==> contents[k].fd != fd
        decreases |nodes| - i
      {
        assert nodes[i].Value() == contents[i];
        prev := curr;
        curr := curr.next;
        i := i + 1;
      }
      assert i < |nodes| ==> nodes[i].Value() == contents[i];
      PositionIs(contents, fd, i);
      if curr == null {
        return false;
      }
      Unlink(prev, curr, i);
      return true;
    }
  }

  lemma PositionIs(hs: seq<Handler>, fd: nat, i: nat)
    requires i <= |hs| && (i < |hs| ==> hs[i].fd == fd) && forall k :: 0 <= k < i ==> hs[k].fd != fd
    ensures Position(hs, fd) == i
  {
  }
}
