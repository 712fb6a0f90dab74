/** The keep-alive pool of src/cwebhttp.c as the linked list that its functions splice in place. */
module PoolObjects {
  import opened Pool
  import opened Sequences
  import opened Wrappers

  class PoolConn {
    const id: nat
    const host: Option<string>
    const port: int
    var keepAlive: bool
    var lastUsed: int
    var next: PoolConn?

    constructor (id: nat, host: Option<string>, port: int, keepAlive: bool, now: int)
      ensures Value() == Conn(id, host, port, keepAlive, now) && next == null
    {
      this.id, this.host, this.port, this.keepAlive, lastUsed, next := id, host, port, keepAlive, now, null;
    }

    ghost function Value(): Conn
      reads this`keepAlive, this`lastUsed
    {
      Conn(id, host, port, keepAlive, lastUsed)
    }
  }

  class ConnectionPool {
    var head: PoolConn?
    var size: int
    ghost var nodes: seq<PoolConn>
    ghost var contents: seq<Conn>
    ghost var closed: seq<Conn>
    ghost var repr: set<PoolConn>

    ghost function NodeAt(i: nat): PoolConn?
      requires i <= |nodes|
      reads this`nodes
    {
      if i < |nodes| then nodes[i] else null
    }

    /** The nodes are linked in order from the head, without a cycle. */
    ghost predicate Linked()
      reads this`nodes, this`repr, this`head, repr`next
    {
      && (forall i :: 0 <= i < |nodes| ==> nodes[i] in repr)
      && (forall i, j :: 0 <= i < j < |nodes| ==> nodes[i] != nodes[j])
      && head == NodeAt(0)
      && forall i :: 0 <= i < |nodes| ==> nodes[i].next == NodeAt(i + 1)
    }

    ghost predicate Recorded()
      reads this`nodes, this`contents, this`repr, repr
    {
      && |contents| == |nodes|
      && forall i :: 0 <= i < |nodes| ==> nodes[i] in repr && nodes[i].Value() == contents[i]
    }

    ghost predicate Valid()
      reads this, repr
    {
      Linked() && Recorded()
    }

    ghost function Abs(): State
      reads this
    {
      State(contents, size, closed)
    }

    constructor ()
      ensures Valid() && repr == {} && Abs() == State([], 0, [])
    {
      head, size, nodes, contents, closed, repr := null, 0, [], [], [], {};
    }

    lemma Look(i: nat)
      requires Valid() && i <= |nodes|
      ensures |contents| == |nodes| && head == NodeAt(0)
      ensures i < |nodes| ==> nodes[i] in repr && nodes[i].next == NodeAt(i + 1) && nodes[i].Value() == contents[i]
    {
    }

    /** Sets the pointer that leads to a connection past it. */
    method Relink(prev: PoolConn?, curr: PoolConn, ghost i: nat)
      requires Linked() && i < |nodes| && nodes[i] == curr
      requires if i == 0 then prev == null else prev == nodes[i - 1]
      modifies this`head, this`nodes, repr`next
      ensures Linked() && nodes == old(RemoveAt(nodes, i))
      ensures curr !in nodes && forall n :: n in nodes ==> n in old(nodes)
    {
      hide RemoveAt;
      if prev == null {
        head := curr.next;
      } else {
        prev.next := curr.next;
      }
      nodes := RemoveAt(nodes, i);
    }

    /** Takes a connection out of the list. */
    method Splice(prev: PoolConn?, curr: PoolConn, ghost i: nat)
      requires Valid() && i < |nodes| == |contents| && nodes[i] == curr
      requires if i == 0 then prev == null else prev == nodes[i - 1]
      modifies this`head, this`size, this`nodes, this`contents, repr`next
      ensures Valid() && nodes == old(RemoveAt(nodes, i)) && |nodes| == |contents|
      ensures curr !in nodes && forall n :: n in nodes ==> n in old(nodes)
      ensures Abs() == old(TakeOut(Abs(), i))
    {
      hide RemoveAt, Linked;
      Relink(prev, curr, i);
      contents := RemoveAt(contents, i);
      size := size - 1;
    }

    /** A connection outside the list may be changed. */
    method HandOut(conn: PoolConn, now: int)
      requires Valid() && conn !in nodes
      modifies conn`next, conn`lastUsed
      ensures Valid() && conn.Value() == old(conn.Value()).(lastUsed := now) && conn.next == null
    {
      conn.next := null;
      conn.lastUsed := now;
    }

    /** A connection to a host and port that has not idled too long; those that have are closed on the way. */
    method GetConnection(host: Option<string>, port: int, now: int) returns (conn: PoolConn?)
      requires Valid()
      modifies this, repr
      ensures Valid() && repr == old(repr)
      ensures old(Get(Abs(), host, port, now)) == (Abs(), if conn == null then None else Some(conn.Value()))
      ensures conn != null ==> conn in old(nodes) && conn !in nodes && conn.next == null
    {
      hide Linked, Recorded, RemoveAt;
      if host.None? {
        return null;
      }
      var prev: PoolConn? := null;
      var curr := head;
      ghost var i := 0;
      Look(0);
      while curr != null
        invariant Valid() && repr == old(repr) && forall n :: n in nodes ==> n in old(nodes)
        invariant i <= |nodes| == |contents| && curr == NodeAt(i)
        invariant if i == 0 then prev == null else prev == nodes[i - 1]
        invariant old(Get(Abs(), host, port, now)) == GetFrom(Abs(), i, host.value, port, now)
        decreases |nodes| - i
      {
        Look(i);
        var next := curr.next;
        if curr.host == host && curr.port == port {
          Splice(prev, curr, i);
          if now - curr.lastUsed > MAX_IDLE_SECONDS {
            closed := closed + [curr.Value()];
            curr := next;
            continue;
          }
          HandOut(curr, now);
          return curr;
        }
        prev := curr;
        curr := next;
        i := i + 1;
      }
      return null;
    }

    method LinkHead(conn: PoolConn)
      requires Linked() && conn !in nodes
      modifies this`head, this`nodes, this`repr, conn`next
      ensures Linked() && repr == old(repr) + {conn} && nodes == [conn] + old(nodes)
    {
      conn.next := head;
      head := conn;
      ghost var was := nodes;
      nodes, repr := [conn] + nodes, repr + {conn};
      forall i | 1 <= i < |nodes|
        ensures nodes[i] == was[i - 1] && nodes[i] != conn && nodes[i].next == NodeAt(i + 1)
      {
      }
    }

    /** Pools a connection that its holder is done with, or closes it. */
    method ReturnConnection(conn: PoolConn?, now: int)
      requires Valid() && (conn != null ==> conn !in nodes)
      modifies this, conn
      ensures Valid()
      ensures conn == null ==> Abs() == old(Abs()) && repr == old(repr)
      ensures conn != null ==> Abs() == old(Return(Abs(), conn.Value(), now)) && repr <= old(repr) + {conn}
    {
      hide Linked, Recorded;
      if conn == null {
        return;
      }
      if !conn.keepAlive {
        closed := closed + [conn.Value()];
        return;
      }
      if size >= MAX_CONNECTIONS {
        closed := closed + [conn.Value()];
        return;
      }
      StampAndLink(conn, now);
      size := size + 1;
    }

    /** The connection becomes the head of the list, used just now. */
    method StampAndLink(conn: PoolConn, now: int)
      requires Valid() && conn !in nodes
      modifies this`head, this`nodes, this`contents, this`repr, conn`next, conn`lastUsed
      ensures Valid() && repr == old(repr) + {conn}
      ensures contents == [old(conn.Value()).(lastUsed := now)] + old(contents)
    {
      hide Linked;
      Stamp(conn, now);
      hide PoolConn.Value;
      LinkHead(conn);
      contents := [conn.Value()] + contents;
      assert forall i :: 1 <= i < |nodes| ==> nodes[i] == old(nodes)[i - 1] && contents[i] == old(contents)[i - 1];
    }

    method Stamp(conn: PoolConn, now: int)
      requires Valid() && conn !in nodes
      modifies conn`lastUsed
      ensures Valid() && conn.Value() == old(conn.Value()).(lastUsed := now)
    {
      conn.lastUsed := now;
    }

    /** Closes every pooled connection and empties the pool. */
    method Clear()
      modifies this`head, this`size, this`nodes, this`contents
      ensures Valid() && size == 0 && contents == []
    {
      head, size, nodes, contents := null, 0, [], [];
    }

    method CleanUp()
      requires Valid()
      modifies this
      ensures Valid() && repr == old(repr) && Abs() == old(Cleanup(Abs()))
    {
      hide Linked, Recorded;
      var curr := head;
      ghost var i := 0;
      Look(0);
      while curr != null
        invariant Valid() && i <= |nodes| == |contents| && curr == NodeAt(i)
        invariant contents == old(contents) && repr == old(repr) && closed == old(closed) + contents[..i]
        decreases |nodes| - i
      {
        Look(i);
        closed := closed + [curr.Value()];
        assert contents[..i + 1] == contents[..i] + [contents[i]];
        Associate(old(closed), contents[..i], [contents[i]]);
        curr := curr.next;
        i := i + 1;
      }
      assert contents[..i] == contents;
      Clear();
    }
  }
}
