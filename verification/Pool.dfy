/**
  The keep-alive pool of src/cwebhttp.c: a linked list of idle connections that get and return splice
  in place, and the bookkeeping of who owns each connection over any run.
 */
module Pool {
  import opened Sequences
  import opened Wrappers

  const MAX_IDLE_SECONDS: int := 60
  const MAX_CONNECTIONS: int := 10

  /** A connection; the pool never looks into its socket, which `id` stands for. */
  datatype Conn = Conn(id: nat, host: Option<string>, port: int, keepAlive: bool, lastUsed: int)

  /** The list with its cached length, and the connections closed so far. */
  datatype State = State(pooled: seq<Conn>, size: int, closed: seq<Conn>)

  predicate Matches(c: Conn, host: string, port: int) {
    c.host == Some(host) && c.port == port
  }

  predicate Expired(c: Conn, now: int) {
    now - c.lastUsed > MAX_IDLE_SECONDS
  }

  // ----- the operations

  function TakeOut(s: State, i: nat): State
    requires i < |s.pooled|
  {
    s.(pooled := RemoveAt(s.pooled, i), size := s.size - 1)
  }

  function Drop(s: State, i: nat): State
    requires i < |s.pooled|
  {
    TakeOut(s, i).(closed := s.closed + [s.pooled[i]])
  }

  /** The search from a position on: expired matches are dropped on the way to the first other match. */
  function GetFrom(s: State, i: nat, host: string, port: int, now: int): (State, Option<Conn>)
    requires i <= |s.pooled|
    decreases |s.pooled| - i
  {
    if i == |s.pooled| then (s, None)
    else if !Matches(s.pooled[i], host, port) then GetFrom(s, i + 1, host, port, now)
    else if Expired(s.pooled[i], now) then GetFrom(Drop(s, i), i, host, port, now)
    else (TakeOut(s, i), Some(s.pooled[i].(lastUsed := now)))
  }

  function Get(s: State, host: Option<string>, port: int, now: int): (State, Option<Conn>) {
    if host.None? then (s, None) else GetFrom(s, 0, host.value, port, now)
  }

  function Return(s: State, c: Conn, now: int): State {
    if !c.keepAlive || s.size >= MAX_CONNECTIONS then s.(closed := s.closed + [c])
    else s.(pooled := [c.(lastUsed := now)] + s.pooled, size := s.size + 1)
  }

  function Cleanup(s: State): State {
    State([], 0, s.closed + s.pooled)
  }

  // ----- what get finds

  /** The position of the most recently pooled match that has not expired, or the length. */
  function Selected(cs: seq<Conn>, host: string, port: int, now: int): (k: nat)
    ensures k <= |cs|
    ensures k < |cs| ==> Matches(cs[k], host, port) && !Expired(cs[k], now)
    ensures forall i :: 0 <= i < k ==> !Matches(cs[i], host, port) || Expired(cs[i], now)
  {
    if cs == [] || (Matches(cs[0], host, port) && !Expired(cs[0], now)) then 0
    else 1 + Selected(cs[1..], host, port, now)
  }

  /** The connections that match, or those that do not, in order. */
  function Those(cs: seq<Conn>, host: string, port: int, matching: bool): (r: seq<Conn>)
    ensures forall c :: c in r <==> c in cs && Matches(c, host, port) == matching
  {
    if cs == [] then []
    else (if Matches(cs[0], host, port) == matching then [cs[0]] else []) + Those(cs[1..], host, port, matching)
  }

  /** What the search keeps, drops and hands out of a list. */
  function Searched(cs: seq<Conn>, host: string, port: int, now: int): (seq<Conn>, seq<Conn>, Option<Conn>) {
    if cs == [] then ([], [], None)
    else
      var (kept, dropped, r) := Searched(cs[1..], host, port, now);
      if !Matches(cs[0], host, port) then ([cs[0]] + kept, dropped, r)
      else if Expired(cs[0], now) then (kept, [cs[0]] + dropped, r)
      else (cs[1..], [], Some(cs[0].(lastUsed := now)))
  }

  lemma {:induction false} SearchedIs(cs: seq<Conn>, host: string, port: int, now: int)
    ensures var k := Selected(cs, host, port, now);
            var (kept, dropped, r) := Searched(cs, host, port, now);
            && kept == Those(cs[..k], host, port, false) + (if k < |cs| then cs[k + 1..] else [])
            && dropped == Those(cs[..k], host, port, true)
            && r == (if k < |cs| then Some(cs[k].(lastUsed := now)) else None)
  {
    hide Matches, Expired;
    if cs != [] && !(Matches(cs[0], host, port) && !Expired(cs[0], now)) {
      var rest := cs[1..];
      SearchedIs(rest, host, port, now);
      var k := Selected(rest, host, port, now);
      assert Selected(cs, host, port, now) == k + 1;
      assert cs[..k + 1][1..] == rest[..k] && cs[..k + 1][0] == cs[0];
      assert k < |rest| ==> cs[k + 2..] == rest[k + 1..];
      hide Selected;
      if Matches(cs[0], host, port) {
        assert [] + Those(rest[..k], host, port, false) == Those(rest[..k], host, port, false);
      } else {
        assert [] + Those(rest[..k], host, port, true) == Those(rest[..k], host, port, true);
        Associate([cs[0]], Those(rest[..k], host, port, false), if k < |rest| then rest[k + 1..] else []);
      }
    }
  }

  lemma {:induction false} GetFromIs(s: State, i: nat, host: string, port: int, now: int)
    requires i <= |s.pooled|
    ensures var (kept, dropped, r) := Searched(s.pooled[i..], host, port, now);
            && GetFrom(s, i, host, port, now).0.pooled == s.pooled[..i] + kept
            && GetFrom(s, i, host, port, now).0.closed == s.closed + dropped
            && GetFrom(s, i, host, port, now).1 == r
            && GetFrom(s, i, host, port, now).0.size == s.size - (|s.pooled| - |s.pooled[..i] + kept|)
    decreases |s.pooled| - i
  {
    hide Matches, Expired;
    var rest := s.pooled[i..];
    if i == |s.pooled| {
      assert s.pooled[..i] + [] == s.pooled && s.closed + [] == s.closed;
    } else {
      var (kept, dropped, r) := Searched(rest[1..], host, port, now);
      assert rest[0] == s.pooled[i] && rest[1..] == s.pooled[i + 1..];
      if !Matches(s.pooled[i], host, port) {
        GetFromIs(s, i + 1, host, port, now);
        assert s.pooled[..i + 1] == s.pooled[..i] + [rest[0]];
        Associate(s.pooled[..i], [rest[0]], kept);
      } else if Expired(s.pooled[i], now) {
        var d := Drop(s, i);
        assert d.pooled[i..] == rest[1..] && d.pooled[..i] == s.pooled[..i];
        GetFromIs(d, i, host, port, now);
        Associate(s.closed, [rest[0]], dropped);
      } else {
        assert s.closed + [] == s.closed;
      }
    }
  }

  /**
    get hands out the most recently pooled match that has not expired; it closes exactly the matches
    before it, which have all expired, and keeps everything else in order.
   */
  lemma GetIs(s: State, host: string, port: int, now: int)
    ensures var k := Selected(s.pooled, host, port, now);
            var (t, r) := Get(s, Some(host), port, now);
            var passed := s.pooled[..k];
            && r == (if k < |s.pooled| then Some(s.pooled[k].(lastUsed := now)) else None)
            && t.pooled == Those(passed, host, port, false) + (if k < |s.pooled| then s.pooled[k + 1..] else [])
            && t.closed == s.closed + Those(passed, host, port, true)
            && (forall c :: c in Those(passed, host, port, true) ==> Expired(c, now))
            && t.size - |t.pooled| == s.size - |s.pooled|
  {
    hide Expired, Those, Selected, Searched, GetFrom;
    assert s.pooled[0..] == s.pooled;
    GetFromIs(s, 0, host, port, now);
    SearchedIs(s.pooled, host, port, now);
    var kept := Searched(s.pooled, host, port, now).0;
    assert s.pooled[..0] + kept == kept;
    var k := Selected(s.pooled, host, port, now);
    forall c | c in Those(s.pooled[..k], host, port, true)
      ensures Expired(c, now)
    {
      var i :| 0 <= i < k && s.pooled[i] == c;
    }
  }

  lemma {:induction false} NoMatches(cs: seq<Conn>, host: string, port: int)
    requires forall i :: 0 <= i < |cs| ==> !Matches(cs[i], host, port)
    ensures Those(cs, host, port, true) == []
  {
    if cs != [] {
      NoMatches(cs[1..], host, port);
    }
  }

  /** The list is in the order of last use, as it is while the clock does not run backwards. */
  predicate NewestFirst(cs: seq<Conn>) {
    forall i, j :: 0 <= i < j < |cs| ==> cs[i].lastUsed >= cs[j].lastUsed
  }

  /**
    In that order, get either hands out the match used last and closes nothing, or closes every match:
    it never leaves an expired match behind an answer of none.
   */
  lemma GetByRecency(s: State, host: string, port: int, now: int)
    requires NewestFirst(s.pooled)
    ensures var (t, r) := Get(s, Some(host), port, now);
            r.Some? ==>
              && t.closed == s.closed
              && exists c :: c in s.pooled && Matches(c, host, port) && r == Some(c.(lastUsed := now))
                          && forall d :: d in s.pooled && Matches(d, host, port) ==> d.lastUsed <= c.lastUsed
    ensures var (t, r) := Get(s, Some(host), port, now);
            r.None? ==>
              && t.pooled == Those(s.pooled, host, port, false)
              && t.closed == s.closed + Those(s.pooled, host, port, true)
  {
    hide Those, Selected;
    GetIs(s, host, port, now);
    var k := Selected(s.pooled, host, port, now);
    var passed := s.pooled[..k];
    if k < |s.pooled| {
      var c := s.pooled[k];
      assert forall i :: 0 <= i < k ==> !Expired(s.pooled[i], now) && !Matches(passed[i], host, port);
      NoMatches(passed, host, port);
      assert s.closed + [] == s.closed;
      forall d | d in s.pooled && Matches(d, host, port)
        ensures d.lastUsed <= c.lastUsed
      {
        var i :| 0 <= i < |s.pooled| && s.pooled[i] == d;
        assert i < k ==> Expired(d, now);
      }
    } else {
      assert passed == s.pooled && Those(passed, host, port, false) + [] == Those(passed, host, port, false);
    }
  }

  /**
    get hands out a connection to that host and port that was used in the last sixty seconds, whenever
    there is one. It closes nothing but connections to that host and port that were not, and it loses
    and invents nothing.
   */
  lemma GetMeans(s: State, host: string, port: int, now: int)
    ensures var (t, r) := Get(s, Some(host), port, now);
            && (r.Some? <==>
                  exists c :: c in s.pooled && c.host == Some(host) && c.port == port && now - c.lastUsed <= 60)
            && (r.Some? ==> exists c :: c in s.pooled && c.host == Some(host) && c.port == port
                                        && now - c.lastUsed <= 60 && r.value == c.(lastUsed := now))
            && s.closed <= t.closed
            && (forall c :: c in t.closed[|s.closed|..] ==>
                  c in s.pooled && c.host == Some(host) && c.port == port && now - c.lastUsed > 60)
            && (forall c :: c in t.pooled ==> c in s.pooled)
            && (forall c :: c in s.pooled && !(c.host == Some(host) && c.port == port) ==> c in t.pooled)
  {
    hide Get;
    GetIs(s, host, port, now);
    var k := Selected(s.pooled, host, port, now);
    var (t, r) := Get(s, Some(host), port, now);
    var passed := s.pooled[..k];
    assert t.closed[|s.closed|..] == Those(passed, host, port, true);
    if k < |s.pooled| {
      assert s.pooled[k] in s.pooled;
    }
    forall c | c in s.pooled && !(c.host == Some(host) && c.port == port)
      ensures c in t.pooled
    {
      var i :| 0 <= i < |s.pooled| && s.pooled[i] == c;
      assert i < k ==> passed[i] == c;
      assert i > k ==> s.pooled[k + 1..][i - k - 1] == c;
    }
  }

  /** A connection that may be kept is the first of the pool if there is room, and else is closed. */
  lemma ReturnMeans(s: State, c: Conn, now: int)
    ensures Return(s, c, now)
         == if c.keepAlive && s.size < 10
            then State([Conn(c.id, c.host, c.port, true, now)] + s.pooled, s.size + 1, s.closed)
            else State(s.pooled, s.size, s.closed + [c])
  {
  }

  /** What has just been returned is what the next get for its host and port hands out, and the pool is as before. */
  lemma ReturnThenGet(s: State, c: Conn, now: int, later: int)
    requires c.keepAlive && s.size < 10 && c.host.Some? && later - now <= 60
    ensures Get(Return(s, c, now), c.host, c.port, later) == (s, Some(c.(lastUsed := later)))
  {
    var all := [c.(lastUsed := now)] + s.pooled;
    assert all[0] == c.(lastUsed := now) && RemoveAt(all, 0) == s.pooled;
  }

  // ----- who owns each connection, over runs

  /** The pool, the connections held by callers, and how many have ever been opened. */
  datatype World = World(pool: State, held: multiset<nat>, created: nat, clock: int)

  datatype Event =
    | Open
    | GetEvent(host: Option<string>, port: int, now: int)
    | ReturnEvent(conn: Conn, now: int)
    | CleanupEvent

  /** Only connections that are held are returned, and the clock does not run backwards. */
  predicate Feasible(w: World, e: Event) {
    match e
    case ReturnEvent(conn, now) => conn.id in w.held && now >= w.clock
    case GetEvent(_, _, now) => now >= w.clock
    case _ => true
  }

  function Step(w: World, e: Event): World {
    match e
    case Open => w.(held := w.held + multiset{w.created}, created := w.created + 1)
    case GetEvent(host, port, now) =>
      var (t, r) := Get(w.pool, host, port, now);
      w.(pool := t, held := w.held + (if r.Some? then multiset{r.value.id} else multiset{}), clock := now)
    case ReturnEvent(conn, now) =>
      w.(pool := Return(w.pool, conn, now), held := w.held - multiset{conn.id}, clock := now)
    case CleanupEvent => w.(pool := Cleanup(w.pool))
  }

  /** A connection that is returned and asked for again is held again, and the pool is as before. */
  lemma ReturnedIsHeldAgain(w: World, c: Conn, now: int, later: int)
    requires Sized(w.pool) && c.id in w.held && c.keepAlive && w.pool.size < 10 && c.host.Some? && later - now <= 60
    ensures var returned := Step(w, ReturnEvent(c, now));
            && returned.held == w.held - multiset{c.id} && |returned.pool.pooled| == |w.pool.pooled| + 1
            && Step(returned, GetEvent(c.host, c.port, later)) == w.(clock := later)
  {
    ReturnThenGet(w.pool, c, now, later);
    assert w.held - multiset{c.id} + multiset{c.id} == w.held;
  }

  /** A new connection is held by who opened it, and cleaning up closes everything that is pooled. */
  lemma OpenAndCleanup(w: World)
    ensures Step(w, Open).held[w.created] == w.held[w.created] + 1 && Step(w, Open).created == w.created + 1
    ensures Step(w, Open).pool == w.pool
    ensures Step(w, CleanupEvent) == w.(pool := State([], 0, w.pool.closed + w.pool.pooled))
  {
  }

  function Ids(cs: seq<Conn>): (r: seq<nat>)
    ensures |r| == |cs|
  {
    seq(|cs|, i requires 0 <= i < |cs| => cs[i].id)
  }

  /** Every connection ever opened is pooled, held or closed: exactly one of them, and once. */
  ghost predicate Census(w: World) {
    multiset(Ids(w.pool.pooled)) + w.held + multiset(Ids(w.pool.closed)) == multiset(UpTo(w.created))
  }

  predicate Sized(s: State) {
    s.size == |s.pooled| <= MAX_CONNECTIONS
  }

  predicate Dated(w: World) {
    NewestFirst(w.pool.pooled) && forall i :: 0 <= i < |w.pool.pooled| ==> w.pool.pooled[i].lastUsed <= w.clock
  }

  ghost predicate Inv(w: World) {
    Sized(w.pool) && Census(w) && Dated(w)
  }

  lemma IdsOf(a: seq<Conn>, b: seq<Conn>)
    ensures multiset(Ids(a + b)) == multiset(Ids(a)) + multiset(Ids(b))
  {
    assert Ids(a + b) == Ids(a) + Ids(b);
  }

  lemma IdsOfOne(c: Conn)
    ensures multiset(Ids([c])) == multiset{c.id}
  {
    assert Ids([c]) == [c.id];
  }

  lemma IdsAfterRemoval(cs: seq<Conn>, i: nat)
    requires i < |cs|
    ensures multiset(Ids(RemoveAt(cs, i))) + multiset{cs[i].id} == multiset(Ids(cs))
  {
    var ids := Ids(cs);
    assert Ids(RemoveAt(cs, i)) == ids[..i] + ids[i + 1..];
    assert ids == ids[..i] + [ids[i]] + ids[i + 1..];
  }

  /** What get takes out is closed or handed out; the rest keeps its order. */
  lemma {:induction false} GetConserves(s: State, i: nat, host: string, port: int, now: int)
    requires i <= |s.pooled|
    ensures var (t, r) := GetFrom(s, i, host, port, now);
            && multiset(Ids(t.pooled)) + multiset(Ids(t.closed))
               + (if r.Some? then multiset{r.value.id} else multiset{})
               == multiset(Ids(s.pooled)) + multiset(Ids(s.closed))
            && (forall x :: x in t.pooled ==> x in s.pooled)
            && (NewestFirst(s.pooled) ==> NewestFirst(t.pooled))
            && (Sized(s) ==> Sized(t))
    decreases |s.pooled| - i
  {
    hide Ids, Matches, Expired, RemoveAt;
    if i < |s.pooled| {
      IdsAfterRemoval(s.pooled, i);
      if !Matches(s.pooled[i], host, port) {
        GetConserves(s, i + 1, host, port, now);
      } else if Expired(s.pooled[i], now) {
        IdsOf(s.closed, [s.pooled[i]]);
        IdsOfOne(s.pooled[i]);
        GetConserves(Drop(s, i), i, host, port, now);
      }
    }
  }

  lemma GetKeepsCensus(w: World, host: string, port: int, now: int)
    requires Census(w)
    ensures Census(Step(w, GetEvent(Some(host), port, now)))
  {
    hide Ids, UpTo, GetFrom;
    GetConserves(w.pool, 0, host, port, now);
    var (t, r) := GetFrom(w.pool, 0, host, port, now);
    var out := if r.Some? then multiset{r.value.id} else multiset{};
    assert multiset(Ids(t.pooled)) + (w.held + out) + multiset(Ids(t.closed))
        == (multiset(Ids(t.pooled)) + multiset(Ids(t.closed)) + out) + w.held;
  }

  lemma GetKeepsInv(w: World, host: string, port: int, now: int)
    requires Inv(w) && now >= w.clock
    ensures Inv(Step(w, GetEvent(Some(host), port, now)))
  {
    hide Census, Ids, GetFrom, NewestFirst;
    GetKeepsCensus(w, host, port, now);
    GetConserves(w.pool, 0, host, port, now);
    var t := GetFrom(w.pool, 0, host, port, now).0;
    forall i | 0 <= i < |t.pooled|
      ensures t.pooled[i].lastUsed <= now
    {
      assert t.pooled[i] in w.pool.pooled;
    }
  }

  lemma ReturnKeepsCensus(w: World, c: Conn, now: int)
    requires Census(w) && c.id in w.held
    ensures Census(Step(w, ReturnEvent(c, now)))
  {
    hide Ids, UpTo;
    IdsOf([c.(lastUsed := now)], w.pool.pooled);
    IdsOf(w.pool.closed, [c]);
    IdsOfOne(c);
    IdsOfOne(c.(lastUsed := now));
    assert w.held == (w.held - multiset{c.id}) + multiset{c.id};
  }

  lemma ReturnKeepsInv(w: World, c: Conn, now: int)
    requires Inv(w) && c.id in w.held && now >= w.clock
    ensures Inv(Step(w, ReturnEvent(c, now)))
  {
    ReturnKeepsCensus(w, c, now);
    PrependedIsNewest(c.(lastUsed := now), w.pool.pooled);
    hide Census, NewestFirst;
  }

  lemma PrependedIsNewest(c: Conn, cs: seq<Conn>)
    requires NewestFirst(cs) && forall i :: 0 <= i < |cs| ==> cs[i].lastUsed <= c.lastUsed
    ensures NewestFirst([c] + cs) && forall i :: 0 <= i < |[c] + cs| ==> ([c] + cs)[i].lastUsed <= c.lastUsed
  {
  }

  lemma StepKeepsInv(w: World, e: Event)
    requires Inv(w) && Feasible(w, e)
    ensures Inv(Step(w, e))
  {
    match e {
      case Open =>
        hide Ids, UpTo;
        UpToNext(w.created);
      case GetEvent(host, port, now) =>
        if host.Some? {
          GetKeepsInv(w, host.value, port, now);
        }
      case ReturnEvent(conn, now) =>
        ReturnKeepsInv(w, conn, now);
      case CleanupEvent =>
        assert Ids([]) == [];
        hide Ids, UpTo;
        IdsOf(w.pool.closed, w.pool.pooled);
    }
  }

  function InitialWorld(clock: int): World {
    World(State([], 0, []), multiset{}, 0, clock)
  }

  ghost predicate IsRun(ws: seq<World>, events: seq<Event>) {
    && |ws| == |events| + 1 && ws[0] == InitialWorld(ws[0].clock)
    && forall i :: 0 <= i < |events| ==> Feasible(ws[i], events[i]) && ws[i + 1] == Step(ws[i], events[i])
  }

  lemma {:induction false} ReachableWorldsKeepInv(ws: seq<World>, events: seq<Event>, k: nat)
    requires IsRun(ws, events) && k < |ws|
    ensures Inv(ws[k])
  {
    if k == 0 {
      assert Ids([]) == [] && UpTo(0) == [];
    } else {
      hide Inv, Step;
      ReachableWorldsKeepInv(ws, events, k - 1);
      StepKeepsInv(ws[k - 1], events[k - 1]);
      assert ws[k - 1 + 1] == Step(ws[k - 1], events[k - 1]);
    }
  }

  /**
    Over every run the pool's size is the length of its list and at most ten, and each connection ever
    opened is in exactly one place: pooled once, held once or closed once.
   */
  lemma EachInOnePlace(ws: seq<World>, events: seq<Event>, k: nat, id: nat)
    requires IsRun(ws, events) && k < |ws|
    ensures ws[k].pool.size == |ws[k].pool.pooled| <= MAX_CONNECTIONS
    ensures multiset(Ids(ws[k].pool.pooled))[id] + ws[k].held[id] + multiset(Ids(ws[k].pool.closed))[id]
            == if id < ws[k].created then 1 else 0
  {
    hide IsRun, Ids, UpTo, Dated;
    ReachableWorldsKeepInv(ws, events, k);
    UpToOnce(ws[k].created, id);
    var w := ws[k];
    assert (multiset(Ids(w.pool.pooled)) + w.held + multiset(Ids(w.pool.closed)))[id] == multiset(UpTo(w.created))[id];
  }

  /**
    In every run a get that finds nothing has left no expired match behind, and one that finds
    something found the last used.
   */
  lemma GetInRuns(ws: seq<World>, events: seq<Event>, k: nat, host: string, port: int, now: int)
    requires IsRun(ws, events) && k < |ws|
    ensures var (t, r) := Get(ws[k].pool, Some(host), port, now);
            && (r.Some? ==> t.closed == ws[k].pool.closed)
            && (r.None? ==> forall c :: c in t.pooled ==> !Matches(c, host, port))
  {
    hide IsRun, Get, Those, Census, Sized, Matches;
    ReachableWorldsKeepInv(ws, events, k);
    GetByRecency(ws[k].pool, host, port, now);
  }
}
