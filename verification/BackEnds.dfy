/**
  The four loop back ends of src/async beside each other: as long as there is memory and the kernel goes
  along, the same calls get the same answers and leave the same handlers.
 */
module BackEnds {
  import Epoll
  import Kqueue
  import Select
  import WsaPoll
  import opened Handlers

  /** The four registries after some calls, and what the calls returned. */
  datatype Four = Four(
    epoll: Epoll.Loop, kqueue: Kqueue.Loop, select: Registry, poll: WsaPoll.State,
    answers: seq<(int, int, int, int)>)

  const NOTHING: Four := Four(Epoll.Loop(map[], map[]), Kqueue.Loop(map[], {}), map[], WsaPoll.State([], 0), [])

  /** One call made on each of them. */
  function Made(f: Four, call: Call): Four {
    var e := Epoll.OpOf(call, Epoll.Env(true, true));
    var k := Kqueue.OpOf(call, Kqueue.Env(true, 2));
    var s, p := Select.OpOf(call, true), WsaPoll.OpOf(call, true, true);
    Four(Epoll.Apply(f.epoll, e), Kqueue.Apply(f.kqueue, k), Select.Apply(f.select, s), WsaPoll.Apply(f.poll, p),
         f.answers + [(Epoll.Result(f.epoll, e), Kqueue.Result(f.kqueue, k),
                       if Select.Succeeds(f.select, s) then 0 else -1, if WsaPoll.Succeeds(f.poll, p) then 0 else -1)])
  }

  function AllMade(f: Four, calls: seq<Call>): Four
    decreases |calls|
  {
    if calls == [] then f else AllMade(Made(f, calls[0]), calls[1..])
  }

  /** The same handlers everywhere, which epoll's and kqueue's kernels watch, and the same answers. */
  ghost predicate Alike(f: Four) {
    && f.epoll.handlers == f.kqueue.handlers == f.select == AsMap(f.poll.handlers)
    && Epoll.Agrees(f.epoll) && Kqueue.Agrees(f.kqueue) && WsaPoll.IsConsistent(f.poll)
    && forall i :: 0 <= i < |f.answers| ==>
         var (e, k, s, p) := f.answers[i]; e == k == s == p && (e == 0 || e == -1)
  }

  lemma OneCallAlike(f: Four, call: Call)
    requires Alike(f)
    ensures Alike(Made(f, call))
    ensures if Permitted(f.select, call) then IsMade(f.select, call, Made(f, call).select)
            else Made(f, call).select == f.select
  {
    hide AsMap, UniqueFds, Permitted, IsMade;
    hide Epoll.Apply, Epoll.Result, Epoll.Agrees, Kqueue.Apply, Kqueue.Result, Kqueue.Agrees, Kqueue.Changed;
    hide Select.Apply, Select.Succeeds, WsaPoll.Apply, WsaPoll.Succeeds;
    var e, k := Epoll.Env(true, true), Kqueue.Env(true, 2);
    var g, m := Made(f, call), f.select;
    Epoll.CallIs(f.epoll, call, e);
    Epoll.AgreementKeptIff(f.epoll, Epoll.OpOf(call, e));
    if Permitted(m, call) {
      KernelGoesAlong(f.epoll, call);
    }
    Kqueue.CallIs(f.kqueue, call, k);
    Kqueue.TwoAreEnough(f.kqueue, Kqueue.OpOf(call, k));
    Select.CallIs(m, call, true);
    WsaPoll.CallIs(f.poll, call, true, true);
    if Permitted(m, call) {
      MadeOnce(m, call, g.select, g.epoll.handlers);
      MadeOnce(m, call, g.select, g.kqueue.handlers);
      MadeOnce(m, call, g.select, AsMap(g.poll.handlers));
    }
  }

  lemma KernelGoesAlong(l: Epoll.Loop, call: Call)
    requires Epoll.Agrees(l) && Permitted(l.handlers, call)
    ensures Epoll.KernelTakes(l, call, Epoll.Env(true, true))
    ensures !Epoll.DriftsApart(l, Epoll.OpOf(call, Epoll.Env(true, true)))
  {
  }

  lemma {:induction false} StayAlike(f: Four, calls: seq<Call>)
    requires Alike(f)
    ensures Alike(AllMade(f, calls))
    decreases |calls|
  {
    hide Alike, Made;
    if calls != [] {
      OneCallAlike(f, calls[0]);
      StayAlike(Made(f, calls[0]), calls[1..]);
    }
  }

  /** Whatever the calls, the four back ends give the same answers and end with the same handlers. */
  lemma BackEndsAgree(calls: seq<Call>)
    ensures Alike(AllMade(NOTHING, calls))
  {
    hide AllMade;
    StayAlike(NOTHING, calls);
  }
}
