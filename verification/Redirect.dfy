/**
  The redirect loop of src/cwebhttp.c. What each request meets on the network, and the absolute URL
  built from a relative location, come from outside.
 */
module Redirect {
  import opened Sequences
  import opened Wrappers

  const MAX_REDIRECTS: nat := 10

  /** The longest URL that the visited table and the redirect buffer hold. */
  const URL_LIMIT: nat := 2047

  datatype Verb = GET | POST | PUT | DELETE

  datatype Request = Request(url: string, verb: Verb, body: string)

  /** What one turn of the loop meets; `resolved` is the absolute URL for a location that starts with a slash. */
  datatype Reply =
    | BadUrl
    | NoConnection
    | SendFails(error: int)
    | ReadFails(error: int)
    | Answer(status: int, location: Option<string>, resolved: string)

  datatype Outcome = Done(status: int) | ParseError | NetworkError | Failed(error: int)

  predicate IsRedirect(status: int) {
    status == 301 || status == 302 || status == 303 || status == 307 || status == 308
  }

  function RedirectMethod(status: int, verb: Verb): Verb {
    if (status == 302 || status == 303) && verb == POST then GET else verb
  }

  function Truncated(url: string): (r: string)
    ensures |r| <= URL_LIMIT && (|url| <= URL_LIMIT ==> r == url)
  {
    if |url| > URL_LIMIT then url[..URL_LIMIT] else url
  }

  function NextUrl(location: string, resolved: string): (r: string)
    ensures |r| <= URL_LIMIT
  {
    if location != [] && location[0] == '/' then Truncated(resolved) else Truncated(location)
  }

  /** A reply that sends the loop on, unless it has been there. */
  predicate Redirects(r: Reply) {
    r.Answer? && IsRedirect(r.status) && r.location.Some?
  }

  function Target(r: Reply): (url: string)
    requires Redirects(r)
    ensures |url| <= URL_LIMIT
  {
    NextUrl(r.location.value, r.resolved)
  }

  /** The first request and what is carried along: the original method and body. */
  function Follow(
    url: string, verb: Verb, first: Request, visited: seq<string>, replies: seq<Reply>): (Outcome, seq<Request>)
    requires |visited| <= MAX_REDIRECTS == |replies|
    decreases MAX_REDIRECTS - |visited|
  {
    if |visited| == MAX_REDIRECTS then (ParseError, [])
    else
      var request := Request(url, verb, if verb == first.verb then first.body else []);
      var reply := replies[|visited|];
      match reply
      case BadUrl => (ParseError, [])
      case NoConnection => (NetworkError, [])
      case SendFails(error) => (Failed(error), [request])
      case ReadFails(error) => (Failed(error), [request])
      case Answer(status, location, _) =>
        if !IsRedirect(status) then (Done(status), [request])
        else if location.None? then (ParseError, [request])
        else
          var seen := visited + [Truncated(url)];
          if Target(reply) in seen then (ParseError, [request])
          else
            var (outcome, trace) := Follow(Target(reply), RedirectMethod(status, verb), first, seen, replies);
            (outcome, [request] + trace)
  }

  function Run(first: Request, replies: seq<Reply>): (Outcome, seq<Request>)
    requires |replies| == MAX_REDIRECTS
  {
    Follow(first.url, first.verb, first, [], replies)
  }

  // ----- at most ten requests, to different URLs

  predicate PairwiseDistinct(trace: seq<Request>) {
    forall i, j :: 0 <= i < j < |trace| ==> trace[i].url != trace[j].url
  }

  lemma {:induction false} FollowNeverRepeats(
    url: string, verb: Verb, first: Request, visited: seq<string>, replies: seq<Reply>)
    requires |visited| <= MAX_REDIRECTS == |replies|
    requires url !in visited && (visited != [] ==> |url| <= URL_LIMIT)
    ensures var trace := Follow(url, verb, first, visited, replies).1;
            && |trace| <= MAX_REDIRECTS - |visited|
            && PairwiseDistinct(trace)
            && (trace != [] ==> trace[0].url == url)
            && forall i :: 0 <= i < |trace| ==> trace[i].url !in visited && (i > 0 ==> |trace[i].url| <= URL_LIMIT)
    decreases MAX_REDIRECTS - |visited|
  {
    hide Truncated, NextUrl, IsRedirect, RedirectMethod;
    var trace := Follow(url, verb, first, visited, replies).1;
    if |visited| < MAX_REDIRECTS && Redirects(replies[|visited|]) {
      var reply := replies[|visited|];
      var seen, next := visited + [Truncated(url)], Target(reply);
      if next !in seen {
        FollowNeverRepeats(next, RedirectMethod(reply.status, verb), first, seen, replies);
        var rest := Follow(next, RedirectMethod(reply.status, verb), first, seen, replies).1;
        forall i | 0 < i < |trace|
          ensures trace[i] == rest[i - 1] && trace[i].url != url && trace[i].url !in visited
          ensures |trace[i].url| <= URL_LIMIT
        {
          assert rest[i - 1].url !in seen;
          assert Truncated(url) in seen;
        }
        forall i, j | 0 <= i < j < |trace|
          ensures trace[i].url != trace[j].url
        {
          assert i > 0 ==> trace[i] == rest[i - 1] && trace[j] == rest[j - 1];
        }
      }
    }
  }

  /**
    Whatever the servers answer, at most ten requests are made and no URL is requested twice, although
    the visited table cuts the first URL off.
   */
  lemma NoRedirectLoop(first: Request, replies: seq<Reply>)
    requires |replies| == MAX_REDIRECTS
    ensures |Run(first, replies).1| <= MAX_REDIRECTS && PairwiseDistinct(Run(first, replies).1)
  {
    FollowNeverRepeats(first.url, first.verb, first, [], replies);
  }

  // ----- verb and body

  predicate TurnsPost(r: Reply) {
    r.Answer? && (r.status == 302 || r.status == 303)
  }

  /** Some reply among these turns a POST into a GET. */
  predicate TurnsToGet(replies: seq<Reply>, from: nat, to: nat)
    requires to <= |replies|
  {
    exists k :: from <= k < to && TurnsPost(replies[k])
  }

  lemma {:induction false} FollowMethods(
    url: string, verb: Verb, first: Request, visited: seq<string>, replies: seq<Reply>, i: nat)
    requires |visited| <= MAX_REDIRECTS == |replies|
    requires i < |Follow(url, verb, first, visited, replies).1| && |visited| + i <= MAX_REDIRECTS
    ensures var r := Follow(url, verb, first, visited, replies).1[i];
            && r.verb == (if verb == POST && TurnsToGet(replies, |visited|, |visited| + i) then GET else verb)
            && r.body == (if r.verb == first.verb then first.body else [])
            && (i == 0 ==> r.url == url)
            && (i > 0 ==> Redirects(replies[|visited| + i - 1]) && r.url == Target(replies[|visited| + i - 1]))
    decreases i
  {
    hide Truncated, NextUrl, TurnsToGet;
    var n := |visited|;
    if i > 0 {
      var reply := replies[n];
      var seen, next := visited + [Truncated(url)], Target(reply);
      var verb' := RedirectMethod(reply.status, verb);
      FollowMethods(next, verb', first, seen, replies, i - 1);
      TurnsUnfold(replies, n, n + i);
    } else {
      TurnsUnfold(replies, n, n);
    }
  }

  lemma TurnsUnfold(replies: seq<Reply>, from: nat, to: nat)
    requires from <= to <= |replies|
    ensures from == to ==> !TurnsToGet(replies, from, to)
    ensures from < to ==>
              (TurnsToGet(replies, from, to) <==> TurnsPost(replies[from]) || TurnsToGet(replies, from + 1, to))
  {
  }

  /**
    Each request after the first goes where the reply before it points. Its method is the original
    one, but a POST becomes GET for good after the first 302 or 303, and the body is sent exactly
    while the method is the original one.
   */
  lemma MethodAndBody(first: Request, replies: seq<Reply>, i: nat)
    requires |replies| == MAX_REDIRECTS && i < |Run(first, replies).1|
    ensures i < MAX_REDIRECTS
    ensures var r := Run(first, replies).1[i];
            && (i == 0 ==> r == first)
            && (i > 0 ==> Redirects(replies[i - 1]) && r.url == Target(replies[i - 1]))
            && r.verb == (if first.verb == POST && TurnsToGet(replies, 0, i) then GET else first.verb)
            && r.body == (if r.verb == first.verb then first.body else [])
  {
    hide Follow;
    NoRedirectLoop(first, replies);
    FollowMethods(first.url, first.verb, first, [], replies, i);
    TurnsUnfold(replies, 0, 0);
  }

  /** A URL as far as the buffer of 2048 characters holds it, with its terminator. */
  predicate IsCut(url: string, whole: string) {
    url <= whole && if |whole| <= 2047 then url == whole else |url| == 2047
  }

  /**
    A request follows the one before it only on a reply with one of the five redirect statuses and a
    location: to that location, or, if it starts with a slash, to the absolute URL built from it. Only
    302 and 303 change the method, and only from POST.
   */
  lemma RequestFollowsReply(first: Request, replies: seq<Reply>, i: nat)
    requires |replies| == MAX_REDIRECTS && 0 < i < |Run(first, replies).1|
    ensures i < 10 && replies[i - 1].Answer? && replies[i - 1].location.Some?
    ensures var trace, reply := Run(first, replies).1, replies[i - 1];
            && reply.status in {301, 302, 303, 307, 308}
            && IsCut(trace[i].url, if "/" <= reply.location.value then reply.resolved else reply.location.value)
            && trace[i].verb == (if reply.status in {302, 303} && trace[i - 1].verb == POST then GET
                                 else trace[i - 1].verb)
  {
    hide Run;
    MethodAndBody(first, replies, i);
    MethodAndBody(first, replies, i - 1);
    TurnsLast(replies, i);
    var location := replies[i - 1].location.value;
    assert "/" <= location <==> location != [] && location[0] == '/';
  }

  lemma TurnsLast(replies: seq<Reply>, i: nat)
    requires 0 < i <= |replies|
    ensures TurnsToGet(replies, 0, i) <==> TurnsToGet(replies, 0, i - 1) || TurnsPost(replies[i - 1])
  {
  }

  /** The method changes at most once over a chain, and only from POST to GET. */
  lemma MethodChangesOnce(first: Request, replies: seq<Reply>, i: nat, j: nat)
    requires |replies| == MAX_REDIRECTS && i < j < |Run(first, replies).1|
    ensures var trace := Run(first, replies).1;
            trace[i].verb != trace[j].verb ==>
              && trace[i].verb == first.verb == POST && trace[j].verb == GET
              && forall k :: j <= k < |trace| ==> trace[k].verb == GET && trace[k].body == []
  {
    hide Run;
    var trace := Run(first, replies).1;
    MethodAndBody(first, replies, i);
    MethodAndBody(first, replies, j);
    forall k | j <= k < |trace|
      ensures first.verb == POST && TurnsToGet(replies, 0, j) ==> trace[k].verb == GET && trace[k].body == []
    {
      MethodAndBody(first, replies, k);
      assert TurnsToGet(replies, 0, j) ==> TurnsToGet(replies, 0, k);
    }
  }

  // ----- why it ends

  lemma {:induction false} FollowEnds(
    url: string, verb: Verb, first: Request, visited: seq<string>, replies: seq<Reply>)
    requires |visited| <= MAX_REDIRECTS == |replies|
    ensures var (outcome, trace) := Follow(url, verb, first, visited, replies);
            var n := |visited| + |trace|;
            && n <= MAX_REDIRECTS
            && (outcome.Done? <==> trace != [] && replies[n - 1].Answer? && !IsRedirect(replies[n - 1].status))
            && (outcome.Done? ==> outcome.status == replies[n - 1].status)
    decreases MAX_REDIRECTS - |visited|
  {
    hide Truncated, NextUrl, IsRedirect, RedirectMethod;
    if |visited| < MAX_REDIRECTS && Redirects(replies[|visited|]) {
      var reply := replies[|visited|];
      var seen := visited + [Truncated(url)];
      if Target(reply) !in seen {
        FollowEnds(Target(reply), RedirectMethod(reply.status, verb), first, seen, replies);
      }
    }
  }

  /**
    The chain succeeds exactly when its last request is answered by something other than a redirect,
    and then with that.
   */
  lemma SucceedsIffAnswered(first: Request, replies: seq<Reply>)
    requires |replies| == MAX_REDIRECTS
    ensures var (outcome, trace) := Run(first, replies);
            && |trace| <= MAX_REDIRECTS
            && (outcome.Done? <==>
                  trace != [] && replies[|trace| - 1].Answer? && !IsRedirect(replies[|trace| - 1].status))
            && (outcome.Done? ==> outcome.status == replies[|trace| - 1].status)
  {
    FollowEnds(first.url, first.verb, first, [], replies);
  }

  /** So a chain succeeds exactly when its last request is answered with none of the five redirect statuses. */
  lemma SucceedsUnlessRedirected(first: Request, replies: seq<Reply>)
    requires |replies| == MAX_REDIRECTS
    ensures var (outcome, trace) := Run(first, replies);
            && |trace| <= 10
            && (outcome.Done? <==>
                  trace != [] && replies[|trace| - 1].Answer?
                  && replies[|trace| - 1].status !in {301, 302, 303, 307, 308})
            && (outcome.Done? ==> outcome.status == replies[|trace| - 1].status)
  {
    hide Run;
    SucceedsIffAnswered(first, replies);
  }

  /** The visited table once a request of the trace has been answered. */
  function Seen(visited: seq<string>, trace: seq<Request>, i: nat): seq<string>
    requires i < |trace|
  {
    visited + seq(i + 1, k requires 0 <= k <= i => Truncated(trace[k].url))
  }

  lemma SeenLater(visited: seq<string>, request: Request, rest: seq<Request>, i: nat)
    requires i < |rest|
    ensures Seen(visited, [request] + rest, i + 1) == Seen(visited + [Truncated(request.url)], rest, i)
  {
  }

  /** Nothing but the table keeps the loop from following a redirect here. */
  predicate CouldGoOn(replies: seq<Reply>, n: nat) {
    n < MAX_REDIRECTS == |replies| && !replies[n].BadUrl? && !replies[n].NoConnection?
  }

  lemma {:induction false} FollowRevisits(
    url: string, verb: Verb, first: Request, visited: seq<string>, replies: seq<Reply>, i: nat)
    requires |visited| <= MAX_REDIRECTS == |replies|
    requires i < |Follow(url, verb, first, visited, replies).1| && |visited| + i < MAX_REDIRECTS
    requires Redirects(replies[|visited| + i])
    ensures var trace := Follow(url, verb, first, visited, replies).1;
            var back := Target(replies[|visited| + i]) in Seen(visited, trace, i);
            && (back ==> i + 1 == |trace|)
            && (CouldGoOn(replies, |visited| + i + 1) && i + 1 == |trace| ==> back)
    decreases i
  {
    hide Truncated, NextUrl, IsRedirect, RedirectMethod;
    var trace := Follow(url, verb, first, visited, replies).1;
    var reply := replies[|visited|];
    var seen := visited + [Truncated(url)];
    var request := trace[0];
    if i == 0 {
      assert Seen(visited, trace, 0) == seen;
    } else {
      var rest := Follow(Target(reply), RedirectMethod(reply.status, verb), first, seen, replies).1;
      FollowRevisits(Target(reply), RedirectMethod(reply.status, verb), first, seen, replies, i - 1);
      SeenLater(visited, request, rest, i - 1);
    }
  }

  /**
    As long as requests are left and the next URL can be reached, a redirect ends the chain exactly
    when it points back to a URL requested before, as far as the table holds it.
   */
  lemma EndsIffRevisits(first: Request, replies: seq<Reply>, i: nat)
    requires |replies| == MAX_REDIRECTS && i < |Run(first, replies).1| && CouldGoOn(replies, i + 1)
    requires Redirects(replies[i])
    ensures var trace := Run(first, replies).1;
            i + 1 == |trace| <==> exists k :: 0 <= k <= i && Truncated(trace[k].url) == Target(replies[i])
  {
    hide Follow, Truncated, NextUrl;
    var trace := Run(first, replies).1;
    FollowRevisits(first.url, first.verb, first, [], replies, i);
    var table := Seen([], trace, i);
    assert forall k :: 0 <= k <= i ==> table[k] == Truncated(trace[k].url);
  }

  // ----- the loop

  method RequestSimple(first: Request, replies: seq<Reply>) returns (outcome: Outcome, trace: seq<Request>)
    requires |replies| == MAX_REDIRECTS
    ensures (outcome, trace) == Run(first, replies)
  {
    hide IsRedirect, Truncated, NextUrl;
    var visited := new string[MAX_REDIRECTS](_ => "");
    var count := 0;
    var url, verb, body := first.url, first.verb, first.body;
    trace := [];
    assert visited[..0] == [] && trace + Run(first, replies).1 == Run(first, replies).1;
    while count < MAX_REDIRECTS
      invariant 0 <= count <= MAX_REDIRECTS
      invariant verb == first.verb || (first.verb == POST && verb == GET)
      invariant body == if verb == first.verb then first.body else []
      invariant Run(first, replies) == Resumed(trace, Follow(url, verb, first, visited[..count], replies))
    {
      var reply := replies[count];
      var request := Request(url, verb, body);
      assert trace + [] == trace;
      match reply {
        case BadUrl => return ParseError, trace;
        case NoConnection => return NetworkError, trace;
        case SendFails(error) => return Failed(error), trace + [request];
        case ReadFails(error) => return Failed(error), trace + [request];
        case Answer(status, location, resolved) =>
          if !IsRedirect(status) {
            return Done(status), trace + [request];
          }
          if location.None? {
            return ParseError, trace + [request];
          }
          ghost var before := visited[..count];
          visited[count] := Truncated(url);
          assert visited[..count + 1] == before + [Truncated(url)];
          var next := NextUrl(location.value, resolved);
          var seen := WasVisited(visited, count, next);
          if seen {
            return ParseError, trace + [request];
          }
          verb := RedirectMethod(status, verb);
          if verb != first.verb {
            body := [];
          }
          url := next;
          Associate(trace, [request], Follow(url, verb, first, visited[..count + 1], replies).1);
          trace := trace + [request];
          count := count + 1;
      }
    }
    assert trace + [] == trace;
    return ParseError, trace;
  }

  method WasVisited(visited: array<string>, count: nat, url: string) returns (seen: bool)
    requires count < visited.Length
    ensures seen <==> url in visited[..count + 1]
  {
    for i := 0 to count + 1
      invariant url !in visited[..i]
    {
      if visited[i] == url {
        assert visited[..count + 1][i] == url;
        return true;
      }
    }
    return false;
  }

  function Resumed(trace: seq<Request>, rest: (Outcome, seq<Request>)): (Outcome, seq<Request>) {
    (rest.0, trace + rest.1)
  }
}
