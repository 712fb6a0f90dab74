/**
  The allocation tracker of src/memcheck.c: a table of live blocks from which entries are removed by
  moving the last one into their place, and statistics kept beside it.
 */
module Memcheck {
  import opened Wrappers

  const MAX_ALLOCS: nat := 10000

  datatype Block = Block(ptr: nat, size: nat)

  datatype Stats = Stats(
    totalAllocations: int, totalFrees: int, currentAllocations: int, peakAllocations: int,
    totalBytes: int, currentBytes: int, peakBytes: int)

  const ZERO: Stats := Stats(0, 0, 0, 0, 0, 0, 0)

  datatype Tracker = Tracker(table: seq<Block>, stats: Stats, initialized: bool)

  // ----- the operations

  /** The slot of a pointer, or the length. */
  function Slot(table: seq<Block>, ptr: nat): (k: nat)
    ensures k <= |table| && (k < |table| ==> table[k].ptr == ptr)
    ensures forall i :: 0 <= i < k ==> table[i].ptr != ptr
  {
    if table == [] || table[0].ptr == ptr then 0 else 1 + Slot(table[1..], ptr)
  }

  lemma SlotIs(table: seq<Block>, ptr: nat, k: nat)
    requires k <= |table| && (k < |table| ==> table[k].ptr == ptr) && forall i :: 0 <= i < k ==> table[i].ptr != ptr
    ensures Slot(table, ptr) == k
  {
  }

  function SwapRemove(table: seq<Block>, slot: nat): (r: seq<Block>)
    requires slot < |table|
    ensures |r| == |table| - 1
  {
    var last := |table| - 1;
    if slot != last then table[..last][slot := table[last]] else table[..last]
  }

  function Max(a: int, b: int): int {
    if b > a then b else a
  }

  function Counted(s: Stats, size: nat): Stats {
    var allocations, bytes := s.currentAllocations + 1, s.currentBytes + size;
    Stats(s.totalAllocations + 1, s.totalFrees, allocations, Max(s.peakAllocations, allocations),
          s.totalBytes + size, bytes, Max(s.peakBytes, bytes))
  }

  function Discounted(s: Stats, size: nat): Stats {
    s.(totalFrees := s.totalFrees + 1, currentAllocations := s.currentAllocations - 1,
       currentBytes := s.currentBytes - size)
  }

  function Add(t: Tracker, b: Block): Tracker {
    if |t.table| >= MAX_ALLOCS then t else t.(table := t.table + [b], stats := Counted(t.stats, b.size))
  }

  function Remove(t: Tracker, ptr: nat): Tracker {
    var slot := Slot(t.table, ptr);
    if slot == |t.table| then t
    else t.(table := SwapRemove(t.table, slot), stats := Discounted(t.stats, t.table[slot].size))
  }

  /** The calls, with what the system's allocator gives back; a realloc to size zero may release the block. */
  datatype Call =
    | Init
    | Shutdown
    | Reset
    | Malloc(size: nat, result: Option<nat>)
    | Calloc(count: nat, each: nat, result: Option<nat>)
    | Realloc(ptr: Option<nat>, size: nat, result: Option<nat>, released: bool)
    | Free(ptr: Option<nat>)

  function Track(t: Tracker, result: Option<nat>, size: nat): Tracker {
    if result.Some? && t.initialized then Add(t, Block(result.value, size)) else t
  }

  function Untrack(t: Tracker, ptr: Option<nat>): Tracker {
    if ptr.Some? && t.initialized then Remove(t, ptr.value) else t
  }

  function Apply(t: Tracker, c: Call): Tracker {
    match c
    case Init => if t.initialized then t else Tracker([], ZERO, true)
    case Shutdown => t.(initialized := false)
    case Reset => t.(table := [], stats := ZERO)
    case Malloc(size, result) => Track(t, result, size)
    case Calloc(count, each, result) => Track(t, result, count * each)
    case Realloc(ptr, size, result, _) => Track(Untrack(t, ptr), result, size)
    case Free(ptr) => Untrack(t, ptr)
  }

  // ----- what each call does to the statistics

  /** A block that is handed out while the tracker is on and has room is entered last, and counted in all totals. */
  lemma TrackMeans(t: Tracker, result: Option<nat>, size: nat)
    ensures var u, s := Track(t, result, size), t.stats;
            if result.Some? && t.initialized && |t.table| < 10000
            then
              && u.table == t.table + [Block(result.value, size)] && u.initialized
              && u.stats.totalAllocations == s.totalAllocations + 1 && u.stats.totalBytes == s.totalBytes + size
              && u.stats.currentAllocations == s.currentAllocations + 1 && u.stats.currentBytes == s.currentBytes + size
              && u.stats.totalFrees == s.totalFrees
            else u == t
  {
  }

  /** A block that is in the table is taken out and counted as freed; its size leaves the current bytes alone. */
  lemma UntrackMeans(t: Tracker, ptr: Option<nat>)
    ensures var u, s := Untrack(t, ptr), t.stats;
            if ptr.Some? && t.initialized && exists i :: 0 <= i < |t.table| && t.table[i].ptr == ptr.value
            then
              exists i :: 0 <= i < |t.table| && t.table[i].ptr == ptr.value
                && multiset(u.table) == multiset(t.table) - multiset{t.table[i]} && u.initialized
                && u.stats == s.(totalFrees := s.totalFrees + 1, currentAllocations := s.currentAllocations - 1,
                                 currentBytes := s.currentBytes - t.table[i].size)
            else u == t
  {
    hide Slot, SwapRemove;
    if ptr.Some? && t.initialized {
      var slot := Slot(t.table, ptr.value);
      if slot < |t.table| {
        SwapRemoveTakesOne(t.table, slot);
      }
    }
  }

  /** Starting and resetting empty the table and zero every number. */
  lemma ZeroedMeans(t: Tracker)
    ensures Apply(t, Reset) == Tracker([], Stats(0, 0, 0, 0, 0, 0, 0), t.initialized)
    ensures Apply(t, Init) == if t.initialized then t else Tracker([], Stats(0, 0, 0, 0, 0, 0, 0), true)
    ensures Apply(t, Shutdown) == Tracker(t.table, t.stats, false)
  {
  }

  // ----- the table as a multiset, and its sum

  lemma SwapRemoveTakesOne(table: seq<Block>, slot: nat)
    requires slot < |table|
    ensures multiset(SwapRemove(table, slot)) == multiset(table) - multiset{table[slot]}
  {
    var last := |table| - 1;
    assert table == table[..last] + [table[last]];
  }

  function Sum(table: seq<Block>): nat {
    if table == [] then 0 else Sum(table[..|table| - 1]) + table[|table| - 1].size
  }

  lemma {:induction false} SumAfterUpdate(table: seq<Block>, i: nat, b: Block)
    requires i < |table|
    ensures Sum(table[i := b]) == Sum(table) - table[i].size + b.size
  {
    var last := |table| - 1;
    if i == last {
      assert table[i := b][..last] == table[..last];
    } else {
      SumAfterUpdate(table[..last], i, b);
      assert table[i := b][..last] == table[..last][i := b];
    }
  }

  lemma SumAfterRemoval(table: seq<Block>, slot: nat)
    requires slot < |table|
    ensures Sum(SwapRemove(table, slot)) == Sum(table) - table[slot].size
  {
    var last := |table| - 1;
    if slot != last {
      SumAfterUpdate(table[..last], slot, table[last]);
    }
  }

  lemma SumAfterAppend(table: seq<Block>, b: Block)
    ensures Sum(table + [b]) == Sum(table) + b.size
  {
    assert (table + [b])[..|table|] == table;
  }

  // ----- runs

  /**
    The tracker; the blocks the program holds, tracked or not; what ought to be tracked, by pointer;
    and the numbers of tracked blocks and bytes after each call since the statistics were last zeroed.
   */
  datatype World = World(tracker: Tracker, live: set<nat>, tracked: map<nat, nat>, counts: seq<int>, bytes: seq<int>)

  /** A pointer that the allocator hands out is not held already, and one given to it is held. */
  predicate Feasible(w: World, c: Call) {
    match c
    case Malloc(_, result) => result.Some? ==> result.value !in w.live
    case Calloc(_, _, result) => result.Some? ==> result.value !in w.live
    case Realloc(ptr, size, result, released) =>
      && (ptr.Some? ==> ptr.value in w.live) && (released ==> size == 0 && result.None?)
      && (result.Some? ==> result.value !in w.live || Some(result.value) == ptr)
    case Free(ptr) => ptr.Some? ==> ptr.value in w.live
    case _ => true
  }

  function Given(live: set<nat>, result: Option<nat>): set<nat> {
    if result.Some? then live + {result.value} else live
  }

  function Taken(live: set<nat>, ptr: Option<nat>): set<nat> {
    if ptr.Some? then live - {ptr.value} else live
  }

  /** A realloc that fails leaves the block with the program. */
  function LiveAfter(live: set<nat>, c: Call): set<nat> {
    match c
    case Malloc(_, result) => Given(live, result)
    case Calloc(_, _, result) => Given(live, result)
    case Realloc(ptr, _, result, released) =>
      if result.Some? || released then Given(Taken(live, ptr), result) else live
    case Free(ptr) => Taken(live, ptr)
    case _ => live
  }

  function Tracking(m: map<nat, nat>, on: bool, result: Option<nat>, size: nat): map<nat, nat> {
    if result.Some? && on && |m| < MAX_ALLOCS then m[result.value := size] else m
  }

  function Forgetting(m: map<nat, nat>, on: bool, ptr: Option<nat>): map<nat, nat> {
    if ptr.Some? && on then m - {ptr.value} else m
  }

  function TrackedAfter(w: World, c: Call): map<nat, nat> {
    var on := w.tracker.initialized;
    match c
    case Init => if on then w.tracked else map[]
    case Shutdown => w.tracked
    case Reset => map[]
    case Malloc(size, result) => Tracking(w.tracked, on, result, size)
    case Calloc(count, each, result) => Tracking(w.tracked, on, result, count * each)
    case Realloc(ptr, size, result, _) => Tracking(Forgetting(w.tracked, on, ptr), on, result, size)
    case Free(ptr) => Forgetting(w.tracked, on, ptr)
  }

  predicate Zeroes(t: Tracker, c: Call) {
    c.Reset? || (c.Init? && !t.initialized)
  }

  function Step(w: World, c: Call): World {
    var t := Apply(w.tracker, c);
    World(t, LiveAfter(w.live, c), TrackedAfter(w, c),
          (if Zeroes(w.tracker, c) then [] else w.counts) + [|t.table|],
          (if Zeroes(w.tracker, c) then [] else w.bytes) + [Sum(t.table)])
  }

  predicate Distinct(table: seq<Block>) {
    forall i, j :: 0 <= i < j < |table| ==> table[i].ptr != table[j].ptr
  }

  function AsMap(table: seq<Block>): map<nat, nat> {
    if table == [] then map[]
    else
      var last := table[|table| - 1];
      AsMap(table[..|table| - 1])[last.ptr := last.size]
  }

  /** The table holds the blocks of the map, each once. */
  predicate Lists(table: seq<Block>, m: map<nat, nat>) {
    Distinct(table) && m == AsMap(table) && |m| == |table|
  }

  predicate IsMaximum(n: int, s: seq<int>) {
    n in s && forall x :: x in s ==> x <= n
  }

  /** The counters are right for the table, and the peaks are no less. */
  predicate Accounts(t: Tracker) {
    && t.stats.totalAllocations - t.stats.totalFrees == t.stats.currentAllocations == |t.table| <= MAX_ALLOCS
    && t.stats.currentBytes == Sum(t.table)
    && t.stats.peakAllocations >= |t.table| && t.stats.peakBytes >= Sum(t.table)
  }

  /** The peaks are the maxima of the history. */
  predicate PeaksOf(w: World) {
    IsMaximum(w.tracker.stats.peakAllocations, w.counts) && IsMaximum(w.tracker.stats.peakBytes, w.bytes)
  }

  ghost predicate Inv(w: World) {
    && Lists(w.tracker.table, w.tracked)
    && (w.tracker.initialized ==> w.tracked.Keys <= w.live)
    && Accounts(w.tracker) && PeaksOf(w)
  }

  // ----- the table against the map

  lemma {:induction false} NotInMap(table: seq<Block>, ptr: nat)
    requires forall i :: 0 <= i < |table| ==> table[i].ptr != ptr
    ensures ptr !in AsMap(table)
  {
    if table != [] {
      NotInMap(table[..|table| - 1], ptr);
    }
  }

  lemma {:induction false} InMap(table: seq<Block>, i: nat)
    requires i < |table|
    ensures table[i].ptr in AsMap(table)
  {
    if i < |table| - 1 {
      InMap(table[..|table| - 1], i);
    }
  }

  lemma AddLists(t: Tracker, m: map<nat, nat>, b: Block)
    requires Lists(t.table, m) && b.ptr !in m
    ensures Lists(Add(t, b).table, if |m| < MAX_ALLOCS then m[b.ptr := b.size] else m)
  {
    if |t.table| < MAX_ALLOCS {
      var table, after := t.table + [b], m[b.ptr := b.size];
      assert table[..|t.table|] == t.table;
      assert after.Keys == m.Keys + {b.ptr};
      forall i | 0 <= i < |t.table|
        ensures table[i].ptr != b.ptr
      {
        InMap(t.table, i);
      }
    }
  }

  /** Putting another block into a slot exchanges the two in the map. */
  lemma {:induction false} ExchangeInMap(table: seq<Block>, slot: nat, b: Block)
    requires slot < |table| && Distinct(table) && forall i :: 0 <= i < |table| ==> table[i].ptr != b.ptr
    ensures AsMap(table[slot := b]) == (AsMap(table) - {table[slot].ptr})[b.ptr := b.size]
  {
    var last := |table| - 1;
    var front, x := table[..last], table[slot].ptr;
    if slot == last {
      NotInMap(front, x);
      assert table[slot := b][..last] == front;
      assert AsMap(table) - {x} == AsMap(front);
    } else {
      ExchangeInMap(front, slot, b);
      assert table[slot := b][..last] == front[slot := b];
      var y := table[last];
      assert (AsMap(front) - {x})[b.ptr := b.size][y.ptr := y.size]
             == (AsMap(front)[y.ptr := y.size] - {x})[b.ptr := b.size];
    }
  }

  lemma SwapRemoveDistinct(table: seq<Block>, slot: nat)
    requires slot < |table| && Distinct(table)
    ensures Distinct(SwapRemove(table, slot))
  {
  }

  lemma UpdatesCommute(m: map<nat, nat>, p: nat, size: nat, x: nat)
    ensures x != p ==> m[p := size] - {x} == (m - {x})[p := size]
    ensures x !in m ==> m[x := size] - {x} == m
  {
  }

  lemma SwapRemoveIs(table: seq<Block>, slot: nat)
    requires slot < |table|
    ensures var front, last := table[..|table| - 1], table[|table| - 1];
            SwapRemove(table, slot) == if slot < |front| then front[slot := last] else front
  {
  }

  /** Emptying a slot takes its block out of the map, wherever the last block goes. */
  lemma SwapRemoveFromMap(table: seq<Block>, slot: nat)
    requires slot < |table| && Distinct(table)
    ensures AsMap(SwapRemove(table, slot)) == AsMap(table) - {table[slot].ptr}
  {
    hide AsMap, SwapRemove;
    SwapRemoveIs(table, slot);
    var last := |table| - 1;
    var front, b, x := table[..last], table[last], table[slot].ptr;
    MapUnfolds(table);
    UpdatesCommute(AsMap(front), b.ptr, b.size, x);
    if slot == last {
      NotInMap(front, x);
    } else {
      ExchangeInMap(front, slot, b);
      assert front[slot] == table[slot] && b.ptr != x;
    }
  }

  lemma MapUnfolds(table: seq<Block>)
    requires table != []
    ensures var b := table[|table| - 1]; AsMap(table) == AsMap(table[..|table| - 1])[b.ptr := b.size]
  {
  }

  lemma OneLess(m: map<nat, nat>, ptr: nat)
    requires ptr in m
    ensures |m - {ptr}| == |m| - 1
  {
    assert m.Keys == (m - {ptr}).Keys + {ptr};
  }

  lemma RemoveLists(t: Tracker, m: map<nat, nat>, ptr: nat)
    requires Lists(t.table, m)
    ensures Lists(Remove(t, ptr).table, m - {ptr})
  {
    hide Slot, SwapRemove, Discounted, Distinct, AsMap;
    var slot := Slot(t.table, ptr);
    if slot == |t.table| {
      NotInMap(t.table, ptr);
      assert m - {ptr} == m;
    } else {
      SwapRemoveDistinct(t.table, slot);
      SwapRemoveFromMap(t.table, slot);
      InMap(t.table, slot);
      OneLess(m, ptr);
    }
  }

  lemma TrackLists(t: Tracker, m: map<nat, nat>, result: Option<nat>, size: nat)
    requires Lists(t.table, m) && (result.Some? ==> result.value !in m)
    ensures Lists(Track(t, result, size).table, Tracking(m, t.initialized, result, size))
  {
    hide Lists;
    if result.Some? && t.initialized {
      AddLists(t, m, Block(result.value, size));
    }
  }

  lemma UntrackLists(t: Tracker, m: map<nat, nat>, ptr: Option<nat>)
    requires Lists(t.table, m)
    ensures Lists(Untrack(t, ptr).table, Forgetting(m, t.initialized, ptr))
  {
    hide Lists;
    if ptr.Some? && t.initialized {
      RemoveLists(t, m, ptr.value);
    }
  }

  lemma ReallocLists(w: World, ptr: Option<nat>, size: nat, result: Option<nat>, released: bool)
    requires Lists(w.tracker.table, w.tracked) && (w.tracker.initialized ==> w.tracked.Keys <= w.live)
    requires Feasible(w, Realloc(ptr, size, result, released))
    ensures var c := Realloc(ptr, size, result, released); Lists(Apply(w.tracker, c).table, TrackedAfter(w, c))
  {
    var t, m := Untrack(w.tracker, ptr), Forgetting(w.tracked, w.tracker.initialized, ptr);
    assert t.initialized == w.tracker.initialized;
    assert result.None? || !t.initialized ==> Track(t, result, size) == t;
    hide Lists, Track, Untrack;
    UntrackLists(w.tracker, w.tracked, ptr);
    if result.Some? && w.tracker.initialized {
      TrackLists(t, m, result, size);
    }
  }

  lemma TrackedAreLive(w: World, c: Call)
    requires (w.tracker.initialized ==> w.tracked.Keys <= w.live) && Feasible(w, c)
    ensures Step(w, c).tracker.initialized ==> Step(w, c).tracked.Keys <= Step(w, c).live
  {
    ModeAfter(w.tracker, c);
    hide Apply;
  }

  /** The table goes on listing what ought to be tracked, whatever is called. */
  lemma StepLists(w: World, c: Call)
    requires Lists(w.tracker.table, w.tracked) && (w.tracker.initialized ==> w.tracked.Keys <= w.live) && Feasible(w, c)
    ensures Lists(Step(w, c).tracker.table, Step(w, c).tracked)
    ensures Step(w, c).tracker.initialized ==> Step(w, c).tracked.Keys <= Step(w, c).live
  {
    TrackedAreLive(w, c);
    hide LiveAfter;
    if !c.Init? && !c.Reset? {
      hide Lists, Track, Untrack;
      match c {
        case Malloc(size, result) => TrackOrNothing(w, result, size);
        case Calloc(count, each, result) => TrackOrNothing(w, result, count * each);
        case Realloc(ptr, size, result, released) => ReallocLists(w, ptr, size, result, released);
        case Free(ptr) => UntrackLists(w.tracker, w.tracked, ptr);
        case Shutdown =>
      }
    }
  }

  lemma TrackOrNothing(w: World, result: Option<nat>, size: nat)
    requires Lists(w.tracker.table, w.tracked) && (w.tracker.initialized ==> w.tracked.Keys <= w.live)
    requires result.Some? ==> result.value !in w.live
    ensures Lists(Track(w.tracker, result, size).table, Tracking(w.tracked, w.tracker.initialized, result, size))
  {
    if result.Some? && w.tracker.initialized {
      hide Lists, Track;
      TrackLists(w.tracker, w.tracked, result, size);
    }
  }

  lemma ModeAfter(t: Tracker, c: Call)
    ensures Apply(t, c).initialized == (if c.Init? then true else if c.Shutdown? then false else t.initialized)
  {
    hide Slot, SwapRemove;
  }

  // ----- the statistics

  /** The peaks move up to the new numbers, or stay. */
  predicate PeaksFollow(t: Tracker, u: Tracker) {
    && u.stats.peakAllocations == Max(t.stats.peakAllocations, |u.table|)
    && u.stats.peakBytes == Max(t.stats.peakBytes, Sum(u.table))
  }

  lemma TrackAccounts(t: Tracker, result: Option<nat>, size: nat)
    requires Accounts(t)
    ensures var u := Track(t, result, size); Accounts(u) && PeaksFollow(t, u)
  {
    if result.Some? {
      SumAfterAppend(t.table, Block(result.value, size));
      hide Sum;
    }
  }

  lemma UntrackAccounts(t: Tracker, ptr: Option<nat>)
    requires Accounts(t)
    ensures var u := Untrack(t, ptr); Accounts(u) && PeaksFollow(t, u)
    ensures Untrack(t, ptr).stats.peakAllocations == t.stats.peakAllocations
    ensures Untrack(t, ptr).stats.peakBytes == t.stats.peakBytes
  {
    hide Sum, SwapRemove;
    if ptr.Some? {
      var slot := Slot(t.table, ptr.value);
      hide Slot;
      if slot < |t.table| {
        SumAfterRemoval(t.table, slot);
      }
    }
  }

  lemma StepAccounts(t: Tracker, c: Call)
    requires Accounts(t)
    ensures Accounts(Apply(t, c)) && (!Zeroes(t, c) ==> PeaksFollow(t, Apply(t, c)))
  {
    if c.Init? || c.Shutdown? || c.Reset? {
      assert Sum([]) == 0;
    } else {
      hide Track, Untrack, Accounts, Sum;
      match c {
        case Malloc(size, result) => TrackAccounts(t, result, size);
        case Calloc(count, each, result) => TrackAccounts(t, result, count * each);
        case Realloc(ptr, size, result, _) =>
          UntrackAccounts(t, ptr);
          TrackAccounts(Untrack(t, ptr), result, size);
        case Free(ptr) => UntrackAccounts(t, ptr);
      }
    }
  }

  lemma MaximumExtends(n: int, s: seq<int>, x: int)
    requires IsMaximum(n, s)
    ensures IsMaximum(Max(n, x), s + [x])
  {
    assert (s + [x])[|s|] == x;
  }

  lemma StepKeepsInv(w: World, c: Call)
    requires Inv(w) && Feasible(w, c)
    ensures Inv(Step(w, c))
  {
    hide Lists, Accounts, Feasible, LiveAfter, TrackedAfter, IsMaximum;
    StepLists(w, c);
    StepAccounts(w.tracker, c);
    var u := Apply(w.tracker, c);
    if Zeroes(w.tracker, c) {
      assert u.table == [] && u.stats == ZERO && Sum([]) == 0;
      OnlyMaximum();
    } else {
      MaximumExtends(w.tracker.stats.peakAllocations, w.counts, |u.table|);
      MaximumExtends(w.tracker.stats.peakBytes, w.bytes, Sum(u.table));
    }
  }

  lemma OnlyMaximum()
    ensures IsMaximum(0, [] + [0])
  {
    assert ([] + [0])[0] == 0;
  }

  /** The program starts with the tracker off and blocks of which it knows nothing. */
  function InitialWorld(live: set<nat>): World {
    World(Tracker([], ZERO, false), live, map[], [0], [0])
  }

  ghost predicate IsRun(ws: seq<World>, calls: seq<Call>, live: set<nat>) {
    && |ws| == |calls| + 1 && ws[0] == InitialWorld(live)
    && forall i :: 0 <= i < |calls| ==> Feasible(ws[i], calls[i]) && ws[i + 1] == Step(ws[i], calls[i])
  }

  /**
    After any run of calls, with a full table or pointers never tracked as well: the table holds
    exactly the blocks that ought to be tracked, the counters are its length and the sum of its
    sizes, and both peaks are the maxima since the statistics were last zeroed.
   */
  lemma {:induction false} RunsKeepAccounts(ws: seq<World>, calls: seq<Call>, live: set<nat>, k: nat)
    requires IsRun(ws, calls, live) && k < |ws|
    ensures Inv(ws[k])
  {
    if k == 0 {
      assert Sum([]) == 0 && [0][0] == 0;
    } else {
      hide Inv, Step, Feasible;
      RunsKeepAccounts(ws, calls, live, k - 1);
      StepKeepsInv(ws[k - 1], calls[k - 1]);
      assert ws[k - 1 + 1] == Step(ws[k - 1], calls[k - 1]);
    }
  }

  // ----- the leak report

  /** Every block the program holds is tracked. */
  predicate IsComplete(w: World) {
    w.tracker.initialized && w.tracked.Keys == w.live
  }

  /** The calls after which a block the program holds is not in the table. */
  predicate LosesTrack(w: World, c: Call) {
    match c
    case Shutdown => true
    case Reset => w.live != {}
    case Malloc(_, result) => result.Some? && |w.tracked| == MAX_ALLOCS
    case Calloc(_, _, result) => result.Some? && |w.tracked| == MAX_ALLOCS
    case Realloc(ptr, _, result, released) =>
      if ptr.Some? then result.None? && !released else result.Some? && |w.tracked| == MAX_ALLOCS
    case _ => false
  }

  /**
    The report of leaks stays complete exactly until the tracker is shut down or reset over live blocks,
    a block is allocated with the table full, or a realloc fails, which drops a block that is still live.
   */
  lemma CompleteKeptIff(w: World, c: Call)
    requires Inv(w) && Feasible(w, c) && IsComplete(w)
    ensures IsComplete(Step(w, c)) <==> !LosesTrack(w, c)
  {
    assert |w.tracked| <= MAX_ALLOCS;
    ModeAfter(w.tracker, c);
    hide Inv, Apply;
    match c {
      case Realloc(ptr, size, result, released) => CompleteAfterRealloc(w, ptr, size, result, released);
      case Malloc(size, result) => CompleteAfterTracking(w.tracked, w.live, result, size);
      case Calloc(count, each, result) => CompleteAfterTracking(w.tracked, w.live, result, count * each);
      case Free(ptr) => CompleteAfterForgetting(w.tracked, w.live, ptr);
      case _ =>
    }
  }

  lemma CompleteAfterTracking(m: map<nat, nat>, live: set<nat>, result: Option<nat>, size: nat)
    requires m.Keys == live && |m| <= MAX_ALLOCS && (result.Some? ==> result.value !in live)
    ensures Tracking(m, true, result, size).Keys == Given(live, result) <==> !(result.Some? && |m| == MAX_ALLOCS)
  {
    if result.Some? {
      assert result.value in Given(live, result);
    }
  }

  lemma CompleteAfterForgetting(m: map<nat, nat>, live: set<nat>, ptr: Option<nat>)
    requires m.Keys == live
    ensures Forgetting(m, true, ptr).Keys == Taken(live, ptr)
    ensures ptr.Some? && ptr.value in live ==> |Forgetting(m, true, ptr)| == |m| - 1
  {
    if ptr.Some? && ptr.value in live {
      OneLess(m, ptr.value);
    }
  }

  lemma CompleteAfterRealloc(w: World, ptr: Option<nat>, size: nat, result: Option<nat>, released: bool)
    requires IsComplete(w) && |w.tracked| <= MAX_ALLOCS && Feasible(w, Realloc(ptr, size, result, released))
    ensures var c := Realloc(ptr, size, result, released);
            TrackedAfter(w, c).Keys == LiveAfter(w.live, c) <==> !LosesTrack(w, c)
  {
    hide Tracking, Forgetting, Given;
    CompleteAfterForgetting(w.tracked, w.live, ptr);
    if result.Some? {
      CompleteAfterTracking(Forgetting(w.tracked, true, ptr), Taken(w.live, ptr), result, size);
    } else {
      assert Tracking(Forgetting(w.tracked, true, ptr), true, None, size) == Forgetting(w.tracked, true, ptr) by {
        NothingTracked(Forgetting(w.tracked, true, ptr), size);
      }
      NothingGiven(Taken(w.live, ptr));
      assert ptr.Some? ==> ptr.value in w.live && ptr.value !in Taken(w.live, ptr);
    }
  }

  lemma NothingTracked(m: map<nat, nat>, size: nat)
    ensures Tracking(m, true, None, size) == m
  {
  }

  lemma NothingGiven(live: set<nat>)
    ensures Given(live, None) == live
  {
  }

  /** While the report is complete, the number of leaks it gives is the number of blocks still held. */
  lemma LeaksAreLiveBlocks(w: World)
    requires Inv(w) && IsComplete(w)
    ensures |w.tracker.table| == |w.live| == w.tracker.stats.currentAllocations
  {
    hide AsMap, Sum, Distinct;
    assert |w.tracked| == |w.tracked.Keys|;
  }
}
