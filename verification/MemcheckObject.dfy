/** The globals of src/memcheck.c and the functions that update them in place. */
module MemcheckObjects {
  import opened Memcheck
  import opened Wrappers

  class AllocationTracker {
    const table: array<Block>
    var count: nat
    var stats: Stats
    var initialized: bool

    ghost predicate Valid()
      reads this
    {
      table.Length == MAX_ALLOCS && count <= MAX_ALLOCS
    }

    ghost function Abs(): Tracker
      requires Valid()
      reads this, table
    {
      Tracker(table[..count], stats, initialized)
    }

    constructor ()
      ensures Valid() && fresh(table) && Abs() == Tracker([], ZERO, false)
    {
      table := new Block[MAX_ALLOCS](_ => Block(0, 0));
      count, stats, initialized := 0, ZERO, false;
    }

    method FindSlot(ptr: nat) returns (slot: int)
      requires Valid()
      ensures var k := Slot(table[..count], ptr); slot == if k < count then k else -1
    {
      slot := 0;
      while slot < count
        invariant 0 <= slot <= count
        invariant forall i :: 0 <= i < slot ==> table[i].ptr != ptr
      {
        if table[slot].ptr == ptr {
          SlotIs(table[..count], ptr, slot);
          return;
        }
        slot := slot + 1;
      }
      SlotIs(table[..count], ptr, count);
      return -1;
    }

    method AddAllocation(ptr: nat, size: nat)
      requires Valid()
      modifies this`count, this`stats, table
      ensures Valid() && Abs() == old(Add(Abs(), Block(ptr, size)))
    {
      if count >= MAX_ALLOCS {
        return;
      }
      table[count] := Block(ptr, size);
      count := count + 1;
      stats := stats.(totalAllocations := stats.totalAllocations + 1,
                      currentAllocations := stats.currentAllocations + 1,
                      totalBytes := stats.totalBytes + size, currentBytes := stats.currentBytes + size);
      if stats.currentAllocations > stats.peakAllocations {
        stats := stats.(peakAllocations := stats.currentAllocations);
      }
      if stats.currentBytes > stats.peakBytes {
        stats := stats.(peakBytes := stats.currentBytes);
      }
      assert table[..count] == old(table[..count]) + [Block(ptr, size)];
    }

    /** Empties the slot of a pointer by moving the last entry into it. */
    method RemoveAllocation(ptr: nat)
      requires Valid()
      modifies this`count, this`stats, table
      ensures Valid() && Abs() == old(Remove(Abs(), ptr))
    {
      hide Slot;
      var slot := FindSlot(ptr);
      if slot < 0 {
        return;
      }
      stats := stats.(totalFrees := stats.totalFrees + 1, currentAllocations := stats.currentAllocations - 1,
                      currentBytes := stats.currentBytes - table[slot].size);
      count := count - 1;
      if slot != count {
        table[slot] := table[count];
      }
      assert table[..count] == SwapRemove(old(table[..count]), slot);
    }

    method Initialize()
      requires Valid()
      modifies this
      ensures Valid() && Abs() == old(Apply(Abs(), Init))
    {
      if initialized {
        return;
      }
      stats, count, initialized := ZERO, 0, true;
    }

    method ShutDown()
      requires Valid()
      modifies this`initialized
      ensures Valid() && Abs() == old(Apply(Abs(), Shutdown))
    {
      if !initialized {
        return;
      }
      initialized := false;
    }

    method ResetStatistics()
      requires Valid()
      modifies this`stats, this`count
      ensures Valid() && Abs() == old(Apply(Abs(), Reset))
    {
      stats, count := ZERO, 0;
    }

    method TrackedMalloc(size: nat, result: Option<nat>) returns (ptr: Option<nat>)
      requires Valid()
      modifies this`count, this`stats, table
      ensures Valid() && ptr == result && Abs() == old(Apply(Abs(), Malloc(size, result)))
    {
      ptr := result;
      if ptr.Some? && initialized {
        AddAllocation(ptr.value, size);
      }
    }

    method TrackedCalloc(members: nat, size: nat, result: Option<nat>) returns (ptr: Option<nat>)
      requires Valid()
      modifies this`count, this`stats, table
      ensures Valid() && ptr == result && Abs() == old(Apply(Abs(), Calloc(members, size, result)))
    {
      ptr := result;
      if ptr.Some? && initialized {
        AddAllocation(ptr.value, members * size);
      }
    }

    /** The block is taken out of the table before the reallocation, whether or not it succeeds. */
    method TrackedRealloc(ptr: Option<nat>, size: nat, result: Option<nat>, ghost released: bool)
      returns (newPtr: Option<nat>)
      requires Valid()
      modifies this`count, this`stats, table
      ensures Valid() && newPtr == result && Abs() == old(Apply(Abs(), Realloc(ptr, size, result, released)))
    {
      hide Add, Remove;
      if ptr.Some? && initialized {
        RemoveAllocation(ptr.value);
      }
      newPtr := result;
      if newPtr.Some? && initialized {
        AddAllocation(newPtr.value, size);
      }
    }

    method TrackedFree(ptr: Option<nat>)
      requires Valid()
      modifies this`count, this`stats, table
      ensures Valid() && Abs() == old(Apply(Abs(), Free(ptr)))
    {
      if ptr.None? {
        return;
      }
      if initialized {
        RemoveAllocation(ptr.value);
      }
    }

    method HasLeaks() returns (n: nat)
      requires Valid()
      ensures n == |Abs().table|
    {
      return count;
    }
  }
}
