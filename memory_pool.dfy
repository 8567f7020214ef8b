/**
 * The segmented slab allocator of memory-pool.c.
 *
 * A pool owns a list of segments; a segment owns `count` slots and a LIFO
 * free-list of the indices of its unused slots. A slot is a header (the
 * allocation flag and the back-links to its segment and pool) followed by a
 * payload of `allocSize` bytes. The C code finds a header by stepping back
 * from the payload pointer; here a payload is addressed by a Handle that
 * names the pool, the segment and the slot.
 *
 * The C list of segments inserts new segments at its head. Here segments
 * are appended to a sequence, so the C list order (newest first) is the
 * sequence read from its end; the segment index is a stable identity.
 */
module MemoryPool {
  import opened Wrappers

  newtype byte = x: int | 0 <= x < 256

  /** Size of the first segment a new pool allocates (memory-pool.c:74). */
  const DefaultSegmentCount: nat := 1024

  /** memory_pool_header plus its payload. */
  datatype Slot = Slot(isAllocated: bool, segment: nat, pool: Pool, payload: seq<byte>)

  /** memory_pool_segment: `count` slots and the stack of free slot indices. */
  datatype Segment = Segment(count: nat, free: seq<nat>, slots: seq<Slot>)

  /** Stands for the payload pointer handed out by the allocator. */
  datatype Handle = Handle(pool: Pool, segment: nat, slot: nat)

  datatype FreeStatus = Freed | DoubleFree

  datatype TeardownStatus = TornDown | NonemptyPool

  function Zeros(n: nat): (z: seq<byte>)
    ensures |z| == n && forall i :: 0 <= i < n ==> z[i] == 0
  {
    seq(n, _ => 0)
  }

  predicate NoDup(s: seq<nat>)
  {
    forall i, j :: 0 <= i < j < |s| ==> s[i] != s[j]
  }

  /** The free-list holds exactly the unallocated slots, each once. */
  ghost predicate FreeListExact(s: Segment)
    requires |s.slots| == s.count
  {
    && NoDup(s.free)
    && (forall j :: 0 <= j < |s.free| ==> s.free[j] < s.count && !s.slots[s.free[j]].isAllocated)
    && (forall k :: 0 <= k < s.count && !s.slots[k].isAllocated ==> k in s.free)
  }

  /** Segment `index` of `pool`: non-empty, every header back-linked, the free-list exact. */
  ghost predicate SegmentValid(s: Segment, index: nat, pool: Pool, allocSize: nat)
  {
    && s.count > 0
    && |s.slots| == s.count
    && (forall k :: 0 <= k < s.count ==>
          s.slots[k].segment == index && s.slots[k].pool == pool && |s.slots[k].payload| == allocSize)
    && FreeListExact(s)
  }

  // The scan of choose_free_segment walks the list from its head, which is
  // the end of `segs`; once it has visited the segments from `lo` on, the
  // predicates below with that `lo` describe what it has seen.

  /** Every segment from `lo` on is full (its free-list is empty). */
  ghost predicate AllFullFrom(segs: seq<Segment>, lo: nat)
  {
    forall i :: lo <= i < |segs| ==> segs[i].free == []
  }

  ghost predicate AllFull(segs: seq<Segment>)
  {
    AllFullFrom(segs, 0)
  }

  /**
   * Among the segments from `lo` on, segment `c` is the one choose_free_segment
   * keeps: it has a free slot, no segment with a free slot is larger, and
   * every segment met before it in list order (a higher index) with a free
   * slot is strictly smaller.
   */
  ghost predicate IsBestFreeFrom(segs: seq<Segment>, lo: nat, c: nat)
  {
    && lo <= c < |segs|
    && segs[c].free != []
    && (forall i :: lo <= i < |segs| && segs[i].free != [] ==> segs[i].count <= segs[c].count)
    && (forall i :: c < i < |segs| && segs[i].free != [] ==> segs[i].count < segs[c].count)
  }

  ghost predicate IsBestFree(segs: seq<Segment>, c: nat)
  {
    IsBestFreeFrom(segs, 0, c)
  }

  /**
   * The growth hint after scanning the segments from `lo` on: the largest of
   * the old hint and twice the count of every full segment seen.
   */
  ghost predicate GrowthHintFrom(oldHint: nat, hint: nat, segs: seq<Segment>, lo: nat)
  {
    && oldHint <= hint
    && (forall i :: lo <= i < |segs| && segs[i].free == [] ==> 2 * segs[i].count <= hint)
    && (hint == oldHint || exists i :: lo <= i < |segs| && segs[i].free == [] && hint == 2 * segs[i].count)
  }

  ghost predicate GrowthHint(oldHint: nat, hint: nat, segs: seq<Segment>)
  {
    GrowthHintFrom(oldHint, hint, segs, 0)
  }

  /** One step of the scan over segment i: the hint takes in a full segment's doubled count. */
  lemma ScanHintStep(oldHint: nat, hint: nat, segs: seq<Segment>, i: nat)
    requires i < |segs| && GrowthHintFrom(oldHint, hint, segs, i + 1)
    ensures var grown := if segs[i].free == [] && hint < 2 * segs[i].count then 2 * segs[i].count else hint;
      GrowthHintFrom(oldHint, grown, segs, i)
  {
    if segs[i].free == [] && hint < 2 * segs[i].count {
      assert segs[i].free == [] && 2 * segs[i].count == 2 * segs[i].count;
    } else if hint != oldHint {
      var j :| i + 1 <= j < |segs| && segs[j].free == [] && hint == 2 * segs[j].count;
      assert i <= j;
    }
  }

  /** One step of the scan over segment i: the kept segment is replaced only by a strictly larger one with a free slot. */
  lemma ScanChoiceStep(segs: seq<Segment>, i: nat, choice: Option<nat>)
    requires i < |segs|
    requires choice.None? <==> AllFullFrom(segs, i + 1)
    requires choice.Some? ==> IsBestFreeFrom(segs, i + 1, choice.value)
    ensures var next := if segs[i].free != [] && (choice.None? || segs[i].count > segs[choice.value].count)
                        then Some(i) else choice;
      && (next.None? <==> AllFullFrom(segs, i))
      && (next.Some? ==> IsBestFreeFrom(segs, i, next.value))
  {
  }

  /** 0, 1, ..., n - 1: the slot indices of a segment of n slots. */
  function Indices(n: nat): (r: seq<nat>)
    ensures |r| == n && forall i :: 0 <= i < n ==> r[i] == i
  {
    seq(n, i => i)
  }

  /** The segment memory_pool_segment_add builds: every slot free, zeroed and back-linked. */
  function FreshSegment(count: nat, index: nat, pool: Pool, allocSize: nat): Segment
  {
    Segment(count, Indices(count), seq(count, _ => Slot(false, index, pool, Zeros(allocSize))))
  }

  /** The segment after an allocation pops its last free slot. */
  function Allocate(s: Segment, allocSize: nat): Segment
    requires s.free != [] && s.free[|s.free| - 1] < |s.slots|
  {
    var k := s.free[|s.free| - 1];
    s.(free := s.free[..|s.free| - 1],
       slots := s.slots[k := s.slots[k].(isAllocated := true, payload := Zeros(allocSize))])
  }

  /** The segment after slot `k` is freed: `k` pushed on the free-list, its flag cleared. */
  function Release(s: Segment, k: nat): Segment
    requires k < |s.slots|
  {
    s.(free := s.free + [k], slots := s.slots[k := s.slots[k].(isAllocated := false)])
  }

  lemma {:induction false} FreshSegmentValid(count: nat, index: nat, pool: Pool, allocSize: nat)
    requires count > 0
    ensures var s := FreshSegment(count, index, pool, allocSize);
      && SegmentValid(s, index, pool, allocSize)
      && |s.free| == s.count == count
      && forall k :: 0 <= k < count ==> !s.slots[k].isAllocated && s.slots[k].payload == Zeros(allocSize)
  {
    var s := FreshSegment(count, index, pool, allocSize);
    forall k | 0 <= k < count ensures k in s.free {
      assert s.free[k] == k;
    }
  }

  /**
   * Allocating from a valid segment with a free slot takes the last free
   * slot, which was unallocated; afterwards it is allocated and zero-filled,
   * the free-list is one shorter, every other slot is untouched, and the
   * segment is still valid.
   */
  lemma {:induction false} AllocateKeepsValid(s: Segment, index: nat, pool: Pool, allocSize: nat)
    requires SegmentValid(s, index, pool, allocSize) && s.free != []
    ensures var k := s.free[|s.free| - 1];
      var r := Allocate(s, allocSize);
      && k < s.count
      && !s.slots[k].isAllocated
      && r.slots[k].isAllocated && r.slots[k].payload == Zeros(allocSize)
      && r.free == s.free[..|s.free| - 1] && |r.free| == |s.free| - 1
      && r.count == s.count
      && (forall j :: 0 <= j < s.count && j != k ==> r.slots[j] == s.slots[j])
      && SegmentValid(r, index, pool, allocSize)
  {
    var k := s.free[|s.free| - 1];
    var r := Allocate(s, allocSize);
    forall j | 0 <= j < r.count && !r.slots[j].isAllocated ensures j in r.free {
      assert j != k;
      assert j in s.free;
      var i :| 0 <= i < |s.free| && s.free[i] == j;
      assert i < |s.free| - 1;
      assert r.free[i] == j;
    }
  }

  /**
   * Freeing an allocated slot of a valid segment pushes it on the free-list
   * and clears its flag; every other slot is untouched and the segment is
   * still valid.
   */
  lemma {:induction false} ReleaseKeepsValid(s: Segment, index: nat, pool: Pool, allocSize: nat, k: nat)
    requires SegmentValid(s, index, pool, allocSize) && k < s.count && s.slots[k].isAllocated
    ensures var r := Release(s, k);
      && !r.slots[k].isAllocated && r.slots[k].payload == s.slots[k].payload
      && r.free == s.free + [k] && |r.free| == |s.free| + 1
      && (forall j :: 0 <= j < s.count && j != k ==> r.slots[j] == s.slots[j])
      && SegmentValid(r, index, pool, allocSize)
  {
    var r := Release(s, k);
    assert k !in s.free;
    forall j | 0 <= j < r.count && !r.slots[j].isAllocated ensures j in r.free {
      if j != k {
        var i :| 0 <= i < |s.free| && s.free[i] == j;
        assert r.free[i] == j;
      } else {
        assert r.free[|s.free|] == k;
      }
    }
  }

  /** The set of entries of a sequence. */
  function Elements(s: seq<nat>): set<nat>
  {
    set x | x in s
  }

  lemma {:induction false} NoDupCard(s: seq<nat>)
    requires NoDup(s)
    ensures |Elements(s)| == |s|
  {
    if s == [] {
      assert Elements(s) == {};
    } else {
      var t := s[..|s| - 1];
      var last := s[|s| - 1];
      assert NoDup(t);
      NoDupCard(t);
      assert last !in Elements(t);
      assert s == t + [last];
      assert Elements(s) == Elements(t) + {last};
    }
  }

  lemma {:induction false} SubsetCard(a: set<nat>, b: set<nat>)
    requires a <= b
    ensures |a| <= |b|
    decreases |b|
  {
    if b != {} {
      var x :| x in b;
      SubsetCard(a - {x}, b - {x});
    }
  }

  /**
   * In a valid segment the free-list is never longer than the segment, and
   * it has exactly `count` entries if and only if no slot is allocated: the
   * teardown check "free-list length == count" is a leak check.
   */
  lemma {:induction false} FreeListCount(s: Segment, index: nat, pool: Pool, allocSize: nat)
    requires SegmentValid(s, index, pool, allocSize)
    ensures |s.free| <= s.count
    ensures |s.free| == s.count <==> forall k :: 0 <= k < s.count ==> !s.slots[k].isAllocated
  {
    var F := Elements(s.free);
    var R := Elements(Indices(s.count));
    NoDupCard(s.free);
    NoDupCard(Indices(s.count));
    forall x | x in F ensures x in R {
      assert Indices(s.count)[x] == x;
    }
    SubsetCard(F, R);
    if forall k :: 0 <= k < s.count ==> !s.slots[k].isAllocated {
      assert R <= F;
      assert F == R;
    } else {
      var k :| 0 <= k < s.count && s.slots[k].isAllocated;
      assert Indices(s.count)[k] == k;
      SubsetCard(F, R - {k});
    }
  }

  /**
   * An allocation leaves every live slot of the pool as it was: the slot it
   * hands out is none of them, so two live allocations never share a slot
   * and the values stored in live slots survive the allocation.
   */
  lemma AllocateSparesLive(segs: seq<Segment>, pool: Pool, allocSize: nat, c: nat)
    requires forall i :: 0 <= i < |segs| ==> SegmentValid(segs[i], i, pool, allocSize)
    requires c < |segs| && SegmentValid(segs[c], c, pool, allocSize) && segs[c].free != []
    ensures var k := segs[c].free[|segs[c].free| - 1];
      var after := segs[c := Allocate(segs[c], allocSize)];
      forall i, j :: 0 <= i < |segs| && 0 <= j < |segs[i].slots| && segs[i].slots[j].isAllocated ==>
        (i != c || j != k) && after[i].slots[j] == segs[i].slots[j]
  {
    AllocateKeepsValid(segs[c], c, pool, allocSize);
  }

  /** Freeing one slot leaves every other slot of the pool, and the values stored there, as it was. */
  lemma ReleaseSparesOthers(segs: seq<Segment>, pool: Pool, allocSize: nat, c: nat, k: nat)
    requires forall i :: 0 <= i < |segs| ==> SegmentValid(segs[i], i, pool, allocSize)
    requires c < |segs| && k < |segs[c].slots| && segs[c].slots[k].isAllocated
    ensures var after := segs[c := Release(segs[c], k)];
      forall i, j :: 0 <= i < |segs| && 0 <= j < |segs[i].slots| && (i != c || j != k) ==>
        after[i].slots[j] == segs[i].slots[j]
  {
    ReleaseKeepsValid(segs[c], c, pool, allocSize, k);
  }

  class Pool {
    const allocSize: nat
    var newSegmentCount: nat
    var segments: seq<Segment>

    ghost predicate Valid()
      reads this
    {
      && newSegmentCount > 0
      && forall i :: 0 <= i < |segments| ==> SegmentValid(segments[i], i, this, allocSize)
    }

    /** thread_memory_pool_new */
    constructor (itemSize: nat)
      ensures Valid()
      ensures segments == [] && newSegmentCount == DefaultSegmentCount && allocSize == itemSize
    {
      allocSize := itemSize;
      newSegmentCount := DefaultSegmentCount;
      segments := [];
    }

    /** memory_segment_index: the header of slot `index` of segment `segment`. */
    function SegmentIndex(segment: nat, index: nat): (header: Slot)
      reads this
      requires Valid() && segment < |segments| && index < segments[segment].count
      ensures header.segment == segment && header.pool == this && |header.payload| == allocSize
    {
      segments[segment].slots[index]
    }

    /** memory_pool_segment_add */
    method SegmentAdd(count: nat) returns (index: nat)
      requires Valid() && count > 0
      modifies this
      ensures Valid() && newSegmentCount == old(newSegmentCount)
      ensures index == |old(segments)|
      ensures segments == old(segments) + [FreshSegment(count, index, this, allocSize)]
    {
      index := |segments|;
      var free: seq<nat> := [];
      var slots: seq<Slot> := [];
      for i := 0 to count
        invariant |free| == i && |slots| == i
        invariant forall j :: 0 <= j < i ==> free[j] == j && slots[j] == Slot(false, index, this, Zeros(allocSize))
      {
        slots := slots + [Slot(false, index, this, Zeros(allocSize))];
        free := free + [i];
      }
      var s := Segment(count, free, slots);
      assert s == FreshSegment(count, index, this, allocSize);
      FreshSegmentValid(count, index, this, allocSize);
      segments := segments + [s];
    }

    /** choose_free_segment */
    method ChooseFreeSegment() returns (choice: Option<nat>)
      requires Valid()
      modifies this`newSegmentCount
      ensures Valid() && segments == old(segments)
      ensures GrowthHint(old(newSegmentCount), newSegmentCount, segments)
      ensures choice.None? <==> AllFull(segments)
      ensures choice.Some? ==> IsBestFree(segments, choice.value)
    {
      choice := None;
      var i := |segments|;
      while i > 0
        invariant 0 <= i <= |segments|
        invariant old(newSegmentCount) <= newSegmentCount
        invariant GrowthHintFrom(old(newSegmentCount), newSegmentCount, segments, i)
        invariant choice.None? <==> AllFullFrom(segments, i)
        invariant choice.Some? ==> IsBestFreeFrom(segments, i, choice.value)
      {
        i := i - 1;
        ScanHintStep(old(newSegmentCount), newSegmentCount, segments, i);
        ScanChoiceStep(segments, i, choice);
        if segments[i].free != [] {
          if choice.None? || segments[i].count > segments[choice.value].count {
            choice := Some(i);
          }
        } else {
          var grown := 2 * segments[i].count;
          if newSegmentCount < grown {
            newSegmentCount := grown;
          }
        }
      }
    }

    /** choose_or_alloc_free_segment */
    method ChooseOrAllocFreeSegment() returns (c: nat)
      requires Valid()
      modifies this
      ensures Valid()
      ensures GrowthHint(old(newSegmentCount), newSegmentCount, old(segments))
      ensures c <= |old(segments)| && c < |segments| && segments[c].free != []
      ensures c < |old(segments)| ==> segments == old(segments) && IsBestFree(segments, c)
      ensures c == |old(segments)| ==>
        AllFull(old(segments)) && segments == old(segments) + [FreshSegment(newSegmentCount, c, this, allocSize)]
    {
      var choice := ChooseFreeSegment();
      if choice.Some? {
        c := choice.value;
      } else {
        c := SegmentAdd(newSegmentCount);
        FreshSegmentValid(newSegmentCount, c, this, allocSize);
      }
    }

    /** thread_memory_pool_calloc_from_pool */
    /**
     * What thread_memory_calloc promises: the pool stays valid, the growth
     * hint is kept, the slot comes from the first free segment of the best
     * kind (or from a fresh segment appended when all are full), it is the
     * last entry of that segment's free list, and only that slot changes.
     */
    twostate predicate Calloced(new h: Handle)
      reads this
    {
      && Valid()
      && GrowthHint(old(newSegmentCount), newSegmentCount, old(segments))
      && h.pool == this && h.segment <= |old(segments)|
      && (h.segment < |old(segments)| ==> IsBestFree(old(segments), h.segment))
      && (h.segment == |old(segments)| ==> AllFull(old(segments)))
      && var before := if h.segment < |old(segments)| then old(segments)
                       else old(segments) + [FreshSegment(newSegmentCount, h.segment, this, allocSize)];
        && h.segment < |before|
        && before[h.segment].free != []
        && h.slot == before[h.segment].free[|before[h.segment].free| - 1]
        && h.slot < before[h.segment].count && h.slot < |before[h.segment].slots|
        && !before[h.segment].slots[h.slot].isAllocated
        && segments == before[h.segment := Allocate(before[h.segment], allocSize)]
    }

    method Calloc() returns (h: Handle)
      requires Valid()
      modifies this
      ensures Calloced(h)
    {
      var c := ChooseOrAllocFreeSegment();
      var s := segments[c];
      var k := s.free[|s.free| - 1];
      AllocateKeepsValid(s, c, this, allocSize);
      var header := s.slots[k];
      header := header.(isAllocated := true);
      header := header.(payload := Zeros(allocSize));
      segments := segments[c := s.(free := s.free[..|s.free| - 1], slots := s.slots[k := header])];
      h := Handle(this, c, k);
    }

    /** The caller storing `data` into the payload of an allocated slot. */
    method Write(h: Handle, data: seq<byte>)
      requires Valid() && h.pool == this && h.segment < |segments| && h.slot < segments[h.segment].count
      requires segments[h.segment].slots[h.slot].isAllocated && |data| == allocSize
      modifies this
      ensures Valid() && newSegmentCount == old(newSegmentCount)
      ensures var s := old(segments)[h.segment];
        segments == old(segments)[h.segment := s.(slots := s.slots[h.slot := s.slots[h.slot].(payload := data)])]
    {
      var s := segments[h.segment];
      segments := segments[h.segment := s.(slots := s.slots[h.slot := s.slots[h.slot].(payload := data)])];
    }

    /** The body of thread_memory_free once the header is found: the double-free check and the push. */
    method FreeSlot(segment: nat, slot: nat) returns (status: FreeStatus)
      requires Valid() && segment < |segments| && slot < segments[segment].count
      modifies this
      ensures Valid() && newSegmentCount == old(newSegmentCount)
      ensures status == DoubleFree <==> !old(segments)[segment].slots[slot].isAllocated
      ensures status == DoubleFree ==> segments == old(segments)
      ensures status == Freed ==> segments == old(segments)[segment := Release(old(segments)[segment], slot)]
    {
      var s := segments[segment];
      if !s.slots[slot].isAllocated {
        return DoubleFree;
      }
      ReleaseKeepsValid(s, segment, this, allocSize, slot);
      segments := segments[segment := s.(free := s.free + [slot], slots := s.slots[slot := s.slots[slot].(isAllocated := false)])];
      status := Freed;
    }

    /** thread_memory_pool_free: pops every segment, refusing one that still has a live slot. */
    method Destroy() returns (status: TeardownStatus)
      requires Valid()
      modifies this
      ensures status == TornDown <==>
        forall i :: 0 <= i < |old(segments)| ==> |old(segments)[i].free| == old(segments)[i].count
      ensures status == TornDown <==>
        forall i, k :: 0 <= i < |old(segments)| && 0 <= k < old(segments)[i].count ==>
          !old(segments)[i].slots[k].isAllocated
      ensures status == TornDown ==> segments == []
    {
      forall i | 0 <= i < |segments| ensures
        |segments[i].free| == segments[i].count <==>
        forall k :: 0 <= k < segments[i].count ==> !segments[i].slots[k].isAllocated
      {
        FreeListCount(segments[i], i, this, allocSize);
      }
      while |segments| > 0
        invariant segments == old(segments)[..|segments|]
        invariant forall i :: |segments| <= i < |old(segments)| ==> |old(segments)[i].free| == old(segments)[i].count
      {
        var last := segments[|segments| - 1];
        segments := segments[..|segments| - 1];
        if |last.free| != last.count {
          return NonemptyPool;
        }
      }
      status := TornDown;
    }
  }

  /** thread_memory_free: finds the pool and segment through the slot's header. */
  method MemoryFree(mem: Handle) returns (status: FreeStatus)
    requires mem.pool.Valid() && mem.segment < |mem.pool.segments| && mem.slot < mem.pool.segments[mem.segment].count
    modifies mem.pool
    ensures mem.pool.Valid() && mem.pool.newSegmentCount == old(mem.pool.newSegmentCount)
    ensures status == DoubleFree <==> !old(mem.pool.segments)[mem.segment].slots[mem.slot].isAllocated
    ensures status == DoubleFree ==> mem.pool.segments == old(mem.pool.segments)
    ensures status == Freed ==>
      mem.pool.segments == old(mem.pool.segments)[mem.segment := Release(old(mem.pool.segments)[mem.segment], mem.slot)]
  {
    var header := mem.pool.SegmentIndex(mem.segment, mem.slot);
    var pool := header.pool;
    status := pool.FreeSlot(header.segment, mem.slot);
  }

  /** thread_memory_pool_calloc_from_peer: allocates from the pool that owns `mem`. */
  method CallocFromPeer(mem: Handle) returns (h: Handle)
    requires mem.pool.Valid() && mem.segment < |mem.pool.segments| && mem.slot < mem.pool.segments[mem.segment].count
    modifies mem.pool
    ensures mem.pool.Calloced(h)
    ensures h.segment < |mem.pool.segments| && h.slot < mem.pool.segments[h.segment].count
    ensures mem.pool.segments[h.segment].slots[h.slot].isAllocated
    ensures mem.pool.segments[h.segment].slots[h.slot].payload == Zeros(mem.pool.allocSize)
    ensures old(mem.pool.segments)[mem.segment].slots[mem.slot].isAllocated ==>
      && (h.segment != mem.segment || h.slot != mem.slot)
      && mem.pool.segments[mem.segment].slots[mem.slot] == old(mem.pool.segments)[mem.segment].slots[mem.slot]
  {
    var header := mem.pool.SegmentIndex(mem.segment, mem.slot);
    ghost var segs := mem.pool.segments;
    h := header.pool.Calloc();
    if h.segment < |segs| {
      AllocateSparesLive(segs, mem.pool, mem.pool.allocSize, h.segment);
    } else {
      ghost var added := FreshSegment(mem.pool.newSegmentCount, h.segment, mem.pool, mem.pool.allocSize);
      FreshSegmentValid(mem.pool.newSegmentCount, h.segment, mem.pool, mem.pool.allocSize);
      AllocateSparesLive(segs + [added], mem.pool, mem.pool.allocSize, h.segment);
    }
  }
}
