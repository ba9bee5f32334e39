/** Consequences over whole runs of process_malloc and process_free, and where they fall short. */
module ProcessRuns {
  import opened Status
  import opened Bits
  import opened HeapTable
  import opened PageTables
  import opened Paging
  import opened Kernel
  import opened AddressSpace
  import opened ProcessMemory
  import Heap

  datatype Call = Malloc(size: uint32) | Free(ptr: uint32)

  /** Calls at which the functions keep their promises: a size that is not zero and small enough for
      memset; a null pointer only while a byte below the table stops the walk of kfree(0). */
  ghost predicate Sound(k: Machine, c: Call, stopped: bool)
    reads k, k.heap
  {
    match c
    case Malloc(size) => 1 <= size <= U32 - (k.heap.saddr + k.heap.total * Heap.BLOCK_SIZE)
    case Free(ptr) => ptr != 0 || stopped
  }

  /** Some byte of the page below the heap table stops the walk of kfree(0). */
  ghost predicate Stopped(heap: Heap.Heap)
    requires heap.Layout()
    reads heap, heap.low
  {
    !Reaches(heap.low[..], NullStart(heap), heap.base)
  }

  lemma ReachesBelow(low: seq<Entry>, low': seq<Entry>, start: nat, base: nat)
    requires SameBelow(low, low', base)
    ensures Reaches(low', start, base) <==> Reaches(low, start, base)
  {
  }

  /** Any run of allocations and frees keeps the used slots in step with the live runs of the
      process (Inv) and leaves all other runs alone. */
  method Run(k: Machine, p: Process, calls: seq<Call>)
    requires p.Inv(k) && forall i :: 0 <= i < |calls| ==> Sound(k, calls[i], Stopped(k.heap))
    modifies k.heap.low, k.heap`live, k.mem, p.allocations
    ensures p.Inv(k) && p.Others(k) == old(p.Others(k))
    ensures Stopped(k.heap) <==> old(Stopped(k.heap))
    ensures SpaceBlocks(k.mem[..], p.chunk, k.heap.saddr / PAGE_SIZE) == SpaceBlocks(old(k.mem[..]), p.chunk, k.heap.saddr / PAGE_SIZE)
  {
    hide Encodes, SlotsOk, SlotBlocks, OwnedBlocks, IsChunk, SpaceBlocks, Reaches, RunsKeep;
    var i := 0;
    while i < |calls|
      invariant 0 <= i <= |calls| && p.Inv(k) && p.Others(k) == old(p.Others(k))
      invariant Stopped(k.heap) <==> old(Stopped(k.heap))
      invariant SpaceBlocks(k.mem[..], p.chunk, k.heap.saddr / PAGE_SIZE) == SpaceBlocks(old(k.mem[..]), p.chunk, k.heap.saddr / PAGE_SIZE)
    {
      assert Sound(k, calls[i], old(Stopped(k.heap)));
      Perform(k, p, calls[i]);
      i := i + 1;
    }
  }

  /** One call of such a run. Beside the bookkeeping, every live run but the process's own page tables
      keeps its contents. */
  method Perform(k: Machine, p: Process, c: Call)
    requires p.Inv(k) && Sound(k, c, Stopped(k.heap))
    modifies k.heap.low, k.heap`live, k.mem, p.allocations
    ensures p.Inv(k) && p.Others(k) == old(p.Others(k))
    ensures Stopped(k.heap) <==> old(Stopped(k.heap))
    ensures RunsKeep(old(k.mem[..]), k.mem[..], k.heap.saddr / PAGE_SIZE, old(k.heap.live),
      SpaceBlocks(old(k.mem[..]), p.chunk, k.heap.saddr / PAGE_SIZE))
    ensures SpaceBlocks(k.mem[..], p.chunk, k.heap.saddr / PAGE_SIZE) == SpaceBlocks(old(k.mem[..]), p.chunk, k.heap.saddr / PAGE_SIZE)
  {
    hide Encodes, SlotsOk, SlotBlocks, OwnedBlocks, IsChunk, SpaceBlocks, Flat, ScanAnswer, Heap.BlockCount,
      SameAround, SameBelow, ClearChain, FirstWith, EndOf, PageTables.MapTo, HeapAnswer, OnlyRunAndTables, SameTables, Reaches,
      BlockNo, RunsKeep;
    match c {
      case Malloc(size) =>
        ghost var low := k.heap.low[..];
        var ptr := ProcessMalloc(k, p, size);
        ReachesBelow(low, k.heap.low[..], NullStart(k.heap), k.heap.base);
      case Free(ptr) => FreeOne(k, p, ptr);
    }
  }

  /** One call of process_free in such a run. */
  method FreeOne(k: Machine, p: Process, ptr: uint32)
    requires p.Inv(k) && (ptr != 0 || Stopped(k.heap))
    modifies k.heap.low, k.heap`live, k.mem, p.allocations
    ensures p.Inv(k) && p.Others(k) == old(p.Others(k))
    ensures Stopped(k.heap) <==> old(Stopped(k.heap))
    ensures RunsKeep(old(k.mem[..]), k.mem[..], k.heap.saddr / PAGE_SIZE, old(k.heap.live),
      SpaceBlocks(old(k.mem[..]), p.chunk, k.heap.saddr / PAGE_SIZE))
    ensures SpaceBlocks(k.mem[..], p.chunk, k.heap.saddr / PAGE_SIZE) == SpaceBlocks(old(k.mem[..]), p.chunk, k.heap.saddr / PAGE_SIZE)
  {
    hide Encodes, SlotsOk, SlotBlocks, OwnedBlocks, IsChunk, SpaceBlocks, Flat, Heap.BlockCount, RunsKeep,
      SameAround, ClearChain, FirstWith, EndOf, PageTables.MapTo, SameTables, Reaches, BlockNo;
    ghost var low, m := k.heap.low[..], k.heap.live;
    ghost var own := SlotBlocks(p.allocations[..], k.heap.saddr);
    ProcessFree(k, p, ptr, m);
    if ptr == 0 {
      NullStartBelow(k.heap);
      WalkFromBelow(low, NullStart(k.heap), k.heap.base, k.heap.total, m);
    } else {
      ghost var b := BlockNo(k.heap.saddr, ptr);
      OthersStay(m, own, b);
      if SameAround(low, k.heap.low[..], k.heap.base, k.heap.total) {
        ReachesAround(low, k.heap.low[..], NullStart(k.heap), k.heap.base, k.heap.total);
      }
    }
  }

  lemma NullStartBelow(heap: Heap.Heap)
    requires heap.Layout()
    ensures NullStart(heap) < heap.base
  {
  }

  lemma OthersStay(m: Runs, own: set<nat>, b: nat)
    ensures b in own ==> (m - {b}) - (own - {b}) == m - own
  {
  }

  /** A process that ends has given back every run it ever got, and nothing else, unless its kfree(0)
      takes along the run at block 0; it never does if a byte stops that walk or the run at block 0 is
      not another's. */
  method RunThenTerminate(k: Machine, p: Process, calls: seq<Call>)
    requires p.Inv(k) && forall i :: 0 <= i < |calls| ==> Sound(k, calls[i], Stopped(k.heap))
    modifies k.heap.low, k.heap`live, k.mem, p.allocations
    ensures k.Valid() && forall i :: 0 <= i < MAX_ALLOCATIONS ==> p.allocations[i] == Allocation(0, 0)
    ensures k.heap.live == old(p.Others(k)) || k.heap.live == old(p.Others(k)) - {0}
    ensures SpaceBlocks(k.mem[..], p.chunk, k.heap.saddr / PAGE_SIZE) == SpaceBlocks(old(k.mem[..]), p.chunk, k.heap.saddr / PAGE_SIZE)
    ensures old(Stopped(k.heap)) || 0 !in old(p.Others(k)) ==> k.heap.live == old(p.Others(k)) && p.Inv(k)
  {
    hide Reaches, Encodes, NullStart, SlotBlocks, SlotsOk, SpaceBlocks, OwnedBlocks, IsChunk;
    Run(k, p, calls);
    BlockZero(k, p);
    TerminateAllocations(k, p);
  }

  // ---- where the code and its intent part ----

  /** A request of size 0 is granted without marking anything: asking again returns the same address. */
  lemma ZeroSizeAliases(t: seq<Entry>, m: Runs, m1: Runs, m2: Runs, saddr: uint32, ptr1: uint32, ptr2: uint32)
    requires HeapAnswer(t, m, m1, saddr, 0, ptr1) && HeapAnswer(t, m1, m2, saddr, 0, ptr2)
    ensures ptr1 == ptr2 && m1 == m2 == m
  {
    hide ScanAnswer;
    Heap.BlockCountIs(0);
    var r1 := if ptr1 == 0 then -ENOMEM else BlockNo(saddr, ptr1);
    var r2 := if ptr2 == 0 then -ENOMEM else BlockNo(saddr, ptr2);
    ScanAnswerUnique(t, 0, r1, r2);
  }

  /** process_free turns the pages of [ptr, ptr + end) non-present and leaves all others alone,
      where `end` is the END ADDRESS of the allocation, not its length. */
  lemma FreeUnmaps(f: seq<uint32>, a: Allocation, q: nat)
    requires |f| == PAGES && q < PAGES && a.ptr % PAGE_SIZE == 0 && a.ptr + EndOf(a.ptr, a.size) <= U32
    ensures var flat, n := MapTo(f, a.ptr, 0, EndOf(a.ptr, a.size), 0).flat, EndOf(a.ptr, a.size) / PAGE_SIZE;
      flat[q] == if a.ptr / PAGE_SIZE <= q < a.ptr / PAGE_SIZE + n then (q - a.ptr / PAGE_SIZE) * PAGE_SIZE else f[q]
  {
    hide WithFlags;
    var vp, n := a.ptr / PAGE_SIZE, EndOf(a.ptr, a.size) / PAGE_SIZE;
    var k := (q - vp) % PAGES;
    assert MapTo(f, a.ptr, 0, EndOf(a.ptr, a.size), 0).flat[q] == MappedEntry(f, vp, 0, n, 0, q);
    if vp <= q < vp + n {
      assert k == q - vp;
      WithFlagsIs(k * PAGE_SIZE, 0);
    } else {
      assert k >= n;
    }
  }

  /** Freeing allocation a keeps another allocation c of the pool mapped if and only if c lies
      below a, or beyond a by a's whole end address. */
  lemma FreeKeepsMapped(f: seq<uint32>, m: Runs, saddr: uint32, total: nat, a: Allocation, c: Allocation)
    requires |f| == PAGES && SlotOk(a, m, saddr, total) && SlotOk(c, m, saddr, total) && saddr > 0
    requires Disjoint(m) && InPool(m, total) && saddr + total * Heap.BLOCK_SIZE < 0x8000_0000
    requires a.ptr != 0 && c.ptr != 0 && a.ptr != c.ptr && a.size <= 0xFFFFF000 && c.size <= 0xFFFFF000
    requires forall q: nat :: InPages(c, q) ==> f[q] % 2 == 1
    ensures (forall q: nat :: InPages(c, q) ==> MapTo(f, a.ptr, 0, EndOf(a.ptr, a.size), 0).flat[q] == f[q])
       <==> c.ptr < a.ptr || c.ptr >= a.ptr + EndOf(a.ptr, a.size)
  {
    hide PageTables.MapTo, Heap.BlockCount;
    var flat := MapTo(f, a.ptr, 0, EndOf(a.ptr, a.size), 0).flat;
    var ba: nat, bc: nat := BlockNo(saddr, a.ptr), BlockNo(saddr, c.ptr);
    assert ba + m[ba] <= total && bc + m[bc] <= total;
    EndInPool(saddr, total, a.ptr, a.size);
    forall q: nat | InPages(c, q)
      ensures flat[q] == f[q] <==> !(a.ptr / PAGE_SIZE <= q < a.ptr / PAGE_SIZE + EndOf(a.ptr, a.size) / PAGE_SIZE)
    {
      FreeUnmaps(f, a, q);
    }
    if c.ptr < a.ptr {
      assert bc < ba;
      assert bc + m[bc] <= ba;
    }
    assert InPages(c, c.ptr / PAGE_SIZE);
  }

  /** Example: of two one-block allocations at the start of a pool at 0x01000000, freeing the first
      leaves the second's page not present. */
  lemma UnmapExample(f: seq<uint32>)
    requires |f| == PAGES && f[0x1001] == WithFlags(0x0100_1000, USER_FLAGS)
    ensures var a, c := Allocation(0x0100_0000, 4096), Allocation(0x0100_1000, 4096);
      var flat := MapTo(f, a.ptr, 0, EndOf(a.ptr, a.size), 0).flat;
      InPages(c, 0x1001) && f[0x1001] % 2 == 1 && flat[0x1001] % 2 == 0
  {
    hide PageTables.MapTo, WithFlags;
    WithFlagsIs(0x0100_1000, USER_FLAGS);
    Heap.BlockCountIs(4096);
    FreeUnmaps(f, Allocation(0x0100_0000, 4096), 0x1001);
  }

  /** The pages of an allocation. */
  ghost predicate InPages(c: Allocation, q: nat) {
    c.ptr / PAGE_SIZE <= q < c.ptr / PAGE_SIZE + Heap.BlockCount(c.size) && q < PAGES
  }
}
