/** The memory of a process from task creation to its end: an address space, the program and its stack mapped
    into it, any calls of process_malloc and process_free, and the release of everything. */
module ProcessLife {
  import opened Status
  import opened Bits
  import opened Memory
  import opened HeapTable
  import opened PageTables
  import opened Paging
  import opened Kernel
  import opened AddressSpace
  import opened ProcessMemory
  import opened ProcessRuns
  import opened ElfMap
  import Life = AddressSpaceLife
  import Heap

  /** A process with an address space of its own and no allocation yet is intact. */
  lemma NewProcess(k: Machine, p: Process)
    requires k.Valid() && OwnsSpace(k, p.chunk) && p.allocations.Length == 1024
    requires p.allocations as object != k.heap.low as object && p.allocations as object != k.mem as object
    requires forall i :: 0 <= i < 1024 ==> p.allocations[i] == Allocation(0, 0)
    ensures p.Inv(k) && p.Others(k) == k.heap.live
  {
    hide IsChunk, OwnedBlocks, Encodes, SpaceBlocks, BlockNo, Heap.BlockCount;
    NoSlots(p.allocations[..], k.heap.saddr);
  }

  /** Mapping the program and its stack keeps the process intact. */
  method MapImage(k: Machine, p: Process, program: Program, stack: uint32) returns (res: int)
    requires p.Inv(k)
    modifies k.mem
    ensures p.Inv(k)
    ensures Space(k.mem[..], p.chunk) == MapMemory(Space(old(k.mem[..]), p.chunk), program, stack).flat
    ensures res == MapMemory(Space(old(k.mem[..]), p.chunk), program, stack).res
    ensures SpaceBlocks(k.mem[..], p.chunk, k.heap.saddr / PAGE_SIZE) == SpaceBlocks(old(k.mem[..]), p.chunk, k.heap.saddr / PAGE_SIZE)
    ensures DirFrame(k.mem[..], p.chunk) == DirFrame(old(k.mem[..]), p.chunk)
    ensures SameTables(old(k.mem[..]), k.mem[..], DirFrame(k.mem[..], p.chunk))
  {
    hide IsTree, OwnedBlocks, Encodes, SpaceBlocks, SlotsOk, SlotBlocks, Flat, OnlyTables, SameTables, MapMemory;
    ghost var s := k.mem[..];
    res := ProcessMapMemory(k.mem, p.chunk, program, stack);
    RemappedIsChunk(s, k.mem[..], p.chunk, Space(k.mem[..], p.chunk));
    Life.RemapKeepsBlocks(s, k.mem[..], p.chunk, Space(k.mem[..], p.chunk), k.heap.live, k.heap.total, k.heap.saddr / PAGE_SIZE);
  }

  /** From the mapped image to the release of the address space; m is what was live before the process. */
  method LiveAndDie(k: Machine, p: Process, program: Program, stack: uint32, calls: seq<Call>, ghost m: Runs)
    requires p.Inv(k) && Stopped(k.heap) && forall i :: 0 <= i < |calls| ==> Sound(k, calls[i], true)
    requires forall i :: 0 <= i < MAX_ALLOCATIONS ==> p.allocations[i] == Allocation(0, 0)
    requires SpaceBlocks(k.mem[..], p.chunk, k.heap.saddr / PAGE_SIZE) !! m.Keys
    requires k.heap.live == m + OneBlockRuns(SpaceBlocks(k.mem[..], p.chunk, k.heap.saddr / PAGE_SIZE))
    modifies k.heap.low, k.heap`live, k.mem, p.allocations
    ensures k.Valid() && k.heap.live == m
  {
    hide Encodes, SpaceBlocks, SlotsOk, SlotBlocks, Reaches, IsChunk, OwnedBlocks, SameAround, Flat, MapMemory;
    ghost var blocks := SpaceBlocks(k.mem[..], p.chunk, k.heap.saddr / PAGE_SIZE);
    NewProcess(k, p);
    var res := MapImage(k, p, program, stack);
    RunThenTerminate(k, p, calls);
    Life.Free4GB(k, p.chunk);
    assert k.heap.live == (m + OneBlockRuns(blocks)) - blocks;
    assert (m + OneBlockRuns(blocks)) - blocks == m;
  }

  /** A whole life restores the heap table byte for byte, whatever the program, its stack and its calls,
      where a byte below the table stops the walk of kfree(0). */
  method WholeLife(k: Machine, flags: uint32, program: Program, stack: uint32, calls: seq<Call>) returns (born: bool)
    requires k.Valid() && flags < 256 && Stopped(k.heap)
    requires forall i :: 0 <= i < |calls| ==> Sound(k, calls[i], true)
    modifies k.heap.low, k.heap`live, k.mem
    ensures k.Valid()
    ensures born <==> FreeCount(old(k.heap.Table())) >= SPACE_BLOCKS
    ensures born ==> k.heap.Table() == old(k.heap.Table()) && k.heap.live == old(k.heap.live)
  {
    hide FreeCount, Encodes, Flat, Identity, IsChunk, OwnedBlocks, SpaceBlocks, OnlySpace, SlotsOk, SlotBlocks, Reaches, SameAround;
    ghost var t, m, low := k.heap.Table(), k.heap.live, k.heap.low[..];
    var chunk := New4GB(k, flags);
    born := chunk != 0;
    if !born {
      return;
    }
    ReachesAround(low, k.heap.low[..], NullStart(k.heap), k.heap.base, k.heap.total);
    var allocations := new Allocation[MAX_ALLOCATIONS](_ => Allocation(0, 0));
    var p := new Process(chunk, allocations);
    NewProcess(k, p);
    LiveAndDie(k, p, program, stack, calls, m);
    EncodingUnique(k.heap.Table(), t, m);
  }
}
