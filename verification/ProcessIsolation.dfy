/** Two processes on one heap: what one of them does leaves the other alone. */
module ProcessIsolation {
  import opened Status
  import opened Bits
  import opened Memory
  import opened HeapTable
  import opened PageTables
  import opened Paging
  import opened Kernel
  import opened AddressSpace
  import opened ProcessMemory
  import opened ProcessRuns
  import CopyString
  import Life = AddressSpaceLife
  import Heap

  /** The blocks of a process: where its allocations start, and its page tables. */
  ghost function Blocks(k: Machine, p: Process): set<nat>
    reads p, p.allocations, k, k.heap, k.mem
    requires k.mem.Length == WORDS
  {
    SlotBlocks(p.allocations[..], k.heap.saddr) + SpaceBlocks(k.mem[..], p.chunk, k.heap.saddr / PAGE_SIZE)
  }

  /** Both processes are intact and share no block. */
  ghost predicate Together(k: Machine, p: Process, q: Process)
    reads p, p.allocations, q, q.allocations, k, k.heap, k.heap.low, k.mem
  {
    p != q && p.allocations != q.allocations && p.Inv(k) && q.Inv(k) && Blocks(k, p) !! Blocks(k, q)
  }

  /** The live runs that belong to neither process. */
  ghost function Rest(k: Machine, p: Process, q: Process): Runs
    reads p, p.allocations, q, q.allocations, k, k.heap, k.mem
    requires k.mem.Length == WORDS
  {
    k.heap.live - Blocks(k, p) - Blocks(k, q)
  }

  lemma RestIs(m: Runs, slots: set<nat>, tables: set<nat>, qs: set<nat>)
    ensures m - (slots + tables) - qs == ((m - slots) - tables) - qs
    ensures m - qs - (slots + tables) == m - (slots + tables) - qs
  {
  }

  /** Runs m' still has the runs of m that start at the given blocks. */
  ghost predicate StillThere(m: Runs, m': Runs, blocks: set<nat>) {
    forall b :: b in blocks && b in m ==> b in m' && m'[b] == m[b]
  }

  lemma SlotsStay(slots: seq<Allocation>, m: Runs, m': Runs, saddr: uint32, total: nat)
    requires SlotsOk(slots, m, saddr, total) && StillThere(m, m', SlotBlocks(slots, saddr))
    ensures SlotsOk(slots, m', saddr, total)
  {
    hide Heap.BlockCount, BlockNo;
    forall i | 0 <= i < |slots| ensures SlotOk(slots[i], m', saddr, total) {
      assert SlotOk(slots[i], m, saddr, total);
      assert slots[i].ptr != 0 ==> BlockNo(saddr, slots[i].ptr) in SlotBlocks(slots, saddr);
    }
  }

  lemma SlotsLive(slots: seq<Allocation>, m: Runs, saddr: uint32, total: nat)
    requires SlotsOk(slots, m, saddr, total)
    ensures SlotBlocks(slots, saddr) <= m.Keys
  {
    hide Heap.BlockCount, BlockNo;
    forall b | b in SlotBlocks(slots, saddr) ensures b in m {
      var i :| 0 <= i < |slots| && slots[i].ptr != 0 && BlockNo(saddr, slots[i].ptr) == b;
      assert SlotOk(slots[i], m, saddr, total);
    }
  }

  /** The page tables of a process survive where their blocks stay allocated and keep their contents. */
  lemma SpaceStays(s: seq<uint32>, s': seq<uint32>, m: Runs, m': Runs, total: nat, chunk: uint32, pool: nat)
    requires |s| == |s'| == WORDS && IsChunk(s, chunk) && OwnedBlocks(m, total, s, chunk, pool)
    requires StillThere(m, m', SpaceBlocks(s, chunk, pool))
    requires forall b :: b in SpaceBlocks(s, chunk, pool) ==> SameRun(s, s', pool + b, 1)
    ensures IsChunk(s', chunk) && DirFrame(s', chunk) == DirFrame(s, chunk) && Space(s', chunk) == Space(s, chunk)
    ensures OwnedBlocks(m', total, s', chunk, pool) && SpaceBlocks(s', chunk, pool) == SpaceBlocks(s, chunk, pool)
  {
    hide Flat, IsTree, CopyString.OutsideTree;
    var df := DirFrame(s, chunk);
    forall i | 0 <= i < ENTRIES
      ensures Owned(m', total, TableFrame(s, df, i), pool) && SameRun(s, s', TableFrame(s, df, i), 1)
    {
      assert Owned(m, total, TableFrame(s, df, i), pool);
      assert BlockOf(TableFrame(s, df, i), pool) in TableBlocks(s, df, pool, ENTRIES);
    }
    assert SameRun(s, s', df, 1) && SameRun(s, s', chunk / PAGE_SIZE, 1);
    forall w | 0 <= w < WORDS && !CopyString.OutsideTree(s, chunk, w / ENTRIES) ensures s'[w] == s[w] {
      InTree(s, chunk, w / ENTRIES);
    }
    CopyString.TreeUntouched(s, s', chunk);
    forall i | 0 <= i < ENTRIES ensures Owned(m', total, TableFrame(s', df, i), pool) {
      assert TableFrame(s', df, i) == TableFrame(s, df, i);
    }
    Life.SameTableBlocks(s, s', df, pool);
  }

  lemma InTree(s: seq<uint32>, chunk: uint32, f: nat)
    requires |s| == WORDS && !CopyString.OutsideTree(s, chunk, f)
    ensures f == chunk / PAGE_SIZE || f == DirFrame(s, chunk)
      || exists i :: 0 <= i < ENTRIES && TableFrame(s, DirFrame(s, chunk), i) == f
  {
  }

  /** What process q, which does nothing, sees while runs that are not its own come and go. */
  lemma Bystander(k: Machine, q: Process, s: seq<uint32>, m: Runs, tables: set<nat>)
    requires k.Valid() && |s| == WORDS && q.allocations.Length == MAX_ALLOCATIONS
    requires q.allocations as object != k.heap.low as object && q.allocations as object != k.mem as object
    requires IsChunk(s, q.chunk) && OwnedBlocks(m, k.heap.total, s, q.chunk, k.heap.saddr / PAGE_SIZE)
    requires SlotsOk(q.allocations[..], m, k.heap.saddr, k.heap.total)
    requires SlotBlocks(q.allocations[..], k.heap.saddr) !! SpaceBlocks(s, q.chunk, k.heap.saddr / PAGE_SIZE)
    requires tables !! SpaceBlocks(s, q.chunk, k.heap.saddr / PAGE_SIZE)
    requires StillThere(m, k.heap.live, SlotBlocks(q.allocations[..], k.heap.saddr) + SpaceBlocks(s, q.chunk, k.heap.saddr / PAGE_SIZE))
    requires RunsKeep(s, k.mem[..], k.heap.saddr / PAGE_SIZE, m, tables)
    ensures q.Inv(k) && Space(k.mem[..], q.chunk) == Space(s, q.chunk)
    ensures Blocks(k, q) == SlotBlocks(q.allocations[..], k.heap.saddr) + SpaceBlocks(s, q.chunk, k.heap.saddr / PAGE_SIZE)
  {
    hide Encodes, SlotsOk, IsChunk, OwnedBlocks, SlotBlocks, SpaceBlocks, SameRun, Flat;
    var pool: nat := k.heap.saddr / PAGE_SIZE;
    var qt := SpaceBlocks(s, q.chunk, pool);
    SlotsStay(q.allocations[..], m, k.heap.live, k.heap.saddr, k.heap.total);
    forall b | b in qt ensures SameRun(s, k.mem[..], pool + b, 1) {
      OneBlock(m, k.heap.total, s, q.chunk, pool, b);
    }
    SpaceStays(s, k.mem[..], m, k.heap.live, k.heap.total, q.chunk, pool);
  }

  /** The blocks of q are among those that p's calls leave alone. */
  lemma OwnBlocksStay(k: Machine, p: Process, m: Runs, slots: set<nat>, own: set<nat>)
    requires p.Others(k) == m - slots && own !! slots && own <= m.Keys
    ensures StillThere(m, k.heap.live, own)
    ensures own !! SlotBlocks(p.allocations[..], k.heap.saddr)
    ensures forall b :: b in own ==> b in k.heap.live && k.heap.live[b] == m[b]
  {
    hide SlotBlocks;
    forall b | b in own
      ensures b in k.heap.live && k.heap.live[b] == m[b] && b !in SlotBlocks(p.allocations[..], k.heap.saddr)
    {
      assert b in m - slots && b in p.Others(k) && p.Others(k)[b] == m[b];
    }
  }

  lemma OneBlock(m: Runs, total: nat, s: seq<uint32>, chunk: uint32, pool: nat, b: nat)
    requires |s| == WORDS && OwnedBlocks(m, total, s, chunk, pool) && b in SpaceBlocks(s, chunk, pool)
    ensures b in m && m[b] == 1
  {
    var df := DirFrame(s, chunk);
    if b in TableBlocks(s, df, pool, ENTRIES) {
      var i :| 0 <= i < ENTRIES && BlockOf(TableFrame(s, df, i), pool) == b;
      assert Owned(m, total, TableFrame(s, df, i), pool);
    }
  }

  /** One call of process_malloc or process_free by p. The other process keeps its slots, its address
      space and the contents of its allocations, and every run of neither stays as it is. */
  method PerformBeside(k: Machine, p: Process, q: Process, c: Call)
    requires Together(k, p, q) && Sound(k, c, Stopped(k.heap))
    modifies k.heap.low, k.heap`live, k.mem, p.allocations
    ensures Together(k, p, q) && (Stopped(k.heap) <==> old(Stopped(k.heap)))
    ensures q.allocations[..] == old(q.allocations[..]) && Blocks(k, q) == old(Blocks(k, q))
    ensures Space(k.mem[..], q.chunk) == Space(old(k.mem[..]), q.chunk)
    ensures Rest(k, p, q) == old(Rest(k, p, q))
    ensures RunsKeep(old(k.mem[..]), k.mem[..], k.heap.saddr / PAGE_SIZE, old(k.heap.live),
      SpaceBlocks(old(k.mem[..]), p.chunk, k.heap.saddr / PAGE_SIZE))
    ensures forall b :: b in SlotBlocks(q.allocations[..], k.heap.saddr) ==>
      b in k.heap.live && b in old(k.heap.live) && k.heap.live[b] == old(k.heap.live)[b]
      && SameRun(old(k.mem[..]), k.mem[..], k.heap.saddr / PAGE_SIZE + b, k.heap.live[b])
  {
    hide Encodes, SlotsOk, IsChunk, OwnedBlocks, SlotBlocks, SpaceBlocks, SameRun, Flat, Reaches;
    ghost var s, m, slots := k.mem[..], k.heap.live, SlotBlocks(p.allocations[..], k.heap.saddr);
    ghost var tables := SpaceBlocks(s, p.chunk, k.heap.saddr / PAGE_SIZE);
    ghost var own := Blocks(k, q);
    SlotsLive(q.allocations[..], m, k.heap.saddr, k.heap.total);
    SpaceBlocksLive(m, k.heap.total, s, q.chunk, k.heap.saddr / PAGE_SIZE);
    RestIs(m, slots, tables, own);
    Perform(k, p, c);
    RestIs(k.heap.live, SlotBlocks(p.allocations[..], k.heap.saddr), tables, own);
    OwnBlocksStay(k, p, m, slots, own);
    Bystander(k, q, s, m, tables);
    forall b | b in SlotBlocks(q.allocations[..], k.heap.saddr)
      ensures b in m && SameRun(s, k.mem[..], k.heap.saddr / PAGE_SIZE + b, m[b])
    {
      assert b in own && b !in tables;
    }
  }

  lemma RestKeeps(s0: seq<uint32>, s: seq<uint32>, s': seq<uint32>, pool: nat, rest: Runs, m: Runs, tables: set<nat>)
    requires RunsKeep(s0, s, pool, rest, {}) && RunsKeep(s, s', pool, m, tables)
    requires forall b :: b in rest ==> b in m && m[b] == rest[b] && b !in tables
    ensures RunsKeep(s0, s', pool, rest, {})
  {
    var none: set<nat> := {};
    forall b | b in rest ensures SameRun(s0, s', pool + b, rest[b]) {
      assert b !in none && SameRun(s0, s, pool + b, rest[b]) && SameRun(s, s', pool + b, m[b]);
    }
  }

  lemma RestOfBoth(k: Machine, p: Process, q: Process)
    requires k.mem.Length == WORDS
    ensures Rest(k, p, q) == Rest(k, q, p)
    ensures forall b :: b in Rest(k, p, q) ==>
      && b in k.heap.live && k.heap.live[b] == Rest(k, p, q)[b]
      && b !in SpaceBlocks(k.mem[..], p.chunk, k.heap.saddr / PAGE_SIZE)
      && b !in SpaceBlocks(k.mem[..], q.chunk, k.heap.saddr / PAGE_SIZE)
  {
    hide SlotBlocks, SpaceBlocks;
  }

  /** Any interleaving of calls of two processes keeps both intact and apart, and leaves every run that
      belongs to neither as it was, its contents included. */
  method RunTogether(k: Machine, p: Process, q: Process, calls: seq<(bool, Call)>)
    requires Together(k, p, q) && forall i :: 0 <= i < |calls| ==> Sound(k, calls[i].1, Stopped(k.heap))
    modifies k.heap.low, k.heap`live, k.mem, p.allocations, q.allocations
    ensures Together(k, p, q) && (Stopped(k.heap) <==> old(Stopped(k.heap)))
    ensures Rest(k, p, q) == old(Rest(k, p, q))
    ensures RunsKeep(old(k.mem[..]), k.mem[..], k.heap.saddr / PAGE_SIZE, Rest(k, p, q), {})
  {
    hide Encodes, SlotsOk, IsChunk, OwnedBlocks, SlotBlocks, SpaceBlocks, SameRun, Flat, Reaches, RunsKeep, Rest, Blocks;
    ghost var s0, rest, pool: nat := k.mem[..], Rest(k, p, q), k.heap.saddr / PAGE_SIZE;
    NothingWritten(s0, pool, rest);
    var i := 0;
    while i < |calls|
      invariant 0 <= i <= |calls| && Together(k, p, q) && (Stopped(k.heap) <==> old(Stopped(k.heap)))
      invariant Rest(k, p, q) == rest && RunsKeep(s0, k.mem[..], pool, rest, {})
    {
      assert Sound(k, calls[i].1, old(Stopped(k.heap)));
      ghost var s, m := k.mem[..], k.heap.live;
      RestOfBoth(k, p, q);
      if calls[i].0 {
        ghost var tables := SpaceBlocks(s, p.chunk, pool);
        PerformBeside(k, p, q, calls[i].1);
        RestKeeps(s0, s, k.mem[..], pool, rest, m, tables);
      } else {
        ghost var tables := SpaceBlocks(s, q.chunk, pool);
        PerformBeside(k, q, p, calls[i].1);
        RestKeeps(s0, s, k.mem[..], pool, rest, m, tables);
      }
      RestOfBoth(k, p, q);
      i := i + 1;
    }
  }

  // ---- a request of size 0 undoes the separation ----

  /** The free blocks are those at the end of the table. */
  predicate FreeTail(t: seq<Entry>) {
    |t| > 0 && IsFree(t[|t| - 1]) && forall i, j :: 0 <= i <= j < |t| && IsFree(t[i]) ==> IsFree(t[j])
  }

  /** On such a table requests of size 0 and of one block get the same answer. */
  lemma SameAnswer(t: seq<Entry>, r: int, r': int)
    requires FreeTail(t) && ScanAnswer(t, 0, r) && ScanAnswer(t, 1, r')
    ensures r == r' >= 0
  {
    assert Fits(t, |t| - 1, 1);
    assert FreeRange(t, r, |t|) && IsFree(t[r]) && Fits(t, r, 1);
    assert Fits(t, r', 1) && IsFree(t[r']);
  }

  /** p's request for 0 bytes: the answer is recorded, the heap and q stay as they are. */
  method AskForNothing(k: Machine, p: Process, q: Process) returns (x: uint32)
    requires Together(k, p, q) && FreeTail(k.heap.Table()) && FirstWith(p.allocations[..], 0) != -1
    modifies k.heap.low, k.heap`live, k.mem, p.allocations
    ensures x != 0 && Allocation(x, 0) in p.allocations[..] && q.Inv(k)
    ensures k.heap.live == old(k.heap.live) && k.heap.Table() == old(k.heap.Table())
    ensures x == k.heap.Address(BlockNo(k.heap.saddr, x)) && ScanAnswer(k.heap.Table(), 0, BlockNo(k.heap.saddr, x))
  {
    hide Encodes, SlotsOk, IsChunk, OwnedBlocks, SlotBlocks, SpaceBlocks, SameRun, Flat, ScanAnswer, FreeTail, FirstWith, BlockNo,
      Heap.BlockCount, Heap.BlockIndex, RunsKeep, EndOf, PageTables.MapTo, SameTables, OnlyRunAndTables;
    ghost var s, m, t, i := k.mem[..], k.heap.live, k.heap.Table(), FirstWith(p.allocations[..], 0);
    Heap.BlockCountIs(0);
    TailAnswers(t, k.heap.total);
    x := ProcessMalloc(k, p, 0);
    assert p.allocations[..][i] == Allocation(x, 0);
    EncodingUnique(k.heap.Table(), t, m);
    Bystander(k, q, s, m, SpaceBlocks(s, p.chunk, k.heap.saddr / PAGE_SIZE));
  }

  /** Example: p asks for 0 bytes and q for one block, and both get the same address. The kfree of p's
      process_free then takes q's run, though q's table still names it. */
  method LostRunExample(k: Machine, p: Process, q: Process) returns (x: uint32, y: uint32)
    requires Together(k, p, q) && FreeTail(k.heap.Table())
    requires FirstWith(p.allocations[..], 0) != -1 && FirstWith(q.allocations[..], 0) != -1
    requires k.heap.saddr + k.heap.total * Heap.BLOCK_SIZE <= U32 - 4096
    modifies k.heap.low, k.heap`live, k.mem, p.allocations, q.allocations
    ensures x == y != 0 && Allocation(x, 0) in p.allocations[..] && Allocation(y, 4096) in q.allocations[..]
    ensures BlockNo(k.heap.saddr, y) !in k.heap.live && !q.Inv(k)
  {
    hide Blocks, Encodes, SlotsOk, IsChunk, OwnedBlocks, SlotBlocks, SpaceBlocks, Flat, ScanAnswer, FreeTail, FirstWith, BlockNo,
      Heap.BlockCount, Heap.BlockIndex, RunsKeep, EndOf, PageTables.MapTo, SameTables, OnlyRunAndTables, ClearChain, Reaches;
    ghost var t, i := k.heap.Table(), FirstWith(q.allocations[..], 0);
    Heap.BlockCountIs(4096);
    TailAnswers(t, k.heap.total);
    x := AskForNothing(k, p, q);
    y := ProcessMalloc(k, q, 4096);
    assert y != 0;
    assert q.allocations[..][i] == Allocation(y, 4096);
    ghost var b := BlockNo(k.heap.saddr, y);
    SameAnswer(t, BlockNo(k.heap.saddr, x), b);
    Heap.BlockIndexOf(k.heap.saddr, b);
    k.Kfree(x);
    SlotGone(q.allocations[..], k.heap.live, k.heap.saddr, k.heap.total, i);
  }

  lemma TailAnswers(t: seq<Entry>, total: nat)
    requires FreeTail(t) && |t| == total
    ensures !ScanAnswer(t, 0, -ENOMEM) && !ScanAnswer(t, 1, -ENOMEM)
    ensures forall b: nat :: ScanAnswer(t, 0, b) ==> b <= total
    ensures forall b: nat :: ScanAnswer(t, 1, b) ==> b + 1 <= total
  {
    assert Fits(t, |t| - 1, 1);
  }

  lemma SlotGone(slots: seq<Allocation>, m: Runs, saddr: uint32, total: nat, i: nat)
    requires i < |slots| && slots[i].ptr != 0 && BlockNo(saddr, slots[i].ptr) !in m
    ensures !SlotsOk(slots, m, saddr, total)
  {
    hide Heap.BlockCount, BlockNo;
    assert !SlotOk(slots[i], m, saddr, total);
  }
}
