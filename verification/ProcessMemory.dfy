/** The allocation table of a process (process_malloc, process_free and the release of all
    allocations on termination), exactly as process.c drives the heap and the page tables. */
module ProcessMemory {
  import opened Status
  import opened Bits
  import opened Memory
  import opened HeapTable
  import opened PageTables
  import opened Paging
  import opened Kernel
  import opened AddressSpace
  import Life = AddressSpaceLife
  import Heap

  const MAX_ALLOCATIONS := 1024
  const USER_FLAGS: uint32 := 7  // PRESENT | ACCESS_FROM_ALL | WRITABLE

  datatype Allocation = Allocation(ptr: uint32, size: uint32)

  function BlockNo(saddr: uint32, ptr: uint32): nat {
    if ptr >= saddr then (ptr - saddr) / Heap.BLOCK_SIZE else 0
  }

  /** A used slot names the first block of a live run of the right length. */
  ghost predicate SlotOk(a: Allocation, m: Runs, saddr: uint32, total: nat) {
    if a.ptr == 0 then a.size == 0
    else
      && a.ptr >= saddr && a.ptr % Heap.BLOCK_SIZE == 0 && saddr % Heap.BLOCK_SIZE == 0
      && BlockNo(saddr, a.ptr) < total && Heap.BlockCount(a.size) >= 1
      && BlockNo(saddr, a.ptr) in m && m[BlockNo(saddr, a.ptr)] == Heap.BlockCount(a.size)
  }

  ghost predicate SlotsOk(slots: seq<Allocation>, m: Runs, saddr: uint32, total: nat) {
    && (forall i :: 0 <= i < |slots| ==> SlotOk(slots[i], m, saddr, total))
    && (forall i, j :: 0 <= i < j < |slots| && slots[i].ptr != 0 ==> slots[i].ptr != slots[j].ptr)
  }

  /** The blocks at which the allocations of the process start. */
  ghost function SlotBlocks(slots: seq<Allocation>, saddr: uint32): set<nat> {
    set i | 0 <= i < |slots| && slots[i].ptr != 0 :: BlockNo(saddr, slots[i].ptr)
  }

  function FirstWith(slots: seq<Allocation>, ptr: uint32): (r: int)
    ensures r == -1 ==> forall i :: 0 <= i < |slots| ==> slots[i].ptr != ptr
    ensures r != -1 ==> 0 <= r < |slots| && slots[r].ptr == ptr && forall i :: 0 <= i < r ==> slots[i].ptr != ptr
  {
    if slots == [] then -1
    else if slots[0].ptr == ptr then 0
    else
      var r := FirstWith(slots[1..], ptr);
      assert forall i :: 0 < i < |slots| ==> slots[i] == slots[1..][i - 1];
      if r == -1 then -1 else r + 1
  }

  /** Bytes below the heap table that kfree(0) starts at, and whether its walk stays harmless. */
  ghost predicate NullFreeHarmless(low: seq<Entry>, start: nat, base: nat) {
    base < |low| &&
    ((exists j :: start <= j < base && low[j] & HAS_NEXT == 0) || low[base] == FREE)
  }

  /** kfree(0) leaves the heap table alone if and only if some byte of the page below the
      table lacks the HAS_NEXT bit, or block 0 is free anyway. */
  lemma NullFreeExactly(low: seq<Entry>, start: nat, base: nat, total: nat)
    requires start <= base && total >= 1 && base + total <= |low|
    ensures ClearChain(low, start, base + total)[base..base + total] == low[base..base + total]
       <==> NullFreeHarmless(low, start, base)
  {
    hide ClearChain;
    var after := ClearChain(low, start, base + total);
    WindowSame(after, low, base, total);
    if exists j :: start <= j < base && low[j] & HAS_NEXT == 0 {
      var j :| start <= j < base && low[j] & HAS_NEXT == 0;
      ClearChainFrame(low, start, base + total, j);
    } else {
      ClearChainReaches(low, start, base + total, base);
      if low[base] == FREE {
        assert low[base] & HAS_NEXT == 0;
        ClearChainFrame(low, start, base + total, base);
      }
    }
  }

  lemma WindowSame(a: seq<Entry>, b: seq<Entry>, base: nat, total: nat)
    requires |a| == |b| && base + total <= |a|
    ensures a[base..base + total] == b[base..base + total] <==> forall j :: base <= j < base + total ==> a[j] == b[j]
  {
    var x, y := a[base..base + total], b[base..base + total];
    forall j | base <= j < base + total ensures x[j - base] == a[j] && y[j - base] == b[j] {
    }
    if forall j :: base <= j < base + total ==> a[j] == b[j] {
      forall i | 0 <= i < total ensures x[i] == y[i] {
        assert x[i] == a[base + i] && y[i] == b[base + i];
      }
    }
    if x == y {
      forall j | base <= j < base + total ensures a[j] == b[j] {
        assert x[j - base] == y[j - base];
      }
    }
  }

  /** Example, with the kernel's addresses (table at 0x7E00, pool at 0x01000000, so that the walk starts
      at 0x6E00): if the page below the table holds 0x80 bytes, kfree(0) frees the run at block 0. */
  lemma NullFreeExample(low: seq<Entry>, total: nat)
    requires 1 <= total && |low| >= 0x7E00 + total
    requires (forall j :: 0x6E00 <= j < 0x7E00 ==> low[j] == HAS_NEXT) && low[0x7E00] == RunByte(0, 1)
    ensures 0x7E00 - 0x0100_0000 / Heap.BLOCK_SIZE == 0x6E00
    ensures !NullFreeHarmless(low, 0x6E00, 0x7E00)
    ensures !IsFree(low[0x7E00]) && ClearChain(low, 0x6E00, 0x7E00 + total)[0x7E00] == FREE
  {
    hide ClearChain;
    RunByteFlags(0, 1);
    ClearChainReaches(low, 0x6E00, 0x7E00 + total, 0x7E00);
  }

  /** Memory of a run that is no part of an address space can change without disturbing it. */
  lemma SpaceApart(t: seq<Entry>, m: Runs, s: seq<uint32>, s': seq<uint32>, chunk: uint32, pool: nat, b: nat, n: nat)
    requires |s| == WORDS && IsChunk(s, chunk) && OwnedBlocks(m, |t|, s, chunk, pool)
    requires b !in m && n >= 1 && Encodes(t, m[b := n]) && OnlyFrames(s, s', pool + b, n)
    ensures IsChunk(s', chunk) && DirFrame(s', chunk) == DirFrame(s, chunk)
    ensures SameTables(s, s', DirFrame(s, chunk)) && Space(s', chunk) == Space(s, chunk)
    ensures OwnedBlocks(m[b := n], |t|, s', chunk, pool)
    ensures SpaceBlocks(s', chunk, pool) == SpaceBlocks(s, chunk, pool)
  {
    hide Flat;
    var df := DirFrame(s, chunk);
    forall f: nat | Owned(m, |t|, f, pool) ensures !(pool + b <= f < pool + b + n) && Owned(m[b := n], |t|, f, pool) {
      OwnedApart(t, m, f, pool, b, n);
    }
    assert chunk / 4 / ENTRIES == chunk / PAGE_SIZE;
    assert s'[chunk / 4] == s[chunk / 4];
    FlatFrame(s, s', df);
    SameFrames(s, s', df);
    forall i | 0 <= i < ENTRIES ensures Owned(m[b := n], |t|, TableFrame(s', df, i), pool) {
      assert Owned(m, |t|, TableFrame(s, df, i), pool);
    }
    Life.SameTableBlocks(s, s', df, pool);
  }

  lemma OwnedApart(t: seq<Entry>, m: Runs, f: nat, pool: nat, b: nat, n: nat)
    requires b !in m && n >= 1 && Encodes(t, m[b := n]) && Owned(m, |t|, f, pool)
    ensures !(pool + b <= f < pool + b + n) && Owned(m[b := n], |t|, f, pool)
  {
    var x := f - pool;
    assert x in m[b := n] && b in m[b := n];
  }

  class Process {
    /** task->page_directory */
    var chunk: uint32
    const allocations: array<Allocation>
    /** process->arguments */
    var argc: int
    var argv: uint32

    constructor (chunk: uint32, allocations: array<Allocation>)
      ensures this.chunk == chunk && this.allocations == allocations && argc == 0 && argv == 0
    {
      this.chunk, this.allocations := chunk, allocations;
      argc, argv := 0, 0;
    }

    /** The address space is intact, every used slot names its own live run, no run is a page table. */
    ghost predicate Inv(k: Machine)
      reads this, allocations, k, k.heap, k.heap.low, k.mem
    {
      && k.Valid() && allocations.Length == MAX_ALLOCATIONS
      && allocations as object != k.heap.low as object && allocations as object != k.mem as object
      && OwnsSpace(k, chunk)
      && SlotsOk(allocations[..], k.heap.live, k.heap.saddr, k.heap.total)
      && SlotBlocks(allocations[..], k.heap.saddr) !! SpaceBlocks(k.mem[..], chunk, k.heap.saddr / PAGE_SIZE)
    }

    /** The same with respect to runs m, of which the heap may have lost the one at block 0: that is what
        kfree(0) can do to a process that is being terminated. */
    ghost predicate InvOn(k: Machine, m: Runs)
      reads this, allocations, k, k.heap, k.heap.low, k.mem
    {
      && k.Valid() && allocations.Length == MAX_ALLOCATIONS
      && allocations as object != k.heap.low as object && allocations as object != k.mem as object
      && IsChunk(k.mem[..], chunk) && OwnedBlocks(m, k.heap.total, k.mem[..], chunk, k.heap.saddr / PAGE_SIZE)
      && SlotsOk(allocations[..], m, k.heap.saddr, k.heap.total)
      && SlotBlocks(allocations[..], k.heap.saddr) !! SpaceBlocks(k.mem[..], chunk, k.heap.saddr / PAGE_SIZE)
      && (k.heap.live == m || k.heap.live == m - {0})
    }

    /** The live runs that are not this process's allocations. */
    ghost function Others(k: Machine): Runs
      reads this, allocations, k, k.heap
    {
      k.heap.live - SlotBlocks(allocations[..], k.heap.saddr)
    }

    ghost function Outside(k: Machine, m: Runs): Runs
      reads this, allocations, k, k.heap
    {
      m - SlotBlocks(allocations[..], k.heap.saddr)
    }

    /** The loop shared by the searches through the allocation table. */
    method Find(ptr: uint32) returns (index: int)
      ensures index == FirstWith(allocations[..], ptr)
    {
      var i := 0;
      while i < allocations.Length
        invariant 0 <= i <= allocations.Length
        invariant forall j :: 0 <= j < i ==> allocations[j].ptr != ptr
      {
        if allocations[i].ptr == ptr {
          FirstWithIs(allocations[..], ptr, i);
          return i;
        }
        i := i + 1;
      }
      FirstWithNone(allocations[..], ptr);
      return -1;
    }
  }

  lemma FirstWithIs(slots: seq<Allocation>, ptr: uint32, i: nat)
    requires i < |slots| && slots[i].ptr == ptr && forall j :: 0 <= j < i ==> slots[j].ptr != ptr
    ensures FirstWith(slots, ptr) == i
  {
    hide FirstWith;
    assert FirstWith(slots, ptr) != -1;
  }

  lemma FirstWithNone(slots: seq<Allocation>, ptr: uint32)
    requires forall j :: 0 <= j < |slots| ==> slots[j].ptr != ptr
    ensures FirstWith(slots, ptr) == -1
  {
    hide FirstWith;
  }

  /** Only the frames of a run and the tables of an address space differ. */
  ghost predicate OnlyRunAndTables(s: seq<uint32>, s': seq<uint32>, df: nat, f: nat, n: nat) {
    && |s| == |s'| == WORDS && df < PAGES
    && forall w ::
      (0 <= w < WORDS && !(f <= w / ENTRIES < f + n)
       && forall i :: 0 <= i < ENTRIES ==> TableFrame(s, df, i) != w / ENTRIES) ==> s'[w] == s[w]
  }

  lemma RunThenTables(s: seq<uint32>, s1: seq<uint32>, s2: seq<uint32>, df: nat, f: nat, n: nat)
    requires |s| == |s1| == |s2| == WORDS && df < PAGES
    requires OnlyFrames(s, s1, f, n) && SameTables(s, s1, df) && OnlyTables(s1, s2, df)
    ensures OnlyRunAndTables(s, s2, df, f, n)
  {
    SameFrames(s, s1, df);
    forall w | 0 <= w < WORDS && !(f <= w / ENTRIES < f + n)
      && (forall i :: 0 <= i < ENTRIES ==> TableFrame(s, df, i) != w / ENTRIES) ensures s2[w] == s[w]
    {
      assert forall i :: 0 <= i < ENTRIES ==> TableFrame(s1, df, i) != w / ENTRIES;
    }
  }

  /** Recording a new run in a null slot. */
  lemma RecordSlot(slots: seq<Allocation>, m: Runs, saddr: uint32, total: nat, index: nat, a: Allocation, n: nat)
    requires SlotsOk(slots, m, saddr, total) && index < |slots| && slots[index].ptr == 0
    requires a.ptr >= saddr > 0 && a.ptr % Heap.BLOCK_SIZE == 0 && saddr % Heap.BLOCK_SIZE == 0
    requires n == Heap.BlockCount(a.size) >= 1
    requires BlockNo(saddr, a.ptr) < total && BlockNo(saddr, a.ptr) !in m
    ensures var b := BlockNo(saddr, a.ptr);
      && SlotsOk(slots[index := a], m[b := n], saddr, total)
      && SlotBlocks(slots[index := a], saddr) == SlotBlocks(slots, saddr) + {b}
      && b !in SlotBlocks(slots, saddr)
  {
    hide Heap.BlockCount;
    var b, slots' := BlockNo(saddr, a.ptr), slots[index := a];
    forall i | 0 <= i < |slots| ensures SlotOk(slots'[i], m[b := n], saddr, total) {
      assert SlotOk(slots[i], m, saddr, total);
    }
    forall i | 0 <= i < |slots| && slots[i].ptr != 0 ensures slots[i].ptr != a.ptr && BlockNo(saddr, slots[i].ptr) != b {
      assert SlotOk(slots[i], m, saddr, total);
    }
    forall x | x in SlotBlocks(slots', saddr) ensures x in SlotBlocks(slots, saddr) + {b} {
      var i :| 0 <= i < |slots'| && slots'[i].ptr != 0 && x == BlockNo(saddr, slots'[i].ptr);
      if i != index { assert slots[i].ptr != 0 && x == BlockNo(saddr, slots[i].ptr); }
    }
    forall x | x in SlotBlocks(slots, saddr) + {b} ensures x in SlotBlocks(slots', saddr) {
      if x == b { assert slots'[index].ptr != 0; }
      else {
        var i :| 0 <= i < |slots| && slots[i].ptr != 0 && x == BlockNo(saddr, slots[i].ptr);
        assert slots'[i] == slots[i];
      }
    }
  }

  /** Emptying the slot of a run. */
  lemma EraseSlot(slots: seq<Allocation>, m: Runs, saddr: uint32, total: nat, index: nat)
    requires SlotsOk(slots, m, saddr, total) && index < |slots| && slots[index].ptr != 0
    ensures var b, slots' := BlockNo(saddr, slots[index].ptr), slots[index := Allocation(0, 0)];
      && b in m && SlotsOk(slots', m - {b}, saddr, total)
      && b in SlotBlocks(slots, saddr) && SlotBlocks(slots', saddr) == SlotBlocks(slots, saddr) - {b}
  {
    hide Heap.BlockCount;
    var b, slots' := BlockNo(saddr, slots[index].ptr), slots[index := Allocation(0, 0)];
    assert SlotOk(slots[index], m, saddr, total);
    forall i | 0 <= i < |slots| && i != index && slots[i].ptr != 0 ensures BlockNo(saddr, slots[i].ptr) != b {
      assert SlotOk(slots[i], m, saddr, total);
      assert slots[i].ptr != slots[index].ptr;
    }
    forall i | 0 <= i < |slots| ensures SlotOk(slots'[i], m - {b}, saddr, total) {
      assert SlotOk(slots[i], m, saddr, total);
    }
    forall x | x in SlotBlocks(slots', saddr) ensures x in SlotBlocks(slots, saddr) - {b} {
      var i :| 0 <= i < |slots'| && slots'[i].ptr != 0 && x == BlockNo(saddr, slots'[i].ptr);
      assert slots[i].ptr != 0 && x == BlockNo(saddr, slots[i].ptr);
    }
    forall x | x in SlotBlocks(slots, saddr) - {b} ensures x in SlotBlocks(slots', saddr) {
      var i :| 0 <= i < |slots| && slots[i].ptr != 0 && x == BlockNo(saddr, slots[i].ptr);
      assert slots'[i] == slots[i];
    }
  }

  /** Address just past the blocks of an allocation, as the code rounds it. */
  function EndOf(ptr: uint32, size: uint32): uint32 {
    AlignAddress(Wrap(ptr + size))
  }

  /** The heap answered a request of `size` bytes with ptr; m is what became of the live runs. */
  ghost predicate HeapAnswer(t0: seq<Entry>, m0: Runs, m: Runs, saddr: uint32, size: uint32, ptr: uint32) {
    var n, b := Heap.BlockCount(size), BlockNo(saddr, ptr);
    if ptr == 0 then ScanAnswer(t0, n, -ENOMEM) && m == m0
    else
      && ptr >= saddr && ptr == saddr + b * Heap.BLOCK_SIZE && b < |t0|
      && ScanAnswer(t0, n, b)
      && (n == 0 ==> m == m0)
      && (n >= 1 ==> b !in m0 && m == m0[b := n])
  }

  lemma AnswerFacts(t0: seq<Entry>, m0: Runs, m: Runs, saddr: uint32, size: uint32, ptr: uint32)
    requires HeapAnswer(t0, m0, m, saddr, size, ptr) && saddr % PAGE_SIZE == 0
    requires saddr + |t0| * Heap.BLOCK_SIZE < U32 && size <= U32 - (saddr + |t0| * Heap.BLOCK_SIZE)
    ensures ptr == 0 ==> ScanAnswer(t0, Heap.BlockCount(size), -ENOMEM) && m == m0
    ensures ptr != 0 ==> ptr % PAGE_SIZE == 0 && ptr + size <= 0xFFFFF000
    ensures forall b :: b in m0 ==> b in m && m[b] == m0[b]
  {
    hide ScanAnswer, Heap.BlockCount;
  }

  lemma AddressBlockNo(k: Machine, ptr: uint32)
    requires k.heap.Layout() && 0 <= k.heap.BlockAt(ptr) < k.heap.total && ptr == k.heap.Address(k.heap.BlockAt(ptr))
    ensures ptr >= k.heap.saddr && BlockNo(k.heap.saddr, ptr) == k.heap.BlockAt(ptr)
  {
    hide Heap.BlockIndex;
  }

  lemma SlotsKeep(slots: seq<Allocation>, m: Runs, saddr: uint32, total: nat, b: nat, n: nat)
    requires SlotsOk(slots, m, saddr, total) && b !in m
    ensures SlotsOk(slots, m[b := n], saddr, total)
  {
    hide Heap.BlockCount;
    forall i | 0 <= i < |slots| ensures SlotOk(slots[i], m[b := n], saddr, total) {
      assert SlotOk(slots[i], m, saddr, total);
    }
  }

  /** The frames [f, f + n) hold the same words. */
  ghost predicate SameRun(s: seq<uint32>, s': seq<uint32>, f: nat, n: nat) {
    |s| == |s'| && forall w :: 0 <= w < |s| && f <= w / ENTRIES < f + n ==> s'[w] == s[w]
  }

  /** Every live run keeps its contents, except those that start at the blocks `own`. */
  ghost predicate RunsKeep(s: seq<uint32>, s': seq<uint32>, pool: nat, m: Runs, own: set<nat>) {
    forall b :: b in m && b !in own ==> SameRun(s, s', pool + b, m[b])
  }

  lemma RunsKeepTrans(s: seq<uint32>, s1: seq<uint32>, s2: seq<uint32>, pool: nat, m: Runs, m1: Runs, own: set<nat>)
    requires RunsKeep(s, s1, pool, m, {}) && RunsKeep(s1, s2, pool, m1, own)
    requires forall b :: b in m ==> b in m1 && m1[b] == m[b]
    ensures RunsKeep(s, s2, pool, m, own)
  {
    forall b | b in m && b !in own ensures SameRun(s, s2, pool + b, m[b]) {
      assert b !in {} && SameRun(s, s1, pool + b, m[b]) && SameRun(s1, s2, pool + b, m1[b]);
    }
  }

  lemma RunsKeepMore(s: seq<uint32>, s': seq<uint32>, pool: nat, m: Runs, own: set<nat>)
    requires RunsKeep(s, s', pool, m, {})
    ensures RunsKeep(s, s', pool, m, own)
  {
    var none: set<nat> := {};
    assert forall b :: b in m ==> b !in none;
  }

  /** Writing into a new run keeps the others, those included that stick out of the pool. */
  lemma FreshRunKeeps(t: seq<Entry>, m: Runs, b: nat, n: nat, s: seq<uint32>, s': seq<uint32>, pool: nat)
    requires OnlyFrames(s, s', pool + b, n) && b !in m && n >= 1 && Encodes(t, m[b := n])
    ensures RunsKeep(s, s', pool, m, {})
  {
    hide Encodes;
    var m' := m[b := n];
    forall c | c in m ensures SameRun(s, s', pool + c, m[c]) {
      RunsApart(t, m', c, b);
    }
  }

  /** Writing into the page tables of a process keeps every run that is not one of its pages. */
  lemma TablesKeepRuns(t: seq<Entry>, m: Runs, s: seq<uint32>, s': seq<uint32>, chunk: uint32, pool: nat)
    requires |s| == |s'| == WORDS && Encodes(t, m) && OwnedBlocks(m, |t|, s, chunk, pool)
    requires OnlyTables(s, s', DirFrame(s, chunk))
    ensures RunsKeep(s, s', pool, m, SpaceBlocks(s, chunk, pool))
  {
    hide Encodes;
    var df := DirFrame(s, chunk);
    forall b | b in m && b !in SpaceBlocks(s, chunk, pool) ensures SameRun(s, s', pool + b, m[b]) {
      forall w | 0 <= w < WORDS && pool + b <= w / ENTRIES < pool + b + m[b] ensures s'[w] == s[w] {
        forall i | 0 <= i < ENTRIES ensures TableFrame(s, df, i) != w / ENTRIES {
          assert Owned(m, |t|, TableFrame(s, df, i), pool);
          assert BlockOf(TableFrame(s, df, i), pool) in TableBlocks(s, df, pool, ENTRIES);
          RunsApart(t, m, b, BlockOf(TableFrame(s, df, i), pool));
        }
      }
    }
  }

  lemma RunsApart(t: seq<Entry>, m: Runs, b: nat, c: nat)
    requires Encodes(t, m) && b in m && c in m && b != c
    ensures b + m[b] <= c || c + m[c] <= b
    ensures m[b] >= 1
  {
  }

  /** kzalloc on behalf of a process: the new memory touches neither its allocations nor its page tables. */
  method KzallocBeside(k: Machine, p: Process, size: uint32) returns (ptr: uint32)
    requires p.Inv(k) && size <= U32 - (k.heap.saddr + k.heap.total * Heap.BLOCK_SIZE)
    modifies k.heap.low, k.heap`live, k.mem
    ensures p.Inv(k)
    ensures HeapAnswer(old(k.heap.Table()), old(k.heap.live), k.heap.live, k.heap.saddr, size, ptr)
    ensures ptr == 0 || Heap.BlockCount(size) == 0 ==> k.heap.Table() == old(k.heap.Table())
    ensures DirFrame(k.mem[..], p.chunk) == DirFrame(old(k.mem[..]), p.chunk)
    ensures SameTables(old(k.mem[..]), k.mem[..], DirFrame(old(k.mem[..]), p.chunk))
    ensures Space(k.mem[..], p.chunk) == Space(old(k.mem[..]), p.chunk)
    ensures OnlyFrames(old(k.mem[..]), k.mem[..], ptr / PAGE_SIZE, Heap.BlockCount(size))
    ensures SameBelow(old(k.heap.low[..]), k.heap.low[..], k.heap.base)
    ensures RunsKeep(old(k.mem[..]), k.mem[..], k.heap.saddr / PAGE_SIZE, old(k.heap.live), {})
    ensures SpaceBlocks(k.mem[..], p.chunk, k.heap.saddr / PAGE_SIZE) == SpaceBlocks(old(k.mem[..]), p.chunk, k.heap.saddr / PAGE_SIZE)
  {
    hide RunsKeep, SameBelow, Encodes, ScanAnswer, Marked, Heap.BlockIndex, Heap.BlockCount, OnlyFrames, SlotsOk, SlotBlocks, SpaceBlocks,
      IsChunk, OwnedBlocks, Flat, SameTables, SameAround, Zeroed;
    Heap.BlockCountIs(size);
    ghost var s, m, t := k.mem[..], k.heap.live, k.heap.Table();
    ptr := k.Kzalloc(size);
    if ptr == 0 || size == 0 {
      assert k.mem[..] == s by { ZeroedNothing(s, ptr); }
      Unchanged(s, DirFrame(s, p.chunk), ptr / PAGE_SIZE, Heap.BlockCount(size));
      assert k.heap.Table() == k.heap.low[..][k.heap.base..k.heap.base + k.heap.total] == t;
      if ptr != 0 { AddressBlockNo(k, ptr); }
      NothingWritten(s, k.heap.saddr / PAGE_SIZE, m);
    } else {
      AddressBlockNo(k, ptr);
      ghost var b, n := k.heap.BlockAt(ptr), Heap.BlockCount(size);
      SpaceApart(k.heap.Table(), m, s, k.mem[..], p.chunk, k.heap.saddr / PAGE_SIZE, b, n);
      SlotsKeep(p.allocations[..], m, k.heap.saddr, k.heap.total, b, n);
      FreshRunKeeps(k.heap.Table(), m, b, n, s, k.mem[..], k.heap.saddr / PAGE_SIZE);
    }
  }

  lemma NothingWritten(s: seq<uint32>, pool: nat, m: Runs)
    ensures RunsKeep(s, s, pool, m, {})
  {
  }

  lemma ZeroedNothing(s: seq<uint32>, ptr: uint32)
    requires |s| == WORDS
    ensures Zeroed(s, ptr, 0) == s
  {
  }

  lemma Unchanged(s: seq<uint32>, df: nat, f: nat, n: nat)
    requires |s| == WORDS && df < PAGES
    ensures SameTables(s, s, df) && OnlyFrames(s, s, f, n)
  {
  }

  /** The end of a page-aligned range is the multiple of the page size next to it. */
  lemma AlignedIs(x: nat, y: nat)
    requires x <= y < x + PAGE_SIZE && y < U32 && y % PAGE_SIZE == 0
    ensures AlignAddress(x) == y
  {
  }

  lemma EndInPool(saddr: uint32, total: nat, ptr: uint32, size: uint32)
    requires saddr % Heap.BLOCK_SIZE == 0 && saddr + total * Heap.BLOCK_SIZE < U32 && saddr <= ptr
    requires ptr == saddr + BlockNo(saddr, ptr) * Heap.BLOCK_SIZE && size <= 0xFFFFF000
    requires BlockNo(saddr, ptr) + Heap.BlockCount(size) <= total
    ensures ptr + size <= EndOf(ptr, size) && EndOf(ptr, size) == ptr + Heap.BlockCount(size) * Heap.BLOCK_SIZE
  {
    hide Heap.BlockCount, BlockNo, AlignAddress;
    Heap.BlockCountIs(size);
    var n := Heap.BlockCount(size);
    assert size <= n * PAGE_SIZE < size + PAGE_SIZE;
    AlignedIs(ptr + size, ptr + n * PAGE_SIZE);
  }

  lemma AroundSelf(low: seq<Entry>, base: nat, total: nat)
    ensures SameAround(low, low, base, total)
  {
  }

  /** Giving back a run that was never recorded leaves the process as it was before the run existed. */
  method Undo(k: Machine, p: Process, ptr: uint32, ghost t0: seq<Entry>, ghost m0: Runs, ghost size: uint32)
    requires p.Inv(k) && ptr != 0
    requires HeapAnswer(t0, m0, k.heap.live, k.heap.saddr, size, ptr)
    requires Encodes(t0, m0) && |t0| == k.heap.total
    requires SlotsOk(p.allocations[..], m0, k.heap.saddr, k.heap.total)
    requires OwnedBlocks(m0, k.heap.total, k.mem[..], p.chunk, k.heap.saddr / PAGE_SIZE)
    requires Heap.BlockCount(size) == 0 ==> k.heap.Table() == t0
    modifies k.heap.low, k.heap`live
    ensures p.Inv(k) && k.heap.live == m0 && k.heap.Table() == t0
    ensures SameAround(old(k.heap.low[..]), k.heap.low[..], k.heap.base, k.heap.total)
  {
    hide Encodes, ScanAnswer, Heap.BlockIndex, Heap.BlockCount, SlotsOk, SlotBlocks, SpaceBlocks, IsChunk, OwnedBlocks, Flat,
      SameAround, ClearChain;
    ghost var b := BlockNo(k.heap.saddr, ptr);
    ScanFree(t0, Heap.BlockCount(size), b);
    Heap.BlockIndexOf(k.heap.saddr, b);
    ghost var low := k.heap.low[..];
    k.Kfree(ptr);
    assert Heap.BlockCount(size) == 0 ==> SameAround(low, low, k.heap.base, k.heap.total) by { AroundSelf(low, k.heap.base, k.heap.total); }
    assert k.heap.live == m0;
    EncodingUnique(k.heap.Table(), t0, m0);
  }

  lemma OwnedSame(m: Runs, total: nat, s: seq<uint32>, s': seq<uint32>, chunk: uint32, pool: nat)
    requires |s| == |s'| == WORDS && OwnedBlocks(m, total, s, chunk, pool)
    requires DirFrame(s', chunk) == DirFrame(s, chunk) && SameTables(s, s', DirFrame(s, chunk))
    ensures OwnedBlocks(m, total, s', chunk, pool)
    ensures SpaceBlocks(s', chunk, pool) == SpaceBlocks(s, chunk, pool)
  {
    hide Owned;
    forall i | 0 <= i < ENTRIES ensures Owned(m, total, TableFrame(s', DirFrame(s, chunk), i), pool) {
      assert Owned(m, total, TableFrame(s, DirFrame(s, chunk), i), pool);
    }
    Life.SameTableBlocks(s, s', DirFrame(s, chunk), pool);
  }

  lemma SpaceBlocksLive(m: Runs, total: nat, s: seq<uint32>, chunk: uint32, pool: nat)
    requires |s| == WORDS && OwnedBlocks(m, total, s, chunk, pool)
    ensures SpaceBlocks(s, chunk, pool) <= m.Keys
  {
    var df := DirFrame(s, chunk);
    forall x | x in TableBlocks(s, df, pool, ENTRIES) ensures x in m {
      var j :| 0 <= j < ENTRIES && x == BlockOf(TableFrame(s, df, j), pool);
      assert Owned(m, total, TableFrame(s, df, j), pool);
    }
  }

  /** Mapping a run to itself can only be refused when the run leaves the pool. */
  lemma LeftPool(saddr: uint32, total: nat, t0: seq<Entry>, m0: Runs, m: Runs, size: uint32, ptr: uint32, f: seq<uint32>)
    requires saddr % Heap.BLOCK_SIZE == 0 && saddr + total * Heap.BLOCK_SIZE < U32 && |t0| == total && |f| == PAGES
    requires HeapAnswer(t0, m0, m, saddr, size, ptr) && ptr != 0 && size <= 0xFFFFF000
    requires MapTo(f, ptr, ptr, EndOf(ptr, size), USER_FLAGS).res < 0
    ensures exists b: nat :: ScanAnswer(t0, Heap.BlockCount(size), b) && b + Heap.BlockCount(size) > total
  {
    hide ScanAnswer;
    if BlockNo(saddr, ptr) + Heap.BlockCount(size) <= total {
      EndInPool(saddr, total, ptr, size);
      assert false;
    }
  }

  /** The invariant once the run at ptr sits in slot `index`. */
  lemma Recorded(k: Machine, p: Process, t0: seq<Entry>, m0: Runs, s: seq<uint32>, s1: seq<uint32>,
                 size: uint32, ptr: uint32, index: nat)
    requires p.Inv(k) && ptr != 0 && HeapAnswer(t0, m0, k.heap.live, k.heap.saddr, size, ptr) && |t0| == k.heap.total
    requires SlotsOk(p.allocations[..], m0, k.heap.saddr, k.heap.total)
    requires index < MAX_ALLOCATIONS && p.allocations[index].ptr == 0
    requires |s| == |s1| == WORDS && DirFrame(s1, p.chunk) == DirFrame(s, p.chunk) == DirFrame(k.mem[..], p.chunk)
    requires SameTables(s, s1, DirFrame(s, p.chunk)) && OnlyFrames(s, s1, ptr / PAGE_SIZE, Heap.BlockCount(size))
    requires SameTables(s1, k.mem[..], DirFrame(s, p.chunk)) && OnlyTables(s1, k.mem[..], DirFrame(s, p.chunk))
    requires OwnedBlocks(m0, k.heap.total, s, p.chunk, k.heap.saddr / PAGE_SIZE)
    ensures SameTables(s, k.mem[..], DirFrame(s, p.chunk))
    ensures OnlyRunAndTables(s, k.mem[..], DirFrame(s, p.chunk), ptr / PAGE_SIZE, Heap.BlockCount(size))
    ensures Heap.BlockCount(size) >= 1 ==>
      && var slots := p.allocations[..][index := Allocation(ptr, size)];
      && SlotsOk(slots, k.heap.live, k.heap.saddr, k.heap.total)
      && SlotBlocks(slots, k.heap.saddr) !! SpaceBlocks(k.mem[..], p.chunk, k.heap.saddr / PAGE_SIZE)
      && k.heap.live - SlotBlocks(slots, k.heap.saddr) == m0 - SlotBlocks(p.allocations[..], k.heap.saddr)
  {
    hide ScanAnswer, Encodes, Heap.BlockCount, SlotsOk, SlotBlocks, SpaceBlocks, IsChunk, OwnedBlocks, Flat, OnlyTables, OnlyFrames,
      SameTables, OnlyRunAndTables;
    ghost var df, pool := DirFrame(s, p.chunk), k.heap.saddr / PAGE_SIZE;
    RunThenTables(s, s1, k.mem[..], df, ptr / PAGE_SIZE, Heap.BlockCount(size));
    SameTablesTrans(s, s1, k.mem[..], df);
    if Heap.BlockCount(size) >= 1 {
      OwnedSame(m0, k.heap.total, s, k.mem[..], p.chunk, pool);
      SpaceBlocksLive(m0, k.heap.total, s, p.chunk, pool);
      RecordSlot(p.allocations[..], m0, k.heap.saddr, k.heap.total, index, Allocation(ptr, size), Heap.BlockCount(size));
    }
  }

  /** The user finds address v at v, and may read and write it. */
  predicate GivenToUser(f: seq<uint32>, v: uint32)
    requires |f| == PAGES
  {
    Translate(f, v) == v && HasBits(f[v / PAGE_SIZE], 7)
  }

  /** Mapping an allocation to itself gives the user its bytes and leaves every other page alone. */
  lemma RunMapped(f: seq<uint32>, ptr: uint32, size: uint32)
    requires |f| == PAGES && ptr % PAGE_SIZE == 0 && ptr + size <= 0xFFFFF000
    ensures var flat := MapTo(f, ptr, ptr, EndOf(ptr, size), USER_FLAGS).flat;
      && (forall v :: ptr <= v < ptr + size ==> GivenToUser(flat, v))
      && (forall q :: 0 <= q < PAGES && !(ptr / PAGE_SIZE <= q < ptr / PAGE_SIZE + Heap.BlockCount(size)) ==> flat[q] == f[q])
  {
    hide GivenToUser, Heap.BlockCount;
    var flat := MapTo(f, ptr, ptr, EndOf(ptr, size), USER_FLAGS).flat;
    forall q | 0 <= q < PAGES
      ensures flat[q] == if ptr / PAGE_SIZE <= q < ptr / PAGE_SIZE + Heap.BlockCount(size)
                         then WithFlags(q * PAGE_SIZE, USER_FLAGS) else f[q]
    {
      OwnPage(f, ptr, size, q);
    }
    Heap.BlockCountIs(size);
    forall v | ptr <= v < ptr + size ensures GivenToUser(flat, v) {
      OwnByte(flat, v);
    }
  }

  lemma OwnByte(f: seq<uint32>, v: uint32)
    requires |f| == PAGES && f[v / PAGE_SIZE] == WithFlags(v / PAGE_SIZE * PAGE_SIZE, USER_FLAGS)
    ensures GivenToUser(f, v)
  {
    hide WithFlags, Mask, HasBits;
    FlagsOf(v / PAGE_SIZE * PAGE_SIZE, USER_FLAGS);
  }

  lemma OwnPage(f: seq<uint32>, ptr: uint32, size: uint32, q: nat)
    requires |f| == PAGES && ptr % PAGE_SIZE == 0 && ptr + size <= 0xFFFFF000 && q < PAGES
    ensures MapTo(f, ptr, ptr, EndOf(ptr, size), USER_FLAGS).flat[q] ==
      if ptr / PAGE_SIZE <= q < ptr / PAGE_SIZE + Heap.BlockCount(size) then WithFlags(q * PAGE_SIZE, USER_FLAGS) else f[q]
  {
    hide WithFlags, Heap.BlockCount, EndOf;
    var n, p := Heap.BlockCount(size), ptr / PAGE_SIZE;
    EndIs(ptr, size);
    var k := (q - p) % PAGES;
    assert MapTo(f, ptr, ptr, EndOf(ptr, size), USER_FLAGS).flat[q] == MappedEntry(f, p, p, n, USER_FLAGS, q);
    if p <= q < p + n { assert k == q - p; } else { assert k >= n; }
  }

  lemma EndIs(ptr: uint32, size: uint32)
    requires ptr % PAGE_SIZE == 0 && ptr + size <= 0xFFFFF000
    ensures EndOf(ptr, size) == ptr + Heap.BlockCount(size) * PAGE_SIZE <= 0xFFFFF000
  {
    hide Heap.BlockCount, AlignAddress;
    Heap.BlockCountIs(size);
    var n := Heap.BlockCount(size);
    assert size <= n * PAGE_SIZE < size + PAGE_SIZE;
    AlignedIs(ptr + size, ptr + n * PAGE_SIZE);
  }

  /** process_malloc. The size bound keeps memset from running around the address space when
      the heap hands out a run that leaves the pool. */
  method ProcessMalloc(k: Machine, p: Process, size: uint32) returns (ptr: uint32)
    requires p.Inv(k) && size <= U32 - (k.heap.saddr + k.heap.total * Heap.BLOCK_SIZE)
    modifies k.heap.low, k.heap`live, k.mem, p.allocations
    ensures k.Valid() && OwnsSpace(k, p.chunk)
    ensures ptr == 0 || size >= 1 ==> p.Inv(k) && p.Others(k) == old(p.Others(k))
    ensures ptr != 0 ==> (p.Inv(k) <==> size >= 1)
    ensures SameBelow(old(k.heap.low[..]), k.heap.low[..], k.heap.base)
    // failure changes nothing, and happens only for these reasons
    ensures ptr == 0 ==>
      && k.heap.live == old(k.heap.live) && k.heap.Table() == old(k.heap.Table())
      && p.allocations[..] == old(p.allocations[..])
      && Space(k.mem[..], p.chunk) == Space(old(k.mem[..]), p.chunk)
    ensures ptr == 0 ==>
      || FirstWith(old(p.allocations[..]), 0) == -1
      || ScanAnswer(old(k.heap.Table()), Heap.BlockCount(size), -ENOMEM)
      || exists b: nat :: ScanAnswer(old(k.heap.Table()), Heap.BlockCount(size), b) && b + Heap.BlockCount(size) > k.heap.total
    // success records the run in the first null slot and maps it to itself
    ensures ptr != 0 ==> HeapAnswer(old(k.heap.Table()), old(k.heap.live), k.heap.live, k.heap.saddr, size, ptr)
    ensures ptr != 0 ==>
      && FirstWith(old(p.allocations[..]), 0) != -1
      && p.allocations[..] == old(p.allocations[..])[FirstWith(old(p.allocations[..]), 0) := Allocation(ptr, size)]
      && Space(k.mem[..], p.chunk) == MapTo(Space(old(k.mem[..]), p.chunk), ptr, ptr, EndOf(ptr, size), USER_FLAGS).flat
    // the user may read and write the allocation where it lies, and no other page changes
    ensures ptr != 0 ==> forall v :: ptr <= v < ptr + size <= U32 ==> GivenToUser(Space(k.mem[..], p.chunk), v)
    ensures ptr != 0 ==> forall q :: 0 <= q < PAGES && !(ptr / PAGE_SIZE <= q < ptr / PAGE_SIZE + Heap.BlockCount(size)) ==>
      Space(k.mem[..], p.chunk)[q] == Space(old(k.mem[..]), p.chunk)[q]
    // every live run but the process's page tables keeps its contents
    ensures RunsKeep(old(k.mem[..]), k.mem[..], k.heap.saddr / PAGE_SIZE, old(k.heap.live),
      SpaceBlocks(old(k.mem[..]), p.chunk, k.heap.saddr / PAGE_SIZE))
    ensures SpaceBlocks(k.mem[..], p.chunk, k.heap.saddr / PAGE_SIZE) == SpaceBlocks(old(k.mem[..]), p.chunk, k.heap.saddr / PAGE_SIZE)
    ensures DirFrame(k.mem[..], p.chunk) == DirFrame(old(k.mem[..]), p.chunk)
    ensures ptr != 0 ==>
      && SameTables(old(k.mem[..]), k.mem[..], DirFrame(old(k.mem[..]), p.chunk))
      && OnlyRunAndTables(old(k.mem[..]), k.mem[..], DirFrame(old(k.mem[..]), p.chunk), ptr / PAGE_SIZE, Heap.BlockCount(size))
  {
    hide HeapAnswer, RunsKeep, GivenToUser, Encodes, ScanAnswer, Heap.BlockIndex, Heap.BlockCount, SlotsOk, SlotBlocks, SpaceBlocks, IsChunk, OwnedBlocks, Flat,
      SameTables, OnlyTables, OnlyFrames, OnlyRunAndTables, FirstWith, PageTables.MapTo, EndOf, SameBelow, SameAround;
    ghost var s, m, t := k.mem[..], k.heap.live, k.heap.Table();
    ghost var pool: nat := k.heap.saddr / PAGE_SIZE;
    ptr := KzallocBeside(k, p, size);
    ghost var s1, low1 := k.mem[..], k.heap.low[..];
    AnswerFacts(t, m, k.heap.live, k.heap.saddr, size, ptr);
    RunsKeepMore(s, s1, pool, m, SpaceBlocks(s, p.chunk, pool));
    if ptr == 0 {
      return 0;
    }
    OwnedSame(m, k.heap.total, s, s1, p.chunk, k.heap.saddr / PAGE_SIZE);
    var index := p.Find(0);
    if index < 0 {
      Undo(k, p, ptr, t, m, size);
      AroundIsBelow(old(k.heap.low[..]), low1, k.heap.low[..], k.heap.base, k.heap.total);
      return 0;
    }
    var res := MapRegion(k.mem, p.chunk, ptr, ptr, EndOf(ptr, size), USER_FLAGS);
    if res < 0 {
      LeftPool(k.heap.saddr, k.heap.total, t, m, k.heap.live, size, ptr, Space(s, p.chunk));
      Undo(k, p, ptr, t, m, size);
      AroundIsBelow(old(k.heap.low[..]), low1, k.heap.low[..], k.heap.base, k.heap.total);
      return 0;
    }
    Life.RemapKeepsBlocks(s1, k.mem[..], p.chunk, Space(k.mem[..], p.chunk), k.heap.live, k.heap.total, k.heap.saddr / PAGE_SIZE);
    TablesKeepRuns(k.heap.Table(), k.heap.live, s1, k.mem[..], p.chunk, pool);
    RunsKeepTrans(s, s1, k.mem[..], pool, m, k.heap.live, SpaceBlocks(s, p.chunk, pool));
    Heap.BlockCountIs(size);
    Recorded(k, p, t, m, s, s1, size, ptr, index);
    p.allocations[index] := Allocation(ptr, size);
    assert p.allocations[..] == old(p.allocations[..])[index := Allocation(ptr, size)];
    RunMapped(Space(s, p.chunk), ptr, size);
    if size == 0 {
      EmptySlotBreaks(p.allocations[..], k.heap.live, k.heap.saddr, k.heap.total, index);
    }
  }

  /** A slot without blocks is no record of a live run. */
  lemma EmptySlotBreaks(slots: seq<Allocation>, m: Runs, saddr: uint32, total: nat, i: nat)
    requires i < |slots| && slots[i].ptr != 0 && slots[i].size == 0
    ensures !SlotsOk(slots, m, saddr, total)
  {
    hide Heap.BlockCount;
    Heap.BlockCountIs(0);
    assert !SlotOk(slots[i], m, saddr, total);
  }

  /** Index, in low memory, of the byte kfree(0) starts clearing at. */
  ghost function NullStart(heap: Heap.Heap): nat
    requires heap.Layout()
    reads heap
  {
    heap.base - heap.saddr / Heap.BLOCK_SIZE
  }

  lemma NullBlock(heap: Heap.Heap)
    requires heap.Layout()
    ensures heap.base + heap.BlockAt(0) == NullStart(heap)
    ensures heap.BlockAt(0) < 0
  {
    NullIndex(heap.saddr);
  }

  lemma NullIndex(saddr: uint32)
    requires 0 < saddr < 0x8000_0000 && saddr % Heap.BLOCK_SIZE == 0
    ensures Heap.BlockIndex(saddr, 0) == -(saddr / Heap.BLOCK_SIZE) < 0
  {
    hide Signed, TruncDiv;
    NegativeSigned(saddr);
    NegativeDiv(saddr);
  }

  lemma NegativeSigned(a: int)
    requires 0 < a < 0x8000_0000
    ensures Signed(0 - a) == -a
  {
    assert (0 - a) % U32 == U32 - a;
  }

  lemma NegativeDiv(a: int)
    requires a >= Heap.BLOCK_SIZE
    ensures TruncDiv(-a, Heap.BLOCK_SIZE) == -(a / Heap.BLOCK_SIZE) < 0
  {
  }

  lemma FreeMapped(f: seq<uint32>, a: Allocation)
    requires |f| == PAGES && a.ptr % PAGE_SIZE == 0
    ensures MapTo(f, a.ptr, 0, EndOf(a.ptr, a.size), 0).res == 0
    ensures a == Allocation(0, 0) ==> MapTo(f, 0, 0, EndOf(0, 0), 0).flat == f
  {
    MapRangeZero(f, 0, 0, 0);
  }

  /** process_free, as coded: for a recorded pointer it unmaps, erases the slot and frees the run;
      for null it erases nothing but still reaches kfree(0) as long as a slot is unused. */
  method ProcessFree(k: Machine, p: Process, ptr: uint32, ghost m: Runs)
    requires p.InvOn(k, m)
    modifies k.heap.low, k.heap`live, k.mem, p.allocations
    ensures FirstWith(old(p.allocations[..]), ptr) == -1 ==>
      p.InvOn(k, m) && k.heap.live == old(k.heap.live) && k.heap.low[..] == old(k.heap.low[..])
      && p.allocations[..] == old(p.allocations[..]) && k.mem[..] == old(k.mem[..])
    ensures ptr != 0 && FirstWith(old(p.allocations[..]), ptr) != -1 ==>
      var i, b := FirstWith(old(p.allocations[..]), ptr), BlockNo(k.heap.saddr, ptr);
      && b in m && b in SlotBlocks(old(p.allocations[..]), k.heap.saddr)
      && p.InvOn(k, m - {b}) && k.heap.live == old(k.heap.live) - {b}
      && p.allocations[..] == old(p.allocations[..])[i := Allocation(0, 0)]
      && SlotBlocks(p.allocations[..], k.heap.saddr) == SlotBlocks(old(p.allocations[..]), k.heap.saddr) - {b}
      && Space(k.mem[..], p.chunk) == MapTo(Space(old(k.mem[..]), p.chunk), ptr, 0, EndOf(ptr, old(p.allocations[i].size)), 0).flat
      && SameAround(old(k.heap.low[..]), k.heap.low[..], k.heap.base, k.heap.total)
    ensures m == old(k.heap.live) ==> RunsKeep(old(k.mem[..]), k.mem[..], k.heap.saddr / PAGE_SIZE, m,
      SpaceBlocks(old(k.mem[..]), p.chunk, k.heap.saddr / PAGE_SIZE))
    ensures SpaceBlocks(k.mem[..], p.chunk, k.heap.saddr / PAGE_SIZE) == SpaceBlocks(old(k.mem[..]), p.chunk, k.heap.saddr / PAGE_SIZE)
    ensures ptr == 0 && FirstWith(old(p.allocations[..]), 0) != -1 ==>
      && p.InvOn(k, m) && p.allocations[..] == old(p.allocations[..])
      && Space(k.mem[..], p.chunk) == Space(old(k.mem[..]), p.chunk)
      && k.heap.low[..] == ClearChain(old(k.heap.low[..]), NullStart(k.heap), k.heap.base + k.heap.total)
      && k.heap.live == if Reaches(old(k.heap.low[..]), NullStart(k.heap), k.heap.base) then old(k.heap.live) - {0} else old(k.heap.live)
  {
    hide RunsKeep, Encodes, Heap.BlockIndex, Heap.BlockCount, SlotsOk, SlotBlocks, SpaceBlocks, IsChunk, OwnedBlocks, Flat,
      FirstWith, PageTables.MapTo, EndOf, SameAround, ClearChain, Reaches, BlockNo;
    ghost var slots, low := p.allocations[..], k.heap.low[..];
    var index := p.Find(ptr);
    NothingWritten(k.mem[..], k.heap.saddr / PAGE_SIZE, m);
    RunsKeepMore(k.mem[..], k.mem[..], k.heap.saddr / PAGE_SIZE, m, SpaceBlocks(k.mem[..], p.chunk, k.heap.saddr / PAGE_SIZE));
    if index < 0 {
      return;
    }
    SlotFacts(slots, m, k.heap.saddr, k.heap.total, index);
    UnmapAndErase(k, p, ptr, index, m);
    if ptr == 0 {
      assert slots[index := Allocation(0, 0)] == slots;
      NullBlock(k.heap);
      k.Kfree(ptr);
      MinusZero(m, 0);
    } else {
      ghost var b := BlockNo(k.heap.saddr, ptr);
      EraseSlot(slots, m, k.heap.saddr, k.heap.total, index);
      Heap.BlockIndexOf(k.heap.saddr, b);
      SpaceOthers(m, k.heap.total, k.mem[..], p.chunk, k.heap.saddr / PAGE_SIZE, b);
      LostBlock(k, m, b);
      AroundSelf(low, k.heap.base, k.heap.total);
      k.Kfree(ptr);
      MinusZero(m, b);
    }
  }

  /** process_free up to its kfree, for the slot it found; nothing of the heap changes. */
  method UnmapAndErase(k: Machine, p: Process, ptr: uint32, index: nat, ghost m: Runs)
    requires p.InvOn(k, m) && index == FirstWith(p.allocations[..], ptr)
    modifies k.mem, p.allocations
    ensures k.Valid() && IsChunk(k.mem[..], p.chunk)
    ensures OwnedBlocks(m, k.heap.total, k.mem[..], p.chunk, k.heap.saddr / PAGE_SIZE)
    ensures SpaceBlocks(k.mem[..], p.chunk, k.heap.saddr / PAGE_SIZE) == SpaceBlocks(old(k.mem[..]), p.chunk, k.heap.saddr / PAGE_SIZE)
    ensures p.allocations[..] == old(p.allocations[..])[index := Allocation(0, 0)]
    ensures Space(k.mem[..], p.chunk) == MapTo(Space(old(k.mem[..]), p.chunk), ptr, 0, EndOf(ptr, old(p.allocations[index].size)), 0).flat
    ensures ptr == 0 ==> Space(k.mem[..], p.chunk) == Space(old(k.mem[..]), p.chunk)
    ensures m == k.heap.live ==> RunsKeep(old(k.mem[..]), k.mem[..], k.heap.saddr / PAGE_SIZE, m,
      SpaceBlocks(old(k.mem[..]), p.chunk, k.heap.saddr / PAGE_SIZE))
  {
    hide RunsKeep, Encodes, Heap.BlockIndex, Heap.BlockCount, SlotsOk, SlotBlocks, SpaceBlocks, IsChunk, OwnedBlocks, Flat,
      SameTables, OnlyTables, FirstWith, PageTables.MapTo, EndOf, BlockNo;
    ghost var s, slots := k.mem[..], p.allocations[..];
    SlotFacts(slots, m, k.heap.saddr, k.heap.total, index);
    var a := p.allocations[index];
    assert a == slots[index];
    FreeMapped(Space(s, p.chunk), a);
    var res := MapRegion(k.mem, p.chunk, a.ptr, 0, EndOf(a.ptr, a.size), 0);
    if res < 0 {
      return;
    }
    Life.RemapKeepsBlocks(s, k.mem[..], p.chunk, Space(k.mem[..], p.chunk), m, k.heap.total, k.heap.saddr / PAGE_SIZE);
    if m == k.heap.live {
      TablesKeepRuns(k.heap.Table(), m, s, k.mem[..], p.chunk, k.heap.saddr / PAGE_SIZE);
    }
    // process_allocation_unjoin
    var again := p.Find(ptr);
    p.allocations[again] := Allocation(0, 0);
    assert p.allocations[..] == slots[index := Allocation(0, 0)];
  }

  lemma MinusZero(m: Runs, b: nat)
    ensures (m - {0}) - {b} == (m - {b}) - {0}
  {
  }

  /** A recorded run is live, or it was the one at block 0 and that block is free. */
  lemma LostBlock(k: Machine, m: Runs, b: nat)
    requires k.Valid() && (k.heap.live == m || k.heap.live == m - {0}) && b in m && b < k.heap.total
    ensures b in k.heap.live || (b == 0 && IsFree(k.heap.Table()[0]))
    ensures b !in k.heap.live ==> k.heap.live - {b} == k.heap.live
  {
    hide Encodes;
    FirstBlockFree(k.heap.Table(), k.heap.live);
  }

  lemma SlotFacts(slots: seq<Allocation>, m: Runs, saddr: uint32, total: nat, index: nat)
    requires SlotsOk(slots, m, saddr, total) && index < |slots|
    ensures slots[index].ptr == 0 ==> slots[index] == Allocation(0, 0)
    ensures slots[index].ptr % PAGE_SIZE == 0
    ensures slots[index].ptr != 0 ==>
      && slots[index].ptr == saddr + BlockNo(saddr, slots[index].ptr) * Heap.BLOCK_SIZE
      && BlockNo(saddr, slots[index].ptr) < total
  {
    hide Heap.BlockCount;
    assert SlotOk(slots[index], m, saddr, total);
  }

  lemma SpaceOthers(m: Runs, total: nat, s: seq<uint32>, chunk: uint32, pool: nat, b: nat)
    requires |s| == WORDS && OwnedBlocks(m, total, s, chunk, pool) && b !in SpaceBlocks(s, chunk, pool)
    ensures OwnedBlocks(m - {b}, total, s, chunk, pool)
  {
    var df := DirFrame(s, chunk);
    forall i | 0 <= i < ENTRIES ensures Owned(m - {b}, total, TableFrame(s, df, i), pool) {
      assert Owned(m, total, TableFrame(s, df, i), pool);
      assert BlockOf(TableFrame(s, df, i), pool) in TableBlocks(s, df, pool, ENTRIES);
    }
  }

  lemma FirstWithOwn(slots: seq<Allocation>, m: Runs, saddr: uint32, total: nat, i: nat)
    requires SlotsOk(slots, m, saddr, total) && i < |slots| && slots[i].ptr != 0
    ensures FirstWith(slots, slots[i].ptr) == i
  {
    hide Heap.BlockCount;
    forall j | 0 <= j < i ensures slots[j].ptr != slots[i].ptr {
      assert SlotOk(slots[j], m, saddr, total);
    }
    FirstWithIs(slots, slots[i].ptr, i);
  }

  lemma FirstNullThere(slots: seq<Allocation>, i: nat)
    requires i < |slots| && slots[i].ptr == 0
    ensures FirstWith(slots, 0) != -1
  {
  }

  /** One pass of the loop of process_terminate_allocation. */
  method TerminateOne(k: Machine, p: Process, i: nat, ghost m: Runs) returns (ghost m': Runs)
    requires p.InvOn(k, m) && i < MAX_ALLOCATIONS
    modifies k.heap.low, k.heap`live, k.mem, p.allocations
    ensures p.InvOn(k, m') && p.Outside(k, m') == old(p.Outside(k, m))
    ensures SpaceBlocks(k.mem[..], p.chunk, k.heap.saddr / PAGE_SIZE) == SpaceBlocks(old(k.mem[..]), p.chunk, k.heap.saddr / PAGE_SIZE)
    ensures p.allocations[..] == old(p.allocations[..])[i := Allocation(0, 0)]
    ensures old(p.allocations[i].ptr) == 0 ==>
      && m' == m && !Reaches(k.heap.low[..], NullStart(k.heap), k.heap.base)
      && k.heap.live == if Reaches(old(k.heap.low[..]), NullStart(k.heap), k.heap.base) then old(k.heap.live) - {0} else old(k.heap.live)
    ensures old(p.allocations[i].ptr) != 0 ==>
      var b := BlockNo(k.heap.saddr, old(p.allocations[i].ptr));
      && m' == m - {b} && k.heap.live == old(k.heap.live) - {b}
      && (Reaches(k.heap.low[..], NullStart(k.heap), k.heap.base) <==> Reaches(old(k.heap.low[..]), NullStart(k.heap), k.heap.base))
  {
    hide Encodes, Heap.BlockIndex, Heap.BlockCount, SlotBlocks, SpaceBlocks, IsChunk, OwnedBlocks, Flat, BlockNo,
      FirstWith, PageTables.MapTo, EndOf, SameAround, ClearChain, Reaches, SlotOk, SlotsOk;
    ghost var slots, low := p.allocations[..], k.heap.low[..];
    ghost var live := k.heap.live;
    SlotFacts(slots, m, k.heap.saddr, k.heap.total, i);
    var ptr := p.allocations[i].ptr;
    assert slots[i].ptr == ptr;
    m' := m;
    if ptr == 0 {
      FirstNullThere(slots, i);
      ProcessFree(k, p, ptr, m);
      WalkFromBelow(low, NullStart(k.heap), k.heap.base, k.heap.total, live);
      assert slots[i := Allocation(0, 0)] == slots;
    } else {
      FirstWithOwn(slots, m, k.heap.saddr, k.heap.total, i);
      ProcessFree(k, p, ptr, m);
      m' := m - {BlockNo(k.heap.saddr, ptr)};
      ReachesAround(low, k.heap.low[..], NullStart(k.heap), k.heap.base, k.heap.total);
    }
  }

  lemma ReachesAround(low: seq<Entry>, low': seq<Entry>, start: nat, base: nat, total: nat)
    requires SameAround(low, low', base, total)
    ensures Reaches(low', start, base) <==> Reaches(low, start, base)
  {
  }

  /** Slots that process_malloc could still use. */
  predicate HasUnused(slots: seq<Allocation>, n: nat)
    requires n <= |slots|
  {
    exists i :: 0 <= i < n && slots[i].ptr == 0
  }

  /** process_terminate_allocation, on every state: the table is emptied, and every allocation goes back
      to the heap. A call of kfree(0) for an unused slot can take the run at block 0 along; the runs
      of others are all left if and only if no slot is unused, a byte stops that walk, block 0 is free,
      or its run belongs to the process anyway. */
  method TerminateAllocations(k: Machine, p: Process)
    requires p.Inv(k)
    modifies k.heap.low, k.heap`live, k.mem, p.allocations
    ensures forall i :: 0 <= i < MAX_ALLOCATIONS ==> p.allocations[i] == Allocation(0, 0)
    ensures k.Valid() && p.InvOn(k, old(p.Others(k)))
    ensures k.heap.live == if old(HasUnused(p.allocations[..], MAX_ALLOCATIONS) && Reaches(k.heap.low[..], NullStart(k.heap), k.heap.base))
      then old(p.Others(k)) - {0} else old(p.Others(k))
    ensures k.heap.live == old(p.Others(k)) <==>
      || !old(HasUnused(p.allocations[..], MAX_ALLOCATIONS))
      || !Reaches(old(k.heap.low[..]), NullStart(k.heap), k.heap.base)
      || IsFree(old(k.heap.Table())[0])
      || 0 in old(SlotBlocks(p.allocations[..], k.heap.saddr))
    ensures k.heap.live == old(p.Others(k)) ==> p.Inv(k)
    ensures SpaceBlocks(k.mem[..], p.chunk, k.heap.saddr / PAGE_SIZE) == SpaceBlocks(old(k.mem[..]), p.chunk, k.heap.saddr / PAGE_SIZE)
  {
    hide Encodes, Heap.BlockIndex, Heap.BlockCount, SlotBlocks, SpaceBlocks, IsChunk, OwnedBlocks, Flat,
      FirstWith, PageTables.MapTo, EndOf, SameAround, ClearChain, Reaches, SlotOk, SlotsOk, HasUnused, BlockNo;
    ghost var slots, low, m := p.allocations[..], k.heap.low[..], k.heap.live;
    ghost var others := p.Others(k);
    BlockZero(k, p);
    NoUnused(slots);
    var i := 0;
    while i < MAX_ALLOCATIONS
      invariant 0 <= i <= MAX_ALLOCATIONS && p.InvOn(k, m)
      invariant p.Outside(k, m) == others
      invariant SpaceBlocks(k.mem[..], p.chunk, k.heap.saddr / PAGE_SIZE) == SpaceBlocks(old(k.mem[..]), p.chunk, k.heap.saddr / PAGE_SIZE)
      invariant forall j :: 0 <= j < i ==> p.allocations[j] == Allocation(0, 0)
      invariant forall j :: i <= j < MAX_ALLOCATIONS ==> p.allocations[j] == slots[j]
      invariant Reaches(k.heap.low[..], NullStart(k.heap), k.heap.base) <==>
        Reaches(low, NullStart(k.heap), k.heap.base) && !HasUnused(slots, i)
      invariant k.heap.live == if Reaches(low, NullStart(k.heap), k.heap.base) && HasUnused(slots, i) then m - {0} else m
    {
      MoreUnused(slots, i);
      MinusZero(m, BlockNo(k.heap.saddr, slots[i].ptr));
      m := TerminateOne(k, p, i, m);
      i := i + 1;
    }
    NoSlots(p.allocations[..], k.heap.saddr);
    assert m == others;
  }

  lemma NoUnused(slots: seq<Allocation>)
    ensures !HasUnused(slots, 0)
  {
  }

  lemma MoreUnused(slots: seq<Allocation>, i: nat)
    requires i < |slots|
    ensures HasUnused(slots, i + 1) <==> HasUnused(slots, i) || slots[i].ptr == 0
  {
  }

  /** Whether another process, or a page table, has block 0. */
  lemma BlockZero(k: Machine, p: Process)
    requires p.Inv(k)
    ensures k.heap.total >= 1
    ensures 0 !in p.Others(k) <==> IsFree(k.heap.Table()[0]) || 0 in SlotBlocks(p.allocations[..], k.heap.saddr)
    ensures p.Others(k) - {0} == p.Others(k) <==> 0 !in p.Others(k)
  {
    hide Encodes, IsChunk, SlotBlocks;
    assert Owned(k.heap.live, k.heap.total, p.chunk / PAGE_SIZE, k.heap.saddr / PAGE_SIZE);
    FirstBlockFree(k.heap.Table(), k.heap.live);
    FreeIsUntaken(k.heap.Table(), k.heap.live, 0);
    assert 0 in p.Others(k) ==> 0 !in p.Others(k) - {0};
  }

  lemma NoSlots(slots: seq<Allocation>, saddr: uint32)
    requires forall i :: 0 <= i < |slots| ==> slots[i] == Allocation(0, 0)
    ensures SlotBlocks(slots, saddr) == {}
  {
  }
}
