/** The address spaces of the model as the processor sees them. */
module UserAccess {
  import opened Bits
  import opened Memory
  import opened Mmu
  import opened HeapTable
  import opened Kernel
  import opened PageTables
  import opened Paging
  import opened AddressSpace
  import opened ProcessMemory
  import opened ElfMap
  import opened ProcessLife
  import Heap

  /** What the processor does with an address depends on its entry in the flat map and on the bits of the
      directory entry; when it gets through, it gets to the address the flat map says. */
  lemma ReachIs(s: seq<uint32>, chunk: uint32, va: uint32, user: bool, write: bool)
    requires IsChunk(s, chunk)
    ensures var d, e := DirectoryEntry(s, DirFrame(s, chunk), va / 0x400000), Space(s, chunk)[va / PAGE_SIZE];
      Reach(s, s[chunk / 4], va, user, write) ==
        if d % 2 == 1 && e % 2 == 1 && (user ==> d / 4 % 2 == 1 && e / 4 % 2 == 1)
           && (user && write ==> d / 2 % 2 == 1 && e / 2 % 2 == 1)
        then Reached(Translate(Space(s, chunk), va)) else Fault
  {
    hide IsTree, Mask;
    var df := DirFrame(s, chunk);
    var e := Space(s, chunk)[va / PAGE_SIZE];
    assert va / PAGE_SIZE / ENTRIES == va / 0x400000;
    assert e == PageEntry(s, df, va / PAGE_SIZE);
    MaskIsFrame(e);
  }

  /** In a new address space every address reaches itself: at all if the flags have the present bit, for
      users if they have the user bit, and for users' writes if they have the write bit. */
  lemma NewSpaceReaches(s: seq<uint32>, chunk: uint32, flags: uint32, va: uint32, user: bool, write: bool)
    requires IsChunk(s, chunk) && flags < 256
    requires Space(s, chunk) == Identity(flags) && DirectoryRights(s, DirFrame(s, chunk), flags)
    ensures Reach(s, s[chunk / 4], va, user, write) ==
      if flags % 2 == 1 && (user ==> flags / 4 % 2 == 1) && (user && write ==> flags / 2 % 2 == 1)
      then Reached(va) else Fault
  {
    hide Reach, IsTree, WithFlags, Translate, Flat;
    ReachIs(s, chunk, va, user, write);
    IdentityTranslates(flags, va);
    assert HasRights(DirectoryEntry(s, DirFrame(s, chunk), va / 0x400000), flags);
    var a: uint32 := va / PAGE_SIZE * PAGE_SIZE;
    FlagsOf(a, flags);
    assert Identity(flags)[va / PAGE_SIZE] == WithFlags(a, flags);
  }

  /** The space of a task: its directory was made with the flags PRESENT and ACCESS_FROM_ALL. Users then have
      the rights of the flat map's entry. */
  lemma TaskReaches(s: seq<uint32>, chunk: uint32, va: uint32, write: bool)
    requires IsChunk(s, chunk) && DirectoryRights(s, DirFrame(s, chunk), 5)
    ensures var e := Space(s, chunk)[va / PAGE_SIZE];
      Reach(s, s[chunk / 4], va, true, write) ==
        if e % 2 == 1 && e / 4 % 2 == 1 && (write ==> e / 2 % 2 == 1)
        then Reached(Translate(Space(s, chunk), va)) else Fault
  {
    hide Reach, IsTree, Translate, Flat;
    ReachIs(s, chunk, va, true, write);
    assert HasRights(DirectoryEntry(s, DirFrame(s, chunk), va / 0x400000), 5);
  }

  /** A program reads every byte of its segments where the file put it, and can write it exactly if bit 1 of
      p_flags is set; it reads and writes its stack, and its allocations. */
  lemma ProgramReaches(s: seq<uint32>, chunk: uint32, va: uint32)
    requires IsChunk(s, chunk) && DirectoryRights(s, DirFrame(s, chunk), 5)
    ensures forall elf: uint32, ph :: SegmentByteOk(Space(s, chunk), elf, ph, va) ==>
      && Reach(s, s[chunk / 4], va, true, false) == Reached(Translate(Space(s, chunk), va))
      && Translate(Space(s, chunk), va) == elf + ph.offset + (va - ph.vaddr)
      && (Reach(s, s[chunk / 4], va, true, true) != Fault <==> ph.flags / 2 % 2 == 1)
    ensures forall stack: uint32 :: StackByteOk(Space(s, chunk), stack, va) ==>
      && Translate(Space(s, chunk), va) == stack + (va - 0x3FB000)
      && forall write :: Reach(s, s[chunk / 4], va, true, write) == Reached(Translate(Space(s, chunk), va))
    ensures GivenToUser(Space(s, chunk), va) ==>
      forall write :: Reach(s, s[chunk / 4], va, true, write) == Reached(va)
  {
    hide Reach, IsTree, Translate, Flat, DirectoryRights;
    TaskReaches(s, chunk, va, false);
    TaskReaches(s, chunk, va, true);
  }

  /** Pages without the present bit fault, for whomever: what process_free leaves of a mapping. */
  lemma UnmappedFaults(s: seq<uint32>, chunk: uint32, va: uint32, user: bool, write: bool)
    requires IsChunk(s, chunk) && Space(s, chunk)[va / PAGE_SIZE] % 2 == 0
    ensures Reach(s, s[chunk / 4], va, user, write) == Fault
  {
    hide Reach, IsTree, Translate, Flat;
    ReachIs(s, chunk, va, user, write);
  }

  /** The rights of the directory survive everything done to the entries of the tables. */
  lemma RemappedRights(s: seq<uint32>, s': seq<uint32>, chunk: uint32, flat: seq<uint32>, flags: uint32)
    requires IsChunk(s, chunk) && Remapped(s, s', chunk, flat) && DirectoryRights(s, DirFrame(s, chunk), flags)
    ensures DirectoryRights(s', DirFrame(s', chunk), flags)
  {
    hide IsTree, Flat, HasRights;
    RightsStay(s, s', DirFrame(s, chunk), flags);
  }

  // ---- the same, of the code ----

  /** What a process has that was started with the flags of task_init. */
  ghost predicate UserReady(k: Machine, p: Process)
    reads p, p.allocations, k, k.heap, k.heap.low, k.mem
  {
    p.Inv(k) && DirectoryRights(k.mem[..], DirFrame(k.mem[..], p.chunk), 5)
  }

  /** What a user access of the process to address v gives. */
  ghost function UserReach(k: Machine, p: Process, v: uint32, write: bool): Access
    requires UserReady(k, p)
    reads p, p.allocations, k, k.heap, k.heap.low, k.mem
  {
    Reach(k.mem[..], k.mem[p.chunk / 4], v, true, write)
  }

  /** The access goes through, to address a. */
  predicate Gets(r: Access, a: int) {
    r.Reached? && r.address == a
  }

  /** Task creation: a new address space with the flags PRESENT and ACCESS_FROM_ALL, and an empty table. The
      user can read all of it, and write nothing. */
  method StartTask(k: Machine) returns (p: Process?)
    requires k.Valid()
    modifies k.heap.low, k.heap`live, k.mem
    ensures p != null <==> FreeCount(old(k.heap.Table())) >= SPACE_BLOCKS
    ensures p != null ==> fresh(p) && fresh(p.allocations) && UserReady(k, p)
    ensures p != null ==> Space(k.mem[..], p.chunk) == Identity(5)
    ensures p != null ==> forall v: uint32 :: UserReach(k, p, v, false) == Reached(v) && UserReach(k, p, v, true) == Fault
  {
    hide FreeCount, Encodes, Flat, IsTree, Identity, OwnedBlocks, SpaceBlocks, OnlySpace, SlotsOk, SlotBlocks, SameAround, Reach,
      DirectoryRights, IsChunk;
    var chunk := New4GB(k, 5);
    if chunk == 0 {
      return null;
    }
    var allocations := new Allocation[MAX_ALLOCATIONS](_ => Allocation(0, 0));
    p := new Process(chunk, allocations);
    NewProcess(k, p);
    forall v: uint32 ensures UserReach(k, p, v, false) == Reached(v) && UserReach(k, p, v, true) == Fault {
      NewSpaceReaches(k.mem[..], p.chunk, 5, v, true, false);
      NewSpaceReaches(k.mem[..], p.chunk, 5, v, true, true);
    }
  }

  /** process_map_memory for an ELF with disjoint segments outside the stack: the program can read every byte
      of its segments, write those of the writable ones, and use its stack. */
  method MapElf(k: Machine, p: Process, elf: uint32, phs: seq<Phdr>, stack: uint32) returns (res: int)
    requires UserReady(k, p)
    requires stack % PAGE_SIZE == 0 && stack + STACK_SIZE <= 0xFFFFF000
    requires forall i :: 0 <= i < |phs| ==> Placed(elf, phs[i]) && phs[i].vaddr + phs[i].memsz <= U32
    requires forall i :: 0 <= i < |phs| && phs[i].memsz > 0 ==> phs[i].vaddr % PAGE_SIZE == (elf + phs[i].offset) % PAGE_SIZE
    requires forall i, q :: 0 <= i < |phs| && Covers(elf, phs[i], q) ==> !InStack(q)
    requires forall i, j, q :: 0 <= i < j < |phs| && Covers(elf, phs[i], q) ==> !Covers(elf, phs[j], q)
    modifies k.mem
    ensures UserReady(k, p) && res == 0
    ensures forall i, v :: 0 <= i < |phs| && phs[i].vaddr <= v < phs[i].vaddr + phs[i].memsz ==>
      && Gets(UserReach(k, p, v, false), elf + phs[i].offset + (v - phs[i].vaddr))
      && (UserReach(k, p, v, true) != Fault <==> phs[i].flags / 2 % 2 == 1)
    ensures forall v, write :: 0x3FB000 <= v < 0x3FF000 ==> Gets(UserReach(k, p, v, write), stack + (v - 0x3FB000))
  {
    hide Encodes, Flat, IsTree, OwnedBlocks, SpaceBlocks, SlotsOk, SlotBlocks, Reach, DirectoryRights, IsChunk, SegmentByteOk,
      StackByteOk, MapMemory, Covers, Placed, InStack, Translate, SameTables;
    ghost var s := k.mem[..];
    MappedProgram(Space(s, p.chunk), elf, phs, stack);
    res := MapImage(k, p, Elf(elf, phs), stack);
    RightsStay(s, k.mem[..], DirFrame(s, p.chunk), 5);
    forall i, v | 0 <= i < |phs| && phs[i].vaddr <= v < phs[i].vaddr + phs[i].memsz
      ensures Gets(UserReach(k, p, v, false), elf + phs[i].offset + (v - phs[i].vaddr))
      ensures UserReach(k, p, v, true) != Fault <==> phs[i].flags / 2 % 2 == 1
    {
      assert SegmentByteOk(Space(k.mem[..], p.chunk), elf, phs[i], v);
      ProgramReaches(k.mem[..], p.chunk, v);
    }
    forall v, write | 0x3FB000 <= v < 0x3FF000 ensures Gets(UserReach(k, p, v, write), stack + (v - 0x3FB000)) {
      assert StackByteOk(Space(k.mem[..], p.chunk), stack, v);
      ProgramReaches(k.mem[..], p.chunk, v);
    }
  }

  /** process_malloc, for the program: it can read and write every byte it asked for, where it lies. */
  method AllocateForUser(k: Machine, p: Process, size: uint32) returns (ptr: uint32)
    requires UserReady(k, p) && 1 <= size <= U32 - (k.heap.saddr + k.heap.total * Heap.BLOCK_SIZE)
    modifies k.heap.low, k.heap`live, k.mem, p.allocations
    ensures ptr != 0 ==> UserReady(k, p)
    ensures ptr != 0 ==> forall v, write :: ptr <= v < ptr + size <= U32 ==> UserReach(k, p, v, write) == Reached(v)
  {
    hide Encodes, Flat, IsTree, OwnedBlocks, SpaceBlocks, SlotsOk, SlotBlocks, Reach, DirectoryRights, IsChunk, GivenToUser,
      Heap.BlockCount, RunsKeep, SameTables, OnlyRunAndTables, HeapAnswer, ScanAnswer, PageTables.MapTo, FirstWith, EndOf, SameBelow;
    ghost var s := k.mem[..];
    ptr := ProcessMalloc(k, p, size);
    if ptr != 0 {
      RightsStay(s, k.mem[..], DirFrame(s, p.chunk), 5);
      forall v, write | ptr <= v < ptr + size <= U32 ensures UserReach(k, p, v, write) == Reached(v) {
        ProgramReaches(k.mem[..], p.chunk, v);
      }
    }
  }
}
