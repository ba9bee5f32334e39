/** process_inject_arguments: the argument list of a command becomes argc and argv in the memory
    of the process. */
module InjectArguments {
  import opened Status
  import opened Bits
  import opened Memory
  import opened HeapTable
  import opened PageTables
  import opened Paging
  import opened Kernel
  import opened AddressSpace
  import opened ProcessMemory
  import opened CommandLine
  import opened ParseCommand
  import CopyString
  import Heap

  predicate IsByteString(t: string) {
    forall i :: 0 <= i < |t| ==> (t[i] as int) < 256
  }

  /** The byte i places after a is character i of t. */
  predicate CharIs(s: seq<uint32>, a: uint32, t: string, i: nat)
    requires |s| == WORDS && a + i < U32 && i < |t|
  {
    CopyString.ByteAfter(s, a, i) == t[i] as int
  }

  /** Memory at physical address a holds the string t and its NUL. */
  ghost predicate StringAt(s: seq<uint32>, a: uint32, t: string) {
    && |s| == WORDS && a + |t| < U32
    && (forall i :: 0 <= i < |t| ==> CharIs(s, a, t, i))
    && CopyString.ByteAfter(s, a, |t|) == 0
  }

  lemma StringKeeps(s: seq<uint32>, s': seq<uint32>, a: uint32, t: string)
    requires StringAt(s, a, t) && a % PAGE_SIZE == 0 && |t| < PAGE_SIZE && SameRun(s, s', a / PAGE_SIZE, 1)
    ensures StringAt(s', a, t)
  {
    forall i | 0 <= i <= |t| ensures CopyString.ByteAfter(s', a, i) == CopyString.ByteAfter(s, a, i) {
      assert (a + i) / 4 / ENTRIES == a / PAGE_SIZE;
    }
    forall i | 0 <= i < |t| ensures CharIs(s', a, t, i) {
      assert CharIs(s, a, t, i);
    }
  }

  /** strncpy of a kernel string to a fresh page. */
  method StoreString(k: Machine, dest: uint32, src: array<char>, n: nat)
    requires k.Valid() && dest % PAGE_SIZE == 0 && 1 <= n <= PAGE_SIZE && dest + n <= U32
    requires Terminated(src[..], 0) && IsByteString(Text(src[..], 0)) && src as object != k.mem as object
    modifies k.mem
    ensures k.Valid() && OnlyFrames(old(k.mem[..]), k.mem[..], dest / PAGE_SIZE, 1)
    ensures StringAt(k.mem[..], dest, Cut(Text(src[..], 0), n - 1))
  {
    hide Encodes, Text, CopyString.ByteAfter, OnlyFrames, WriteByte;
    ghost var s := k.mem[..];
    ghost var t := Text(src[..], 0);
    ghost var c := src[..];
    TextIs(c, 0);
    Unchanged(s, 0, dest / PAGE_SIZE, 1);
    var i := 0;
    while i < n - 1
      invariant 0 <= i <= n - 1 && i <= |t| && src[..] == c
      invariant k.Valid() && OnlyFrames(s, k.mem[..], dest / PAGE_SIZE, 1)
      invariant forall j :: 0 <= j < i ==> CharIs(k.mem[..], dest, t, j)
    {
      if src[i] == NUL {
        break;
      }
      ghost var m := k.mem[..];
      assert src[i] == t[i];
      CopyString.StoreByte(k, dest + i, src[i] as int);
      StoredAt(s, m, k.mem[..], dest, i, src[i] as int);
      forall j | 0 <= j < i ensures CharIs(k.mem[..], dest, t, j) {
        assert CharIs(m, dest, t, j);
        assert CopyString.ByteAfter(k.mem[..], dest, j) == CopyString.ByteAfter(m, dest, j);
      }
      i := i + 1;
    }
    ghost var m := k.mem[..];
    CopyString.StoreByte(k, dest + i, 0);
    StoredAt(s, m, k.mem[..], dest, i, 0);
    ghost var cut := t[..i];
    assert Cut(t, n - 1) == cut && |cut| == i;
    assert CopyString.ByteAfter(k.mem[..], dest, i) == 0;
    forall j | 0 <= j < i ensures CharIs(k.mem[..], dest, cut, j) {
      assert CharIs(m, dest, t, j);
      assert CopyString.ByteAfter(k.mem[..], dest, j) == CopyString.ByteAfter(m, dest, j);
    }
  }

  /** One more byte in the page at dest. */
  lemma StoredAt(s: seq<uint32>, m: seq<uint32>, m': seq<uint32>, dest: uint32, i: nat, b: byte)
    requires |m| == WORDS && OnlyFrames(s, m, dest / PAGE_SIZE, 1) && dest % PAGE_SIZE == 0 && i < PAGE_SIZE
    requires m' == WriteByte(m, dest + i, b)
    ensures OnlyFrames(s, m', dest / PAGE_SIZE, 1)
    ensures CopyString.ByteAfter(m', dest, i) == b
    ensures forall j :: 0 <= j < PAGE_SIZE ==>
      CopyString.ByteAfter(m', dest, j) == if j == i then b else CopyString.ByteAfter(m, dest, j)
  {
    hide SetByte;
    assert (dest + i) / 4 / ENTRIES == dest / PAGE_SIZE;
    CopyString.BytesAfterWrite(m, dest + i, b);
  }

  /** A recorded allocation is a live run. */
  lemma SlotIsRun(slots: seq<Allocation>, m: Runs, saddr: uint32, total: nat, a: Allocation)
    requires SlotsOk(slots, m, saddr, total) && a in slots && a.ptr != 0 && saddr > 0
    ensures var b := BlockNo(saddr, a.ptr);
      && b in m && m[b] == Heap.BlockCount(a.size) >= 1 && b < total
      && a.ptr / PAGE_SIZE == saddr / PAGE_SIZE + b && a.ptr % PAGE_SIZE == 0
      && b in SlotBlocks(slots, saddr)
  {
    hide Heap.BlockCount;
    var j :| 0 <= j < |slots| && slots[j] == a;
    assert SlotOk(slots[j], m, saddr, total);
    assert BlockNo(saddr, slots[j].ptr) in SlotBlocks(slots, saddr);
  }

  lemma TreeApart(k: Machine, p: Process, a: Allocation)
    requires p.Inv(k) && a in p.allocations[..] && a.ptr != 0
    ensures forall f: nat :: a.ptr / PAGE_SIZE <= f < a.ptr / PAGE_SIZE + Heap.BlockCount(a.size) ==>
      CopyString.OutsideTree(k.mem[..], p.chunk, f)
  {
    hide Heap.BlockCount, Encodes, IsChunk, SlotsOk, SlotBlocks, SpaceBlocks, OwnedBlocks;
    SlotIsRun(p.allocations[..], k.heap.live, k.heap.saddr, k.heap.total, a);
    var b, pool: nat := BlockNo(k.heap.saddr, a.ptr), k.heap.saddr / PAGE_SIZE;
    forall f: nat | a.ptr / PAGE_SIZE <= f < a.ptr / PAGE_SIZE + Heap.BlockCount(a.size)
      ensures CopyString.OutsideTree(k.mem[..], p.chunk, f)
    {
      TreeOutside(k.heap.Table(), k.heap.live, k.mem[..], p.chunk, pool, b, f);
    }
  }

  lemma TreeOutside(t: seq<Entry>, m: Runs, s: seq<uint32>, chunk: uint32, pool: nat, b: nat, f: nat)
    requires |s| == WORDS && Encodes(t, m) && OwnedBlocks(m, |t|, s, chunk, pool)
    requires b in m && b !in SpaceBlocks(s, chunk, pool) && pool + b <= f < pool + b + m[b]
    ensures CopyString.OutsideTree(s, chunk, f)
  {
    hide Encodes;
    var df := DirFrame(s, chunk);
    OwnedApartFrom(t, m, chunk / PAGE_SIZE, pool, b, f);
    OwnedApartFrom(t, m, df, pool, b, f);
    forall i | 0 <= i < ENTRIES ensures TableFrame(s, df, i) != f {
      assert Owned(m, |t|, TableFrame(s, df, i), pool);
      assert BlockOf(TableFrame(s, df, i), pool) in TableBlocks(s, df, pool, ENTRIES);
      OwnedApartFrom(t, m, TableFrame(s, df, i), pool, b, f);
    }
  }

  lemma OwnedApartFrom(t: seq<Entry>, m: Runs, g: nat, pool: nat, b: nat, f: nat)
    requires Encodes(t, m) && Owned(m, |t|, g, pool) && b in m && b != BlockOf(g, pool)
    requires pool + b <= f < pool + b + m[b]
    ensures f != g
  {
    hide Encodes;
    RunsApart(t, m, b, g - pool);
  }

  /** A recorded allocation keeps its contents while another run is allocated and mapped. */
  lemma AllocationKeeps(k: Machine, p: Process, a: Allocation, s: seq<uint32>, c: Allocation)
    requires p.Inv(k) && a in p.allocations[..] && a.ptr != 0 && c in p.allocations[..] && c.ptr != 0 && a.ptr != c.ptr
    requires |s| == WORDS && DirFrame(k.mem[..], p.chunk) == DirFrame(s, p.chunk)
    requires SameTables(s, k.mem[..], DirFrame(s, p.chunk))
    requires OnlyRunAndTables(s, k.mem[..], DirFrame(s, p.chunk), c.ptr / PAGE_SIZE, Heap.BlockCount(c.size))
    ensures SameRun(s, k.mem[..], a.ptr / PAGE_SIZE, Heap.BlockCount(a.size))
  {
    hide Heap.BlockCount, Encodes, IsChunk, SlotsOk, SlotBlocks, SpaceBlocks, OwnedBlocks;
    SlotIsRun(p.allocations[..], k.heap.live, k.heap.saddr, k.heap.total, a);
    SlotIsRun(p.allocations[..], k.heap.live, k.heap.saddr, k.heap.total, c);
    TreeApart(k, p, a);
    RunsApart(k.heap.Table(), k.heap.live, BlockNo(k.heap.saddr, a.ptr), BlockNo(k.heap.saddr, c.ptr));
    var df := DirFrame(s, p.chunk);
    forall w | 0 <= w < WORDS && a.ptr / PAGE_SIZE <= w / ENTRIES < a.ptr / PAGE_SIZE + Heap.BlockCount(a.size)
      ensures k.mem[..][w] == s[w]
    {
      assert CopyString.OutsideTree(k.mem[..], p.chunk, w / ENTRIES);
      forall i | 0 <= i < ENTRIES ensures TableFrame(s, df, i) != w / ENTRIES {
        assert TableFrame(k.mem[..], df, i) == TableFrame(s, df, i);
      }
    }
  }

  /** Writing into one's own allocation disturbs neither the page tables nor the other allocations. */
  lemma OwnWrite(k: Machine, p: Process, a: Allocation, s: seq<uint32>)
    requires k.Valid() && |s| == WORDS && a.ptr != 0 && a in p.allocations[..] && p.allocations.Length == MAX_ALLOCATIONS
    requires IsChunk(s, p.chunk) && OwnedBlocks(k.heap.live, k.heap.total, s, p.chunk, k.heap.saddr / PAGE_SIZE)
    requires SlotsOk(p.allocations[..], k.heap.live, k.heap.saddr, k.heap.total)
    requires p.allocations as object != k.heap.low as object && p.allocations as object != k.mem as object
    requires SlotBlocks(p.allocations[..], k.heap.saddr) !! SpaceBlocks(s, p.chunk, k.heap.saddr / PAGE_SIZE)
    requires OnlyFrames(s, k.mem[..], a.ptr / PAGE_SIZE, Heap.BlockCount(a.size))
    ensures p.Inv(k) && DirFrame(k.mem[..], p.chunk) == DirFrame(s, p.chunk)
    ensures SameTables(s, k.mem[..], DirFrame(s, p.chunk)) && Space(k.mem[..], p.chunk) == Space(s, p.chunk)
    ensures forall c :: c in p.allocations[..] && c.ptr != 0 && c.ptr != a.ptr ==>
      SameRun(s, k.mem[..], c.ptr / PAGE_SIZE, Heap.BlockCount(c.size))
  {
    hide Heap.BlockCount, Encodes, IsTree, SlotsOk, SlotBlocks, SpaceBlocks, OwnedBlocks, Flat, CopyString.OutsideTree;
    var slots, m, pool: nat := p.allocations[..], k.heap.live, k.heap.saddr / PAGE_SIZE;
    SlotIsRun(slots, m, k.heap.saddr, k.heap.total, a);
    var b := BlockNo(k.heap.saddr, a.ptr);
    forall w | 0 <= w < WORDS && !CopyString.OutsideTree(s, p.chunk, w / ENTRIES) ensures k.mem[..][w] == s[w] {
      if a.ptr / PAGE_SIZE <= w / ENTRIES < a.ptr / PAGE_SIZE + Heap.BlockCount(a.size) {
        TreeOutside(k.heap.Table(), m, s, p.chunk, pool, b, w / ENTRIES);
        assert false;
      }
    }
    CopyString.TreeUntouched(s, k.mem[..], p.chunk);
    OwnedSame(m, k.heap.total, s, k.mem[..], p.chunk, pool);
    forall c | c in slots && c.ptr != 0 && c.ptr != a.ptr
      ensures SameRun(s, k.mem[..], c.ptr / PAGE_SIZE, Heap.BlockCount(c.size))
    {
      SlotIsRun(slots, m, k.heap.saddr, k.heap.total, c);
      RunsApart(k.heap.Table(), m, b, BlockNo(k.heap.saddr, c.ptr));
    }
  }

  /** Entry i of argv points at a buffer that holds t. */
  ghost predicate ArgAt(s: seq<uint32>, argv: uint32, ptrs: seq<uint32>, i: nat, t: string) {
    && |s| == WORDS && i < |ptrs| && argv / 4 + i < WORDS
    && s[argv / 4 + i] == ptrs[i] && StringAt(s, ptrs[i], t)
  }

  /** The first |ptrs| arguments are in place, each in an allocation of its own. */
  ghost predicate Placed(slots: seq<Allocation>, s: seq<uint32>, argv: uint32, argc: nat, ptrs: seq<uint32>, w: seq<string>) {
    && argv != 0 && 0 < 4 * argc < U32 && Allocation(argv, 4 * argc) in slots && |ptrs| == |w| <= argc
    && forall i :: 0 <= i < |ptrs| ==>
      && ptrs[i] != 0 && ptrs[i] != argv && ptrs[i] % PAGE_SIZE == 0 && |w[i]| < ARGUMENT_SIZE
      && Allocation(ptrs[i], ARGUMENT_SIZE) in slots && ArgAt(s, argv, ptrs, i, w[i])
  }

  /** What a reader of memory finds: the four bytes at argv + 4 * i are, low byte first, the address of a
      string, whose bytes are those of argument i, with a 0 behind them. */
  lemma ArgvReads(slots: seq<Allocation>, s: seq<uint32>, argv: uint32, ptrs: seq<uint32>, w: seq<string>, i: nat)
    requires |s| == WORDS && argv % PAGE_SIZE == 0 && argv + 4 * |w| <= 0xFFFFF000 && i < |w|
    requires Placed(slots, s, argv, |w|, ptrs, w)
    ensures var p := ReadByte(s, argv + 4 * i) + 0x100 * ReadByte(s, argv + 4 * i + 1)
                   + 0x10000 * ReadByte(s, argv + 4 * i + 2) + 0x1000000 * ReadByte(s, argv + 4 * i + 3);
      && p + |w[i]| < U32 && ReadByte(s, p + |w[i]|) == 0
      && forall j :: 0 <= j < |w[i]| ==> ReadByte(s, p + j) == w[i][j] as int
  {
    hide ByteOf, ReadByte;
    assert ArgAt(s, argv, ptrs, i, w[i]);
    LittleEndian(s, argv / 4 + i);
    assert 4 * (argv / 4 + i) == argv + 4 * i;
    forall j | 0 <= j < |w[i]| ensures ReadByte(s, ptrs[i] + j) == w[i][j] as int {
      assert CharIs(s, ptrs[i], w[i], j);
    }
  }

  lemma ArgvWord(argv: uint32, argc: nat, i: nat)
    requires i < argc && argv % PAGE_SIZE == 0 && 4 * argc <= 0xFFFFF000
    ensures argv / PAGE_SIZE <= (argv / 4 + i) / ENTRIES < argv / PAGE_SIZE + Heap.BlockCount(4 * argc)
  {
    Heap.BlockCountIs(4 * argc);
  }

  /** Arguments in place stay in place while their allocations and argv's keep their words. */
  lemma PlacedKeeps(slots: seq<Allocation>, s: seq<uint32>, slots': seq<Allocation>, s': seq<uint32>,
                    argv: uint32, argc: nat, ptrs: seq<uint32>, w: seq<string>)
    requires Placed(slots, s, argv, argc, ptrs, w) && |s'| == WORDS && 4 * argc <= 0xFFFFF000 && argv % PAGE_SIZE == 0
    requires forall c :: c in slots && c.ptr != 0 ==> c in slots' && SameRun(s, s', c.ptr / PAGE_SIZE, Heap.BlockCount(c.size))
    ensures Placed(slots', s', argv, argc, ptrs, w)
  {
    hide Heap.BlockCount, StringAt;
    Heap.BlockCountIs(ARGUMENT_SIZE);
    assert Allocation(argv, 4 * argc) in slots;
    forall i | 0 <= i < |ptrs| ensures Allocation(ptrs[i], ARGUMENT_SIZE) in slots' && ArgAt(s', argv, ptrs, i, w[i]) {
      assert ArgAt(s, argv, ptrs, i, w[i]);
      ArgvWord(argv, argc, i);
      assert Allocation(ptrs[i], ARGUMENT_SIZE) in slots;
      StringKeeps(s, s', ptrs[i], w[i]);
    }
  }

  /** Filling in argv[i] after its string is in place. */
  lemma PlacedNext(slots: seq<Allocation>, s: seq<uint32>, s': seq<uint32>, argv: uint32, argc: nat,
                   ptrs: seq<uint32>, w: seq<string>, ptr: uint32, t: string)
    requires Placed(slots, s, argv, argc, ptrs, w) && |ptrs| < argc && 4 * argc <= 0xFFFFF000 && argv % PAGE_SIZE == 0
    requires |s| == WORDS && argv / 4 + |ptrs| < WORDS && s' == s[argv / 4 + |ptrs| := ptr]
    requires ptr != 0 && ptr != argv && ptr % PAGE_SIZE == 0 && Allocation(ptr, ARGUMENT_SIZE) in slots
    requires StringAt(s, ptr, t) && |t| < ARGUMENT_SIZE
    requires forall c :: c in slots && c.ptr != 0 && c.ptr != argv ==> SameRun(s, s', c.ptr / PAGE_SIZE, Heap.BlockCount(c.size))
    ensures Placed(slots, s', argv, argc, ptrs + [ptr], w + [t])
  {
    hide Heap.BlockCount, StringAt;
    Heap.BlockCountIs(ARGUMENT_SIZE);
    var more, v := ptrs + [ptr], w + [t];
    forall i | 0 <= i < |more|
      ensures more[i] != 0 && more[i] != argv && more[i] % PAGE_SIZE == 0 && |v[i]| < ARGUMENT_SIZE
      ensures Allocation(more[i], ARGUMENT_SIZE) in slots && ArgAt(s', argv, more, i, v[i])
    {
      if i < |ptrs| {
        assert ArgAt(s, argv, ptrs, i, w[i]);
        assert Allocation(ptrs[i], ARGUMENT_SIZE) in slots;
      } else {
        assert Allocation(ptr, ARGUMENT_SIZE) in slots;
      }
      StringKeeps(s, s', more[i], v[i]);
    }
  }

  /** The size bound of process_malloc, for everything this function asks for. */
  ghost predicate RoomFor(k: Machine, argc: nat)
    reads k, k.heap
  {
    && 4 * argc <= U32 - (k.heap.saddr + k.heap.total * Heap.BLOCK_SIZE)
    && ARGUMENT_SIZE <= U32 - (k.heap.saddr + k.heap.total * Heap.BLOCK_SIZE)
    && 4 * argc <= 0xFFFFF000
  }

  /** No allocation of `size` bytes can be recorded: the table is full, or no run of the pool is long enough. */
  ghost predicate NoRoom(slots: seq<Allocation>, t: seq<Entry>, size: uint32) {
    var n := Heap.BlockCount(size);
    || FirstWith(slots, 0) == -1
    || ScanAnswer(t, n, -ENOMEM)
    || exists b: nat :: ScanAnswer(t, n, b) && b + n > |t|
  }

  /** The buffer of a list node, apart from the memory the kernel works on. */
  ghost predicate GoodBuffer(k: Machine, p: Process, b: array<char>)
    reads k, k.heap, p, b
  {
    && b as object !in {k.mem as object, k.heap.low as object, p.allocations as object}
    && b.Length == ARGUMENT_SIZE && Terminated(b[..], 0) && IsByteString(Text(b[..], 0))
  }

  lemma NewSlot(slots: seq<Allocation>, slots': seq<Allocation>, m: Runs, saddr: uint32, total: nat, index: nat, a: Allocation)
    requires SlotsOk(slots, m, saddr, total) && index < |slots| && slots[index].ptr == 0 && slots' == slots[index := a] && a.ptr != 0
    requires BlockNo(saddr, a.ptr) !in m && saddr > 0
    ensures a in slots'
    ensures forall c :: c in slots && c.ptr != 0 ==> c in slots' && c.ptr != a.ptr
  {
    hide Heap.BlockCount, SlotsOk;
    assert slots'[index] == a;
    forall c | c in slots && c.ptr != 0 ensures c in slots' && c.ptr != a.ptr {
      var j :| 0 <= j < |slots| && slots[j] == c;
      assert slots'[j] == c;
      SlotIsRun(slots, m, saddr, total, c);
    }
  }

  /** Allocating on behalf of the process keeps every recorded allocation and its contents. */
  method AllocateBeside(k: Machine, p: Process, size: uint32) returns (ptr: uint32)
    requires p.Inv(k) && 1 <= size <= U32 - (k.heap.saddr + k.heap.total * Heap.BLOCK_SIZE) && size <= 0xFFFFF000
    modifies k.heap.low, k.heap`live, k.mem, p.allocations
    ensures p.Inv(k)
    ensures p.Others(k) == old(p.Others(k))
    ensures ptr == 0 ==> NoRoom(p.allocations[..], k.heap.Table(), size)
    ensures ptr != 0 ==> Allocation(ptr, size) in p.allocations[..]
    ensures ptr != 0 ==> forall c :: c in old(p.allocations[..]) && c.ptr != 0 ==>
      c in p.allocations[..] && c.ptr != ptr && SameRun(old(k.mem[..]), k.mem[..], c.ptr / PAGE_SIZE, Heap.BlockCount(c.size))
  {
    hide Heap.BlockCount, Encodes, IsChunk, SlotsOk, SlotBlocks, SpaceBlocks, OwnedBlocks, Flat, ScanAnswer, FirstWith, EndOf,
      PageTables.MapTo, OnlyRunAndTables, SameTables, SameBelow, BlockNo;
    Heap.BlockCountIs(size);
    ghost var slots, s, m := p.allocations[..], k.mem[..], k.heap.live;
    ptr := ProcessMalloc(k, p, size);
    if ptr != 0 {
      ghost var a := Allocation(ptr, size);
      NewSlot(slots, p.allocations[..], m, k.heap.saddr, k.heap.total, FirstWith(slots, 0), a);
      forall c | c in slots && c.ptr != 0 ensures SameRun(s, k.mem[..], c.ptr / PAGE_SIZE, Heap.BlockCount(c.size)) {
        AllocationKeeps(k, p, c, s, a);
      }
    }
  }

  /** One pass of the loop of process_inject_arguments. */
  method InjectOne(k: Machine, p: Process, argument: array<char>, argv: uint32, argc: nat, i: nat, ghost ptrs: seq<uint32>, ghost w: seq<string>)
    returns (ptr: uint32)
    requires p.Inv(k) && RoomFor(k, argc) && GoodBuffer(k, p, argument)
    requires Placed(p.allocations[..], k.mem[..], argv, argc, ptrs, w) && |ptrs| == i < argc
    modifies k.heap.low, k.heap`live, k.mem, p.allocations
    ensures p.Inv(k) && p.Others(k) == old(p.Others(k))
    ensures ptr == 0 ==> NoRoom(p.allocations[..], k.heap.Table(), ARGUMENT_SIZE)
    ensures ptr != 0 ==> Placed(p.allocations[..], k.mem[..], argv, argc, ptrs + [ptr], w + [Text(argument[..], 0)])
  {
    hide Heap.BlockCount, Encodes, IsChunk, SlotsOk, SlotBlocks, SpaceBlocks, OwnedBlocks, Flat, SameTables, Text,
      OnlyFrames, StringAt, ArgAt, Placed, SameRun, SlotOk;
    Heap.BlockCountIs(ARGUMENT_SIZE);
    ghost var slots, t := p.allocations[..], Text(argument[..], 0);
    ghost var s0 := k.mem[..];
    ArgvOk(k, p, argv, argc, ptrs, w);
    ptr := AllocateBeside(k, p, ARGUMENT_SIZE);
    if ptr == 0 {
      return 0;
    }
    ghost var a, s1, slots1 := Allocation(ptr, ARGUMENT_SIZE), k.mem[..], p.allocations[..];
    PlacedKeeps(slots, s0, slots1, s1, argv, argc, ptrs, w);
    SlotIsRun(slots1, k.heap.live, k.heap.saddr, k.heap.total, a);
    SlotInPool(slots1, k.heap.live, k.heap.saddr, k.heap.total, a);
    TextShort(argument[..], 0);
    StoreString(k, ptr, argument, ARGUMENT_SIZE);
    ghost var s2 := k.mem[..];
    OwnWrite(k, p, a, s1);
    StringsSurvive(slots1, s1, s2, argv, argc, ptrs, w, ptr);
    ArgvOk(k, p, argv, argc, ptrs, w);
    ArgvWord(argv, argc, i);
    k.mem[argv / 4 + i] := ptr;
    OneWord(s2, argv, argc, i, ptr);
    OwnWrite(k, p, Allocation(argv, 4 * argc), s2);
    PlacedNext(slots1, s2, k.mem[..], argv, argc, ptrs, w, ptr, t);
  }

  lemma OneWord(s: seq<uint32>, argv: uint32, argc: nat, i: nat, v: uint32)
    requires |s| == WORDS && i < argc && argv % PAGE_SIZE == 0 && 4 * argc <= 0xFFFFF000 && argv / 4 + i < WORDS
    ensures OnlyFrames(s, s[argv / 4 + i := v], argv / PAGE_SIZE, Heap.BlockCount(4 * argc))
  {
    hide Heap.BlockCount;
    ArgvWord(argv, argc, i);
  }

  lemma TextShort(s: seq<char>, p: nat)
    requires Terminated(s, p)
    ensures |Text(s, p)| < |s|
    ensures |s| == ARGUMENT_SIZE ==> Cut(Text(s, p), ARGUMENT_SIZE - 1) == Text(s, p)
  {
    hide Text;
  }

  lemma SlotInPool(slots: seq<Allocation>, m: Runs, saddr: uint32, total: nat, a: Allocation)
    requires SlotsOk(slots, m, saddr, total) && a in slots && a.ptr != 0 && saddr > 0 && saddr + total * Heap.BLOCK_SIZE < U32
    ensures a.ptr + Heap.BLOCK_SIZE <= saddr + total * Heap.BLOCK_SIZE
  {
    hide Heap.BlockCount;
    SlotIsRun(slots, m, saddr, total, a);
  }

  /** Writing the new string leaves argv and the earlier strings alone. */
  lemma StringsSurvive(slots: seq<Allocation>, s: seq<uint32>, s': seq<uint32>, argv: uint32, argc: nat,
                       ptrs: seq<uint32>, w: seq<string>, ptr: uint32)
    requires Placed(slots, s, argv, argc, ptrs, w) && |s'| == WORDS && 4 * argc <= 0xFFFFF000 && argv % PAGE_SIZE == 0
    requires ptr != argv && ptr !in ptrs
    requires forall c :: c in slots && c.ptr != 0 && c.ptr != ptr ==> SameRun(s, s', c.ptr / PAGE_SIZE, Heap.BlockCount(c.size))
    ensures Placed(slots, s', argv, argc, ptrs, w)
  {
    hide Heap.BlockCount, StringAt;
    Heap.BlockCountIs(ARGUMENT_SIZE);
    assert Allocation(argv, 4 * argc) in slots;
    forall i | 0 <= i < |ptrs| ensures Allocation(ptrs[i], ARGUMENT_SIZE) in slots && ArgAt(s', argv, ptrs, i, w[i]) {
      assert ArgAt(s, argv, ptrs, i, w[i]);
      ArgvWord(argv, argc, i);
      assert Allocation(ptrs[i], ARGUMENT_SIZE) in slots && ptrs[i] in ptrs;
      StringKeeps(s, s', ptrs[i], w[i]);
    }
  }

  /** argv is a recorded allocation with room for argc words. */
  lemma ArgvOk(k: Machine, p: Process, argv: uint32, argc: nat, ptrs: seq<uint32>, w: seq<string>)
    requires p.Inv(k) && RoomFor(k, argc) && Placed(p.allocations[..], k.mem[..], argv, argc, ptrs, w)
    ensures argv != 0 && 0 < argc && Allocation(argv, 4 * argc) in p.allocations[..] && argv % PAGE_SIZE == 0
    ensures forall i :: 0 <= i < |ptrs| ==> Allocation(ptrs[i], ARGUMENT_SIZE) in p.allocations[..] && ptrs[i] != 0
    ensures argv / 4 + argc <= WORDS
  {
    hide Heap.BlockCount, Encodes, IsChunk, SlotsOk, SlotBlocks, SpaceBlocks, OwnedBlocks, StringAt;
    SlotIsRun(p.allocations[..], k.heap.live, k.heap.saddr, k.heap.total, Allocation(argv, 4 * argc));
    SlotInPool(p.allocations[..], k.heap.live, k.heap.saddr, k.heap.total, Allocation(argv, 4 * argc));
  }

  /** process_count_command_arguments */
  method CountArguments(root: Argument?, ghost nodes: seq<Argument>) returns (count: nat)
    requires IsList(root, nodes)
    ensures count == |nodes|
  {
    count := 0;
    var current := root;
    while current != null
      invariant count <= |nodes| && current == if count < |nodes| then nodes[count] else null
      decreases |nodes| - count
    {
      count := count + 1;
      assert nodes[count - 1].next == if count < |nodes| then nodes[count] else null;
      current := current.next;
    }
  }

  /** The strings a list of arguments holds. */
  ghost function Strings(nodes: seq<Argument>): (w: seq<string>)
    reads Arrays(nodes)
    ensures |w| == |nodes|
  {
    seq(|nodes|, i requires 0 <= i < |nodes| reads Arrays(nodes) => Text(nodes[i].argument[..], 0))
  }

  lemma NonePlaced(slots: seq<Allocation>, s: seq<uint32>, argv: uint32, argc: nat)
    requires argv != 0 && 0 < 4 * argc < U32 && Allocation(argv, 4 * argc) in slots
    ensures Placed(slots, s, argv, argc, [], [])
  {
  }

  /** The loop of process_inject_arguments. */
  method InjectAll(k: Machine, p: Process, root: Argument?, ghost nodes: seq<Argument>, argv: uint32, argc: nat)
    returns (ok: bool, ghost ptrs: seq<uint32>)
    requires p.Inv(k) && RoomFor(k, argc) && IsList(root, nodes) && argc == |nodes|
    requires forall i :: 0 <= i < |nodes| ==> GoodBuffer(k, p, nodes[i].argument)
    requires Placed(p.allocations[..], k.mem[..], argv, argc, [], [])
    modifies k.heap.low, k.heap`live, k.mem, p.allocations
    ensures p.Inv(k) && p.Others(k) == old(p.Others(k))
    ensures !ok ==> NoRoom(p.allocations[..], k.heap.Table(), ARGUMENT_SIZE)
    ensures ok ==> Placed(p.allocations[..], k.mem[..], argv, argc, ptrs, old(Strings(nodes)))
  {
    hide Heap.BlockCount, Encodes, IsChunk, SlotsOk, SlotBlocks, SpaceBlocks, OwnedBlocks, Flat, Text, StringAt, Placed, SlotOk, SameRun, NoRoom;
    ghost var w := Strings(nodes);
    ptrs := [];
    var current := root;
    var i := 0;
    assert w[..0] == [];
    while current != null
      invariant 0 <= i <= argc && |ptrs| == i && current == if i < |nodes| then nodes[i] else null
      invariant p.Inv(k) && RoomFor(k, argc) && p.Others(k) == old(p.Others(k))
      invariant forall j :: 0 <= j < |nodes| ==> GoodBuffer(k, p, nodes[j].argument)
      invariant Strings(nodes) == w
      invariant forall j {:trigger nodes[j].next} :: 0 <= j < |nodes| ==> nodes[j].next == old(nodes[j].next)
      invariant Placed(p.allocations[..], k.mem[..], argv, argc, ptrs, w[..i])
      decreases argc - i
    {
      assert GoodBuffer(k, p, nodes[i].argument);
      assert w[i] == Text(nodes[i].argument[..], 0);
      assert w[..i + 1] == w[..i] + [w[i]];
      assert nodes[i].next == if i + 1 < |nodes| then nodes[i + 1] else null;
      var argument := InjectOne(k, p, current.argument, argv, argc, i, ptrs, w[..i]);
      if argument == 0 {
        return false, ptrs;
      }
      ptrs := ptrs + [argument];
      current := current.next;
      i := i + 1;
    }
    assert w[..i] == w;
    return true, ptrs;
  }

  lemma PlacedCount(slots: seq<Allocation>, s: seq<uint32>, argv: uint32, argc: nat, ptrs: seq<uint32>, w: seq<string>)
    requires Placed(slots, s, argv, argc, ptrs, w)
    ensures |ptrs| == |w|
  {
  }

  /** process_inject_arguments: on success argc is the number of arguments and argv[i] points at a copy
      of the i-th; on failure argc and argv are left alone. */
  method Inject(k: Machine, p: Process, root: Argument?, ghost nodes: seq<Argument>)
    returns (res: int, ghost ptrs: seq<uint32>)
    requires p.Inv(k) && RoomFor(k, |nodes|) && IsList(root, nodes)
    requires forall i :: 0 <= i < |nodes| ==> GoodBuffer(k, p, nodes[i].argument)
    modifies k.heap.low, k.heap`live, k.mem, p.allocations, p`argc, p`argv
    ensures p.Inv(k) && res in {0, -EIO, -ENOMEM} && p.Others(k) == old(p.Others(k))
    ensures res == -EIO <==> nodes == []
    ensures res == -ENOMEM ==>
      || NoRoom(p.allocations[..], k.heap.Table(), 4 * |nodes|)
      || NoRoom(p.allocations[..], k.heap.Table(), ARGUMENT_SIZE)
    ensures res != 0 ==> p.argc == old(p.argc) && p.argv == old(p.argv)
    ensures res == 0 ==> p.argc == |nodes| == |ptrs|
    ensures res == 0 ==> Placed(p.allocations[..], k.mem[..], p.argv, |nodes|, ptrs, old(Strings(nodes)))
  {
    hide Heap.BlockCount, Encodes, IsChunk, SlotsOk, SlotBlocks, SpaceBlocks, OwnedBlocks, Flat, Text, StringAt, Placed, SlotOk, SameRun, NoRoom;
    ghost var w := Strings(nodes);
    ptrs := [];
    var argc := CountArguments(root, nodes);
    if argc == 0 {
      return -EIO, ptrs;
    }
    var argv := AllocateBeside(k, p, 4 * argc);
    if argv == 0 {
      return -ENOMEM, ptrs;
    }
    NonePlaced(p.allocations[..], k.mem[..], argv, argc);
    assert forall i :: 0 <= i < |nodes| ==> GoodBuffer(k, p, nodes[i].argument);
    assert Strings(nodes) == w;
    var ok;
    ok, ptrs := InjectAll(k, p, root, nodes, argv, argc);
    if !ok {
      return -ENOMEM, ptrs;
    }
    PlacedCount(p.allocations[..], k.mem[..], argv, argc, ptrs, w);
    p.argc := argc;
    p.argv := argv;
    return 0, ptrs;
  }
}
