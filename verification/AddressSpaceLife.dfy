/** Freeing an address space, and its whole life from paging_new_4gb to paging_free_4gb. */
module AddressSpaceLife {
  import opened Bits
  import opened Memory
  import opened HeapTable
  import opened PageTables
  import opened Paging
  import opened Kernel
  import opened AddressSpace
  import Heap

  lemma OwnedBlockAt(k: Machine, f: nat)
    requires k.heap.Layout() && Owned(k.heap.live, k.heap.total, f, k.heap.saddr / PAGE_SIZE)
    ensures f < PAGES && k.heap.BlockAt(f * PAGE_SIZE) == BlockOf(f, k.heap.saddr / PAGE_SIZE)
    ensures BlockOf(f, k.heap.saddr / PAGE_SIZE) in k.heap.live
  {
    Heap.BlockIndexOf(k.heap.saddr, f - k.heap.saddr / PAGE_SIZE);
  }

  /** kfree of one page of an address space. */
  method FreePage(k: Machine, ptr: uint32)
    requires k.Valid() && ptr % PAGE_SIZE == 0
    requires Owned(k.heap.live, k.heap.total, ptr / PAGE_SIZE, k.heap.saddr / PAGE_SIZE)
    modifies k.heap.low, k.heap`live
    ensures k.Valid()
    ensures k.heap.live == old(k.heap.live) - {BlockOf(ptr / PAGE_SIZE, k.heap.saddr / PAGE_SIZE)}
    ensures SameAround(old(k.heap.low[..]), k.heap.low[..], k.heap.base, k.heap.total)
  {
    hide Encodes, ClearChain, Heap.BlockIndex, SameAround;
    OwnedBlockAt(k, ptr / PAGE_SIZE);
    k.Kfree(ptr);
  }

  lemma TableBlocksStep(s: seq<uint32>, df: nat, pool: nat, n: nat)
    requires |s| == WORDS && df < PAGES && n < ENTRIES
    ensures TableBlocks(s, df, pool, n + 1) == TableBlocks(s, df, pool, n) + {BlockOf(TableFrame(s, df, n), pool)}
  {
  }

  /** The frames still to be freed stay owned while earlier tables are given back. */
  lemma StillOwned(m: Runs, total: nat, s: seq<uint32>, chunk: uint32, pool: nat, n: nat)
    requires IsChunk(s, chunk) && OwnedBlocks(m, total, s, chunk, pool) && n <= ENTRIES
    ensures var left := m - TableBlocks(s, DirFrame(s, chunk), pool, n);
      && (n < ENTRIES ==> Owned(left, total, TableFrame(s, DirFrame(s, chunk), n), pool))
      && Owned(left, total, DirFrame(s, chunk), pool)
      && Owned(left, total, chunk / PAGE_SIZE, pool)
  {
    var df := DirFrame(s, chunk);
    forall j | 0 <= j < n
      ensures BlockOf(TableFrame(s, df, j), pool) != BlockOf(df, pool)
      ensures BlockOf(TableFrame(s, df, j), pool) != BlockOf(chunk / PAGE_SIZE, pool)
      ensures n < ENTRIES ==> BlockOf(TableFrame(s, df, j), pool) != BlockOf(TableFrame(s, df, n), pool)
    {
      assert Owned(m, total, TableFrame(s, df, j), pool);
      if n < ENTRIES { assert TableFrame(s, df, j) != TableFrame(s, df, n); }
    }
  }

  /** paging_free_4gb gives back exactly the 1026 blocks of the address space. */
  method Free4GB(k: Machine, chunk: uint32)
    requires k.Valid() && OwnsSpace(k, chunk)
    modifies k.heap.low, k.heap`live
    ensures k.Valid()
    ensures k.heap.live == old(k.heap.live) - SpaceBlocks(k.mem[..], chunk, k.heap.saddr / PAGE_SIZE)
    ensures SameAround(old(k.heap.low[..]), k.heap.low[..], k.heap.base, k.heap.total)
  {
    hide Encodes, IsTree, Owned, TableBlocks;
    ghost var s, pool, m, df := k.mem[..], k.heap.saddr / PAGE_SIZE, k.heap.live, DirFrame(k.mem[..], chunk);
    assert TableBlocks(s, df, pool, 0) == {} by { NoTables(s, df, pool); }
    var i := 0;
    while i < ENTRIES
      invariant 0 <= i <= ENTRIES
      invariant k.Valid() && k.mem[..] == s
      invariant k.heap.live == m - TableBlocks(s, df, pool, i)
      invariant SameAround(old(k.heap.low[..]), k.heap.low[..], k.heap.base, k.heap.total)
    {
      var directory := k.mem[chunk / 4];
      assert directory == s[chunk / 4] && directory / 4 == df * ENTRIES;
      var entry := k.mem[directory / 4 + i];
      assert entry == s[df * ENTRIES + i] && Mask(entry) / PAGE_SIZE == TableFrame(s, df, i);
      StillOwned(m, k.heap.total, s, chunk, pool, i);
      FreePage(k, Mask(entry));
      TableBlocksStep(s, df, pool, i);
      i := i + 1;
    }
    StillOwned(m, k.heap.total, s, chunk, pool, ENTRIES);
    FreePage(k, k.mem[chunk / 4]);
    assert s[chunk / 4] / PAGE_SIZE == df;
    ChunkStillOwned(k.heap.live, m - TableBlocks(s, df, pool, ENTRIES), k.heap.total, chunk / PAGE_SIZE, df, pool);
    FreePage(k, chunk);
  }

  lemma NoTables(s: seq<uint32>, df: nat, pool: nat)
    requires |s| == WORDS && df < PAGES
    ensures TableBlocks(s, df, pool, 0) == {}
  {
  }

  lemma ChunkStillOwned(m': Runs, m: Runs, total: nat, f: nat, df: nat, pool: nat)
    requires Owned(m, total, f, pool) && Owned(m, total, df, pool) && f != df
    requires m' == m - {BlockOf(df, pool)}
    ensures Owned(m', total, f, pool)
  {
  }

  // ---- the whole life of an address space ----

  datatype PageOp =
    | MapTo(va: uint32, pa: uint32, end: uint32, flags: uint32)
    | SetEntry(va: uint32, value: uint32)

  /** What a sequence of operations means on the flat map. */
  function Apply(f: seq<uint32>, ops: seq<PageOp>): (r: seq<uint32>)
    requires |f| == PAGES
    ensures |r| == PAGES
  {
    if ops == [] then f
    else ApplyOne(Apply(f, ops[..|ops| - 1]), ops[|ops| - 1])
  }

  function ApplyOne(f: seq<uint32>, op: PageOp): (r: seq<uint32>)
    requires |f| == PAGES
    ensures |r| == PAGES
  {
    match op
    case MapTo(va, pa, end, flags) => PageTables.MapTo(f, va, pa, end, flags).flat
    case SetEntry(va, value) => if IsAligned(va) then f[va / PAGE_SIZE := value] else f
  }

  /** Remapping pages leaves the address space in the same heap blocks. */
  lemma RemapKeepsBlocks(s: seq<uint32>, s': seq<uint32>, chunk: uint32, flat: seq<uint32>, m: Runs, total: nat, pool: nat)
    requires IsChunk(s, chunk) && Remapped(s, s', chunk, flat) && OwnedBlocks(m, total, s, chunk, pool)
    ensures OwnedBlocks(m, total, s', chunk, pool)
    ensures SpaceBlocks(s', chunk, pool) == SpaceBlocks(s, chunk, pool)
  {
    hide Flat, IsTree, OnlyTables, Owned;
    var df := DirFrame(s, chunk);
    forall i | 0 <= i < ENTRIES ensures Owned(m, total, TableFrame(s', df, i), pool) {
      assert TableFrame(s', df, i) == TableFrame(s, df, i);
    }
    SameTableBlocks(s, s', df, pool);
  }

  lemma SameTableBlocks(s: seq<uint32>, s': seq<uint32>, df: nat, pool: nat)
    requires |s| == |s'| == WORDS && df < PAGES && SameTables(s, s', df)
    ensures TableBlocks(s', df, pool, ENTRIES) == TableBlocks(s, df, pool, ENTRIES)
  {
    forall b | b in TableBlocks(s, df, pool, ENTRIES) ensures b in TableBlocks(s', df, pool, ENTRIES) {
      var j :| 0 <= j < ENTRIES && b == BlockOf(TableFrame(s, df, j), pool);
      assert b == BlockOf(TableFrame(s', df, j), pool);
    }
    forall b | b in TableBlocks(s', df, pool, ENTRIES) ensures b in TableBlocks(s, df, pool, ENTRIES) {
      var j :| 0 <= j < ENTRIES && b == BlockOf(TableFrame(s', df, j), pool);
      assert b == BlockOf(TableFrame(s, df, j), pool);
    }
  }

  method Perform(k: Machine, chunk: uint32, op: PageOp)
    requires k.Valid() && OwnsSpace(k, chunk)
    modifies k.mem
    ensures k.Valid() && OwnsSpace(k, chunk)
    ensures Space(k.mem[..], chunk) == ApplyOne(Space(old(k.mem[..]), chunk), op)
    ensures SpaceBlocks(k.mem[..], chunk, k.heap.saddr / PAGE_SIZE) == SpaceBlocks(old(k.mem[..]), chunk, k.heap.saddr / PAGE_SIZE)
  {
    hide Flat, IsTree, OnlyTables, SameTables, Owned, SpaceBlocks, OwnedBlocks, PageTables.MapTo;
    ghost var s := k.mem[..];
    match op {
      case MapTo(va, pa, end, flags) =>
        var res := MapRegion(k.mem, chunk, va, pa, end, flags);
      case SetEntry(va, value) =>
        assert k.mem[chunk / 4] == s[chunk / 4];
        if IsAligned(va) {
          SetRemaps(s, chunk, va / PAGE_SIZE, value);
        } else {
          RemapRefl(s, chunk);
        }
        var res := Set(k.mem, k.mem[chunk / 4], va, value);
    }
    RemapKeepsBlocks(s, k.mem[..], chunk, Space(k.mem[..], chunk), k.heap.live, k.heap.total, k.heap.saddr / PAGE_SIZE);
  }

  /** Build an address space, change it at will, free it: the heap table is restored byte for
      byte, and just before the end the space is the identity with the changes applied in order. */
  method BuildUseFree(k: Machine, flags: uint32, ops: seq<PageOp>) returns (built: bool, ghost used: seq<uint32>)
    requires k.Valid() && flags < 256
    modifies k.heap.low, k.heap`live, k.mem
    ensures k.Valid()
    ensures built <==> FreeCount(old(k.heap.Table())) >= SPACE_BLOCKS
    ensures built ==> used == Apply(Identity(flags), ops)
    ensures built ==> k.heap.Table() == old(k.heap.Table()) && k.heap.live == old(k.heap.live)
  {
    hide FreeCount, Encodes, Flat, Identity, IsTree, OwnedBlocks, SpaceBlocks, OnlySpace;
    ghost var t0, m0, pool := k.heap.Table(), k.heap.live, k.heap.saddr / PAGE_SIZE;
    used := [];
    var chunk := New4GB(k, flags);
    built := chunk != 0;
    if built {
      ghost var blocks := SpaceBlocks(k.mem[..], chunk, pool);
      var i := 0;
      while i < |ops|
        invariant 0 <= i <= |ops|
        invariant k.Valid() && OwnsSpace(k, chunk)
        invariant k.heap.live == m0 + OneBlockRuns(blocks)
        invariant SpaceBlocks(k.mem[..], chunk, pool) == blocks
        invariant Space(k.mem[..], chunk) == Apply(Identity(flags), ops[..i])
      {
        Perform(k, chunk, ops[i]);
        assert ops[..i + 1][..i] == ops[..i];
        i := i + 1;
      }
      assert ops[..i] == ops;
      used := Space(k.mem[..], chunk);
      Free4GB(k, chunk);
      assert k.heap.live == m0;
      EncodingUnique(k.heap.Table(), t0, m0);
    }
  }
}
