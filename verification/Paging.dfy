/** paging.c: reading, writing and mapping ranges of a two-level page table in physical memory. */
module Paging {
  import opened Status
  import opened Bits
  import opened Memory
  import opened PageTables

  /** A paging_4gb_chunk: one word of memory that points at a directory page. */
  ghost predicate IsChunk(s: seq<uint32>, chunk: uint32)
  {
    && |s| == WORDS && chunk % PAGE_SIZE == 0
    && s[chunk / 4] % PAGE_SIZE == 0
    && IsTree(s, DirFrame(s, chunk))
    && DirFrame(s, chunk) != chunk / PAGE_SIZE
    && forall i :: 0 <= i < ENTRIES ==> TableFrame(s, DirFrame(s, chunk), i) != chunk / PAGE_SIZE
  }

  function DirFrame(s: seq<uint32>, chunk: uint32): (f: nat)
    requires |s| == WORDS
    ensures f < PAGES
  {
    s[chunk / 4] / PAGE_SIZE
  }

  /** The flat map of the address space behind a chunk. */
  ghost function Space(s: seq<uint32>, chunk: uint32): (f: seq<uint32>)
    requires |s| == WORDS
    ensures |f| == PAGES
  {
    Flat(s, DirFrame(s, chunk))
  }

  predicate IsAligned(addr: uint32) {
    addr % PAGE_SIZE == 0
  }

  /** paging_align_address; the last page wraps to 0. */
  function AlignAddress(ptr: uint32): (r: uint32)
    ensures r % PAGE_SIZE == 0
    ensures ptr <= 0xFFFFF000 ==> ptr <= r < ptr + PAGE_SIZE
  {
    assert ptr + PAGE_SIZE - ptr % PAGE_SIZE == (ptr / PAGE_SIZE + 1) * PAGE_SIZE;
    if ptr % PAGE_SIZE != 0 then Wrap(ptr + PAGE_SIZE - ptr % PAGE_SIZE) else ptr
  }

  function AlignToLowerPage(addr: uint32): (r: uint32)
    ensures r % PAGE_SIZE == 0 && r <= addr < r + PAGE_SIZE
  {
    addr - addr % PAGE_SIZE
  }

  datatype Indexes = Indexes(res: int, directory: nat, table: nat)

  /** paging_get_indexes: both indexes are 0 when the address is refused. */
  function GetIndexes(va: uint32): (r: Indexes)
    ensures r.directory < ENTRIES && r.table < ENTRIES
    ensures r.res == 0 ==> IsAligned(va) && r.directory * ENTRIES + r.table == va / PAGE_SIZE
    ensures r.res != 0 ==> !IsAligned(va) && r.res == -EINVARG && r.directory == r.table == 0
  {
    if !IsAligned(va) then Indexes(-EINVARG, 0, 0)
    else Indexes(0, va / (ENTRIES * PAGE_SIZE), va % (ENTRIES * PAGE_SIZE) / PAGE_SIZE)
  }

  method Get(mem: array<uint32>, directory: uint32, va: uint32) returns (entry: uint32)
    requires mem.Length == WORDS && directory % PAGE_SIZE == 0
    ensures entry == Flat(mem[..], directory / PAGE_SIZE)[if IsAligned(va) then va / PAGE_SIZE else 0]
  {
    var ix := GetIndexes(va);
    var table := Mask(mem[directory / 4 + ix.directory]);
    entry := mem[table / 4 + ix.table];
    assert directory / 4 == directory / PAGE_SIZE * ENTRIES;
    assert table / 4 == mem[..][directory / 4 + ix.directory] / PAGE_SIZE * ENTRIES;
  }

  method GetPhysicalAddress(mem: array<uint32>, directory: uint32, va: uint32) returns (pa: uint32)
    requires mem.Length == WORDS && directory % PAGE_SIZE == 0
    ensures pa == Translate(Flat(mem[..], directory / PAGE_SIZE), va)
  {
    var page := AlignToLowerPage(va);
    var entry := Get(mem, directory, page);
    pa := Wrap(Mask(entry) + (va - page));
  }

  method Set(mem: array<uint32>, directory: uint32, va: uint32, value: uint32) returns (res: int)
    requires mem.Length == WORDS && directory % PAGE_SIZE == 0
    modifies mem
    ensures !IsAligned(va) ==> res == -EINVARG && mem[..] == old(mem[..])
    ensures IsAligned(va) ==> res == 0
    ensures IsAligned(va) ==>
      mem[..] == old(mem[..])[EntryIndex(old(mem[..]), directory / PAGE_SIZE, va / PAGE_SIZE) := value]
  {
    if !IsAligned(va) {
      return -EINVARG;
    }
    var ix := GetIndexes(va);
    if ix.res < 0 {
      return ix.res;
    }
    var table := Mask(mem[directory / 4 + ix.directory]);
    assert directory / 4 == directory / PAGE_SIZE * ENTRIES;
    assert table / 4 == mem[..][directory / 4 + ix.directory] / PAGE_SIZE * ENTRIES;
    mem[table / 4 + ix.table] := value;
    return ix.res;
  }

  /** What a write through the tree may leave different: the flat map, and only table pages. */
  ghost predicate Remapped(s: seq<uint32>, s': seq<uint32>, chunk: uint32, flat: seq<uint32>)
    requires IsChunk(s, chunk)
  {
    && IsChunk(s', chunk)
    && DirFrame(s', chunk) == DirFrame(s, chunk)
    && SameTables(s, s', DirFrame(s, chunk))
    && OnlyTables(s, s', DirFrame(s, chunk))
    && Space(s', chunk) == flat
  }

  lemma SetRemaps(s: seq<uint32>, chunk: uint32, p: nat, v: uint32)
    requires IsChunk(s, chunk) && p < PAGES
    ensures Remapped(s, s[EntryIndex(s, DirFrame(s, chunk), p) := v], chunk, Space(s, chunk)[p := v])
  {
    hide Flat;
    var df := DirFrame(s, chunk);
    SetIsFlatUpdate(s, df, p, v);
    SameFrames(s, s[EntryIndex(s, df, p) := v], df);
    var x := EntryIndex(s, df, p);
    assert x / ENTRIES == TableFrame(s, df, p / ENTRIES);
    assert chunk / 4 / ENTRIES == chunk / PAGE_SIZE;
  }

  lemma RemapTrans(s: seq<uint32>, t: seq<uint32>, u: seq<uint32>, chunk: uint32, f: seq<uint32>, g: seq<uint32>)
    requires IsChunk(s, chunk) && Remapped(s, t, chunk, f) && Remapped(t, u, chunk, g)
    ensures Remapped(s, u, chunk, g)
  {
    hide Flat, IsTree, OnlyTables;
    OnlyTablesTrans(s, t, u, DirFrame(s, chunk));
  }

  method Map(mem: array<uint32>, chunk: uint32, va: uint32, pa: uint32, flags: uint32) returns (res: int)
    requires IsChunk(mem[..], chunk)
    modifies mem
    ensures res == 0 <==> IsAligned(va) && IsAligned(pa)
    ensures res != 0 ==> res == -EINVARG && mem[..] == old(mem[..])
    ensures res == 0 ==> Remapped(old(mem[..]), mem[..], chunk,
      Space(old(mem[..]), chunk)[va / PAGE_SIZE := WithFlags(pa, flags)])
  {
    hide IsTree, Flat, OnlyTables, SameTables, WithFlags;
    if va % PAGE_SIZE != 0 || pa % PAGE_SIZE != 0 {
      return -EINVARG;
    }
    SetRemaps(mem[..], chunk, va / PAGE_SIZE, WithFlags(pa, flags));
    assert mem[chunk / 4] == mem[..][chunk / 4];
    res := Set(mem, mem[chunk / 4], va, WithFlags(pa, flags));
  }

  lemma WrapSmall(a: uint32)
    ensures Wrap(a) == a
  {
  }

  lemma PageAt(base: uint32, i: nat)
    ensures var a := Wrap(base + i * PAGE_SIZE);
      && a / PAGE_SIZE == (base / PAGE_SIZE + i) % PAGES
      && IsAligned(a) == IsAligned(base)
      && (IsAligned(base) ==> a == (base / PAGE_SIZE + i) % PAGES * PAGE_SIZE)
      && Wrap(a + PAGE_SIZE) == Wrap(base + (i + 1) * PAGE_SIZE)
  {
    var x, r := base / PAGE_SIZE + i, base % PAGE_SIZE;
    hide Wrap;
    WrapPage(x, r);
    assert base + i * PAGE_SIZE == x * PAGE_SIZE + r;
    WrapPage(x + 1, r);
    WrapNext(base + i * PAGE_SIZE, PAGE_SIZE);
  }

  /** Address r of page x, modulo the address space. */
  lemma WrapPage(x: nat, r: nat)
    requires r < PAGE_SIZE
    ensures Wrap(x * PAGE_SIZE + r) == x % PAGES * PAGE_SIZE + r
  {
    assert x * PAGE_SIZE + r == x / PAGES * U32 + (x % PAGES * PAGE_SIZE + r);
  }

  lemma WrapNext(a: nat, b: nat)
    ensures Wrap(Wrap(a) + b) == Wrap(a + b)
  {
  }

  /** paging_map_range: virtual and physical addresses both step by a page, wrapping at 2^32. */
  method MapPages(mem: array<uint32>, chunk: uint32, virt: uint32, phys: uint32, count: int, flags: uint32)
    returns (res: int)
    requires IsChunk(mem[..], chunk)
    modifies mem
    ensures res == 0 <==> count <= 0 || (IsAligned(virt) && IsAligned(phys))
    ensures res != 0 ==> res == -EINVARG
    ensures Remapped(old(mem[..]), mem[..], chunk,
      if res == 0 && count > 0
      then MapRange(Space(old(mem[..]), chunk), virt / PAGE_SIZE, phys / PAGE_SIZE, count, flags)
      else Space(old(mem[..]), chunk))
    ensures res != 0 ==> mem[..] == old(mem[..])
  {
    hide IsTree, Flat, OnlyTables, SameTables, WithFlags, MappedEntry, Wrap, IsAligned;
    ghost var s := mem[..];
    ghost var f := Space(s, chunk);
    RemapRefl(s, chunk);
    MapRangeZero(f, virt / PAGE_SIZE, phys / PAGE_SIZE, flags);
    var va: uint32, pa: uint32 := virt, phys;
    assert va == Wrap(virt + 0 * PAGE_SIZE) && pa == Wrap(phys + 0 * PAGE_SIZE) by { PageAt(virt, 0); PageAt(phys, 0); WrapSmall(virt); WrapSmall(phys); }
    res := 0;
    var i := 0;
    while i < count
      invariant 0 <= i && (i > 0 ==> i <= count)
      invariant res == 0
      invariant va == Wrap(virt + i * PAGE_SIZE) && pa == Wrap(phys + i * PAGE_SIZE)
      invariant i > 0 ==> IsAligned(virt) && IsAligned(phys)
      invariant i == 0 ==> mem[..] == s
      invariant Remapped(s, mem[..], chunk, MapRange(f, virt / PAGE_SIZE, phys / PAGE_SIZE, i, flags))
    {
      ghost var t := mem[..];
      PageAt(virt, i);
      PageAt(phys, i);
      res := Map(mem, chunk, va, pa, flags);
      if res < 0 {
        break;
      }
      MapRangeStep(f, virt / PAGE_SIZE, phys / PAGE_SIZE, i, flags);
      RemapTrans(s, t, mem[..], chunk, Space(t, chunk), Space(mem[..], chunk));
      va, pa := Wrap(va + PAGE_SIZE), Wrap(pa + PAGE_SIZE);
      i := i + 1;
    }
  }

  lemma RemapRefl(s: seq<uint32>, chunk: uint32)
    requires IsChunk(s, chunk)
    ensures Remapped(s, s, chunk, Space(s, chunk))
  {
    hide Flat;
  }

  lemma MapRangeZero(f: seq<uint32>, virt: nat, phys: nat, flags: uint32)
    requires |f| == PAGES
    ensures MapRange(f, virt, phys, 0, flags) == f
  {
  }

  /** paging_map_to: the flat map becomes exactly what PageTables.MapTo says, errors included. */
  method MapRegion(mem: array<uint32>, chunk: uint32, va: uint32, pa: uint32, end: uint32, flags: uint32)
    returns (res: int)
    requires IsChunk(mem[..], chunk)
    modifies mem
    ensures var r := MapTo(Space(old(mem[..]), chunk), va, pa, end, flags);
      res == r.res && Remapped(old(mem[..]), mem[..], chunk, r.flat)
    ensures res != 0 ==> mem[..] == old(mem[..])
  {
    hide IsTree, Flat, OnlyTables, SameTables, WithFlags, MappedEntry;
    RemapRefl(mem[..], chunk);
    MapRangeZero(Space(mem[..], chunk), va / PAGE_SIZE, pa / PAGE_SIZE, flags);
    if va % PAGE_SIZE != 0 {
      return -EINVARG;
    }
    if pa % PAGE_SIZE != 0 {
      return -EINVARG;
    }
    if end % PAGE_SIZE != 0 {
      return -EINVARG;
    }
    if end < pa {
      return -EINVARG;
    }
    res := MapPages(mem, chunk, va, pa, (end - pa) / PAGE_SIZE, flags);
  }
}
