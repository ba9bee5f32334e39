/** Building and freeing an address space: the page tables live in heap blocks. */
module AddressSpace {
  import opened Bits
  import opened Memory
  import opened HeapTable
  import opened PageTables
  import opened Paging
  import opened Kernel
  import Heap

  /** Blocks a new address space takes: 1024 tables, the directory, the chunk. */
  const SPACE_BLOCKS := 1026

  ghost function OneBlockRuns(blocks: set<nat>): Runs {
    map b | b in blocks :: 1
  }

  ghost function Singles(blocks: seq<nat>): Runs {
    OneBlockRuns(set b | b in blocks)
  }

  /** The heap after handing out `blocks`, one block each, from a heap with table t0 and runs m0. */
  ghost predicate Granted(t0: seq<Entry>, m0: Runs, blocks: seq<nat>, t: seq<Entry>, m: Runs) {
    && |t| == |t0|
    && m == m0 + Singles(blocks)
    && (forall b :: b in blocks ==> b < |t0| && b !in m0)
    && (forall i, j :: 0 <= i < j < |blocks| ==> blocks[i] != blocks[j])
    && (forall b :: 0 <= b < |t0| && b in blocks ==> !IsFree(t[b]))
    && FreeCount(t) == FreeCount(t0) - |blocks|
  }

  lemma GrantOne(t0: seq<Entry>, m0: Runs, blocks: seq<nat>, t: seq<Entry>, m: Runs, b: nat)
    requires Granted(t0, m0, blocks, t, m) && b < |t| && IsFree(t[b]) && b !in m
    ensures Granted(t0, m0, blocks + [b], Marked(t, b, 1), m[b := 1])
    ensures b !in blocks && forall i, j :: 0 <= i < j < |blocks| ==> blocks[i] != blocks[j]
  {
    hide FreeCount;
    MarkOne(t, b);
    RunByteFlags(0, 1);
    assert b !in blocks;
    assert m[b := 1] == m0 + Singles(blocks + [b]);
  }

  lemma GrantedCount(t0: seq<Entry>, m0: Runs, blocks: seq<nat>, t: seq<Entry>, m: Runs)
    requires Granted(t0, m0, blocks, t, m)
    ensures FreeCount(t) == FreeCount(t0) - |blocks|
  {
  }

  /** Words outside the frames of `blocks` (and outside frame `other`) are as they were. */
  ghost predicate OnlyBlocks(s0: seq<uint32>, s: seq<uint32>, pool: nat, blocks: seq<nat>, other: int) {
    |s0| == |s| && forall w :: 0 <= w < |s| && w / ENTRIES != other && w / ENTRIES - pool !in blocks ==> s[w] == s0[w]
  }

  lemma OnlyBlocksStep(s0: seq<uint32>, s: seq<uint32>, s': seq<uint32>, pool: nat, blocks: seq<nat>, b: nat, other: int)
    requires OnlyBlocks(s0, s, pool, blocks, other) && OnlyFrames(s, s', pool + b, 1)
    ensures OnlyBlocks(s0, s', pool, blocks + [b], other)
  {
  }

  function WordAt(s: seq<uint32>, f: nat, j: nat): uint32
    requires |s| == WORDS && f < PAGES && j < ENTRIES
  {
    s[f * ENTRIES + j]
  }

  /** Frame f holds table number i of an identity mapping. */
  ghost predicate Filled(s: seq<uint32>, f: nat, i: nat, flags: uint32) {
    && f < PAGES && i < ENTRIES && |s| == WORDS
    && forall j :: 0 <= j < ENTRIES ==> WordAt(s, f, j) == WithFlags((i * ENTRIES + j) * PAGE_SIZE, flags)
  }

  /** The bits of a directory entry: present and user as the flags say, and writable. */
  predicate HasRights(e: uint32, flags: uint32) {
    e % 2 == flags % 2 && e / 2 % 2 == 1 && e / 4 % 2 == flags / 4 % 2
  }

  /** All entries of a directory have these bits. */
  ghost predicate DirectoryRights(s: seq<uint32>, df: nat, flags: uint32)
    requires |s| == WORDS && df < PAGES
  {
    forall i :: 0 <= i < ENTRIES ==> HasRights(DirectoryEntry(s, df, i), flags)
  }

  lemma RightsStay(s: seq<uint32>, s': seq<uint32>, df: nat, flags: uint32)
    requires |s| == |s'| == WORDS && df < PAGES && DirectoryRights(s, df, flags) && SameTables(s, s', df)
    ensures DirectoryRights(s', df, flags)
  {
    forall i | 0 <= i < ENTRIES ensures HasRights(DirectoryEntry(s', df, i), flags) {
      assert DirectoryEntry(s', df, i) == DirectoryEntry(s, df, i);
    }
  }

  /** The directory entry the code makes of a table's address. */
  lemma EntryRights(entry: uint32, flags: uint32)
    requires entry % PAGE_SIZE == 0 && flags < 256
    ensures HasRights(WithFlags(WithFlags(entry, flags), IS_WRITABLE), flags)
  {
    hide WithFlags;
    FlagBits(entry, flags);
    FlagBits(WithFlags(entry, flags), IS_WRITABLE);
    assert entry % 2 == entry / 2 % 2 == entry / 4 % 2 == 0;
  }

  /** The tables made so far are filled in and linked from the directory in block `dir`. */
  ghost predicate Laid(s: seq<uint32>, pool: nat, dir: nat, tables: seq<nat>, flags: uint32) {
    && |s| == WORDS && |tables| <= ENTRIES && pool + dir < PAGES
    && forall j :: 0 <= j < |tables| ==> LaidAt(s, pool, dir, tables[j], j, flags)
  }

  /** Table number j is the one in block t. */
  ghost predicate LaidAt(s: seq<uint32>, pool: nat, dir: nat, t: nat, j: nat, flags: uint32)
    requires |s| == WORDS && pool + dir < PAGES && j < ENTRIES
  {
    && TableFrame(s, pool + dir, j) == pool + t && Filled(s, pool + t, j, flags)
    && HasRights(DirectoryEntry(s, pool + dir, j), flags)
  }

  lemma FilledFrame(s: seq<uint32>, s': seq<uint32>, f: nat, i: nat, flags: uint32, g: nat)
    requires Filled(s, f, i, flags) && OnlyFrames(s, s', g, 1) && f != g
    ensures Filled(s', f, i, flags)
  {
    hide WithFlags;
    forall j | 0 <= j < ENTRIES ensures WordAt(s', f, j) == WordAt(s, f, j) {
      assert (f * ENTRIES + j) / ENTRIES == f;
    }
  }

  lemma LaidFrame(s: seq<uint32>, s': seq<uint32>, pool: nat, dir: nat, tables: seq<nat>, flags: uint32, b: nat)
    requires Laid(s, pool, dir, tables, flags) && OnlyFrames(s, s', pool + b, 1) && b != dir && b !in tables
    ensures Laid(s', pool, dir, tables, flags)
  {
    hide Filled;
    forall j | 0 <= j < |tables| ensures LaidAt(s', pool, dir, tables[j], j, flags) {
      assert LaidAt(s, pool, dir, tables[j], j, flags);
      assert ((pool + dir) * ENTRIES + j) / ENTRIES == pool + dir;
      FilledFrame(s, s', pool + tables[j], j, flags, pool + b);
    }
  }

  /** Linking a filled table into the next directory slot. */
  lemma LaidStep(s: seq<uint32>, pool: nat, dir: nat, tables: seq<nat>, flags: uint32, b: nat, e: uint32)
    requires Laid(s, pool, dir, tables, flags) && |tables| < ENTRIES && dir !in tables && b != dir
    requires e / PAGE_SIZE == pool + b && HasRights(e, flags)
    requires Filled(s, pool + b, |tables|, flags)
    ensures Laid(s[(pool + dir) * ENTRIES + |tables| := e], pool, dir, tables + [b], flags)
  {
    hide Filled, HasRights;
    var s', more := s[(pool + dir) * ENTRIES + |tables| := e], tables + [b];
    forall j | 0 <= j < |more| ensures LaidAt(s', pool, dir, more[j], j, flags) {
      if j < |tables| { assert LaidAt(s, pool, dir, tables[j], j, flags); }
      assert DirectoryEntry(s', pool + dir, j) == if j < |tables| then DirectoryEntry(s, pool + dir, j) else e;
      FilledFrame(s, s', pool + more[j], j, flags, pool + dir);
    }
  }

  /** The inner loop of paging_new_4gb. */
  method FillTable(mem: array<uint32>, entry: uint32, offset: uint32, flags: uint32)
    requires mem.Length == WORDS && entry % PAGE_SIZE == 0 && flags < PAGE_SIZE
    requires offset % (ENTRIES * PAGE_SIZE) == 0
    modifies mem
    ensures Filled(mem[..], entry / PAGE_SIZE, offset / (ENTRIES * PAGE_SIZE), flags)
    ensures OnlyFrames(old(mem[..]), mem[..], entry / PAGE_SIZE, 1)
  {
    hide WithFlags;
    var j := 0;
    while j < ENTRIES
      invariant 0 <= j <= ENTRIES
      invariant forall x :: 0 <= x < j ==> mem[entry / 4 + x] == WithFlags(offset + x * PAGE_SIZE, flags)
      invariant OnlyFrames(old(mem[..]), mem[..], entry / PAGE_SIZE, 1)
    {
      mem[entry / 4 + j] := WithFlags(offset + j * PAGE_SIZE, flags);
      j := j + 1;
    }
    forall x | 0 <= x < ENTRIES
      ensures WordAt(mem[..], entry / PAGE_SIZE, x)
           == WithFlags((offset / (ENTRIES * PAGE_SIZE) * ENTRIES + x) * PAGE_SIZE, flags)
    {
      assert entry / PAGE_SIZE * ENTRIES == entry / 4;
      assert mem[entry / 4 + x] == WithFlags(offset + x * PAGE_SIZE, flags);
      assert (offset / (ENTRIES * PAGE_SIZE) * ENTRIES + x) * PAGE_SIZE == offset + x * PAGE_SIZE;
    }
  }

  lemma BuildStart(t0: seq<Entry>, m0: Runs, s0: seq<uint32>, s: seq<uint32>, pool: nat, blocks: seq<nat>, flags: uint32)
    requires |s| == WORDS
    requires blocks == [] ==> s == s0
    requires blocks != [] ==> |blocks| == 1 && pool + blocks[0] < PAGES && OnlyFrames(s0, s, pool + blocks[0], 1)
    ensures OnlyBlocks(s0, s, pool, blocks, -1) && OnlyBlocks(s0, s, pool, blocks, 0)
    ensures blocks != [] ==> Laid(s, pool, blocks[0], blocks[1..], flags)
    ensures Granted(t0, m0, [], t0, m0)
  {
    assert m0 + Singles([]) == m0;
  }

  /** The state of paging_new_4gb after it asked for a directory and i tables; m0, t0, s0 are the
      heap and memory it started from. While the heap lasts, the tables are laid out; once it is
      exhausted, the code goes on writing at address 0. */
  ghost predicate Building(k: Machine, t0: seq<Entry>, m0: Runs, s0: seq<uint32>,
                           blocks: seq<nat>, directory: uint32, i: nat, flags: uint32)
    reads k, k.heap, k.heap.low, k.mem
  {
    && k.Valid() && i <= ENTRIES
    && Granted(t0, m0, blocks, k.heap.Table(), k.heap.live)
    && directory % PAGE_SIZE == 0
    && var pool := k.heap.saddr / PAGE_SIZE;
    && if FreeCount(t0) >= i + 1 then
         && |blocks| == i + 1 && directory == (pool + blocks[0]) * PAGE_SIZE
         && Laid(k.mem[..], pool, blocks[0], blocks[1..], flags)
         && OnlyBlocks(s0, k.mem[..], pool, blocks, -1)
       else
         && FreeCount(k.heap.Table()) == 0
         && OnlyBlocks(s0, k.mem[..], pool, blocks, 0)
         && (directory == 0 || (|blocks| > 0 && directory == (pool + blocks[0]) * PAGE_SIZE))
  }

  lemma TablePlaced(s0: seq<uint32>, s: seq<uint32>, s1: seq<uint32>, s2: seq<uint32>, pool: nat,
                    blocks: seq<nat>, b: nat, i: nat, flags: uint32, e: uint32)
    requires |blocks| == i + 1 && i < ENTRIES && b !in blocks && |s| == WORDS
    requires forall j :: 0 < j < |blocks| ==> blocks[0] != blocks[j]
    requires Laid(s, pool, blocks[0], blocks[1..], flags) && OnlyBlocks(s0, s, pool, blocks, -1)
    requires OnlyFrames(s, s1, pool + b, 1) && OnlyFrames(s1, s2, pool + b, 1)
    requires Filled(s2, pool + b, i, flags) && e / PAGE_SIZE == pool + b && HasRights(e, flags)
    ensures (pool + blocks[0]) * ENTRIES + i < WORDS
    ensures var s3 := s2[(pool + blocks[0]) * ENTRIES + i := e];
      && Laid(s3, pool, blocks[0], (blocks + [b])[1..], flags)
      && OnlyBlocks(s0, s3, pool, blocks + [b], -1)
  {
    hide Filled;
    var dir, tables := blocks[0], blocks[1..];
    LaidFrame(s, s1, pool, dir, tables, flags, b);
    LaidFrame(s1, s2, pool, dir, tables, flags, b);
    LaidStep(s2, pool, dir, tables, flags, b, e);
    assert (blocks + [b])[1..] == tables + [b];
    var s3 := s2[(pool + dir) * ENTRIES + i := e];
    forall w | 0 <= w < WORDS && w / ENTRIES != -1 && w / ENTRIES - pool !in blocks + [b] ensures s3[w] == s0[w] {
      assert dir in blocks && dir in blocks + [b] && b in blocks + [b];
      assert forall x :: x in blocks ==> x in blocks + [b];
    }
  }

  lemma Scribbled(s0: seq<uint32>, s: seq<uint32>, s2: seq<uint32>, s3: seq<uint32>, pool: nat, blocks: seq<nat>, x: nat)
    requires |s| == WORDS && x < WORDS
    requires OnlyBlocks(s0, s, pool, blocks, -1) || OnlyBlocks(s0, s, pool, blocks, 0)
    requires OnlyFrames(s, s2, 0, 1)
    requires |s3| == |s2| && forall w :: 0 <= w < |s2| && w != x ==> s3[w] == s2[w]
    requires x / ENTRIES == 0 || x / ENTRIES - pool in blocks
    ensures OnlyBlocks(s0, s3, pool, blocks, 0)
  {
  }

  /** One pass of the outer loop of paging_new_4gb. */
  method AddTable(k: Machine, directory: uint32, i: nat, offset: uint32, flags: uint32,
                  ghost t0: seq<Entry>, ghost m0: Runs, ghost s0: seq<uint32>, ghost blocks: seq<nat>)
    returns (ghost blocks': seq<nat>)
    requires flags < 256 && i < ENTRIES && offset == i * ENTRIES * PAGE_SIZE
    requires Building(k, t0, m0, s0, blocks, directory, i, flags)
    modifies k.heap.low, k.heap`live, k.mem
    ensures Building(k, t0, m0, s0, blocks', directory, i + 1, flags)
    ensures SameAround(old(k.heap.low[..]), k.heap.low[..], k.heap.base, k.heap.total)
  {
    hide SameAround, FreeCount, Filled, WithFlags, HasRights, Laid, OnlyBlocks, OnlyFrames, Encodes, Marked, Granted, Heap.BlockIndex;
    ghost var pool := k.heap.saddr / PAGE_SIZE;
    ghost var s, t, m := k.mem[..], k.heap.Table(), k.heap.live;
    GrantedCount(t0, m0, blocks, t, m);
    var entry := k.KzallocPage(PAGE_SIZE);
    ghost var s1 := k.mem[..];
    FillTable(k.mem, entry, offset, flags);
    ghost var s2 := k.mem[..];
    k.mem[directory / 4 + i] := WithFlags(WithFlags(entry, flags), IS_WRITABLE);
    WithFlagsIs(entry, flags);
    WithFlagsIs(WithFlags(entry, flags), IS_WRITABLE);
    EntryRights(entry, flags);
    if entry != 0 {
      ghost var b := k.heap.BlockAt(entry);
      blocks' := blocks + [b];
      GrantOne(t0, m0, blocks, t, m, b);
      TablePlaced(s0, s, s1, s2, pool, blocks, b, i, flags, WithFlags(WithFlags(entry, flags), IS_WRITABLE));
      assert directory / 4 == (pool + blocks[0]) * ENTRIES;
    } else {
      blocks' := blocks;
      Scribbled(s0, s, s2, k.mem[..], pool, blocks, directory / 4 + i);
    }
  }

  function BlockOf(f: nat, pool: nat): nat {
    if f >= pool then f - pool else 0
  }

  ghost function TableBlocks(s: seq<uint32>, df: nat, pool: nat, n: nat): set<nat>
    requires |s| == WORDS && df < PAGES && n <= ENTRIES
  {
    set j | 0 <= j < n :: BlockOf(TableFrame(s, df, j), pool)
  }

  /** The heap blocks an address space lives in. */
  ghost function SpaceBlocks(s: seq<uint32>, chunk: uint32, pool: nat): set<nat>
    requires |s| == WORDS
  {
    {BlockOf(chunk / PAGE_SIZE, pool), BlockOf(DirFrame(s, chunk), pool)}
    + TableBlocks(s, DirFrame(s, chunk), pool, ENTRIES)
  }

  /** Nothing outside the frames of the address space differs. */
  ghost predicate OnlySpace(s0: seq<uint32>, s: seq<uint32>, chunk: uint32, pool: nat)
    requires |s| == WORDS
  {
    |s0| == |s| && forall w :: 0 <= w < |s| && w / ENTRIES - pool !in SpaceBlocks(s, chunk, pool) ==> s[w] == s0[w]
  }

  /** Once the chunk points at the directory, the 1026 blocks form the identity address space. */
  lemma SpaceBuilt(s0: seq<uint32>, s: seq<uint32>, s1: seq<uint32>, s2: seq<uint32>, pool: nat,
                   blocks: seq<nat>, b: nat, directory: uint32, flags: uint32)
    requires |s| == WORDS && |blocks| == ENTRIES + 1 && b !in blocks && pool + b < PAGES
    requires forall i, j :: 0 <= i < j < |blocks| ==> blocks[i] != blocks[j]
    requires Laid(s, pool, blocks[0], blocks[1..], flags) && OnlyBlocks(s0, s, pool, blocks, -1)
    requires OnlyFrames(s, s1, pool + b, 1) && directory == (pool + blocks[0]) * PAGE_SIZE
    requires s2 == s1[(pool + b) * ENTRIES := directory]
    ensures var chunk := (pool + b) * PAGE_SIZE;
      && IsChunk(s2, chunk) && Space(s2, chunk) == Identity(flags)
      && DirFrame(s2, chunk) == pool + blocks[0] && DirectoryRights(s2, DirFrame(s2, chunk), flags)
      && (forall i :: 0 <= i < ENTRIES ==> TableFrame(s2, DirFrame(s2, chunk), i) == pool + blocks[1..][i])
      && SpaceBlocks(s2, chunk, pool) == (set x | x in blocks + [b])
      && OnlySpace(s0, s2, chunk, pool)
  {
    hide WithFlags, DirectoryRights, HasRights, Filled, Flat, OnlyBlocks, Identity, OnlySpace, SpaceBlocks;
    var chunk: uint32, dir, tables := (pool + b) * PAGE_SIZE, blocks[0], blocks[1..];
    assert OnlyFrames(s, s2, pool + b, 1);
    LaidFrame(s, s2, pool, dir, tables, flags, b);
    assert chunk / 4 == (pool + b) * ENTRIES;
    assert DirFrame(s2, chunk) == pool + dir;
    LaidIsIdentity(s2, pool, dir, tables, flags);
    LaidRights(s2, pool, dir, tables, flags);
    forall i | 0 <= i < ENTRIES ensures TableFrame(s2, pool + dir, i) == pool + tables[i] {
      assert LaidAt(s2, pool, dir, tables[i], i, flags);
    }
    SpaceBlocksAre(s2, chunk, pool, blocks, tables, b);
    OnlyBlocksStep(s0, s, s2, pool, blocks, b, -1);
    SpaceOnly(s0, s2, pool, chunk, blocks + [b]);
  }

  lemma LaidRights(s: seq<uint32>, pool: nat, dir: nat, tables: seq<nat>, flags: uint32)
    requires Laid(s, pool, dir, tables, flags) && |tables| == ENTRIES
    ensures DirectoryRights(s, pool + dir, flags)
  {
    hide HasRights, Filled;
    var df := pool + dir;
    forall i | 0 <= i < ENTRIES ensures HasRights(DirectoryEntry(s, df, i), flags) {
      assert LaidAt(s, pool, dir, tables[i], i, flags);
    }
  }

  lemma SpaceOnly(s0: seq<uint32>, s: seq<uint32>, pool: nat, chunk: uint32, blocks: seq<nat>)
    requires |s| == WORDS && OnlyBlocks(s0, s, pool, blocks, -1)
    requires SpaceBlocks(s, chunk, pool) == set x | x in blocks
    ensures OnlySpace(s0, s, chunk, pool)
  {
    hide SpaceBlocks;
  }

  lemma LaidIsIdentity(s: seq<uint32>, pool: nat, dir: nat, tables: seq<nat>, flags: uint32)
    requires Laid(s, pool, dir, tables, flags) && |tables| == ENTRIES
    ensures Flat(s, pool + dir) == Identity(flags)
  {
    hide WithFlags, Filled;
    forall p | 0 <= p < PAGES ensures PageEntry(s, pool + dir, p) == WithFlags(p * PAGE_SIZE, flags) {
      var i := p / ENTRIES;
      assert LaidAt(s, pool, dir, tables[i], i, flags);
      FilledAt(s, pool + tables[i], i, flags, p % ENTRIES);
    }
  }

  lemma FilledAt(s: seq<uint32>, f: nat, i: nat, flags: uint32, j: nat)
    requires Filled(s, f, i, flags) && j < ENTRIES
    ensures s[f * ENTRIES + j] == WithFlags((i * ENTRIES + j) * PAGE_SIZE, flags)
  {
    assert WordAt(s, f, j) == s[f * ENTRIES + j];
  }

  lemma SpaceBlocksAre(s: seq<uint32>, chunk: uint32, pool: nat, blocks: seq<nat>, tables: seq<nat>, b: nat)
    requires |s| == WORDS && |tables| == ENTRIES && blocks != [] && tables == blocks[1..]
    requires pool + b == chunk / PAGE_SIZE && DirFrame(s, chunk) == pool + blocks[0]
    requires forall i :: 0 <= i < ENTRIES ==> TableFrame(s, DirFrame(s, chunk), i) == pool + tables[i]
    ensures SpaceBlocks(s, chunk, pool) == set x | x in blocks + [b]
  {
    var df := DirFrame(s, chunk);
    assert blocks == [blocks[0]] + tables;
    forall x ensures x in TableBlocks(s, df, pool, ENTRIES) <==> x in tables {
      if x in tables {
        var i :| 0 <= i < ENTRIES && tables[i] == x;
        assert BlockOf(TableFrame(s, df, i), pool) == x;
      }
      if x in TableBlocks(s, df, pool, ENTRIES) {
        var j :| 0 <= j < ENTRIES && BlockOf(TableFrame(s, df, j), pool) == x;
        assert x == tables[j];
      }
    }
  }

  /** All old allocations are still there; only frame 0 and newly allocated frames were written. */
  ghost predicate Leaked(m0: Runs, m: Runs, s0: seq<uint32>, s: seq<uint32>, pool: nat) {
    && |s0| == |s|
    && (forall b :: b in m0 ==> b in m && m[b] == m0[b])
    && forall w :: 0 <= w < |s| && w / ENTRIES != 0 && (w / ENTRIES >= pool ==> BlockOf(w / ENTRIES, pool) !in m.Keys - m0.Keys)
         ==> s[w] == s0[w]
  }

  lemma LeakedAll(t0: seq<Entry>, m0: Runs, blocks: seq<nat>, t: seq<Entry>, m: Runs,
                  s0: seq<uint32>, s: seq<uint32>, s': seq<uint32>, pool: nat)
    requires Granted(t0, m0, blocks, t, m) && |s| == |s'|
    requires OnlyBlocks(s0, s, pool, blocks, 0) || OnlyBlocks(s0, s, pool, blocks, -1)
    requires forall w :: 1 <= w < |s| ==> s'[w] == s[w]
    ensures Leaked(m0, m, s0, s', pool)
  {
    hide FreeCount;
    forall w | 0 <= w < |s| && w / ENTRIES != 0 && (w / ENTRIES >= pool ==> BlockOf(w / ENTRIES, pool) !in m.Keys - m0.Keys)
      ensures s'[w] == s0[w]
    {
      var x := BlockOf(w / ENTRIES, pool);
      assert x in blocks ==> x in m && x !in m0;
    }
  }

  /** The outcome of a successful paging_new_4gb: an identity address space made of exactly
      1026 blocks that were free, everything else as before. */
  ghost predicate IsNewSpace(t0: seq<Entry>, m0: Runs, s0: seq<uint32>, t: seq<Entry>, m: Runs, s: seq<uint32>,
                             chunk: uint32, pool: nat, flags: uint32) {
    && IsChunk(s, chunk)
    && Space(s, chunk) == Identity(flags) && DirectoryRights(s, DirFrame(s, chunk), flags)
    && SpaceBlocks(s, chunk, pool) !! m0.Keys
    && m == m0 + OneBlockRuns(SpaceBlocks(s, chunk, pool))
    && FreeCount(t) == FreeCount(t0) - SPACE_BLOCKS
    && OnlySpace(s0, s, chunk, pool)
  }

  /** Every page of the address space is a live one-block run of the heap. */
  ghost predicate OwnedBlocks(m: Runs, total: nat, s: seq<uint32>, chunk: uint32, pool: nat)
    requires |s| == WORDS
  {
    && Owned(m, total, chunk / PAGE_SIZE, pool)
    && Owned(m, total, DirFrame(s, chunk), pool)
    && forall i :: 0 <= i < ENTRIES ==> Owned(m, total, TableFrame(s, DirFrame(s, chunk), i), pool)
  }

  ghost predicate Owned(m: Runs, total: nat, f: nat, pool: nat) {
    pool <= f < pool + total && f - pool in m && m[f - pool] == 1
  }

  lemma NewSpaceDone(t0: seq<Entry>, m0: Runs, s0: seq<uint32>, t: seq<Entry>, m: Runs,
                     s: seq<uint32>, s1: seq<uint32>, s2: seq<uint32>, pool: nat,
                     blocks: seq<nat>, b: nat, directory: uint32, flags: uint32)
    requires |s| == |s1| == WORDS && |blocks| == ENTRIES + 1 && pool + b < PAGES
    requires Granted(t0, m0, blocks + [b], t, m)
    requires Laid(s, pool, blocks[0], blocks[1..], flags) && OnlyBlocks(s0, s, pool, blocks, -1)
    requires OnlyFrames(s, s1, pool + b, 1) && directory == (pool + blocks[0]) * PAGE_SIZE
    requires s2 == s1[(pool + b) * ENTRIES := directory]
    ensures IsNewSpace(t0, m0, s0, t, m, s2, (pool + b) * PAGE_SIZE, pool, flags)
    ensures OwnedBlocks(m, |t|, s2, (pool + b) * PAGE_SIZE, pool)
  {
    hide DirectoryRights, FreeCount, Laid, OnlyBlocks, OnlySpace, OnlyFrames, SpaceBlocks, IsChunk, Flat, Identity, Granted, OwnedBlocks;
    GrantedApart(t0, m0, blocks, b, t, m);
    SpaceBuilt(s0, s, s1, s2, pool, blocks, b, directory, flags);
    GrantedCount(t0, m0, blocks + [b], t, m);
    GrantedRuns(t0, m0, blocks + [b], t, m);
    SpaceOwned(t0, m0, t, m, s2, (pool + b) * PAGE_SIZE, pool, blocks, b, blocks[1..]);
  }

  lemma GrantedApart(t0: seq<Entry>, m0: Runs, blocks: seq<nat>, b: nat, t: seq<Entry>, m: Runs)
    requires Granted(t0, m0, blocks + [b], t, m)
    ensures b !in blocks && forall i, j :: 0 <= i < j < |blocks| ==> blocks[i] != blocks[j]
  {
    hide FreeCount;
    var all := blocks + [b];
    forall i | 0 <= i < |blocks| ensures blocks[i] != b { assert all[i] != all[|blocks|]; }
    forall i, j | 0 <= i < j < |blocks| ensures blocks[i] != blocks[j] { assert all[i] != all[j]; }
  }

  lemma GrantedRuns(t0: seq<Entry>, m0: Runs, blocks: seq<nat>, t: seq<Entry>, m: Runs)
    requires Granted(t0, m0, blocks, t, m)
    ensures m == m0 + OneBlockRuns(set x | x in blocks) && (set x | x in blocks) !! m0.Keys
  {
    hide FreeCount;
  }

  lemma SpaceOwned(t0: seq<Entry>, m0: Runs, t: seq<Entry>, m: Runs, s: seq<uint32>, chunk: uint32, pool: nat,
                   blocks: seq<nat>, b: nat, tables: seq<nat>)
    requires |s| == WORDS && |tables| == ENTRIES && blocks != [] && tables == blocks[1..]
    requires Granted(t0, m0, blocks + [b], t, m)
    requires chunk / PAGE_SIZE == pool + b && DirFrame(s, chunk) == pool + blocks[0]
    requires forall i :: 0 <= i < ENTRIES ==> TableFrame(s, DirFrame(s, chunk), i) == pool + tables[i]
    ensures OwnedBlocks(m, |t|, s, chunk, pool)
  {
    hide FreeCount, DirFrame, TableFrame, Granted, Owned;
    var all := blocks + [b];
    assert blocks == [blocks[0]] + tables;
    forall x | x in all ensures Owned(m, |t|, pool + x, pool) { GrantedOwned(t0, m0, all, t, m, x, pool); }
    assert b in all && blocks[0] in all;
    forall i | 0 <= i < ENTRIES ensures Owned(m, |t|, TableFrame(s, DirFrame(s, chunk), i), pool) {
      assert tables[i] in blocks && tables[i] in all;
    }
  }

  lemma GrantedOwned(t0: seq<Entry>, m0: Runs, blocks: seq<nat>, t: seq<Entry>, m: Runs, x: nat, pool: nat)
    requires Granted(t0, m0, blocks, t, m) && x in blocks
    ensures Owned(m, |t|, pool + x, pool)
  {
  }

  /** The chunk, its directory and its tables are distinct live one-block allocations. */
  ghost predicate OwnsSpace(k: Machine, chunk: uint32)
    reads k, k.heap, k.mem
  {
    && IsChunk(k.mem[..], chunk)
    && OwnedBlocks(k.heap.live, k.heap.total, k.mem[..], chunk, k.heap.saddr / PAGE_SIZE)
  }

  /** The end of paging_new_4gb: allocate the chunk and point it at the directory. */
  method NewChunk(k: Machine, directory: uint32, flags: uint32,
                  ghost t0: seq<Entry>, ghost m0: Runs, ghost s0: seq<uint32>, ghost blocks: seq<nat>)
    returns (chunk: uint32)
    requires Building(k, t0, m0, s0, blocks, directory, ENTRIES, flags)
    modifies k.heap.low, k.heap`live, k.mem
    ensures k.Valid()
    ensures chunk != 0 <==> FreeCount(t0) >= SPACE_BLOCKS
    ensures chunk != 0 ==> OwnsSpace(k, chunk)
    ensures chunk != 0 ==> IsNewSpace(t0, m0, s0, k.heap.Table(), k.heap.live, k.mem[..], chunk, k.heap.saddr / PAGE_SIZE, flags)
    ensures chunk == 0 ==> FreeCount(k.heap.Table()) == 0
    ensures chunk == 0 ==> Leaked(m0, k.heap.live, s0, k.mem[..], k.heap.saddr / PAGE_SIZE)
    ensures SameAround(old(k.heap.low[..]), k.heap.low[..], k.heap.base, k.heap.total)
  {
    hide FreeCount, Laid, OnlyFrames, OnlyBlocks, Encodes, Marked, Granted, Heap.BlockIndex,
      Leaked, IsNewSpace, IsChunk, OwnedBlocks, SameAround;
    ghost var s, t, m, pool := k.mem[..], k.heap.Table(), k.heap.live, k.heap.saddr / PAGE_SIZE;
    GrantedCount(t0, m0, blocks, t, m);
    chunk := k.KzallocPage(4);
    ghost var s1 := k.mem[..];
    k.mem[chunk / 4] := directory;
    if chunk != 0 {
      ghost var b := k.heap.BlockAt(chunk);
      GrantOne(t0, m0, blocks, t, m, b);
      assert chunk / 4 == (pool + b) * ENTRIES && chunk == (pool + b) * PAGE_SIZE;
      assert k.mem[..] == s1[(pool + b) * ENTRIES := directory];
      NewSpaceDone(t0, m0, s0, k.heap.Table(), k.heap.live, s, s1, k.mem[..], pool, blocks, b, directory, flags);
      IsNewChunk(t0, m0, s0, k.heap.Table(), k.heap.live, k.mem[..], chunk, pool, flags);
    } else {
      LeakedAll(t0, m0, blocks, t, m, s0, s, k.mem[..], pool);
    }
  }

  lemma IsNewChunk(t0: seq<Entry>, m0: Runs, s0: seq<uint32>, t: seq<Entry>, m: Runs, s: seq<uint32>,
                   chunk: uint32, pool: nat, flags: uint32)
    requires IsNewSpace(t0, m0, s0, t, m, s, chunk, pool, flags)
    ensures IsChunk(s, chunk)
  {
  }

  /** The start of paging_new_4gb: the page for the directory. */
  method NewDirectory(k: Machine, flags: uint32) returns (directory: uint32, ghost blocks: seq<nat>)
    requires k.Valid() && flags < 256
    modifies k.heap.low, k.heap`live, k.mem
    ensures Building(k, old(k.heap.Table()), old(k.heap.live), old(k.mem[..]), blocks, directory, 0, flags)
    ensures SameAround(old(k.heap.low[..]), k.heap.low[..], k.heap.base, k.heap.total)
  {
    hide FreeCount, Laid, OnlyFrames, OnlyBlocks, Encodes, Marked, Granted, Heap.BlockIndex, SameAround, Building, ScanAnswer;
    ghost var t0, m0, s0, pool := k.heap.Table(), k.heap.live, k.mem[..], k.heap.saddr / PAGE_SIZE;
    directory := k.KzallocPage(4 * ENTRIES);
    blocks := if directory == 0 then [] else [k.heap.BlockAt(directory)];
    BuildStart(t0, m0, s0, k.mem[..], pool, blocks, flags);
    if directory != 0 {
      GrantOne(t0, m0, [], t0, m0, blocks[0]);
      assert [] + blocks == blocks;
    }
    Started(k, t0, m0, s0, blocks, directory, flags);
  }

  lemma Started(k: Machine, t0: seq<Entry>, m0: Runs, s0: seq<uint32>, blocks: seq<nat>, directory: uint32, flags: uint32)
    requires k.Valid() && Granted(t0, m0, blocks, k.heap.Table(), k.heap.live)
    requires directory == 0 ==>
      && blocks == [] && FreeCount(t0) == FreeCount(k.heap.Table()) == 0
      && OnlyBlocks(s0, k.mem[..], k.heap.saddr / PAGE_SIZE, blocks, 0)
    requires directory != 0 ==>
      && |blocks| == 1 && FreeCount(t0) > 0 && directory == (k.heap.saddr / PAGE_SIZE + blocks[0]) * PAGE_SIZE
      && Laid(k.mem[..], k.heap.saddr / PAGE_SIZE, blocks[0], blocks[1..], flags)
      && OnlyBlocks(s0, k.mem[..], k.heap.saddr / PAGE_SIZE, blocks, -1)
    ensures Building(k, t0, m0, s0, blocks, directory, 0, flags)
  {
    hide FreeCount, Laid, OnlyBlocks, Encodes, Granted;
  }

  /** paging_new_4gb builds a complete identity mapping out of 1026 free blocks, or returns
      null exactly when there are fewer, having used up (and leaked) every free block. */
  method New4GB(k: Machine, flags: uint32) returns (chunk: uint32)
    requires k.Valid() && flags < 256
    modifies k.heap.low, k.heap`live, k.mem
    ensures k.Valid()
    ensures chunk != 0 <==> FreeCount(old(k.heap.Table())) >= SPACE_BLOCKS
    ensures chunk != 0 ==> OwnsSpace(k, chunk)
    ensures chunk != 0 ==> IsNewSpace(old(k.heap.Table()), old(k.heap.live), old(k.mem[..]),
      k.heap.Table(), k.heap.live, k.mem[..], chunk, k.heap.saddr / PAGE_SIZE, flags)
    ensures chunk == 0 ==> FreeCount(k.heap.Table()) == 0
    ensures chunk == 0 ==>
      Leaked(old(k.heap.live), k.heap.live, old(k.mem[..]), k.mem[..], k.heap.saddr / PAGE_SIZE)
    ensures SameAround(old(k.heap.low[..]), k.heap.low[..], k.heap.base, k.heap.total)
  {
    hide FreeCount, Laid, OnlyFrames, OnlyBlocks, Encodes, Marked, Granted, Heap.BlockIndex,
      Leaked, IsNewSpace, OwnsSpace, SameAround, Building;
    ghost var low := k.heap.low[..];
    ghost var t0, m0, s0 := k.heap.Table(), k.heap.live, k.mem[..];
    var directory;
    ghost var blocks: seq<nat>;
    directory, blocks := NewDirectory(k, flags);
    var offset: uint32 := 0;
    var i := 0;
    while i < ENTRIES
      invariant 0 <= i <= ENTRIES
      invariant i < ENTRIES ==> offset == i * ENTRIES * PAGE_SIZE
      invariant Building(k, t0, m0, s0, blocks, directory, i, flags)
      invariant SameAround(low, k.heap.low[..], k.heap.base, k.heap.total)
    {
      ghost var before := k.heap.low[..];
      blocks := AddTable(k, directory, i, offset, flags, t0, m0, s0, blocks);
      AroundTrans(low, before, k.heap.low[..], k.heap.base, k.heap.total);
      offset := Wrap(offset + ENTRIES * PAGE_SIZE);
      i := i + 1;
    }
    ghost var before := k.heap.low[..];
    chunk := NewChunk(k, directory, flags, t0, m0, s0, blocks);
    AroundTrans(low, before, k.heap.low[..], k.heap.base, k.heap.total);
  }
}
