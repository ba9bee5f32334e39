/** The two-level 32-bit page table held in physical memory, and the flat map of
    2^20 entries it stands for. Frames are physical pages, by number. */
module PageTables {
  import opened Status
  import opened Bits
  import opened Memory

  const PAGE_SIZE := 4096
  const ENTRIES := 1024
  const PAGES := 0x100000
  const IS_WRITABLE := 2

  /** Directory entry i. */
  function DirectoryEntry(s: seq<uint32>, df: nat, i: nat): uint32
    requires |s| == WORDS && df < PAGES && i < ENTRIES
  {
    s[df * ENTRIES + i]
  }

  /** Frame of the table that directory entry i points at, flags masked off. */
  function TableFrame(s: seq<uint32>, df: nat, i: nat): (f: nat)
    requires |s| == WORDS && df < PAGES && i < ENTRIES
    ensures f < PAGES
  {
    DirectoryEntry(s, df, i) / PAGE_SIZE
  }

  /** The directory and its 1024 tables are pairwise distinct pages. */
  ghost predicate IsTree(s: seq<uint32>, df: nat)
    requires |s| == WORDS
  {
    && df < PAGES
    && (forall i :: 0 <= i < ENTRIES ==> TableFrame(s, df, i) != df)
    && (forall i, j :: 0 <= i < j < ENTRIES ==> TableFrame(s, df, i) != TableFrame(s, df, j))
  }

  /** Word of memory holding the entry of page p. */
  function EntryIndex(s: seq<uint32>, df: nat, p: nat): (w: nat)
    requires |s| == WORDS && df < PAGES && p < PAGES
    ensures w < WORDS
  {
    TableFrame(s, df, p / ENTRIES) * ENTRIES + p % ENTRIES
  }

  function PageEntry(s: seq<uint32>, df: nat, p: nat): uint32
    requires |s| == WORDS && df < PAGES && p < PAGES
  {
    s[EntryIndex(s, df, p)]
  }

  /** The flat map the tree stands for: page number to entry. */
  function Flat(s: seq<uint32>, df: nat): (f: seq<uint32>)
    requires |s| == WORDS && df < PAGES
    ensures |f| == PAGES
  {
    seq(PAGES, p requires 0 <= p < PAGES => PageEntry(s, df, p))
  }

  /** The directory entries are the same, flags included. */
  ghost predicate SameTables(s: seq<uint32>, s': seq<uint32>, df: nat)
    requires |s| == |s'| == WORDS && df < PAGES
  {
    forall i :: 0 <= i < ENTRIES ==> DirectoryEntry(s', df, i) == DirectoryEntry(s, df, i)
  }

  lemma SameFrames(s: seq<uint32>, s': seq<uint32>, df: nat)
    requires |s| == |s'| == WORDS && df < PAGES && SameTables(s, s', df)
    ensures forall i :: 0 <= i < ENTRIES ==> TableFrame(s', df, i) == TableFrame(s, df, i)
  {
    forall i | 0 <= i < ENTRIES ensures TableFrame(s', df, i) == TableFrame(s, df, i) {
      assert DirectoryEntry(s', df, i) == DirectoryEntry(s, df, i);
    }
  }

  lemma SameTablesTrans(s: seq<uint32>, t: seq<uint32>, u: seq<uint32>, df: nat)
    requires |s| == |t| == |u| == WORDS && df < PAGES && SameTables(s, t, df) && SameTables(t, u, df)
    ensures SameTables(s, u, df)
  {
    forall i | 0 <= i < ENTRIES ensures DirectoryEntry(u, df, i) == DirectoryEntry(s, df, i) {
      assert DirectoryEntry(t, df, i) == DirectoryEntry(s, df, i);
    }
  }

  /** The tree lives in pages df and TableFrame(_); nothing outside its tables differs. */
  ghost predicate OnlyTables(s: seq<uint32>, s': seq<uint32>, df: nat)
    requires |s| == |s'| == WORDS && df < PAGES
  {
    forall w :: 0 <= w < WORDS && (forall i :: 0 <= i < ENTRIES ==> TableFrame(s, df, i) != w / ENTRIES)
      ==> s'[w] == s[w]
  }

  /** Writing one entry through the tree changes the flat map at that page and nowhere else. */
  lemma SetIsFlatUpdate(s: seq<uint32>, df: nat, p: nat, v: uint32)
    requires |s| == WORDS && IsTree(s, df) && p < PAGES
    ensures var s' := s[EntryIndex(s, df, p) := v];
      && IsTree(s', df) && SameTables(s, s', df) && OnlyTables(s, s', df)
      && Flat(s', df) == Flat(s, df)[p := v]
  {
    var x := EntryIndex(s, df, p);
    var s' := s[x := v];
    forall i | 0 <= i < ENTRIES ensures DirectoryEntry(s', df, i) == DirectoryEntry(s, df, i) {
      assert x / ENTRIES == TableFrame(s, df, p / ENTRIES) != df == (df * ENTRIES + i) / ENTRIES;
    }
    SameFrames(s, s', df);
    forall q | 0 <= q < PAGES ensures Flat(s', df)[q] == Flat(s, df)[p := v][q] {
      EntryIndexInjective(s, df, p, q);
    }
    forall w | 0 <= w < WORDS && forall i :: 0 <= i < ENTRIES ==> TableFrame(s, df, i) != w / ENTRIES
      ensures s'[w] == s[w]
    {
      assert TableFrame(s, df, p / ENTRIES) != w / ENTRIES;
    }
  }

  lemma EntryIndexInjective(s: seq<uint32>, df: nat, p: nat, q: nat)
    requires |s| == WORDS && IsTree(s, df) && p < PAGES && q < PAGES
    ensures p != q ==> EntryIndex(s, df, p) != EntryIndex(s, df, q)
  {
    var i, j := p / ENTRIES, q / ENTRIES;
    if i < j { assert TableFrame(s, df, i) != TableFrame(s, df, j); }
    if j < i { assert TableFrame(s, df, j) != TableFrame(s, df, i); }
  }

  lemma OnlyTablesTrans(s: seq<uint32>, t: seq<uint32>, u: seq<uint32>, df: nat)
    requires |s| == |t| == |u| == WORDS && df < PAGES
    requires SameTables(s, t, df) && OnlyTables(s, t, df) && OnlyTables(t, u, df)
    ensures OnlyTables(s, u, df)
  {
    SameFrames(s, t, df);
    forall w | 0 <= w < WORDS && forall i :: 0 <= i < ENTRIES ==> TableFrame(s, df, i) != w / ENTRIES
      ensures u[w] == s[w]
    {
      assert forall i :: 0 <= i < ENTRIES ==> TableFrame(t, df, i) != w / ENTRIES;
    }
  }

  /** A tree whose pages hold the same words denotes the same flat map. */
  lemma FlatFrame(s: seq<uint32>, s': seq<uint32>, df: nat)
    requires |s| == |s'| == WORDS && IsTree(s, df)
    requires forall w :: 0 <= w < WORDS && w / ENTRIES == df ==> s'[w] == s[w]
    requires forall w, i :: 0 <= w < WORDS && 0 <= i < ENTRIES && w / ENTRIES == TableFrame(s, df, i) ==> s'[w] == s[w]
    ensures IsTree(s', df) && SameTables(s, s', df) && Flat(s', df) == Flat(s, df)
  {
    forall i | 0 <= i < ENTRIES ensures DirectoryEntry(s', df, i) == DirectoryEntry(s, df, i) {
      assert (df * ENTRIES + i) / ENTRIES == df;
    }
    SameFrames(s, s', df);
    forall p | 0 <= p < PAGES ensures PageEntry(s', df, p) == PageEntry(s, df, p) {
      var w := EntryIndex(s, df, p);
      assert w / ENTRIES == TableFrame(s, df, p / ENTRIES);
    }
  }

  // ---- mapping ranges, on the flat map ----

  function MappedEntry(f: seq<uint32>, virt: nat, phys: nat, n: nat, flags: uint32, q: nat): uint32
    requires |f| == PAGES && q < PAGES
  {
    var k := (q - virt) % PAGES;
    if k < n then WithFlags((phys + k) % PAGES * PAGE_SIZE, flags) else f[q]
  }

  /** Pages virt, virt+1, ... (n of them, modulo the address space) map to phys, phys+1, ...; pages met
      again after a full round map to the same frame again. */
  function MapRange(f: seq<uint32>, virt: nat, phys: nat, n: nat, flags: uint32): (r: seq<uint32>)
    requires |f| == PAGES
    ensures |r| == PAGES
  {
    seq(PAGES, q requires 0 <= q < PAGES => MappedEntry(f, virt, phys, n, flags, q))
  }

  lemma MapRangeStep(f: seq<uint32>, virt: nat, phys: nat, n: nat, flags: uint32)
    requires |f| == PAGES
    ensures MapRange(f, virt, phys, n + 1, flags)
         == MapRange(f, virt, phys, n, flags)[(virt + n) % PAGES := WithFlags((phys + n) % PAGES * PAGE_SIZE, flags)]
  {
    hide WithFlags;
    var longer := MapRange(f, virt, phys, n + 1, flags);
    var updated := MapRange(f, virt, phys, n, flags)[(virt + n) % PAGES := WithFlags((phys + n) % PAGES * PAGE_SIZE, flags)];
    forall q | 0 <= q < PAGES ensures longer[q] == updated[q] {
      PageDistance(q, virt, n % PAGES);
      Round(virt, n);
      Round(phys, n);
    }
  }

  lemma Round(a: nat, n: nat)
    ensures (a + n) % PAGES == (a + n % PAGES) % PAGES
  {
  }

  lemma PageDistance(q: nat, virt: nat, n: nat)
    requires q < PAGES && n < PAGES
    ensures (q - virt) % PAGES == n <==> q == (virt + n) % PAGES
  {
    var k := (q - virt) % PAGES;
    assert (virt + k) % PAGES == q;
    assert ((virt + n) % PAGES - virt) % PAGES == n;
  }

  /** Outcome of paging_map_to on the flat map. */
  datatype Mapped = Mapped(res: int, flat: seq<uint32>)

  function MapTo(f: seq<uint32>, va: uint32, pa: uint32, end: uint32, flags: uint32): (r: Mapped)
    requires |f| == PAGES
    ensures |r.flat| == PAGES && (r.res == 0 || r.res == -EINVARG)
  {
    if va % PAGE_SIZE != 0 || pa % PAGE_SIZE != 0 || end % PAGE_SIZE != 0 || end < pa
    then Mapped(-EINVARG, f)
    else Mapped(0, MapRange(f, va / PAGE_SIZE, pa / PAGE_SIZE, (end - pa) / PAGE_SIZE, flags))
  }

  /** The address paging_get_physical_address computes. */
  function Translate(f: seq<uint32>, va: uint32): uint32
    requires |f| == PAGES
  {
    Wrap(Mask(f[va / PAGE_SIZE]) + va % PAGE_SIZE)
  }

  /** An entry with the present, write and user bits of `flags`. */
  predicate HasBits(e: uint32, flags: nat) {
    e % 2 == flags % 2 && e / 2 % 2 == flags / 2 % 2 && e / 4 % 2 == flags / 4 % 2
  }

  /** Identity mapping, as paging_new_4gb lays it out. */
  function Identity(flags: uint32): (f: seq<uint32>)
    ensures |f| == PAGES
  {
    seq(PAGES, p requires 0 <= p < PAGES => WithFlags(p * PAGE_SIZE, flags))
  }

  lemma IdentityTranslates(flags: uint32, va: uint32)
    requires flags < PAGE_SIZE
    ensures Translate(Identity(flags), va) == va
  {
    hide WithFlags;
    WithFlagsIs(va / PAGE_SIZE * PAGE_SIZE, flags);
    assert Identity(flags)[va / PAGE_SIZE] == WithFlags(va / PAGE_SIZE * PAGE_SIZE, flags);
  }

  /** On success the target pages, and only they, translate to physical + (v - virtual);
      on error nothing changes. */
  lemma MapToTranslates(f: seq<uint32>, va: uint32, pa: uint32, end: uint32, flags: uint32, v: uint32)
    requires |f| == PAGES && flags < PAGE_SIZE
    ensures var r := MapTo(f, va, pa, end, flags);
      && (r.res >= 0 <==> va % 4096 == pa % 4096 == end % 4096 == 0 && pa <= end)
      && (r.res < 0 ==> r.flat == f)
      && (r.res >= 0 && va <= v < va + (end - pa) ==>
            Translate(r.flat, v) == pa + (v - va) && r.flat[v / PAGE_SIZE] % PAGE_SIZE == flags)
      && (r.res >= 0 && va + (end - pa) <= U32 && !(va <= v < va + (end - pa)) ==>
            r.flat[v / PAGE_SIZE] == f[v / PAGE_SIZE] && Translate(r.flat, v) == Translate(f, v))
  {
    hide Mask, WithFlags;
    var r := MapTo(f, va, pa, end, flags);
    if r.res >= 0 {
      var q, vp, pp, n := v / PAGE_SIZE, va / PAGE_SIZE, pa / PAGE_SIZE, (end - pa) / PAGE_SIZE;
      var k := (q - vp) % PAGES;
      assert r.flat[q] == MappedEntry(f, vp, pp, n, flags, q);
      if va <= v < va + (end - pa) {
        assert k == q - vp < n;
        assert pp + k < PAGES;
        WithFlagsIs((pp + k) * PAGE_SIZE, flags);
        assert r.flat[q] == WithFlags((pp + k) * PAGE_SIZE, flags);
      } else if va + (end - pa) <= U32 {
        assert k >= n;
        assert r.flat[q] == f[q];
      }
    }
  }

  /** Flags do not disturb the address part of an entry, and the entry has their bits. */
  lemma FlagsOf(a: uint32, flags: uint32)
    requires a % PAGE_SIZE == 0 && flags < PAGE_SIZE
    ensures Mask(WithFlags(a, flags)) == a
    ensures HasBits(WithFlags(a, flags), flags)
  {
    hide WithFlags, Mask;
    WithFlagsIs(a, flags);
    FlagBits(a, flags);
    assert a % 2 == a / 2 % 2 == a / 4 % 2 == 0;
  }

  lemma AndTwo(e: uint32)
    ensures And(e, 2) == 2 * (e / 2 % 2)
  {
    assert And(e, 2) == 2 * And(e / 2, 1);
    assert And(e / 2, 1) == 2 * And(e / 2 / 2, 0) + e / 2 % 2;
    AndZero(e / 2 / 2);
  }

  lemma {:induction false} AndZero(a: nat)
    ensures And(a, 0) == 0
  {
    if a > 0 { AndZero(a / 2); }
  }
}
