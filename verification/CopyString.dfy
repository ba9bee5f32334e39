/** copy_string_from_task: reading a string out of another address space by way of a
    temporary page that is mapped into that space for the duration of the copy. */
module CopyString {
  import opened Status
  import opened Bits
  import opened Memory
  import opened HeapTable
  import opened PageTables
  import opened Paging
  import opened Kernel
  import opened AddressSpace
  import ProcessMemory
  import Heap

  const COPY_FLAGS: uint32 := 7

  /** Physical address of character i. */
  function CharPlace(f: seq<uint32>, src: uint32, i: nat): uint32
    requires |f| == PAGES
  {
    Translate(f, Wrap(src + i))
  }

  /** Character i of the string at virtual address `src`, read through the map f. */
  function CharAt(s: seq<uint32>, f: seq<uint32>, src: uint32, i: nat): byte
    requires |s| == WORDS && |f| == PAGES
  {
    ReadByte(s, CharPlace(f, src, i))
  }

  /** The byte i places after physical address a. */
  function ByteAfter(s: seq<uint32>, a: uint32, i: nat): byte
    requires |s| == WORDS && a + i < U32
  {
    ReadByte(s, a + i)
  }

  /** The string has not ended before character i. */
  ghost predicate Unended(s: seq<uint32>, f: seq<uint32>, src: uint32, i: nat)
    requires |s| == WORDS && |f| == PAGES
  {
    forall j :: 0 <= j < i ==> CharAt(s, f, src, j) != 0
  }

  /** len is the number of characters strncpy moves with bound n. */
  ghost predicate IsPrefix(s: seq<uint32>, f: seq<uint32>, src: uint32, n: nat, len: nat)
    requires |s| == WORDS && |f| == PAGES
  {
    && len < n
    && (forall i :: 0 <= i < len ==> CharAt(s, f, src, i) != 0)
    && (len == n - 1 || CharAt(s, f, src, len) == 0)
  }

  /** Memory at physical address dest holds those len characters and a NUL. */
  ghost predicate Holds(s': seq<uint32>, dest: uint32, s: seq<uint32>, f: seq<uint32>, src: uint32, len: nat)
    requires |s| == |s'| == WORDS && |f| == PAGES && dest + len < U32
  {
    && (forall i :: 0 <= i < len ==> ByteAfter(s', dest, i) == CharAt(s, f, src, i))
    && ByteAfter(s', dest, len) == 0
  }

  /** Frame `frame` holds no part of the page tables of the space. */
  ghost predicate OutsideTree(s: seq<uint32>, chunk: uint32, frame: nat)
    requires |s| == WORDS
  {
    && frame != chunk / PAGE_SIZE && frame != DirFrame(s, chunk)
    && forall i :: 0 <= i < ENTRIES ==> TableFrame(s, DirFrame(s, chunk), i) != frame
  }

  /** Writing outside the page tables leaves the address space as it is. */
  lemma TreeUntouched(s: seq<uint32>, s': seq<uint32>, chunk: uint32)
    requires IsChunk(s, chunk) && |s'| == |s|
    requires forall w :: 0 <= w < WORDS && !OutsideTree(s, chunk, w / ENTRIES) ==> s'[w] == s[w]
    ensures IsChunk(s', chunk) && DirFrame(s', chunk) == DirFrame(s, chunk)
    ensures SameTables(s, s', DirFrame(s, chunk)) && Space(s', chunk) == Space(s, chunk)
  {
    hide Flat;
    var df := DirFrame(s, chunk);
    assert chunk / 4 / ENTRIES == chunk / PAGE_SIZE;
    assert !OutsideTree(s, chunk, chunk / PAGE_SIZE);
    forall w | 0 <= w < WORDS && w / ENTRIES == df ensures s'[w] == s[w] {
      assert !OutsideTree(s, chunk, w / ENTRIES);
    }
    forall w, i | 0 <= w < WORDS && 0 <= i < ENTRIES && w / ENTRIES == TableFrame(s, df, i) ensures s'[w] == s[w] {
      assert !OutsideTree(s, chunk, w / ENTRIES);
    }
    FlatFrame(s, s', df);
    SameFrames(s, s', df);
  }

  lemma WriteElsewhere(s: seq<uint32>, chunk: uint32, a: uint32, b: byte)
    requires IsChunk(s, chunk) && OutsideTree(s, chunk, a / PAGE_SIZE)
    ensures var s' := WriteByte(s, a, b);
      && IsChunk(s', chunk) && DirFrame(s', chunk) == DirFrame(s, chunk)
      && SameTables(s, s', DirFrame(s, chunk)) && Space(s', chunk) == Space(s, chunk)
      && OnlyFrames(s, s', a / PAGE_SIZE, 1)
      && forall f: nat :: OutsideTree(s', chunk, f) <==> OutsideTree(s, chunk, f)
  {
    hide Flat;
    var s' := WriteByte(s, a, b);
    assert a / 4 / ENTRIES == a / PAGE_SIZE;
    forall w | 0 <= w < WORDS && !OutsideTree(s, chunk, w / ENTRIES) ensures s'[w] == s[w] {
      assert w != a / 4;
    }
    TreeUntouched(s, s', chunk);
    SameFrames(s, s', DirFrame(s, chunk));
  }

  /** No character among the first n, up to and including the NUL, lies in physical frame `frame`. */
  ghost predicate Apart(s: seq<uint32>, f: seq<uint32>, src: uint32, n: int, frame: nat)
    requires |s| == WORDS && |f| == PAGES
  {
    forall i :: 0 <= i < n && Unended(s, f, src, i) ==> CharPlace(f, src, i) / PAGE_SIZE != frame
  }

  lemma OnlyFramesTrans(s: seq<uint32>, t: seq<uint32>, u: seq<uint32>, f: nat)
    requires OnlyFrames(s, t, f, 1) && OnlyFrames(t, u, f, 1)
    ensures OnlyFrames(s, u, f, 1)
  {
  }

  lemma ByteElsewhere(s: seq<uint32>, s': seq<uint32>, frame: nat, a: uint32)
    requires |s| == WORDS && OnlyFrames(s, s', frame, 1) && a / PAGE_SIZE != frame
    ensures ReadByte(s', a) == ReadByte(s, a)
  {
    assert a / 4 / PAGE_WORDS == a / PAGE_SIZE;
  }

  lemma InOwnPage(f: seq<uint32>, dest: uint32, i: nat)
    requires |f| == PAGES && dest % PAGE_SIZE == 0 && i < PAGE_SIZE && Mask(f[dest / PAGE_SIZE]) == dest
    ensures Wrap(dest + i) == dest + i && Translate(f, dest + i) == dest + i && (dest + i) / PAGE_SIZE == dest / PAGE_SIZE
  {
    hide Mask;
  }

  /** The task's view is intact after i characters, which sit at dest. */
  ghost predicate Copied(s0: seq<uint32>, s: seq<uint32>, chunk: uint32, dest: uint32, src: uint32, n: nat, i: nat)
    requires |s0| == WORDS && dest + i < U32
  {
    && IsChunk(s, chunk) && Space(s, chunk) == Space(s0, chunk)
    && DirFrame(s, chunk) == DirFrame(s0, chunk)
    && SameTables(s0, s, DirFrame(s0, chunk))
    && OnlyFrames(s0, s, dest / PAGE_SIZE, 1)
    && OutsideTree(s, chunk, dest / PAGE_SIZE)
    && (Apart(s0, Space(s0, chunk), src, n - 1, dest / PAGE_SIZE) ==>
        forall j :: 0 <= j < i ==>
          CharAt(s0, Space(s0, chunk), src, j) != 0 && ByteAfter(s, dest, j) == CharAt(s0, Space(s0, chunk), src, j))
  }

  lemma CopiedWrite(s0: seq<uint32>, s: seq<uint32>, chunk: uint32, dest: uint32, src: uint32, n: nat, i: nat, c: byte)
    requires |s0| == WORDS && dest % PAGE_SIZE == 0 && i < PAGE_SIZE && Copied(s0, s, chunk, dest, src, n, i)
    ensures var s' := WriteByte(s, dest + i, c);
      && Copied(s0, s', chunk, dest, src, n, i)
      && ByteAfter(s', dest, i) == c
  {
    hide Flat, IsTree, OnlyFrames, SameTables, WriteByte, ReadByte, CharPlace, OutsideTree;
    assert (dest + i) / PAGE_SIZE == dest / PAGE_SIZE;
    var s' := WriteByte(s, dest + i, c);
    WriteElsewhere(s, chunk, dest + i, c);
    OnlyFramesTrans(s0, s, s', dest / PAGE_SIZE);
    SameTablesTrans(s0, s, s', DirFrame(s0, chunk));
    forall j | 0 <= j <= i ensures ByteAfter(s', dest, j) == if j == i then c else ByteAfter(s, dest, j) {
      ReadWrite(s, dest + i, c, dest + j);
    }
  }

  method StoreByte(k: Machine, a: uint32, b: byte)
    requires k.mem.Length == WORDS
    modifies k.mem
    ensures k.mem[..] == WriteByte(old(k.mem[..]), a, b)
  {
    hide ByteOf;
    k.mem[a / 4] := SetByte(k.mem[a / 4], a % 4, b);
  }

  method LoadByte(k: Machine, a: uint32) returns (b: byte)
    requires k.mem.Length == WORDS
    ensures b == ReadByte(k.mem[..], a)
  {
    b := ByteOf(k.mem[a / 4], a % 4);
  }

  /** strncpy run while the task's page directory is loaded: every access is translated. The destination
      page is mapped to itself, present, writable and open to users, and holds no page table. */
  method StrncpyInTask(k: Machine, chunk: uint32, dest: uint32, src: uint32, n: nat) returns (ghost len: nat)
    requires k.Valid() && IsChunk(k.mem[..], chunk) && 1 <= n < PAGE_SIZE && dest % PAGE_SIZE == 0
    requires Mask(Space(k.mem[..], chunk)[dest / PAGE_SIZE]) == dest && HasBits(Space(k.mem[..], chunk)[dest / PAGE_SIZE], 7)
    requires OutsideTree(k.mem[..], chunk, dest / PAGE_SIZE)
    modifies k.mem
    ensures k.Valid() && IsChunk(k.mem[..], chunk)
    ensures Space(k.mem[..], chunk) == Space(old(k.mem[..]), chunk)
    ensures DirFrame(k.mem[..], chunk) == DirFrame(old(k.mem[..]), chunk)
    ensures SameTables(old(k.mem[..]), k.mem[..], DirFrame(old(k.mem[..]), chunk))
    ensures OnlyFrames(old(k.mem[..]), k.mem[..], dest / PAGE_SIZE, 1)
    ensures len < n
    ensures var s, f := old(k.mem[..]), Space(old(k.mem[..]), chunk);
      Apart(s, f, src, n - 1, dest / PAGE_SIZE) ==>
        IsPrefix(s, f, src, n, len) && Holds(k.mem[..], dest, s, f, src, len)
  {
    hide Flat, IsTree, OnlyFrames, SameTables, WriteByte, ReadByte, Translate, Mask, OutsideTree, Encodes;
    ghost var s := k.mem[..];
    ghost var f := Space(s, chunk);
    CopyStarts(s, chunk, dest, src, n);
    var i := 0;
    while i < n - 1
      invariant 0 <= i <= n - 1
      invariant Copied(s, k.mem[..], chunk, dest, src, n, i)
    {
      ghost var t := k.mem[..];
      assert k.mem[chunk / 4] == t[chunk / 4];
      var from := GetPhysicalAddress(k.mem, k.mem[chunk / 4], Wrap(src + i));
      var c := LoadByte(k, from);
      if Apart(s, f, src, n - 1, dest / PAGE_SIZE) {
        assert Unended(s, f, src, i);
        assert from == CharPlace(f, src, i);
        ByteElsewhere(s, t, dest / PAGE_SIZE, from);
      }
      if c == 0 {
        break;
      }
      InOwnPage(f, dest, i);
      var target := GetPhysicalAddress(k.mem, k.mem[chunk / 4], Wrap(dest + i));
      StoreByte(k, target, c);
      CopiedWrite(s, t, chunk, dest, src, n, i, c);
      i := i + 1;
    }
    InOwnPage(f, dest, i);
    ghost var t := k.mem[..];
    assert k.mem[chunk / 4] == t[chunk / 4];
    var target := GetPhysicalAddress(k.mem, k.mem[chunk / 4], Wrap(dest + i));
    StoreByte(k, target, 0);
    CopiedWrite(s, t, chunk, dest, src, n, i, 0);
    len := i;
  }

  lemma CopyStarts(s: seq<uint32>, chunk: uint32, dest: uint32, src: uint32, n: nat)
    requires IsChunk(s, chunk) && OutsideTree(s, chunk, dest / PAGE_SIZE)
    ensures Copied(s, s, chunk, dest, src, n, 0)
  {
    hide Flat;
  }

  // ---- the kernel's side of the copy, in physical addresses ----

  /** Only bytes of [a, a + n) differ; word by word. */
  ghost predicate OnlyRange(s: seq<uint32>, s': seq<uint32>, a: uint32, n: nat) {
    |s| == |s'| && forall w :: 0 <= w < |s| && (4 * w + 4 <= a || a + n <= 4 * w) ==> s'[w] == s[w]
  }

  /** len is the number of characters strncpy moves from physical address src. */
  ghost predicate IsPlainPrefix(s: seq<uint32>, src: uint32, n: nat, len: nat)
    requires |s| == WORDS && src + n <= U32
  {
    && len < n
    && (forall i :: 0 <= i < len ==> ByteAfter(s, src, i) != 0)
    && (len == n - 1 || ByteAfter(s, src, len) == 0)
  }

  lemma RangeWrite(s: seq<uint32>, s': seq<uint32>, a: uint32, n: nat, i: nat, c: byte)
    requires |s'| == WORDS && OnlyRange(s, s', a, n) && i < n && a + n <= U32
    ensures OnlyRange(s, WriteByte(s', a + i, c), a, n)
  {
    hide SetByte;
  }

  method Strncpy(k: Machine, dest: uint32, src: uint32, n: nat) returns (ghost len: nat)
    requires k.Valid() && 1 <= n && dest + n <= U32 && src + n <= U32
    requires dest + n <= src || src + n <= dest
    modifies k.mem
    ensures k.Valid() && OnlyRange(old(k.mem[..]), k.mem[..], dest, n)
    ensures IsPlainPrefix(old(k.mem[..]), src, n, len)
    ensures forall i :: 0 <= i < len ==> ByteAfter(k.mem[..], dest, i) == ByteAfter(old(k.mem[..]), src, i)
    ensures ByteAfter(k.mem[..], dest, len) == 0
  {
    hide Encodes, ReadByte, WriteByte, OnlyRange;
    ghost var s := k.mem[..];
    RangeSelf(s, dest, n);
    var i := 0;
    while i < n - 1
      invariant 0 <= i <= n - 1 && k.Valid() && OnlyRange(s, k.mem[..], dest, n)
      invariant forall j :: 0 <= j < n ==> ByteAfter(k.mem[..], src, j) == ByteAfter(s, src, j)
      invariant forall j :: 0 <= j < i ==> ByteAfter(s, src, j) != 0 && ByteAfter(k.mem[..], dest, j) == ByteAfter(s, src, j)
    {
      ghost var t := k.mem[..];
      var c := LoadByte(k, src + i);
      assert c == ByteAfter(t, src, i) == ByteAfter(s, src, i);
      if c == 0 {
        break;
      }
      StoreByte(k, dest + i, c);
      BytesAfterWrite(t, dest + i, c);
      RangeWrite(s, t, dest, n, i, c);
      i := i + 1;
    }
    ghost var t := k.mem[..];
    StoreByte(k, dest + i, 0);
    BytesAfterWrite(t, dest + i, 0);
    RangeWrite(s, t, dest, n, i, 0);
    len := i;
  }

  lemma BytesAfterWrite(s: seq<uint32>, a: uint32, c: byte)
    requires |s| == WORDS
    ensures forall b: uint32, j: nat :: b + j < U32 ==>
      ByteAfter(WriteByte(s, a, c), b, j) == if b + j == a then c else ByteAfter(s, b, j)
  {
    hide ReadByte, WriteByte;
    forall b: uint32, j: nat | b + j < U32
      ensures ByteAfter(WriteByte(s, a, c), b, j) == if b + j == a then c else ByteAfter(s, b, j)
    {
      ReadWrite(s, a, c, b + j);
    }
  }

  lemma RangeSelf(s: seq<uint32>, a: uint32, n: nat)
    ensures OnlyRange(s, s, a, n)
  {
  }

  // ---- the whole copy ----

  /** The destination buffer holds no page table of the space and no free block of the heap. */
  ghost predicate GoodBuffer(t: seq<Entry>, s: seq<uint32>, chunk: uint32, pool: nat, a: uint32, n: nat)
    requires |s| == WORDS
  {
    forall f: nat :: a / PAGE_SIZE <= f <= (a + n - 1) / PAGE_SIZE ==>
      OutsideTree(s, chunk, f) && (pool <= f < pool + |t| ==> !IsFree(t[f - pool]))
  }

  /** The string read from virt, up to and including its NUL, touches neither the temporary page nor
      the page tables. */
  ghost predicate SourceApart(s: seq<uint32>, f: seq<uint32>, chunk: uint32, virt: uint32, n: int, frame: nat)
    requires |s| == WORDS && |f| == PAGES
  {
    forall i :: 0 <= i < n && Unended(s, f, virt, i) ==>
      && CharPlace(f, virt, i) / PAGE_SIZE != frame
      && Wrap(virt + i) / PAGE_SIZE != frame
      && OutsideTree(s, chunk, CharPlace(f, virt, i) / PAGE_SIZE)
  }

  /** Two views of a string agree up to its NUL. */
  ghost predicate SameString(s: seq<uint32>, f: seq<uint32>, s': seq<uint32>, f': seq<uint32>, virt: uint32, n: int)
    requires |s| == |s'| == WORDS && |f| == |f'| == PAGES
  {
    forall i :: 0 <= i < n && (Unended(s, f, virt, i) || Unended(s', f', virt, i)) ==>
      CharAt(s', f', virt, i) == CharAt(s, f, virt, i)
  }

  /** It is enough to compare as long as the first view has not ended. */
  lemma {:induction false} UnendedSame(s: seq<uint32>, f: seq<uint32>, s': seq<uint32>, f': seq<uint32>, virt: uint32, n: int, i: nat)
    requires |s| == |s'| == WORDS && |f| == |f'| == PAGES && i <= n
    requires forall j :: 0 <= j < n && Unended(s, f, virt, j) ==> CharAt(s', f', virt, j) == CharAt(s, f, virt, j)
    ensures Unended(s', f', virt, i) <==> Unended(s, f, virt, i)
  {
    hide CharAt;
    if i > 0 {
      UnendedSame(s, f, s', f', virt, n, i - 1);
      assert Unended(s, f, virt, i) <==> Unended(s, f, virt, i - 1) && CharAt(s, f, virt, i - 1) != 0;
      assert Unended(s', f', virt, i) <==> Unended(s', f', virt, i - 1) && CharAt(s', f', virt, i - 1) != 0;
    }
  }

  /** Through the temporary mapping, the string reads as it did before. */
  lemma SameChars(s0: seq<uint32>, s2: seq<uint32>, chunk: uint32, f2: seq<uint32>, virt: uint32, n: int, frame: nat, e: uint32)
    requires IsChunk(s0, chunk) && |s2| == WORDS && frame < PAGES
    requires f2 == Space(s0, chunk)[frame := e]
    requires ProcessMemory.OnlyRunAndTables(s0, s2, DirFrame(s0, chunk), frame, 1)
    requires SourceApart(s0, Space(s0, chunk), chunk, virt, n, frame)
    ensures Apart(s2, f2, virt, n, frame)
    ensures SameString(s0, Space(s0, chunk), s2, f2, virt, n)
  {
    hide Flat, IsTree, Mask, Unended;
    var f := Space(s0, chunk);
    forall i | 0 <= i < n && Unended(s0, f, virt, i)
      ensures CharPlace(f2, virt, i) == CharPlace(f, virt, i) && CharPlace(f, virt, i) / PAGE_SIZE != frame
      ensures CharAt(s2, f2, virt, i) == CharAt(s0, f, virt, i)
    {
      var a := CharPlace(f, virt, i);
      assert a / 4 / ENTRIES == a / PAGE_SIZE;
    }
    forall i | 0 <= i < n ensures Unended(s2, f2, virt, i) <==> Unended(s0, f, virt, i) {
      UnendedSame(s0, f, s2, f2, virt, n, i);
    }
  }

  lemma FreshOutsideTree(m: Runs, total: nat, s: seq<uint32>, chunk: uint32, pool: nat, b: nat)
    requires IsChunk(s, chunk) && OwnedBlocks(m, total, s, chunk, pool) && b !in m
    ensures OutsideTree(s, chunk, pool + b)
  {
    forall i | 0 <= i < ENTRIES ensures TableFrame(s, DirFrame(s, chunk), i) != pool + b {
      assert Owned(m, total, TableFrame(s, DirFrame(s, chunk), i), pool);
    }
  }

  lemma TreeFrames(s: seq<uint32>, s': seq<uint32>, chunk: uint32, frame: nat)
    requires |s| == |s'| == WORDS && DirFrame(s', chunk) == DirFrame(s, chunk) && SameTables(s, s', DirFrame(s, chunk))
    ensures OutsideTree(s', chunk, frame) <==> OutsideTree(s, chunk, frame)
  {
    var df := DirFrame(s, chunk);
    assert forall i :: 0 <= i < ENTRIES ==> TableFrame(s', df, i) == TableFrame(s, df, i);
  }

  /** The temporary page survives a change confined to the page tables. */
  lemma PageSurvives(s: seq<uint32>, s': seq<uint32>, chunk: uint32, page: uint32, i: nat)
    requires |s| == |s'| == WORDS && OnlyTables(s, s', DirFrame(s, chunk)) && OutsideTree(s, chunk, page / PAGE_SIZE)
    requires page % PAGE_SIZE == 0 && i < PAGE_SIZE && page + i < U32
    ensures ByteAfter(s', page, i) == ByteAfter(s, page, i)
  {
    assert (page + i) / 4 / ENTRIES == page / PAGE_SIZE;
  }

  lemma BufferUntouchesTree(s: seq<uint32>, s': seq<uint32>, chunk: uint32, a: uint32, n: nat)
    requires IsChunk(s, chunk) && OnlyRange(s, s', a, n) && 1 <= n && a + n <= U32
    requires forall f: nat :: a / PAGE_SIZE <= f <= (a + n - 1) / PAGE_SIZE ==> OutsideTree(s, chunk, f)
    ensures IsChunk(s', chunk) && DirFrame(s', chunk) == DirFrame(s, chunk)
    ensures SameTables(s, s', DirFrame(s, chunk)) && Space(s', chunk) == Space(s, chunk)
  {
    hide Flat, IsTree, OutsideTree;
    forall w | 0 <= w < WORDS && !OutsideTree(s, chunk, w / ENTRIES) ensures s'[w] == s[w] {
      var f := w / ENTRIES;
      assert !(a / PAGE_SIZE <= f <= (a + n - 1) / PAGE_SIZE);
    }
    TreeUntouched(s, s', chunk);
  }

  lemma SameLength(s: seq<uint32>, src: uint32, n: nat, len1: nat, len2: nat)
    requires |s| == WORDS && src + n <= U32 && IsPlainPrefix(s, src, n, len1) && IsPlainPrefix(s, src, n, len2)
    ensures len1 == len2
  {
  }

  /** The prefix and the copy of it, put together. */
  lemma CopyIsPrefix(s0: seq<uint32>, f0: seq<uint32>, s2: seq<uint32>, f2: seq<uint32>, virt: uint32,
                     s3: seq<uint32>, s4: seq<uint32>, s5: seq<uint32>, tmp: uint32, phys: uint32, n: nat, len: nat, len2: nat)
    requires |s0| == |s2| == |s3| == |s4| == |s5| == WORDS && |f0| == |f2| == PAGES
    requires 1 <= n < PAGE_SIZE && tmp + n <= U32 && phys + n <= U32
    requires IsPrefix(s2, f2, virt, n, len) && Holds(s3, tmp, s2, f2, virt, len)
    requires forall i :: 0 <= i < n ==> ByteAfter(s4, tmp, i) == ByteAfter(s3, tmp, i)
    requires IsPlainPrefix(s4, tmp, n, len2)
    requires forall i :: 0 <= i < len2 ==> ByteAfter(s5, phys, i) == ByteAfter(s4, tmp, i)
    requires ByteAfter(s5, phys, len2) == 0
    requires SameString(s0, f0, s2, f2, virt, n - 1)
    ensures len2 == len && IsPrefix(s0, f0, virt, n, len) && Holds(s5, phys, s0, f0, virt, len)
  {
    hide ByteAfter, CharAt;
    assert forall i :: 0 <= i <= len ==> Unended(s2, f2, virt, i);
    assert IsPlainPrefix(s4, tmp, n, len);
    SameLength(s4, tmp, n, len, len2);
  }

  /** The part of copy_string_from_task between the allocation and the release of the page. */
  method CopyThrough(k: Machine, chunk: uint32, tmp: uint32, virt: uint32, phys: uint32, n: nat)
    returns (res: int, ghost len: nat)
    requires k.Valid() && IsChunk(k.mem[..], chunk) && tmp % PAGE_SIZE == 0
    requires OutsideTree(k.mem[..], chunk, tmp / PAGE_SIZE)
    requires 1 <= n < PAGE_SIZE && phys + n <= U32
    requires forall f: nat :: phys / PAGE_SIZE <= f <= (phys + n - 1) / PAGE_SIZE ==>
      OutsideTree(k.mem[..], chunk, f) && f != tmp / PAGE_SIZE
    modifies k.mem
    ensures k.Valid() && res == 0 && len < n
    ensures IsChunk(k.mem[..], chunk) && DirFrame(k.mem[..], chunk) == DirFrame(old(k.mem[..]), chunk)
    ensures SameTables(old(k.mem[..]), k.mem[..], DirFrame(old(k.mem[..]), chunk))
    ensures Space(k.mem[..], chunk) == Space(old(k.mem[..]), chunk)
    ensures SourceApart(old(k.mem[..]), Space(old(k.mem[..]), chunk), chunk, virt, n - 1, tmp / PAGE_SIZE) ==>
      && IsPrefix(old(k.mem[..]), Space(old(k.mem[..]), chunk), virt, n, len)
      && Holds(k.mem[..], phys, old(k.mem[..]), Space(old(k.mem[..]), chunk), virt, len)
  {
    hide Flat, IsTree, OnlyTables, OnlyFrames, SameTables, OutsideTree, Encodes, WithFlags, Mask, Apart, SameString, IsPrefix, Holds, SourceApart,
      IsPlainPrefix, OnlyRange, CharAt, ByteAfter, ProcessMemory.OnlyRunAndTables;
    ghost var s1, df := k.mem[..], DirFrame(k.mem[..], chunk);
    ghost var f, p := Space(s1, chunk), tmp / PAGE_SIZE;
    assert k.mem[chunk / 4] == s1[chunk / 4];
    var directory := k.mem[chunk / 4];
    var oldEntry := Get(k.mem, directory, tmp);
    assert oldEntry == f[p];
    var mapped := Map(k.mem, chunk, tmp, tmp, COPY_FLAGS);
    ghost var s2 := k.mem[..];
    FlagsOf(tmp, COPY_FLAGS);
    TreeFrames(s1, s2, chunk, p);
    len := StrncpyInTask(k, chunk, tmp, virt, n);
    ghost var s3 := k.mem[..];
    TreeFrames(s2, s3, chunk, p);
    SetRemaps(s3, chunk, p, oldEntry);
    res := Set(k.mem, directory, tmp, oldEntry);
    ghost var s4 := k.mem[..];
    assert Space(s4, chunk) == f[p := WithFlags(tmp, COPY_FLAGS)][p := f[p]] == f;
    Chain(s1, s2, s3, s4, df);
    forall i | 0 <= i < n ensures ByteAfter(s4, tmp, i) == ByteAfter(s3, tmp, i) {
      PageSurvives(s3, s4, chunk, tmp, i);
    }
    forall g: nat | phys / PAGE_SIZE <= g <= (phys + n - 1) / PAGE_SIZE ensures OutsideTree(s4, chunk, g) {
      TreeFrames(s1, s4, chunk, g);
    }
    BufferApart(phys, n, tmp);
    ghost var len2 := Strncpy(k, phys, tmp, n);
    BufferUntouchesTree(s4, k.mem[..], chunk, phys, n);
    SameTablesTrans(s1, s4, k.mem[..], df);
    if SourceApart(s1, f, chunk, virt, n - 1, p) {
      TablesOnly(s1, s2, df, p);
      SameChars(s1, s2, chunk, Space(s2, chunk), virt, n - 1, p, WithFlags(tmp, COPY_FLAGS));
      CopyIsPrefix(s1, f, s2, Space(s2, chunk), virt, s3, s4, k.mem[..], tmp, phys, n, len, len2);
    }
  }

  lemma Chain(s1: seq<uint32>, s2: seq<uint32>, s3: seq<uint32>, s4: seq<uint32>, df: nat)
    requires |s1| == |s2| == |s3| == |s4| == WORDS && df < PAGES
    requires SameTables(s1, s2, df) && SameTables(s2, s3, df) && SameTables(s3, s4, df)
    ensures SameTables(s1, s4, df)
  {
    SameTablesTrans(s1, s2, s3, df);
    SameTablesTrans(s1, s3, s4, df);
  }

  lemma BufferApart(phys: uint32, n: nat, tmp: uint32)
    requires 1 <= n < PAGE_SIZE && phys + n <= U32 && tmp % PAGE_SIZE == 0
    requires !(phys / PAGE_SIZE <= tmp / PAGE_SIZE <= (phys + n - 1) / PAGE_SIZE)
    ensures tmp + n <= U32 && (phys + n <= tmp || tmp + n <= phys)
  {
  }

  lemma TablesOnly(s: seq<uint32>, s': seq<uint32>, df: nat, f: nat)
    requires |s| == |s'| == WORDS && df < PAGES && OnlyTables(s, s', df)
    ensures ProcessMemory.OnlyRunAndTables(s, s', df, f, 1)
  {
  }

  /** copy_string_from_task. On every path the task's page mapping, the heap table and the live
      runs are what they were; on success the buffer holds the NUL-terminated prefix of at most
      max - 1 characters that the task itself sees at virt, provided that string keeps away from the
      temporary page, which is the first free block of the heap. */
  method CopyStringFromTask(k: Machine, chunk: uint32, virt: uint32, phys: uint32, max: int)
    returns (res: int, ghost tmp: uint32, ghost len: nat)
    requires k.Valid() && OwnsSpace(k, chunk) && 1 <= max
    requires max < PAGE_SIZE ==> phys + max <= U32
    requires max < PAGE_SIZE ==>
      GoodBuffer(k.heap.Table(), k.mem[..], chunk, k.heap.saddr / PAGE_SIZE, phys, max)
    modifies k.heap.low, k.heap`live, k.mem
    ensures res == if max >= 4096 then -2 else if FreeCount(old(k.heap.Table())) == 0 then -3 else 0
    ensures res != 0 ==> k.mem[..] == old(k.mem[..])
    ensures k.Valid() && IsChunk(k.mem[..], chunk) && OwnsSpace(k, chunk)
    ensures Space(k.mem[..], chunk) == Space(old(k.mem[..]), chunk)
    ensures k.heap.live == old(k.heap.live) && k.heap.Table() == old(k.heap.Table())
    ensures res == 0 ==>
      && var b := ProcessMemory.BlockNo(k.heap.saddr, tmp);
      && b < k.heap.total && IsFree(old(k.heap.Table())[b]) && ScanAnswer(old(k.heap.Table()), 1, b) && tmp == k.heap.Address(b)
    ensures res == 0 && SourceApart(old(k.mem[..]), Space(old(k.mem[..]), chunk), chunk, virt, max - 1, tmp / PAGE_SIZE) ==>
      && IsPrefix(old(k.mem[..]), Space(old(k.mem[..]), chunk), virt, max, len)
      && Holds(k.mem[..], phys, old(k.mem[..]), Space(old(k.mem[..]), chunk), virt, len)
  {
    hide Encodes, IsTree, Flat, OnlyFrames, SameTables, OutsideTree, OwnedBlocks, SourceApart, IsPrefix, Holds, GoodBuffer,
      FreeCount, Marked, Heap.BlockIndex, SameAround, ScanAnswer, ClearChain, DirFrame, ProcessMemory.BlockNo;
    tmp, len := 0, 0;
    if max >= PAGE_SIZE {
      return -EINVARG, 0, 0;
    }
    ghost var s0, t, m, pool := k.mem[..], k.heap.Table(), k.heap.live, k.heap.saddr / PAGE_SIZE;
    ghost var f := Space(s0, chunk);
    var page := k.KzallocPage(max);
    if page == 0 {
      return -ENOMEM, 0, 0;
    }
    tmp := page;
    ghost var b: nat := k.heap.BlockAt(page);
    PageBlockNo(k.heap.saddr, page, b);
    ghost var s1 := k.mem[..];
    Fresh(t, m, k.heap.Table(), s0, s1, chunk, pool, b, phys, max);
    res, len := CopyThrough(k, chunk, page, virt, phys, max);
    SameTablesTrans(s0, s1, k.mem[..], DirFrame(s0, chunk));
    if SourceApart(s0, f, chunk, virt, max - 1, tmp / PAGE_SIZE) {
      ZeroedChars(s0, s1, chunk, virt, phys, max, tmp / PAGE_SIZE, k.mem[..], len);
    }
    Heap.BlockIndexOf(k.heap.saddr, b);
    k.Kfree(page);
    assert k.heap.live == m;
    EncodingUnique(k.heap.Table(), t, m);
    ProcessMemory.OwnedSame(m, k.heap.total, s0, k.mem[..], chunk, pool);
  }

  lemma PageBlockNo(saddr: uint32, page: uint32, b: nat)
    requires saddr % PAGE_SIZE == 0 && page == (saddr / Heap.BLOCK_SIZE + b) * Heap.BLOCK_SIZE
    ensures ProcessMemory.BlockNo(saddr, page) == b && page / PAGE_SIZE == saddr / PAGE_SIZE + b && page % PAGE_SIZE == 0
    ensures page == saddr + b * Heap.BLOCK_SIZE
  {
  }

  lemma Fresh(t: seq<Entry>, m: Runs, t1: seq<Entry>, s0: seq<uint32>, s1: seq<uint32>, chunk: uint32, pool: nat, b: nat,
              phys: uint32, n: nat)
    requires IsChunk(s0, chunk) && OwnedBlocks(m, |t|, s0, chunk, pool) && |t1| == |t|
    requires b < |t| && IsFree(t[b]) && b !in m && Encodes(t1, m[b := 1]) && OnlyFrames(s0, s1, pool + b, 1)
    requires 1 <= n && phys + n <= U32 && GoodBuffer(t, s0, chunk, pool, phys, n)
    ensures IsChunk(s1, chunk) && DirFrame(s1, chunk) == DirFrame(s0, chunk)
    ensures SameTables(s0, s1, DirFrame(s0, chunk)) && Space(s1, chunk) == Space(s0, chunk)
    ensures OwnedBlocks(m[b := 1], |t|, s1, chunk, pool)
    ensures OutsideTree(s1, chunk, pool + b)
    ensures forall f: nat :: phys / PAGE_SIZE <= f <= (phys + n - 1) / PAGE_SIZE ==> OutsideTree(s1, chunk, f) && f != pool + b
  {
    hide Flat, IsTree, Encodes, OutsideTree;
    ProcessMemory.SpaceApart(t1, m, s0, s1, chunk, pool, b, 1);
    FreshOutsideTree(m, |t|, s0, chunk, pool, b);
    TreeFrames(s0, s1, chunk, pool + b);
    forall f: nat | phys / PAGE_SIZE <= f <= (phys + n - 1) / PAGE_SIZE ensures OutsideTree(s1, chunk, f) && f != pool + b {
      TreeFrames(s0, s1, chunk, f);
    }
  }

  /** Zeroing the temporary page did not change the string either. */
  lemma ZeroedChars(s0: seq<uint32>, s1: seq<uint32>, chunk: uint32, virt: uint32, phys: uint32, n: nat, frame: nat,
                    s5: seq<uint32>, len: nat)
    requires IsChunk(s0, chunk) && IsChunk(s1, chunk) && |s5| == WORDS && frame < PAGES && 1 <= n && phys + n <= U32
    requires Space(s1, chunk) == Space(s0, chunk) && DirFrame(s1, chunk) == DirFrame(s0, chunk)
    requires SameTables(s0, s1, DirFrame(s0, chunk)) && OnlyFrames(s0, s1, frame, 1)
    requires SourceApart(s0, Space(s0, chunk), chunk, virt, n - 1, frame)
    requires SourceApart(s1, Space(s1, chunk), chunk, virt, n - 1, frame) ==>
      IsPrefix(s1, Space(s1, chunk), virt, n, len) && Holds(s5, phys, s1, Space(s1, chunk), virt, len)
    requires len < n
    ensures IsPrefix(s0, Space(s0, chunk), virt, n, len) && Holds(s5, phys, s0, Space(s0, chunk), virt, len)
  {
    hide Flat, IsTree, OutsideTree, CharPlace;
    var f := Space(s0, chunk);
    assert f[frame := f[frame]] == f;
    SameChars(s0, s1, chunk, f, virt, n - 1, frame, f[frame]);
    forall i: nat | i < n - 1 && Unended(s1, f, virt, i) ensures Unended(s0, f, virt, i) {
      UnendedSame(s0, f, s1, f, virt, n - 1, i);
    }
    forall i: nat | i < n - 1 && Unended(s0, f, virt, i) ensures OutsideTree(s1, chunk, CharPlace(f, virt, i) / PAGE_SIZE) {
      TreeFrames(s0, s1, chunk, CharPlace(f, virt, i) / PAGE_SIZE);
    }
    assert SourceApart(s1, f, chunk, virt, n - 1, frame) by { ApartStill(s0, s1, f, chunk, virt, n - 1, frame); }
    PrefixSame(s1, s0, f, virt, n, len, s5, phys);
  }

  lemma ApartStill(s0: seq<uint32>, s1: seq<uint32>, f: seq<uint32>, chunk: uint32, virt: uint32, n: int, frame: nat)
    requires |s0| == |s1| == WORDS && |f| == PAGES && SourceApart(s0, f, chunk, virt, n, frame)
    requires forall i :: 0 <= i < n && Unended(s1, f, virt, i) ==> Unended(s0, f, virt, i)
    requires forall i :: 0 <= i < n && Unended(s0, f, virt, i) ==> OutsideTree(s1, chunk, CharPlace(f, virt, i) / PAGE_SIZE)
    ensures SourceApart(s1, f, chunk, virt, n, frame)
  {
    hide OutsideTree, CharPlace, Wrap, Unended;
  }

  /** Where the characters agree, so do prefix and copy. */
  lemma PrefixSame(s1: seq<uint32>, s0: seq<uint32>, f: seq<uint32>, virt: uint32, n: nat, len: nat, s5: seq<uint32>, dest: uint32)
    requires |s0| == |s1| == |s5| == WORDS && |f| == PAGES && dest + len < U32
    requires SameString(s0, f, s1, f, virt, n - 1)
    requires IsPrefix(s1, f, virt, n, len) && Holds(s5, dest, s1, f, virt, len)
    ensures IsPrefix(s0, f, virt, n, len) && Holds(s5, dest, s0, f, virt, len)
  {
    hide CharAt, ByteAfter;
    assert forall i :: 0 <= i <= len ==> Unended(s1, f, virt, i);
    assert len < n - 1 ==> CharAt(s1, f, virt, len) == CharAt(s0, f, virt, len);
    forall i | 0 <= i < len ensures CharAt(s0, f, virt, i) != 0 && ByteAfter(s5, dest, i) == CharAt(s0, f, virt, i) {
      assert CharAt(s1, f, virt, i) == CharAt(s0, f, virt, i);
    }
  }
}
