/** Mapping a loaded program and its stack into a fresh address space (process_map_memory). */
module ElfMap {
  import opened Bits
  import opened Memory
  import opened PageTables
  import opened Paging

  const PF_W := 2
  const USER_READ: uint32 := 5   // PRESENT | ACCESS_FROM_ALL
  const USER_WRITE: uint32 := 7  // and WRITABLE
  const PROGRAM_ADDRESS: uint32 := 0x400000
  const STACK_SIZE: uint32 := 1024 * 16
  const STACK_END: uint32 := 0x3FF000 - STACK_SIZE

  /** The fields of a program header that the mapping reads. */
  datatype Phdr = Phdr(offset: uint32, vaddr: uint32, memsz: uint32, flags: uint32)

  function PhysAddress(elf: uint32, ph: Phdr): uint32 {
    Wrap(elf + ph.offset)
  }

  function SegmentFlags(ph: Phdr): uint32 {
    if And(ph.flags, PF_W) != 0 then USER_WRITE else USER_READ
  }

  function SegmentEnd(elf: uint32, ph: Phdr): uint32 {
    AlignAddress(Wrap(PhysAddress(elf, ph) + ph.memsz))
  }

  function MapSegment(f: seq<uint32>, elf: uint32, ph: Phdr): (r: Mapped)
    requires |f| == PAGES
    ensures |r.flat| == PAGES
  {
    MapTo(f, AlignToLowerPage(ph.vaddr), AlignToLowerPage(PhysAddress(elf, ph)), SegmentEnd(elf, ph), SegmentFlags(ph))
  }

  /** The segments in order, stopping at the first one that is refused. */
  function MapSegments(f: seq<uint32>, elf: uint32, phs: seq<Phdr>): (r: Mapped)
    requires |f| == PAGES
    ensures |r.flat| == PAGES
  {
    if phs == [] then Mapped(0, f)
    else
      var before := MapSegments(f, elf, phs[..|phs| - 1]);
      if before.res < 0 then before else MapSegment(before.flat, elf, phs[|phs| - 1])
  }

  lemma {:induction false} MapSegmentsStops(f: seq<uint32>, elf: uint32, phs: seq<Phdr>, i: nat)
    requires |f| == PAGES && i <= |phs| && MapSegments(f, elf, phs[..i]).res < 0
    ensures MapSegments(f, elf, phs) == MapSegments(f, elf, phs[..i])
    decreases |phs|
  {
    if i < |phs| {
      var k := |phs| - 1;
      assert phs[..k][..i] == phs[..i];
      MapSegmentsStops(f, elf, phs[..k], i);
    } else {
      assert phs[..i] == phs;
    }
  }

  method ProcessMapElf(mem: array<uint32>, chunk: uint32, elf: uint32, phs: seq<Phdr>) returns (res: int)
    requires IsChunk(mem[..], chunk)
    modifies mem
    ensures var r := MapSegments(Space(old(mem[..]), chunk), elf, phs);
      res == r.res && Remapped(old(mem[..]), mem[..], chunk, r.flat)
  {
    hide IsTree, Flat, OnlyTables, SameTables, PageTables.MapTo, And, Wrap, AlignAddress, AlignToLowerPage;
    ghost var s := mem[..];
    ghost var f := Space(s, chunk);
    RemapRefl(s, chunk);
    res := 0;
    var i := 0;
    while i < |phs|
      invariant 0 <= i <= |phs| && res == 0
      invariant MapSegments(f, elf, phs[..i]).res == 0
      invariant IsChunk(mem[..], chunk) && Remapped(s, mem[..], chunk, MapSegments(f, elf, phs[..i]).flat)
    {
      ghost var t := mem[..];
      var ph := phs[i];
      var phys := PhysAddress(elf, ph);
      var flags := USER_READ;
      if And(ph.flags, PF_W) != 0 {
        flags := USER_WRITE;
      }
      res := MapRegion(mem, chunk, AlignToLowerPage(ph.vaddr), AlignToLowerPage(phys), AlignAddress(Wrap(phys + ph.memsz)), flags);
      assert Remapped(t, mem[..], chunk, MapSegment(Space(t, chunk), elf, ph).flat);
      RemapTrans(s, t, mem[..], chunk, Space(t, chunk), Space(mem[..], chunk));
      assert phs[..i + 1][..i] == phs[..i] && phs[..i + 1][i] == ph;
      if res < 0 {
        MapSegmentsStops(f, elf, phs, i + 1);
        break;
      }
      i := i + 1;
    }
    assert i == |phs| ==> phs[..i] == phs;
  }

  datatype Program = Elf(elf: uint32, phs: seq<Phdr>) | Binary(ptr: uint32, size: uint32)

  function MapProgram(f: seq<uint32>, program: Program): (r: Mapped)
    requires |f| == PAGES
    ensures |r.flat| == PAGES
  {
    match program
    case Elf(elf, phs) => MapSegments(f, elf, phs)
    case Binary(ptr, size) =>
      // process_map_binary ignores what paging_map_to answers
      Mapped(0, MapTo(f, PROGRAM_ADDRESS, ptr, AlignAddress(Wrap(ptr + size)), USER_WRITE).flat)
  }

  function MapStack(f: seq<uint32>, stack: uint32): (r: seq<uint32>)
    requires |f| == PAGES
    ensures |r| == PAGES
  {
    MapTo(f, STACK_END, stack, AlignAddress(Wrap(stack + STACK_SIZE)), USER_WRITE).flat
  }

  function MapMemory(f: seq<uint32>, program: Program, stack: uint32): (r: Mapped)
    requires |f| == PAGES
    ensures |r.flat| == PAGES
  {
    var p := MapProgram(f, program);
    if p.res < 0 then p else Mapped(p.res, MapStack(p.flat, stack))
  }

  method ProcessMapMemory(mem: array<uint32>, chunk: uint32, program: Program, stack: uint32) returns (res: int)
    requires IsChunk(mem[..], chunk)
    modifies mem
    ensures var r := MapMemory(Space(old(mem[..]), chunk), program, stack);
      res == r.res && Remapped(old(mem[..]), mem[..], chunk, r.flat)
  {
    hide IsTree, Flat, OnlyTables, SameTables, PageTables.MapTo, AlignAddress, MapSegments;
    ghost var s := mem[..];
    res := 0;
    match program {
      case Elf(elf, phs) =>
        res := ProcessMapElf(mem, chunk, elf, phs);
      case Binary(ptr, size) =>
        var ignored := MapRegion(mem, chunk, PROGRAM_ADDRESS, ptr, AlignAddress(Wrap(ptr + size)), USER_WRITE);
    }
    if res < 0 {
      return;
    }
    ghost var t := mem[..];
    RemappedIsChunk(s, t, chunk, Space(t, chunk));
    var ignored := MapRegion(mem, chunk, STACK_END, stack, AlignAddress(Wrap(stack + STACK_SIZE)), USER_WRITE);
    RemapTrans(s, t, mem[..], chunk, Space(t, chunk), Space(mem[..], chunk));
  }

  lemma RemappedIsChunk(s: seq<uint32>, t: seq<uint32>, chunk: uint32, flat: seq<uint32>)
    requires IsChunk(s, chunk) && Remapped(s, t, chunk, flat)
    ensures IsChunk(t, chunk)
  {
  }

  // ---- what the mapping means, byte by byte ----

  /** How many pages of the file's memory a segment touches. */
  function PageCount(elf: uint32, ph: Phdr): nat {
    ((elf + ph.offset) % 4096 + ph.memsz + 4095) / 4096
  }

  /** None of the addresses of the segment wraps around. */
  predicate Placed(elf: uint32, ph: Phdr) {
    elf + ph.offset + ph.memsz <= 0xFFFFF000 && ph.vaddr / 4096 + PageCount(elf, ph) <= PAGES
  }

  /** Page q is one of as many pages, counted from the page of the segment's address. */
  predicate Covers(elf: uint32, ph: Phdr, q: nat) {
    ph.vaddr / 4096 <= q < ph.vaddr / 4096 + PageCount(elf, ph)
  }

  /** The pages of the 16 KiB below 0x3FF000. */
  predicate InStack(q: nat) {
    0x3FB <= q < 0x3FF
  }

  function SegmentEntry(elf: uint32, ph: Phdr, q: nat): uint32
    requires Placed(elf, ph) && Covers(elf, ph, q)
  {
    WithFlags((PhysAddress(elf, ph) / PAGE_SIZE + (q - ph.vaddr / PAGE_SIZE)) * PAGE_SIZE, SegmentFlags(ph))
  }

  /** The pages of a segment, counted from the page of its address. */
  lemma SegmentPages(elf: uint32, ph: Phdr)
    requires Placed(elf, ph)
    ensures var phys, end := PhysAddress(elf, ph), SegmentEnd(elf, ph);
      && phys == elf + ph.offset && phys + ph.memsz <= end && end % PAGE_SIZE == 0
      && AlignToLowerPage(ph.vaddr) == ph.vaddr / PAGE_SIZE * PAGE_SIZE && AlignToLowerPage(phys) == phys / PAGE_SIZE * PAGE_SIZE
      && (end - AlignToLowerPage(phys)) / PAGE_SIZE == end / PAGE_SIZE - phys / PAGE_SIZE
      && end / PAGE_SIZE - phys / PAGE_SIZE == PageCount(elf, ph)
  {
  }

  lemma SegmentIs(f: seq<uint32>, elf: uint32, ph: Phdr, q: nat)
    requires |f| == PAGES && q < PAGES && Placed(elf, ph)
    ensures MapSegment(f, elf, ph).res == 0
    ensures MapSegment(f, elf, ph).flat[q] == if Covers(elf, ph, q) then SegmentEntry(elf, ph, q) else f[q]
  {
    hide WithFlags, PhysAddress, SegmentEnd, AlignToLowerPage, PageCount;
    var phys, end, vp := PhysAddress(elf, ph), SegmentEnd(elf, ph), ph.vaddr / PAGE_SIZE;
    var n := (end - AlignToLowerPage(phys)) / PAGE_SIZE;
    SegmentPages(elf, ph);
    var k := (q - vp) % PAGES;
    assert MapSegment(f, elf, ph).flat[q] == MappedEntry(f, vp, phys / PAGE_SIZE, n, SegmentFlags(ph), q);
    assert vp + n <= PAGES;
    if vp <= q < vp + n { assert k == q - vp; } else { assert k >= n; }
  }

  /** For every page, the last segment that covers it decides; pages no segment covers are untouched. */
  lemma {:induction false} LastSegmentWins(f: seq<uint32>, elf: uint32, phs: seq<Phdr>, q: nat, i: int)
    requires |f| == PAGES && q < PAGES && -1 <= i < |phs|
    requires forall j :: 0 <= j < |phs| ==> Placed(elf, phs[j])
    requires i >= 0 ==> Covers(elf, phs[i], q)
    requires forall j :: i < j < |phs| ==> !Covers(elf, phs[j], q)
    ensures MapSegments(f, elf, phs).res == 0
    ensures MapSegments(f, elf, phs).flat[q] == if i < 0 then f[q] else SegmentEntry(elf, phs[i], q)
    decreases |phs|
  {
    hide MapSegment, Placed, Covers, SegmentEntry;
    if phs != [] {
      var k := |phs| - 1;
      SegmentsOk(f, elf, phs[..k]);
      SegmentIs(MapSegments(f, elf, phs[..k]).flat, elf, phs[k], q);
      if i < k {
        LastSegmentWins(f, elf, phs[..k], q, i);
      }
    }
  }

  lemma {:induction false} SegmentsOk(f: seq<uint32>, elf: uint32, phs: seq<Phdr>)
    requires |f| == PAGES && forall j :: 0 <= j < |phs| ==> Placed(elf, phs[j])
    ensures MapSegments(f, elf, phs).res == 0
    decreases |phs|
  {
    hide MapSegment, Placed;
    if phs != [] {
      var k := |phs| - 1;
      SegmentsOk(f, elf, phs[..k]);
      SegmentIs(MapSegments(f, elf, phs[..k]).flat, elf, phs[k], 0);
    }
  }

  /** Byte v of the segment is found where the file put it. */
  predicate ByteInPlace(f: seq<uint32>, elf: uint32, ph: Phdr, v: uint32)
    requires |f| == PAGES
  {
    Translate(f, v) == elf + ph.offset + (v - ph.vaddr)
  }

  lemma CoveredByte(f: seq<uint32>, elf: uint32, ph: Phdr, v: uint32)
    requires |f| == PAGES && Placed(elf, ph) && Covers(elf, ph, v / PAGE_SIZE)
    requires f[v / PAGE_SIZE] == SegmentEntry(elf, ph, v / PAGE_SIZE)
    ensures Translate(f, v) == AlignToLowerPage(PhysAddress(elf, ph)) + (v - AlignToLowerPage(ph.vaddr))
    ensures HasBits(f[v / PAGE_SIZE], if ph.flags / 2 % 2 == 1 then 7 else 5)
  {
    hide WithFlags, Mask, And;
    AndTwo(ph.flags);
    var a := (PhysAddress(elf, ph) / PAGE_SIZE + (v / PAGE_SIZE - ph.vaddr / PAGE_SIZE)) * PAGE_SIZE;
    FlagsOf(a, SegmentFlags(ph));
  }

  lemma ByteCovered(elf: uint32, ph: Phdr, v: uint32)
    requires Placed(elf, ph) && ph.vaddr <= v < ph.vaddr + ph.memsz
    requires ph.vaddr % PAGE_SIZE == (elf + ph.offset) % PAGE_SIZE
    ensures Covers(elf, ph, v / PAGE_SIZE)
  {
    var phys, end := PhysAddress(elf, ph), SegmentEnd(elf, ph);
    assert phys == elf + ph.offset && phys + ph.memsz <= end;
    assert (v - ph.vaddr + phys) / PAGE_SIZE - phys / PAGE_SIZE == v / PAGE_SIZE - ph.vaddr / PAGE_SIZE;
    assert v - ph.vaddr + phys < end;
  }

  /** The pages of a nonempty segment, decided by that segment, deliver every one of its bytes if and
      only if its virtual and physical addresses agree modulo the page size. */
  lemma SegmentBytes(f: seq<uint32>, elf: uint32, ph: Phdr)
    requires |f| == PAGES && Placed(elf, ph) && 0 < ph.memsz && ph.vaddr + ph.memsz <= U32
    requires forall q :: 0 <= q < PAGES && Covers(elf, ph, q) ==> f[q] == SegmentEntry(elf, ph, q)
    ensures (forall v :: ph.vaddr <= v < ph.vaddr + ph.memsz ==> ByteInPlace(f, elf, ph, v))
       <==> ph.vaddr % PAGE_SIZE == (elf + ph.offset) % PAGE_SIZE
  {
    hide SegmentEntry, Translate;
    var phys, end := PhysAddress(elf, ph), SegmentEnd(elf, ph);
    assert phys == elf + ph.offset && phys + ph.memsz <= end;
    if ph.vaddr % PAGE_SIZE == phys % PAGE_SIZE {
      forall v | ph.vaddr <= v < ph.vaddr + ph.memsz ensures ByteInPlace(f, elf, ph, v) {
        ByteCovered(elf, ph, v);
        CoveredByte(f, elf, ph, v);
      }
    } else {
      assert Covers(elf, ph, ph.vaddr / PAGE_SIZE);
      CoveredByte(f, elf, ph, ph.vaddr);
      assert !ByteInPlace(f, elf, ph, ph.vaddr);
    }
  }

  /** Example: a segment that starts 0x34 bytes into an image at 0x01000000 and wants address 0x400000
      gets the image's own first byte there. */
  lemma MisplacedExample(f: seq<uint32>)
    requires |f| == PAGES
    ensures var ph := Phdr(0x34, 0x400000, 16, PF_W);
      var flat := MapSegment(f, 0x0100_0000, ph).flat;
      Translate(flat, 0x400000) == 0x0100_0000 && !ByteInPlace(flat, 0x0100_0000, ph, 0x400000)
  {
    hide MapSegment, SegmentEntry, Translate, Covers, Placed, PhysAddress, HasBits, AlignToLowerPage;
    var ph := Phdr(0x34, 0x400000, 16, PF_W);
    MisplacedPages(ph);
    SegmentIs(f, 0x0100_0000, ph, 0x400);
    CoveredByte(MapSegment(f, 0x0100_0000, ph).flat, 0x0100_0000, ph, 0x400000);
  }

  lemma MisplacedPages(ph: Phdr)
    requires ph == Phdr(0x34, 0x400000, 16, PF_W)
    ensures Placed(0x0100_0000, ph) && Covers(0x0100_0000, ph, 0x400)
    ensures AlignToLowerPage(PhysAddress(0x0100_0000, ph)) == 0x0100_0000 && AlignToLowerPage(ph.vaddr) == ph.vaddr
  {
  }

  lemma StackIs(f: seq<uint32>, stack: uint32, q: nat)
    requires |f| == PAGES && q < PAGES && stack % PAGE_SIZE == 0 && stack + STACK_SIZE <= 0xFFFFF000
    ensures MapStack(f, stack)[q] ==
      if InStack(q) then WithFlags(stack + (q - STACK_END / PAGE_SIZE) * PAGE_SIZE, USER_WRITE) else f[q]
  {
    hide WithFlags;
    var vp, pp := STACK_END / PAGE_SIZE, stack / PAGE_SIZE;
    var k := (q - vp) % PAGES;
    assert AlignAddress(Wrap(stack + STACK_SIZE)) == stack + STACK_SIZE;
    assert MapStack(f, stack)[q] == MappedEntry(f, vp, pp, STACK_SIZE / PAGE_SIZE, USER_WRITE, q);
    if InStack(q) { assert k == q - vp; } else { assert k >= STACK_SIZE / PAGE_SIZE; }
  }

  /** After process_map_memory on an ELF whose segments cover disjoint pages outside the stack and
      (unless empty) agree modulo the page size: every byte of every segment, and of the stack, is in place with
      the right write permission, and every other page is as it was. */
  lemma MappedProgram(f: seq<uint32>, elf: uint32, phs: seq<Phdr>, stack: uint32)
    requires |f| == PAGES && stack % PAGE_SIZE == 0 && stack + STACK_SIZE <= 0xFFFFF000
    requires forall i :: 0 <= i < |phs| ==> Placed(elf, phs[i]) && phs[i].vaddr + phs[i].memsz <= U32
    requires forall i :: 0 <= i < |phs| && phs[i].memsz > 0 ==> phs[i].vaddr % PAGE_SIZE == (elf + phs[i].offset) % PAGE_SIZE
    requires forall i, q :: 0 <= i < |phs| && Covers(elf, phs[i], q) ==> !InStack(q)
    requires forall i, j, q :: 0 <= i < j < |phs| && Covers(elf, phs[i], q) ==> !Covers(elf, phs[j], q)
    ensures MapMemory(f, Elf(elf, phs), stack).res == 0
    ensures forall i, v :: 0 <= i < |phs| && phs[i].vaddr <= v < phs[i].vaddr + phs[i].memsz ==>
      SegmentByteOk(MapMemory(f, Elf(elf, phs), stack).flat, elf, phs[i], v)
    ensures forall v :: 0x3FB000 <= v < 0x3FF000 ==>
      StackByteOk(MapMemory(f, Elf(elf, phs), stack).flat, stack, v)
    ensures forall q :: 0 <= q < PAGES && !InStack(q) && (forall i :: 0 <= i < |phs| ==> !Covers(elf, phs[i], q)) ==>
      MapMemory(f, Elf(elf, phs), stack).flat[q] == f[q]
  {
    hide Placed, Covers, SegmentEntry, MapStack, MapSegments, WithFlags, SegmentByteOk, StackByteOk;
    SegmentsOk(f, elf, phs);
    var before := MapSegments(f, elf, phs).flat;
    var flat := MapStack(before, stack);
    assert MapMemory(f, Elf(elf, phs), stack).flat == flat;
    forall i, v | 0 <= i < |phs| && phs[i].vaddr <= v < phs[i].vaddr + phs[i].memsz
      ensures SegmentByteOk(flat, elf, phs[i], v)
    {
      forall q | 0 <= q < PAGES && Covers(elf, phs[i], q) ensures flat[q] == SegmentEntry(elf, phs[i], q) {
        LastSegmentWins(f, elf, phs, q, i);
        StackIs(before, stack, q);
      }
      SegmentByte(flat, elf, phs[i], v);
    }
    forall v | STACK_END <= v < STACK_END + STACK_SIZE ensures StackByteOk(flat, stack, v) {
      StackByte(before, stack, v);
    }
    forall q | 0 <= q < PAGES && !InStack(q) && forall i :: 0 <= i < |phs| ==> !Covers(elf, phs[i], q)
      ensures flat[q] == f[q]
    {
      LastSegmentWins(f, elf, phs, q, -1);
      StackIs(before, stack, q);
    }
  }

  /** The byte is in place, present for the user, and writable exactly if bit 1 of p_flags is set. */
  predicate SegmentByteOk(f: seq<uint32>, elf: uint32, ph: Phdr, v: uint32)
    requires |f| == PAGES
  {
    ByteInPlace(f, elf, ph, v) && HasBits(f[v / PAGE_SIZE], if ph.flags / 2 % 2 == 1 then 7 else 5)
  }

  /** A byte of the 16 KiB below 0x3FF000, present and writable for the user. */
  predicate StackByteOk(f: seq<uint32>, stack: uint32, v: uint32)
    requires |f| == PAGES
  {
    Translate(f, v) == stack + (v - 0x3FB000) && HasBits(f[v / PAGE_SIZE], 7)
  }

  lemma SegmentByte(f: seq<uint32>, elf: uint32, ph: Phdr, v: uint32)
    requires |f| == PAGES && Placed(elf, ph) && ph.vaddr <= v < ph.vaddr + ph.memsz <= U32
    requires ph.vaddr % PAGE_SIZE == (elf + ph.offset) % PAGE_SIZE
    requires forall q :: 0 <= q < PAGES && Covers(elf, ph, q) ==> f[q] == SegmentEntry(elf, ph, q)
    ensures SegmentByteOk(f, elf, ph, v)
  {
    hide SegmentEntry, Translate, HasBits, Covers, Placed;
    SegmentBytes(f, elf, ph);
    ByteCovered(elf, ph, v);
    CoveredByte(f, elf, ph, v);
  }

  lemma StackByte(f: seq<uint32>, stack: uint32, v: uint32)
    requires |f| == PAGES && stack % PAGE_SIZE == 0 && stack + STACK_SIZE <= 0xFFFFF000
    requires STACK_END <= v < STACK_END + STACK_SIZE
    ensures StackByteOk(MapStack(f, stack), stack, v)
  {
    hide WithFlags, Mask, MapStack;
    StackIs(f, stack, v / PAGE_SIZE);
    FlagsOf(stack + (v / PAGE_SIZE - STACK_END / PAGE_SIZE) * PAGE_SIZE, USER_WRITE);
  }

  /** Whatever the segments cover, the stack comes last: its bytes are in place after every mapping that
      succeeds. */
  lemma StackWins(f: seq<uint32>, program: Program, stack: uint32, v: uint32)
    requires |f| == PAGES && stack % PAGE_SIZE == 0 && stack + STACK_SIZE <= 0xFFFFF000 && 0x3FB000 <= v < 0x3FF000
    requires MapMemory(f, program, stack).res >= 0
    ensures StackByteOk(MapMemory(f, program, stack).flat, stack, v)
  {
    hide StackByteOk, MapStack, MapProgram;
    StackByte(MapProgram(f, program).flat, stack, v);
  }

  /** A flat binary: byte i of the file appears at 0x400000 + i, writable for the user, and the stack below
      0x3FF000; every other page is as it was. */
  lemma MappedBinary(f: seq<uint32>, ptr: uint32, size: uint32, stack: uint32)
    requires |f| == PAGES && stack % PAGE_SIZE == 0 && stack + STACK_SIZE <= 0xFFFFF000
    requires ptr % PAGE_SIZE == 0 && ptr + size <= 0xFFFFF000 && 0x400000 + size <= 0xFFFFF000
    ensures var r := MapMemory(f, Binary(ptr, size), stack);
      && r.res == 0
      && (forall v :: 0x400000 <= v < 0x400000 + size ==> BinaryByteOk(r.flat, ptr, v))
      && (forall v :: 0x3FB000 <= v < 0x3FF000 ==> StackByteOk(r.flat, stack, v))
      && (forall q :: 0x400 + (size + 4095) / 4096 <= q < PAGES ==> r.flat[q] == f[q])
      && (forall q :: 0 <= q < 0x400 && !InStack(q) ==> r.flat[q] == f[q])
  {
    hide BinaryByteOk, StackByteOk, MapStack, InStack, PageTables.MapTo, AlignAddress, WithFlags;
    var before := MapTo(f, PROGRAM_ADDRESS, ptr, AlignAddress(Wrap(ptr + size)), USER_WRITE).flat;
    var flat := MapStack(before, stack);
    assert MapMemory(f, Binary(ptr, size), stack).flat == flat;
    forall q | 0 <= q < PAGES
      ensures !(0x400 <= q < 0x400 + (size + 4095) / 4096) ==> before[q] == f[q]
      ensures q >= 0x400 ==> !InStack(q)
      ensures !InStack(q) ==> flat[q] == before[q]
    {
      AboveStack(q);
      StackIs(before, stack, q);
      BinaryPage(f, ptr, size, q);
    }
    forall v | 0x400000 <= v < 0x400000 + size ensures BinaryByteOk(flat, ptr, v) {
      BinaryByte(f, ptr, size, v);
      BinaryByteMoves(before, flat, ptr, v);
    }
    forall v | 0x3FB000 <= v < 0x3FF000 ensures StackByteOk(flat, stack, v) {
      StackByte(before, stack, v);
    }
  }

  lemma AboveStack(q: nat)
    ensures q >= 0x400 ==> !InStack(q)
  {
  }

  lemma BinaryByteMoves(f: seq<uint32>, g: seq<uint32>, ptr: uint32, v: uint32)
    requires |f| == |g| == PAGES && g[v / PAGE_SIZE] == f[v / PAGE_SIZE]
    ensures BinaryByteOk(f, ptr, v) ==> BinaryByteOk(g, ptr, v)
  {
    hide HasBits, Mask;
  }

  lemma BinaryEnd(ptr: uint32, size: uint32)
    requires ptr % PAGE_SIZE == 0 && ptr + size <= 0xFFFFF000
    ensures AlignAddress(Wrap(ptr + size)) == ptr + (size + 4095) / 4096 * PAGE_SIZE
  {
    var n := (size + 4095) / 4096;
    hide AlignAddress;
    assert size <= n * PAGE_SIZE < size + PAGE_SIZE;
    assert (ptr + n * PAGE_SIZE) % PAGE_SIZE == 0;
    assert ptr + size <= AlignAddress(Wrap(ptr + size)) < ptr + size + PAGE_SIZE;
  }

  predicate BinaryByteOk(f: seq<uint32>, ptr: uint32, v: uint32)
    requires |f| == PAGES
  {
    v >= 0x400000 && Translate(f, v) == ptr + (v - 0x400000) && HasBits(f[v / PAGE_SIZE], 7)
  }

  /** The pages the code maps for a flat binary. */
  lemma BinaryPage(f: seq<uint32>, ptr: uint32, size: uint32, q: nat)
    requires |f| == PAGES && q < PAGES && ptr % PAGE_SIZE == 0 && ptr + size <= 0xFFFFF000 && 0x400000 + size <= 0xFFFFF000
    ensures var flat := MapTo(f, PROGRAM_ADDRESS, ptr, AlignAddress(Wrap(ptr + size)), USER_WRITE).flat;
      flat[q] == if 0x400 <= q < 0x400 + (size + 4095) / 4096
                 then WithFlags(ptr + (q - 0x400) * PAGE_SIZE, USER_WRITE) else f[q]
  {
    hide WithFlags, AlignAddress, Wrap;
    var end, n, pp := AlignAddress(Wrap(ptr + size)), (size + 4095) / 4096, ptr / PAGE_SIZE;
    BinaryEnd(ptr, size);
    var k := (q - 0x400) % PAGES;
    assert MapTo(f, PROGRAM_ADDRESS, ptr, end, USER_WRITE).flat[q] == MappedEntry(f, 0x400, pp, n, USER_WRITE, q);
    if 0x400 <= q < 0x400 + n { assert k == q - 0x400 && pp + k < PAGES; } else { assert k >= n; }
  }

  lemma BinaryByte(f: seq<uint32>, ptr: uint32, size: uint32, v: uint32)
    requires |f| == PAGES && ptr % PAGE_SIZE == 0 && ptr + size <= 0xFFFFF000 && 0x400000 + size <= 0xFFFFF000
    requires 0x400000 <= v < 0x400000 + size
    ensures BinaryByteOk(MapTo(f, PROGRAM_ADDRESS, ptr, AlignAddress(Wrap(ptr + size)), USER_WRITE).flat, ptr, v)
  {
    hide WithFlags, Mask, HasBits, PageTables.MapTo;
    var q := v / PAGE_SIZE;
    BinaryPage(f, ptr, size, q);
    FlagsOf(ptr + (q - 0x400) * PAGE_SIZE, USER_WRITE);
  }

  /** A binary that cannot be mapped is ignored, and the stack is mapped all the same; a refused ELF
      leaves the stack unmapped. */
  lemma RefusedProgram(f: seq<uint32>, program: Program, stack: uint32)
    requires |f| == PAGES
    ensures var r := MapMemory(f, program, stack);
      && (program.Binary? && program.ptr % 4096 != 0 ==> r.res == 0 && r.flat == MapStack(f, stack))
      && (program.Elf? && MapSegments(f, program.elf, program.phs).res < 0 ==>
            r.res < 0 && r.flat == MapSegments(f, program.elf, program.phs).flat)
  {
  }
}
