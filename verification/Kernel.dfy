/** The kernel heap together with the physical memory its blocks live in (kheap.c). */
module Kernel {
  import opened Status
  import opened Bits
  import opened Memory
  import opened HeapTable
  import Heap

  const PAGE_WORDS := 1024

  class Machine {
    const heap: Heap.Heap
    const mem: array<uint32>

    constructor (heap: Heap.Heap, mem: array<uint32>)
      ensures this.heap == heap && this.mem == mem
    {
      this.heap, this.mem := heap, mem;
    }

    ghost predicate Valid()
      reads this, heap, heap.low, mem
    {
      heap.Valid() && mem.Length == WORDS && mem as object != heap.low as object
    }

    /** Physical frame of a heap block. */
    function FrameOf(block: nat): nat
      reads heap
    {
      heap.saddr / Heap.BLOCK_SIZE + block
    }

    /** memset(ptr, 0, size), one byte at a time. */
    method Zero(ptr: uint32, size: uint32)
      requires mem.Length == WORDS
      modifies mem
      ensures mem[..] == Zeroed(old(mem[..]), ptr, size)
    {
      hide ByteOf;
      var i := 0;
      while i < size
        invariant 0 <= i <= size
        invariant mem[..] == Zeroed(old(mem[..]), ptr, i)
      {
        var a := Wrap(ptr + i);
        ghost var s := mem[..];
        mem[a / 4] := SetByte(mem[a / 4], a % 4, 0);
        assert mem[..] == WriteByte(s, a, 0);
        i := i + 1;
      }
    }

    method Kzalloc(size: uint32) returns (ptr: uint32)
      requires Valid()
      modifies heap.low, heap`live, mem
      ensures Valid()
      ensures ptr == 0 ==> ScanAnswer(old(heap.Table()), Heap.BlockCount(size), -ENOMEM)
      ensures ptr != 0 ==>
        && 0 <= heap.BlockAt(ptr) < heap.total && ptr == heap.Address(heap.BlockAt(ptr))
        && ScanAnswer(old(heap.Table()), Heap.BlockCount(size), heap.BlockAt(ptr))
      ensures ptr == 0 || Heap.BlockCount(size) == 0 ==>
        heap.live == old(heap.live) && heap.low[..] == old(heap.low[..])
      ensures ptr != 0 && Heap.BlockCount(size) > 0 ==>
        && heap.BlockAt(ptr) !in old(heap.live)
        && heap.live == old(heap.live)[heap.BlockAt(ptr) := Heap.BlockCount(size)]
        && heap.Table() == Marked(old(heap.Table()), heap.BlockAt(ptr), Heap.BlockCount(size))
        && heap.low[..] == Marked(old(heap.low[..]), heap.base + heap.BlockAt(ptr), Heap.BlockCount(size))
      ensures SameBelow(old(heap.low[..]), heap.low[..], heap.base)
      ensures mem[..] == if ptr == 0 then old(mem[..]) else Zeroed(old(mem[..]), ptr, size)
      ensures ptr != 0 && size <= 0xFFFFF000 && ptr + size <= U32 ==>
        OnlyFrames(old(mem[..]), mem[..], FrameOf(heap.BlockAt(ptr)), Heap.BlockCount(size))
    {
      hide Heap.BlockIndex, Encodes, ScanAnswer, Heap.BlockCount, Marked, Zeroed, OnlyFrames;
      ptr := heap.Malloc(size);
      if ptr != 0 {
        ghost var b := heap.BlockAt(ptr);
        MarkedBelow(old(heap.low[..]), heap.base, b, Heap.BlockCount(size));
        ghost var s := mem[..];
        Zero(ptr, size);
        Heap.BlockCountIs(size);
        if size <= 0xFFFFF000 && ptr + size <= U32 {
          ZeroedOnlyFrames(s, heap.saddr / Heap.BLOCK_SIZE + b, size);
        }
      }
    }

    /** One block can be had exactly while any block is free, and uses up one free block. */
    method KzallocPage(size: uint32) returns (ptr: uint32)
      requires Valid() && 1 <= size <= Heap.BLOCK_SIZE
      modifies heap.low, heap`live, mem
      ensures Valid()
      ensures ptr != 0 <==> FreeCount(old(heap.Table())) > 0
      ensures ptr == 0 ==> heap.live == old(heap.live) && heap.Table() == old(heap.Table()) && mem[..] == old(mem[..])
      ensures ptr != 0 ==>
        && var b := heap.BlockAt(ptr);
        && 0 <= b < heap.total && ptr == FrameOf(b) * Heap.BLOCK_SIZE
        && IsFree(old(heap.Table())[b]) && b !in old(heap.live) && ScanAnswer(old(heap.Table()), 1, b)
        && heap.live == old(heap.live)[b := 1]
        && heap.Table() == Marked(old(heap.Table()), b, 1)
        && FreeCount(heap.Table()) == FreeCount(old(heap.Table())) - 1
        && OnlyFrames(old(mem[..]), mem[..], FrameOf(b), 1)
      ensures SameAround(old(heap.low[..]), heap.low[..], heap.base, heap.total)
    {
      hide Heap.BlockIndex, Encodes, FreeCount, OnlyFrames, ScanAnswer, Heap.BlockCount;
      Heap.BlockCountIs(size);
      ghost var t := heap.Table();
      ptr := Kzalloc(size);
      if ptr == 0 {
        SingleBlock(t, -ENOMEM);
        assert heap.Table() == heap.low[..][heap.base..heap.base + heap.total] == t;
      } else {
        ghost var b := heap.BlockAt(ptr);
        SingleBlock(t, b);
        MarkOne(t, b);
      }
    }

    method Kfree(ptr: uint32)
      requires Valid() && 0 <= heap.base + heap.BlockAt(ptr)
      modifies heap.low, heap`live
      ensures heap.Layout()
      ensures heap.low[..] == ClearChain(old(heap.low[..]), heap.base + old(heap.BlockAt(ptr)), heap.base + heap.total)
      ensures heap.BlockAt(ptr) in old(heap.live) ==>
        && Valid() && heap.live == old(heap.live) - {heap.BlockAt(ptr)}
        && SameAround(old(heap.low[..]), heap.low[..], heap.base, heap.total)
      ensures 0 <= heap.BlockAt(ptr) < heap.total && IsFree(old(heap.Table())[heap.BlockAt(ptr)]) ==>
        Valid() && heap.live == old(heap.live) && heap.low[..] == old(heap.low[..])
      ensures heap.BlockAt(ptr) >= 0 && heap.BlockAt(ptr) !in old(heap.live) ==> heap.live == old(heap.live)
      ensures heap.BlockAt(ptr) < 0 ==>
        && Valid()
        && heap.live == if Reaches(old(heap.low[..]), heap.base + heap.BlockAt(ptr), heap.base) then old(heap.live) - {0} else old(heap.live)
    {
      hide Heap.BlockIndex, Encodes, ClearChain, SameAround, Reaches;
      heap.Free(ptr);
    }
  }

  lemma MarkOne(t: seq<Entry>, b: nat)
    requires b < |t| && IsFree(t[b])
    ensures FreeCount(Marked(t, b, 1)) == FreeCount(t) - 1
  {
    RunByteFlags(0, 1);
    CountDrop(t, Marked(t, b, 1), b, b + 1, |t|);
  }

  /** Only words of frames [f, f+n) differ. */
  ghost predicate OnlyFrames(s: seq<uint32>, s': seq<uint32>, f: nat, n: nat) {
    |s| == |s'| && forall w :: 0 <= w < |s| && !(f <= w / PAGE_WORDS < f + n) ==> s'[w] == s[w]
  }

  lemma ZeroedOnlyFrames(s: seq<uint32>, f: nat, size: uint32)
    requires |s| == WORDS && size <= 0xFFFFF000
    requires f * Heap.BLOCK_SIZE < U32 && f * Heap.BLOCK_SIZE + size <= U32
    ensures OnlyFrames(s, Zeroed(s, f * Heap.BLOCK_SIZE, size), f, Heap.BlockCount(size))
  {
    hide Zeroed;
    Heap.BlockCountIs(size);
    var n := Heap.BlockCount(size);
    assert size <= n * Heap.BLOCK_SIZE;
    forall w | 0 <= w < WORDS && !(f <= w / PAGE_WORDS < f + n)
      ensures Zeroed(s, f * Heap.BLOCK_SIZE, size)[w] == s[w]
    {
      ZeroedWords(s, f * Heap.BLOCK_SIZE, size, w);
    }
  }
}
