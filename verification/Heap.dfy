/** The block heap: a table of one byte per 4096-byte block, scanned first-fit. */
module Heap {
  import opened Status
  import opened Bits
  import opened HeapTable

  const BLOCK_SIZE := 4096
  /** Room after the table that a run starting in it can reach: a 32-bit size is below 2^20 blocks. */
  const MAX_RUN := 0x100000

  function AlignToUpper(val: uint32): uint32 {
    if val % BLOCK_SIZE == 0 then val else Wrap(val - val % BLOCK_SIZE + BLOCK_SIZE)
  }

  /** How many blocks a request takes, in the code's 32-bit arithmetic. */
  function BlockCount(size: uint32): nat {
    AlignToUpper(size) / BLOCK_SIZE
  }

  /** The request is rounded up, except that 0 and the last 4095 sizes ask for no block at all. */
  lemma BlockCountIs(size: uint32)
    ensures BlockCount(size) == (if size <= 0xFFFFF000 then (size + 4095) / 4096 else 0)
    ensures BlockCount(size) >= 1 <==> 1 <= size <= 0xFFFFF000
    ensures BlockCount(size) < MAX_RUN
  {
  }

  /** The table index the code derives from an address (C's truncating division). */
  function BlockIndex(saddr: uint32, address: uint32): int {
    TruncDiv(Signed(address - saddr), BLOCK_SIZE)
  }

  lemma BlockIndexOf(saddr: uint32, block: nat)
    requires block <= 0x7FFFF && saddr + block * BLOCK_SIZE < U32
    ensures BlockIndex(saddr, saddr + block * BLOCK_SIZE) == block
  {
  }

  class Heap {
    /** Physical memory from address 0; the table's entries are the `total` bytes at `base`. */
    var low: array<Entry>
    var base: nat
    var total: nat
    /** Address of the data pool. */
    var saddr: uint32
    /** The runs handed out and not yet freed. */
    ghost var live: Runs

    ghost predicate Layout()
      reads this
    {
      && 0 < saddr < 0x8000_0000 && saddr % BLOCK_SIZE == 0
      && total <= 0x7FFFF && saddr + total * BLOCK_SIZE < U32
      && saddr / BLOCK_SIZE <= base
      && base + total + MAX_RUN <= low.Length
    }

    ghost function Table(): (t: seq<Entry>)
      requires Layout()
      reads this, low
      ensures |t| == total
    {
      low[base..base + total]
    }

    ghost predicate Valid()
      reads this, low
    {
      Layout() && Encodes(Table(), live)
    }

    function Address(block: nat): int
      reads this
    {
      saddr + block * BLOCK_SIZE
    }

    /** The table index the code derives from an address (C's truncating division). */
    function BlockAt(address: uint32): int
      reads this
    {
      BlockIndex(saddr, address)
    }

    lemma BlockAtAddress(block: nat)
      requires Layout() && block < total
      ensures 0 <= Address(block) < U32 && BlockAt(Address(block)) == block
    {
      BlockIndexOf(saddr, block);
    }

    constructor (low: array<Entry>, base: nat, total: nat)
      ensures this.low == low && this.base == base && this.total == total
      ensures saddr == 0 && live == map[]
    {
      this.low, this.base, this.total := low, base, total;
      saddr, live := 0, map[];
    }

    /** heap_create: refuses unaligned bounds and a table of the wrong length, else frees every block. */
    method Create(ptr: uint32, end: uint32) returns (res: int)
      requires base + total <= low.Length
      modifies this`saddr, this`live, low
      ensures res == 0 <==> ptr % BLOCK_SIZE == 0 && end % BLOCK_SIZE == 0
                            && total == Wrap(end - ptr) / BLOCK_SIZE
      ensures res != 0 ==> res == -EINVARG && low[..] == old(low[..]) && live == old(live)
      ensures saddr == if ptr % BLOCK_SIZE == 0 && end % BLOCK_SIZE == 0 then ptr else old(saddr)
      ensures res == 0 ==> low[..] == Cleared(old(low[..]), base, total) && live == map[]
      ensures res == 0 && Layout() ==> Valid()
    {
      hide Encodes;
      if ptr % BLOCK_SIZE != 0 || end % BLOCK_SIZE != 0 {
        return -EINVARG;
      }
      saddr := ptr;
      if total != Wrap(end - ptr) / BLOCK_SIZE {
        return -EINVARG;
      }
      var i := 0;
      while i < total
        invariant 0 <= i <= total
        invariant saddr == ptr
        invariant low[..] == Cleared(old(low[..]), base, i)
      {
        low[base + i] := FREE;
        i := i + 1;
      }
      live := map[];
      Blank(old(low[..]), base, total);
      assert low[base..base + total] == low[..][base..base + total];
      return 0;
    }

    method GetStartBlocks(totalBlocks: uint32) returns (res: int)
      requires Layout()
      ensures ScanAnswer(Table(), totalBlocks, res)
    {
      ghost var t := Table();
      var bc, bs := 0, -1;
      var i := 0;
      while i < total
        invariant 0 <= i <= total
        invariant bs == -1 ==> bc == 0 && (i == 0 || !IsFree(t[i - 1]))
        invariant bs != -1 ==> 0 <= bs < i && bc == i - bs && FreeRange(t, bs, i)
        invariant bs != -1 ==> bs == 0 || !IsFree(t[bs - 1])
        invariant totalBlocks >= 1 ==> bc < totalBlocks
        invariant totalBlocks >= 1 ==> forall s :: 0 <= s && s + totalBlocks <= i ==> !Fits(t, s, totalBlocks)
      {
        assert low[base + i] == t[i];
        if !IsFree(low[base + i]) {
          bc, bs := 0, -1;
          i := i + 1;
          continue;
        }
        if bs == -1 {
          bs := i;
        }
        bc := bc + 1;
        if bc == totalBlocks {
          assert Fits(t, bs, totalBlocks);
          break;
        }
        forall s | 0 <= s && s + totalBlocks == i + 1 && totalBlocks >= 1 ensures !Fits(t, s, totalBlocks) {
          assert s < bs && s <= bs - 1 < s + totalBlocks;
        }
        i := i + 1;
      }
      if bs == -1 {
        return -ENOMEM;
      }
      return bs;
    }

    method MarkBlockTaken(start: nat, totalBlocks: uint32)
      requires Layout() && start < total && totalBlocks <= MAX_RUN
      modifies low
      ensures low[..] == Marked(old(low[..]), base + start, totalBlocks)
    {
      var end := start + totalBlocks - 1;
      var entry: Entry := TAKEN | IS_FIRST;
      if totalBlocks > 1 {
        entry := entry | HAS_NEXT;
      }
      var i := start;
      while i <= end
        invariant start <= i <= start + totalBlocks
        invariant i <= end ==> entry == RunByte(i - start, totalBlocks)
        invariant forall j :: 0 <= j < low.Length ==>
          low[j] == if base + start <= j < base + i then RunByte(j - (base + start), totalBlocks) else old(low[j])
      {
        low[base + i] := entry;
        entry := TAKEN;
        if i != end - 1 {
          entry := entry | HAS_NEXT;
        }
        i := i + 1;
      }
    }

    method MarkBlockFree(start: int)
      requires Layout() && 0 <= base + start
      modifies low
      ensures low[..] == ClearChain(old(low[..]), base + start, base + total)
    {
      var i := start;
      while i < total
        invariant start <= i
        invariant ClearChain(low[..], base + i, base + total) == ClearChain(old(low[..]), base + start, base + total)
      {
        var entry := low[base + i];
        ghost var before := low[..];
        low[base + i] := FREE;
        assert low[..] == before[base + i := FREE];
        if entry & HAS_NEXT == 0 {
          break;
        }
        i := i + 1;
      }
    }

    /** heap_malloc, as coded. The run it marks always joins `live` as one disjoint run,
        but it may end beyond the table (see HeapTable.FirstFitExactly for exactly when). */
    method Malloc(size: uint32) returns (ptr: uint32)
      requires Valid()
      modifies low, `live
      ensures Valid()
      ensures ptr == 0 ==> ScanAnswer(old(Table()), BlockCount(size), -ENOMEM)
      ensures ptr != 0 ==> 0 <= BlockAt(ptr) < total && ptr == Address(BlockAt(ptr))
      ensures ptr != 0 ==> ScanAnswer(old(Table()), BlockCount(size), BlockAt(ptr))
      ensures ptr == 0 || BlockCount(size) == 0 ==> live == old(live) && low[..] == old(low[..])
      ensures ptr != 0 && BlockCount(size) > 0 ==>
        && BlockAt(ptr) !in old(live)
        && live == old(live)[BlockAt(ptr) := BlockCount(size)]
        && Table() == Marked(old(Table()), BlockAt(ptr), BlockCount(size))
        && low[..] == Marked(old(low[..]), base + BlockAt(ptr), BlockCount(size))
    {
      hide BlockIndex, BlockCount, Encodes, ScanAnswer, Marked;
      var n := BlockCount(size);
      BlockCountIs(size);
      ghost var t, bytes := Table(), low[..];
      var start := GetStartBlocks(n);
      ScanFree(t, n, start);
      if start < 0 {
        return 0;
      }
      BlockAtAddress(start);
      ptr := saddr + start * BLOCK_SIZE;
      MarkBlockTaken(start, n);
      if n == 0 {
        assert low[..] == bytes;
        assert Table() == low[..][base..base + total] == t;
      } else {
        AddRun(t, live, start, n);
        MarkedWindow(bytes, base, total, start, n);
        assert Table() == low[..][base..base + total];
        assert bytes[base..base + total] == t;
        live := live[start := n];
      }
    }

    /** heap_free, for any address whose table index falls in the modelled memory: live
        pointers, pointers to free blocks, and null, whose walk starts below the table. */
    method Free(ptr: uint32)
      requires Valid() && 0 <= base + BlockAt(ptr)
      modifies low, `live
      ensures Layout()
      ensures low[..] == ClearChain(old(low[..]), base + old(BlockAt(ptr)), base + total)
      ensures BlockAt(ptr) in old(live) ==>
        && Valid() && live == old(live) - {BlockAt(ptr)}
        && Table() == Cleared(old(Table()), BlockAt(ptr), old(live)[BlockAt(ptr)])
        && SameAround(old(low[..]), low[..], base, total)
      ensures 0 <= BlockAt(ptr) < total && IsFree(old(Table())[BlockAt(ptr)]) ==>
        Valid() && live == old(live) && low[..] == old(low[..])
      ensures BlockAt(ptr) >= 0 && BlockAt(ptr) !in old(live) ==> live == old(live)
      ensures BlockAt(ptr) < 0 ==>
        && Valid()
        && live == if Reaches(old(low[..]), base + BlockAt(ptr), base) then old(live) - {0} else old(live)
    {
      hide BlockIndex, Encodes, ClearChain, Cleared, SameAround, Reaches;
      var b := BlockAt(ptr);
      ghost var t, bytes, m := Table(), low[..], live;
      MarkBlockFree(b);
      if b in m {
        live := live - {b};
        assert bytes[base..base + total] == t;
        FreeLive(bytes, base, total, m, b);
        assert Table() == low[..][base..base + total];
      } else if 0 <= b < total && IsFree(t[b]) {
        FreeIsUntaken(t, m, b);
        ClearFreeByte(bytes, base + b, base + total);
        assert Table() == low[..][base..base + total] == t;
      } else if b < 0 {
        live := if Reaches(bytes, base + b, base) then live - {0} else live;
        FreedFromBelow(bytes, b, m);
      }
    }

    /** The table after a walk from below it. */
    lemma FreedFromBelow(bytes: seq<Entry>, b: int, m: Runs)
      requires Layout() && b < 0 <= base + b && |bytes| == low.Length && Encodes(bytes[base..base + total], m)
      requires low[..] == ClearChain(bytes, base + b, base + total)
      requires live == if Reaches(bytes, base + b, base) then m - {0} else m
      ensures Valid()
    {
      hide Encodes, ClearChain, Reaches;
      WalkFromBelow(bytes, base + b, base, total, m);
      assert Table() == low[..][base..base + total];
    }

    /** Freeing what malloc just returned restores the table byte for byte, for every size. */
    method MallocThenFree(size: uint32)
      requires Valid()
      modifies low, `live
      ensures Valid() && Table() == old(Table()) && live == old(live)
    {
      hide BlockIndex, BlockCount, Encodes, ScanAnswer, Marked, ClearChain, Cleared, SameAround, FreeRange;
      ghost var t, m := Table(), live;
      var ptr := Malloc(size);
      if ptr != 0 {
        ScanFree(t, BlockCount(size), BlockAt(ptr));
        Free(ptr);
        assert live == m;
        EncodingUnique(Table(), t, m);
      }
    }
  }
}
