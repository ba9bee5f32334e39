/** What a read through the cluster chain means for the caller. */
module Fat16Meaning {
  import opened Status
  import opened Arith
  import opened Bits
  import opened Memory
  import opened Streamer
  import opened Fat16

  predicate Reached(disk: DiskImage, v: Volume, start: int, k: nat) {
    var w := Walk(disk, v, start, k);
    w.At? && w.cluster >= 0
  }

  function ClusterNo(disk: DiskImage, v: Volume, start: int, k: nat): int {
    var w := Walk(disk, v, start, k);
    if w.At? then w.cluster else -1
  }

  /** Disk position of byte p of the clusters the walk comes to: byte p % size of cluster p / size. */
  function WalkPosition(disk: DiskImage, v: Volume, start: int, p: nat): int
    requires Fits(v)
  {
    ClusterStart(v, ClusterNo(disk, v, start, ClusterIndex(v, p))) + ClusterOffset(v, p)
  }

  /** Disk position byte i of a read at `offset` is taken from. */
  function CodePosition(disk: DiskImage, v: Volume, start: int, offset: nat, i: nat): int
    requires Fits(v)
  {
    ClusterStart(v, ClusterNo(disk, v, start, ClusterIndex(v, offset) + ClusterIndex(v, i)))
    + ClusterOffset(v, offset) + ClusterOffset(v, i)
  }

  ghost predicate TakenFrom(disk: DiskImage, b: byte, p: int) {
    0 <= p < DiskBytes(disk) && b == FlatByte(disk, p)
  }

  // ---- the clusters of the data area ----

  /** Group k of n sectors each. */
  function Group(area: seq<Sector>, n: nat, k: nat): seq<Sector>
    requires n >= 1
    decreases k
  {
    if k == 0 then (if |area| < n then area else area[..n])
    else if |area| < n then []
    else Group(area[n..], n, k - 1)
  }

  /** The bytes of a data cluster: cluster 2 is the first group of the data area, cluster 3 the second,
      and so on. */
  function ClusterBytes(disk: DiskImage, v: Volume, cluster: nat): seq<byte>
    requires Fits(v) && cluster >= 2
  {
    if v.dataStart > |disk| then [] else Flatten(Group(disk[v.dataStart..], v.sectorsPerCluster, cluster - 2))
  }

  lemma {:induction false} GroupAt(area: seq<Sector>, n: nat, k: nat, j: nat)
    requires n >= 1 && j < n && k * n + j < |area|
    ensures j < |Group(area, n, k)| && Group(area, n, k)[j] == area[k * n + j]
    decreases k
  {
    if k > 0 {
      Distribute(k, 1, n);
      Multiple(k, n);
      GroupAt(area[n..], n, k - 1, j);
    }
  }

  /** The arithmetic of the code finds the bytes of the cluster. */
  lemma ClusterByteIs(disk: DiskImage, v: Volume, cluster: nat, x: nat)
    requires Fits(v) && cluster >= 2 && x < ClusterSize(v)
    requires 0 <= ClusterStart(v, cluster) + x < DiskBytes(disk)
    ensures x < |ClusterBytes(disk, v, cluster)| && FlatByte(disk, ClusterStart(v, cluster) + x) == ClusterBytes(disk, v, cluster)[x]
  {
    hide Group, Flatten;
    var k, n, j := cluster - 2, v.sectorsPerCluster, x / 512;
    var sector := v.dataStart + k * n;
    assert ClusterStart(v, cluster) + x == (sector + j) * 512 + x % 512;
    assert k * n >= 0 by { Scale(k, 0, n); }
    var area := disk[v.dataStart..];
    GroupAt(area, n, k, j);
    FlattenAt(Group(area, n, k), x);
  }

  lemma OffsetParts(v: Volume, p: nat)
    requires Fits(v)
    ensures p == ClusterIndex(v, p) * ClusterSize(v) + ClusterOffset(v, p)
    ensures p < ClusterSize(v) ==> ClusterIndex(v, p) == 0 && ClusterOffset(v, p) == p
    ensures ClusterIndex(v, p + ClusterSize(v)) == ClusterIndex(v, p) + 1
    ensures ClusterOffset(v, p + ClusterSize(v)) == ClusterOffset(v, p)
  {
    Euclid(p, ClusterSize(v));
    AddOne(p, ClusterSize(v));
    if p < ClusterSize(v) { Below(p, ClusterSize(v)); }
  }

  lemma SplitParts(v: Volume, offset: nat, i: nat)
    requires Fits(v)
    ensures var r, j, w, k := ClusterOffset(v, offset), ClusterIndex(v, i), ClusterOffset(v, i), ClusterIndex(v, offset);
      if r + w < ClusterSize(v)
      then ClusterIndex(v, offset + i) == k + j && ClusterOffset(v, offset + i) == r + w
      else ClusterIndex(v, offset + i) == k + j + 1 && ClusterOffset(v, offset + i) == r + w - ClusterSize(v)
  {
    Split(offset, i, ClusterSize(v));
  }

  /** The bytes of a read are those of its first visit, then those of the rest of the request. */
  lemma ReadParts(disk: DiskImage, v: Volume, start: int, offset: nat, total: nat, i: nat)
    requires Fits(v) && FileRead(disk, v, start, offset, total).Got? && i < total
    ensures Chunk(disk, v, start, offset, total).Got?
    ensures i < ClusterSize(v) ==>
      FileRead(disk, v, start, offset, total).bytes[i] == Chunk(disk, v, start, offset, total).bytes[i]
    ensures i >= ClusterSize(v) ==>
      && FileRead(disk, v, start, offset + ClusterSize(v), total - ClusterSize(v)).Got?
      && FileRead(disk, v, start, offset, total).bytes[i]
         == FileRead(disk, v, start, offset + ClusterSize(v), total - ClusterSize(v)).bytes[i - ClusterSize(v)]
  {
    hide Chunk, ClusterSize, Fits;
  }

  /** A successful read delivers, byte for byte, what lies at the code's positions. */
  lemma {:induction false} ReadDelivers(disk: DiskImage, v: Volume, start: int, offset: nat, total: nat, i: nat)
    requires Fits(v) && FileRead(disk, v, start, offset, total).Got? && i < total
    ensures TakenFrom(disk, FileRead(disk, v, start, offset, total).bytes[i], CodePosition(disk, v, start, offset, i))
    decreases total
  {
    hide Walk, FlatByte, ClusterStart, ClusterSize, ClusterIndex, ClusterOffset, Fits, FileRead;
    var size := ClusterSize(v);
    ReadParts(disk, v, start, offset, total, i);
    if i < size {
      OffsetParts(v, i);
    } else {
      ReadDelivers(disk, v, start, offset + size, total - size, i - size);
      OffsetParts(v, offset);
      OffsetParts(v, i - size);
    }
  }

  /** Visit j of a read finds a cluster, and the part of the request it asks for ends before the last
      byte of the disk. */
  predicate VisitOk(disk: DiskImage, v: Volume, start: int, offset: nat, total: nat, j: nat)
    requires Fits(v)
  {
    var k, left := ClusterIndex(v, offset) + j, total - j * ClusterSize(v);
    && Reached(disk, v, start, k)
    && 0 <= ClusterStart(v, ClusterNo(disk, v, start, k)) + ClusterOffset(v, offset)
    && ClusterStart(v, ClusterNo(disk, v, start, k)) + ClusterOffset(v, offset)
       + (if left > ClusterSize(v) then ClusterSize(v) else left) < DiskBytes(disk)
  }

  predicate IsVisit(v: Volume, total: nat, j: nat)
    requires Fits(v)
  {
    j == 0 || j * ClusterSize(v) < total
  }

  lemma NextVisit(disk: DiskImage, v: Volume, start: int, offset: nat, total: nat, j: nat)
    requires Fits(v) && total > ClusterSize(v)
    ensures IsVisit(v, total, j + 1) <==> IsVisit(v, total - ClusterSize(v), j)
    ensures VisitOk(disk, v, start, offset, total, j + 1)
       <==> VisitOk(disk, v, start, offset + ClusterSize(v), total - ClusterSize(v), j)
  {
    hide Walk, FlatByte, ClusterStart, ClusterSize, ClusterIndex, ClusterOffset, Fits;
    OffsetParts(v, offset);
    Distribute(j + 1, 1, ClusterSize(v));
  }

  /** A read succeeds if and only if every visit does: each cluster is reached through links the walk
      accepts, and nothing up to and including the byte after the request's share is off the disk. */
  lemma {:induction false} ReadSucceedsExactly(disk: DiskImage, v: Volume, start: int, offset: nat, total: nat)
    requires Fits(v)
    ensures FileRead(disk, v, start, offset, total).Got?
       <==> forall j :: 0 <= j && IsVisit(v, total, j) ==> VisitOk(disk, v, start, offset, total, j)
    decreases total
  {
    hide Walk, FlatByte, ClusterStart, ClusterSize, ClusterIndex, ClusterOffset, Fits;
    var size := ClusterSize(v);
    assert Chunk(disk, v, start, offset, total).Got? <==> VisitOk(disk, v, start, offset, total, 0);
    if total <= size {
      forall j | j > 0 ensures !IsVisit(v, total, j) { Multiple(j, size); }
    } else {
      ReadSucceedsExactly(disk, v, start, offset + size, total - size);
      if forall j :: 0 <= j && IsVisit(v, total, j) ==> VisitOk(disk, v, start, offset, total, j) {
        var next, left := offset + size, total - size;
        forall j: nat | IsVisit(v, left, j) ensures VisitOk(disk, v, start, next, left, j) {
          NextVisit(disk, v, start, offset, total, j);
          assert IsVisit(v, total, j + 1);
        }
      } else {
        var j: nat :| IsVisit(v, total, j) && !VisitOk(disk, v, start, offset, total, j);
        if j > 0 { NextVisit(disk, v, start, offset, total, j - 1); }
      }
    }
  }

  // ---- the chain the table spells out ----

  /** The entry of a cluster where the table keeps it. */
  function TableLink(disk: DiskImage, v: Volume, cluster: nat): int {
    var p := TableEntryPosition(v, cluster);
    if p + 2 < DiskBytes(disk) then FlatByte(disk, p) + 256 * FlatByte(disk, p + 1) else -EIO
  }

  /** Cluster k of the file, by the table and by FAT16's reading of its entries. */
  function Chain(disk: DiskImage, v: Volume, start: nat, k: nat): (w: Walked)
    ensures w.At? ==> w.cluster >= 0
  {
    if k == 0 then At(start)
    else
      var before := Chain(disk, v, start, k - 1);
      if before.Stopped? then Stopped
      else
        var e := TableLink(disk, v, before.cluster);
        if NotACluster(e) then Stopped else At(e)
  }

  /** What a volume has to satisfy at a cluster for the lookup of its successor to be right. */
  predicate StepAgrees(disk: DiskImage, v: Volume, cluster: nat) {
    var e, t := Link(disk, v, cluster), TableLink(disk, v, cluster);
    if NotACluster(t) then Refused(e) else !Refused(e) && e == t
  }

  predicate OnChain(disk: DiskImage, v: Volume, start: nat, n: nat) {
    Walk(disk, v, start, n) == Chain(disk, v, start, n)
  }

  predicate LeavesRightly(disk: DiskImage, v: Volume, start: nat, n: nat) {
    var c := Chain(disk, v, start, n);
    c.At? ==> StepAgrees(disk, v, c.cluster)
  }

  /** The walk follows the file's chain for k links if and only if the lookup is right at each cluster
      of the chain it leaves. */
  lemma {:induction false} WalkIsChain(disk: DiskImage, v: Volume, start: nat, k: nat)
    ensures (forall n :: 0 <= n <= k ==> OnChain(disk, v, start, n))
       <==> (forall n :: 0 <= n < k ==> LeavesRightly(disk, v, start, n))
    decreases k
  {
    hide OnChain, LeavesRightly;
    if k == 0 {
      WalkStart(disk, v, start);
    } else {
      WalkIsChain(disk, v, start, k - 1);
      WalkStep(disk, v, start, k - 1);
    }
  }

  lemma WalkStart(disk: DiskImage, v: Volume, start: nat)
    ensures OnChain(disk, v, start, 0)
  {
  }

  lemma WalkStep(disk: DiskImage, v: Volume, start: nat, n: nat)
    ensures OnChain(disk, v, start, n) ==> (OnChain(disk, v, start, n + 1) <==> LeavesRightly(disk, v, start, n))
  {
    hide Link, TableLink, Refused, NotACluster;
  }

  /** Visit j of the request (bytes [j * size, (j + 1) * size) of it) asks for more than is left of its cluster. */
  predicate Spills(v: Volume, offset: nat, total: nat, j: nat)
    requires Fits(v)
  {
    var size := ClusterSize(v);
    && j * size < total
    && ClusterOffset(v, offset) + (if total - j * size > size then size else total - j * size) > size
  }

  /** A byte of the read comes from where the walk puts that byte of the file. */
  predicate InPlace(disk: DiskImage, v: Volume, start: int, offset: nat, i: nat)
    requires Fits(v)
  {
    CodePosition(disk, v, start, offset, i) == WalkPosition(disk, v, start, offset + i)
  }

  /** Where a visit spills over the end of its cluster, the next cluster follows on the disk. */
  predicate Adjacent(disk: DiskImage, v: Volume, start: int, offset: nat, j: nat)
    requires Fits(v)
  {
    var k := ClusterIndex(v, offset) + j;
    ClusterNo(disk, v, start, k + 1) == ClusterNo(disk, v, start, k) + 1
  }

  lemma StartsOf(v: Volume, c: int, d: int)
    requires Fits(v)
    ensures ClusterStart(v, d) == ClusterStart(v, c) + ClusterSize(v) <==> d == c + 1
  {
    var s := v.sectorsPerCluster;
    Distribute(d, 2, s);
    Distribute(c, 2, s);
    Distribute(d, c + 1, s);
    Distribute(c + 1, 1, s);
    Multiple(d - (c + 1), s);
  }

  lemma InPlaceIff(disk: DiskImage, v: Volume, start: int, offset: nat, i: nat)
    requires Fits(v)
    ensures InPlace(disk, v, start, offset, i)
      <==> ClusterOffset(v, offset) + ClusterOffset(v, i) < ClusterSize(v)
           || Adjacent(disk, v, start, offset, ClusterIndex(v, i))
  {
    hide ClusterNo, ClusterStart, ClusterSize, ClusterIndex, ClusterOffset, Fits;
    SplitParts(v, offset, i);
    var k := ClusterIndex(v, offset) + ClusterIndex(v, i);
    StartsOf(v, ClusterNo(disk, v, start, k), ClusterNo(disk, v, start, k + 1));
  }

  /** A visit spills exactly if some byte of it lies beyond the end of its cluster. */
  lemma SpillWitness(v: Volume, offset: nat, total: nat, j: nat) returns (i: nat)
    requires Fits(v) && Spills(v, offset, total, j)
    ensures i < total && ClusterIndex(v, i) == j && ClusterOffset(v, offset) + ClusterOffset(v, i) >= ClusterSize(v)
  {
    var size := ClusterSize(v);
    var w := size - ClusterOffset(v, offset);
    i := j * size + w;
    DivMod(i, size, j, w);
  }

  lemma SpillOf(v: Volume, offset: nat, total: nat, i: nat)
    requires Fits(v) && i < total && ClusterOffset(v, offset) + ClusterOffset(v, i) >= ClusterSize(v)
    ensures Spills(v, offset, total, ClusterIndex(v, i))
  {
    hide ClusterSize, ClusterIndex, ClusterOffset, Fits;
    OffsetParts(v, i);
  }

  /** A read takes its bytes from the positions of bytes [offset, offset + total) of the walked clusters
      if and only if every visit that spills over its cluster is followed on the disk by the next
      cluster of the walk. In particular cluster-aligned reads of any walk, and all reads of a
      contiguous one, do. */
  lemma SliceExactly(disk: DiskImage, v: Volume, start: int, offset: nat, total: nat)
    requires Fits(v)
    ensures (forall i :: 0 <= i < total ==> InPlace(disk, v, start, offset, i))
       <==> (forall j :: 0 <= j && Spills(v, offset, total, j) ==> Adjacent(disk, v, start, offset, j))
  {
    hide InPlace, Adjacent, Spills, ClusterSize, ClusterIndex, ClusterOffset, Fits;
    var size := ClusterSize(v);
    if forall i :: 0 <= i < total ==> InPlace(disk, v, start, offset, i) {
      forall j | 0 <= j && Spills(v, offset, total, j) ensures Adjacent(disk, v, start, offset, j) {
        var i := SpillWitness(v, offset, total, j);
        InPlaceIff(disk, v, start, offset, i);
      }
    }
    if forall j :: 0 <= j && Spills(v, offset, total, j) ==> Adjacent(disk, v, start, offset, j) {
      forall i | 0 <= i < total ensures InPlace(disk, v, start, offset, i) {
        InPlaceIff(disk, v, start, offset, i);
        if ClusterOffset(v, offset) + ClusterOffset(v, i) >= size { SpillOf(v, offset, total, i); }
      }
    }
  }

  /** An aligned read never spills. */
  lemma AlignedIsSlice(disk: DiskImage, v: Volume, start: int, offset: nat, total: nat)
    requires Fits(v) && ClusterOffset(v, offset) == 0
    ensures forall i :: 0 <= i < total ==> InPlace(disk, v, start, offset, i)
  {
    hide InPlace, Adjacent;
    forall i | 0 <= i < total ensures InPlace(disk, v, start, offset, i) {
      InPlaceIff(disk, v, start, offset, i);
    }
  }

  /** A read inside the first cluster follows no link, so it is right whatever the table lookup does: it
      delivers the requested bytes of the cluster. */
  lemma FirstClusterIsRight(disk: DiskImage, v: Volume, start: int, offset: nat, total: nat, i: nat)
    requires Fits(v) && offset + total <= ClusterSize(v) && i < total
    requires FileRead(disk, v, start, offset, total).Got?
    ensures TakenFrom(disk, FileRead(disk, v, start, offset, total).bytes[i], ClusterStart(v, start) + offset + i)
    ensures start >= 2 ==>
      && offset + i < |ClusterBytes(disk, v, start)|
      && FileRead(disk, v, start, offset, total).bytes[i] == ClusterBytes(disk, v, start)[offset + i]
  {
    hide FileRead, ClusterSize, ClusterIndex, ClusterOffset, Fits, FlatByte, ClusterBytes, ClusterStart;
    ReadDelivers(disk, v, start, offset, total, i);
    OffsetParts(v, offset);
    OffsetParts(v, i);
    if start >= 2 {
      ClusterByteIs(disk, v, start, offset + i);
    }
  }

  /** An aligned read of up to a cluster's length delivers the beginning of the cluster the walk comes to. */
  lemma AlignedReadIsCluster(disk: DiskImage, v: Volume, start: int, offset: nat, total: nat)
    requires Fits(v) && ClusterOffset(v, offset) == 0 && total <= ClusterSize(v)
    requires FileRead(disk, v, start, offset, total).Got? && ClusterNo(disk, v, start, ClusterIndex(v, offset)) >= 2
    ensures var b := ClusterBytes(disk, v, ClusterNo(disk, v, start, ClusterIndex(v, offset)));
      total <= |b| && FileRead(disk, v, start, offset, total).bytes == b[..total]
  {
    hide FileRead, ClusterSize, ClusterIndex, ClusterOffset, Fits, FlatByte, ClusterBytes, ClusterStart, ClusterNo;
    var c := ClusterNo(disk, v, start, ClusterIndex(v, offset));
    var b, r := ClusterBytes(disk, v, c), FileRead(disk, v, start, offset, total).bytes;
    if total > 0 {
      AlignedByte(disk, v, start, offset, total, total - 1);
    }
    forall i | 0 <= i < total ensures r[i] == b[..total][i] {
      AlignedByte(disk, v, start, offset, total, i);
    }
  }

  lemma AlignedByte(disk: DiskImage, v: Volume, start: int, offset: nat, total: nat, i: nat)
    requires Fits(v) && ClusterOffset(v, offset) == 0 && i < total <= ClusterSize(v)
    requires FileRead(disk, v, start, offset, total).Got? && ClusterNo(disk, v, start, ClusterIndex(v, offset)) >= 2
    ensures var b := ClusterBytes(disk, v, ClusterNo(disk, v, start, ClusterIndex(v, offset)));
      i < |b| && FileRead(disk, v, start, offset, total).bytes[i] == b[i]
  {
    hide FileRead, ClusterSize, ClusterIndex, ClusterOffset, Fits, FlatByte, ClusterBytes, ClusterStart, ClusterNo;
    ReadDelivers(disk, v, start, offset, total, i);
    OffsetParts(v, i);
    ClusterByteIs(disk, v, ClusterNo(disk, v, start, ClusterIndex(v, offset)), i);
  }

  /** Example: when the walk goes from cluster 2 of the boot volume to cluster 4, a read of a cluster's
      length at offset 1 takes its last byte from cluster 3, not from cluster 4. */
  lemma SpillExample(disk: DiskImage)
    requires Walk(disk, BOOT, 2, 1) == At(4)
    ensures ClusterSize(BOOT) == 65536
    ensures CodePosition(disk, BOOT, 2, 1, 65535) == ClusterStart(BOOT, 3)
    ensures WalkPosition(disk, BOOT, 2, 1 + 65535) == ClusterStart(BOOT, 4) != ClusterStart(BOOT, 3)
  {
    assert Walk(disk, BOOT, 2, 0) == At(2);
  }

  /** A read whose positions are right delivers the bytes at the positions the walk gives them. */
  lemma ReadIsWalkSlice(disk: DiskImage, v: Volume, start: int, offset: nat, total: nat, i: nat)
    requires Fits(v) && FileRead(disk, v, start, offset, total).Got? && i < total
    requires forall j :: 0 <= j && Spills(v, offset, total, j) ==> Adjacent(disk, v, start, offset, j)
    ensures TakenFrom(disk, FileRead(disk, v, start, offset, total).bytes[i], WalkPosition(disk, v, start, offset + i))
  {
    hide FileRead, CodePosition, WalkPosition, Adjacent, Spills;
    SliceExactly(disk, v, start, offset, total);
    assert InPlace(disk, v, start, offset, i);
    ReadDelivers(disk, v, start, offset, total, i);
  }

  // ---- the file, as its table has it ----

  function ChainNo(disk: DiskImage, v: Volume, start: nat, k: nat): int {
    var w := Chain(disk, v, start, k);
    if w.At? then w.cluster else -1
  }

  /** Disk position of byte p of the file: byte p % size of cluster p / size of its chain. */
  function FilePosition(disk: DiskImage, v: Volume, start: nat, p: nat): int
    requires Fits(v)
  {
    ClusterStart(v, ChainNo(disk, v, start, ClusterIndex(v, p))) + ClusterOffset(v, p)
  }

  /** The chain goes on with the cluster that follows on the disk. */
  predicate ChainAdjacent(disk: DiskImage, v: Volume, start: nat, offset: nat, j: nat)
    requires Fits(v)
  {
    var k := ClusterIndex(v, offset) + j;
    ChainNo(disk, v, start, k + 1) == ChainNo(disk, v, start, k) + 1
  }

  lemma ChainNumber(disk: DiskImage, v: Volume, start: nat, n: nat)
    requires OnChain(disk, v, start, n)
    ensures ChainNo(disk, v, start, n) == ClusterNo(disk, v, start, n)
  {
    hide Walk, Chain;
  }

  lemma IndexGrows(v: Volume, a: nat, b: nat)
    requires Fits(v) && a <= b
    ensures ClusterIndex(v, a) <= ClusterIndex(v, b)
  {
    hide ClusterSize, ClusterIndex, ClusterOffset;
    OffsetParts(v, a);
    OffsetParts(v, b);
    Distribute(ClusterIndex(v, a), ClusterIndex(v, b), ClusterSize(v));
    Multiple(ClusterIndex(v, a) - ClusterIndex(v, b), ClusterSize(v));
  }

  /** A visit that spills has bytes of the request in the cluster after its own. */
  lemma SpillReaches(v: Volume, offset: nat, total: nat, j: nat)
    requires Fits(v) && Spills(v, offset, total, j)
    ensures total > 0 && ClusterIndex(v, offset) + j + 1 <= ClusterIndex(v, offset + total - 1)
  {
    hide ClusterSize, ClusterIndex, ClusterOffset, Fits, Spills;
    var i := SpillWitness(v, offset, total, j);
    SplitParts(v, offset, i);
    IndexGrows(v, offset + i, offset + total - 1);
  }

  /** Where the lookup is right at every cluster before the last one of the request, the read takes
      every byte from where the file has it if and only if the chain is contiguous at each spill. */
  lemma FileSliceExactly(disk: DiskImage, v: Volume, start: nat, offset: nat, total: nat)
    requires Fits(v) && total > 0
    requires forall n :: 0 <= n < ClusterIndex(v, offset + total - 1) ==> LeavesRightly(disk, v, start, n)
    ensures (forall i :: 0 <= i < total ==> InFile(disk, v, start, offset, i))
       <==> (forall j :: 0 <= j && Spills(v, offset, total, j) ==> ChainAdjacent(disk, v, start, offset, j))
  {
    hide ChainNo, ClusterNo, OnChain, LeavesRightly, Spills, ClusterSize, ClusterIndex, ClusterOffset, ClusterStart, CodePosition, Fits;
    var last := ClusterIndex(v, offset + total - 1);
    WalkIsChain(disk, v, start, last);
    forall i | 0 <= i < total
      ensures FilePosition(disk, v, start, offset + i) == WalkPosition(disk, v, start, offset + i)
      ensures InFile(disk, v, start, offset, i) <==> InPlace(disk, v, start, offset, i)
    {
      IndexGrows(v, offset + i, offset + total - 1);
      ChainNumber(disk, v, start, ClusterIndex(v, offset + i));
    }
    forall j | 0 <= j && Spills(v, offset, total, j)
      ensures ChainAdjacent(disk, v, start, offset, j) <==> Adjacent(disk, v, start, offset, j)
    {
      SpillReaches(v, offset, total, j);
      ChainNumber(disk, v, start, ClusterIndex(v, offset) + j);
      ChainNumber(disk, v, start, ClusterIndex(v, offset) + j + 1);
    }
    SliceExactly(disk, v, start, offset, total);
  }

  /** A byte of the read comes from where the file has it. */
  predicate InFile(disk: DiskImage, v: Volume, start: nat, offset: nat, i: nat)
    requires Fits(v)
  {
    CodePosition(disk, v, start, offset, i) == FilePosition(disk, v, start, offset + i)
  }

  /** The end-to-end statement: on a volume whose lookups are right along the file's chain, and whose
      chain is contiguous wherever a visit spills, a successful read delivers the bytes of the file: byte
      p is byte p % size of cluster p / size of the chain. */
  lemma ReadIsFileSlice(disk: DiskImage, v: Volume, start: nat, offset: nat, total: nat, i: nat)
    requires Fits(v) && FileRead(disk, v, start, offset, total).Got? && i < total
    requires forall n :: 0 <= n < ClusterIndex(v, offset + total - 1) ==> LeavesRightly(disk, v, start, n)
    requires forall j :: 0 <= j && Spills(v, offset, total, j) ==> ChainAdjacent(disk, v, start, offset, j)
    ensures TakenFrom(disk, FileRead(disk, v, start, offset, total).bytes[i], FilePosition(disk, v, start, offset + i))
    ensures start >= 2 ==>
      var c, x := ChainNo(disk, v, start, ClusterIndex(v, offset + i)), ClusterOffset(v, offset + i);
      && c >= 2 && x < |ClusterBytes(disk, v, c)|
      && FileRead(disk, v, start, offset, total).bytes[i] == ClusterBytes(disk, v, c)[x]
  {
    hide FileRead, CodePosition, ChainAdjacent, LeavesRightly, Spills, ClusterBytes, ClusterIndex, ClusterOffset, ClusterSize,
      ClusterStart, Fits, ChainNo, FlatByte;
    FileSliceExactly(disk, v, start, offset, total);
    assert InFile(disk, v, start, offset, i);
    ReadDelivers(disk, v, start, offset, total, i);
    if start >= 2 {
      InDataCluster(disk, v, start, offset, total, i);
      ClusterByteIs(disk, v, ChainNo(disk, v, start, ClusterIndex(v, offset + i)), ClusterOffset(v, offset + i));
    }
  }

  /** The byte lies in a data cluster of the chain. */
  lemma InDataCluster(disk: DiskImage, v: Volume, start: nat, offset: nat, total: nat, i: nat)
    requires Fits(v) && start >= 2 && FileRead(disk, v, start, offset, total).Got? && i < total
    requires forall n :: 0 <= n < ClusterIndex(v, offset + total - 1) ==> LeavesRightly(disk, v, start, n)
    requires forall j :: 0 <= j && Spills(v, offset, total, j) ==> ChainAdjacent(disk, v, start, offset, j)
    ensures ChainNo(disk, v, start, ClusterIndex(v, offset + i)) >= 2
  {
    hide FileRead, OnChain, LeavesRightly, Spills, ClusterIndex, ClusterOffset, ClusterSize, ClusterStart, Fits, Walk, Chain;
    var k, j := ClusterIndex(v, offset), ClusterIndex(v, i);
    WalkIsChain(disk, v, start, ClusterIndex(v, offset + total - 1));
    OffsetParts(v, i);
    assert IsVisit(v, total, j);
    ReadSucceedsExactly(disk, v, start, offset, total);
    assert VisitOk(disk, v, start, offset, total, j);
    SplitParts(v, offset, i);
    IndexGrows(v, offset + i, offset + total - 1);
    assert OnChain(disk, v, start, k + j);
    ChainNumber(disk, v, start, k + j);
    DataCluster(disk, v, start, k + j);
    if ClusterOffset(v, offset) + ClusterOffset(v, i) >= ClusterSize(v) {
      SpillOf(v, offset, total, i);
    }
  }

  /** Clusters of a chain that starts with a data cluster are data clusters. */
  lemma DataCluster(disk: DiskImage, v: Volume, start: nat, n: nat)
    requires start >= 2
    ensures ChainNo(disk, v, start, n) == -1 || ChainNo(disk, v, start, n) >= 2
  {
  }

  /** A read that only meets addressable clusters keeps to valid positions, for every offset and total. */
  lemma {:induction false} AddressableInRange(disk: DiskImage, v: Volume, start: int, offset: nat, total: nat)
    requires Fits(v)
    requires forall k :: 0 <= k && Reached(disk, v, start, k) ==> Addressable(v, ClusterNo(disk, v, start, k))
    ensures InRange(disk, v, start, offset, total)
    decreases total
  {
    hide Walk, ClusterStart, ClusterSize, ClusterIndex, ClusterOffset, Fits, Chunk;
    var k := ClusterIndex(v, offset);
    assert Reached(disk, v, start, k) ==> Addressable(v, ClusterNo(disk, v, start, k));
    if total > ClusterSize(v) {
      AddressableInRange(disk, v, start, offset + ClusterSize(v), total - ClusterSize(v));
    }
  }

  /** fat16_read: nmemb items one after the other. The descriptor's own position never moves. */
  method ReadItems(r: Reader, high: uint32, low: uint32, pos: nat, size: nat, nmemb: nat, out: array<byte>)
    returns (res: int)
    requires r.Valid() && Or(high, low) < 65536
    requires size * nmemb <= out.Length && pos + size * nmemb < 0x8000_0000
    requires forall i :: 0 <= i < nmemb ==> ItemInRange(r.disk, r.v, Or(high, low), pos, size, i)
    modifies r.fatStream, r.clusterStream, out
    ensures res == nmemb || res == -EIO
    ensures res == nmemb <==> forall i :: 0 <= i < nmemb ==> ItemRead(r.disk, r.v, Or(high, low), pos, size, i).Got?
    ensures res == nmemb ==> forall i :: 0 <= i < nmemb ==>
      HoldsItem(out[..], i, size, ItemRead(r.disk, r.v, Or(high, low), pos, size, i))
  {
    hide FileRead, HoldsItem, InRange, Fits, ItemRead;
    var start := Or(high, low);
    var offset, at := pos, 0;
    var i := 0;
    while i < nmemb
      invariant 0 <= i <= nmemb && at == i * size && offset == pos + i * size
      invariant forall j :: 0 <= j < i ==> ItemRead(r.disk, r.v, start, pos, size, j).Got?
      invariant forall j :: 0 <= j < i ==> HoldsItem(out[..], j, size, ItemRead(r.disk, r.v, start, pos, size, j))
    {
      ghost var before := out[..];
      RoomFor(i, nmemb, size);
      assert ItemInRange(r.disk, r.v, start, pos, size, i);
      ItemIs(r.disk, r.v, start, pos, size, i);
      res := r.ReadInternal(start, offset, size, out, at);
      if res < 0 {
        assert ItemRead(r.disk, r.v, start, pos, size, i).Failed? by { ItemIs(r.disk, r.v, start, pos, size, i); }
        return;
      }
      ItemHeld(r.disk, r.v, start, pos, size, i, out[..]);
      forall j | 0 <= j < i ensures HoldsItem(out[..], j, size, ItemRead(r.disk, r.v, start, pos, size, j)) {
        HeldStays(before, out[..], j, i, size, ItemRead(r.disk, r.v, start, pos, size, j));
      }
      offset, at := offset + size, at + size;
      i := i + 1;
    }
    res := nmemb;
  }

  lemma ItemIs(disk: DiskImage, v: Volume, start: int, pos: nat, size: nat, i: nat)
    requires Fits(v)
    ensures ItemRead(disk, v, start, pos, size, i) == FileRead(disk, v, start, pos + i * size, size)
    ensures ItemInRange(disk, v, start, pos, size, i) <==> InRange(disk, v, start, pos + i * size, size)
  {
  }

  lemma ItemHeld(disk: DiskImage, v: Volume, start: int, pos: nat, size: nat, i: nat, out: seq<byte>)
    requires Fits(v) && i * size + size <= |out| && ItemRead(disk, v, start, pos, size, i).Got?
    requires out[i * size..i * size + size] == ItemRead(disk, v, start, pos, size, i).bytes
    ensures HoldsItem(out, i, size, ItemRead(disk, v, start, pos, size, i))
  {
    hide ItemRead, Fits;
  }

  /** Writing item i leaves the items before it alone. */
  lemma HeldStays(before: seq<byte>, out: seq<byte>, j: nat, i: nat, size: nat, b: Bytes)
    requires j < i && HoldsItem(before, j, size, b) && |out| == |before|
    requires forall n :: 0 <= n < |out| && !(i * size <= n < i * size + size) ==> out[n] == before[n]
    ensures HoldsItem(out, j, size, b)
  {
    RoomFor(j, i, size);
    assert out[j * size..j * size + size] == before[j * size..j * size + size];
  }

  lemma RoomFor(i: nat, n: nat, size: nat)
    requires i < n
    ensures i * size + size <= n * size && (i + 1) * size == i * size + size
  {
    Distribute(i + 1, 1, size);
    Scale(n, i + 1, size);
  }

  ghost predicate HoldsItem(out: seq<byte>, i: nat, size: nat, b: Bytes) {
    i * size + size <= |out| && b.Got? && out[i * size..i * size + size] == b.bytes
  }

  predicate ItemInRange(disk: DiskImage, v: Volume, start: int, pos: nat, size: nat, i: nat)
    requires Fits(v)
  {
    InRange(disk, v, start, pos + i * size, size)
  }

  function ItemRead(disk: DiskImage, v: Volume, start: int, pos: nat, size: nat, i: nat): Bytes
    requires Fits(v)
  {
    FileRead(disk, v, start, pos + i * size, size)
  }

  /** Where items land: byte q of what fat16_read delivers is byte pos + q of the file, for an item whose read
      meets the conditions of ReadIsFileSlice. */
  lemma ItemIsFile(disk: DiskImage, v: Volume, start: nat, pos: nat, size: nat, i: nat, offset: nat, out: seq<byte>, q: nat)
    requires Fits(v) && start >= 2 && offset == pos + i * size && i * size <= q < i * size + size
    requires HoldsItem(out, i, size, ItemRead(disk, v, start, pos, size, i))
    requires forall n :: 0 <= n < ClusterIndex(v, offset + size - 1) ==> LeavesRightly(disk, v, start, n)
    requires forall j :: 0 <= j && Spills(v, offset, size, j) ==> ChainAdjacent(disk, v, start, offset, j)
    ensures var c, x := ChainNo(disk, v, start, ClusterIndex(v, pos + q)), ClusterOffset(v, pos + q);
      c >= 2 && x < |ClusterBytes(disk, v, c)| && q < |out| && out[q] == ClusterBytes(disk, v, c)[x]
  {
    hide FileRead, LeavesRightly, Spills, ChainAdjacent, ClusterBytes, ClusterIndex, ClusterOffset, ClusterSize, ChainNo, Fits;
    var k := q - i * size;
    ReadIsFileSlice(disk, v, start, offset, size, k);
    assert offset + k == pos + q;
    assert out[i * size..i * size + size][k] == out[q];
  }
}
