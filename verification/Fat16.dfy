/** Reading a file through its cluster chain (fat16.c), as coded. */
module Fat16 {
  import opened Status
  import opened Arith
  import opened Bits
  import opened Memory
  import opened Streamer
  import LookupArithmetic

  const FAT_ENTRY_SIZE := 2

  /** What the reader needs of the FAT header: sectors per cluster, reserved sectors, and the
      first sector after the root directory. */
  datatype Volume = Volume(sectorsPerCluster: nat, reserved: nat, dataStart: nat)

  /** The widths of the header fields; a cluster has at least one sector. */
  predicate Fits(v: Volume) {
    1 <= v.sectorsPerCluster < 256 && v.reserved < 65536
  }

  /** The volume of the boot sector: 200 reserved sectors, two tables of 0x100 sectors, and 0x40 root
      entries of 32 bytes in front of the data. */
  const BOOT := Volume(128, 200, 200 + 2 * 0x100 + 0x40 * 32 / SECTOR_SIZE)

  function ClusterSize(v: Volume): (n: nat)
    requires Fits(v)
    ensures n >= 1
  {
    v.sectorsPerCluster * SECTOR_SIZE
  }

  /** Which cluster of the file an offset falls in, and where in it. */
  function ClusterIndex(v: Volume, offset: nat): nat
    requires Fits(v)
  {
    Natural(offset, ClusterSize(v));
    offset / ClusterSize(v)
  }

  function ClusterOffset(v: Volume, offset: nat): (r: nat)
    requires Fits(v)
    ensures r < ClusterSize(v)
  {
    offset % ClusterSize(v)
  }

  function ClusterToSector(v: Volume, cluster: int): int {
    v.dataStart + (cluster - 2) * v.sectorsPerCluster
  }

  /** Disk position of the first byte of a cluster. */
  function ClusterStart(v: Volume, cluster: int): int {
    ClusterToSector(v, cluster) * SECTOR_SIZE
  }

  /** Every position in the cluster, and one cluster further, is a valid int. */
  predicate Addressable(v: Volume, cluster: int)
    requires Fits(v)
  {
    0 <= ClusterStart(v, cluster) && ClusterStart(v, cluster) + 2 * ClusterSize(v) <= 0x8000_0000
  }

  /** On the boot volume these are the clusters up to 32762, the first two gigabytes of the disk. */
  lemma BootVolume(cluster: nat)
    ensures Fits(BOOT) && BOOT.dataStart == 716
    ensures Addressable(BOOT, cluster) <==> cluster <= 32762
  {
  }

  lemma Scale(a: int, b: int, s: nat)
    requires a >= b
    ensures a * s >= b * s
  {
    assert (a - b) * s >= 0;
  }

  /** Byte position at which the code looks up the entry of a cluster, in 32-bit arithmetic. */
  function EntryPosition(v: Volume, cluster: int): int {
    Signed(v.reserved * SECTOR_SIZE * (cluster * FAT_ENTRY_SIZE))
  }

  /** Where the file allocation table keeps that entry: one table start plus two bytes per cluster. */
  function TableEntryPosition(v: Volume, cluster: nat): nat {
    v.reserved * SECTOR_SIZE + cluster * FAT_ENTRY_SIZE
  }

  /** With any reserved sectors, the code never looks where the table has the entry. */
  lemma NeverTheEntry(v: Volume, cluster: nat)
    requires 1 <= v.reserved < 65536 && cluster < 65536
    ensures EntryPosition(v, cluster) != TableEntryPosition(v, cluster)
  {
    Regroup(v.reserved, cluster);
    LookupArithmetic.NeverEqual(v.reserved, cluster);
  }

  /** Over all volumes: the lookup hits the entry only of cluster 0 of a volume that starts with its table. */
  lemma EntryPositionExactly(v: Volume, cluster: nat)
    requires v.reserved < 65536 && cluster < 65536
    ensures EntryPosition(v, cluster) == TableEntryPosition(v, cluster) <==> v.reserved == 0 && cluster == 0
  {
    if v.reserved > 0 {
      NeverTheEntry(v, cluster);
    }
  }

  /** Example: a disk with the boot volume's layout whose table says, at byte 102404, that cluster 3
      follows cluster 2, and whose bytes 409600 and 409601 spell 7. The walk goes to cluster 7. */
  lemma WrongLinkExample(disk: DiskImage)
    requires DiskBytes(disk) >= 410112
    requires FlatByte(disk, 102404) == 3 && FlatByte(disk, 102405) == 0
    requires FlatByte(disk, 409600) == 7 && FlatByte(disk, 409601) == 0
    ensures TableEntryPosition(BOOT, 2) == 102404 && Walk(disk, BOOT, 2, 1) == At(7)
  {
    hide FlatByte;
    assert EntryPosition(BOOT, 2) == 409600;
    assert Walk(disk, BOOT, 2, 0) == At(2);
  }

  /** The 16-bit little-endian value the code reads as the entry of a cluster, or -EIO. */
  function Link(disk: DiskImage, v: Volume, cluster: int): (e: int)
    ensures e == -EIO || 0 <= e < 65536
  {
    var p := EntryPosition(v, cluster);
    if 0 <= p && p + 2 < DiskBytes(disk) then FlatByte(disk, p) + 256 * FlatByte(disk, p + 1) else -EIO
  }

  /** The entries at which the walk gives up. */
  predicate Refused(e: int) {
    e == 0xFF8 || e == 0xFFF || e == 0xFF7 || e == 0xFF0 || e == 0xFF6 || e == 0
  }

  /** FAT16's own meaning of an entry: not the number of a data cluster. */
  predicate NotACluster(e: int) {
    e < 2 || e >= 0xFFF0
  }

  /** The walk tells data clusters from other entries correctly exactly off these values. */
  lemma RefusedExactly(e: int)
    requires 0 <= e < 65536
    ensures (Refused(e) <==> NotACluster(e)) <==>
      e !in {1, 0xFF0, 0xFF6, 0xFF7, 0xFF8, 0xFFF} && e < 0xFFF0
  {
  }

  datatype Walked = Stopped | At(cluster: int)

  /** Where fat16_get_cluster_for_offet stands after k links. A failed lookup yields -EIO, which the
      loop takes for a cluster number and goes on from. */
  function Walk(disk: DiskImage, v: Volume, start: int, k: nat): (w: Walked)
    ensures 0 <= start < 65536 && w.At? ==> -1 <= w.cluster < 65536
  {
    if k == 0 then At(start)
    else
      var before := Walk(disk, v, start, k - 1);
      if before.Stopped? then Stopped
      else
        var e := Link(disk, v, before.cluster);
        if Refused(e) then Stopped else At(e)
  }

  lemma {:induction false} StaysStopped(disk: DiskImage, v: Volume, start: int, k: nat, n: nat)
    requires k <= n && Walk(disk, v, start, k).Stopped?
    ensures Walk(disk, v, start, n).Stopped?
    decreases n
  {
    if k < n { StaysStopped(disk, v, start, k, n - 1); }
  }

  function FlatSlice(disk: DiskImage, p: nat, n: nat): (s: seq<byte>)
    requires p + n <= DiskBytes(disk)
    ensures |s| == n
  {
    seq<byte>(n, i requires 0 <= i < n => FlatByte(disk, p + i))
  }

  datatype Bytes = Failed | Got(bytes: seq<byte>)

  /** The part of a read that comes from one visit to a cluster: up to a whole cluster's length,
      starting at the offset within the cluster. */
  function Chunk(disk: DiskImage, v: Volume, start: int, offset: nat, total: nat): (b: Bytes)
    requires Fits(v)
    ensures b.Got? ==> |b.bytes| == if total > ClusterSize(v) then ClusterSize(v) else total
  {
    var size := ClusterSize(v);
    var w := Walk(disk, v, start, ClusterIndex(v, offset));
    if w.Stopped? || w.cluster < 0 then Failed
    else
      var p := ClusterStart(v, w.cluster) + ClusterOffset(v, offset);
      var n := if total > size then size else total;
      if 0 <= p && p + n < DiskBytes(disk) then Got(FlatSlice(disk, p, n)) else Failed
  }

  /** The positions computed for the clusters the read really comes to are valid ints, and none lies
      in the last sector before 0, where C's remainder is negative. */
  predicate InRange(disk: DiskImage, v: Volume, start: int, offset: nat, total: nat)
    requires Fits(v)
    decreases total
  {
    var size := ClusterSize(v);
    var w := Walk(disk, v, start, ClusterIndex(v, offset));
    w.At? && w.cluster >= 0 ==>
      var p := ClusterStart(v, w.cluster) + ClusterOffset(v, offset);
      && (p >= 0 || p <= -SECTOR_SIZE)
      && p + (if total > size then size else total) < 0x8000_0000
      && (total > size && Chunk(disk, v, start, offset, total).Got? ==> InRange(disk, v, start, offset + size, total - size))
  }

  /** All visits of a read, one cluster length of the request at a time. */
  function FileRead(disk: DiskImage, v: Volume, start: int, offset: nat, total: nat): (b: Bytes)
    requires Fits(v)
    ensures b.Got? ==> |b.bytes| == total
    decreases total
  {
    var size := ClusterSize(v);
    var first := Chunk(disk, v, start, offset, total);
    if first.Failed? || total <= size then first
    else
      var rest := FileRead(disk, v, start, offset + size, total - size);
      if rest.Failed? then Failed else Got(first.bytes + rest.bytes)
  }

  /** fat_private: the header fields and the two streams of the reader. */
  class Reader {
    const v: Volume
    const disk: DiskImage
    const fatStream: DiskStream
    const clusterStream: DiskStream

    ghost predicate Valid()
      reads this
    {
      Fits(v) && fatStream.disk == disk && clusterStream.disk == disk && fatStream != clusterStream
    }

    constructor (v: Volume, disk: DiskImage)
      requires Fits(v)
      ensures Valid() && this.v == v && this.disk == disk && fresh(fatStream) && fresh(clusterStream)
    {
      this.v, this.disk := v, disk;
      fatStream := new DiskStream(disk);
      clusterStream := new DiskStream(disk);
    }

    method GetFatEntry(cluster: int) returns (entry: int)
      requires Valid() && -1 <= cluster < 65536
      modifies fatStream
      ensures entry == Link(disk, v, cluster)
    {
      hide FlatByte, EntryPosition, Filled, Available;
      EntryAligned(v, cluster);
      var res := fatStream.Seek(EntryPosition(v, cluster));
      if res < 0 {
        return res;
      }
      var result := new byte[2](_ => 0);
      ghost var before := result[..];
      res := fatStream.Read(result, 0, 2);
      if res < 0 {
        return res;
      }
      ghost var p := EntryPosition(v, cluster);
      AvailableAll(disk, p, 2);
      SliceOf(disk, before, result[..], 0, p, 2);
      assert result[0] == result[..][0..2][0] && result[1] == result[..][0..2][1];
      var lo: int, hi: int := result[0], result[1];
      return lo + 256 * hi;
    }

    method GetClusterForOffset(start: int, offset: nat) returns (res: int)
      requires Valid() && 0 <= start < 65536
      modifies fatStream
      ensures var w := Walk(disk, v, start, ClusterIndex(v, offset));
        res == if w.Stopped? then -EIO else w.cluster
    {
      hide Link, ClusterSize, Fits, Refused, ClusterIndex;
      var cluster := start;
      var ahead := ClusterIndex(v, offset);
      var i := 0;
      while i < ahead
        invariant 0 <= i <= ahead
        invariant Walk(disk, v, start, i) == At(cluster)
      {
        var entry := GetFatEntry(cluster);
        if Refused(entry) {
          StaysStopped(disk, v, start, i + 1, ahead);
          return -EIO;
        }
        cluster := entry;
        i := i + 1;
      }
      return cluster;
    }

    /** fat16_read_internal_from_stream */
    method ReadInternal(start: int, offset: nat, total: nat, out: array<byte>, at: nat) returns (res: int)
      requires Valid() && 0 <= start < 65536 && at + total <= out.Length && offset + total < 0x8000_0000
      requires InRange(disk, v, start, offset, total)
      modifies fatStream, clusterStream, out
      ensures res == 0 || res == -EIO
      ensures res == 0 <==> FileRead(disk, v, start, offset, total).Got?
      ensures res == 0 ==> out[at..at + total] == FileRead(disk, v, start, offset, total).bytes
      ensures forall i :: 0 <= i < out.Length && !(at <= i < at + total) ==> out[i] == old(out[i])
      decreases total
    {
      hide Walk, Fits, FlatByte, FlatSlice, Filled, Available, ClusterStart, ClusterSize, ClusterIndex, ClusterOffset, DiskBytes;
      ghost var before := out[..];
      var cluster := GetClusterForOffset(start, offset);
      if cluster < 0 {
        return cluster;
      }
      var startingPos := ClusterStart(v, cluster) + ClusterOffset(v, offset);
      var toRead := if total > ClusterSize(v) then ClusterSize(v) else total;
      res := clusterStream.Seek(startingPos);
      if res != 0 {
        return;
      }
      res := clusterStream.Read(out, at, toRead);
      if startingPos >= 0 {
        FilledFrame(disk, before, out[..], at, startingPos, Available(disk, startingPos, toRead));
      }
      if res != 0 {
        return;
      }
      AvailableAll(disk, startingPos, toRead);
      SliceOf(disk, before, out[..], at, startingPos, toRead);
      ghost var middle := out[..];
      if total - toRead > 0 {
        res := ReadInternal(start, offset + toRead, total - toRead, out, at + toRead);
        if res == 0 {
          Joined(middle, out[..], at, toRead, total);
        }
      }
    }
  }

  lemma Joined(middle: seq<byte>, out: seq<byte>, at: nat, n: nat, total: nat)
    requires n <= total && at + total <= |out| == |middle|
    requires forall i :: 0 <= i < |out| && !(at + n <= i < at + total) ==> out[i] == middle[i]
    ensures out[at..at + total] == middle[at..at + n] + out[at + n..at + total]
  {
  }

  lemma FilledFrame(disk: DiskImage, before: seq<byte>, out: seq<byte>, at: nat, pos: nat, n: nat)
    requires pos + n <= DiskBytes(disk) || n == 0
    requires Filled(disk, before, out, at, pos, n)
    ensures |out| == |before| && at + n <= |out|
    ensures forall i :: 0 <= i < |out| && !(at <= i < at + n) ==> out[i] == before[i]
  {
  }

  lemma EntryAligned(v: Volume, cluster: int)
    requires v.reserved < 65536 && -1 <= cluster < 65536
    ensures EntryPosition(v, cluster) >= 0 || EntryPosition(v, cluster) <= -SECTOR_SIZE
  {
    var x := v.reserved * cluster;
    Regroup(v.reserved, cluster);
    SignedMultiple(x);
  }

  lemma Regroup(r: int, c: int)
    ensures r * SECTOR_SIZE * (c * FAT_ENTRY_SIZE) == 1024 * (r * c)
  {
    assert r * SECTOR_SIZE * (c * FAT_ENTRY_SIZE) == r * (SECTOR_SIZE * (c * FAT_ENTRY_SIZE));
    assert SECTOR_SIZE * (c * FAT_ENTRY_SIZE) == 1024 * c;
    assert r * (1024 * c) == 1024 * (r * c);
  }

  lemma SignedMultiple(x: int)
    ensures Signed(1024 * x) >= 0 || Signed(1024 * x) <= -SECTOR_SIZE
  {
    assert 1024 * x == U32 * (x / 0x400000) + 1024 * (x % 0x400000);
    assert (1024 * x) % U32 == 1024 * (x % 0x400000);
  }

  lemma AvailableAll(disk: DiskImage, pos: nat, total: nat)
    requires pos + total < DiskBytes(disk)
    ensures Available(disk, pos, total) == total
  {
  }

  lemma SliceOf(disk: DiskImage, before: seq<byte>, out: seq<byte>, at: nat, pos: nat, n: nat)
    requires pos + n <= DiskBytes(disk) && Filled(disk, before, out, at, pos, n)
    ensures out[at..at + n] == FlatSlice(disk, pos, n)
  {
    hide FlatByte;
    forall i | 0 <= i < n ensures out[at..at + n][i] == FlatSlice(disk, pos, n)[i] {
      assert out[at + i] == FlatByte(disk, pos + (at + i - at));
    }
  }
}
