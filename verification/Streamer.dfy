/** The byte stream over disk sectors (streamer.c). */
module Streamer {
  import opened Status
  import opened Bits
  import opened Memory

  const SECTOR_SIZE := 512

  /** The disk: a sequence of 512-byte sectors; reading any other sector is an error. */
  type Sector = s: seq<byte> | |s| == 512 witness seq(512, _ => 0)
  type DiskImage = seq<Sector>

  function DiskBytes(disk: DiskImage): nat {
    |disk| * SECTOR_SIZE
  }

  /** Byte p of the disk seen as one flat sequence. */
  function FlatByte(disk: DiskImage, p: nat): byte
    requires p < DiskBytes(disk)
  {
    disk[p / SECTOR_SIZE][p % SECTOR_SIZE]
  }

  /** The sectors one after another. */
  function Flatten(sectors: seq<Sector>): (b: seq<byte>)
    ensures |b| == |sectors| * 512
  {
    if sectors == [] then [] else sectors[0] + Flatten(sectors[1..])
  }

  lemma {:induction false} FlattenAt(sectors: seq<Sector>, p: nat)
    requires p < |sectors| * 512
    ensures Flatten(sectors)[p] == sectors[p / 512][p % 512]
    decreases |sectors|
  {
    if p >= 512 {
      FlattenAt(sectors[1..], p - 512);
      assert (p - 512) / 512 == p / 512 - 1 && (p - 512) % 512 == p % 512;
    }
  }

  /** The flat bytes are the bytes of the sectors, in order. */
  lemma FlatIsConcatenation(disk: DiskImage, p: nat)
    requires p < DiskBytes(disk)
    ensures p < |Flatten(disk)| && FlatByte(disk, p) == Flatten(disk)[p]
  {
    hide Flatten;
    FlattenAt(disk, p);
  }

  /** out[at..at+n] holds the flat bytes from pos; nothing else in out differs from before. */
  ghost predicate Filled(disk: DiskImage, before: seq<byte>, out: seq<byte>, at: nat, pos: nat, n: nat)
    requires pos + n <= DiskBytes(disk) || n == 0
  {
    && |out| == |before| && at + n <= |out|
    && (forall i :: at <= i < at + n ==> out[i] == FlatByte(disk, pos + (i - at)))
    && (forall i :: 0 <= i < |out| && !(at <= i < at + n) ==> out[i] == before[i])
  }

  /** How many of `total` bytes from pos can be had before a missing sector is asked for. */
  function Available(disk: DiskImage, pos: int, total: nat): (n: nat)
    ensures n <= total
    ensures n > 0 ==> pos >= 0 && pos + n <= DiskBytes(disk)
  {
    if 0 <= pos && pos + total < DiskBytes(disk) then total
    else if 0 <= pos < DiskBytes(disk) then DiskBytes(disk) - pos
    else 0
  }

  class DiskStream {
    var pos: int
    const disk: DiskImage
    /** Number of disk_read_block calls made. */
    ghost var fetched: nat

    constructor (disk: DiskImage)
      ensures this.disk == disk && pos == 0 && fetched == 0
    {
      this.disk, pos, fetched := disk, 0, 0;
    }

    method Seek(pos: int) returns (res: int)
      modifies this`pos
      ensures res == 0 && this.pos == pos
    {
      this.pos := pos;
      return 0;
    }

    method ReadBlock(sector: int) returns (res: int, buf: seq<byte>)
      modifies this`fetched
      ensures fetched == old(fetched) + 1
      ensures if 0 <= sector < |disk| then res == 0 && buf == disk[sector] else res == -EIO
    {
      fetched := fetched + 1;
      if 0 <= sector < |disk| {
        return 0, disk[sector];
      }
      return -EIO, [];
    }

    /** The copy loop of diskstreamer_read. */
    method CopyOut(buf: Sector, offset: nat, out: array<byte>, at: nat, n: nat)
      requires pos >= 0 && pos / SECTOR_SIZE < |disk| && buf == disk[pos / SECTOR_SIZE] && offset == pos % SECTOR_SIZE
      requires offset + n <= SECTOR_SIZE && at + n <= out.Length
      modifies out
      ensures pos + n <= DiskBytes(disk) && Filled(disk, old(out[..]), out[..], at, pos, n)
    {
      ghost var before := out[..];
      var i := 0;
      while i < n
        invariant 0 <= i <= n
        invariant Filled(disk, before, out[..], at, pos, i)
      {
        out[at + i] := buf[offset + i];
        assert FlatByte(disk, pos + i) == buf[offset + i];
        i := i + 1;
      }
    }

    /** diskstreamer_read: succeeds exactly when position pos + total is still on the disk. A read that
        ends on the last byte of a sector asks for the next sector as well, so a read up to the
        very end of the disk fails after delivering every byte. */
    method Read(out: array<byte>, at: nat, total: nat) returns (res: int)
      requires at + total <= out.Length && (pos >= 0 || pos <= -SECTOR_SIZE)
      modifies this`pos, this`fetched, out
      ensures res == 0 || res == -EIO
      ensures res == 0 <==> old(pos) >= 0 && old(pos) + total < DiskBytes(disk)
      ensures pos == old(pos) + Available(disk, old(pos), total)
      ensures old(pos) >= 0 ==> Filled(disk, old(out[..]), out[..], at, old(pos), Available(disk, old(pos), total))
      ensures old(pos) < 0 ==> out[..] == old(out[..])
      ensures res == 0 ==> fetched == old(fetched) + (old(pos) % SECTOR_SIZE + total) / SECTOR_SIZE + 1
      decreases total
    {
      hide Filled, FlatByte;
      FilledNothing(disk, out[..], at, pos);
      var sector := TruncDiv(pos, SECTOR_SIZE);
      var offset := TruncMod(pos, SECTOR_SIZE);
      var totalToRead := total;
      var overflow := offset + totalToRead >= SECTOR_SIZE;
      if overflow {
        totalToRead := totalToRead - (offset + totalToRead - SECTOR_SIZE);
      }
      var buf;
      res, buf := ReadBlock(sector);
      if res < 0 {
        return;
      }
      assert pos >= 0 && sector == pos / SECTOR_SIZE && offset == pos % SECTOR_SIZE;
      ghost var before := out[..];
      CopyOut(buf, offset, out, at, totalToRead);
      pos := pos + totalToRead;
      if overflow {
        ghost var middle := out[..];
        AvailableSplits(disk, pos, total, totalToRead);
        ghost var rest := Available(disk, pos, total - totalToRead);
        res := Read(out, at + totalToRead, total - totalToRead);
        FilledTwice(disk, before, middle, out[..], at, old(pos), totalToRead, rest);
      }
    }
  }

  /** Example: on every disk, a request for the last byte alone delivers it and reports failure. */
  method LastByteExample(stream: DiskStream, out: array<byte>) returns (res: int)
    requires |stream.disk| > 0 && stream.pos == DiskBytes(stream.disk) - 1 && out.Length == 1
    modifies stream, out
    ensures res == -1 && out[0] == FlatByte(stream.disk, DiskBytes(stream.disk) - 1)
  {
    hide FlatByte;
    res := stream.Read(out, 0, 1);
  }

  /** pos has just reached the start of a sector with `done` of the total bytes copied. */
  lemma AvailableSplits(disk: DiskImage, pos: nat, total: nat, done: nat)
    requires done <= total && done <= pos && pos % SECTOR_SIZE == 0 && 0 < done <= SECTOR_SIZE
    requires pos <= DiskBytes(disk)
    ensures Available(disk, pos - done, total) == done + Available(disk, pos, total - done)
  {
  }

  lemma FilledNothing(disk: DiskImage, out: seq<byte>, at: nat, pos: int)
    requires at <= |out|
    ensures pos >= 0 ==> Filled(disk, out, out, at, pos, 0)
  {
  }

  lemma FilledTwice(disk: DiskImage, a: seq<byte>, b: seq<byte>, c: seq<byte>, at: nat, pos: nat, n: nat, m: nat)
    requires pos + n <= DiskBytes(disk) && (pos + n + m <= DiskBytes(disk) || m == 0)
    requires Filled(disk, a, b, at, pos, n) && Filled(disk, b, c, at + n, pos + n, m)
    ensures Filled(disk, a, c, at, pos, n + m)
  {
    forall i | at <= i < at + n + m ensures c[i] == FlatByte(disk, pos + (i - at)) {
      if i < at + n { assert c[i] == b[i]; }
    }
  }
}
