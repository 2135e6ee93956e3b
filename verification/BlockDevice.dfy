/**
 Byte-granular access to a block device.  The driver moves whole blocks only; the two
 methods below it give callers arbitrary byte ranges.
 */
module BlockDevice {
  import opened Common

  /** data stored over the bytes of disk from start on. */
  function Overwrite(disk: seq<Byte>, start: nat, data: seq<Byte>): seq<Byte>
    requires start + |data| <= |disk|
  {
    disk[..start] + data + disk[start + |data|..]
  }

  /** Two adjacent stores are one. */
  lemma OverwriteAppend(s: seq<Byte>, start: nat, a: seq<Byte>, b: seq<Byte>)
    requires start + |a| + |b| <= |s|
    ensures Overwrite(Overwrite(s, start, a), start + |a|, b) == Overwrite(s, start, a + b)
  {
  }

  lemma NothingRead(s: seq<Byte>, start: nat, from: seq<Byte>, base: nat)
    requires start <= |s| && base <= |from|
    ensures Overwrite(s, start, from[base..base]) == s
  {
  }

  lemma AppendSlice(s: seq<Byte>, start: nat, from: seq<Byte>, base: nat, done: nat, more: nat)
    requires base + done + more <= |from| && start + done + more <= |s|
    ensures Overwrite(Overwrite(s, start, from[base..base + done]), start + done, from[base + done..base + done + more])
              == Overwrite(s, start, from[base..base + done + more])
  {
  }

  /** Read a block, change part of it, write it back: only that part of the disk changes. */
  lemma ReadModifyWrite(disk: seq<Byte>, base: nat, size: nat, start: nat, data: seq<Byte>)
    requires base <= start && start + |data| <= base + size <= |disk|
    ensures Overwrite(disk, base, Overwrite(disk[base..base + size], start - base, data)) == Overwrite(disk, start, data)
  {
  }

  lemma SliceOfSlice(s: seq<Byte>, a: nat, b: nat, c: nat, d: nat)
    requires a <= b <= |s| && c <= d <= b - a
    ensures s[a..b][c..d] == s[a + c..a + d]
  {
    assert |s[a..b][c..d]| == d - c == |s[a + c..a + d]|;
    assert forall k: nat | k < d - c :: s[a..b][c..d][k] == s[a + c..a + d][k];
  }

  lemma ReadsBack(s: seq<Byte>, start: nat, data: seq<Byte>)
    requires start + |data| <= |s|
    ensures Overwrite(s, start, data)[start..start + |data|] == data
  {
  }

  lemma ReadsElsewhere(s: seq<Byte>, start: nat, data: seq<Byte>, a: nat, b: nat)
    requires start + |data| <= |s| && a <= b <= |s| && (b <= start || start + |data| <= a)
    ensures Overwrite(s, start, data)[a..b] == s[a..b]
  {
    assert forall k: nat | k < b - a :: Overwrite(s, start, data)[a..b][k] == s[a..b][k];
  }

  predicate OnBoundary(at: nat, size: nat) { size > 0 && at % size == 0 }

  /** len bytes from `at` on lie in one block, `into` bytes from its start. */
  ghost predicate InBlock(at: nat, into: nat, len: nat, size: nat) { size > 0 && into == at % size && into + len <= size }

  ghost predicate IsBlocks(bytes: nat, blocks: nat, size: nat) { bytes == blocks * size }

  function Min(x: nat, y: nat): nat { if x < y then x else y }

  // ------------------------------------------------------------- block arithmetic

  lemma DivMod(a: nat, b: nat)
    requires b > 0
    ensures a == a / b * b + a % b && 0 <= a % b < b
  {
  }

  lemma MulBound(d: int, b: int)
    requires b > 0
    ensures d >= 1 ==> d * b >= b
    ensures d <= -1 ==> d * b <= -b
  {
  }

  lemma DivUnique(a: nat, b: nat, q: nat, r: nat)
    requires 0 < b && a == q * b + r && r < b
    ensures a / b == q && a % b == r
  {
    DivMod(a, b);
    var d := a / b - q;
    assert d * b == r - a % b;
    MulBound(d, b);
  }

  /** The block that holds a byte of the disk lies on the disk. */
  lemma BlockInside(at: nat, size: nat, total: nat)
    requires size > 0 && at < total && total % size == 0
    ensures at / size * size <= at < at / size * size + size <= total
  {
    DivMod(at, size);
    DivMod(total, size);
    var d := total / size - at / size;
    assert d * size == total - at / size * size;
    MulBound(d, size);
    MulBound(d - 1, size);
  }

  lemma MiddleFits(count: nat, size: nat)
    requires size > 0
    ensures 0 <= count / size * size <= count && count - count / size * size == count % size
  {
    DivMod(count, size);
  }

  /** The middle of a range that starts on a boundary: whole blocks, and less than a block after them. */
  lemma Cut(start: nat, count: nat, size: nat, total: nat)
    requires OnBoundary(start, size) && start + count <= total
    ensures var middle := count / size * size;
            && 0 <= middle <= count && OnBoundary(start + middle, size) && (count / size == 0 ==> middle == 0)
            && (count - middle) % size == count - middle && (start + middle) % size + (count - middle) <= size
            && (start + middle) % size == 0
  {
    MiddleFits(count, size);
    MiddleKeepsAligned(start, size, count / size);
    DivMod(count, size);
    SmallMod(count - count / size * size, size);
  }

  lemma SmallMod(x: nat, b: nat)
    requires x < b
    ensures x % b == x
  {
  }

  lemma AlignedBlock(at: nat, size: nat)
    requires size > 0 && OnBoundary(at, size)
    ensures at / size * size == at
  {
    DivMod(at, size);
  }

  /** After the head, the position is on a block boundary. */
  lemma HeadEndsAligned(start: nat, size: nat)
    requires size > 0 && !OnBoundary(start, size)
    ensures OnBoundary(start + (size - start % size), size)
  {
    DivMod(start, size);
    DivUnique(start + (size - start % size), size, start / size + 1, 0);
  }

  lemma MiddleKeepsAligned(start: nat, size: nat, blocks: nat)
    requires size > 0 && OnBoundary(start, size)
    ensures OnBoundary(start + blocks * size, size)
  {
    DivMod(start, size);
    DivUnique(start + blocks * size, size, start / size + blocks, 0);
  }

  /** memcpy between buffers */
  method CopyBytes(src: array<Byte>, from: nat, dst: array<Byte>, to: nat, count: nat)
    requires src != dst && from + count <= src.Length && to + count <= dst.Length
    modifies dst
    ensures dst[..] == Overwrite(old(dst[..]), to, src[..][from..from + count])
  {
    var i := 0;
    while i < count
      invariant i <= count
      invariant forall k | 0 <= k < dst.Length :: dst[k] == if to <= k < to + i then src[from + (k - to)] else old(dst[k])
    {
      dst[to + i] := src[from + i];
      i := i + 1;
    }
  }

  class BlockDevice {
    const blockSize: nat
    const disk: array<Byte>

    ghost predicate Valid() {
      blockSize > 0 && disk.Length % blockSize == 0
    }

    constructor (blockSize: nat, disk: array<Byte>)
      requires blockSize > 0 && disk.Length % blockSize == 0
      ensures Valid() && this.blockSize == blockSize && this.disk == disk
    {
      this.blockSize := blockSize;
      this.disk := disk;
    }

    /** dev->read: whole blocks */
    method ReadBlocks(block: nat, count: nat, buf: array<Byte>, at: nat)
      requires buf != disk && block * blockSize + count * blockSize <= disk.Length && at + count * blockSize <= buf.Length
      modifies buf
      ensures buf[..] == Overwrite(old(buf[..]), at, disk[..][block * blockSize..block * blockSize + count * blockSize])
    {
      CopyBytes(disk, block * blockSize, buf, at, count * blockSize);
    }

    /** dev->write: whole blocks */
    method WriteBlocks(block: nat, count: nat, buf: array<Byte>, at: nat)
      requires buf != disk && block * blockSize + count * blockSize <= disk.Length && at + count * blockSize <= buf.Length
      modifies disk
      ensures disk[..] == Overwrite(old(disk[..]), block * blockSize, buf[..][at..at + count * blockSize])
    {
      CopyBytes(buf, at, disk, block * blockSize, count * blockSize);
    }

    /** Read the block a byte lies in. */
    method BlockOf(start: nat) returns (nbuf: array<Byte>, block: nat, ghost base: nat)
      requires Valid() && start < disk.Length
      ensures fresh(nbuf) && base == block * blockSize && base + blockSize <= disk.Length && base + start % blockSize == start
      ensures nbuf[..] == disk[..][base..base + blockSize]
    {
      BlockInside(start, blockSize, disk.Length);
      DivMod(start, blockSize);
      nbuf := new Byte[blockSize](_ => 0);
      block := start / blockSize;
      base := block * blockSize;
      ReadBlocks(block, 1, nbuf, 0);
    }

    /** Part of one block into a buffer: read the block aside, copy the bytes wanted. */
    method ReadPart(start: nat, into: nat, len: nat, buf: array<Byte>, at: nat)
      requires Valid() && buf != disk && start < disk.Length && InBlock(start, into, len, blockSize)
      requires at + len <= buf.Length && start + len <= disk.Length
      modifies buf
      ensures buf[..] == Overwrite(old(buf[..]), at, disk[..][start..start + len])
    {
      hide Overwrite;
      var nbuf, _, base := BlockOf(start);
      CopyBytes(nbuf, into, buf, at, len);
      SliceOfSlice(disk[..], base, base + blockSize, into, into + len);
    }

    /** Part of one block from a buffer: read, modify, write. */
    method WritePart(start: nat, into: nat, len: nat, buf: array<Byte>, at: nat)
      requires Valid() && buf != disk && start < disk.Length && InBlock(start, into, len, blockSize)
      requires at + len <= buf.Length && start + len <= disk.Length
      modifies disk
      ensures disk[..] == Overwrite(old(disk[..]), start, buf[..][at..at + len])
    {
      hide Overwrite;
      var nbuf, block, base := BlockOf(start);
      CopyBytes(buf, at, nbuf, into, len);
      ReadModifyWrite(disk[..], base, blockSize, start, buf[..][at..at + len]);
      WriteBlocks(block, 1, nbuf, 0);
      assert nbuf[..][0..blockSize] == nbuf[..];
    }

    /** Whole blocks from a byte position on a block boundary. */
    /** The middle of a request, in whole blocks, and what is left of it. */
    method Split(start: nat, count: nat) returns (blocks: nat, middle: nat, end: nat)
      requires Valid() && OnBoundary(start, blockSize)
      ensures IsBlocks(middle, blocks, blockSize) && middle + end == count && (blocks == 0 ==> middle == 0)
      ensures InBlock(start + middle, 0, end, blockSize)
    {
      Cut(start, count, blockSize, start + count);
      blocks := count / blockSize;
      middle := blocks * blockSize;
      end := (count - middle) % blockSize;
    }

    method ReadWhole(start: nat, blocks: nat, buf: array<Byte>, at: nat, ghost middle: nat)
      requires Valid() && buf != disk && OnBoundary(start, blockSize) && IsBlocks(middle, blocks, blockSize)
      requires start + middle <= disk.Length && at + middle <= buf.Length
      modifies buf
      ensures buf[..] == Overwrite(old(buf[..]), at, disk[..][start..start + middle])
    {
      AlignedBlock(start, blockSize);
      ReadBlocks(start / blockSize, blocks, buf, at);
    }

    method WriteWhole(start: nat, blocks: nat, buf: array<Byte>, at: nat, ghost middle: nat)
      requires Valid() && buf != disk && OnBoundary(start, blockSize) && IsBlocks(middle, blocks, blockSize)
      requires start + middle <= disk.Length && at + middle <= buf.Length
      modifies disk
      ensures disk[..] == Overwrite(old(disk[..]), start, buf[..][at..at + middle])
    {
      AlignedBlock(start, blockSize);
      WriteBlocks(start / blockSize, blocks, buf, at);
    }

    /** The head of device_read: bytes up to the next block boundary. */
    method ReadHead(start: nat, count: nat, buf: array<Byte>) returns (len: nat)
      requires Valid() && buf != disk && start + count <= disk.Length && count <= buf.Length && !OnBoundary(start, blockSize)
      modifies buf
      ensures len <= count && buf[..] == Overwrite(old(buf[..]), 0, disk[..][start..start + len])
      ensures len < count ==> OnBoundary(start + len, blockSize)
    {
      HeadEndsAligned(start, blockSize);
      len := Min(blockSize - start % blockSize, count);
      ReadPart(start, start % blockSize, len, buf, 0);
    }

    /** device_read on a block device: buf receives exactly the bytes in range. */
    method DeviceRead(start0: nat, count0: nat, buf: array<Byte>)
      requires Valid() && buf != disk && start0 + count0 <= disk.Length && count0 <= buf.Length
      modifies buf
      ensures buf[..] == Overwrite(old(buf[..]), 0, disk[..][start0..start0 + count0])
    {
      hide Overwrite, OnBoundary, Valid;
      if OnBoundary(start0, blockSize) {
        ReadRest(start0, count0, buf, 0);
        return;
      }
      var len := ReadHead(start0, count0, buf);
      if len == count0 {
        return;
      }
      ReadRest(start0 + len, count0 - len, buf, len);
      AppendSlice(old(buf[..]), 0, disk[..], start0, len, count0 - len);
    }

    /** The middle and tail of device_read, from a block boundary on. */
    method ReadRest(start0: nat, count0: nat, buf: array<Byte>, at0: nat)
      requires Valid() && buf != disk && OnBoundary(start0, blockSize)
      requires start0 + count0 <= disk.Length && at0 + count0 <= buf.Length
      modifies buf
      ensures buf[..] == Overwrite(old(buf[..]), at0, disk[..][start0..start0 + count0])
    {
      hide Overwrite, Valid, OnBoundary, InBlock, IsBlocks;
      ghost var was, from := buf[..], disk[..];
      var blocks, middle, end := Split(start0, count0);
      if blocks != 0 {
        ReadWhole(start0, blocks, buf, at0, middle);
        assert disk[..] == from;
        if count0 == middle {
          return;
        }
      } else {
        NothingRead(was, at0, from, start0);
      }
      assert buf[..] == Overwrite(was, at0, from[start0..start0 + middle]);
      if end != 0 {
        ReadPart(start0 + middle, 0, end, buf, at0 + middle);
        assert disk[..] == from;
        AppendSlice(was, at0, from, start0, middle, end);
      }
    }

    /** device_write on a block device: exactly the bytes in range change, to the bytes of buf. */
    method DeviceWrite(start0: nat, count0: nat, buf: array<Byte>)
      requires Valid() && buf != disk && start0 + count0 <= disk.Length && count0 <= buf.Length
      modifies disk
      ensures disk[..] == Overwrite(old(disk[..]), start0, buf[..][0..count0])
    {
      hide Overwrite, OnBoundary, Valid;
      if OnBoundary(start0, blockSize) {
        WriteRest(start0, count0, buf, 0);
        return;
      }
      var len := WriteHead(start0, count0, buf);
      if len == count0 {
        return;
      }
      WriteRest(start0 + len, count0 - len, buf, len);
      AppendSlice(old(disk[..]), start0, buf[..], 0, len, count0 - len);
    }

    /** The head of device_write: bytes up to the next block boundary. */
    method WriteHead(start: nat, count: nat, buf: array<Byte>) returns (len: nat)
      requires Valid() && buf != disk && start + count <= disk.Length && count <= buf.Length && !OnBoundary(start, blockSize)
      modifies disk
      ensures len <= count && disk[..] == Overwrite(old(disk[..]), start, buf[..][0..len])
      ensures len < count ==> OnBoundary(start + len, blockSize)
    {
      HeadEndsAligned(start, blockSize);
      len := Min(blockSize - start % blockSize, count);
      WritePart(start, start % blockSize, len, buf, 0);
    }

    /** The middle and tail of device_write, from a block boundary on. */
    method WriteRest(start0: nat, count0: nat, buf: array<Byte>, at0: nat)
      requires Valid() && buf != disk && OnBoundary(start0, blockSize)
      requires start0 + count0 <= disk.Length && at0 + count0 <= buf.Length
      modifies disk
      ensures disk[..] == Overwrite(old(disk[..]), start0, buf[..][at0..at0 + count0])
    {
      hide Overwrite, Valid, OnBoundary, InBlock, IsBlocks;
      ghost var was, from := disk[..], buf[..];
      var blocks, middle, end := Split(start0, count0);
      if blocks != 0 {
        WriteWhole(start0, blocks, buf, at0, middle);
        assert buf[..] == from;
        if count0 == middle {
          return;
        }
      } else {
        NothingRead(was, start0, from, at0);
      }
      assert disk[..] == Overwrite(was, start0, from[at0..at0 + middle]);
      if end != 0 {
        WritePart(start0 + middle, 0, end, buf, at0 + middle);
        assert buf[..] == from;
        AppendSlice(was, start0, from, at0, middle, end);
      }
    }

    method FetchRange(start: nat, count: nat) returns (data: seq<Byte>)
      requires Valid() && start + count <= disk.Length
      ensures data == disk[..][start..start + count]
    {
      var buf := new Byte[count](_ => 0);
      DeviceRead(start, count, buf);
      data := buf[..];
    }

    method StoreRange(start: nat, data: seq<Byte>)
      requires Valid() && start + |data| <= disk.Length
      modifies disk
      ensures disk[..] == Overwrite(old(disk[..]), start, data)
    {
      var buf := new Byte[|data|](i requires 0 <= i < |data| => data[i]);
      assert buf[..][0..|data|] == data;
      DeviceWrite(start, |data|, buf);
    }

    /** Any sequence of reads and writes behaves like slices of one flat byte array. */
    method RunIo(calls: seq<Io>) returns (out: seq<seq<Byte>>)
      requires Valid() && forall n | 0 <= n < |calls| :: InRange(calls[n], disk.Length)
      modifies disk
      ensures disk[..] == FlatDisk(old(disk[..]), calls) && out == FlatOut(old(disk[..]), calls)
    {
      hide Overwrite;
      out := [];
      var n := 0;
      ghost var was := disk[..];
      assert calls[..0] == [];
      while n < |calls|
        invariant n <= |calls| && disk[..] == FlatDisk(was, calls[..n]) && out == FlatOut(was, calls[..n])
      {
        assert calls[..n + 1][..n] == calls[..n];
        assert InRange(calls[n], disk.Length);
        match calls[n] {
          case ReadAt(start, count) =>
            var data := FetchRange(start, count);
            out := out + [data];
          case WriteAt(start, data) =>
            StoreRange(start, data);
        }
        n := n + 1;
      }
      assert calls[..|calls|] == calls;
    }
  }

  // ------------------------------------------------------------------- whole runs

  datatype Io = ReadAt(start: nat, count: nat) | WriteAt(start: nat, data: seq<Byte>)

  predicate InRange(io: Io, total: nat) {
    match io
    case ReadAt(start, count) => start + count <= total
    case WriteAt(start, data) => start + |data| <= total
  }

  function FlatDisk(disk: seq<Byte>, calls: seq<Io>): (r: seq<Byte>)
    ensures |r| == |disk|
  {
    if calls == [] then disk
    else
      var before := FlatDisk(disk, calls[..|calls| - 1]);
      match calls[|calls| - 1]
      case ReadAt(_, _) => before
      case WriteAt(start, data) => if start + |data| <= |before| then Overwrite(before, start, data) else before
  }

  function FlatOut(disk: seq<Byte>, calls: seq<Io>): seq<seq<Byte>> {
    if calls == [] then []
    else
      var front := calls[..|calls| - 1];
      match calls[|calls| - 1]
      case ReadAt(start, count) =>
        if start + count <= |disk| then FlatOut(disk, front) + [FlatDisk(disk, front)[start..start + count]] else FlatOut(disk, front)
      case WriteAt(_, _) => FlatOut(disk, front)
  }
}
