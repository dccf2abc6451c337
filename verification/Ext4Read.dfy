/** Reading a file through its extents (kernel/src/fs/ext4.rs, `read_from_extents`). */
module Ext4Read {
  import opened Arithmetic
  import opened Common
  import opened LittleEndian

  /** `len` logical blocks from `block` on, stored from physical block `phys` on. */
  datatype Extent = Extent(block: nat, len: nat, phys: nat)

  /** The blocks that can be read; reading any other fails. */
  type Disk = map<nat, seq<byte>>

  ghost predicate BlockSized(disk: Disk, bs: nat) {
    forall b {:trigger disk[b]} :: b in disk ==> |disk[b]| == bs
  }

  ghost predicate Sorted(extents: seq<Extent>) {
    forall i, j :: 0 <= i < j < |extents| ==> extents[i].block + extents[i].len <= extents[j].block
  }

  // The file as a function of the byte offset.

  predicate Covers(e: Extent, lb: nat) {
    e.block <= lb < e.block + e.len
  }

  ghost predicate Mapped(extents: seq<Extent>, lb: nat) {
    exists i :: 0 <= i < |extents| && Covers(extents[i], lb)
  }

  /** The physical block of a mapped logical block. */
  ghost function Physical(extents: seq<Extent>, lb: nat): nat
    requires Mapped(extents, lb)
  {
    var i :| 0 <= i < |extents| && Covers(extents[i], lb);
    extents[i].phys + (lb - extents[i].block)
  }

  lemma PhysicalIn(extents: seq<Extent>, i: nat, lb: nat)
    requires Sorted(extents) && i < |extents| && Covers(extents[i], lb)
    ensures Mapped(extents, lb) && Physical(extents, lb) == extents[i].phys + (lb - extents[i].block)
  {
  }

  /** The logical block of byte `o`, and the byte's place in it. */
  ghost function BlockOf(o: nat, bs: nat): nat
    requires bs > 0
    decreases o
  {
    if o < bs then 0 else BlockOf(o - bs, bs) + 1
  }

  ghost function OffsetIn(o: nat, bs: nat): (r: nat)
    requires bs > 0
    ensures r < bs
    decreases o
  {
    if o < bs then o else OffsetIn(o - bs, bs)
  }

  /** Byte `o` of the file can be read. */
  ghost predicate Readable(extents: seq<Extent>, disk: Disk, bs: nat, o: nat)
    requires bs > 0
  {
    Mapped(extents, BlockOf(o, bs)) && Physical(extents, BlockOf(o, bs)) in disk
  }

  ghost function FileByte(extents: seq<Extent>, disk: Disk, bs: nat, o: nat): byte
    requires bs > 0 && BlockSized(disk, bs) && Readable(extents, disk, bs, o)
  {
    disk[Physical(extents, BlockOf(o, bs))][OffsetIn(o, bs)]
  }

  // Offsets and blocks.

  lemma {:induction false} BlockSplit(o: nat, bs: nat)
    requires bs > 0
    ensures o == BlockOf(o, bs) * bs + OffsetIn(o, bs)
    decreases o
  {
    if o >= bs {
      BlockSplit(o - bs, bs);
      MulNext(BlockOf(o - bs, bs), bs);
    }
  }

  lemma BlockUnique(o: nat, bs: nat, q: nat, r: nat)
    requires bs > 0 && o == q * bs + r && r < bs
    ensures BlockOf(o, bs) == q && OffsetIn(o, bs) == r
  {
    BlockSplit(o, bs);
    SplitUnique(BlockOf(o, bs), OffsetIn(o, bs), q, r, bs);
  }

  lemma WithinBlock(x: nat, y: nat, bs: nat)
    requires bs > 0 && OffsetIn(x, bs) + y < bs
    ensures BlockOf(x + y, bs) == BlockOf(x, bs) && OffsetIn(x + y, bs) == OffsetIn(x, bs) + y
  {
    BlockSplit(x, bs);
    BlockUnique(x + y, bs, BlockOf(x, bs), OffsetIn(x, bs) + y);
  }

  lemma NextBlock(x: nat, bs: nat)
    requires bs > 0
    ensures BlockOf(x + (bs - OffsetIn(x, bs)), bs) == BlockOf(x, bs) + 1
    ensures OffsetIn(x + (bs - OffsetIn(x, bs)), bs) == 0
  {
    BlockSplit(x, bs);
    MulNext(BlockOf(x, bs), bs);
    BlockUnique(x + (bs - OffsetIn(x, bs)), bs, BlockOf(x, bs) + 1, 0);
  }

  lemma BlockOrder(o: nat, b: nat, bs: nat)
    requires bs > 0
    ensures o < b * bs <==> BlockOf(o, bs) < b
  {
    var d := BlockOf(o, bs);
    BlockSplit(o, bs);
    if d < b {
      MulMonotone(d + 1, b, bs);
      MulNext(d, bs);
    } else {
      MulMonotone(b, d, bs);
    }
  }

  /** The code's comparisons and divisions in terms of blocks. */
  lemma InExtent(o: nat, e: Extent, bs: nat)
    requires bs > 0
    ensures o < e.block * bs <==> BlockOf(o, bs) < e.block
    ensures o >= e.block * bs + e.len * bs <==> BlockOf(o, bs) >= e.block + e.len
    ensures o >= e.block * bs ==>
              (o - e.block * bs) / bs == BlockOf(o, bs) - e.block && (o - e.block * bs) % bs == OffsetIn(o, bs)
  {
    BlockOrder(o, e.block, bs);
    BlockOrder(o, e.block + e.len, bs);
    MulSplit(e.block, e.len, bs);
    if o >= e.block * bs {
      var d := BlockOf(o, bs);
      BlockSplit(o, bs);
      MulSplit(e.block, d - e.block, bs);
      DivUnique(o - e.block * bs, bs, d - e.block, OffsetIn(o, bs));
    }
  }

  // The loops.

  /** Place `i` of `buf` holds the file's byte at `offset + i`. */
  ghost predicate HoldsAt(buf: seq<byte>, i: nat, extents: seq<Extent>, disk: Disk, bs: nat, offset: nat)
    requires bs > 0 && BlockSized(disk, bs) && i < |buf|
  {
    Readable(extents, disk, bs, offset + i) && buf[i] == FileByte(extents, disk, bs, offset + i)
  }

  /** `buf` holds the file's bytes from `offset` on in its first `n` places, and `before` after them. */
  ghost predicate Holds(buf: seq<byte>, before: seq<byte>, n: nat, extents: seq<Extent>, disk: Disk, bs: nat,
                        offset: nat)
    requires bs > 0 && BlockSized(disk, bs)
  {
    && n <= |buf| == |before|
    && (forall i: nat {:trigger HoldsAt(buf, i, extents, disk, bs, offset)} :: i < n ==>
         HoldsAt(buf, i, extents, disk, bs, offset))
    && (forall i: nat {:trigger buf[i]} :: n <= i < |buf| ==> buf[i] == before[i])
  }

  /** Copies part of one block. */
  method CopyBlock(buf: array<byte>, at: nat, block: seq<byte>, from: nat, chunk: nat)
    requires at + chunk <= buf.Length && from + chunk <= |block|
    modifies buf
    ensures forall i {:trigger buf[i]} :: 0 <= i < buf.Length ==>
              buf[i] == if at <= i < at + chunk then block[from + i - at] else old(buf[i])
  {
    forall i | 0 <= i < chunk {
      buf[at + i] := block[from + i];
    }
  }

  lemma ChunkHolds(buf: seq<byte>, buf': seq<byte>, before: seq<byte>, n: nat, chunk: nat, extents: seq<Extent>,
                   disk: Disk, bs: nat, offset: nat)
    requires bs > 0 && BlockSized(disk, bs) && n + chunk <= |buf| == |buf'| && OffsetIn(offset + n, bs) + chunk <= bs
    requires Holds(buf, before, n, extents, disk, bs, offset)
    requires Mapped(extents, BlockOf(offset + n, bs)) && Physical(extents, BlockOf(offset + n, bs)) in disk
    requires var block, from := disk[Physical(extents, BlockOf(offset + n, bs))], OffsetIn(offset + n, bs);
             forall i: nat {:trigger buf'[i]} :: i < |buf| ==>
               buf'[i] == if n <= i < n + chunk then block[from + i - n] else buf[i]
    ensures Holds(buf', before, n + chunk, extents, disk, bs, offset)
  {
    forall i: nat | i < n + chunk ensures HoldsAt(buf', i, extents, disk, bs, offset) {
      if i < n {
        assert HoldsAt(buf, i, extents, disk, bs, offset);
      } else {
        WithinBlock(offset + n, i - n, bs);
      }
    }
  }

  /** Appends `chunk` bytes of the block with the next byte, which is byte `o` of the file. */
  method AppendChunk(buf: array<byte>, ghost before: seq<byte>, n: nat, block: seq<byte>, from: nat, chunk: nat,
                     ghost extents: seq<Extent>, ghost disk: Disk, ghost bs: nat, ghost offset: nat, ghost o: nat,
                     ghost next: nat)
    requires bs > 0 && BlockSized(disk, bs) && o == offset + n && next == n + chunk <= buf.Length
    requires from == OffsetIn(o, bs) && from + chunk <= bs
    requires Mapped(extents, BlockOf(o, bs)) && Physical(extents, BlockOf(o, bs)) in disk
    requires block == disk[Physical(extents, BlockOf(o, bs))]
    requires Holds(buf[..], before, n, extents, disk, bs, offset)
    modifies buf
    ensures Holds(buf[..], before, next, extents, disk, bs, offset)
  {
    ghost var was := buf[..];
    CopyBlock(buf, n, block, from, chunk);
    ChunkHolds(was, buf[..], before, n, chunk, extents, disk, bs, offset);
  }

  /** The block loop for one extent: `toRead` more bytes at `total`, or the first byte whose block is missing. */
  method ReadRun(extents: seq<Extent>, disk: Disk, bs: nat, ghost offset: nat, ghost k: nat, e: Extent,
                 fileOffset: nat, total: nat, toRead: nat,
                 startBlock: nat, startOffset: nat, buf: array<byte>, ghost before: seq<byte>)
    returns (ok: bool, ghost end: nat)
    requires bs > 0 && BlockSized(disk, bs) && Sorted(extents) && k < |extents| && e == extents[k]
    requires fileOffset == offset + total && total + toRead <= buf.Length
    requires InRun(e, bs, fileOffset, fileOffset + toRead) && At(startBlock, startOffset, e, bs, fileOffset)
    requires Holds(buf[..], before, total, extents, disk, bs, offset)
    modifies buf
    ensures total <= end <= total + toRead && (ok <==> end == total + toRead)
    ensures Holds(buf[..], before, end, extents, disk, bs, offset)
    ensures !ok ==> Mapped(extents, BlockOf(offset + end, bs)) && Physical(extents, BlockOf(offset + end, bs)) !in disk
  {
    var at: nat, left: nat := total, toRead;
    ghost var o := fileOffset;
    var curBlock, curOffset := startBlock, startOffset;
    while left > 0
      invariant at + left == total + toRead && o == offset + at && total <= at
      invariant Holds(buf[..], before, at, extents, disk, bs, offset)
      invariant left > 0 ==> At(curBlock, curOffset, e, bs, o)
    {
      PhysicalIn(extents, k, BlockOf(o, bs));
      if curBlock !in disk {
        return false, at;
      }
      var chunk := Min(bs - curOffset, left);
      var next := at + chunk;
      AppendChunk(buf, before, at, disk[curBlock], curOffset, chunk, extents, disk, bs, offset, o, next);
      NextAt(curBlock, curOffset, e, bs, o, o + chunk);
      at, left, o := next, left - chunk, o + chunk;
      curBlock, curOffset := curBlock + 1, 0;
    }
    return true, at;
  }

  /** `block` and `from` locate file offset `o` in extent `e`. */
  ghost predicate At(block: nat, from: nat, e: Extent, bs: nat, o: nat)
    requires bs > 0
  {
    BlockOf(o, bs) >= e.block && block == e.phys + (BlockOf(o, bs) - e.block) && from == OffsetIn(o, bs)
  }

  lemma NextAt(block: nat, from: nat, e: Extent, bs: nat, o: nat, o': nat)
    requires bs > 0 && At(block, from, e, bs, o)
    ensures o' == o + (bs - from) ==> At(block + 1, 0, e, bs, o')
  {
    NextBlock(o, bs);
  }

  /** All bytes between two offsets lie in one extent. */
  ghost predicate InRun(e: Extent, bs: nat, from: nat, to: nat)
    requires bs > 0
  {
    forall o: nat {:trigger BlockOf(o, bs)} :: from <= o < to ==> Covers(e, BlockOf(o, bs))
  }

  lemma ExtentRun(e: Extent, bs: nat, from: nat, to: nat)
    requires bs > 0 && e.block * bs <= from && to <= e.block * bs + e.len * bs
    ensures InRun(e, bs, from, to)
  {
    forall o: nat | from <= o < to ensures Covers(e, BlockOf(o, bs)) {
      InExtent(o, e, bs);
    }
  }

  /** No extent from `k` on holds byte `o`, because it lies before them or they are used up. */
  lemma NotAhead(extents: seq<Extent>, k: nat, lb: nat)
    requires Sorted(extents) && k < |extents| && lb < extents[k].block
    requires forall i :: 0 <= i < k ==> extents[i].block + extents[i].len <= lb
    ensures !Mapped(extents, lb)
  {
  }

  /**
   * Reads from `offset` on: the count is the buffer's length or the end of the run of mapped bytes, whichever
   * comes first, and it fails exactly when a block of that run cannot be read.
   */
  method ReadFromExtents(extents: seq<Extent>, disk: Disk, bs: nat, offset: nat,
                         buf: array<byte>) returns (r: Result<nat, ()>, ghost end: nat)
    requires bs > 0 && BlockSized(disk, bs) && Sorted(extents)
    modifies buf
    ensures end <= buf.Length && Holds(buf[..], old(buf[..]), end, extents, disk, bs, offset)
    ensures r.Ok? ==> r.value == end && (end == buf.Length || !Mapped(extents, BlockOf(offset + end, bs)))
    ensures r.Err? ==>
              && end < buf.Length
              && Mapped(extents, BlockOf(offset + end, bs))
              && Physical(extents, BlockOf(offset + end, bs)) !in disk
  {
    ghost var before := buf[..];
    var totalRead: nat, remaining, fileOffset := 0, buf.Length, offset;
    for k := 0 to |extents|
      invariant totalRead + remaining == buf.Length && fileOffset == offset + totalRead
      invariant Holds(buf[..], before, totalRead, extents, disk, bs, offset)
      invariant remaining > 0 ==> forall i :: 0 <= i < k ==>
                  extents[i].block + extents[i].len <= BlockOf(fileOffset, bs)
    {
      var e := extents[k];
      InExtent(fileOffset, e, bs);
      if fileOffset >= e.block * bs + e.len * bs {
        continue;
      }
      if fileOffset < e.block * bs {
        if remaining > 0 {
          NotAhead(extents, k, BlockOf(fileOffset, bs));
        }
        return Ok(totalRead), totalRead;
      }
      var toRead := Min(remaining, e.len * bs - (fileOffset - e.block * bs));
      var offsetInExt := fileOffset - e.block * bs;
      ExtentRun(e, bs, fileOffset, fileOffset + toRead);
      var ok;
      ok, end := ReadRun(extents, disk, bs, offset, k, e, fileOffset, totalRead, toRead,
                         e.phys + offsetInExt / bs, offsetInExt % bs, buf, before);
      if !ok {
        return Err(()), end;
      }
      totalRead, remaining, fileOffset := totalRead + toRead, remaining - toRead, fileOffset + toRead;
      if remaining > 0 {
        InExtent(fileOffset, e, bs);
      }
    }
    return Ok(totalRead), totalRead;
  }
}
