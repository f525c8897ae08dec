/** Reading byte ranges of a file through the block cache: kernel/src/ios/inode.c. */
module Inodes {
  import opened Machine
  import opened BlockCache

  const I_DEVICE := 0
  const I_FILE := 1

  /** Maps a block of the file with the given number to a block of the disk. */
  type BlockMap = (Word, nat) -> nat

  class Inode {
    var kind: int
    var major: nat
    var minor: nat
    var num: Word
    var size: Word
    var blkdev: nat
    var bmap: BlockMap

    constructor ()
      ensures kind == I_DEVICE
    {
      kind := 0;
      major, minor, num, size, blkdev := 0, 0, 0, 0, 0;
      bmap := (n, b) => b;
    }

    /** creatid. */
    method CreateDevice(maj: nat, min: nat)
      modifies this
      ensures kind == I_DEVICE && major == maj && minor == min
      ensures num == old(num) && size == old(size) && blkdev == old(blkdev) && bmap == old(bmap)
    {
      kind := I_DEVICE;
      major := maj;
      minor := min;
    }

    /** creatif. */
    method CreateFile(n: Word, sz: Word, dev: nat, map_: BlockMap)
      modifies this
      ensures kind == I_FILE && num == n && size == sz && blkdev == dev && bmap == map_
      ensures major == old(major) && minor == old(minor)
    {
      kind := I_FILE;
      num := n;
      size := sz;
      blkdev := dev;
      bmap := map_;
    }
  }

  /** A device file makes readi panic; a disk file makes it return. */
  datatype Outcome = Panic | Returned(value: int)

  // ----- The flat contents of a file -----

  /** The disk block of the file's byte k is on the device. */
  predicate Mapped(c: Cache, dev: int, num: Word, bmap: BlockMap, k: nat) {
    OnDisk(c, dev, bmap(num, k / 512))
  }

  /** Byte k of the file. */
  function FileByte(c: Cache, dev: int, num: Word, bmap: BlockMap, k: nat): Byte {
    if Mapped(c, dev, num, bmap, k) then Logical(c, dev, bmap(num, k / 512))[k % 512] else 0
  }

  /** The first `len` bytes of dst are the file's bytes from `from` on. */
  ghost predicate HoldsSlice(dst: seq<Byte>, c: Cache, dev: int, num: Word, bmap: BlockMap, from: nat, len: nat) {
    len <= |dst| && forall k: nat :: from <= k < from + len ==> dst[k - from] == FileByte(c, dev, num, bmap, k)
  }

  lemma SameBlock(off: nat, j: nat)
    requires off % 512 + j < 512
    ensures (off + j) / 512 == off / 512 && (off + j) % 512 == off % 512 + j
  {
  }

  /** `piece` is the file's bytes from off on, inside one block. */
  ghost predicate IsPiece(piece: seq<Byte>, c: Cache, dev: int, num: Word, bmap: BlockMap, off: nat) {
    forall j: nat :: j < |piece| ==> piece[j] == FileByte(c, dev, num, bmap, off + j)
  }

  lemma BlockPiece(c: Cache, dev: int, num: Word, bmap: BlockMap, off: nat, data: Block, m: nat)
    requires off % 512 + m <= 512 && Mapped(c, dev, num, bmap, off) && data == Logical(c, dev, bmap(num, off / 512))
    ensures IsPiece(data[off % 512..off % 512 + m], c, dev, num, bmap, off)
  {
    var piece := data[off % 512..off % 512 + m];
    forall j: nat | j < |piece|
      ensures piece[j] == FileByte(c, dev, num, bmap, off + j)
    {
      SameBlock(off, j);
    }
  }

  /** Appending the next piece. */
  lemma SliceGrows(dst: seq<Byte>, dst': seq<Byte>, piece: seq<Byte>, c: Cache, dev: int, num: Word, bmap: BlockMap,
                   from: nat, len: nat)
    requires HoldsSlice(dst, c, dev, num, bmap, from, len) && IsPiece(piece, c, dev, num, bmap, from + len)
    requires len + |piece| <= |dst'| && dst'[..len] == dst[..len] && dst'[len..len + |piece|] == piece
    ensures HoldsSlice(dst', c, dev, num, bmap, from, len + |piece|)
  {
    forall k: nat | from <= k < from + len + |piece|
      ensures dst'[k - from] == FileByte(c, dev, num, bmap, k)
    {
      if k < from + len {
        assert dst'[k - from] == dst'[..len][k - from] == dst[k - from];
      } else {
        var j := k - (from + len);
        assert dst'[k - from] == dst'[len..len + |piece|][j] == piece[j];
        assert piece[j] == FileByte(c, dev, num, bmap, from + len + j);
      }
    }
  }

  /** Two caches with the same logical disk. */
  ghost predicate SameDisk(c: Cache, d: Cache) {
    && SameSizes(c, d)
    && forall dev: int, blk: nat {:trigger Logical(d, dev, blk)} ::
         OnDisk(c, dev, blk) ==> Logical(d, dev, blk) == Logical(c, dev, blk)
  }

  /** k bytes are those of a read of n bytes at off: all of them, or those up to the end of the file. */
  predicate ReadsUpTo(k: nat, size: Word, off: Word, n: Word) {
    k <= n && off + k <= size && (k == n || off + k == size)
  }

  /** The int that readi returns for a read of k bytes is k below 2^31.  It is -1, as on an error, exactly for a read of
      2^32 - 1 bytes, which only a file of that size allows, from offset 0. */
  lemma MinusOneIff(k: nat, size: Word, off: Word, n: Word)
    requires off <= size && off + n < TWO_32 && ReadsUpTo(k, size, off, n)
    ensures ToInt32(k) == -1 <==> off == 0 && size == 0xFFFF_FFFF && n == 0xFFFF_FFFF
    ensures ToInt32(k) == k <==> k < 0x8000_0000
  {
  }

  /** memcpy into dst from position at. */
  method Memcpy(dst: array<Byte>, at: nat, src: seq<Byte>)
    requires at + |src| <= dst.Length
    modifies dst
    ensures dst[..at] == old(dst[..at]) && dst[at..at + |src|] == src && dst[at + |src|..] == old(dst[at + |src|..])
  {
    for i := 0 to |src|
      invariant dst[..at] == old(dst[..at]) && dst[at + |src|..] == old(dst[at + |src|..])
      invariant dst[at..at + i] == src[..i]
    {
      dst[at + i] := src[i];
    }
  }

  /** bread, looking at the data of the buffer it returns. */
  method ReadBlock(cache: BufferCache, dev: nat, blk: nat) returns (data: Block)
    requires cache.Valid() && dev < |cache.devs|
    modifies cache`bufPtr, cache.Repr
    ensures cache.Valid() && SameDisk(old(cache.View()), cache.View())
    ensures OnDisk(old(cache.View()), dev, blk) ==> data == Logical(old(cache.View()), dev, blk)
  {
    ghost var c := cache.View();
    ReadKeeps(c, dev, blk);
    var slot := cache.Bread(dev, blk);
    data := cache.buffers[slot].data;
    assert data == cache.View().bufs[slot].data;
  }

  lemma SameDiskTransitive(c: Cache, d: Cache, e: Cache)
    requires SameDisk(c, d) && SameDisk(d, e)
    ensures SameDisk(c, e)
  {
  }

  /** One turn of readi's loop: the rest of the block at offset from + total, or as much of it as is wanted. */
  method ReadPiece(cache: BufferCache, dev: nat, num: Word, bmap: BlockMap, dst: array<Byte>, from: nat, total: nat,
                   n: nat, ghost c: Cache)
    returns (m: nat)
    requires cache.Valid() && dev < |cache.devs| && dst !in cache.Repr && SameDisk(c, cache.View())
    requires total < n <= dst.Length && Mapped(c, dev, num, bmap, from + total)
    requires HoldsSlice(dst[..], c, dev, num, bmap, from, total)
    modifies cache`bufPtr, cache.Repr, dst
    ensures cache.Valid() && SameDisk(c, cache.View())
    ensures 0 < m && total + m <= n && HoldsSlice(dst[..], c, dev, num, bmap, from, total + m)
    ensures dst[n..] == old(dst[n..])
  {
    var off := from + total;
    ghost var d := cache.View();
    var data := ReadBlock(cache, dev, bmap(num, off / 512));
    SameDiskTransitive(c, d, cache.View());
    m := Min(n - total, 512 - off % 512);
    BlockPiece(c, dev, num, bmap, off, data, m);
    CopyPiece(dst, from, total, data[off % 512..off % 512 + m], n, c, dev, num, bmap);
  }

  method CopyPiece(dst: array<Byte>, ghost from: nat, total: nat, piece: seq<Byte>, ghost n: nat,
                   ghost c: Cache, ghost dev: int, ghost num: Word, ghost bmap: BlockMap)
    requires total + |piece| <= n <= dst.Length
    requires HoldsSlice(dst[..], c, dev, num, bmap, from, total) && IsPiece(piece, c, dev, num, bmap, from + total)
    modifies dst
    ensures HoldsSlice(dst[..], c, dev, num, bmap, from, total + |piece|) && dst[n..] == old(dst[n..])
  {
    ghost var before := dst[..];
    Memcpy(dst, total, piece);
    assert dst[n..] == dst[total + |piece|..][n - total - |piece|..];
    SliceGrows(before, dst[..], piece, c, dev, num, bmap, from, total);
  }

  /** readi's loop. */
  method ReadBlocks(cache: BufferCache, dev: nat, num: Word, bmap: BlockMap, dst: array<Byte>, from: nat, n: nat)
    requires cache.Valid() && dev < |cache.devs| && dst !in cache.Repr && n <= dst.Length
    requires forall k: nat :: from <= k < from + n ==> Mapped(cache.View(), dev, num, bmap, k)
    modifies cache`bufPtr, cache.Repr, dst
    ensures cache.Valid() && SameDisk(old(cache.View()), cache.View())
    ensures HoldsSlice(dst[..], old(cache.View()), dev, num, bmap, from, n) && dst[n..] == old(dst[n..])
  {
    ghost var c := cache.View();
    var total := 0;
    while total < n
      invariant 0 <= total <= n && cache.Valid() && SameDisk(c, cache.View())
      invariant HoldsSlice(dst[..], c, dev, num, bmap, from, total) && dst[n..] == old(dst[n..])
    {
      assert Mapped(c, dev, num, bmap, from + total);
      var m := ReadPiece(cache, dev, num, bmap, dst, from, total, n, c);
      total := total + m;
    }
  }

  /** readi: -1 past the end of the file or for a range that wraps; else `read` bytes, as many as asked for or as the
      file has, fill dst with exactly that slice of the file and are the result; blocks evicted on the way disturb
      neither it nor the logical disk. */
  method Readi(cache: BufferCache, ip: Inode, dst: array<Byte>, offset: Word, count: Word)
    returns (r: Outcome, ghost read: nat)
    requires cache.Valid() && ip.blkdev < |cache.devs| && dst !in cache.Repr && ip !in cache.Repr
    requires offset <= ip.size && offset + count < TWO_32 ==> offset + dst.Length >= ip.size || dst.Length >= count
    requires offset + count < TWO_32 ==>
               forall k: nat :: offset <= k < offset + count && k < ip.size ==>
                 Mapped(cache.View(), ip.blkdev, ip.num, ip.bmap, k)
    modifies cache`bufPtr, cache.Repr, dst
    ensures cache.Valid() && SameDisk(old(cache.View()), cache.View())
    ensures ip.kind == I_DEVICE ==> r == Panic && read == 0
    ensures ip.kind != I_DEVICE && (offset > ip.size || offset + count >= 0x1_0000_0000) ==>
              r == Returned(-1) && read == 0
    ensures ip.kind != I_DEVICE && offset <= ip.size && offset + count < 0x1_0000_0000 ==>
              && r == Returned(ToInt32(read)) && read <= count && offset + read <= ip.size
              && (read == count || offset + read == ip.size)
    ensures HoldsSlice(dst[..], old(cache.View()), ip.blkdev, ip.num, ip.bmap, offset, read)
    ensures dst[read..] == old(dst[read..])
  {
    read := 0;
    if ip.kind == I_DEVICE {
      r := Panic;
      return;
    }
    var off, n := offset, count;
    if off > ip.size || Wrap(off + n) < off {
      r := Returned(-1);
      return;
    }
    if off + n > ip.size {
      n := ip.size - off;
    }
    ReadBlocks(cache, ip.blkdev, ip.num, ip.bmap, dst, off, n);
    read := n;
    r := Returned(ToInt32(n));
  }
}
