/** The block cache of kernel/src/ios/buf.c over the ramdisk driver of kernel/src/basedrv/ramdisk.c.

    The cache's comments call it LRU; buf_ptr moves only on a miss, so it is round-robin, and that is what is
    modelled. */
module BlockCache {
  import opened Machine

  const NBUF := 8

  type Block = s: seq<Byte> | |s| == 512 witness seq(512, _ => 0)

  // ----- The ramdisk image -----

  predicate InRange(image: seq<Byte>, blk: int) {
    0 <= blk && 512 * blk + 512 <= |image|
  }

  function DiskBlock(image: seq<Byte>, blk: int): Block
    requires InRange(image, blk)
  {
    image[512 * blk..512 * blk + 512]
  }

  function WriteBlock(image: seq<Byte>, blk: int, data: Block): seq<Byte>
    requires InRange(image, blk)
  {
    image[..512 * blk] + data + image[512 * blk + 512..]
  }

  /** Writing a block changes that block and no other. */
  lemma WriteThenRead(image: seq<Byte>, blk: int, data: Block, b: int)
    requires InRange(image, blk) && InRange(image, b)
    ensures |WriteBlock(image, blk, data)| == |image|
    ensures DiskBlock(WriteBlock(image, blk, data), b) == if b == blk then data else DiskBlock(image, b)
  {
    var image' := WriteBlock(image, blk, data);
    if b < blk {
      assert 512 * b + 512 <= 512 * blk;
    } else if blk < b {
      assert 512 * blk + 512 <= 512 * b;
    }
  }

  class Ramdisk {
    const blocks: nat
    const image: array<Byte>

    ghost predicate Valid()
    {
      image.Length == 512 * blocks < TWO_32
    }

    constructor (bytes: array<Byte>, n: nat)
      requires bytes.Length == 512 * n < TWO_32
      ensures Valid() && image == bytes && blocks == n
    {
      blocks := n;
      image := bytes;
    }

    /** ramdisk_read: copies the block into the buffer, or leaves the buffer alone and fails. */
    method Read(buf: Block, blk: nat) returns (status: int, data: Block)
      requires Valid()
      ensures if InRange(image[..], blk) then status == 0 && data == DiskBlock(image[..], blk)
              else status == -1 && data == buf
    {
      if blk >= blocks {
        return -1, buf;
      }
      status := 0;
      data := image[512 * blk..512 * blk + 512];
    }

    /** ramdisk_write: copies the buffer into the block, or changes nothing and fails. */
    method Write(buf: Block, blk: nat) returns (status: int)
      requires Valid()
      modifies image
      ensures if InRange(old(image[..]), blk) then status == 0 && image[..] == WriteBlock(old(image[..]), blk, buf)
              else status == -1 && image[..] == old(image[..])
    {
      if blk >= blocks {
        return -1;
      }
      ghost var before := image[..];
      for i := 0 to 512
        invariant image[..512 * blk] == before[..512 * blk] && image[512 * blk + 512..] == before[512 * blk + 512..]
        invariant forall j :: 0 <= j < i ==> image[512 * blk + j] == buf[j]
      {
        image[512 * blk + i] := buf[i];
      }
      assert image[..] == WriteBlock(before, blk, buf);
      status := 0;
    }
  }

  // ----- The cache on values -----

  datatype Buf = Buf(dirty: bool, devnum: int, blknum: nat, data: Block)

  datatype Cache = Cache(bufs: seq<Buf>, ptr: nat, disks: seq<seq<Byte>>)

  predicate Holds(b: Buf, dev: int, blk: nat) {
    b.devnum == dev && b.blknum == blk
  }

  /** bget: the first slot holding the block, or NBUF. */
  function Find(bufs: seq<Buf>, dev: int, blk: nat): (i: nat)
    ensures i <= |bufs|
    ensures i < |bufs| ==> Holds(bufs[i], dev, blk)
    ensures forall j :: 0 <= j < i ==> !Holds(bufs[j], dev, blk)
  {
    if bufs == [] then 0 else if Holds(bufs[0], dev, blk) then 0 else 1 + Find(bufs[1..], dev, blk)
  }

  lemma FindIs(bufs: seq<Buf>, dev: int, blk: nat, i: nat)
    requires i <= |bufs| && (i < |bufs| ==> Holds(bufs[i], dev, blk))
    requires forall j :: 0 <= j < i ==> !Holds(bufs[j], dev, blk)
    ensures Find(bufs, dev, blk) == i
  {
  }

  predicate Shape(c: Cache) {
    |c.bufs| == NBUF && c.ptr < NBUF && forall i :: 0 <= i < NBUF ==>
      -1 <= c.bufs[i].devnum < |c.disks| && (c.bufs[i].dirty ==> c.bufs[i].devnum >= 0)
  }

  predicate OnDisk(c: Cache, dev: int, blk: int) {
    0 <= dev < |c.disks| && InRange(c.disks[dev], blk)
  }

  /** A write-back that the driver refuses is lost without notice. */
  function WriteBack(c: Cache, b: Buf): seq<seq<Byte>>
  {
    if b.dirty && OnDisk(c, b.devnum, b.blknum) then
      c.disks[b.devnum := WriteBlock(c.disks[b.devnum], b.blknum, b.data)]
    else
      c.disks
  }

  /** bflush: advance to the next slot, write it back if it is dirty, and mark it unused. */
  function Flush(c: Cache): Cache
    requires Shape(c)
  {
    var p := (c.ptr + 1) % NBUF;
    var b := c.bufs[p];
    Cache(c.bufs[p := b.(dirty := false, devnum := -1)], p, WriteBack(c, b))
  }

  /** bread: the state after it; the block is in slot Find(...) of that state. */
  function Read(c: Cache, dev: nat, blk: nat): Cache
    requires Shape(c)
  {
    if Find(c.bufs, dev, blk) < NBUF then c
    else
      var f := Flush(c);
      var stale := f.bufs[f.ptr];
      var data := if OnDisk(f, dev, blk) then DiskBlock(f.disks[dev], blk) else stale.data;
      f.(bufs := f.bufs[f.ptr := Buf(false, dev, blk, data)])
  }

  /** bwrite. */
  function Write(c: Cache, dev: nat, blk: nat, data: Block): Cache
    requires Shape(c)
  {
    var i := Find(c.bufs, dev, blk);
    if i < NBUF then c.(bufs := c.bufs[i := c.bufs[i].(dirty := true, data := data)])
    else
      var f := Flush(c);
      f.(bufs := f.bufs[f.ptr := Buf(true, dev, blk, data)])
  }

  // ----- Coherence -----

  predicate SameKey(a: Buf, b: Buf) { a.devnum == b.devnum && a.blknum == b.blknum }

  /** No block is held twice, and a clean buffer equals the device. */
  ghost predicate Coherent(c: Cache) {
    && Shape(c)
    && (forall i, j :: 0 <= i < j < NBUF && c.bufs[i].devnum >= 0 ==> !SameKey(c.bufs[i], c.bufs[j]))
    && (forall i :: 0 <= i < NBUF && !c.bufs[i].dirty && OnDisk(c, c.bufs[i].devnum, c.bufs[i].blknum) ==>
          c.bufs[i].data == DiskBlock(c.disks[c.bufs[i].devnum], c.bufs[i].blknum))
  }

  /** The logical disk: the cached blocks overlaid on the device. */
  function Logical(c: Cache, dev: int, blk: nat): Block
    requires OnDisk(c, dev, blk)
  {
    var i := Find(c.bufs, dev, blk);
    if i < |c.bufs| then c.bufs[i].data else DiskBlock(c.disks[dev], blk)
  }

  predicate SameSizes(c: Cache, d: Cache) {
    |c.disks| == |d.disks| && forall i :: 0 <= i < |c.disks| ==> |c.disks[i]| == |d.disks[i]|
  }

  lemma FlushKeeps(c: Cache)
    requires Coherent(c)
    ensures Coherent(Flush(c)) && SameSizes(c, Flush(c))
    ensures forall dev: int, blk: nat :: OnDisk(c, dev, blk) ==> Logical(Flush(c), dev, blk) == Logical(c, dev, blk)
  {
    var f := Flush(c);
    var b := c.bufs[f.ptr];
    if b.dirty && OnDisk(c, b.devnum, b.blknum) {
      WriteThenRead(c.disks[b.devnum], b.blknum, b.data, b.blknum);
    }
    forall i | 0 <= i < NBUF && !f.bufs[i].dirty && OnDisk(f, f.bufs[i].devnum, f.bufs[i].blknum)
      ensures f.bufs[i].data == DiskBlock(f.disks[f.bufs[i].devnum], f.bufs[i].blknum)
    {
      FlushKeepsBlock(c, f.bufs[i].devnum, f.bufs[i].blknum);
    }
    forall dev: int, blk: nat | OnDisk(c, dev, blk)
      ensures Logical(f, dev, blk) == Logical(c, dev, blk)
    {
      FlushKeepsBlock(c, dev, blk);
      FlushFinds(c, dev, blk);
    }
  }

  /** On the device, flushing changes only the block written back. */
  lemma FlushKeepsBlock(c: Cache, dev: int, blk: nat)
    requires Coherent(c) && OnDisk(c, dev, blk)
    ensures var f, b := Flush(c), c.bufs[(c.ptr + 1) % NBUF];
            && |f.disks| == |c.disks| && |f.disks[dev]| == |c.disks[dev]|
            && DiskBlock(f.disks[dev], blk) == if b.dirty
               && Holds(b, dev, blk) then b.data else DiskBlock(c.disks[dev], blk)
  {
    var b := c.bufs[(c.ptr + 1) % NBUF];
    if b.dirty && OnDisk(c, b.devnum, b.blknum) && b.devnum == dev {
      WriteThenRead(c.disks[dev], b.blknum, b.data, blk);
    }
  }

  lemma FlushFinds(c: Cache, dev: int, blk: nat)
    requires Coherent(c) && dev >= 0
    ensures var p, i := (c.ptr + 1) % NBUF, Find(c.bufs, dev, blk);
            Find(Flush(c).bufs, dev, blk) == if i == p then NBUF else i
  {
    var p, i := (c.ptr + 1) % NBUF, Find(c.bufs, dev, blk);
    FindIs(Flush(c).bufs, dev, blk, if i == p then NBUF else i);
  }

  /** The state between flushing and storing: filling the flushed slot with a block whose key nobody holds. */
  ghost predicate Fills(f: Cache, c: Cache, b: Buf) {
    && Coherent(f) && f.bufs[f.ptr].devnum == -1 && 0 <= b.devnum < |f.disks|
    && Find(f.bufs, b.devnum, b.blknum) == NBUF
    && (!b.dirty && OnDisk(f, b.devnum, b.blknum) ==> b.data == DiskBlock(f.disks[b.devnum], b.blknum))
    && c == f.(bufs := f.bufs[f.ptr := b])
  }

  lemma FillFinds(f: Cache, c: Cache, b: Buf, dev: int, blk: nat)
    requires Fills(f, c, b) && dev >= 0
    ensures Find(c.bufs, dev, blk) == if Holds(b, dev, blk) then f.ptr else Find(f.bufs, dev, blk)
  {
    if Holds(b, dev, blk) {
      FindIs(c.bufs, dev, blk, f.ptr);
    } else {
      var i := Find(f.bufs, dev, blk);
      FindIs(c.bufs, dev, blk, i);
    }
  }

  lemma FillKeeps(f: Cache, c: Cache, b: Buf)
    requires Fills(f, c, b)
    ensures Coherent(c) && Find(c.bufs, b.devnum, b.blknum) == f.ptr
    ensures forall dev: int, blk: nat :: OnDisk(f, dev, blk) ==>
              Logical(c, dev, blk) == if Holds(b, dev, blk) then b.data else Logical(f, dev, blk)
  {
    FillFinds(f, c, b, b.devnum, b.blknum);
    FillCoherent(f, c, b);
    forall dev: int, blk: nat | OnDisk(f, dev, blk)
      ensures Logical(c, dev, blk) == if Holds(b, dev, blk) then b.data else Logical(f, dev, blk)
    {
      FillFinds(f, c, b, dev, blk);
    }
  }

  lemma FillCoherent(f: Cache, c: Cache, b: Buf)
    requires Fills(f, c, b)
    ensures Coherent(c)
  {
    forall i, j | 0 <= i < j < NBUF && c.bufs[i].devnum >= 0
      ensures !SameKey(c.bufs[i], c.bufs[j])
    {
      assert forall k :: 0 <= k < NBUF ==> !Holds(f.bufs[k], b.devnum, b.blknum);
      var x, y := f.bufs[i], f.bufs[j];
    }
  }

  /** bread keeps coherence and the logical disk, and leaves the logical block in the slot it returns. */
  lemma ReadKeeps(c: Cache, dev: nat, blk: nat)
    requires Coherent(c) && dev < |c.disks|
    ensures Coherent(Read(c, dev, blk)) && SameSizes(c, Read(c, dev, blk))
    ensures Find(Read(c, dev, blk).bufs, dev, blk) < NBUF
    ensures forall d: int, b: nat :: OnDisk(c, d, b) ==> Logical(Read(c, dev, blk), d, b) == Logical(c, d, b)
  {
    if Find(c.bufs, dev, blk) == NBUF {
      var f := Flush(c);
      FlushKeeps(c);
      FlushFinds(c, dev, blk);
      var r := Read(c, dev, blk);
      FillKeeps(f, r, r.bufs[f.ptr]);
      forall d: int, b: nat | OnDisk(c, d, b) ensures Logical(r, d, b) == Logical(c, d, b) {
        assert OnDisk(f, d, b);
      }
    }
  }

  /** bwrite keeps coherence and changes exactly one logical block. */
  lemma WriteKeeps(c: Cache, dev: nat, blk: nat, data: Block)
    requires Coherent(c) && dev < |c.disks|
    ensures var w := Write(c, dev, blk, data);
            && Coherent(w) && SameSizes(c, w)
            && Find(w.bufs, dev, blk) < NBUF && w.bufs[Find(w.bufs, dev, blk)].data == data
            && forall d: int, b: nat :: OnDisk(c, d, b) ==>
                 Logical(w, d, b) == if d == dev && b == blk then data else Logical(c, d, b)
  {
    var w := Write(c, dev, blk, data);
    if Find(c.bufs, dev, blk) < NBUF {
      HitKeeps(c, w, dev, blk, data);
    } else {
      var f := Flush(c);
      FlushKeeps(c);
      FlushFinds(c, dev, blk);
      FillKeeps(f, w, w.bufs[f.ptr]);
    }
  }

  /** Writing into the slot that holds the block. */
  lemma HitKeeps(c: Cache, w: Cache, dev: nat, blk: nat, data: Block)
    requires Coherent(c) && dev < |c.disks| && Find(c.bufs, dev, blk) < NBUF
    requires var i := Find(c.bufs, dev, blk); w == c.(bufs := c.bufs[i := c.bufs[i].(dirty := true, data := data)])
    ensures Coherent(w) && Find(w.bufs, dev, blk) == Find(c.bufs, dev, blk)
    ensures forall d: int, b: nat :: OnDisk(c, d, b) ==>
              Logical(w, d, b) == if d == dev && b == blk then data else Logical(c, d, b)
  {
    SameKeysFind(c.bufs, w.bufs, dev, blk);
    forall d: int, b: nat | OnDisk(c, d, b)
      ensures Logical(w, d, b) == if d == dev && b == blk then data else Logical(c, d, b)
    {
      SameKeysFind(c.bufs, w.bufs, d, b);
      HitLogical(c, w, dev, blk, data, d, b);
    }
  }

  lemma HitLogical(c: Cache, w: Cache, dev: nat, blk: nat, data: Block, d: int, b: nat)
    requires OnDisk(c, d, b) && Find(c.bufs, dev, blk) < |c.bufs| && Find(w.bufs, d, b) == Find(c.bufs, d, b)
    requires var i := Find(c.bufs, dev, blk); w == c.(bufs := c.bufs[i := c.bufs[i].(dirty := true, data := data)])
    ensures Logical(w, d, b) == if d == dev && b == blk then data else Logical(c, d, b)
  {
  }

  lemma SameKeysFind(a: seq<Buf>, b: seq<Buf>, dev: int, blk: nat)
    requires |a| == |b| && forall i :: 0 <= i < |a| ==> a[i].devnum == b[i].devnum && a[i].blknum == b[i].blknum
    ensures Find(a, dev, blk) == Find(b, dev, blk)
  {
    FindIs(b, dev, blk, Find(a, dev, blk));
  }

  // ----- Runs -----

  datatype Op = BRead(dev: nat, blk: nat) | BWrite(dev: nat, blk: nat, data: Block)

  function Step(c: Cache, op: Op): Cache
    requires Shape(c)
  {
    match op
    case BRead(dev, blk) => Read(c, dev, blk)
    case BWrite(dev, blk, data) => Write(c, dev, blk, data)
  }

  ghost predicate Devices(c: Cache, ops: seq<Op>) {
    forall op :: op in ops ==> op.dev < |c.disks|
  }

  ghost function Run(c: Cache, ops: seq<Op>): (r: Cache)
    requires Coherent(c) && Devices(c, ops)
    ensures Coherent(r) && SameSizes(c, r)
    decreases |ops|
  {
    if ops == [] then c
    else
      var last := ops[|ops| - 1];
      var before := Run(c, ops[..|ops| - 1]);
      StepKeeps(before, last);
      Step(before, last)
  }

  lemma StepKeeps(c: Cache, op: Op)
    requires Coherent(c) && op.dev < |c.disks|
    ensures Coherent(Step(c, op)) && SameSizes(c, Step(c, op))
  {
    match op
    case BRead(dev, blk) => ReadKeeps(c, dev, blk);
    case BWrite(dev, blk, data) => WriteKeeps(c, dev, blk, data);
  }

  /** What a reader must see: the last data written to the block, or what was there at the start. */
  function LastWritten(ops: seq<Op>, dev: int, blk: nat, initial: Block): Block {
    if ops == [] then initial
    else
      var op := ops[|ops| - 1];
      if op.BWrite? && op.dev == dev && op.blk == blk then op.data else LastWritten(ops[..|ops| - 1], dev, blk, initial)
  }

  /** Over every run of reads and writes (of any block numbers, in range or not) each block of the disk reads as the
      last data written to it: the cache is transparent. */
  lemma {:induction false} RunIsTransparent(c: Cache, ops: seq<Op>, dev: int, blk: nat)
    requires Coherent(c) && Devices(c, ops) && OnDisk(c, dev, blk)
    ensures OnDisk(Run(c, ops), dev, blk)
    ensures Logical(Run(c, ops), dev, blk) == LastWritten(ops, dev, blk, Logical(c, dev, blk))
    decreases |ops|
  {
    if ops != [] {
      var before, op := ops[..|ops| - 1], ops[|ops| - 1];
      RunIsTransparent(c, before, dev, blk);
      match op
      case BRead(d, b) => ReadKeeps(Run(c, before), d, b);
      case BWrite(d, b, data) => WriteKeeps(Run(c, before), d, b, data);
    }
  }

  // ----- Round-robin residency -----

  predicate IsMiss(c: Cache, op: Op) {
    Find(c.bufs, op.dev, op.blk) == |c.bufs|
  }

  ghost function Misses(c: Cache, ops: seq<Op>): nat
    requires Coherent(c) && Devices(c, ops)
    decreases |ops|
  {
    if ops == [] then 0
    else
      var before := ops[..|ops| - 1];
      Misses(c, before) + if IsMiss(Run(c, before), ops[|ops| - 1]) then 1 else 0
  }

  lemma RunOne(c: Cache, ops: seq<Op>)
    requires Coherent(c) && Devices(c, ops) && ops != []
    ensures var before, op := ops[..|ops| - 1], ops[|ops| - 1];
            && Run(c, ops) == Step(Run(c, before), op)
            && Misses(c, ops) == Misses(c, before) + if IsMiss(Run(c, before), op) then 1 else 0
  {
  }

  /** One step moves the pointer only on a miss, and only the slot it moves to changes its key. */
  lemma StepMoves(c: Cache, op: Op)
    requires Coherent(c) && op.dev < |c.disks|
    ensures var s := Step(c, op);
            && Shape(s)
            && s.ptr == (if IsMiss(c, op) then (c.ptr + 1) % NBUF else c.ptr)
            && (forall i :: 0 <= i < NBUF && !(IsMiss(c, op) && i == s.ptr) ==>
                  s.bufs[i].devnum == c.bufs[i].devnum && s.bufs[i].blknum == c.bufs[i].blknum)
            && (IsMiss(c, op) ==> Holds(s.bufs[s.ptr], op.dev, op.blk))
  {
    StepKeeps(c, op);
  }

  /** Slot p still holds (dev, blk), m misses after the pointer was there. */
  ghost predicate Resident(c: Cache, p: nat, m: nat, dev: int, blk: nat) {
    Shape(c) && p < NBUF && c.ptr == (p + m) % NBUF && Holds(c.bufs[p], dev, blk)
  }

  /** A block loaded by a miss stays in its slot through the next seven misses, whatever hits and writes come between
      ... */
  lemma {:induction false} LoadedBlockStays(c: Cache, ops: seq<Op>, r: Cache, m: nat)
    requires Coherent(c) && Devices(c, ops) && r == Run(c, ops) && m == Misses(c, ops) < 8
    ensures Resident(r, c.ptr, m, c.bufs[c.ptr].devnum, c.bufs[c.ptr].blknum)
    decreases |ops|
  {
    if ops != [] {
      var before, op := ops[..|ops| - 1], ops[|ops| - 1];
      RunOne(c, ops);
      LoadedBlockStays(c, before, Run(c, before), Misses(c, before));
      OneMoreOp(Run(c, before), op, c.ptr, Misses(c, before), c.bufs[c.ptr].devnum, c.bufs[c.ptr].blknum);
    }
  }

  lemma OneMoreOp(b: Cache, op: Op, p: nat, m: nat, dev: int, blk: nat)
    requires Coherent(b) && op.dev < |b.disks| && Resident(b, p, m, dev, blk)
    ensures !IsMiss(b, op) ==> Resident(Step(b, op), p, m, dev, blk)
    ensures IsMiss(b, op) && m + 1 < NBUF ==> Resident(Step(b, op), p, m + 1, dev, blk)
    ensures IsMiss(b, op) && m + 1 == NBUF && dev >= 0 ==> Find(Step(b, op).bufs, dev, blk) == NBUF
  {
    StepMoves(b, op);
    if m < NBUF { RoundRobin(p, m); }
    if IsMiss(b, op) && m + 1 == NBUF && dev >= 0 { NowhereElse(b, Step(b, op), op, p, dev, blk); }
  }

  lemma RoundRobin(p: nat, m: nat)
    requires p < NBUF && m < NBUF
    ensures ((p + m) % NBUF + 1) % NBUF == (p + m + 1) % NBUF
    ensures (p + m + 1) % NBUF == p <==> m + 1 == NBUF
  {
  }

  /** A key lives in one slot only, so once another key has taken that slot it is gone. */
  lemma NowhereElse(b: Cache, s: Cache, op: Op, p: nat, dev: int, blk: nat)
    requires Coherent(b) && p < NBUF && Holds(b.bufs[p], dev, blk) && dev >= 0 && IsMiss(b, op)
    requires Shape(s) && s.ptr == p && Holds(s.bufs[p], op.dev, op.blk)
    requires forall i :: 0 <= i < NBUF && i != p ==>
               s.bufs[i].devnum == b.bufs[i].devnum && s.bufs[i].blknum == b.bufs[i].blknum
    ensures Find(s.bufs, dev, blk) == NBUF
  {
    assert !Holds(b.bufs[p], op.dev, op.blk);
    FindIs(s.bufs, dev, blk, NBUF);
  }

  /** ... and is evicted by exactly the eighth: no slot holds it. */
  lemma EvictedByNextMiss(c: Cache, ops: seq<Op>, op: Op)
    requires Coherent(c) && Devices(c, ops) && op.dev < |c.disks| && c.bufs[c.ptr].devnum >= 0
    requires Misses(c, ops) == 7 && IsMiss(Run(c, ops), op)
    ensures var s := Step(Run(c, ops), op);
            |s.bufs| == 8 && forall i :: 0 <= i < 8 ==> !Holds(s.bufs[i], c.bufs[c.ptr].devnum, c.bufs[c.ptr].blknum)
  {
    LoadedBlockStays(c, ops, Run(c, ops), NBUF - 1);
    OneMoreOp(Run(c, ops), op, c.ptr, NBUF - 1, c.bufs[c.ptr].devnum, c.bufs[c.ptr].blknum);
  }

  // ----- The cache itself -----

  class BufferCache {
    const devs: seq<Ramdisk>
    const buffers: array<Buf>
    var bufPtr: nat

    /** The memory the cache works on: its buffers and the images of the devices. */
    ghost const Repr: set<object>

    ghost function Images(): seq<seq<Byte>>
      reads Repr
      requires forall i :: 0 <= i < |devs| ==> devs[i].image in Repr
    {
      seq(|devs|, i requires 0 <= i < |devs| reads Repr => devs[i].image[..])
    }

    /** The cache as a value. */
    ghost function View(): Cache
      reads this, Repr
      requires Framed()
    {
      Cache(buffers[..], bufPtr, Images())
    }

    ghost predicate Framed() {
      && buffers in Repr && buffers.Length == NBUF
      && (forall i :: 0 <= i < |devs| ==> devs[i].image in Repr && devs[i].Valid())
      && (forall i, j :: 0 <= i < j < |devs| ==> devs[i].image != devs[j].image)
    }

    ghost predicate Valid()
      reads this, Repr
    {
      Framed() && Coherent(View())
    }

    /** binit, over the installed block devices. */
    constructor (devices: seq<Ramdisk>, slots: array<Buf>)
      requires slots.Length == NBUF && forall i :: 0 <= i < |devices| ==> devices[i].Valid()
      requires forall i, j :: 0 <= i < j < |devices| ==> devices[i].image != devices[j].image
      modifies slots
      ensures Valid() && devs == devices && buffers == slots
      ensures Repr == {slots as object} + set i | 0 <= i < |devices| :: devices[i].image
      ensures forall dev: int, blk: nat :: OnDisk(View(), dev, blk) ==>
                Logical(View(), dev, blk) == DiskBlock(devs[dev].image[..], blk)
    {
      devs := devices;
      buffers := slots;
      bufPtr := 0;
      Repr := {slots as object} + set i | 0 <= i < |devices| :: devices[i].image;
      new;
      for i := 0 to NBUF
        invariant Framed() && bufPtr == 0
        invariant forall j :: 0 <= j < i ==> !buffers[j].dirty && buffers[j].devnum == -1
      {
        buffers[i] := buffers[i].(dirty := false, devnum := -1);
      }
      forall dev: int, blk: nat | OnDisk(View(), dev, blk)
        ensures Find(buffers[..], dev, blk) == NBUF
      {
        FindIs(buffers[..], dev, blk, NBUF);
      }
    }

    /** bget. */
    method Bget(dev: int, blk: nat) returns (slot: nat)
      requires buffers.Length == NBUF
      ensures slot == Find(buffers[..], dev, blk)
    {
      for i := 0 to NBUF
        invariant forall j :: 0 <= j < i ==> !Holds(buffers[j], dev, blk)
      {
        if buffers[i].devnum == dev && buffers[i].blknum == blk {
          FindIs(buffers[..], dev, blk, i);
          return i;
        }
      }
      FindIs(buffers[..], dev, blk, NBUF);
      return NBUF;
    }

    /** bflush. */
    method Bflush() returns (slot: nat)
      requires Valid()
      modifies this`bufPtr, Repr
      ensures Framed() && slot == bufPtr && View() == Flush(old(View()))
    {
      ghost var c := View();
      bufPtr := (bufPtr + 1) % NBUF;
      slot := bufPtr;
      var b := buffers[slot];
      if b.dirty {
        var status := devs[b.devnum].Write(b.data, b.blknum);
      }
      assert Images() == WriteBack(c, b);
      buffers[slot] := b.(dirty := false, devnum := -1);
    }

    /** The slot just flushed, given the new key. */
    method Claim(dev: nat, blk: nat) returns (slot: nat)
      requires Valid() && dev < |devs|
      modifies this`bufPtr, Repr
      ensures Framed() && slot == bufPtr < NBUF
      ensures var f := Flush(old(View()));
              View() == f.(bufs := f.bufs[slot := f.bufs[slot].(devnum := dev, blknum := blk)])
    {
      slot := Bflush();
      ghost var f := View();
      buffers[slot] := buffers[slot].(devnum := dev, blknum := blk);
      assert Images() == f.disks;
    }

    /** bread: the slot holding the block. */
    method Bread(dev: nat, blk: nat) returns (slot: nat)
      requires Valid() && dev < |devs|
      modifies this`bufPtr, Repr
      ensures Valid() && View() == Read(old(View()), dev, blk) && slot == Find(View().bufs, dev, blk) < NBUF
    {
      ghost var c := View();
      ReadKeeps(c, dev, blk);
      slot := Bget(dev, blk);
      if slot == NBUF {
        ghost var f := Flush(c);
        slot := Claim(dev, blk);
        var status, data := devs[dev].Read(buffers[slot].data, blk);
        buffers[slot] := buffers[slot].(data := data);
        assert Images() == f.disks;
        ReadFinds(c, dev, blk);
      }
      assert View() == Read(c, dev, blk);
    }

    /** bwrite. */
    method Bwrite(dev: nat, blk: nat, data: Block)
      requires Valid() && dev < |devs|
      modifies this`bufPtr, Repr
      ensures Valid() && View() == Write(old(View()), dev, blk, data)
    {
      ghost var c := View();
      WriteKeeps(c, dev, blk, data);
      var slot := Bget(dev, blk);
      ghost var disks := c.disks;
      if slot == NBUF {
        disks := Flush(c).disks;
        slot := Claim(dev, blk);
      }
      buffers[slot] := buffers[slot].(data := data);
      buffers[slot] := buffers[slot].(dirty := true);
      assert Images() == disks;
      assert View() == Write(c, dev, blk, data);
    }
  }

  /** A miss leaves the block in the slot the pointer moved to. */
  lemma ReadFinds(c: Cache, dev: nat, blk: nat)
    requires Coherent(c) && dev < |c.disks| && Find(c.bufs, dev, blk) == NBUF
    ensures Find(Read(c, dev, blk).bufs, dev, blk) == Flush(c).ptr
  {
    var f := Flush(c);
    FlushKeeps(c);
    FlushFinds(c, dev, blk);
    var r := Read(c, dev, blk);
    FillFinds(f, r, r.bufs[f.ptr], dev, blk);
  }
}
