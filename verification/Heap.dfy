/** The first-fit kernel heap of kernel/src/mm/heap.c.

    Memory is raw: a block is nothing but four words (used, size, prev, next) at its address,
    followed by its payload.  A sequence of `Block`s is the abstract chain; `Represents` says that
    raw memory holds exactly that chain. */
module Heap {
  import opened Machine

  /** The largest request for which aligning and adding the header stay below 2^32. */
  const MAX_REQUEST := 0xFFFF_FFEC

  // ----- The abstract chain -----

  datatype Block = Block(addr: int, used: bool, size: int, prev: int) {
    function Payload(): int { addr + 16 }
    function End(): int { addr + 16 + size }
  }

  /** The blocks partition [start, limit) exactly, in address order. */
  ghost predicate Tiles(bs: seq<Block>, start: int, limit: int) {
    && 0 < start && start % 4 == 0 && limit < TWO_32
    && |bs| > 0
    && bs[0].addr == start
    && bs[|bs| - 1].End() == limit
    && (forall i :: 0 <= i < |bs| ==> bs[i].size >= 0 && bs[i].addr % 4 == 0)
    && (forall i, j :: 0 <= i && j == i + 1 && j < |bs| ==> bs[j].addr == bs[i].End())
  }

  function NextOf(bs: seq<Block>, i: nat): int
    requires i < |bs|
  {
    if i + 1 < |bs| then bs[i + 1].addr else 0
  }

  /** The four header words of block i. */
  ghost predicate HeaderAt(m: Memory, b: Block, next: int) {
    && Load(m, b.addr) == (if b.used then 1 else 0)
    && Load(m, b.addr + 4) == b.size
    && Load(m, b.addr + 8) == b.prev
    && Load(m, b.addr + 12) == next
  }

  /** Walking `next` from `start` through raw memory meets exactly the blocks of `bs`, and they tile the heap. */
  ghost predicate Represents(m: Memory, bs: seq<Block>, start: int, limit: int) {
    && Tiles(bs, start, limit)
    && forall i {:trigger NextOf(bs, i)} :: 0 <= i < |bs| ==> HeaderAt(m, bs[i], NextOf(bs, i))
  }

  /** The prev word of a block never points above the block: it is null or some address with room for a header below. */
  ghost predicate PrevBelow(bs: seq<Block>) {
    forall i :: 0 <= i < |bs| ==> bs[i].prev == 0 || 0 < bs[i].prev <= bs[i].addr - 16
  }

  /** Total bytes of headers and payloads. */
  function Total(bs: seq<Block>): int {
    if bs == [] then 0 else 16 + bs[0].size + Total(bs[1..])
  }

  lemma {:induction false} BlocksInOrder(bs: seq<Block>, start: int, limit: int, i: nat, j: nat)
    requires Tiles(bs, start, limit)
    requires i < j < |bs|
    ensures bs[i].End() <= bs[j].addr
    decreases j - i
  {
    if j > i + 1 {
      BlocksInOrder(bs, start, limit, i, j - 1);
    }
  }

  lemma BlocksWithin(bs: seq<Block>, start: int, limit: int, i: nat)
    requires Tiles(bs, start, limit)
    requires i < |bs|
    ensures start <= bs[i].addr && bs[i].End() <= limit
  {
    if i > 0 { BlocksInOrder(bs, start, limit, 0, i); }
    if i + 1 < |bs| { BlocksInOrder(bs, start, limit, i, |bs| - 1); }
  }

  /** Headers and sizes always add up to the heap size. */
  lemma {:induction false} TilesTotal(bs: seq<Block>, start: int, limit: int)
    requires Tiles(bs, start, limit)
    ensures Total(bs) == limit - start
    decreases |bs|
  {
    if |bs| > 1 {
      var rest := bs[1..];
      forall i, j | 0 <= i && j == i + 1 && j < |rest|
        ensures rest[j].addr == rest[i].End()
      {
        assert bs[j + 1].addr == bs[i + 1].End();
      }
      assert rest[0].addr == bs[1].addr == bs[0].End();
      TilesTotal(rest, rest[0].addr, limit);
    } else {
      assert bs[1..] == [];
    }
  }

  // ----- heap_alloc -----

  /** The align macro with a == 4, in 32-bit arithmetic. */
  function AlignUp(x: Word): Word {
    if x % 4 == 0 then x else Wrap(x + 4 - x % 4)
  }

  /** The test made on each block of the walk; `16 + sz` is computed in 32 bits. */
  predicate Fits(b: Block, sz: Word) {
    !b.used && b.size >= Wrap(16 + sz)
  }

  /** The stores heap_alloc makes once it settles on the block at `cur` (sz is already aligned). */
  function CarveMem(m: Memory, cur: Word, sz: Word): Memory {
    var oldSize := Load(m, cur + 4);
    var oldNext := Load(m, cur + 12);
    var next := Wrap(cur + 16 + sz);
    var m1 := m[cur := 1][cur + 4 := sz][cur + 12 := next][next := 0][next + 8 := cur];
    if oldNext == 0 || Load(m1, oldNext) != 0 then
      m1[next + 12 := oldNext][next + 4 := Wrap(oldSize - (16 + sz))]
    else
      var m2 := m1[next + 12 := Load(m1, oldNext + 12)];
      m2[next + 4 := Wrap(oldSize - sz + Load(m2, oldNext + 4))]
  }

  /** The chain after block i is split into a used block of sz bytes and a free remainder,
      the remainder swallowing a free successor. */
  function Carve(bs: seq<Block>, i: nat, sz: int): seq<Block>
    requires i < |bs|
  {
    var b := bs[i];
    var merge := i + 1 < |bs| && !bs[i + 1].used;
    var size := if merge then b.size - sz + bs[i + 1].size else b.size - (16 + sz);
    var rest := Block(b.addr + 16 + sz, false, size, b.addr);
    bs[..i] + [Block(b.addr, true, sz, b.prev), rest] + bs[if merge then i + 2 else i + 1..]
  }

  /** Replacing the middle of a tiling by blocks that tile the same bytes gives a tiling. */
  lemma TilesReplace(bs: seq<Block>, start: int, limit: int, h: nat, e: nat, mid: seq<Block>)
    requires Tiles(bs, start, limit) && h < e <= |bs|
    requires mid != [] && mid[0].addr == bs[h].addr && mid[|mid| - 1].End() == bs[e - 1].End()
    requires forall k :: 0 <= k < |mid| ==> mid[k].size >= 0 && mid[k].addr % 4 == 0
    requires forall k, j :: 0 <= k && j == k + 1 && j < |mid| ==> mid[j].addr == mid[k].End()
    ensures Tiles(bs[..h] + mid + bs[e..], start, limit)
  {
    var cs := bs[..h] + mid + bs[e..];
    var n := |mid|;
    if e < |bs| { assert bs[e].addr == bs[e - 1].End(); }
    if h > 0 { assert bs[h].addr == bs[h - 1].End(); }
    forall k, j | 0 <= k && j == k + 1 && j < |cs|
      ensures cs[j].addr == cs[k].End()
    {
      if j < h {
        assert bs[j].addr == bs[k].End();
      } else if h <= k && j < h + n {
        assert mid[j - h].addr == mid[k - h].End();
      } else if k >= h + n {
        assert bs[j - h - n + e].addr == bs[k - h - n + e].End();
      }
    }
  }

  lemma CarveTiles(bs: seq<Block>, start: int, limit: int, i: nat, sz: int)
    requires Tiles(bs, start, limit)
    requires i < |bs| && !bs[i].used && 0 <= sz && sz % 4 == 0 && 16 + sz <= bs[i].size
    ensures Tiles(Carve(bs, i, sz), start, limit)
  {
    var b, merge := bs[i], i + 1 < |bs| && !bs[i + 1].used;
    var e := if merge then i + 2 else i + 1;
    if merge { assert bs[i + 1].addr == bs[i].End(); }
    var size := if merge then b.size - sz + bs[i + 1].size else b.size - (16 + sz);
    var rest := Block(b.addr + 16 + sz, false, size, b.addr);
    var mid := [Block(b.addr, true, sz, b.prev), rest];
    assert Carve(bs, i, sz) == bs[..i] + mid + bs[e..];
    TilesReplace(bs, start, limit, i, e, mid);
  }

  /** The only words heap_alloc stores to: part of the header at cur and the header at next. */
  lemma CarveMemFrame(m: Memory, cur: Word, sz: Word, x: int)
    requires x != cur && x != cur + 4 && x != cur + 12
    requires var n := Wrap(cur + 16 + sz); x != n && x != n + 4 && x != n + 8 && x != n + 12
    ensures Load(CarveMem(m, cur, sz), x) == Load(m, x)
  {
  }

  /** The two headers heap_alloc writes, read back word by word. */
  ghost predicate CarveEffect(m: Memory, m': Memory, cur: Word, sz: Word) {
    var nb, oldSize, oldNext := cur + 16 + sz, Load(m, cur + 4), Load(m, cur + 12);
    var merge := oldNext != 0 && Load(m, oldNext) == 0;
    && Load(m', cur) == 1 && Load(m', cur + 4) == sz
    && Load(m', cur + 8) == Load(m, cur + 8) && Load(m', cur + 12) == nb
    && Load(m', nb) == 0 && Load(m', nb + 8) == cur
    && Load(m', nb + 4) == Wrap(if merge then oldSize - sz + Load(m, oldNext + 4) else oldSize - (16 + sz))
    && Load(m', nb + 12) == (if merge then Load(m, oldNext + 12) else oldNext)
  }

  lemma CarveMemEffect(m: Memory, cur: Word, sz: Word)
    requires cur + 16 + sz + 12 < TWO_32
    requires var n := Load(m, cur + 12); n == 0 || n >= cur + 16 + sz + 16
    ensures CarveEffect(m, CarveMem(m, cur, sz), cur, sz)
  {
    WrapSmall(cur + 16 + sz);
    var next: Word := cur + 16 + sz;
    CarveHead(m, m[cur := 1][cur + 4 := sz][cur + 12 := next][next := 0][next + 8 := cur], cur, next, sz);
  }

  /** After the first five stores. */
  lemma CarveHead(m: Memory, m1: Memory, cur: Word, next: Word, sz: Word)
    requires next == cur + 16 + sz && m1 == m[cur := 1][cur + 4 := sz][cur + 12 := next][next := 0][next + 8 := cur]
    ensures Load(m1, cur) == 1 && Load(m1, cur + 4) == sz && Load(m1, cur + 8) == Load(m, cur + 8)
            && Load(m1, cur + 12) == next
    ensures Load(m1, next) == 0 && Load(m1, next + 8) == cur
    ensures forall x :: x >= next + 16 ==> Load(m1, x) == Load(m, x)
  {
  }

  lemma CarveWritesHeaders(m: Memory, m': Memory, bs: seq<Block>, start: int, limit: int, i: nat, sz: Word)
    requires Represents(m, bs, start, limit)
    requires i < |bs| && !bs[i].used && sz % 4 == 0 && 16 + sz <= bs[i].size
    requires 0 <= bs[i].addr < TWO_32 && CarveEffect(m, m', bs[i].addr, sz)
    ensures var cs := Carve(bs, i, sz); HeaderAt(m', cs[i], NextOf(cs, i)) && HeaderAt(m', cs[i + 1], NextOf(cs, i + 1))
  {
    BlocksWithin(bs, start, limit, i);
    assert HeaderAt(m, bs[i], NextOf(bs, i));
    if i + 1 < |bs| {
      assert HeaderAt(m, bs[i + 1], NextOf(bs, i + 1));
      assert bs[i + 1].addr == bs[i].End();
      BlocksWithin(bs, start, limit, i + 1);
    }
  }

  lemma CarveFitsBelowNext(m: Memory, bs: seq<Block>, start: int, limit: int, i: nat, sz: Word)
    requires Represents(m, bs, start, limit)
    requires i < |bs| && 16 + sz <= bs[i].size
    ensures bs[i].addr + 16 + sz + 12 < TWO_32
    ensures var n := Load(m, bs[i].addr + 12); n == 0 || n >= bs[i].addr + 16 + sz + 16
  {
    BlocksWithin(bs, start, limit, i);
    assert HeaderAt(m, bs[i], NextOf(bs, i));
  }

  /** Nothing else is stored to, so every header away from those two is the same afterwards. */
  ghost predicate CarveFrame(m: Memory, m': Memory, cur: Word, sz: Word) {
    forall b: Block, next: int :: HeaderAt(m, b, next) && (b.addr + 16 <= cur || cur + 16 + sz + 16 <= b.addr)
      ==> HeaderAt(m', b, next)
  }

  lemma CarveMemKeepsHeaders(m: Memory, cur: Word, sz: Word)
    requires cur + 16 + sz < TWO_32
    ensures CarveFrame(m, CarveMem(m, cur, sz), cur, sz)
  {
    var m' := CarveMem(m, cur, sz);
    forall b: Block, next: int | HeaderAt(m, b, next) && (b.addr + 16 <= cur || cur + 16 + sz + 16 <= b.addr)
      ensures HeaderAt(m', b, next)
    {
      CarveMemKeepsHeader(m, cur, sz, m', b, next);
    }
  }

  lemma CarveMemKeepsHeader(m: Memory, cur: Word, sz: Word, m': Memory, b: Block, next: int)
    requires cur + 16 + sz < TWO_32 && m' == CarveMem(m, cur, sz)
    requires HeaderAt(m, b, next) && (b.addr + 16 <= cur || cur + 16 + sz + 16 <= b.addr)
    ensures HeaderAt(m', b, next)
  {
    CarveMemFrame(m, cur, sz, b.addr);
    CarveMemFrame(m, cur, sz, b.addr + 4);
    CarveMemFrame(m, cur, sz, b.addr + 8);
    CarveMemFrame(m, cur, sz, b.addr + 12);
  }

  lemma CarveRepresents(m: Memory, bs: seq<Block>, start: int, limit: int, i: nat, sz: Word)
    requires Represents(m, bs, start, limit)
    requires i < |bs| && !bs[i].used && sz % 4 == 0 && 16 + sz <= bs[i].size
    requires 0 <= bs[i].addr < TWO_32
    ensures Represents(CarveMem(m, bs[i].addr, sz), Carve(bs, i, sz), start, limit)
  {
    BlocksWithin(bs, start, limit, i);
    CarveFitsBelowNext(m, bs, start, limit, i, sz);
    CarveMemEffect(m, bs[i].addr, sz);
    CarveMemKeepsHeaders(m, bs[i].addr, sz);
    CarveHeaders(m, CarveMem(m, bs[i].addr, sz), bs, start, limit, i, sz);
  }

  lemma CarveHeaders(m: Memory, m': Memory, bs: seq<Block>, start: int, limit: int, i: nat, sz: Word)
    requires Represents(m, bs, start, limit)
    requires i < |bs| && !bs[i].used && sz % 4 == 0 && 16 + sz <= bs[i].size
    requires 0 <= bs[i].addr < TWO_32 && CarveEffect(m, m', bs[i].addr, sz) && CarveFrame(m, m', bs[i].addr, sz)
    ensures Represents(m', Carve(bs, i, sz), start, limit)
  {
    CarveTiles(bs, start, limit, i, sz);
    CarveWritesHeaders(m, m', bs, start, limit, i, sz);
    var cs := Carve(bs, i, sz);
    var d := if i + 1 < |bs| && !bs[i + 1].used then 0 else 1;
    forall k {:trigger NextOf(cs, k)} | 0 <= k < |cs|
      ensures HeaderAt(m', cs[k], NextOf(cs, k))
    {
      if k < i {
        BlocksInOrder(bs, start, limit, k, i);
        assert cs[k] == bs[k] && NextOf(cs, k) == NextOf(bs, k);
      } else if k >= i + 2 {
        BlocksInOrder(bs, start, limit, i, k - d);
        assert cs[k] == bs[k - d] && NextOf(cs, k) == NextOf(bs, k - d);
      }
    }
  }

  /** The walk's choice: the first block of the chain that passes the size test, or |bs|. */
  function FirstFit(bs: seq<Block>, sz: Word): (f: nat)
    ensures f <= |bs|
    ensures f < |bs| ==> Fits(bs[f], sz)
    ensures forall k :: 0 <= k < f ==> !Fits(bs[k], sz)
  {
    if bs == [] then 0 else if Fits(bs[0], sz) then 0 else 1 + FirstFit(bs[1..], sz)
  }

  lemma {:induction false} FirstFitIs(bs: seq<Block>, sz: Word, f: nat)
    requires f <= |bs|
    requires f < |bs| ==> Fits(bs[f], sz)
    requires forall k :: 0 <= k < f ==> !Fits(bs[k], sz)
    ensures FirstFit(bs, sz) == f
  {
    var g := FirstFit(bs, sz);
  }

  function UsedBlocks(bs: seq<Block>): set<Block> {
    set b | b in bs && b.used
  }

  /** What allocating means, whatever the block layout: exactly one new used block, everything else untouched. */
  ghost predicate AllocatedProperly(bs: seq<Block>, sz: int, ptr: int, cs: seq<Block>) {
    exists b: Block ::
      && b.used && b !in bs && b.Payload() == ptr && ptr % 4 == 0 && b.size >= sz
      && UsedBlocks(cs) == UsedBlocks(bs) + {b}
  }

  lemma {:induction false} CarveAllocates(bs: seq<Block>, start: int, limit: int, i: nat, sz: int)
    requires Tiles(bs, start, limit)
    requires i < |bs| && !bs[i].used && 0 <= sz && sz % 4 == 0 && 16 + sz <= bs[i].size
    ensures AllocatedProperly(bs, sz, bs[i].Payload(), Carve(bs, i, sz))
  {
    var cs := Carve(bs, i, sz);
    var b := cs[i];
    var d := if i + 1 < |bs| && !bs[i + 1].used then 0 else 1;
    assert b == Block(bs[i].addr, true, sz, bs[i].prev);
    forall k | 0 <= k < |bs|
      ensures bs[k] != b
    {
      if k < i { BlocksInOrder(bs, start, limit, k, i); }
      if i < k { BlocksInOrder(bs, start, limit, i, k); }
    }
    assert forall k :: 0 <= k < i ==> cs[k] == bs[k];
    assert forall k :: i + 2 <= k < |cs| ==> cs[k] == bs[k - d];
    assert forall k :: i + 2 - d <= k < |bs| ==> bs[k] == cs[k + d];
    forall x | x in UsedBlocks(bs)
      ensures x in UsedBlocks(cs)
    {
      var k :| 0 <= k < |bs| && bs[k] == x;
      if k < i { assert cs[k] == x; } else { assert cs[k + d] == x; }
    }
  }

  lemma AlignUpHonest(sz: Word)
    ensures sz <= MAX_REQUEST <==> AlignUp(sz) >= sz && AlignUp(sz) + 16 < TWO_32
    ensures sz <= MAX_REQUEST ==> AlignUp(sz) < sz + 4
    ensures AlignUp(sz) % 4 == 0
  {
  }

  /** The size test is honest (a block that passes really holds a header and sz bytes) exactly when the request is at
      most MAX_REQUEST; a larger request that passes is granted a block that cannot hold it. */
  lemma RequestHonouredIff(bs: seq<Block>, start: int, limit: int, k: nat, sz: Word)
    requires Tiles(bs, start, limit)
    requires k < |bs| && Fits(bs[k], AlignUp(sz))
    ensures bs[k].size >= 16 + AlignUp(sz) >= 16 + sz <==> sz <= MAX_REQUEST
  {
    AlignUpHonest(sz);
    BlocksWithin(bs, start, limit, k);
    var size, a := bs[k].size, AlignUp(sz);
    if sz <= MAX_REQUEST { WrapSmall(16 + a); }
  }

  /** On a fresh heap a request for 2^32 - 1 bytes aligns to zero and is granted a block of zero bytes. */
  lemma HugeRequestGetsNothing()
    ensures var bs := [Block(0x10_0000, false, 0xF_FFF0, 0)];
            && Tiles(bs, 0x10_0000, 0x20_0000)
            && FirstFit(bs, AlignUp(0xFFFF_FFFF)) == 0
            && Carve(bs, 0, AlignUp(0xFFFF_FFFF))[0] == Block(0x10_0000, true, 0, 0)
  {
    var bs := [Block(0x10_0000, false, 0xF_FFF0, 0)];
    FirstFitIs(bs, AlignUp(0xFFFF_FFFF), 0);
  }

  // ----- heap_free -----

  /** The stores heap_free makes for the block whose header is at c. */
  function FreeMem(m: Memory, c: int): Memory {
    var p := Load(m, c + 8);
    var back := p != 0 && Load(m, p) == 0;
    var m1 := if back then m[p + 12 := Load(m, c + 12)] else m;
    var m2 := if back then m1[p + 4 := Wrap(Load(m1, p + 4) + 16 + Load(m1, c + 4))] else m1;
    var cur: int := if back then p else c;
    var n := Load(m2, cur + 12);
    var fwd := n != 0 && Load(m2, n) == 0;
    var m3 := if fwd then m2[cur + 4 := Wrap(Load(m2, cur + 4) + 16 + Load(m2, n + 4))] else m2;
    var m4 := if fwd then m3[cur + 12 := Load(m3, n + 12)] else m3;
    m4[cur := 0]
  }

  /** The chain after block i is freed, merged backward when its `prev` names a free predecessor and forward when
      its successor is free. */
  function FreeChain(bs: seq<Block>, i: nat): seq<Block>
    requires i < |bs|
  {
    var back := i > 0 && !bs[i - 1].used && bs[i].prev == bs[i - 1].addr;
    var fwd := i + 1 < |bs| && !bs[i + 1].used;
    var h := if back then bs[i - 1] else bs[i];
    var size := bs[i].End() - h.Payload() + if fwd then 16 + bs[i + 1].size else 0;
    bs[..if back then i - 1 else i] + [Block(h.addr, false, size, h.prev)] + bs[if fwd then i + 2 else i + 1..]
  }

  /** What freeing means: exactly that block stops being used and all its bytes end up inside one free block. */
  ghost predicate FreedProperly(bs: seq<Block>, i: nat, cs: seq<Block>)
    requires i < |bs|
  {
    && UsedBlocks(cs) == UsedBlocks(bs) - {bs[i]}
    && exists k :: 0 <= k < |cs| && !cs[k].used && cs[k].addr <= bs[i].addr && bs[i].End() <= cs[k].End()
  }

  /** The condition a caller can check before freeing: `prev` is null, or reads as used, or is the true predecessor. */
  ghost predicate PrevTrusted(m: Memory, bs: seq<Block>, i: nat)
    requires i < |bs|
  {
    bs[i].prev == 0 || Load(m, bs[i].prev) != 0 || (i > 0 && bs[i].prev == bs[i - 1].addr)
  }

  lemma FreeTiles(bs: seq<Block>, start: int, limit: int, i: nat)
    requires Tiles(bs, start, limit)
    requires i < |bs|
    ensures Tiles(FreeChain(bs, i), start, limit)
  {
    var h := if i > 0 && !bs[i - 1].used && bs[i].prev == bs[i - 1].addr then i - 1 else i;
    var e := if i + 1 < |bs| && !bs[i + 1].used then i + 2 else i + 1;
    if h < i { assert bs[i].addr == bs[h].End(); }
    if e == i + 2 { assert bs[i + 1].addr == bs[i].End(); }
    TilesReplace(bs, start, limit, h, e, [FreeChain(bs, i)[h]]);
  }

  /** Where the blocks of the chain go: those before the merged block stay, those after it shift. */
  lemma FreeChainAt(bs: seq<Block>, i: nat, h: nat, e: nat)
    requires i < |bs|
    requires h == if i > 0 && !bs[i - 1].used && bs[i].prev == bs[i - 1].addr then i - 1 else i
    requires e == if i + 1 < |bs| && !bs[i + 1].used then i + 2 else i + 1
    ensures var cs := FreeChain(bs, i);
            && |cs| == |bs| - e + h + 1
            && cs[..h] == bs[..h] && cs[h + 1..] == bs[e..]
            && cs[h].addr == bs[h].addr && !cs[h].used
            && (forall k :: h <= k < e && k != i ==> !bs[k].used)
  {
  }

  lemma UsedOfSplit(bs: seq<Block>, h: nat, e: nat)
    requires h <= e <= |bs|
    ensures UsedBlocks(bs) == UsedBlocks(bs[..h]) + UsedBlocks(bs[h..e]) + UsedBlocks(bs[e..])
  {
    assert bs == bs[..h] + bs[h..e] + bs[e..];
  }

  lemma UsedAfterFree(bs: seq<Block>, start: int, limit: int, i: nat, h: nat, e: nat)
    requires Tiles(bs, start, limit)
    requires h <= i < e <= |bs| && bs[i].used
    requires forall k :: h <= k < e && k != i ==> !bs[k].used
    ensures UsedBlocks(bs[..h]) + UsedBlocks(bs[e..]) == UsedBlocks(bs) - {bs[i]}
  {
    UsedOfSplit(bs, h, e);
    assert UsedBlocks(bs[h..e]) == {bs[i]} by {
      assert bs[h..e][i - h] == bs[i];
    }
    forall k | 0 <= k < h ensures bs[k] != bs[i] { BlocksInOrder(bs, start, limit, k, i); }
    forall k | e <= k < |bs| ensures bs[k] != bs[i] { BlocksInOrder(bs, start, limit, i, k); }
  }

  lemma FreeFrees(bs: seq<Block>, start: int, limit: int, i: nat)
    requires Tiles(bs, start, limit)
    requires i < |bs| && bs[i].used
    ensures FreedProperly(bs, i, FreeChain(bs, i))
  {
    var cs := FreeChain(bs, i);
    var h := if i > 0 && !bs[i - 1].used && bs[i].prev == bs[i - 1].addr then i - 1 else i;
    var e := if i + 1 < |bs| && !bs[i + 1].used then i + 2 else i + 1;
    FreeChainAt(bs, i, h, e);
    if h < i { assert bs[i].addr == bs[h].End(); }
    if e == i + 2 { assert bs[i + 1].addr == bs[i].End(); }
    UsedAfterFree(bs, start, limit, i, h, e);
    UsedOfSplit(cs, h, h + 1);
    assert UsedBlocks(cs[h..h + 1]) == {};
    assert !cs[h].used && cs[h].addr <= bs[i].addr && bs[i].End() <= cs[h].End();
  }

  /** The header heap_free ends up rewriting: that of the block itself, or the one its `prev` points at. */
  function FreeHead(m: Memory, c: int): int {
    var p := Load(m, c + 8);
    if p != 0 && Load(m, p) == 0 then p else c
  }

  lemma FreeMemFrame(m: Memory, c: int, x: int)
    requires var h := FreeHead(m, c); (x != h || h != c) && x != h + 4 && x != h + 12
    ensures Load(FreeMem(m, c), x) == Load(m, x)
  {
  }

  /** The rewritten header, read back word by word. */
  ghost predicate FreeEffect(m: Memory, m': Memory, c: int) {
    var h, n := FreeHead(m, c), Load(m, c + 12);
    var fwd := n != 0 && Load(m, n) == 0;
    var size := if h == c then Load(m, c + 4) else Wrap(Load(m, h + 4) + 16 + Load(m, c + 4));
    && Load(m', h) == 0
    && Load(m', h + 4) == (if fwd then Wrap(size + 16 + Load(m, n + 4)) else size)
    && Load(m', h + 12) == (if fwd then Load(m, n + 12) else n)
  }

  lemma FreeMemEffect(m: Memory, c: int)
    requires Load(m, c) != 0 && (FreeHead(m, c) == c || FreeHead(m, c) <= c - 16)
    requires var n := Load(m, c + 12); n == 0 || n >= c + 16
    ensures FreeEffect(m, FreeMem(m, c), c)
  {
  }

  lemma FreeKeepsHeader(m: Memory, c: int, b: Block, next: int)
    requires HeaderAt(m, b, next)
    requires var h := FreeHead(m, c); b.addr + 16 <= h || h + 16 <= b.addr
    ensures HeaderAt(FreeMem(m, c), b, next)
  {
    FreeMemFrame(m, c, b.addr);
    FreeMemFrame(m, c, b.addr + 4);
    FreeMemFrame(m, c, b.addr + 8);
    FreeMemFrame(m, c, b.addr + 12);
  }

  lemma NextBeyond(m: Memory, bs: seq<Block>, start: int, limit: int, i: nat)
    requires Represents(m, bs, start, limit) && i < |bs|
    ensures HeaderAt(m, bs[i], NextOf(bs, i))
    ensures start <= bs[i].addr && bs[i].End() <= limit
    ensures i + 1 < |bs| ==> NextOf(bs, i) == bs[i].End() && bs[i].End() + 16 <= limit
    ensures i + 1 < |bs| ==> HeaderAt(m, bs[i + 1], NextOf(bs, i + 1))
  {
    BlocksWithin(bs, start, limit, i);
    var n := NextOf(bs, i);
    if i + 1 < |bs| {
      BlocksWithin(bs, start, limit, i + 1);
      var n' := NextOf(bs, i + 1);
      assert bs[i + 1].addr == bs[i].End();
    }
  }

  /** The merged block's successor and size. */
  lemma FreeChainHead(bs: seq<Block>, start: int, limit: int, i: nat, h: nat)
    requires Tiles(bs, start, limit)
    requires i < |bs|
    requires h == if i > 0 && !bs[i - 1].used && bs[i].prev == bs[i - 1].addr then i - 1 else i
    ensures var cs, fwd := FreeChain(bs, i), i + 1 < |bs| && !bs[i + 1].used;
            && h < |cs|
            && NextOf(cs, h) == (if fwd then NextOf(bs, i + 1) else NextOf(bs, i))
            && cs[h].addr == bs[h].addr && !cs[h].used && cs[h].prev == bs[h].prev
            && cs[h].size == (if h == i then bs[i].size else bs[h].size + 16 + bs[i].size) + (if fwd
                  then 16 + bs[i + 1].size else 0)
            && 0 <= cs[h].size < TWO_32
  {
    FreeTiles(bs, start, limit, i);
    if h < i { assert bs[i].addr == bs[h].End(); }
    BlocksWithin(FreeChain(bs, i), start, limit, h);
  }

  lemma FreeWritesHeader(m: Memory, m': Memory, bs: seq<Block>, start: int, limit: int, i: nat, h: nat)
    requires Represents(m, bs, start, limit)
    requires i < |bs| && bs[i].used && PrevTrusted(m, bs, i)
    requires h == if i > 0 && !bs[i - 1].used && bs[i].prev == bs[i - 1].addr then i - 1 else i
    requires FreeHead(m, bs[i].addr) == bs[h].addr && FreeEffect(m, m', bs[i].addr)
    requires Load(m', bs[h].addr + 8) == Load(m, bs[h].addr + 8)
    requires h < |FreeChain(bs, i)|
    ensures var cs := FreeChain(bs, i); HeaderAt(m', cs[h], NextOf(cs, h))
  {
    NextBeyond(m, bs, start, limit, i);
    NextBeyond(m, bs, start, limit, h);
    FreeChainHead(bs, start, limit, i, h);
    BlocksWithin(bs, start, limit, i);
    var b := FreeChain(bs, i)[h];
    var next := NextOf(FreeChain(bs, i), h);
    var size := if h == i then bs[i].size else bs[h].size + 16 + bs[i].size;
    WrapSmall(size);
    WrapSmall(b.size);
    if h < i { assert bs[h].addr != bs[i].addr by { BlocksInOrder(bs, start, limit, h, i); } }
    assert Load(m', b.addr + 4) == b.size;
    FreeWritesNext(m, m', bs, start, limit, i, h, b.addr, next);
  }

  lemma FreeWritesNext(m: Memory, m': Memory, bs: seq<Block>, start: int, limit: int, i: nat, h: nat, at: int,
                       next: int)
    requires Represents(m, bs, start, limit)
    requires i < |bs| && bs[i].used && PrevTrusted(m, bs, i)
    requires h == if i > 0 && !bs[i - 1].used && bs[i].prev == bs[i - 1].addr then i - 1 else i
    requires FreeHead(m, bs[i].addr) == bs[h].addr && FreeEffect(m, m', bs[i].addr)
    requires h < |FreeChain(bs, i)| && at == FreeChain(bs, i)[h].addr && next == NextOf(FreeChain(bs, i), h)
    ensures Load(m', at + 12) == next
  {
    NextBeyond(m, bs, start, limit, i);
    NextBeyond(m, bs, start, limit, h);
    FreeChainHead(bs, start, limit, i, h);
    BlocksWithin(bs, start, limit, i);
    if h < i { assert bs[h].addr != bs[i].addr by { BlocksInOrder(bs, start, limit, h, i); } }
  }

  lemma FreeHeadIs(m: Memory, bs: seq<Block>, start: int, limit: int, i: nat, h: nat)
    requires Represents(m, bs, start, limit)
    requires i < |bs| && bs[i].used && PrevTrusted(m, bs, i)
    requires h == if i > 0 && !bs[i - 1].used && bs[i].prev == bs[i - 1].addr then i - 1 else i
    ensures FreeHead(m, bs[i].addr) == bs[h].addr
    ensures h < i ==> bs[h].End() <= bs[i].addr
    ensures FreeEffect(m, FreeMem(m, bs[i].addr), bs[i].addr)
    ensures Load(FreeMem(m, bs[i].addr), bs[h].addr + 8) == Load(m, bs[h].addr + 8)
  {
    NextBeyond(m, bs, start, limit, i);
    if i > 0 {
      NextBeyond(m, bs, start, limit, i - 1);
      BlocksInOrder(bs, start, limit, i - 1, i);
    }
    FreeMemEffect(m, bs[i].addr);
    FreeMemFrame(m, bs[i].addr, bs[h].addr + 8);
  }

  /** Blocks away from the merged one keep their headers, at the positions FreeChain moves them to. */
  lemma FreeKeepsOthers(m: Memory, bs: seq<Block>, start: int, limit: int, i: nat, h: nat, e: nat, k: nat)
    requires Represents(m, bs, start, limit)
    requires i < |bs|
    requires h == if i > 0 && !bs[i - 1].used && bs[i].prev == bs[i - 1].addr then i - 1 else i
    requires FreeHead(m, bs[i].addr) == bs[h].addr
    requires e == if i + 1 < |bs| && !bs[i + 1].used then i + 2 else i + 1
    requires k < |FreeChain(bs, i)| && k != h
    ensures var cs := FreeChain(bs, i); HeaderAt(FreeMem(m, bs[i].addr), cs[k], NextOf(cs, k))
  {
    var cs := FreeChain(bs, i);
    FreeChainAt(bs, i, h, e);
    var o := if k < h then k else k - h - 1 + e;
    if k < h {
      BlocksInOrder(bs, start, limit, o, h);
      assert cs[k] == cs[..h][k] == bs[k];
    } else {
      BlocksInOrder(bs, start, limit, h, o);
      assert cs[k] == cs[h + 1..][k - h - 1] == bs[e..][k - h - 1] == bs[o];
      assert k + 1 < |cs| ==> cs[k + 1] == cs[h + 1..][k - h] == bs[e..][k - h] == bs[o + 1];
    }
    assert NextOf(cs, k) == NextOf(bs, o);
    FreeKeepsHeader(m, bs[i].addr, bs[o], NextOf(bs, o));
  }

  /** With a trustworthy `prev`, heap_free turns the chain into FreeChain in all four merge combinations. */
  lemma FreeRepresents(m: Memory, bs: seq<Block>, start: int, limit: int, i: nat)
    requires Represents(m, bs, start, limit)
    requires i < |bs| && bs[i].used && PrevTrusted(m, bs, i)
    ensures Represents(FreeMem(m, bs[i].addr), FreeChain(bs, i), start, limit)
  {
    var m', cs := FreeMem(m, bs[i].addr), FreeChain(bs, i);
    var h := if i > 0 && !bs[i - 1].used && bs[i].prev == bs[i - 1].addr then i - 1 else i;
    var e := if i + 1 < |bs| && !bs[i + 1].used then i + 2 else i + 1;
    FreeTiles(bs, start, limit, i);
    FreeHeadIs(m, bs, start, limit, i, h);
    FreeChainAt(bs, i, h, e);
    forall k {:trigger NextOf(cs, k)} | 0 <= k < |cs|
      ensures HeaderAt(m', cs[k], NextOf(cs, k))
    {
      if k == h {
        FreeWritesHeader(m, m', bs, start, limit, i, h);
      } else {
        FreeKeepsOthers(m, bs, start, limit, i, h, e, k);
      }
    }
  }

  /** Freeing never touches a payload byte of a block that stays in use. */
  lemma FreeKeepsPayloads(m: Memory, bs: seq<Block>, start: int, limit: int, i: nat, j: nat, x: int)
    requires Represents(m, bs, start, limit)
    requires i < |bs| && bs[i].used && PrevTrusted(m, bs, i)
    requires j < |bs| && j != i && bs[j].used && bs[j].Payload() <= x < bs[j].End()
    ensures Load(FreeMem(m, bs[i].addr), x) == Load(m, x)
  {
    var h := if i > 0 && !bs[i - 1].used && bs[i].prev == bs[i - 1].addr then i - 1 else i;
    FreeHeadIs(m, bs, start, limit, i, h);
    if j < h { BlocksInOrder(bs, start, limit, j, h); } else { BlocksInOrder(bs, start, limit, h, j); }
    FreeMemFrame(m, bs[i].addr, x);
  }

  /** ... and neither does allocating, whichever block was in use. */
  lemma CarveKeepsPayloads(m: Memory, bs: seq<Block>, start: int, limit: int, i: nat, sz: Word, j: nat, x: int)
    requires Represents(m, bs, start, limit)
    requires i < |bs| && !bs[i].used && 16 + sz <= bs[i].size && 0 <= bs[i].addr < TWO_32
    requires j < |bs| && bs[j].used && bs[j].Payload() <= x < bs[j].End()
    ensures Load(CarveMem(m, bs[i].addr, sz), x) == Load(m, x)
  {
    BlocksWithin(bs, start, limit, i);
    if j < i { BlocksInOrder(bs, start, limit, j, i); } else { BlocksInOrder(bs, start, limit, i, j); }
    CarveMemFrame(m, bs[i].addr, sz, x);
  }

  // ----- Exactly when heap_free is right -----

  /** One link of the argument below, on the words involved: q's block ends at e, before c; the free rewrote the words
      p + 4 and p + 12 with p not the address of the block that ends at c. */
  lemma UntrustedLinkWords(m: Memory, m': Memory, c: int, p: int, q: int, limit: int)
    requires FreeEffect(m, m', c) && FreeHead(m, c) == p && p <= c - 16
    requires q + 4 == p + 4 || q + 4 == p + 12 || Load(m', q + 4) == Load(m, q + 4)
    requires q + 12 == p + 4 || q + 12 == p + 12 || Load(m', q + 12) == Load(m, q + 12)
    requires var e := q + 16 + Load(m, q + 4); Load(m, q + 12) == e && 0 < e <= c && (e < c || p != q)
    requires 0 < q && limit < TWO_32
    requires var n, cEnd := Load(m, c + 12), c + 16 + Load(m, c + 4);
             && (n == 0 || n == cEnd) && (n == 0 ==> cEnd == limit) && cEnd <= limit
             && var nEnd := n + 16 + Load(m, n + 4);
                (n != 0 ==> nEnd <= limit && (Load(m, n + 12) == nEnd || (Load(m, n + 12) == 0 && nEnd == limit)))
    ensures var size, next := Load(m', q + 4), Load(m', q + 12);
            && !(next == 0 && q + 16 + size == limit)
            && (next == q + 16 + size ==> next == Load(m, q + 12))
  {
    var s, n := Load(m, p + 4), Load(m, c + 12);
    var fwd := n != 0 && Load(m, n) == 0;
    var grow := 16 + Load(m, c + 4) + if fwd then 16 + Load(m, n + 4) else 0;
    WrapWrap(s + 16 + Load(m, c + 4), if fwd then 16 + Load(m, n + 4) else 0);
    assert Load(m', p + 4) == Wrap(s + grow);
    if q == p {
      WrapSmall(s + grow);
    } else if q + 8 == p {
      assert q + 12 == p + 4 && s == Load(m, q + 12);
    } else if q == p + 8 {
    }
  }

  lemma UntrustedFreeWords(m: Memory, c: int, p: int, q: int)
    requires Load(m, c) != 0 && FreeHead(m, c) == p && p <= c - 16
    requires var n := Load(m, c + 12); n == 0 || n >= c + 16
    ensures var m' := FreeMem(m, c);
            && FreeEffect(m, m', c)
            && (q + 4 == p + 4 || q + 4 == p + 12 || Load(m', q + 4) == Load(m, q + 4))
            && (q + 12 == p + 4 || q + 12 == p + 12 || Load(m', q + 12) == Load(m, q + 12))
  {
    FreeMemEffect(m, c);
    if q + 4 != p + 4 && q + 4 != p + 12 { FreeMemFrame(m, c, q + 4); }
    if q + 12 != p + 4 && q + 12 != p + 12 { FreeMemFrame(m, c, q + 12); }
  }

  /** An untrusted free leaves the link from block j to block j + 1 as it was, or broken. */
  lemma UntrustedLink(m: Memory, bs: seq<Block>, start: int, limit: int, i: nat, j: nat)
    requires Represents(m, bs, start, limit)
    requires j < i < |bs| && bs[i].used && !PrevTrusted(m, bs, i)
    requires 0 < bs[i].prev <= bs[i].addr - 16
    ensures var m', q := FreeMem(m, bs[i].addr), bs[j].addr;
            var size, next := Load(m', q + 4), Load(m', q + 12);
            && !(next == 0 && q + 16 + size == limit)
            && (next == q + 16 + size ==> next == bs[j + 1].addr)
  {
    var c, p, q := bs[i].addr, bs[i].prev, bs[j].addr;
    NextBeyond(m, bs, start, limit, i);
    NextBeyond(m, bs, start, limit, j);
    BlocksInOrder(bs, start, limit, j, i);
    if j + 1 < i { BlocksInOrder(bs, start, limit, j + 1, i); }
    if i + 1 < |bs| { NextBeyond(m, bs, start, limit, i + 1); }
    UntrustedFreeWords(m, c, p, q);
    UntrustedLinkWords(m, FreeMem(m, c), c, p, q, limit);
  }

  /** After an untrusted free, whatever chain memory still holds, the block is in it and in use. */
  lemma {:induction false} UntrustedFreeDoesNotFree(m: Memory, bs: seq<Block>, start: int, limit: int, i: nat,
                                                    cs: seq<Block>, j: nat)
    requires Represents(m, bs, start, limit)
    requires i < |bs| && bs[i].used && !PrevTrusted(m, bs, i)
    requires 0 < bs[i].prev <= bs[i].addr - 16
    requires Represents(FreeMem(m, bs[i].addr), cs, start, limit)
    requires j <= i
    ensures j < |cs| && cs[j].addr == bs[j].addr
    decreases j
  {
    if j > 0 {
      UntrustedFreeDoesNotFree(m, bs, start, limit, i, cs, j - 1);
      var next := NextOf(cs, j - 1);
      UntrustedLink(m, bs, start, limit, i, j - 1);
      if j < |cs| {
        assert cs[j].addr == cs[j - 1].End();
      }
    }
  }

  /** heap_free does its job (the chain still tiles the heap, exactly this block stopped being used, and its bytes lie
      in one free block) if and only if the block's `prev` was null, read as used, or named the true predecessor. */
  lemma FreeCorrectIffPrevTrusted(m: Memory, bs: seq<Block>, start: int, limit: int, i: nat)
    requires Represents(m, bs, start, limit)
    requires i < |bs| && bs[i].used
    requires bs[i].prev == 0 || 0 < bs[i].prev <= bs[i].addr - 16
    ensures (exists cs :: Represents(FreeMem(m, bs[i].addr), cs, start, limit) && FreedProperly(bs, i, cs))
            <==> PrevTrusted(m, bs, i)
  {
    var c := bs[i].addr;
    if PrevTrusted(m, bs, i) {
      FreeRepresents(m, bs, start, limit, i);
      FreeFrees(bs, start, limit, i);
    } else {
      forall cs | Represents(FreeMem(m, c), cs, start, limit)
        ensures !FreedProperly(bs, i, cs)
      {
        UntrustedFreeDoesNotFree(m, bs, start, limit, i, cs, i);
        UntrustedBlockStaysUsed(m, bs, start, limit, i, cs);
      }
    }
  }

  lemma UntrustedBlockStaysUsed(m: Memory, bs: seq<Block>, start: int, limit: int, i: nat, cs: seq<Block>)
    requires Represents(m, bs, start, limit)
    requires i < |bs| && bs[i].used && !PrevTrusted(m, bs, i)
    requires 0 < bs[i].prev <= bs[i].addr - 16
    requires Represents(FreeMem(m, bs[i].addr), cs, start, limit)
    requires i < |cs| && cs[i].addr == bs[i].addr
    ensures cs[i].used && !FreedProperly(bs, i, cs)
  {
    var next, next' := NextOf(bs, i), NextOf(cs, i);
    FreeMemFrame(m, bs[i].addr, bs[i].addr);
    assert cs[i].used;
    if UsedBlocks(cs) == UsedBlocks(bs) - {bs[i]} {
      assert cs[i] in UsedBlocks(cs);
      var k :| 0 <= k < |bs| && bs[k] == cs[i];
      assert k != i;
      if k < i { BlocksInOrder(bs, start, limit, k, i); } else { BlocksInOrder(bs, start, limit, i, k); }
    }
  }

  // ----- The allocator itself -----

  /** The used block whose payload starts at ptr, or |bs|. */
  function IndexOf(bs: seq<Block>, ptr: int): (i: nat)
    ensures i <= |bs|
    ensures i < |bs| ==> bs[i].used && bs[i].Payload() == ptr
    ensures i == |bs| ==> forall k :: 0 <= k < |bs| ==> !(bs[k].used && bs[k].Payload() == ptr)
  {
    if bs == [] then 0 else if bs[0].used && bs[0].Payload() == ptr then 0 else 1 + IndexOf(bs[1..], ptr)
  }

  lemma CarvePrevBelow(bs: seq<Block>, i: nat, sz: int)
    requires PrevBelow(bs) && i < |bs| && 0 <= sz && 0 < bs[i].addr
    ensures PrevBelow(Carve(bs, i, sz))
  {
    var cs := Carve(bs, i, sz);
    var d := if i + 1 < |bs| && !bs[i + 1].used then 0 else 1;
    assert forall k :: 0 <= k < i ==> cs[k] == bs[k];
    assert forall k :: i + 2 <= k < |cs| ==> cs[k] == bs[k - d];
  }

  lemma FreePrevBelow(bs: seq<Block>, i: nat)
    requires PrevBelow(bs) && i < |bs|
    ensures PrevBelow(FreeChain(bs, i))
  {
    var cs := FreeChain(bs, i);
    var h := if i > 0 && !bs[i - 1].used && bs[i].prev == bs[i - 1].addr then i - 1 else i;
    var e := if i + 1 < |bs| && !bs[i + 1].used then i + 2 else i + 1;
    assert forall k :: 0 <= k < h ==> cs[k] == bs[k];
    assert forall k :: h < k < |cs| ==> cs[k] == bs[k - h - 1 + e];
  }

  /** What heap_alloc(size) returns, and the memory and chain it leaves behind: the first block that passes the size
      test is carved; the chain is only meaningful for honest requests. */
  function AllocPtr(bs: seq<Block>, size: Word): int {
    var f := FirstFit(bs, AlignUp(size));
    if f < |bs| then bs[f].Payload() else 0
  }

  function AllocMem(m: Memory, bs: seq<Block>, size: Word): Memory {
    var f := FirstFit(bs, AlignUp(size));
    if f < |bs| then CarveMem(m, Wrap(bs[f].addr), AlignUp(size)) else m
  }

  function AllocChain(bs: seq<Block>, size: Word): seq<Block> {
    var f := FirstFit(bs, AlignUp(size));
    if f < |bs| && size <= MAX_REQUEST then Carve(bs, f, AlignUp(size)) else bs
  }

  /** Every word of every payload in use has the same value in both memories. */
  ghost predicate UntouchedPayloads(m: Memory, bs: seq<Block>, m': Memory) {
    forall j, x :: 0 <= j < |bs| && bs[j].used && bs[j].Payload() <= x < bs[j].End() ==> Load(m', x) == Load(m, x)
  }

  lemma AllocKeepsChain(m: Memory, bs: seq<Block>, start: int, limit: int, size: Word)
    requires Represents(m, bs, start, limit) && PrevBelow(bs) && size <= MAX_REQUEST
    ensures Represents(AllocMem(m, bs, size), AllocChain(bs, size), start, limit) && PrevBelow(AllocChain(bs, size))
  {
    var a, i := AlignUp(size), FirstFit(bs, AlignUp(size));
    AlignUpHonest(size);
    WrapSmall(16 + a);
    if i < |bs| {
      BlocksWithin(bs, start, limit, i);
      WrapSmall(bs[i].addr);
      CarveRepresents(m, bs, start, limit, i, a);
      CarvePrevBelow(bs, i, a);
    }
  }

  lemma AllocMemIs(m: Memory, bs: seq<Block>, size: Word, f: nat)
    requires f == FirstFit(bs, AlignUp(size)) < |bs| && 0 <= bs[f].addr < TWO_32
    ensures AllocMem(m, bs, size) == CarveMem(m, bs[f].addr, AlignUp(size))
  {
    WrapSmall(bs[f].addr);
  }

  /** Null comes back exactly when no free block holds the aligned request and a header, and then nothing changed;
      otherwise the caller gets a new, aligned, large enough block, the chain still tiles the heap, and every block and
      payload word in use is untouched. */
  lemma HonestAllocOutcome(m: Memory, bs: seq<Block>, start: int, limit: int, size: Word)
    requires Represents(m, bs, start, limit) && PrevBelow(bs) && size <= MAX_REQUEST
    ensures var ptr, m', bs' := AllocPtr(bs, size), AllocMem(m, bs, size), AllocChain(bs, size);
            && Represents(m', bs', start, limit) && PrevBelow(bs')
            && (ptr == 0 <==> forall k :: 0 <= k < |bs| ==> bs[k].used || bs[k].size < AlignUp(size) + 16)
            && (ptr == 0 ==> m' == m && bs' == bs)
            && (ptr != 0 ==> AllocatedProperly(bs, size, ptr, bs'))
            && UntouchedPayloads(m, bs, m')
  {
    var a, i := AlignUp(size), FirstFit(bs, AlignUp(size));
    AlignUpHonest(size);
    WrapSmall(16 + a);
    AllocKeepsChain(m, bs, start, limit, size);
    if i < |bs| {
      Granted(m, bs, start, limit, size, i);
    } else {
      forall k | 0 <= k < |bs| ensures bs[k].used || bs[k].size < a + 16 { assert !Fits(bs[k], a); }
    }
  }

  lemma Granted(m: Memory, bs: seq<Block>, start: int, limit: int, size: Word, i: nat)
    requires Represents(m, bs, start, limit) && size <= MAX_REQUEST && i == FirstFit(bs, AlignUp(size)) < |bs|
    ensures !bs[i].used && bs[i].size >= AlignUp(size) + 16 && AllocPtr(bs, size) != 0
    ensures AllocatedProperly(bs, size, AllocPtr(bs, size), AllocChain(bs, size))
    ensures UntouchedPayloads(m, bs, AllocMem(m, bs, size))
  {
    var a := AlignUp(size);
    AlignUpHonest(size);
    WrapSmall(16 + a);
    assert Fits(bs[i], a);
    BlocksWithin(bs, start, limit, i);
    WrapSmall(bs[i].addr);
    CarveAllocates(bs, start, limit, i, a);
    forall j, x | 0 <= j < |bs| && bs[j].used && bs[j].Payload() <= x < bs[j].End()
      ensures Load(CarveMem(m, bs[i].addr, a), x) == Load(m, x)
    {
      CarveKeepsPayloads(m, bs, start, limit, i, a, j, x);
    }
  }

  /** A request beyond MAX_REQUEST that does not come back null was granted a block that cannot hold it. */
  lemma DishonestAllocOutcome(bs: seq<Block>, start: int, limit: int, size: Word, k: nat)
    requires Tiles(bs, start, limit) && size > MAX_REQUEST && k < |bs|
    ensures bs[k].size < size
    ensures AllocPtr(bs, size) == 0 <==> forall k :: 0 <= k < |bs| ==> !Fits(bs[k], AlignUp(size))
  {
    BlocksWithin(bs, start, limit, k);
    var f := FirstFit(bs, AlignUp(size));
    if f < |bs| { BlocksWithin(bs, start, limit, f); assert Fits(bs[f], AlignUp(size)); }
  }

  class KernelHeap {
    var mem: Memory
    var heapStart: Word
    var heapSize: Word
    /** The blocks the walk from heapStart meets. */
    ghost var chain: seq<Block>

    ghost predicate Valid()
      reads this
    {
      Represents(mem, chain, heapStart, heapStart + heapSize) && PrevBelow(chain)
    }

    /** heap_init: one free block spanning the region sbrk handed out. */
    constructor (m: Memory, start: Word, size: Word)
      requires 0 < start && start % 4 == 0 && 16 <= size && start + size < TWO_32
      ensures Valid() && heapStart == start && heapSize == size
      ensures chain == [Block(start, false, size - 16, 0)]
    {
      heapSize := size;
      heapStart := start;
      mem := m[start := 0][start + 4 := size - 16][start + 8 := 0][start + 12 := 0];
      chain := [Block(start, false, size - 16, 0)];
    }

    /** The stores of heap_alloc on the block it settles on. */
    method Split(curBlock: Word, sz: Word)
      modifies this`mem
      ensures mem == CarveMem(old(mem), curBlock, sz)
    {
      var oldSize: int := Load(mem, curBlock + 4);
      var oldNext: int := Load(mem, curBlock + 12);
      mem := mem[curBlock := 1][curBlock + 4 := sz][curBlock + 12 := Wrap(curBlock + 16 + sz)];
      var nextBlock: int := Load(mem, curBlock + 12);
      mem := mem[nextBlock := 0][nextBlock + 8 := curBlock];
      if oldNext == 0 || Load(mem, oldNext) != 0 {
        mem := mem[nextBlock + 12 := oldNext];
        mem := mem[nextBlock + 4 := Wrap(oldSize - (16 + sz))];
      } else {
        mem := mem[nextBlock + 12 := Load(mem, oldNext + 12)];
        mem := mem[nextBlock + 4 := Wrap(oldSize - sz + Load(mem, oldNext + 4))];
      }
    }

    /** The walk of heap_alloc: the header address of the first block that passes the size test, or null. */
    method Walk(sz: Word) returns (curBlock: Word, ghost i: nat)
      requires Valid()
      ensures i == FirstFit(chain, sz)
      ensures var f := FirstFit(chain, sz); if f < |chain| then curBlock == chain[f].addr > 0 else curBlock == 0
    {
      curBlock := heapStart;
      i := 0;
      while true
        invariant i < |chain| && curBlock == chain[i].addr
        invariant forall k :: 0 <= k < i ==> !Fits(chain[k], sz)
        decreases |chain| - i
      {
        NextBeyond(mem, chain, heapStart, heapStart + heapSize, i);
        if Load(mem, curBlock) == 0 {
          if Load(mem, curBlock + 4) >= Wrap(16 + sz) {
            FirstFitIs(chain, sz, i);
            return;
          }
        }
        curBlock := Load(mem, curBlock + 12);
        i := i + 1;
        if curBlock == 0 {
          FirstFitIs(chain, sz, i);
          return;
        }
      }
    }

    /** heap_alloc: the walk settles on the first block that passes the size test, which is then split. */
    method HeapAlloc(size: Word) returns (ptr: Word)
      requires Valid()
      modifies this`mem, this`chain
      ensures ptr == AllocPtr(old(chain), size)
      ensures mem == AllocMem(old(mem), old(chain), size) && chain == AllocChain(old(chain), size)
      ensures ptr == 0 || size <= MAX_REQUEST ==> Valid()
    {
      if size <= MAX_REQUEST {
        AllocKeepsChain(mem, chain, heapStart, heapStart + heapSize, size);
      }
      var sz: Word := AlignUp(size);
      var curBlock: Word, i := Walk(sz);
      if curBlock == 0 {
        return 0;
      }
      assert chain[i].End() < TWO_32 by { BlocksWithin(chain, heapStart, heapStart + heapSize, i); }
      AllocMemIs(mem, chain, size, i);
      Split(curBlock, sz);
      chain := AllocChain(chain, size);
      return curBlock + 16;
    }

    /** The stores of heap_free on the header in front of the pointer. */
    method Release(c: int)
      modifies this`mem
      ensures mem == FreeMem(old(mem), c)
    {
      var curBlock := c;
      var prev: int := Load(mem, curBlock + 8);
      if prev != 0 && Load(mem, prev) == 0 {
        mem := mem[prev + 12 := Load(mem, curBlock + 12)];
        mem := mem[prev + 4 := Wrap(Load(mem, prev + 4) + 16 + Load(mem, curBlock + 4))];
        curBlock := prev;
      }
      var next: int := Load(mem, curBlock + 12);
      if next != 0 && Load(mem, next) == 0 {
        mem := mem[curBlock + 4 := Wrap(Load(mem, curBlock + 4) + 16 + Load(mem, next + 4))];
        mem := mem[curBlock + 12 := Load(mem, next + 12)];
      }
      mem := mem[curBlock := 0];
    }

    /** heap_free of a block in use. */
    method HeapFree(ptr: int)
      requires Valid() && IndexOf(chain, ptr) < |chain|
      modifies this`mem, this`chain
      ensures mem == FreeMem(old(mem), ptr - 16)
      ensures var i := IndexOf(old(chain), ptr);
              chain == FreedChain(old(mem), old(chain), i) && (PrevTrusted(old(mem), old(chain), i) ==> Valid())
    {
      ghost var bs := FreedChain(mem, chain, IndexOf(chain, ptr));
      FreeOutcome(mem, chain, heapStart, heapStart + heapSize, IndexOf(chain, ptr), bs);
      Release(ptr - 16);
      chain := bs;
    }
  }

  ghost function FreedChain(m: Memory, bs: seq<Block>, i: nat): seq<Block>
    requires i < |bs|
  {
    if PrevTrusted(m, bs, i) then FreeChain(bs, i) else bs
  }

  lemma FreeOutcome(m: Memory, bs: seq<Block>, start: int, limit: int, i: nat, cs: seq<Block>)
    requires Represents(m, bs, start, limit) && PrevBelow(bs) && i < |bs| && bs[i].used && cs == FreedChain(m, bs, i)
    ensures PrevTrusted(m, bs, i) ==> Represents(FreeMem(m, bs[i].addr), cs, start, limit) && PrevBelow(cs)
  {
    if PrevTrusted(m, bs, i) {
      FreeRepresents(m, bs, start, limit, i);
      FreePrevBelow(bs, i);
    }
  }
}
