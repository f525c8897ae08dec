/** Whole runs of the kernel heap: what every legal run keeps, and LIFO runs, which are always legal. */
module HeapRuns {
  import opened Machine
  import opened Heap

  // ----- Runs -----

  /** One kernel action on the heap: a request, a release, or a store into memory the caller owns. */
  datatype Op = Alloc(sz: Word) | Free(ptr: int) | Store(at: int, v: Word)

  datatype State = State(mem: Memory, chain: seq<Block>)

  predicate Owned(bs: seq<Block>, at: int) {
    at % 4 == 0 && exists k :: 0 <= k < |bs| && bs[k].used && bs[k].Payload() <= at < bs[k].End()
  }

  /** What a caller may do: any honest request; freeing what is in use, with a trusted `prev`; storing into owned
      words. */
  ghost predicate Legal(s: State, op: Op) {
    match op
    case Alloc(sz) => sz <= MAX_REQUEST
    case Free(ptr) => IndexOf(s.chain, ptr) < |s.chain| && PrevTrusted(s.mem, s.chain, IndexOf(s.chain, ptr))
    case Store(at, v) => Owned(s.chain, at)
  }

  function Step(s: State, op: Op): State {
    match op
    case Alloc(sz) => State(AllocMem(s.mem, s.chain, sz), AllocChain(s.chain, sz))
    case Free(ptr) =>
      var i := IndexOf(s.chain, ptr);
      if i < |s.chain| then State(FreeMem(s.mem, s.chain[i].addr), FreeChain(s.chain, i)) else s
    case Store(at, v) => s.(mem := s.mem[at := v])
  }

  function Run(s: State, ops: seq<Op>): State
    decreases |ops|
  {
    if ops == [] then s else Run(Step(s, ops[0]), ops[1..])
  }

  ghost predicate LegalRun(s: State, ops: seq<Op>)
    decreases |ops|
  {
    ops == [] || (Legal(s, ops[0]) && LegalRun(Step(s, ops[0]), ops[1..]))
  }

  ghost predicate Inv(s: State, start: int, limit: int) {
    Represents(s.mem, s.chain, start, limit) && PrevBelow(s.chain)
  }

  lemma StoreRepresents(m: Memory, bs: seq<Block>, start: int, limit: int, at: int, v: Word)
    requires Represents(m, bs, start, limit) && Owned(bs, at)
    ensures Represents(m[at := v], bs, start, limit)
  {
    var o :| 0 <= o < |bs| && bs[o].used && bs[o].Payload() <= at < bs[o].End();
    forall k {:trigger NextOf(bs, k)} | 0 <= k < |bs|
      ensures HeaderAt(m[at := v], bs[k], NextOf(bs, k))
    {
      if k < o { BlocksInOrder(bs, start, limit, k, o); }
      if o < k { BlocksInOrder(bs, start, limit, o, k); }
      assert HeaderAt(m, bs[k], NextOf(bs, k));
    }
  }

  /** The chain of a state is determined by its memory, so the `chain` component adds nothing to a state. */
  lemma {:induction false} ChainIsUnique(m: Memory, bs: seq<Block>, cs: seq<Block>, start: int, limit: int, k: nat)
    requires Represents(m, bs, start, limit) && Represents(m, cs, start, limit)
    requires k < |bs|
    ensures k < |cs| && bs[k] == cs[k] && (k + 1 == |bs| <==> k + 1 == |cs|)
    decreases k
  {
    if k > 0 { ChainIsUnique(m, bs, cs, start, limit, k - 1); }
    var next := NextOf(bs, k);
    if k < |cs| {
      var next' := NextOf(cs, k);
      if k > 0 { assert bs[k].addr == bs[k - 1].End() && cs[k].addr == cs[k - 1].End(); }
      if k + 1 < |bs| { BlocksWithin(bs, start, limit, k + 1); }
      if k + 1 < |cs| { BlocksWithin(cs, start, limit, k + 1); }
    }
  }

  /** A block outside the action keeps its place in the chain and every word of its payload. */
  lemma StepKeepsBlock(s: State, op: Op, start: int, limit: int, j: nat, x: int)
    requires Inv(s, start, limit) && Legal(s, op)
    requires j < |s.chain| && s.chain[j].used && s.chain[j].Payload() <= x < s.chain[j].End()
    requires op != Free(s.chain[j].Payload())
    requires op.Store? ==> op.at != x
    ensures s.chain[j] in UsedBlocks(Step(s, op).chain) && Load(Step(s, op).mem, x) == Load(s.mem, x)
  {
    var b := s.chain[j];
    assert b in UsedBlocks(s.chain);
    match op
    case Alloc(sz) =>
      HonestAllocOutcome(s.mem, s.chain, start, limit, sz);
    case Free(ptr) =>
      var i := IndexOf(s.chain, ptr);
      FreeFrees(s.chain, start, limit, i);
      FreeKeepsPayloads(s.mem, s.chain, start, limit, i, j, x);
    case Store(at, v) =>
  }

  lemma StepKeepsInv(s: State, op: Op, start: int, limit: int)
    requires Inv(s, start, limit) && Legal(s, op)
    ensures Inv(Step(s, op), start, limit)
  {
    match op
    case Alloc(sz) =>
      HonestAllocOutcome(s.mem, s.chain, start, limit, sz);
    case Free(ptr) =>
      var i := IndexOf(s.chain, ptr);
      FreeRepresents(s.mem, s.chain, start, limit, i);
      FreePrevBelow(s.chain, i);
    case Store(at, v) =>
      StoreRepresents(s.mem, s.chain, start, limit, at, v);
  }

  /** Over every legal run the chain tiles the heap exactly and its bytes always add up. */
  lemma {:induction false} RunKeepsTiling(s: State, ops: seq<Op>, start: int, limit: int)
    requires Inv(s, start, limit) && LegalRun(s, ops)
    ensures Inv(Run(s, ops), start, limit) && Total(Run(s, ops).chain) == limit - start
    decreases |ops|
  {
    if ops == [] {
      TilesTotal(s.chain, start, limit);
    } else {
      StepKeepsInv(s, ops[0], start, limit);
      RunKeepsTiling(Step(s, ops[0]), ops[1..], start, limit);
    }
  }

  /** Over every legal run a block nobody frees stays allocated in place, and a word of it nobody stores to keeps its
      value. */
  lemma {:induction false} RunKeepsBlock(s: State, ops: seq<Op>, start: int, limit: int, b: Block, x: int)
    requires Inv(s, start, limit) && LegalRun(s, ops)
    requires b in UsedBlocks(s.chain) && b.Payload() <= x < b.End()
    requires forall op :: op in ops ==> op != Free(b.Payload()) && (op.Store? ==> op.at != x)
    ensures b in UsedBlocks(Run(s, ops).chain) && Load(Run(s, ops).mem, x) == Load(s.mem, x)
    decreases |ops|
  {
    if ops != [] {
      var j :| 0 <= j < |s.chain| && s.chain[j] == b;
      assert ops[0] in ops;
      StepKeepsBlock(s, ops[0], start, limit, j, x);
      StepKeepsInv(s, ops[0], start, limit);
      RunKeepsBlock(Step(s, ops[0]), ops[1..], start, limit, b, x);
    }
  }

  // ----- LIFO runs -----

  /** The chain in which blocks of the given sizes are in use one after the other, followed by one free block,
      every `prev` naming the true predecessor. */
  function Stacked(addr: int, prev: int, sizes: seq<int>, limit: int): seq<Block>
    decreases |sizes|
  {
    if sizes == [] then [Block(addr, false, limit - addr - 16, prev)]
    else [Block(addr, true, sizes[0], prev)] + Stacked(addr + 16 + sizes[0], addr, sizes[1..], limit)
  }

  /** LIFO use: release only the most recent block, store only into blocks in use. */
  ghost predicate LifoLegal(s: State, op: Op) {
    match op
    case Alloc(sz) => sz <= MAX_REQUEST
    case Free(ptr) => |s.chain| >= 2 && ptr == s.chain[|s.chain| - 2].Payload()
    case Store(at, v) => Owned(s.chain, at)
  }

  ghost predicate LifoRun(s: State, ops: seq<Op>)
    decreases |ops|
  {
    ops == [] || (LifoLegal(s, ops[0]) && LifoRun(Step(s, ops[0]), ops[1..]))
  }

  lemma {:induction false} StackedShape(addr: int, prev: int, sizes: seq<int>, limit: int)
    ensures var bs, n := Stacked(addr, prev, sizes, limit), |sizes|;
            && |bs| == n + 1 && bs[0].addr == addr && bs[0].prev == prev
            && (forall k :: 0 <= k < n ==> bs[k].used && bs[k].size == sizes[k])
            && !bs[n].used && bs[n].size == limit - bs[n].addr - 16
            && (forall k, j :: 0 <= k && j == k + 1 && j <= n ==> bs[j].prev == bs[k].addr && bs[j].addr == bs[k].End())
    decreases |sizes|
  {
    if sizes != [] {
      StackedShape(addr + 16 + sizes[0], addr, sizes[1..], limit);
    }
  }

  /** A chain of that shape is that chain. */
  lemma {:induction false} ShapeIsStacked(bs: seq<Block>, addr: int, prev: int, sizes: seq<int>, limit: int)
    requires |bs| == |sizes| + 1 && bs[0].addr == addr && bs[0].prev == prev
    requires forall k :: 0 <= k < |sizes| ==> bs[k].used && bs[k].size == sizes[k]
    requires !bs[|sizes|].used && bs[|sizes|].size == limit - bs[|sizes|].addr - 16
    requires forall k, j :: 0 <= k && j == k + 1 && j <= |sizes| ==>
               bs[j].prev == bs[k].addr && bs[j].addr == bs[k].End()
    ensures bs == Stacked(addr, prev, sizes, limit)
    decreases |sizes|
  {
    if sizes == [] {
      assert bs == [bs[0]];
    } else {
      var tail := bs[1..];
      assert bs[1].prev == bs[0].addr;
      forall k, j | 0 <= k && j == k + 1 && j <= |sizes| - 1
        ensures tail[j].prev == tail[k].addr && tail[j].addr == tail[k].End()
      {
        assert bs[j + 1].prev == bs[k + 1].addr;
      }
      ShapeIsStacked(tail, addr + 16 + sizes[0], addr, sizes[1..], limit);
      assert bs == [bs[0]] + tail;
    }
  }

  /** The sizes in use after one LIFO action: push on a granted request, pop on a release. */
  function SizesAfter(start: int, limit: int, sizes: seq<int>, op: Op): seq<int> {
    match op
    case Alloc(sz) =>
      StackedShape(start, 0, sizes, limit);
      if Fits(Stacked(start, 0, sizes, limit)[|sizes|], AlignUp(sz)) then sizes + [AlignUp(sz)] else sizes
    case Free(_) => if sizes == [] then sizes else sizes[..|sizes| - 1]
    case Store(_, _) => sizes
  }

  lemma CarveStacked(start: int, sizes: seq<int>, limit: int, sz: int)
    ensures |Stacked(start, 0, sizes, limit)| == |sizes| + 1
    ensures Carve(Stacked(start, 0, sizes, limit), |sizes|, sz) == Stacked(start, 0, sizes + [sz], limit)
  {
    StackedShape(start, 0, sizes, limit);
    var cs := Carve(Stacked(start, 0, sizes, limit), |sizes|, sz);
    ShapeIsStacked(cs, start, 0, sizes + [sz], limit);
  }

  lemma FreeStacked(start: int, sizes: seq<int>, limit: int)
    requires sizes != []
    ensures |Stacked(start, 0, sizes, limit)| == |sizes| + 1
    ensures FreeChain(Stacked(start, 0, sizes, limit), |sizes| - 1) == Stacked(start, 0, sizes[..|sizes| - 1], limit)
  {
    StackedShape(start, 0, sizes, limit);
    var bs, n := Stacked(start, 0, sizes, limit), |sizes|;
    assert bs[n].addr == bs[n - 1].End();
    ShapeIsStacked(FreeChain(bs, n - 1), start, 0, sizes[..n - 1], limit);
  }

  /** One LIFO action on a stacked chain is legal and leaves the stacked chain of the new sizes. */
  lemma LifoStep(s: State, op: Op, start: int, limit: int, sizes: seq<int>)
    requires Inv(s, start, limit) && LifoLegal(s, op) && s.chain == Stacked(start, 0, sizes, limit)
    ensures Legal(s, op) && Step(s, op).chain == Stacked(start, 0, SizesAfter(start, limit, sizes, op), limit)
  {
    StackedShape(start, 0, sizes, limit);
    var n := |sizes|;
    match op
    case Alloc(sz) =>
      var a := AlignUp(sz);
      if Fits(s.chain[n], a) {
        FirstFitIs(s.chain, a, n);
        CarveStacked(start, sizes, limit, a);
      } else {
        FirstFitIs(s.chain, a, n + 1);
      }
    case Free(ptr) =>
      var i := IndexOf(s.chain, ptr);
      if i < n - 1 { BlocksInOrder(s.chain, start, limit, i, n - 1); }
      assert i == n - 1;
      if n >= 2 { assert s.chain[n - 1].prev == s.chain[n - 2].addr; }
      FreeStacked(start, sizes, limit);
    case Store(at, v) =>
  }

  function SizesRun(start: int, limit: int, sizes: seq<int>, ops: seq<Op>): seq<int>
    decreases |ops|
  {
    if ops == [] then sizes else SizesRun(start, limit, SizesAfter(start, limit, sizes, ops[0]), ops[1..])
  }

  /** Every LIFO run is legal, so all of RunKeepsTiling applies to it, and the chain is always used blocks followed by
      one free block with every `prev` naming the true predecessor. */
  lemma {:induction false} LifoRunIsStacked(s: State, ops: seq<Op>, start: int, limit: int, sizes: seq<int>)
    requires Inv(s, start, limit) && LifoRun(s, ops) && s.chain == Stacked(start, 0, sizes, limit)
    ensures LegalRun(s, ops) && Run(s, ops).chain == Stacked(start, 0, SizesRun(start, limit, sizes, ops), limit)
    decreases |ops|
  {
    if ops != [] {
      LifoStep(s, ops[0], start, limit, sizes);
      StepKeepsInv(s, ops[0], start, limit);
      LifoRunIsStacked(Step(s, ops[0]), ops[1..], start, limit, SizesAfter(start, limit, sizes, ops[0]));
    }
  }

  /** The run never has fewer than d blocks in use. */
  predicate NeverBelow(start: int, limit: int, sizes: seq<int>, ops: seq<Op>, d: nat)
    decreases |ops|
  {
    |sizes| >= d && (ops == [] || NeverBelow(start, limit, SizesAfter(start, limit, sizes, ops[0]), ops[1..], d))
  }

  lemma {:induction false} BottomOfStackKept(start: int, limit: int, sizes: seq<int>, ops: seq<Op>, d: nat)
    requires NeverBelow(start, limit, sizes, ops, d)
    ensures var after := SizesRun(start, limit, sizes, ops); |after| >= d && after[..d] == sizes[..d]
    decreases |ops|
  {
    if ops != [] {
      BottomOfStackKept(start, limit, SizesAfter(start, limit, sizes, ops[0]), ops[1..], d);
    }
  }

  /** A LIFO run that releases everything it was granted and nothing older returns the heap to exactly its starting
      chain. */
  lemma BalancedRunRestoresChain(s: State, ops: seq<Op>, start: int, limit: int, sizes: seq<int>)
    requires Inv(s, start, limit) && LifoRun(s, ops) && s.chain == Stacked(start, 0, sizes, limit)
    requires NeverBelow(start, limit, sizes, ops, |sizes|)
    requires |SizesRun(start, limit, sizes, ops)| == |sizes|
    ensures Run(s, ops).chain == s.chain && Represents(Run(s, ops).mem, s.chain, start, limit)
  {
    LifoRunIsStacked(s, ops, start, limit, sizes);
    RunKeepsTiling(s, ops, start, limit);
    BottomOfStackKept(start, limit, sizes, ops, |sizes|);
    var after := SizesRun(start, limit, sizes, ops);
    assert after == after[..|sizes|] == sizes[..|sizes|] == sizes;
  }

  // ----- A run that is not LIFO -----

  const H := 0x10_0000

  function FreshHeap(): State {
    State(map[H := 0, H + 4 := 0xF_FFF0, H + 8 := 0, H + 12 := 0], [Block(H, false, 0xF_FFF0, 0)])
  }

  /** Six legal actions: two blocks, the first released and its space split between two smaller ones, and the first of
      those released again. */
  function StaleRun(): seq<Op> {
    [Alloc(64), Alloc(16), Free(H + 16), Alloc(16), Alloc(8), Free(H + 16)]
  }

  lemma AllocStep(s: State, sz: Word, f: nat, cs: seq<Block>)
    requires Inv(s, H, 2 * H) && sz <= 64 && sz % 4 == 0
    requires f < |s.chain| && Fits(s.chain[f], sz) && forall k :: 0 <= k < f ==> !Fits(s.chain[k], sz)
    requires cs == Carve(s.chain, f, sz)
    ensures Legal(s, Alloc(sz)) && Step(s, Alloc(sz)).chain == cs && Inv(Step(s, Alloc(sz)), H, 2 * H)
  {
    FirstFitIs(s.chain, sz, f);
    StepKeepsInv(s, Alloc(sz), H, 2 * H);
  }

  lemma FreeFirstStep(s: State, cs: seq<Block>)
    requires Inv(s, H, 2 * H) && s.chain[0].used && s.chain[0].addr == H && s.chain[0].prev == 0
    requires cs == FreeChain(s.chain, 0)
    ensures Legal(s, Free(H + 16)) && Step(s, Free(H + 16)).chain == cs && Inv(Step(s, Free(H + 16)), H, 2 * H)
  {
    assert IndexOf(s.chain, H + 16) == 0;
    StepKeepsInv(s, Free(H + 16), H, 2 * H);
  }

  lemma RunTwo(s: State, ops: seq<Op>)
    requires |ops| >= 2
    ensures Run(s, ops) == Run(Step(Step(s, ops[0]), ops[1]), ops[2..])
    ensures LegalRun(s, ops) <==>
            Legal(s, ops[0]) && Legal(Step(s, ops[0]), ops[1]) && LegalRun(Step(Step(s, ops[0]), ops[1]), ops[2..])
  {
    RunOne(s, ops);
    RunOne(Step(s, ops[0]), ops[1..]);
    assert ops[1..][1..] == ops[2..];
  }

  lemma RunOne(s: State, ops: seq<Op>)
    requires ops != []
    ensures Run(s, ops) == Run(Step(s, ops[0]), ops[1..])
    ensures LegalRun(s, ops) <==> Legal(s, ops[0]) && LegalRun(Step(s, ops[0]), ops[1..])
  {
  }

  lemma StaleRunFirst(s: State)
    requires Inv(s, H, 2 * H) && s.chain == [Block(H, false, 0xF_FFF0, 0)]
    ensures Legal(s, Alloc(64)) && Legal(Step(s, Alloc(64)), Alloc(16))
    ensures var s' := Step(Step(s, Alloc(64)), Alloc(16));
            Inv(s', H, 2 * H)
              && s'.chain == [Block(H, true, 64, 0), Block(H + 80, true, 16, H),
                              Block(H + 112, false, 0xF_FF80, H + 80)]
  {
    AllocStep(s, 64, 0, [Block(H, true, 64, 0), Block(H + 80, false, 0xF_FFA0, H)]);
    AllocStep(Step(s, Alloc(64)), 16, 1,
              [Block(H, true, 64, 0), Block(H + 80, true, 16, H), Block(H + 112, false, 0xF_FF80, H + 80)]);
  }

  lemma StaleRunSecond(s: State)
    requires Inv(s, H, 2 * H)
    requires s.chain == [Block(H, true, 64, 0), Block(H + 80, true, 16, H), Block(H + 112, false, 0xF_FF80, H + 80)]
    ensures Legal(s, Free(H + 16)) && Legal(Step(s, Free(H + 16)), Alloc(16))
    ensures var s' := Step(Step(s, Free(H + 16)), Alloc(16));
            Inv(s', H, 2 * H)
              && s'.chain == [Block(H, true, 16, 0), Block(H + 32, false, 32, H), Block(H + 80, true, 16, H),
                                              Block(H + 112, false, 0xF_FF80, H + 80)]
  {
    FreeFirstStep(s, [Block(H, false, 64, 0), Block(H + 80, true, 16, H), Block(H + 112, false, 0xF_FF80, H + 80)]);
    AllocStep(Step(s, Free(H + 16)), 16, 0,
              [Block(H, true, 16, 0), Block(H + 32, false, 32, H), Block(H + 80, true, 16, H),
               Block(H + 112, false, 0xF_FF80, H + 80)]);
  }

  lemma StaleRunThird(s: State)
    requires Inv(s, H, 2 * H)
    requires s.chain == [Block(H, true, 16, 0), Block(H + 32, false, 32, H), Block(H + 80, true, 16, H),
                         Block(H + 112, false, 0xF_FF80, H + 80)]
    ensures Legal(s, Alloc(8)) && Legal(Step(s, Alloc(8)), Free(H + 16))
    ensures var s' := Step(Step(s, Alloc(8)), Free(H + 16)); Inv(s', H, 2 * H) && s'.chain == StaleChain()
  {
    AllocStep(s, 8, 1, [Block(H, true, 16, 0)] + StaleChain()[1..]);
    FreeFirstStep(Step(s, Alloc(8)), StaleChain());
  }

  /** The chain the run ends in: the block at H + 80 still names H as its predecessor. */
  function StaleChain(): seq<Block> {
    [Block(H, false, 16, 0), Block(H + 32, true, 8, H), Block(H + 56, false, 8, H + 32),
     Block(H + 80, true, 16, H), Block(H + 112, false, 0xF_FF80, H + 80)]
  }

  lemma StaleRunEnd(s: State, ops: seq<Op>)
    requires Inv(s, H, 2 * H)
    requires s.chain == [Block(H, true, 16, 0), Block(H + 32, false, 32, H), Block(H + 80, true, 16, H),
                         Block(H + 112, false, 0xF_FF80, H + 80)]
    requires |ops| == 2 && ops[0] == Alloc(8) && ops[1] == Free(H + 16)
    ensures LegalRun(s, ops) && Inv(Run(s, ops), H, 2 * H) && Run(s, ops).chain == StaleChain()
  {
    StaleRunThird(s);
    RunTwo(s, ops);
  }

  lemma StaleRunMiddle(s: State, ops: seq<Op>)
    requires Inv(s, H, 2 * H)
    requires s.chain == [Block(H, true, 64, 0), Block(H + 80, true, 16, H), Block(H + 112, false, 0xF_FF80, H + 80)]
    requires |ops| == 4 && ops[0] == ops[3] == Free(H + 16) && ops[1] == Alloc(16) && ops[2] == Alloc(8)
    ensures LegalRun(s, ops) && Inv(Run(s, ops), H, 2 * H) && Run(s, ops).chain == StaleChain()
  {
    StaleRunSecond(s);
    RunTwo(s, ops);
    StaleRunEnd(Step(Step(s, ops[0]), ops[1]), ops[2..]);
  }

  lemma StaleRunReaches(s: State, ops: seq<Op>)
    requires Inv(s, H, 2 * H) && s.chain == [Block(H, false, 0xF_FFF0, 0)]
    requires |ops| == 6 && ops[0] == Alloc(64) && ops[1] == ops[3] == Alloc(16) && ops[2] == ops[5] == Free(H + 16)
             && ops[4] == Alloc(8)
    ensures LegalRun(s, ops) && Inv(Run(s, ops), H, 2 * H) && Run(s, ops).chain == StaleChain()
  {
    StaleRunFirst(s);
    RunTwo(s, ops);
    StaleRunMiddle(Step(Step(s, ops[0]), ops[1]), ops[2..]);
  }

  lemma FreshHeapInv()
    ensures Inv(FreshHeap(), H, 2 * H)
  {
  }

  lemma StaleFreeSwallows(m: Memory)
    requires Represents(m, StaleChain(), H, 2 * H)
    ensures var m' := FreeMem(m, H + 80);
            Load(m', H) == 0 && Load(m', H + 4) == 0xF_FFC0 && Load(m', H + 12) == 0
  {
    var bs := StaleChain();
    NextBeyond(m, bs, H, 2 * H, 0);
    NextBeyond(m, bs, H, 2 * H, 3);
    NextBeyond(m, bs, H, 2 * H, 4);
    FreeMemEffect(m, H + 80);
  }

  /** The suspicion that the kernel heap is buggy, confirmed.  A legal run from a fresh heap ends in a state where the
      block at H + 80 (held by a caller) is not trusted; releasing it makes the first block of the walk a free one that
      covers the block at H + 32, which another caller still holds.  The next request for 64 bytes passes the size test
      there, and its payload [H + 16, H + 80) contains the held payload [H + 48, H + 56). */
  lemma StaleFreeOverlapsLiveBlock(s: State, ops: seq<Op>)
    requires s == FreshHeap() && ops == StaleRun()
    ensures LegalRun(s, ops)
    ensures var s', held := Run(s, ops), Block(H + 32, true, 8, H);
            && held in s'.chain && Block(H + 80, true, 16, H) in s'.chain
            && IndexOf(s'.chain, H + 96) < |s'.chain| && !PrevTrusted(s'.mem, s'.chain, IndexOf(s'.chain, H + 96))
            && var m' := FreeMem(s'.mem, H + 80);
               && Load(m', H) == 0 && Load(m', H + 4) >= 16 + 64
               && H + 16 <= held.Payload() && held.End() <= H + 16 + 64
  {
    FreshHeapInv();
    StaleRunReaches(s, ops);
    StaleChainUntrusted(Run(s, ops));
  }

  lemma StaleChainUntrusted(s: State)
    requires Represents(s.mem, s.chain, H, 2 * H) && s.chain == StaleChain()
    ensures Block(H + 32, true, 8, H) in s.chain && Block(H + 80, true, 16, H) in s.chain
    ensures IndexOf(s.chain, H + 96) < |s.chain| && !PrevTrusted(s.mem, s.chain, IndexOf(s.chain, H + 96))
    ensures var m' := FreeMem(s.mem, H + 80); Load(m', H) == 0 && Load(m', H + 4) >= 16 + 64
  {
    var bs := s.chain;
    var i := IndexOf(bs, H + 96);
    assert bs[1] == Block(H + 32, true, 8, H);
    assert bs[3].used && bs[3].Payload() == H + 96;
    assert i == 3;
    NextBeyond(s.mem, bs, H, 2 * H, 0);
    StaleFreeSwallows(s.mem);
  }
}
