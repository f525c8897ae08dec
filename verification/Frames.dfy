/** The page frame allocator of kernel/src/mm/pmm.c and the slab allocator of kernel/src/mm/slab.c, both on a bit
    map. */
module Frames {
  import opened Machine
  import opened Bits
  import opened BitArray
  import Numbers

  const FRAMES := 3840
  const RAM_START := 0x10_0000
  const RAM_END := 0x100_0000
  const PAGE := 0x1000

  // ----- Filling a map and emptying it again -----

  lemma {:induction false} SameBits(v: nat, w: nat, n: nat)
    requires v < Pow2(n) && w < Pow2(n)
    requires forall k: nat :: k < n ==> Bit(v, k) == Bit(w, k)
    ensures v == w
    decreases n
  {
    if n > 0 {
      assert Bit(v, 0) == Bit(w, 0);
      forall k: nat {:trigger Bit(v / 2, k)} | k < n - 1
        ensures Bit(v / 2, k) == Bit(w / 2, k)
      {
        assert Bit(v, k + 1) == Bit(w, k + 1);
      }
      SameBits(v / 2, w / 2, n - 1);
    }
  }

  /** Two arrays of words with the same bits are the same array. */
  lemma SameMap(s: seq<Word>, s': seq<Word>)
    requires |s| == |s'| && forall i: nat :: i < 32 * |s| ==> At(s, i) == At(s', i)
    ensures s == s'
  {
    Pow32();
    forall j | 0 <= j < |s|
      ensures s[j] == s'[j]
    {
      forall k: nat | k < 32
        ensures Bit(s[j], k) == Bit(s'[j], k)
      {
        assert At(s, 32 * j + k) == At(s', 32 * j + k);
      }
      SameBits(s[j], s'[j], 32);
    }
  }

  /** Setting a clear region and clearing it again restores the map, word for word. */
  lemma FillThenEmpty(s: seq<Word>, s1: seq<Word>, s2: seq<Word>, pos: nat, end: nat)
    requires Filled(s, s1, true, pos, end) && Filled(s1, s2, false, pos, end)
    requires forall i: nat :: pos <= i < end && i < 32 * |s| ==> !At(s, i)
    ensures s2 == s
  {
    SameMap(s, s2);
  }

  function CountSet(s: seq<Word>, limit: nat): nat
    requires limit <= 32 * |s|
  {
    if limit == 0 then 0 else CountSet(s, limit - 1) + if At(s, limit - 1) then 1 else 0
  }

  lemma {:induction false} CountFilled(s: seq<Word>, s': seq<Word>, pos: nat, end: nat, limit: nat)
    requires pos <= end && limit <= 32 * |s| && Filled(s, s', true, pos, end)
    requires forall i: nat :: pos <= i < end && i < limit ==> !At(s, i)
    ensures CountSet(s', limit) == CountSet(s, limit) + if limit <= pos then 0 else Min(end, limit) - pos
  {
    if limit > 0 {
      CountFilled(s, s', pos, end, limit - 1);
      assert At(s', limit - 1) == (if pos <= limit - 1 < end then true else At(s, limit - 1));
    }
  }

  // ----- Regions in use -----

  /** n consecutive frames from index start. */
  datatype Region = Region(start: nat, n: nat) {
    function End(): nat { start + n }
    function Address(): int { 0x10_0000 + 0x1000 * start }
    predicate Covers(i: nat) { start <= i < start + n }
  }

  function Pages(live: seq<Region>): nat {
    if live == [] then 0 else Pages(live[..|live| - 1]) + live[|live| - 1].n
  }

  ghost predicate Covered(live: seq<Region>, i: nat) {
    exists k :: 0 <= k < |live| && live[k].Covers(i)
  }

  ghost predicate Apart(a: Region, b: Region) {
    forall i :: !(a.Covers(i) && b.Covers(i))
  }

  /** The live regions are disjoint, inside the map, and together exactly the set bits, which they number. */
  ghost predicate Owns(s: seq<Word>, nbits: nat, live: seq<Region>)
    requires nbits <= 32 * |s|
  {
    && (forall k :: 0 <= k < |live| ==> live[k].End() <= nbits)
    && (forall j, k :: 0 <= j < k < |live| ==> Apart(live[j], live[k]))
    && (forall i :: 0 <= i < nbits ==> (At(s, i) <==> Covered(live, i)))
    && CountSet(s, nbits) == Pages(live)
  }

  lemma CommitOwns(s: seq<Word>, s': seq<Word>, nbits: nat, live: seq<Region>, r: Region)
    requires nbits <= 32 * |s| && Owns(s, nbits, live) && r.End() <= nbits
    requires forall i: nat :: r.Covers(i) ==> !At(s, i)
    requires Filled(s, s', true, r.start, r.End())
    ensures Owns(s', nbits, live + [r])
  {
    var live' := live + [r];
    assert live'[..|live|] == live;
    CountFilled(s, s', r.start, r.End(), nbits);
    forall i | 0 <= i < nbits
      ensures At(s', i) <==> Covered(live', i)
    {
      assert At(s, i) <==> Covered(live, i);
      if Covered(live, i) { var k :| 0 <= k < |live| && live[k].Covers(i); assert live'[k].Covers(i); }
      if r.Covers(i) { assert live'[|live|].Covers(i); }
    }
    forall k | 0 <= k < |live| ensures Apart(live[k], r) {
      forall i | live[k].Covers(i) ensures !r.Covers(i) { assert Covered(live, i); }
    }
  }

  function Without(live: seq<Region>, k: nat): seq<Region>
    requires k < |live|
  {
    live[..k] + live[k + 1..]
  }

  lemma {:induction false} PagesWithout(live: seq<Region>, k: nat)
    requires k < |live|
    ensures Pages(Without(live, k)) == Pages(live) - live[k].n
    decreases |live|
  {
    var last := |live| - 1;
    if k == last {
      assert Without(live, k) == live[..last];
    } else {
      assert Without(live, k)[..last - 1] == Without(live[..last], k);
      PagesWithout(live[..last], k);
    }
  }

  lemma CoveredWithout(live: seq<Region>, k: nat, i: nat)
    requires k < |live| && forall a, b :: 0 <= a < b < |live| ==> Apart(live[a], live[b])
    ensures Covered(Without(live, k), i) <==> Covered(live, i) && !live[k].Covers(i)
  {
    var rest := Without(live, k);
    if Covered(rest, i) {
      var j :| 0 <= j < |rest| && rest[j].Covers(i);
      var j' := if j < k then j else j + 1;
      assert live[j'].Covers(i);
      assert Apart(live[if j' < k then j' else k], live[if j' < k then k else j']);
    }
    if Covered(live, i) && !live[k].Covers(i) {
      var j :| 0 <= j < |live| && live[j].Covers(i);
      assert rest[if j < k then j else j - 1].Covers(i);
    }
  }

  lemma DecommitOwns(s: seq<Word>, s': seq<Word>, nbits: nat, live: seq<Region>, k: nat)
    requires nbits <= 32 * |s| && Owns(s, nbits, live) && k < |live|
    requires Filled(s, s', false, live[k].start, live[k].End())
    ensures Owns(s', nbits, Without(live, k))
  {
    var r, rest := live[k], Without(live, k);
    PagesWithout(live, k);
    assert Filled(s', s, true, r.start, r.End()) by {
      forall i: nat | i < 32 * |s| ensures At(s, i) == (if r.start <= i < r.End() then true else At(s', i)) {
        if r.Covers(i) { assert Covered(live, i); }
      }
    }
    CountFilled(s', s, r.start, r.End(), nbits);
    forall i | 0 <= i < nbits
      ensures At(s', i) <==> Covered(rest, i)
    {
      CoveredWithout(live, k, i);
    }
    forall a, b | 0 <= a < b < |rest| ensures Apart(rest[a], rest[b]) {
      assert Apart(live[if a < k then a else a + 1], live[if b < k then b else b + 1]);
    }
  }

  /** The parts of the regions that lie in the map. */
  function Clipped(live: seq<Region>, nbits: nat): seq<Region> {
    seq(|live|, i requires 0 <= i < |live| => Clip(live[i], nbits))
  }

  function Clip(r: Region, nbits: nat): Region {
    if r.End() <= nbits then r else Region(r.start, if r.start < nbits then nbits - r.start else 0)
  }

  /** If those own the map, the regions themselves do if and only if none of them reaches over its end. */
  lemma OwnsIff(s: seq<Word>, nbits: nat, live: seq<Region>)
    requires nbits <= 32 * |s| && Owns(s, nbits, Clipped(live, nbits))
    ensures Owns(s, nbits, live) <==> forall k :: 0 <= k < |live| ==> live[k].End() <= nbits
  {
    if forall k :: 0 <= k < |live| ==> live[k].End() <= nbits { assert Clipped(live, nbits) == live; }
  }

  lemma OwnsClipped(s: seq<Word>, nbits: nat, live: seq<Region>)
    requires nbits <= 32 * |s| && Owns(s, nbits, live)
    ensures Owns(s, nbits, Clipped(live, nbits))
  {
    assert Clipped(live, nbits) == live;
  }

  // ----- Runs of the page frame allocator -----

  datatype Op = Commit(n: nat) | Decommit(k: nat)

  datatype State = State(bits: seq<Word>, live: seq<Region>)

  /** The search answers truthfully: something fits, or the scan does not run past the end of the map.
      One page at a time always passes (FreeRegionExactIff). */
  ghost predicate Truthful(s: seq<Word>, nbits: nat, arrSize: nat, n: nat)
    requires nbits <= 32 * |s|
  {
    FirstFit(s, nbits, n, 0) < nbits || !Overrun(s, nbits, arrSize, n)
  }

  /** One call: commit what the search finds, fail and change nothing, or release the k-th live region. */
  ghost predicate Step(a: State, b: State, nbits: nat, arrSize: nat, op: Op)
    requires nbits <= 32 * |a.bits|
  {
    match op
    case Commit(n) =>
      var r := FreeRegion(a.bits, nbits, arrSize, n);
      if r == NOT_FOUND then b == a
      else r >= 0 && Filled(a.bits, b.bits, true, r, Min(r + n, nbits)) && b.live == a.live + [Region(r, n)]
    case Decommit(k) =>
      && k < |a.live| && b.live == Without(a.live, k)
      && Filled(a.bits, b.bits, false, a.live[k].start, Min(a.live[k].End(), nbits))
  }

  /** The live regions, as far as they lie in the map, are disjoint and together exactly the set bits. */
  ghost predicate Sound(a: State, nbits: nat, arrSize: nat) {
    WellFormed(a.bits, nbits, arrSize) && Owns(a.bits, nbits, Clipped(a.live, nbits))
  }

  /** What a truthful search returns: a clear region inside the map, and the first such. */
  lemma TruthfulFits(s: seq<Word>, nbits: nat, arrSize: nat, n: nat)
    requires WellFormed(s, nbits, arrSize) && Truthful(s, nbits, arrSize, n)
    ensures var r := FreeRegion(s, nbits, arrSize, n);
            r != NOT_FOUND ==> 0 <= r < nbits && r + n <= nbits && (forall i: nat :: r <= i < r + n ==> !At(s, i))
                               && forall j :: 0 <= j < r ==> !FitsAt(s, nbits, n, j)
  {
    var f := FirstFit(s, nbits, n, 0);
    if f < nbits {
      assert FitsAt(s, nbits, n, f);
      RunSpec(s, false, f, nbits);
    }
  }

  /** What any successful search returns: a place in the map from which all bits, as far as n or the map goes, are
      clear; and the n bits go over the end exactly if the search was not truthful. */
  lemma FoundIsClear(s: seq<Word>, nbits: nat, arrSize: nat, n: nat)
    requires WellFormed(s, nbits, arrSize) && FreeRegion(s, nbits, arrSize, n) != NOT_FOUND
    ensures var r := FreeRegion(s, nbits, arrSize, n);
            && 0 <= r < nbits && (forall i: nat :: r <= i < Min(r + n, nbits) ==> !At(s, i))
            && (r + n <= nbits <==> Truthful(s, nbits, arrSize, n))
  {
    var f, t := FirstFit(s, nbits, n, 0), TailStart(s, nbits, 0);
    if f < nbits {
      TruthfulFits(s, nbits, arrSize, n);
    } else {
      RunSpec(s, false, t, nbits);
      RunIs(s, false, t, nbits, nbits - t);
      assert !FitsAt(s, nbits, n, t);
    }
  }

  lemma StepKeepsSound(a: State, b: State, nbits: nat, arrSize: nat, op: Op)
    requires Sound(a, nbits, arrSize) && Step(a, b, nbits, arrSize, op)
    ensures Sound(b, nbits, arrSize)
  {
    match op
    case Commit(n) =>
      if FreeRegion(a.bits, nbits, arrSize, n) != NOT_FOUND { CommitKeepsSound(a, b, nbits, arrSize, n); }
    case Decommit(k) => DecommitKeepsSound(a, b, nbits, arrSize, k);
  }

  lemma CommitKeepsSound(a: State, b: State, nbits: nat, arrSize: nat, n: nat)
    requires Sound(a, nbits, arrSize) && Step(a, b, nbits, arrSize, Commit(n))
             && FreeRegion(a.bits, nbits, arrSize, n) != NOT_FOUND
    ensures Sound(b, nbits, arrSize)
  {
    var r := FreeRegion(a.bits, nbits, arrSize, n);
    var region := Clip(Region(r, n), nbits);
    FoundIsClear(a.bits, nbits, arrSize, n);
    FilledWellFormed(a.bits, b.bits, true, r, Min(r + n, nbits), nbits, arrSize);
    CommitOwns(a.bits, b.bits, nbits, Clipped(a.live, nbits), region);
    assert Clipped(b.live, nbits) == Clipped(a.live, nbits) + [region];
  }

  lemma DecommitKeepsSound(a: State, b: State, nbits: nat, arrSize: nat, k: nat)
    requires Sound(a, nbits, arrSize) && Step(a, b, nbits, arrSize, Decommit(k))
    ensures Sound(b, nbits, arrSize)
  {
    var clipped := Clipped(a.live, nbits);
    FilledWellFormed(a.bits, b.bits, false, a.live[k].start, Min(a.live[k].End(), nbits), nbits, arrSize);
    SameFill(a.bits, b.bits, a.live[k], nbits);
    DecommitOwns(a.bits, b.bits, nbits, clipped, k);
    assert Clipped(b.live, nbits) == Without(clipped, k);
  }

  lemma SameFill(s: seq<Word>, s': seq<Word>, r: Region, nbits: nat)
    requires Filled(s, s', false, r.start, Min(r.End(), nbits))
    ensures Filled(s, s', false, Clip(r, nbits).start, Clip(r, nbits).End())
  {
  }

  /** A step that starts with every region in the map ends so if and only if it does not commit what an overrun has
      found. */
  lemma StepOwnsIff(a: State, b: State, nbits: nat, arrSize: nat, op: Op)
    requires WellFormed(a.bits, nbits, arrSize) && Owns(a.bits, nbits, a.live) && Step(a, b, nbits, arrSize, op)
    ensures WellFormed(b.bits, nbits, arrSize)
    ensures Owns(b.bits, nbits, b.live) <==> (op.Commit? ==> Truthful(a.bits, nbits, arrSize, op.n))
  {
    OwnsClipped(a.bits, nbits, a.live);
    StepKeepsSound(a, b, nbits, arrSize, op);
    OwnsIff(b.bits, nbits, b.live);
    if op.Commit? && FreeRegion(a.bits, nbits, arrSize, op.n) != NOT_FOUND {
      FoundIsClear(a.bits, nbits, arrSize, op.n);
      assert b.live[|a.live|].End() == FreeRegion(a.bits, nbits, arrSize, op.n) + op.n;
    }
  }

  /** Over every run, overruns included, the parts of the live regions that lie in the map are disjoint and number
      exactly the set bits; and the regions themselves do if and only if none that is still live came from an
      overrun. */
  lemma {:induction false} RunKeepsSound(trace: seq<State>, ops: seq<Op>, nbits: nat, arrSize: nat)
    requires |trace| == |ops| + 1 && Sound(trace[0], nbits, arrSize)
    requires forall j :: 0 <= j < |ops| ==>
               nbits <= 32 * |trace[j].bits| && Step(trace[j], trace[j + 1], nbits, arrSize, ops[j])
    ensures var last := trace[|ops|];
            && Sound(last, nbits, arrSize)
            && (Owns(last.bits, nbits, last.live) <==> forall k :: 0 <= k < |last.live| ==> last.live[k].End() <= nbits)
    decreases |ops|
  {
    if ops != [] {
      var n := |ops| - 1;
      RunKeepsSound(trace[..|ops|], ops[..n], nbits, arrSize);
      StepKeepsSound(trace[n], trace[n + 1], nbits, arrSize, ops[n]);
    }
    OwnsIff(trace[|ops|].bits, nbits, trace[|ops|].live);
  }

  /** Releasing, by the address that commit_pages returned, what it has just committed restores the bitmap and the live
      regions, overrun or not. */
  lemma CommitThenDecommit(a: State, b: State, c: State, n: nat, paddr: Word)
    requires Sound(a, FRAMES, 120) && Step(a, b, FRAMES, 120, Commit(n))
             && FreeRegion(a.bits, FRAMES, 120, n) != NOT_FOUND
    requires paddr == Region(FreeRegion(a.bits, FRAMES, 120, n), n).Address()
    requires Filled(b.bits, c.bits, false, FrameIndex(paddr), Min(FrameIndex(paddr) + n, FRAMES))
    requires c.live == if Means(b.live, |a.live|, paddr, n) then Without(b.live, |a.live|) else b.live
    ensures c == a
  {
    var r := FreeRegion(a.bits, FRAMES, 120, n);
    FoundIsClear(a.bits, FRAMES, 120, n);
    AddressNamesRegion(Region(r, n));
    FillThenEmpty(a.bits, b.bits, c.bits, r, Min(r + n, FRAMES));
    assert c.live == a.live;
  }

  /** Every page of a live region lies in the RAM from 1 MB to 16 MB, and regions that share no index share no byte. */
  lemma RegionAddresses(r: Region, q: Region)
    requires r.End() <= FRAMES
    ensures 0x10_0000 <= r.Address() && r.Address() + 0x1000 * r.n <= 0x100_0000
    ensures Apart(r, q) && r.n > 0 && q.n > 0 ==>
              r.Address() + 0x1000 * r.n <= q.Address() || q.Address() + 0x1000 * q.n <= r.Address()
  {
    if Apart(r, q) && r.n > 0 && q.n > 0 {
      assert q.Covers(q.start) && r.Covers(r.start);
    }
  }

  /** A run past the end, concretely: all frames are in use but the last 31, and the memory behind the bitmap begins
      with a zero word.  A request for 40 is granted at frame 3809. */
  lemma OverrunGrantsTooMuch(s: seq<Word>)
    requires s == seq(119, i => 0xFFFF_FFFF) + [1] + [0, 1]
    ensures WellFormed(s, FRAMES, 120) && FreeRegion(s, FRAMES, 120, 40) == 3809 && !Truthful(s, FRAMES, 120, 40)
  {
    forall i | 0 <= i < 3808 ensures At(s, i) { OnesBits(i % 32); assert s[i / 32] == ONES; }
    forall i | 3809 <= i < 3872 ensures !At(s, i) {
      if i < 3840 { LowOnes(1, i - 3808); assert Pow2(1) - 1 == 1; } else { ZeroBits(i - 3840); }
    }
    assert At(s, 3808) && At(s, 3872);
    assert !Bit(s[121], TOP_BIT) by { LowOnes(1, TOP_BIT); assert Pow2(1) - 1 == 1; }
    TailStartIs(s, FRAMES, 0, 3809);
    RunIs(s, false, 3809, 32 * |s|, 63);
    forall i | 0 <= i < FRAMES ensures !FitsAt(s, FRAMES, 40, i) { RunSpec(s, false, i, FRAMES); }
    FirstFitIs(s, FRAMES, 40, FRAMES);
  }

  class PageFrames {
    const bitmap: BitMap
    /** The regions committed and not yet released. */
    ghost var live: seq<Region>

    ghost predicate Valid()
      reads this, bitmap.arr
    {
      bitmap.Valid() && bitmap.nbits == FRAMES && bitmap.arrSize == 120
    }

    /** The live regions have exactly the set bits ... */
    ghost predicate Owned()
      requires Valid()
      reads this, bitmap.arr
    {
      Owns(bitmap.arr[..], FRAMES, live)
    }

    /** ... or do so as far as they lie in the map. */
    ghost predicate Tracked()
      requires Valid()
      reads this, bitmap.arr
    {
      Owns(bitmap.arr[..], FRAMES, Clipped(live, FRAMES))
    }

    /** pmm_init, over the bitmap's 120 words and whatever follows them in memory. */
    constructor (words: array<Word>)
      requires words.Length > 120 && 32 * words.Length < 0xFFFF_FFFF
      requires words[words.Length - 1] != 0 && !Bit(words[words.Length - 1], TOP_BIT)
      modifies words
      ensures Valid() && Owned() && live == []
      ensures forall i :: 0 <= i < FRAMES ==> !At(bitmap.arr[..], i)
      ensures bitmap.arr == words && words[120..] == old(words[120..])
    {
      for j := 0 to 120
        invariant forall k :: 0 <= k < j ==> words[k] == 0
        invariant words[120..] == old(words[120..])
      {
        words[j] := 0;
      }
      assert words[words.Length - 1] == words[120..][words.Length - 121];
      ClearMap(words[..]);
      bitmap := new BitMap(words, FRAMES);
      live := [];
    }

    /** commit_pages: the physical address of the first n free contiguous frames, or -1. */
    method CommitPages(n: nat) returns (paddr: Word)
      requires Valid() && n < TWO_32
      modifies this`live, bitmap.arr
      ensures Valid()
      ensures var r := FreeRegion(old(bitmap.arr[..]), FRAMES, 120, n);
              if r == NOT_FOUND then paddr == 0xFFFF_FFFF && bitmap.arr[..] == old(bitmap.arr[..]) && live == old(live)
              else 0 <= r && paddr == Region(r, n).Address() && live == old(live) + [Region(r, n)]
                   && Filled(old(bitmap.arr[..]), bitmap.arr[..], true, r, Min(r + n, FRAMES))
      ensures old(Tracked()) ==> Tracked()
      ensures old(Owned()) ==> (Owned() <==> Truthful(old(bitmap.arr[..]), FRAMES, 120, n))
    {
      ghost var a := State(bitmap.arr[..], live);
      var index := bitmap.FindFreeRegion(n);
      if index != NOT_FOUND {
        RegionInMap(a.bits, FRAMES, 120, n);
        bitmap.Set(index, n);
        live := live + [Region(index, n)];
        Committed(a, State(bitmap.arr[..], live), n);
        return index * 0x1000 + 0x10_0000;
      }
      return 0xFFFF_FFFF;
    }

    /** decommit_pages: clears n frames from paddr on, cut off at the end of the map.  The caller means the k-th live
        region; whatever frames these are, the live regions still have exactly the set bits if and only if it was that
        one, or all were clear. */
    method DecommitPages(paddr: Word, n: nat, ghost k: nat)
      requires Valid() && FrameIndex(paddr) <= FRAMES && FrameIndex(paddr) + n < TWO_32
      modifies this`live, bitmap.arr
      ensures Valid()
      ensures var index := FrameIndex(paddr); Filled(old(bitmap.arr[..]), bitmap.arr[..], false, index,
                                                     Min(index + n, FRAMES))
      ensures live == if Means(old(live), k, paddr, n) then Without(old(live), k) else old(live)
      ensures old(Tracked()) ==> (Tracked() <==> Releases(old(bitmap.arr[..]), old(live), k, paddr, n))
      ensures old(Owned()) ==> (Owned() <==> Releases(old(bitmap.arr[..]), old(live), k, paddr, n))
    {
      var index := Wrap(paddr - 0x10_0000) / 0x1000;
      ghost var a := State(bitmap.arr[..], live);
      bitmap.Clear(index, n);
      if Means(live, k, paddr, n) { live := Without(live, k); }
      Decommitted(a, State(bitmap.arr[..], live), k, paddr, n);
    }
  }

  /** (paddr - 0x100000) >> 12. */
  function FrameIndex(paddr: Word): nat { Wrap(paddr - 0x10_0000) / 0x1000 }

  /** paddr and n name the k-th live region. */
  ghost predicate Means(live: seq<Region>, k: nat, paddr: Word, n: nat) {
    k < |live| && live[k] == Region(FrameIndex(paddr), n)
  }

  ghost predicate AllClear(s: seq<Word>, from: nat, to: nat) {
    forall i: nat :: from <= i < to && i < 32 * |s| ==> !At(s, i)
  }

  /** The address that commit_pages returns for a region names it to decommit_pages. */
  lemma AddressNamesRegion(r: Region)
    requires r.start < FRAMES
    ensures r.Address() < RAM_END && FrameIndex(r.Address()) == r.start
  {
    WrapSmall(0x1000 * r.start);
  }

  /** The frames are those of the k-th live region, or nobody's. */
  ghost predicate Releases(s: seq<Word>, live: seq<Region>, k: nat, paddr: Word, n: nat) {
    Means(live, k, paddr, n) || AllClear(s, FrameIndex(paddr), Min(FrameIndex(paddr) + n, FRAMES))
  }

  lemma Decommitted(a: State, b: State, k: nat, paddr: Word, n: nat)
    requires FRAMES <= 32 * |a.bits| && FrameIndex(paddr) <= FRAMES
    requires Filled(a.bits, b.bits, false, FrameIndex(paddr), Min(FrameIndex(paddr) + n, FRAMES))
    requires b.live == if Means(a.live, k, paddr, n) then Without(a.live, k) else a.live
    ensures Owns(a.bits, FRAMES, Clipped(a.live, FRAMES)) ==>
              (Owns(b.bits, FRAMES, Clipped(b.live, FRAMES)) <==> Releases(a.bits, a.live, k, paddr, n))
    ensures Owns(a.bits, FRAMES, a.live) ==> (Owns(b.bits, FRAMES, b.live) <==> Releases(a.bits, a.live, k, paddr, n))
  {
    if Owns(a.bits, FRAMES, Clipped(a.live, FRAMES)) { DecommitTracksIff(a, b, k, paddr, n); }
    if Owns(a.bits, FRAMES, a.live) {
      OwnsClipped(a.bits, FRAMES, a.live);
      DecommitTracksIff(a, b, k, paddr, n);
      assert Clipped(b.live, FRAMES) == b.live;
    }
  }

  lemma DecommitTracksIff(a: State, b: State, k: nat, paddr: Word, n: nat)
    requires FRAMES <= 32 * |a.bits| && Owns(a.bits, FRAMES, Clipped(a.live, FRAMES))
    requires Filled(a.bits, b.bits, false, FrameIndex(paddr), Min(FrameIndex(paddr) + n, FRAMES))
    requires b.live == if Means(a.live, k, paddr, n) then Without(a.live, k) else a.live
    ensures Owns(b.bits, FRAMES, Clipped(b.live, FRAMES)) <==> Releases(a.bits, a.live, k, paddr, n)
  {
    var from, to, clipped := FrameIndex(paddr), Min(FrameIndex(paddr) + n, FRAMES), Clipped(a.live, FRAMES);
    if Means(a.live, k, paddr, n) {
      SameFill(a.bits, b.bits, a.live[k], FRAMES);
      DecommitOwns(a.bits, b.bits, FRAMES, clipped, k);
      assert Clipped(b.live, FRAMES) == Without(clipped, k);
    } else if AllClear(a.bits, from, to) {
      SameMap(a.bits, b.bits);
    } else {
      var i: nat :| from <= i < to && i < 32 * |a.bits| && At(a.bits, i);
      assert Covered(clipped, i) && !At(b.bits, i);
    }
  }

  lemma Committed(a: State, b: State, n: nat)
    requires WellFormed(a.bits, FRAMES, 120) && Step(a, b, FRAMES, 120, Commit(n))
             && FreeRegion(a.bits, FRAMES, 120, n) != NOT_FOUND
    ensures FRAMES <= 32 * |b.bits|
    ensures Owns(a.bits, FRAMES, Clipped(a.live, FRAMES)) ==> Owns(b.bits, FRAMES, Clipped(b.live, FRAMES))
    ensures Owns(a.bits, FRAMES, a.live) ==> (Owns(b.bits, FRAMES, b.live) <==> Truthful(a.bits, FRAMES, 120, n))
  {
    if Owns(a.bits, FRAMES, Clipped(a.live, FRAMES)) { StepKeepsSound(a, b, FRAMES, 120, Commit(n)); }
    if Owns(a.bits, FRAMES, a.live) { StepOwnsIff(a, b, FRAMES, 120, Commit(n)); }
  }

  lemma ClearMap(s: seq<Word>)
    requires |s| > 120 && forall k :: 0 <= k < 120 ==> s[k] == 0
    ensures forall i :: 0 <= i < FRAMES ==> !At(s, i)
    ensures Owns(s, FRAMES, [])
  {
    forall i | 0 <= i < FRAMES ensures !At(s, i) { ZeroBits(i % 32); }
    CountNone(s, FRAMES);
  }

  lemma {:induction false} CountNone(s: seq<Word>, limit: nat)
    requires limit <= 32 * |s| && forall i :: 0 <= i < limit ==> !At(s, i)
    ensures CountSet(s, limit) == 0
  {
    if limit > 0 { CountNone(s, limit - 1); }
  }

  /** Whatever the search returns, overrun or not, starts inside the map and is no longer than memory. */
  lemma RegionInMap(s: seq<Word>, nbits: nat, arrSize: nat, n: nat)
    requires WellFormed(s, nbits, arrSize)
    ensures var r := FreeRegion(s, nbits, arrSize, n);
            r != NOT_FOUND ==> 0 <= r < nbits && r + n <= 32 * |s|
  {
    var f, t := FirstFit(s, nbits, n, 0), TailStart(s, nbits, 0);
    if f < nbits {
      assert FitsAt(s, nbits, n, f);
      RunSpec(s, false, f, nbits);
    } else if t < nbits {
      RunSpec(s, false, t, 32 * |s|);
    }
  }

  // ----- The slab cache -----

  /** Elements are numbered; element i occupies elementSize bytes from data + i * elementSize. */
  function ElementAddress(data: int, size: nat, i: nat): int {
    data + i * size
  }

  /** Distinct elements share no byte. */
  lemma ElementsDisjoint(data: int, size: nat, i: nat, j: nat)
    requires i < j
    ensures ElementAddress(data, size, i) + size <= ElementAddress(data, size, j)
  {
    assert j * size == i * size + (j - i) * size;
    assert (j - i) * size >= size by { Numbers.Multiple(size, j - i); assert size * (j - i) == (j - i) * size; }
  }

  /** Address x lies in element i. */
  predicate InElement(data: int, size: nat, i: nat, x: int) {
    ElementAddress(data, size, i) <= x < ElementAddress(data, size, i) + size
  }

  /** slab_release recovers the index of any byte of an element. */
  lemma IndexOfElement(data: int, size: nat, i: nat, x: int)
    requires InElement(data, size, i, x)
    ensures x >= data && (x - data) / size == i
  {
    IndexOfOffset(size, i, x - data - i * size);
  }

  lemma IndexOfOffset(size: nat, i: nat, b: nat)
    requires b < size
    ensures i * size + b >= 0 && (i * size + b) / size == i
  {
    var x := i * size + b;
    var q, r := x / size, x % size;
    assert x == size * q + r && size * i == i * size;
    if q < i { Numbers.Multiple(size, i - q); }
    if i < q { Numbers.Multiple(size, q - i); }
  }

  function ByteIndex(data: Word, size: nat, x: Word): nat
    requires size > 0
  {
    Wrap(x - data) / size
  }

  /** The index slab_release computes, in 32-bit arithmetic: that of the element the address lies in, or one outside the
      cache if it lies in none. */
  lemma ReleasedIndex(data: Word, size: nat, n: nat, x: Word)
    requires size > 0 && ElementAddress(data, size, n) <= TWO_32
    ensures var index := ByteIndex(data, size, x);
            if data <= x < ElementAddress(data, size, n) then index < n
              && InElement(data, size, index, x) else index >= n
  {
    if x < data {
      WrapBelow(x - data);
      OutsideCache(Wrap(x - data), size, n);
    } else {
      WrapSmall(x - data);
      if x < ElementAddress(data, size, n) { InsideCache(x - data, size, n); } else { OutsideCache(x - data, size, n); }
    }
  }

  lemma OutsideCache(offset: nat, size: nat, n: nat)
    requires size > 0 && offset >= n * size
    ensures offset / size >= n
  {
    var q, r := offset / size, offset % size;
    assert offset == size * q + r;
    if q < n { Numbers.Multiple(size, n - q); }
  }

  lemma InsideCache(offset: nat, size: nat, n: nat)
    requires size > 0 && offset < n * size
    ensures offset / size < n && offset / size * size <= offset < offset / size * size + size
  {
    var q, r := offset / size, offset % size;
    assert offset == size * q + r && q * size == size * q;
    if q > n { Numbers.Multiple(size, q - n); }
  }

  // ----- Runs of the slab allocator -----

  /** Where the elements are, how large and how many. */
  datatype Slab = Slab(data: Word, size: nat, n: nat) {
    predicate Ok() { data > 0 && size > 0 && ElementAddress(data, size, n) <= TWO_32 }
    function Address(i: nat): int { ElementAddress(data, size, i) }
    function End(): int { Address(n) }
  }

  datatype SlabOp = Alloc | Free(x: Word)

  /** `live`: the addresses that were handed out and into which nothing was released since. */
  datatype Slabbed = Slabbed(bits: seq<Word>, live: set<int>)

  /** One call: the first free element is handed out, if there is one; the element that contains x is released, if there
      is one.  result is what slab_alloc returns. */
  ghost predicate SlabStep(c: Slab, a: Slabbed, b: Slabbed, op: SlabOp, result: int)
    requires c.n <= 32 * |a.bits|
  {
    match op
    case Alloc =>
      if exists i :: 0 <= i < c.n && !At(a.bits, i) then
        exists i: nat :: HandsOut(c, a, b, i, result)
      else result == 0 && b == a
    case Free(x) =>
      if c.data <= x < c.End() then
        exists i: nat :: TakesBack(c, a, b, i, x)
      else b == a
  }

  /** The live addresses are exactly those of the elements whose bit is set. */
  ghost predicate Tracks(c: Slab, a: Slabbed) {
    && c.Ok() && c.n <= 32 * |a.bits|
    && (forall i: nat :: i < c.n ==> (c.Address(i) in a.live <==> At(a.bits, i)))
    && (forall e :: e in a.live ==> exists i: nat :: i < c.n && e == c.Address(i))
    && |a.live| == CountSet(a.bits, c.n)
  }

  /** Nothing is out while no bit is set. */
  lemma FreshTracks(c: Slab, s: seq<Word>)
    requires c.Ok() && c.n <= 32 * |s| && forall i :: 0 <= i < c.n ==> !At(s, i)
    ensures Tracks(c, Slabbed(s, {}))
  {
    CountNone(s, c.n);
  }

  lemma OtherAddress(c: Slab, i: nat, j: nat)
    requires c.size > 0
    ensures c.Address(i) == c.Address(j) <==> i == j
  {
    if i < j { ElementsDisjoint(c.data, c.size, i, j); }
    if j < i { ElementsDisjoint(c.data, c.size, j, i); }
  }

  lemma OneBitCount(s: seq<Word>, s': seq<Word>, v: bool, i: nat, n: nat)
    requires i < n <= 32 * |s| && Filled(s, s', v, i, i + 1)
    ensures CountSet(s', n) == CountSet(s, n) + if At(s, i) == v then 0 else if v then 1 else -1
  {
    if At(s, i) == v {
      SameMap(s, s');
    } else if v {
      CountFilled(s, s', i, i + 1, n);
    } else {
      CountFilled(s', s, i, i + 1, n);
    }
  }

  lemma OneBitTracks(c: Slab, a: Slabbed, b: Slabbed, v: bool, i: nat)
    requires Tracks(c, a) && i < c.n && Filled(a.bits, b.bits, v, i, i + 1)
    requires b.live == if v then a.live + {c.Address(i)} else a.live - {c.Address(i)}
    ensures Tracks(c, b)
  {
    OneBitCount(a.bits, b.bits, v, i, c.n);
    LiveCount(a.live, b.live, v, c.Address(i));
    forall j: nat | j < c.n ensures c.Address(j) in b.live <==> At(b.bits, j) { OtherAddress(c, i, j); }
  }

  lemma LiveCount(live: set<int>, live': set<int>, v: bool, e: int)
    requires live' == if v then live + {e} else live - {e}
    ensures |live'| == |live| + if (e in live) == v then 0 else if v then 1 else -1
  {
    if (e in live) == v { assert live' == live; }
  }

  lemma InCache(c: Slab, i: nat)
    requires c.Ok() && i < c.n
    ensures c.data <= c.Address(i) && c.Address(i) + c.size <= c.End()
  {
    ElementsDisjoint(c.data, c.size, i, c.n);
    assert i * c.size >= 0;
  }

  /** slab_alloc hands out element i. */
  ghost predicate HandsOut(c: Slab, a: Slabbed, b: Slabbed, i: nat, result: int)
    requires c.n <= 32 * |a.bits|
  {
    && i < c.n && result == c.Address(i) && !At(a.bits, i) && (forall j :: 0 <= j < i ==> At(a.bits, j))
    && Filled(a.bits, b.bits, true, i, i + 1) && b.live == a.live + {result}
  }

  /** slab_release takes back element i. */
  ghost predicate TakesBack(c: Slab, a: Slabbed, b: Slabbed, i: nat, x: Word) {
    && i < c.n && InElement(c.data, c.size, i, x)
    && Filled(a.bits, b.bits, false, i, i + 1) && b.live == a.live - {c.Address(i)}
  }

  lemma HandsOutTracks(c: Slab, a: Slabbed, b: Slabbed, i: nat, result: int)
    requires Tracks(c, a) && HandsOut(c, a, b, i, result)
    ensures Tracks(c, b) && result !in a.live && result != 0 && |a.live| < c.n
  {
    InCache(c, i);
    CountFull(a.bits, c.n);
    OneBitTracks(c, a, b, true, i);
  }

  /** What slab_alloc returns is null exactly when every element is out, and otherwise the address of none that is. */
  lemma SlabStepTracks(c: Slab, a: Slabbed, b: Slabbed, op: SlabOp, result: int)
    requires Tracks(c, a) && SlabStep(c, a, b, op, result)
    ensures Tracks(c, b)
    ensures op.Alloc? ==> result !in a.live && (result == 0 <==> |a.live| == c.n)
  {
    match op
    case Alloc =>
      if exists i :: 0 <= i < c.n && !At(a.bits, i) {
        var i: nat :| HandsOut(c, a, b, i, result);
        HandsOutTracks(c, a, b, i, result);
      } else {
        CountFull(a.bits, c.n);
        NullNotLive(c, a);
      }
    case Free(x) =>
      if c.data <= x < c.End() {
        var i: nat :| TakesBack(c, a, b, i, x);
        OneBitTracks(c, a, b, false, i);
      }
  }

  lemma NullNotLive(c: Slab, a: Slabbed)
    requires Tracks(c, a)
    ensures 0 !in a.live
  {
    if 0 in a.live {
      var i: nat :| i < c.n && 0 == c.Address(i);
      InCache(c, i);
    }
  }

  lemma {:induction false} CountFull(s: seq<Word>, limit: nat)
    requires limit <= 32 * |s|
    ensures CountSet(s, limit) <= limit && (CountSet(s, limit) == limit <==> forall i :: 0 <= i < limit ==> At(s, i))
  {
    if limit > 0 { CountFull(s, limit - 1); }
  }

  /** Over every run the addresses handed out are those of the set bits, as many as there are, and share no byte. */
  lemma {:induction false} SlabRunTracks(c: Slab, trace: seq<Slabbed>, ops: seq<SlabOp>, results: seq<int>)
    requires |trace| == |ops| + 1 && |results| == |ops| && Tracks(c, trace[0])
    requires forall j :: 0 <= j < |ops| ==>
               c.n <= 32 * |trace[j].bits| && SlabStep(c, trace[j], trace[j + 1], ops[j], results[j])
    ensures Tracks(c, trace[|ops|])
    ensures forall e, f :: e in trace[|ops|].live && f in trace[|ops|].live && e < f ==>
              c.data <= e && e + c.size <= f && f + c.size <= c.End()
    decreases |ops|
  {
    if ops != [] {
      var n := |ops| - 1;
      SlabRunTracks(c, trace[..|ops|], ops[..n], results[..n]);
      SlabStepTracks(c, trace[n], trace[n + 1], ops[n], results[n]);
    }
    LiveApart(c, trace[|ops|]);
  }

  lemma LiveApart(c: Slab, a: Slabbed)
    requires Tracks(c, a)
    ensures forall e, f :: e in a.live && f in a.live && e < f ==>
              c.data <= e && e + c.size <= f && f + c.size <= c.End()
  {
    forall e, f | e in a.live && f in a.live && e < f
      ensures c.data <= e && e + c.size <= f && f + c.size <= c.End()
    {
      var i: nat :| i < c.n && e == c.Address(i);
      var j: nat :| j < c.n && f == c.Address(j);
      InOrder(c, i, j);
    }
  }

  lemma InOrder(c: Slab, i: nat, j: nat)
    requires c.Ok() && i < c.n && j < c.n && c.Address(i) < c.Address(j)
    ensures c.data <= c.Address(i) && c.Address(i) + c.size <= c.Address(j) && c.Address(j) + c.size <= c.End()
  {
    InCache(c, i);
    InCache(c, j);
    if j < i { ElementsDisjoint(c.data, c.size, j, i); } else { ElementsDisjoint(c.data, c.size, i, j); }
  }

  /** Releasing any address in the element just handed out restores the bitmap and the live addresses. */
  lemma AllocThenRelease(c: Slab, a: Slabbed, b: Slabbed, d: Slabbed, result: int, x: Word)
    requires Tracks(c, a) && SlabStep(c, a, b, Alloc, result) && result != 0 && result <= x < result + c.size
    requires |b.bits| == |a.bits| && SlabStep(c, b, d, Free(x), 0)
    ensures d == a
  {
    var i: nat :| HandsOut(c, a, b, i, result);
    HandsOutTracks(c, a, b, i, result);
    InCache(c, i);
    var j: nat :| TakesBack(c, b, d, j, x);
    SameElement(c, i, j, x);
    TakenBack(c, a, b, d, i, result, x);
  }

  lemma TakenBack(c: Slab, a: Slabbed, b: Slabbed, d: Slabbed, i: nat, result: int, x: Word)
    requires c.n <= 32 * |a.bits| && HandsOut(c, a, b, i, result) && TakesBack(c, b, d, i, x) && result !in a.live
    ensures d == a
  {
    FillThenEmpty(a.bits, b.bits, d.bits, i, i + 1);
    assert d.live == a.live;
  }

  lemma SameElement(c: Slab, i: nat, j: nat, x: int)
    requires InElement(c.data, c.size, i, x) && InElement(c.data, c.size, j, x)
    ensures i == j
  {
    IndexOfElement(c.data, c.size, i, x);
    IndexOfElement(c.data, c.size, j, x);
  }

  class SlabCache {
    const elementSize: nat
    const data: Word
    const bitmap: BitMap
    /** The addresses handed out and not yet released. */
    ghost var live: set<int>

    ghost function Cache(): Slab { Slab(data, elementSize, bitmap.nbits) }

    ghost function Content(): Slabbed
      reads this, bitmap.arr
    {
      Slabbed(bitmap.arr[..], live)
    }

    ghost predicate Valid()
      reads bitmap.arr
    {
      bitmap.Valid() && Cache().Ok()
    }

    constructor (size: nat, elements: Word, m: BitMap)
      requires m.Valid() && size > 0 && elements > 0 && ElementAddress(elements, size, m.nbits) <= TWO_32
      ensures Valid() && elementSize == size && data == elements && bitmap == m && live == {}
      ensures (forall i :: 0 <= i < m.nbits ==> !At(m.arr[..], i)) ==> Tracks(Cache(), Content())
    {
      elementSize := size;
      data := elements;
      bitmap := m;
      live := {};
      new;
      if forall i :: 0 <= i < m.nbits ==> !At(m.arr[..], i) { FreshTracks(Cache(), m.arr[..]); }
    }

    /** slab_alloc: null when every element is taken, else the address of the first free one, now taken. */
    method SlabAlloc() returns (element: Word)
      requires Valid()
      modifies this`live, bitmap.arr
      ensures Valid() && |bitmap.arr[..]| == |old(bitmap.arr[..])|
      ensures SlabStep(Cache(), old(Content()), Content(), Alloc, element)
    {
      ghost var a, n := Content(), bitmap.nbits;
      var index := bitmap.FindFreeRegion(1);
      FreeRegionExactIff(a.bits, n, bitmap.arrSize, 1);
      OneBitFits(a.bits, n);
      if index == NOT_FOUND {
        return 0;
      }
      TruthfulFits(a.bits, n, bitmap.arrSize, 1);
      bitmap.Set(index, 1);
      InCache(Cache(), index);
      element := data + index * elementSize;
      live := live + {element};
      assert HandsOut(Cache(), a, Content(), index, element);
    }

    /** slab_release: frees the element the address points into; addresses outside the cache are ignored. */
    method SlabRelease(element: Word)
      requires Valid()
      modifies this`live, bitmap.arr
      ensures Valid() && |bitmap.arr[..]| == |old(bitmap.arr[..])|
      ensures SlabStep(Cache(), old(Content()), Content(), Free(element), 0)
    {
      ghost var a := Content();
      var index := Wrap(element - data) / elementSize;
      ReleasedIndex(data, elementSize, bitmap.nbits, element);
      if index < bitmap.nbits {
        bitmap.Clear(index, 1);
        live := live - {Cache().Address(index)};
        assert TakesBack(Cache(), a, Content(), index, element);
      }
    }
  }

  lemma OneBitFits(s: seq<Word>, nbits: nat)
    requires nbits <= 32 * |s|
    ensures forall i :: 0 <= i < nbits ==> (FitsAt(s, nbits, 1, i) <==> !At(s, i))
  {
  }
}
