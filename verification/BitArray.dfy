/** The bit array of kernel/src/mm/bitarray.c: bits are set, cleared and scanned a word at a time, and every operation
    is specified bit by bit. */
module BitArray {
  import opened Machine
  import opened Bits

  /** Bit i of an array of words. */
  function At(s: seq<Word>, i: nat): bool
    requires i < 32 * |s|
  {
    Bit(s[i / 32], i % 32)
  }

  /** Length of the maximal run of bits equal to v that starts at n, looking no further than limit. */
  function Run(s: seq<Word>, v: bool, n: nat, limit: nat): nat
    requires limit <= 32 * |s|
    decreases limit - n, |s|
  {
    if n < limit && At(s, n) == v then 1 + Run(s, v, n + 1, limit) else 0
  }

  lemma {:induction false} RunSpec(s: seq<Word>, v: bool, n: nat, limit: nat)
    requires limit <= 32 * |s| && n <= limit
    ensures var r := Run(s, v, n, limit);
            && n + r <= limit
            && (forall i :: n <= i < n + r ==> At(s, i) == v)
            && (n + r < limit ==> At(s, n + r) != v)
    decreases limit - n
  {
    if n < limit && At(s, n) == v { RunSpec(s, v, n + 1, limit); }
  }

  lemma {:induction false} RunIs(s: seq<Word>, v: bool, n: nat, limit: nat, r: nat)
    requires limit <= 32 * |s| && n + r <= limit
    requires forall i :: n <= i < n + r ==> At(s, i) == v
    requires n + r < limit ==> At(s, n + r) != v
    ensures Run(s, v, n, limit) == r
    decreases r
  {
    if r > 0 {
      assert At(s, n) == v;
      RunIs(s, v, n + 1, limit, r - 1);
    }
  }

  /** A run that ends before the nearer limit is the same run under the farther one. */
  lemma RunMonotone(s: seq<Word>, v: bool, n: nat, limit: nat, more: nat)
    requires n <= limit <= more <= 32 * |s|
    ensures Run(s, v, n, limit) <= Run(s, v, n, more)
    ensures n + Run(s, v, n, limit) < limit ==> Run(s, v, n, limit) == Run(s, v, n, more)
  {
    RunSpec(s, v, n, limit);
    RunSpec(s, v, n, more);
    if Run(s, v, n, limit) < Run(s, v, n, more) && n + Run(s, v, n, limit) < limit {
      assert false;
    }
  }

  lemma RunSuffix(s: seq<Word>, v: bool, n: nat, limit: nat, i: nat)
    requires limit <= 32 * |s| && n <= limit
    requires n <= i <= n + Run(s, v, n, limit)
    ensures Run(s, v, i, limit) == n + Run(s, v, n, limit) - i
  {
    RunSpec(s, v, n, limit);
    RunIs(s, v, i, limit, n + Run(s, v, n, limit) - i);
  }

  /** The region [i, i + size) is inside the map and all clear. */
  predicate FitsAt(s: seq<Word>, nbits: nat, size: nat, i: nat)
    requires nbits <= 32 * |s|
  {
    i < nbits && Run(s, false, i, nbits) >= size
  }

  /** Where the clear run that reaches the end of the map starts (nbits when the last bit is set). */
  function TailStart(s: seq<Word>, nbits: nat, n: nat): (t: nat)
    requires n <= nbits <= 32 * |s|
    ensures n <= t <= nbits && (forall i :: t <= i < nbits ==> !At(s, i))
    ensures t > n ==> At(s, t - 1)
    decreases nbits - n, |s|
  {
    if n == nbits then n
    else
      var t := TailStart(s, nbits, n + 1);
      if t == n + 1 && !At(s, n) then n else t
  }

  /** The map's size in words, the words of the map, and the memory that follows it.

      find_free_bits and find_set_bits test for the last word only after advancing past the first one, so a scan that
      starts in the last word and finds no end there reads on.  `s` therefore includes words beyond arrSize: whatever
      memory follows, up to a word at which both scans stop. */
  ghost predicate WellFormed(s: seq<Word>, nbits: nat, arrSize: nat) {
    && 0 < nbits && arrSize == (nbits + 31) / 32
    && arrSize < |s| && 32 * |s| < 0xFFFF_FFFF
    && (forall i :: nbits <= i < 32 * arrSize ==> !At(s, i))
    && s[|s| - 1] != 0 && !Bit(s[|s| - 1], TOP_BIT)
  }

  /** How far a scan from n looks. */
  function Horizon(s: seq<Word>, nbits: nat, arrSize: nat, n: nat): nat {
    if arrSize > 0 && n / 32 < arrSize - 1 then nbits else 32 * |s|
  }

  /** Looking past nbits changes the count exactly when the run reaches nbits and goes on there. */
  lemma RunBeyondIff(s: seq<Word>, v: bool, n: nat, nbits: nat)
    requires n < nbits < 32 * |s|
    ensures Run(s, v, n, 32 * |s|) == Run(s, v, n, nbits) <==> Run(s, v, n, nbits) < nbits - n || At(s, nbits) != v
  {
    RunMonotone(s, v, n, nbits, 32 * |s|);
    RunSpec(s, v, n, nbits);
    RunSpec(s, v, n, 32 * |s|);
    if Run(s, v, n, nbits) == nbits - n && At(s, nbits) != v {
      RunIs(s, v, n, 32 * |s|, nbits - n);
    }
  }

  lemma PaddingIsClear(s: seq<Word>, nbits: nat, arrSize: nat)
    requires WellFormed(s, nbits, arrSize)
    ensures nbits < 32 * |s| && (nbits % 32 != 0 ==> !At(s, nbits))
  {
  }

  /** The word-skipping scan counts exactly the clear run from n inside the map, unless n is in the last word and the
      run has no end there: then it is exact only if the map ends with the word and the next bit of memory is set. */
  lemma FreeScanExactIff(s: seq<Word>, nbits: nat, arrSize: nat, n: nat)
    requires WellFormed(s, nbits, arrSize) && n < nbits
    ensures Run(s, false, n, Horizon(s, nbits, arrSize, n)) == Run(s, false, n, nbits)
            <==> n / 32 < arrSize - 1 || Run(s, false, n, nbits) < nbits - n || (nbits % 32 == 0 && At(s, nbits))
  {
    PaddingIsClear(s, nbits, arrSize);
    if n / 32 >= arrSize - 1 { RunBeyondIff(s, false, n, nbits); }
  }

  /** The same for the scan over set bits; padding bits are clear, so only a map that fills its last word can be
      overrun. */
  lemma SetScanExactIff(s: seq<Word>, nbits: nat, arrSize: nat, n: nat)
    requires WellFormed(s, nbits, arrSize) && n < nbits
    ensures Run(s, true, n, Horizon(s, nbits, arrSize, n)) == Run(s, true, n, nbits)
            <==> n / 32 < arrSize - 1 || Run(s, true, n, nbits) < nbits - n || nbits % 32 != 0 || !At(s, nbits)
  {
    PaddingIsClear(s, nbits, arrSize);
    if n / 32 >= arrSize - 1 { RunBeyondIff(s, true, n, nbits); }
  }

  /** The scan result for the tail run is too long: it starts in the last word and reading on finds `size` clear
      bits. */
  predicate Overrun(s: seq<Word>, nbits: nat, arrSize: nat, size: nat)
    requires nbits <= 32 * |s|
  {
    var t := TailStart(s, nbits, 0);
    t < nbits && t / 32 == arrSize - 1 && Run(s, false, t, 32 * |s|) >= size
  }

  /** s' is s with the bits of [pos, end) made v. */
  ghost predicate Filled(s: seq<Word>, s': seq<Word>, v: bool, pos: nat, end: nat) {
    |s'| == |s| && forall i: nat :: i < 32 * |s| ==> At(s', i) == (if pos <= i < end then v else At(s, i))
  }

  /** The number of bits bitarray_set and bitarray_clear go on with, in 32-bit arithmetic. */
  function Clamp(nbits: nat, pos: nat, n: nat): nat {
    if Wrap(pos + n) > nbits then Wrap(nbits - pos) else n
  }

  /** They stay in the map if and only if the range starts in it, or just behind it, and its end does not wrap; and then
      the range is what it should be, cut off at the end of the map.  In every other case they run on to the end of
      memory. */
  lemma ClampIff(nbits: nat, pos: nat, n: nat)
    requires nbits < TWO_32 && pos < TWO_32 && n < TWO_32
    ensures pos + Clamp(nbits, pos, n) <= nbits <==> pos <= nbits && pos + n < TWO_32
    ensures pos + Clamp(nbits, pos, n) <= nbits ==> pos + Clamp(nbits, pos, n) == Min(pos + n, nbits)
    ensures pos + Clamp(nbits, pos, n) > nbits ==> pos + Clamp(nbits, pos, n) >= TWO_32
  {
    if pos + n < TWO_32 { WrapSmall(pos + n); } else { WrapAbove(pos + n); }
    if pos <= nbits { WrapSmall(nbits - pos); } else { WrapBelow(nbits - pos); }
  }

  lemma WrapAbove(x: int)
    requires TWO_32 <= x < 2 * TWO_32
    ensures Wrap(x) == x - TWO_32
  {
  }

  lemma WrapBelow(x: int)
    requires -TWO_32 <= x < 0
    ensures Wrap(x) == x + TWO_32
  {
  }

  /** Rewriting one word so that its bits of [a, b) become v extends a filling from a to b. */
  lemma FillMore(s: seq<Word>, s1: seq<Word>, v: bool, pos: nat, a: nat, b: nat, j: nat, w: Word)
    requires Filled(s, s1, v, pos, a)
    requires pos <= a <= b && 32 * j <= a && b <= 32 * j + 32 && j < |s|
    requires forall k: nat :: k < 32 ==> Bit(w, k) == (if a - 32 * j <= k < b - 32 * j then v else Bit(s1[j], k))
    ensures Filled(s, s1[j := w], v, pos, b)
  {
    var s2 := s1[j := w];
    forall i: nat {:trigger At(s2, i)} | i < 32 * |s|
      ensures At(s2, i) == (if pos <= i < b then v else At(s, i))
    {
      FillMoreAt(s, s1, v, pos, a, b, j, w, i);
    }
  }

  lemma FillMoreAt(s: seq<Word>, s1: seq<Word>, v: bool, pos: nat, a: nat, b: nat, j: nat, w: Word, i: nat)
    requires |s1| == |s| && i < 32 * |s| && At(s1, i) == (if pos <= i < a then v else At(s, i))
    requires pos <= a <= b && 32 * j <= a && b <= 32 * j + 32 && j < |s|
    requires i / 32 == j ==> Bit(w, i % 32) == (if a - 32 * j <= i % 32 < b - 32 * j then v else Bit(s1[j], i % 32))
    ensures At(s1[j := w], i) == (if pos <= i < b then v else At(s, i))
  {
    if i / 32 == j { assert i == 32 * j + i % 32; }
  }

  /** Changing only bits inside the map keeps it well formed. */
  lemma FilledWellFormed(s: seq<Word>, s': seq<Word>, v: bool, pos: nat, end: nat, nbits: nat, arrSize: nat)
    requires WellFormed(s, nbits, arrSize) && Filled(s, s', v, pos, end) && end <= nbits
    ensures WellFormed(s', nbits, arrSize)
  {
    var last := |s| - 1;
    var k := NonZeroHasBit(s[last]);
    assert At(s, 32 * last + k) && At(s', 32 * last + k);
    WordWithBit(s'[last], k);
    assert !At(s, 32 * last + 31) && !At(s', 32 * last + 31);
    forall i | nbits <= i < 32 * arrSize ensures !At(s', i) { assert !At(s, i); }
  }

  /** The least index at which a region of `size` clear bits fits inside the map, or nbits. */
  function FirstFit(s: seq<Word>, nbits: nat, size: nat, from: nat): (f: nat)
    requires from <= nbits <= 32 * |s|
    ensures from <= f <= nbits
    ensures f < nbits ==> FitsAt(s, nbits, size, f)
    ensures forall i :: from <= i < f ==> !FitsAt(s, nbits, size, i)
    decreases nbits - from, |s|
  {
    if from == nbits || FitsAt(s, nbits, size, from) then from else FirstFit(s, nbits, size, from + 1)
  }

  const NOT_FOUND: Word := 0xFFFF_FFFF

  /** What bitarray_find_free_region returns: the first fit; with none, -1, or the start of an overrun tail. */
  function FreeRegion(s: seq<Word>, nbits: nat, arrSize: nat, size: nat): int
    requires nbits <= 32 * |s|
  {
    var f := FirstFit(s, nbits, size, 0);
    if f < nbits then f else if Overrun(s, nbits, arrSize, size) then TailStart(s, nbits, 0) else NOT_FOUND
  }

  /** It is true first fit exactly when something fits or the tail does not overrun.  One free bit always suffices:
      for size 1, what pmm.c and slab.c callers ask for most, the answer is never wrong. */
  lemma FreeRegionExactIff(s: seq<Word>, nbits: nat, arrSize: nat, size: nat)
    requires WellFormed(s, nbits, arrSize)
    ensures var f, r := FirstFit(s, nbits, size, 0), FreeRegion(s, nbits, arrSize, size);
            (if f < nbits then r == f else r == NOT_FOUND) <==> f < nbits || !Overrun(s, nbits, arrSize, size)
    ensures size <= 1 ==> FirstFit(s, nbits, size, 0) < nbits || !Overrun(s, nbits, arrSize, size)
  {
    var t := TailStart(s, nbits, 0);
    if size <= 1 && t < nbits {
      assert FitsAt(s, nbits, size, t);
    }
  }

  lemma FirstFitIs(s: seq<Word>, nbits: nat, size: nat, f: nat)
    requires f <= nbits <= 32 * |s|
    requires f < nbits ==> FitsAt(s, nbits, size, f)
    requires forall i :: 0 <= i < f ==> !FitsAt(s, nbits, size, i)
    ensures FirstFit(s, nbits, size, 0) == f
  {
  }

  lemma {:induction false} TailStartIs(s: seq<Word>, nbits: nat, n: nat, t: nat)
    requires n <= t <= nbits <= 32 * |s|
    requires forall i :: t <= i < nbits ==> !At(s, i)
    requires t > n ==> At(s, t - 1)
    ensures TailStart(s, nbits, n) == t
  {
    var u := TailStart(s, nbits, n);
  }

  // ----- The search loop, step by step -----

  /** Position i starts a clear run. */
  predicate Starts(s: seq<Word>, i: nat)
    requires i <= 32 * |s|
  {
    i == 0 || At(s, i - 1)
  }

  /** What the loop has established on reaching index. */
  ghost predicate Searched(s: seq<Word>, nbits: nat, arrSize: nat, size: nat, index: nat)
    requires WellFormed(s, nbits, arrSize)
  {
    && (forall i :: 0 <= i < index && i < nbits ==> !FitsAt(s, nbits, size, i))
    && (forall i :: 0 <= i < index && i < nbits && Starts(s, i) ==>
          Run(s, false, i, Horizon(s, nbits, arrSize, i)) < size)
    && (index < nbits ==> Starts(s, index))
  }

  /** A clear scan from inside the map stops at a set bit, or at the end of the map. */
  lemma ClearScanStops(s: seq<Word>, nbits: nat, arrSize: nat, n: nat)
    requires WellFormed(s, nbits, arrSize) && n < nbits
    ensures var e := n + Run(s, false, n, Horizon(s, nbits, arrSize, n));
            e < 32 * |s| && (At(s, e) || e == nbits)
  {
    var k := NonZeroHasBit(s[|s| - 1]);
    assert At(s, 32 * (|s| - 1) + k);
    RunSpec(s, false, n, Horizon(s, nbits, arrSize, n));
  }

  lemma SearchReturns(s: seq<Word>, nbits: nat, arrSize: nat, size: nat, index: nat)
    requires WellFormed(s, nbits, arrSize) && index < nbits && Searched(s, nbits, arrSize, size, index)
    requires Run(s, false, index, Horizon(s, nbits, arrSize, index)) >= size
    ensures FreeRegion(s, nbits, arrSize, size) == index
  {
    RunMonotone(s, false, index, nbits, 32 * |s|);
    RunSpec(s, false, index, nbits);
    if FitsAt(s, nbits, size, index) {
      FirstFitIs(s, nbits, size, index);
    } else {
      TailStartIs(s, nbits, 0, index);
      forall i | index <= i < nbits
        ensures !FitsAt(s, nbits, size, i)
      {
        RunSuffix(s, false, index, nbits, i);
      }
      FirstFitIs(s, nbits, size, nbits);
    }
  }

  lemma SearchFails(s: seq<Word>, nbits: nat, arrSize: nat, size: nat, index: nat)
    requires WellFormed(s, nbits, arrSize) && index >= nbits && Searched(s, nbits, arrSize, size, index)
    ensures FreeRegion(s, nbits, arrSize, size) == NOT_FOUND
  {
    FirstFitIs(s, nbits, size, nbits);
    var t := TailStart(s, nbits, 0);
    if t < nbits { assert Starts(s, t); }
  }

  /** The bounds of one pass: a clear run from index, then a set run of at least one bit, or the end of the map. */
  lemma OnePass(s: seq<Word>, nbits: nat, arrSize: nat, index: nat, free: nat, skip: nat)
    requires WellFormed(s, nbits, arrSize) && index < nbits
    requires free == Run(s, false, index, Horizon(s, nbits, arrSize, index)) && index + free < 32 * |s|
    requires skip == Run(s, true, index + free, Horizon(s, nbits, arrSize, index + free))
    ensures index < index + free + skip <= 32 * |s|
    ensures forall i :: index <= i < index + free ==> !At(s, i)
    ensures forall i :: index + free <= i < index + free + skip ==> At(s, i)
    ensures index + free + skip < nbits ==> skip > 0
    ensures Run(s, false, index, nbits) <= free
  {
    var n := index + free;
    var h, h' := Horizon(s, nbits, arrSize, index), Horizon(s, nbits, arrSize, n);
    ClearScanStops(s, nbits, arrSize, index);
    RunSpec(s, false, index, h);
    RunMonotone(s, false, index, nbits, h);
    assert n <= h';
    RunSpec(s, true, n, h');
  }

  lemma SearchAdvances(s: seq<Word>, nbits: nat, arrSize: nat, size: nat, index: nat, free: nat, next: nat)
    requires WellFormed(s, nbits, arrSize) && index < nbits && Searched(s, nbits, arrSize, size, index)
    requires free == Run(s, false, index, Horizon(s, nbits, arrSize, index)) < size
    requires index + free < 32 * |s|
    requires next == index + free + Run(s, true, index + free, Horizon(s, nbits, arrSize, index + free))
    ensures index < next <= 32 * |s| && Searched(s, nbits, arrSize, size, next)
  {
    var n := index + free;
    OnePass(s, nbits, arrSize, index, free, next - n);
    forall i | index <= i < next && i < nbits
      ensures !FitsAt(s, nbits, size, i)
    {
      PassSkips(s, nbits, size, index, n, i);
    }
    forall i | index <= i < next && i < nbits && Starts(s, i)
      ensures Run(s, false, i, Horizon(s, nbits, arrSize, i)) < size
    {
      if i >= n { assert At(s, i); } else { assert i == index; }
    }
    if next < nbits { assert At(s, next - 1); }
  }

  lemma PassSkips(s: seq<Word>, nbits: nat, size: nat, index: nat, n: nat, i: nat)
    requires index <= i < nbits <= 32 * |s| && index + Run(s, false, index, nbits) <= n < index + size
    requires i >= n ==> At(s, i)
    requires n <= 32 * |s| && forall k :: index <= k < n ==> !At(s, k)
    ensures !FitsAt(s, nbits, size, i)
  {
    if i < n {
      RunSpec(s, false, index, nbits);
      RunSuffix(s, false, index, nbits, i);
    }
  }

  class BitMap {
    const nbits: nat
    const arrSize: nat
    const arr: array<Word>

    ghost predicate Valid()
      reads arr
    {
      WellFormed(arr[..], nbits, arrSize)
    }

    constructor (words: array<Word>, bits: nat)
      requires WellFormed(words[..], bits, (bits + 31) / 32)
      ensures Valid() && arr == words && nbits == bits
    {
      nbits := bits;
      arrSize := (bits + 31) / 32;
      arr := words;
    }

    /** bitarray_set: sets n bits starting from pos, clamped to the end of the map; no other bit changes. */
    method Set(pos: nat, n: nat)
      requires Valid() && pos <= nbits && pos + n < TWO_32
      modifies arr
      ensures Valid() && Filled(old(arr[..]), arr[..], true, pos, Min(pos + n, nbits))
    {
      ghost var s, end := arr[..], Min(pos + n, nbits);
      ClampIff(nbits, pos, n);
      var count := Clamp(nbits, pos, n);
      var j := pos / 32;
      var bit := pos % 32;
      var here := if 32 - bit > count then count else 32 - bit;
      FillMore(s, s, true, pos, pos, pos + here, j, BitSet(arr[j], here, bit));
      arr[j] := BitSet(arr[j], here, bit);
      assert arr[..] == s[j := arr[j]];
      count := count - here;
      j := j + 1;
      while count >= 32
        invariant count >= 0 && end - count <= 32 * j && (count > 0 ==> end - count == 32 * j)
        invariant Filled(s, arr[..], true, pos, end - count)
      {
        ghost var s1 := arr[..];
        forall k: nat | k < 32 ensures Bit(ONES, k) { OnesBits(k); }
        FillMore(s, s1, true, pos, 32 * j, 32 * j + 32, j, ONES);
        arr[j] := ONES;
        assert arr[..] == s1[j := ONES];
        j := j + 1;
        count := count - 32;
      }
      if count != 0 {
        ghost var s1 := arr[..];
        FillMore(s, s1, true, pos, 32 * j, end, j, BitSet(arr[j], count, 0));
        arr[j] := BitSet(arr[j], count, 0);
        assert arr[..] == s1[j := arr[j]];
      }
      FilledWellFormed(s, arr[..], true, pos, end, nbits, arrSize);
    }

    /** bitarray_clear: the same with clear bits. */
    method Clear(pos: nat, n: nat)
      requires Valid() && pos <= nbits && pos + n < TWO_32
      modifies arr
      ensures Valid() && Filled(old(arr[..]), arr[..], false, pos, Min(pos + n, nbits))
    {
      ghost var s, end := arr[..], Min(pos + n, nbits);
      ClampIff(nbits, pos, n);
      var count := Clamp(nbits, pos, n);
      var j := pos / 32;
      var bit := pos % 32;
      var here := if 32 - bit > count then count else 32 - bit;
      FillMore(s, s, false, pos, pos, pos + here, j, BitClear(arr[j], here, bit));
      arr[j] := BitClear(arr[j], here, bit);
      assert arr[..] == s[j := arr[j]];
      count := count - here;
      j := j + 1;
      while count >= 32
        invariant count >= 0 && end - count <= 32 * j && (count > 0 ==> end - count == 32 * j)
        invariant Filled(s, arr[..], false, pos, end - count)
      {
        ghost var s1 := arr[..];
        forall k: nat | k < 32 ensures !Bit(0, k) { ZeroBits(k); }
        FillMore(s, s1, false, pos, 32 * j, 32 * j + 32, j, 0);
        arr[j] := 0;
        assert arr[..] == s1[j := 0];
        j := j + 1;
        count := count - 32;
      }
      if count != 0 {
        ghost var s1 := arr[..];
        FillMore(s, s1, false, pos, 32 * j, end, j, BitClear(arr[j], count, 0));
        arr[j] := BitClear(arr[j], count, 0);
        assert arr[..] == s1[j := arr[j]];
      }
      FilledWellFormed(s, arr[..], false, pos, end, nbits, arrSize);
    }

    /** The test_value loop of both scans: how many places until bit 0 is set. */
    static method PlacesToSetBit(word: Word) returns (places: nat)
      requires word != 0
      ensures places < 32 && Bit(word, places) && forall k: nat :: k < places ==> !Bit(word, k)
    {
      ghost var last := NonZeroHasBit(word);
      places := 0;
      var test: Word := word;
      while test % 2 == 0
        invariant places <= last && test == Shr(word, places)
        invariant forall k: nat :: k < places ==> !Bit(word, k)
        decreases last - places
      {
        ShrBit(word, places, 0);
        ShrLast(word, places);
        test := test / 2;
        places := places + 1;
      }
      ShrBit(word, places, 0);
    }

    /** find_free_bits: the length of the clear run from n as far as the scan looks. */
    method FindFreeBits(n: nat) returns (free: nat)
      requires Valid() && n < 32 * arrSize
      ensures free == Run(arr[..], false, n, Horizon(arr[..], nbits, arrSize, n))
    {
      ghost var s := arr[..];
      var j := n / 32;
      var bit := n % 32;
      var last := Bsr(arr[j]);
      if arr[j] == 0 || last < bit {
        free := 32 - bit;
        ClearFromWord(s, n, last);
      } else {
        ShrHasBit(arr[j], bit, last);
        free := PlacesToSetBit(Shr(arr[j], bit));
        ClearRunEndsInWord(s, nbits, arrSize, n, free);
        return;
      }
      free := FindClearWords(n, j + 1, free);
    }

    /** The whole-word loop and the bsf tail of find_free_bits. */
    method FindClearWords(n: nat, from: nat, before: nat) returns (free: nat)
      requires Valid() && from == n / 32 + 1 <= arrSize && n + before == 32 * from
      requires forall i :: n <= i < 32 * from ==> !At(arr[..], i)
      ensures free == Run(arr[..], false, n, Horizon(arr[..], nbits, arrSize, n))
    {
      ghost var s := arr[..];
      var j := from;
      free := before;
      while arr[j] == 0
        invariant from <= j < arr.Length && n + free == 32 * j
        invariant forall i :: n <= i < 32 * j ==> !At(s, i)
        invariant n / 32 < arrSize - 1 <==> j < arrSize
        decreases arr.Length - j
      {
        ZeroWord(s, j);
        if j == arrSize - 1 {
          var tail := nbits % 32;
          free := free + if tail != 0 then tail else 32;
          RunIs(s, false, n, nbits, free);
          return;
        }
        assert forall i :: n <= i < 32 * (j + 1) ==> !At(s, i);
        free := free + 32;
        j := j + 1;
      }
      var more := Bsf(arr[j]);
      free := free + more;
      ClearRunEndsAt(s, nbits, arrSize, n, j, more, free);
    }

    /** find_set_bits: the length of the set run from n as far as the scan looks. */
    method FindSetBits(n: nat) returns (count: nat)
      requires Valid() && n < 32 * arr.Length
      ensures count == Run(arr[..], true, n, Horizon(arr[..], nbits, arrSize, n))
    {
      ghost var s := arr[..];
      var j := n / 32;
      var bit := n % 32;
      var last := Bsr(Not(arr[j]));
      if arr[j] == ONES || last < bit {
        count := 32 - bit;
        SetFromWord(s, n, last);
        FenceIsNotOnes(s, nbits, arrSize, n, j);
      } else {
        NotShrHasBit(arr[j], bit, last);
        count := PlacesToSetBit(Not(Shr(arr[j], bit)));
        SetRunEndsInWord(s, nbits, arrSize, n, count);
        return;
      }
      count := FindSetWords(n, j + 1, count);
    }

    /** The whole-word loop and the bsf tail of find_set_bits. */
    method FindSetWords(n: nat, from: nat, before: nat) returns (count: nat)
      requires Valid() && from == n / 32 + 1 < arr.Length && n + before == 32 * from
      requires forall i :: n <= i < 32 * from ==> At(arr[..], i)
      ensures count == Run(arr[..], true, n, Horizon(arr[..], nbits, arrSize, n))
    {
      ghost var s := arr[..];
      var j := from;
      count := before;
      while arr[j] == ONES
        invariant from <= j < arr.Length && n + count == 32 * j
        invariant forall i :: n <= i < 32 * j ==> At(s, i)
        invariant n / 32 < arrSize - 1 <==> j < arrSize
        decreases arr.Length - j
      {
        OnesWord(s, j);
        if j == arrSize - 1 {
          FullLastWord(s, nbits, arrSize);
          var tail := nbits % 32;
          count := count + if tail != 0 then tail else 32;
          RunIs(s, true, n, nbits, count);
          return;
        }
        assert forall i :: n <= i < 32 * (j + 1) ==> At(s, i);
        FenceIsNotOnes(s, nbits, arrSize, n, j);
        count := count + 32;
        j := j + 1;
      }
      var more := Bsf(Not(arr[j]));
      count := count + more;
      SetRunEndsAt(s, nbits, arrSize, n, j, more, count);
    }

    /** find_first_free_bit. */
    method FindFirstFreeBit(pos: nat) returns (index: nat)
      requires Valid() && pos < 32 * arr.Length
      ensures index == pos + Run(arr[..], true, pos, Horizon(arr[..], nbits, arrSize, pos))
    {
      var count := FindSetBits(pos);
      index := count + pos;
    }

    /** bitarray_find_free_region. */
    method FindFreeRegion(size: nat) returns (region: int)
      requires Valid()
      ensures region == FreeRegion(arr[..], nbits, arrSize, size)
    {
      ghost var s := arr[..];
      var index := 0;
      while index < nbits
        invariant s == arr[..] && index <= 32 * |s| && Searched(s, nbits, arrSize, size, index)
        decreases 32 * |s| - index
      {
        var free := FindFreeBits(index);
        if free >= size {
          SearchReturns(s, nbits, arrSize, size, index);
          return index;
        }
        ClearScanStops(s, nbits, arrSize, index);
        ghost var before := index;
        index := FindFirstFreeBit(index + free);
        SearchAdvances(s, nbits, arrSize, size, before, free, index);
      }
      SearchFails(s, nbits, arrSize, size, index);
      return NOT_FOUND;
    }
  }

  lemma ShrHasBit(w: Word, n: nat, k: nat)
    requires n <= k < 32 && Bit(w, k)
    ensures Bit(Shr(w, n), k - n) && Shr(w, n) != 0
  {
    ShrBit(w, n, k - n);
    WordWithBit(Shr(w, n), k - n);
  }

  lemma ZeroWord(s: seq<Word>, j: nat)
    requires j < |s| && s[j] == 0
    ensures forall i :: 32 * j <= i < 32 * j + 32 ==> !At(s, i)
  {
    forall i | 32 * j <= i < 32 * j + 32 ensures !At(s, i) { ZeroBits(i - 32 * j); }
  }

  /** No bit at or after n in n's word is set when the last set bit of the word comes before. */
  lemma ClearFromWord(s: seq<Word>, n: nat, last: nat)
    requires n < 32 * |s|
    requires s[n / 32] == 0 || last < n % 32
    requires forall k: nat :: last < k < 32 ==> !Bit(s[n / 32], k)
    ensures forall i :: n <= i < 32 * (n / 32 + 1) ==> !At(s, i)
  {
    forall i | n <= i < 32 * (n / 32 + 1)
      ensures !At(s, i)
    {
      if s[n / 32] == 0 { ZeroBits(i % 32); }
    }
  }

  /** The bits at and after n in n's word are the bits of that word shifted down. */
  lemma AtInWord(s: seq<Word>, n: nat, d: nat)
    requires n < 32 * |s| && n % 32 + d < 32
    ensures n + d < 32 * |s| && At(s, n + d) == Bit(Shr(s[n / 32], n % 32), d)
  {
    ShrBit(s[n / 32], n % 32, d);
    assert (n + d) / 32 == n / 32 && (n + d) % 32 == n % 32 + d;
  }

  /** The scan over clear bits that finds its end in the word it starts in. */
  lemma ClearRunEndsInWord(s: seq<Word>, nbits: nat, arrSize: nat, n: nat, places: nat)
    requires WellFormed(s, nbits, arrSize) && n < 32 * arrSize && n % 32 + places < 32
    requires Bit(Shr(s[n / 32], n % 32), places)
    requires forall k: nat :: k < places ==> !Bit(Shr(s[n / 32], n % 32), k)
    ensures Run(s, false, n, Horizon(s, nbits, arrSize, n)) == places
  {
    forall i | n <= i < n + places
      ensures !At(s, i)
    {
      AtInWord(s, n, i - n);
    }
    AtInWord(s, n, places);
    ClearHorizon(s, nbits, arrSize, n, n + places);
    RunIs(s, false, n, Horizon(s, nbits, arrSize, n), places);
  }

  lemma OnesWord(s: seq<Word>, j: nat)
    requires j < |s| && s[j] == ONES
    ensures forall i :: 32 * j <= i < 32 * j + 32 ==> At(s, i)
  {
    forall i | 32 * j <= i < 32 * j + 32 ensures At(s, i) { OnesBits(i - 32 * j); }
  }

  /** Padding bits are clear, so a last word of all ones has no padding. */
  lemma FullLastWord(s: seq<Word>, nbits: nat, arrSize: nat)
    requires WellFormed(s, nbits, arrSize) && s[arrSize - 1] == ONES
    ensures nbits == 32 * arrSize
  {
    OnesWord(s, arrSize - 1);
    assert At(s, 32 * arrSize - 1);
  }

  lemma SetFromWord(s: seq<Word>, n: nat, last: nat)
    requires n < 32 * |s|
    requires s[n / 32] == ONES || last < n % 32
    requires forall k: nat :: last < k < 32 ==> !Bit(Not(s[n / 32]), k)
    ensures forall i :: n <= i < 32 * (n / 32 + 1) ==> At(s, i)
  {
    forall i | n <= i < 32 * (n / 32 + 1)
      ensures At(s, i)
    {
      if s[n / 32] == ONES { OnesBits(i % 32); } else { NotBit(s[n / 32], i % 32); }
    }
  }

  /** The last word of memory is never set from some place to its end, so a scan for a clear bit stops in it. */
  lemma FenceIsNotOnes(s: seq<Word>, nbits: nat, arrSize: nat, n: nat, j: nat)
    requires WellFormed(s, nbits, arrSize) && j < |s| && n < 32 * (j + 1)
    requires forall i :: n <= i < 32 * (j + 1) ==> At(s, i)
    ensures j + 1 < |s|
  {
    if j + 1 == |s| {
      assert At(s, 32 * j + 31);
    }
  }

  lemma NotShrHasBit(w: Word, n: nat, k: nat)
    requires n <= k < 32 && Bit(Not(w), k)
    ensures Bit(Not(Shr(w, n)), k - n) && Not(Shr(w, n)) != 0
  {
    NotBit(w, k);
    ShrBit(w, n, k - n);
    NotBit(Shr(w, n), k - n);
    WordWithBit(Not(Shr(w, n)), k - n);
  }

  /** The scan over set bits that finds its end in the word it starts in. */
  lemma SetRunEndsInWord(s: seq<Word>, nbits: nat, arrSize: nat, n: nat, places: nat)
    requires WellFormed(s, nbits, arrSize) && n < 32 * |s| && n % 32 + places < 32
    requires Bit(Not(Shr(s[n / 32], n % 32)), places)
    requires forall k: nat :: k < places ==> !Bit(Not(Shr(s[n / 32], n % 32)), k)
    ensures Run(s, true, n, Horizon(s, nbits, arrSize, n)) == places
  {
    var w := Shr(s[n / 32], n % 32);
    forall i | n <= i < n + places
      ensures At(s, i)
    {
      NotBit(w, i - n);
      AtInWord(s, n, i - n);
    }
    NotBit(w, places);
    AtInWord(s, n, places);
    SetHorizon(s, nbits, arrSize, n, n + places);
    RunIs(s, true, n, Horizon(s, nbits, arrSize, n), places);
  }

  /** The first clear bit of a word that is not all ones. */
  lemma SetUpTo(s: seq<Word>, j: nat, more: nat)
    requires j < |s| && s[j] != ONES && more <= 32
    requires forall k: nat :: k < more ==> !Bit(Not(s[j]), k)
    requires more < 32 ==> Bit(Not(s[j]), more)
    ensures more < 32 && !At(s, 32 * j + more) && forall i :: 32 * j <= i < 32 * j + more ==> At(s, i)
  {
    var c := NotOnesHasClearBit(s[j]);
    NotBit(s[j], c);
    NotBit(s[j], more);
    forall i | 32 * j <= i < 32 * j + more ensures At(s, i) { NotBit(s[j], i - 32 * j); }
  }

  /** A clear bit that ends a scan lies inside the horizon, or the scan started before the last word and reached the
      end. */
  lemma SetHorizon(s: seq<Word>, nbits: nat, arrSize: nat, n: nat, e: nat)
    requires WellFormed(s, nbits, arrSize) && n <= e < 32 * |s|
    requires forall i :: n <= i < e ==> At(s, i)
    requires !At(s, e)
    requires n / 32 < arrSize - 1 ==> e < 32 * arrSize
    ensures e <= Horizon(s, nbits, arrSize, n)
  {
    assert 32 * arrSize > nbits ==> !At(s, nbits);
  }

  lemma ClearUpTo(s: seq<Word>, j: nat, more: nat)
    requires j < |s| && more < 32 && Bit(s[j], more)
    requires forall k: nat :: k < more ==> !Bit(s[j], k)
    ensures At(s, 32 * j + more) && forall i :: 32 * j <= i < 32 * j + more ==> !At(s, i)
  {
    forall i | 32 * j <= i < 32 * j + more ensures !At(s, i) { assert !Bit(s[j], i - 32 * j); }
  }

  lemma ClearHorizon(s: seq<Word>, nbits: nat, arrSize: nat, n: nat, e: nat)
    requires WellFormed(s, nbits, arrSize) && n <= e < 32 * |s| && At(s, e)
    requires n / 32 < arrSize - 1 ==> e < 32 * arrSize
    ensures e <= Horizon(s, nbits, arrSize, n)
  {
  }

  /** The end of a scan that crossed whole words: `more` places into word j. */
  lemma ClearRunEndsAt(s: seq<Word>, nbits: nat, arrSize: nat, n: nat, j: nat, more: nat, free: nat)
    requires WellFormed(s, nbits, arrSize) && n / 32 < j < |s| && n + free == 32 * j + more
    requires n / 32 < arrSize - 1 ==> j < arrSize
    requires forall i :: n <= i < 32 * j ==> !At(s, i)
    requires more < 32 && Bit(s[j], more) && forall k: nat :: k < more ==> !Bit(s[j], k)
    ensures free == Run(s, false, n, Horizon(s, nbits, arrSize, n))
  {
    ClearUpTo(s, j, more);
    ClearHorizon(s, nbits, arrSize, n, n + free);
    RunIs(s, false, n, Horizon(s, nbits, arrSize, n), free);
  }

  lemma SetRunEndsAt(s: seq<Word>, nbits: nat, arrSize: nat, n: nat, j: nat, more: nat, count: nat)
    requires WellFormed(s, nbits, arrSize) && n / 32 < j < |s| && n + count == 32 * j + more
    requires n / 32 < arrSize - 1 ==> j < arrSize
    requires forall i :: n <= i < 32 * j ==> At(s, i)
    requires s[j] != ONES && more <= 32 && (more < 32 ==> Bit(Not(s[j]), more))
    requires forall k: nat :: k < more ==> !Bit(Not(s[j]), k)
    ensures count == Run(s, true, n, Horizon(s, nbits, arrSize, n))
  {
    SetUpTo(s, j, more);
    SetHorizon(s, nbits, arrSize, n, n + count);
    RunIs(s, true, n, Horizon(s, nbits, arrSize, n), count);
  }
}
