/** Two-level page tables (kernel/src/mm/vmm.c) and the program break (kernel/src/mm/brk.c).

    Tables are reached at their physical address, as the kernel does.  Memory is word-addressed; a directory or table
    entry is the word at its address. */
module Paging {
  import opened Machine
  import Numbers
  import opened Bits
  import opened BitArray
  import opened Frames

  /** A virtual page number: bits 12..31 of a virtual address.  Its upper ten bits index the directory, its lower ten
      the page table. */
  type PageNo = n: int | 0 <= n < 0x10_0000

  /** `entry & 0xFFFFF000`. */
  function Base(entry: int): int {
    entry - entry % 0x1000
  }

  function DirSlot(dir: int, n: int): int {
    dir + 4 * (n / 0x400)
  }

  function TableSlot(entry: int, n: int): int {
    Base(entry) + 4 * (n % 0x400)
  }

  predicate SameEntry(n: int, k: int) { n / 0x400 == k / 0x400 }

  function Entry(m: Memory, dir: int, n: int): Word {
    Load(m, DirSlot(dir, n))
  }

  /** The frame the processor finds behind a page, or -1: bit 0 of an entry says that it is present. */
  function FrameOf(m: Memory, dir: int, n: int): int {
    var e := Entry(m, dir, n);
    var p := Load(m, TableSlot(e, n));
    if e % 2 == 0 || p % 2 == 0 then -1 else Base(p)
  }

  /** What the processor makes of a virtual address. */
  function Translate(m: Memory, dir: int, vaddr: Word): Option<int> {
    var f := FrameOf(m, dir, vaddr / 0x1000);
    if f < 0 then None else Some(f + vaddr % 0x1000)
  }

  /** A directory entry is either zero or present; distinct entries name distinct tables, none of them the directory. */
  ghost predicate TablesApart(m: Memory, dir: int) {
    && dir % 0x1000 == 0
    && (forall n: PageNo :: Entry(m, dir, n) != 0 ==> Entry(m, dir, n) % 2 == 1 && Base(Entry(m, dir, n)) != dir)
    && (forall n: PageNo, k: PageNo :: Entry(m, dir, n) != 0 && Entry(m, dir, k) != 0 && !SameEntry(n, k) ==>
          Base(Entry(m, dir, n)) != Base(Entry(m, dir, k)))
  }

  /** `a | flags` on a page-aligned address keeps the address as the base and the flags as the low bits. */
  lemma {:induction false} OrAligned(a: nat, flags: nat, n: nat, k: nat)
    requires a % Pow2(k) == 0 && flags < Pow2(k) && k <= n && a < Pow2(n)
    ensures OrDigits(a, flags, n) == a + flags
    decreases n
  {
    if n > 0 {
      if k > 0 {
        HalfOfRemainder(a, Pow2(k - 1));
        ParityOfRemainder(a, Pow2(k - 1));
        OrAligned(a / 2, flags / 2, n - 1, k - 1);
      } else {
        OrAligned(a / 2, 0, n - 1, 0);
      }
    }
  }

  lemma OrFlags(a: Word, flags: Word)
    requires a % 0x1000 == 0 && flags < 0x1000
    ensures Or(a, flags) == a + flags && Base(Or(a, flags)) == a
  {
    Pow32();
    assert Pow2(12) == 0x1000 by { assert Pow2(6) == 64; }
    OrAligned(a, flags, 32, 12);
  }

  /** What commit_pages returns when it fails; also what it makes of any flags or-ed to it. */
  const ALL_ONES: Word := 0xFFFF_FFFF

  lemma AllOnesStay(flags: Word)
    ensures Or(ALL_ONES, flags) == ALL_ONES
  {
    Pow32();
    OrAllOnes(ALL_ONES, flags, WORD_BITS);
  }

  lemma {:induction false} OrAllOnes(a: nat, b: nat, n: nat)
    requires a == Pow2(n) - 1
    ensures OrDigits(a, b, n) == a
    decreases n
  {
    if n > 0 {
      assert a / 2 == Pow2(n - 1) - 1;
      OrAllOnes(a / 2, b / 2, n - 1);
    }
  }

  /** `a | flags`, for an aligned address and for a failed commit_pages told apart from the rest. */
  function WithFlags(a: Word, flags: Word): Word {
    if a % 0x1000 == 0 && flags < 0x1000 then a + flags
    else if a == ALL_ONES then ALL_ONES
    else Or(a, flags)
  }

  lemma WithFlagsIsOr(a: Word, flags: Word)
    ensures WithFlags(a, flags) == Or(a, flags)
  {
    if a % 0x1000 == 0 && flags < 0x1000 { OrFlags(a, flags); }
    AllOnesStay(flags);
  }

  /** Present, writable, user: the low bits of every table entry. */
  const PAGE_FLAGS: Word := 7

  /** A directory entry e is made for page n if it has none, and the word w stored in its table. */
  function StoreWords(m: Memory, dir: int, n: int, e: Word, w: Word): Memory {
    var slot := DirSlot(dir, n);
    var m1 := if Load(m, slot) == 0 then m[slot := e] else m;
    m1[TableSlot(Load(m1, slot), n) := w]
  }

  /** The stores of map_page; `spare` is what commit_pages returns if a table is missing. */
  function MapMem(m: Memory, dir: int, paddr: Word, n: int, access: Word, spare: Word): Memory {
    StoreWords(m, dir, n, WithFlags(spare, access), WithFlags(paddr, PAGE_FLAGS))
  }

  /** The store of unmap_page. */
  function UnmapMem(m: Memory, dir: int, n: int): Memory {
    var e := Entry(m, dir, n);
    if e != 0 then m[TableSlot(e, n) := 0] else m
  }

  /** The table map_page will use is there, or the frame for a new one is no table yet. */
  ghost predicate TableFor(m: Memory, dir: int, n: PageNo, spare: Word) {
    Entry(m, dir, n) == 0 ==>
      && spare % 0x1000 == 0 && spare != dir
      && forall k: PageNo :: Entry(m, dir, k) != 0 ==> Base(Entry(m, dir, k)) != spare
  }

  /** The entry map_page goes through. */
  function EntryUsed(m: Memory, dir: int, n: int, access: Word, spare: Word): Word {
    if Entry(m, dir, n) == 0 then WithFlags(spare, access) else Entry(m, dir, n)
  }

  /** The slots of a table are neither in the directory nor in another table. */
  lemma SlotsApart(a: int, b: int, n: int, k: int)
    requires a % 0x1000 == 0 && b % 0x1000 == 0
    ensures a != b ==> a + 4 * (n % 0x400) != b + 4 * (k % 0x400)
  {
  }

  lemma TableOffDirectory(dir: int, e: int, n: int, k: PageNo)
    requires dir % 0x1000 == 0 && Base(e) != dir
    ensures TableSlot(e, n) != DirSlot(dir, k)
  {
    SlotsApart(Base(e), dir, n, k / 0x400);
  }

  lemma TablesOffTables(e: int, f: int, n: int, k: int)
    requires TableSlot(e, n) == TableSlot(f, k)
    ensures Base(e) == Base(f) && n % 0x400 == k % 0x400
  {
    SlotsApart(Base(e), Base(f), n, k);
  }

  lemma EntryUsedApart(m: Memory, dir: int, n: PageNo, access: Word, spare: Word)
    requires TablesApart(m, dir) && TableFor(m, dir, n, spare) && access % 2 == 1 && access < 0x1000
    ensures var e := EntryUsed(m, dir, n, access, spare);
            && e % 2 == 1 && Base(e) != dir && (Entry(m, dir, n) == 0 ==> Base(e) == spare)
  {
    if Entry(m, dir, n) == 0 {
      AlignedSum(spare / 0x1000, spare, access);
      OddSum(spare / 0x1000, spare, access);
    }
  }

  lemma AlignedSum(q: nat, a: nat, flags: nat)
    requires a == 0x1000 * q && flags < 0x1000
    ensures Base(a + flags) == a
  {
    Numbers.DivModUnique(a + flags, 0x1000, q, flags);
  }

  lemma OddSum(q: nat, a: nat, flags: nat)
    requires a == 0x1000 * q && flags % 2 == 1
    ensures (a + flags) % 2 == 1
  {
    Numbers.DivModUnique(a + flags, 2, 0x800 * q + flags / 2, 1);
  }

  /** m' has the directory of m, except that a missing entry for page n has become e. */
  ghost predicate EntriesAfter(m: Memory, m': Memory, dir: int, n: PageNo, e: Word) {
    forall k: PageNo :: Entry(m', dir, k) == if Entry(m, dir, n) == 0 && SameEntry(k, n) then e else Entry(m, dir, k)
  }

  /** The directory after map_page: one entry added if it was missing, all others as they were. */
  lemma MapEntries(m: Memory, m': Memory, dir: int, paddr: Word, n: PageNo, access: Word, spare: Word)
    requires TablesApart(m, dir) && TableFor(m, dir, n, spare) && access % 2 == 1 && access < 0x1000
    requires m' == MapMem(m, dir, paddr, n, access, spare)
    ensures EntriesAfter(m, m', dir, n, EntryUsed(m, dir, n, access, spare))
  {
    var e := EntryUsed(m, dir, n, access, spare);
    EntryUsedApart(m, dir, n, access, spare);
    forall k: PageNo
      ensures Entry(m', dir, k) == if Entry(m, dir, n) == 0 && SameEntry(k, n) then e else Entry(m, dir, k)
    {
      TableOffDirectory(dir, e, n, k);
    }
  }

  /** Adding a present entry whose table is new keeps the tables apart; so, with MapEntries, map_page does. */
  lemma OneMoreTable(m: Memory, m': Memory, dir: int, n: PageNo, e: Word)
    requires TablesApart(m, dir) && e % 2 == 1 && Base(e) != dir
    requires Entry(m, dir, n) == 0 ==> forall k: PageNo :: Entry(m, dir, k) != 0 ==> Base(Entry(m, dir, k)) != Base(e)
    requires EntriesAfter(m, m', dir, n, e)
    ensures TablesApart(m', dir)
  {
  }

  /** map_page maps the page to the frame: the word stored in the table is its address with the three low bits set
      (present, writable, user), and a new directory entry is the table's address with the access bits ... */
  lemma MapTranslates(m: Memory, m': Memory, dir: int, paddr: Word, n: PageNo, access: Word, spare: Word)
    requires TablesApart(m, dir) && TableFor(m, dir, n, spare) && access % 2 == 1 && access < 0x1000
    requires paddr % 0x1000 == 0 && m' == MapMem(m, dir, paddr, n, access, spare)
    ensures FrameOf(m', dir, n) == paddr
    ensures var e := Entry(m', dir, n);
            && Load(m', e - e % 0x1000 + 4 * (n % 0x400)) == paddr + 7
            && (Entry(m, dir, n) == 0 && spare % 0x1000 == 0 ==> e == spare + access)
  {
    var e := EntryUsed(m, dir, n, access, spare);
    EntryUsedApart(m, dir, n, access, spare);
    TableOffDirectory(dir, e, n, n);
    FrameFrom(m', dir, n, e, paddr);
  }

  lemma FrameFrom(m: Memory, dir: int, n: int, e: Word, paddr: Word)
    requires Entry(m, dir, n) == e && e % 2 == 1 && paddr % 0x1000 == 0 && Load(m, TableSlot(e, n)) == paddr + 7
    ensures FrameOf(m, dir, n) == paddr
  {
    LowBits(paddr / 0x1000, paddr);
  }

  lemma LowBits(q: nat, paddr: nat)
    requires paddr == 0x1000 * q
    ensures (paddr + 7) % 2 == 1 && (paddr + 7) % 0x1000 == 7
  {
    Numbers.DivModUnique(paddr + 7, 2, 0x800 * q + 3, 1);
    Numbers.DivModUnique(paddr + 7, 0x1000, q, 7);
  }

  /** ... and leaves every translation under an already-present directory entry, and every other one not sharing a newly
      made entry, as it was; even under a new entry, if the new table is zero. */
  lemma MapKeepsTranslation(m: Memory, m': Memory, dir: int, paddr: Word, n: PageNo, access: Word, spare: Word,
                            k: PageNo)
    requires TablesApart(m, dir) && TableFor(m, dir, n, spare) && access % 2 == 1 && access < 0x1000
    requires m' == MapMem(m, dir, paddr, n, access, spare) && k != n
    requires Entry(m, dir, k) != 0 || !SameEntry(k, n) || Load(m, TableSlot(spare, k)) == 0
    ensures FrameOf(m', dir, k) == FrameOf(m, dir, k)
  {
    MapEntries(m, m', dir, paddr, n, access, spare);
    EntryUsedApart(m, dir, n, access, spare);
    OtherPageKept(m, m', dir, n, k, EntryUsed(m, dir, n, access, spare), spare);
  }

  /** The same, for stores to the slot of page n in the table e and, if that is new, to the directory. */
  lemma OtherPageKept(m: Memory, m': Memory, dir: int, n: PageNo, k: PageNo, e: Word, spare: Word)
    requires TablesApart(m, dir) && TableFor(m, dir, n, spare) && k != n && EntriesAfter(m, m', dir, n, e)
    requires e % 2 == 1 && Base(e) != dir && if Entry(m, dir, n) == 0 then Base(e) == spare else e == Entry(m, dir, n)
    requires forall x :: x != TableSlot(e, n) && x != DirSlot(dir, n) ==> Load(m', x) == Load(m, x)
    requires Entry(m, dir, k) != 0 || !SameEntry(k, n) || Load(m, TableSlot(spare, k)) == 0
    ensures FrameOf(m', dir, k) == FrameOf(m, dir, k)
  {
    var e' := Entry(m', dir, k);
    assert e' == if Entry(m, dir, n) == 0 && SameEntry(k, n) then e else Entry(m, dir, k);
    if e' != 0 {
      OtherSlot(m, dir, n, k, e, e', spare);
      TableOffDirectory(dir, e', k, n);
      assert Load(m', TableSlot(e', k)) == Load(m, TableSlot(e', k));
      if Entry(m, dir, n) == 0 { TableSlotSame(spare, e', k); }
      FrameKept(m, m', dir, k, e');
    }
  }

  lemma FrameKept(m: Memory, m': Memory, dir: int, k: PageNo, e: Word)
    requires e == Entry(m', dir, k) && Load(m', TableSlot(e, k)) == Load(m, TableSlot(e, k))
    requires e == Entry(m, dir, k) || (Entry(m, dir, k) == 0 && Load(m, TableSlot(e, k)) == 0)
    ensures FrameOf(m', dir, k) == FrameOf(m, dir, k)
  {
  }

  lemma OtherSlot(m: Memory, dir: int, n: PageNo, k: PageNo, e: Word, e': Word, spare: Word)
    requires TablesApart(m, dir) && TableFor(m, dir, n, spare) && k != n
    requires if Entry(m, dir, n) == 0 then Base(e) == spare else e == Entry(m, dir, n)
    requires e' == (if Entry(m, dir, n) == 0 && SameEntry(k, n) then e else Entry(m, dir, k)) && e' != 0
    ensures TableSlot(e', k) != TableSlot(e, n)
  {
    if TableSlot(e', k) == TableSlot(e, n) { TablesOffTables(e', e, k, n); }
  }

  lemma TableSlotSame(spare: int, e: int, k: int)
    requires spare % 0x1000 == 0
    ensures Base(e) == spare ==> TableSlot(spare, k) == TableSlot(e, k)
  {
  }

  /** unmap_page removes exactly one page. */
  lemma UnmapTranslates(m: Memory, m': Memory, dir: int, n: PageNo, k: PageNo)
    requires TablesApart(m, dir) && m' == UnmapMem(m, dir, n)
    ensures TablesApart(m', dir)
    ensures FrameOf(m', dir, k) == if k == n then -1 else FrameOf(m, dir, k)
  {
    var e := Entry(m, dir, n);
    if e != 0 {
      forall i: PageNo
        ensures Entry(m', dir, i) == Entry(m, dir, i)
      {
        TableOffDirectory(dir, e, n, i);
      }
      if Entry(m, dir, k) != 0 && TableSlot(Entry(m, dir, k), k) == TableSlot(e, n) {
        TablesOffTables(Entry(m, dir, k), e, k, n);
      }
    }
  }

  // ----- The program break -----

  /** The frame at physical address f is marked used in the bitmap. */
  predicate FrameUsed(s: seq<Word>, f: int)
    requires FRAMES <= 32 * |s|
  {
    && RAM_START <= f < RAM_END && f % PAGE == 0
    && At(s, (f - RAM_START) / PAGE)
  }

  /** Page tables live in used frames, or below the RAM the allocator manages. */
  ghost predicate TablesUsed(m: Memory, dir: int, s: seq<Word>)
    requires FRAMES <= 32 * |s|
  {
    && 0 < dir < RAM_START
    && forall n: PageNo :: Entry(m, dir, n) != 0 ==>
         Base(Entry(m, dir, n)) < RAM_START || FrameUsed(s, Base(Entry(m, dir, n)))
  }

  /** Where the break ends when it has that many pages: an address, and a page number. */
  function EndOf(pages: seq<int>): int {
    RAM_START + PAGE * |pages|
  }

  function EndPage(pages: seq<int>): int {
    0x100 + |pages|
  }

  predicate InBreak(n: int, pages: seq<int>) { 0x100 <= n < EndPage(pages) }

  /** The k-th page of the break is mapped to the frame pages[k]; the frames are in use, distinct, and no page
      tables. */
  ghost predicate BreakMapped(m: Memory, dir: int, s: seq<Word>, pages: seq<int>)
    requires FRAMES <= 32 * |s|
  {
    && (forall n: PageNo :: InBreak(n, pages) ==> FrameOf(m, dir, n) == pages[n - 0x100])
    && (forall k :: 0 <= k < |pages| ==> FrameUsed(s, pages[k]))
    && (forall j, k :: 0 <= j < k < |pages| ==> pages[j] != pages[k])
    && (forall k, n: PageNo :: 0 <= k < |pages| && Entry(m, dir, n) != 0 ==> pages[k] != Base(Entry(m, dir, n)))
  }

  /** Every address of the break translates, into the frame of its page. */
  lemma BreakTranslates(m: Memory, dir: int, s: seq<Word>, pages: seq<int>, vaddr: Word)
    requires FRAMES <= 32 * |s| && BreakMapped(m, dir, s, pages) && RAM_START <= vaddr < EndOf(pages)
    ensures Translate(m, dir, vaddr) == Some(pages[(vaddr - RAM_START) / PAGE] + vaddr % PAGE)
  {
    var n: PageNo := vaddr / 0x1000;
    assert n - 0x100 == (vaddr - RAM_START) / PAGE;
    assert InBreak(n, pages);
    assert FrameUsed(s, pages[n - 0x100]);
  }

  /** Used frames stay used when a region is committed. */
  ghost predicate UsedGrows(s: seq<Word>, s': seq<Word>)
    requires FRAMES <= 32 * |s| && FRAMES <= 32 * |s'|
  {
    forall f: int :: FrameUsed(s, f) ==> FrameUsed(s', f)
  }

  /** The pages already mapped keep their frames and the new one gets its own. */
  lemma MapExtends(m: Memory, m': Memory, dir: int, s: seq<Word>, pages: seq<int>, page: Word, spare: Word)
    requires FRAMES <= 32 * |s| && TablesApart(m, dir) && BreakMapped(m, dir, s, pages) && EndPage(pages) < 0x10_0000
    requires TableFor(m, dir, EndPage(pages), spare) && page % PAGE == 0
    requires m' == MapMem(m, dir, page, EndPage(pages), 0x107, spare)
    ensures forall n: PageNo :: InBreak(n, pages + [page]) ==> FrameOf(m', dir, n) == (pages + [page])[n - 0x100]
  {
    var end := EndPage(pages);
    forall n: PageNo | InBreak(n, pages + [page])
      ensures FrameOf(m', dir, n) == (pages + [page])[n - 0x100]
    {
      if n < end {
        assert FrameUsed(s, FrameOf(m, dir, n));
        MapKeepsTranslation(m, m', dir, page, end, 0x107, spare, n);
      } else {
        MapTranslates(m, m', dir, page, end, 0x107, spare);
      }
    }
  }

  lemma ExtendedTables(m: Memory, m': Memory, dir: int, s: seq<Word>, s': seq<Word>, n: PageNo, e: Word)
    requires FRAMES <= 32 * |s| && FRAMES <= 32 * |s'| && UsedGrows(s, s')
    requires TablesUsed(m, dir, s) && EntriesAfter(m, m', dir, n, e)
    requires Entry(m, dir, n) == 0 ==> FrameUsed(s', Base(e))
    ensures TablesUsed(m', dir, s')
  {
  }

  lemma ExtendedBreak(m: Memory, m': Memory, dir: int, s: seq<Word>, s': seq<Word>, pages: seq<int>, page: Word,
                      e: Word)
    requires FRAMES <= 32 * |s| && FRAMES <= 32 * |s'| && UsedGrows(s, s')
    requires TablesUsed(m, dir, s) && BreakMapped(m, dir, s, pages) && EndPage(pages) < 0x10_0000
    requires EntriesAfter(m, m', dir, EndPage(pages), e)
    requires forall n: PageNo :: InBreak(n, pages + [page]) ==> FrameOf(m', dir, n) == (pages + [page])[n - 0x100]
    requires FrameUsed(s', page) && !FrameUsed(s, page)
    requires Entry(m, dir, EndPage(pages)) == 0 ==> !FrameUsed(s, Base(e)) && Base(e) != page
    ensures BreakMapped(m', dir, s', pages + [page])
  {
  }

  /** Frame f is in use in s' and was not in s. */
  predicate NewFrame(s: seq<Word>, s': seq<Word>, f: int)
    requires FRAMES <= 32 * |s| && FRAMES <= 32 * |s'|
  {
    FrameUsed(s', f) && !FrameUsed(s, f)
  }

  /** One turn of the sbrk loop: a new frame is mapped at the end of the break, which moves up one page. */
  lemma ExtendBreak(m: Memory, m': Memory, dir: int, s: seq<Word>, s': seq<Word>, pages: seq<int>, page: Word,
                    spare: Word)
    requires FRAMES <= 32 * |s| && FRAMES <= 32 * |s'| && UsedGrows(s, s')
    requires TablesApart(m, dir) && TablesUsed(m, dir, s) && BreakMapped(m, dir, s, pages) && EndPage(pages) < 0x10_0000
    requires NewFrame(s, s', page)
    requires Entry(m, dir, EndPage(pages)) == 0 ==> NewFrame(s, s', spare) && spare != page
    requires m' == MapMem(m, dir, page, EndPage(pages), 0x107, spare)
    ensures TablesApart(m', dir) && TablesUsed(m', dir, s') && BreakMapped(m', dir, s', pages + [page])
  {
    var end := EndPage(pages);
    NewTable(m, dir, s, s', end, spare);
    var e := EntryUsed(m, dir, end, 0x107, spare);
    EntryUsedApart(m, dir, end, 0x107, spare);
    MapEntries(m, m', dir, page, end, 0x107, spare);
    OneMoreTable(m, m', dir, end, e);
    MapExtends(m, m', dir, s, pages, page, spare);
    ExtendedTables(m, m', dir, s, s', end, e);
    ExtendedBreak(m, m', dir, s, s', pages, page, e);
  }

  lemma NewTable(m: Memory, dir: int, s: seq<Word>, s': seq<Word>, end: PageNo, spare: Word)
    requires FRAMES <= 32 * |s| && FRAMES <= 32 * |s'| && TablesApart(m, dir) && TablesUsed(m, dir, s)
    requires Entry(m, dir, end) == 0 ==> NewFrame(s, s', spare)
    ensures TableFor(m, dir, end, spare)
  {
  }

  // ----- Frames for sbrk -----

  /** What commit_pages(1) returns on bitmap s. */
  function NextFrame(s: seq<Word>): Word
    requires FRAMES <= 32 * |s|
  {
    var r := FreeRegion(s, FRAMES, 120, 1);
    if r == NOT_FOUND then 0xFFFF_FFFF else Wrap(Region(Max(r), 1).Address())
  }

  function Max(r: int): nat { if r < 0 then 0 else r }

  /** s' is s with the frame commit_pages(1) hands out marked used. */
  ghost predicate TookFrame(s: seq<Word>, s': seq<Word>)
    requires FRAMES <= 32 * |s|
  {
    var r := FreeRegion(s, FRAMES, 120, 1);
    if r == NOT_FOUND then s' == s else r >= 0 && Filled(s, s', true, r, Min(r + 1, FRAMES))
  }

  /** The frame taken: its index was clear. */
  lemma NextFrameIs(s: seq<Word>) returns (r: nat)
    requires WellFormed(s, FRAMES, 120) && FreeRegion(s, FRAMES, 120, 1) != NOT_FOUND
    ensures r == FreeRegion(s, FRAMES, 120, 1) < FRAMES && !At(s, r)
    ensures NextFrame(s) == RAM_START + PAGE * r && (NextFrame(s) - RAM_START) / PAGE == r && NextFrame(s) % PAGE == 0
    ensures NextFrame(s) < RAM_END
  {
    FreeRegionExactIff(s, FRAMES, 120, 1);
    TruthfulFits(s, FRAMES, 120, 1);
    r := FreeRegion(s, FRAMES, 120, 1);
  }

  /** A free bit is found. */
  lemma SomeFrameFree(s: seq<Word>)
    requires WellFormed(s, FRAMES, 120) && CountSet(s, FRAMES) < FRAMES
    ensures FreeRegion(s, FRAMES, 120, 1) != NOT_FOUND
  {
    FreeRegionExactIff(s, FRAMES, 120, 1);
    if FreeRegion(s, FRAMES, 120, 1) == NOT_FOUND {
      OneBitFits(s, FRAMES);
      CountFull(s, FRAMES);
    }
  }

  /** While some frame is free, taking one yields a frame that was not in use and now is, and counts one more. */
  lemma TakeFrame(s: seq<Word>, s': seq<Word>)
    requires WellFormed(s, FRAMES, 120) && TookFrame(s, s') && CountSet(s, FRAMES) < FRAMES
    ensures |s'| == |s| && UsedGrows(s, s') && FrameUsed(s', NextFrame(s)) && !FrameUsed(s, NextFrame(s))
    ensures WellFormed(s', FRAMES, 120) && CountSet(s', FRAMES) == CountSet(s, FRAMES) + 1
  {
    SomeFrameFree(s);
    var r := NextFrameIs(s);
    CountFilled(s, s', r, r + 1, FRAMES);
    FilledWellFormed(s, s', true, r, r + 1, FRAMES, 120);
    assert At(s', r);
  }

  /** Frames sbrk takes to move the end of the break from page n past the address target: one per page, and one per page
      table that is missing (`made`: the loop has already made n's). */
  function Need(m: Memory, dir: int, n: int, target: int, made: bool): nat
    decreases target - 0x1000 * n
  {
    if 0x1000 * n >= target then 0
    else
      var absent := Entry(m, dir, n) == 0 && !made;
      1 + (if absent then 1 else 0) + Need(m, dir, n + 1, target, SameEntry(n, n + 1) && (made || absent))
  }

  /** Making the table of page n0 changes nothing in what the pages after it need, once that table is counted as
      made. */
  lemma {:induction false} NeedAfterTable(m: Memory, m': Memory, dir: int, n0: PageNo, e: Word, n: int, target: int,
                                          made: bool, made': bool)
    requires n0 <= n && target < TWO_32 && e != 0 && EntriesAfter(m, m', dir, n0, e)
    requires 0x1000 * n < target ==> ((made || Entry(m, dir, n) != 0) <==> (made' || Entry(m', dir, n) != 0))
    ensures Need(m', dir, n, target, made') == Need(m, dir, n, target, made)
    decreases target - 0x1000 * n
  {
    if 0x1000 * n < target {
      var q := n + 1;
      var absent, absent' := Entry(m, dir, n) == 0 && !made, Entry(m', dir, n) == 0 && !made';
      if 0x1000 * q < target {
        var k: PageNo := q;
        assert Entry(m', dir, k) == if Entry(m, dir, n0) == 0 && SameEntry(k, n0) then e else Entry(m, dir, k);
        assert !SameEntry(n, q) ==> !SameEntry(q, n0);
        assert SameEntry(n, q) ==> Entry(m, dir, q) == Entry(m, dir, n) && Entry(m', dir, q) == Entry(m', dir, n);
      }
      NeedAfterTable(m, m', dir, n0, e, q, target,
                     SameEntry(n, q) && (made || absent), SameEntry(n, q) && (made' || absent'));
    }
  }

  lemma {:induction false} NeedMonotone(m: Memory, dir: int, n: int, target: int, more: int, made: bool)
    requires target <= more
    ensures Need(m, dir, n, target, made) <= Need(m, dir, n, more, made)
    decreases target - 0x1000 * n
  {
    if 0x1000 * n < target {
      var absent := Entry(m, dir, n) == 0 && !made;
      NeedMonotone(m, dir, n + 1, target, more, SameEntry(n, n + 1) && (made || absent));
    }
  }

  // ----- Running out of frames -----

  /** The tables are apart and in used frames, and the break is mapped to the frames in pages. */
  ghost predicate SoundBreak(m: Memory, dir: int, s: seq<Word>, pages: seq<int>)
    requires FRAMES <= 32 * |s|
  {
    TablesApart(m, dir) && TablesUsed(m, dir, s) && BreakMapped(m, dir, s, pages)
  }

  /** m' and s2 come of one turn of the sbrk loop at page end: a frame for the page, one for its table if that is
      missing, and the stores of map_page. */
  ghost predicate Turned(m: Memory, m': Memory, dir: int, s: seq<Word>, s1: seq<Word>, s2: seq<Word>, end: PageNo) {
    && WellFormed(s, FRAMES, 120) && |s1| == |s| && |s2| == |s| && TookFrame(s, s1)
    && (if Entry(m, dir, end) == 0 then TookFrame(s1, s2) else s2 == s1)
    && m' == MapMem(m, dir, NextFrame(s), end, 0x107, NextFrame(s1))
  }

  /** commit_pages(1) fails exactly when every frame is in use. */
  lemma NoFrameIff(s: seq<Word>)
    requires WellFormed(s, FRAMES, 120)
    ensures NextFrame(s) == ALL_ONES <==> CountSet(s, FRAMES) == FRAMES
  {
    CountFull(s, FRAMES);
    if CountSet(s, FRAMES) < FRAMES {
      SomeFrameFree(s);
      var r := NextFrameIs(s);
    } else if FreeRegion(s, FRAMES, 120, 1) != NOT_FOUND {
      var r := NextFrameIs(s);
    }
  }

  /** The frames one turn of the sbrk loop takes: one for the page, one for its table if that is missing. */
  function TurnNeeds(m: Memory, dir: int, n: int): nat {
    if Entry(m, dir, n) == 0 then 2 else 1
  }

  /** A page table that is no frame, or a page of the break (which ends at page end) that is mapped to no frame, and no
      frame left. */
  ghost predicate Spoilt(m: Memory, dir: int, s: seq<Word>, end: int)
    requires FRAMES <= 32 * |s|
  {
    && dir % 0x1000 == 0 && 0 < dir < RAM_START
    && (forall n: PageNo :: Entry(m, dir, n) != 0 ==> Base(Entry(m, dir, n)) != dir)
    && NextFrame(s) == ALL_ONES
    && exists n: PageNo :: SpoiltAt(m, dir, end, n)
  }

  predicate SpoiltAt(m: Memory, dir: int, end: int, n: PageNo) {
    Entry(m, dir, n) == ALL_ONES || (0x100 <= n < end && FrameOf(m, dir, n) == 0xFFFF_F000)
  }

  /** Then no choice of frames for the pages makes break and tables sound. */
  lemma SpoiltIsUnsound(m: Memory, dir: int, s: seq<Word>, pages: seq<int>)
    requires FRAMES <= 32 * |s| && Spoilt(m, dir, s, EndPage(pages))
    ensures !(TablesUsed(m, dir, s) && BreakMapped(m, dir, s, pages))
  {
    var n: PageNo :| SpoiltAt(m, dir, EndPage(pages), n);
    if Entry(m, dir, n) == ALL_ONES {
      assert Base(ALL_ONES) == 0xFFFF_F000;
    } else {
      assert InBreak(n, pages);
    }
  }

  /** A missing table that gets no frame: the entry becomes all ones; all others stay. */
  lemma TableSpoils(m: Memory, m': Memory, dir: int, n: PageNo, w: Word)
    requires dir % 0x1000 == 0 && dir < RAM_START && Entry(m, dir, n) == 0 && m' == StoreWords(m, dir, n, ALL_ONES, w)
    ensures forall k: PageNo :: Entry(m', dir, k) == if SameEntry(k, n) then ALL_ONES else Entry(m, dir, k)
  {
    forall k: PageNo ensures Entry(m', dir, k) == if SameEntry(k, n) then ALL_ONES else Entry(m, dir, k) {
      TableOffDirectory(dir, ALL_ONES, n, k);
    }
  }

  /** A page that gets no frame is mapped to 0xFFFFF000, and so stays every other page that is. */
  lemma PageSpoils(m: Memory, m': Memory, dir: int, n: PageNo, e: Word)
    requires dir % 0x1000 == 0 && Entry(m, dir, n) != 0 && Base(Entry(m, dir, n)) != dir
    requires m' == StoreWords(m, dir, n, e, ALL_ONES)
    ensures forall k: PageNo :: Entry(m', dir, k) == Entry(m, dir, k)
    ensures Entry(m, dir, n) % 2 == 1 ==> FrameOf(m', dir, n) == 0xFFFF_F000
    ensures forall k: PageNo :: FrameOf(m, dir, k) == 0xFFFF_F000 ==> FrameOf(m', dir, k) == 0xFFFF_F000
  {
    forall k: PageNo ensures Entry(m', dir, k) == Entry(m, dir, k) { TableOffDirectory(dir, Entry(m, dir, n), n, k); }
  }

  /** Once spoilt, every further turn leaves it so. */
  lemma SpoiltStays(m: Memory, m': Memory, dir: int, s: seq<Word>, end: PageNo)
    requires FRAMES <= 32 * |s| && Spoilt(m, dir, s, end) && m' == MapMem(m, dir, ALL_ONES, end, 0x107, ALL_ONES)
    ensures Spoilt(m', dir, s, end + 1)
  {
    var n: PageNo :| SpoiltAt(m, dir, end, n);
    if Entry(m, dir, end) == 0 {
      TableSpoils(m, m', dir, end, WithFlags(ALL_ONES, PAGE_FLAGS));
      assert SpoiltAt(m', dir, end + 1, end);
    } else {
      PageSpoils(m, m', dir, end, WithFlags(ALL_ONES, 0x107));
      assert SpoiltAt(m', dir, end + 1, n);
    }
  }

  /** One turn without the frames it needs spoils tables or break. */
  lemma TurnSpoils(m: Memory, m': Memory, dir: int, s: seq<Word>, s1: seq<Word>, s2: seq<Word>, end: PageNo)
    requires Turned(m, m', dir, s, s1, s2, end) && TablesApart(m, dir) && 0 < dir < RAM_START && 0x100 <= end
    requires CountSet(s, FRAMES) + TurnNeeds(m, dir, end) > FRAMES
    ensures Spoilt(m', dir, s2, end + 1)
  {
    NothingLeft(m, m', dir, s, s1, s2, end);
    if Entry(m, dir, end) == 0 {
      TableSpoils(m, m', dir, end, WithFlags(NextFrame(s), PAGE_FLAGS));
    } else {
      PageSpoils(m, m', dir, end, WithFlags(NextFrame(s1), 0x107));
    }
    assert SpoiltAt(m', dir, end + 1, end);
  }

  /** ... and leaves no frame. */
  lemma NothingLeft(m: Memory, m': Memory, dir: int, s: seq<Word>, s1: seq<Word>, s2: seq<Word>, end: PageNo)
    requires Turned(m, m', dir, s, s1, s2, end)
    requires CountSet(s, FRAMES) + TurnNeeds(m, dir, end) > FRAMES
    ensures NextFrame(s1) == NextFrame(s2) == ALL_ONES && (Entry(m, dir, end) != 0 ==> NextFrame(s) == ALL_ONES)
  {
    CountFull(s, FRAMES);
    NoFrameIff(s);
    if CountSet(s, FRAMES) < FRAMES { TakeFrame(s, s1); }
    NoFrameIff(s1);
  }

  /** One turn with frames enough: what it keeps, and what it maps. */
  lemma TurnKeeps(m: Memory, m': Memory, dir: int, s: seq<Word>, s1: seq<Word>, s2: seq<Word>, pages: seq<int>)
    requires EndPage(pages) < 0x10_0000 && Turned(m, m', dir, s, s1, s2, EndPage(pages)) && SoundBreak(m, dir, s, pages)
    requires CountSet(s, FRAMES) + TurnNeeds(m, dir, EndPage(pages)) <= FRAMES
    ensures SoundBreak(m', dir, s2, pages + [NextFrame(s)])
    ensures CountSet(s2, FRAMES) == CountSet(s, FRAMES) + TurnNeeds(m, dir, EndPage(pages))
  {
    TakeFrame(s, s1);
    TakeTable(m, dir, s, s1, s2, EndPage(pages));
    ExtendBreak(m, m', dir, s, s2, pages, NextFrame(s), NextFrame(s1));
  }

  /** One turn of the sbrk loop keeps tables and break sound if and only if there are as many free frames as it needs:
      one, and one more if the page table is missing. */
  lemma TurnSoundIff(m: Memory, m': Memory, dir: int, s: seq<Word>, s1: seq<Word>, s2: seq<Word>, pages: seq<int>)
    requires EndPage(pages) < 0x10_0000 && Turned(m, m', dir, s, s1, s2, EndPage(pages)) && SoundBreak(m, dir, s, pages)
    ensures (exists pages' :: |pages'| == |pages| + 1 && SoundBreak(m', dir, s2, pages'))
            <==> CountSet(s, FRAMES) + TurnNeeds(m, dir, EndPage(pages)) <= FRAMES
  {
    if CountSet(s, FRAMES) + TurnNeeds(m, dir, EndPage(pages)) <= FRAMES {
      TurnKeeps(m, m', dir, s, s1, s2, pages);
      assert |pages + [NextFrame(s)]| == |pages| + 1;
    } else {
      TurnSpoils(m, m', dir, s, s1, s2, EndPage(pages));
      SpoiltHasNoFrames(m', dir, s2, EndPage(pages) + 1);
    }
  }

  lemma SpoiltHasNoFrames(m: Memory, dir: int, s: seq<Word>, end: int)
    requires FRAMES <= 32 * |s| && Spoilt(m, dir, s, end)
    ensures forall pages :: EndPage(pages) == end ==> !SoundBreak(m, dir, s, pages)
  {
    forall pages | EndPage(pages) == end ensures !SoundBreak(m, dir, s, pages) { SpoiltIsUnsound(m, dir, s, pages); }
  }

  /** A turn takes as many frames as it takes off what any goal beyond it needs. */
  lemma TurnBudget(m: Memory, m': Memory, dir: int, s: seq<Word>, s1: seq<Word>, s2: seq<Word>, pages: seq<int>,
                   goal: Word)
    requires EndPage(pages) < 0x10_0000 && Turned(m, m', dir, s, s1, s2, EndPage(pages)) && SoundBreak(m, dir, s, pages)
    requires CountSet(s, FRAMES) + TurnNeeds(m, dir, EndPage(pages)) <= FRAMES && EndOf(pages) < goal
    ensures Cost(m', dir, s2, EndPage(pages) + 1, goal) == Cost(m, dir, s, EndPage(pages), goal)
  {
    TakeFrame(s, s1);
    TakeTable(m, dir, s, s1, s2, EndPage(pages));
    NeedAfterTurn(m, m', dir, s, s2, EndPage(pages), NextFrame(s), NextFrame(s1), goal);
  }

  lemma NeedFirst(m: Memory, dir: int, n: int, target: int)
    requires 0x1000 * n < target
    ensures Need(m, dir, n, target, false) >= TurnNeeds(m, dir, n)
  {
  }

  /** A turn from a ruined state. */
  lemma RuinedTurn(m: Memory, m': Memory, dir: int, s: seq<Word>, s1: seq<Word>, s2: seq<Word>, end: PageNo)
    requires Turned(m, m', dir, s, s1, s2, end) && Spoilt(m, dir, s, end)
    ensures Spoilt(m', dir, s2, end + 1)
  {
    FullMapTurn(m, m', dir, s, s1, s2, end);
    SpoiltStays(m, m', dir, s, end);
  }

  /** A turn changes nothing in a map without free frames. */
  lemma FullMapTurn(m: Memory, m': Memory, dir: int, s: seq<Word>, s1: seq<Word>, s2: seq<Word>, end: PageNo)
    requires Turned(m, m', dir, s, s1, s2, end) && NextFrame(s) == ALL_ONES
    ensures s1 == s && s2 == s
  {
    if FreeRegion(s, FRAMES, 120, 1) != NOT_FOUND { var r := NextFrameIs(s); }
  }

  /** A bitmap in which every frame is used but, perhaps, those of the first word; a word at which scans stop follows
      it. */
  function FullMap(first: Word): seq<Word> {
    [first] + seq(119, i => ALL_ONES) + [1]
  }

  lemma FullMapBits(first: Word, i: nat)
    requires i < FRAMES
    ensures At(FullMap(first), i) == (if i < 32 then Bit(first, i) else true)
  {
    if i >= 32 {
      assert FullMap(first)[i / 32] == ALL_ONES;
      OnesBits(i % 32);
    }
  }

  lemma FullMapWellFormed(first: Word)
    ensures WellFormed(FullMap(first), FRAMES, 120)
  {
    assert FullMap(first)[120] == 1;
    LowOnes(1, TOP_BIT);
    assert Pow2(1) - 1 == 1;
  }

  lemma FullMapCount()
    ensures CountSet(FullMap(ALL_ONES), FRAMES) == FRAMES && CountSet(FullMap(0xFFFF_FFFE), FRAMES) == FRAMES - 1
  {
    var s, full := FullMap(0xFFFF_FFFE), FullMap(ALL_ONES);
    forall i | 0 <= i < FRAMES ensures At(full, i) {
      FullMapBits(ALL_ONES, i);
      if i < 32 { OnesBits(i); }
    }
    CountFull(full, FRAMES);
    forall i: nat | i < 32 * |s| ensures At(full, i) == (if 0 <= i < 1 then true else At(s, i)) {
      if 0 < i < 32 { AllButLow(i); } else if i >= 32 { assert full[i / 32] == s[i / 32]; }
    }
    assert !At(s, 0);
    CountFilled(s, full, 0, 1, FRAMES);
  }

  lemma AllButLow(i: nat)
    requires 0 < i < 32
    ensures Bit(0xFFFF_FFFE, i) == Bit(ALL_ONES, i)
  {
    assert 0xFFFF_FFFE / 2 == ALL_ONES / 2;
  }

  /** The failing inputs.  With every frame in use and the table of the first page in place, sbrk(1) maps that page to
      0xFFFFF000 ... */
  lemma NoFrameForPage(m: Memory, m': Memory, s: seq<Word>, s1: seq<Word>, s2: seq<Word>)
    requires s == FullMap(ALL_ONES) && m == map[0x8_0000 := 0x20_0007] && Turned(m, m', 0x8_0000, s, s1, s2, 0x100)
    ensures SoundBreak(m, 0x8_0000, s, [])
            && CountSet(s, FRAMES) + Need(m, 0x8_0000, 0x100, RAM_START + 1, false) == FRAMES + 1
    ensures FrameOf(m', 0x8_0000, 0x100) == 0xFFFF_F000
  {
    FullMapCount();
    NoFrameIff(s);
    OneTable(m, s);
    PageSpoils(m, m', 0x8_0000, 0x100, WithFlags(NextFrame(s1), 0x107));
  }

  lemma OneTable(m: Memory, s: seq<Word>)
    requires s == FullMap(ALL_ONES) && m == map[0x8_0000 := 0x20_0007]
    ensures Entry(m, 0x8_0000, 0x100) == 0x20_0007 && SoundBreak(m, 0x8_0000, s, [])
  {
    assert Base(0x20_0007) == 0x20_0000;
    FullMapBits(ALL_ONES, 256);
    assert FrameUsed(s, 0x20_0000);
  }

  /** ... and with one frame left and no table, the page gets the frame and the directory an entry of all ones. */
  lemma NoFrameForTable(m: Memory, m': Memory, s: seq<Word>, s1: seq<Word>, s2: seq<Word>)
    requires s == FullMap(0xFFFF_FFFE) && m == map[] && Turned(m, m', 0x8_0000, s, s1, s2, 0x100)
    ensures SoundBreak(m, 0x8_0000, s, [])
            && CountSet(s, FRAMES) + Need(m, 0x8_0000, 0x100, RAM_START + 1, false) == FRAMES + 1
    ensures NextFrame(s) == RAM_START && Entry(m', 0x8_0000, 0x100) == ALL_ONES
  {
    FullMapCount();
    SomeFrameFree(s);
    var r := NextFrameIs(s);
    FullMapBits(0xFFFF_FFFE, r);
    if 0 < r < 32 { AllButLow(r); OnesBits(r); }
    NothingLeft(m, m', 0x8_0000, s, s1, s2, 0x100);
    TableSpoils(m, m', 0x8_0000, 0x100, WithFlags(NextFrame(s), PAGE_FLAGS));
  }

  /** Both are turns that the loop makes, as every state has one. */
  lemma FailingTurns()
    ensures exists m', s1, s2 :: Turned(map[0x8_0000 := 0x20_0007], m', 0x8_0000, FullMap(ALL_ONES), s1, s2, 0x100)
    ensures exists m', s1, s2 :: Turned(map[], m', 0x8_0000, FullMap(0xFFFF_FFFE), s1, s2, 0x100)
  {
    FullMapWellFormed(ALL_ONES);
    FullMapWellFormed(0xFFFF_FFFE);
    var m', s1, s2 := TurnExists(map[0x8_0000 := 0x20_0007], 0x8_0000, FullMap(ALL_ONES), 0x100);
    m', s1, s2 := TurnExists(map[], 0x8_0000, FullMap(0xFFFF_FFFE), 0x100);
  }

  lemma TurnExists(m: Memory, dir: int, s: seq<Word>, end: PageNo) returns (m': Memory, s1: seq<Word>, s2: seq<Word>)
    requires WellFormed(s, FRAMES, 120)
    ensures Turned(m, m', dir, s, s1, s2, end)
  {
    s1 := FrameTaken(s);
    s2 := s1;
    if Entry(m, dir, end) == 0 { s2 := FrameTaken(s1); }
    m' := MapMem(m, dir, NextFrame(s), end, 0x107, NextFrame(s1));
  }

  lemma FrameTaken(s: seq<Word>) returns (s': seq<Word>)
    requires WellFormed(s, FRAMES, 120)
    ensures TookFrame(s, s') && |s'| == |s| && WellFormed(s', FRAMES, 120)
  {
    s' := s;
    if FreeRegion(s, FRAMES, 120, 1) != NOT_FOUND {
      var r := NextFrameIs(s);
      var word := BitSet(s[r / 32], 1, r % 32);
      FillMore(s, s, true, r, r, r + 1, r / 32, word);
      s' := s[r / 32 := word];
      FilledWellFormed(s, s', true, r, r + 1, FRAMES, 120);
    }
  }

  class AddressSpace {
    var mem: Memory
    var brk: Word
    var brkEnd: Word
    const frames: PageFrames
    /** The frames behind the pages of the break, in order. */
    ghost var pages: seq<int>

    const DIR: Word := 0x8_0000

    ghost predicate Valid()
      reads this`mem, this`brk, this`brkEnd, this`pages, frames, frames.bitmap.arr
    {
      Ready() && Sound() && brk <= brkEnd
    }

    ghost predicate Ready()
      reads this`brkEnd, this`pages, frames, frames.bitmap.arr
    {
      frames.Valid() && frames.Owned() && brkEnd == EndOf(pages)
    }

    ghost predicate Sound()
      requires frames.Valid()
      reads this`mem, this`pages, frames, frames.bitmap.arr
    {
      SoundBreak(mem, DIR, frames.bitmap.arr[..], pages)
    }

    /** Frames have run out: some table or page of the break is no frame, and none is left. */
    ghost predicate Ruined()
      requires frames.Valid()
      reads this`mem, this`pages, frames, frames.bitmap.arr
    {
      Spoilt(mem, DIR, frames.bitmap.arr[..], EndPage(pages))
    }

    ghost function Now(): Log
      reads this`mem, this`pages, frames, frames.bitmap.arr
    {
      Log(mem, DIR, frames.bitmap.arr[..], pages)
    }

    /** Frames in use, and those it takes to move the break up to goal. */
    ghost function Budget(goal: int): nat
      requires frames.Valid()
      reads this`mem, this`pages, frames, frames.bitmap.arr
    {
      Start(Now(), goal)
    }

    /** The state at boot: nothing handed out, and page tables only below the managed RAM. */
    constructor (m: Memory, allocator: PageFrames)
      requires allocator.Valid() && allocator.Owned()
      requires TablesApart(m, 0x8_0000) && TablesUsed(m, 0x8_0000, allocator.bitmap.arr[..])
      ensures Valid() && brk == brkEnd == RAM_START && mem == m && frames == allocator && pages == []
    {
      mem := m;
      brk := 0x10_0000;
      brkEnd := 0x10_0000;
      frames := allocator;
      pages := [];
    }

    /** commit_pages(1). */
    method CommitOne() returns (paddr: Word)
      requires frames.Valid()
      modifies frames`live, frames.bitmap.arr
      ensures frames.Valid() && (old(frames.Owned()) ==> frames.Owned())
      ensures paddr == NextFrame(old(frames.bitmap.arr[..]))
              && TookFrame(old(frames.bitmap.arr[..]), frames.bitmap.arr[..])
    {
      OnePageTruthful(frames.bitmap.arr[..]);
      paddr := frames.CommitPages(1);
    }

    /** map_page. */
    method MapPage(dir: Word, paddr: Word, vaddr: Word, access: Word)
      requires frames.Valid()
      modifies this`mem, frames`live, frames.bitmap.arr
      ensures frames.Valid() && (old(frames.Owned()) ==> frames.Owned())
      ensures var s := old(frames.bitmap.arr[..]);
              && mem == MapMem(old(mem), dir, paddr, vaddr / 0x1000, access, NextFrame(s))
              && if Entry(old(mem), dir, vaddr / 0x1000)
                 == 0 then TookFrame(s, frames.bitmap.arr[..]) else frames.bitmap.arr[..] == s
    {
      SplitAddress(vaddr);
      var pdEntry := vaddr / 0x40_0000;
      var ptEntry := vaddr / 0x1000 % 0x400;
      StoreEntry(dir + 4 * pdEntry, ptEntry, paddr, access, dir, vaddr / 0x1000);
    }

    /** The stores of map_page: slot is the address of the directory entry, ptEntry the index into the table. */
    method StoreEntry(slot: int, ptEntry: nat, paddr: Word, access: Word, ghost dir: Word, ghost n: int)
      requires frames.Valid() && slot == DirSlot(dir, n) && ptEntry == n % 0x400
      modifies this`mem, frames`live, frames.bitmap.arr
      ensures frames.Valid() && (old(frames.Owned()) ==> frames.Owned())
      ensures mem == MapMem(old(mem), dir, paddr, n, access, NextFrame(old(frames.bitmap.arr[..])))
      ensures if Entry(old(mem), dir, n) == 0 then TookFrame(old(frames.bitmap.arr[..]), frames.bitmap.arr[..])
              else frames.bitmap.arr[..] == old(frames.bitmap.arr[..])
    {
      WithFlagsIsOr(paddr, PAGE_FLAGS);
      AddTable(slot, access);
      var entry: int := Load(mem, slot);
      var table := entry - entry % 0x1000;
      mem := mem[table + 4 * ptEntry := Or(paddr, PAGE_FLAGS)];
    }

    /** The first half of map_page: a missing table is committed. */
    method AddTable(slot: int, access: Word)
      requires frames.Valid()
      modifies this`mem, frames`live, frames.bitmap.arr
      ensures frames.Valid() && (old(frames.Owned()) ==> frames.Owned())
      ensures var s := old(frames.bitmap.arr[..]);
              if Load(old(mem), slot) == 0 then mem == old(mem)[slot := WithFlags(NextFrame(s), access)]
                && TookFrame(s, frames.bitmap.arr[..])
              else mem == old(mem) && frames.bitmap.arr[..] == s
    {
      if Load(mem, slot) == 0 {
        var page := CommitOne();
        WithFlagsIsOr(page, access);
        mem := mem[slot := Or(page, access)];
      }
    }

    /** unmap_page. */
    method UnmapPage(dir: Word, vaddr: Word)
      modifies this`mem
      ensures mem == UnmapMem(old(mem), dir, vaddr / 0x1000)
    {
      SplitAddress(vaddr);
      var pdEntry := vaddr / 0x40_0000;
      var ptEntry := vaddr / 0x1000 % 0x400;
      if Load(mem, dir + 4 * pdEntry) != 0 {
        var entry: int := Load(mem, dir + 4 * pdEntry);
        var table := entry - entry % 0x1000;
        mem := mem[table + 4 * ptEntry := 0];
      }
    }

    /** sbrk: the old break comes back and the break moves by the increment, modulo 2^32.  Every page below the end of
        the break has a frame of its own afterwards if and only if there were frames enough.  (A target above 0xFFFFF000
        is never reached: SbrkNeverEndsIff.) */
    method Sbrk(increment: Word) returns (oldBrk: Word)
      requires Ready() && (Sound() || Ruined()) && Wrap(brk + increment) <= 0xFFFF_F000
      modifies this, frames`live, frames.bitmap.arr
      ensures Ready() && oldBrk == old(brk) && brk == Wrap(oldBrk + increment) <= brkEnd && old(pages) <= pages
      ensures old(Ruined()) ==> Ruined()
      ensures old(Sound()) ==> (Valid() <==> old(Budget(Wrap(brk + increment))) <= FRAMES) && (Sound() || Ruined())
      ensures old(Sound()) && Sound() ==> forall goal: Word :: brk <= goal ==> Budget(goal) == old(Budget(goal))
    {
      oldBrk := brk;
      var newBrk: Word := Wrap(brk + increment);
      EitherOr();
      while newBrk > brkEnd
        invariant Ready() && brk == old(brk) && old(pages) <= pages && (Sound() || Ruined())
                  && (old(Ruined()) ==> Ruined())
        invariant old(Sound()) && Sound() ==> forall goal: Word :: newBrk <= goal ==> Budget(goal) == old(Budget(goal))
        invariant old(Sound()) && Ruined() ==> old(Budget(newBrk)) > FRAMES
        decreases newBrk - brkEnd
      {
        EitherOr();
        ExtendOnePage(newBrk);
        EitherOr();
      }
      EitherOr();
      if Sound() { EndReached(newBrk); }
      brk := newBrk;
    }

    /** Sound and ruined exclude each other. */
    lemma EitherOr()
      requires Ready()
      ensures !(Sound() && Ruined())
    {
      if Sound() && Ruined() { SpoiltIsUnsound(mem, DIR, frames.bitmap.arr[..], pages); }
    }

    lemma EndReached(goal: Word)
      requires Ready() && goal <= brkEnd
      ensures Budget(goal) <= FRAMES
    {
      PageOfEnd(pages);
      CountFull(frames.bitmap.arr[..], FRAMES);
    }

    /** There are frames for one more page. */
    ghost predicate Fits()
      requires frames.Valid()
      reads this`mem, this`pages, frames, frames.bitmap.arr
    {
      CountSet(frames.bitmap.arr[..], FRAMES) + TurnNeeds(mem, DIR, EndPage(pages)) <= FRAMES
    }

    /** One turn of the loop: it stays sound if there are frames enough, and is ruined if there are not. */
    method ExtendOnePage(newBrk: Word)
      requires Ready() && (Sound() || Ruined()) && brkEnd < newBrk <= 0xFFFF_F000
      modifies this`mem, this`brkEnd, this`pages, frames`live, frames.bitmap.arr
      ensures Ready() && brkEnd == old(brkEnd) + PAGE && old(pages) <= pages
      ensures old(Sound()) ==> (Sound() <==> old(Fits())) && (Ruined() <==> !old(Fits()))
      ensures old(Ruined()) ==> Ruined()
      ensures old(Sound()) && !old(Fits()) ==> old(Budget(newBrk)) > FRAMES
      ensures old(Sound()) && old(Fits()) ==> forall goal: Word :: newBrk <= goal ==> Budget(goal) == old(Budget(goal))
    {
      ghost var m, s, before := mem, frames.bitmap.arr[..], pages;
      ghost var s1 := MapNextPage();
      TurnOutcome(m, mem, DIR, s, s1, frames.bitmap.arr[..], before, newBrk);
    }

    /** The body of the loop: a frame for the next page, and one for its table if that is missing. */
    method MapNextPage() returns (ghost s1: seq<Word>)
      requires Ready() && brkEnd < 0xFFFF_F000
      modifies this`mem, this`brkEnd, this`pages, frames`live, frames.bitmap.arr
      ensures Ready() && brkEnd == old(brkEnd) + PAGE
      ensures pages == old(pages) + [NextFrame(old(frames.bitmap.arr[..]))]
      ensures Turned(old(mem), mem, DIR, old(frames.bitmap.arr[..]), s1, frames.bitmap.arr[..], EndPage(old(pages)))
    {
      PageOfEnd(pages);
      var newPage := CommitOne();
      s1 := frames.bitmap.arr[..];
      MapPage(0x8_0000, newPage, brkEnd, 0x107);
      brkEnd := brkEnd + 0x1000;
      pages := pages + [newPage];
    }

    /** A sequence of calls with increments that do not take the break past its limit.  The ranges returned follow one
        another and never overlap; after each call -- `sound` and `history` record the states between them -- every page
        below the end of the break has a frame of its own if and only if there were frames enough for the break reached,
        and the frames of earlier pages are never changed. */
    method SbrkAll(increments: seq<Word>) returns (olds: seq<int>, ghost sound: seq<bool>, ghost history: seq<seq<int>>)
      requires Valid() && brk + Sum(increments, |increments|) <= 0xFFFF_F000
      modifies this, frames`live, frames.bitmap.arr
      ensures Ready() && |olds| == |sound| == |history| == |increments|
              && brk == old(brk) + Sum(increments, |increments|)
      ensures forall i {:trigger olds[i]} :: 0 <= i < |olds| ==> olds[i] == old(brk) + Sum(increments, i)
      ensures forall i, j :: 0 <= i < j < |olds| ==> olds[i] + increments[i] <= olds[j]
      ensures forall i {:trigger sound[i]} :: 0 <= i < |sound| ==>
                (sound[i] <==> old(Budget(brk + Sum(increments, i + 1))) <= FRAMES)
      ensures forall i :: 0 <= i < |history| ==> old(pages) <= history[i] <= pages
      ensures Valid() <==> old(Budget(brk + Sum(increments, |increments|))) <= FRAMES
    {
      ghost var start, log := brk, Now();
      StartTracks(log);
      olds, sound, history := SbrkEach(increments, |increments|, log, start);
    }

    lemma StartTracks(log: Log)
      requires Valid() && log == Now()
      ensures Tracks(log)
    {
      EitherOr();
      EndReached(brk);
    }

    /** The first k of the calls. */
    method SbrkEach(increments: seq<Word>, k: nat, ghost log: Log, ghost start: int)
      returns (olds: seq<int>, ghost sound: seq<bool>, ghost history: seq<seq<int>>)
      requires k <= |increments|
      requires Tracks(log) && log.first == pages && brk == start && start + Sum(increments, k) <= 0xFFFF_F000
      modifies this, frames`live, frames.bitmap.arr
      ensures Tracks(log) && brk == start + Sum(increments, k)
      ensures Logged(log, increments, k, start, olds, sound, history, pages)
      decreases k
    {
      if k == 0 {
        return [], [], [];
      }
      olds, sound, history := SbrkEach(increments, k - 1, log, start);
      ghost var ok;
      var oldBrk;
      oldBrk, ok := SbrkNext(increments, k, log, start, olds, sound, history);
      olds, sound, history := olds + [oldBrk], sound + [ok], history + [pages];
    }

    /** The k-th call, behind the first k - 1. */
    method SbrkNext(increments: seq<Word>, k: nat, ghost log: Log, ghost start: int,
                    ghost olds: seq<int>, ghost sound: seq<bool>, ghost history: seq<seq<int>>)
                      returns (oldBrk: int, ghost ok: bool)
      requires 0 < k <= |increments| && Tracks(log) && brk == start + Sum(increments, k - 1)
               && start + Sum(increments, k) <= 0xFFFF_F000
      requires Logged(log, increments, k - 1, start, olds, sound, history, pages)
      modifies this, frames`live, frames.bitmap.arr
      ensures Tracks(log) && brk == start + Sum(increments, k)
      ensures Logged(log, increments, k, start, olds + [oldBrk], sound + [ok], history + [pages], pages)
    {
      ghost var last := pages;
      oldBrk := TrackedSbrk(increments[k - 1], log);
      ok := Sound();
      LogMore(log, increments, k, start, olds, sound, history, last, oldBrk, ok, pages);
    }

    /** Where a sequence of calls stands that began as log says: sound if the frames allow, or ruined for lack of
        them. */
    ghost predicate Tracks(log: Log)
      reads this`mem, this`brk, this`brkEnd, this`pages, frames, frames.bitmap.arr
    {
      && FRAMES <= 32 * |log.s| && Ready() && brk <= brkEnd && (Sound() || Ruined()) && log.first <= pages
      && (Sound() <==> Start(log, brk) <= FRAMES)
      && (Sound() ==> forall goal: Word :: brk <= goal ==> Budget(goal) == Start(log, goal))
    }

    /** One call of the sequence. */
    method TrackedSbrk(increment: Word, ghost log: Log) returns (oldBrk: Word)
      requires Tracks(log) && brk + increment <= 0xFFFF_F000
      modifies this, frames`live, frames.bitmap.arr
      ensures Tracks(log) && oldBrk == old(brk) && brk == oldBrk + increment && old(pages) <= pages
    {
      NeedMonotone(log.m, log.dir, EndPage(log.first), brk, brk + increment, false);
      EitherOr();
      WrapSmall(brk + increment);
      ghost var was, budget := Sound(), Budget(brk + increment);
      assert was ==> budget == Start(log, brk + increment);
      assert !was ==> Start(log, brk + increment) > FRAMES;
      oldBrk := Sbrk(increment);
      EitherOr();
      EndReached(brk);
      assert was ==> (Sound() <==> budget <= FRAMES);
    }
  }

  /** Frames in use in s, and those it takes to move a break that ends at page n up to goal. */
  function Cost(m: Memory, dir: int, s: seq<Word>, n: int, goal: int): nat
    requires FRAMES <= 32 * |s|
  {
    CountSet(s, FRAMES) + Need(m, dir, n, goal, false)
  }

  /** Where a sequence of sbrk calls starts: memory, directory, bitmap, and the frames behind the break. */
  datatype Log = Log(m: Memory, dir: int, s: seq<Word>, first: seq<int>)

  /** Frames in use at the start, and those it takes from there to move the break up to goal. */
  function Start(log: Log, goal: int): nat
    requires FRAMES <= 32 * |log.s|
  {
    Cost(log.m, log.dir, log.s, EndPage(log.first), goal)
  }

  /** What the first k calls returned and left behind. */
  ghost predicate Logged(log: Log, increments: seq<Word>, k: nat, start: int, olds: seq<int>, sound: seq<bool>,
                         history: seq<seq<int>>, pages: seq<int>)
  {
    && FRAMES <= 32 * |log.s| && |olds| == |sound| == |history| == k <= |increments|
    && (forall i {:trigger olds[i]} :: 0 <= i < k ==> olds[i] == start + Sum(increments, i))
    && (forall i, j :: 0 <= i < j < k ==> olds[i] + increments[i] <= olds[j])
    && (forall i {:trigger sound[i]} :: 0 <= i < k ==>
          (sound[i] <==> Start(log, start + Sum(increments, i + 1)) <= FRAMES))
    && (forall i :: 0 <= i < k ==> log.first <= history[i] <= pages)
  }

  lemma LogMore(log: Log, increments: seq<Word>, k: nat, start: int, olds: seq<int>, sound: seq<bool>,
                history: seq<seq<int>>, pages: seq<int>, oldBrk: int, ok: bool, pages': seq<int>)
    requires 0 < k <= |increments| && Logged(log, increments, k - 1, start, olds, sound, history, pages)
    requires oldBrk == start + Sum(increments, k - 1) && log.first <= pages <= pages'
    requires ok <==> Start(log, start + Sum(increments, k)) <= FRAMES
    ensures Logged(log, increments, k, start, olds + [oldBrk], sound + [ok], history + [pages'], pages')
  {
    OneMoreRange(increments, olds, k, start, oldBrk);
    OneMoreState(log, increments, k, start, sound, ok);
  }

  lemma OneMoreRange(increments: seq<Word>, olds: seq<int>, k: nat, start: int, oldBrk: int)
    requires 0 < k <= |increments| && |olds| == k - 1 && oldBrk == start + Sum(increments, k - 1)
    requires forall i {:trigger olds[i]} :: 0 <= i < k - 1 ==> olds[i] == start + Sum(increments, i)
    ensures var olds' := olds + [oldBrk];
            && (forall i {:trigger olds'[i]} :: 0 <= i < k ==> olds'[i] == start + Sum(increments, i))
            && (forall i, j :: 0 <= i < j < k ==> olds'[i] + increments[i] <= olds'[j])
  {
    RangesFollow(increments, olds + [oldBrk], start);
  }

  lemma OneMoreState(log: Log, increments: seq<Word>, k: nat, start: int, sound: seq<bool>, ok: bool)
    requires FRAMES <= 32 * |log.s| && 0 < k <= |increments| && |sound| == k - 1
    requires forall i {:trigger sound[i]} :: 0 <= i < k - 1 ==>
               (sound[i] <==> Start(log, start + Sum(increments, i + 1)) <= FRAMES)
    requires ok <==> Start(log, start + Sum(increments, k)) <= FRAMES
    ensures var sound' := sound + [ok];
            forall i {:trigger sound'[i]} :: 0 <= i < k ==>
              (sound'[i] <==> Start(log, start + Sum(increments, i + 1)) <= FRAMES)
  {
  }

  /** The sum of the first k. */
  function Sum(a: seq<Word>, k: nat): nat
    requires k <= |a|
  {
    if k == 0 then 0 else Sum(a, k - 1) + a[k - 1]
  }

  lemma {:induction false} SumGrows(a: seq<Word>, i: nat, k: nat)
    requires i <= k <= |a|
    ensures Sum(a, i) <= Sum(a, k)
    decreases k
  {
    if i < k { SumGrows(a, i, k - 1); }
  }

  lemma RangesFollow(increments: seq<Word>, olds: seq<int>, start: int)
    requires |olds| <= |increments|
    requires forall i {:trigger olds[i]} :: 0 <= i < |olds| ==> olds[i] == start + Sum(increments, i)
    ensures forall i, j :: 0 <= i < j < |olds| ==> olds[i] + increments[i] <= olds[j]
  {
    forall i, j | 0 <= i < j < |olds| ensures olds[i] + increments[i] <= olds[j] {
      SumGrows(increments, i + 1, j);
    }
  }

  /** brk_end after k turns of the loop of sbrk, in 32-bit arithmetic. */
  function EndAfter(end: Word, k: nat): Word {
    if k == 0 then end else Wrap(EndAfter(end, k - 1) + 0x1000)
  }

  /** However often the loop turns, its guard still holds, if and only if the target is above 0xFFFFF000. */
  lemma SbrkNeverEndsIff(newBrk: Word, end: Word)
    requires end % PAGE == 0
    ensures (forall k: nat :: newBrk > EndAfter(end, k)) <==> newBrk > 0xFFFF_F000
  {
    if newBrk > 0xFFFF_F000 {
      forall k: nat ensures newBrk > EndAfter(end, k) { EndAligned(end, k); }
    } else {
      var k := (0xFFFF_F000 - end) / 0x1000;
      EndRises(end, k);
      assert EndAfter(end, k) == 0xFFFF_F000;
    }
  }

  lemma {:induction false} EndAligned(end: Word, k: nat)
    requires end % PAGE == 0
    ensures EndAfter(end, k) % PAGE == 0
  {
    if k > 0 { EndAligned(end, k - 1); }
  }

  lemma {:induction false} EndRises(end: Word, k: nat)
    requires end + 0x1000 * k < TWO_32
    ensures EndAfter(end, k) == end + 0x1000 * k
  {
    if k > 0 {
      EndRises(end, k - 1);
      WrapSmall(end + 0x1000 * k);
    }
  }

  lemma PageOfEnd(pages: seq<int>)
    ensures EndOf(pages) / 0x1000 == EndPage(pages)
  {
  }

  lemma SplitAddress(vaddr: Word)
    ensures vaddr / 0x40_0000 == vaddr / 0x1000 / 0x400
  {
  }

  lemma OnePageTruthful(s: seq<Word>)
    requires WellFormed(s, FRAMES, 120)
    ensures Truthful(s, FRAMES, 120, 1)
    ensures var r := FreeRegion(s, FRAMES, 120, 1);
            r != NOT_FOUND ==> r >= 0 && Region(r, 1).Address() < RAM_END
  {
    FreeRegionExactIff(s, FRAMES, 120, 1);
    TruthfulFits(s, FRAMES, 120, 1);
  }

  /** The table one turn may make. */
  lemma TakeTable(m: Memory, dir: int, s: seq<Word>, s1: seq<Word>, s2: seq<Word>, end: PageNo)
    requires WellFormed(s, FRAMES, 120) && TookFrame(s, s1) && CountSet(s, FRAMES) < FRAMES && |s1| == |s|
    requires if Entry(m, dir, end) == 0 then TookFrame(s1, s2) && CountSet(s1, FRAMES) < FRAMES else s2 == s1
    ensures |s2| == |s| && UsedGrows(s, s2) && NewFrame(s, s2, NextFrame(s))
    ensures CountSet(s2, FRAMES) == CountSet(s1, FRAMES) + if Entry(m, dir, end) == 0 then 1 else 0
    ensures Entry(m, dir, end) == 0 ==> NewFrame(s, s2, NextFrame(s1)) && NextFrame(s1) != NextFrame(s)
  {
    TakeFrame(s, s1);
    if Entry(m, dir, end) == 0 { TakeFrame(s1, s2); }
  }

  /** What ExtendOnePage says, on the memory and the bitmap before and after. */
  lemma TurnOutcome(m: Memory, m': Memory, dir: int, s: seq<Word>, s1: seq<Word>, s2: seq<Word>, pages: seq<int>,
                    newBrk: Word)
    requires EndOf(pages) < newBrk && Turned(m, m', dir, s, s1, s2, EndPage(pages))
    ensures var fits := CountSet(s, FRAMES) + TurnNeeds(m, dir, EndPage(pages)) <= FRAMES;
            SoundBreak(m, dir, s, pages) ==>
              && (SoundBreak(m', dir, s2, pages + [NextFrame(s)]) <==> fits)
              && (Spoilt(m', dir, s2, EndPage(pages) + 1) <==> !fits)
              && (!fits ==> Cost(m, dir, s, EndPage(pages), newBrk) > FRAMES)
              && (fits ==> forall goal: Word :: newBrk <= goal ==>
                    Cost(m', dir, s2, EndPage(pages) + 1, goal) == Cost(m, dir, s, EndPage(pages), goal))
    ensures Spoilt(m, dir, s, EndPage(pages)) ==> Spoilt(m', dir, s2, EndPage(pages) + 1)
  {
    if SoundBreak(m, dir, s, pages) {
      if CountSet(s, FRAMES) + TurnNeeds(m, dir, EndPage(pages)) <= FRAMES {
        KeptTurn(m, m', dir, s, s1, s2, pages, newBrk);
      } else {
        LostTurn(m, m', dir, s, s1, s2, pages, newBrk);
      }
    }
    if Spoilt(m, dir, s, EndPage(pages)) { RuinedTurn(m, m', dir, s, s1, s2, EndPage(pages)); }
  }

  lemma LostTurn(m: Memory, m': Memory, dir: int, s: seq<Word>, s1: seq<Word>, s2: seq<Word>, pages: seq<int>,
                 newBrk: Word)
    requires EndOf(pages) < newBrk && Turned(m, m', dir, s, s1, s2, EndPage(pages)) && SoundBreak(m, dir, s, pages)
    requires CountSet(s, FRAMES) + TurnNeeds(m, dir, EndPage(pages)) > FRAMES
    ensures Spoilt(m', dir, s2, EndPage(pages) + 1) && !SoundBreak(m', dir, s2, pages + [NextFrame(s)])
    ensures Cost(m, dir, s, EndPage(pages), newBrk) > FRAMES
  {
    NeedFirst(m, dir, EndPage(pages), newBrk);
    TurnSpoils(m, m', dir, s, s1, s2, EndPage(pages));
    SpoiltIsUnsound(m', dir, s2, pages + [NextFrame(s)]);
  }

  lemma KeptTurn(m: Memory, m': Memory, dir: int, s: seq<Word>, s1: seq<Word>, s2: seq<Word>, pages: seq<int>,
                 newBrk: Word)
    requires EndOf(pages) < newBrk && Turned(m, m', dir, s, s1, s2, EndPage(pages)) && SoundBreak(m, dir, s, pages)
    requires CountSet(s, FRAMES) + TurnNeeds(m, dir, EndPage(pages)) <= FRAMES
    ensures SoundBreak(m', dir, s2, pages + [NextFrame(s)]) && !Spoilt(m', dir, s2, EndPage(pages) + 1)
    ensures forall goal: Word :: newBrk <= goal ==>
              Cost(m', dir, s2, EndPage(pages) + 1, goal) == Cost(m, dir, s, EndPage(pages), goal)
  {
    TurnKeeps(m, m', dir, s, s1, s2, pages);
    if Spoilt(m', dir, s2, EndPage(pages) + 1) { SpoiltIsUnsound(m', dir, s2, pages + [NextFrame(s)]); }
    forall goal: Word | newBrk <= goal
      ensures Cost(m', dir, s2, EndPage(pages) + 1, goal) == Cost(m, dir, s, EndPage(pages), goal)
    {
      TurnBudget(m, m', dir, s, s1, s2, pages, goal);
    }
  }

  lemma NeedAfterTurn(m: Memory, m': Memory, dir: int, s: seq<Word>, s': seq<Word>, end: PageNo, page: Word,
                      spare: Word, target: Word)
    requires FRAMES <= 32 * |s| && FRAMES <= 32 * |s'| && TablesApart(m, dir) && TablesUsed(m, dir, s)
    requires Entry(m, dir, end) == 0 ==> NewFrame(s, s', spare)
    requires PAGE * end < target < TWO_32
    requires m' == MapMem(m, dir, page, end, 0x107, spare)
    ensures TurnNeeds(m, dir, end) + Need(m', dir, end + 1, target, false) == Need(m, dir, end, target, false)
  {
    NewTable(m, dir, s, s', end, spare);
    var e := EntryUsed(m, dir, end, 0x107, spare);
    EntryUsedApart(m, dir, end, 0x107, spare);
    MapEntries(m, m', dir, page, end, 0x107, spare);
    var k: PageNo := end;
    NeedAfterTable(m, m', dir, end, e, end + 1, target, SameEntry(end, end + 1) && Entry(m, dir, end) == 0, false);
  }
}
