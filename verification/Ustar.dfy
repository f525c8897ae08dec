/** The archive walk of kernel/src/basedrv/fs/ustar.c, over archives in the ustar interchange format (pax utility,
    IEEE Std 1003.1): a header block per file, then its contents in whole blocks. */
module Ustar {
  import opened Machine
  import opened BlockCache
  import opened Inodes
  import Numbers

  /** "ustar" */
  const MAGIC: seq<Byte> := [117, 115, 116, 97, 114]

  // ----- Octal -----

  /** oct2bin: each step in 32-bit signed arithmetic. */
  function OctValue(s: seq<Byte>): int {
    if s == [] then 0
    else
      var digit: int := s[|s| - 1];
      ToInt32(ToInt32(OctValue(s[..|s| - 1]) * 8) + (digit - 48))
  }

  method Oct2bin(str: seq<Byte>, size: nat) returns (n: int)
    requires size <= |str|
    ensures n == OctValue(str[..size])
  {
    n := 0;
    for c := 0 to size
      invariant n == OctValue(str[..c])
    {
      assert str[..c + 1][..c] == str[..c];
      n := ToInt32(n * 8);
      var digit: int := str[c];
      n := ToInt32(n + (digit - 48));
    }
  }

  /** The low `digits` octal digits of n, most significant first. */
  function Octal(n: nat, digits: nat): (s: seq<Byte>)
    ensures |s| == digits
  {
    if digits == 0 then [] else Octal(n / 8, digits - 1) + [48 + n % 8]
  }

  function Pow8(n: nat): nat {
    if n == 0 then 1 else 8 * Pow8(n - 1)
  }

  lemma ToInt32Steps(x: int, d: int)
    ensures ToInt32(ToInt32(ToInt32(x) * 8) + d) == ToInt32(x * 8 + d)
  {
    var j := Turns(x);
    var k := Turns(ToInt32(x) * 8);
    SameInt(x * 8 + d, 8 * j + k);
  }

  /** How often 2^32 is added to make an int of x. */
  lemma Turns(x: int) returns (k: int)
    ensures ToInt32(x) == x + k * TWO_32
  {
    k := (if Wrap(x) < 0x8000_0000 then 0 else -1) - x / TWO_32;
  }

  lemma SameInt(x: int, k: int)
    ensures ToInt32(x + k * TWO_32) == ToInt32(x)
  {
    assert (x + k * TWO_32) % TWO_32 == x % TWO_32;
  }

  /** Reading octal digits back gives the number's low 32 bits as an int ... */
  lemma {:induction false} OctalWraps(n: nat, digits: nat)
    requires n < Pow8(digits)
    ensures OctValue(Octal(n, digits)) == ToInt32(n)
    decreases digits
  {
    if digits > 0 {
      OctalWraps(n / 8, digits - 1);
      var s := Octal(n, digits);
      assert s[..digits - 1] == Octal(n / 8, digits - 1);
      ToInt32Steps(n / 8, n % 8);
      assert n / 8 * 8 + n % 8 == n;
    }
  }

  /** ... so oct2bin inverts an eleven-digit size field exactly when the size is below 2^31. */
  lemma OctalRoundTripIff(n: nat)
    requires n < Pow8(11)
    ensures OctValue(Octal(n, 11)) == n <==> n < 0x8000_0000
  {
    OctalWraps(n, 11);
    ElevenDigits();
    SameIntIff(n);
  }

  lemma SameIntIff(n: nat)
    requires n < 0x2_0000_0000
    ensures ToInt32(n) == n <==> n < 0x8000_0000
  {
  }

  lemma ElevenDigits()
    ensures Pow8(11) == 0x2_0000_0000
  {
    assert Pow8(6) == 0x4_0000;
  }

  // ----- The kernel's own printer in base 8 -----

  function Bytes(s: string): (b: seq<Byte>)
    ensures |b| == |s|
  {
    seq(|s|, i requires 0 <= i < |s| => s[i] as int % 256)
  }

  lemma {:induction false} PaddedIsOctal(n: nat, k: nat)
    ensures Bytes(Numbers.Padded(n, 8, k)) == Octal(n, k)
    decreases k
  {
    if k > 0 {
      PaddedIsOctal(n / 8, k - 1);
      Numbers.PaddedLast(n, 8, k);
      assert Numbers.Quo(n, 8) == n / 8 && Numbers.Rem(n, 8) == n % 8;
    }
  }

  lemma {:induction false} PowIsPow8(k: nat)
    ensures Numbers.Pow(8, k) == Pow8(k)
  {
    if k > 0 { PowIsPow8(k - 1); }
  }

  /** Printed over the full width, a number is its digits with leading zeros. */
  lemma PrintedIsPadded(num: Word, base: nat, width: nat)
    requires 2 <= base <= 16 && width > 0 && num < Numbers.Pow(base, width)
    ensures Numbers.NumToStr(num, base, false, width) == Numbers.Padded(num, base, width)
  {
    var k := if num == 0 then 1 else Numbers.Places(num, base);
    Numbers.PlacesBound(num, base);
    assert Numbers.Pow(base, 1) == base;
    if k > width { Numbers.PowGrows(base, width, k - 1 - width); }
    Numbers.PadsWithZeros(num, base, k, width - k);
    assert k + (width - k) == width;
    assert "" + Numbers.Zeros(width - k) == Numbers.Zeros(width - k);
  }

  /** oct2bin inverts numtostr in base 8 over eleven digits, exactly below 2^31. */
  lemma Oct2binInvertsNumtostr(num: Word)
    ensures var field := Bytes(Numbers.NumToStr(num, 8, false, 11));
            && |field| == 11 && OctValue(field) == ToInt32(num)
            && (OctValue(field) == num <==> num < 0x8000_0000)
  {
    ElevenDigits();
    Oct2binInverts(num, 11);
  }

  lemma Oct2binInverts(num: Word, width: nat)
    requires width > 0 && num < Pow8(width)
    ensures var field := Bytes(Numbers.NumToStr(num, 8, false, width));
            |field| == width && OctValue(field) == ToInt32(num)
  {
    PowIsPow8(width);
    PrintedIsPadded(num, 8, width);
    PaddedIsOctal(num, width);
    OctalWraps(num, width);
  }

  // ----- Headers -----

  predicate IsUstar(h: Block) {
    h[257..262] == MAGIC
  }

  /** strcmp says the header's file name is this one. */
  predicate NameIs(h: Block, name: seq<Byte>) {
    |name| < 512 && h[..|name|] == name && h[|name|] == 0
  }

  const SLASH := 47

  /** One file of an archive, stored under its path: the part before the last '/' may be in the header's prefix field.
      `fields` supplies the remaining bytes of the header. */
  datatype File = File(prefix: seq<Byte>, name: seq<Byte>, contents: seq<Byte>, fields: Block) {
    function Path(): seq<Byte> { if prefix == [] then name else prefix + [SLASH] + name }
  }

  /** Prefix and name fit their fields of 155 and 100 bytes, which they may fill without a NUL, and the size passes
      through the driver's int arithmetic. */
  predicate Storable(f: File) {
    |f.prefix| <= 155 && 0 !in f.prefix && |f.name| <= 100 && 0 !in f.name && |f.contents| <= 0x7FFF_FE00
  }

  /** Blocks the contents occupy. */
  function DataBlocks(f: File): nat {
    (|f.contents| + 511) / 512
  }

  function Zeros(n: nat): (s: seq<Byte>)
    ensures |s| == n
  {
    seq(n, i => 0)
  }

  function HeaderByte(f: File, i: nat): Byte
    requires Storable(f) && i < 512
  {
    if i < 100 then (if i < |f.name| then f.name[i] else 0)
    else if 124 <= i < 135 then Octal(|f.contents|, 11)[i - 124]
    else if 257 <= i < 262 then MAGIC[i - 257]
    else if 345 <= i < 500 then (if i - 345 < |f.prefix| then f.prefix[i - 345] else 0)
    else f.fields[i]
  }

  function Header(f: File): Block
    requires Storable(f)
  {
    seq(512, i requires 0 <= i < 512 => HeaderByte(f, i))
  }

  lemma HeaderFields(f: File)
    requires Storable(f)
    ensures IsUstar(Header(f)) && Header(f)[257..262] == [117, 115, 116, 97, 114]
    ensures Header(f)[124..135] == Octal(|f.contents|, 11)
  {
    var h := Header(f);
    forall i | 0 <= i < 5 ensures h[257..262][i] == MAGIC[i] { assert h[257 + i] == HeaderByte(f, 257 + i); }
    forall i | 0 <= i < 11 ensures h[124..135][i] == Octal(|f.contents|, 11)[i] {
      assert h[124 + i] == HeaderByte(f, 124 + i);
    }
  }

  /** Two NUL-free strings found NUL-terminated at the start of the same block are the same. */
  lemma SameName(h: Block, stored: seq<Byte>, name: seq<Byte>)
    requires 0 !in stored && 0 !in name && NameIs(h, stored) && NameIs(h, name)
    ensures stored == name
  {
    var n := Min(|stored|, |name|);
    assert h[..|stored|][..n] == h[..|name|][..n];
    assert h[..n + 1][n] == h[n];
  }

  /** A NUL ends the name, in the field or right behind it. */
  predicate Terminated(f: File) {
    |f.name| < 100 || f.fields[100] == 0
  }

  /** The comparison of tar_open says that this file has that name. */
  predicate Matches(f: File, name: seq<Byte>) {
    Storable(f) && NameIs(Header(f), name)
  }

  lemma HeaderStart(f: File)
    requires Storable(f)
    ensures Header(f)[..|f.name|] == f.name && Header(f)[|f.name|] == (if |f.name| < 100 then 0 else f.fields[100])
  {
    var h := Header(f);
    assert forall i: nat :: i <= 100 ==> h[i] == HeaderByte(f, i);
  }

  /** Behind a name that fills its field the header happens to go on as the path does, which then repeats the prefix all
      through. */
  predicate Echoes(f: File)
    requires Storable(f)
  {
    var path := f.Path();
    && f.prefix != [] && |f.name| == 100 && path[..100] == f.name
    && Header(f)[100..|path|] == path[100..] && Header(f)[|path|] == 0
  }

  /** tar_open, which never looks at the prefix, knows the file by its path: the path is in the name field alone, with a
      NUL behind it. */
  predicate Findable(f: File)
    requires Storable(f)
  {
    (f.prefix == [] && Terminated(f)) || Echoes(f)
  }

  /** A stored file compares equal to its own path and to no other name, if and only if it is findable. */
  lemma HeaderPathIff(f: File)
    requires Storable(f)
    ensures Findable(f) <==> forall name :: 0 !in name && |name| < 512 ==> (Matches(f, name) <==> name == f.Path())
    ensures Findable(f) <==> Matches(f, f.Path())
  {
    OwnPathIff(f);
    if Findable(f) {
      forall name | 0 !in name && |name| < 512 ensures Matches(f, name) <==> name == f.Path() {
        if Matches(f, name) { SameName(Header(f), f.Path(), name); }
      }
    }
  }

  lemma OwnPathIff(f: File)
    requires Storable(f)
    ensures 0 !in f.Path() && |f.Path()| < 512 && (Findable(f) <==> Matches(f, f.Path()))
  {
    HeaderStart(f);
    if f.prefix != [] {
      if |f.name| == 100 { FullNamePath(f); } else { ShortNamePath(f); }
    }
  }

  lemma ShortNamePath(f: File)
    requires Storable(f) && f.prefix != [] && |f.name| < 100
    ensures !Matches(f, f.Path())
  {
    HeaderStart(f);
    var h, path, k := Header(f), f.Path(), |f.name|;
    assert path[k] in path;
    assert h[..|path|][k] == h[k];
  }

  lemma FullNamePath(f: File)
    requires Storable(f) && f.prefix != [] && |f.name| == 100
    ensures Echoes(f) <==> Matches(f, f.Path())
  {
    HeaderStart(f);
    var h, path := Header(f), f.Path();
    assert h[..|path|] == h[..100] + h[100..|path|];
    assert path == path[..100] + path[100..];
    assert h[..|path|][..100] == h[..100] && h[..|path|][100..] == h[100..|path|];
  }

  /** With a mode field as the format has it, octal digits and a NUL, nothing echoes; it is enough that a NUL comes
      before any '/' behind the name field.  So the path is found if and only if the prefix is empty and the name
      terminated. */
  lemma OnlyPlainIsFindable(f: File, j: nat)
    requires Storable(f) && 100 <= j < 512 && Header(f)[j] == 0 && forall i :: 100 <= i < j ==> Header(f)[i] != SLASH
    ensures Findable(f) <==> Header(f)[345] == 0 && Terminated(f)
  {
    assert Header(f)[345] == HeaderByte(f, 345);
    if Echoes(f) {
      var i := SlashBehind(f, |f.prefix|);
      EchoAt(f, i);
      EchoAt(f, j);
    }
  }

  lemma EchoAt(f: File, i: nat)
    requires Storable(f) && Echoes(f) && 100 <= i < |f.Path()|
    ensures Header(f)[i] == f.Path()[i] != 0
  {
    var path := f.Path();
    assert Header(f)[100..|path|][i - 100] == path[100..][i - 100];
    assert path[i] in path;
  }

  /** Without such a mode field a path with a prefix can be found after all: "a/a/.../a/", its last 100 characters in
      the name field, followed by "a/" and a NUL. */
  lemma EchoIsFound(f: File)
    requires f == File([97], seq(100, i => if i % 2 == 0 then 97 else SLASH), [],
                       seq(512, i => if i == 100 then 97 else if i == 101 then SLASH else 0))
    ensures Storable(f) && !Terminated(f) && Findable(f) && Matches(f, f.Path())
  {
    var h, path := Header(f), f.Path();
    assert forall i: nat :: 100 <= i <= 102 ==> h[i] == HeaderByte(f, i);
    assert |path| == 102 && path[100..] == [97, SLASH] == h[100..102];
    assert path[..100] == f.name;
    HeaderPathIff(f);
  }

  /** The repeated '/' comes up behind the name field. */
  lemma SlashBehind(f: File, i: nat) returns (k: nat)
    requires Storable(f) && Echoes(f) && i < |f.Path()| && f.Path()[i] == SLASH
    ensures 100 <= k < |f.Path()| && f.Path()[k] == SLASH
    decreases |f.Path()| - i
  {
    if i >= 100 {
      k := i;
    } else {
      var path, next := f.Path(), i + |f.prefix| + 1;
      assert path[next] == f.name[i] == path[..100][i];
      k := SlashBehind(f, next);
    }
  }

  /** `blknum += ((filesize + 511) / 512) + 1`, with filesize an int. */
  function NextHeader(blknum: Word, filesize: int): Word {
    Wrap(blknum + (TruncDiv(ToInt32(filesize + 511), 512) + 1))
  }

  /** For every size an eleven-digit field can state, read as oct2bin does, the driver steps to the next header if and
      only if adding 511 to the size does not overflow an int and the block number does not overflow. */
  lemma NextHeaderIff(blknum: Word, size: nat)
    requires size < Pow8(11)
    ensures NextHeader(blknum, ToInt32(size)) == blknum + (size + 511) / 512 + 1
            <==> size <= 0x7FFF_FE00 && blknum + (size + 511) / 512 + 1 < TWO_32
  {
    ElevenDigits();
    var step := TruncDiv(ToInt32(ToInt32(size) + 511), 512) + 1;
    StepIs(size, step);
    WrapIs(blknum + step, blknum + (size + 511) / 512 + 1);
  }

  lemma NextHeaderIs(blknum: Word, size: nat)
    requires size <= 0x7FFF_FE00 && blknum + (size + 511) / 512 + 1 < TWO_32
    ensures NextHeader(blknum, size) == blknum + (size + 511) / 512 + 1
  {
    ElevenDigits();
    WrapSmall(size);
    assert ToInt32(size) == size;
    NextHeaderIff(blknum, size);
  }

  /** The step is right up to 0x7FFFFE00; above, it is too small by less than 2^32. */
  lemma StepIs(size: nat, step: int)
    requires size < 0x2_0000_0000 && step == TruncDiv(ToInt32(ToInt32(size) + 511), 512) + 1
    ensures size <= 0x7FFF_FE00 ==> step == (size + 511) / 512 + 1
    ensures size > 0x7FFF_FE00 ==> 0 < (size + 511) / 512 + 1 - step < TWO_32
  {
  }

  lemma WrapIs(x: int, y: int)
    requires 0 <= y - x < TWO_32 && x >= -TWO_32
    ensures Wrap(x) == y <==> x == y && 0 <= y < TWO_32
  {
    if Wrap(x) == y { assert (y - x) % 0x1_0000_0000 == 0; }
  }

  // ----- Archives on the logical disk -----

  /** Byte k of the contents stored from block blk on. */
  predicate StoredAt(c: Cache, dev: int, blk: nat, contents: seq<Byte>) {
    forall k: nat :: k < |contents| ==>
      OnDisk(c, dev, blk + k / 512) && Logical(c, dev, blk + k / 512)[k % 512] == contents[k]
  }

  /** From block blk on the disk holds the files in order, then a block that is no ustar header. */
  ghost predicate ArchiveAt(c: Cache, dev: int, blk: nat, files: seq<File>)
    decreases |files|
  {
    && OnDisk(c, dev, blk)
    && if files == [] then !IsUstar(Logical(c, dev, blk))
       else
         && Storable(files[0])
         && Logical(c, dev, blk) == Header(files[0])
         && StoredAt(c, dev, blk + 1, files[0].contents)
         && ArchiveAt(c, dev, blk + 1 + DataBlocks(files[0]), files[1..])
  }

  /** The first file with that path, or |files|. */
  function FirstNamed(files: seq<File>, path: seq<Byte>): (i: nat)
    ensures i <= |files|
    ensures i < |files| ==> files[i].Path() == path
    ensures forall j :: 0 <= j < i ==> files[j].Path() != path
  {
    if files == [] then 0 else if files[0].Path() == path then 0 else 1 + FirstNamed(files[1..], path)
  }

  /** The first file that tar_open takes to have that path, or |files|. */
  function FirstMatching(files: seq<File>, name: seq<Byte>): (i: nat)
    ensures i <= |files|
    ensures i < |files| ==> Matches(files[i], name)
    ensures forall j :: 0 <= j < i ==> !Matches(files[j], name)
  {
    if files == [] then 0 else if Matches(files[0], name) then 0 else 1 + FirstMatching(files[1..], name)
  }

  /** In an archive of findable files, that is the first file with the path. */
  lemma {:induction false} MatchingIsNamed(files: seq<File>, name: seq<Byte>)
    requires (forall f :: f in files ==> Storable(f) && Findable(f)) && 0 !in name && |name| < 512
    ensures FirstMatching(files, name) == FirstNamed(files, name)
    decreases |files|
  {
    if files != [] {
      HeaderPathIff(files[0]);
      MatchingIsNamed(files[1..], name);
    }
  }

  /** The failing archives.  One file whose name fills its field and is followed by a mode: opening it by its name finds
      nothing; opening the name with the mode behind it finds the file. */
  lemma FullNameIsNotFound(name: seq<Byte>, mode: seq<Byte>, f: File)
    requires name == seq(100, i => 97) && mode == seq(7, i => 48)
    requires f == File([], name, [], seq(512, i => if 100 <= i < 107 then 48 else 0))
    ensures Storable(f) && FirstNamed([f], name) == 0
    ensures FirstMatching([f], name) == 1 && FirstMatching([f], name + mode) == 0
  {
    HeaderPathIff(f);
    var h := Header(f);
    assert forall i: nat :: i <= 107 ==> h[i] == HeaderByte(f, i);
    assert h[..107] == name + mode;
  }

  /** One file "a/b" stored with the prefix "a": it is not found by its path, but by "b", which no file is called. */
  lemma PrefixIsNotFound(f: File)
    requires f == File([97], [98], [], seq(512, i => 0))
    ensures Storable(f) && FirstNamed([f], [97, 47, 98]) == 0 && FirstNamed([f], [98]) == 1
    ensures FirstMatching([f], [97, 47, 98]) == 1 && FirstMatching([f], [98]) == 0
  {
    HeaderStart(f);
    assert f.Path() == [97, 47, 98];
    HeaderPathIff(f);
    assert Matches(f, [98]);
  }

  /** The header block of file i in an archive that starts at blk. */
  function HeaderBlock(files: seq<File>, blk: nat, i: nat): nat
    requires i <= |files|
  {
    if i == 0 then blk else HeaderBlock(files[1..], blk + 1 + DataBlocks(files[0]), i - 1)
  }

  lemma {:induction false} ArchiveSuffix(c: Cache, dev: int, blk: nat, files: seq<File>, i: nat)
    requires ArchiveAt(c, dev, blk, files) && i <= |files|
    ensures ArchiveAt(c, dev, HeaderBlock(files, blk, i), files[i..])
    decreases i
  {
    if i > 0 {
      var next := blk + 1 + DataBlocks(files[0]);
      assert files[1..][i - 1..] == files[i..];
      assert HeaderBlock(files, blk, i) == HeaderBlock(files[1..], next, i - 1);
      ArchiveSuffix(c, dev, next, files[1..], i - 1);
    } else {
      assert files[0..] == files;
    }
  }

  lemma {:induction false} HeaderBlockStep(files: seq<File>, blk: nat, i: nat)
    requires i < |files|
    ensures HeaderBlock(files, blk, i + 1) == HeaderBlock(files, blk, i) + 1 + DataBlocks(files[i])
    decreases i
  {
    if i > 0 { HeaderBlockStep(files[1..], blk + 1 + DataBlocks(files[0]), i - 1); }
  }

  lemma SameStored(c: Cache, d: Cache, dev: int, blk: nat, contents: seq<Byte>)
    requires SameDisk(c, d) && StoredAt(c, dev, blk, contents)
    ensures StoredAt(d, dev, blk, contents)
  {
    forall k: nat | k < |contents|
      ensures OnDisk(d, dev, blk + k / 512) && Logical(d, dev, blk + k / 512)[k % 512] == contents[k]
    {
      assert OnDisk(c, dev, blk + k / 512);
    }
  }

  lemma SameBlock(c: Cache, d: Cache, dev: int, blk: nat)
    requires SameDisk(c, d) && OnDisk(c, dev, blk)
    ensures OnDisk(d, dev, blk) && Logical(d, dev, blk) == Logical(c, dev, blk)
  {
  }

  lemma {:induction false} SameArchive(c: Cache, d: Cache, dev: int, blk: nat, files: seq<File>)
    requires SameDisk(c, d) && ArchiveAt(c, dev, blk, files)
    ensures ArchiveAt(d, dev, blk, files)
    decreases |files|
  {
    if files == [] {
      SameBlock(c, d, dev, blk);
    } else {
      FirstFile(c, dev, blk, files);
      SameFile(c, d, dev, blk, files[0]);
      SameArchive(c, d, dev, blk + 1 + DataBlocks(files[0]), files[1..]);
      OneMoreFile(d, dev, blk, files);
    }
  }

  lemma SameFile(c: Cache, d: Cache, dev: int, blk: nat, f: File)
    requires SameDisk(c, d) && OnDisk(c, dev, blk) && Storable(f) && Logical(c, dev, blk) == Header(f)
             && StoredAt(c, dev, blk + 1, f.contents)
    ensures OnDisk(d, dev, blk) && Logical(d, dev, blk) == Header(f) && StoredAt(d, dev, blk + 1, f.contents)
  {
    SameBlock(c, d, dev, blk);
    SameStored(c, d, dev, blk + 1, f.contents);
  }

  lemma FirstFile(c: Cache, dev: int, blk: nat, files: seq<File>)
    requires files != [] && ArchiveAt(c, dev, blk, files)
    ensures OnDisk(c, dev, blk) && Storable(files[0]) && Logical(c, dev, blk) == Header(files[0])
    ensures StoredAt(c, dev, blk + 1, files[0].contents)
            && ArchiveAt(c, dev, blk + 1 + DataBlocks(files[0]), files[1..])
  {
  }

  lemma OneMoreFile(c: Cache, dev: int, blk: nat, files: seq<File>)
    requires files != [] && OnDisk(c, dev, blk) && Storable(files[0]) && Logical(c, dev, blk) == Header(files[0])
    requires StoredAt(c, dev, blk + 1, files[0].contents)
             && ArchiveAt(c, dev, blk + 1 + DataBlocks(files[0]), files[1..])
    ensures ArchiveAt(c, dev, blk, files)
  {
  }

  // ----- Laying an archive out -----

  function Chunk(s: seq<Byte>, b: nat): Block {
    seq(512, i requires 0 <= i < 512 => if 512 * b + i < |s| then s[512 * b + i] else 0)
  }

  function Chunks(f: File): (chunks: seq<Block>)
    ensures |chunks| == DataBlocks(f)
  {
    seq(DataBlocks(f), b requires 0 <= b < DataBlocks(f) => Chunk(f.contents, b))
  }

  /** The blocks of an archive: what a tar program writes. */
  function Layout(files: seq<File>): seq<Block>
    requires forall f :: f in files ==> Storable(f)
  {
    if files == [] then [Zeros(512)]
    else [Header(files[0])] + Chunks(files[0]) + Layout(files[1..])
  }

  ghost predicate BlockIs(c: Cache, dev: int, blk: nat, data: Block) {
    OnDisk(c, dev, blk) && Logical(c, dev, blk) == data
  }

  /** The disk holds these blocks from blk on. */
  ghost predicate BlocksAt(c: Cache, dev: int, blk: nat, blocks: seq<Block>) {
    forall b: nat {:trigger blocks[b]} :: b < |blocks| ==> BlockIs(c, dev, blk + b, blocks[b])
  }

  lemma ChunkByte(contents: seq<Byte>, k: nat)
    requires k < |contents|
    ensures k / 512 < (|contents| + 511) / 512 && Chunk(contents, k / 512)[k % 512] == contents[k]
  {
    assert 512 * (k / 512) + k % 512 == k;
  }

  lemma ChunksAreStored(c: Cache, dev: int, blk: nat, contents: seq<Byte>, chunks: seq<Block>)
    requires |chunks| == (|contents| + 511) / 512 && forall b: nat :: b < |chunks| ==> chunks[b] == Chunk(contents, b)
    requires BlocksAt(c, dev, blk, chunks)
    ensures StoredAt(c, dev, blk, contents)
  {
    forall k: nat | k < |contents|
      ensures OnDisk(c, dev, blk + k / 512) && Logical(c, dev, blk + k / 512)[k % 512] == contents[k]
    {
      ChunkByte(contents, k);
      assert BlockIs(c, dev, blk + k / 512, chunks[k / 512]);
    }
  }

  lemma BlocksAtParts(c: Cache, dev: int, blk: nat, a: seq<Block>, b: seq<Block>)
    requires BlocksAt(c, dev, blk, a + b)
    ensures BlocksAt(c, dev, blk, a) && BlocksAt(c, dev, blk + |a|, b)
  {
    forall i: nat {:trigger a[i]} | i < |a|
      ensures BlockIs(c, dev, blk + i, a[i])
    {
      assert (a + b)[i] == a[i];
    }
    forall i: nat {:trigger b[i]} | i < |b|
      ensures BlockIs(c, dev, blk + |a| + i, b[i])
    {
      var n := |a| + i;
      assert (a + b)[n] == b[i];
      assert BlockIs(c, dev, blk + n, (a + b)[n]);
    }
  }

  /** Every layout is an archive. */
  lemma {:induction false} LayoutIsArchive(c: Cache, dev: int, blk: nat, files: seq<File>)
    requires forall f :: f in files ==> Storable(f)
    requires BlocksAt(c, dev, blk, Layout(files))
    ensures ArchiveAt(c, dev, blk, files)
    decreases |files|
  {
    if files == [] {
      EndOfArchive(c, dev, blk, Layout(files));
    } else {
      OneFileStored(c, dev, blk, files[0], Layout(files[1..]));
      LayoutIsArchive(c, dev, blk + 1 + DataBlocks(files[0]), files[1..]);
    }
  }

  lemma EndOfArchive(c: Cache, dev: int, blk: nat, blocks: seq<Block>)
    requires BlocksAt(c, dev, blk, blocks) && blocks == [Zeros(512)]
    ensures OnDisk(c, dev, blk) && !IsUstar(Logical(c, dev, blk))
  {
    assert BlockIs(c, dev, blk + 0, blocks[0]);
    assert blocks[0][257..262][0] == 0;
  }

  lemma OneFileStored(c: Cache, dev: int, blk: nat, f: File, rest: seq<Block>)
    requires Storable(f) && BlocksAt(c, dev, blk, [Header(f)] + Chunks(f) + rest)
    ensures BlockIs(c, dev, blk, Header(f)) && StoredAt(c, dev, blk + 1, f.contents)
    ensures BlocksAt(c, dev, blk + 1 + DataBlocks(f), rest)
  {
    var chunks := Chunks(f);
    BlocksAtParts(c, dev, blk, [Header(f)] + chunks, rest);
    BlocksAtParts(c, dev, blk, [Header(f)], chunks);
    assert BlockIs(c, dev, blk + 0, [Header(f)][0]);
    ChunksAreStored(c, dev, blk + 1, f.contents, chunks);
  }

  // ----- Opening and reading a file -----

  /** tar_bmap. */
  function TarBmap(num: Word, blknum: nat): nat {
    num + blknum
  }

  /** The inode of a stored file maps exactly its contents. */
  lemma FileIsContents(c: Cache, dev: int, num: Word, bmap: BlockMap, contents: seq<Byte>)
    requires StoredAt(c, dev, num, contents) && forall b: nat :: bmap(num, b) == num + b
    ensures forall k: nat :: k < |contents| ==>
              Mapped(c, dev, num, bmap, k) && FileByte(c, dev, num, bmap, k) == contents[k]
  {
  }

  /** memcmp(hdr->ustar, "ustar", 5). */
  method CompareMagic(h: Block) returns (equal: bool)
    ensures equal <==> h[257..262] == [117, 115, 116, 97, 114]
    ensures equal <==> IsUstar(h)
  {
    for k := 0 to 5
      invariant forall m :: 0 <= m < k ==> h[257 + m] == MAGIC[m]
    {
      if h[257 + k] != MAGIC[k] {
        assert h[257..262][k] != MAGIC[k];
        return false;
      }
    }
    assert h[257..262] == MAGIC;
    return true;
  }

  /** strcmp(hdr->filename, filename), for the question whether they are equal; the kernel's strings end with a NUL. */
  method CompareName(h: Block, name: seq<Byte>) returns (equal: bool)
    requires 0 !in name && |name| < 512
    ensures equal <==> NameIs(h, name)
  {
    var k := 0;
    while h[k] != 0 && k < |name| && h[k] == name[k]
      invariant k <= |name| && h[..k] == name[..k]
      decreases |name| - k
    {
      k := k + 1;
    }
    if k < |name| {
      assert h[..|name|][k] == h[k];
    } else {
      assert name[..k] == name;
    }
    equal := k == |name| && h[k] == 0;
  }

  /** What the walk finds at header i of an archive. */
  lemma HeaderStep(c: Cache, dev: int, files: seq<File>, i: nat, filename: seq<Byte>)
    requires ArchiveAt(c, dev, 0, files) && i <= |files| && 0 !in filename && |filename| < 512
    requires |c.disks[dev]| < TWO_32
    ensures var blk := HeaderBlock(files, 0, i);
            && blk < TWO_32 && OnDisk(c, dev, blk)
            && (IsUstar(Logical(c, dev, blk)) <==> i < |files|)
            && (i < |files| ==>
                  && (NameIs(Logical(c, dev, blk), filename) <==> Matches(files[i], filename))
                  && OctValue(Logical(c, dev, blk)[124..135]) == |files[i].contents| < TWO_32
                  && NextHeader(blk, |files[i].contents|) == HeaderBlock(files, 0, i + 1)
                  && blk + 1 < TWO_32)
  {
    ArchiveSuffix(c, dev, 0, files, i);
    if i < |files| {
      var f := files[i];
      assert files[i..][0] == f;
      HeaderFields(f);
      SmallEnough(|f.contents|);
      HeaderBlockStep(files, 0, i);
      ArchiveSuffix(c, dev, 0, files, i + 1);
      NextHeaderIs(HeaderBlock(files, 0, i), |f.contents|);
    }
  }

  lemma SmallEnough(size: nat)
    requires size <= 0x7FFF_FE00
    ensures OctValue(Octal(size, 11)) == size
  {
    ElevenDigits();
    OctalRoundTripIff(size);
  }

  /** The walk stands at header i, and hdr is that block. */
  ghost predicate Here(c: Cache, dev: int, files: seq<File>, i: nat, blk: nat, hdr: Block)
    requires i <= |files|
  {
    blk == HeaderBlock(files, 0, i) && OnDisk(c, dev, blk) && hdr == Logical(c, dev, blk)
  }

  class TarFs {
    var devnum: nat

    /** tar_mount. */
    constructor Mount(blkdev: nat)
      ensures devnum == blkdev
    {
      devnum := blkdev;
    }

    /** tar_open: the inode of the first file whose header compares equal to the name, or null if there is none.  That
        is the first file with the path if all files are findable. */
    method Open(cache: BufferCache, filename: seq<Byte>, ghost files: seq<File>) returns (ip: Inode?)
      requires cache.Valid() && devnum < |cache.devs| && this !in cache.Repr && 0 !in filename && |filename| < 512
      requires ArchiveAt(cache.View(), devnum, 0, files)
      modifies cache`bufPtr, cache.Repr
      ensures cache.Valid() && SameDisk(old(cache.View()), cache.View())
      ensures (forall f :: f in files ==> Storable(f) && Findable(f))
              ==> FirstMatching(files, filename) == FirstNamed(files, filename)
      ensures var i := FirstMatching(files, filename);
              if i == |files| then ip == null
              else ip != null && fresh(ip) && ip.kind == I_FILE && ip.blkdev == devnum
                   && ip.num == HeaderBlock(files, 0, i) + 1 && ip.size == |files[i].contents|
                   && forall b: nat :: ip.bmap(ip.num, b) == ip.num + b
    {
      if forall f :: f in files ==> Storable(f) && Findable(f) { MatchingIsNamed(files, filename); }
      var node := new Inode();
      var found, blknum, filesize := Walk(cache, devnum, filename, files);
      if !found {
        return null;
      }
      ghost var v := cache.View();
      node.CreateFile(blknum + 1, filesize, devnum, TarBmap);
      assert cache.View() == v;
      ip := node;
    }

    /** The walk of tar_open: from header to header until the name matches or a block is no header. */
    static method Walk(cache: BufferCache, dev: nat, filename: seq<Byte>, ghost files: seq<File>)
      returns (found: bool, blknum: Word, filesize: int)
      requires cache.Valid() && dev < |cache.devs| && 0 !in filename && |filename| < 512
      requires ArchiveAt(cache.View(), dev, 0, files)
      modifies cache`bufPtr, cache.Repr
      ensures cache.Valid() && SameDisk(old(cache.View()), cache.View())
      ensures var i := FirstMatching(files, filename);
              && (found <==> i < |files|)
              && (found ==>
                    && blknum == HeaderBlock(files, 0, i) && blknum + 1 < TWO_32
                    && filesize == |files[i].contents| < TWO_32)
    {
      ghost var c := cache.View();
      ghost var i := 0;
      FirstHeader(cache, c, dev, files, filename);
      found, blknum, filesize := false, 0, 0;
      var hdr, more := NextHeaderBlock(cache, dev, blknum, c, files, 0);
      while more
        invariant i <= |files| && Here(c, dev, files, i, blknum, hdr) && (more <==> i < |files|)
        invariant cache.Valid() && SameDisk(c, cache.View())
        invariant !found && i <= FirstMatching(files, filename)
        decreases |files| - i
      {
        found, filesize, blknum, hdr, more := Turn(cache, dev, hdr, blknum, filename, c, files, i);
        if found {
          return;
        }
        i := i + 1;
      }
    }

    /** One turn of the walk: the name matches here, or the next header is read. */
    static method Turn(cache: BufferCache, dev: nat, hdr: Block, blknum: Word, filename: seq<Byte>,
                       ghost c: Cache, ghost files: seq<File>, ghost i: nat)
      returns (found: bool, filesize: int, at: Word, next: Block, more: bool)
      requires cache.Valid() && dev < |cache.devs| && SameDisk(c, cache.View())
      requires ArchiveAt(c, dev, 0, files) && 0 !in filename && |filename| < 512
      requires i < |files| && i <= FirstMatching(files, filename) && Here(c, dev, files, i, blknum, hdr)
      modifies cache`bufPtr, cache.Repr
      ensures cache.Valid() && SameDisk(c, cache.View())
      ensures found <==> i == FirstMatching(files, filename)
      ensures found ==> at == blknum && filesize == |files[i].contents| < TWO_32 && at + 1 < TWO_32
      ensures !found ==>
                && Here(c, dev, files, i + 1, at, next) && (more <==> i + 1 < |files|)
                && i + 1 <= FirstMatching(files, filename)
    {
      var same, step;
      assert |c.disks[dev]| == |cache.View().disks[dev]| == cache.devs[dev].image.Length;
      same, filesize, step := Examine(hdr, blknum, filename, c, dev, files, i);
      if same {
        return true, filesize, blknum, hdr, true;
      }
      NotThisOne(files, filename, i);
      found := false;
      at := step;
      next, more := NextHeaderBlock(cache, dev, at, c, files, i + 1);
    }

    /** What tar_open computes from one header: the file size, whether the name matches, and where the next header
        is. */
    static method Examine(hdr: Block, blknum: Word, filename: seq<Byte>,
                          ghost c: Cache, ghost dev: int, ghost files: seq<File>, ghost i: nat)
      returns (same: bool, filesize: int, next: Word)
      requires ArchiveAt(c, dev, 0, files) && |c.disks[dev]| < TWO_32 && 0 !in filename && |filename| < 512
      requires i < |files| && Here(c, dev, files, i, blknum, hdr)
      ensures (same <==> Matches(files[i], filename)) && filesize == |files[i].contents| < TWO_32 && blknum + 1 < TWO_32
      ensures next == HeaderBlock(files, 0, i + 1) && OnDisk(c, dev, next)
              && (IsUstar(Logical(c, dev, next)) <==> i + 1 < |files|)
    {
      TwoHeaders(c, dev, files, i, filename, blknum, hdr);
      filesize := SizeField(hdr);
      same := CompareName(hdr, filename);
      next := NextHeader(blknum, filesize);
    }

    static method SizeField(hdr: Block) returns (filesize: int)
      ensures filesize == OctValue(hdr[124..135])
    {
      filesize := Oct2bin(hdr[124..135], 11);
      assert hdr[124..135][..11] == hdr[124..135];
    }

    /** bread and memcmp of the next header. */
    static method NextHeaderBlock(cache: BufferCache, dev: nat, blk: nat, ghost c: Cache, ghost files: seq<File>,
                                  ghost i: nat)
      returns (hdr: Block, more: bool)
      requires cache.Valid() && dev < |cache.devs| && SameDisk(c, cache.View())
      requires i <= |files| && blk == HeaderBlock(files, 0, i)
      requires OnDisk(c, dev, blk) && (IsUstar(Logical(c, dev, blk)) <==> i < |files|)
      modifies cache`bufPtr, cache.Repr
      ensures cache.Valid() && SameDisk(c, cache.View()) && Here(c, dev, files, i, blk, hdr) && (more <==> i < |files|)
    {
      ghost var d := cache.View();
      hdr := ReadBlock(cache, dev, blk);
      SameDiskTransitive(c, d, cache.View());
      more := CompareMagic(hdr);
    }
  }

  lemma FirstHeader(cache: BufferCache, c: Cache, dev: nat, files: seq<File>, filename: seq<Byte>)
    requires cache.Valid() && dev < |cache.devs| && c == cache.View() && 0 !in filename && |filename| < 512
    requires ArchiveAt(c, dev, 0, files)
    ensures |c.disks[dev]| < TWO_32 && OnDisk(c, dev, 0) && (IsUstar(Logical(c, dev, 0)) <==> 0 < |files|)
  {
    assert |c.disks[dev]| == cache.devs[dev].image.Length;
    HeaderStep(c, dev, files, 0, filename);
  }

  lemma TwoHeaders(c: Cache, dev: int, files: seq<File>, i: nat, filename: seq<Byte>, blk: nat, hdr: Block)
    requires ArchiveAt(c, dev, 0, files) && |c.disks[dev]| < TWO_32 && 0 !in filename && |filename| < 512
    requires i < |files| && Here(c, dev, files, i, blk, hdr)
    ensures blk + 1 < TWO_32 && (NameIs(hdr, filename) <==> Matches(files[i], filename))
    ensures OctValue(hdr[124..135]) == |files[i].contents| < TWO_32
    ensures var next := HeaderBlock(files, 0, i + 1);
            NextHeader(blk, |files[i].contents|) == next && OnDisk(c, dev, next)
              && (IsUstar(Logical(c, dev, next)) <==> i + 1 < |files|)
  {
    HeaderStep(c, dev, files, i, filename);
    HeaderStep(c, dev, files, i + 1, filename);
  }

  lemma NotThisOne(files: seq<File>, name: seq<Byte>, i: nat)
    requires i < |files| && i <= FirstMatching(files, name) && !Matches(files[i], name)
    ensures i + 1 <= FirstMatching(files, name)
  {
  }

  /** Opening a stored file and reading from it gives exactly its bytes from the offset on, as many as asked for or as
      there are (the path of fs_test in init.c). */
  method OpenAndRead(fs: TarFs, cache: BufferCache, filename: seq<Byte>, dst: array<Byte>, offset: Word, count: Word,
                     ghost files: seq<File>)
    returns (r: Outcome, ghost k: nat)
    requires cache.Valid() && fs.devnum < |cache.devs| && fs !in cache.Repr && dst !in cache.Repr
    requires 0 !in filename && |filename| < 512 && ArchiveAt(cache.View(), fs.devnum, 0, files)
    requires var i := FirstMatching(files, filename);
             && i < |files| && offset <= |files[i].contents| && offset + count < TWO_32
             && (|files[i].contents| <= offset + dst.Length || count <= dst.Length)
    modifies cache`bufPtr, cache.Repr, dst
    ensures cache.Valid() && SameDisk(old(cache.View()), cache.View())
    ensures var contents := files[FirstMatching(files, filename)].contents;
            && k <= count && offset + k <= |contents| && (k == count || offset + k == |contents|)
            && r == Returned(k) && dst[..k] == contents[offset..offset + k] && dst[k..] == old(dst[k..])
  {
    ghost var i, c := FirstMatching(files, filename), cache.View();
    var ip := fs.Open(cache, filename, files);
    ghost var d := cache.View();
    StoredFile(c, d, fs.devnum, files, i, ip.num, ip.bmap);
    r, k := Readi(cache, ip, dst, offset, count);
    MinusOneIff(k, ip.size, offset, count);
    SameDiskTransitive(c, d, cache.View());
    ghost var contents := files[i].contents;
    forall j: nat | j < k
      ensures dst[j] == contents[offset + j]
    {
      assert dst[..][(offset + j) - offset] == FileByte(d, ip.blkdev, ip.num, ip.bmap, offset + j);
    }
  }

  lemma StoredFile(c: Cache, d: Cache, dev: int, files: seq<File>, i: nat, num: Word, bmap: BlockMap)
    requires SameDisk(c, d) && ArchiveAt(c, dev, 0, files) && i < |files|
    requires num == HeaderBlock(files, 0, i) + 1 && forall b: nat :: bmap(num, b) == num + b
    ensures |files[i].contents| <= 0x7FFF_FE00
    ensures forall k: nat :: k < |files[i].contents| ==>
              Mapped(d, dev, num, bmap, k) && FileByte(d, dev, num, bmap, k) == files[i].contents[k]
  {
    SameArchive(c, d, dev, 0, files);
    ArchiveSuffix(d, dev, 0, files, i);
    assert files[i..][0] == files[i];
    FileIsContents(d, dev, num, bmap, files[i].contents);
  }

  // ----- An archive byte by byte -----

  /** "ustar" at 257, and fields for name, size and prefix, the names filled up with NULs. */
  predicate HasFields(h: Block, f: File)
    requires Storable(f)
  {
    && h[..100] == f.name + Zeros(100 - |f.name|) && h[124..135] == Octal(|f.contents|, 11)
    && h[257..262] == [117, 115, 116, 97, 114] && h[345..500] == f.prefix + Zeros(155 - |f.prefix|)
  }

  /** Which blocks are headers, by their bytes. */
  lemma HeaderOfBytes(h: Block, f: File)
    requires Storable(f) && f.fields == h
    ensures Header(f) == h <==> HasFields(h, f)
  {
    OwnFields(f);
    if HasFields(h, f) { FieldsGive(h, f); }
  }

  lemma OwnFields(f: File)
    requires Storable(f)
    ensures HasFields(Header(f), f)
  {
    HeaderFields(f);
    HeaderNames(f);
  }

  lemma HeaderNames(f: File)
    requires Storable(f)
    ensures Header(f)[..100] == f.name + Zeros(100 - |f.name|)
    ensures Header(f)[345..500] == f.prefix + Zeros(155 - |f.prefix|)
  {
    assert forall i: nat :: i < 512 ==> Header(f)[i] == HeaderByte(f, i);
  }

  lemma FieldsGive(h: Block, f: File)
    requires Storable(f) && h == f.fields && HasFields(h, f)
    ensures Header(f) == h
  {
    forall i: nat | i < 512 ensures HeaderByte(f, i) == h[i] {
      if i < 100 { assert h[i] == h[..100][i]; }
      else if 124 <= i < 135 { assert h[i] == h[124..135][i - 124]; }
      else if 257 <= i < 262 { assert h[i] == h[257..262][i - 257]; }
      else if 345 <= i < 500 { assert h[i] == h[345..500][i - 345]; }
    }
  }

  /** "test.txt" */
  const TEST_TXT: seq<Byte> := [116, 101, 115, 116, 46, 116, 120, 116]

  /** A disk with the file test.txt of twelve bytes, as fs_test in init.c expects it: a header with that name and size,
      a block that starts with the contents, and a block of zeros; the header's other fields are arbitrary. */
  ghost predicate TestDisk(c: Cache, dev: int, h: Block, data: Block) {
    && BlockIs(c, dev, 0, h) && BlockIs(c, dev, 1, data) && BlockIs(c, dev, 2, Zeros(512))
    && h[..100] == TEST_TXT + Zeros(92) && h[124..135] == [48, 48, 48, 48, 48, 48, 48, 48, 48, 49, 52]
    && h[257..262] == [117, 115, 116, 97, 114] && h[345..500] == Zeros(155)
  }

  lemma TestDiskIsArchive(c: Cache, dev: int, h: Block, data: Block, f: File)
    requires TestDisk(c, dev, h, data) && f == File([], TEST_TXT, data[..12], h)
    ensures ArchiveAt(c, dev, 0, [f]) && FirstMatching([f], TEST_TXT) == 0
  {
    TestHeader(h, f);
    TestContents(c, dev, data);
    EndOfArchive(c, dev, 2, [Zeros(512)]);
    OneFileArchive(c, dev, f);
    FirstOfOne(f, TEST_TXT);
  }

  lemma TestHeader(h: Block, f: File)
    requires f.prefix == [] && f.name == TEST_TXT && |f.contents| == 12 && f.fields == h
    requires h[..100] == TEST_TXT + Zeros(92) && h[124..135] == [48, 48, 48, 48, 48, 48, 48, 48, 48, 49, 52]
    requires h[257..262] == [117, 115, 116, 97, 114] && h[345..500] == Zeros(155)
    ensures Storable(f) && Header(f) == h && Matches(f, TEST_TXT)
  {
    TwelveInOctal();
    assert f.prefix + Zeros(155) == Zeros(155);
    HeaderOfBytes(h, f);
    HeaderStart(f);
  }

  lemma TestContents(c: Cache, dev: int, data: Block)
    requires BlockIs(c, dev, 1, data)
    ensures StoredAt(c, dev, 1, data[..12])
  {
  }

  lemma OneFileArchive(c: Cache, dev: int, f: File)
    requires Storable(f) && BlockIs(c, dev, 0, Header(f)) && StoredAt(c, dev, 1, f.contents) && DataBlocks(f) == 1
    requires OnDisk(c, dev, 2) && !IsUstar(Logical(c, dev, 2))
    ensures ArchiveAt(c, dev, 0, [f])
  {
    assert [f][1..] == [];
    OneMoreFile(c, dev, 0, [f]);
  }

  lemma FirstOfOne(f: File, name: seq<Byte>)
    requires Matches(f, name)
    ensures FirstMatching([f], name) == 0
  {
  }

  lemma TwelveInOctal()
    ensures Octal(12, 11) == [48, 48, 48, 48, 48, 48, 48, 48, 48, 49, 52]
  {
  }

  /** fs_test: opens test.txt on such a disk and reads 20 bytes from the start.  The file is found, its twelve bytes are
      read, and nothing behind them is touched. */
  method FsTest(fs: TarFs, cache: BufferCache, dst: array<Byte>, ghost h: Block, ghost data: Block)
    returns (r: Outcome)
    requires cache.Valid() && fs.devnum < |cache.devs| && fs !in cache.Repr && dst !in cache.Repr
    requires TestDisk(cache.View(), fs.devnum, h, data) && 12 <= dst.Length
    modifies cache`bufPtr, cache.Repr, dst
    ensures r == Returned(12) && dst[..12] == data[..12] && dst[12..] == old(dst[12..])
  {
    ghost var f := File([], TEST_TXT, data[..12], h);
    TestDiskIsArchive(cache.View(), fs.devnum, h, data, f);
    ghost var k;
    r, k := OpenAndRead(fs, cache, TEST_TXT, dst, 0, 20, [f]);
  }
}
