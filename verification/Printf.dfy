/** Formatted printing: skip_atoi and vsprintf of kernel/src/libk/printf.c.

    Memory is one array of characters; the output buffer and string arguments are positions in it, so that an argument
    may be the output buffer itself.  The format is a separate NUL-free string. */
module Printf {
  import opened Machine
  import opened Numbers

  // ----- Reading decimal numbers -----

  /** Where the digits that start at s[i] end. */
  function DigitEnd(s: string, i: nat): (k: nat)
    requires i <= |s|
    ensures i <= k <= |s|
    decreases |s| - i
  {
    if i == |s| || !IsDigit(s[i]) then i else DigitEnd(s, i + 1)
  }

  lemma {:induction false} DigitEndIs(s: string, i: nat, k: nat)
    requires i <= k <= |s| && (forall j :: i <= j < k ==> IsDigit(s[j])) && (k < |s| ==> !IsDigit(s[k]))
    ensures DigitEnd(s, i) == k
    decreases k - i
  {
    if i < k { DigitEndIs(s, i + 1, k); }
  }

  /** What skip_atoi makes of the digits s[i..k], in 32-bit signed arithmetic. */
  function Atoi(s: string, i: nat, k: nat): int
    requires k <= |s|
    decreases k
  {
    if k <= i then 0 else ToInt32(Atoi(s, i, k - 1) * 10 + (s[k - 1] as int - 48))
  }

  lemma ToInt32Step(x: int, d: int)
    ensures ToInt32(ToInt32(x) * 10 + d) == ToInt32(x * 10 + d)
  {
  }

  lemma {:induction false} AtoiIsValue(s: string, i: nat, k: nat)
    requires i <= k <= |s| && forall j :: i <= j < k ==> IsDigit(s[j])
    ensures Atoi(s, i, k) == ToInt32(Value(s[i..k], 10))
    decreases k
  {
    if i < k {
      AtoiIsValue(s, i, k - 1);
      assert s[i..k][..k - i - 1] == s[i..k - 1];
      ToInt32Step(Value(s[i..k - 1], 10), s[k - 1] as int - 48);
    }
  }

  /** skip_atoi: the number at position pos of s, and the position after it. */
  method SkipAtoi(s: string, pos: nat) returns (i: int, next: nat)
    requires pos <= |s|
    ensures next == DigitEnd(s, pos) && i == Atoi(s, pos, next) && -0x8000_0000 <= i < 0x8000_0000
  {
    i, next := 0, pos;
    while next < |s| && IsDigit(s[next])
      invariant pos <= next <= |s| && i == Atoi(s, pos, next) && -0x8000_0000 <= i < 0x8000_0000
      invariant forall k :: pos <= k < next ==> IsDigit(s[k])
    {
      i := ToInt32(i * 10 + (s[next] as int - 48));
      next := next + 1;
    }
    DigitEndIs(s, pos, next);
  }

  lemma {:induction false} DecimalDigits(n: nat, k: nat)
    ensures forall i :: 0 <= i < k ==> IsDigit(Padded(n, 10, k)[i])
    decreases k
  {
    if k > 0 {
      PaddedLast(n, 10, k);
      DecimalDigits(Quo(n, 10), k - 1);
      HexChDigit(Rem(n, 10));
    }
  }

  lemma {:induction false} ZerosAreDigits(j: nat)
    ensures forall i :: 0 <= i < j ==> Zeros(j)[i] == '0'
  {
    if j > 0 { ZerosAreDigits(j - 1); }
  }

  lemma PrintsDigits(num: Word, digits: int)
    ensures forall i :: 0 <= i < |NumToStr(num, 10, false, digits)| ==> IsDigit(NumToStr(num, 10, false, digits)[i])
  {
    var s, t := NumToStr(num, 10, false, digits), Significant(num, 10);
    var z := Zeros(Pad(digits, 0, |t|));
    assert s == z + t;
    DecimalDigits(num, |t|);
    ZerosAreDigits(|z|);
    forall i | 0 <= i < |s| ensures IsDigit(s[i]) { if i >= |z| { assert s[i] == t[i - |z|]; } }
  }

  lemma AtoiOfDigits(before: string, n: string, rest: string, s: string, k: nat)
    requires (forall i :: 0 <= i < |n| ==> IsDigit(n[i])) && (rest == "" || !IsDigit(rest[0]))
    requires s == before + n + rest && k == |before| + |n|
    ensures DigitEnd(s, |before|) == k && Atoi(s, |before|, k) == ToInt32(Value(n, 10))
  {
    var i := |before|;
    forall j | i <= j < k ensures IsDigit(s[j]) { assert s[j] == n[j - i]; }
    DigitEndIs(s, i, k);
    AtoiIsValue(s, i, k);
    assert s[i..k] == n;
  }

  /** skip_atoi inverts unsigned decimal printing wherever the number stands and whatever the padding, exactly below
      2^31; above, it returns the int with the same bits. */
  lemma AtoiInvertsPrinting(before: string, num: Word, digits: int, rest: string, s: string, k: nat)
    requires rest == "" || !IsDigit(rest[0])
    requires s == before + NumToStr(num, 10, false, digits) + rest && k == |s| - |rest|
    ensures DigitEnd(s, |before|) == k && Atoi(s, |before|, k) == ToInt32(num)
    ensures Atoi(s, |before|, k) == num <==> num < 0x8000_0000
  {
    var n := NumToStr(num, 10, false, digits);
    PrintsDigits(num, digits);
    AtoiOfDigits(before, n, rest, s, k);
    NumToStrDenotes(num, 10, false, digits);
    SameIntIff(num);
  }

  lemma SameIntIff(num: Word)
    ensures ToInt32(num) == num <==> num < 0x8000_0000
  {
    WrapSmall(num);
  }

  // ----- Formats -----

  datatype Arg = Int(v: Word) | Ptr(p: nat)

  /** An argument with its string looked up. */
  datatype Val = VInt(v: Word) | VStr(s: string)

  predicate IsHex(c: char) { c == 'x' || c == 'X' || c == 'p' }

  predicate IsDecimal(c: char) { c == 'd' || c == 'i' || c == 'u' }

  predicate IsBinary(c: char) { c == 'b' || c == 'B' }

  predicate IsNumber(c: char) { IsHex(c) || IsDecimal(c) || IsBinary(c) }

  predicate TakesArg(c: char) { c == 's' || c == 'c' || IsNumber(c) }

  predicate WellTyped(c: char, vals: seq<Val>, a: nat) {
    TakesArg(c) ==> a < |vals| && (if c == 's' then vals[a].VStr? else vals[a].VInt?)
  }

  /** The argument after those a conversion takes. */
  function After(c: char, a: nat): nat { if TakesArg(c) then a + 1 else a }

  /** What one conversion prints.  The length of a string is held in 16 bits. */
  function Conversion(c: char, digits: int, vals: seq<Val>, a: nat): string
    requires WellTyped(c, vals, a)
  {
    if IsNumber(c) then Number(c, digits, vals[a].v)
    else if c == 's' then vals[a].s[..|vals[a].s| % 0x1_0000]
    else if c == 'c' then [(vals[a].v % 256) as char]
    else if c == 'o' then ""
    else "%"
  }

  function Number(c: char, digits: int, v: Word): string {
    if c == 'p' then NumToStr(v, 16, false, 8)
    else NumToStr(v, if IsHex(c) then 16 else if IsDecimal(c) then 10 else 2, c == 'd' || c == 'i' || c == 'B', digits)
  }

  /** From fmt[i] and vals[a] on, the caller passes the arguments the format asks for, and no directive is cut off by
      the end of the format. */
  predicate Matches(fmt: string, i: nat, vals: seq<Val>, a: nat)
    requires i <= |fmt|
    decreases |fmt| - i
  {
    i == |fmt| ||
    if fmt[i] != '%' then Matches(fmt, i + 1, vals, a)
    else
      var k := DigitEnd(fmt, i + 1);
      k < |fmt| && WellTyped(fmt[k], vals, a) && Matches(fmt, k + 1, vals, After(fmt[k], a))
  }

  /** What is printed from fmt[i] and vals[a] on. */
  function Render(fmt: string, i: nat, vals: seq<Val>, a: nat): string
    requires i <= |fmt| && Matches(fmt, i, vals, a)
    decreases |fmt| - i
  {
    if i == |fmt| then ""
    else if fmt[i] != '%' then [fmt[i]] + Render(fmt, i + 1, vals, a)
    else
      var k := DigitEnd(fmt, i + 1);
      Conversion(fmt[k], Atoi(fmt, i + 1, k), vals, a) + Render(fmt, k + 1, vals, After(fmt[k], a))
  }

  // ----- Strings in memory -----

  /** The C string at p. */
  function CStr(m: seq<char>, p: nat): (s: string)
    ensures p + |s| <= |m| || s == ""
    ensures forall i :: 0 <= i < |s| ==> p + i < |m| && s[i] == m[p + i] && s[i] != '\0'
    ensures p + |s| < |m| ==> m[p + |s|] == '\0'
    decreases |m| - p
  {
    if p >= |m| || m[p] == '\0' then "" else [m[p]] + CStr(m, p + 1)
  }

  predicate Terminated(m: seq<char>, p: nat) {
    p + |CStr(m, p)| < |m|
  }

  lemma {:induction false} CStrIs(m: seq<char>, p: nat, s: string)
    requires p + |s| < |m| && m[p + |s|] == '\0' && '\0' !in s && forall i :: 0 <= i < |s| ==> m[p + i] == s[i]
    ensures CStr(m, p) == s
    decreases |s|
  {
    if s != "" {
      assert m[p] == s[0];
      CStrIs(m, p + 1, s[1..]);
    }
  }

  lemma StopsAt(m: seq<char>, p: nat, n: nat)
    requires n <= |CStr(m, p)| && p + n < |m| && m[p + n] == '\0'
    ensures n == |CStr(m, p)|
  {
    CStrIs(m, p, CStr(m, p)[..n]);
  }

  /** A string that other memory does not touch is still there. */
  lemma CStrKept(m: seq<char>, m': seq<char>, p: nat)
    requires |m'| == |m| && Terminated(m, p) && forall i :: p <= i <= p + |CStr(m, p)| ==> m'[i] == m[i]
    ensures CStr(m', p) == CStr(m, p)
  {
    CStrIs(m', p, CStr(m, p));
  }

  function ValOf(m: seq<char>, arg: Arg): Val {
    match arg
    case Int(v) => VInt(v)
    case Ptr(p) => VStr(CStr(m, p))
  }

  function Resolve(m: seq<char>, args: seq<Arg>): seq<Val> {
    seq(|args|, i requires 0 <= i < |args| => ValOf(m, args[i]))
  }

  /** strlen. */
  method Strlen(mem: array<char>, p: nat) returns (sz: nat)
    requires Terminated(mem[..], p)
    ensures sz == |CStr(mem[..], p)|
  {
    sz := 0;
    ghost var m := mem[..];
    ghost var s := CStr(m, p);
    while mem[p + sz] != '\0'
      invariant sz <= |s| && mem[..] == m
      decreases |s| - sz
    {
      sz := sz + 1;
    }
    StopsAt(m, p, sz);
  }

  // ----- vsprintf -----

  /** The text is at `at`; nothing before it or beyond the character after it has changed. */
  predicate Wrote(m: seq<char>, m': seq<char>, at: nat, text: string) {
    && |m'| == |m| && at + |text| < |m|
    && m'[..at] == m[..at] && m'[at..at + |text|] == text && m'[at + |text| + 1..] == m[at + |text| + 1..]
  }

  lemma WroteAt(m: seq<char>, m': seq<char>, at: nat, text: string)
    requires Wrote(m, m', at, text)
    ensures forall i :: at <= i < at + |text| ==> m'[i] == text[i - at]
    ensures forall i :: 0 <= i < |m| && (i < at || at + |text| < i) ==> m'[i] == m[i]
  {
    forall i | 0 <= i < |m| && at + |text| < i ensures m'[i] == m[i] {
      assert m'[at + |text| + 1..][i - (at + |text| + 1)] == m[at + |text| + 1..][i - (at + |text| + 1)];
    }
    forall i | 0 <= i < at ensures m'[i] == m[i] { assert m'[..at][i] == m[..at][i]; }
    forall i | at <= i < at + |text|
      ensures m'[i] == text[i - at]
    {
      assert m'[at..at + |text|][i - at] == text[i - at];
    }
  }

  lemma PatchWrote(m: seq<char>, at: nat, text: string, tail: string)
    requires at + |text| < |m| && |tail| <= 1
    ensures Wrote(m, Patch(m, at, text + tail), at, text)
  {
  }

  /** The copying loop: str and s may be the same place. */
  method CopyString(mem: array<char>, str: nat, s: nat, len: nat)
    requires str + len <= mem.Length && s + len <= mem.Length
    requires s == str || s + len <= str || str + len <= s
    modifies mem
    ensures mem[..] == Patch(old(mem[..]), str, old(mem[s..s + len]))
  {
    ghost var m := mem[..];
    for i := 0 to len
      invariant forall k {:trigger mem[k]} :: str <= k < str + i ==> mem[k] == m[k - str + s]
      invariant forall k :: 0 <= k < mem.Length && !(str <= k < str + i) ==> mem[k] == m[k]
    {
      mem[str + i] := mem[s + i];
    }
    Copied(m, mem[..], str, s, len);
  }

  lemma Copied(m: seq<char>, m': seq<char>, str: nat, s: nat, len: nat)
    requires |m'| == |m| && str + len <= |m| && s + len <= |m|
    requires forall k {:trigger m'[k]} :: 0 <= k < |m| ==>
               m'[k] == if str <= k < str + len then m[k - str + s] else m[k]
    ensures m' == Patch(m, str, m[s..s + len])
  {
  }

  method PutString(mem: array<char>, at: nat, p: nat)
    returns (n: nat)
    requires Terminated(mem[..], p) && at + |CStr(mem[..], p)| % 0x1_0000 < mem.Length
    requires p == at || p + |CStr(mem[..], p)| < at || at + |CStr(mem[..], p)| % 0x1_0000 < p
    modifies mem
    ensures var text := old(CStr(mem[..], p))[..|old(CStr(mem[..], p))| % 0x1_0000];
            n == |text| && Wrote(old(mem[..]), mem[..], at, text)
  {
    ghost var m := mem[..];
    ghost var s := CStr(m, p);
    var sz := Strlen(mem, p);
    n := sz % 0x1_0000;
    assert m[p..p + n] == s[..n];
    CopyString(mem, at, p, n);
    assert s[..n] + "" == s[..n];
    PatchWrote(m, at, s[..n], "");
  }

  method PutNumber(mem: array<char>, at: nat, v: Word, base: nat, sign: bool, digits: int)
    returns (n: nat)
    requires -0x8000_0000 <= digits < 0x8000_0000
    requires 2 <= base <= 16 && at + |NumToStr(v, base, sign, digits)| < mem.Length
    modifies mem
    ensures n == |NumToStr(v, base, sign, digits)| && Wrote(old(mem[..]), mem[..], at, NumToStr(v, base, sign, digits))
  {
    n := Numtostr(mem, at, v, base, sign, digits);
    PatchWrote(old(mem[..]), at, NumToStr(v, base, sign, digits), "\0");
  }

  method PutOne(mem: array<char>, at: nat, c: char)
    returns (n: nat)
    requires at + 1 < mem.Length
    modifies mem
    ensures n == 1 && Wrote(old(mem[..]), mem[..], at, [c])
  {
    mem[at] := c;
    n := 1;
  }

  /** Where the output of one directive goes is clear of the string it prints. */
  predicate Clear(m: seq<char>, at: nat, c: char, arg: Arg)
    requires WellTyped(c, [ValOf(m, arg)], 0)
  {
    c == 's' ==>
      var p, len := arg.p, |CStr(m, arg.p)|;
      Terminated(m, p) && (p == at || p + len < at || at + len % 0x1_0000 < p)
  }

  /** The switch of vsprintf. */
  method Convert(mem: array<char>, at: nat, c: char, digits: int, arg: Arg, ghost text: string)
    returns (n: nat)
    requires -0x8000_0000 <= digits < 0x8000_0000
    requires WellTyped(c, [ValOf(mem[..], arg)], 0) && text == Conversion(c, digits, [ValOf(mem[..], arg)], 0)
    requires at + |text| < mem.Length && Clear(mem[..], at, c, arg)
    modifies mem
    ensures n == |text| && Wrote(old(mem[..]), mem[..], at, text)
  {
    match c
    case 'c' => n := PutOne(mem, at, (arg.v % 256) as char);
    case 's' => n := PutString(mem, at, arg.p);
    case 'o' => n := 0;
    case 'x' => n := PutNumber(mem, at, arg.v, 16, false, digits);
    case 'X' => n := PutNumber(mem, at, arg.v, 16, false, digits);
    case 'p' => n := PutNumber(mem, at, arg.v, 16, false, 8);
    case 'd' => n := PutNumber(mem, at, arg.v, 10, true, digits);
    case 'i' => n := PutNumber(mem, at, arg.v, 10, true, digits);
    case 'u' => n := PutNumber(mem, at, arg.v, 10, false, digits);
    case 'b' => n := PutNumber(mem, at, arg.v, 2, false, digits);
    case 'B' => n := PutNumber(mem, at, arg.v, 2, true, digits);
    case _ => n := PutOne(mem, at, '%');
  }

  /** The format starts with a %s. */
  predicate StartsWithString(fmt: string) {
    fmt != "" && fmt[0] == '%' && DigitEnd(fmt, 1) < |fmt| && fmt[DigitEnd(fmt, 1)] == 's'
  }

  /** A string argument ends, and lies clear of the size + 1 characters written at buf, unless it is the output buffer
      itself, printed first. */
  predicate Safe(m: seq<char>, buf: nat, size: nat, fmt: string, args: seq<Arg>, j: nat)
    requires j < |args|
  {
    args[j].Ptr? ==>
      var p := args[j].p;
      && Terminated(m, p)
      && (p + |CStr(m, p)| < buf || buf + size < p || (j == 0 && StartsWithString(fmt) && p == buf))
  }

  /** The state of the vsprintf loop: `written` is out, the format from i and the values from a remain. */
  predicate Printing(m: seq<char>, m': seq<char>, buf: nat, fmt: string, vals: seq<Val>, i: nat, a: nat,
                     written: string)
  {
    && i <= |fmt| && a <= |vals| && Wrote(m, m', buf, written)
    && (i == a == 0 ==> m' == m && written == "")
    && (i > 0 && StartsWithString(fmt) ==> a > 0)
  }

  lemma WroteMore(m: seq<char>, m1: seq<char>, m2: seq<char>, buf: nat, written: string, text: string)
    requires Wrote(m, m1, buf, written) && Wrote(m1, m2, buf + |written|, text)
    ensures Wrote(m, m2, buf, written + text)
  {
    WroteAt(m, m1, buf, written);
    WroteAt(m1, m2, buf + |written|, text);
  }

  /** The argument a directive reads is as it was at the start, and out of the way of its output. */
  lemma ArgumentKept(m: seq<char>, m': seq<char>, buf: nat, size: nat, fmt: string, args: seq<Arg>, first: bool, a: nat,
                     written: string, c: char, text: string)
    requires a < |args| && Safe(m, buf, size, fmt, args, a)
    requires Wrote(m, m', buf, written) && (first && a == 0 ==> m' == m && written == "")
    requires StartsWithString(fmt) && a == 0 ==> first
    requires c == 's' && args[a].Ptr? ==> |text| == |CStr(m, args[a].p)| % 0x1_0000
    requires |written| + |text| <= size
    requires WellTyped(c, [ValOf(m, args[a])], 0)
    ensures ValOf(m', args[a]) == ValOf(m, args[a]) && Clear(m', buf + |written|, c, args[a])
  {
    if args[a].Ptr? && !(first && a == 0) {
      WroteAt(m, m', buf, written);
      CStrKept(m, m', args[a].p);
    }
  }

  /** Reads the argument of a directive. */
  method Fetch(ghost m: seq<char>, ghost m1: seq<char>, ghost buf: nat, fmt: string, args: seq<Arg>, ghost i: nat,
               a: nat, ghost written: string, ghost vals: seq<Val>, ghost size: nat, c: char, ghost digits: int,
                 ghost text: string)
    returns (arg: Arg, a': nat)
    requires a <= |args| && vals == Resolve(m, args) && WellTyped(c, vals, a) && text == Conversion(c, digits, vals, a)
    requires Wrote(m, m1, buf, written) && (i == a == 0 ==> m1 == m && written == "")
    requires StartsWithString(fmt) ==> i == 0 || a > 0
    requires |written| + |text| <= size
    requires forall j :: 0 <= j < |args| ==> Safe(m, buf, size, fmt, args, j)
    ensures a' == After(c, a)
    ensures WellTyped(c, [ValOf(m1, arg)], 0) && Clear(m1, buf + |written|, c, arg)
    ensures text == Conversion(c, digits, [ValOf(m1, arg)], 0)
  {
    arg, a' := Int(0), a;
    if TakesArg(c) {
      arg, a' := args[a], a + 1;
      ArgumentKept(m, m1, buf, size, fmt, args, i == 0, a, written, c, text);
    }
  }

  /** One directive of vsprintf: fmt[i] is its '%', k is where its character is, text is what it prints. */
  method Directive(mem: array<char>, ghost m: seq<char>, ghost buf: nat, fmt: string, args: seq<Arg>, i: nat, a: nat,
                   str: nat, ghost written: string, ghost vals: seq<Val>, ghost size: nat, ghost text: string)
    returns (i': nat, a': nat, str': nat)
    requires Printing(m, mem[..], buf, fmt, vals, i, a, written) && vals == Resolve(m, args) && str == buf + |written|
    requires i < |fmt| && fmt[i] == '%' && buf + size < |m| && DigitEnd(fmt, i + 1) < |fmt|
    requires var k := DigitEnd(fmt, i + 1);
             WellTyped(fmt[k], vals, a) && text == Conversion(fmt[k], Atoi(fmt, i + 1, k), vals, a)
    requires |written| + |text| <= size
    requires forall j :: 0 <= j < |args| ==> Safe(m, buf, size, fmt, args, j)
    modifies mem
    ensures i' == DigitEnd(fmt, i + 1) + 1 && a' == After(fmt[i' - 1], a) && str' == str + |text|
    ensures Printing(m, mem[..], buf, fmt, vals, i', a', written + text)
  {
    ghost var m1 := mem[..];
    var digits, k := SkipAtoi(fmt, i + 1);
    var arg;
    arg, a' := Fetch(m, m1, buf, fmt, args, i, a, written, vals, size, fmt[k], digits, text);
    var n := Convert(mem, str, fmt[k], digits, arg, text);
    i', str' := k + 1, str + n;
    WroteMore(m, m1, mem[..], buf, written, text);
  }

  lemma RenderDirective(fmt: string, i: nat, vals: seq<Val>, a: nat, k: nat)
    requires i < |fmt| && fmt[i] == '%' && k == DigitEnd(fmt, i + 1) && Matches(fmt, i, vals, a)
    ensures k < |fmt| && WellTyped(fmt[k], vals, a) && Matches(fmt, k + 1, vals, After(fmt[k], a))
    ensures Render(fmt, i, vals, a)
            == Conversion(fmt[k], Atoi(fmt, i + 1, k), vals, a) + Render(fmt, k + 1, vals, After(fmt[k], a))
  {
  }

  /** One turn of the loop of vsprintf. */
  method Turn(mem: array<char>, ghost m: seq<char>, ghost buf: nat, fmt: string, args: seq<Arg>, i: nat, a: nat,
              str: nat, ghost written: string, ghost vals: seq<Val>, ghost size: nat)
    returns (i': nat, a': nat, str': nat, ghost written': string)
    requires Printing(m, mem[..], buf, fmt, vals, i, a, written) && vals == Resolve(m, args) && str == buf + |written|
    requires i < |fmt| && buf + size < |m| && Matches(fmt, i, vals, a) && |written| + |Render(fmt, i, vals, a)| == size
    requires forall j :: 0 <= j < |args| ==> Safe(m, buf, size, fmt, args, j)
    modifies mem
    ensures Printing(m, mem[..], buf, fmt, vals, i', a', written') && str' == buf + |written'| && i < i'
    ensures Matches(fmt, i', vals, a') && written' + Render(fmt, i', vals, a') == written + Render(fmt, i, vals, a)
  {
    ghost var all := Render(fmt, i, vals, a);
    ghost var text, rest;
    if fmt[i] != '%' {
      text, rest := [fmt[i]], Render(fmt, i + 1, vals, a);
      str' := Plain(mem, m, buf, str, fmt[i], written);
      i', a' := i + 1, a;
    } else {
      ghost var k := DigitEnd(fmt, i + 1);
      RenderDirective(fmt, i, vals, a, k);
      text, rest := Conversion(fmt[k], Atoi(fmt, i + 1, k), vals, a), Render(fmt, k + 1, vals, After(fmt[k], a));
      i', a', str' := Directive(mem, m, buf, fmt, args, i, a, str, written, vals, size, text);
    }
    written' := written + text;
    Regroup3(written, text, rest, all);
  }

  lemma Regroup3(a: string, b: string, c: string, d: string)
    requires d == b + c
    ensures a + b + c == a + d
  {
  }

  /** vsprintf. */
  method Vsprintf(mem: array<char>, buf: nat, fmt: string, args: seq<Arg>) returns (size: nat)
    requires Matches(fmt, 0, Resolve(mem[..], args), 0) && '\0' !in fmt
    requires buf + |Render(fmt, 0, Resolve(mem[..], args), 0)| < mem.Length
    requires forall j :: 0 <= j < |args| ==>
               Safe(mem[..], buf, |Render(fmt, 0, Resolve(mem[..], args), 0)|, fmt, args, j)
    modifies mem
    ensures var text := Render(fmt, 0, Resolve(old(mem[..]), args), 0);
            size == |text| && mem[..] == Patch(old(mem[..]), buf, text + "\0")
  {
    ghost var m := mem[..];
    ghost var vals := Resolve(m, args);
    ghost var text := Render(fmt, 0, vals, 0);
    ghost var written := "";
    var i: nat, a: nat, str: nat := 0, 0, buf;
    while i < |fmt|
      invariant Printing(m, mem[..], buf, fmt, vals, i, a, written) && str == buf + |written|
                && Matches(fmt, i, vals, a)
      invariant written + Render(fmt, i, vals, a) == text
      decreases |fmt| - i
    {
      i, a, str, written := Turn(mem, m, buf, fmt, args, i, a, str, written, vals, |text|);
    }
    ghost var last := mem[..];
    mem[str] := '\0';
    Finished(m, last, mem[..], buf, text);
    size := str - buf;
  }

  method Plain(mem: array<char>, ghost m: seq<char>, ghost buf: nat, str: nat, c: char, ghost written: string)
    returns (str': nat)
    requires Wrote(m, mem[..], buf, written) && str == buf + |written| && str + 1 < mem.Length
    modifies mem
    ensures Wrote(m, mem[..], buf, written + [c]) && str' == str + 1
  {
    ghost var m1 := mem[..];
    var n := PutOne(mem, str, c);
    WroteMore(m, m1, mem[..], buf, written, [c]);
    str' := str + n;
  }

  lemma Finished(m: seq<char>, last: seq<char>, end: seq<char>, buf: nat, text: string)
    requires Wrote(m, last, buf, text) && end == last[buf + |text| := '\0']
    ensures end == Patch(m, buf, text + "\0")
  {
    WroteAt(m, last, buf, text);
  }

  /** A format and its values behind others print the same. */
  lemma {:induction false} RenderShift(pre: string, rest: string, i: nat, more: seq<Val>, vals: seq<Val>, a: nat)
    requires i <= |rest| && Matches(rest, i, vals, a)
    ensures Shifted(pre, rest, i, more, vals, a)
    decreases |rest| - i
  {
    if i < |rest| {
      assert (pre + rest)[|pre| + i] == rest[i];
      if rest[i] != '%' {
        RenderShift(pre, rest, i + 1, more, vals, a);
      } else {
        var k := DigitEnd(rest, i + 1);
        RenderDirective(rest, i, vals, a, k);
        RenderShift(pre, rest, k + 1, more, vals, After(rest[k], a));
        ShiftDirective(pre, rest, i, more, vals, a, k);
      }
    }
  }

  predicate Shifted(pre: string, rest: string, i: nat, more: seq<Val>, vals: seq<Val>, a: nat)
    requires i <= |rest| && Matches(rest, i, vals, a)
  {
    && Matches(pre + rest, |pre| + i, more + vals, |more| + a)
    && Render(pre + rest, |pre| + i, more + vals, |more| + a) == Render(rest, i, vals, a)
  }

  lemma ShiftDirective(pre: string, rest: string, i: nat, more: seq<Val>, vals: seq<Val>, a: nat, k: nat)
    requires i < |rest| && Matches(rest, i, vals, a) && rest[i] == '%' && k == DigitEnd(rest, i + 1) < |rest|
    requires WellTyped(rest[k], vals, a) && Matches(rest, k + 1, vals, After(rest[k], a))
    requires Shifted(pre, rest, k + 1, more, vals, After(rest[k], a))
    ensures Shifted(pre, rest, i, more, vals, a)
  {
    DigitEndShift(pre, rest, i + 1);
    AtoiShift(pre, rest, i + 1, k);
    assert TakesArg(rest[k]) ==> (more + vals)[|more| + a] == vals[a];
    SameDirective(pre + rest, |pre| + i, more + vals, |more| + a, |pre| + k, rest, i, vals, a, k);
  }

  lemma RenderFromDirective(fmt: string, i: nat, vals: seq<Val>, a: nat, k: nat)
    requires i < |fmt| && fmt[i] == '%' && k == DigitEnd(fmt, i + 1) < |fmt|
    requires WellTyped(fmt[k], vals, a) && Matches(fmt, k + 1, vals, After(fmt[k], a))
    ensures Matches(fmt, i, vals, a)
    ensures Render(fmt, i, vals, a)
            == Conversion(fmt[k], Atoi(fmt, i + 1, k), vals, a) + Render(fmt, k + 1, vals, After(fmt[k], a))
  {
  }

  /** Two directives that read the same print the same. */
  lemma SameDirective(f: string, i: nat, u: seq<Val>, a: nat, k: nat, g: string, j: nat, v: seq<Val>, b: nat, l: nat)
    requires j < |g| && g[j] == '%' && l == DigitEnd(g, j + 1) < |g| && WellTyped(g[l], v, b)
    requires i < |f| && f[i] == '%' && k == DigitEnd(f, i + 1) < |f| && f[k] == g[l]
             && Atoi(f, i + 1, k) == Atoi(g, j + 1, l)
    requires TakesArg(g[l]) ==> a < |u| && u[a] == v[b]
    requires Matches(g, l + 1, v, After(g[l], b)) && Matches(f, k + 1, u, After(f[k], a))
    requires Render(g, l + 1, v, After(g[l], b)) == Render(f, k + 1, u, After(f[k], a))
    ensures Matches(g, j, v, b) && Matches(f, i, u, a) && Render(f, i, u, a) == Render(g, j, v, b)
  {
    SameConversion(f[k], Atoi(f, i + 1, k), u, a, v, b);
    RenderFromDirective(f, i, u, a, k);
    RenderFromDirective(g, j, v, b, l);
  }

  lemma SameConversion(c: char, digits: int, u: seq<Val>, a: nat, v: seq<Val>, b: nat)
    requires WellTyped(c, v, b) && (TakesArg(c) ==> a < |u| && u[a] == v[b])
    ensures WellTyped(c, u, a) && Conversion(c, digits, u, a) == Conversion(c, digits, v, b)
  {
  }

  lemma {:induction false} DigitEndShift(pre: string, rest: string, i: nat)
    requires i <= |rest|
    ensures DigitEnd(pre + rest, |pre| + i) == |pre| + DigitEnd(rest, i)
    decreases |rest| - i
  {
    if i < |rest| && IsDigit(rest[i]) { DigitEndShift(pre, rest, i + 1); }
  }

  lemma {:induction false} AtoiShift(pre: string, rest: string, i: nat, k: nat)
    requires i <= k <= |rest|
    ensures Atoi(pre + rest, |pre| + i, |pre| + k) == Atoi(rest, i, k)
    decreases k
  {
    if i < k { AtoiShift(pre, rest, i, k - 1); }
  }

  /** In-place append: with the old buffer as the argument of a leading %s, what is printed is the old text followed by
      the rendering of the rest -- exactly when the old text fits the 16-bit length; otherwise its end is lost. */
  lemma AppendKeepsOldText(s: string, rest: string, vals: seq<Val>)
    requires Matches(rest, 0, vals, 0)
    ensures Matches("%s" + rest, 0, [VStr(s)] + vals, 0)
    ensures var text := Render("%s" + rest, 0, [VStr(s)] + vals, 0);
            && text == s[..|s| % 0x1_0000] + Render(rest, 0, vals, 0)
            && (text == s + Render(rest, 0, vals, 0) <==> |s| < 0x1_0000)
  {
    var fmt := "%s" + rest;
    RenderShift("%s", rest, 0, [VStr(s)], vals, 0);
    assert fmt[0] == '%' && fmt[1] == 's';
    DigitEndIs(fmt, 1, 1);
    assert s[..|s| % 0x1_0000] == s <==> |s| < 0x1_0000;
    if |s| >= 0x1_0000 {
      assert |s[..|s| % 0x1_0000] + Render(rest, 0, vals, 0)| < |s + Render(rest, 0, vals, 0)|;
    }
  }
}
