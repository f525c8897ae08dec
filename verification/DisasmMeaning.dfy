/** What the instruction decoder's output means, in terms of the bytes and the rows it reads alone: the effect of
    prefixes, the numbers that bytes denote, and what each kind of operand prints. */
module DisasmMeaning {
  import opened Machine
  import opened Numbers
  import opened Formats
  import opened Disasm

  // ----- Prefixes -----

  /** The rows of the n opcodes from p on: those behind a row with flag 2 (TWO_BYTE) come from the second table. */
  function Rows(t: Tables, s: seq<Byte>, p: nat, n: nat, two: bool): seq<Inst>
    requires p + n <= |s|
    decreases n, |s|
  {
    if n == 0 then []
    else
      var r := if two then t.two[s[p]] else t.one[s[p]];
      [r] + Rows(t, s, p + 1, n - 1, two || r.flags == 2)
  }

  function Count(rows: seq<Inst>, flags: nat): nat {
    if rows == [] then 0 else (if rows[0].flags == flags then 1 else 0) + Count(rows[1..], flags)
  }

  predicate Odd(n: nat) { n % 2 == 1 }

  /** The segment of the last override among the rows (flags 3 to 8: ES, CS, SS, DS, FS, GS), or -1. */
  function LastSegment(rows: seq<Inst>): int {
    if rows == [] then -1
    else if LastSegment(rows[1..]) >= 0 then LastSegment(rows[1..])
    else if 3 <= rows[0].flags <= 8 then rows[0].flags - 3
    else -1
  }

  /** Every row is one of a prefix: flag 2, an override, 9 (operand size), 10 (address size) or 12 (printed). */
  predicate AllPrefixes(rows: seq<Inst>) {
    forall i :: 0 <= i < |rows| ==> 2 <= rows[i].flags <= 10 || rows[i].flags == 12
  }

  /** The names of the printed ones, each with a blank. */
  function Names(rows: seq<Inst>): string {
    if rows == [] then ""
    else if rows[0].flags == 12 && rows[0].name.Some? then rows[0].name.value + " " + Names(rows[1..])
    else Names(rows[1..])
  }

  /** The mode that follows from what was counted. */
  function ModeBehind(rows: seq<Inst>, m: Mode): Mode {
    var seg := LastSegment(rows);
    Mode(m.op32 != Odd(Count(rows, 9)), m.addr32 != Odd(Count(rows, 10)),
         m.over || seg >= 0, if seg >= 0 then seg else m.seg, m.two || Count(rows, 2) > 0)
  }

  lemma OneMoreRow(rows: seq<Inst>, m: Mode)
    requires rows != []
    requires 2 <= rows[0].flags <= 10 || rows[0].flags == 12
    ensures ModeBehind(rows, m) == ModeBehind(rows[1..], Prefixed(rows[0].flags, m))
  {
  }

  /** Any chain of prefixes, whatever they are and in whatever order: the operand size is switched if and only if an
      odd number of operand-size rows was passed, the address size if and only if an odd number of address-size rows
      was; the segment is that of the last override, and the second table is used if and only if a TWO_BYTE row was
      passed.  Their bytes are counted, and their names stand in front. */
  lemma PrefixChain(t: Tables, s: seq<Byte>, p: nat, n: nat, m: Mode, eip: Word)
    requires p + n < |s| && AllPrefixes(Rows(t, s, p, n, m.two))
    ensures var rows := Rows(t, s, p, n, m.two);
            Led(Decode(t, s, p, m, eip), Decode(t, s, p + n, ModeBehind(rows, m), Wrap(eip + n)), n, Names(rows))
  {
    var rows := Rows(t, s, p, n, m.two);
    var q, after, at := ChainDecodes(t, s, p, n, m, eip, rows);
    ChainLeads(rows, Decode(t, s, q, after, at));
  }

  /** e behind the rows. */
  function BehindAll(rows: seq<Inst>, e: Option<Decoded>): Option<Decoded> {
    if rows == [] then e else Behind(PrefixText(rows[0]), 1, BehindAll(rows[1..], e))
  }

  /** Where the chain leads: the byte behind it, the mode and the address. */
  lemma {:induction false} ChainDecodes(t: Tables, s: seq<Byte>, p: nat, n: nat, m: Mode, eip: Word, rows: seq<Inst>)
    returns (q: nat, after: Mode, at: Word)
    requires p + n < |s| && rows == Rows(t, s, p, n, m.two) && AllPrefixes(rows)
    ensures |rows| == n && q == p + n && after == ModeBehind(rows, m) && at == Wrap(eip + n)
    ensures Decode(t, s, p, m, eip) == BehindAll(rows, Decode(t, s, q, after, at))
    decreases n
  {
    if n == 0 {
      WrapSmall(eip);
      q, after, at := p, m, eip;
    } else {
      var m' := Prefixed(rows[0].flags, m);
      NextPlace(t, s, p, n, m, eip, rows, m', rows[1..]);
      q, after, at := ChainDecodes(t, s, p + 1, n - 1, m', Wrap(eip + 1), rows[1..]);
      PrefixStep(t, s, p, m, eip, rows[0]);
      SameBehind(rows, Decode(t, s, p + 1, m', Wrap(eip + 1)), Decode(t, s, q, after, at));
    }
  }

  lemma SameBehind(rows: seq<Inst>, d: Option<Decoded>, e: Option<Decoded>)
    requires rows != [] && d == BehindAll(rows[1..], e)
    ensures Behind(PrefixText(rows[0]), 1, d) == BehindAll(rows, e)
  {
  }

  lemma {:induction false} ChainLeads(rows: seq<Inst>, e: Option<Decoded>)
    ensures Led(BehindAll(rows, e), e, |rows|, Names(rows))
    decreases |rows|
  {
    if rows != [] {
      ChainLeads(rows[1..], e);
      LedMore(BehindAll(rows, e), BehindAll(rows[1..], e), e, |rows|, rows);
    }
  }

  /** Behind its first prefix the chain leads to the same place, mode and address. */
  lemma NextPlace(t: Tables, s: seq<Byte>, p: nat, n: nat, m: Mode, eip: Word, rows: seq<Inst>, m': Mode,
                  rest: seq<Inst>)
    requires 0 < n && p + n < |s| && rows == Rows(t, s, p, n, m.two) && AllPrefixes(rows)
    requires m' == Prefixed(rows[0].flags, m) && rest == rows[1..]
    ensures rest == Rows(t, s, p + 1, n - 1, m'.two) && AllPrefixes(rest)
    ensures ModeBehind(rest, m') == ModeBehind(rows, m) && Wrap(Wrap(eip + 1) + (n - 1)) == Wrap(eip + n)
  {
    forall i | 0 <= i < |rest| ensures rest[i] == rows[i + 1] {}
    OneMoreRow(rows, m);
    WrapWrap(eip + 1, n - 1);
  }

  /** d is e with n bytes and the names in front. */
  predicate Led(d: Option<Decoded>, e: Option<Decoded>, n: nat, names: string) {
    match d
    case None => e.None?
    case Some(a) => e.Some? && a.size == n + e.value.size && Show(a.text) == names + Show(e.value.text)
  }

  lemma LedMore(d: Option<Decoded>, d': Option<Decoded>, e: Option<Decoded>, n: nat, rows: seq<Inst>)
    requires n > 0 && rows != [] && Led(d', e, n - 1, Names(rows[1..])) && d == Behind(PrefixText(rows[0]), 1, d')
    ensures Led(d, e, n, Names(rows))
  {
    if d'.Some? {
      OneMoreName(rows[0], d'.value.text);
      if PrefixText(rows[0]) != [] {
        Assoc(rows[0].name.value + " ", Names(rows[1..]), Show(e.value.text));
      }
    }
  }

  lemma OneMoreName(r: Inst, text: Text)
    ensures PrefixText(r) != [] ==> Show(PrefixText(r) + text) == r.name.value + " " + Show(text)
  {
    if PrefixText(r) != [] {
      ShowTwo(Arg(r.name.value), Lit(" "));
      ShowAppend(PrefixText(r), text);
    }
  }

  // ----- The numbers that bytes denote -----

  /** The sum of b[i] * 256^i. */
  function LittleEndian(b: seq<Byte>): nat {
    if b == [] then 0 else b[0] + 0x100 * LittleEndian(b[1..])
  }

  /** The bytes are those of the signed number d, the low one first. */
  predicate IsSigned(d: int, b: seq<Byte>) {
    var n: int := Pow(0x100, |b|);
    n > 0 && 0 - n <= 2 * d < n && (d - LittleEndian(b)) % n == 0
  }

  /** There is only one such number. */
  lemma OneSigned(d: int, e: int, b: seq<Byte>)
    requires IsSigned(d, b) && IsSigned(e, b)
    ensures d == e
  {
    var n := Pow(0x100, |b|);
    var j, k := (d - LittleEndian(b)) / n, (e - LittleEndian(b)) / n;
    assert d - e == n * (j - k) by { Distribute(n, k, j - k); }
    if j > k { Multiple(n, j - k); }
    if j < k { Multiple(n, k - j); Distribute(n, j - k, k - j); }
  }

  lemma Powers()
    ensures Pow(0x100, 1) == 0x100 && Pow(0x100, 2) == 0x1_0000 && Pow(0x100, 4) == TWO_32
  {
  }

  lemma TwoBytes(b: seq<Byte>)
    requires |b| == 2
    ensures U16(b, 0) == LittleEndian(b)
  {
    assert b[1..][1..] == [];
    assert LittleEndian(b[1..]) == b[1];
  }

  lemma FourBytes(b: seq<Byte>)
    requires |b| == 4
    ensures U32(b, 0) == LittleEndian(b)
  {
    assert b[1..][1..] == b[2..] && b[2..][1..] == b[3..] && b[3..][1..] == [];
    assert LittleEndian(b[3..]) == b[3];
    assert LittleEndian(b[2..]) == b[2] + 0x100 * LittleEndian(b[3..]);
    assert LittleEndian(b[1..]) == b[1] + 0x100 * LittleEndian(b[2..]);
  }

  lemma OneByte(b: seq<Byte>)
    requires |b| == 1
    ensures At(b, 0) == LittleEndian(b)
  {
    assert b[1..] == [];
  }

  lemma SignedByte(b: seq<Byte>)
    requires |b| == 1
    ensures IsSigned(Sign8(At(b, 0)), b)
  {
    OneByte(b);
    Powers();
  }

  lemma SignedTwo(b: seq<Byte>)
    requires |b| == 2
    ensures IsSigned(Sign16(U16(b, 0)), b)
  {
    TwoBytes(b);
    Powers();
  }

  lemma SignedFour(b: seq<Byte>)
    requires |b| == 4
    ensures IsSigned(Sign32(U32(b, 0)), b)
  {
    FourBytes(b);
    Powers();
  }

  // ----- Operands -----

  /** Hexadecimal text: at least `width` digits that denote v. */
  predicate IsHexOf(digits: string, v: int, width: nat) { |digits| >= width && Value(digits, 16) == v }

  lemma HexDigits(v: Word, width: nat) returns (digits: string)
    ensures HexStr(v, width) == "0x" + digits && IsHexOf(digits, v, width)
  {
    digits := NumToStr(v, 16, false, width);
    NumToStrDenotes(v, 16, false, width);
  }

  lemma Fields(b: Byte, a: nat, r: nat, x: nat)
    requires r < 8 && x < 8 && b == 0x40 * a + 8 * r + x
    ensures Mod(b) == a && Reg(b) == r && Rm(b) == x
  {
  }

  /** The three fields of a ModRM byte. */
  lemma ModrmFields(t: Tables, modrm: Byte, a: nat, r: nat, x: nat, b: seq<Byte>, addr32: bool)
    requires r < 8 && x < 8 && modrm == 0x40 * a + 8 * r + x
    ensures OperandOf(t, modrm, b, addr32) == Operand(a != 3, r, x, RmText(t, b, addr32, a, x))
  {
    Fields(modrm, a, r, x);
  }

  /** A displacement is the signed number its bytes denote: sign, 0x and digits behind the base. */
  lemma RmDisplacement(t: Tables, b: seq<Byte>, addr32: bool, mod: nat, rm: nat, d: int) returns (digits: string)
    requires 1 <= mod <= 2 && rm < 8
    requires var i, k := if addr32 && rm == 4 then 1 else 0, if mod == 1 then 1 else if addr32 then 4 else 2;
             i + k <= |b| && IsSigned(d, b[i..i + k])
    ensures var base := if !addr32 then Pick(t.rm16, rm)
                        else if rm == 4 then SibText(t, b, mod) else Pick(t.regs32, rm);
            RmText(t, b, addr32, mod, rm) == base + ((if d < 0 then "-" else "+") + ("0x" + digits))
    ensures IsHexOf(digits, if d < 0 then 0 - d else d, if mod == 1 then 2 else if addr32 then 8 else 4)
  {
    var i, k := if addr32 && rm == 4 then 1 else 0, if mod == 1 then 1 else if addr32 then 4 else 2;
    DisplacementIs(b, i, k, d);
    RmWithDisplacement(t, b, addr32, mod, rm, i, k, d);
    digits := DispShown(d, 2 * k);
  }

  lemma DisplacementIs(b: seq<Byte>, i: nat, k: nat, d: int)
    requires (k == 1 || k == 2 || k == 4) && i + k <= |b| && IsSigned(d, b[i..i + k])
    ensures d == if k == 1 then Sign8(At(b, i)) else if k == 2 then Sign16(U16(b, i)) else Sign32(U32(b, i))
  {
    var e := SignedAt(b, i, k);
    OneSigned(d, e, b[i..i + k]);
  }

  lemma DispShown(d: Int32, width: nat) returns (digits: string)
    ensures Disp(d, width) == (if d < 0 then "-" else "+") + ("0x" + digits)
    ensures IsHexOf(digits, if d < 0 then 0 - d else d, width)
  {
    digits := HexDigits(Abs(d), width);
  }

  lemma RmWithDisplacement(t: Tables, b: seq<Byte>, addr32: bool, mod: nat, rm: nat, i: nat, k: nat, e: Int32)
    requires 1 <= mod <= 2 && rm < 8
    requires i == (if addr32 && rm == 4 then 1 else 0) && k == (if mod == 1 then 1 else if addr32 then 4 else 2)
    requires e == if k == 1 then Sign8(At(b, i)) else if k == 2 then Sign16(U16(b, i)) else Sign32(U32(b, i))
    ensures var base := if !addr32 then Pick(t.rm16, rm)
                        else if rm == 4 then SibText(t, b, mod) else Pick(t.regs32, rm);
            RmText(t, b, addr32, mod, rm) == base + Disp(e, 2 * k)
  {
  }

  /** The displacement of one, two or four bytes at i. */
  lemma SignedAt(b: seq<Byte>, i: nat, k: nat) returns (e: Int32)
    requires (k == 1 || k == 2 || k == 4) && i + k <= |b|
    ensures IsSigned(e, b[i..i + k])
    ensures e == if k == 1 then Sign8(At(b, i)) else if k == 2 then Sign16(U16(b, i)) else Sign32(U32(b, i))
  {
    var own := b[i..i + k];
    if k == 1 {
      SliceAt(b, i, k, 0);
      SignedByte(own);
      e := Sign8(At(b, i));
    } else if k == 2 {
      SliceU16(b, i, k, 0);
      SignedTwo(own);
      e := Sign16(U16(b, i));
    } else {
      SliceU32(b, i, k, 0);
      SignedFour(own);
      e := Sign32(U32(b, i));
    }
  }

  /** The unsigned number of one, two or four bytes at i. */
  lemma UnsignedAt(b: seq<Byte>, i: nat, k: nat) returns (v: Word)
    requires (k == 1 || k == 2 || k == 4) && i + k <= |b|
    ensures v == LittleEndian(b[i..i + k])
    ensures v == if k == 1 then At(b, i) else if k == 2 then U16(b, i) else U32(b, i)
  {
    var own := b[i..i + k];
    if k == 1 {
      SliceAt(b, i, k, 0);
      OneByte(own);
      v := At(b, i);
    } else if k == 2 {
      SliceU16(b, i, k, 0);
      TwoBytes(own);
      v := U16(b, i);
    } else {
      SliceU32(b, i, k, 0);
      FourBytes(own);
      v := U32(b, i);
    }
  }

  /** Without a displacement it is the base alone, or an address where the base would be BP or EBP. */
  lemma RmWithout(t: Tables, b: seq<Byte>, addr32: bool, rm: nat) returns (digits: string)
    requires rm < 8 && |b| >= if addr32 && rm == 5 then 4 else if !addr32 && rm == 6 then 2 else 0
    ensures RmText(t, b, addr32, 0, rm)
            == if rm == (if addr32 then 5 else 6) then "0x" + digits
               else if !addr32 then Pick(t.rm16, rm)
               else if rm == 4 then SibText(t, b, 0) else Pick(t.regs32, rm)
    ensures rm == (if addr32 then 5 else 6) ==>
              var k := if addr32 then 4 else 2; IsHexOf(digits, LittleEndian(b[0..k]), 2 * k)
  {
    digits := "";
    if rm == (if addr32 then 5 else 6) {
      var k := if addr32 then 4 else 2;
      var v := UnsignedAt(b, 0, k);
      digits := HexDigits(v, 2 * k);
    }
  }

  /** A SIB byte: base x, or an address if that is 5 and mod 0; index i times 2^a, unless i is 4. */
  lemma SibMeaning(t: Tables, b: seq<Byte>, mod: nat, a: nat, i: nat, x: nat) returns (digits: string)
    requires a < 4 && i < 8 && x < 8 && |b| >= (if x == 5 && mod == 0 then 5 else 1) && b[0] == 0x40 * a + 8 * i + x
    ensures var base := if x == 5 && mod == 0 then "0x" + digits else Pick(t.regs32, x);
            SibText(t, b, mod) == if i == 4 then base else base + Scaled("+" + Pick(t.regs32, i), a)
    ensures x == 5 && mod == 0 ==> IsHexOf(digits, LittleEndian(b[1..5]), 8)
  {
    Fields(b[0], a, i, x);
    IndexMeaning(t, b[0], a, i);
    digits := "";
    if x == 5 && mod == 0 {
      var v := UnsignedAt(b, 1, 4);
      digits := HexDigits(v, 8);
    }
  }

  function Scaled(index: string, a: nat): string {
    if a == 0 then index else index + (if a == 1 then "*2" else if a == 2 then "*4" else "*8")
  }

  lemma IndexMeaning(t: Tables, sib: Byte, a: nat, i: nat)
    requires Mod(sib) == a && Reg(sib) == i
    ensures IndexText(t, sib) == Scaled("+" + Pick(t.regs32, i), a)
  {
    if a > 0 { FactorText(sib, a); }
  }

  lemma FactorText(sib: Byte, a: nat)
    requires Mod(sib) == a && a > 0
    ensures "*" + NumToStr(Factor(sib), 10, true, 0) == if a == 1 then "*2" else if a == 2 then "*4" else "*8"
  {
    Factors();
    assert "*" + "2" == "*2" && "*" + "4" == "*4" && "*" + "8" == "*8";
  }

  lemma Factors()
    ensures NumToStr(2, 10, true, 0) == "2" && NumToStr(4, 10, true, 0) == "4" && NumToStr(8, 10, true, 0) == "8"
  {
  }

  // ----- Parameters, by their numbers in dis386.h -----

  /** 21 (UI8), 32 (UI16) and 23 (IMM): the unsigned number of their bytes. */
  lemma Immediate(t: Tables, param: nat, b: seq<Byte>, m: Mode, eip: Word, size: nat, x: Operand)
    returns (digits: string)
    requires param == 21 || param == 32 || param == 23
    requires |b| == if param == 21 then 1 else if param == 23 && m.op32 then 4 else 2
    ensures ParamSize(param, m) == |b| && Show(ParamText(t, param, b, m, eip, size, x)) == " " + ("0x" + digits)
    ensures IsHexOf(digits, LittleEndian(b), 2 * |b|)
  {
    var v := ImmediateIs(t, param, b, m, eip, size, x);
    digits := HexDigits(v, 2 * |b|);
    ShowTwo(Lit(" "), Hex(v, 2 * |b|));
  }

  lemma ImmediateIs(t: Tables, param: nat, b: seq<Byte>, m: Mode, eip: Word, size: nat, x: Operand) returns (v: Word)
    requires param == 21 || param == 32 || param == 23
    requires |b| == if param == 21 then 1 else if param == 23 && m.op32 then 4 else 2
    ensures ParamSize(param, m) == |b| && v == LittleEndian(b)
    ensures ParamText(t, param, b, m, eip, size, x) == [Lit(" "), Hex(v, 2 * |b|)]
  {
    assert b[0..|b|] == b;
    v := UnsignedAt(b, 0, |b|);
  }

  /** 22 (I8): the signed number of its byte. */
  lemma SignedImmediate(t: Tables, b: seq<Byte>, m: Mode, eip: Word, size: nat, x: Operand, d: int)
    returns (digits: string)
    requires |b| == 1 && IsSigned(d, b)
    ensures ParamSize(22, m) == 1
    ensures Show(ParamText(t, 22, b, m, eip, size, x)) == " " + ((if d < 0 then "-" else "+") + ("0x" + digits))
    ensures IsHexOf(digits, if d < 0 then 0 - d else d, 2)
  {
    SignedByte(b);
    OneSigned(d, Sign8(At(b, 0)), b);
    SignedIs(t, b, m, eip, size, x);
    digits := SignedShown(d);
  }

  lemma SignedIs(t: Tables, b: seq<Byte>, m: Mode, eip: Word, size: nat, x: Operand)
    ensures ParamText(t, 22, b, m, eip, size, x) == [Lit(" "), Signed(Sign8(At(b, 0)), 2)] && ParamSize(22, m) == 1
  {
  }

  lemma SignedShown(d: Int32) returns (digits: string)
    ensures Show([Lit(" "), Signed(d, 2)]) == " " + ((if d < 0 then "-" else "+") + ("0x" + digits))
    ensures IsHexOf(digits, if d < 0 then 0 - d else d, 2)
  {
    digits := DispShown(d, 2);
    ShowTwo(Lit(" "), Signed(d, 2));
  }

  /** 28 (ADDR): the segment, which comes last, a colon, the offset. */
  lemma FarAddress(t: Tables, b: seq<Byte>, m: Mode, eip: Word, size: nat, x: Operand)
    returns (segment: string, offset: string)
    requires |b| == if m.op32 then 6 else 4
    ensures ParamSize(28, m) == |b|
    ensures Show(ParamText(t, 28, b, m, eip, size, x)) == " " + ("0x" + segment) + (":" + ("0x" + offset))
    ensures IsHexOf(segment, LittleEndian(b[|b| - 2..]), 4)
    ensures IsHexOf(offset, LittleEndian(b[..|b| - 2]), if m.op32 then 8 else 4)
  {
    FarParam(t, b, m, eip, size, x);
    segment, offset := FarShown(ParamText(t, 28, b, m, eip, size, x), b, m);
  }

  lemma FarParam(t: Tables, b: seq<Byte>, m: Mode, eip: Word, size: nat, x: Operand)
    ensures ParamText(t, 28, b, m, eip, size, x) == AddrText(b, m) && ParamSize(28, m) == if m.op32 then 6 else 4
  {
  }

  lemma FarShown(text: Text, b: seq<Byte>, m: Mode) returns (segment: string, offset: string)
    requires text == AddrText(b, m) && |b| == if m.op32 then 6 else 4
    ensures Show(text) == " " + ("0x" + segment) + (":" + ("0x" + offset))
    ensures IsHexOf(segment, LittleEndian(b[|b| - 2..]), 4)
    ensures IsHexOf(offset, LittleEndian(b[..|b| - 2]), if m.op32 then 8 else 4)
  {
    var high, low := FarNumbers(b, m);
    segment := HexDigits(high, 4);
    offset := HexDigits(low, if m.op32 then 8 else 4);
    FarText(high, low, if m.op32 then 8 else 4);
  }

  lemma FarNumbers(b: seq<Byte>, m: Mode) returns (high: Word, low: Word)
    requires |b| == if m.op32 then 6 else 4
    ensures high == LittleEndian(b[|b| - 2..]) && low == LittleEndian(b[..|b| - 2])
    ensures AddrText(b, m) == [Lit(" "), Hex(high, 4), Lit(":"), Hex(low, if m.op32 then 8 else 4)]
  {
    var k := |b| - 2;
    assert b[k..k + 2] == b[k..] && b[0..k] == b[..k];
    high := UnsignedAt(b, k, 2);
    low := UnsignedAt(b, 0, k);
  }

  lemma FarText(high: Word, low: Word, width: nat)
    ensures Show([Lit(" "), Hex(high, 4), Lit(":"), Hex(low, width)])
            == " " + HexStr(high, 4) + (":" + HexStr(low, width))
  {
    ShowTwo(Lit(" "), Hex(high, 4));
    ShowTwo(Lit(":"), Hex(low, width));
    ShowAppend([Lit(" "), Hex(high, 4)], [Lit(":"), Hex(low, width)]);
    assert [Lit(" "), Hex(high, 4), Lit(":"), Hex(low, width)]
        == [Lit(" "), Hex(high, 4)] + [Lit(":"), Hex(low, width)];
  }

  /** What stands in front of a memory operand: its size, if it has one, and the segment, if it is overridden. */
  function Before(t: Tables, word: string, m: Mode): string {
    if m.over then " " + word + (Pick(t.segs, m.seg) + ":") + "[" else " " + word + "["
  }

  lemma BeforeIs(t: Tables, size: nat, m: Mode)
    ensures var word := if size == 0 then "BYTE " else if size == 1 then "WORD "
                        else if size == 2 then "DWORD " else "";
            Show(MemPrefix(t, size, m)) == Before(t, word, m)
  {
    SizeIs(size);
    ShowLit("[");
    if m.over {
      ShowTwo(Arg(Pick(t.segs, m.seg)), Lit(":"));
      ShowAppend(SizeText(size), [Arg(Pick(t.segs, m.seg)), Lit(":")]);
      ShowAppend(SizeText(size) + [Arg(Pick(t.segs, m.seg)), Lit(":")], [Lit("[")]);
    } else {
      ShowAppend(SizeText(size), [Lit("[")]);
    }
  }

  lemma SizeIs(size: nat)
    ensures Show(SizeText(size))
            == " " + (if size == 0 then "BYTE " else if size == 1 then "WORD " else if size == 2 then "DWORD " else "")
  {
    if size <= 2 {
      var word := if size == 0 then "BYTE" else if size == 1 then "WORD" else "DWORD";
      ShowTwo(Lit(" "), Arg(word));
      ShowLit(" ");
      ShowAppend([Lit(" "), Arg(word)], [Lit(" ")]);
      assert SizeText(size) == [Lit(" "), Arg(word)] + [Lit(" ")];
    } else {
      ShowLit(" ");
    }
  }

  /** 33 (OFFSET): a memory operand without a size, at the unsigned address of its bytes. */
  lemma Direct(t: Tables, b: seq<Byte>, m: Mode, eip: Word, size: nat, x: Operand) returns (digits: string)
    requires |b| == if m.addr32 then 4 else 2
    ensures ParamSize(33, m) == |b|
    ensures Show(ParamText(t, 33, b, m, eip, size, x)) == Before(t, "", m) + (("0x" + digits) + "]")
    ensures IsHexOf(digits, LittleEndian(b), 2 * |b|)
  {
    assert b[0..|b|] == b;
    var v := UnsignedAt(b, 0, |b|);
    digits := HexDigits(v, 2 * |b|);
    BeforeIs(t, 3, m);
    ShowTwo(Offset(b, m), Lit("]"));
    ShowAppend(MemPrefix(t, 3, m), [Offset(b, m), Lit("]")]);
  }

  /** 1 (RM8), 30 (RM16), 35 (RM32) and 3 (RM) of a memory operand. */
  lemma InMemory(t: Tables, param: nat, b: seq<Byte>, m: Mode, eip: Word, size: nat, x: Operand)
    requires (param == 1 || param == 30 || param == 35 || param == 3) && x.memory
    ensures var word := if param == 1 then "BYTE " else if param == 30 || (param == 3 && !m.op32) then "WORD "
                        else "DWORD ";
            Show(ParamText(t, param, b, m, eip, size, x)) == Before(t, word, m) + (x.text + "]")
    ensures ParamSize(param, m) == 0
  {
    var size := if param == 1 then 0 else if param == 30 || (param == 3 && !m.op32) then 1 else 2;
    BeforeIs(t, size, m);
    ShowTwo(Arg(x.text), Lit("]"));
    ShowAppend(MemPrefix(t, size, m), [Arg(x.text), Lit("]")]);
  }

  /** The register a parameter names: 5 to 12 and 13 to 20 by its own number, 1, 30, 35 and 3 by the rm field, 2 (REG8),
      24 (REG16), 4 (REG) and 31 (SREG) by the reg field. */
  function Register(t: Tables, param: nat, m: Mode, x: Operand): string {
    if 5 <= param <= 12 then Pick(t.regs8, param - 5)
    else if 13 <= param <= 20 then Pick(if m.op32 then t.regs32 else t.regs16, param - 13)
    else if param == 1 then Pick(t.regs8, x.rm)
    else if param == 30 then Pick(t.regs16, x.rm)
    else if param == 35 then Pick(t.regs32, x.rm)
    else if param == 3 then Pick(if m.op32 then t.regs32 else t.regs16, x.rm)
    else if param == 2 then Pick(t.regs8, x.reg)
    else if param == 24 then Pick(t.regs16, x.reg)
    else if param == 4 then Pick(if m.op32 then t.regs32 else t.regs16, x.reg)
    else Pick(t.segs, x.reg)
  }

  lemma InRegister(t: Tables, param: nat, b: seq<Byte>, m: Mode, eip: Word, size: nat, x: Operand)
    requires || 5 <= param <= 20 || param == 2 || param == 24 || param == 4 || param == 31
             || ((param == 1 || param == 30 || param == 35 || param == 3) && !x.memory)
    ensures Show(ParamText(t, param, b, m, eip, size, x)) == " " + Register(t, param, m, x) && ParamSize(param, m) == 0
  {
    ShowTwo(Lit(" "), Arg(Register(t, param, m, x)));
    assert ParamText(t, param, b, m, eip, size, x) == [Lit(" "), Arg(Register(t, param, m, x))];
  }

  /** 29 (DX), 34 (1) and 25 (SEGOVER). */
  lemma Others(t: Tables, param: nat, b: seq<Byte>, m: Mode, eip: Word, size: nat, x: Operand)
    requires param == 29 || param == 34 || param == 25
    ensures Show(ParamText(t, param, b, m, eip, size, x))
            == if param == 29 then " DX" else if param == 34 then " 1"
               else if m.over then " " + Pick(t.segs, m.seg) else ""
    ensures ParamSize(param, m) == 0
  {
    ShowLit(" DX");
    ShowLit(" 1");
    ShowTwo(Lit(" "), Arg(Pick(t.segs, m.seg)));
  }

  /** 36 (CREG) and 37 (DREG). */
  lemma Numbered(t: Tables, param: nat, b: seq<Byte>, m: Mode, eip: Word, size: nat, x: Operand)
    requires (param == 36 || param == 37) && x.reg < 8
    ensures Show(ParamText(t, param, b, m, eip, size, x))
            == (if param == 36 then " CR" else " DR") + [(48 + x.reg) as char]
    ensures ParamSize(param, m) == 0
  {
    NumberedIs(t, param, b, m, eip, size, x);
    OneDigitText(x.reg);
    ShowTwo(Lit(if param == 36 then " CR" else " DR"), Dec(x.reg));
  }

  lemma NumberedIs(t: Tables, param: nat, b: seq<Byte>, m: Mode, eip: Word, size: nat, x: Operand)
    requires param == 36 || param == 37
    ensures ParamText(t, param, b, m, eip, size, x) == [Lit(if param == 36 then " CR" else " DR"), Dec(x.reg)]
    ensures ParamSize(param, m) == 0
  {
  }

  lemma OneDigitText(n: Word)
    requires n < 8
    ensures NumToStr(n, 10, true, 0) == [(48 + n) as char]
  {
    if n > 0 { PlacesBound(n, 10); }
  }

  // ----- Instructions -----

  /** The row of the opcode behind n prefixes. */
  function RowBehind(t: Tables, s: seq<Byte>, p: nat, n: nat, m: Mode): Inst
    requires p + n < |s|
  {
    if ModeBehind(Rows(t, s, p, n, m.two), m).two then t.two[s[p + n]] else t.one[s[p + n]]
  }

  /** The row that is printed: of a group (flags 13 to 27) the one of the reg field, of a row with two names (11) the
      second name at operand size 32. */
  function PrintedRow(t: Tables, r: Inst, modrm: Byte, op32: bool): Inst {
    if 13 <= r.flags <= 27 then t.groups[r.flags - 13][modrm / 8 % 8]
    else if r.flags == 11 && op32 then r.(name := Some(r.wide))
    else r
  }

  /** How many bytes belong to a ModRM byte behind it, by its mod and rm fields: with 16-bit addresses, and with 32-bit
      addresses, where a SIB byte with base 5 and mod 0 brings four more. */
  const SIZES16: seq<seq<nat>> := [[0, 0, 0, 0, 0, 0, 2, 0], [1, 1, 1, 1, 1, 1, 1, 1], [2, 2, 2, 2, 2, 2, 2, 2],
                                   [0, 0, 0, 0, 0, 0, 0, 0]]
  const SIZES32: seq<seq<nat>> := [[0, 0, 0, 0, 1, 4, 0, 0], [1, 1, 1, 1, 2, 1, 1, 1], [4, 4, 4, 4, 5, 4, 4, 4],
                                   [0, 0, 0, 0, 0, 0, 0, 0]]

  function OperandBytes(addr32: bool, a: nat, x: nat, sib: Byte): nat
    requires a < 4 && x < 8
  {
    if !addr32 then SIZES16[a][x] else SIZES32[a][x] + if a == 0 && x == 4 && sib % 8 == 5 then 4 else 0
  }

  lemma RmSizeIs(addr32: bool, a: nat, x: nat, sib: Byte)
    requires a < 4 && x < 8
    ensures RmSize(addr32, a, x, sib) == OperandBytes(addr32, a, x, sib)
  {
  }

  /** Opcode, and for a row with flag 1 (MODRM) or of a group the ModRM byte and what belongs to it. */
  function Head(flags: nat, modrm: Byte, sib: Byte, addr32: bool): nat {
    if flags == 1 || 13 <= flags <= 27 then 2 + OperandBytes(addr32, modrm / 64, modrm % 8, sib) else 1
  }

  /** What a parameter adds to the text; 0 is none. */
  function Part(t: Tables, front: string, param: nat, b: seq<Byte>, m: Mode, eip: Word, size: nat, x: Operand): string {
    if param == 0 then "" else front + Show(ParamText(t, param, b, m, eip, size, x))
  }

  /** d is the name of row c and its parameters, a comma before the second and third; b are their bytes, x what the
      ModRM byte says. */
  predicate Prints(d: Decoded, t: Tables, c: Inst, b: Tail, head: nat, m: Mode, eip: Word, x: Operand) {
    var i := head + |b.one|;
    var j := i + |b.two|;
    && d.size == j + |b.three| && c.name.Some?
    && Show(d.text) == c.name.value + Part(t, "", c.dest, b.one, m, eip, head, x)
                       + Part(t, ",", c.src1, b.two, m, eip, i, x) + Part(t, ",", c.src2, b.three, m, eip, j, x)
  }

  /** The row of the opcode at q, which is not a prefix, the row it is printed from, and the size of what comes before
      the parameters. */
  predicate ReadAs(t: Tables, s: seq<Byte>, q: nat, m: Mode, r: Inst, c: Inst, head: nat)
    requires q < |s|
  {
    && r == (if m.two then t.two[s[q]] else t.one[s[q]]) && !(2 <= r.flags <= 10) && r.flags != 12
    && head == Head(r.flags, At(s, q + 1), At(s, q + 2), m.addr32)
    && c == PrintedRow(t, r, At(s, q + 1), m.op32)
  }

  /** An instruction behind its prefixes, if its row c has a name: the bytes of each parameter follow those of the one
      before, and it is decoded unless the bytes end before. */
  lemma Instruction(t: Tables, s: seq<Byte>, q: nat, m: Mode, eip: Word, r: Inst, c: Inst, head: nat, i: nat, j: nat,
                    end: nat)
    requires q < |s| && ReadAs(t, s, q, m, r, c, head) && c.name.Some?
    requires i == q + head + ParamSize(c.dest, m) && j == i + ParamSize(c.src1, m) && end == j + ParamSize(c.src2, m)
    ensures Decode(t, s, q, m, eip).Some? <==> end <= |s|
  {
    RowIs(t, s, q, m, r, c, head);
    PlainFits(t, s, q, r, m, eip, c, head);
    PlainStep(t, s, q, m, eip, r);
  }

  lemma PlainFits(t: Tables, s: seq<Byte>, q: nat, r: Inst, m: Mode, eip: Word, c: Inst, head: nat)
    requires q < |s| && head == HeadSize(s, q, r.flags, m.addr32)
    requires c == Chosen(t, r, At(s, q + 1), m.op32) && c.name.Some?
    ensures Plain(t, s, q, r, m, eip).Some?
            <==> q + head + ParamSize(c.dest, m) + ParamSize(c.src1, m) + ParamSize(c.src2, m) <= |s|
  {
  }

  lemma InstructionText(t: Tables, s: seq<Byte>, q: nat, m: Mode, eip: Word, r: Inst, c: Inst, head: nat, i: nat,
                        j: nat, end: nat, b: Tail, x: Operand)
    returns (d: Decoded)
    requires q < |s| && ReadAs(t, s, q, m, r, c, head) && c.name.Some?
    requires i == q + head + ParamSize(c.dest, m) && j == i + ParamSize(c.src1, m) && end == j + ParamSize(c.src2, m)
    requires end <= |s| && b == Tail(s[q + head..i], s[i..j], s[j..end])
    requires x == if head == 1 then NO_OPERAND else OperandOf(t, s[q + 1], s[q + 2..q + head], m.addr32)
    ensures Decode(t, s, q, m, eip) == Some(d) && Prints(d, t, c, b, head, m, eip, x)
  {
    OperandIs(t, s, q, m, r, c, head, i, j, end, b, x);
    PlainIs(t, s, q, r, m, eip, c, b, head, x);
    PlainStep(t, s, q, m, eip, r);
    d := Decoded(TailText(t, [Arg(c.name.value)], c, b, head, m, eip, x), head + TailSize(c, m));
    DecodedPrints(d, t, c, b, head, m, eip, x);
  }

  lemma OperandIs(t: Tables, s: seq<Byte>, q: nat, m: Mode, r: Inst, c: Inst, head: nat, i: nat, j: nat, end: nat,
                  b: Tail, x: Operand)
    requires q < |s| && ReadAs(t, s, q, m, r, c, head)
    requires i == q + head + ParamSize(c.dest, m) && j == i + ParamSize(c.src1, m) && end == j + ParamSize(c.src2, m)
    requires end <= |s| && b == Tail(s[q + head..i], s[i..j], s[j..end])
    requires x == if head == 1 then NO_OPERAND else OperandOf(t, s[q + 1], s[q + 2..q + head], m.addr32)
    ensures r == Row(t, s[q], m.two) && !IsPrefix(r.flags) && head == HeadSize(s, q, r.flags, m.addr32)
    ensures end == q + head + TailSize(c, m) && c == Chosen(t, r, At(s, q + 1), m.op32)
    ensures b == TailAt(s, q + head, c, m) && x == HeadOperand(t, s, q, r.flags, m.addr32, head)
  {
    RowIs(t, s, q, m, r, c, head);
    TailIs(s, q + head, c, m, i, j, end);
    OperandKnown(t, s, q, r.flags, m.addr32, head, x);
  }

  lemma OperandKnown(t: Tables, s: seq<Byte>, q: nat, flags: nat, addr32: bool, head: nat, x: Operand)
    requires head == HeadSize(s, q, flags, addr32) && q + head <= |s| && (HasModrm(flags) <==> head > 1)
    requires x == if head == 1 then NO_OPERAND else OperandOf(t, s[q + 1], s[q + 2..q + head], addr32)
    ensures x == HeadOperand(t, s, q, flags, addr32, head)
  {
  }

  lemma RowIs(t: Tables, s: seq<Byte>, q: nat, m: Mode, r: Inst, c: Inst, head: nat)
    requires q < |s| && ReadAs(t, s, q, m, r, c, head)
    ensures r == Row(t, s[q], m.two) && !IsPrefix(r.flags) && head == HeadSize(s, q, r.flags, m.addr32)
    ensures c == Chosen(t, r, At(s, q + 1), m.op32) && (HasModrm(r.flags) <==> head > 1)
  {
    HeadIs(s, q, r.flags, m.addr32);
  }

  lemma TailIs(s: seq<Byte>, q: nat, c: Inst, m: Mode, i: nat, j: nat, end: nat)
    requires i == q + ParamSize(c.dest, m) && j == i + ParamSize(c.src1, m) && end == j + ParamSize(c.src2, m) <= |s|
    ensures end == q + TailSize(c, m) && TailAt(s, q, c, m) == Tail(s[q..i], s[i..j], s[j..end])
  {
  }

  lemma PlainIs(t: Tables, s: seq<Byte>, q: nat, r: Inst, m: Mode, eip: Word, c: Inst, b: Tail, head: nat, x: Operand)
    requires q < |s| && head == HeadSize(s, q, r.flags, m.addr32) && q + head + TailSize(c, m) <= |s|
    requires c == Chosen(t, r, At(s, q + 1), m.op32) && c.name.Some?
    requires b == TailAt(s, q + head, c, m) && x == HeadOperand(t, s, q, r.flags, m.addr32, head)
    ensures Plain(t, s, q, r, m, eip)
            == Some(Decoded(TailText(t, [Arg(c.name.value)], c, b, head, m, eip, x), head + TailSize(c, m)))
  {
    BodyIs(t, s, q, head, c, b, m, eip, x);
  }

  lemma BodyIs(t: Tables, s: seq<Byte>, q: nat, head: nat, c: Inst, b: Tail, m: Mode, eip: Word, x: Operand)
    requires head >= 1 && q + head + TailSize(c, m) <= |s| && c.name.Some? && b == TailAt(s, q + head, c, m)
    ensures Body(t, s, q, head, c, m, eip, x)
            == Some(Decoded(TailText(t, [Arg(c.name.value)], c, b, head, m, eip, x), head + TailSize(c, m)))
  {
  }

  lemma DecodedPrints(d: Decoded, t: Tables, c: Inst, b: Tail, head: nat, m: Mode, eip: Word, x: Operand)
    requires c.name.Some? && |b.one| == ParamSize(c.dest, m) && |b.two| == ParamSize(c.src1, m)
    requires d == Decoded(TailText(t, [Arg(c.name.value)], c, b, head, m, eip, x), head + TailSize(c, m))
    requires |b.three| == ParamSize(c.src2, m)
    ensures Prints(d, t, c, b, head, m, eip, x)
  {
    PartsShown(t, c.name.value, c, b, head, head + |b.one|, head + |b.one| + |b.two|, m, eip, x);
  }

  /** A row without a name prints DB and the opcode, and the parameters are not read. */
  lemma Nameless(t: Tables, s: seq<Byte>, q: nat, m: Mode, eip: Word, r: Inst, c: Inst, head: nat)
    returns (digits: string)
    requires q < |s| && r == (if m.two then t.two[s[q]] else t.one[s[q]]) && !(2 <= r.flags <= 10) && r.flags != 12
    requires head == Head(r.flags, At(s, q + 1), At(s, q + 2), m.addr32)
    requires c == PrintedRow(t, r, At(s, q + 1), m.op32) && c.name.None?
    ensures var d := Decode(t, s, q, m, eip);
            && (d.Some? <==> q + head <= |s|)
            && (d.Some? ==> d.value.size == head && Show(d.value.text) == "DB " + ("0x" + digits))
    ensures IsHexOf(digits, s[q], 2)
  {
    PlainStep(t, s, q, m, eip, r);
    HeadIs(s, q, r.flags, m.addr32);
    digits := HexDigits(s[q], 2);
    ShowTwo(Lit("DB "), Hex(s[q], 2));
  }

  lemma HeadIs(s: seq<Byte>, q: nat, flags: nat, addr32: bool)
    ensures HeadSize(s, q, flags, addr32) == Head(flags, At(s, q + 1), At(s, q + 2), addr32)
    ensures HasModrm(flags) <==> HeadSize(s, q, flags, addr32) > 1
  {
    RmSizeIs(addr32, At(s, q + 1) / 64, At(s, q + 1) % 8, At(s, q + 2));
  }

  lemma PartsShown(t: Tables, name: string, c: Inst, b: Tail, head: nat, i: nat, j: nat, m: Mode, eip: Word,
                   x: Operand)
    requires i == head + ParamSize(c.dest, m) && j == i + ParamSize(c.src1, m)
    ensures Show(TailText(t, [Arg(name)], c, b, head, m, eip, x))
            == name + Part(t, "", c.dest, b.one, m, eip, head, x) + Part(t, ",", c.src1, b.two, m, eip, i, x)
               + Part(t, ",", c.src2, b.three, m, eip, j, x)
  {
    ShowOne(Arg(name));
    var first := Slot(t, [Arg(name)], false, c.dest, b.one, m, eip, head, x);
    var second := Slot(t, first, true, c.src1, b.two, m, eip, i, x);
    SlotShown(t, [Arg(name)], false, c.dest, b.one, m, eip, head, x);
    SlotShown(t, first, true, c.src1, b.two, m, eip, i, x);
    SlotShown(t, second, true, c.src2, b.three, m, eip, j, x);
    SlotsAre(t, [Arg(name)], c, b, head, i, j, m, eip, x);
  }

  lemma SlotsAre(t: Tables, name: Text, c: Inst, b: Tail, head: nat, i: nat, j: nat, m: Mode, eip: Word, x: Operand)
    requires i == head + ParamSize(c.dest, m) && j == i + ParamSize(c.src1, m)
    ensures TailText(t, name, c, b, head, m, eip, x)
            == Slot(t, Slot(t, Slot(t, name, false, c.dest, b.one, m, eip, head, x), true, c.src1, b.two, m, eip, i, x),
                    true, c.src2, b.three, m, eip, j, x)
  {
  }

  lemma SlotShown(t: Tables, front: Text, comma: bool, param: nat, b: seq<Byte>, m: Mode, eip: Word, size: nat,
                  x: Operand)
    ensures Show(Slot(t, front, comma, param, b, m, eip, size, x))
            == Show(front) + Part(t, if comma then "," else "", param, b, m, eip, size, x)
  {
    if param != 0 {
      var text := ParamText(t, param, b, m, eip, size, x);
      if comma {
        ShowLit(",");
        ShowAppend(front, [Lit(",")]);
        ShowAppend(front + [Lit(",")], text);
        Assoc(Show(front), ",", Show(text));
      } else {
        ShowAppend(front, text);
      }
    }
  }

  /** The instruction is decoded if and only if it fits, to this size and text. */
  predicate Gives(d: Option<Decoded>, fits: bool, size: nat, text: string) {
    (d.Some? <==> fits) && (d.Some? ==> d.value.size == size && Show(d.value.text) == text)
  }

  function MoveText(t: Tables, r: Inst, m: Mode, digits: string): string
    requires r.name.Some?
  {
    r.name.value + (" " + Register(t, r.dest, m, NO_OPERAND)) + ("," + (" " + ("0x" + digits)))
  }

  /** A register and an immediate operand, behind any chain of prefixes, whatever they are: one byte for each of those,
      one for the opcode, and two or four for the operand as the operand size behind the chain says.  The name, the
      register and the number of those bytes are printed. */
  lemma ImmediateBehindPrefixes(t: Tables, s: seq<Byte>, p: nat, n: nat, m: Mode, eip: Word, r: Inst, k: nat)
    returns (digits: string)
    requires p + n < |s| && AllPrefixes(Rows(t, s, p, n, m.two)) && r == RowBehind(t, s, p, n, m)
    requires r.flags == 0 && r.name.Some? && 5 <= r.dest <= 20 && r.src1 == 23 && r.src2 == 0
    requires k == if ModeBehind(Rows(t, s, p, n, m.two), m).op32 then 4 else 2
    ensures p + n + 1 + k <= |s| ==> IsHexOf(digits, LittleEndian(s[p + n + 1..p + n + 1 + k]), 2 * k)
    ensures var rows := Rows(t, s, p, n, m.two);
            Gives(Decode(t, s, p, m, eip), p + n + 1 + k <= |s|, n + 1 + k,
                  Names(rows) + MoveText(t, r, ModeBehind(rows, m), digits))
  {
    var rows := Rows(t, s, p, n, m.two);
    var q, after, at := ChainLeadsTo(t, s, p, n, m, eip, rows);
    digits := OneImmediate(t, s, q, r, after, at, k);
    LedGives(Decode(t, s, p, m, eip), Decode(t, s, q, after, at), n, Names(rows), q + 1 + k <= |s|, 1 + k,
             MoveText(t, r, after, digits));
  }

  lemma ChainLeadsTo(t: Tables, s: seq<Byte>, p: nat, n: nat, m: Mode, eip: Word, rows: seq<Inst>)
    returns (q: nat, after: Mode, at: Word)
    requires p + n < |s| && rows == Rows(t, s, p, n, m.two) && AllPrefixes(rows)
    ensures q == p + n && after == ModeBehind(rows, m) && at == Wrap(eip + n)
    ensures Led(Decode(t, s, p, m, eip), Decode(t, s, q, after, at), n, Names(rows))
  {
    PrefixChain(t, s, p, n, m, eip);
    q, after, at := p + n, ModeBehind(rows, m), Wrap(eip + n);
  }

  lemma LedGives(d: Option<Decoded>, e: Option<Decoded>, n: nat, names: string, fits: bool, size: nat, text: string)
    requires Led(d, e, n, names) && Gives(e, fits, size, text)
    ensures Gives(d, fits, n + size, names + text)
  {
  }

  lemma OneImmediate(t: Tables, s: seq<Byte>, q: nat, r: Inst, m: Mode, eip: Word, k: nat) returns (digits: string)
    requires q < |s| && r == Row(t, s[q], m.two)
    requires r.flags == 0 && r.name.Some? && 5 <= r.dest <= 20 && r.src1 == 23 && r.src2 == 0
    requires k == if m.op32 then 4 else 2
    ensures q + 1 + k <= |s| ==> IsHexOf(digits, LittleEndian(s[q + 1..q + 1 + k]), 2 * k)
    ensures Gives(Decode(t, s, q, m, eip), q + 1 + k <= |s|, 1 + k, MoveText(t, r, m, digits))
  {
    PlainStep(t, s, q, m, eip, r);
    digits := "";
    if q + 1 + k <= |s| {
      assert s[q + 1..q + 1] == [];
      digits := ImmediateText(t, r, m, eip, s[q + 1..q + 1 + k]);
    }
  }

  lemma ImmediateText(t: Tables, r: Inst, m: Mode, eip: Word, b: seq<Byte>) returns (digits: string)
    requires r.name.Some? && 5 <= r.dest <= 20 && r.src1 == 23 && r.src2 == 0 && |b| == if m.op32 then 4 else 2
    ensures Show(TailText(t, [Arg(r.name.value)], r, Tail([], b, []), 1, m, eip, NO_OPERAND))
            == MoveText(t, r, m, digits)
    ensures IsHexOf(digits, LittleEndian(b), 2 * |b|) && TailSize(r, m) == |b|
  {
    var x := NO_OPERAND;
    MoveSize(r, m);
    InRegister(t, r.dest, [], m, eip, 1, x);
    digits := Immediate(t, r.src1, b, m, eip, 1, x);
    PartsShown(t, r.name.value, r, Tail([], b, []), 1, 1, 1 + |b|, m, eip, x);
    OnePart(t, "", r.dest, [], m, eip, 1, x, " " + Register(t, r.dest, m, x));
    OnePart(t, ",", r.src1, b, m, eip, 1, x, " " + ("0x" + digits));
  }

  lemma MoveSize(r: Inst, m: Mode)
    requires 5 <= r.dest <= 20 && r.src1 == 23 && r.src2 == 0
    ensures ParamSize(r.dest, m) == 0 && TailSize(r, m) == if m.op32 then 4 else 2
  {
  }

  lemma OnePart(t: Tables, front: string, param: nat, b: seq<Byte>, m: Mode, eip: Word, size: nat, x: Operand,
                text: string)
    requires param != 0 && Show(ParamText(t, param, b, m, eip, size, x)) == text
    ensures Part(t, front, param, b, m, eip, size, x) == if front == "" then text else front + text
  {
  }

  /** The relative operand (26: one byte, 27: two or four) of an instruction that has it last prints, through any chain
      of prefixes, the address of the byte behind the instruction plus the signed number d of the operand's bytes,
      modulo 2^32: eip is the address of the first prefix. */
  lemma BranchTarget(t: Tables, s: seq<Byte>, p: nat, n: nat, m: Mode, eip: Word, c: Inst, last: nat, e: Decoded,
                     own: seq<Byte>, end: nat, d: int)
    returns (front: string, digits: string)
    requires p + n < |s| && AllPrefixes(Rows(t, s, p, n, m.two))
    requires var after, r := ModeBehind(Rows(t, s, p, n, m.two), m), RowBehind(t, s, p, n, m);
             && !(2 <= r.flags <= 10) && r.flags != 12
             && c == PrintedRow(t, r, At(s, p + n + 1), after.op32) && c.name.Some?
             && last == (if c.src2 != 0 then c.src2 else if c.src1 != 0 then c.src1 else c.dest)
             && (last == 26 || last == 27)
             && |own| == (if last == 26 then 1 else if after.op32 then 4 else 2)
    requires Decode(t, s, p, m, eip) == Some(e) && |own| <= end == p + e.size <= |s|
    requires own == s[end - |own|..end] && IsSigned(d, own)
    ensures Show(e.text) == front + ("0x" + digits)
    ensures IsHexOf(digits, (eip + e.size + d) % 0x1_0000_0000,
                    if ModeBehind(Rows(t, s, p, n, m.two), m).op32 then 8 else 4)
  {
    var rows := Rows(t, s, p, n, m.two);
    var q, after, at, e' := ChainSome(t, s, p, n, m, eip, rows, e);
    Selected(t, s, p, n, m, c, q, after);
    TargetEnds(t, s, q, after, at, c, last, e', own, end, d);
    front, digits := TargetShown(Names(rows), e, e', eip, n, at, d, if after.op32 then 8 else 4);
  }

  /** The target as text, and as a number counted from the first prefix. */
  lemma TargetShown(names: string, e: Decoded, e': Decoded, eip: Word, n: nat, at: Word, d: int, width: nat)
    returns (front: string, digits: string)
    requires at == Wrap(eip + n) && e.size == n + e'.size && Show(e.text) == names + Show(e'.text)
    requires Ends(e'.text, Hex(Wrap(at + e'.size + d), width))
    ensures Show(e.text) == front + ("0x" + digits)
    ensures IsHexOf(digits, (eip + e.size + d) % 0x1_0000_0000, width)
  {
    var v := SameTarget(eip, n, at, e'.size, e.size, d);
    front, digits := EndShown(names, e'.text, v, width);
  }

  lemma SameTarget(eip: Word, n: nat, at: Word, k: nat, size: nat, d: int) returns (v: Word)
    requires at == Wrap(eip + n) && size == n + k
    ensures v == Wrap(at + k + d) && v == (eip + size + d) % 0x1_0000_0000
  {
    WrapWrap(eip + n, k + d);
    v := Wrap(eip + size + d);
  }

  /** The row printed is the one chosen where the chain leads. */
  lemma Selected(t: Tables, s: seq<Byte>, p: nat, n: nat, m: Mode, c: Inst, q: nat, after: Mode)
    requires p + n < |s| && q == p + n && after == ModeBehind(Rows(t, s, p, n, m.two), m)
    requires var r := RowBehind(t, s, p, n, m);
             !(2 <= r.flags <= 10) && r.flags != 12 && c == PrintedRow(t, r, At(s, p + n + 1), after.op32)
    ensures var r := Row(t, s[q], after.two); !IsPrefix(r.flags) && c == Chosen(t, r, At(s, q + 1), after.op32)
  {
  }

  lemma ChainSome(t: Tables, s: seq<Byte>, p: nat, n: nat, m: Mode, eip: Word, rows: seq<Inst>, e: Decoded)
    returns (q: nat, after: Mode, at: Word, e': Decoded)
    requires p + n < |s| && rows == Rows(t, s, p, n, m.two) && AllPrefixes(rows) && Decode(t, s, p, m, eip) == Some(e)
    ensures q == p + n && after == ModeBehind(rows, m) && at == Wrap(eip + n) && Decode(t, s, q, after, at) == Some(e')
    ensures e.size == n + e'.size && Show(e.text) == Names(rows) + Show(e'.text)
  {
    PrefixChain(t, s, p, n, m, eip);
    q, after, at := p + n, ModeBehind(rows, m), Wrap(eip + n);
    e' := Decode(t, s, q, after, at).value;
  }

  lemma TargetEnds(t: Tables, s: seq<Byte>, q: nat, m: Mode, eip: Word, c: Inst, last: nat, e: Decoded, own: seq<Byte>,
                   end: nat, d: int)
    requires q < |s| && Decode(t, s, q, m, eip) == Some(e) && last == LastParam(c) && (last == 26 || last == 27)
    requires var r := Row(t, s[q], m.two);
             !IsPrefix(r.flags) && c == Chosen(t, r, At(s, q + 1), m.op32) && c.name.Some?
    requires |own| == (if last == 26 then 1 else if m.op32 then 4 else 2) && |own| <= end == q + e.size <= |s|
    requires own == s[end - |own|..end] && IsSigned(d, own)
    ensures Ends(e.text, Hex(Wrap(eip + e.size + d), if m.op32 then 8 else 4))
  {
    DecodeTarget(t, s, q, m, eip, c, own, end);
    OffsetIs(last, own, m, d);
  }

  lemma OffsetIs(last: nat, own: seq<Byte>, m: Mode, d: int)
    requires last == 26 || last == 27
    requires |own| == (if last == 26 then 1 else if m.op32 then 4 else 2) && IsSigned(d, own)
    ensures RelOffset(last, own, m) == d
  {
    assert own[0..|own|] == own;
    var f := SignedAt(own, 0, |own|);
    OneSigned(d, f, own);
  }

  lemma EndShown(names: string, text: Text, v: Word, width: nat) returns (front: string, digits: string)
    requires Ends(text, Hex(v, width))
    ensures names + Show(text) == front + ("0x" + digits) && IsHexOf(digits, v, width)
  {
    ShownHex(text, v, width);
    digits := NumToStr(v, 16, false, width);
    NumToStrDenotes(v, 16, false, width);
    Assoc(names, Show(text[..|text| - 1]), "0x" + digits);
    front := names + Show(text[..|text| - 1]);
  }
}
