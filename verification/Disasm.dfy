/** The instruction decoder of kernel/src/kd/dis/dis386.c.

    The opcode tables and the name lists are a parameter.  Code bytes are a finite sequence, read at a position;
    decoding fails exactly when the sequence ends inside the instruction. */
module Disasm {
  import opened Machine
  import opened Numbers
  import opened Formats
  import Printf

  // ----- Tables (kernel/include/kd/dis/dis386.h) -----

  const MODRM := 1
  const TWO_BYTE := 2
  const SEG_ES := 3
  const SEG_GS := 8
  const OP_SIZE := 9
  const ADDR_SIZE := 10
  const VAR_NAME := 11
  const PREFIX := 12
  const GROUP80 := 13
  const GROUP0F01 := 27

  const PARAM_RM8 := 1
  const PARAM_REG8 := 2
  const PARAM_RM := 3
  const PARAM_REG := 4
  const PARAM_AL := 5
  const PARAM_BH := 12
  const PARAM_EAX := 13
  const PARAM_EDI := 20
  const PARAM_UI8 := 21
  const PARAM_I8 := 22
  const PARAM_IMM := 23
  const PARAM_REG16 := 24
  const PARAM_SEGOVER := 25
  const PARAM_REL8 := 26
  const PARAM_REL := 27
  const PARAM_ADDR := 28
  const PARAM_DX := 29
  const PARAM_RM16 := 30
  const PARAM_SREG := 31
  const PARAM_UI16 := 32
  const PARAM_OFFSET := 33
  const PARAM_1 := 34
  const PARAM_RM32 := 35
  const PARAM_CREG := 36
  const PARAM_DREG := 37

  /** One row: `wide` is the second name of a VAR_NAME row, a null name is None. */
  datatype Inst = Inst(name: Option<string>, wide: string, flags: nat, dest: nat, src1: nat, src2: nat)

  function Blank(i: nat): Inst { Inst(None, "", 0, 0, 0, 0) }

  /** One row for every opcode. */
  type Table = t: seq<Inst> | |t| == 256 witness seq(256, Blank)

  /** One row for every value of the reg field. */
  type Group = g: seq<Inst> | |g| == 8 witness seq(8, Blank)

  function BlankGroup(i: nat): Group {
    [Blank(0), Blank(1), Blank(2), Blank(3), Blank(4), Blank(5), Blank(6), Blank(7)]
  }

  type Groups = g: seq<Group> | |g| == 15 witness seq(15, BlankGroup)

  /** `segs` has eight entries: those after GS are whatever follows the array, which a three-bit register field can
      reach. */
  datatype Tables = Tables(one: Table, two: Table, groups: Groups,
                           rm16: seq<string>, regs8: seq<string>, regs16: seq<string>, regs32: seq<string>,
                             segs: seq<string>)

  /** The i-th of a list of names. */
  function Pick(names: seq<string>, i: nat): string {
    if i < |names| then names[i] else ""
  }

  predicate IsGroup(flags: nat) { GROUP80 <= flags <= GROUP0F01 }

  predicate HasModrm(flags: nat) { flags == MODRM || IsGroup(flags) }

  predicate UsesModrm(param: nat) {
    || PARAM_RM8 <= param <= PARAM_REG || param == PARAM_REG16 || param == PARAM_RM16 || param == PARAM_SREG
    || param == PARAM_RM32 || param == PARAM_CREG || param == PARAM_DREG
  }

  /** No name is longer. */
  const NAME_MAX := 1000

  /** Known parameters, and names of bounded length. */
  predicate GoodParams(r: Inst) {
    && r.dest <= PARAM_DREG && r.src1 <= PARAM_DREG && r.src2 <= PARAM_DREG
    && |r.wide| <= NAME_MAX && (r.name.Some? ==> |r.name.value| <= NAME_MAX)
  }

  /** A list of eight names, so that no three-bit field leads outside. */
  predicate Names(names: seq<string>, max: nat) { |names| == 8 && forall i :: 0 <= i < 8 ==> |names[i]| <= max }

  /** Flags and parameters are known ones, a prefix or a row with two names has a name, and only a row that reads a
      ModRM byte has parameters that use it. */
  predicate GoodRow(r: Inst) {
    && r.flags <= GROUP0F01 && GoodParams(r)
    && (r.flags == PREFIX || r.flags == VAR_NAME ==> r.name.Some?)
    && (HasModrm(r.flags) || !(UsesModrm(r.dest) || UsesModrm(r.src1) || UsesModrm(r.src2)))
  }

  /** The names that an operand can contain are short. */
  predicate GoodNames(t: Tables) {
    Names(t.rm16, 5) && Names(t.regs8, 5) && Names(t.regs16, 5) && Names(t.regs32, 5) && Names(t.segs, NAME_MAX)
  }

  predicate WellFormed(t: Tables) {
    && (forall i :: 0 <= i < 256 ==> GoodRow(t.one[i]) && GoodRow(t.two[i]))
    && (forall g, i :: 0 <= g < 15 && 0 <= i < 8 ==> GoodParams(t.groups[g][i]))
    && GoodNames(t)
  }

  // ----- Bytes and numbers -----

  function Mod(modrm: Byte): (r: nat) ensures r < 4 { modrm / 64 }

  function Reg(modrm: Byte): (r: nat) ensures r < 8 { modrm / 8 % 8 }

  function Rm(modrm: Byte): (r: nat) ensures r < 8 { modrm % 8 }

  function At(s: seq<Byte>, i: nat): Byte {
    if i < |s| then s[i] else 0
  }

  function U16(s: seq<Byte>, i: nat): (r: Word)
    ensures r < 0x1_0000
  {
    At(s, i) + 0x100 * At(s, i + 1)
  }

  function U32(s: seq<Byte>, i: nat): Word {
    At(s, i) + 0x100 * At(s, i + 1) + 0x1_0000 * At(s, i + 2) + 0x100_0000 * At(s, i + 3)
  }

  function Sign8(b: Byte): Int32 { if b < 0x80 then b else b - 0x100 }

  function Sign16(w: Word): Int32
    requires w < 0x1_0000
  {
    if w < 0x8000 then w else w - 0x1_0000
  }

  function Sign32(w: Word): Int32 { if w < 0x8000_0000 then w else w - TWO_32 }

  // ----- ModRM operands -----

  /** How many bytes follow the ModRM byte; sib is the first of them, if any. */
  function RmSize(addr32: bool, mod: nat, rm: nat, sib: Byte): nat {
    if mod == 3 then 0
    else if addr32 then
      (if rm == 4 then SibSize(mod, sib) else if rm == 5 && mod == 0 then 4 else 0) +
      (if mod == 1 then 1 else if mod == 2 then 4 else 0)
    else if mod == 1 then 1
    else if mod == 2 || rm == 6 then 2
    else 0
  }

  function SibSize(mod: nat, sib: Byte): nat {
    if Rm(sib) == 5 && mod == 0 then 5 else 1
  }

  /** 1 << SCALE(sib). */
  function Factor(sib: Byte): Word {
    if Mod(sib) == 1 then 2 else if Mod(sib) == 2 then 4 else if Mod(sib) == 3 then 8 else 1
  }

  /** The base and index of a SIB byte, which starts b. */
  function SibText(t: Tables, b: seq<Byte>, mod: nat): string
  {
    var sib := At(b, 0);
    var base := if Rm(sib) == 5 && mod == 0 then HexStr(U32(b, 1), 8) else Pick(t.regs32, Rm(sib));
    if Reg(sib) == 4 then base else base + IndexText(t, sib)
  }

  function IndexText(t: Tables, sib: Byte): string {
    var index := "+" + Pick(t.regs32, Reg(sib));
    if Mod(sib) == 0 then index else index + ("*" + NumToStr(Factor(sib), 10, true, 0))
  }

  /** What stands between the brackets of a memory operand, b being the bytes after the ModRM byte; empty for a
      register. */
  function RmText(t: Tables, b: seq<Byte>, addr32: bool, mod: nat, rm: nat): string
  {
    if mod == 3 then ""
    else if addr32 then
      if rm == 4 then WithDisp32(SibText(t, b, mod), b, SibSize(mod, At(b, 0)), mod)
      else if rm == 5 && mod == 0 then HexStr(U32(b, 0), 8)
      else WithDisp32(Pick(t.regs32, rm), b, 0, mod)
    else if mod == 0 then (if rm == 6 then HexStr(U16(b, 0), 4) else Pick(t.rm16, rm))
    else Pick(t.rm16, rm) + Disp16Text(b, mod)
  }

  /** Of mod 1 or 2. */
  function Disp16Text(b: seq<Byte>, mod: nat): string {
    if mod == 1 then Disp(Sign8(At(b, 0)), 2) else Disp(Sign16(U16(b, 0)), 4)
  }

  /** base and the displacement at i, if mod says that there is one. */
  function WithDisp32(base: string, b: seq<Byte>, i: nat, mod: nat): string {
    if mod == 0 then base else base + Disp32Text(b, i, mod)
  }

  /** Of mod 1 or 2. */
  function Disp32Text(b: seq<Byte>, i: nat, mod: nat): string {
    if mod == 1 then Disp(Sign8(At(b, i)), 2) else Disp(Sign32(U32(b, i)), 8)
  }

  // ----- Parameters -----

  /** Operand and address size, segment override, opcode table. */
  datatype Mode = Mode(op32: bool, addr32: bool, over: bool, seg: nat, two: bool)

  /** What decoding a ModRM operand leaves behind for the parameters: `text` is the string rm_str. */
  datatype Operand = Operand(memory: bool, reg: Byte, rm: Byte, text: string)

  function MemPrefix(t: Tables, size: nat, m: Mode): Text
  {
    if m.over then SizeText(size) + [Arg(Pick(t.segs, m.seg)), Lit(":")] + [Lit("[")]
    else SizeText(size) + [Lit("[")]
  }

  function SizeText(size: nat): Text {
    if size == 0 then [Lit(" "), Arg("BYTE"), Lit(" ")]
    else if size == 1 then [Lit(" "), Arg("WORD"), Lit(" ")]
    else if size == 2 then [Lit(" "), Arg("DWORD"), Lit(" ")]
    else [Lit(" ")]
  }

  function Name(name: string): Text { [Lit(" "), Arg(name)] }

  function RmParam(t: Tables, size: nat, m: Mode, x: Operand): Text
  {
    if x.memory then MemPrefix(t, size, m) + [Arg(x.text), Lit("]")]
    else Name(Pick(if size == 0 then t.regs8 else if size == 1 then t.regs16 else t.regs32, x.rm))
  }

  /** The bytes a parameter takes from the instruction. */
  function ParamSize(param: nat, m: Mode): nat {
    if param == PARAM_OFFSET then (if m.addr32 then 4 else 2)
    else if param == PARAM_I8 || param == PARAM_UI8 || param == PARAM_REL8 then 1
    else if param == PARAM_UI16 then 2
    else if param == PARAM_IMM || param == PARAM_REL then (if m.op32 then 4 else 2)
    else if param == PARAM_ADDR then (if m.op32 then 6 else 4)
    else 0
  }

  /** The sign-extended offset of a relative parameter with the bytes b. */
  function RelOffset(param: nat, b: seq<Byte>, m: Mode): Int32 {
    if param == PARAM_REL8 then Sign8(At(b, 0))
    else if m.op32 then Sign32(U32(b, 0))
    else Sign16(U16(b, 0))
  }

  /** What a parameter with the bytes b prints; `size` bytes of the instruction come before them. */
  function ParamText(t: Tables, param: nat, b: seq<Byte>, m: Mode, eip: Word, size: nat, x: Operand): Text
  {
    if PARAM_AL <= param <= PARAM_BH then Name(Pick(t.regs8, param - PARAM_AL))
    else if PARAM_EAX <= param <= PARAM_EDI then Name(Pick(if m.op32 then t.regs32 else t.regs16, param - PARAM_EAX))
    else if UsesModrm(param) then ModrmText(t, param, m, x)
    else if param == PARAM_DX then [Lit(" DX")]
    else if param == PARAM_1 then [Lit(" 1")]
    else if param == PARAM_SEGOVER then (if m.over then Name(Pick(t.segs, m.seg)) else [])
    else if param == PARAM_REL8 || param == PARAM_REL then
      [Lit(" "), Hex(Wrap(eip + size + ParamSize(param, m) + RelOffset(param, b, m)), if m.op32 then 8 else 4)]
    else if param == PARAM_OFFSET then
      MemPrefix(t, 3, m) + [Offset(b, m), Lit("]")]
    else ImmText(param, b, m)
  }

  function Offset(b: seq<Byte>, m: Mode): Field {
    if m.addr32 then Hex(U32(b, 0), 8) else Hex(U16(b, 0), 4)
  }

  function ModrmText(t: Tables, param: nat, m: Mode, x: Operand): Text
  {
    if param == PARAM_RM8 then RmParam(t, 0, m, x)
    else if param == PARAM_RM16 then RmParam(t, 1, m, x)
    else if param == PARAM_RM32 then RmParam(t, 2, m, x)
    else if param == PARAM_RM then RmParam(t, if m.op32 then 2 else 1, m, x)
    else if param == PARAM_REG8 then Name(Pick(t.regs8, x.reg))
    else if param == PARAM_REG16 then Name(Pick(t.regs16, x.reg))
    else if param == PARAM_REG then Name(Pick(if m.op32 then t.regs32 else t.regs16, x.reg))
    else if param == PARAM_SREG then Name(Pick(t.segs, x.reg))
    else if param == PARAM_CREG then [Lit(" CR"), Dec(x.reg)]
    else [Lit(" DR"), Dec(x.reg)]
  }

  function ImmText(param: nat, b: seq<Byte>, m: Mode): Text {
    if param == PARAM_I8 then [Lit(" "), Signed(Sign8(At(b, 0)), 2)]
    else if param == PARAM_UI8 then [Lit(" "), Hex(At(b, 0), 2)]
    else if param == PARAM_UI16 then [Lit(" "), Hex(U16(b, 0), 4)]
    else if param == PARAM_IMM then [Lit(" "), if m.op32 then Hex(U32(b, 0), 8) else Hex(U16(b, 0), 4)]
    else AddrText(b, m)
  }

  function AddrText(b: seq<Byte>, m: Mode): Text {
    if m.op32 then [Lit(" "), Hex(U16(b, 4), 4), Lit(":"), Hex(U32(b, 0), 8)]
    else [Lit(" "), Hex(U16(b, 2), 4), Lit(":"), Hex(U16(b, 0), 4)]
  }

  // ----- Instructions -----

  datatype Decoded = Decoded(text: Text, size: nat)

  function Row(t: Tables, opcode: Byte, two: bool): Inst
  {
    if two then t.two[opcode] else t.one[opcode]
  }

  /** The row an instruction without further prefixes is printed from, the name chosen. */
  function Chosen(t: Tables, r: Inst, modrm: Byte, op32: bool): Inst
  {
    if IsGroup(r.flags) then t.groups[r.flags - GROUP80][Reg(modrm)]
    else if r.flags == VAR_NAME && op32 then r.(name := Some(r.wide))
    else r
  }

  function OperandOf(t: Tables, modrm: Byte, b: seq<Byte>, addr32: bool): Operand
  {
    Operand(Mod(modrm) != 3, Reg(modrm), Rm(modrm), RmText(t, b, addr32, Mod(modrm), Rm(modrm)))
  }

  /** Opcode, ModRM byte and what belongs to it. */
  function HeadSize(s: seq<Byte>, p: nat, flags: nat, addr32: bool): (n: nat)
    ensures n >= 1 && (HasModrm(flags) ==> n >= 2)
  {
    if HasModrm(flags) then 2 + RmSize(addr32, Mod(At(s, p + 1)), Rm(At(s, p + 1)), At(s, p + 2)) else 1
  }

  /** What a row without a ModRM byte has instead of an operand; no such row looks at it. */
  const NO_OPERAND := Operand(false, 0, 0, "")

  function HeadOperand(t: Tables, s: seq<Byte>, p: nat, flags: nat, addr32: bool, head: nat): Operand
    requires head == HeadSize(s, p, flags, addr32) && p + head <= |s|
  {
    if HasModrm(flags) then OperandOf(t, s[p + 1], s[p + 2..p + head], addr32) else NO_OPERAND
  }

  function TailSize(r: Inst, m: Mode): nat {
    ParamSize(r.dest, m) + ParamSize(r.src1, m) + ParamSize(r.src2, m)
  }

  /** The bytes of each parameter. */
  datatype Tail = Tail(one: seq<Byte>, two: seq<Byte>, three: seq<Byte>)

  function TailAt(s: seq<Byte>, q: nat, r: Inst, m: Mode): Tail
    requires q + TailSize(r, m) <= |s|
  {
    var q1 := q + ParamSize(r.dest, m);
    var q2 := q1 + ParamSize(r.src1, m);
    Tail(s[q..q1], s[q1..q2], s[q2..q + TailSize(r, m)])
  }

  /** front, and what the parameters of a row print behind it, after `head` other bytes of the instruction. */
  function TailText(t: Tables, front: Text, r: Inst, b: Tail, head: nat, m: Mode, eip: Word, x: Operand): Text {
    Sources(t, Slot(t, front, false, r.dest, b.one, m, eip, head, x), r, b, head + ParamSize(r.dest, m), m, eip, x)
  }

  /** The second and third parameter. */
  function Sources(t: Tables, front: Text, r: Inst, b: Tail, two: nat, m: Mode, eip: Word, x: Operand): Text {
    Slot(t, Slot(t, front, true, r.src1, b.two, m, eip, two, x), true, r.src2, b.three, m, eip,
         two + ParamSize(r.src1, m), x)
  }

  /** front, and one parameter of a row, if it has it. */
  function Slot(t: Tables, front: Text, comma: bool, param: nat, b: seq<Byte>, m: Mode, eip: Word, size: nat,
                x: Operand): Text
  {
    if param == 0 then front
    else (if comma then front + [Lit(",")] else front) + ParamText(t, param, b, m, eip, size, x)
  }

  /** What follows the head of an instruction at p, printed from row c: nothing but "DB" and the opcode if the row has
      no name, else name and parameters. */
  function Body(t: Tables, s: seq<Byte>, p: nat, head: nat, c: Inst, m: Mode, eip: Word, x: Operand): Option<Decoded>
    requires head >= 1 && p + head <= |s|
  {
    match c.name
    case None => Some(Decoded([Lit("DB "), Hex(s[p], 2)], head))
    case Some(name) =>
      if p + head + TailSize(c, m) > |s| then None
      else Some(Decoded(TailText(t, [Arg(name)], c, TailAt(s, p + head, c, m), head, m, eip, x), head + TailSize(c, m)))
  }

  /** An instruction at p with the row r, not of a prefix. */
  function Plain(t: Tables, s: seq<Byte>, p: nat, r: Inst, m: Mode, eip: Word): Option<Decoded>
    requires p < |s|
  {
    var head := HeadSize(s, p, r.flags, m.addr32);
    if p + head > |s| then None
    else Body(t, s, p, head, Chosen(t, r, At(s, p + 1), m.op32), m, eip, HeadOperand(t, s, p, r.flags, m.addr32, head))
  }

  predicate IsPrefix(flags: nat) { flags == PREFIX || flags == TWO_BYTE || SEG_ES <= flags <= ADDR_SIZE }

  /** How a prefix changes the mode. */
  function Prefixed(flags: nat, m: Mode): Mode {
    if flags == TWO_BYTE then m.(two := true)
    else if flags == OP_SIZE then m.(op32 := !m.op32)
    else if flags == ADDR_SIZE then m.(addr32 := !m.addr32)
    else if SEG_ES <= flags <= SEG_GS then m.(over := true, seg := flags - SEG_ES)
    else m
  }

  function PrefixText(r: Inst): Text {
    if r.flags == PREFIX && r.name.Some? then [Arg(r.name.value), Lit(" ")] else []
  }

  /** What prefixes do to the decoding of what they stand before. */
  function Behind(front: Text, k: nat, d: Option<Decoded>): Option<Decoded> {
    match d
    case None => None
    case Some(e) => Some(Decoded(if front == [] then e.text else front + e.text, e.size + k))
  }

  /** disasm_opcode: the text and the size of the instruction at p, or None if the bytes end inside it. */
  function Decode(t: Tables, s: seq<Byte>, p: nat, m: Mode, eip: Word): (d: Option<Decoded>)
    decreases |s| - p, 1
  {
    if p >= |s| then None else Dispatch(t, s, p, Row(t, s[p], m.two), m, eip)
  }

  /** The switch on the flags of the opcode's row r. */
  function Dispatch(t: Tables, s: seq<Byte>, p: nat, r: Inst, m: Mode, eip: Word): (d: Option<Decoded>)
    requires p < |s|
    decreases |s| - p, 0
  {
    if IsPrefix(r.flags) then Behind(PrefixText(r), 1, Decode(t, s, p + 1, Prefixed(r.flags, m), Wrap(eip + 1)))
    else Plain(t, s, p, r, m, eip)
  }

  // ----- Decoding is self-delimiting -----

  /** s2 starts, from p on, like the k bytes of s there, as far as it goes. */
  predicate Starts(s: seq<Byte>, s2: seq<Byte>, p: nat, k: nat) {
    p + k <= |s| && forall i :: p <= i < p + k && i < |s2| ==> s[i] == s2[i]
  }

  lemma SameSlice(s: seq<Byte>, s2: seq<Byte>, p: nat, k: nat, a: nat, b: nat)
    requires Starts(s, s2, p, k) && p <= a <= b <= p + k && b <= |s2|
    ensures s[a..b] == s2[a..b]
  {
  }

  /** The head is the same for two streams that agree on it; a stream that ends inside it is too short whatever it
      holds. */
  lemma HeadLocal(s: seq<Byte>, s2: seq<Byte>, p: nat, flags: nat, addr32: bool, head: nat)
    requires head == HeadSize(s, p, flags, addr32) && Starts(s, s2, p, head) && p < |s2|
    ensures p + head <= |s2| ==> HeadSize(s2, p, flags, addr32) == head
    ensures p + head > |s2| ==> p + HeadSize(s2, p, flags, addr32) > |s2|
    ensures HasModrm(flags) && p + head <= |s2| ==> At(s, p + 1) == At(s2, p + 1)
  {
    if HasModrm(flags) && p + 1 < |s2| {
      assert At(s, p + 1) == At(s2, p + 1);
      if p + 2 < |s2| && head > 2 { assert At(s, p + 2) == At(s2, p + 2); }
    }
  }

  lemma TailLocal(s: seq<Byte>, s2: seq<Byte>, p: nat, k: nat, q: nat, c: Inst, m: Mode)
    requires Starts(s, s2, p, k) && p <= q && q + TailSize(c, m) <= p + k <= |s2|
    ensures TailAt(s, q, c, m) == TailAt(s2, q, c, m)
  {
    var q1 := q + ParamSize(c.dest, m);
    var q2 := q1 + ParamSize(c.src1, m);
    SameSlice(s, s2, p, k, q, q1);
    SameSlice(s, s2, p, k, q1, q2);
    SameSlice(s, s2, p, k, q2, q + TailSize(c, m));
  }

  lemma BodyLocal(t: Tables, s: seq<Byte>, s2: seq<Byte>, p: nat, head: nat, c: Inst, m: Mode, eip: Word, x: Operand,
                  d: Decoded)
    requires head >= 1 && p + head <= |s| && p + head <= |s2|
    requires Body(t, s, p, head, c, m, eip, x) == Some(d) && Starts(s, s2, p, d.size)
    ensures Body(t, s2, p, head, c, m, eip, x) == if p + d.size <= |s2| then Some(d) else None
  {
    if p + d.size <= |s2| && c.name.Some? { TailLocal(s, s2, p, d.size, p + head, c, m); }
  }

  lemma HeadOperandLocal(t: Tables, s: seq<Byte>, s2: seq<Byte>, p: nat, flags: nat, addr32: bool, head: nat)
    requires head == HeadSize(s, p, flags, addr32) == HeadSize(s2, p, flags, addr32)
    requires p + head <= |s2| && Starts(s, s2, p, head)
    ensures HeadOperand(t, s, p, flags, addr32, head) == HeadOperand(t, s2, p, flags, addr32, head)
  {
    if HasModrm(flags) { SameSlice(s, s2, p, head, p + 2, p + head); }
  }

  lemma PlainFits(t: Tables, s: seq<Byte>, p: nat, r: Inst, m: Mode, eip: Word)
    requires p < |s| && Plain(t, s, p, r, m, eip).Some?
    ensures HeadSize(s, p, r.flags, m.addr32) <= Plain(t, s, p, r, m, eip).value.size <= |s| - p
  {
  }

  lemma PlainSelfDelimiting(t: Tables, s: seq<Byte>, s2: seq<Byte>, p: nat, r: Inst, m: Mode, eip: Word, d: Decoded)
    requires p < |s| && p < |s2| && Plain(t, s, p, r, m, eip) == Some(d)
    requires Starts(s, s2, p, d.size)
    ensures Plain(t, s2, p, r, m, eip) == if p + d.size <= |s2| then Some(d) else None
  {
    var head := HeadSize(s, p, r.flags, m.addr32);
    PlainFits(t, s, p, r, m, eip);
    HeadLocal(s, s2, p, r.flags, m.addr32, head);
    if p + head <= |s2| {
      HeadOperandLocal(t, s, s2, p, r.flags, m.addr32, head);
      var c := Chosen(t, r, At(s, p + 1), m.op32);
      assert c == Chosen(t, r, At(s2, p + 1), m.op32);
      BodyLocal(t, s, s2, p, head, c, m, eip, HeadOperand(t, s, p, r.flags, m.addr32, head), d);
    }
  }

  lemma PrefixStep(t: Tables, s: seq<Byte>, p: nat, m: Mode, eip: Word, r: Inst)
    requires p < |s| && r == Row(t, s[p], m.two) && IsPrefix(r.flags)
    ensures Decode(t, s, p, m, eip)
            == Behind(PrefixText(r), 1, Decode(t, s, p + 1, Prefixed(r.flags, m), Wrap(eip + 1)))
  {
  }

  lemma PlainStep(t: Tables, s: seq<Byte>, p: nat, m: Mode, eip: Word, r: Inst)
    requires p < |s| && r == Row(t, s[p], m.two) && !IsPrefix(r.flags)
    ensures Decode(t, s, p, m, eip) == Plain(t, s, p, r, m, eip)
  {
  }

  lemma {:induction false} DecodeFits(t: Tables, s: seq<Byte>, p: nat, m: Mode, eip: Word)
    requires Decode(t, s, p, m, eip).Some?
    ensures 1 <= Decode(t, s, p, m, eip).value.size <= |s| - p
    decreases |s| - p
  {
    var r := Row(t, s[p], m.two);
    if IsPrefix(r.flags) {
      PrefixStep(t, s, p, m, eip, r);
      DecodeFits(t, s, p + 1, Prefixed(r.flags, m), Wrap(eip + 1));
    } else {
      PlainStep(t, s, p, m, eip, r);
      PlainFits(t, s, p, r, m, eip);
    }
  }

  /** Take any stream that starts like one on which decoding returned text and size.  If it is at least that long,
      decoding it gives the same text and size; if it ends earlier, decoding runs out of bytes.  So the size is exactly
      what was read. */
  lemma {:induction false} SelfDelimiting(t: Tables, s: seq<Byte>, s2: seq<Byte>, p: nat, m: Mode, eip: Word,
                                          d: Decoded)
    requires Decode(t, s, p, m, eip) == Some(d) && p <= |s2| && Starts(s, s2, p, d.size)
    ensures 1 <= d.size <= |s| - p
    ensures Decode(t, s2, p, m, eip) == if p + d.size <= |s2| then Some(d) else None
    decreases |s| - p
  {
    DecodeFits(t, s, p, m, eip);
    if p < |s2| {
      assert s[p] == s2[p];
      var r := Row(t, s[p], m.two);
      if IsPrefix(r.flags) {
        var m', eip' := Prefixed(r.flags, m), Wrap(eip + 1);
        PrefixStep(t, s, p, m, eip, r);
        PrefixStep(t, s2, p, m, eip, r);
        SelfDelimiting(t, s, s2, p + 1, m', eip', Decode(t, s, p + 1, m', eip').value);
      } else {
        PlainStep(t, s, p, m, eip, r);
        PlainStep(t, s2, p, m, eip, r);
        PlainSelfDelimiting(t, s, s2, p, r, m, eip, d);
      }
    }
  }

  // ----- Branch targets -----

  predicate IsRel(param: nat) { param == PARAM_REL8 || param == PARAM_REL }

  function LastParam(r: Inst): nat {
    if r.src2 != 0 then r.src2 else if r.src1 != 0 then r.src1 else r.dest
  }

  function LastOf(a: Text): Field
    requires a != []
  {
    a[|a| - 1]
  }

  lemma LastOfAppend(a: Text, b: Text)
    requires b != []
    ensures a + b != [] && LastOf(a + b) == LastOf(b)
  {
  }

  /** text ends with the token k. */
  predicate Ends(text: Text, k: Field) { text != [] && LastOf(text) == k }

  lemma SlotTarget(t: Tables, front: Text, comma: bool, param: nat, b: seq<Byte>, m: Mode, eip: Word, size: nat,
                   x: Operand, k: Field)
    requires IsRel(param)
             && k == Hex(Wrap(eip + size + ParamSize(param, m) + RelOffset(param, b, m)), if m.op32 then 8 else 4)
    ensures Ends(Slot(t, front, comma, param, b, m, eip, size, x), k)
  {
    RelText(t, param, b, m, eip, size, x);
    LastOfAppend(if comma then front + [Lit(",")] else front, ParamText(t, param, b, m, eip, size, x));
  }

  /** The bytes of the last parameter. */
  function Own(r: Inst, b: Tail): seq<Byte> {
    if r.src2 != 0 then b.three else if r.src1 != 0 then b.two else b.one
  }

  lemma OwnIsLast(s: seq<Byte>, q: nat, r: Inst, m: Mode, own: seq<Byte>, end: nat)
    requires end == q + TailSize(r, m) <= |s| && |own| == ParamSize(LastParam(r), m) && own == s[end - |own|..end]
    ensures Own(r, TailAt(s, q, r, m)) == own
  {
  }

  /** A relative last parameter ends the text with its target. */
  lemma TailTarget(t: Tables, front: Text, r: Inst, b: Tail, head: nat, m: Mode, eip: Word, x: Operand, k: Field)
    requires IsRel(LastParam(r))
    requires k == Hex(Wrap(eip + head + TailSize(r, m) + RelOffset(LastParam(r), Own(r, b), m)),
                      if m.op32 then 8 else 4)
    ensures Ends(TailText(t, front, r, b, head, m, eip, x), k)
  {
    var two := head + ParamSize(r.dest, m);
    var first := Slot(t, front, false, r.dest, b.one, m, eip, head, x);
    var second := Slot(t, first, true, r.src1, b.two, m, eip, two, x);
    if r.src2 != 0 {
      SlotTarget(t, second, true, r.src2, b.three, m, eip, two + ParamSize(r.src1, m), x, k);
    } else if r.src1 != 0 {
      SlotTarget(t, first, true, r.src1, b.two, m, eip, two, x, k);
    } else {
      SlotTarget(t, front, false, r.dest, b.one, m, eip, head, x, k);
    }
  }

  lemma RelText(t: Tables, param: nat, b: seq<Byte>, m: Mode, eip: Word, size: nat, x: Operand)
    requires IsRel(param)
    ensures ParamText(t, param, b, m, eip, size, x)
            == [Lit(" "), Hex(Wrap(eip + size + ParamSize(param, m) + RelOffset(param, b, m)), if m.op32 then 8 else 4)]
  {
  }

  lemma PlainTarget(t: Tables, s: seq<Byte>, l: nat, r: Inst, n: Mode, eip: Word, c: Inst, e: Decoded, own: seq<Byte>,
                    end: nat)
    requires l < |s| && Plain(t, s, l, r, n, eip) == Some(e) && c == Chosen(t, r, At(s, l + 1), n.op32)
    requires c.name.Some? && IsRel(LastParam(c)) && ParamSize(LastParam(c), n) == |own|
    requires end == l + e.size && |own| <= end <= |s| && own == s[end - |own|..end]
    ensures Ends(e.text, Hex(Wrap(eip + e.size + RelOffset(LastParam(c), own, n)), if n.op32 then 8 else 4))
  {
    var head := HeadSize(s, l, r.flags, n.addr32);
    BodyTarget(t, s, l, head, c, n, eip, HeadOperand(t, s, l, r.flags, n.addr32, head), e, own, end);
  }

  lemma BodyTarget(t: Tables, s: seq<Byte>, l: nat, head: nat, c: Inst, n: Mode, eip: Word, x: Operand, e: Decoded,
                   own: seq<Byte>, end: nat)
    requires head >= 1 && l + head <= |s| && Body(t, s, l, head, c, n, eip, x) == Some(e)
    requires c.name.Some? && IsRel(LastParam(c)) && ParamSize(LastParam(c), n) == |own|
    requires end == l + e.size && |own| <= end <= |s| && own == s[end - |own|..end]
    ensures Ends(e.text, Hex(Wrap(eip + e.size + RelOffset(LastParam(c), own, n)), if n.op32 then 8 else 4))
  {
    OwnIsLast(s, l + head, c, n, own, end);
    var b := TailAt(s, l + head, c, n);
    TailTarget(t, [Arg(c.name.value)], c, b, head, n, eip, x,
               Hex(Wrap(eip + e.size + RelOffset(LastParam(c), own, n)), if n.op32 then 8 else 4));
  }

  /** If d was decoded at p and ends with the bytes `own` of a relative parameter of row c, its text ends with the
      address of the byte after it plus the sign-extended offset, modulo 2^32. */
  predicate ShowsTarget(d: Option<Decoded>, s: seq<Byte>, p: nat, n: Mode, eip: Word, c: Inst, own: seq<Byte>,
                        end: nat) {
    d.Some? && end == p + d.value.size && |own| <= end <= |s| && own == s[end - |own|..end] ==>
      Ends(d.value.text, Hex(Wrap(eip + d.value.size + RelOffset(LastParam(c), own, n)), if n.op32 then 8 else 4))
  }

  lemma DecodeTarget(t: Tables, s: seq<Byte>, l: nat, n: Mode, eip: Word, c: Inst, own: seq<Byte>, end: nat)
    requires l < |s| && !IsPrefix(Row(t, s[l], n.two).flags)
             && c == Chosen(t, Row(t, s[l], n.two), At(s, l + 1), n.op32)
    requires c.name.Some? && IsRel(LastParam(c)) && ParamSize(LastParam(c), n) == |own|
    ensures ShowsTarget(Decode(t, s, l, n, eip), s, l, n, eip, c, own, end)
  {
    var r := Row(t, s[l], n.two);
    PlainStep(t, s, l, n, eip, r);
    var d := Plain(t, s, l, r, n, eip);
    if d.Some? && end == l + d.value.size && |own| <= end <= |s| && own == s[end - |own|..end] {
      PlainTarget(t, s, l, r, n, eip, c, d.value, own, end);
    }
  }

  /** What ends the text is "0x" and digits that, read as hexadecimal, denote the value. */
  lemma ShownHex(text: Text, v: Word, width: nat)
    requires Ends(text, Hex(v, width))
    ensures var digits := NumToStr(v, 16, false, width);
            Show(text) == Show(text[..|text| - 1]) + ("0x" + digits) && Value(digits, 16) == v
  {
    NumToStrDenotes(v, 16, false, width);
    ShowLast(text);
  }

  /** Why the parameter must be the last: with `later` bytes of the instruction still to come, what it prints is the
      target exactly if there are none. */
  lemma TargetIffLast(t: Tables, param: nat, b: seq<Byte>, m: Mode, eip: Word, size: nat, x: Operand, later: nat)
    requires IsRel(param) && later < TWO_32
    ensures var text := ParamText(t, param, b, m, eip, size, x);
            && |text| == 2 && text[1].Hex?
            && (text[1].v == Wrap(eip + (size + ParamSize(param, m) + later) + RelOffset(param, b, m)) <==> later == 0)
  {
    RelText(t, param, b, m, eip, size, x);
    SameWrapIff(eip + size + ParamSize(param, m) + RelOffset(param, b, m), later);
  }

  lemma SameWrapIff(x: int, n: nat)
    requires n < TWO_32
    ensures Wrap(x) == Wrap(x + n) <==> n == 0
  {
    WrapWrap(x, n);
    WrapNext(Wrap(x) + n);
    if Wrap(x) + n < TWO_32 { WrapSmall(Wrap(x) + n); }
  }

  lemma WrapNext(v: int)
    ensures TWO_32 <= v < 2 * TWO_32 ==> Wrap(v) == v - TWO_32
  {
  }

  // ----- How long the text gets -----

  predicate ShortFields(text: Text, max: nat) { forall i :: 0 <= i < |text| ==> |ShowField(text[i])| <= max }

  lemma {:induction false} ShowBound(text: Text, max: nat)
    requires ShortFields(text, max)
    ensures |Show(text)| <= |text| * max
    decreases |text|
  {
    if text != [] {
      assert forall i :: 0 <= i < |text| - 1 ==> text[1..][i] == text[i + 1];
      ShowBound(text[1..], max);
      assert |text| * max == max + (|text| - 1) * max;
    }
  }

  lemma ShowLit(s: string)
    ensures Show([Lit(s)]) == s
  {
    assert [Lit(s)][1..] == [];
  }

  lemma ShowOne(f: Field)
    ensures Show([f]) == ShowField(f)
  {
    assert [f][1..] == [];
  }

  lemma ShowTwo(f: Field, g: Field)
    ensures Show([f, g]) == ShowField(f) + ShowField(g)
  {
    ShowOne(f);
    ShowOne(g);
    ShowAppend([f], [g]);
  }

  lemma ShowThree(a: Text, b: Text, c: Text)
    ensures |Show(a + b + c)| == |Show(a)| + |Show(b)| + |Show(c)|
  {
    ShowAppend(a, b);
    ShowAppend(a + b, c);
  }

  /** Eight hexadecimal digits always suffice. */
  lemma HexFits(v: Word, width: nat)
    requires width <= 8
    ensures |HexStr(v, width)| <= 10
  {
    NumToStrDenotes(v, 16, false, width);
    PlacesBound(v, 16);
    assert Pow(16, 4) == 0x1_0000 && Pow(16, 8) == TWO_32;
    if Places(v, 16) > 8 { PowGrows(16, 8, Places(v, 16) - 9); }
  }

  /** One decimal digit. */
  lemma DecFits(n: Word)
    requires n < 10
    ensures |NumToStr(n, 10, true, 0)| <= 1
  {
    NumToStrDenotes(n, 10, true, 0);
    PlacesBound(n, 10);
  }

  lemma DispFits(v: Int32, width: nat)
    requires width <= 8
    ensures |Disp(v, width)| <= 11
  {
    HexFits(Abs(v), width);
  }

  /** A displacement is the sign, "0x" and at least `width` digits that, read as hexadecimal, denote its magnitude. */
  lemma DispDenotes(v: Int32, width: nat)
    ensures var s := Disp(v, width);
            && |s| >= 3 + width && s[..3] == (if v >= 0 then "+0x" else "-0x")
            && Value(s[3..], 16) == Abs(v)
  {
    var digits := NumToStr(Abs(v), 16, false, width);
    NumToStrDenotes(Abs(v), 16, false, width);
    Behind3(if v >= 0 then "+" else "-", digits);
  }

  lemma Behind3(sign: string, digits: string)
    requires |sign| == 1
    ensures var s := sign + ("0x" + digits); s[..3] == sign + "0x" && s[3..] == digits
  {
  }

  lemma SibFits(t: Tables, b: seq<Byte>, mod: nat)
    requires GoodNames(t)
    ensures |SibText(t, b, mod)| <= 18
  {
    HexFits(U32(b, 1), 8);
    DecFits(Factor(At(b, 0)));
  }

  lemma Disp16Fits(b: seq<Byte>, mod: nat)
    ensures |Disp16Text(b, mod)| <= 11
  {
    DispFits(Sign8(At(b, 0)), 2);
    DispFits(Sign16(U16(b, 0)), 4);
  }

  lemma Disp32Fits(b: seq<Byte>, i: nat, mod: nat)
    ensures |Disp32Text(b, i, mod)| <= 11
  {
    DispFits(Sign8(At(b, i)), 2);
    DispFits(Sign32(U32(b, i)), 8);
  }

  /** Whatever the bytes are, the operand text fits rm_str, its NUL included. */
  lemma RmFits(t: Tables, b: seq<Byte>, addr32: bool, mod: nat, rm: nat)
    requires GoodNames(t) && mod < 4 && rm < 8
    ensures |RmText(t, b, addr32, mod, rm)| + 1 <= 80
  {
    HexFits(U32(b, 0), 8);
    HexFits(U16(b, 0), 4);
    Disp16Fits(b, mod);
    Disp32Fits(b, 0, mod);
    Disp32Fits(b, SibSize(mod, At(b, 0)), mod);
    SibFits(t, b, mod);
  }

  /** The operand fields are those of some ModRM byte, or unused. */
  predicate Fine(x: Operand) { x.reg < 8 && x.rm < 8 && |x.text| < 80 }

  lemma OperandFine(t: Tables, modrm: Byte, b: seq<Byte>, addr32: bool)
    requires GoodNames(t)
    ensures Fine(OperandOf(t, modrm, b, addr32))
  {
    RmFits(t, b, addr32, Mod(modrm), Rm(modrm));
  }

  lemma HeadOperandFine(t: Tables, s: seq<Byte>, p: nat, flags: nat, addr32: bool, head: nat)
    requires GoodNames(t) && head == HeadSize(s, p, flags, addr32) && p + head <= |s|
    ensures Fine(HeadOperand(t, s, p, flags, addr32, head))
  {
    if HasModrm(flags) { OperandFine(t, s[p + 1], s[p + 2..p + head], addr32); }
  }

  /** What one parameter prints is not longer. */
  const PARAM_MAX := NAME_MAX + 100

  lemma SizeFits(size: nat)
    ensures |Show(SizeText(size))| <= 15
  {
    ShowBound(SizeText(size), 5);
  }

  lemma MemPrefixFits(t: Tables, size: nat, m: Mode)
    requires GoodNames(t) && m.seg < 8
    ensures |Show(MemPrefix(t, size, m))| <= NAME_MAX + 17
  {
    SizeFits(size);
    ShowLit("[");
    if m.over {
      ShowTwo(Arg(t.segs[m.seg]), Lit(":"));
      ShowThree(SizeText(size), [Arg(t.segs[m.seg]), Lit(":")], [Lit("[")]);
    } else {
      ShowAppend(SizeText(size), [Lit("[")]);
    }
  }

  lemma NameFits(name: string)
    ensures |Show(Name(name))| == |name| + 1
  {
    ShowTwo(Lit(" "), Arg(name));
  }

  lemma RmParamFits(t: Tables, size: nat, m: Mode, x: Operand)
    requires GoodNames(t) && m.seg < 8 && Fine(x)
    ensures |Show(RmParam(t, size, m, x))| <= PARAM_MAX
  {
    if x.memory {
      MemPrefixFits(t, size, m);
      ShowTwo(Arg(x.text), Lit("]"));
      ShowAppend(MemPrefix(t, size, m), [Arg(x.text), Lit("]")]);
    } else {
      NameFits(Pick(if size == 0 then t.regs8 else if size == 1 then t.regs16 else t.regs32, x.rm));
    }
  }

  lemma ModrmFits(t: Tables, param: nat, m: Mode, x: Operand)
    requires GoodNames(t) && m.seg < 8 && Fine(x) && UsesModrm(param)
    ensures |Show(ModrmText(t, param, m, x))| <= PARAM_MAX
  {
    if param == PARAM_RM8 || param == PARAM_RM16 || param == PARAM_RM32 || param == PARAM_RM {
      var size :=
        if param == PARAM_RM8 then 0 else if param == PARAM_RM16 then 1
        else if param == PARAM_RM32 || m.op32 then 2 else 1;
      RmParamFits(t, size, m, x);
    } else if param == PARAM_CREG || param == PARAM_DREG {
      DecFits(x.reg);
      ShowTwo(Lit(" CR"), Dec(x.reg));
      ShowTwo(Lit(" DR"), Dec(x.reg));
    } else {
      NameFits(if param == PARAM_SREG then t.segs[x.reg] else if param == PARAM_REG8 then t.regs8[x.reg]
               else if param == PARAM_REG && m.op32 then t.regs32[x.reg] else t.regs16[x.reg]);
    }
  }

  lemma HexFieldFits(v: Word, width: nat)
    requires width <= 8
    ensures |ShowField(Hex(v, width))| <= 11
  {
    HexFits(v, width);
  }

  lemma HexParamFits(v: Word, width: nat)
    requires width <= 8
    ensures |Show([Lit(" "), Hex(v, width)])| <= 12
  {
    HexFieldFits(v, width);
    ShowTwo(Lit(" "), Hex(v, width));
  }

  lemma AddrFits(b: seq<Byte>, m: Mode)
    ensures |Show(AddrText(b, m))| <= 44
  {
    if m.op32 {
      HexFieldFits(U32(b, 0), 8);
      HexFieldFits(U16(b, 4), 4);
    } else {
      HexFieldFits(U16(b, 0), 4);
      HexFieldFits(U16(b, 2), 4);
    }
    ShowBound(AddrText(b, m), 11);
  }

  lemma ImmFits(param: nat, b: seq<Byte>, m: Mode)
    ensures |Show(ImmText(param, b, m))| <= 44
  {
    if param == PARAM_I8 {
      DispFits(Sign8(At(b, 0)), 2);
      ShowTwo(Lit(" "), Signed(Sign8(At(b, 0)), 2));
    } else if param == PARAM_UI8 {
      HexParamFits(At(b, 0), 2);
    } else if param == PARAM_UI16 || (param == PARAM_IMM && !m.op32) {
      HexParamFits(U16(b, 0), 4);
    } else if param == PARAM_IMM {
      HexParamFits(U32(b, 0), 8);
    } else {
      AddrFits(b, m);
    }
  }

  lemma OffsetFits(t: Tables, b: seq<Byte>, m: Mode)
    requires GoodNames(t) && m.seg < 8
    ensures |Show(MemPrefix(t, 3, m) + [Offset(b, m), Lit("]")])| <= PARAM_MAX
  {
    HexFieldFits(U32(b, 0), 8);
    HexFieldFits(U16(b, 0), 4);
    MemPrefixFits(t, 3, m);
    ShowTwo(Offset(b, m), Lit("]"));
    ShowAppend(MemPrefix(t, 3, m), [Offset(b, m), Lit("]")]);
  }

  predicate IsFixed(param: nat) {
    PARAM_AL <= param <= PARAM_EDI || param == PARAM_DX || param == PARAM_1 || param == PARAM_SEGOVER
  }

  lemma FixedFits(t: Tables, param: nat, b: seq<Byte>, m: Mode, eip: Word, size: nat, x: Operand)
    requires GoodNames(t) && m.seg < 8 && IsFixed(param)
    ensures |Show(ParamText(t, param, b, m, eip, size, x))| <= PARAM_MAX
  {
    if PARAM_AL <= param <= PARAM_EDI {
      NameFits(if param <= PARAM_BH then t.regs8[param - PARAM_AL]
               else if m.op32 then t.regs32[param - PARAM_EAX]
               else t.regs16[param - PARAM_EAX]);
    } else {
      NameFits(t.segs[m.seg]);
      ShowLit(" DX");
      ShowLit(" 1");
    }
  }

  lemma ParamFits(t: Tables, param: nat, b: seq<Byte>, m: Mode, eip: Word, size: nat, x: Operand)
    requires GoodNames(t) && m.seg < 8 && Fine(x)
    ensures |Show(ParamText(t, param, b, m, eip, size, x))| <= PARAM_MAX
  {
    if UsesModrm(param) {
      ModrmFits(t, param, m, x);
    } else if param == PARAM_OFFSET {
      OffsetFits(t, b, m);
    } else if IsRel(param) {
      HexParamFits(Wrap(eip + size + ParamSize(param, m) + RelOffset(param, b, m)), if m.op32 then 8 else 4);
    } else if IsFixed(param) {
      FixedFits(t, param, b, m, eip, size, x);
    } else {
      ImmFits(param, b, m);
    }
  }

  lemma SlotFits(t: Tables, front: Text, comma: bool, param: nat, b: seq<Byte>, m: Mode, eip: Word, size: nat,
                 x: Operand)
    requires GoodNames(t) && m.seg < 8 && Fine(x)
    ensures |Show(Slot(t, front, comma, param, b, m, eip, size, x))| <= |Show(front)| + 1 + PARAM_MAX
  {
    ParamFits(t, param, b, m, eip, size, x);
    ShowLit(",");
    ShowAppend(front, [Lit(",")]);
    ShowAppend(if comma then front + [Lit(",")] else front, ParamText(t, param, b, m, eip, size, x));
  }

  lemma SourcesFit(t: Tables, front: Text, r: Inst, b: Tail, two: nat, m: Mode, eip: Word, x: Operand)
    requires GoodNames(t) && m.seg < 8 && Fine(x)
    ensures |Show(Sources(t, front, r, b, two, m, eip, x))| <= |Show(front)| + 2 * (1 + PARAM_MAX)
  {
    SlotFits(t, front, true, r.src1, b.two, m, eip, two, x);
    SlotFits(t, Slot(t, front, true, r.src1, b.two, m, eip, two, x), true, r.src2, b.three, m, eip,
             two + ParamSize(r.src1, m), x);
  }

  lemma TailFits(t: Tables, front: Text, r: Inst, b: Tail, head: nat, m: Mode, eip: Word, x: Operand)
    requires GoodNames(t) && m.seg < 8 && Fine(x)
    ensures |Show(TailText(t, front, r, b, head, m, eip, x))| <= |Show(front)| + 3 * (1 + PARAM_MAX)
  {
    SlotFits(t, front, false, r.dest, b.one, m, eip, head, x);
    SourcesFit(t, Slot(t, front, false, r.dest, b.one, m, eip, head, x), r, b, head + ParamSize(r.dest, m), m, eip, x);
  }

  /** The text of an instruction behind its prefixes never reaches the 65536 characters at which sprintf(str, "%s...",
      str) would lose it. */
  lemma BodyFits(t: Tables, s: seq<Byte>, p: nat, head: nat, c: Inst, m: Mode, eip: Word, x: Operand)
    requires GoodNames(t) && m.seg < 8 && Fine(x) && GoodParams(c)
    requires head >= 1 && p + head <= |s| && Body(t, s, p, head, c, m, eip, x).Some?
    ensures |Show(Body(t, s, p, head, c, m, eip, x).value.text)| < 0x1_0000
  {
    match c.name
    case None =>
      HexFieldFits(s[p], 2);
      ShowTwo(Lit("DB "), Hex(s[p], 2));
    case Some(name) =>
      TailFits(t, [Arg(name)], c, TailAt(s, p + head, c, m), head, m, eip, x);
      ShowOne(Arg(name));
  }

  // ----- Printing -----

  /** sprintf into a buffer that is not an argument. */
  method Sprintf(fs: Text) returns (s: string)
    requires AllProper(fs)
    ensures s == Show(fs)
  {
    RenderFormat(fs);
    s := Printf.Render(Format(fs), 0, Args(fs), 0);
  }

  /** The caller's buffer: what stands before the pointer `str`, and the string at it.  The string is what vsprintf and
      strcat leave there; `text` is what was meant to be printed. */
  class Output {
    var front: string
    var own: string
    ghost var text: Text

    /** Unless the text has become too long for the 16-bit lengths of vsprintf, it is what the buffer holds. */
    ghost predicate Valid()
      reads this
    {
      |Show(text)| < 0x1_0000 ==> own == Show(text)
    }

    constructor ()
      ensures Valid() && front == "" && own == "" && text == []
    {
      front, own, text := "", "", [];
    }

    /** sprintf(str, ...): what was in the buffer from `str` on is gone. */
    method Put(fs: Text)
      requires AllProper(fs)
      modifies this`own, this`text
      ensures text == fs && own == Show(fs) && Valid()
    {
      own := Sprintf(fs);
      text := fs;
    }

    /** sprintf(str, "%s...", str, ...). */
    method Append(fs: Text)
      requires AllProper(fs) && Valid()
      modifies this`own, this`text
      ensures Valid() && text == old(text) + fs
    {
      InPlaceIff(own, fs);
      ShowAppend(text, fs);
      own := Printf.Render("%s" + Format(fs), 0, [Printf.VStr(own)] + Args(fs), 0);
      text := text + fs;
    }

    /** strcat(str, s). */
    method Strcat(s: string)
      requires Valid()
      modifies this`own, this`text
      ensures Valid() && text == old(text) + [Lit(s)]
    {
      ShowAppend(text, [Lit(s)]);
      ShowLit(s);
      own := own + s;
      text := text + [Lit(s)];
    }

    /** str += sprintf(str, ...), behind that call. */
    method Advance()
      modifies this
      ensures Valid() && front == old(front) + old(own) && own == "" && text == []
    {
      front, own, text := front + own, "", [];
    }
  }

  /** sprintf(buf, "0x%0<width>X", v). */
  method PrintHex(v: Word, width: nat) returns (s: string)
    requires 0 < width < 10
    ensures s == HexStr(v, width)
  {
    s := Sprintf([Hex(v, width)]);
    ShowOne(Hex(v, width));
  }

  /** pdisp8, pdisp16, pdisp32: a signed displacement. */
  method Pdisp(num: Int32, width: nat) returns (s: string)
    requires 0 < width < 10
    ensures s == Disp(num, width)
  {
    if num >= 0 {
      s := Sprintf([Lit("+"), Hex(num, width)]);
      ShowTwo(Lit("+"), Hex(num, width));
    } else {
      s := Sprintf([Lit("-"), Hex(Abs(num), width)]);
      ShowTwo(Lit("-"), Hex(Abs(num), width));
    }
  }

  lemma SliceAt(s: seq<Byte>, q: nat, n: nat, i: nat)
    requires q + n <= |s| && i < n
    ensures At(s[q..q + n], i) == s[q + i]
  {
  }

  lemma SliceU16(s: seq<Byte>, q: nat, n: nat, i: nat)
    requires q + n <= |s| && i + 2 <= n
    ensures U16(s[q..q + n], i) == U16(s, q + i)
  {
  }

  lemma SliceU32(s: seq<Byte>, q: nat, n: nat, i: nat)
    requires q + n <= |s| && i + 4 <= n
    ensures U32(s[q..q + n], i) == U32(s, q + i)
  {
  }

  /** The displacement of a 16-bit operand, if it has one. */
  method Disp16(data: seq<Byte>, q: nat, mod: nat) returns (disp: string, sz: nat)
    requires mod < 3 && q + mod <= |data|
    ensures sz == mod && (mod > 0 ==> disp == Disp16Text(data[q..q + sz], mod))
  {
    disp, sz := "", mod;
    if mod == 1 {
      disp := Pdisp(Sign8(data[q]), 2);
      SliceAt(data, q, sz, 0);
    } else if mod == 2 {
      disp := Pdisp(Sign16(U16(data, q)), 4);
      SliceU16(data, q, sz, 0);
    }
  }

  /** The index register and scale of decode_sib. */
  method SibIndex(t: Tables, sib: Byte) returns (index: string)
    requires GoodNames(t)
    ensures index == IndexText(t, sib)
  {
    var reg := t.regs32[Reg(sib)];
    ShowTwo(Lit("+"), Arg(reg));
    if Mod(sib) == 0 {
      index := Sprintf([Lit("+"), Arg(reg)]);
    } else {
      index := Sprintf([Lit("+"), Arg(reg)] + [Lit("*"), Dec(Factor(sib))]);
      ShowTwo(Lit("*"), Dec(Factor(sib)));
      ShowAppend([Lit("+"), Arg(reg)], [Lit("*"), Dec(Factor(sib))]);
    }
  }

  /** What stands before the displacement of a 32-bit memory operand, and how many bytes it takes. */
  lemma Rm32Is(t: Tables, b: seq<Byte>, mod: nat, rm: nat, base: string, i: nat)
    requires mod < 3 && i == if rm == 4 then SibSize(mod, At(b, 0)) else if rm == 5 && mod == 0 then 4 else 0
    requires base == if rm == 4 then SibText(t, b, mod)
                     else if rm == 5 && mod == 0 then HexStr(U32(b, 0), 8)
                     else Pick(t.regs32, rm)
    ensures RmText(t, b, true, mod, rm) == WithDisp32(base, b, i, mod)
  {
  }

  /** disasm_state_t. */
  class State {
    var size: nat
    var memory: bool
    var modrm: Byte
    var mod: nat
    var reg: Byte
    var rm: Byte
    var rmStr: string

    /** An uninitialised structure. */
    constructor ()
    {
    }

    /** addr_sz ? decode_rm_32(...) : decode_rm_16(...). */
    method DecodeRm(t: Tables, data: seq<Byte>, q: nat, addr32: bool) returns (sz: nat)
      requires GoodNames(t) && mod < 4 && rm < 8 && q + RmSize(addr32, mod, rm, At(data, q)) <= |data|
      modifies this`rmStr, this`memory
      ensures sz == RmSize(addr32, mod, rm, At(data, q)) && memory == (mod != 3)
      ensures rmStr == RmText(t, data[q..q + sz], addr32, mod, rm)
    {
      if addr32 { sz := DecodeRm32(t, data, q); } else { sz := DecodeRm16(t, data, q); }
    }

    /** decode_rm_16. */
    method DecodeRm16(t: Tables, data: seq<Byte>, q: nat) returns (sz: nat)
      requires GoodNames(t) && mod < 4 && rm < 8 && q + RmSize(false, mod, rm, At(data, q)) <= |data|
      modifies this`rmStr, this`memory
      ensures sz == RmSize(false, mod, rm, At(data, q)) && memory == (mod != 3)
      ensures rmStr == RmText(t, data[q..q + sz], false, mod, rm)
    {
      sz := 0;
      rmStr := "";
      if mod == 3 {
        memory := false;
        return;
      }
      memory := true;
      var disp;
      disp, sz := Disp16(data, q, mod);
      if rm == 6 && mod == 0 {
        rmStr := PrintHex(U16(data, q), 4);
        sz := sz + 2;
        SliceU16(data, q, sz, 0);
      } else {
        rmStr := t.rm16[rm];
        if mod == 1 || mod == 2 { rmStr := rmStr + disp; }
      }
    }

    /** decode_sib, which decode_rm_32 calls with an empty rm_str. */
    method DecodeSib(t: Tables, data: seq<Byte>, q: nat) returns (sz: nat)
      requires GoodNames(t) && q < |data| && q + SibSize(mod, data[q]) <= |data|
      modifies this`rmStr
      ensures sz == SibSize(mod, data[q])
      ensures rmStr == SibText(t, data[q..q + sz], mod)
    {
      sz := 1;
      var sib := data[q];
      if Rm(sib) == 5 && mod == 0 {
        rmStr := PrintHex(U32(data, q + 1), 8);
        sz := sz + 4;
        SliceU32(data, q, sz, 1);
      } else {
        rmStr := t.regs32[Rm(sib)];
      }
      SliceAt(data, q, sz, 0);
      if Reg(sib) != 4 {
        var index := SibIndex(t, sib);
        rmStr := rmStr + index;
      }
    }

    /** decode_rm_32. */
    method DecodeRm32(t: Tables, data: seq<Byte>, q: nat) returns (sz: nat)
      requires GoodNames(t) && mod < 4 && rm < 8 && q + RmSize(true, mod, rm, At(data, q)) <= |data|
      modifies this`rmStr, this`memory
      ensures sz == RmSize(true, mod, rm, At(data, q)) && memory == (mod != 3)
      ensures rmStr == RmText(t, data[q..q + sz], true, mod, rm)
    {
      sz := 0;
      rmStr := "";
      if mod == 3 {
        memory := false;
        return;
      }
      memory := true;
      ghost var n := RmSize(true, mod, rm, At(data, q));
      sz := Base32(t, data, q, n);
      Rm32Is(t, data[q..q + n], mod, rm, rmStr, sz);
      sz := AddDisp(data, q, sz, n);
    }

    /** The second switch of decode_rm_32. */
    method Base32(t: Tables, data: seq<Byte>, q: nat, ghost n: nat) returns (sz: nat)
      requires GoodNames(t) && mod < 3 && rm < 8 && n == RmSize(true, mod, rm, At(data, q)) && q + n <= |data|
      modifies this`rmStr
      ensures var b := data[q..q + n];
              && sz == (if rm == 4 then SibSize(mod, At(b, 0)) else if rm == 5 && mod == 0 then 4 else 0)
              && rmStr == (if rm == 4 then SibText(t, b, mod)
                           else if rm == 5 && mod == 0 then HexStr(U32(b, 0), 8)
                           else Pick(t.regs32, rm))
    {
      sz := 0;
      if rm == 4 {
        sz := DecodeSib(t, data, q);
        SibPrefix(t, data, q, sz, n, mod);
      } else if rm == 5 && mod == 0 {
        rmStr := PrintHex(U32(data, q), 8);
        sz := sz + 4;
        SliceU32(data, q, n, 0);
      } else {
        rmStr := t.regs32[rm];
      }
    }

    /** The displacement at the end of decode_rm_32. */
    method AddDisp(data: seq<Byte>, q: nat, from: nat, ghost n: nat) returns (sz: nat)
      requires mod < 3 && n == from + (if mod == 1 then 1 else if mod == 2 then 4 else 0) && q + n <= |data|
      modifies this`rmStr
      ensures sz == n && rmStr == WithDisp32(old(rmStr), data[q..q + n], from, mod)
    {
      sz := from;
      if mod == 1 {
        var disp := Pdisp(Sign8(data[q + sz]), 2);
        SliceAt(data, q, n, from);
        sz := sz + 1;
        rmStr := rmStr + disp;
      } else if mod == 2 {
        var disp := Pdisp(Sign32(U32(data, q + sz)), 8);
        SliceU32(data, q, n, from);
        sz := sz + 4;
        rmStr := rmStr + disp;
      }
    }
  }

  /** A SIB byte reads only its own bytes. */
  lemma SibPrefix(t: Tables, s: seq<Byte>, q: nat, n: nat, n': nat, mod: nat)
    requires q < |s| && n == SibSize(mod, s[q]) && n <= n' && q + n' <= |s|
    ensures SibText(t, s[q..q + n], mod) == SibText(t, s[q..q + n'], mod) && SibSize(mod, At(s[q..q + n'], 0)) == n
  {
    SliceAt(s, q, n, 0);
    SliceAt(s, q, n', 0);
    if n == 5 { SliceU32(s, q, n, 1); SliceU32(s, q, n', 1); }
  }

  lemma Gather(front: Text, a: Text, b: Text, c: Text)
    ensures front + a + b + c == front + (a + b + c)
  {
  }

  lemma NameFirst(front: Text, name: Text, tail: Text)
    ensures front + name + tail == front + (name + tail)
  {
  }

  /** The size word of add_mem_prefix. */
  method AddSize(out: Output, size: nat)
    requires out.Valid()
    modifies out`own, out`text
    ensures out.Valid() && out.text == old(out.text) + SizeText(size)
  {
    if size <= 2 {
      var word := if size == 0 then "BYTE" else if size == 1 then "WORD" else "DWORD";
      out.Append([Lit(" "), Arg(word), Lit(" ")]);
    } else {
      out.Strcat(" ");
    }
  }

  /** add_mem_prefix. */
  method AddMemPrefix(t: Tables, out: Output, size: nat, m: Mode)
    requires GoodNames(t) && m.seg < 8 && out.Valid()
    modifies out`own, out`text
    ensures out.Valid() && out.text == old(out.text) + MemPrefix(t, size, m)
  {
    ghost var front := out.text;
    AddSize(out, size);
    if m.over {
      out.Append([Arg(t.segs[m.seg]), Lit(":")]);
      Gather(front, SizeText(size), [Arg(t.segs[m.seg]), Lit(":")], [Lit("[")]);
    } else {
      NameFirst(front, SizeText(size), [Lit("[")]);
    }
    out.Strcat("[");
  }

  /** add_rm. */
  method AddRm(t: Tables, out: Output, size: nat, m: Mode, st: State)
    requires GoodNames(t) && m.seg < 8 && Fine(OperandIn(st)) && out.Valid()
    modifies out`own, out`text
    ensures out.Valid() && out.text == old(out.text) + RmParam(t, size, m, OperandIn(st))
  {
    if !st.memory {
      out.Append(Name((if size == 0 then t.regs8 else if size == 1 then t.regs16 else t.regs32)[st.rm]));
    } else {
      ghost var front := out.text;
      AddMemPrefix(t, out, size, m);
      out.Append([Arg(st.rmStr), Lit("]")]);
      NameFirst(front, MemPrefix(t, size, m), [Arg(st.rmStr), Lit("]")]);
    }
  }

  /** The cases of add_param that use the ModRM byte. */
  method AddModrm(t: Tables, param: nat, out: Output, m: Mode, st: State)
    requires GoodNames(t) && m.seg < 8 && Fine(OperandIn(st)) && UsesModrm(param) && out.Valid()
    modifies out`own, out`text
    ensures out.Valid() && out.text == old(out.text) + ModrmText(t, param, m, OperandIn(st))
  {
    if param == PARAM_RM8 {
      AddRm(t, out, 0, m, st);
    } else if param == PARAM_RM16 {
      AddRm(t, out, 1, m, st);
    } else if param == PARAM_RM32 {
      AddRm(t, out, 2, m, st);
    } else if param == PARAM_RM {
      AddRm(t, out, if m.op32 then 2 else 1, m, st);
    } else {
      AddReg(t, param, out, m, st);
    }
  }

  /** The cases of add_param that use the reg field. */
  method AddReg(t: Tables, param: nat, out: Output, m: Mode, st: State)
    requires GoodNames(t) && Fine(OperandIn(st)) && out.Valid() && UsesModrm(param)
    requires param != PARAM_RM8 && param != PARAM_RM16 && param != PARAM_RM32 && param != PARAM_RM
    modifies out`own, out`text
    ensures out.Valid() && out.text == old(out.text) + ModrmText(t, param, m, OperandIn(st))
  {
    if param == PARAM_CREG {
      out.Append([Lit(" CR"), Dec(st.reg)]);
    } else if param == PARAM_DREG {
      out.Append([Lit(" DR"), Dec(st.reg)]);
    } else {
      out.Append(Name(if param == PARAM_REG8 then t.regs8[st.reg]
                      else if param == PARAM_REG16 || (param == PARAM_REG && !m.op32) then t.regs16[st.reg]
                      else if param == PARAM_REG then t.regs32[st.reg]
                      else t.segs[st.reg]));
    }
  }

  /** The cases of add_param for immediate operands of a byte. */
  method AddByte(param: nat, out: Output, data: seq<Byte>, q: nat, m: Mode) returns (sz: nat)
    requires param == PARAM_I8 || param == PARAM_UI8
    requires q + ParamSize(param, m) <= |data| && out.Valid()
    modifies out`own, out`text
    ensures sz == ParamSize(param, m) && out.Valid() && out.text == old(out.text) + ImmText(param, data[q..q + sz], m)
  {
    sz := 1;
    SliceAt(data, q, sz, 0);
    if param == PARAM_I8 {
      DispFits(Sign8(data[q]), 2);
      out.Append([Lit(" "), Signed(Sign8(data[q]), 2)]);
    } else {
      out.Append([Lit(" "), Hex(data[q], 2)]);
    }
  }

  /** The cases of add_param for longer immediate operands. */
  method AddImm(param: nat, out: Output, data: seq<Byte>, q: nat, m: Mode) returns (sz: nat)
    requires param == PARAM_UI16 || param == PARAM_IMM
    requires q + ParamSize(param, m) <= |data| && out.Valid()
    modifies out`own, out`text
    ensures sz == ParamSize(param, m) && out.Valid() && out.text == old(out.text) + ImmText(param, data[q..q + sz], m)
  {
    if param == PARAM_UI16 || !m.op32 {
      sz := 2;
      SliceU16(data, q, sz, 0);
      out.Append([Lit(" "), Hex(U16(data, q), 4)]);
    } else {
      sz := 4;
      SliceU32(data, q, sz, 0);
      out.Append([Lit(" "), Hex(U32(data, q), 8)]);
    }
  }

  lemma AddrAt(data: seq<Byte>, q: nat, m: Mode, sz: nat, segment: Field, offset: Field)
    requires sz == ParamSize(PARAM_ADDR, m) && q + sz <= |data|
    requires segment == Hex(U16(data, if m.op32 then q + 4 else q + 2), 4)
    requires offset == if m.op32 then Hex(U32(data, q), 8) else Hex(U16(data, q), 4)
    ensures AddrText(data[q..q + sz], m) == [Lit(" "), segment, Lit(":"), offset]
  {
    SliceU16(data, q, sz, if m.op32 then 4 else 2);
    if m.op32 { SliceU32(data, q, sz, 0); } else { SliceU16(data, q, sz, 0); }
  }

  /** The PARAM_ADDR case of add_param. */
  method AddAddr(out: Output, data: seq<Byte>, q: nat, m: Mode) returns (sz: nat)
    requires q + ParamSize(PARAM_ADDR, m) <= |data| && out.Valid()
    modifies out`own, out`text
    ensures sz == ParamSize(PARAM_ADDR, m) && out.Valid() && out.text == old(out.text) + AddrText(data[q..q + sz], m)
  {
    sz := if m.op32 then 6 else 4;
    var segment := Hex(U16(data, if m.op32 then q + 4 else q + 2), 4);
    var offset := if m.op32 then Hex(U32(data, q), 8) else Hex(U16(data, q), 4);
    AddrAt(data, q, m, sz, segment, offset);
    out.Append([Lit(" "), segment, Lit(":"), offset]);
  }

  /** The cases of add_param that print bytes of the instruction and nothing else. */
  method AddConstant(param: nat, out: Output, data: seq<Byte>, q: nat, m: Mode) returns (sz: nat)
    requires PARAM_UI8 <= param <= PARAM_IMM || param == PARAM_UI16 || param == PARAM_ADDR
    requires q + ParamSize(param, m) <= |data| && out.Valid()
    modifies out`own, out`text
    ensures sz == ParamSize(param, m) && out.Valid() && out.text == old(out.text) + ImmText(param, data[q..q + sz], m)
  {
    if param == PARAM_ADDR {
      sz := AddAddr(out, data, q, m);
    } else if param == PARAM_I8 || param == PARAM_UI8 {
      sz := AddByte(param, out, data, q, m);
    } else {
      sz := AddImm(param, out, data, q, m);
    }
  }

  lemma OffsetAt(param: nat, data: seq<Byte>, q: nat, m: Mode, sz: nat, offset: Int32)
    requires IsRel(param) && sz == ParamSize(param, m) && q + sz <= |data|
    requires offset == if param == PARAM_REL8 then Sign8(data[q])
                       else if m.op32 then Sign32(U32(data, q)) else Sign16(U16(data, q))
    ensures RelOffset(param, data[q..q + sz], m) == offset
  {
    if param == PARAM_REL8 {
      SliceAt(data, q, sz, 0);
    } else if m.op32 {
      SliceU32(data, q, sz, 0);
    } else {
      SliceU16(data, q, sz, 0);
    }
  }

  /** The cases of add_param for relative operands: `before` is state->size. */
  method AddRel(param: nat, out: Output, data: seq<Byte>, q: nat, m: Mode, eip: Word, before: nat) returns (sz: nat)
    requires IsRel(param) && q + ParamSize(param, m) <= |data| && out.Valid()
    modifies out`own, out`text
    ensures sz == ParamSize(param, m) && out.Valid()
    ensures out.text == old(out.text) + [Lit(" "),
                                         Hex(Wrap(eip + before + sz + RelOffset(param, data[q..q + sz], m)),
                                             if m.op32 then 8 else 4)]
  {
    var offset;
    if param == PARAM_REL8 {
      sz := 1;
      offset := Sign8(data[q]);
    } else if m.op32 {
      sz := 4;
      offset := Sign32(U32(data, q));
    } else {
      sz := 2;
      offset := Sign16(U16(data, q));
    }
    OffsetAt(param, data, q, m, sz, offset);
    out.Append([Lit(" "), Hex(Wrap(eip + before + sz + offset), if m.op32 then 8 else 4)]);
  }

  /** The PARAM_OFFSET case of add_param. */
  method AddOffset(t: Tables, out: Output, data: seq<Byte>, q: nat, m: Mode) returns (sz: nat)
    requires GoodNames(t) && m.seg < 8 && q + ParamSize(PARAM_OFFSET, m) <= |data| && out.Valid()
    modifies out`own, out`text
    ensures sz == ParamSize(PARAM_OFFSET, m) && out.Valid()
    ensures var b := data[q..q + sz];
            out.text == old(out.text) + (MemPrefix(t, 3, m) + [Offset(b, m), Lit("]")])
  {
    ghost var front := out.text;
    AddMemPrefix(t, out, 3, m);
    var offset;
    if m.addr32 {
      sz := 4;
      SliceU32(data, q, sz, 0);
      offset := Hex(U32(data, q), 8);
    } else {
      sz := 2;
      SliceU16(data, q, sz, 0);
      offset := Hex(U16(data, q), 4);
    }
    out.Append([offset]);
    out.Strcat("]");
    Bracketed(front, MemPrefix(t, 3, m), offset, Lit("]"));
  }

  lemma Bracketed(front: Text, pre: Text, a: Field, b: Field)
    ensures front + pre + [a] + [b] == front + (pre + [a, b])
  {
  }

  /** The cases of add_param that take no bytes and no ModRM byte. */
  method AddFixed(t: Tables, param: nat, out: Output, m: Mode, ghost text: Text)
    requires GoodNames(t) && m.seg < 8 && IsFixed(param) && out.Valid()
    requires text == ParamText(t, param, [], m, 0, 0, NO_OPERAND)
    modifies out`own, out`text
    ensures out.Valid() && out.text == old(out.text) + text
  {
    if PARAM_AL <= param <= PARAM_BH {
      out.Append(Name(t.regs8[param - PARAM_AL]));
    } else if PARAM_EAX <= param <= PARAM_EDI {
      out.Append(Name(if m.op32 then t.regs32[param - PARAM_EAX] else t.regs16[param - PARAM_EAX]));
    } else if param == PARAM_DX {
      out.Strcat(" DX");
    } else if param == PARAM_1 {
      out.Strcat(" 1");
    } else if m.over {
      out.Append(Name(t.segs[m.seg]));
    }
  }

  lemma FixedText(t: Tables, param: nat, b: seq<Byte>, m: Mode, eip: Word, size: nat, x: Operand)
    requires IsFixed(param)
    ensures ParamText(t, param, b, m, eip, size, x) == ParamText(t, param, [], m, 0, 0, NO_OPERAND)
  {
  }

  /** add_param: prints the parameter whose bytes start at data[q], and counts them. */
  method AddParam(t: Tables, param: nat, out: Output, data: seq<Byte>, q: nat, m: Mode, eip: Word, st: State)
    returns (sz: nat)
    requires GoodNames(t) && m.seg < 8 && 0 < param <= PARAM_DREG && q + ParamSize(param, m) <= |data| && out.Valid()
    requires UsesModrm(param) ==> Fine(OperandIn(st))
    modifies out`own, out`text, st`size
    ensures sz == ParamSize(param, m) && st.size == old(st.size) + sz
    ensures out.Valid()
            && out.text == old(out.text) + ParamText(t, param, data[q..q + sz], m, eip, old(st.size), OperandIn(st))
  {
    if UsesModrm(param) {
      AddModrm(t, param, out, m, st);
      sz := 0;
    } else {
      sz := AddOther(t, param, out, data, q, m, eip, st.size, OperandIn(st));
    }
    st.size := st.size + sz;
  }

  lemma OffsetText(t: Tables, b: seq<Byte>, m: Mode, eip: Word, size: nat, x: Operand)
    ensures ParamText(t, PARAM_OFFSET, b, m, eip, size, x) == MemPrefix(t, 3, m) + [Offset(b, m), Lit("]")]
  {
  }

  lemma ConstantText(t: Tables, param: nat, b: seq<Byte>, m: Mode, eip: Word, size: nat, x: Operand)
    requires PARAM_UI8 <= param <= PARAM_IMM || param == PARAM_UI16 || param == PARAM_ADDR
    ensures ParamText(t, param, b, m, eip, size, x) == ImmText(param, b, m)
  {
  }

  /** The cases of add_param that do not use the ModRM byte; they print the same whatever x is. */
  method AddOther(t: Tables, param: nat, out: Output, data: seq<Byte>, q: nat, m: Mode, eip: Word, size: nat,
                  ghost x: Operand)
    returns (sz: nat)
    requires GoodNames(t) && m.seg < 8 && 0 < param <= PARAM_DREG && q + ParamSize(param, m) <= |data| && out.Valid()
    requires !UsesModrm(param)
    modifies out`own, out`text
    ensures sz == ParamSize(param, m)
    ensures out.Valid() && out.text == old(out.text) + ParamText(t, param, data[q..q + sz], m, eip, size, x)
  {
    if IsRel(param) {
      sz := AddRel(param, out, data, q, m, eip, size);
      RelText(t, param, data[q..q + sz], m, eip, size, x);
    } else if param == PARAM_OFFSET {
      sz := AddOffset(t, out, data, q, m);
      OffsetText(t, data[q..q + sz], m, eip, size, x);
    } else if IsFixed(param) {
      AddFixed(t, param, out, m, ParamText(t, param, [], m, 0, 0, NO_OPERAND));
      FixedText(t, param, data[q..q], m, eip, size, x);
      sz := 0;
    } else {
      sz := AddConstant(param, out, data, q, m);
      ConstantText(t, param, data[q..q + sz], m, eip, size, x);
    }
  }

  function OperandIn(st: State): Operand
    reads st
  {
    Operand(st.memory, st.reg, st.rm, st.rmStr)
  }

  predicate RowUsesModrm(r: Inst) { UsesModrm(r.dest) || UsesModrm(r.src1) || UsesModrm(r.src2) }

  lemma SlotIgnoresRm(t: Tables, front: Text, comma: bool, param: nat, b: seq<Byte>, m: Mode, eip: Word, size: nat,
                      x: Operand, y: Operand)
    requires !UsesModrm(param)
    ensures Slot(t, front, comma, param, b, m, eip, size, x) == Slot(t, front, comma, param, b, m, eip, size, y)
  {
  }

  /** A row that does not use the ModRM byte prints the same whatever the operand fields hold, initialised or not. */
  lemma TailIgnoresRm(t: Tables, front: Text, r: Inst, b: Tail, head: nat, m: Mode, eip: Word, x: Operand, y: Operand)
    requires RowUsesModrm(r) ==> x == y
    ensures TailText(t, front, r, b, head, m, eip, x) == TailText(t, front, r, b, head, m, eip, y)
  {
    if !RowUsesModrm(r) {
      var two := head + ParamSize(r.dest, m);
      var first := Slot(t, front, false, r.dest, b.one, m, eip, head, x);
      var second := Slot(t, first, true, r.src1, b.two, m, eip, two, x);
      SlotIgnoresRm(t, front, false, r.dest, b.one, m, eip, head, x, y);
      SlotIgnoresRm(t, first, true, r.src1, b.two, m, eip, two, x, y);
      SlotIgnoresRm(t, second, true, r.src2, b.three, m, eip, two + ParamSize(r.src1, m), x, y);
    }
  }

  /** One parameter of a row, if it has it, after a comma unless it is the first; returns where the data pointer is
      left. */
  method AddSlot(t: Tables, comma: bool, param: nat, out: Output, data: seq<Byte>, q: nat, m: Mode, eip: Word,
                 st: State, ghost b: seq<Byte>, ghost size: nat, ghost x: Operand)
    returns (q': nat)
    requires GoodNames(t) && m.seg < 8 && param <= PARAM_DREG && q + ParamSize(param, m) <= |data| && out.Valid()
    requires b == data[q..q + ParamSize(param, m)] && size == st.size && x == OperandIn(st)
             && (UsesModrm(param) ==> Fine(x))
    modifies out`own, out`text, st`size
    ensures q' == q + ParamSize(param, m) && st.size == old(st.size) + ParamSize(param, m)
    ensures out.Valid() && out.text == Slot(t, old(out.text), comma, param, b, m, eip, size, x)
  {
    q' := q;
    if param != 0 {
      if comma { out.Append([Lit(",")]); }
      var sz := AddParam(t, param, out, data, q, m, eip, st);
      q' := q + sz;
    }
  }

  /** The second and third parameter of a row. */
  method PrintSources(t: Tables, out: Output, data: seq<Byte>, q: nat, c: Inst, m: Mode, eip: Word, st: State,
                      ghost b: Tail, ghost two: nat, ghost x: Operand)
    requires GoodNames(t) && m.seg < 8 && GoodParams(c) && q + ParamSize(c.src1, m) + ParamSize(c.src2, m) <= |data|
             && out.Valid()
    requires var q2 := q + ParamSize(c.src1, m); b.two == data[q..q2] && b.three == data[q2..q2 + ParamSize(c.src2, m)]
    requires two == st.size && x == OperandIn(st) && (RowUsesModrm(c) ==> Fine(x))
    modifies out`own, out`text, st`size
    ensures st.size == two + ParamSize(c.src1, m) + ParamSize(c.src2, m)
    ensures out.Valid() && out.text == Sources(t, old(out.text), c, b, two, m, eip, x)
  {
    var q' := AddSlot(t, true, c.src1, out, data, q, m, eip, st, b.two, two, x);
    q' := AddSlot(t, true, c.src2, out, data, q', m, eip, st, b.three, two + ParamSize(c.src1, m), x);
  }

  /** The parameters of a row. */
  method PrintParams(t: Tables, out: Output, data: seq<Byte>, q: nat, c: Inst, m: Mode, eip: Word, st: State,
                     ghost b: Tail, ghost x: Operand)
    requires GoodNames(t) && m.seg < 8 && GoodParams(c) && q + TailSize(c, m) <= |data| && out.Valid()
    requires b == TailAt(data, q, c, m) && x == OperandIn(st) && (RowUsesModrm(c) ==> Fine(x))
    modifies out`own, out`text, st`size
    ensures st.size == old(st.size) + TailSize(c, m)
    ensures out.Valid() && out.text == TailText(t, old(out.text), c, b, old(st.size), m, eip, x)
  {
    ghost var two := st.size + ParamSize(c.dest, m);
    var q' := AddSlot(t, false, c.dest, out, data, q, m, eip, st, b.one, st.size, x);
    PrintSources(t, out, data, q', c, m, eip, st, b, two, x);
  }

  lemma HeadOperandIs(t: Tables, s: seq<Byte>, p: nat, flags: nat, addr32: bool, head: nat, x: Operand)
    requires HasModrm(flags) && head == HeadSize(s, p, flags, addr32) && p + head <= |s|
    requires x == OperandOf(t, s[p + 1], s[p + 2..p + head], addr32)
    ensures x == HeadOperand(t, s, p, flags, addr32, head)
  {
  }

  /** Reads the ModRM byte and its operand; returns where the data pointer is left. */
  method ReadModrm(t: Tables, data: seq<Byte>, p: nat, q: nat, flags: nat, addr32: bool, st: State) returns (q': nat)
    requires GoodNames(t) && HasModrm(flags) && q == p + 1 && p + HeadSize(data, p, flags, addr32) <= |data|
             && st.size == 1
    modifies st
    ensures q' == p + HeadSize(data, p, flags, addr32) && st.size == q' - p
    ensures st.reg == Reg(data[q]) && OperandIn(st) == HeadOperand(t, data, p, flags, addr32, q' - p)
  {
    st.modrm := data[q];
    st.size := st.size + 1;
    st.mod := Mod(st.modrm);
    st.reg := Reg(st.modrm);
    st.rm := Rm(st.modrm);
    var size := st.DecodeRm(t, data, q + 1, addr32);
    st.size := st.size + size;
    q' := q + 1 + size;
    HeadOperandIs(t, data, p, flags, addr32, q' - p, OperandIn(st));
  }

  lemma ChosenGood(t: Tables, r: Inst, modrm: Byte, op32: bool)
    requires WellFormed(t) && GoodRow(r)
    ensures var c := Chosen(t, r, modrm, op32); GoodParams(c) && (RowUsesModrm(c) ==> HasModrm(r.flags))
  {
  }

  /** The switch of disasm_opcode for an opcode that is not a prefix: reads what stands before the parameters, and
      chooses the row to print. */
  method ReadHead(t: Tables, data: seq<Byte>, p: nat, r: Inst, m: Mode, st: State) returns (q: nat, c: Inst)
    requires WellFormed(t) && GoodRow(r) && p < |data| && p + HeadSize(data, p, r.flags, m.addr32) <= |data|
             && st.size == 1
    modifies st
    ensures q == p + HeadSize(data, p, r.flags, m.addr32) && st.size == q - p
    ensures c == Chosen(t, r, At(data, p + 1), m.op32)
    ensures HasModrm(r.flags) ==> OperandIn(st) == HeadOperand(t, data, p, r.flags, m.addr32, q - p)
  {
    q := p + 1;
    if HasModrm(r.flags) {
      q := ReadModrm(t, data, p, q, r.flags, m.addr32, st);
    }
    c := Choose(t, r, st.reg, At(data, p + 1), m);
  }

  /** The row to print: the one of the reg field for a group, the second name for a VAR_NAME row. */
  method Choose(t: Tables, r: Inst, reg: Byte, ghost modrm: Byte, m: Mode) returns (c: Inst)
    requires HasModrm(r.flags) ==> reg == Reg(modrm)
    ensures c == Chosen(t, r, modrm, m.op32)
  {
    c := r;
    if IsGroup(r.flags) {
      c := t.groups[r.flags - GROUP80][reg];
    } else if r.flags == VAR_NAME && m.op32 {
      c := c.(name := Some(c.wide));
    }
  }

  /** The row's name, then its parameters. */
  method PrintNamed(t: Tables, out: Output, data: seq<Byte>, q: nat, c: Inst, name: string, m: Mode, eip: Word,
                    st: State, ghost b: Tail, ghost x: Operand)
    requires GoodNames(t) && m.seg < 8 && GoodParams(c) && c.name == Some(name) && q + TailSize(c, m) <= |data|
    requires b == TailAt(data, q, c, m) && x == OperandIn(st) && (RowUsesModrm(c) ==> Fine(x))
    modifies out`own, out`text, st`size
    ensures st.size == old(st.size) + TailSize(c, m)
    ensures out.Valid() && out.text == TailText(t, [Arg(name)], c, b, old(st.size), m, eip, x)
  {
    out.Put([Arg(name)]);
    PrintParams(t, out, data, q, c, m, eip, st, b, x);
  }

  lemma BodyNameless(t: Tables, s: seq<Byte>, p: nat, head: nat, c: Inst, m: Mode, eip: Word, x: Operand)
    requires head >= 1 && p + head <= |s| && c.name == None
    ensures Body(t, s, p, head, c, m, eip, x) == Some(Decoded([Lit("DB "), Hex(s[p], 2)], head))
  {
  }

  lemma BodyNamed(t: Tables, s: seq<Byte>, p: nat, head: nat, c: Inst, m: Mode, eip: Word, x: Operand, name: string)
    requires head >= 1 && p + head <= |s| && c.name == Some(name) && Body(t, s, p, head, c, m, eip, x).Some?
    ensures p + head + TailSize(c, m) <= |s|
    ensures Body(t, s, p, head, c, m, eip, x).value
            == Decoded(TailText(t, [Arg(name)], c, TailAt(s, p + head, c, m), head, m, eip, x), head + TailSize(c, m))
  {
  }

  /** The printing half of disasm_opcode. */
  method PrintBody(t: Tables, out: Output, data: seq<Byte>, p: nat, q: nat, c: Inst, m: Mode, eip: Word, st: State,
                   ghost x: Operand)
    returns (size: nat)
    requires GoodNames(t) && m.seg < 8 && GoodParams(c) && p < q <= |data| && st.size == q - p
    requires Fine(x) && (RowUsesModrm(c) ==> OperandIn(st) == x)
    requires Body(t, data, p, q - p, c, m, eip, x).Some?
    modifies out`own, out`text, st`size
    ensures var d := Body(t, data, p, q - p, c, m, eip, x).value;
            size == d.size && out.text == d.text && out.Valid()
  {
    match c.name
    case None =>
      out.Put([Lit("DB "), Hex(data[p], 2)]);
      size := st.size;
      BodyNameless(t, data, p, q - p, c, m, eip, x);
    case Some(name) =>
      BodyNamed(t, data, p, q - p, c, m, eip, x, name);
      ghost var b := TailAt(data, q, c, m);
      TailIgnoresRm(t, [Arg(name)], c, b, q - p, m, eip, x, OperandIn(st));
      PrintNamed(t, out, data, q, c, name, m, eip, st, b, OperandIn(st));
      size := st.size;
  }

  /** disasm_opcode, for an opcode that is not a prefix. */
  method DisasmPlain(t: Tables, out: Output, data: seq<Byte>, p: nat, r: Inst, m: Mode, eip: Word) returns (size: nat)
    requires WellFormed(t) && GoodRow(r) && m.seg < 8 && p < |data| && Plain(t, data, p, r, m, eip).Some?
    modifies out`own, out`text
    ensures var d := Plain(t, data, p, r, m, eip).value;
            size == d.size && out.own == Show(d.text)
  {
    ghost var head := HeadSize(data, p, r.flags, m.addr32);
    ghost var x := HeadOperand(t, data, p, r.flags, m.addr32, head);
    HeadOperandFine(t, data, p, r.flags, m.addr32, head);
    ChosenGood(t, r, At(data, p + 1), m.op32);
    var st := new State();
    st.size := 1;
    var q, c := ReadHead(t, data, p, r, m, st);
    size := PrintBody(t, out, data, p, q, c, m, eip, st, x);
    BodyFits(t, data, p, head, c, m, eip, x);
  }

  /** The prefix case of disasm_opcode that prints. */
  method PrintPrefix(out: Output, r: Inst)
    requires GoodRow(r)
    modifies out
    ensures out.front == if r.flags == PREFIX then old(out.front) + Show(PrefixText(r)) else old(out.front)
  {
    if r.flags == PREFIX {
      out.Put([Arg(r.name.value), Lit(" ")]);
      out.Advance();
    }
  }

  /** disasm_opcode: the buffer holds, character for character, the text of the instruction from `str` on. */
  method DisasmOpcode(t: Tables, out: Output, data: seq<Byte>, p: nat, m: Mode, eip: Word) returns (size: nat)
    requires WellFormed(t) && m.seg < 8 && Decode(t, data, p, m, eip).Some?
    modifies out
    ensures var d := Decode(t, data, p, m, eip).value;
            size == d.size && out.front + out.own == old(out.front) + Show(d.text)
    decreases |data| - p
  {
    var r := Row(t, data[p], m.two);
    if IsPrefix(r.flags) {
      PrefixStep(t, data, p, m, eip, r);
      ghost var front := out.front;
      ghost var rest := Decode(t, data, p + 1, Prefixed(r.flags, m), Wrap(eip + 1)).value.text;
      PrintPrefix(out, r);
      size := DisasmOpcode(t, out, data, p + 1, Prefixed(r.flags, m), Wrap(eip + 1));
      size := size + 1;
      if r.flags == PREFIX {
        ShowAppend(PrefixText(r), rest);
        Assoc(front, Show(PrefixText(r)), Show(rest));
      }
    } else {
      PlainStep(t, data, p, m, eip, r);
      size := DisasmPlain(t, out, data, p, r, m, eip);
    }
  }
}
