/** Formats taken apart: what vsprintf prints for a format put together from literal text, %s, 0x%0<width>X and %d, and
    for %s with a buffer that pdisp has filled. */
module Formats {
  import opened Machine
  import opened Numbers
  import opened Printf

  type Int32 = x: int | -0x8000_0000 <= x < 0x8000_0000

  /** 0x%0<width>X. */
  function HexStr(v: Word, width: nat): string { "0x" + NumToStr(v, 16, false, width) }

  function Abs(v: int): int { if v >= 0 then v else -v }

  /** pdisp8, pdisp16, pdisp32. */
  function Disp(v: Int32, width: nat): string { (if v >= 0 then "+" else "-") + HexStr(Abs(v), width) }

  /** A part of a format, with the argument it takes. */
  datatype Field =
    | Lit(s: string) | Arg(s: string) | Hex(v: Word, width: nat) | Dec(n: Word) | Signed(i: Int32, width: nat)

  type Text = seq<Field>

  /** The part of the format. */
  function Directive(f: Field): string {
    match f
    case Lit(s) => s
    case Arg(s) => "%s"
    case Hex(v, width) => if width < 10 then "0x%0" + [(48 + width) as char] + "X" else "0x%X"
    case Dec(n) => "%d"
    case Signed(i, width) => "%s"
  }

  function ArgOf(f: Field): seq<Val> {
    match f
    case Lit(s) => []
    case Arg(s) => [VStr(s)]
    case Hex(v, width) => [VInt(v)]
    case Dec(n) => [VInt(n)]
    case Signed(i, width) => [VStr(Disp(i, width))]
  }

  function Format(fs: Text): string {
    if fs == [] then "" else Directive(fs[0]) + Format(fs[1..])
  }

  function Args(fs: Text): seq<Val> {
    if fs == [] then [] else ArgOf(fs[0]) + Args(fs[1..])
  }

  /** What is printed for a field. */
  function ShowField(f: Field): string {
    match f
    case Lit(s) => s
    case Arg(s) => s
    case Hex(v, width) => HexStr(v, width)
    case Dec(n) => NumToStr(n, 10, true, 0)
    case Signed(i, width) => Disp(i, width)
  }

  function Show(fs: Text): string {
    if fs == [] then "" else ShowField(fs[0]) + Show(fs[1..])
  }

  /** Literal text has no '%', a string fits its 16-bit length, a width is one digit. */
  predicate Proper(f: Field) {
    match f
    case Lit(s) => '%' !in s
    case Arg(s) => |s| < 0x1_0000
    case Hex(v, width) => 0 < width < 10
    case Dec(n) => true
    case Signed(i, width) => |Disp(i, width)| < 0x1_0000
  }

  predicate AllProper(fs: Text) { forall i :: 0 <= i < |fs| ==> Proper(fs[i]) }

  lemma {:induction false} ShowAppend(a: Text, b: Text)
    ensures Show(a + b) == Show(a) + Show(b)
    decreases |a|
  {
    if a == [] {
      assert a + b == b;
    } else {
      assert (a + b)[1..] == a[1..] + b;
      ShowAppend(a[1..], b);
      Assoc(ShowField(a[0]), Show(a[1..]), Show(b));
    }
  }

  lemma Assoc(a: string, b: string, c: string)
    ensures a + b + c == a + (b + c)
  {
  }

  /** The last field is shown last. */
  lemma ShowLast(fs: Text)
    requires fs != []
    ensures Show(fs) == Show(fs[..|fs| - 1]) + ShowField(fs[|fs| - 1])
  {
    var k := fs[|fs| - 1];
    ShowAppend(fs[..|fs| - 1], [k]);
    assert fs == fs[..|fs| - 1] + [k];
    assert [k][1..] == [];
  }

  // ----- vsprintf on a composed format -----

  lemma PlainChar(fmt: string, i: nat, vals: seq<Val>, a: nat)
    requires i < |fmt| && fmt[i] != '%' && Matches(fmt, i + 1, vals, a)
    ensures Matches(fmt, i, vals, a) && Render(fmt, i, vals, a) == [fmt[i]] + Render(fmt, i + 1, vals, a)
  {
  }

  /** n characters of literal text before position i. */
  lemma {:induction false} PlainRun(fmt: string, i: nat, n: nat, vals: seq<Val>, a: nat)
    requires n <= i <= |fmt| && (forall k :: i - n <= k < i ==> fmt[k] != '%') && Matches(fmt, i, vals, a)
    ensures Matches(fmt, i - n, vals, a) && Render(fmt, i - n, vals, a) == fmt[i - n..i] + Render(fmt, i, vals, a)
    decreases n
  {
    if n > 0 {
      PlainRun(fmt, i, n - 1, vals, a);
      PlainChar(fmt, i - n, vals, a);
      FirstOfSlice(fmt, i - n, i, Render(fmt, i, vals, a));
    }
  }

  lemma FirstOfSlice(s: string, i: nat, j: nat, rest: string)
    requires i < j <= |s|
    ensures s[i..j] + rest == [s[i]] + (s[i + 1..j] + rest)
  {
    assert s[i..j] == [s[i]] + s[i + 1..j];
  }

  /** A hexadecimal directive at position 2, after its "0x". */
  lemma HexDirective(fmt: string, v: Word, width: nat, vals: seq<Val>)
    requires 0 < width < 10 && |fmt| >= 6 && fmt[2] == '%' && fmt[3] == '0' && fmt[4] == (48 + width) as char
             && fmt[5] == 'X'
    requires vals != [] && vals[0] == VInt(v) && Matches(fmt, 6, vals, 1)
    ensures Matches(fmt, 2, vals, 0)
            && Render(fmt, 2, vals, 0) == NumToStr(v, 16, false, width) + Render(fmt, 6, vals, 1)
  {
    DigitEndIs(fmt, 3, 5);
    assert Atoi(fmt, 3, 3) == 0;
    assert Atoi(fmt, 3, 4) == 0;
    assert Atoi(fmt, 3, 5) == width;
    RenderFromDirective(fmt, 2, vals, 0, 5);
  }

  lemma RenderHex(v: Word, width: nat, rest: string, vals: seq<Val>)
    requires 0 < width < 10 && Matches(rest, 0, vals, 0)
    ensures var fmt, all := Directive(Hex(v, width)) + rest, [VInt(v)] + vals;
            Matches(fmt, 0, all, 0)
              && Render(fmt, 0, all, 0) == "0x" + NumToStr(v, 16, false, width) + Render(rest, 0, vals, 0)
  {
    var pre := Directive(Hex(v, width));
    var fmt, all := pre + rest, [VInt(v)] + vals;
    RenderShift(pre, rest, 0, [VInt(v)], vals, 0);
    HexDirective(fmt, v, width, all);
    PlainRun(fmt, 2, 2, all, 0);
    assert fmt[0..2] == "0x";
    Assoc("0x", NumToStr(v, 16, false, width), Render(rest, 0, vals, 0));
  }

  lemma RenderDec(n: Word, rest: string, vals: seq<Val>)
    requires Matches(rest, 0, vals, 0)
    ensures var fmt, all := "%d" + rest, [VInt(n)] + vals;
            Matches(fmt, 0, all, 0) && Render(fmt, 0, all, 0) == NumToStr(n, 10, true, 0) + Render(rest, 0, vals, 0)
  {
    var fmt, all := "%d" + rest, [VInt(n)] + vals;
    RenderShift("%d", rest, 0, [VInt(n)], vals, 0);
    assert fmt[0] == '%' && fmt[1] == 'd';
    DigitEndIs(fmt, 1, 1);
    RenderFromDirective(fmt, 0, all, 0, 1);
  }

  lemma RenderLit(s: string, rest: string, vals: seq<Val>)
    requires '%' !in s && Matches(rest, 0, vals, 0)
    ensures Matches(s + rest, 0, vals, 0) && Render(s + rest, 0, vals, 0) == s + Render(rest, 0, vals, 0)
  {
    RenderShift(s, rest, 0, [], vals, 0);
    assert [] + vals == vals;
    PlainRun(s + rest, |s|, |s|, vals, 0);
    assert (s + rest)[0..|s|] == s;
  }

  /** One field, then whatever follows. */
  lemma RenderField(f: Field, rest: string, vals: seq<Val>)
    requires Proper(f) && Matches(rest, 0, vals, 0)
    ensures Matches(Directive(f) + rest, 0, ArgOf(f) + vals, 0)
    ensures Render(Directive(f) + rest, 0, ArgOf(f) + vals, 0) == ShowField(f) + Render(rest, 0, vals, 0)
  {
    match f
    case Lit(s) =>
      RenderLit(s, rest, vals);
      assert [] + vals == vals;
    case Arg(s) => AppendKeepsOldText(s, rest, vals);
    case Hex(v, width) => RenderHex(v, width, rest, vals);
    case Dec(n) => RenderDec(n, rest, vals);
    case Signed(i, width) => AppendKeepsOldText(Disp(i, width), rest, vals);
  }

  /** vsprintf prints a composed format field by field. */
  lemma {:induction false} RenderFormat(fs: Text)
    requires AllProper(fs)
    ensures Matches(Format(fs), 0, Args(fs), 0) && Render(Format(fs), 0, Args(fs), 0) == Show(fs)
    decreases |fs|
  {
    if fs != [] {
      RenderFormat(fs[1..]);
      RenderField(fs[0], Format(fs[1..]), Args(fs[1..]));
    }
  }

  /** sprintf(str, "%s...", str, ...): the fields come after what was there, if and only if that is shorter than
      65536. */
  lemma InPlaceIff(before: string, fs: Text)
    requires AllProper(fs)
    ensures Matches("%s" + Format(fs), 0, [VStr(before)] + Args(fs), 0)
    ensures Render("%s" + Format(fs), 0, [VStr(before)] + Args(fs), 0) == before + Show(fs) <==> |before| < 0x1_0000
  {
    RenderFormat(fs);
    AppendKeepsOldText(before, Format(fs), Args(fs));
  }
}
