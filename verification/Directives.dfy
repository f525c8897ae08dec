/** What the directives of vsprintf print, letter by letter, in terms of the text alone: the base, the sign and the
    width that each letter stands for, and the arguments it takes. */
module Directives {
  import opened Machine
  import opened Numbers
  import opened Printf

  const DIGITS := "0123456789ABCDEF"

  lemma DigitIs(d: nat)
    requires d < 16
    ensures HexCh(d) == DIGITS[d] && DigitOf(DIGITS[d]) == d
  {
  }

  predicate AllIn(text: string, digits: string) { forall i :: 0 <= i < |text| ==> text[i] in digits }

  /** Text in the digits of the base that denotes v. */
  predicate Denotes(text: string, v: nat, base: nat)
    requires base <= 16
  {
    text != "" && AllIn(text, DIGITS[..base]) && Value(text, base) == v
  }

  /** At least `width` digits, and no leading zero beyond. */
  predicate HasWidth(text: string, width: int) {
    |text| >= width && (|text| > width && |text| > 1 ==> text[0] != '0')
  }

  // ----- One directive in a format -----

  /** "%", the width w and the letter c, given the values `own`, print the text, whatever follows. */
  predicate Prints(c: char, w: string, own: seq<Val>, text: string, rest: string, more: seq<Val>)
    requires Matches(rest, 0, more, 0)
  {
    var fmt := "%" + w + [c] + rest;
    Matches(fmt, 0, own + more, 0) && Render(fmt, 0, own + more, 0) == text + Render(rest, 0, more, 0)
  }

  lemma PrintsConversion(c: char, w: string, own: seq<Val>, rest: string, more: seq<Val>)
    requires Matches(rest, 0, more, 0) && AllIn(w, DIGITS[..10]) && !IsDigit(c)
    requires WellTyped(c, own, 0) && |own| == After(c, 0)
    ensures Prints(c, w, own, Conversion(c, ToInt32(Value(w, 10)), own, 0), rest, more)
  {
    var pre := "%" + w + [c];
    var fmt, k := pre + rest, 1 + |w|;
    RenderShift(pre, rest, 0, own, more, 0);
    WidthRead(c, w, rest, fmt, k);
    SameConversion(c, ToInt32(Value(w, 10)), own + more, 0, own, 0);
    RenderFromDirective(fmt, 0, own + more, 0, k);
  }

  lemma WidthRead(c: char, w: string, rest: string, fmt: string, k: nat)
    requires AllIn(w, DIGITS[..10]) && !IsDigit(c) && fmt == "%" + w + [c] + rest && k == 1 + |w|
    ensures DigitEnd(fmt, 1) == k && Atoi(fmt, 1, k) == ToInt32(Value(w, 10)) && fmt[0] == '%' && fmt[k] == c
  {
    forall i | 0 <= i < |w| ensures IsDigit(w[i]) { DecimalIsDigit(w[i]); }
    assert fmt == "%" + w + ([c] + rest);
    AtoiOfDigits("%", w, [c] + rest, fmt, k);
  }

  lemma DecimalIsDigit(c: char)
    requires c in DIGITS[..10]
    ensures IsDigit(c)
  {
  }

  lemma {:induction false} PaddedDigits(n: nat, b: nat, k: nat)
    requires 2 <= b <= 16
    ensures AllIn(Padded(n, b, k), DIGITS[..b])
    decreases k
  {
    if k > 0 {
      PaddedLast(n, b, k);
      PaddedDigits(Quo(n, b), b, k - 1);
      DigitIs(Rem(n, b));
    }
  }

  lemma SpelledSpells(minus: string, mag: Word, base: nat, digits: int) returns (t: string)
    requires 2 <= base <= 16 && |minus| <= 1
    ensures Spelled(minus, mag, base, digits) == minus + t && Denotes(t, mag, base)
    ensures 0 <= digits ==> HasWidth(t, digits - |minus|)
  {
    var sig := Significant(mag, base);
    var pad := Pad(digits, |minus|, |sig|);
    t := Zeros(pad) + sig;
    SpelledDenotes(minus, mag, base, digits);
    assert Spelled(minus, mag, base, digits)[|minus|..] == t;
    PaddedDigits(mag, base, |sig|);
    ZerosAreDigits(pad);
    FewPlaces(mag, base);
    assert DIGITS[..base][0] == '0';
    assert mag == 0 ==> |sig| == 1;
  }

  // ----- The letters -----

  /** x, X and p print in base 16, u in base 10, b in base 2, unsigned; p has eight digits whatever the width. */
  lemma PrintsUnsigned(c: char, w: string, width: nat, v: Word, rest: string, more: seq<Val>) returns (text: string)
    requires Matches(rest, 0, more, 0) && AllIn(w, DIGITS[..10])
    requires c == 'x' || c == 'X' || c == 'p' || c == 'u' || c == 'b'
    ensures Prints(c, w, [VInt(v)], text, rest, more)
    ensures Denotes(text, v, if c == 'u' then 10 else if c == 'b' then 2 else 16)
    ensures Value(w, 10) == width < 0x8000_0000 || c == 'p' ==> HasWidth(text, if c == 'p' then 8 else width)
  {
    var base := if c == 'u' then 10 else if c == 'b' then 2 else 16;
    var digits := WidthOf(w, width);
    PrintsConversion(c, w, [VInt(v)], rest, more);
    text := SpelledSpells("", v, base, if c == 'p' then 8 else digits);
    assert "" + text == text;
    UnsignedIs(c, digits, v, base);
  }

  lemma UnsignedIs(c: char, digits: int, v: Word, base: nat)
    requires c == 'x' || c == 'X' || c == 'p' || c == 'u' || c == 'b'
    requires base == if c == 'u' then 10 else if c == 'b' then 2 else 16
    ensures Conversion(c, digits, [VInt(v)], 0) == Spelled("", v, base, if c == 'p' then 8 else digits)
  {
  }

  /** The width as vsprintf reads it. */
  lemma WidthOf(w: string, width: nat) returns (digits: int)
    ensures digits == ToInt32(Value(w, 10)) && (Value(w, 10) == width < 0x8000_0000 ==> digits == width)
  {
    digits := ToInt32(Value(w, 10));
    if width < 0x8000_0000 { WrapSmall(width); }
  }

  /** d and i print in base 10, B in base 2, signed: a minus exactly for a negative int, and the digits of the
      magnitude; the width includes the minus. */
  lemma PrintsSigned(c: char, w: string, width: nat, n: int, v: Word, rest: string, more: seq<Val>)
    returns (text: string)
    requires Matches(rest, 0, more, 0) && AllIn(w, DIGITS[..10]) && (c == 'd' || c == 'i' || c == 'B')
    requires -0x8000_0000 <= n < 0x8000_0000 && v == if n < 0 then n + 0x1_0000_0000 else n
    ensures Prints(c, w, [VInt(v)], (if n < 0 then "-" else "") + text, rest, more)
    ensures Denotes(text, if n < 0 then 0 - n else n, if c == 'B' then 2 else 10)
    ensures Value(w, 10) == width < 0x8000_0000 ==> HasWidth(text, if n < 0 then width - 1 else width)
  {
    var base := if c == 'B' then 2 else 10;
    var digits := WidthOf(w, width);
    PrintsConversion(c, w, [VInt(v)], rest, more);
    text := SpelledSpells(if n < 0 then "-" else "", if n < 0 then 0 - n else n, base, digits);
    SignedIs(c, digits, n, v, base);
  }

  lemma SignedIs(c: char, digits: int, n: int, v: Word, base: nat)
    requires (c == 'd' || c == 'i' || c == 'B') && base == if c == 'B' then 2 else 10
    requires -0x8000_0000 <= n < 0x8000_0000 && v == if n < 0 then n + 0x1_0000_0000 else n
    ensures Conversion(c, digits, [VInt(v)], 0)
            == Spelled(if n < 0 then "-" else "", if n < 0 then 0 - n else n, base, digits)
  {
  }

  /** c prints the character of the low byte, and s the string, up to its length modulo 2^16. */
  lemma PrintsText(w: string, v: Word, s: string, rest: string, more: seq<Val>)
    requires Matches(rest, 0, more, 0) && AllIn(w, DIGITS[..10])
    ensures Prints('c', w, [VInt(v)], [(v % 256) as char], rest, more)
    ensures Prints('s', w, [VStr(s)], s[..|s| % 0x1_0000], rest, more)
  {
    PrintsConversion('c', w, [VInt(v)], rest, more);
    PrintsConversion('s', w, [VStr(s)], rest, more);
  }

  /** No other letter takes an argument: o prints nothing, the rest "%". */
  lemma PrintsNoArgument(c: char, w: string, rest: string, more: seq<Val>)
    requires Matches(rest, 0, more, 0) && AllIn(w, DIGITS[..10]) && !(48 <= c as int <= 57)
    requires c !in {'x', 'X', 'p', 'u', 'b', 'd', 'i', 'B', 'c', 's'}
    ensures Prints(c, w, [], if c == 'o' then "" else "%", rest, more)
  {
    NoArgumentIs(c, ToInt32(Value(w, 10)));
    PrintsConversion(c, w, [], rest, more);
  }

  lemma NoArgumentIs(c: char, digits: int)
    requires c !in {'x', 'X', 'p', 'u', 'b', 'd', 'i', 'B', 'c', 's'}
    ensures !TakesArg(c) && Conversion(c, digits, [], 0) == if c == 'o' then "" else "%"
  {
  }
}
