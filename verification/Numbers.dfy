/** Printing numbers and reading them back: the number half of kernel/src/libk/printf.c. */
module Numbers {
  import opened Machine

  /** hexch: '0'..'9', then 'A'..'F'. */
  function HexCh(d: nat): char
    requires d < 16
  {
    if d < 10 then (d + 48) as char else (d + 55) as char
  }

  /** The digit a character stands for. */
  function DigitOf(c: char): int {
    var n := c as int;
    if 48 <= n <= 57 then n - 48 else n - 55
  }

  predicate IsDigit(c: char) {
    48 <= c as int <= 57
  }

  lemma HexChDigit(d: nat)
    requires d < 16
    ensures DigitOf(HexCh(d)) == d && (IsDigit(HexCh(d)) <==> d < 10) && HexCh(d) != '\0' && HexCh(d) != '-'
  {
  }

  function Quo(n: nat, d: nat): (q: nat)
    requires d > 0
  {
    n / d
  }

  function Rem(n: nat, d: nat): (r: nat)
    requires d > 0
    ensures r < d
  {
    n % d
  }

  function Pow(b: nat, n: nat): nat {
    if n == 0 then 1 else b * Pow(b, n - 1)
  }

  lemma {:induction false} PowPositive(b: nat, n: nat)
    requires b >= 1
    ensures Pow(b, n) >= 1
  {
    if n > 0 { PowPositive(b, n - 1); }
  }

  /** The low k digits of n in base b, most significant first. */
  function Padded(n: nat, b: nat, k: nat): (s: string)
    requires 2 <= b <= 16
    ensures |s| == k
    decreases k
  {
    if k == 0 then "" else Padded(Quo(n, b), b, k - 1) + [HexCh(Rem(n, b))]
  }

  /** How many digits n has: ilog. */
  function Places(n: nat, b: nat): nat
    requires b >= 2
  {
    if n == 0 then 0 else 1 + Places(Quo(n, b), b)
  }

  /** The number a digit string denotes. */
  function Value(s: string, b: nat): int {
    if s == "" then 0 else Value(s[..|s| - 1], b) * b + DigitOf(s[|s| - 1])
  }

  // ----- Division facts -----

  lemma Multiple(p: nat, d: nat)
    requires d >= 1
    ensures p * d >= p
  {
  }

  lemma Distribute(b: int, x: int, y: int)
    ensures b * (x + y) == b * x + b * y
  {
  }

  lemma Regroup(b: int, p: int, q: int)
    ensures b * (p * q) == (b * p) * q
  {
  }

  lemma Monotone(b: nat, x: int, y: int)
    requires x <= y
    ensures b * x <= b * y
  {
    Distribute(b, x, y - x);
  }

  lemma Split(n: nat, b: nat)
    requires b > 0
    ensures n == b * Quo(n, b) + Rem(n, b)
  {
    assert n == b * (n / b) + n % b;
  }

  lemma DivModUnique(x: nat, p: nat, q: nat, r: nat)
    requires p > 0 && r < p && x == p * q + r
    ensures Quo(x, p) == q && Rem(x, p) == r
  {
    Split(x, p);
    SameQuotient(p, q, r, Quo(x, p), Rem(x, p));
  }

  lemma SameQuotient(p: nat, q: nat, r: nat, q': int, r': int)
    requires 0 <= r < p && 0 <= r' < p && p * q + r == p * q' + r'
    ensures q == q' && r == r'
  {
    if q > q' { Monotone(p, q' + 1, q); Distribute(p, q', 1); }
    if q < q' { Monotone(p, q + 1, q'); Distribute(p, q, 1); }
  }

  lemma Nested(n: nat, b: nat, p: nat, m: nat, c: nat, q: nat, r: nat)
    requires n == b * m + c && c < b && m == p * q + r && r < p
    ensures n == (b * p) * q + (b * r + c) && b * r + c < b * p
  {
    Distribute(b, p * q, r);
    Regroup(b, p, q);
    Monotone(b, r + 1, p);
    Distribute(b, r, 1);
  }

  /** Dividing by b * p is dividing by b, then by p. */
  lemma DivTwice(n: nat, b: nat, p: nat, bp: nat)
    requires b > 0 && p > 0 && bp == b * p > 0
    ensures Quo(n, bp) == Quo(Quo(n, b), p) && Quo(Rem(n, bp), b) == Rem(Quo(n, b), p)
            && Rem(Rem(n, bp), b) == Rem(n, b)
  {
    var m, c := Quo(n, b), Rem(n, b);
    var q, r := Quo(m, p), Rem(m, p);
    Split(n, b);
    Split(m, p);
    Nested(n, b, p, m, c, q, r);
    DivModUnique(n, bp, q, b * r + c);
    DivModUnique(b * r + c, b, r, c);
  }

  lemma DivLess(n: nat, b: nat, p: nat)
    requires b > 0 && n < b * p
    ensures Quo(n, b) < p
  {
    Split(n, b);
    if Quo(n, b) >= p { Monotone(b, p, Quo(n, b)); }
  }

  // ----- Digits -----

  lemma PaddedLast(n: nat, b: nat, k: nat)
    requires 2 <= b <= 16 && k > 0
    ensures Padded(n, b, k) == Padded(Quo(n, b), b, k - 1) + [HexCh(Rem(n, b))]
  {
  }

  lemma QuoBelow(n: nat, b: nat, k: nat)
    requires b > 0 && k > 0 && n < Pow(b, k)
    ensures Quo(n, b) < Pow(b, k - 1)
  {
    DivLess(n, b, Pow(b, k - 1));
  }

  /** The leading digit of a padded number, and the rest. */
  lemma {:induction false} LeadingDigit(n: nat, b: nat, k: nat, p: nat)
    requires 2 <= b <= 16 && k > 0 && p == Pow(b, k - 1) && n < Pow(b, k)
    ensures p > 0 && Quo(n, p) < b && Padded(n, b, k) == [HexCh(Quo(n, p))] + Padded(Rem(n, p), b, k - 1)
    decreases k
  {
    PowPositive(b, k - 1);
    if k == 1 {
      OneDigit(n, b);
    } else {
      var p' := Pow(b, k - 2);
      PowPositive(b, k - 2);
      DivTwice(n, b, p', p);
      QuoBelow(n, b, k);
      LeadingDigit(Quo(n, b), b, k - 1, p');
      LeadingStep(n, b, k, p, Quo(n, b), Quo(Quo(n, b), p'), Rem(Quo(n, b), p'), Rem(n, p));
    }
  }

  lemma OneDigit(n: nat, b: nat)
    requires 2 <= b <= 16 && n < Pow(b, 1)
    ensures n < b && Quo(n, 1) == n && Rem(n, 1) == 0 && Padded(n, b, 1) == [HexCh(n)] && Padded(0, b, 0) == ""
  {
    assert Pow(b, 1) == b;
    DivModUnique(n, b, 0, n);
    DivModUnique(n, 1, n, 0);
    PaddedLast(n, b, 1);
  }

  lemma LeadingStep(n: nat, b: nat, k: nat, p: nat, m: nat, lead: nat, rest: nat, low: nat)
    requires 2 <= b <= 16 && k > 1 && p > 0 && lead < b && m == Quo(n, b)
    requires Quo(n, p) == lead && Rem(n, p) == low && Quo(low, b) == rest && Rem(low, b) == Rem(n, b)
    requires Padded(m, b, k - 1) == [HexCh(lead)] + Padded(rest, b, k - 2)
    ensures Quo(n, p) < b && Padded(n, b, k) == [HexCh(Quo(n, p))] + Padded(Rem(n, p), b, k - 1)
  {
    PaddedLast(n, b, k);
    PaddedLast(low, b, k - 1);
  }

  lemma PlacesOf(n: nat, b: nat)
    requires b >= 2 && n > 0
    ensures Places(n, b) == 1 + Places(Quo(n, b), b)
  {
  }

  lemma PowOf(b: nat, k: nat)
    requires k > 0
    ensures Pow(b, k) == b * Pow(b, k - 1)
  {
  }

  lemma {:induction false} PlacesBound(n: nat, b: nat)
    requires b >= 2
    ensures n < Pow(b, Places(n, b)) && (n > 0 ==> Places(n, b) > 0 && Pow(b, Places(n, b) - 1) <= n)
  {
    if n > 0 {
      var m, c := Quo(n, b), Rem(n, b);
      PlacesBound(m, b);
      Split(n, b);
      PlacesOf(n, b);
      var k := Places(m, b);
      PowOf(b, k + 1);
      PlacesStep(n, b, m, c, Pow(b, k));
      if m > 0 {
        PowOf(b, k);
        Monotone(b, Pow(b, k - 1), m);
      }
    }
  }

  lemma PlacesStep(n: nat, b: nat, m: nat, c: nat, p: nat)
    requires n == b * m + c && c < b && m < p
    ensures n < b * p
  {
    Monotone(b, m + 1, p);
    Distribute(b, m, 1);
  }

  /** Padding is leading zeros. */
  lemma {:induction false} PadsWithZeros(n: nat, b: nat, k: nat, j: nat)
    requires 2 <= b <= 16 && n < Pow(b, k)
    ensures Padded(n, b, k + j) == Zeros(j) + Padded(n, b, k)
    decreases k
  {
    if k == 0 {
      AllZeros(b, j);
    } else {
      DivLess(n, b, Pow(b, k - 1));
      PadsWithZeros(Quo(n, b), b, k - 1, j);
      assert k + j - 1 == k - 1 + j;
    }
  }

  function Zeros(j: nat): (s: string)
    ensures |s| == j
  {
    if j == 0 then "" else Zeros(j - 1) + "0"
  }

  lemma {:induction false} AllZeros(b: nat, j: nat)
    requires 2 <= b <= 16
    ensures Padded(0, b, j) == Zeros(j)
    decreases j
  {
    if j > 0 { AllZeros(b, j - 1); }
  }

  /** Reading the digits back gives the number. */
  lemma {:induction false} ValueOfPadded(n: nat, b: nat, k: nat)
    requires 2 <= b <= 16 && n < Pow(b, k)
    ensures Value(Padded(n, b, k), b) == n
    decreases k
  {
    if k > 0 {
      DivLess(n, b, Pow(b, k - 1));
      ValueOfPadded(Quo(n, b), b, k - 1);
      PaddedLast(n, b, k);
      ValueStep(Padded(Quo(n, b), b, k - 1), Quo(n, b), Rem(n, b), n, b);
    }
  }

  lemma ValueStep(s: string, m: nat, d: nat, n: nat, b: nat)
    requires 2 <= b <= 16 && d < b && m == Quo(n, b) && d == Rem(n, b) && Value(s, b) == m
    ensures Value(s + [HexCh(d)], b) == n
  {
    var t := s + [HexCh(d)];
    assert t[..|t| - 1] == s;
    HexChDigit(d);
    Split(n, b);
    assert m * b == b * m;
  }

  // ----- What numtostr prints -----

  function Negative(num: Word, sign: bool): bool { sign && num >= 0x8000_0000 }

  /** The magnitude printed: two's complement negation of a negative number, the number itself otherwise. */
  function Magnitude(num: Word, sign: bool): Word {
    if Negative(num, sign) then 0x1_0000_0000 - num else num
  }

  /** The significant digits: all of them, without leading zeros, and "0" for zero. */
  function Significant(mag: Word, base: nat): (s: string)
    requires 2 <= base <= 16
  {
    Padded(mag, base, if mag == 0 then 1 else Places(mag, base))
  }

  /** How many zeros go between the i characters of the sign and the `places` digits: digits - places is an int, which
      wraps. */
  function Pad(digits: int, i: nat, places: nat): nat {
    var width := if digits - places < -0x8000_0000 then digits - places + 0x1_0000_0000 else digits - places;
    if width > i then width - i else 0
  }

  /** The sign, zeros up to the width, the significant digits. */
  function Spelled(minus: string, mag: Word, base: nat, digits: int): string
    requires 2 <= base <= 16
  {
    var t := Significant(mag, base);
    minus + Zeros(Pad(digits, |minus|, |t|)) + t
  }

  function Minus(negative: bool): string { if negative then "-" else "" }

  function NumToStr(num: Word, base: nat, sign: bool, digits: int): string
    requires 2 <= base <= 16
  {
    Spelled(Minus(Negative(num, sign)), Magnitude(num, sign), base, digits)
  }

  /** The string denotes the number: its digits read back to the magnitude (the sign bit pattern 0x80000000 included),
      its width is the larger of `digits` and what the number needs, unless that wraps, and beyond the padding there is
      no leading zero. */
  lemma NumToStrDenotes(num: Word, base: nat, sign: bool, digits: int)
    requires 2 <= base <= 16
    ensures var s, neg, mag := NumToStr(num, base, sign, digits), Negative(num, sign), Magnitude(num, sign);
            var need := |Significant(mag, base)| + if neg then 1 else 0;
            && (digits >= -0x8000_0000 + |Significant(mag, base)| ==> |s| == if digits > need then digits else need)
            && (if neg then |s| > 1 && s[0] == '-'
                && Value(s[1..], base) == mag == -ToInt32(num) else Value(s, base) == mag == num)
            && (mag > 0 ==> Significant(mag, base)[0] != '0')
  {
    MagnitudeIs(num, sign);
    SpelledDenotes(Minus(Negative(num, sign)), Magnitude(num, sign), base, digits);
  }

  /** The width is right if and only if it is not so far below zero that subtracting the number of digits wraps. */
  lemma WidthIff(num: Word, base: nat, sign: bool, digits: int)
    requires 2 <= base <= 16 && -0x8000_0000 <= digits < 0x8000_0000
    ensures var s, t := NumToStr(num, base, sign, digits), Significant(Magnitude(num, sign), base);
            var need := |t| + if Negative(num, sign) then 1 else 0;
            |s| == (if digits > need then digits else need) <==> digits - |t| >= -0x8000_0000
  {
    var mag := Magnitude(num, sign);
    SpelledDenotes(Minus(Negative(num, sign)), mag, base, digits);
    FewPlaces(mag, base);
  }

  lemma FewPlaces(mag: Word, base: nat)
    requires 2 <= base <= 16
    ensures |Significant(mag, base)| <= 32
  {
    PlacesBound(mag, base);
    if Places(mag, base) > 32 {
      PowGrows(base, 32, Places(mag, base) - 33);
      PowBase(base, 32);
      TwoPow32();
    }
  }

  lemma TwoPow32()
    ensures Pow(2, 32) == TWO_32
  {
    assert Pow(2, 8) == 0x100;
    assert Pow(2, 16) == 0x1_0000;
    assert Pow(2, 24) == 0x100_0000;
  }

  lemma {:induction false} PowBase(b: nat, k: nat)
    requires b >= 2
    ensures Pow(b, k) >= Pow(2, k)
  {
    if k > 0 {
      PowBase(b, k - 1);
      Monotone(b, Pow(2, k - 1), Pow(b, k - 1));
      Monotone(Pow(2, k - 1), 2, b);
    }
  }

  lemma MagnitudeIs(num: Word, sign: bool)
    ensures if Negative(num, sign) then Magnitude(num, sign) == -ToInt32(num) else Magnitude(num, sign) == num
  {
  }

  lemma SpelledDenotes(minus: string, mag: Word, base: nat, digits: int)
    requires 2 <= base <= 16
    ensures var s, t := Spelled(minus, mag, base, digits), Significant(mag, base);
            && |s| == |minus| + Pad(digits, |minus|, |t|) + |t| && |t| > 0
            && s[..|minus|] == minus && Value(s[|minus|..], base) == mag
            && (mag > 0 ==> t[0] != '0')
  {
    var s, t := Spelled(minus, mag, base, digits), Significant(mag, base);
    var pad := Pad(digits, |minus|, |t|);
    SignificantDenotes(mag, base, pad);
    assert s[|minus|..] == Zeros(pad) + t;
  }

  lemma SignificantDenotes(mag: Word, base: nat, pad: nat)
    requires 2 <= base <= 16
    ensures var t := Significant(mag, base);
            |t| > 0 && Value(Zeros(pad) + t, base) == mag && (mag > 0 ==> t[0] != '0')
  {
    var k := if mag == 0 then 1 else Places(mag, base);
    PlacesBound(mag, base);
    assert Pow(base, 1) == base;
    PadsWithZeros(mag, base, k, pad);
    PowGrows(base, k, pad);
    ValueOfPadded(mag, base, k + pad);
    if mag > 0 { NoLeadingZero(mag, base, k); }
  }

  lemma NoLeadingZero(mag: nat, base: nat, k: nat)
    requires 2 <= base <= 16 && k > 0 && Pow(base, k - 1) <= mag < Pow(base, k)
    ensures Padded(mag, base, k)[0] != '0'
  {
    var p := Pow(base, k - 1);
    PowOf(base, k);
    LeadingDigit(mag, base, k, p);
    Split(mag, p);
    HexChDigit(Quo(mag, p));
  }

  lemma {:induction false} PowGrows(b: nat, k: nat, j: nat)
    requires b >= 1
    ensures Pow(b, k + j) >= Pow(b, k)
    decreases j
  {
    if j > 0 {
      PowGrows(b, k, j - 1);
      var p := Pow(b, k + j - 1);
      Multiple(p, b);
      assert b * p == p * b;
    }
  }

  // ----- The printing loops -----

  lemma WrapShift(x: int, k: int)
    ensures Wrap(x + 0x1_0000_0000 * k) == Wrap(x)
  {
  }

  lemma ToInt32Times(x: int, b: int)
    ensures ToInt32(ToInt32(x) * b) == ToInt32(x * b)
  {
    var k := (ToInt32(x) - x) / 0x1_0000_0000;
    assert ToInt32(x) == x + 0x1_0000_0000 * k;
    var j := k * b;
    assert ToInt32(x) * b == x * b + 0x1_0000_0000 * j by {
      Distribute(b, x, 0x1_0000_0000 * k);
      assert b * (0x1_0000_0000 * k) == 0x1_0000_0000 * (k * b);
    }
    WrapShift(x * b, j);
  }

  /** ilog. */
  method Ilog(number: Word, base: nat) returns (t: nat)
    requires base >= 2
    ensures t == Places(number, base)
  {
    var num: nat := number;
    t := 0;
    while num >= 1
      invariant t + Places(num, base) == Places(number, base)
      decreases num
    {
      PlacesOf(num, base);
      Split(num, base);
      Multiple2(base, Quo(num, base));
      num := Quo(num, base);
      t := t + 1;
    }
  }

  lemma Multiple2(b: nat, m: nat)
    requires b >= 2
    ensures m > 0 ==> b * m > m
  {
    Distribute(m, b - 1, 1);
    if m > 0 { Multiple(m, b - 1); }
  }

  /** ipow, with the wrap-around of its int32_t accumulator. */
  method Ipow(base: nat, power: nat) returns (t: int)
    ensures t == ToInt32(Pow(base, power))
  {
    var left := power;
    t := 1;
    while left > 0
      invariant 0 <= left <= power && t == ToInt32(Pow(base, power - left))
    {
      ToInt32Times(Pow(base, power - left), base);
      assert Pow(base, power - left) * base == base * Pow(base, power - left);
      PowOf(base, power - left + 1);
      left := left - 1;
      t := ToInt32(t * base);
    }
    assert power - left == power;
  }

  /** One pass of the digit loop: the leading digit goes out, the remainder stays. */
  lemma DigitPass(num: Word, b: nat, places: nat, temp: Word)
    requires 2 <= b <= 16 && places > 1 && num < Pow(b, places) && Pow(b, places - 1) <= TWO_32 - 1
             && temp == Pow(b, places - 1)
    ensures temp > 0 && 0 <= num - Rem(num, temp)
    ensures var tmp := num - Rem(num, temp);
            && Quo(tmp, temp) < b && num - tmp < temp
            && Padded(num, b, places) == [HexCh(Quo(tmp, temp))] + Padded(num - tmp, b, places - 1)
  {
    PowPositive(b, places - 1);
    PowOf(b, places);
    LeadingDigit(num, b, places, temp);
    Split(num, temp);
    var tmp := num - Rem(num, temp);
    DivModUnique(tmp, temp, Quo(num, temp), 0);
  }

  /** The buffer m with text written over it from `at` on. */
  function Patch(m: seq<char>, at: nat, text: string): (r: seq<char>)
    requires at + |text| <= |m|
    ensures |r| == |m|
  {
    m[..at] + text + m[at + |text|..]
  }

  lemma PatchEmpty(m: seq<char>, at: nat)
    requires at <= |m|
    ensures Patch(m, at, "") == m
  {
  }

  /** Writing on where the last text ended is writing the longer text. */
  lemma PatchMore(m: seq<char>, at: nat, a: string, b: string)
    requires at + |a| + |b| <= |m|
    ensures Patch(Patch(m, at, a), at + |a|, b) == Patch(m, at, a + b)
  {
    var p, q := Patch(Patch(m, at, a), at + |a|, b), Patch(m, at, a + b);
    forall i | 0 <= i < |m| ensures p[i] == q[i] { }
  }

  lemma PatchUpdate(m: seq<char>, at: nat, c: char)
    requires at < |m|
    ensures m[at := c] == Patch(m, at, [c])
  {
  }

  /** One character out. */
  method PutChar(str: array<char>, ghost m: seq<char>, ghost at: nat, ghost out: string, i: nat, c: char)
    requires i == at + |out| < str.Length && |m| == str.Length && str[..] == Patch(m, at, out)
    modifies str
    ensures str[..] == Patch(m, at, out + [c])
  {
    ghost var before := str[..];
    str[i] := c;
    assert str[..] == before[i := c];
    PatchUpdate(before, i, c);
    PatchMore(m, at, out, [c]);
  }

  /** The padding loop of numtostr. */
  method PutZeros(str: array<char>, ghost m: seq<char>, ghost at: nat, ghost out: string, from: nat, count: nat)
    requires from == at + |out| && from + count <= str.Length && |m| == str.Length && str[..] == Patch(m, at, out)
    modifies str
    ensures str[..] == Patch(m, at, out + Zeros(count))
  {
    assert out + Zeros(0) == out;
    for i := 0 to count
      invariant str[..] == Patch(m, at, out + Zeros(i))
    {
      PutChar(str, m, at, out + Zeros(i), from + i, '0');
      assert out + Zeros(i) + "0" == out + Zeros(i + 1);
    }
  }

  /** The digit loop of numtostr: the places digits of num, most significant first. */
  method PutDigits(str: array<char>, ghost m: seq<char>, ghost at: nat, ghost out: string, from: nat, number: Word,
                   base: nat, count: nat)
    requires 2 <= base <= 16 && count >= 1 && number < Pow(base, count) && Pow(base, count - 1) < TWO_32
    requires from == at + |out| && from + count <= str.Length && |m| == str.Length && str[..] == Patch(m, at, out)
    modifies str
    ensures str[..] == Patch(m, at, out + Padded(number, base, count))
  {
    ghost var r := out + Padded(number, base, count);
    ghost var written := out;
    var num: Word := number;
    var places := count;
    var i := from;
    while places > 1
      invariant 1 <= places <= count && num < Pow(base, places) && i + places == from + count
      invariant i == at + |written| && str[..] == Patch(m, at, written)
      invariant r == written + Padded(num, base, places)
    {
      PowChain(base, places - 1, count - 1);
      var temp, tmp := NextPower(num, base, places);
      PutChar(str, m, at, written, i, HexCh(Quo(tmp, temp)));
      written := written + [HexCh(Quo(tmp, temp))];
      num := num - tmp;
      places := places - 1;
      i := i + 1;
    }
    OneDigit(num, base);
    PutChar(str, m, at, written, i, HexCh(num));
  }

  /** The power and the multiple of it that one pass of the digit loop computes. */
  method NextPower(num: Word, base: nat, places: nat) returns (temp: Word, tmp: Word)
    requires 2 <= base <= 16 && places > 1 && num < Pow(base, places) && Pow(base, places - 1) < TWO_32
    ensures temp > 0 && tmp <= num && Quo(tmp, temp) < base && num - tmp < Pow(base, places - 1)
    ensures Padded(num, base, places) == [HexCh(Quo(tmp, temp))] + Padded(num - tmp, base, places - 1)
  {
    WrapSmall(Pow(base, places - 1));
    var power := Ipow(base, places - 1);
    temp := Wrap(power);
    DigitPass(num, base, places, temp);
    tmp := num - Rem(num, temp);
  }

  /** numtostr: prints at str[at..], ends with a NUL, touches nothing else, and returns the length. */
  method Numtostr(str: array<char>, at: nat, number: Word, base: nat, sign: bool, digits: int) returns (len: nat)
    requires -0x8000_0000 <= digits < 0x8000_0000
    requires 2 <= base <= 16 && at + |NumToStr(number, base, sign, digits)| < str.Length
    modifies str
    ensures len == |NumToStr(number, base, sign, digits)|
    ensures str[..] == Patch(old(str[..]), at, NumToStr(number, base, sign, digits) + "\0")
  {
    PatchEmpty(str[..], at);
    if sign && number >= 0x8000_0000 {
      ghost var m := str[..];
      PutChar(str, m, at, "", at, '-');
      len := PutPadded(str, m, at, "-", Wrap(0xFFFF_FFFF - number + 1), base, digits);
    } else {
      len := PutPadded(str, str[..], at, "", number, base, digits);
    }
  }

  /** The common tail of numtostr: zeros, digits and the NUL, after a possible sign. */
  method PutPadded(str: array<char>, ghost m: seq<char>, at: nat, minus: string, num: Word, base: nat, digits: int)
    returns (len: nat)
    requires -0x8000_0000 <= digits < 0x8000_0000
    requires 2 <= base <= 16 && |m| == str.Length && at + |minus| <= |m|
    requires str[..] == Patch(m, at, minus) && at + |Spelled(minus, num, base, digits)| < str.Length
    modifies str
    ensures len == |Spelled(minus, num, base, digits)|
            && str[..] == Patch(m, at, Spelled(minus, num, base, digits) + "\0")
  {
    var i := |minus|;
    var places, pad := Widths(num, base, i, digits);
    PutZeros(str, m, at, minus, at + i, pad);
    PutDigits(str, m, at, minus + Zeros(pad), at + i + pad, num, base, places);
    len := i + pad + places;
    PutChar(str, m, at, minus + Zeros(pad) + Padded(num, base, places), at + len, '\0');
  }

  /** The number of places, and how many zeros go in front after i characters. */
  method Widths(num: Word, base: nat, i: nat, digits: int) returns (places: nat, pad: nat)
    requires 2 <= base <= 16 && -0x8000_0000 <= digits < 0x8000_0000
    ensures Padded(num, base, places) == Significant(num, base) && places == |Significant(num, base)| >= 1
    ensures num < Pow(base, places) && Pow(base, places - 1) < TWO_32
    ensures pad == Pad(digits, i, places)
  {
    places := Ilog(num, base);
    PlacesBound(num, base);
    assert Pow(base, 1) == base && Pow(base, 0) == 1;
    places := if places == 0 then 1 else places;
    FewPlaces(num, base);
    var width := ToInt32(digits - places);
    pad := if i < width then width - i else 0;
  }

  lemma PowChain(b: nat, k: nat, n: nat)
    requires b >= 1 && k <= n
    ensures Pow(b, k) <= Pow(b, n)
  {
    PowGrows(b, k, n - k);
  }
}
