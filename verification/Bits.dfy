/** Single bits of a 32-bit word, and the mask arithmetic of kernel/src/mm/bitarray.c:5-87.

    A word is its unsigned value, so C's shifts by one place are halving and doubling (modulo 2^32), `~` is the
    distance to 0xFFFFFFFF, and `|` and `&` work digit by digit. */
module Bits {
  import opened Machine
  import Numbers

  const ONES: Word := 0xFFFF_FFFF

  const WORD_BITS: nat := 32

  const TOP_BIT: nat := 31

  /** Binary digit k of w. */
  function Bit(w: nat, k: nat): bool
    decreases k, w
  {
    if k == 0 then w % 2 == 1 else Bit(w / 2, k - 1)
  }

  function Pow2(n: nat): (p: nat)
    ensures p > 0
  {
    if n == 0 then 1 else 2 * Pow2(n - 1)
  }

  function Digit(b: bool): nat { if b then 1 else 0 }

  function OrDigits(v: nat, w: nat, n: nat): (r: nat)
    ensures r < Pow2(n)
  {
    if n == 0 then 0 else Digit(v % 2 == 1 || w % 2 == 1) + 2 * OrDigits(v / 2, w / 2, n - 1)
  }

  function AndDigits(v: nat, w: nat, n: nat): (r: nat)
    ensures r < Pow2(n)
  {
    if n == 0 then 0 else Digit(v % 2 == 1 && w % 2 == 1) + 2 * AndDigits(v / 2, w / 2, n - 1)
  }

  lemma Pow32()
    ensures Pow2(31) == 0x8000_0000 && Pow2(32) == 0x1_0000_0000
  {
    assert Pow2(8) == 256;
    assert Pow2(16) == 0x1_0000;
    assert Pow2(24) == 0x100_0000;
  }

  function Or(v: Word, w: Word): Word {
    Pow32();
    OrDigits(v, w, WORD_BITS)
  }

  function And(v: Word, w: Word): Word {
    Pow32();
    AndDigits(v, w, WORD_BITS)
  }

  function Not(w: Word): Word {
    ONES - w
  }

  /** `x << n` on a 64-bit value that does not overflow. */
  function Shl(x: nat, n: nat): nat {
    if n == 0 then x else 2 * Shl(x, n - 1)
  }

  /** `w >> n`. */
  function Shr(w: Word, n: nat): Word
    decreases n
  {
    if n == 0 then w else Shr(w / 2, n - 1)
  }

  /** The mask of bit_set and bit_clear: computed in 64 bits, truncated to 32. */
  function Mask(bits: nat, pos: nat): Word {
    ShlPositive(bits);
    Wrap(Shl(Shl(1, bits) - 1, pos))
  }

  // ----- The digits of each operation -----

  lemma {:induction false} ZeroBits(k: nat)
    ensures !Bit(0, k)
    decreases k
  {
    if k > 0 { ZeroBits(k - 1); }
  }

  lemma {:induction false} OrBit(v: nat, w: nat, n: nat, k: nat)
    requires k < n
    ensures Bit(OrDigits(v, w, n), k) <==> Bit(v, k) || Bit(w, k)
    decreases k
  {
    if k > 0 { OrBit(v / 2, w / 2, n - 1, k - 1); }
  }

  lemma {:induction false} AndBit(v: nat, w: nat, n: nat, k: nat)
    requires k < n
    ensures Bit(AndDigits(v, w, n), k) <==> Bit(v, k) && Bit(w, k)
    decreases k
  {
    if k > 0 { AndBit(v / 2, w / 2, n - 1, k - 1); }
  }

  lemma {:induction false} ComplementBit(w: nat, n: nat, k: nat)
    requires k < n && w < Pow2(n)
    ensures Bit(Pow2(n) - 1 - w, k) <==> !Bit(w, k)
    decreases k
  {
    if k > 0 {
      assert (Pow2(n) - 1 - w) / 2 == Pow2(n - 1) - 1 - w / 2;
      ComplementBit(w / 2, n - 1, k - 1);
    }
  }

  lemma NotBit(w: Word, k: nat)
    requires k < 32
    ensures Bit(Not(w), k) <==> !Bit(w, k)
  {
    Pow32();
    ComplementBit(w, 32, k);
  }

  lemma OnesBits(k: nat)
    requires k < 32
    ensures Bit(ONES, k)
  {
    NotBit(0, k);
    ZeroBits(k);
  }

  lemma {:induction false} ZeroByBits(w: nat, n: nat)
    requires w < Pow2(n)
    requires forall k: nat :: k < n ==> !Bit(w, k)
    ensures w == 0
    decreases n
  {
    if n > 0 {
      assert !Bit(w, 0);
      forall k: nat {:trigger Bit(w / 2, k)} | k < n - 1
        ensures !Bit(w / 2, k)
      {
        assert !Bit(w, k + 1);
      }
      ZeroByBits(w / 2, n - 1);
    }
  }

  /** A word with a set bit is not zero, and one with a clear bit is not all ones ... */
  lemma WordWithBit(w: Word, k: nat)
    requires k < 32
    ensures Bit(w, k) ==> w != 0
    ensures !Bit(w, k) ==> w != ONES
  {
    ZeroBits(k);
    OnesBits(k);
  }

  /** ... and conversely. */
  lemma NonZeroHasBit(w: Word) returns (k: nat)
    requires w != 0
    ensures k < 32 && Bit(w, k)
  {
    Pow32();
    if forall k: nat :: k < 32 ==> !Bit(w, k) {
      ZeroByBits(w, 32);
    }
    k :| k < 32 && Bit(w, k);
  }

  lemma NotOnesHasClearBit(w: Word) returns (k: nat)
    requires w != ONES
    ensures k < 32 && !Bit(w, k)
  {
    k := NonZeroHasBit(Not(w));
    NotBit(w, k);
  }

  lemma {:induction false} ShrBit(w: Word, n: nat, k: nat)
    ensures Bit(Shr(w, n), k) == Bit(w, n + k)
    decreases n
  {
    if n > 0 { ShrBit(w / 2, n - 1, k); }
  }

  lemma {:induction false} ShrLast(w: Word, n: nat)
    ensures Shr(w, n) / 2 == Shr(w, n + 1)
    decreases n
  {
    if n > 0 { ShrLast(w / 2, n - 1); }
  }

  lemma {:induction false} ShlBit(x: nat, n: nat, k: nat)
    ensures Bit(Shl(x, n), k) <==> n <= k && Bit(x, k - n)
    decreases n
  {
    if n > 0 && k > 0 { ShlBit(x, n - 1, k - 1); }
  }

  lemma {:induction false} ShlPositive(n: nat)
    ensures Shl(1, n) == Pow2(n)
  {
    if n > 0 { ShlPositive(n - 1); }
  }

  lemma {:induction false} LowOnes(n: nat, k: nat)
    ensures Bit(Pow2(n) - 1, k) <==> k < n
    decreases n
  {
    if n == 0 {
      ZeroBits(k);
    } else if k > 0 {
      assert (Pow2(n) - 1) / 2 == Pow2(n - 1) - 1;
      LowOnes(n - 1, k - 1);
    }
  }

  lemma HalfOfRemainder(x: nat, p: nat)
    requires p > 0
    ensures (x % (2 * p)) / 2 == (x / 2) % p
  {
    var q, r := x / (2 * p), x % (2 * p);
    assert x == 2 * (p * q) + r by { assert x == (2 * p) * q + r; assert (2 * p) * q == 2 * (p * q); }
    assert x / 2 == p * q + r / 2;
    Numbers.DivModUnique(x / 2, p, q, r / 2);
  }

  /** Truncating keeps the low digits. */
  lemma {:induction false} TruncateBit(x: nat, n: nat, k: nat)
    requires k < n
    ensures Bit(x % Pow2(n), k) == Bit(x, k)
    decreases k
  {
    HalfOfRemainder(x, Pow2(n - 1));
    if k > 0 { TruncateBit(x / 2, n - 1, k - 1); } else { ParityOfRemainder(x, Pow2(n - 1)); }
  }

  lemma ParityOfRemainder(x: nat, p: nat)
    requires p > 0
    ensures (x % (2 * p)) % 2 == x % 2
  {
    var q := x / (2 * p);
    assert x == (2 * p) * q + x % (2 * p);
    assert (2 * p) * q == 2 * (p * q);
  }

  lemma MaskBit(bits: nat, pos: nat, k: nat)
    requires k < 32
    ensures Bit(Mask(bits, pos), k) <==> pos <= k < pos + bits
  {
    Pow32();
    ShlPositive(bits);
    TruncateBit(Shl(Shl(1, bits) - 1, pos), 32, k);
    ShlBit(Shl(1, bits) - 1, pos, k);
    if pos <= k { LowOnes(bits, k - pos); }
  }

  /** Sets bits of src starting from pos. */
  function BitSet(src: Word, bits: nat, pos: nat): (r: Word)
    ensures forall k: nat :: k < 32 ==> (Bit(r, k) <==> Bit(src, k) || pos <= k < pos + bits)
  {
    BitSetBits(src, bits, pos);
    Or(src, Mask(bits, pos))
  }

  lemma BitSetBits(src: Word, bits: nat, pos: nat)
    ensures forall k: nat :: k < 32 ==> (Bit(Or(src, Mask(bits, pos)), k) <==> Bit(src, k) || pos <= k < pos + bits)
  {
    forall k: nat | k < 32
      ensures Bit(Or(src, Mask(bits, pos)), k) <==> Bit(src, k) || pos <= k < pos + bits
    {
      OrBit(src, Mask(bits, pos), 32, k);
      MaskBit(bits, pos, k);
    }
  }

  /** Clears bits of src starting from pos. */
  function BitClear(src: Word, bits: nat, pos: nat): (r: Word)
    ensures forall k: nat :: k < 32 ==> (Bit(r, k) <==> Bit(src, k) && !(pos <= k < pos + bits))
  {
    BitClearBits(src, bits, pos);
    And(src, Not(Mask(bits, pos)))
  }

  lemma BitClearBits(src: Word, bits: nat, pos: nat)
    ensures forall k: nat :: k < 32 ==>
              (Bit(And(src, Not(Mask(bits, pos))), k) <==> Bit(src, k) && !(pos <= k < pos + bits))
  {
    forall k: nat | k < 32
      ensures Bit(And(src, Not(Mask(bits, pos))), k) <==> Bit(src, k) && !(pos <= k < pos + bits)
    {
      AndBit(src, Not(Mask(bits, pos)), 32, k);
      NotBit(Mask(bits, pos), k);
      MaskBit(bits, pos, k);
    }
  }

  // ----- Bit scans -----

  lemma {:induction false} TopBit(w: nat, n: nat)
    requires w < 2 * Pow2(n)
    ensures Bit(w, n) <==> w >= Pow2(n)
    decreases n
  {
    if n > 0 { TopBit(w / 2, n - 1); }
  }

  /** `dword & 0x80000000` is not zero exactly when bit 31 is set. */
  lemma SignBit(w: Word)
    ensures Bit(w, TOP_BIT) <==> w >= 0x8000_0000
  {
    Pow32();
    TopBit(w, TOP_BIT);
  }

  lemma DoubleBit(w: Word, k: nat)
    requires k < 31
    ensures Bit(Wrap(2 * w), k + 1) == Bit(w, k)
  {
    Pow32();
    TruncateBit(2 * w, 32, k + 1);
  }

  /** Bits 0..index of w, moved to the top of d. */
  ghost predicate Doubled(w: Word, d: Word, index: nat)
    requires index <= 31
  {
    forall k: nat :: k <= index ==> Bit(w, k) == Bit(d, k + (31 - index))
  }

  lemma DoubledOnce(w: Word, d: Word, index: nat)
    requires 0 < index <= 31 && Doubled(w, d, index)
    ensures Doubled(w, Wrap(2 * d), index - 1)
  {
    forall k: nat | k <= index - 1
      ensures Bit(w, k) == Bit(Wrap(2 * d), k + (31 - (index - 1)))
    {
      DoubleBit(d, k + (31 - index));
    }
  }

  /** bsr: the position of the last set bit (0 when there is none). */
  method Bsr(word: Word) returns (index: nat)
    ensures index < 32
    ensures forall k: nat :: index < k < 32 ==> !Bit(word, k)
    ensures word != 0 ==> Bit(word, index)
    ensures word == 0 ==> index == 0
  {
    var dword: Word := word;
    index := 31;
    while dword < 0x8000_0000 && index != 0
      invariant index <= 31
      invariant forall k: nat :: index < k < 32 ==> !Bit(word, k)
      invariant Doubled(word, dword, index)
    {
      SignBit(dword);
      assert !Bit(word, index);
      DoubledOnce(word, dword, index);
      dword := Wrap(2 * dword);
      index := index - 1;
    }
    SignBit(dword);
    assert Bit(word, index) == Bit(dword, TOP_BIT);
    if word == 0 {
      ZeroBits(index);
    } else {
      var k := NonZeroHasBit(word);
    }
  }

  /** bsf: the position of the first set bit (32 when there is none). */
  method Bsf(word: Word) returns (index: nat)
    ensures index <= 32
    ensures forall k: nat :: k < index ==> !Bit(word, k)
    ensures index < 32 ==> Bit(word, index)
    ensures word == 0 <==> index == 32
  {
    var dword: Word := word;
    index := 0;
    while dword % 2 == 0 && index < 32
      invariant index <= 32
      invariant forall k: nat :: k < index ==> !Bit(word, k)
      invariant dword == Shr(word, index)
    {
      ShrBit(word, index, 0);
      ShrLast(word, index);
      dword := dword / 2;
      index := index + 1;
    }
    ShrBit(word, index, 0);
    if index < 32 { WordWithBit(word, index); } else if word != 0 { var k := NonZeroHasBit(word); }
  }
}
