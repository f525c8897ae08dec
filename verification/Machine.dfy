/** The 32-bit machine the kernel runs on: word arithmetic and word-addressed loads. */
module Machine {

  const TWO_32 := 0x1_0000_0000

  type Word = x: int | 0 <= x < 0x1_0000_0000

  type Byte = x: int | 0 <= x < 256

  /** Memory: the 32-bit word stored at each (byte) address that was ever written. */
  type Memory = map<int, Word>

  datatype Option<+T> = None | Some(value: T)

  /** Unsigned 32-bit wrap-around. */
  function Wrap(x: int): Word {
    x % 0x1_0000_0000
  }

  lemma WrapSmall(x: int)
    requires 0 <= x < TWO_32
    ensures Wrap(x) == x
  {
  }

  lemma WrapWrap(x: int, y: int)
    ensures Wrap(Wrap(x) + y) == Wrap(x + y)
  {
  }

  /** The `int` with the same 32-bit pattern (two's complement). */
  function ToInt32(x: int): int {
    var w := Wrap(x);
    if w < 0x8000_0000 then w else w - 0x1_0000_0000
  }

  /** C's signed division truncates toward zero. */
  function TruncDiv(a: int, b: int): int
    requires b > 0
  {
    if a >= 0 then a / b else -((-a) / b)
  }

  function Load(m: Memory, a: int): Word {
    if a in m then m[a] else 0
  }

  function Min(a: int, b: int): int {
    if a < b then a else b
  }
}
