/** Machine words: 64-bit patterns as naturals below 2^64, 32-bit words as naturals below 2^32, and the
    usual option type. */
module Words {
  datatype Option<+T> = None | Some(value: T)

  const TWO64 := 0x1_0000_0000_0000_0000

  type Word = w: int | 0 <= w < TWO64 witness 0

  /** 64-bit wrap-around. */
  function Wrap(x: int): Word {
    x % TWO64
  }

  type Byte = b: int | 0 <= b < 256

  const TWO32 := 0x1_0000_0000

  /** A 32-bit word as a number. */
  type Word32 = w: int | 0 <= w < TWO32

  function Power2(n: nat): (r: nat)
    ensures r > 0
  {
    if n == 0 then 1 else 2 * Power2(n - 1)
  }

  function Bit(b: bool): nat { if b then 1 else 0 }
}
