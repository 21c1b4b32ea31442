/** Java's 32-bit `int` cells and the `(char)` conversion used on output. */
module Int32 {

  const MIN: int := -0x8000_0000
  const MAX: int := 0x7fff_ffff
  const MODULUS: int := 0x1_0000_0000

  /** A Java `int`: two's-complement, 32 bits. */
  newtype int32 = x: int | -0x8000_0000 <= x < 0x8000_0000

  /** A Java `char`: one UTF-16 code unit, 0 through 65535. */
  type Code = c: int | 0 <= c < 0x1_0000

  /** Reduce a mathematical integer to the Java `int` with the same low 32 bits. */
  function Wrap(x: int): (r: int32)
    ensures (r as int - x) % MODULUS == 0
    ensures MIN <= x <= MAX ==> r as int == x
  {
    ((x - MIN) % MODULUS + MIN) as int32
  }

  /** `v + 1` on a Java `int`: MAX wraps around to MIN. */
  function Inc(v: int32): (r: int32)
    ensures (r as int - v as int - 1) % MODULUS == 0
    ensures v as int < MAX ==> r as int == v as int + 1
    ensures v as int == MAX ==> r as int == MIN
  {
    Wrap(v as int + 1)
  }

  /** `v - 1` on a Java `int`: MIN wraps around to MAX. */
  function Dec(v: int32): (r: int32)
    ensures (r as int - v as int + 1) % MODULUS == 0
    ensures MIN < v as int ==> r as int == v as int - 1
    ensures v as int == MIN ==> r as int == MAX
  {
    Wrap(v as int - 1)
  }

  /** `+` and `-` undo each other, wrap-around included. */
  lemma IncDecInverse(v: int32)
    ensures Dec(Inc(v)) == v && Inc(Dec(v)) == v
  {
  }

  /** `(char) v`: the low 16 bits of the cell, read as an unsigned code unit. */
  function CharOf(v: int32): (r: Code)
    ensures (r - v as int) % 0x1_0000 == 0
  {
    v as int % 0x1_0000
  }

  /** A code read by `,` and printed back by `.` comes out unchanged. */
  lemma CharOfCode(c: Code)
    ensures CharOf(c as int32) == c
  {
  }
}
