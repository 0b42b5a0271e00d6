/** Machine integer widths used by the display wrapper, and the unsigned
    32-bit wrap-around that C++ applies to `uint32_t` arithmetic. */
module Types {

  type u8 = x: int | 0 <= x < 0x100
  type u16 = x: int | 0 <= x < 0x1_0000
  type u32 = x: int | 0 <= x < 0x1_0000_0000

  const TWO_TO_THE_32: int := 0x1_0000_0000

  /** The value a `uint32_t` holds after an assignment of the mathematical value `x`. */
  function Wrap32(x: int): (r: u32)
    ensures 0 <= x < TWO_TO_THE_32 ==> r == x
    ensures (x - r) % TWO_TO_THE_32 == 0
  {
    x % TWO_TO_THE_32
  }

  /** Adding to an already wrapped value wraps like adding to the original one. */
  lemma Wrap32AddWrapped(x: int, d: int)
    ensures Wrap32(Wrap32(x) + d) == Wrap32(x + d)
  {
    var q := x / TWO_TO_THE_32;
    assert x == q * TWO_TO_THE_32 + Wrap32(x);
    assert x + d == (Wrap32(x) + d) + q * TWO_TO_THE_32;
    ModShift(Wrap32(x) + d, q);
  }

  lemma ModShift(y: int, q: int)
    ensures (y + q * TWO_TO_THE_32) % TWO_TO_THE_32 == y % TWO_TO_THE_32
  {
    var m := TWO_TO_THE_32;
    var r := y % m;
    var k := y / m;
    assert y == k * m + r;
    assert y + q * m == (k + q) * m + r;
  }

  datatype Option<T> = None | Some(value: T)
}
