/** Numbers as the kernel's %x conversion prints them. */
module Hexadecimal {
  import opened Bytes

  function Digit(d: nat): byte
    requires d < 16
  {
    if d < 10 then 48 + d else 87 + d
  }

  /** Lower-case digits of v, padded with zeros to at least `width` places. */
  function Hex(v: nat, width: nat): (s: bytes)
    ensures |s| >= 1 && |s| >= width
    decreases v, width
  {
    if v < 16 && width <= 1 then [Digit(v)]
    else Hex(v / 16, if width == 0 then 0 else width - 1) + [Digit(v % 16)]
  }

  function Pow16(n: nat): nat
  {
    if n == 0 then 1 else 16 * Pow16(n - 1)
  }

  lemma {:induction false} HexLength(v: nat, width: nat, n: nat)
    requires v < Pow16(n) && 1 <= n && width <= n
    ensures |Hex(v, width)| <= n
    decreases n
  {
    if n == 1 {
      assert Pow16(1) == 16 * Pow16(0);
    } else {
      assert v / 16 < Pow16(n - 1);
      HexLength(v / 16, if width == 0 then 0 else width - 1, n - 1);
    }
  }
}
