/** Models of the integer macros of arduino/libraries/Useful/Useful.h:
    `incmod`, `decmod` and `bit`, together with the powers of two they
    rest on.  The macros assign their result back to `val`; here they are
    pure functions returning the value that would be stored. */
module Useful {

  /** `unsigned long` on the Arduino AVR targets is 32 bits wide, so every
      `unsigned long` result is taken modulo this constant. */
  const ULONG_MODULUS: nat := 0x1_0000_0000

  /** 2 to the power `n`. */
  function Pow2(n: nat): (r: nat)
    ensures r >= 1
  {
    if n == 0 then 1 else 2 * Pow2(n - 1)
  }

  lemma {:induction false} Pow2Add(a: nat, b: nat)
    ensures Pow2(a + b) == Pow2(a) * Pow2(b)
    decreases a
  {
    if a > 0 {
      Pow2Add(a - 1, b);
      assert Pow2(a + b) == 2 * Pow2(a - 1 + b);
    }
  }

  lemma Pow2Monotone(a: nat, b: nat)
    requires a <= b
    ensures Pow2(a) <= Pow2(b)
  {
    Pow2Add(a, b - a);
  }

  lemma Pow2Of8()
    ensures Pow2(8) == 256
  {
    assert Pow2(4) == 16 by {
      assert Pow2(1) == 2;
      assert Pow2(2) == 4;
      assert Pow2(3) == 8;
    }
    Pow2Add(4, 4);
  }

  lemma Pow2Of16()
    ensures Pow2(16) == 0x1_0000
    ensures Pow2(15) == 0x8000
  {
    Pow2Of8();
    Pow2Add(8, 8);
    assert Pow2(16) == 2 * Pow2(15);
  }

  /** The two powers the 32-bit types are built from. */
  lemma Pow2Constants()
    ensures Pow2(31) == 0x8000_0000
    ensures Pow2(32) == ULONG_MODULUS
  {
    Pow2Of16();
    Pow2Add(16, 15);
    Pow2Add(16, 16);
  }

  /** `x << n` on an `unsigned long`: bits shifted past bit 31 are lost. */
  function ShiftLeftULong(x: nat, n: nat): (r: nat)
  {
    (x * Pow2(n)) % ULONG_MODULUS
  }

  /** `bit(x)`, that is `1ul << x`.  For every shift the type allows, no
      bit is lost and the result is exactly 2^x. */
  function Bit(x: nat): (r: nat)
    requires x < 32
    ensures r == Pow2(x)
    ensures 1 <= r < ULONG_MODULUS
  {
    Pow2Monotone(x, 31);
    Pow2Constants();
    ShiftLeftULong(1, x)
  }

  /** `incmod(val, modulo)`: the value stored back into `val`.  On the
      range [0, modulo) it is the increment modulo `modulo`. */
  function IncMod(v: int, m: int): (r: int)
    ensures 0 <= v < m ==> 0 <= r < m && r == (v + 1) % m
  {
    if v == m - 1 then 0 else v + 1
  }

  /** `decmod(val, modulo)`: the value stored back into `val`.  On the
      range [0, modulo) it is the decrement modulo `modulo`. */
  function DecMod(v: int, m: int): (r: int)
    ensures 0 <= v < m ==> 0 <= r < m && r == (v - 1) % m
  {
    if v == 0 then m - 1 else v - 1
  }

  /** `decmod` undoes `incmod`. */
  lemma DecModUndoesIncMod(v: int, m: int)
    requires 0 <= v < m
    ensures DecMod(IncMod(v, m), m) == v
  {
  }

  /** `incmod` undoes `decmod`. */
  lemma IncModUndoesDecMod(v: int, m: int)
    requires 0 <= v < m
    ensures IncMod(DecMod(v, m), m) == v
  {
  }
}
