/** Machine words as bounded integers, and the bitwise operators of C on them.
    A variable declared `U64` may only be assigned a value that fits in 64 bits,
    so every such assignment is a proof that the C accumulator does not overflow.
    32-bit wrap-around is always written out as `% BASE`. */
module Words {
  const BASE: nat := 0x1_0000_0000

  type U8 = x: int | 0 <= x < 0x100
  type U16 = x: int | 0 <= x < 0x1_0000
  type U32 = x: int | 0 <= x < 0x1_0000_0000
  type U64 = x: int | 0 <= x < 0x1_0000_0000_0000_0000

  const ALL_ONES: U32 := 0xFFFF_FFFF

  function Min(x: int, y: int): int { if x < y then x else y }

  /** A text without its terminator. */
  predicate NoNul(s: seq<U8>) { forall i :: 0 <= i < |s| ==> s[i] != 0 }

  /** Bitwise AND, one bit at a time from the least significant one. */
  function BitAnd(x: nat, y: nat): nat
    decreases x
  {
    if x == 0 || y == 0 then 0 else (x % 2) * (y % 2) + 2 * BitAnd(x / 2, y / 2)
  }

  /** Bitwise OR. */
  function BitOr(x: nat, y: nat): nat
    decreases x + y
  {
    if x == 0 then y else if y == 0 then x
    else (if x % 2 == 1 || y % 2 == 1 then 1 else 0) + 2 * BitOr(x / 2, y / 2)
  }

  /** Bitwise XOR. */
  function BitXor(x: nat, y: nat): nat
    decreases x + y
  {
    if x == 0 then y else if y == 0 then x
    else (if x % 2 == y % 2 then 0 else 1) + 2 * BitXor(x / 2, y / 2)
  }

  /** Bitwise complement of a 32-bit word. */
  function BitNot32(x: U32): U32 { ALL_ONES - x }

  /** Two to the power n. */
  function Pow2(n: nat): (r: nat)
    ensures r >= 1
  {
    if n == 0 then 1 else 2 * Pow2(n - 1)
  }

  /** Masking with n one bits keeps a value of n bits. */
  lemma {:induction false} AndLowMask(x: nat, n: nat)
    requires x < Pow2(n)
    ensures BitAnd(x, Pow2(n) - 1) == x
  {
    hide BitAnd;
    if n == 0 || x == 0 {
      AndNone(Pow2(n) - 1);
    } else {
      AndLowMask(x / 2, n - 1);
      AndOdd(x, Pow2(n - 1) - 1);
    }
  }

  lemma AndNone(y: nat)
    ensures BitAnd(0, y) == 0
  {
  }

  lemma AndOdd(x: nat, q: nat)
    requires x > 0
    ensures BitAnd(x, 2 * q + 1) == x % 2 + 2 * BitAnd(x / 2, q)
  {
    assert (2 * q + 1) / 2 == q && (2 * q + 1) % 2 == 1;
  }

  lemma Pow2At32()
    ensures Pow2(8) == 0x100 && Pow2(16) == 0x1_0000 && Pow2(32) == BASE
  {
    assert Pow2(8) == 256;
    assert Pow2(16) == 65536 by { Pow2Sum(8, 8); }
    Pow2Sum(16, 16);
  }

  lemma {:induction false} Pow2Sum(a: nat, b: nat)
    ensures Pow2(a + b) == Pow2(a) * Pow2(b)
  {
    if a > 0 { Pow2Sum(a - 1, b); }
  }

  /** An all-ones mask keeps a word, a zero mask clears it. */
  lemma MaskWord(x: U32)
    ensures BitAnd(x, ALL_ONES) == x && BitAnd(x, 0) == 0
  {
    Pow2At32();
    AndLowMask(x, 32);
  }

  /** The three-operator select of C: `(r & mask) | (t & ~mask)`. */
  lemma MaskSelect(r: U32, t: U32, mask: U32)
    requires mask == 0 || mask == ALL_ONES
    ensures BitOr(BitAnd(r, mask), BitAnd(t, BitNot32(mask))) == if mask == 0 then t else r
  {
    MaskWord(r);
    MaskWord(t);
  }

  /** `0U - bit` is the mask of a bit. */
  function MaskOf(bit: U32): U32 { (0 - bit) % BASE }

  lemma MaskOfBit()
    ensures MaskOf(0) == 0 && MaskOf(1) == ALL_ONES
  {
  }

  /** The one-bit truth tables used by the carry logic. */
  lemma OneBitTables()
    ensures BitXor(0, 1) == 1 && BitXor(1, 1) == 0
    ensures BitOr(0, 0) == 0 && BitOr(0, 1) == 1 && BitOr(1, 0) == 1 && BitOr(1, 1) == 1
    ensures BitAnd(0, 1) == 0 && BitAnd(1, 1) == 1
  {
  }

  /** OR of an even number and a bit is their sum. */
  lemma OrLowBit(x: nat, bit: nat)
    requires x % 2 == 0 && bit <= 1
    ensures BitOr(x, bit) == x + bit
  {
    if x > 0 && bit > 0 { assert BitOr(x / 2, 0) == x / 2; }
  }

  /** Division and remainder by 2p from those by p. */
  lemma Halves(x: nat, p: nat)
    requires p > 0
    ensures x / (2 * p) == x / p / 2 && x % (2 * p) == x % p + (x / p % 2) * p
  {
    var q := x / p;
    var a, b, c := q / 2, q % 2, x % p;
    assert x == q * p + c;
    HalfParts(a, b, c, p);
    DivideUnique(x, a, b * p + c, 2 * p);
  }

  lemma HalfParts(a: nat, b: nat, c: nat, p: nat)
    requires b <= 1 && c < p
    ensures (2 * a + b) * p + c == a * (2 * p) + (b * p + c) && b * p + c < 2 * p
  {
    assert (2 * a + b) * p == 2 * (a * p) + b * p;
  }

  /** Reading one more bit below the ones already read. */
  lemma BitStep(x: nat, k: nat)
    ensures x / Pow2(k) == 2 * (x / Pow2(k + 1)) + BitAt(x, k)
    ensures x % Pow2(k + 1) == x % Pow2(k) + BitAt(x, k) * Pow2(k)
  {
    Halves(x, Pow2(k));
  }

  lemma DivideUnique(x: nat, q: nat, r: nat, d: nat)
    requires d > 0 && r < d && x == q * d + r
    ensures x / d == q && x % d == r
  {
    var e := x / d - q;
    assert x == (x / d) * d + x % d;
    assert e * d == r - x % d by { assert (x / d - q) * d == (x / d) * d - q * d; }
    assert e >= 1 ==> e * d >= d;
    assert e <= -1 ==> e * d <= 0 - d;
  }

  /** `(x >> k) & 1`. */
  function BitAt(x: nat, k: nat): (r: nat)
    ensures r <= 1
  {
    x / Pow2(k) % 2
  }
}
