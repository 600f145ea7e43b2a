/** Congruence modulo m through explicit quotients, and powers. */
module Congruence {
  import opened Words

  lemma MulLe(x: int, y: int, z: int)
    requires x <= y && 0 <= z
    ensures x * z <= y * z
  {
  }

  lemma MulSum(x: int, y: int, z: int)
    ensures (x + y) * z == x * z + y * z && z * (x + y) == z * x + z * y
  {
  }

  lemma MulSwap(x: int, y: int, z: int)
    ensures x * (y * z) == y * (x * z) && x * (y * z) == (x * y) * z
  {
  }

  /** a and b leave the same remainder modulo m. */
  predicate Cong(a: int, b: int, m: nat)
    requires m > 0
  {
    a % m == b % m
  }

  lemma RemainderUnique(a: int, q: int, r: int, m: nat)
    requires m > 0 && a == q * m + r && 0 <= r < m
    ensures a % m == r && a / m == q
  {
    var d := a / m - q;
    assert a == (a / m) * m + a % m;
    assert d * m == r - a % m by { assert (a / m - q) * m == (a / m) * m - q * m; }
    assert d >= 1 ==> d * m >= m;
    assert d <= -1 ==> d * m <= 0 - m;
  }

  /** Adding a multiple of the modulus does not change the remainder. */
  lemma CongOf(a: int, b: int, k: int, m: nat)
    requires m > 0 && a == b + k * m
    ensures Cong(a, b, m)
  {
    assert b == (b / m) * m + b % m;
    assert a == (b / m + k) * m + b % m by { assert (b / m + k) * m == (b / m) * m + k * m; }
    RemainderUnique(a, b / m + k, b % m, m);
  }

  lemma Quotient(a: int, b: int, m: nat) returns (k: int)
    requires m > 0 && Cong(a, b, m)
    ensures a == b + k * m
  {
    k := a / m - b / m;
    assert a == (a / m) * m + a % m && b == (b / m) * m + b % m;
    assert k * m == (a / m) * m - (b / m) * m;
  }

  lemma CongTrans(a: int, b: int, c: int, m: nat)
    requires m > 0 && Cong(a, b, m) && Cong(b, c, m)
    ensures Cong(a, c, m)
  {
  }

  lemma CongSwap(a: int, b: int, m: nat)
    requires m > 0 && Cong(a, b, m)
    ensures Cong(b, a, m)
  {
  }

  lemma CongAdd(a: int, b: int, c: int, d: int, m: nat)
    requires m > 0 && Cong(a, b, m) && Cong(c, d, m)
    ensures Cong(a + c, b + d, m)
  {
    var k := Quotient(a, b, m);
    var l := Quotient(c, d, m);
    assert (k + l) * m == k * m + l * m;
    CongOf(a + c, b + d, k + l, m);
  }

  lemma CongSub(a: int, b: int, c: int, d: int, m: nat)
    requires m > 0 && Cong(a, b, m) && Cong(c, d, m)
    ensures Cong(a - c, b - d, m)
  {
    var k := Quotient(a, b, m);
    var l := Quotient(c, d, m);
    assert (k - l) * m == k * m - l * m;
    CongOf(a - c, b - d, k - l, m);
  }

  lemma CongScale(a: int, b: int, c: int, m: nat)
    requires m > 0 && Cong(a, b, m)
    ensures Cong(a * c, b * c, m) && Cong(c * a, c * b, m)
  {
    var k := Quotient(a, b, m);
    MulSum(b, k * m, c);
    MulSwap(c, k, m);
    CongOf(a * c, b * c, c * k, m);
  }

  lemma CongMul(a: int, b: int, c: int, d: int, m: nat)
    requires m > 0 && Cong(a, b, m) && Cong(c, d, m)
    ensures Cong(a * c, b * d, m)
  {
    CongScale(a, b, c, m);
    CongScale(c, d, b, m);
  }

  lemma ModIsCong(a: int, m: nat)
    requires m > 0
    ensures Cong(a % m, a, m) && 0 <= a % m < m
  {
    RemainderUnique(a % m, 0, a % m, m);
  }

  /** A remainder below the modulus is determined by its class. */
  lemma CongSmall(a: int, b: int, m: nat)
    requires 0 <= b < m && Cong(a, b, m)
    ensures a % m == b
  {
    RemainderUnique(b, 0, b, m);
  }

  /** Twice d is a multiple of an odd m only if d is. */
  lemma CancelTwo(a: int, b: int, m: nat)
    requires m % 2 == 1 && Cong(2 * a, 2 * b, m)
    ensures Cong(a, b, m)
  {
    var k := Quotient(2 * a, 2 * b, m);
    var h, r := k / 2, k % 2;
    assert 2 * (a - b) == k * m == 2 * (h * m) + r * m by {
      assert (2 * h + r) * m == 2 * (h * m) + r * m;
    }
    assert r == 0;
    CongOf(a, b, h, m);
  }

  /** A power of two cancels modulo an odd number. */
  lemma {:induction false} CancelPow2(a: int, b: int, e: nat, m: nat)
    requires m % 2 == 1 && Cong(a * Pow2(e), b * Pow2(e), m)
    ensures Cong(a, b, m)
  {
    hide Cong;
    if e == 0 {
      assert a * 1 == a && b * 1 == b;
    } else {
      MulSwap(a, 2, Pow2(e - 1));
      MulSwap(b, 2, Pow2(e - 1));
      CancelTwo(a * Pow2(e - 1), b * Pow2(e - 1), m);
      CancelPow2(a, b, e - 1, m);
    }
  }

  /** b to the power e. */
  function Pow(b: int, e: nat): int
  {
    if e == 0 then 1 else b * Pow(b, e - 1)
  }

  lemma {:induction false} PowSum(b: int, x: nat, y: nat)
    ensures Pow(b, x + y) == Pow(b, x) * Pow(b, y)
  {
    if x > 0 {
      PowSum(b, x - 1, y);
      MulSwap(b, Pow(b, x - 1), Pow(b, y));
    }
  }

  lemma {:induction false} PowCong(a: int, b: int, e: nat, m: nat)
    requires m > 0 && Cong(a, b, m)
    ensures Cong(Pow(a, e), Pow(b, e), m)
  {
    if e > 0 {
      PowCong(a, b, e - 1, m);
      CongMul(a, b, Pow(a, e - 1), Pow(b, e - 1), m);
    }
  }

  lemma {:induction false} PowNonNegative(b: nat, e: nat)
    ensures Pow(b, e) >= 0
  {
    if e > 0 { PowNonNegative(b, e - 1); }
  }
}
