/** The number denoted by a little-endian sequence of 32-bit limbs. */
module Limbs {
  import opened Words
  import opened Congruence

  /** The weight of limb n. */
  function Weight(n: nat): (r: nat)
    ensures r >= 1
  {
    if n == 0 then 1 else BASE * Weight(n - 1)
  }

  /** The value of a limb sequence, least significant limb first. */
  function Val(s: seq<U32>): nat
  {
    if |s| == 0 then 0 else Val(s[..|s| - 1]) + s[|s| - 1] * Weight(|s| - 1)
  }

  lemma ValEmpty(s: seq<U32>)
    ensures Val(s[..0]) == 0 && Weight(0) == 1
  {
  }

  lemma ValSnoc(s: seq<U32>, i: nat)
    requires i < |s|
    ensures Val(s[..i + 1]) == Val(s[..i]) + s[i] * Weight(i)
  {
    assert s[..i + 1][..i] == s[..i];
  }

  lemma {:induction false} ValBound(s: seq<U32>)
    ensures Val(s) < Weight(|s|)
  {
    if |s| > 0 {
      var k := |s| - 1;
      ValBound(s[..k]);
      MulLe(s[k], BASE - 1, Weight(k));
      MulSum(BASE, -1, Weight(k));
    }
  }

  lemma {:induction false} WeightSum(a: nat, b: nat)
    ensures Weight(a + b) == Weight(a) * Weight(b)
  {
    if a > 0 {
      WeightSum(a - 1, b);
      MulSwap(BASE, Weight(a - 1), Weight(b));
    }
  }

  /** The weights are the powers of two of exponent 32n. */
  lemma {:induction false} WeightIsPow2(n: nat)
    ensures Weight(n) == Pow2(32 * n)
  {
    if n > 0 {
      WeightIsPow2(n - 1);
      Pow2At32();
      Pow2Sum(32, 32 * (n - 1));
    }
  }

  /** Low limbs plus weighted high limbs. */
  lemma {:induction false} ValSplit(s: seq<U32>, i: nat)
    requires i <= |s|
    ensures Val(s) == Val(s[..i]) + Weight(i) * Val(s[i..])
  {
    if i == |s| {
      assert s[..i] == s;
    } else {
      var k := |s| - 1;
      var h := s[i..];
      ValSplit(s[..k], i);
      assert s[..k][..i] == s[..i] && s[..k][i..] == h[..k - i];
      assert Val(h) == Val(h[..k - i]) + s[k] * Weight(k - i);
      WeightSum(i, k - i);
      MulSum(Val(h[..k - i]), s[k] * Weight(k - i), Weight(i));
      MulSwap(Weight(i), s[k], Weight(k - i));
    }
  }

  lemma {:induction false} ValZero(s: seq<U32>)
    requires forall k :: 0 <= k < |s| ==> s[k] == 0
    ensures Val(s) == 0
  {
    if |s| > 0 { ValZero(s[..|s| - 1]); }
  }

  /** Limbs above a value that are zero do not count. */
  lemma ValTrim(s: seq<U32>, i: nat)
    requires i <= |s| && forall k :: i <= k < |s| ==> s[k] == 0
    ensures Val(s) == Val(s[..i])
  {
    ValSplit(s, i);
    ValZero(s[i..]);
  }

  /** A value below Weight(i) has no limb set at or above i. */
  lemma {:induction false} ValSmall(s: seq<U32>, i: nat)
    requires i <= |s| && Val(s) < Weight(i)
    ensures forall k :: i <= k < |s| ==> s[k] == 0
  {
    if i < |s| {
      var k := |s| - 1;
      WeightSum(i, k - i);
      MulLe(1, Weight(k - i), Weight(i));
      var top := s[k];
      assert Val(s) == Val(s[..k]) + top * Weight(k);
      MulLe(0, top, Weight(k));
      if top > 0 { MulLe(1, top, Weight(k)); }
      assert top == 0;
      ValSmall(s[..k], i);
    }
  }

  /** Equal high limbs and a larger limb below them decide the order. */
  lemma ValCompare(s: seq<U32>, t: seq<U32>, k: nat)
    requires |s| == |t| && k < |s| && s[k + 1..] == t[k + 1..] && s[k] > t[k]
    ensures Val(s) > Val(t)
  {
    ValSplit(s, k + 1);
    ValSplit(t, k + 1);
    ValSnoc(s, k);
    ValSnoc(t, k);
    ValBound(t[..k]);
    MulLe(t[k] + 1, s[k], Weight(k));
    MulSum(t[k], 1, Weight(k));
  }

  /** A limb sequence of fixed width is determined by its value. */
  lemma {:induction false} ValInjective(s: seq<U32>, t: seq<U32>)
    requires |s| == |t| && Val(s) == Val(t)
    ensures s == t
  {
    if |s| > 0 {
      var k := |s| - 1;
      ValBound(s[..k]);
      ValBound(t[..k]);
      RemainderUnique(Val(s), s[k], Val(s[..k]), Weight(k));
      RemainderUnique(Val(t), t[k], Val(t[..k]), Weight(k));
      ValInjective(s[..k], t[..k]);
      assert s == s[..k] + [s[k]] && t == t[..k] + [t[k]];
    }
  }

  /** Limb i of s, zero beyond its length (how the C loops read an operand). */
  function Digit(s: seq<U32>, i: nat): U32 { if i < |s| then s[i] else 0 }

  /** The first n limbs of s, zero padded. */
  function Padded(s: seq<U32>, n: nat): (r: seq<U32>)
    ensures |r| == n && forall i :: 0 <= i < n ==> r[i] == Digit(s, i)
  {
    seq(n, i requires i >= 0 => Digit(s, i))
  }

  lemma PaddedVal(s: seq<U32>, n: nat)
    requires Val(s) < Weight(n)
    ensures Val(Padded(s, n)) == Val(s)
  {
    var p := Padded(s, n);
    if |s| <= n {
      ValTrim(p, |s|);
      assert p[..|s|] == s;
    } else {
      ValSmall(s, n);
      ValTrim(s, n);
      assert s[..n] == p;
    }
  }

  /** The value with the next lower limb appended below. */
  lemma ValCons(s: seq<U32>, i: nat)
    requires i < |s|
    ensures Val(s[i..]) == s[i] + BASE * Val(s[i + 1..])
  {
    var t := s[i..];
    ValSplit(t, 1);
    assert t[1..] == s[i + 1..];
    ValSnoc(t, 0);
    assert t[..1] == t[..0 + 1];
    assert Weight(1) == BASE * Weight(0);
  }

  // ---------------------------------------------------------------- fields of limbs

  lemma DivDivParts(x: nat, a: nat, b: nat, q: nat, r: nat, u: nat, v: nat)
    requires r < a && v < b && x == q * a + r && q == u * b + v
    ensures v * a >= 0 && v * a + r < a * b && x == u * (a * b) + (v * a + r)
  {
    MulSum(u * b, v, a);
    MulSwap(u, b, a);
    MulLe(0, v, a);
    MulLe(v, b - 1, a);
    MulSum(b, -1, a);
  }

  lemma DivDiv(x: nat, a: nat, b: nat)
    requires a > 0 && b > 0
    ensures a * b > 0 && x / (a * b) == x / a / b
  {
    var q, r := x / a, x % a;
    var u, v := q / b, q % b;
    DivDivParts(x, a, b, q, r, u, v);
    DivideUnique(x, u, v * a + r, a * b);
  }

  /** Adding a multiple of p * q leaves the field of weight p and range q alone. */
  lemma FieldKept(x: nat, p: nat, q: nat, k: nat)
    requires p > 0 && q > 0
    ensures (x + p * (q * k)) / p % q == x / p % q
  {
    var d, r := x / p, x % p;
    assert x == d * p + r;
    assert p * (q * k) == (q * k) * p;
    MulSum(d, q * k, p);
    MulLe(0, k, q);
    DivideUnique(x + p * (q * k), d + q * k, r, p);
    CongOf(d + q * k, d, k, q);
  }

  lemma AboveLimb(s: seq<U32>, i: nat)
    requires i < |s|
    ensures Val(s) / Pow2(32 * i) == s[i] + BASE * Val(s[i + 1..])
  {
    hide Val, Weight, Pow2;
    ValSplit(s, i);
    ValCons(s, i);
    ValBound(s[..i]);
    WeightIsPow2(i);
    DivideSum(Val(s), Val(s[..i]), Val(s[i..]), Weight(i));
  }

  lemma DivideSum(x: nat, low: nat, high: nat, d: nat)
    requires low < d && x == low + d * high
    ensures x / d == high
  {
    DivideUnique(x, high, low, d);
  }

  lemma BaseSplit(j: nat, w: nat, rest: nat)
    requires j + w <= 32
    ensures BASE * rest == Pow2(j) * (Pow2(w) * (Pow2(32 - j - w) * rest))
  {
    hide Pow2;
    var c := Pow2(32 - j - w);
    Pow2At32();
    Pow2Sum(j + w, 32 - j - w);
    Pow2Sum(j, w);
    MulSwap(Pow2(j), Pow2(w), c * rest);
    MulSwap(Pow2(j) * Pow2(w), c, rest);
  }

  /** Bits j up to j + w of limb i are bits 32 i + j up to 32 i + j + w of the number. */
  lemma LimbField(s: seq<U32>, i: nat, j: nat, w: nat)
    requires i < |s| && j + w <= 32
    ensures Val(s) / Pow2(32 * i + j) % Pow2(w) == s[i] / Pow2(j) % Pow2(w)
  {
    hide Val, Weight, Pow2;
    var rest := Val(s[i + 1..]);
    AboveLimb(s, i);
    Pow2Sum(32 * i, j);
    DivDiv(Val(s), Pow2(32 * i), Pow2(j));
    BaseSplit(j, w, rest);
    FieldKept(s[i], Pow2(j), Pow2(w), Pow2(32 - j - w) * rest);
  }

  /** Bit j of limb i is bit 32 i + j of the number. */
  lemma LimbBit(s: seq<U32>, i: nat, j: nat)
    requires i < |s| && j < 32
    ensures BitAt(s[i], j) == BitAt(Val(s), 32 * i + j)
  {
    hide Val, Pow2;
    LimbField(s, i, j, 1);
    TwoIsPow();
  }

  lemma TwoIsPow()
    ensures Pow2(1) == 2
  {
  }
}
