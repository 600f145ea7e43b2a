/** The word-serial Montgomery product (kernel/bigint.c:161-189). */
module Montgomery {
  import opened Words
  import opened Congruence
  import opened Limbs
  import opened BigIntCore

  const MONT_MAX_LIMBS: nat := 128

  /** 32x32 product plus two words still fits in 64 bits. */
  lemma ProductFits(a: U32, w: U32, t: U32, x: U32)
    ensures 0 <= a * w + t + x < 0x1_0000_0000_0000_0000
  {
    MulLe(0, a, w);
    MulLe(a, 0xFFFF_FFFF, w);
    var p: int := a * w;
    assert 0 <= p <= 0xFFFF_FFFF * w;
  }

  /** One multiply-accumulate step keeps the row sum exact. */
  lemma RowStep(v: int, v': int, old_: int, old': int, a: int, a': int, w: int,
                d: int, t: int, aj: int, x: int, x': int, k: int)
    requires v + x * k == old_ + a * w
    requires d + x' * BASE == aj * w + t + x
    requires v' == v + d * k && old' == old_ + t * k && a' == a + aj * k
    ensures v' + x' * (BASE * k) == old' + a' * w
  {
    MulSwap(x', BASE, k);
    MulSum(d, x' * BASE, k);
    MulSum(aj * w + t, x, k);
    MulSum(aj * w, t, k);
    MulSum(a, aj * k, w);
    MulSwap(w, aj, k);
  }

  /** Adds a times one word w to t: the inner multiplication loop, then the two top words. */
  method AddRow(t: array<U32>, a: array<U32>, w: U32, n: nat)
    requires n + 2 <= t.Length && n <= a.Length && t != a
    modifies t
    ensures Val(t[..n + 2]) == old(Val(t[..n + 1])) + Val(a[..n]) * w
  {
    hide Val, Weight;
    ghost var was, s := t[..], a[..n];
    ValEmpty(was);
    ValEmpty(s);
    ValEmpty(t[..]);
    var x: U64 := 0;
    for j := 0 to n
      invariant x < BASE
      invariant forall k :: j <= k < t.Length ==> t[k] == was[k]
      invariant Val(t[..][..j]) + x * Weight(j) == Val(was[..j]) + Val(s[..j]) * w
    {
      ghost var before, x0 := t[..], x;
      ProductFits(a[j], w, t[j], x);
      x := x + a[j] * w + t[j];
      t[j] := x % BASE;
      assert t[..][..j] == before[..j];
      ValSnoc(t[..], j);
      ValSnoc(was, j);
      ValSnoc(s, j);
      NextWeight(j);
      RowStep(Val(t[..][..j]), Val(t[..][..j + 1]), Val(was[..j]), Val(was[..j + 1]), Val(s[..j]), Val(s[..j + 1]), w,
              t[j], was[j], s[j], x0, x / BASE, Weight(j));
      x := x / BASE;
    }
    assert s[..n] == s;
    ghost var mid, carry := t[..], x;
    x := x + t[n];
    t[n] := x % BASE;
    t[n + 1] := x / BASE;
    assert t[..][..n] == mid[..n];
    ValSnoc(was, n);
    ValSnoc(t[..], n);
    ValSnoc(t[..], n + 1);
    NextWeight(n);
    assert carry * Weight(n) + was[n] * Weight(n) == t[n] * Weight(n) + t[n + 1] * (BASE * Weight(n)) by {
      MulSum(carry, was[n], Weight(n));
      MulSum(t[n], t[n + 1] * BASE, Weight(n));
      MulSwap(t[n + 1], BASE, Weight(n));
    }
    assert t[..][..n + 2] == t[..n + 2] && was[..n + 1] == old(t[..n + 1]);
  }

  lemma NextWeight(j: nat)
    ensures Weight(j + 1) == BASE * Weight(j)
  {
  }

  /** One step of the reduction row, which writes one limb lower. */
  lemma ShiftStep(v: int, v': int, old_: int, old': int, m: int, m': int, q: int,
                  d: int, t: int, mj: int, x: int, x': int, k: int)
    requires BASE * v + x * (BASE * k) == old_ + q * m
    requires d + x' * BASE == q * mj + t + x
    requires v' == v + d * k && old' == old_ + t * (BASE * k) && m' == m + mj * (BASE * k)
    ensures BASE * v' + x' * (BASE * (BASE * k)) == old' + q * m'
  {
    var w := BASE * k;
    MulSwap(BASE, d, k);
    MulSwap(x', BASE, w);
    MulSum(d, x' * BASE, w);
    MulSum(q * mj + t, x, w);
    MulSum(q * mj, t, w);
    MulSum(m, mj * w, q);
    MulSwap(q, mj, w);
  }

  /** q times the modulus cancels the low limb of t. */
  predicate Clears(q: U32, m0: U32, t0: U32) { (q * m0 + t0) % BASE == 0 }

  /** n0inv is minus the inverse of m0 modulo 2^32. */
  predicate NegInverse(n0inv: U32, m0: U32) { (n0inv * m0) % BASE == BASE - 1 }

  /** Adds q times the modulus and drops the low limb, which q was chosen to clear. */
  method ReduceRow(t: array<U32>, m: array<U32>, q: U32, n: nat)
    requires 0 < n && n + 2 <= t.Length && n <= m.Length && t != m
    requires Clears(q, m[0], t[0])
    requires Val(t[..n + 2]) + q * Val(m[..n]) < BASE * (2 * Weight(n))
    modifies t
    ensures BASE * Val(t[..n + 1]) == old(Val(t[..n + 2])) + q * Val(m[..n])
    ensures t[n] <= 1
  {
    hide Val, Weight, Clears;
    ghost var was, s := t[..], m[..n];
    ProductFits(q, m[0], t[0], 0);
    var x: U64 := q * m[0] + t[0];
    x := x / BASE;
    FirstLimb(was, s, q, x);
    for j := 1 to n
      invariant x < BASE
      invariant forall k :: j <= k < t.Length ==> t[k] == was[k]
      invariant BASE * Val(t[..][..j - 1]) + x * Weight(j) == Val(was[..j]) + q * Val(s[..j])
    {
      ghost var before, x0 := t[..], x;
      ProductFits(q, m[j], t[j], x);
      x := x + q * m[j] + t[j];
      t[j - 1] := x % BASE;
      assert t[..][..j - 1] == before[..j - 1];
      ValSnoc(t[..], j - 1);
      ValSnoc(was, j);
      ValSnoc(s, j);
      NextWeight(j - 1);
      NextWeight(j);
      ShiftStep(Val(t[..][..j - 1]), Val(t[..][..j]), Val(was[..j]), Val(was[..j + 1]), Val(s[..j]), Val(s[..j + 1]), q,
                t[j - 1], was[j], s[j], x0, x / BASE, Weight(j - 1));
      x := x / BASE;
    }
    assert s[..n] == s;
    ReduceTop(t, was, x, n, q * Val(s));
    assert was[..n + 2] == old(t[..n + 2]);
  }

  /** The two top limbs of the reduction row: the final carry never leaves a single bit. */
  method ReduceTop(t: array<U32>, ghost was: seq<U32>, carry: U64, n: nat, ghost qm: int)
    requires 0 < n && n + 2 <= t.Length == |was| && carry < BASE
    requires forall k :: n <= k < t.Length ==> t[k] == was[k]
    requires BASE * Val(t[..][..n - 1]) + carry * Weight(n) == Val(was[..n]) + qm
    requires Val(was[..n + 2]) + qm < BASE * (2 * Weight(n))
    modifies t
    ensures BASE * Val(t[..n + 1]) == Val(was[..n + 2]) + qm
    ensures t[n] <= 1
  {
    hide Val, Weight;
    ghost var mid := t[..];
    var x: U64 := carry + t[n];
    t[n - 1] := x % BASE;
    assert t[..][..n - 1] == mid[..n - 1];
    ValSnoc(was, n);
    ValSnoc(was, n + 1);
    ValSnoc(t[..], n - 1);
    NextWeight(n - 1);
    NextWeight(n);
    TopLimbs(Val(mid[..n - 1]), carry, was[n], was[n + 1], t[n - 1], x / BASE, Val(was[..n]), qm,
             Val(t[..][..n]), Weight(n - 1));
    TopIsBit(Val(t[..][..n]), t[n + 1] + x / BASE, Weight(n));
    ghost var low := t[..][..n];
    t[n] := (t[n + 1] + x / BASE) % BASE;
    assert t[..][..n] == low;
    ValSnoc(t[..], n);
    MulSwap(BASE, t[n], Weight(n));
    assert t[..][..n + 1] == t[..n + 1];
  }

  lemma FirstLimb(was: seq<U32>, s: seq<U32>, q: U32, x: int)
    requires 0 < |s| && 0 < |was| && Clears(q, s[0], was[0]) && x == (q * s[0] + was[0]) / BASE
    ensures x < BASE
    ensures BASE * Val(was[..0]) + x * Weight(1) == Val(was[..1]) + q * Val(s[..1])
  {
    ProductFits(q, s[0], was[0], 0);
    NextWeight(0);
    ValSnoc(was, 0);
    ValSnoc(s, 0);
    ValEmpty(was);
    ValEmpty(s);
  }

  lemma TopLimbs(v: int, carry: int, tn: int, tn1: int, d: int, x': int, low: int, qm: int, v': int, k: int)
    requires BASE * v + carry * (BASE * k) == low + qm
    requires d + x' * BASE == carry + tn && v' == v + d * k
    ensures BASE * v' + (tn1 + x') * (BASE * (BASE * k)) == low + tn * (BASE * k) + tn1 * (BASE * (BASE * k)) + qm
  {
    var w := BASE * k;
    MulSwap(BASE, d, k);
    MulSwap(x', BASE, w);
    MulSum(d, x' * BASE, w);
    MulSum(carry, tn, w);
    MulSum(tn1, x', BASE * w);
  }

  lemma TopIsBit(low: nat, top: nat, w: nat)
    requires BASE * low + top * (BASE * w) < BASE * (2 * w)
    ensures top <= 1
  {
    MulSwap(top, BASE, w);
    if top >= 2 { MulLe(2, top, w); }
  }

  /** The word q clears the low limb. */
  lemma ClearsLowLimb(t0: U32, n0inv: U32, m0: U32)
    requires NegInverse(n0inv, m0)
    ensures Clears((t0 * n0inv) % BASE, m0, t0)
  {
    var q := (t0 * n0inv) % BASE;
    ModIsCong(t0 * n0inv, BASE);
    ClearsBy(q, t0, n0inv, m0);
  }

  lemma ClearsBy(q: U32, t0: U32, n0inv: U32, m0: U32)
    requires NegInverse(n0inv, m0) && Cong(q, t0 * n0inv, BASE)
    ensures Clears(q, m0, t0)
  {
    var inverse: int := n0inv * m0;
    CongScale(q, t0 * n0inv, m0, BASE);
    MulSwap(t0, n0inv, m0);
    CongScale(inverse, -1, t0, BASE);
    CongAdd(q * m0, 0 - t0, t0, t0, BASE);
  }

  /** The invariant of the outer loop: t times the weight w of the words read is their product with a, plus k times m.
      */
  predicate Partial(t: int, w: int, a: int, b: int, k: int, m: int) { t * w == a * b + k * m }

  lemma NothingYet(a: int, m: int)
    ensures Partial(0, 1, a, 0, 0, m)
  {
  }

  lemma OuterStep(t: int, t': int, a: int, b: int, b': int, bi: int, k: int, q: int, m: int, w: int)
    requires Partial(t, w, a, b, k, m)
    requires BASE * t' == t + a * bi + q * m
    requires b' == b + bi * w
    ensures Partial(t', BASE * w, a, b', k + q * w, m)
  {
    MulSwap(t', BASE, w);
    MulSum(t + a * bi, q * m, w);
    MulSum(t, a * bi, w);
    MulSum(b, bi * w, a);
    MulSum(k, q * w, m);
    MulSwap(a, bi, w);
    MulSwap(m, q, w);
    MulSwap(q, w, m);
  }

  /** The running value stays below a + m. */
  lemma OuterBound(t: nat, t': nat, a: nat, bi: U32, q: U32, m: nat)
    requires t < a + m && BASE * t' == t + a * bi + q * m
    ensures t' < a + m
  {
    MulLe(bi, BASE - 1, a);
    MulLe(q, BASE - 1, m);
  }

  lemma SumFits(t: nat, a: nat, bi: U32, q: U32, m: nat, w: nat)
    requires t < a + m && a < m < w
    ensures t + a * bi + q * m < BASE * (2 * w)
  {
    MulLe(bi, BASE - 1, a);
    MulLe(q, BASE - 1, m);
  }

  /** One word of b: add a times the word, then clear and drop the low limb. */
  method MontRound(t: array<U32>, a: array<U32>, w: U32, m: array<U32>, n: nat, n0inv: U32) returns (ghost q: U32)
    requires 0 < n && n + 2 <= t.Length && n <= a.Length && n <= m.Length && t != a && t != m
    requires NegInverse(n0inv, m[0]) && Val(a[..n]) < Val(m[..n])
    requires Val(t[..n + 1]) < Val(a[..n]) + Val(m[..n])
    modifies t
    ensures BASE * Val(t[..n + 1]) == old(Val(t[..n + 1])) + Val(a[..n]) * w + q * Val(m[..n])
    ensures Val(t[..n + 1]) < Val(a[..n]) + Val(m[..n]) && t[n] <= 1
  {
    hide Val, Weight, NegInverse, Clears;
    ghost var va, vm, t0 := Val(a[..n]), Val(m[..n]), Val(t[..n + 1]);
    ValBound(m[..n]);
    AddRow(t, a, w, n);
    var factor: U32 := (t[0] * n0inv) % BASE;
    ClearsLowLimb(t[0], n0inv, m[0]);
    SumFits(t0, va, w, factor, vm, Weight(n));
    ReduceRow(t, m, factor, n);
    OuterBound(t0, Val(t[..n + 1]), va, w, factor, vm);
    q := factor;
  }

  /** The Montgomery product: out < m and out * B^n = a * b modulo m. Out may share its buffer with a or b. */
  method MontMul(out: array<U32>, a: array<U32>, b: array<U32>, m: array<U32>, n: nat, n0inv: U32)
    requires 0 < n <= MONT_MAX_LIMBS
    requires n <= out.Length && n <= a.Length && n <= b.Length && n <= m.Length && out != m
    requires NegInverse(n0inv, m[0])
    requires Val(a[..n]) < Val(m[..n])
    modifies out
    ensures Val(out[..n]) < Val(m[..n])
    ensures Cong(Val(out[..n]) * Weight(n), old(Val(a[..n])) * old(Val(b[..n])), Val(m[..n]))
  {
    hide Val, Weight, Partial, NegInverse, Clears, Cong;
    NothingYet(Val(a[..n]), Val(m[..n]));
    ghost var sa, vb, sm, k := a[..n], b[..n], m[..n], 0;
    ghost var va, vm := Val(sa), Val(sm);
    var t := new U32[MONT_MAX_LIMBS + 2](_ => 0);
    for i := 0 to n + 2
      modifies t
      invariant forall j :: 0 <= j < i ==> t[j] == 0
    {
      t[i] := 0;
    }
    ValZero(t[..n + 1]);
    ValEmpty(vb);
    ValBound(m[..n]);
    for i := 0 to n
      modifies t
      invariant a[..n] == sa && b[..n] == vb && m[..n] == sm
      invariant Val(t[..n + 1]) < va + vm
      invariant Partial(Val(t[..n + 1]), Weight(i), va, Val(vb[..i]), k, vm)
      invariant t[n] <= 1
    {
      ghost var t0 := Val(t[..n + 1]);
      assert b[i] == vb[i];
      ghost var q := MontRound(t, a, b[i], m, n, n0inv);
      ValSnoc(vb, i);
      NextWeight(i);
      OuterStep(t0, Val(t[..n + 1]), va, Val(vb[..i]), Val(vb[..i + 1]), b[i], k, q, vm, Weight(i));
      k := k + q * Weight(i);
    }
    assert vb[..n] == vb;
    ghost var total := Val(t[..n + 1]);
    ValSnoc(t[..], n);
    assert t[..][..n + 1] == t[..n + 1] && t[..][..n] == t[..n];
    SelectReduced(out, t, m, n);
    FinishCong(total, Val(out[..n]), vm, Weight(n), va, Val(vb), k);
  }

  lemma FinishCong(total: nat, r: nat, m: nat, w: nat, a: int, b: int, k: int)
    requires m > 0 && Partial(total, w, a, b, k, m) && (r == total || r + m == total)
    ensures Cong(r * w, a * b, m)
  {
    if r == total {
      CongOf(r * w, a * b, k, m);
    } else {
      MulSum(r, m, w);
      MulSum(k, 0 - w, m);
      CongOf(r * w, a * b, k - w, m);
    }
  }

  /** 64-bit wrap-around of a difference of words, and its sign bit. */
  lemma Wrap64(t: U32, m: U32, borrow: U32)
    requires borrow <= 1
    ensures var x := (t - m - borrow) % 0x1_0000_0000_0000_0000;
            && x % BASE == (if t < m + borrow then t - m - borrow + BASE else t - m - borrow)
            && x / 0x8000_0000_0000_0000 == (if t < m + borrow then 1 else 0)
  {
  }

  /** The masked final subtraction: out becomes t or t - m, whichever is below m. */
  method SelectReduced(out: array<U32>, t: array<U32>, m: array<U32>, n: nat)
    requires 0 < n < t.Length && n <= MONT_MAX_LIMBS && n <= out.Length && n <= m.Length && out != m && out != t &&
      t != m
    requires t[n] <= 1
    requires Val(t[..n]) + t[n] * Weight(n) < 2 * Val(m[..n])
    modifies out
    ensures Val(out[..n]) < Val(m[..n])
    ensures Val(out[..n]) == Val(t[..n]) + t[n] * Weight(n) ||
      Val(out[..n]) + Val(m[..n]) == Val(t[..n]) + t[n] * Weight(n)
  {
    hide Val, Weight;
    var r := new U32[MONT_MAX_LIMBS](_ => 0);
    var borrow := MontSubtract(r, t, m, n);
    ValBound(r[..n]);
    ValBound(t[..n]);
    ValBound(m[..n]);
    OneBitTables();
    MaskOfBit();
    hide Val, Weight, BitAnd, BitOr, BitXor;
    var mask := MaskOf(BitAnd(BitOr(t[n], BitXor(borrow, 1)), 1));
    assert mask == 0 || mask == ALL_ONES;
    ghost var pick := if mask == 0 then t[..n] else r[..n];
    for i := 0 to n
      modifies out
      invariant forall j :: 0 <= j < i ==> out[j] == pick[j]
    {
      MaskSelect(r[i], t[i], mask);
      out[i] := BitOr(BitAnd(r[i], mask), BitAnd(t[i], BitNot32(mask)));
    }
    assert out[..n] == pick;
  }

  method MontSubtract(r: array<U32>, t: array<U32>, m: array<U32>, n: nat) returns (borrow: U32)
    requires n <= r.Length && n <= t.Length && n <= m.Length && r != t && r != m
    modifies r
    ensures borrow <= 1
    ensures Val(r[..n]) + Val(m[..n]) == Val(t[..n]) + borrow * Weight(n)
  {
    hide Val, Weight;
    ghost var l, s := t[..n], m[..n];
    ValEmpty(r[..n]);
    ValEmpty(l);
    ValEmpty(s);
    borrow := 0;
    for i := 0 to n
      invariant borrow <= 1
      invariant Val(r[..n][..i]) + Val(s[..i]) == Val(l[..i]) + borrow * Weight(i)
    {
      var x: U64 := (t[i] - m[i] - borrow) % 0x1_0000_0000_0000_0000;
      Wrap64(t[i], m[i], borrow);
      ghost var before := r[..n];
      r[i] := x % BASE;
      assert r[..n][..i] == before[..i];
      BorrowStep(r[..n], l, s, i, borrow, x / 0x8000_0000_0000_0000);
      borrow := x / 0x8000_0000_0000_0000;
    }
    assert r[..n][..n] == r[..n] && l[..n] == l && s[..n] == s;
  }
}
