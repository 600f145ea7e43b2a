/** The masked addition and product of kernel/bigint.c:143-146 on numbers of n bits, reduced or not. */
module MaskedProduct {
  import opened Words
  import opened Congruence

  /** What the masked addition makes of a sum x of two numbers below w: one subtraction of m, and the carry out of the
      width is lost when even that does not bring it below w. */
  function CtAdd(x: nat, m: nat, w: nat): nat
  {
    if x < m then x else if x - m < w then x - m else x - m - w
  }

  /** Reduced operands give the reduced sum. */
  lemma CtAddReduced(x: nat, m: nat, w: nat)
    requires 0 < m <= w && x < 2 * m
    ensures CtAdd(x, m, w) == x % m
  {
    RemainderUnique(x, if x >= m then 1 else 0, if x >= m then x - m else x, m);
  }

  /** Without a lost carry the class modulo m is kept. */
  lemma CtAddClass(x: nat, m: nat, w: nat)
    requires 0 < m && x < m + w
    ensures Cong(CtAdd(x, m, w), x, m)
  {
    if x >= m { CongOf(x, x - m, 1, m); }
  }

  /** The product loop after k bits of the right factor: the sum so far, and the left factor doubled k times. */
  function CtRun(a: nat, r: nat, m: nat, w: nat, k: nat): (nat, nat)
  {
    if k == 0 then (0, a)
    else
      var s := CtRun(a, r, m, w, k - 1);
      (CtAdd(s.0 + (if BitAt(r, k - 1) == 0 then 0 else s.1), m, w), CtAdd(s.1 + s.1, m, w))
  }

  /** The product of n-bit numbers. */
  function CtProduct(a: nat, r: nat, m: nat, n: nat): nat { CtRun(a, r, m, Pow2(n), n).0 }

  /** One round of double-and-add modulo m: the product grows by the bit, the addend doubles. */
  lemma DoubleAndAdd(a: int, lo: int, w: int, bit: int, m: nat)
    requires m > 0 && 0 <= bit <= 1
    ensures ((a * lo) % m + (if bit == 0 then 0 else (a * w) % m)) % m == (a * (lo + bit * w)) % m
    ensures ((a * w) % m + (a * w) % m) % m == (a * (2 * w)) % m
  {
    ModIsCong(a * lo, m);
    ModIsCong(a * w, m);
    if bit == 1 { CongAdd((a * lo) % m, a * lo, (a * w) % m, a * w, m); }
    CongAdd((a * w) % m, a * w, (a * w) % m, a * w, m);
    MulSum(lo, w, a);
    MulSum(w, w, a);
  }

  /** With a reduced left factor every step is right. */
  lemma {:induction false} CtRunReduced(a: nat, r: nat, m: nat, w: nat, k: nat)
    requires 0 < m <= w && a < m
    ensures CtRun(a, r, m, w, k) == ((a * (r % Pow2(k))) % m, (a * Pow2(k)) % m)
  {
    hide CtAdd, BitAt;
    if k == 0 {
      assert r % Pow2(0) == 0 && a * 0 == 0 && a * 1 == a;
      RemainderUnique(0, 0, 0, m);
      RemainderUnique(a, 0, a, m);
    } else {
      CtRunReduced(a, r, m, w, k - 1);
      BitStep(r, k - 1);
      var lo, p, bit := r % Pow2(k - 1), Pow2(k - 1), BitAt(r, k - 1);
      DoubleAndAdd(a, lo, p, bit, m);
      ModIsCong(a * lo, m);
      ModIsCong(a * p, m);
      CtAddReduced((a * lo) % m + (if bit == 0 then 0 else (a * p) % m), m, w);
      CtAddReduced((a * p) % m + (a * p) % m, m, w);
    }
  }

  /** The modulus itself as left factor stays the modulus, and the sum stays zero. */
  lemma {:induction false} CtRunAtModulus(r: nat, m: nat, w: nat, k: nat)
    requires 0 < m < w
    ensures CtRun(m, r, m, w, k) == (0, m)
  {
    if k > 0 { CtRunAtModulus(r, m, w, k - 1); }
  }

  /** A left factor m + e keeps its excess e and doubles it, until the width is exceeded. */
  lemma {:induction false} CtRunExcess(e: nat, r: nat, m: nat, w: nat, k: nat)
    requires 0 < m <= w && m + Pow2(k) * e < w
    ensures CtRun(m + e, r, m, w, k).1 == m + Pow2(k) * e
  {
    hide BitAt;
    if k > 0 {
      assert Pow2(k) * e == 2 * (Pow2(k - 1) * e) by { MulSwap(2, Pow2(k - 1), e); }
      MulLe(0, e, Pow2(k - 1));
      CtRunExcess(e, r, m, w, k - 1);
    }
  }

  /** Then the carry is lost. */
  lemma CtRunLoses(e: nat, r: nat, m: nat, w: nat, k: nat)
    requires 0 < m <= w && k > 0 && m + Pow2(k - 1) * e < w <= m + Pow2(k) * e
    ensures CtRun(m + e, r, m, w, k).1 == m + Pow2(k) * e - w < w
  {
    hide BitAt;
    assert Pow2(k) * e == 2 * (Pow2(k - 1) * e) by { MulSwap(2, Pow2(k - 1), e); }
    CtRunExcess(e, r, m, w, k - 1);
  }

  lemma Pow2Even(k: nat)
    ensures k > 0 ==> Pow2(k) % 2 == 0
  {
  }

  lemma BitOfPow2(j: nat, k: nat)
    ensures BitAt(Pow2(j), k) == if k == j then 1 else 0
  {
    hide Pow2;
    if k < j {
      Pow2Sum(k, j - k);
      Pow2Even(j - k);
      DivideUnique(Pow2(j), Pow2(j - k), 0, Pow2(k));
    } else if k == j {
      DivideUnique(Pow2(j), 1, 0, Pow2(k));
    } else {
      Pow2Grows(j, k);
      DivideUnique(Pow2(j), 0, Pow2(j), Pow2(k));
    }
  }

  lemma {:induction false} Pow2Grows(j: nat, k: nat)
    requires j < k
    ensures Pow2(j) < Pow2(k)
  {
    if j + 1 < k { Pow2Grows(j, k - 1); }
  }

  lemma {:induction false} CtRunBelow(a: nat, r: nat, m: nat, w: nat, k: nat)
    requires 0 < m <= w && a < w
    ensures CtRun(a, r, m, w, k).0 < w && CtRun(a, r, m, w, k).1 < w
  {
    hide BitAt;
    if k > 0 { CtRunBelow(a, r, m, w, k - 1); }
  }

  /** Multiplying by the power 2^j: nothing before bit j, the doubled left factor at it, and its class afterwards. */
  lemma {:induction false} CtRunPower(a: nat, j: nat, m: nat, w: nat, k: nat)
    requires 0 < m <= w && a < w
    ensures k <= j ==> CtRun(a, Pow2(j), m, w, k).0 == 0
    ensures k > j ==> Cong(CtRun(a, Pow2(j), m, w, k).0, CtRun(a, Pow2(j), m, w, j).1, m)
    decreases k
  {
    hide BitAt, Pow2, Cong, CtAdd;
    if k > 0 {
      var s := CtRun(a, Pow2(j), m, w, k - 1);
      CtRunPower(a, j, m, w, k - 1);
      CtRunBelow(a, Pow2(j), m, w, k - 1);
      BitOfPow2(j, k - 1);
      var x := s.0 + (if k - 1 == j then s.1 else 0);
      CtAddClass(x, m, w);
      if k - 1 > j { CongTrans(CtAdd(x, m, w), s.0, CtRun(a, Pow2(j), m, w, j).1, m); }
      if k - 1 < j { CtAddReduced(0, m, w); }
    }
  }

  /** The product of an over-large left factor m + e with 2^j is wrong, even modulo m, for the j at which the doubled
      excess leaves the width. */
  lemma CtFailsAt(e: nat, j: nat, m: nat, n: nat)
    requires 0 < m < Pow2(n) < 2 * m && 0 < j < n && m + Pow2(j - 1) * e < Pow2(n) <= m + Pow2(j) * e
    ensures !Cong(CtProduct(m + e, Pow2(j), m, n), (m + e) * Pow2(j), m)
  {
    hide CtRun, Pow2;
    var w, a := Pow2(n), m + e;
    var t := m + Pow2(j) * e - w;
    ExcessBelow(e, j, m, w);
    CtRunLoses(e, Pow2(j), m, w, j);
    CtRunPower(a, j, m, w, n);
    var out, right := CtProduct(a, Pow2(j), m, n), a * Pow2(j);
    MulSum(m, e, Pow2(j));
    CongOf(right, Pow2(j) * e, Pow2(j), m);
    CongOf(Pow2(j) * e + m, Pow2(j) * e, 1, m);
    LostCarry(t, Pow2(j) * e + m, w, m);
    ClassesMeet(t, Pow2(j) * e + m, out, right, Pow2(j) * e, m);
  }

  lemma ExcessBelow(e: nat, j: nat, m: nat, w: nat)
    requires j > 0 && m + Pow2(j - 1) * e < w
    ensures m + e < w
  {
    MulLe(1, Pow2(j - 1), e);
  }

  lemma ClassesMeet(t: int, x: int, out: int, right: int, y: int, m: nat)
    requires m > 0 && Cong(out, t, m) && Cong(right, y, m) && Cong(x, y, m)
    ensures Cong(out, right, m) ==> Cong(t, x, m)
  {
  }

  /** Losing the carry changes the class. */
  lemma LostCarry(t: int, x: int, w: nat, m: nat)
    requires m < w < 2 * m && t == x - w
    ensures !Cong(t, x, m)
  {
    var q, rest, d := t / m, t % m, w - m;
    assert t == q * m + rest;
    if rest + d < m {
      MulSum(q, 1, m);
      RemainderUnique(x, q + 1, rest + d, m);
    } else {
      MulSum(q, 2, m);
      RemainderUnique(x, q + 2, rest + d - m, m);
    }
  }

  /** The least j at which the doubled excess leaves the width; it is below the number of bits. */
  lemma {:induction false} LosingBit(e: nat, m: nat, n: nat, k: nat) returns (j: nat)
    requires 0 < n && 0 < e && m + e < Pow2(n) < 2 * m && k < n && Pow2(n) <= m + Pow2(k) * e
    ensures 0 < j <= k && m + Pow2(j - 1) * e < Pow2(n) <= m + Pow2(j) * e
  {
    if m + Pow2(k - 1) * e < Pow2(n) {
      j := k;
    } else {
      j := LosingBit(e, m, n, k - 1);
    }
  }

  /** For a modulus with its top bit set: the product is right for every right factor if and only if the left factor is
      at most the modulus; for one above two thirds of the range, reduced right factors alone already show it. */
  lemma ProductExact(a: nat, m: nat, n: nat)
    requires 0 < n && m < Pow2(n) < 2 * m && a < Pow2(n)
    ensures (forall r :: 0 <= r < Pow2(n) ==> CtProduct(a, r, m, n) == (a * r) % m) <==> a <= m
    ensures 2 * Pow2(n) <= 3 * m ==> ((forall r :: 0 <= r < m ==> CtProduct(a, r, m, n) == (a * r) % m) <==> a <= m)
  {
    hide CtRun, Pow2;
    if a <= m {
      forall r | 0 <= r < Pow2(n) ensures CtProduct(a, r, m, n) == (a * r) % m { ProductRight(a, r, m, n); }
    } else {
      var j := ProductWrong(a, m, n);
    }
  }

  lemma ProductRight(a: nat, r: nat, m: nat, n: nat)
    requires 0 < m < Pow2(n) && a <= m && r < Pow2(n)
    ensures CtProduct(a, r, m, n) == (a * r) % m
  {
    hide CtRun, Pow2;
    if a < m {
      CtRunReduced(a, r, m, Pow2(n), n);
      RemainderUnique(r, 0, r, Pow2(n));
    } else {
      CtRunAtModulus(r, m, Pow2(n), n);
      RemainderUnique(a * r, r, 0, m);
    }
  }

  lemma ProductWrong(a: nat, m: nat, n: nat) returns (j: nat)
    requires 0 < n && m < Pow2(n) < 2 * m && m < a < Pow2(n)
    ensures j < n && 0 <= Pow2(j) < Pow2(n) && CtProduct(a, Pow2(j), m, n) % m != (a * Pow2(j)) % m
    ensures CtProduct(a, Pow2(j), m, n) != (a * Pow2(j)) % m
    ensures 2 * Pow2(n) <= 3 * m ==> Pow2(j) < m
  {
    hide CtRun, CtProduct;
    var e := a - m;
    MulLe(1, e, Pow2(n - 1));
    j := LosingBit(e, m, n, n - 1);
    MulLe(1, e, Pow2(j - 1));
    hide Pow2;
    CtFailsAt(e, j, m, n);
    Pow2Grows(j, n);
    ModIsCong(a * Pow2(j), m);
  }
}
