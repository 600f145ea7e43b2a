/** Modular arithmetic on limb buffers: bit-serial reduction, the branchy forms and
    the masked constant-time forms (kernel/bigint.c:112-159). */
module ModArith {
  import opened Words
  import opened Congruence
  import opened Limbs
  import opened BigIntCore
  import opened MaskedProduct

  /** One conditional subtraction reduces a number below twice the modulus. */
  lemma ReduceOnce(x: nat, m: nat)
    requires x < 2 * m
    ensures x % m == if x >= m then x - m else x
  {
    RemainderUnique(x, if x >= m then 1 else 0, if x >= m then x - m else x, m);
  }

  /** The conditional subtraction that ends every branchy form. */
  method SubtractIfAbove(limbs: array<U32>, modulus: array<U32>, n: nat, carry: U32, ghost x: nat)
    requires n <= limbs.Length && n <= modulus.Length && limbs != modulus
    requires Val(limbs[..n]) + carry * Weight(n) == x < 2 * Val(modulus[..n])
    modifies limbs
    ensures Val(limbs[..n]) == x % Val(modulus[..n])
  {
    hide Val, Weight;
    ghost var m := Val(modulus[..n]);
    ReduceOnce(x, m);
    ValBound(limbs[..n]);
    ValBound(modulus[..n]);
    var order := 1;
    if carry == 0 { order := RawCompare(limbs, modulus, n); } else { MulLe(1, carry, Weight(n)); }
    if carry != 0 || order >= 0 {
      if carry >= 2 { MulLe(2, carry, Weight(n)); }
      assert carry <= 1;
      var borrow := SubtractLimbs(limbs, limbs, modulus, n);
      ValBound(limbs[..n]);
    }
  }

  /** The shift loop: twice the number plus the incoming bit. */
  method ShiftIn(limbs: array<U32>, n: nat, bit: U32) returns (carry: U32)
    requires n <= limbs.Length && bit <= 1
    modifies limbs
    ensures carry <= 1
    ensures Val(limbs[..n]) + carry * Weight(n) == 2 * old(Val(limbs[..n])) + bit
  {
    hide Val, Weight;
    ghost var was := limbs[..n];
    ValEmpty(was);
    carry := bit;
    for i := 0 to n
      invariant carry <= 1
      invariant forall k :: i <= k < n ==> limbs[k] == was[k]
      invariant Val(limbs[..n][..i]) + carry * Weight(i) == Val(was[..i]) + Val(was[..i]) + bit
    {
      var next: U32 := limbs[i] / 0x8000_0000;
      ghost var before := limbs[..n];
      OrLowBit(2 * limbs[i] % BASE, carry);
      limbs[i] := BitOr(2 * limbs[i] % BASE, carry);
      assert limbs[..n][..i] == before[..i];
      CarryStep(limbs[..n], was, was, i, carry, next, bit);
      carry := next;
    }
    assert limbs[..n][..n] == limbs[..n] && was[..n] == was;
  }

  /** Shifts in one bit modulo m: r becomes (2r + bit) mod m. */
  method ModShiftAdd(remainder: BigInt, modulus: BigInt, bit: U8)
    requires remainder.Valid() && modulus.Valid() && remainder.limbs != modulus.limbs
    requires modulus.length <= remainder.limbs.Length && bit <= 1
    requires Val(remainder.limbs[..modulus.length]) < modulus.Value()
    modifies remainder`length, remainder.limbs
    ensures remainder.Holds((2 * old(Val(remainder.limbs[..modulus.length])) + bit) % modulus.Value(), modulus.length)
  {
    var n := modulus.length;
    ghost var x := 2 * Val(remainder.limbs[..n]) + bit;
    var carry := ShiftIn(remainder.limbs, n, bit);
    SubtractIfAbove(remainder.limbs, modulus.limbs, n, carry, x);
    remainder.length := n;
    Normalize(remainder);
  }

  lemma HoldsZero(x: BigInt, n: nat, m: nat)
    requires x.Valid() && x.length == 0 && n <= x.limbs.Length && m > 0 && forall k :: 0 <= k < n ==> x.limbs[k] == 0
    ensures x.Holds(0 % m, n)
  {
    hide Val;
    ValZero(x.limbs[..n]);
    RemainderUnique(0, 0, 0, m);
  }

  /** Shifts in the 32 bits of a limb, from the top. */
  method FeedLimb(output: BigInt, modulus: BigInt, limb: U32, ghost high: nat)
    requires modulus.Valid() && output.limbs != modulus.limbs && output != modulus && modulus.Value() > 0
    requires output.Holds(high % modulus.Value(), modulus.length)
    modifies output`length, output.limbs
    ensures output.Holds((limb + BASE * high) % modulus.Value(), modulus.length)
  {
    hide Val, Weight, BitPrefix, Pow2, BitAt;
    ghost var m, n := modulus.Value(), modulus.length;
    var bit := 32;
    TopOfLimb(high, limb);
    while bit > 0
      invariant 0 <= bit <= 32
      invariant modulus.length == n && modulus.Value() == m
      invariant output.Holds(BitPrefix(high, limb, bit) % m, n)
    {
      ModShiftAdd(output, modulus, BitAt(limb, bit - 1));
      PrefixStep(high, limb, bit, m);
      bit := bit - 1;
    }
  }

  /** Output becomes input mod modulus, normalised, feeding the input's bits from the top. */
  method ModReduce(output: BigInt, input: BigInt, modulus: BigInt) returns (rc: int)
    requires output.Valid() && input.Valid() && modulus.Valid()
    requires output.limbs != modulus.limbs && output.limbs != input.limbs && output != input
    requires modulus.length > 0 ==> modulus.Value() > 0
    modifies output`length, output.limbs
    ensures rc == if modulus.length == 0 || output.limbs.Length < modulus.length then -1 else 0
    ensures rc == 0 ==> output.Holds(input.Value() % modulus.Value(), modulus.length)
    ensures rc != 0 ==> output.length == old(output.length) && output.limbs[..] == old(output.limbs[..])
  {
    hide Val, Weight, BigInt.Holds;
    if modulus.length == 0 || output.limbs.Length < modulus.length { return -1; }
    Zero(output);
    ghost var m, n, s := modulus.Value(), modulus.length, input.Used();
    HoldsZero(output, n, m);
    ValZero(s[|s|..]);
    var i := input.length;
    while i > 0
      invariant 0 <= i <= input.length == |s|
      invariant modulus.length == n && modulus.Value() == m && input.Used() == s
      invariant output.Holds(Val(s[i..]) % m, n)
    {
      FeedLimb(output, modulus, input.limbs[i - 1], Val(s[i..]));
      ValCons(s, i - 1);
      i := i - 1;
    }
    assert s[0..] == s;
    return 0;
  }

  lemma DoubleMod(p: int, b: int, m: nat)
    requires m > 0
    ensures (2 * (p % m) + b) % m == (2 * p + b) % m
  {
    MulSum(p / m, p / m, m);
    CongOf(2 * p + b, 2 * (p % m) + b, p / m + p / m, m);
  }

  /** The bits read so far: all of `high`, then the bits of `limb` from `bit` up. */
  function BitPrefix(high: nat, limb: U32, bit: nat): int
    requires bit <= 32
  {
    high * Pow2(32 - bit) + limb / Pow2(bit)
  }

  lemma TopOfLimb(high: nat, limb: U32)
    ensures BitPrefix(high, limb, 32) == high && BitPrefix(high, limb, 0) == limb + BASE * high
  {
    Pow2At32();
  }

  /** Reading one more bit doubles the prefix and adds the bit, also modulo m. */
  lemma PrefixStep(high: nat, limb: U32, bit: nat, m: nat)
    requires 0 < bit <= 32 && m > 0
    ensures BitPrefix(high, limb, bit - 1) == 2 * BitPrefix(high, limb, bit) + BitAt(limb, bit - 1)
    ensures (2 * (BitPrefix(high, limb, bit) % m) + BitAt(limb, bit - 1)) % m == BitPrefix(high, limb, bit - 1) % m
  {
    var p, b := BitPrefix(high, limb, bit), BitAt(limb, bit - 1);
    BitStep(limb, bit - 1);
    MulSwap(high, 2, Pow2(32 - bit));
    DoubleMod(p, b, m);
  }

  /** Output becomes left + right mod modulus, for operands below it; any operands may share buffers with output. */
  method ModAdd(output: BigInt, left: BigInt, right: BigInt, modulus: BigInt) returns (rc: int)
    requires output.Valid() && left.Valid() && right.Valid() && modulus.Valid()
    requires output.limbs != modulus.limbs
    requires left.Value() < modulus.Value() && right.Value() < modulus.Value()
    modifies output`length, output.limbs
    ensures rc == if output.limbs.Length < modulus.length then -1 else 0
    ensures rc == 0 ==> output.Holds((old(left.Value()) + old(right.Value())) % modulus.Value(), modulus.length)
    ensures rc != 0 ==> output.length == old(output.length) && output.limbs[..] == old(output.limbs[..])
  {
    if output.limbs.Length < modulus.length { return -1; }
    hide Val, Weight;
    var n := modulus.length;
    ghost var x := left.Value() + right.Value();
    ValBound(modulus.Used());
    PaddedVal(left.Used(), n);
    PaddedVal(right.Used(), n);
    var carry := AddPadded(output, left, right, n);
    SubtractIfAbove(output.limbs, modulus.limbs, n, carry, x);
    output.length := n;
    Normalize(output);
    return 0;
  }

  /** The addition loop of the branchy form, reading missing limbs as zero. */
  method AddPadded(output: BigInt, left: BigInt, right: BigInt, n: nat) returns (carry: U32)
    requires output.Valid() && left.Valid() && right.Valid() && n <= output.limbs.Length
    modifies output.limbs
    ensures carry <= 1
    ensures Val(output.limbs[..n]) + carry * Weight(n)
         == old(Val(Padded(left.Used(), n))) + old(Val(Padded(right.Used(), n)))
  {
    hide Val, Weight;
    ghost var l, r := Padded(left.Used(), n), Padded(right.Used(), n);
    var limbs := output.limbs;
    ValEmpty(limbs[..n]);
    ValEmpty(l);
    ValEmpty(r);
    carry := 0;
    for i := 0 to n
      invariant carry <= 1
      invariant forall k :: i <= k < n ==> (if k < left.length then left.limbs[k] else 0) == l[k]
      invariant forall k :: i <= k < n ==> (if k < right.length then right.limbs[k] else 0) == r[k]
      invariant Val(limbs[..n][..i]) + carry * Weight(i) == Val(l[..i]) + Val(r[..i])
    {
      var sum: U64 := carry + (if i < left.length then left.limbs[i] else 0)
                            + (if i < right.length then right.limbs[i] else 0);
      ghost var before := limbs[..n];
      limbs[i] := sum % BASE;
      assert limbs[..n][..i] == before[..i];
      CarryStep(limbs[..n], l, r, i, carry, sum / BASE, 0);
      carry := sum / BASE;
    }
    assert limbs[..n][..n] == limbs[..n] && l[..n] == l && r[..n] == r;
  }

  /** A buffer of n limbs standing for v, without regard to leading zeros (the fixed-width forms). */
  ghost predicate HoldsWide(x: BigInt, v: nat, n: nat)
    reads x, x.limbs
  {
    x.Valid() && n <= x.limbs.Length && Val(x.limbs[..n]) == v
  }

  /** What the carry and the borrow of the masked addition make of a sum. */
  /** All ones if the modulus has to be added back: the sum had no carry and was below it. */
  method RestoreMask(carry: U32, borrow: U32) returns (mask: U32)
    requires carry <= 1 && borrow <= 1
    ensures mask == if carry == 0 && borrow == 1 then ALL_ONES else 0
  {
    hide BitOr, BitXor, MaskOf;
    OneBitTables();
    MaskOfBit();
    var keepSub := BitOr(carry, BitXor(borrow, 1));
    mask := MaskOf(BitXor(keepSub, 1));
  }

  lemma MaskedSum(l: nat, r: nat, m: nat, w: nat, s: nat, carry: nat, d: nat, borrow: nat, t: nat, c2: nat)
    requires m < w && l < w && r < w && carry <= 1 && borrow <= 1
    requires s + carry * w == l + r && s < w
    requires d + m == s + borrow * w && d < w
    requires t + c2 * w == d + (if carry == 0 && borrow == 1 then m else 0) && t < w && c2 <= 1
    ensures t == CtAdd(l + r, m, w)
  {
  }

  /** `bigint_mod_add_ct_masked` on any operands, whatever buffers output shares with them: the sum with one subtraction
      of the modulus, and a carry lost if that is not enough. */
  method ModAddCtMasked(output: BigInt, left: BigInt, right: BigInt, modulus: BigInt, mask: U32) returns (rc: int)
    requires output.Valid() && left.Valid() && right.Valid() && modulus.Valid()
    requires output.limbs != modulus.limbs && (mask == 0 || mask == ALL_ONES)
    modifies output`length, output.limbs
    ensures rc == if modulus.length == 0 || output.limbs.Length < modulus.length ||
                     left.limbs.Length < modulus.length || right.limbs.Length < modulus.length then -1 else 0
    ensures rc == 0 ==> output.length == modulus.length && HoldsWide(output,
      CtAdd(old(Val(left.limbs[..modulus.length])) + (if mask == 0 then 0 else old(Val(right.limbs[..modulus.length]))),
            modulus.Value(), Weight(modulus.length)),
      modulus.length)
    ensures rc != 0 ==> output.length == old(output.length) && output.limbs[..] == old(output.limbs[..])
  {
    hide Val, Weight, CtAdd;
    var n := modulus.length;
    if n == 0 || output.limbs.Length < n || left.limbs.Length < n || right.limbs.Length < n { return -1; }
    var out, mod := output.limbs, modulus.limbs;
    ghost var m, l, r := Val(mod[..n]), Val(left.limbs[..n]), if mask == 0 then 0 else Val(right.limbs[..n]);
    ValBound(mod[..n]);
    ValBound(left.limbs[..n]);
    ValBound(right.limbs[..n]);
    var carry := AddMasked(out, left.limbs, right.limbs, n, mask);
    ghost var s := Val(out[..n]);
    ValBound(out[..n]);
    var borrow := SubtractLimbs(out, out, mod, n);
    ghost var d := Val(out[..n]);
    ValBound(out[..n]);
    var restoreMask := RestoreMask(carry, borrow);
    var carry2 := AddMasked(out, out, mod, n, restoreMask);
    ValBound(out[..n]);
    MaskedSum(l, r, m, Weight(n), s, carry, d, borrow, Val(out[..n]), carry2);
    output.length := n;
    return 0;
  }

  /** `bigint_mod_add_ct`: for operands below the modulus, their sum modulo it. */
  method ModAddCt(output: BigInt, left: BigInt, right: BigInt, modulus: BigInt) returns (rc: int)
    requires output.Valid() && left.Valid() && right.Valid() && modulus.Valid()
    requires output.limbs != modulus.limbs
    modifies output`length, output.limbs
    ensures rc == if modulus.length == 0 || output.limbs.Length < modulus.length ||
                     left.limbs.Length < modulus.length || right.limbs.Length < modulus.length then -1 else 0
    ensures rc == 0 ==> output.length == modulus.length && HoldsWide(output,
      CtAdd(old(Val(left.limbs[..modulus.length])) + old(Val(right.limbs[..modulus.length])),
            modulus.Value(), Weight(modulus.length)),
      modulus.length)
    ensures rc == 0 ==>
      var l, r, m := old(Val(left.limbs[..modulus.length])), old(Val(right.limbs[..modulus.length])), modulus.Value();
      l < m && r < m ==> Val(output.limbs[..modulus.length]) == (l + r) % m
    ensures rc != 0 ==> output.length == old(output.length) && output.limbs[..] == old(output.limbs[..])
  {
    hide Val, Weight, CtAdd;
    ghost var n, m, w := modulus.length, modulus.Value(), Weight(modulus.length);
    ghost var l := if n <= left.limbs.Length then Val(left.limbs[..n]) else 0;
    ghost var r := if n <= right.limbs.Length then Val(right.limbs[..n]) else 0;
    ValBound(modulus.Used());
    if l < m && r < m { CtAddReduced(l + r, m, w); }
    rc := ModAddCtMasked(output, left, right, modulus, ALL_ONES);
  }

  /** What the borrow of the masked subtraction says about a difference. */
  lemma MaskedDifference(l: nat, r: nat, m: nat, w: nat, d: nat, borrow: nat, t: nat, carry: nat)
    requires l < m <= w && r < m && borrow <= 1 && carry <= 1
    requires d + r == l + borrow * w && d < w
    requires t + carry * w == d + (if borrow == 0 then 0 else m) && t < w
    ensures t == (l - r) % m
  {
    RemainderUnique(l - r, if borrow == 0 then 0 else -1, t, m);
  }

  /** left - right mod modulus, in place or not. */
  method ModSubtractCt(output: BigInt, left: BigInt, right: BigInt, modulus: BigInt) returns (rc: int)
    requires output.Valid() && left.Valid() && right.Valid() && modulus.Valid()
    requires output.limbs != modulus.limbs
    requires modulus.length <= left.limbs.Length ==> Val(left.limbs[..modulus.length]) < modulus.Value()
    requires modulus.length <= right.limbs.Length ==> Val(right.limbs[..modulus.length]) < modulus.Value()
    modifies output`length, output.limbs
    ensures rc == if modulus.length == 0 || output.limbs.Length < modulus.length ||
                     left.limbs.Length < modulus.length || right.limbs.Length < modulus.length then -1 else 0
    ensures rc == 0 ==> output.length == modulus.length && HoldsWide(output,
      (old(Val(left.limbs[..modulus.length])) - old(Val(right.limbs[..modulus.length]))) % modulus.Value(),
        modulus.length)
    ensures rc != 0 ==> output.length == old(output.length) && output.limbs[..] == old(output.limbs[..])
  {
    hide Val, Weight;
    var n := modulus.length;
    if n == 0 || output.limbs.Length < n || left.limbs.Length < n || right.limbs.Length < n { return -1; }
    var out, mod := output.limbs, modulus.limbs;
    ghost var m, l, r := Val(mod[..n]), Val(left.limbs[..n]), Val(right.limbs[..n]);
    ValBound(mod[..n]);
    var borrow := SubtractLimbs(out, left.limbs, right.limbs, n);
    ghost var d := Val(out[..n]);
    ValBound(out[..n]);
    MaskOfBit();
    var carry := AddMasked(out, out, mod, n, MaskOf(borrow));
    ValBound(out[..n]);
    MaskedDifference(l, r, m, Weight(n), d, borrow, Val(out[..n]), carry);
    output.length := n;
    return 0;
  }

  /** The bits of s read so far by the double-and-add loops: limbs below i, then `bit` bits of limb i. */
  function Low(s: seq<U32>, i: nat, bit: nat): int
    requires i < |s|
  {
    Val(s[..i]) + (s[i] % Pow2(bit)) * Weight(i)
  }

  /** The weight of the next bit. */
  function BitWeight(i: nat, bit: nat): int { Pow2(bit) * Weight(i) }

  lemma LowEnds(s: seq<U32>, i: nat)
    requires i < |s|
    ensures Low(s, i, 0) == Val(s[..i]) && BitWeight(i, 0) == Weight(i)
    ensures Low(s, i, 32) == Val(s[..i + 1]) && BitWeight(i, 32) == Weight(i + 1)
  {
    Pow2At32();
    ValSnoc(s, i);
    RemainderUnique(s[i], 0, s[i], Pow2(32));
  }

  lemma LowStep(s: seq<U32>, i: nat, bit: nat)
    requires i < |s|
    ensures Low(s, i, bit + 1) == Low(s, i, bit) + BitAt(s[i], bit) * BitWeight(i, bit)
    ensures BitWeight(i, bit + 1) == 2 * BitWeight(i, bit)
  {
    BitStep(s[i], bit);
    MulSum(s[i] % Pow2(bit), BitAt(s[i], bit) * Pow2(bit), Weight(i));
    MulSwap(BitAt(s[i], bit), Pow2(bit), Weight(i));
    MulSwap(2, Pow2(bit), Weight(i));
  }

  /** `bigint_mod_multiply_ct` on any operands: the masked double-and-add product, which is left * right mod modulus for
      a left factor up to the modulus. */
  method ModMultiplyCt(output: BigInt, left: BigInt, right: BigInt, modulus: BigInt, temporary: BigInt)
    returns (rc: int)
    requires output.Valid() && left.Valid() && right.Valid() && modulus.Valid() && temporary.Valid()
    requires output.limbs !in {left.limbs, right.limbs, modulus.limbs, temporary.limbs}
    requires temporary.limbs !in {right.limbs, modulus.limbs}
    modifies output`length, output.limbs, temporary`length, temporary.limbs
    ensures rc == if modulus.length == 0 || output.limbs.Length < modulus.length || left.limbs.Length < modulus.length
                     || right.limbs.Length < modulus.length || temporary.limbs.Length < modulus.length then -1 else 0
    ensures rc == 0 ==> output.length == modulus.length && HoldsWide(output,
      CtProduct(old(Val(left.limbs[..modulus.length])), Val(right.limbs[..modulus.length]), modulus.Value(),
                32 * modulus.length),
      modulus.length)
    ensures rc == 0 ==>
      var l, r, m := old(Val(left.limbs[..modulus.length])), Val(right.limbs[..modulus.length]), modulus.Value();
      0 < m && l <= m ==> Val(output.limbs[..modulus.length]) == (l * r) % m
    ensures modulus.length == old(modulus.length) && modulus.Value() == old(modulus.Value())
    ensures output.Valid() && temporary.Valid()
  {
    hide Val, Weight, Pow2, BitAt, CtRun, CtAdd;
    var n := modulus.length;
    if n == 0 || output.limbs.Length < n || left.limbs.Length < n || right.limbs.Length < n ||
       temporary.limbs.Length < n { return -1; }
    ghost var a, r, m, w := Val(left.limbs[..n]), right.limbs[..n], modulus.Value(), Weight(n);
    ghost var v := Val(r);
    StartProduct(output, left, temporary, n);
    CtRunStart(a, v, m, w);
    for i := 0 to n
      invariant modulus.length == n && modulus.Value() == m && right.limbs[..n] == r
      invariant output.Valid() && temporary.Valid() && output.length == n
      invariant (Val(output.limbs[..n]), Val(temporary.limbs[..n])) == CtRun(a, v, m, w, 32 * i)
    {
      for bit := 0 to 32
        invariant modulus.length == n && modulus.Value() == m && right.limbs[..n] == r
        invariant output.Valid() && temporary.Valid() && output.length == n
        invariant (Val(output.limbs[..n]), Val(temporary.limbs[..n])) == CtRun(a, v, m, w, 32 * i + bit)
      {
        assert right.limbs[i] == r[i];
        LimbBit(r, i, bit);
        CtRunStep(a, v, m, w, 32 * i + bit);
        MaskOfBit();
        var mask := MaskOf(BitAt(right.limbs[i], bit));
        var rc1 := ModAddCtMasked(output, output, temporary, modulus, mask);
        assert right.limbs[..n] == r;
        var rc2 := ModAddCt(temporary, temporary, temporary, modulus);
        assert right.limbs[..n] == r;
      }
    }
    WideProduct(a, r, m, n);
    ValBound(modulus.Used());
    return 0;
  }

  lemma CtRunStart(a: nat, r: nat, m: nat, w: nat)
    ensures CtRun(a, r, m, w, 0) == (0, a)
  {
  }

  lemma CtRunStep(a: nat, r: nat, m: nat, w: nat, k: nat)
    ensures var s := CtRun(a, r, m, w, k);
      CtRun(a, r, m, w, k + 1) == (CtAdd(s.0 + (if BitAt(r, k) == 0 then 0 else s.1), m, w), CtAdd(s.1 + s.1, m, w))
  {
  }

  /** The product at the width of n limbs. */
  lemma WideProduct(a: nat, r: seq<U32>, m: nat, n: nat)
    requires |r| == n
    ensures CtRun(a, Val(r), m, Weight(n), 32 * n).0 == CtProduct(a, Val(r), m, 32 * n)
    ensures 0 < m < Weight(n) && a <= m ==> CtProduct(a, Val(r), m, 32 * n) == (a * Val(r)) % m
  {
    hide Val, Weight, Pow2, CtRun;
    WeightIsPow2(n);
    ValBound(r);
    if 0 < m < Weight(n) && a <= m { ProductRight(a, Val(r), m, 32 * n); }
  }

  /** The first loop of the fixed-width product: clear the output, copy left. */
  method StartProduct(output: BigInt, left: BigInt, temporary: BigInt, n: nat)
    requires output.Valid() && left.Valid() && temporary.Valid()
    requires n <= output.limbs.Length && n <= left.limbs.Length && n <= temporary.limbs.Length
    requires output.limbs != left.limbs && output.limbs != temporary.limbs
    modifies output`length, output.limbs, temporary`length, temporary.limbs
    ensures output.length == temporary.length == n
    ensures Val(output.limbs[..n]) == 0
    ensures Val(temporary.limbs[..n]) == old(Val(left.limbs[..n]))
  {
    ghost var l := left.limbs[..n];
    for i := 0 to n
      invariant forall k :: 0 <= k < i ==> output.limbs[k] == 0 && temporary.limbs[k] == l[k]
      invariant forall k :: i <= k < n ==> left.limbs[k] == l[k]
    {
      output.limbs[i] := 0;
      temporary.limbs[i] := left.limbs[i];
    }
    ValZero(output.limbs[..n]);
    assert temporary.limbs[..n] == l;
    output.length := n;
    temporary.length := n;
  }

  /** The body of the double-and-add loop of the branchy product. */
  method DoubleAndAddStep(output: BigInt, temporary: BigInt, modulus: BigInt, bit: nat,
                          ghost a: int, ghost lo: int, ghost w: int)
    requires modulus.Valid() && modulus.Value() > 0 && bit <= 1
    requires output.limbs != modulus.limbs && temporary.limbs != modulus.limbs && output.limbs != temporary.limbs
    requires output.Holds((a * lo) % modulus.Value(), modulus.length)
    requires temporary.Holds((a * w) % modulus.Value(), modulus.length)
    modifies output`length, output.limbs, temporary`length, temporary.limbs
    ensures modulus.Valid() && modulus.length == old(modulus.length) && modulus.Value() == old(modulus.Value())
    ensures output.Holds((a * (lo + bit * w)) % modulus.Value(), modulus.length)
    ensures temporary.Holds((a * (2 * w)) % modulus.Value(), modulus.length)
  {
    hide Val, Weight;
    ghost var m, n := modulus.Value(), modulus.length;
    DoubleAndAdd(a, lo, w, bit, m);
    HoldsValue(temporary, (a * w) % m, n);
    ModIsCong(a * w, m);
    ModIsCong(a * lo, m);
    if bit != 0 {
      HoldsValue(output, (a * lo) % m, n);
      var rc1 := ModAdd(output, output, temporary, modulus);
    } else {
      assert lo + bit * w == lo;
    }
    var rc2 := ModAdd(temporary, temporary, temporary, modulus);
  }

  /** `bigint_mod_multiply`: left * right mod modulus for operands of any size, normalised. */
  method ModMultiply(output: BigInt, left: BigInt, right: BigInt, modulus: BigInt, temporary: BigInt) returns (rc: int)
    requires output.Valid() && left.Valid() && right.Valid() && modulus.Valid() && temporary.Valid()
    requires output.limbs !in {left.limbs, right.limbs, modulus.limbs, temporary.limbs}
    requires temporary.limbs !in {left.limbs, right.limbs, modulus.limbs}
    requires modulus.length > 0 ==> modulus.Value() > 0
    modifies output`length, output.limbs, temporary`length, temporary.limbs
    ensures rc == if output.limbs.Length < modulus.length || temporary.limbs.Length < modulus.length then -1
                  else if modulus.length == 0 then -2 else 0
    ensures rc == 0 ==> output.Holds((left.Value() * right.Value()) % modulus.Value(), modulus.length)
    ensures output.Valid() && temporary.Valid()
  {
    hide Val, Weight, Pow2, BitAt, Low, BitWeight;
    var n := modulus.length;
    if output.limbs.Length < n || temporary.limbs.Length < n { return -1; }
    Zero(output);
    var rc0 := ModReduce(temporary, left, modulus);
    if rc0 != 0 { return -2; }
    ghost var a, r, m := left.Value(), right.Used(), modulus.Value();
    ValEmpty(r);
    ValZero(output.limbs[..n]);
    assert a * 0 == 0 && a * 1 == a;
    RemainderUnique(0, 0, 0, m);
    for i := 0 to right.length
      invariant modulus.length == n && modulus.Value() == m && right.Used() == r
      invariant output.Holds((a * Val(r[..i])) % m, n)
      invariant temporary.Holds((a * Weight(i)) % m, n)
    {
      LowEnds(r, i);
      for bit := 0 to 32
        invariant modulus.length == n && modulus.Value() == m && right.Used() == r
        invariant output.Holds((a * Low(r, i, bit)) % m, n)
        invariant temporary.Holds((a * BitWeight(i, bit)) % m, n)
      {
        LowStep(r, i, bit);
        DoubleAndAddStep(output, temporary, modulus, BitAt(right.limbs[i], bit), a, Low(r, i, bit), BitWeight(i, bit));
      }
    }
    assert r[..|r|] == r;
    return 0;
  }
}
