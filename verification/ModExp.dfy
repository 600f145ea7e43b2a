/** Modular exponentiation by Montgomery products and by plain products
    (kernel/bigint.c:190-279). */
module ModExp {
  import opened Words
  import opened Congruence
  import opened Limbs
  import opened BigIntCore
  import opened MaskedProduct
  import opened ModArith
  import opened Montgomery

  // ---------------------------------------------------------------- Newton inverse

  lemma CongDivisor(a: int, b: int, m: nat, d: nat)
    requires m > 0 && d > 0 && Cong(a, b, m * d)
    ensures Cong(a, b, m)
  {
    var k := Quotient(a, b, m * d);
    MulSwap(k, d, m);
    CongOf(a, b, k * d, m);
  }

  /** A Newton step squares the modulus to which x inverts m. */
  lemma NewtonStep(m: int, x: int, x': int, p: nat, d: nat)
    requires p > 0 && d > 0 && Cong(m * x, 1, p) && Cong(x', x * (2 - m * x), p * p * d)
    ensures Cong(m * x', 1, p * p)
  {
    var pp := p * p;
    CongDivisor(x', x * (2 - m * x), pp, d);
    CongScale(x', x * (2 - m * x), m, pp);
    var k := Quotient(m * x, 1, p);
    var e := k * p;
    assert m * x == 1 + e;
    MulSwap(m, x, 2 - m * x);
    assert m * (x * (2 - m * x)) == (1 + e) * (1 - e);
    assert (1 + e) * (1 - e) == 1 - e * e;
    assert e * e == (k * k) * pp by { MulSwap(k * p, k, p); MulSwap(k, p, p); MulSwap(k, k, p * p); }
    MulSum(0, 0 - k * k, pp);
    CongOf(1 - e * e, 1, 0 - k * k, pp);
  }

  /** Moduli to which the five Newton steps are exact. */
  function NewtonModulus(i: nat): nat
    requires i <= 5
  {
    [2, 4, 16, 256, 65536, BASE][i]
  }

  /** Minus the inverse of an odd word modulo 2^32, in five Newton steps. */
  method NegatedInverse(m0: U32) returns (n0inv: U32)
    requires m0 % 2 == 1
    ensures NegInverse(n0inv, m0)
  {
    n0inv := 1;
    for i := 0 to 5
      invariant Cong(m0 * n0inv, 1, NewtonModulus(i))
    {
      ghost var x: int, p := n0inv, NewtonModulus(i);
      n0inv := (n0inv * ((2 - m0 * n0inv) % BASE)) % BASE;
      ModIsCong(2 - m0 * x, BASE);
      CongScale((2 - m0 * x) % BASE, 2 - m0 * x, x, BASE);
      ModIsCong(x * ((2 - m0 * x) % BASE), BASE);
      ghost var d: nat := [BASE / 4, BASE / 16, BASE / 256, BASE / 65536, 1][i];
      assert p * p * d == BASE && p * p == NewtonModulus(i + 1);
      NewtonStep(m0, x, n0inv, p, d);
    }
    Negate(m0, n0inv);
    n0inv := (0 - n0inv) % BASE;
  }

  lemma Negate(m0: U32, x: U32)
    requires Cong(m0 * x, 1, BASE)
    ensures NegInverse((0 - x) % BASE, m0)
  {
    var y := (0 - x) % BASE;
    ModIsCong(0 - x, BASE);
    CongScale(y, 0 - x, m0, BASE);
    CongScale(m0 * x, 1, -1, BASE);
    assert (0 - x) * m0 == -1 * (m0 * x);
    CongSmall(y * m0, BASE - 1, BASE);
  }

  // ---------------------------------------------------------------- Montgomery form

  /** r stands for x in Montgomery form. */
  ghost predicate InForm(r: int, x: int, w: int, m: nat)
    requires m > 0
  {
    0 <= r < m && Cong(r, x * w, m)
  }

  /** A Montgomery product of forms is the form of the product: the weight cancels because m is odd. */
  lemma FormProduct(p: int, r: int, s: int, x: int, y: int, n: nat, m: nat)
    requires m % 2 == 1 && 0 <= p < m
    requires InForm(r, x, Weight(n), m) && InForm(s, y, Weight(n), m)
    requires Cong(p * Weight(n), r * s, m)
    ensures InForm(p, x * y, Weight(n), m)
  {
    var w := Weight(n);
    CongMul(r, x * w, s, y * w, m);
    assert (x * w) * (y * w) == (x * y * w) * w;
    WeightIsPow2(n);
    CancelPow2(p, x * y * w, 32 * n, m);
  }

  /** Multiplying by one leaves Montgomery form. */
  lemma LeaveForm(p: int, r: int, x: int, n: nat, m: nat)
    requires m % 2 == 1 && 0 <= p < m
    requires InForm(r, x, Weight(n), m)
    requires Cong(p * Weight(n), r * 1, m)
    ensures p == x % m
  {
    WeightIsPow2(n);
    CancelPow2(p, x, 32 * n, m);
    CongSmall(x, p, m);
  }

  method CopyLimbs(target: array<U32>, source: array<U32>, n: nat)
    requires n <= target.Length && n <= source.Length && target != source
    modifies target
    ensures target[..n] == source[..n] && target[n..] == old(target[n..])
  {
    for i := 0 to n
      invariant target[..i] == source[..i] && target[n..] == old(target[n..])
    {
      target[i] := source[i];
    }
  }

  lemma DoublingStep(b: int, e: nat, m: nat)
    requires m > 0
    ensures ((b * Pow2(e)) % m + (b * Pow2(e)) % m) % m == (b * Pow2(e + 1)) % m
  {
    DoubleAndAdd(b, 0, Pow2(e), 0, m);
  }

  /** current becomes base * B^n mod m: reduction, then 32n modular doublings. */
  method EnterForm(current: array<U32>, base: BigInt, modulus: BigInt)
    requires base.Valid() && modulus.Valid() && modulus.length > 0 && modulus.Value() > 0
    requires current.Length == modulus.length && current != base.limbs && current != modulus.limbs
    modifies current
    ensures InForm(Val(current[..]), base.Value(), Weight(modulus.length), modulus.Value())
  {
    hide Val, Weight, Cong, Pow2, InForm;
    var n := modulus.length;
    ghost var b, m, s := base.Value(), modulus.Value(), modulus.limbs[..n];
    FormEnds(b, n, m);
    var cur := new BigInt.Init(current);
    var rc := ModReduce(cur, base, modulus);
    ghost var reduced := current[..];
    assert reduced == current[..n];
    for i := cur.length to n
      modifies current
      invariant current[..] == reduced
    {
      current[i] := 0;
    }
    cur.length := n;
    for i := 0 to 32 * n
      modifies cur, current
      invariant cur.Valid() && cur.length == n && modulus.length == n && modulus.limbs[..n] == s
      invariant Val(current[..n]) == (b * Pow2(i)) % m
    {
      ModIsCong(b * Pow2(i), m);
      DoublingStep(b, i, m);
      var rc1 := ModAddCt(cur, cur, cur, modulus);
    }
    assert current[..] == current[..n];
  }

  lemma FormEnds(b: nat, n: nat, m: nat)
    requires m > 0
    ensures b * Pow2(0) == b && InForm((b * Pow2(32 * n)) % m, b, Weight(n), m)
  {
    hide Weight, Cong;
    WeightIsPow2(n);
    ModIsCong(b * Pow2(32 * n), m);
  }

  /** One exponent bit: square, then multiply by the base if the bit is set; the first set bit starts the product. */
  method LadderStep(result: array<U32>, current: array<U32>, product: array<U32>, m: array<U32>, n: nat,
                    n0inv: U32, started: bool, bit: nat, ghost b: int, ghost e: nat) returns (now: bool)
    requires 0 < n <= MONT_MAX_LIMBS && result.Length == current.Length == product.Length == n <= m.Length
    requires result != current && result != product && current != product && m !in {result, current, product}
    requires NegInverse(n0inv, m[0]) && Val(m[..n]) % 2 == 1 && bit <= 1
    requires InForm(Val(current[..]), b, Weight(n), Val(m[..n]))
    requires started <==> e > 0
    requires started ==> InForm(Val(result[..]), Pow(b, e), Weight(n), Val(m[..n]))
    modifies result, product
    ensures now <==> 2 * e + bit > 0
    ensures now ==> InForm(Val(result[..]), Pow(b, 2 * e + bit), Weight(n), Val(m[..n]))
  {
    PowSum(b, e, e);
    PowSum(b, 2 * e, 1);
    assert Pow(b, 1) == b && Pow(b, 0) == 1;
    hide Val, Weight, Cong, Pow, NegInverse;
    now := started;
    if started {
      MontTimes(product, result, result, m, n, n0inv, Pow(b, e), Pow(b, e));
      CopyLimbs(result, product, n);
      assert result[..] == result[..n] == product[..n] == product[..];
    }
    assert e + e == 2 * e;
    if bit == 1 {
      if started {
        MontTimes(product, result, current, m, n, n0inv, Pow(b, 2 * e), b);
        CopyLimbs(result, product, n);
        assert result[..] == result[..n] == product[..n] == product[..];
      } else {
        CopyLimbs(result, current, n);
        assert result[..] == result[..n] == current[..n] == current[..];
        now := true;
      }
    }
  }

  /** The 32 bits of one exponent limb, after the limbs above it (value `high`). */
  method LadderLimb(result: array<U32>, current: array<U32>, product: array<U32>, m: array<U32>, n: nat,
                    n0inv: U32, started: bool, limb: U32, ghost b: int, ghost high: nat) returns (now: bool)
    requires 0 < n <= MONT_MAX_LIMBS && result.Length == current.Length == product.Length == n <= m.Length
    requires result != current && result != product && current != product && m !in {result, current, product}
    requires NegInverse(n0inv, m[0]) && Val(m[..n]) % 2 == 1
    requires InForm(Val(current[..]), b, Weight(n), Val(m[..n]))
    requires started <==> high > 0
    requires started ==> InForm(Val(result[..]), Pow(b, high), Weight(n), Val(m[..n]))
    modifies result, product
    ensures now <==> limb + BASE * high > 0
    ensures now ==> InForm(Val(result[..]), Pow(b, limb + BASE * high), Weight(n), Val(m[..n]))
  {
    hide Val, Weight, Cong, Pow, Pow2, NegInverse, BitPrefix, BitAt;
    ghost var c, s := current[..], m[..n];
    var bit := 32;
    now := started;
    TopOfLimb(high, limb);
    while bit > 0
      invariant 0 <= bit <= 32 && BitPrefix(high, limb, bit) >= 0
      invariant current[..] == c && m[..n] == s
      invariant now <==> BitPrefix(high, limb, bit) > 0
      invariant now ==> InForm(Val(result[..]), Pow(b, BitPrefix(high, limb, bit)), Weight(n), Val(s))
    {
      PrefixStep(high, limb, bit, 1);
      now := LadderStep(result, current, product, m, n, n0inv, now, BitAt(limb, bit - 1), b,
                        BitPrefix(high, limb, bit));
      bit := bit - 1;
    }
  }

  /** The Montgomery product on numbers in Montgomery form. */
  method MontTimes(out: array<U32>, a: array<U32>, b: array<U32>, m: array<U32>, n: nat, n0inv: U32, ghost x: int,
                   ghost y: int)
    requires 0 < n <= MONT_MAX_LIMBS && out.Length == a.Length == b.Length == n <= m.Length
    requires out != m && out != a && out != b
    requires NegInverse(n0inv, m[0]) && Val(m[..n]) % 2 == 1
    requires InForm(Val(a[..]), x, Weight(n), Val(m[..n])) && InForm(Val(b[..]), y, Weight(n), Val(m[..n]))
    modifies out
    ensures InForm(Val(out[..]), x * y, Weight(n), Val(m[..n]))
  {
    hide Val, Weight, Cong, NegInverse;
    assert a[..] == a[..n] && b[..] == b[..n];
    MontMul(out, a, b, m, n, n0inv);
    assert out[..] == out[..n];
    FormProduct(Val(out[..]), Val(a[..]), Val(b[..]), x, y, n, Val(m[..n]));
  }

  // ---------------------------------------------------------------- exponentiation

  predicate MontOk(modulus: BigInt)
    requires modulus.Valid()
    reads modulus, modulus.limbs
  {
    1 <= modulus.length <= MONT_MAX_LIMBS && modulus.limbs[0] % 2 == 1 && modulus.limbs[modulus.length - 1] != 0
  }

  lemma OddModulus(s: seq<U32>)
    requires |s| > 0
    ensures Val(s) % 2 == s[0] % 2
  {
    hide Val, Weight;
    ValCons(s, 0);
    assert s[0..] == s;
    EvenTail(s[0], Val(s[1..]));
  }

  lemma EvenTail(low: nat, high: nat)
    ensures (low + BASE * high) % 2 == low % 2
  {
  }

  /** With a nonzero top limb, only the one-limb modulus 1 has value 1. */
  lemma OneModulus(s: seq<U32>)
    requires |s| > 0 && s[|s| - 1] != 0
    ensures Val(s) >= 1 && (Val(s) == 1 <==> |s| == 1 && s[0] == 1)
  {
    var k := |s| - 1;
    MulLe(1, s[k], Weight(k));
    if k > 0 {
      NextWeight(k - 1);
    } else {
      ValEmpty(s);
      assert Val(s) == Val(s[..0]) + s[0] * Weight(0);
    }
  }

  /** Exponentiation by Montgomery products, most significant bit first. Output may share its buffer with base or
      exponent. */
  method ModExpMont(output: BigInt, base: BigInt, exponent: BigInt, modulus: BigInt)
    requires output.Valid() && base.Valid() && exponent.Valid() && modulus.Valid()
    requires output.limbs != modulus.limbs && output != modulus && MontOk(modulus)
    requires modulus.length <= output.limbs.Length
    modifies output`length, output.limbs
    ensures output.Holds(Pow(old(base.Value()), old(exponent.Value())) % modulus.Value(), modulus.length)
  {
    hide Val, Weight, Cong, Pow, NegInverse, InForm;
    var n := modulus.length;
    ghost var s := modulus.limbs[..n];
    ghost var b, e, m, x := base.Value(), exponent.Value(), modulus.Value(), exponent.Used();
    OddModulus(s);
    OneModulus(s);
    var n0inv := NegatedInverse(modulus.limbs[0]);
    var result, current, product := new U32[n], new U32[n], new U32[n];
    EnterForm(current, base, modulus);
    var started := false;
    var index := exponent.length;
    ValZero(x[|x|..]);
    while index > 0
      modifies result, product
      invariant 0 <= index <= exponent.length == |x|
      invariant InForm(Val(current[..]), b, Weight(n), m)
      invariant modulus.limbs[..n] == s && exponent.Used() == x
      invariant started <==> Val(x[index..]) > 0
      invariant started ==> InForm(Val(result[..]), Pow(b, Val(x[index..])), Weight(n), m)
    {
      started := LadderLimb(result, current, product, modulus.limbs, n, n0inv, started, exponent.limbs[index - 1],
                            b, Val(x[index..]));
      ValCons(x, index - 1);
      index := index - 1;
    }
    assert x[0..] == x;
    LeaveMont(output, result, current, product, modulus, n0inv, started, b, e);
  }

  /** The end of the Montgomery path: multiply by one, or store 1 for a zero exponent. */
  method LeaveMont(output: BigInt, result: array<U32>, current: array<U32>, product: array<U32>, modulus: BigInt,
                   n0inv: U32, started: bool, ghost b: int, ghost e: nat)
    requires output.Valid() && modulus.Valid() && MontOk(modulus) && output != modulus
    requires modulus.length <= output.limbs.Length && output.limbs !in {modulus.limbs, result, current, product}
    requires result.Length == current.Length == product.Length == modulus.length
    requires result != current && result != product && current != product &&
      modulus.limbs !in {result, current, product}
    requires modulus.Value() % 2 == 1 && NegInverse(n0inv, modulus.limbs[0])
    requires started <==> e > 0
    requires started ==> InForm(Val(result[..]), Pow(b, e), Weight(modulus.length), modulus.Value())
    modifies output`length, output.limbs, current, product
    ensures output.Holds(Pow(b, e) % modulus.Value(), modulus.length)
  {
    hide Val, Weight, Cong, Pow, NegInverse;
    var n := modulus.length;
    ghost var s, m := modulus.limbs[..n], modulus.Value();
    OneModulus(s);
    Zero(output);
    if !started {
      NoPower(b, e);
      SmallPower(b, m);
      if !(n == 1 && modulus.limbs[0] == 1) {
        output.limbs[0] := 1;
        output.length := 1;
      }
      UnitValue(output.limbs[..n]);
      return;
    }
    for i := 0 to n
      modifies product
      invariant forall k :: 0 <= k < i ==> product[k] == 0
    {
      product[i] := 0;
    }
    product[0] := 1;
    UnitValue(product[..n]);
    assert product[..] == product[..n] && result[..] == result[..n] && modulus.limbs[..n] == s;
    MontMul(current, result, product, modulus.limbs, n, n0inv);
    LeaveForm(Val(current[..n]), Val(result[..n]), Pow(b, e), n, m);
    CopyLimbs(output.limbs, current, n);
    output.length := n;
    Normalize(output);
  }

  lemma NoPower(b: int, e: nat)
    ensures e == 0 ==> Pow(b, e) == Pow(b, 0)
  {
  }

  lemma SmallPower(b: int, m: nat)
    requires m > 0
    ensures Pow(b, 0) % m == if m == 1 then 0 else 1
  {
    RemainderUnique(1, if m == 1 then 1 else 0, if m == 1 then 0 else 1, m);
  }

  lemma UnitValue(s: seq<U32>)
    requires |s| > 0 && s[0] <= 1 && forall k :: 1 <= k < |s| ==> s[k] == 0
    ensures Val(s) == s[0]
  {
    ValTrim(s, 1);
    ValSnoc(s, 0);
    ValEmpty(s);
    assert s[..1] == s[..0 + 1];
  }

  /** The four buffers that the plain path carves out of the caller's workspace. */
  datatype Workspace = Workspace(result: BigInt, current: BigInt, product: BigInt, temporary: BigInt) {
    ghost function Objects(): set<object>
    {
      {result, current, product, temporary, result.limbs, current.limbs, product.limbs, temporary.limbs}
    }

    /** Buffers of the modulus' width, apart from each other and from the modulus; the scratch ones are well formed. */
    ghost predicate Ready(modulus: BigInt)
      reads modulus, product, temporary
    {
      && modulus.Valid() && modulus.length > 0 && product.Valid() && temporary.Valid()
      && result.limbs.Length == current.limbs.Length == product.limbs.Length == temporary.limbs.Length == modulus.length
      && result.limbs !in {current.limbs, product.limbs, temporary.limbs, modulus.limbs}
      && current.limbs !in {product.limbs, temporary.limbs, modulus.limbs}
      && product.limbs !in {temporary.limbs, modulus.limbs} && temporary.limbs != modulus.limbs
    }
  }

  /** target (result or current) becomes target * other mod m, through the product buffer. */
  method PlainTimes(target: BigInt, other: BigInt, ws: Workspace, modulus: BigInt, ghost x: nat, ghost y: nat)
    requires ws.Ready(modulus) && modulus.Value() > 0
    requires target in {ws.result, ws.current} && other in {ws.result, ws.current}
    requires target.Holds(x, modulus.length) && other.Holds(y, modulus.length)
    modifies target`length, target.limbs, ws.product`length, ws.product.limbs, ws.temporary`length, ws.temporary.limbs
    ensures ws.Ready(modulus) && target.Holds((x * y) % modulus.Value(), modulus.length)
  {
    hide Val, Weight;
    ghost var v, n := (x * y) % modulus.Value(), modulus.length;
    HoldsValue(target, x, n);
    HoldsValue(other, y, n);
    var rc := ModMultiply(ws.product, target, other, modulus, ws.temporary);
    Copy(target, ws.product);
    assert target.limbs[..n] == ws.product.limbs[..n];
  }

  /** What the plain loop knows: r is the power so far, reduced once a product was taken, else the initial r. */
  predicate PlainPower(r: int, b: int, e: nat, m: nat, touched: bool, init: int)
  {
    m > 0 && 0 <= r && Cong(r, Pow(b, e), m) && (touched ==> r < m) && (!touched ==> e == 0 && r == init)
  }

  /** The initial value of the plain loops: 1, or 0 for the one-limb modulus 1. */
  function Unit(s: seq<U32>): (r: int)
    requires |s| > 0
    ensures 0 <= r <= 1
  {
    if |s| == 1 && s[0] == 1 then 0 else 1
  }

  lemma UnitPower(s: seq<U32>, b: int)
    requires |s| > 0 && Val(s) > 0
    ensures PlainPower(Unit(s), b, 0, Val(s), false, Unit(s))
  {
    if |s| == 1 && s[0] == 1 {
      assert Val(s) == 1 by { UnitValue(s); }
      CongOf(0, 1, -1, 1);
    }
  }

  lemma PlainSquare(r: int, b: int, e: nat, m: nat, touched: bool, init: int)
    requires PlainPower(r, b, e, m, touched, init)
    ensures PlainPower((r * r) % m, b, 2 * e, m, true, init)
  {
    CongMul(r, Pow(b, e), r, Pow(b, e), m);
    ModIsCong(r * r, m);
    PowSum(b, e, e);
  }

  lemma PlainMultiply(r: int, c: int, b: int, e: nat, m: nat, touched: bool, init: int)
    requires PlainPower(r, b, e, m, touched, init) && Cong(c, b, m)
    ensures PlainPower((r * c) % m, b, e + 1, m, true, init)
  {
    CongMul(r, Pow(b, e), c, b, m);
    ModIsCong(r * c, m);
    PowSum(b, e, 1);
    assert Pow(b, 1) == b;
  }

  /** One exponent bit of the plain path; the very first set bit skips the squaring. */
  method PlainStep(ws: Workspace, modulus: BigInt, skipSquare: bool, bit: nat,
                   ghost r: nat, ghost c: nat, ghost b: int, ghost e: nat, ghost touched: bool, ghost init: int)
                     returns (ghost r': nat)
    requires ws.Ready(modulus) && modulus.Value() > 0 && bit <= 1
    requires ws.result.Holds(r, modulus.length) && ws.current.Holds(c, modulus.length) && Cong(c, b, modulus.Value())
    requires PlainPower(r, b, e, modulus.Value(), touched, init)
    requires skipSquare ==> bit == 1 && e == 0
    modifies ws.result`length, ws.result.limbs, ws.product`length, ws.product.limbs, ws.temporary`length,
         ws.temporary.limbs
    ensures ws.Ready(modulus) && ws.current.Holds(c, modulus.length)
    ensures ws.result.Holds(r', modulus.length) && PlainPower(r', b, 2 * e + bit, modulus.Value(), true, init)
  {
    hide Val, Weight, PlainPower, Cong;
    ghost var m, t := modulus.Value(), touched;
    r' := r;
    if !skipSquare {
      PlainSquare(r', b, e, m, t, init);
      PlainTimes(ws.result, ws.result, ws, modulus, r', r');
      r', t := (r' * r') % m, true;
    }
    if bit != 0 {
      PlainMultiply(r', c, b, 2 * e, m, t, init);
      PlainTimes(ws.result, ws.current, ws, modulus, r', c);
      r' := (r' * c) % m;
    }
  }

  /** The exponents for which the plain path takes no product at all. */
  ghost predicate NoProduct(exponent: BigInt)
    requires exponent.Valid()
    reads exponent, exponent.limbs
  {
    exponent.length == 0 || (exponent.length == 1 && exponent.limbs[0] == 0)
  }

  /** The number of significant bits of the top limb, found from the top. */
  method StartBit(limb: U32) returns (start: nat)
    ensures start <= 32 && BitPrefix(0, limb, start) == 0
    ensures start > 0 ==> BitAt(limb, start - 1) == 1
    ensures start == 0 <==> limb == 0
  {
    ZeroBits();
    hide BitPrefix, BitAt, Pow2;
    start := 32;
    TopOfLimb(0, limb);
    while start > 0 && BitAt(limb, start - 1) == 0
      invariant start <= 32 && BitPrefix(0, limb, start) == 0
    {
      PrefixStep(0, limb, start, 1);
      start := start - 1;
    }
  }

  lemma ZeroBits()
    ensures forall k :: BitAt(0, k) == 0
  {
  }

  /** Where the plain path ends: the power, except that modulus 1 written with leading zeros leaves 1 when no product
      was taken. */
  lemma PlainEnd(r: nat, b: int, e: nat, s: seq<U32>, touched: bool)
    requires |s| > 0 && PlainPower(r, b, e, Val(s), touched, Unit(s))
    ensures r == if !touched && Val(s) == 1 && |s| > 1 then 1 else Pow(b, e) % Val(s)
  {
    if touched {
      CongSmall(Pow(b, e), r, Val(s));
    } else {
      SmallPower(b, Val(s));
      if |s| == 1 { OneLimb(s); }
    }
  }

  lemma OneLimb(s: seq<U32>)
    requires |s| == 1
    ensures Val(s) == s[0]
  {
    ValSnoc(s, 0);
    ValEmpty(s);
    assert s[..0 + 1] == s;
  }

  /** A cleared buffer of n limbs as a number. */
  method FreshZero(n: nat) returns (x: BigInt)
    requires 0 < n < 0x1_0000
    ensures fresh(x) && fresh(x.limbs) && x.limbs.Length == n && x.length == 0
    ensures forall k :: 0 <= k < n ==> x.limbs[k] == 0
  {
    var buffer := new U32[n];
    x := new BigInt.Init(buffer);
  }

  /** The number 1, or 0 modulo the one-limb modulus 1. */
  method FreshUnit(modulus: BigInt) returns (result: BigInt)
    requires modulus.Valid() && modulus.length > 0
    ensures fresh(result) && fresh(result.limbs) && result.limbs.Length == modulus.length
    ensures result.Holds(Unit(modulus.Used()), modulus.length)
  {
    hide Val, Weight;
    result := FreshZero(modulus.length);
    if modulus.length == 1 && modulus.limbs[0] == 1 {
      result.length := 0;
    } else {
      result.limbs[0] := 1;
      result.length := 1;
    }
    UnitValue(result.limbs[..modulus.length]);
  }

  /** The buffers at the start of the plain path: result is the unit, current is base mod m. */
  method OpenWorkspace(base: BigInt, modulus: BigInt) returns (ws: Workspace)
    requires base.Valid() && modulus.Valid() && modulus.length > 0 && modulus.Value() > 0
    ensures fresh(ws.Objects()) && ws.Ready(modulus)
    ensures ws.result.Holds(Unit(modulus.Used()), modulus.length)
    ensures ws.current.Holds(base.Value() % modulus.Value(), modulus.length)
  {
    hide Val, Weight;
    var n := modulus.length;
    var result := FreshUnit(modulus);
    var current := FreshZero(n);
    var product := FreshZero(n);
    var temporary := FreshZero(n);
    var rc := ModReduce(current, base, modulus);
    ws := Workspace(result, current, product, temporary);
  }

  /** Copies a result into the zeroed output. */
  method Deliver(output: BigInt, result: BigInt, n: nat, ghost v: nat)
    requires output.Valid() && result.Holds(v, n) && n <= output.limbs.Length
    requires output.limbs != result.limbs && output != result
    modifies output`length, output.limbs
    ensures output.Holds(v, n)
  {
    Zero(output);
    CopyLimbs(output.limbs, result.limbs, result.length);
    assert output.limbs[..n] == result.limbs[..n] by {
      forall k | 0 <= k < n ensures output.limbs[k] == result.limbs[k] {
        if k >= result.length { assert output.limbs[k] == output.limbs[result.length..][k - result.length]; }
      }
    }
    output.length := result.length;
    assert result.length > 0 ==> output.limbs[result.length - 1] == output.limbs[..n][result.length - 1];
  }

  /** The plain loop, for any nonzero modulus: square and multiply from the top bit. */
  method ModExpPlain(output: BigInt, base: BigInt, exponent: BigInt, modulus: BigInt)
    requires output.Valid() && base.Valid() && exponent.Valid() && modulus.Valid()
    requires output.limbs != modulus.limbs && output != modulus
    requires 0 < modulus.length <= output.limbs.Length && modulus.Value() > 0
    modifies output`length, output.limbs
    ensures output.Holds(
      if old(NoProduct(exponent)) && modulus.Value() == 1 && modulus.length > 1 then 1
      else Pow(old(base.Value()), old(exponent.Value())) % modulus.Value(), modulus.length)
  {
    hide Val, Weight, Cong, Pow, BitPrefix, BitAt, PlainPower, BigInt.Holds;
    var n := modulus.length;
    ghost var s, b, x := modulus.Used(), base.Value(), exponent.Used();
    ghost var m, init := Val(s), Unit(s);
    var ws := OpenWorkspace(base, modulus);
    UnitPower(s, b);
    ModIsCong(b, m);
    ghost var r: nat, c: nat, touched := init, b % m, false;
    ValZero(x[|x|..]);
    var index := exponent.length;
    while index > 0
      modifies ws.result, ws.result.limbs, ws.product, ws.product.limbs, ws.temporary, ws.temporary.limbs
      invariant 0 <= index <= exponent.length == |x| && exponent.Used() == x
      invariant ws.Ready(modulus) && modulus.length == n && modulus.Used() == s
      invariant ws.result.Holds(r, n) && ws.current.Holds(c, n)
      invariant PlainPower(r, b, Val(x[index..]), m, touched, init)
      invariant touched <==> !(index == |x| || (index == |x| - 1 && x[|x| - 1] == 0))
    {
      var limb, start := exponent.limbs[index - 1], 32;
      assert limb == x[index - 1];
      if index == exponent.length { start := StartBit(limb); }
      r, touched := PlainLimb(ws, modulus, limb, start, index == exponent.length, r, c, b, Val(x[index..]), touched,
                              init);
      ValCons(x, index - 1);
      index := index - 1;
    }
    assert x[0..] == x;
    PlainEnd(r, b, Val(x), s, touched);
    Deliver(output, ws.result, n, r);
  }

  /** The bits of one exponent limb on the plain path, from `start` down. */
  method PlainLimb(ws: Workspace, modulus: BigInt, limb: U32, start: nat, top: bool,
                   ghost r0: nat, ghost c: nat, ghost b: int, ghost high: nat, ghost touched0: bool, ghost init: int)
    returns (ghost r: nat, ghost touched: bool)
    requires ws.Ready(modulus) && modulus.Value() > 0
    requires ws.result.Holds(r0, modulus.length) && ws.current.Holds(c, modulus.length) && Cong(c, b, modulus.Value())
    requires PlainPower(r0, b, high, modulus.Value(), touched0, init)
    requires start <= 32 && (if top then high == 0 && BitPrefix(0, limb, start) == 0 else start == 32)
    requires top && start > 0 ==> BitAt(limb, start - 1) == 1
    modifies ws.result`length, ws.result.limbs, ws.product`length, ws.product.limbs, ws.temporary`length,
         ws.temporary.limbs
    ensures ws.Ready(modulus) && ws.current.Holds(c, modulus.length)
    ensures ws.result.Holds(r, modulus.length) && touched == (touched0 || start > 0)
    ensures PlainPower(r, b, limb + BASE * high, modulus.Value(), touched, init)
  {
    hide Val, Weight, Cong, Pow, Pow2, BitPrefix, BitAt, PlainPower;
    ghost var n, s := modulus.length, modulus.limbs[..];
    r, touched := r0, touched0;
    var bit := start;
    TopOfLimb(high, limb);
    while bit > 0
      invariant 0 <= bit <= start && BitPrefix(high, limb, bit) >= 0
      invariant ws.Ready(modulus) && modulus.length == n && modulus.limbs[..] == s
      invariant ws.result.Holds(r, n) && ws.current.Holds(c, n)
      invariant bit == start ==> BitPrefix(high, limb, bit) == high
      invariant PlainPower(r, b, BitPrefix(high, limb, bit), modulus.Value(), touched, init)
      invariant touched == (touched0 || bit < start)
    {
      PrefixStep(high, limb, bit, 1);
      r := PlainStep(ws, modulus, top &&
                     bit == start, BitAt(limb, bit - 1), r, c, b, BitPrefix(high, limb, bit), touched, init);
      touched := true;
      bit := bit - 1;
    }
  }

  /** What modular exponentiation delivers for a modulus m of n limbs; noProduct if the plain path takes no product. */
  function Delivered(b: int, e: nat, m: nat, n: nat, noProduct: bool): int
    requires m > 0
  {
    if noProduct && m == 1 && n > 1 then 1 else Pow(b, e) % m
  }

  /** The power law holds exactly off one corner: no product taken modulo a 1 that is written with leading zero limbs.
      For a normalised modulus it always holds. */
  lemma DeliversPower(b: int, e: nat, m: nat, n: nat, noProduct: bool)
    requires m > 0
    ensures Delivered(b, e, m, n, noProduct) == Pow(b, e) % m <==> !(noProduct && m == 1 && n > 1)
  {
    hide Pow;
    ModIsCong(Pow(b, e), m);
  }

  /** `bigint_modexp`: base^exponent mod modulus on either path. The four workspace buffers are allocated here. */
  method Modexp(output: BigInt, base: BigInt, exponent: BigInt, modulus: BigInt, workspaceLength: U16) returns (rc: int)
    requires output.Valid() && base.Valid() && exponent.Valid() && modulus.Valid()
    requires output.limbs != modulus.limbs && output != modulus
    requires modulus.length > 0 ==> modulus.Value() > 0
    requires 4 * modulus.length < 0x1_0000
    modifies output`length, output.limbs
    ensures rc == if modulus.length == 0 then -1
                  else if output.limbs.Length < modulus.length || workspaceLength < 4 * modulus.length then -2 else 0
    ensures rc == 0 ==> output.Holds(
      Delivered(old(base.Value()), old(exponent.Value()), modulus.Value(), modulus.length, old(NoProduct(exponent))),
        modulus.length)
    ensures rc != 0 ==> output.length == old(output.length) && output.limbs[..] == old(output.limbs[..])
  {
    if modulus.length == 0 { return -1; }
    var capacity := modulus.length;
    if output.limbs.Length < capacity || workspaceLength < 4 * capacity % 0x1_0000 { return -2; }
    if MontOk(modulus) {
      OneModulus(modulus.Used());
      ModExpMont(output, base, exponent, modulus);
    } else {
      ModExpPlain(output, base, exponent, modulus);
    }
    return 0;
  }

  /** b^0 modulo 1, the modulus written as the limbs [1, 0]: the call succeeds and delivers 1, where the power is 0. */
  method PaddedOne(b: U32) returns (rc: int, output: BigInt, ghost power: int)
    ensures rc == 0 && output.Holds(1, 2) && power == Pow(b, 0) % Val([1, 0]) == 0
  {
    hide Val, Weight, Pow;
    var one, two := new U32[1](_ => b), new U32[2](i => if i == 0 then 1 else 0);
    var none, out := new U32[0], new U32[2];
    var base := new BigInt.View(one, 1);
    var exponent := new BigInt.View(none, 0);
    var modulus := new BigInt.View(two, 2);
    output := new BigInt.Init(out);
    OnePadded();
    assert modulus.Used() == [1, 0];
    power := Pow(b, 0) % modulus.Value();
    rc := Modexp(output, base, exponent, modulus, 8);
  }

  lemma OnePadded()
    ensures Val([1, 0]) == 1
  {
    hide Val;
    ValSnoc([1, 0], 0);
    ValSnoc([1, 0], 1);
    ValEmpty([1, 0]);
    assert [1, 0][..2] == [1, 0];
  }

  /** What the right-to-left loop knows: r times the remaining power of c is the whole power. */
  predicate Remaining(r: int, c: int, left: nat, b: int, e: nat, m: nat, touched: bool, init: int)
  {
    && m > 0 && 0 <= r && 0 <= c && Cong(r * Pow(c, left), Pow(b, e), m)
    && (touched ==> r < m) && (!touched ==> r == init && (e > 0 ==> left > 0))
  }

  lemma RemainingStart(s: seq<U32>, b: nat, e: nat)
    requires |s| > 0 && Val(s) > 0
    ensures Remaining(Unit(s), b % Val(s), e, b, e, Val(s), false, Unit(s))
  {
    var m := Val(s);
    ModIsCong(b, m);
    PowCong(b % m, b, e, m);
    if Unit(s) == 0 {
      OneLimb(s);
      CongOf(0 * Pow(b % m, e), Pow(b, e), 0 - Pow(b, e), 1);
    }
  }

  /** An odd step moves one factor of c into r. */
  lemma RemainingOdd(r: int, c: int, left: nat, b: int, e: nat, m: nat, touched: bool, init: int)
    requires Remaining(r, c, left, b, e, m, touched, init) && left % 2 == 1
    ensures Remaining((r * c) % m, c, left - 1, b, e, m, true, init)
  {
    var p := Pow(c, left - 1);
    ModIsCong(r * c, m);
    CongScale((r * c) % m, r * c, p, m);
    MulSwap(r, c, p);
    assert (r * c) * p == r * (c * p);
  }

  /** A squaring step halves the remaining exponent. */
  lemma RemainingEven(r: int, c: int, half: nat, b: int, e: nat, m: nat, touched: bool, init: int)
    requires Remaining(r, c, 2 * half, b, e, m, touched, init) && half > 0
    ensures Remaining(r, (c * c) % m, half, b, e, m, touched, init)
  {
    ModIsCong(c * c, m);
    PowCong((c * c) % m, c * c, half, m);
    PowOfSquare(c, half);
    CongScale(Pow((c * c) % m, half), Pow(c, 2 * half), r, m);
  }

  lemma {:induction false} PowOfSquare(c: int, half: nat)
    ensures Pow(c * c, half) == Pow(c, 2 * half)
  {
    if half > 0 {
      PowOfSquare(c, half - 1);
      PowTwo(c);
      PowSum(c, 2, 2 * (half - 1));
    }
  }

  lemma PowTwo(c: int)
    ensures Pow(c, 2) == c * c
  {
    assert Pow(c, 1) == c * Pow(c, 0);
  }

  lemma RemainingEnd(r: nat, c: int, b: int, e: nat, s: seq<U32>, touched: bool)
    requires |s| > 0 && Remaining(r, c, 0, b, e, Val(s), touched, Unit(s))
    ensures r == if !touched && Val(s) == 1 && |s| > 1 then 1 else Pow(b, e) % Val(s)
    ensures !touched ==> e == 0
  {
    assert r * Pow(c, 0) == r;
    if touched { CongSmall(Pow(b, e), r, Val(s)); } else { PlainEnd(r, b, e, s, false); }
  }

  /** `bigint_modexp_u32`: the same power for a one-word exponent, least significant bit first off the Montgomery path.
      */
  method ModexpU32(output: BigInt, base: BigInt, exponent: U32, modulus: BigInt, workspaceLength: U16) returns (rc: int)
    requires output.Valid() && base.Valid() && modulus.Valid()
    requires output.limbs != modulus.limbs && output != modulus
    requires modulus.length > 0 ==> modulus.Value() > 0
    requires 4 * modulus.length < 0x1_0000
    modifies output`length, output.limbs
    ensures rc == if modulus.length == 0 then -1
                  else if output.limbs.Length < modulus.length || workspaceLength < 4 * modulus.length then -2 else 0
    ensures rc == 0 ==> output.Holds(
      Delivered(old(base.Value()), exponent, modulus.Value(), modulus.length, exponent == 0), modulus.length)
    ensures rc != 0 ==> output.length == old(output.length) && output.limbs[..] == old(output.limbs[..])
  {
    if modulus.length == 0 { return -1; }
    var capacity := modulus.length;
    if output.limbs.Length < capacity || workspaceLength < 4 * capacity % 0x1_0000 { return -2; }
    if MontOk(modulus) {
      OneModulus(modulus.Used());
      var e1 := new U32[1](_ => exponent);
      var ev := new BigInt.View(e1, 1);
      OneLimb(ev.Used());
      ModExpMont(output, base, ev, modulus);
    } else {
      ModExpU32Plain(output, base, exponent, modulus);
    }
    return 0;
  }

  method ModExpU32Plain(output: BigInt, base: BigInt, exponent: U32, modulus: BigInt)
    requires output.Valid() && base.Valid() && modulus.Valid()
    requires output.limbs != modulus.limbs && output != modulus
    requires 0 < modulus.length <= output.limbs.Length && modulus.Value() > 0
    modifies output`length, output.limbs
    ensures output.Holds(
      if exponent == 0 && modulus.Value() == 1 && modulus.length > 1 then 1
      else Pow(old(base.Value()), exponent) % modulus.Value(), modulus.length)
  {
    hide Val, Weight, Cong, Pow, Remaining;
    var n := modulus.length;
    ghost var s, b := modulus.Used(), base.Value();
    ghost var m, init := Val(s), Unit(s);
    var ws := OpenWorkspace(base, modulus);
    RemainingStart(s, b, exponent);
    var left: U32 := exponent;
    ghost var r: nat, c: nat, touched := init, b % m, false;
    while left != 0
      modifies ws.Objects()
      invariant ws.Ready(modulus) && modulus.length == n && modulus.Used() == s
      invariant ws.result.Holds(r, n) && ws.current.Holds(c, n)
      invariant Remaining(r, c, left, b, exponent, m, touched, init)
      invariant touched ==> exponent > 0
      decreases left
    {
      if left % 2 == 1 {
        RemainingOdd(r, c, left, b, exponent, m, touched, init);
        PlainTimes(ws.result, ws.current, ws, modulus, r, c);
        r, touched := (r * c) % m, true;
      }
      left := left / 2;
      if left != 0 {
        RemainingEven(r, c, left, b, exponent, m, touched, init);
        PlainTimes(ws.current, ws.current, ws, modulus, c, c);
        c := (c * c) % m;
      }
    }
    RemainingEnd(r, c, b, exponent, s, touched);
    Deliver(output, ws.result, n, r);
  }
}
