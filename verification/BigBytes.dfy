/** Big-endian bytes and limbs (kernel/bigint.c: bigint_from_be, bigint_to_be). */
module BigBytes {
  import opened Words
  import opened Congruence
  import opened Limbs
  import opened BigIntCore

  /** The number that big-endian bytes spell. */
  function Be(s: seq<U8>): nat
  {
    if s == [] then 0 else Be(s[..|s| - 1]) * 256 + s[|s| - 1]
  }

  function Pow256(n: nat): (r: nat)
    ensures r >= 1
  {
    Pow2(8 * n)
  }

  lemma Pow256Step(n: nat)
    ensures Pow256(n + 1) == 256 * Pow256(n) && Pow256(0) == 1
  {
    Pow2At32();
    Pow2Sum(8, 8 * n);
  }

  lemma {:induction false} BeBound(s: seq<U8>)
    ensures Be(s) < Pow256(|s|)
  {
    Pow256Step(0);
    if s != [] {
      BeBound(s[..|s| - 1]);
      Pow256Step(|s| - 1);
    }
  }

  // ---------------------------------------------------------------- bytes to limbs

  /** OR of a multiple of 2^k and a number below 2^k is their sum. */
  lemma {:induction false} OrDisjoint(x: nat, y: nat, k: nat)
    requires x % Pow2(k) == 0 && y < Pow2(k)
    ensures BitOr(x, y) == x + y
  {
    if k > 0 && x > 0 && y > 0 {
      Halves(x, Pow2(k - 1));
      HalfMultiple(x, Pow2(k - 1));
      OrDisjoint(x / 2, y / 2, k - 1);
    }
  }

  lemma HalfMultiple(x: nat, p: nat)
    requires p > 0 && x % (2 * p) == 0
    ensures x % 2 == 0 && x / 2 % p == 0
  {
    var q := x / (2 * p);
    assert x == q * (2 * p) == 2 * (q * p);
    DivideUnique(x / 2, q, 0, p);
  }

  /** The limbs below the part read so far are zero, and so are the low bytes of the limb being filled. */
  ghost predicate Filling(s: seq<U32>, left: nat)
  {
    && (forall k :: 0 <= k < left / 4 && k < |s| ==> s[k] == 0)
    && (left / 4 < |s| ==> s[left / 4] % Pow2(8 * (left % 4)) == 0)
  }

  lemma ByteShift(b: U8, j: nat)
    requires j < 4
    ensures b * Pow2(8 * j) < Pow2(8 * j + 8) <= BASE
  {
    hide Pow2;
    Pow2At32();
    Pow2Sum(8 * j, 8);
    MulLe(b, 255, Pow2(8 * j));
    Pow2Sum(8 * j + 8, 24 - 8 * j);
    MulLe(1, Pow2(24 - 8 * j), Pow2(8 * j + 8));
  }

  lemma OrByte(x: U32, j: nat, b: U8)
    requires j < 4 && x % Pow2(8 * j + 8) == 0
    ensures BitOr(x, b * Pow2(8 * j)) == x + b * Pow2(8 * j) < BASE && (x + b * Pow2(8 * j)) % Pow2(8 * j) == 0
  {
    hide Pow2, BitOr;
    ByteShift(b, j);
    FitsAbove(x, 8 * j + 8);
    OrDisjoint(x, b * Pow2(8 * j), 8 * j + 8);
    Pow2Sum(8 * j, 8);
    Pow2At32();
    DividesDown(x, Pow2(8 * j), 256, b);
  }

  /** One byte into its place: the number grows by the byte times its weight. */
  lemma PlaceByte(s: seq<U32>, left: nat, b: U8)
    requires left > 0 && (left - 1) / 4 < |s| && Filling(s, left)
    ensures var i, j := (left - 1) / 4, (left - 1) % 4;
            && BitOr(s[i], b * Pow2(8 * j)) == s[i] + b * Pow2(8 * j) < BASE
            && Filling(s[i := s[i] + b * Pow2(8 * j)], left - 1)
  {
    hide Pow2, BitOr;
    var i, j := (left - 1) / 4, (left - 1) % 4;
    ZeroMod(Pow2(8 * j + 8));
    OrByte(s[i], j, b);
  }

  lemma ZeroMod(p: nat)
    requires p > 0
    ensures 0 % p == 0
  {
  }

  /** A word that is a multiple of 2^k leaves room for anything below 2^k. */
  lemma FitsAbove(x: U32, k: nat)
    requires k <= 32 && x % Pow2(k) == 0
    ensures x + Pow2(k) <= BASE
  {
    hide Pow2;
    Pow2At32();
    Pow2Sum(k, 32 - k);
    var p, n := Pow2(k), Pow2(32 - k);
    var q := x / p;
    assert x == q * p;
    if q >= n { MulLe(n, q, p); }
    MulLe(q, n - 1, p);
    MulSum(n, -1, p);
  }

  lemma DividesDown(x: nat, p: nat, n: nat, b: nat)
    requires p > 0 && n > 0 && p * n > 0 && x % (p * n) == 0
    ensures (x + b * p) % p == 0
  {
    var q := x / (p * n);
    assert x == q * (p * n);
    MulSwap(q, p, n);
    assert x + b * p == (q * n + b) * p + 0 by { MulSum(q * n, b, p); }
    RemainderUnique(x + b * p, q * n + b, 0, p);
  }

  lemma {:induction false} ValUpdate(s: seq<U32>, i: nat, d: nat)
    requires i < |s| && s[i] + d < BASE
    ensures Val(s[i := s[i] + d]) == Val(s) + d * Weight(i)
    decreases |s|
  {
    hide Weight;
    var n := |s| - 1;
    var t := s[i := s[i] + d];
    if i == n {
      assert t[..n] == s[..n];
      MulSum(s[i], d, Weight(i));
    } else {
      assert t[..n] == s[..n][i := s[..n][i] + d];
      ValUpdate(s[..n], i, d);
    }
  }

  lemma BytePlace(left: nat)
    requires left > 0
    ensures Pow2(8 * ((left - 1) % 4)) * Weight((left - 1) / 4) == Pow256(left - 1) &&
      Pow256(left) == 256 * Pow256(left - 1)
  {
    hide Pow2, Weight;
    var i, j := (left - 1) / 4, (left - 1) % 4;
    WeightIsPow2(i);
    Pow2Sum(8 * j, 32 * i);
    Pow256Step(left - 1);
  }

  lemma BeStep(input: seq<U8>, offset: nat, v: nat, left: nat)
    requires offset < |input| && left == |input| - offset && v == Be(input[..offset]) * Pow256(left)
    ensures var p, w := Pow2(8 * ((left - 1) % 4)), Weight((left - 1) / 4);
            v + (input[offset] * p) * w == Be(input[..offset + 1]) * Pow256(left - 1)
  {
    hide Pow2, Weight, Pow256;
    assert input[..offset + 1][..offset] == input[..offset];
    BytePlace(left);
    var p, w, e, b := Pow2(8 * ((left - 1) % 4)), Weight((left - 1) / 4), Pow256(left - 1), input[offset];
    MulSwap(b, p, w);
    MulSwap(Be(input[..offset]), 256, e);
    MulSum(Be(input[..offset]) * 256, b, e);
  }

  /** `bigint_from_be`: the number that the bytes spell, normalised. */
  method FromBe(value: BigInt, input: seq<U8>) returns (rc: int)
    requires value.Valid()
    modifies value, value.limbs
    ensures rc == if |input| == 0 then -1 else if (|input| + 3) / 4 > value.limbs.Length then -2 else 0
    ensures rc == 0 ==>
      value.Holds(Be(input), (|input| + 3) / 4) && forall k :: (|input| + 3) / 4 <= k < value.limbs.Length ==>
      value.limbs[k] == 0
    ensures rc != 0 ==> value.length == old(value.length) && value.limbs[..] == old(value.limbs[..])
  {
    hide Be, Pow2, Weight, Val, BitOr, Pow256, Filling;
    if |input| == 0 { return -1; }
    var n := (|input| + 3) / 4;
    if n > value.limbs.Length { return -2; }
    Zero(value);
    ValZero(value.limbs[..n]);
    BeNothing(input);
    FillingStarts(value.limbs[..n], |input|);
    for offset := 0 to |input|
      invariant value.Valid() && value.length == 0
      invariant Filling(value.limbs[..n], |input| - offset)
      invariant Val(value.limbs[..n]) == Be(input[..offset]) * Pow256(|input| - offset)
      invariant forall k :: n <= k < value.limbs.Length ==> value.limbs[k] == 0
    {
      var reverse := |input| - 1 - offset;
      ghost var s, d := value.limbs[..n], input[offset] * Pow2(8 * (reverse % 4));
      PlaceByte(s, reverse + 1, input[offset]);
      ValUpdate(s, reverse / 4, d);
      BeStep(input, offset, Val(s), reverse + 1);
      value.limbs[reverse / 4] := BitOr(value.limbs[reverse / 4], input[offset] * Pow2(8 * (reverse % 4)));
      assert value.limbs[..n] == s[reverse / 4 := s[reverse / 4] + d];
    }
    BeAll(input);
    value.length := n;
    Normalize(value);
    return 0;
  }

  lemma BeNothing(input: seq<U8>)
    ensures Be(input[..0]) == 0
  {
  }

  lemma BeAll(input: seq<U8>)
    ensures Be(input[..|input|]) * Pow256(0) == Be(input)
  {
    Pow256Step(0);
    assert input[..|input|] == input;
  }

  lemma FillingStarts(s: seq<U32>, left: nat)
    requires forall k :: 0 <= k < |s| ==> s[k] == 0
    ensures Filling(s, left)
  {
    ZeroMod(Pow2(8 * (left % 4)));
  }

  /** The bytes of v, big-endian, n of them. */
  function ToBytes(v: nat, n: nat): (s: seq<U8>)
    ensures |s| == n
  {
    if n == 0 then [] else ToBytes(v / 256, n - 1) + [v % 256]
  }

  /** n bytes spell v modulo 256^n; so bytes and numbers below 256^n correspond one to one. */
  lemma {:induction false} BeOfBytes(v: nat, n: nat)
    requires v < Pow256(n)
    ensures Be(ToBytes(v, n)) == v
  {
    Pow256Step(0);
    if n > 0 {
      Pow256Step(n - 1);
      BeOfBytes(v / 256, n - 1);
      assert ToBytes(v, n)[..n - 1] == ToBytes(v / 256, n - 1);
    }
  }

  lemma {:induction false} BytesOfBe(s: seq<U8>)
    ensures ToBytes(Be(s), |s|) == s
  {
    if s != [] {
      var k := |s| - 1;
      BytesOfBe(s[..k]);
      assert Be(s) / 256 == Be(s[..k]) && Be(s) % 256 == s[k];
      assert s == s[..k] + [s[k]];
    }
  }

  lemma {:induction false} ToBytesAt(v: nat, n: nat, i: nat)
    requires i < n
    ensures ToBytes(v, n)[i] == ByteAt(v, n - 1 - i)
    decreases n
  {
    hide Pow2;
    Pow256Step(0);
    if i < n - 1 {
      ToBytesAt(v / 256, n - 1, i);
      Pow256Step(n - 2 - i);
      DivDiv(v, 256, Pow256(n - 2 - i));
    }
  }

  /** Byte r of a number, counted from the least significant one; `(uint8_t)(x >> 8 * r)` on a limb. */
  function ByteAt(v: nat, r: nat): U8 { v / Pow256(r) % 256 }

  /** A byte of the number is a byte of a limb, or zero above the limbs. */
  lemma ByteOfLimb(s: seq<U32>, r: nat)
    ensures ByteAt(Val(s), r) == if r / 4 < |s| then ByteAt(s[r / 4], r % 4) else 0
  {
    hide Pow2, Weight, Val;
    Pow2At32();
    if r / 4 < |s| { LimbField(s, r / 4, 8 * (r % 4), 8); } else { HighByteZero(s, r); }
  }

  /** `bigint_to_be`: the last bytes of the number, as many as asked for. */
  method ToBe(value: BigInt, output: array<U8>, length: nat)
    requires value.Valid() && length <= output.Length
    modifies output
    ensures output[..length] == ToBytes(value.Value(), length)
    ensures output[length..] == old(output[length..])
  {
    hide Val, ToBytes, ByteAt;
    ghost var s, v := value.limbs[..value.length], value.Value();
    for i := 0 to length
      invariant forall k :: 0 <= k < i ==> output[k] == ToBytes(v, length)[k]
      invariant output[length..] == old(output[length..])
    {
      var reverse := length - 1 - i;
      var limb := reverse / 4;
      ToBytesAt(v, length, i);
      ByteOfLimb(s, reverse);
      output[i] := if limb < value.length then ByteAt(value.limbs[limb], reverse % 4) else 0;
    }
    assert output[..length] == ToBytes(v, length);
  }

  lemma HighByteZero(s: seq<U32>, r: nat)
    requires r / 4 >= |s|
    ensures Val(s) / Pow256(r) % 256 == 0
  {
    hide Pow2, Weight, Val;
    ValBound(s);
    WeightIsPow2(|s|);
    Pow2Sum(32 * |s|, 8 * r - 32 * |s|);
    MulLe(1, Pow2(8 * r - 32 * |s|), Pow2(32 * |s|));
    SmallDivides(Val(s), Pow256(r));
  }

  lemma SmallDivides(x: nat, d: nat)
    requires x < d
    ensures x / d == 0
  {
  }
}
