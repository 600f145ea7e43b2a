/** Multi-limb numbers over caller-owned limb buffers (kernel/bigint.c). */
module BigIntCore {
  import opened Words
  import opened Congruence
  import opened Limbs

  /** A number view over a limb buffer: the buffer's size is the capacity. */
  class BigInt {
    const limbs: array<U32>
    var length: nat

    ghost predicate Valid()
      reads this
    {
      length <= limbs.Length < 0x1_0000
    }

    /** The limbs in use. */
    ghost function Used(): seq<U32>
      requires Valid()
      reads this, limbs
    {
      limbs[..length]
    }

    ghost function Value(): nat
      requires Valid()
      reads this, limbs
    {
      Val(limbs[..length])
    }

    /** No leading zero limb. */
    ghost predicate Normal()
      requires Valid()
      reads this, limbs
    {
      length > 0 ==> limbs[length - 1] != 0
    }

    /** The number is v: normalised, and every limb from its length up to n is zero. */
    ghost predicate Holds(v: nat, n: nat)
      reads this, limbs
    {
      && Valid() && length <= n <= limbs.Length && Normal()
      && (forall k :: length <= k < n ==> limbs[k] == 0)
      && Val(limbs[..n]) == v
    }

    /** A view of a buffer that keeps its contents, of full length. */
    constructor View(buffer: array<U32>, n: nat)
      requires n <= buffer.Length < 0x1_0000
      ensures limbs == buffer && length == n
    {
      limbs := buffer;
      length := n;
    }

    /** `bigint_init`: the view of a buffer, cleared. */
    constructor Init(buffer: array<U32>)
      requires buffer.Length < 0x1_0000
      modifies buffer
      ensures limbs == buffer && length == 0
      ensures forall k :: 0 <= k < buffer.Length ==> buffer[k] == 0
    {
      limbs := buffer;
      length := 0;
      new;
      Zero(this);
    }
  }

  lemma HoldsValue(x: BigInt, v: nat, n: nat)
    requires x.Holds(v, n)
    ensures x.Value() == v
  {
    ValTrim(x.limbs[..n], x.length);
    assert x.limbs[..n][..x.length] == x.limbs[..x.length];
  }

  /** Drops leading zero limbs; the number is unchanged. */
  method Normalize(value: BigInt)
    requires value.Valid()
    modifies value`length
    ensures value.Holds(old(value.Value()), old(value.length))
  {
    ghost var n := value.length;
    while value.length > 0 && value.limbs[value.length - 1] == 0
      invariant value.length <= n <= value.limbs.Length < 0x1_0000
      invariant forall k :: value.length <= k < n ==> value.limbs[k] == 0
    {
      value.length := value.length - 1;
    }
  }

  method Zero(value: BigInt)
    requires value.Valid()
    modifies value`length, value.limbs
    ensures value.length == 0
    ensures forall k :: 0 <= k < value.limbs.Length ==> value.limbs[k] == 0
  {
    for i := 0 to value.limbs.Length
      invariant forall k :: 0 <= k < i ==> value.limbs[k] == 0
    {
      value.limbs[i] := 0;
    }
    value.length := 0;
  }

  method Copy(output: BigInt, input: BigInt)
    requires output.Valid() && input.Valid() && output.limbs != input.limbs
    requires input.length <= output.limbs.Length
    modifies output`length, output.limbs
    ensures output.length == input.length
    ensures output.limbs[..] == Padded(input.Used(), output.limbs.Length)
  {
    for i := 0 to output.limbs.Length
      invariant forall k :: 0 <= k < i ==> output.limbs[k] == Digit(input.Used(), k)
      invariant input.limbs[..] == old(input.limbs[..])
    {
      output.limbs[i] := if i < input.length then input.limbs[i] else 0;
    }
    output.length := input.length;
  }

  /** Compares the first `length` limbs of two buffers as numbers. */
  method RawCompare(left: array<U32>, right: array<U32>, length: nat) returns (r: int)
    requires length <= left.Length && length <= right.Length
    ensures r == 1 <==> Val(left[..length]) > Val(right[..length])
    ensures r == 0 <==> Val(left[..length]) == Val(right[..length])
    ensures r == -1 <==> Val(left[..length]) < Val(right[..length])
  {
    ghost var s, t := left[..length], right[..length];
    var i := length;
    while i > 0
      invariant 0 <= i <= length && s[i..] == t[i..]
    {
      if left[i - 1] != right[i - 1] {
        if left[i - 1] > right[i - 1] {
          ValCompare(s, t, i - 1);
          return 1;
        }
        ValCompare(t, s, i - 1);
        return -1;
      }
      assert s[i - 1..] == [s[i - 1]] + s[i..] && t[i - 1..] == [t[i - 1]] + t[i..];
      i := i - 1;
    }
    assert s == s[0..] && t == t[0..];
    return 0;
  }

  /** One step of a carry chain keeps the sum (plus a carry-in c) exact. */
  lemma CarryStep(out: seq<U32>, l: seq<U32>, r: seq<U32>, i: nat, carry: U32, next: U32, c: int)
    requires |out| == |l| == |r| && i < |out|
    requires Val(out[..i]) + carry * Weight(i) == Val(l[..i]) + Val(r[..i]) + c
    requires out[i] + next * BASE == l[i] + r[i] + carry
    ensures Val(out[..i + 1]) + next * Weight(i + 1) == Val(l[..i + 1]) + Val(r[..i + 1]) + c
  {
    ValSnoc(out, i);
    ValSnoc(l, i);
    ValSnoc(r, i);
    var w := Weight(i);
    MulSwap(next, BASE, w);
    MulSum(out[i], next * BASE, w);
    var a: int, b: int := l[i], r[i];
    MulSum(a + b, carry, w);
    MulSum(a, b, w);
  }

  /** One step of a borrow chain keeps the difference exact. */
  lemma BorrowStep(out: seq<U32>, l: seq<U32>, r: seq<U32>, i: nat, borrow: U32, next: U32)
    requires |out| == |l| == |r| && i < |out|
    requires Val(out[..i]) + Val(r[..i]) == Val(l[..i]) + borrow * Weight(i)
    requires out[i] + r[i] + borrow == l[i] + next * BASE
    ensures Val(out[..i + 1]) + Val(r[..i + 1]) == Val(l[..i + 1]) + next * Weight(i + 1)
  {
    ValSnoc(out, i);
    ValSnoc(l, i);
    ValSnoc(r, i);
    var w := Weight(i);
    MulSwap(next, BASE, w);
    MulSum(l[i], next * BASE, w);
    var a: int, b: int := out[i], r[i];
    MulSum(a + b, borrow, w);
    MulSum(a, b, w);
  }

  /** A 32-bit subtraction wraps at most once. */
  lemma WrapSubtract(current: U32, value: int)
    requires 0 <= value <= BASE
    ensures (current - value) % BASE == if current < value then current - value + BASE else current - value
  {
  }

  /** The addition loop of the masked forms: left plus the masked right, in place or not. */
  method AddMasked(out: array<U32>, left: array<U32>, right: array<U32>, n: nat, mask: U32) returns (carry: U32)
    requires n <= out.Length && n <= left.Length && n <= right.Length
    requires mask == 0 || mask == ALL_ONES
    modifies out
    ensures carry <= 1
    ensures Val(out[..n]) + carry * Weight(n)
         == old(Val(left[..n])) + (if mask == 0 then 0 else old(Val(right[..n])))
    ensures out[n..] == old(out[n..])
  {
    hide Val, Weight;
    ghost var l, tail := left[..n], out[n..];
    ghost var r: seq<U32> := if mask == 0 then seq(n, i => 0) else right[..n];
    forall k | 0 <= k < n ensures BitAnd(right[k], mask) == r[k] { MaskWord(right[k]); }
    ValEmpty(out[..n]);
    ValEmpty(l);
    ValEmpty(r);
    carry := 0;
    for i := 0 to n
      invariant carry <= 1
      invariant forall k :: i <= k < n ==> left[k] == l[k]
      invariant forall k :: i <= k < n ==> BitAnd(right[k], mask) == r[k]
      invariant Val(out[..n][..i]) + carry * Weight(i) == Val(l[..i]) + Val(r[..i])
      invariant out[n..] == tail
    {
      var sum: U64 := left[i] + BitAnd(right[i], mask) + carry;
      ghost var before := out[..n];
      out[i] := sum % BASE;
      assert out[..n][..i] == before[..i];
      CarryStep(out[..n], l, r, i, carry, sum / BASE, 0);
      carry := sum / BASE;
    }
    assert out[..n][..n] == out[..n] && l[..n] == l && r[..n] == r;
    if mask == 0 { ValZero(r); }
  }

  /** The subtraction loop: left minus right, with the final borrow. */
  method SubtractLimbs(out: array<U32>, left: array<U32>, right: array<U32>, n: nat) returns (borrow: U32)
    requires n <= out.Length && n <= left.Length && n <= right.Length
    modifies out
    ensures borrow <= 1
    ensures Val(out[..n]) + old(Val(right[..n])) == old(Val(left[..n])) + borrow * Weight(n)
    ensures borrow == 1 <==> old(Val(left[..n])) < old(Val(right[..n]))
    ensures out[n..] == old(out[n..])
  {
    hide Val, Weight;
    ghost var l, r, tail := left[..n], right[..n], out[n..];
    ValEmpty(out[..n]);
    ValEmpty(l);
    ValEmpty(r);
    borrow := 0;
    for i := 0 to n
      invariant borrow <= 1
      invariant forall k :: i <= k < n ==> left[k] == l[k] && right[k] == r[k]
      invariant Val(out[..n][..i]) + Val(r[..i]) == Val(l[..i]) + borrow * Weight(i)
      invariant out[n..] == tail
    {
      var value: U64 := right[i] + borrow;
      var current: U64 := left[i];
      ghost var before := out[..n];
      WrapSubtract(current, value);
      out[i] := (current - value) % BASE;
      assert out[..n][..i] == before[..i];
      BorrowStep(out[..n], l, r, i, borrow, if current < value then 1 else 0);
      borrow := if current < value then 1 else 0;
    }
    assert out[..n][..n] == out[..n] && l[..n] == l && r[..n] == r;
    ValBound(out[..n]);
  }
}
