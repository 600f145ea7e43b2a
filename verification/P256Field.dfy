/** Field arithmetic of the P-256 layer on eight limbs (kernel/ecdsa_p256.c), each call through views of the limbs. */
module P256Field {
  import opened Words
  import opened Limbs
  import opened BigIntCore
  import opened ModArith
  import opened MaskedProduct

  const LIMBS: nat := 8

  /** A number of eight limbs. */
  ghost predicate Num(a: array<U32>) { a.Length == LIMBS }

  /** `p256_copy`. */
  method CopyNum(input: array<U32>) returns (copy: array<U32>)
    requires Num(input)
    ensures Num(copy) && fresh(copy) && copy[..] == input[..]
  {
    copy := new U32[LIMBS];
    for i := 0 to LIMBS
      invariant copy[..i] == input[..i]
      modifies copy
    {
      copy[i] := input[i];
    }
    assert copy[..LIMBS] == copy[..] && input[..LIMBS] == input[..];
  }

  /** `p256_zero_p`. */
  method IsZero(a: array<U32>) returns (r: bool)
    requires Num(a)
    ensures r <==> Val(a[..]) == 0
  {
    var any := 0;
    for i := 0 to LIMBS
      invariant any == 0 <==> forall k :: 0 <= k < i ==> a[k] == 0
    {
      OrZero(any, a[i]);
      any := BitOr(any, a[i]);
    }
    r := any == 0;
    if r { ValZero(a[..]); }
    else { ValPositive(a[..]); }
  }

  lemma OrZero(x: nat, y: nat)
    ensures BitOr(x, y) == 0 <==> x == 0 && y == 0
  {
  }

  lemma ValPositive(s: seq<U32>)
    requires exists k :: 0 <= k < |s| && s[k] != 0
    ensures Val(s) > 0
  {
    if Val(s) == 0 { ValSmall(s, 0); }
  }

  /** `p256_add`, in place or not. */
  method FieldAdd(out: array<U32>, left: array<U32>, right: array<U32>, modulus: array<U32>) returns (rc: int)
    requires Num(out) && Num(left) && Num(right) && Num(modulus) && out != modulus
    requires Val(left[..]) < Val(modulus[..]) && Val(right[..]) < Val(modulus[..])
    modifies out
    ensures rc == 0 && Val(out[..]) == (old(Val(left[..])) + old(Val(right[..]))) % Val(modulus[..])
  {
    hide Val, Weight;
    var o := new BigInt.View(out, LIMBS);
    var l := new BigInt.View(left, LIMBS);
    var r := new BigInt.View(right, LIMBS);
    var m := new BigInt.View(modulus, LIMBS);
    assert left[..LIMBS] == left[..] && right[..LIMBS] == right[..] && modulus[..LIMBS] == modulus[..];
    rc := ModAddCt(o, l, r, m);
    assert modulus[..LIMBS] == modulus[..] && out[..LIMBS] == out[..];
  }

  /** `p256_sub`, in place or not. */
  method FieldSub(out: array<U32>, left: array<U32>, right: array<U32>, modulus: array<U32>) returns (rc: int)
    requires Num(out) && Num(left) && Num(right) && Num(modulus) && out != modulus
    requires Val(left[..]) < Val(modulus[..]) && Val(right[..]) < Val(modulus[..])
    modifies out
    ensures rc == 0 && Val(out[..]) == (old(Val(left[..])) - old(Val(right[..]))) % Val(modulus[..])
  {
    hide Val, Weight;
    var o := new BigInt.View(out, LIMBS);
    var l := new BigInt.View(left, LIMBS);
    var r := new BigInt.View(right, LIMBS);
    var m := new BigInt.View(modulus, LIMBS);
    assert left[..LIMBS] == left[..] && right[..LIMBS] == right[..] && modulus[..LIMBS] == modulus[..];
    rc := ModSubtractCt(o, l, r, m);
    assert modulus[..LIMBS] == modulus[..] && out[..LIMBS] == out[..];
  }

  /** `p256_mul`: through copies, so squaring and products in place are fine; the left factor may be anything, and the
      product is right whenever it is at most the modulus. */
  method FieldMul(out: array<U32>, left: array<U32>, right: array<U32>, modulus: array<U32>) returns (rc: int)
    requires Num(out) && Num(left) && Num(right) && Num(modulus) && out != modulus
    modifies out
    ensures rc == 0 && Val(out[..]) == CtProduct(old(Val(left[..])), old(Val(right[..])), Val(modulus[..]), 256)
    ensures 0 < Val(modulus[..]) && old(Val(left[..])) <= Val(modulus[..]) ==>
      Val(out[..]) == (old(Val(left[..])) * old(Val(right[..]))) % Val(modulus[..])
  {
    hide Val, CtProduct;
    var leftCopy := CopyNum(left);
    var rightCopy := CopyNum(right);
    rc := MulApart(out, leftCopy, rightCopy, modulus);
  }

  /** The product of numbers that do not share the output's buffer. */
  method MulApart(out: array<U32>, left: array<U32>, right: array<U32>, modulus: array<U32>) returns (rc: int)
    requires Num(out) && Num(left) && Num(right) && Num(modulus) && out !in {left, right, modulus}
    modifies out
    ensures rc == 0 && Val(out[..]) == CtProduct(Val(left[..]), Val(right[..]), Val(modulus[..]), 256)
    ensures 0 < Val(modulus[..]) && Val(left[..]) <= Val(modulus[..]) ==>
      Val(out[..]) == (Val(left[..]) * Val(right[..])) % Val(modulus[..])
  {
    hide Val, Weight, CtProduct;
    var temporary := new U32[LIMBS];
    var o := new BigInt.View(out, LIMBS);
    var l := new BigInt.View(left, LIMBS);
    var r := new BigInt.View(right, LIMBS);
    var m := new BigInt.View(modulus, LIMBS);
    var t := new BigInt.View(temporary, LIMBS);
    assert left[..LIMBS] == left[..] && right[..LIMBS] == right[..] && modulus[..LIMBS] == modulus[..];
    rc := ModMultiplyCt(o, l, r, m, t);
    assert modulus[..LIMBS] == modulus[..] && out[..LIMBS] == out[..] && right[..LIMBS] == right[..];
  }

  /** `p256_reduce`, in place or not. */
  method FieldReduce(out: array<U32>, input: array<U32>, modulus: array<U32>) returns (rc: int)
    requires Num(out) && Num(input) && Num(modulus) && out != modulus && Val(modulus[..]) > 0
    modifies out
    ensures rc == 0 && Val(out[..]) == old(Val(input[..])) % Val(modulus[..])
  {
    hide Val, Weight;
    var copy := CopyNum(input);
    var o := new BigInt.View(out, LIMBS);
    var i := new BigInt.View(copy, LIMBS);
    var m := new BigInt.View(modulus, LIMBS);
    assert copy[..LIMBS] == copy[..] && modulus[..LIMBS] == modulus[..];
    rc := ModReduce(o, i, m);
    assert modulus[..LIMBS] == modulus[..] && out[..LIMBS] == out[..] && copy[..LIMBS] == copy[..];
  }
}
