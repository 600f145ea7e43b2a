/** Points on limbs (kernel/ecdsa_p256.c): the C formulas step by step, with their temporaries reused in place. */
module P256Point {
  import opened Words
  import opened Congruence
  import opened Limbs
  import opened BigIntCore
  import opened P256Field
  import opened P256Curve

  /** The number in a buffer of eight limbs. */
  ghost function V(a: array<U32>): nat
    reads a
  {
    Val(a[..])
  }

  method MulTo(out: array<U32>, l: array<U32>, r: array<U32>, prime: array<U32>)
    requires Num(out) && Num(l) && Num(r) && Num(prime) && out != prime && V(l) < V(prime)
    modifies out
    ensures V(out) == Mul(old(V(l)), old(V(r)), V(prime)) < V(prime)
  {
    hide Val;
    var rc := FieldMul(out, l, r, prime);
  }

  method AddTo(out: array<U32>, l: array<U32>, r: array<U32>, prime: array<U32>)
    requires Num(out) && Num(l) && Num(r) && Num(prime) && out != prime && V(l) < V(prime) && V(r) < V(prime)
    modifies out
    ensures V(out) == Add(old(V(l)), old(V(r)), V(prime)) < V(prime)
  {
    hide Val;
    var rc := FieldAdd(out, l, r, prime);
  }

  method SubTo(out: array<U32>, l: array<U32>, r: array<U32>, prime: array<U32>)
    requires Num(out) && Num(l) && Num(r) && Num(prime) && out != prime && V(l) < V(prime) && V(r) < V(prime)
    modifies out
    ensures V(out) == Sub(old(V(l)), old(V(r)), V(prime)) < V(prime)
  {
    hide Val;
    var rc := FieldSub(out, l, r, prime);
  }

  /** `p256_copy`. */
  method CopyTo(out: array<U32>, a: array<U32>)
    requires Num(out) && Num(a)
    modifies out
    ensures V(out) == old(V(a))
  {
    hide Val;
    for i := 0 to LIMBS
      invariant out[..i] == old(a[..i]) && (out != a ==> a[..] == old(a[..])) && (out == a ==> out[..] == old(a[..]))
    {
      out[i] := a[i];
    }
    assert out[..] == out[..LIMBS] && old(a[..]) == old(a[..LIMBS]);
  }

  method ZeroTo(out: array<U32>)
    requires Num(out)
    modifies out
    ensures V(out) == 0
  {
    hide Val;
    for i := 0 to LIMBS
      invariant forall k :: 0 <= k < i ==> out[k] == 0
    {
      out[i] := 0;
    }
    ValZero(out[..]);
  }

  /** `p256_point_t`. */
  class LimbPoint {
    const x: array<U32>
    const y: array<U32>
    const z: array<U32>

    ghost predicate Ok() { Num(x) && Num(y) && Num(z) && x != y && x != z && y != z }

    ghost function Buffers(): set<array<U32>> { {x, y, z} }

    ghost function At(): Point
      reads x, y, z
    {
      Point(V(x), V(y), V(z))
    }

    /** Coordinates below m. */
    ghost predicate Reduced(m: nat)
      reads x, y, z
    {
      Ok() && V(x) < m && V(y) < m && V(z) < m
    }

    constructor ()
      ensures Ok() && fresh(x) && fresh(y) && fresh(z)
    {
      x := new U32[LIMBS];
      y := new U32[LIMBS];
      z := new U32[LIMBS];
    }
  }

  /** `p256_point_inf`. */
  method PointInf(out: LimbPoint)
    requires out.Ok()
    modifies out.x, out.y, out.z
    ensures out.At() == INFINITY
  {
    hide V;
    ZeroTo(out.x);
    ZeroTo(out.y);
    ZeroTo(out.z);
  }

  /** `p256_point_copy`. */
  method PointCopy(out: LimbPoint, p: LimbPoint)
    requires out.Ok() && p.Ok() && (out == p || out.Buffers() !! p.Buffers())
    modifies out.x, out.y, out.z
    ensures out.At() == old(p.At())
  {
    hide V;
    CopyTo(out.x, p.x);
    CopyTo(out.y, p.y);
    CopyTo(out.z, p.z);
  }

  method IsZeroNum(a: array<U32>) returns (r: bool)
    requires Num(a)
    ensures r <==> V(a) == 0
  {
    hide Val;
    r := IsZero(a);
  }

  /** `p256_point_double` on limbs: the value-level doubling, whatever shares its buffers with the output point. */
  method PointDouble(out: LimbPoint, p: LimbPoint, prime: array<U32>, ghost c: Curve) returns (rc: int)
    requires out.Ok() && Num(prime) && V(prime) == c.m && p.Reduced(c.m) && prime !in out.Buffers()
    requires out == p || out.Buffers() !! p.Buffers()
    modifies out.x, out.y, out.z
    ensures rc == 0 && out.At() == Double(c, old(p.At())) && out.Reduced(c.m)
  {
    hide V, Double;
    var inf := IsZeroNum(p.z);
    var flat := IsZeroNum(p.y);
    if inf || flat {
      DoubleSpecial(c, p.At());
      PointInf(out);
      return 0;
    }
    var result := new LimbPoint();
    DoubleInto(result, p, prime, c);
    PointCopy(out, result);
    return 0;
  }

  /** The formulas, into a point of its own. */
  method DoubleInto(result: LimbPoint, p: LimbPoint, prime: array<U32>, ghost c: Curve)
    requires result.Ok() && Num(prime) && V(prime) == c.m && p.Reduced(c.m)
    requires prime !in result.Buffers() && result.Buffers() !! p.Buffers()
    requires V(p.y) != 0 && V(p.z) != 0
    modifies result.x, result.y, result.z
    ensures result.At() == Double(c, p.At())
  {
    hide V, Mul, Add, Sub;
    var a, b, c2, d, e := new U32[LIMBS], new U32[LIMBS], new U32[LIMBS], new U32[LIMBS], new U32[LIMBS];
    DoubleSquares(a, b, c2, p.x, p.y, prime);
    DoubleD(d, p.x, a, b, c2, prime);
    DoubleE(e, p.z, a, prime);
    DoubleX(result.x, d, e, prime);
    DoubleY(result.y, result.x, c2, d, e, prime);
    DoubleZ(result.z, p.y, p.z, prime);
  }

  /** a = x^2, b = y^2, c = b^2. */
  method DoubleSquares(a: array<U32>, b: array<U32>, c: array<U32>, x: array<U32>, y: array<U32>, prime: array<U32>)
    requires Num(a) && Num(b) && Num(c) && Num(x) && Num(y) && Num(prime) && V(x) < V(prime) && V(y) < V(prime)
    requires a != b && a != c && b != c && x !in {a, b, c} && y !in {a, b, c} && prime !in {a, b, c}
    modifies a, b, c
    ensures var m := V(prime);
      V(a) == Mul(V(x), V(x), m) < m && V(b) == Mul(V(y), V(y), m) < m && V(c) == Mul(V(b), V(b), m) < m
  {
    hide V, Mul;
    MulTo(a, x, x, prime);
    MulTo(b, y, y, prime);
    MulTo(c, b, b, prime);
  }

  /** d = 2 ((x + b)^2 - a - c), through t0 in place. */
  method DoubleD(d: array<U32>, x: array<U32>, a: array<U32>, b: array<U32>, c: array<U32>, prime: array<U32>)
    requires Num(d) && Num(x) && Num(a) && Num(b) && Num(c) && Num(prime) && d !in {x, a, b, c, prime}
    requires V(x) < V(prime) && V(a) < V(prime) && V(b) < V(prime) && V(c) < V(prime)
    modifies d
    ensures var m := V(prime);
            var s := Add(V(x), V(b), m);
            var w := Sub(Sub(Mul(s, s, m), V(a), m), V(c), m);
            V(d) == Add(w, w, m) < m
  {
    hide V, Mul, Add, Sub;
    var t0 := new U32[LIMBS];
    AddTo(t0, x, b, prime);
    MulTo(t0, t0, t0, prime);
    SubTo(t0, t0, a, prime);
    SubTo(t0, t0, c, prime);
    AddTo(d, t0, t0, prime);
  }

  /** e = 3 (a - z^4). */
  method DoubleE(e: array<U32>, z: array<U32>, a: array<U32>, prime: array<U32>)
    requires Num(e) && Num(z) && Num(a) && Num(prime) && e !in {z, a, prime} && V(z) < V(prime) && V(a) < V(prime)
    modifies e
    ensures var m := V(prime);
            var zz := Mul(V(z), V(z), m);
            var g := Sub(V(a), Mul(zz, zz, m), m);
            V(e) == Add(Add(g, g, m), g, m) < m
  {
    hide V, Mul, Add, Sub;
    var z2, z4, t0 := new U32[LIMBS], new U32[LIMBS], new U32[LIMBS];
    MulTo(z2, z, z, prime);
    MulTo(z4, z2, z2, prime);
    SubTo(e, a, z4, prime);
    AddTo(t0, e, e, prime);
    AddTo(e, t0, e, prime);
  }

  /** x3 = e^2 - 2 d. */
  method DoubleX(x3: array<U32>, d: array<U32>, e: array<U32>, prime: array<U32>)
    requires Num(x3) && Num(d) && Num(e) && Num(prime) && x3 !in {d, e, prime} && V(d) < V(prime) && V(e) < V(prime)
    modifies x3
    ensures var m := V(prime); V(x3) == Sub(Mul(V(e), V(e), m), Add(V(d), V(d), m), m) < m
  {
    hide V, Mul, Add, Sub;
    var f, t0 := new U32[LIMBS], new U32[LIMBS];
    MulTo(f, e, e, prime);
    AddTo(t0, d, d, prime);
    SubTo(x3, f, t0, prime);
  }

  /** y3 = e (d - x3) - 8 c. */
  method DoubleY(y3: array<U32>, x3: array<U32>, c: array<U32>, d: array<U32>, e: array<U32>, prime: array<U32>)
    requires Num(y3) && Num(x3) && Num(c) && Num(d) && Num(e) && Num(prime) && y3 !in {x3, c, d, e, prime}
    requires V(x3) < V(prime) && V(c) < V(prime) && V(d) < V(prime) && V(e) < V(prime)
    modifies y3
    ensures var m := V(prime);
            var c2 := Add(V(c), V(c), m);
            var c4 := Add(c2, c2, m);
            V(y3) == Sub(Mul(V(e), Sub(V(d), V(x3), m), m), Add(c4, c4, m), m) < m
  {
    hide V, Mul, Add, Sub;
    var t0, t1 := new U32[LIMBS], new U32[LIMBS];
    SubTo(t1, d, x3, prime);
    MulTo(t1, e, t1, prime);
    AddTo(t0, c, c, prime);
    AddTo(t0, t0, t0, prime);
    AddTo(t0, t0, t0, prime);
    SubTo(y3, t1, t0, prime);
  }

  /** z3 = 2 y z. */
  method DoubleZ(z3: array<U32>, y: array<U32>, z: array<U32>, prime: array<U32>)
    requires Num(z3) && Num(y) && Num(z) && Num(prime) && z3 !in {y, z, prime} && V(y) < V(prime) && V(z) < V(prime)
    modifies z3
    ensures var m := V(prime); var yz := Mul(V(y), V(z), m); V(z3) == Add(yz, yz, m) < m
  {
    hide V, Mul, Add, Sub;
    var t2 := new U32[LIMBS];
    MulTo(t2, y, z, prime);
    AddTo(z3, t2, t2, prime);
  }

  // ---------------------------------------------------------------- addition

  /** `p256_cmp`. */
  method CompareNum(a: array<U32>, b: array<U32>) returns (r: int)
    requires Num(a) && Num(b)
    ensures (r == 0 <==> V(a) == V(b)) && (r > 0 <==> V(a) > V(b)) && -1 <= r <= 1
  {
    hide Val;
    assert a[..LIMBS] == a[..] && b[..LIMBS] == b[..];
    r := RawCompare(a, b, LIMBS);
  }

  /** A coordinate pair brought to the other point's z: u = x t^2, s = y t^3. */
  method BringTo(u: array<U32>, s: array<U32>, x: array<U32>, y: array<U32>, t: array<U32>, prime: array<U32>)
    requires Num(u) && Num(s) && Num(x) && Num(y) && Num(t) && Num(prime)
    requires u != s && u !in {x, y, t, prime} && s !in {x, y, t, prime}
    requires V(x) < V(prime) && V(y) < V(prime) && V(t) < V(prime)
    modifies u, s
    ensures var m := V(prime);
            var tt := Mul(V(t), V(t), m);
            V(u) == Mul(V(x), tt, m) < m && V(s) == Mul(V(y), Mul(V(t), tt, m), m) < m
  {
    hide V, Mul;
    var tt, t0 := new U32[LIMBS], new U32[LIMBS];
    MulTo(tt, t, t, prime);
    MulTo(u, x, tt, prime);
    MulTo(t0, t, tt, prime);
    MulTo(s, y, t0, prime);
  }

  /** The chord formulas, into a point of its own. */
  method ChordInto(result: LimbPoint, u1: array<U32>, s1: array<U32>, u2: array<U32>, s2: array<U32>, z1: array<U32>,
                   z2: array<U32>,
                   prime: array<U32>, ghost c: Curve)
    requires result.Ok() && Num(u1) && Num(s1) && Num(u2) && Num(s2) && Num(z1) && Num(z2) && Num(prime) &&
      V(prime) == c.m
    requires result.Buffers() !! {u1, s1, u2, s2, z1, z2, prime}
    requires V(u1) < c.m && V(s1) < c.m && V(u2) < c.m && V(s2) < c.m && V(z1) < c.m && V(z2) < c.m
    modifies result.x, result.y, result.z
    ensures result.At() == Chord(c, V(u1), V(s1), V(u2), V(s2), Mul(V(z1), V(z2), c.m))
  {
    hide V, Mul, Add, Sub;
    var h, r, h3, v := new U32[LIMBS], new U32[LIMBS], new U32[LIMBS], new U32[LIMBS];
    ChordTerms(h, r, h3, v, u1, s1, u2, s2, prime);
    ChordX(result.x, r, h3, v, prime);
    ChordY(result.y, result.x, r, h3, v, s1, prime);
    ChordZ(result.z, z1, z2, h, prime);
  }

  /** z3 = z1 z2 h. */
  method ChordZ(z3: array<U32>, z1: array<U32>, z2: array<U32>, h: array<U32>, prime: array<U32>)
    requires Num(z3) && Num(z1) && Num(z2) && Num(h) && Num(prime) && z3 !in {z1, z2, h, prime} && V(z1) < V(prime)
    modifies z3
    ensures var m := V(prime); V(z3) == Mul(Mul(V(z1), V(z2), m), V(h), m) < m
  {
    hide V, Mul;
    var t0 := new U32[LIMBS];
    MulTo(t0, z1, z2, prime);
    MulTo(z3, t0, h, prime);
  }

  /** h = u2 - u1, r = s2 - s1, h^3 and v = u1 h^2. */
  method ChordTerms(h: array<U32>, r: array<U32>, h3: array<U32>, v: array<U32>, u1: array<U32>, s1: array<U32>,
                    u2: array<U32>, s2: array<U32>,
                    prime: array<U32>)
    requires Num(h) && Num(r) && Num(h3) && Num(v) && Num(u1) && Num(s1) && Num(u2) && Num(s2) && Num(prime)
    requires h != r && h != h3 && h != v && r != h3 && r != v && h3 != v && {h, r, h3, v} !! {u1, s1, u2, s2, prime}
    requires V(u1) < V(prime) && V(s1) < V(prime) && V(u2) < V(prime) && V(s2) < V(prime)
    modifies h, r, h3, v
    ensures var m := V(prime);
            var hv := Sub(V(u2), V(u1), m);
            var h2 := Mul(hv, hv, m);
            && V(h) == hv < m && V(r) == Sub(V(s2), V(s1), m) < m && V(h3) == Mul(hv, h2, m) < m &&
              V(v) == Mul(V(u1), h2, m) < m
  {
    hide V, Mul, Sub;
    var h2 := new U32[LIMBS];
    SubTo(h, u2, u1, prime);
    SubTo(r, s2, s1, prime);
    MulTo(h2, h, h, prime);
    MulTo(h3, h, h2, prime);
    MulTo(v, u1, h2, prime);
  }

  /** x3 = r^2 - h^3 - 2 v. */
  method ChordX(x3: array<U32>, r: array<U32>, h3: array<U32>, v: array<U32>, prime: array<U32>)
    requires Num(x3) && Num(r) && Num(h3) && Num(v) && Num(prime) && x3 !in {r, h3, v, prime}
    requires V(r) < V(prime) && V(h3) < V(prime) && V(v) < V(prime)
    modifies x3
    ensures var m := V(prime); V(x3) == Sub(Sub(Mul(V(r), V(r), m), V(h3), m), Add(V(v), V(v), m), m) < m
  {
    hide V, Mul, Add, Sub;
    var t0, t1 := new U32[LIMBS], new U32[LIMBS];
    MulTo(t0, r, r, prime);
    SubTo(t0, t0, h3, prime);
    AddTo(t1, v, v, prime);
    SubTo(x3, t0, t1, prime);
  }

  /** y3 = r (v - x3) - s1 h^3. */
  method ChordY(y3: array<U32>, x3: array<U32>, r: array<U32>, h3: array<U32>, v: array<U32>, s1: array<U32>,
                prime: array<U32>)
    requires Num(y3) && Num(x3) && Num(r) && Num(h3) && Num(v) && Num(s1) && Num(prime) &&
      y3 !in {x3, r, h3, v, s1, prime}
    requires V(x3) < V(prime) && V(r) < V(prime) && V(h3) < V(prime) && V(v) < V(prime) && V(s1) < V(prime)
    modifies y3
    ensures var m := V(prime); V(y3) == Sub(Mul(V(r), Sub(V(v), V(x3), m), m), Mul(V(s1), V(h3), m), m) < m
  {
    hide V, Mul, Add, Sub;
    var t0, t1 := new U32[LIMBS], new U32[LIMBS];
    SubTo(t0, v, x3, prime);
    MulTo(t0, r, t0, prime);
    MulTo(t1, s1, h3, prime);
    SubTo(y3, t0, t1, prime);
  }

  /** `p256_point_add` on limbs: the value-level addition, whatever shares its buffers with the output point. */
  method AddPoints(out: LimbPoint, p: LimbPoint, q: LimbPoint, prime: array<U32>, ghost c: Curve) returns (rc: int)
    requires out.Ok() && Num(prime) && V(prime) == c.m && p.Reduced(c.m) && q.Reduced(c.m) && prime !in out.Buffers()
    requires (out == p || out.Buffers() !! p.Buffers()) && (out == q || out.Buffers() !! q.Buffers())
    modifies out.x, out.y, out.z
    ensures rc == 0 && out.At() == PointAdd(c, old(p.At()), old(q.At())) && out.Reduced(c.m)
    ensures old(p.At()).z == 0 ==> out.At() == old(q.At())
    ensures old(p.At()).z != 0 && old(q.At()).z == 0 ==> out.At() == old(p.At())
    ensures old(p.At()).z != 0 && old(q.At()).z != 0 ==>
      var a, b, t := old(p.At()), old(q.At()), out.At();
      var u1: int, s1: int := a.x * (b.z * b.z), a.y * (b.z * (b.z * b.z));
      var u2: int, s2: int := b.x * (a.z * a.z), b.y * (a.z * (a.z * a.z));
      var h, r := u2 - u1, s2 - s1;
      if Cong(u1, u2, c.m) then t == if Cong(s1, s2, c.m) then Double(c, a) else INFINITY
      else
        && Cong(t.z, (a.z * b.z) * h, c.m) && Cong(t.x, r * r - h * (h * h) - 2 * (u1 * (h * h)), c.m)
        && Cong(t.y + s1 * (h * (h * h)), r * (u1 * (h * h) - t.x), c.m)
  {
    hide V, PointAdd, Cong, Double;
    AddSpecial(c, p.At(), q.At());
    ghost var a, b := p.At(), q.At();
    if a.z != 0 && b.z != 0 {
      AddReps(c, a, b, a.x * (b.z * b.z), a.y * (b.z * (b.z * b.z)), b.x * (a.z * a.z), b.y * (a.z * (a.z * a.z)));
    }
    var inf := IsZeroNum(p.z);
    if inf { PointCopy(out, q); return 0; }
    inf := IsZeroNum(q.z);
    if inf { PointCopy(out, p); return 0; }
    AddAliased(out, p, q, prime, c);
    return 0;
  }

  /** The sum of finite points by way of a point of its own, so that the output may be one of them. */
  method AddAliased(out: LimbPoint, p: LimbPoint, q: LimbPoint, prime: array<U32>, ghost c: Curve)
    requires out.Ok() && Num(prime) && V(prime) == c.m && p.Reduced(c.m) && q.Reduced(c.m) && V(p.z) != 0 && V(q.z) != 0
    modifies out.x, out.y, out.z
    ensures out.At() == PointAdd(c, old(p.At()), old(q.At())) && out.Reduced(c.m)
  {
    hide V, PointAdd;
    var result := new LimbPoint();
    AddFinite(result, p, q, prime, c);
    PointCopy(out, result);
  }

  /** The sum of two finite points, into a point of its own. */
  method AddFinite(result: LimbPoint, p: LimbPoint, q: LimbPoint, prime: array<U32>, ghost c: Curve)
    requires result.Ok() && Num(prime) && V(prime) == c.m && p.Reduced(c.m) && q.Reduced(c.m) &&
      prime !in result.Buffers()
    requires result.Buffers() !! p.Buffers() && result.Buffers() !! q.Buffers() && V(p.z) != 0 && V(q.z) != 0
    modifies result.x, result.y, result.z
    ensures result.At() == PointAdd(c, p.At(), q.At()) && result.Reduced(c.m)
  {
    hide V, Mul, Chord, Double;
    var u1, s1, u2, s2 := new U32[LIMBS], new U32[LIMBS], new U32[LIMBS], new U32[LIMBS];
    BringTo(u1, s1, p.x, p.y, q.z, prime);
    BringTo(u2, s2, q.x, q.y, p.z, prime);
    var sameX := CompareNum(u1, u2);
    if sameX != 0 {
      ChordInto(result, u1, s1, u2, s2, p.z, q.z, prime, c);
      return;
    }
    AddEqual(result, p, s1, s2, prime, c);
  }

  /** Two points with the same abscissa: opposite, or one and the same. */
  method AddEqual(result: LimbPoint, p: LimbPoint, s1: array<U32>, s2: array<U32>, prime: array<U32>, ghost c: Curve)
    requires result.Ok() && Num(prime) && V(prime) == c.m && p.Reduced(c.m) && Num(s1) && Num(s2)
    requires V(s1) < c.m && V(s2) < c.m
    requires result.Buffers() !! p.Buffers() && result.Buffers() !! {s1, s2, prime}
    modifies result.x, result.y, result.z
    ensures result.At() == (if V(s1) != V(s2) then INFINITY else Double(c, p.At())) && result.Reduced(c.m)
  {
    hide V, Mul, Double;
    var sameY := CompareNum(s1, s2);
    if sameY != 0 {
      PointInf(result);
    } else {
      var rc := PointDouble(result, p, prime, c);
    }
  }

  // ---------------------------------------------------------------- scalar multiplication

  /** `p256_scalar_mul` on limbs: the multiple by doubling and adding, and on the curve with the point for every scalar.
      */
  method ScalarMul(out: LimbPoint, scalar: array<U32>, p: LimbPoint, prime: array<U32>, ghost c: Curve)
    returns (rc: int)
    requires out.Ok() && Num(prime) && Num(scalar) && V(prime) == c.m
    requires p.Reduced(c.m) && prime !in out.Buffers() && scalar !in out.Buffers()
    requires out == p || out.Buffers() !! p.Buffers()
    modifies out.x, out.y, out.z
    ensures rc == 0 && out.At() == Times(c, V(scalar), old(p.At()))
    ensures OnCurve(c, old(p.At())) ==> OnCurve(c, out.At())
  {
    hide V, Val, TopBits, Times, Double, PointAdd, OnCurve, BitAt;
    ghost var k, g := V(scalar), p.At();
    var accumulator := new LimbPoint();
    var doubled := new LimbPoint();
    PointInf(accumulator);
    ScalarTop(scalar);
    TimesZero(c, g);
    var bit := 256;
    while bit > 0
      modifies accumulator.x, accumulator.y, accumulator.z, doubled.x, doubled.y, doubled.z
      invariant 0 <= bit <= 256 && p.At() == g && V(scalar) == k && V(prime) == c.m
      invariant accumulator.Reduced(c.m) && accumulator.At() == Times(c, TopBits(k, bit), g)
    {
      bit := bit - 1;
      TopBitsStep(k, bit);
      ScalarBit(scalar, bit);
      TimesStep(c, TopBits(k, bit + 1), BitAt(k, bit), g);
      ScalarStep(accumulator, doubled, p, BitAt(scalar[bit / 32], bit % 32) == 1, prime, c);
    }
    WholeNumber(k);
    if OnCurve(c, g) { TimesOnCurve(c, k, g); }
    PointCopy(out, accumulator);
    return 0;
  }

  /** One bit of the scalar: double, and add the point if the bit is set. */
  method ScalarStep(accumulator: LimbPoint, doubled: LimbPoint, p: LimbPoint, set_: bool, prime: array<U32>,
                    ghost c: Curve)
    requires accumulator.Reduced(c.m) && doubled.Ok() && p.Reduced(c.m) && Num(prime) && V(prime) == c.m
    requires accumulator.Buffers() !! doubled.Buffers()
    requires accumulator.Buffers() !! p.Buffers() && doubled.Buffers() !! p.Buffers()
    requires prime !in accumulator.Buffers() && prime !in doubled.Buffers()
    modifies accumulator.x, accumulator.y, accumulator.z, doubled.x, doubled.y, doubled.z
    ensures accumulator.Reduced(c.m)
    ensures var d := Double(c, old(accumulator.At())); accumulator.At() == if set_ then PointAdd(c, d, p.At()) else d
  {
    hide V, Double, PointAdd;
    var rc := PointDouble(doubled, accumulator, prime, c);
    PointCopy(accumulator, doubled);
    if set_ {
      rc := AddPoints(doubled, accumulator, p, prime, c);
      PointCopy(accumulator, doubled);
    }
  }

  lemma AddSpecial(c: Curve, p: Point, q: Point)
    requires c.m > 0
    ensures (p.z == 0 ==> PointAdd(c, p, q) == q) && (p.z != 0 && q.z == 0 ==> PointAdd(c, p, q) == p)
  {
  }

  lemma ScalarTop(a: array<U32>)
    requires Num(a)
    ensures TopBits(V(a), 256) == 0
  {
    hide Val, Pow2;
    TopIsZero(a[..]);
  }

  lemma ScalarBit(a: array<U32>, bit: nat)
    requires Num(a) && bit < 256
    ensures BitAt(a[bit / 32], bit % 32) == BitAt(V(a), bit)
  {
    hide Val, Pow2;
    BitOfLimb(a[..], bit);
  }

  // ---------------------------------------------------------------- public keys

  /** `p256_point_validate` on limbs: accepts exactly reduced coordinates of a point of the curve. */
  method ValidateKey(x: array<U32>, y: array<U32>, b: array<U32>, prime: array<U32>, ghost c: Curve) returns (rc: int)
    requires Num(x) && Num(y) && Num(b) && Num(prime) && V(prime) == c.m > 1 && V(b) == c.b < c.m
    ensures rc == Validate(c, V(x), V(y)) && (rc == 0 <==> OnCurve(c, Point(V(x), V(y), 1)))
    ensures rc == 0 || rc == if V(x) >= c.m || V(y) >= c.m then -1 else -4
  {
    hide V, Mul, Add, Sub, OnCurve;
    ValidatesCurve(c, V(x), V(y));
    var cmp := CompareNum(x, prime);
    if cmp >= 0 { return -1; }
    cmp := CompareNum(y, prime);
    if cmp >= 0 { return -1; }
    var lhs, rhs := new U32[LIMBS], new U32[LIMBS];
    MulTo(lhs, y, y, prime);
    AffineRhs(rhs, x, b, prime);
    cmp := CompareNum(lhs, rhs);
    return if cmp == 0 then 0 else -4;
  }

  /** x^3 - 3 x + b. */
  method AffineRhs(rhs: array<U32>, x: array<U32>, b: array<U32>, prime: array<U32>)
    requires Num(rhs) && Num(x) && Num(b) && Num(prime) && rhs !in {x, b, prime} && V(x) < V(prime) && V(b) < V(prime)
    modifies rhs
    ensures var m := V(prime);
            var cube, triple := Mul(Mul(V(x), V(x), m), V(x), m), Add(Add(V(x), V(x), m), V(x), m);
            V(rhs) == Add(Sub(cube, triple, m), V(b), m)
  {
    hide V, Mul, Add, Sub;
    var t0, t1 := new U32[LIMBS], new U32[LIMBS];
    MulTo(t0, x, x, prime);
    MulTo(rhs, t0, x, prime);
    AddTo(t1, x, x, prime);
    AddTo(t1, t1, x, prime);
    SubTo(rhs, rhs, t1, prime);
    AddTo(rhs, rhs, b, prime);
  }
}
