/** Jacobian points of y^2 = x^3 - 3x + b modulo m (kernel/ecdsa_p256.c; section D.1.2.3 of FIPS 186-4). The formulas
    are on values; P256Field has the same field operations on limbs. Nothing here needs m to be prime. */
module P256Curve {
  import opened Words
  import opened Congruence
  import opened CurveIdentities
  import opened Limbs
  import opened BigBytes

  datatype Curve = Curve(m: nat, b: nat)
  datatype Point = Point(x: nat, y: nat, z: nat)

  const INFINITY: Point := Point(0, 0, 0)

  // ---------------------------------------------------------------- field operations

  function Mul(a: nat, b: nat, m: nat): (r: nat)
    requires m > 0
    ensures r < m
  {
    ModIsCong(a * b, m);
    (a * b) % m
  }

  function Add(a: nat, b: nat, m: nat): (r: nat)
    requires m > 0
    ensures r < m
  {
    (a + b) % m
  }

  function Sub(a: nat, b: nat, m: nat): (r: nat)
    requires m > 0
    ensures r < m
  {
    (a - b) % m
  }

  /** a stands for the integer v. */
  lemma MulRep(a: nat, v: int, b: nat, w: int, m: nat)
    requires m > 0 && Cong(a, v, m) && Cong(b, w, m)
    ensures Cong(Mul(a, b, m), v * w, m)
  {
    CongMul(a, v, b, w, m);
    ModIsCong(a * b, m);
  }

  lemma AddRep(a: nat, v: int, b: nat, w: int, m: nat)
    requires m > 0 && Cong(a, v, m) && Cong(b, w, m)
    ensures Cong(Add(a, b, m), v + w, m)
  {
    CongAdd(a, v, b, w, m);
    ModIsCong(a + b, m);
  }

  lemma SubRep(a: nat, v: int, b: nat, w: int, m: nat)
    requires m > 0 && Cong(a, v, m) && Cong(b, w, m)
    ensures Cong(Sub(a, b, m), v - w, m)
  {
    CongSub(a, v, b, w, m);
    ModIsCong(a - b, m);
  }

  // ---------------------------------------------------------------- the curve

  function Fourth(z: int): int { (z * z) * (z * z) }
  function Sixth(z: int): int { (z * z) * ((z * z) * (z * z)) }

  /** The right-hand side of the curve equation in Jacobian coordinates. */
  function Rhs(c: Curve, x: int, z: int): int { x * x * x - 3 * (x * Fourth(z)) + c.b * Sixth(z) }

  predicate OnCurve(c: Curve, p: Point)
    requires c.m > 0
  {
    p.x < c.m && p.y < c.m && p.z < c.m && Cong(p.y * p.y, Rhs(c, p.x, p.z), c.m)
  }

  lemma InfinityOnCurve(c: Curve)
    requires c.m > 0
    ensures OnCurve(c, INFINITY)
  {
  }

  /** Coordinates that stand for integers satisfying the equation are on the curve. */
  lemma RepsOnCurve(c: Curve, p: Point, x: int, y: int, z: int)
    requires c.m > 0 && p.x < c.m && p.y < c.m && p.z < c.m
    requires Cong(p.x, x, c.m) && Cong(p.y, y, c.m) && Cong(p.z, z, c.m) && Cong(y * y, Rhs(c, x, z), c.m)
    ensures OnCurve(c, p)
  {
    hide Cong;
    CongMul(p.y, y, p.y, y, c.m);
    RhsCong(c, p.x, x, p.z, z);
    CongSame(p.y * p.y, y * y, Rhs(c, x, z), Rhs(c, p.x, p.z), c.m);
  }

  lemma CongSame(a: int, b: int, d: int, e: int, m: nat)
    requires m > 0 && Cong(a, b, m) && Cong(b, d, m) && Cong(e, d, m)
    ensures Cong(a, e, m)
  {
  }

  lemma RhsCong(c: Curve, x: int, x': int, z: int, z': int)
    requires c.m > 0 && Cong(x, x', c.m) && Cong(z, z', c.m)
    ensures Cong(Rhs(c, x, z), Rhs(c, x', z'), c.m)
  {
    hide Cong;
    var m := c.m;
    CongMul(x, x', x, x', m);
    CongMul(x * x, x' * x', x, x', m);
    CongMul(z, z', z, z', m);
    CongMul(z * z, z' * z', z * z, z' * z', m);
    CongMul(z * z, z' * z', Fourth(z), Fourth(z'), m);
    CongMul(x, x', Fourth(z), Fourth(z'), m);
    CongScale(x * Fourth(z), x' * Fourth(z'), 3, m);
    CongScale(Sixth(z), Sixth(z'), c.b, m);
    CongSub(x * x * x, x' * x' * x', 3 * (x * Fourth(z)), 3 * (x' * Fourth(z')), m);
    CongAdd(x * x * x - 3 * (x * Fourth(z)), x' * x' * x' - 3 * (x' * Fourth(z')), c.b * Sixth(z), c.b * Sixth(z'), m);
  }

  // ---------------------------------------------------------------- doubling

  /** `p256_point_double`. */
  function Double(c: Curve, p: Point): (r: Point)
    requires c.m > 0
    ensures r.x < c.m && r.y < c.m && r.z < c.m
  {
    if p.z == 0 || p.y == 0 then INFINITY
    else
      var m := c.m;
      var a := Mul(p.x, p.x, m);
      var b := Mul(p.y, p.y, m);
      var b2 := Mul(b, b, m);
      var t := Add(p.x, b, m);
      var t0 := Sub(Sub(Mul(t, t, m), a, m), b2, m);
      var d := Add(t0, t0, m);
      var z2 := Mul(p.z, p.z, m);
      var e0 := Sub(a, Mul(z2, z2, m), m);
      var e := Add(Add(e0, e0, m), e0, m);
      var x3 := Sub(Mul(e, e, m), Add(d, d, m), m);
      var c2 := Add(b2, b2, m);
      var c4 := Add(c2, c2, m);
      var y3 := Sub(Mul(e, Sub(d, x3, m), m), Add(c4, c4, m), m);
      var yz := Mul(p.y, p.z, m);
      Point(x3, y3, Add(yz, yz, m))
  }

  /** The doubled coordinates stand for the textbook polynomials. */
  lemma DoubleReps(c: Curve, p: Point)
    requires c.m > 0 && p.z != 0 && p.y != 0
    ensures var b := p.y * p.y;
            var d, e := 4 * (p.x * b), 3 * (p.x * p.x - Fourth(p.z));
            var x3 := e * e - 2 * d;
            var r := Double(c, p);
            Cong(r.x, x3, c.m) && Cong(r.y, e * (d - x3) - 8 * (b * b), c.m) && Cong(r.z, 2 * (p.y * p.z), c.m)
  {
    hide Cong, Mul, Add, Sub;
    var m, x, y, z := c.m, p.x, p.y, p.z;
    Itself(x, m); Itself(y, m); Itself(z, m);
    var a, b := Mul(x, x, m), Mul(y, y, m);
    MulRep(x, x, x, x, m);
    MulRep(y, y, y, y, m);
    var B := y * y;
    var b2, C := Mul(b, b, m), B * B;
    MulRep(b, B, b, B, m);
    var t := Add(x, b, m);
    AddRep(x, x, b, B, m);
    MulRep(t, x + B, t, x + B, m);
    SubRep(Mul(t, t, m), (x + B) * (x + B), a, x * x, m);
    SubRep(Sub(Mul(t, t, m), a, m), (x + B) * (x + B) - x * x, b2, C, m);
    var t0 := Sub(Sub(Mul(t, t, m), a, m), b2, m);
    SquareOfSum(x, B);
    AddRep(t0, 2 * (x * B), t0, 2 * (x * B), m);
    var d, D := Add(t0, t0, m), 4 * (x * B);
    var z2 := Mul(z, z, m);
    MulRep(z, z, z, z, m);
    MulRep(z2, z * z, z2, z * z, m);
    var G := x * x - Fourth(z);
    SubRep(a, x * x, Mul(z2, z2, m), Fourth(z), m);
    var e0 := Sub(a, Mul(z2, z2, m), m);
    AddRep(e0, G, e0, G, m);
    AddRep(Add(e0, e0, m), G + G, e0, G, m);
    var e, E := Add(Add(e0, e0, m), e0, m), 3 * G;
    DoubleTail(c, p, b2, C, d, D, e, E);
  }

  lemma DoubleTail(c: Curve, p: Point, b2: nat, C: int, d: nat, D: int, e: nat, E: int)
    requires c.m > 0 && Cong(b2, C, c.m) && Cong(d, D, c.m) && Cong(e, E, c.m)
    ensures var m, X := c.m, E * E - 2 * D;
            var x3 := Sub(Mul(e, e, m), Add(d, d, m), m);
            var c2 := Add(b2, b2, m);
            var c4 := Add(c2, c2, m);
            var y3 := Sub(Mul(e, Sub(d, x3, m), m), Add(c4, c4, m), m);
            var yz := Mul(p.y, p.z, m);
            Cong(x3, X, m) && Cong(y3, E * (D - X) - 8 * C, m) && Cong(Add(yz, yz, m), 2 * (p.y * p.z), m)
  {
    hide Cong, Mul, Add, Sub;
    var m, X := c.m, E * E - 2 * D;
    MulRep(e, E, e, E, m);
    AddRep(d, D, d, D, m);
    SubRep(Mul(e, e, m), E * E, Add(d, d, m), D + D, m);
    var x3 := Sub(Mul(e, e, m), Add(d, d, m), m);
    SubRep(d, D, x3, X, m);
    MulRep(e, E, Sub(d, x3, m), D - X, m);
    AddRep(b2, C, b2, C, m);
    var c2 := Add(b2, b2, m);
    AddRep(c2, C + C, c2, C + C, m);
    var c4 := Add(c2, c2, m);
    AddRep(c4, 4 * C, c4, 4 * C, m);
    SubRep(Mul(e, Sub(d, x3, m), m), E * (D - X), Add(c4, c4, m), 8 * C, m);
    Itself(p.y, m);
    Itself(p.z, m);
    MulRep(p.y, p.y, p.z, p.z, m);
    AddRep(Mul(p.y, p.z, m), p.y * p.z, Mul(p.y, p.z, m), p.y * p.z, m);
  }

  lemma Itself(a: int, m: nat)
    requires m > 0
    ensures Cong(a, a, m)
  {
  }

  lemma SquareOfSum(x: int, b: int)
    ensures (x + b) * (x + b) - x * x - b * b == 2 * (x * b)
  {
  }

  /** Powers of z3 = 2 y z. */
  lemma DoubledPowers(y: int, z: int)
    ensures var b := y * y;
            Fourth(2 * (y * z)) == 16 * ((b * b) * Fourth(z)) && Sixth(2 * (y * z)) == 64 * ((b * (b * b)) * Sixth(z))
  {
    var b, w := y * y, z * z;
    var s := (2 * (y * z)) * (2 * (y * z));
    assert s == 4 * (b * w) by { assert (y * z) * (y * z) == b * w; }
    assert s * s == 16 * ((b * b) * (w * w)) by { assert (b * w) * (b * w) == (b * b) * (w * w); }
    assert s * (s * s) == 64 * ((b * (b * b)) * (w * (w * w))) by {
      assert (b * w) * ((b * b) * (w * w)) == (b * (b * b)) * (w * (w * w));
      assert (4 * (b * w)) * (16 * ((b * b) * (w * w))) == 64 * ((b * w) * ((b * b) * (w * w)));
    }
  }

  /** Doubling maps the curve to the curve, infinity and points of order two included. */
  lemma DoubleOnCurve(c: Curve, p: Point)
    requires c.m > 0 && OnCurve(c, p)
    ensures OnCurve(c, Double(c, p))
  {
    hide Cong, Double, Fourth, Sixth;
    if p.z == 0 || p.y == 0 {
      DoubleSpecial(c, p);
      InfinityOnCurve(c);
    } else {
      var b, w := p.y * p.y, Fourth(p.z);
      var d, e := 4 * (p.x * b), 3 * (p.x * p.x - w);
      var x3 := e * e - 2 * d;
      DoubleReps(c, p);
      DoubleEquation(c, p.x, p.y, p.z);
      RepsOnCurve(c, Double(c, p), x3, e * (d - x3) - 8 * (b * b), 2 * (p.y * p.z));
    }
  }

  lemma DoubleSpecial(c: Curve, p: Point)
    requires c.m > 0 && (p.z == 0 || p.y == 0)
    ensures Double(c, p) == INFINITY
  {
  }

  /** The curve equation for the doubled polynomials, from the curve equation. */
  lemma DoubleEquation(c: Curve, x: int, y: int, z: int)
    requires c.m > 0 && Cong(y * y, Rhs(c, x, z), c.m)
    ensures var b := y * y;
            var d, e := 4 * (x * b), 3 * (x * x - Fourth(z));
            var x3 := e * e - 2 * d;
            var y3 := e * (d - x3) - 8 * (b * b);
            Cong(y3 * y3, Rhs(c, x3, 2 * (y * z)), c.m)
  {
    hide Cong, Fourth, Sixth;
    var m, b, w, k := c.m, y * y, Fourth(z), c.b * Sixth(z);
    var d, e := 4 * (x * b), 3 * (x * x - w);
    var x3 := e * e - 2 * d;
    var b3 := b * (b * b);
    DoubleIdentity(x, b, w);
    DoubledPowers(y, z);
    Itself(x * x * x - 3 * (x * w), m);
    CongSub(b, Rhs(c, x, z), x * x * x - 3 * (x * w), x * x * x - 3 * (x * w), m);
    CongScale(b - x * x * x + 3 * (x * w), k, b3, m);
    CongScale(b3 * (b - x * x * x + 3 * (x * w)), b3 * k, 64, m);
    Itself(x3 * x3 * x3 - 48 * (x3 * ((b * b) * w)), m);
    CongAdd(x3 * x3 * x3 - 48 * (x3 * ((b * b) * w)), x3 * x3 * x3 - 48 * (x3 * ((b * b) * w)),
            64 * (b3 * (b - x * x * x + 3 * (x * w))), 64 * (b3 * k), m);
    DoubledRhs(c, x3, b, w, Sixth(z));
  }

  lemma DoubledRhs(c: Curve, x3: int, b: int, w: int, s: int)
    ensures x3 * x3 * x3 - 3 * (x3 * (16 * ((b * b) * w))) + c.b * (64 * ((b * (b * b)) * s)) ==
            x3 * x3 * x3 - 48 * (x3 * ((b * b) * w)) + 64 * ((b * (b * b)) * (c.b * s))
  {
    var u, v := (b * b) * w, b * (b * b);
    assert x3 * (16 * u) == 16 * (x3 * u);
    assert c.b * (64 * (v * s)) == 64 * (v * (c.b * s)) by { MulSwap(c.b, v, s); }
  }

  // ---------------------------------------------------------------- addition

  /** `p256_point_add`. */
  function PointAdd(c: Curve, p: Point, q: Point): Point
    requires c.m > 0
  {
    if p.z == 0 then q
    else if q.z == 0 then p
    else
      var m := c.m;
      var zz1, zz2 := Mul(p.z, p.z, m), Mul(q.z, q.z, m);
      var u1, u2 := Mul(p.x, zz2, m), Mul(q.x, zz1, m);
      var s1, s2 := Mul(p.y, Mul(q.z, zz2, m), m), Mul(q.y, Mul(p.z, zz1, m), m);
      if u1 == u2 then (if s1 != s2 then INFINITY else Double(c, p)) else Chord(c, u1, s1, u2, s2, Mul(p.z, q.z, m))
  }

  /** The sum of two points brought to a common z, with different abscissas. */
  function Chord(c: Curve, u1: nat, s1: nat, u2: nat, s2: nat, g: nat): (t: Point)
    requires c.m > 0
    ensures t.x < c.m && t.y < c.m && t.z < c.m
  {
    var m := c.m;
    var h, r := Sub(u2, u1, m), Sub(s2, s1, m);
    var h2 := Mul(h, h, m);
    var h3, v := Mul(h, h2, m), Mul(u1, h2, m);
    var x3 := Sub(Sub(Mul(r, r, m), h3, m), Add(v, v, m), m);
    Point(x3, Sub(Mul(r, Sub(v, x3, m), m), Mul(s1, h3, m), m), Mul(g, h, m))
  }

  lemma ChordReps(c: Curve, u1: nat, s1: nat, u2: nat, s2: nat, g: nat, gz: int)
    requires c.m > 0 && Cong(g, gz, c.m)
    ensures var h, r := u2 - u1, s2 - s1;
            var hh, v := h * (h * h), u1 * (h * h);
            var x := r * r - hh - 2 * v;
            var t := Chord(c, u1, s1, u2, s2, g);
            Cong(t.x, x, c.m) && Cong(t.y, r * (v - x) - s1 * hh, c.m) && Cong(t.z, gz * h, c.m)
  {
    hide Cong, Mul, Add, Sub;
    var m, H, R := c.m, u2 - u1, s2 - s1;
    Itself(u1, m); Itself(s1, m); Itself(u2, m); Itself(s2, m);
    var h, r := Sub(u2, u1, m), Sub(s2, s1, m);
    SubRep(u2, u2, u1, u1, m);
    SubRep(s2, s2, s1, s1, m);
    var h2 := Mul(h, h, m);
    MulRep(h, H, h, H, m);
    var h3, v, HH, V := Mul(h, h2, m), Mul(u1, h2, m), H * (H * H), u1 * (H * H);
    MulRep(h, H, h2, H * H, m);
    MulRep(u1, u1, h2, H * H, m);
    MulRep(r, R, r, R, m);
    SubRep(Mul(r, r, m), R * R, h3, HH, m);
    AddRep(v, V, v, V, m);
    SubRep(Sub(Mul(r, r, m), h3, m), R * R - HH, Add(v, v, m), V + V, m);
    var x3, X := Sub(Sub(Mul(r, r, m), h3, m), Add(v, v, m), m), R * R - HH - 2 * V;
    SubRep(v, V, x3, X, m);
    MulRep(r, R, Sub(v, x3, m), V - X, m);
    MulRep(s1, s1, h3, HH, m);
    SubRep(Mul(r, Sub(v, x3, m), m), R * (V - X), Mul(s1, h3, m), s1 * HH, m);
    MulRep(g, gz, h, H, m);
  }

  /** Powers of a product. */
  lemma ProductPowers(g: int, h: int)
    ensures Fourth(g * h) == Fourth(g) * ((h * h) * (h * h)) &&
      Sixth(g * h) == Sixth(g) * ((h * (h * h)) * (h * (h * h)))
  {
    var a, b := g * g, h * h;
    assert (g * h) * (g * h) == a * b;
    assert (a * b) * (a * b) == (a * a) * (b * b);
    assert (a * b) * ((a * a) * (b * b)) == (a * (a * a)) * (b * (b * b));
    assert (h * b) * (h * b) == b * (b * b);
  }

  /** A point's equation, brought to the common z = z t. */
  lemma ScaledEquation(c: Curve, x: int, y: int, z: int, t: int)
    requires c.m > 0 && Cong(y * y, Rhs(c, x, z), c.m)
    ensures var u, s := x * (t * t), y * (t * (t * t)); Cong(s * s, Rhs(c, u, z * t), c.m)
  {
    hide Cong, Fourth, Sixth;
    var k := t * (t * t);
    CongScale(y * y, Rhs(c, x, z), k * k, c.m);
    SquareProduct(y, k);
    ProductPowers(z, t);
    ScaledRhs(x, Fourth(z), c.b, Sixth(z), t);
  }

  lemma ScaledRhs(x: int, w: int, b: int, s: int, t: int)
    ensures var k, u := t * (t * t), x * (t * t);
            (x * x * x - 3 * (x * w) + b * s) * (k * k) ==
              u * u * u - 3 * (u * (w * ((t * t) * (t * t)))) + b * (s * (k * k))
  {
    var d := t * t;
    var k, u := t * d, x * d;
    assert k * k == d * (d * d);
    assert (x * x * x - 3 * (x * w) + b * s) * (k * k) ==
      (x * x * x) * (k * k) - 3 * ((x * w) * (k * k)) + (b * s) * (k * k);
    assert (x * x * x) * (d * (d * d)) == u * u * u;
    assert (x * w) * (d * (d * d)) == u * (w * (d * d));
    MulSwap(b, s, k * k);
  }

  /** The chord through two points with a common z: the sum satisfies the curve equation. */
  lemma AddEquation(c: Curve, u1: int, s1: int, u2: int, s2: int, g: int)
    requires c.m > 0 && Cong(s1 * s1, Rhs(c, u1, g), c.m) && Cong(s2 * s2, Rhs(c, u2, g), c.m)
    ensures var h, r := u2 - u1, s2 - s1;
            var hh, v := h * (h * h), u1 * (h * h);
            var x := r * r - hh - 2 * v;
            var y := r * (v - x) - s1 * hh;
            Cong(y * y, Rhs(c, x, g * h), c.m)
  {
    hide Cong, Fourth, Sixth;
    var m, a, k := c.m, 0 - 3 * Fourth(g), c.b * Sixth(g);
    var h, r := u2 - u1, s2 - s1;
    var hh, v := h * (h * h), u1 * (h * h);
    var x := r * r - hh - 2 * v;
    var w, ah, kh := v - x, a * ((h * h) * (h * h)), k * (hh * hh);
    RhsIs(c, u1, g);
    RhsIs(c, u2, g);
    ChordRelation(u1, s1, u2, s2, a, k, m);
    LeftRelation(u1, s1, h, a, k, m);
    AddSplits(r, v, w, s1 * hh, ah);
    AddVanishes(r, v, hh);
    ChordBracket(r, v, hh, w, s1 * hh, ah, m);
    CongScale(r * r * w - 2 * (r * (s1 * hh)) + 3 * (v * v) - 3 * (v * w) + w * w + ah, 0, w, m);
    CongAdd(w * (r * r * w - 2 * (r * (s1 * hh)) + 3 * (v * v) - 3 * (v * w) + w * w + ah), 0,
            (s1 * hh) * (s1 * hh) - v * v * v - ah * v, kh, m);
    Itself(x * x * x + ah * x, m);
    var y := r * w - s1 * hh;
    CongAdd(y * y - x * x * x - ah * x, kh, x * x * x + ah * x, x * x * x + ah * x, m);
    ProductPowers(g, h);
    ChordRhs(c, x, g, h);
  }

  lemma RhsIs(c: Curve, u: int, g: int)
    ensures Rhs(c, u, g) == u * u * u + (0 - 3 * Fourth(g)) * u + c.b * Sixth(g)
  {
  }

  lemma ChordRhs(c: Curve, x: int, g: int, h: int)
    ensures var hh := h * (h * h);
            Rhs(c, x, g * h) == x * x * x + ((0 - 3 * Fourth(g)) * ((h * h) * (h * h))) * x
              + (c.b * Sixth(g)) * (hh * hh)
  {
    hide Fourth, Sixth;
    ProductPowers(g, h);
    var hh, f, n := h * (h * h), Fourth(g), (h * h) * (h * h);
    MulSwap(c.b, Sixth(g), hh * hh);
    assert 3 * (x * (f * n)) == 0 - ((0 - 3 * f) * n) * x by {
      assert (0 - 3 * f) * n == 0 - 3 * (f * n);
    }
  }

  /** Subtracting the two equations, and multiplying by h^3. */
  lemma ChordRelation(u1: int, s1: int, u2: int, s2: int, a: int, k: int, m: nat)
    requires m > 0 && Cong(s1 * s1, u1 * u1 * u1 + a * u1 + k, m) && Cong(s2 * s2, u2 * u2 * u2 + a * u2 + k, m)
    ensures var h, r := u2 - u1, s2 - s1;
            var hh, v := h * (h * h), u1 * (h * h);
            Cong(2 * (r * (s1 * hh)) + r * r * hh, 3 * (v * v) + 3 * (v * hh) + hh * hh + a * ((h * h) * (h * h)), m)
  {
    hide Cong;
    var h, r := u2 - u1, s2 - s1;
    var hh := h * (h * h);
    CongSub(s2 * s2, u2 * u2 * u2 + a * u2 + k, s1 * s1, u1 * u1 * u1 + a * u1 + k, m);
    CubeOfSum(u1, h);
    var rhs := 3 * (u1 * u1 * h) + 3 * (u1 * (h * h)) + h * (h * h) + a * h;
    assert u2 * u2 * u2 + a * u2 + k - (u1 * u1 * u1 + a * u1 + k) == rhs by {
      assert u2 == u1 + h && a * u2 == a * u1 + a * h;
    }
    assert s2 * s2 - s1 * s1 == 2 * (r * s1) + r * r by { assert s2 == s1 + r; }
    CongScale(2 * (r * s1) + r * r, rhs, hh, m);
    ChordTimes(u1, h, a);
    assert (2 * (r * s1) + r * r) * hh == 2 * (r * (s1 * hh)) + r * r * hh by { MulSwap(r, s1, hh); }
  }

  lemma LeftRelation(u: int, s: int, h: int, a: int, k: int, m: nat)
    requires m > 0 && Cong(s * s, u * u * u + a * u + k, m)
    ensures var hh, v := h * (h * h), u * (h * h);
            Cong((s * hh) * (s * hh) - v * v * v - (a * ((h * h) * (h * h))) * v, k * (hh * hh), m)
  {
    hide Cong;
    var hh, v := h * (h * h), u * (h * h);
    var n := v * v * v + (a * ((h * h) * (h * h))) * v;
    CongScale(s * s, u * u * u + a * u + k, hh * hh, m);
    LeftTimes(u, h, a, k);
    SquareProduct(s, hh);
    Itself(n, m);
    CongSub((s * hh) * (s * hh), n + k * (hh * hh), n, n, m);
  }

  lemma ChordBracket(r: int, v: int, hh: int, w: int, sh: int, ah: int, m: nat)
    requires m > 0 && Cong(2 * (r * sh) + r * r * hh, 3 * (v * v) + 3 * (v * hh) + hh * hh + ah, m)
    requires r * r * w + r * r * hh - 3 * (v * hh) - hh * hh - 3 * (v * w) + w * w == 0
    ensures Cong(r * r * w - 2 * (r * sh) + 3 * (v * v) - 3 * (v * w) + w * w + ah, 0, m)
  {
    hide Cong;
    var lhs, rhs := 2 * (r * sh) + r * r * hh, 3 * (v * v) + 3 * (v * hh) + hh * hh + ah;
    Itself(rhs, m);
    CongSub(rhs, rhs, lhs, rhs, m);
  }

  /** Adding two points of the curve gives a point of the curve, in all cases of the code. */
  lemma AddOnCurve(c: Curve, p: Point, q: Point)
    requires c.m > 0 && OnCurve(c, p) && OnCurve(c, q)
    ensures OnCurve(c, PointAdd(c, p, q))
  {
    hide Cong, Mul, Add, Sub, Double, Chord, Rhs;
    if p.z != 0 && q.z != 0 {
      var m := c.m;
      var zz1, zz2 := Mul(p.z, p.z, m), Mul(q.z, q.z, m);
      var u1, u2 := Mul(p.x, zz2, m), Mul(q.x, zz1, m);
      var s1, s2 := Mul(p.y, Mul(q.z, zz2, m), m), Mul(q.y, Mul(p.z, zz1, m), m);
      InfinityOnCurve(c);
      DoubleOnCurve(c, p);
      Brought(c, p, q.z);
      Brought(c, q, p.z);
      assert p.z * q.z == q.z * p.z;
      if u1 != u2 { ChordOnCurve(c, p, q, u1, s1, u2, s2); }
    }
  }

  lemma ChordOnCurve(c: Curve, p: Point, q: Point, u1: nat, s1: nat, u2: nat, s2: nat)
    requires c.m > 0 && Cong(s1 * s1, Rhs(c, u1, p.z * q.z), c.m) && Cong(s2 * s2, Rhs(c, u2, p.z * q.z), c.m)
    ensures OnCurve(c, Chord(c, u1, s1, u2, s2, Mul(p.z, q.z, c.m)))
  {
    hide Cong, Mul, Chord, Rhs;
    var m := c.m;
    var h: int, r: int, g: int := u2 - u1, s2 - s1, p.z * q.z;
    var hh, v := h * (h * h), u1 * (h * h);
    var x := r * r - hh - 2 * v;
    Itself(p.z, m);
    Itself(q.z, m);
    MulRep(p.z, p.z, q.z, q.z, m);
    ChordReps(c, u1, s1, u2, s2, Mul(p.z, q.z, m), g);
    AddEquation(c, u1, s1, u2, s2, g);
    RepsOnCurve(c, Chord(c, u1, s1, u2, s2, Mul(p.z, q.z, m)), x, r * (v - x) - s1 * hh, g * h);
  }

  /** A point's coordinates brought to the z of another. */
  lemma BroughtReps(x: nat, y: nat, t: nat, m: nat)
    requires m > 0
    ensures var tt := Mul(t, t, m);
      Cong(Mul(x, tt, m), x * (t * t), m) && Cong(Mul(y, Mul(t, tt, m), m), y * (t * (t * t)), m)
  {
    hide Cong, Mul;
    var tt := Mul(t, t, m);
    Itself(t, m);
    Itself(x, m);
    Itself(y, m);
    MulRep(t, t, t, t, m);
    MulRep(x, x, tt, t * t, m);
    MulRep(t, t, tt, t * t, m);
    MulRep(y, y, Mul(t, tt, m), t * (t * t), m);
  }

  /** What the sum is, on the coordinates of the two points. Brought to the common z1 z2 they are (u1, s1) and (u2, s2).
      Opposite points add up to infinity and equal ones to the double. Otherwise, with h = u2 - u1 and r = s2 - s1, the
      sum (X, Y, Z) has Z = z1 z2 h, X = r^2 - h^3 - 2 u1 h^2 and -Y - s1 h^3 = r (X - u1 h^2): its negative is the
      third point of the curve on the line through both. */
  lemma AddReps(c: Curve, p: Point, q: Point, u1: int, s1: int, u2: int, s2: int)
    requires c.m > 0 && p.z != 0 && q.z != 0
    requires u1 == p.x * (q.z * q.z) && s1 == p.y * (q.z * (q.z * q.z))
    requires u2 == q.x * (p.z * p.z) && s2 == q.y * (p.z * (p.z * p.z))
    ensures var t, h, r := PointAdd(c, p, q), u2 - u1, s2 - s1;
      if Cong(u1, u2, c.m) then t == if Cong(s1, s2, c.m) then Double(c, p) else INFINITY
      else
        && Cong(t.z, (p.z * q.z) * h, c.m) && Cong(t.x, r * r - h * (h * h) - 2 * (u1 * (h * h)), c.m)
        && Cong(t.y + s1 * (h * (h * h)), r * (u1 * (h * h) - t.x), c.m)
  {
    hide Cong, Mul, Double, Chord;
    var m := c.m;
    var zz1, zz2 := Mul(p.z, p.z, m), Mul(q.z, q.z, m);
    var a1, a2 := Mul(p.x, zz2, m), Mul(q.x, zz1, m);
    var b1, b2 := Mul(p.y, Mul(q.z, zz2, m), m), Mul(q.y, Mul(p.z, zz1, m), m);
    BroughtReps(p.x, p.y, q.z, m);
    BroughtReps(q.x, q.y, p.z, m);
    SmallSame(a1, u1, a2, u2, m);
    SmallSame(b1, s1, b2, s2, m);
    if a1 != a2 {
      Itself(p.z, m);
      Itself(q.z, m);
      MulRep(p.z, p.z, q.z, q.z, m);
      ChordReps(c, a1, b1, a2, b2, Mul(p.z, q.z, m), p.z * q.z);
      ChordMoves(Chord(c, a1, b1, a2, b2, Mul(p.z, q.z, m)), p.z * q.z, a1, b1, a2, b2, u1, s1, u2, s2, m);
    }
  }

  /** The chord's equations hold of any representatives. */
  lemma ChordMoves(t: Point, g: int, a1: int, b1: int, a2: int, b2: int, u1: int, s1: int, u2: int, s2: int, m: nat)
    requires m > 0 && Cong(a1, u1, m) && Cong(b1, s1, m) && Cong(a2, u2, m) && Cong(b2, s2, m)
    requires var h, r := a2 - a1, b2 - b1;
      var hh, v := h * (h * h), a1 * (h * h);
      var x := r * r - hh - 2 * v;
      Cong(t.x, x, m) && Cong(t.y, r * (v - x) - b1 * hh, m) && Cong(t.z, g * h, m)
    ensures var h, r := u2 - u1, s2 - s1;
      && Cong(t.z, g * h, m) && Cong(t.x, r * r - h * (h * h) - 2 * (u1 * (h * h)), m)
      && Cong(t.y + s1 * (h * (h * h)), r * (u1 * (h * h) - t.x), m)
  {
    hide Cong;
    var k, e, h, r := a2 - a1, b2 - b1, u2 - u1, s2 - s1;
    var kk, hh, w, v := k * (k * k), h * (h * h), a1 * (k * k), u1 * (h * h);
    var y, x := e * e - kk - 2 * w, r * r - hh - 2 * v;
    CongSub(a2, u2, a1, u1, m);
    CongSub(b2, s2, b1, s1, m);
    CongMul(k, h, k, h, m);
    CongMul(k, h, k * k, h * h, m);
    CongMul(a1, u1, k * k, h * h, m);
    CongMul(e, r, e, r, m);
    CongMul(b1, s1, kk, hh, m);
    CongScale(k, h, g, m);
    CongTrans(t.z, g * k, g * h, m);
    CongSub(e * e, r * r, kk, hh, m);
    CongScale(w, v, 2, m);
    CongSub(e * e - kk, r * r - hh, 2 * w, 2 * v, m);
    CongTrans(t.x, y, x, m);
    ChordLine(t.x, t.y, e, w, y, b1 * kk, r, v, s1 * hh, m);
  }

  lemma ChordLine(x: int, y: int, e: int, w: int, z: int, b: int, r: int, v: int, s: int, m: nat)
    requires m > 0 && Cong(x, z, m) && Cong(y, e * (w - z) - b, m)
    requires Cong(e, r, m) && Cong(w, v, m) && Cong(b, s, m)
    ensures Cong(y + s, r * (v - x), m)
  {
    hide Cong;
    CongSwap(x, z, m);
    CongSub(w, v, z, x, m);
    CongMul(e, r, w - z, v - x, m);
    CongSub(e * (w - z), r * (v - x), b, s, m);
    CongTrans(y, e * (w - z) - b, r * (v - x) - s, m);
    Itself(s, m);
    CongAdd(y, r * (v - x) - s, s, s, m);
  }

  /** A point brought to the z of another: its equation with both z multiplied. */
  lemma Brought(c: Curve, p: Point, t: nat)
    requires c.m > 0 && OnCurve(c, p)
    ensures var m := c.m;
            var tt := Mul(t, t, m);
            var u, s := Mul(p.x, tt, m), Mul(p.y, Mul(t, tt, m), m);
            Cong(s * s, Rhs(c, u, p.z * t), m)
  {
    hide Cong, Mul, Rhs;
    var m := c.m;
    var tt := Mul(t, t, m);
    var u, s := Mul(p.x, tt, m), Mul(p.y, Mul(t, tt, m), m);
    var U, S := p.x * (t * t), p.y * (t * (t * t));
    Itself(t, m);
    Itself(p.x, m);
    Itself(p.y, m);
    Itself(p.z * t, m);
    MulRep(t, t, t, t, m);
    MulRep(p.x, p.x, tt, t * t, m);
    MulRep(t, t, tt, t * t, m);
    MulRep(p.y, p.y, Mul(t, tt, m), t * (t * t), m);
    ScaledEquation(c, p.x, p.y, p.z, t);
    CongMul(s, S, s, S, m);
    RhsCong(c, u, U, p.z * t, p.z * t);
    CongSame(s * s, S * S, Rhs(c, U, p.z * t), Rhs(c, u, p.z * t), m);
  }

  // ---------------------------------------------------------------- scalar multiplication

  /** k times a point by doubling and adding, from the top bit of k. */
  function Times(c: Curve, k: nat, p: Point): Point
    requires c.m > 0
  {
    if k == 0 then INFINITY
    else
      var d := Double(c, Times(c, k / 2, p));
      if k % 2 == 1 then PointAdd(c, d, p) else d
  }

  lemma {:induction false} TimesOnCurve(c: Curve, k: nat, p: Point)
    requires c.m > 0 && OnCurve(c, p)
    ensures OnCurve(c, Times(c, k, p))
  {
    hide OnCurve, Double, PointAdd;
    InfinityOnCurve(c);
    if k > 0 {
      TimesOnCurve(c, k / 2, p);
      DoubleOnCurve(c, Times(c, k / 2, p));
      AddOnCurve(c, Double(c, Times(c, k / 2, p)), p);
    }
  }

  /** One more bit: leading zero bits leave infinity as it is. */
  lemma TimesStep(c: Curve, k: nat, bit: nat, p: Point)
    requires c.m > 0 && bit <= 1
    ensures var d := Double(c, Times(c, k, p));
            Times(c, 2 * k + bit, p) == if bit == 1 then PointAdd(c, d, p) else d
  {
    hide PointAdd;
    if 2 * k + bit == 0 { DoubleSpecial(c, INFINITY); }
    else { assert (2 * k + bit) / 2 == k && (2 * k + bit) % 2 == bit; }
  }

  /** k-fold x under an operation with unit e. */
  function Multiple<T>(op: (T, T) -> T, e: T, x: T, k: nat): T
  {
    if k == 0 then e else op(Multiple(op, e, x, k - 1), x)
  }

  ghost predicate Monoid<T(!new)>(op: (T, T) -> T, e: T)
  {
    (forall a, b, d :: op(op(a, b), d) == op(a, op(b, d))) && forall a :: op(a, e) == a && op(e, a) == a
  }

  lemma {:induction false} MultipleSum<T(!new)>(op: (T, T) -> T, e: T, x: T, j: nat, k: nat)
    requires Monoid(op, e)
    ensures op(Multiple(op, e, x, j), Multiple(op, e, x, k)) == Multiple(op, e, x, j + k)
  {
    if k > 0 {
      MultipleSum(op, e, x, j, k - 1);
      assert op(op(Multiple(op, e, x, j), Multiple(op, e, x, k - 1)), x)
          == op(Multiple(op, e, x, j), op(Multiple(op, e, x, k - 1), x));
    }
  }

  lemma MultipleBit<T(!new)>(op: (T, T) -> T, e: T, x: T, k: nat)
    requires Monoid(op, e) && k > 0
    ensures var h := Multiple(op, e, x, k / 2);
      Multiple(op, e, x, k) == if k % 2 == 1 then op(op(h, h), x) else op(h, h)
  {
    hide Monoid;
    MultipleSum(op, e, x, k / 2, k / 2);
    assert k == k / 2 + k / 2 + k % 2;
  }

  /** The points of the curve stand for elements of a monoid: infinity for its unit, doubling and the addition of p for
      its operation. */
  ghost predicate StandsFor<T(!new)>(c: Curve, p: Point, val: Point -> T, op: (T, T) -> T, e: T)
    requires c.m > 0
  {
    val(INFINITY) == e && forall q :: OnCurve(c, q) ==>
      val(Double(c, q)) == op(val(q), val(q)) && val(PointAdd(c, q, p)) == op(val(q), val(p))
  }

  lemma StandsAt<T(!new)>(c: Curve, p: Point, val: Point -> T, op: (T, T) -> T, e: T, q: Point)
    requires c.m > 0 && StandsFor(c, p, val, op, e) && OnCurve(c, q)
    ensures val(INFINITY) == e && val(Double(c, q)) == op(val(q), val(q))
    ensures val(PointAdd(c, q, p)) == op(val(q), val(p))
  {
  }

  /** Then k times a point stands for the k-fold element: doubling and adding computes k. */
  lemma {:induction false} TimesIsMultiple<T(!new)>(c: Curve, k: nat, p: Point, val: Point -> T, op: (T, T) -> T, e: T)
    requires c.m > 0 && OnCurve(c, p) && Monoid(op, e) && StandsFor(c, p, val, op, e)
    ensures val(Times(c, k, p)) == Multiple(op, e, val(p), k)
  {
    hide OnCurve, Double, PointAdd, Monoid, StandsFor;
    if k == 0 {
      StandsAt(c, p, val, op, e, p);
    } else {
      var t := Times(c, k / 2, p);
      TimesIsMultiple(c, k / 2, p, val, op, e);
      TimesOnCurve(c, k / 2, p);
      DoubleOnCurve(c, t);
      StandsAt(c, p, val, op, e, t);
      StandsAt(c, p, val, op, e, Double(c, t));
      MultipleBit(op, e, val(p), k);
    }
  }

  lemma TimesZero(c: Curve, p: Point)
    requires c.m > 0
    ensures Times(c, 0, p) == INFINITY
  {
  }

  /** The bits of k from `bit` up. */
  function TopBits(k: nat, bit: nat): nat
  {
    QuotientNat(k, Pow2(bit));
    k / Pow2(bit)
  }

  lemma QuotientNat(x: nat, d: nat)
    requires d > 0
    ensures x / d >= 0
  {
  }

  lemma TopBitsStep(k: nat, bit: nat)
    ensures TopBits(k, bit) == 2 * TopBits(k, bit + 1) + BitAt(k, bit)
  {
    BitStep(k, bit);
  }

  lemma TopIsZero(k: seq<U32>)
    requires |k| == 8
    ensures TopBits(Val(k), 256) == 0
  {
    hide Val, Pow2, Weight;
    ValBound(k);
    WeightIsPow2(8);
    SmallDivides(Val(k), Pow2(256));
  }

  lemma WholeNumber(x: nat)
    ensures TopBits(x, 0) == x
  {
  }

  lemma BitOfLimb(k: seq<U32>, bit: nat)
    requires bit < 32 * |k|
    ensures BitAt(k[bit / 32], bit % 32) == BitAt(Val(k), bit)
  {
    hide Val;
    LimbBit(k, bit / 32, bit % 32);
  }

  // ---------------------------------------------------------------- affine points

  /** `p256_point_validate`: a public key is accepted exactly when its coordinates are reduced and on the curve. */
  function Validate(c: Curve, x: nat, y: nat): int
    requires c.m > 0
  {
    if x >= c.m || y >= c.m then -1
    else
      var m := c.m;
      var lhs, cube := Mul(y, y, m), Mul(Mul(x, x, m), x, m);
      var triple := Add(Add(x, x, m), x, m);
      if lhs == Add(Sub(cube, triple, m), c.b, m) then 0 else -4
  }

  lemma ValidatesCurve(c: Curve, x: nat, y: nat)
    requires c.m > 1
    ensures Validate(c, x, y) == 0 <==> OnCurve(c, Point(x, y, 1))
  {
    hide Cong, Mul, Add, Sub;
    if x < c.m && y < c.m {
      var m := c.m;
      Itself(x, m);
      Itself(y, m);
      Itself(c.b, m);
      MulRep(y, y, y, y, m);
      MulRep(x, x, x, x, m);
      MulRep(Mul(x, x, m), x * x, x, x, m);
      AddRep(x, x, x, x, m);
      AddRep(Add(x, x, m), x + x, x, x, m);
      var cube, triple := Mul(Mul(x, x, m), x, m), Add(Add(x, x, m), x, m);
      SubRep(cube, x * x * x, triple, 3 * x, m);
      AddRep(Sub(cube, triple, m), x * x * x - 3 * x, c.b, c.b, m);
      assert Rhs(c, x, 1) == x * x * x - 3 * x + c.b;
      SmallSame(Mul(y, y, m), y * y, Add(Sub(cube, triple, m), c.b, m), x * x * x - 3 * x + c.b, m);
    }
  }

  /** Reduced representatives are equal exactly when what they stand for is congruent. */
  lemma SmallSame(a: nat, v: int, b: nat, w: int, m: nat)
    requires a < m && b < m && Cong(a, v, m) && Cong(b, w, m)
    ensures a == b <==> Cong(v, w, m)
  {
    CongSmall(v, a, m);
    CongSmall(w, b, m);
  }
}
