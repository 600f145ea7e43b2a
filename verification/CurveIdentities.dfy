/** The polynomial identities behind the Jacobian formulas, over the integers. */
module CurveIdentities {
  lemma Square(u: int, v: int)
    ensures (u - v) * (u - v) == u * u - 2 * (u * v) + v * v
  {
  }

  lemma SquareProduct(e: int, t: int)
    ensures (e * t) * (e * t) == (e * e) * (t * t)
  {
  }

  // ---------------------------------------------------------------- doubling

  lemma CubeDiff(q: int, d: int)
    ensures q * ((3 * d - q) * (3 * d - q)) - (q - 2 * d) * (q - 2 * d) * (q - 2 * d) ==
      8 * (d * d * d) - 3 * (q * (d * d))
  {
  }

  lemma DoubleCubes(x: int, b: int, q: int)
    ensures var d := 4 * (x * b);
            8 * (d * d * d) == 512 * ((x * b * (b * b)) * (x * x)) &&
              3 * (q * (d * d)) == 48 * ((q * (b * b)) * (x * x))
  {
    var xb := x * b;
    assert xb * xb == (x * x) * (b * b);
    assert (4 * xb) * (4 * xb) == 16 * (xb * xb);
    assert (4 * xb) * (4 * xb) * (4 * xb) == 64 * (xb * (xb * xb));
    assert xb * ((x * x) * (b * b)) == (xb * (b * b)) * (x * x);
    assert q * ((x * x) * (b * b)) == (q * (b * b)) * (x * x);
    assert q * (16 * (xb * xb)) == 16 * (q * (xb * xb));
  }

  lemma DoubleMiddle(x: int, b: int, e: int, q: int)
    ensures var d := 4 * (x * b);
            16 * ((b * b) * (e * (3 * d - q))) == 192 * ((x * b * (b * b)) * e) - 16 * ((q * (b * b)) * e)
  {
    var xb, c := x * b, b * b;
    assert e * (3 * (4 * xb) - q) == 12 * (e * xb) - e * q;
    assert c * (12 * (e * xb) - e * q) == 12 * (c * (e * xb)) - c * (e * q);
    assert c * (e * xb) == (xb * c) * e && c * (e * q) == (q * c) * e;
  }

  lemma DoubleFourth(x: int, b: int, q: int, w: int)
    ensures var d := 4 * (x * b);
            48 * ((q - 2 * d) * ((b * b) * w)) == 48 * ((q * (b * b)) * w) - 384 * ((x * b * (b * b)) * w)
  {
    var xb, cw := x * b, (b * b) * w;
    assert (q - 8 * xb) * cw == q * cw - 8 * (xb * cw);
    assert q * cw == (q * (b * b)) * w && xb * cw == (xb * (b * b)) * w;
  }

  lemma DoubleSixth(x: int, b: int, w: int)
    ensures 64 * ((b * (b * b)) * (b - x * x * x + 3 * (x * w))) ==
            64 * ((b * b) * (b * b)) - 64 * ((x * b * (b * b)) * (x * x)) + 192 * ((x * b * (b * b)) * w)
  {
    var c := b * b;
    assert (b * c) * (b - x * x * x + 3 * (x * w)) == (b * c) * b - (b * c) * (x * x * x) + 3 * ((b * c) * (x * w));
    assert (b * c) * b == c * c && (b * c) * (x * x * x) == (x * b * c) * (x * x) &&
      (b * c) * (x * w) == (x * b * c) * w;
  }

  lemma DoubleCancels(m: int, n: int, p: int, w: int)
    ensures 576 * (m * p) - 576 * (m * w) - 48 * (n * p) + 48 * (n * w) - 192 * (m * (3 * (p - w)))
      + 16 * (n * (3 * (p - w))) == 0
  {
  }

  /** With x, b = y^2 and w = z^4 as unknowns: the doubled point satisfies the curve equation in which b z^6 is written
      as b - x^3 + 3 x w. */
  lemma DoubleIdentity(x: int, b: int, w: int)
    ensures var e := 3 * (x * x - w);
            var d := 4 * (x * b);
            var x3 := e * e - 2 * d;
            var y3 := e * (d - x3) - 8 * (b * b);
            y3 * y3 == x3 * x3 * x3 - 48 * (x3 * ((b * b) * w)) + 64 * ((b * (b * b)) * (b - x * x * x + 3 * (x * w)))
  {
    var e, d, c := 3 * (x * x - w), 4 * (x * b), b * b;
    var q := e * e;
    var x3, t := q - 2 * d, 3 * d - q;
    var y3 := e * (d - x3) - 8 * c;
    Square(e * t, 8 * c);
    SquareProduct(e, t);
    assert y3 * y3 == q * (t * t) - 16 * (c * (e * t)) + 64 * (c * c) by {
      assert d - x3 == t;
      assert (e * t) * (8 * c) == 8 * (c * (e * t)) && (8 * c) * (8 * c) == 64 * (c * c);
    }
    CubeDiff(q, d);
    DoubleCubes(x, b, q);
    DoubleMiddle(x, b, e, q);
    DoubleFourth(x, b, q, w);
    DoubleSixth(x, b, w);
    DoubleCancels(x * b * c, q * c, x * x, w);
  }

  // ---------------------------------------------------------------- addition

  lemma CubeMinus(v: int, w: int)
    ensures (v - w) * (v - w) * (v - w) == v * v * v - 3 * (v * v * w) + 3 * (v * (w * w)) - w * (w * w)
  {
  }

  /** The excess of the sum's equation splits into a multiple of w and the excess of the left point's equation. */
  lemma AddSplits(r: int, v: int, w: int, sh: int, a: int)
    ensures var x, y := v - w, r * w - sh;
            y * y - x * x * x - a * x ==
            w * (r * r * w - 2 * (r * sh) + 3 * (v * v) - 3 * (v * w) + w * w + a) + (sh * sh - v * v * v - a * v)
  {
    var x, y := v - w, r * w - sh;
    Square(r * w, sh);
    SquareProduct(r, w);
    CubeMinus(v, w);
    Times(a, v, w);
    TimesSix(w, r * r * w, r * sh, v * v, v * w, w * w, a);
    TimesTerms(r, v, w, sh, a);
    AddCollects(y * y, x * x * x, a * x, (r * r) * (w * w), (r * w) * sh, sh * sh, v * v * v, v * v * w, v * (w * w),
                w * (w * w), a * v, a * w);
  }

  lemma Times(a: int, v: int, w: int)
    ensures a * (v - w) == a * v - a * w
  {
  }

  lemma TimesSix(w: int, p: int, q: int, s: int, t: int, u: int, a: int)
    ensures w * (p - 2 * q + 3 * s - 3 * t + u + a) == w * p - 2 * (w * q) + 3 * (w * s) - 3 * (w * t) + w * u + w * a
  {
  }

  lemma TimesTerms(r: int, v: int, w: int, sh: int, a: int)
    ensures w * (r * r * w) == (r * r) * (w * w) && w * (r * sh) == (r * w) * sh
    ensures w * (v * v) == v * v * w && w * (v * w) == v * (w * w) && w * a == a * w
  {
  }

  lemma AddCollects(y2: int, x3: int, ax: int, rw: int, rs: int, s2: int, v3: int, v2w: int, vw2: int, w3: int, av: int,
                    aw: int)
    requires y2 == rw - 2 * rs + s2 && x3 == v3 - 3 * v2w + 3 * vw2 - w3 && ax == av - aw
    ensures y2 - x3 - ax == (rw - 2 * rs + 3 * v2w - 3 * vw2 + w3 + aw) + (s2 - v3 - av)
  {
  }

  /** With x the third abscissa, what multiplies w vanishes. */
  lemma AddVanishes(r: int, v: int, h: int)
    ensures var w := v - (r * r - h - 2 * v);
            r * r * w + r * r * h - 3 * (v * h) - h * h - 3 * (v * w) + w * w == 0
  {
  }

  /** The chord relation times h^3. */
  lemma ChordTimes(u: int, h: int, a: int)
    ensures var v, hh := u * (h * h), h * (h * h);
            (3 * (u * u * h) + 3 * (u * (h * h)) + h * (h * h) + a * h) * hh ==
            3 * (v * v) + 3 * (v * hh) + hh * hh + a * ((h * h) * (h * h))
  {
    var h2 := h * h;
    var hh := h * h2;
    assert (3 * (u * u * h) + 3 * (u * h2) + hh + a * h) * hh ==
      3 * ((u * u * h) * hh) + 3 * ((u * h2) * hh) + hh * hh + (a * h) * hh;
    assert (u * u * h) * hh == (u * h2) * (u * h2);
    assert (a * h) * hh == a * (h2 * h2);
  }

  lemma CubeOfSum(u: int, h: int)
    ensures (u + h) * (u + h) * (u + h) - u * u * u == 3 * (u * u * h) + 3 * (u * (h * h)) + h * (h * h)
  {
  }

  /** The left point's equation times h^6. */
  lemma LeftTimes(u: int, h: int, a: int, c: int)
    ensures var v, hh := u * (h * h), h * (h * h);
            (u * u * u + a * u + c) * (hh * hh) == v * v * v + (a * ((h * h) * (h * h))) * v + c * (hh * hh)
  {
    var h2 := h * h;
    var hh := h * h2;
    assert (u * u * u + a * u + c) * (hh * hh) == (u * u * u) * (hh * hh) + (a * u) * (hh * hh) + c * (hh * hh);
    assert hh * hh == h2 * (h2 * h2);
    assert (u * u * u) * (h2 * (h2 * h2)) == (u * h2) * (u * h2) * (u * h2);
    assert (a * u) * (h2 * (h2 * h2)) == (a * (h2 * h2)) * (u * h2);
  }
}
