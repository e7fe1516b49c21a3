/**
 The one-variable problem behind the regression solver and the L1-regularised
 solver: minimise  G (x-b) + 0.5 H (x-b)^2 + p |x|  over  -U <= x <= U .  The
 code takes a Newton direction in three cases and clips; the result is proved to
 be the minimiser.
 */
module KinkedParabola {
  import opened LinAlg
  import opened ExtReal

  ghost function Slanted(G: real, H: real, b: real, x: real): real {
    G * (x - b) + 0.5 * (H * ((x - b) * (x - b)))
  }

  /** The one-variable function:  G d + 0.5 H d^2 + p |b + d|  at b + d = x. */
  ghost function Kinked(G: real, H: real, p: real, b: real, x: real): real {
    Slanted(G, H, b, x) + p * Abs(x)
  }

  /** -U <= x <= U */
  predicate InBox(x: real, u: Ext) {
    AtMost(Fin(x), u) && AtMost(Fin(-x), u)
  }

  /** The target b + d of the Newton direction; infinite when H is zero. */
  function Target(b: real, G: real, H: real, p: real): Ext
    requires H >= 0.0
  {
    var Gp, Gn := G + p, G - p;
    if Gp < H * b then (if H > 0.0 then Fin(b - Gp / H) else PosInf)
    else if Gn > H * b then (if H > 0.0 then Fin(b - Gn / H) else NegInf)
    else Fin(0.0)
  }

  /** min(max(t, -U), U) */
  function ClipTo(t: Ext, u: Ext): Ext {
    MinE(MaxE(t, Neg(u)), u)
  }

  /** The minimiser over the box, with the growth a parabola of curvature H has around it. */
  ghost predicate BoxMinimiser(G: real, H: real, p: real, b: real, u: Ext, x: real) {
    && InBox(x, u)
    && forall z :: InBox(z, u) ==> Kinked(G, H, p, b, z) >= Kinked(G, H, p, b, x) + 0.5 * (H * ((z - x) * (z - x)))
  }

  /** If slope*(z-x) + p(|z|-|x|) >= 0, then z is not better than x. */
  lemma SlopeTest(G: real, H: real, p: real, b: real, x: real, z: real)
    requires (G + H * (x - b)) * (z - x) + p * (Abs(z) - Abs(x)) >= 0.0
    ensures Kinked(G, H, p, b, z) >= Kinked(G, H, p, b, x) + 0.5 * (H * ((z - x) * (z - x)))
  {
    var e, f := x - b, z - x;
    assert z - b == e + f;
    assert H * ((e + f) * (e + f)) == H * (e * e) + 2.0 * (H * e * f) + H * (f * f);
    assert (G + H * e) * f == G * f + H * e * f;
    assert p * (Abs(z) - Abs(x)) == p * Abs(z) - p * Abs(x);
    assert G * (e + f) == G * e + G * f;
  }

  /** A positive target: the kink is on the left of it. */
  lemma PositiveSide(G: real, H: real, p: real, b: real, x: real, z: real)
    requires p >= 0.0 && x >= 0.0
    requires G + H * (x - b) + p <= 0.0 && (z <= x || G + H * (x - b) + p == 0.0)
    ensures (G + H * (x - b)) * (z - x) + p * (Abs(z) - Abs(x)) >= 0.0
  {
    var g := G + H * (x - b) + p;
    var q := Product(p, Abs(z) - z);
    assert p * (Abs(z) - z) == p * Abs(z) - p * z;
    if g < 0.0 {
      var r := Product(-g, x - z);
      assert (-g) * (x - z) == g * (z - x);
    }
    assert (g - p) * (z - x) == g * (z - x) - p * z + p * x;
    assert p * (Abs(z) - x) == p * Abs(z) - p * x;
  }

  lemma NegativeSide(G: real, H: real, p: real, b: real, x: real, z: real)
    requires p >= 0.0 && x <= 0.0
    requires G + H * (x - b) - p >= 0.0 && (z >= x || G + H * (x - b) - p == 0.0)
    ensures (G + H * (x - b)) * (z - x) + p * (Abs(z) - Abs(x)) >= 0.0
  {
    PositiveSide(-G, H, p, -b, -x, -z);
    assert (-G + H * (-x - -b)) * (-z - -x) == (G + H * (x - b)) * (z - x) by {
      var a, c := G + H * (x - b), z - x;
      assert -G + H * (-x - -b) == -a by { assert H * (-x - -b) == -(H * (x - b)); }
      assert -z - -x == -c;
      assert (-a) * (-c) == a * c;
    }
  }

  lemma AtKink(G: real, H: real, p: real, b: real, z: real)
    requires -p <= G - H * b <= p
    ensures (G + H * (0.0 - b)) * (z - 0.0) + p * (Abs(z) - Abs(0.0)) >= 0.0
  {
    var g := G - H * b;
    assert H * (0.0 - b) == -(H * b);
    if z >= 0.0 {
      var q := Product(g + p, z);
      assert (g + p) * z == g * z + p * z;
    } else {
      var q := Product(p - g, -z);
      assert (p - g) * -z == g * z - p * z;
      assert p * -z == -(p * z);
    }
  }

  /** b - Gp/H solves the first-order condition on its side. */
  lemma Stationary(G: real, H: real, c: real, b: real)
    requires H > 0.0
    ensures var t := b - (G + c) / H; G + H * (t - b) + c == 0.0 && H * t == H * b - (G + c)
  {
    var q := (G + c) / H;
    assert H * q == G + c;
    assert H * (b - q) == H * b - H * q;
  }

  lemma SlopeAt(G: real, H: real, c: real, b: real, t: real, x: real)
    requires H >= 0.0 && G + H * (t - b) + c == 0.0
    ensures x <= t ==> G + H * (x - b) + c <= 0.0
    ensures x >= t ==> G + H * (x - b) + c >= 0.0
  {
    assert H * (x - b) == H * (t - b) + H * (x - t);
    if x <= t { var q := Product(H, t - x); assert H * (t - x) == -(H * (x - t)); }
    if x >= t { var q := Product(H, x - t); }
  }

  lemma PositiveFactor(h: real, t: real)
    requires h >= 0.0 && h * t > 0.0
    ensures t > 0.0
  {
    if t <= 0.0 { var q := Product(h, -t); }
  }

  /** Newton direction followed by clipping gives the minimiser over the box. */
  lemma ClippedTarget(G: real, H: real, p: real, b: real, u: Ext)
    requires H >= 0.0 && p >= 0.0 && (u.PosInf? || (u.Fin? && u.r > 0.0)) && (H > 0.0 || u.Fin?)
    ensures var x := ClipTo(Target(b, G, H, p), u); x.Fin? && BoxMinimiser(G, H, p, b, u, x.r)
  {
    hide Kinked, LinAlg.Abs;
    ClipFinite(b, G, H, p, u);
    var x := ClipTo(Target(b, G, H, p), u).r;
    forall z | InBox(z, u) ensures Kinked(G, H, p, b, z) >= Kinked(G, H, p, b, x) + 0.5 * (H * ((z - x) * (z - x))) {
      if G + p < H * b {
        RightTarget(G, H, p, b, u, x, z);
      } else if G - p > H * b {
        LeftTarget(G, H, p, b, u, x, z);
      } else {
        AtKink(G, H, p, b, z);
        ClipZero(u);
      }
      SlopeTest(G, H, p, b, x, z);
    }
  }

  lemma ClipZero(u: Ext)
    requires u.PosInf? || (u.Fin? && u.r > 0.0)
    ensures ClipTo(Fin(0.0), u) == Fin(0.0)
  {
  }

  lemma ClipFinite(b: real, G: real, H: real, p: real, u: Ext)
    requires H >= 0.0 && (u.PosInf? || (u.Fin? && u.r > 0.0)) && (H > 0.0 || u.Fin?)
    ensures var x := ClipTo(Target(b, G, H, p), u); x.Fin? && InBox(x.r, u)
  {
    var t := Target(b, G, H, p);
    assert H > 0.0 ==> t.Fin?;
  }

  lemma RightTarget(G: real, H: real, p: real, b: real, u: Ext, x: real, z: real)
    requires H >= 0.0 && p >= 0.0 && (u.PosInf? || (u.Fin? && u.r > 0.0)) && (H > 0.0 || u.Fin?)
    requires G + p < H * b && Fin(x) == ClipTo(Target(b, G, H, p), u) && InBox(z, u)
    ensures (G + H * (x - b)) * (z - x) + p * (Abs(z) - Abs(x)) >= 0.0
  {
    if H > 0.0 {
      var t := b - (G + p) / H;
      Stationary(G, H, p, b);
      PositiveFactor(H, t);
      SlopeAt(G, H, p, b, t, x);
    } else {
      assert H * (x - b) == 0.0;
    }
    PositiveSide(G, H, p, b, x, z);
  }

  lemma LeftTarget(G: real, H: real, p: real, b: real, u: Ext, x: real, z: real)
    requires H >= 0.0 && p >= 0.0 && (u.PosInf? || (u.Fin? && u.r > 0.0)) && (H > 0.0 || u.Fin?)
    requires G - p > H * b && Fin(x) == ClipTo(Target(b, G, H, p), u) && InBox(z, u) && !(G + p < H * b)
    ensures (G + H * (x - b)) * (z - x) + p * (Abs(z) - Abs(x)) >= 0.0
  {
    if H > 0.0 {
      var t := b - (G - p) / H;
      Stationary(G, H, -p, b);
      assert H * -t == -(H * t);
      PositiveFactor(H, -t);
      SlopeAt(G, H, -p, b, t, x);
    } else {
      assert H * (x - b) == 0.0;
    }
    NegativeSide(G, H, p, b, x, z);
  }

  // ------------------------------------------------------- first-order conditions

  /** The first-order change of the objective when b goes to z. */
  ghost function Tilt(G: real, p: real, b: real, z: real): real {
    G * (z - b) + p * (Abs(z) - Abs(b))
  }

  /** No move inside the box goes downhill, said by cases. */
  ghost predicate Flat(G: real, p: real, b: real, u: Ext) {
    if b == 0.0 then -p <= G <= p
    else if AtMost(u, Fin(b)) then G + p <= 0.0
    else if AtMost(u, Fin(-b)) then G - p >= 0.0
    else if b > 0.0 then G + p == 0.0
    else G - p == 0.0
  }

  lemma FlatTilts(G: real, p: real, b: real, u: Ext, z: real)
    requires Flat(G, p, b, u) && InBox(b, u) && InBox(z, u) && p >= 0.0 && (u.PosInf? || (u.Fin? && u.r > 0.0))
    ensures Tilt(G, p, b, z) >= 0.0
  {
    var e := Abs(z);
    if b == 0.0 {
      var q := Product(p + G, e);
      var r := Product(p - G, e);
      assert (p + G) * e == p * e + G * e && (p - G) * e == p * e - G * e;
      assert G * (z - b) == G * e || G * (z - b) == -(G * e);
    } else if b > 0.0 {
      var q := Product(p, e - z);
      assert p * (e - z) == p * e - p * z;
      if AtMost(u, Fin(b)) { var r := Product(-(G + p), b - z); assert -(G + p) * (b - z) == (G + p) * (z - b); }
      assert G * (z - b) == (G + p) * (z - b) - p * (z - b);
      assert p * (z - b) == p * z - p * b;
    } else {
      var q := Product(p, e + z);
      assert p * (e + z) == p * e + p * z;
      if AtMost(u, Fin(-b)) { var r := Product(G - p, z - b); }
      assert G * (z - b) == (G - p) * (z - b) + p * (z - b);
      assert p * (z - b) == p * z - p * b;
    }
  }

  lemma TiltsFlat(G: real, p: real, b: real, u: Ext)
    requires InBox(b, u) && (u.PosInf? || (u.Fin? && u.r > 0.0))
    requires forall z :: InBox(z, u) ==> Tilt(G, p, b, z) >= 0.0
    ensures Flat(G, p, b, u)
  {
    var up := if u.Fin? then u.r else Abs(b) + 1.0;
    assert InBox(0.0, u) && InBox(up, u) && InBox(-up, u);
    assert Tilt(G, p, b, 0.0) >= 0.0 && Tilt(G, p, b, up) >= 0.0 && Tilt(G, p, b, -up) >= 0.0;
    if b == 0.0 {
      Cancel(G + p, up);
      Cancel(p - G, up);
    } else if b > 0.0 {
      Cancel(-(G + p), b);
      if up > b { Cancel(G + p, up - b); }
    } else {
      Cancel(G - p, -b);
      if -up < b { Cancel(p - G, b + up); }
    }
  }

  lemma Cancel(x: real, y: real)
    requires y > 0.0
    ensures x * y >= 0.0 ==> x >= 0.0
  {
    if x < 0.0 { var p := Product(-x, y); assert -x * y == -(x * y); }
  }

  // ------------------------------------------------ how far from being optimal

  /** The distance of zero from the subdifferential over the box. */
  ghost function Viol(G: real, p: real, b: real, u: Ext): real {
    if b == 0.0 then Max(Max(-(G + p), G - p), 0.0)
    else if AtMost(u, Fin(b)) then Max(G + p, 0.0)
    else if AtMost(u, Fin(-b)) then Max(-(G - p), 0.0)
    else if b > 0.0 then Abs(G + p)
    else Abs(G - p)
  }

  /** The nearest slope for which b would be optimal is that far away. */
  lemma NearestFlat(G: real, p: real, b: real, u: Ext) returns (g: real)
    requires p >= 0.0
    ensures Flat(g, p, b, u) && Abs(G - g) == Viol(G, p, b, u)
  {
    if b == 0.0 {
      g := if G < -p then -p else if G > p then p else G;
    } else if AtMost(u, Fin(b)) {
      g := Min(G, -p);
    } else if AtMost(u, Fin(-b)) {
      g := Max(G, p);
    } else {
      g := if b > 0.0 then -p else p;
    }
  }

  /** No move inside the box gains more than the violation per unit, to first order. */
  lemma TiltAtLeast(G: real, p: real, b: real, u: Ext, z: real, v: real)
    requires InBox(b, u) && InBox(z, u) && p >= 0.0 && (u.PosInf? || (u.Fin? && u.r > 0.0)) && v == Viol(G, p, b, u)
    ensures Tilt(G, p, b, z) >= -(v * Abs(z - b))
  {
    hide Flat, Viol, InBox, LinAlg.Abs;
    var g := NearestFlat(G, p, b, u);
    FlatTilts(g, p, b, u, z);
    TiltShift(G, g, p, b, z, v);
  }

  /** Another slope tilts by at most the difference per unit. */
  lemma TiltShift(G: real, g: real, p: real, b: real, z: real, v: real)
    requires Abs(G - g) <= v
    ensures Tilt(G, p, b, z) >= Tilt(g, p, b, z) - v * Abs(z - b)
  {
    var e, d := z - b, G - g;
    assert G * e == g * e + d * e;
    var q := Product(v - Abs(d), Abs(e));
    assert (v - Abs(d)) * Abs(e) == v * Abs(e) - Abs(d) * Abs(e);
    assert Abs(d) * Abs(e) == d * e || Abs(d) * Abs(e) == -(d * e);
    var r := Product(Abs(d), Abs(e));
  }

  /** A move that pays off at least H times its square is at most the violation over H. */
  lemma MoveSize(G: real, H: real, p: real, b: real, u: Ext, x: real, v: real)
    requires InBox(b, u) && InBox(x, u) && p >= 0.0 && (u.PosInf? || (u.Fin? && u.r > 0.0)) && v == Viol(G, p, b, u)
    requires H >= 0.0 && Tilt(G, p, b, x) + H * ((x - b) * (x - b)) <= 0.0
    ensures H * Abs(x - b) <= v
  {
    hide Viol, InBox, Tilt;
    TiltAtLeast(G, p, b, u, x, v);
    var e := Abs(x - b);
    assert (x - b) * (x - b) == e * e;
    assert H * (e * e) == (H * e) * e;
    assert (v - H * e) * e == v * e - (H * e) * e;
    if e > 0.0 {
      Cancel(v - H * e, e);
    } else {
      ViolNonNeg(G, p, b, u);
    }
  }

  lemma ViolNonNeg(G: real, p: real, b: real, u: Ext)
    ensures Viol(G, p, b, u) >= 0.0
  {
  }
}
