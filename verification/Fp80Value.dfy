/**
 What the conversions of fp80.c do to the number a bit pattern stands for.
 Magnitudes are whole numbers: a double counts units of 2^-1074, an 80-bit
 float units of 2^-16445.
 */
module Fp80Value {
  import opened Fp80

  /** The magnitude of a finite double. */
  ghost function Value64(b: u64): nat {
    if Exp64(b) == 0 then Frac64(b) else (T52 + Frac64(b)) * Pow2(Exp64(b) - 1)
  }

  /** The magnitude of a finite 80-bit float. */
  ghost function Value80(x: Fp80): nat {
    if Exp80(x) == 0 then x.fi else x.fi * Pow2(Exp80(x) - 1)
  }

  predicate Finite64(b: u64) { Exp64(b) != SPECIAL64 }

  /** The exponent the double would need. */
  function Target(x: Fp80): int { Exp80(x) - BIAS80 + BIAS64 }

  /** Units of the second kind in one of the first, as a power of two. */
  const UNITS: nat := 15371

  ghost function Scaled(v: nat): nat { v * Pow2(UNITS) }

  lemma SplitUnits(a: nat, b: nat)
    requires a + b == UNITS
    ensures Pow2(a) * Pow2(b) == Pow2(UNITS)
  {
    hide Pow2;
    Pow2Add(a, b);
  }

  /** fi units of an 80-bit float with target exponent above zero, in units of the last place of that double. */
  lemma NormalUnits(fi: nat, e: nat, v: nat)
    requires e > 0
    ensures fi * Pow2(e + 15359) == fi * (Pow2(e - 1) * Pow2(15360))
    ensures Scaled(v * Pow2(e - 1)) == (T11 * v) * (Pow2(e - 1) * Pow2(15360))
  {
    hide Pow2;
    Pow2Add(e - 1, 15360);
    SplitUnits(11, 15360);
    Pow2Values();
    var p, q := Pow2(e - 1), Pow2(15360);
    assert (v * p) * (T11 * q) == (T11 * v) * (p * q);
  }

  // ---------------------------------------------------------------- fp80_cvfd

  lemma NormalKept(b: u64)
    requires Finite64(b) && Exp64(b) != 0
    ensures Value80(FromDouble(b)) == Scaled(Value64(b))
  {
    hide Pow2, Lead, Scaled;
    var e, f := Exp64(b), Frac64(b);
    var x := FromDouble(b);
    assert Exp80(x) == e + 15360 && x.fi == T11 * (T52 + f);
    NormalUnits(x.fi, e, T52 + f);
  }

  /** Every subnormal double comes out at half its value: the loop counts from the exponent of 0, not of 1. */
  lemma SubnormalHalved(b: u64)
    requires Classify64(b) == Subnormal
    ensures 2 * Value80(FromDouble(b)) == Scaled(Value64(b)) > 0
  {
    hide Pow2, Lead, FromDouble;
    SubnormalImage(b);
    var f, n := Frac64(b), Lead(Frac64(b) * T11);
    SplitUnits(12, 15359);
    Pow2Add(n, 15359 - n);
    Pow2Values();
    HalfOf(f, Pow2(n), Pow2(15359 - n), Pow2(15359));
  }

  lemma HalfOf(f: nat, p: nat, q: nat, u: nat)
    requires p * q == u && f > 0 && u > 0
    ensures 2 * ((f * T11 * p) * q) == f * (2 * T11 * u) > 0
  {
    assert (f * T11 * p) * q == f * T11 * (p * q);
    assert f * u > 0;
  }

  /**
   The header calls fp80_cvfd completely lossless; it keeps the value of a finite double exactly
   when the double is not subnormal.
   */
  lemma ValueKeptIff(b: u64)
    requires Finite64(b)
    ensures Value80(FromDouble(b)) == Scaled(Value64(b)) <==> !(Exp64(b) == 0 && Frac64(b) != 0)
  {
    hide Pow2, Lead, Scaled, Value64, Value80, FromDouble;
    if Exp64(b) != 0 {
      NormalKept(b);
    } else if Frac64(b) == 0 {
      ZeroKept(b);
    } else {
      SubnormalHalved(b);
    }
  }

  lemma ZeroKept(b: u64)
    requires Exp64(b) == 0 && Frac64(b) == 0
    ensures Value80(FromDouble(b)) == 0 == Scaled(Value64(b))
  {
    hide Pow2, Lead;
  }

  // ---------------------------------------------------------------- fp80_cvtd

  /** b is the largest finite double not above x in magnitude: x cut off. */
  ghost predicate Truncation(x: Fp80, b: u64) {
    && Finite64(b) && Neg64(b) == Neg80(x) && Scaled(Value64(b)) <= Value80(x)
    && forall c: u64 :: Finite64(c) && Scaled(Value64(c)) <= Value80(x) ==> Value64(c) <= Value64(b)
  }

  /** The integer bit is set, as in every 80-bit float in normal form; fp80_cvtd does not ask for it. */
  predicate Normalised(x: Fp80) { x.fi >= T63 }

  lemma Cancel(a: nat, b: nat, p: nat)
    requires p > 0 && a * p < b * p
    ensures a < b
  {
    assert a >= b ==> (a - b) * p >= 0;
  }

  lemma Grow(a: nat, b: nat, p: nat)
    requires a <= b
    ensures a * p <= b * p
  {
    assert (b - a) * p >= 0;
  }

  /** There is no double strictly between two neighbours m and m + 1 of one exponent. */
  lemma NoneBetween(c: u64, m: nat, k: nat)
    requires Finite64(c) && T52 <= m && Value64(c) < (m + 1) * Pow2(k)
    ensures Value64(c) <= m * Pow2(k)
  {
    hide Pow2;
    var mc := if Exp64(c) == 0 then Frac64(c) else T52 + Frac64(c);
    var kc := if Exp64(c) == 0 then 0 else Exp64(c) - 1;
    assert Value64(c) == mc * Pow2(kc) by { PowZero(); }
    if kc >= k { NoneBetweenCoarse(mc, kc, m, k); } else { BelowAll(mc, kc, m, k); }
  }

  /** On a coarser grid every value is a multiple of the finer step. */
  lemma NoneBetweenCoarse(mc: nat, kc: nat, m: nat, k: nat)
    requires kc >= k && mc * Pow2(kc) < (m + 1) * Pow2(k)
    ensures mc * Pow2(kc) <= m * Pow2(k)
  {
    hide Pow2;
    var q := Pow2(kc - k);
    Pow2Add(kc - k, k);
    assert mc * (q * Pow2(k)) == (mc * q) * Pow2(k);
    Cancel(mc * q, m + 1, Pow2(k));
    Grow(mc * q, m, Pow2(k));
  }

  /** On a finer grid every double is smaller. */
  lemma BelowAll(mc: nat, kc: nat, m: nat, k: nat)
    requires kc < k && mc < T53 && T52 <= m
    ensures mc * Pow2(kc) <= m * Pow2(k)
  {
    hide Pow2;
    var p, q, r := Pow2(kc), Pow2(kc + 1), Pow2(k);
    Pow2Grows(kc + 1, k);
    Pow2Add(1, kc);
    Pow2Values();
    Grow(mc, T53, p);
    assert T53 * p == T52 * q <= T52 * r;
    Grow(T52, m, r);
  }

  /** In the normal range the result is the value cut off if and only if the integer bit is set. */
  lemma NormalTruncatesIff(x: Fp80)
    requires !IsSpecial(x) && 0 < Target(x) < SPECIAL64
    ensures Truncation(x, ToDouble(x)) <==> Normalised(x)
  {
    hide Truncation;
    if Normalised(x) { NormalTruncates(x); } else { ImplicitBitAdded(x); }
  }

  /** Without it the implicit bit of the double adds to the value. */
  lemma ImplicitBitAdded(x: Fp80)
    requires !IsSpecial(x) && 0 < Target(x) < SPECIAL64 && !Normalised(x)
    ensures Scaled(Value64(ToDouble(x))) > Value80(x) && !Truncation(x, ToDouble(x))
  {
    hide Pow2, Scaled;
    var e, m := Target(x), x.fi / T11;
    var b := ToDouble(x);
    var u := Pow2(e - 1) * Pow2(15360);
    assert Exp64(b) == e && Frac64(b) == m;
    NormalUnits(x.fi, e, T52 + m);
    assert Pow2(e - 1) * Pow2(15360) > 0;
    Above(x.fi, T11 * (T52 + m), u);
  }

  lemma NormalTruncates(x: Fp80)
    requires !IsSpecial(x) && Normalised(x) && 0 < Target(x) < SPECIAL64
    ensures Truncation(x, ToDouble(x))
  {
    hide Pow2, Scaled;
    var e, m := Target(x), x.fi / T11;
    var b := ToDouble(x);
    var u := Pow2(e - 1) * Pow2(15360);
    assert Exp64(b) == e && Frac64(b) == m - T52;
    assert Value64(b) == m * Pow2(e - 1);
    NormalUnits(x.fi, e, m);
    NormalUnits(x.fi, e, m + 1);
    assert Pow2(e - 1) * Pow2(15360) > 0;
    Grow(T11 * m, x.fi, u);
    Above(x.fi, T11 * (m + 1), u);
    forall c: u64 | Finite64(c) && Scaled(Value64(c)) <= Value80(x) ensures Value64(c) <= Value64(b) {
      Unscale(Value64(c), (m + 1) * Pow2(e - 1));
      NoneBetween(c, m, e - 1);
    }
  }

  lemma Above(a: nat, b: nat, p: nat)
    requires a < b && p > 0
    ensures a * p < b * p
  {
    assert (b - a) * p > 0;
  }

  lemma Unscale(v: nat, w: nat)
    requires Scaled(v) < Scaled(w)
    ensures v < w
  {
    hide Pow2;
    Cancel(v, w, Pow2(UNITS));
  }

  /** Below the normal range: the whole units of 2^-1074 in x. */
  ghost function Whole(x: Fp80): nat
    requires Target(x) <= 0
  {
    Quotient(x.fi, Pow2(12 - Target(x)))
  }

  lemma WholeUnits(x: Fp80, v: nat)
    requires !IsSpecial(x) && -64 < Target(x) <= 0
    ensures Scaled(v) <= Value80(x) <==> v <= Whole(x)
  {
    hide Pow2, Quotient;
    var n := 12 - Target(x);
    SplitUnits(n, 15371 - n);
    assert Exp80(x) - 1 == 15371 - n;
    UnitsBelow(x.fi, Pow2(n), Pow2(15371 - n), Whole(x), v, Pow2(UNITS));
  }

  lemma UnitsBelow(f: nat, p: nat, u: nat, w: nat, v: nat, s: nat)
    requires p > 0 && u > 0 && p * w <= f < p * (w + 1) && s == p * u
    ensures v * s <= f * u <==> v <= w
  {
    assert v * (p * u) == (p * v) * u;
    if v <= w {
      Grow(v, w, p);
      Grow(p * v, f, u);
    } else {
      Grow(w + 1, v, p);
      Above(f, p * v, u);
    }
  }

  /** x / (2 q) is half of x / q. */
  lemma HalfQuotient(x: nat, q: nat)
    requires q > 0
    ensures Quotient(x, 2 * q) == Quotient(x, q) / 2
  {
    hide Quotient;
    HalfBounds(x, q, Quotient(x, q), Quotient(x, 2 * q));
  }

  lemma HalfBounds(x: nat, q: nat, a: nat, b: nat)
    requires q > 0 && q * a <= x < q * (a + 1) && (2 * q) * b <= x < (2 * q) * (b + 1)
    ensures b == a / 2
  {
    assert (2 * q) * b == (2 * b) * q && (2 * q) * (b + 1) == (2 * b + 2) * q;
    assert q * a == a * q && q * (a + 1) == (a + 1) * q;
    Cancel(2 * b, a + 1, q);
    Cancel(a, 2 * b + 2, q);
  }

  lemma QuotientTwice(x: nat, q: nat)
    requires q > 0
    ensures Quotient(x, T11 * q) == Quotient(x / T11, q)
  {
    hide Quotient;
    TwiceBounds(x, q, Quotient(x / T11, q), Quotient(x, T11 * q));
  }

  lemma TwiceBounds(x: nat, q: nat, a: nat, b: nat)
    requires q > 0 && q * a <= x / T11 < q * (a + 1) && (T11 * q) * b <= x < (T11 * q) * (b + 1)
    ensures a == b
  {
    var u, v := b * q, (b + 1) * q;
    assert (T11 * q) * b == T11 * u && (T11 * q) * (b + 1) == T11 * v;
    assert u <= x / T11 < v;
    assert q * a == a * q && q * (a + 1) == (a + 1) * q;
    Cancel(b, a + 1, q);
    Cancel(a, b + 1, q);
  }

  lemma WholeIs(x: Fp80)
    requires Target(x) <= 0
    ensures Whole(x) == Shifted(x.fi / T11, -Target(x)) / 2 < T52
  {
    hide Pow2, Quotient;
    var n := -Target(x);
    var q := Pow2(n);
    Pow2Add(12, n);
    Pow2Values();
    assert Pow2(12 + n) == T11 * (2 * q);
    QuotientTwice(x.fi, 2 * q);
    HalfQuotient(x.fi / T11, q);
    assert x.fi / T11 < T53;
  }

  /** Only an unshifted significand reaches the implicit bit. */
  lemma ShiftedRange(m: nat, n: nat)
    requires m < T53
    ensures Shifted(m, n) >= T52 ==> n == 0
    ensures n == 0 ==> Shifted(m, n) == m
    ensures Shifted(m, n) == 0 <==> m < Pow2(n)
  {
    hide Pow2, Quotient;
    Pow2Values();
    PowZero();
    var p, q := Pow2(n), Quotient(m, Pow2(n));
    if n > 0 {
      Pow2Grows(1, n);
      Grow(2, p, q);
    }
    if q >= 1 { Times(p, q); }
  }

  /**
   Below the normal range the cut-off value comes out only when nothing is left of it, or in the one
   pattern of 53 ones.
   */
  lemma SmallTruncatesIff(x: Fp80)
    requires !IsSpecial(x) && -64 < Target(x) <= 0
    ensures Truncation(x, ToDouble(x)) <==>
      x.fi / T11 < Pow2(-Target(x)) || (Target(x) == 0 && x.fi / T11 == T53 - 1)
  {
    hide Pow2, Scaled, Whole, Shifted, Value80;
    var b, m, n := ToDouble(x), x.fi / T11, -Target(x);
    var y := Shifted(m, n);
    assert Exp64(b) == 0 && Value64(b) == y % T52;
    ShiftedRange(m, n);
    WholeIs(x);
    var w := Whole(x);
    WholeUnits(x, Value64(b));
    WholeDouble(x, w);
    if Value64(b) == w {
      forall c: u64 | Finite64(c) && Scaled(Value64(c)) <= Value80(x) ensures Value64(c) <= w {
        WholeUnits(x, Value64(c));
      }
    }
  }

  /** A double that holds exactly the whole units. */
  lemma WholeDouble(x: Fp80, w: nat)
    requires !IsSpecial(x) && -64 < Target(x) <= 0 && w == Whole(x) < T52
    ensures w < T64 && Finite64(w) && Value64(w) == w && Scaled(Value64(w)) <= Value80(x)
  {
    hide Pow2, Scaled, Whole, Value80;
    assert Exp64(w) == 0 && Frac64(w) == w;
    WholeUnits(x, w);
  }

  /**
   The header promises that fp80_cvtd always truncates.  For every value that is
   neither special nor overflows, and for which the shift is defined, it does so
   exactly in three cases: in the normal range when the integer bit is set, below it
   when nothing is left after the shift, and for one pattern of 53 ones just below it.
   */
  lemma TruncatesIff(x: Fp80)
    requires !IsSpecial(x) && -64 < Target(x) < SPECIAL64
    ensures Truncation(x, ToDouble(x)) <==>
      || (Target(x) > 0 && Normalised(x))
      || (Target(x) <= 0 && x.fi / T11 < Pow2(-Target(x)))
      || (Target(x) == 0 && x.fi / T11 == T53 - 1)
  {
    hide ToDouble, Truncation, Pow2;
    if Target(x) > 0 { NormalTruncatesIff(x); } else { SmallTruncatesIff(x); }
  }

  // ---------------------------------------------------------------- overflow

  const HUGE64: nat := 0x7fef_ffff_ffff_ffff

  lemma HugeIs()
    ensures Exp64(HUGE64) == 2046 && Frac64(HUGE64) == T52 - 1 && Finite64(HUGE64)
    ensures Value64(HUGE64) == (T53 - 1) * Pow2(2045)
  {
    hide Pow2;
  }

  /** No finite double is larger. */
  lemma HugeIsLargest(c: u64)
    requires Finite64(c)
    ensures Value64(c) <= Value64(HUGE64)
  {
    hide Pow2;
    HugeIs();
    var e := if Exp64(c) == 0 then 1 else Exp64(c);
    PowZero();
    assert Value64(c) <= (T52 + Frac64(c)) * Pow2(e - 1);
    Grow(T52 + Frac64(c), T53 - 1, Pow2(e - 1));
    Pow2Grows(e - 1, 2045);
    Grow(Pow2(e - 1), Pow2(2045), T53 - 1);
    assert (T53 - 1) * Pow2(e - 1) == Pow2(e - 1) * (T53 - 1) && (T53 - 1) * Pow2(2045) == Pow2(2045) * (T53 - 1);
  }

  /** fi units at target exponent e >= 2047, against the largest double. */
  lemma OverflowUnits(fi: nat, e: nat)
    requires e >= SPECIAL64
    ensures var u := Pow2(2045) * Pow2(15360);
            && fi * Pow2(e + 15359) == (2 * (fi * Pow2(e - SPECIAL64))) * u
            && Scaled((T53 - 1) * Pow2(2045)) == (T11 * (T53 - 1)) * u
  {
    hide Pow2;
    NormalUnits(fi, 2046, T53 - 1);
    var k := e - SPECIAL64;
    Pow2Add(k, 2046 + 15360);
    Pow2Add(2046, 15360);
    Pow2Add(1, 2045);
    Pow2Values();
    assert e + 15359 == k + (2046 + 15360);
    var p, a, b := Pow2(k), Pow2(2045), Pow2(15360);
    assert fi * (p * ((2 * a) * b)) == (2 * (fi * p)) * (a * b);
  }

  /**
   From the threshold on the result is the infinity of the same sign.  The value
   really exceeds every finite double exactly when fi, moved up to the threshold, is
   above 2^10 (2^53 - 1).
   */
  lemma OverflowIff(x: Fp80)
    requires !IsSpecial(x) && Target(x) >= SPECIAL64
    ensures Classify64(ToDouble(x)) == Infinite && Neg64(ToDouble(x)) == Neg80(x)
    ensures (forall c: u64 :: Finite64(c) ==> Scaled(Value64(c)) < Value80(x)) <==>
            x.fi * Pow2(Target(x) - SPECIAL64) > 0x400 * (T53 - 1)
  {
    hide Pow2, Scaled, Value64;
    HugeIs();
    var e, f := Target(x), x.fi * Pow2(Target(x) - SPECIAL64);
    OverflowUnits(x.fi, e);
    var u := Pow2(2045) * Pow2(15360);
    assert Pow2(2045) * Pow2(15360) > 0;
    assert Value80(x) == (2 * f) * u && Scaled(Value64(HUGE64)) == (T11 * (T53 - 1)) * u;
    if f > 0x400 * (T53 - 1) {
      Above(T11 * (T53 - 1), 2 * f, u);
      forall c: u64 | Finite64(c) ensures Scaled(Value64(c)) < Value80(x) {
        HugeIsLargest(c);
        ScaledGrows(Value64(c), Value64(HUGE64));
      }
    } else {
      Grow(2 * f, T11 * (T53 - 1), u);
    }
  }

  lemma ScaledGrows(v: nat, w: nat)
    requires v <= w
    ensures Scaled(v) <= Scaled(w)
  {
    hide Pow2;
    Grow(v, w, Pow2(UNITS));
  }
}
