/**
 Conversion between 80-bit extended and 64-bit double floats (fputils: fp80.c,
 fpbits.h), bit for bit.  Words are naturals: a mask of low bits is a remainder,
 a right shift a division by a power of two, a left shift of a word a product
 reduced modulo 2^64.
 */
module Fp80 {
  const T11: nat := 0x800
  const T15: nat := 0x8000
  const T51: nat := 0x8_0000_0000_0000
  const T52: nat := 0x10_0000_0000_0000
  const T53: nat := 0x20_0000_0000_0000
  const T62: nat := 0x4000_0000_0000_0000
  const T63: nat := 0x8000_0000_0000_0000
  const T64: nat := 0x1_0000_0000_0000_0000

  type u16 = x: int | 0 <= x < 0x10000
  type u64 = x: int | 0 <= x < 0x1_0000_0000_0000_0000

  const BIAS80: nat := 0x3fff
  const BIAS64: nat := 0x3ff
  const SPECIAL80: nat := 0x7fff
  const SPECIAL64: nat := 0x7ff

  const SNAN64: nat := 0x7_ffff_ffff_ffff
  const QNAN64: nat := 0xf_ffff_ffff_ffff
  const QNANI64: nat := 0x8_0000_0000_0000

  // ------------------------------------------------------------- bit fields

  /** se: sign and exponent; fi: integer bit and fraction. */
  datatype Fp80 = Fp80(se: u16, fi: u64)

  function Neg80(x: Fp80): bool { x.se >= T15 }
  function Exp80(x: Fp80): nat { x.se % T15 }
  function Frac80(x: Fp80): nat { x.fi % T63 }

  function Neg64(b: u64): bool { b >= T63 }
  function Exp64(b: u64): nat { (b % T63) / T52 }
  function Frac64(b: u64): nat { b % T52 }

  /** BUILD_FP80: the integer bit is set exactly when the exponent is not zero. */
  function Build80(neg: bool, frac: u64, exp: nat): Fp80 {
    Fp80((if neg then T15 else 0) + exp % T15, (if exp != 0 then T63 else 0) + frac % T63)
  }

  /** BUILD_FP64 */
  function Build64(neg: bool, frac: u64, exp: nat): (b: u64)
    requires exp <= SPECIAL64
    ensures Neg64(b) == neg && Exp64(b) == exp && Frac64(b) == frac % T52
  {
    (if neg then T63 else 0) + exp * T52 + frac % T52
  }

  /** A double is its three fields. */
  lemma Fields64(b: u64)
    ensures Exp64(b) <= SPECIAL64 && Frac64(b) < T52
    ensures b == (if Neg64(b) then T63 else 0) + Exp64(b) * T52 + Frac64(b)
  {
  }

  // ---------------------------------------------------------- classification

  function Sgn(x: Fp80): int { if Neg80(x) then -1 else 1 }
  predicate IsSpecial(x: Fp80) { Exp80(x) == SPECIAL80 }
  function IsInf(x: Fp80): int { if IsSpecial(x) && Frac80(x) == 0 then Sgn(x) else 0 }
  predicate IsQnan(x: Fp80) { IsSpecial(x) && Frac80(x) / T62 % 2 == 1 }
  predicate IsQnani(x: Fp80) { IsQnan(x) && Neg80(x) && x.fi % T62 == 0 }
  predicate IsSnan(x: Fp80) { IsSpecial(x) && Frac80(x) / T62 % 2 == 0 && Frac80(x) != 0 }
  function IsNan(x: Fp80): int { if IsSnan(x) || IsQnan(x) then Sgn(x) else 0 }
  predicate IsFinite(x: Fp80) { IsNan(x) == 0 && IsInf(x) == 0 }
  function IsZero(x: Fp80): int { if x.fi == 0 && Exp80(x) == 0 then Sgn(x) else 0 }
  function IsNormal(x: Fp80): int { if Exp80(x) != 0 && !IsSpecial(x) then Sgn(x) else 0 }
  function IsSubnormal(x: Fp80): int { if Frac80(x) != 0 && Exp80(x) == 0 then Sgn(x) else 0 }

  datatype Class = Subnormal | Zero | Infinite | Nan | Normal

  function Classify(x: Fp80): Class {
    if IsSubnormal(x) != 0 then Subnormal
    else if IsZero(x) != 0 then Zero
    else if IsInf(x) != 0 then Infinite
    else if IsNan(x) != 0 then Nan
    else assert IsFinite(x); Normal
  }

  /** Each predicate answers for its own class only. */
  ghost predicate Consistent(x: Fp80) {
    && (IsSubnormal(x) != 0 <==> Classify(x) == Subnormal)
    && (IsZero(x) != 0 <==> Classify(x) == Zero)
    && (IsInf(x) != 0 <==> Classify(x) == Infinite)
    && (IsNan(x) != 0 <==> Classify(x) == Nan)
    && (IsNormal(x) != 0 <==> Classify(x) == Normal)
  }

  /**
   They do so on every pattern but one: the integer bit alone, with a zero exponent, is normal to
   one and to none of the others.
   */
  lemma ConsistentIff(x: Fp80)
    ensures Consistent(x) <==> !(Exp80(x) == 0 && x.fi == T63)
  {
  }

  /** fpclassify on a double. */
  function Classify64(b: u64): Class {
    if Exp64(b) == SPECIAL64 then (if Frac64(b) == 0 then Infinite else Nan)
    else if Exp64(b) == 0 then (if Frac64(b) == 0 then Zero else Subnormal)
    else Normal
  }

  predicate Quiet64(b: u64) { Classify64(b) == Nan && Frac64(b) >= T51 }
  predicate Signalling64(b: u64) { Classify64(b) == Nan && Frac64(b) < T51 }

  // ------------------------------------------------------------ powers of two

  function Pow2(n: nat): (r: nat)
    ensures r > 0
  {
    if n == 0 then 1 else 2 * Pow2(n - 1)
  }

  lemma {:induction false} Pow2Add(m: nat, n: nat)
    ensures Pow2(m + n) == Pow2(m) * Pow2(n)
  {
    if m > 0 {
      Pow2Add(m - 1, n);
      Doubled(Pow2(m - 1), Pow2(n), Pow2(m));
    }
  }

  lemma Doubled(p: nat, q: nat, r: nat)
    requires r == 2 * p
    ensures r * q == 2 * (p * q)
  {
  }

  lemma {:induction false} Pow2Grows(m: nat, n: nat)
    requires m <= n
    ensures Pow2(m) <= Pow2(n)
  {
    if m < n { Pow2Grows(m, n - 1); }
  }

  lemma Pow2Values()
    ensures Pow2(1) == 2 && Pow2(11) == T11 && Pow2(12) == 2 * T11 && Pow2(52) == T52 && Pow2(53) == T53
  {
    Pow2Small();
    hide Pow2;
    Pow2Add(11, 1);
    Pow2Add(11, 11);
    Pow2Add(22, 22);
    Pow2Add(44, 8);
    Pow2Add(52, 1);
  }

  lemma Pow2Small()
    ensures Pow2(1) == 2 && Pow2(8) == 256 && Pow2(11) == T11
  {
    assert Pow2(4) == 16;
    assert Pow2(8) == 256;
  }

  lemma DivideMultiple(x: nat, p: nat)
    requires p > 0
    ensures (x * p) / p == x
  {
    var q := (x * p) / p;
    assert x * p == p * q + (x * p) % p;
    assert p * (x - q) == x * p - p * q;
    assert p * (q - x) == p * q - x * p;
    if x - q >= 1 { Times(p, x - q); }
    if q - x >= 1 { Times(p, q - x); }
  }

  lemma Times(p: nat, k: nat)
    requires k >= 1
    ensures p * k >= p
  {
    assert p * k == p * (k - 1) + p;
  }

  // ------------------------------------------------------------- fp80_cvfd

  /** How far the integer bit is away: the iterations of the normalising loop. */
  function Lead(fi: nat): (n: nat)
    requires 0 < fi < T64
    decreases T64 - fi
  {
    if fi >= T63 then 0 else 1 + Lead(2 * fi)
  }

  lemma {:induction false} LeadShifts(fi: nat)
    requires 0 < fi < T64
    ensures T63 <= fi * Pow2(Lead(fi)) < T64
    decreases T64 - fi
  {
    if fi < T63 {
      LeadShifts(2 * fi);
      Halves(fi, Pow2(Lead(2 * fi)), Pow2(Lead(fi)));
    } else {
      assert Pow2(Lead(fi)) == 1;
    }
  }

  lemma Halves(f: nat, p: nat, q: nat)
    requires q == 2 * p
    ensures f * q == (2 * f) * p
  {
  }

  /** A subnormal fraction f is shifted by 1 to 52 places. */
  lemma LeadRange(f: nat)
    requires 0 < f < T52
    ensures 1 <= Lead(f * T11) <= 52
  {
    hide Pow2;
    LeadShifts(f * T11);
    Pow2Values();
    var n := Lead(f * T11);
    if n >= 53 {
      Pow2Grows(53, n);
      Enough(f * T11, Pow2(n));
    }
  }

  lemma Enough(x: nat, p: nat)
    requires x >= T11 && p >= T53
    ensures x * p >= T64
  {
    assert x * p >= T11 * p by { assert (x - T11) * p >= 0; }
  }

  lemma PowZero()
    ensures Pow2(0) == 1
  {
  }

  lemma TopBitClear(fi: u64, m: nat, shift: nat)
    requires 0 < fi && fi / T63 % 2 == 0 && fi == m * Pow2(shift)
    ensures 0 < 2 * fi < T64 && 2 * fi == m * Pow2(shift + 1) && Lead(fi) == 1 + Lead(2 * fi)
  {
    Halves(m, Pow2(shift), Pow2(shift + 1));
    assert (2 * m) * Pow2(shift) == 2 * (m * Pow2(shift));
  }

  lemma TopBitSet(fi: u64)
    requires 0 < fi && fi / T63 % 2 != 0
    ensures fi >= T63 && Lead(fi) == 0
  {
  }

  /** The normalising loop. */
  method Normalise(f: nat) returns (fi: u64, shift: nat)
    requires 0 < f < T52
    ensures shift == Lead(f * T11) && 1 <= shift <= 52
    ensures fi == f * T11 * Pow2(shift) && fi >= T63
  {
    hide Pow2, Lead;
    ghost var m := f * T11;
    LeadRange(f);
    fi, shift := f * T11, 0;
    PowZero();
    while fi / T63 % 2 == 0
      invariant 0 < fi && fi == m * Pow2(shift)
      invariant shift + Lead(fi) == Lead(m)
      decreases T64 - fi
    {
      TopBitClear(fi, m, shift);
      fi := (2 * fi) % T64;
      shift := shift + 1;
    }
    TopBitSet(fi);
  }

  /** fp80_cvfd as a function of the bits. */
  function FromDouble(b: u64): Fp80 {
    var frac, exp, neg := Frac64(b), Exp64(b), Neg64(b);
    if exp != 0 then
      Build80(neg, frac * T11, if exp == SPECIAL64 then SPECIAL80 else exp - BIAS64 + BIAS80)
    else if frac == 0 then
      Build80(neg, 0, 0)
    else
      var n := Lead(frac * T11);
      LeadRange(frac);
      LeadShifts(frac * T11);
      Build80(neg, frac * T11 * Pow2(n), 0 - BIAS64 - n + BIAS80)
  }

  method CvFd(b: u64) returns (x: Fp80)
    ensures x == FromDouble(b)
  {
    var frac, exp := Frac64(b), Exp64(b);
    var unbiased := exp - BIAS64;
    if exp != 0 {
      var e := if exp == SPECIAL64 then SPECIAL80 else unbiased + BIAS80;
      x := Build80(Neg64(b), frac * T11, e);
    } else if frac == 0 {
      x := Build80(Neg64(b), 0, 0);
    } else {
      var fi, shift := Normalise(frac);
      x := Build80(Neg64(b), fi, unbiased - shift + BIAS80);
    }
  }

  // ------------------------------------------------------------- fp80_cvtd

  /** fp80_cvtd as a function of the bits. */
  function ToDouble(x: Fp80): u64 {
    if !IsSpecial(x) then
      var exp := Exp80(x) - BIAS80 + BIAS64;
      if 0 < exp < SPECIAL64 then Build64(Neg80(x), x.fi / T11, exp)
      else if exp <= 0 then Build64(Neg80(x), Shifted(x.fi / T11, -exp), 0)
      else Build64(Neg80(x), 0, SPECIAL64)
    else if IsInf(x) != 0 then Build64(Neg80(x), 0, SPECIAL64)
    else if IsSnan(x) then Build64(Sgn(x) <= 0, SNAN64, SPECIAL64)
    else if IsQnani(x) then Build64(true, QNANI64, SPECIAL64)
    else assert IsQnan(x); Build64(Sgn(x) <= 0, QNAN64, SPECIAL64)
  }

  /** Right shift. */
  function Shifted(x: nat, n: nat): (r: nat)
    ensures r <= x
  {
    Quotient(x, Pow2(n))
  }

  function Quotient(x: nat, p: nat): (q: nat)
    requires p > 0
    ensures q <= x && p * q <= x < p * q + p
  {
    QuotientFits(x, p, x / p, x % p);
    x / p
  }

  lemma QuotientFits(x: nat, p: nat, q: int, r: nat)
    requires p > 0 && x == p * q + r && r < p
    ensures 0 <= q <= x
  {
    assert p * q == (p - 1) * q + q;
    assert q >= 0 ==> (p - 1) * q >= 0;
  }

  // -------------------------------------------------------------- round trips

  /**
   The double that fp80_cvtd makes of a NaN: one bit pattern for each kind and sign, and one more
   for the indefinite.
   */
  function CanonicalNan(b: u64): u64 {
    if Signalling64(b) then Build64(Neg64(b), SNAN64, SPECIAL64)
    else if Neg64(b) && Frac64(b) == QNANI64 then Build64(true, QNANI64, SPECIAL64)
    else Build64(Neg64(b), QNAN64, SPECIAL64)
  }

  lemma NormalRoundTrip(b: u64)
    requires Exp64(b) != 0 && Exp64(b) != SPECIAL64
    ensures ToDouble(FromDouble(b)) == b
  {
    hide Lead, Shifted;
    Fields64(b);
    var x := FromDouble(b);
    assert Exp80(x) == Exp64(b) - BIAS64 + BIAS80;
    assert x.fi == T63 + Frac64(b) * T11;
    assert x.fi / T11 == T52 + Frac64(b);
  }

  lemma ZeroRoundTrip(b: u64)
    requires Exp64(b) == 0 && Frac64(b) == 0
    ensures ToDouble(FromDouble(b)) == b
  {
    hide Lead, Shifted;
    Fields64(b);
    var x := FromDouble(b);
    assert x.fi == 0 && Exp80(x) == 0 && Neg80(x) == Neg64(b);
    assert x.fi / T11 == 0;
  }

  lemma SubnormalImage(b: u64)
    requires Exp64(b) == 0 && Frac64(b) != 0
    ensures var x, n := FromDouble(b), Lead(Frac64(b) * T11);
            1 <= n <= 52 && Neg80(x) == Neg64(b) && Exp80(x) == BIAS80 - BIAS64 - n
              && x.fi == Frac64(b) * T11 * Pow2(n) && x.fi >= T63
  {
    hide Pow2, Lead;
    LeadRange(Frac64(b));
    LeadShifts(Frac64(b) * T11);
  }

  lemma SubnormalRoundTrip(b: u64)
    requires Exp64(b) == 0 && Frac64(b) != 0
    ensures ToDouble(FromDouble(b)) == b
  {
    hide Pow2, Lead, FromDouble;
    Fields64(b);
    SubnormalImage(b);
    var f, x, n := Frac64(b), FromDouble(b), Lead(Frac64(b) * T11);
    ShiftBack(f, Pow2(n));
    DivideMultiple(f, Pow2(n));
    assert Shifted(x.fi / T11, n) == f;
  }

  lemma ShiftBack(f: nat, p: nat)
    ensures (f * T11 * p) / T11 == f * p
  {
    assert f * T11 * p == (f * p) * T11;
  }

  lemma SpecialImage(b: u64)
    requires Exp64(b) == SPECIAL64
    ensures var x := FromDouble(b);
            && Neg80(x) == Neg64(b) && Exp80(x) == SPECIAL80 && x.fi == T63 + Frac64(b) * T11
            && Frac80(x) == Frac64(b) * T11
            && (Frac80(x) / T62 % 2 == 1 <==> Frac64(b) >= T51)
            && (x.fi % T62 == 0 <==> Frac64(b) % T51 == 0)
  {
    hide Pow2, Lead;
    var x, f := FromDouble(b), Frac64(b);
    assert x.fi == T63 + f * T11;
    if f >= T51 { assert f * T11 / T62 == 1; } else { assert f * T11 / T62 == 0; }
  }

  lemma SpecialRoundTrip(b: u64)
    requires Exp64(b) == SPECIAL64
    ensures ToDouble(FromDouble(b)) == if Frac64(b) == 0 then b else CanonicalNan(b)
  {
    hide FromDouble, Shifted;
    Fields64(b);
    SpecialImage(b);
  }

  /** What one round trip does to every double. */
  lemma RoundTripIs(b: u64)
    ensures ToDouble(FromDouble(b)) == if Classify64(b) == Nan then CanonicalNan(b) else b
  {
    hide FromDouble, ToDouble, CanonicalNan;
    if Exp64(b) == SPECIAL64 { SpecialRoundTrip(b); }
    else if Exp64(b) != 0 { NormalRoundTrip(b); }
    else if Frac64(b) == 0 { ZeroRoundTrip(b); }
    else { SubnormalRoundTrip(b); }
  }

  /** Bit for bit the same: every non-NaN, and of the NaNs exactly the five patterns the library itself uses. */
  lemma NanBecomes(b: u64)
    requires Classify64(b) == Nan
    ensures ToDouble(FromDouble(b)) ==
              if Signalling64(b) then (if Neg64(b) then 0xfff7_ffff_ffff_ffff else 0x7ff7_ffff_ffff_ffff)
              else if b == 0xfff8_0000_0000_0000 then b
              else if Neg64(b) then 0xffff_ffff_ffff_ffff else 0x7fff_ffff_ffff_ffff
  {
    hide FromDouble, ToDouble;
    Fields64(b);
    RoundTripIs(b);
  }

  /** Any other 80-bit NaN keeps its sign too, and is quiet in the same way. */
  lemma NanTo64(x: Fp80)
    requires x.se % 0x8000 == 0x7fff && x.fi % 0x8000_0000_0000_0000 != 0
    ensures var r := ToDouble(x);
            && Classify64(r) == Nan && (Neg64(r) <==> x.se >= 0x8000)
            && (Quiet64(r) <==> x.fi / 0x4000_0000_0000_0000 % 2 == 1)
  {
    hide Shifted;
  }

  lemma RoundTripIff(b: u64)
    ensures ToDouble(FromDouble(b)) == b <==>
      (Classify64(b) == Nan ==> Frac64(b) == SNAN64 || Frac64(b) == QNAN64 || (Neg64(b) && Frac64(b) == QNANI64))
  {
    hide FromDouble, ToDouble;
    Fields64(b);
    RoundTripIs(b);
  }

  /** A NaN stays a NaN of the same sign and kind, and a second trip changes nothing. */
  lemma NanKept(b: u64)
    requires Classify64(b) == Nan
    ensures var r := ToDouble(FromDouble(b));
            && Classify64(r) == Nan && Neg64(r) == Neg64(b)
            && (Quiet64(r) <==> Quiet64(b)) && (Signalling64(r) <==> Signalling64(b))
            && ToDouble(FromDouble(r)) == r
  {
    hide FromDouble, ToDouble;
    RoundTripIs(b);
    RoundTripIs(ToDouble(FromDouble(b)));
  }

  /** fp80_cvfd keeps sign and class, except that subnormals become normals; all predicates agree on the result. */
  lemma ClassKept(b: u64)
    ensures var x := FromDouble(b);
            && Consistent(x) && Sgn(x) == (if Neg64(b) then -1 else 1)
            && Classify(x) == (if Classify64(b) == Subnormal then Normal else Classify64(b))
            && (IsQnan(x) <==> Quiet64(b)) && (IsSnan(x) <==> Signalling64(b))
  {
    hide Pow2, Lead, Consistent;
    var x := FromDouble(b);
    ConsistentIff(x);
    if Exp64(b) == SPECIAL64 { SpecialImage(b); }
    else if Exp64(b) == 0 && Frac64(b) != 0 { SubnormalImage(b); }
    else { assert Exp80(x) == if Exp64(b) == 0 then 0 else Exp64(b) - BIAS64 + BIAS80; }
  }
}
