/**
 Rounding and alignment as libelf does them: roundup() of sys/param.h on 64-bit
 unsigned values, and powers of two.
 */
module ElfRound {
  /** 2^64 and 2^63: size_t and uint64_t wrap at the first, off_t is negative from the second on. */
  const W: int := 0x1_0000_0000_0000_0000
  const HALF: int := 0x8000_0000_0000_0000

  type u64 = x: int | 0 <= x < 0x1_0000_0000_0000_0000

  /** A 64-bit word as the off_t that holds it. */
  function Signed(x: u64): int {
    if x < 0x8000_0000_0000_0000 then x else x - 0x1_0000_0000_0000_0000
  }

  /** The mathematical round-up. */
  function RoundUp(x: nat, a: nat): (r: nat)
    requires a > 0
    ensures x <= r < x + a && r % a == 0
  {
    RoundUpFacts(x, a);
    (x + (a - 1)) / a * a
  }

  lemma RoundUpFacts(x: nat, a: nat)
    requires a > 0
    ensures var r := (x + (a - 1)) / a * a; x <= r < x + a && r % a == 0
  {
    var y := x + (a - 1);
    var q := y / a;
    assert y == a * q + y % a;
    assert q * a == a * q;
    MultipleMod(a, q);
  }

  lemma MultipleMod(a: nat, q: nat)
    requires a > 0
    ensures (q * a) % a == 0
  {
    var r := (q * a) % a;
    var d := (q * a) / a;
    assert q * a == a * d + r;
    assert r == a * (q - d);
    if q - d >= 1 { Scaled(a, q - d); }
    if q - d <= -1 { Scaled(a, d - q); }
  }

  lemma Scaled(a: nat, k: nat)
    requires k >= 1
    ensures a * k >= a
  {
    assert a * k == a * (k - 1) + a;
  }

  /** The same with 64-bit wrap-around at every operation, as the machine computes it. */
  function RoundUpW(x: u64, a: u64): u64
    requires a > 0
  {
    ((x + (a - 1)) % W) / a * a % W
  }

  lemma SmallMod(y: int)
    requires 0 <= y < W
    ensures y % W == y
  {
  }

  /** No wrap-around happens as long as the result stays below 2^63. */
  lemma RoundUpExact(x: u64, a: u64)
    requires a > 0 && RoundUp(x, a) < HALF
    ensures RoundUpW(x, a) == RoundUp(x, a)
  {
    if x > 0 {
      RoundUpAtLeast(x, a);
    }
    SmallMod(x + (a - 1));
    SmallMod(RoundUp(x, a));
  }

  lemma RoundUpAtLeast(x: nat, a: nat)
    requires a > 0 && x > 0
    ensures RoundUp(x, a) >= a
  {
    var q := (x + (a - 1)) / a;
    assert x + (a - 1) == a * q + (x + (a - 1)) % a;
    Scaled(a, q);
  }

  /** What the bit test on an alignment accepts: a non-zero word with a single bit set. */
  predicate IsPow2(a: nat) {
    a == 1 || (a > 1 && a % 2 == 0 && IsPow2(a / 2))
  }

  /** The smaller of two powers of two divides the larger. */
  lemma {:induction false} Pow2Divides(a: nat, b: nat)
    requires IsPow2(a) && IsPow2(b) && a <= b
    ensures b % a == 0
    decreases a
  {
    if a > 1 {
      Pow2Divides(a / 2, b / 2);
      var h, g := a / 2, b / 2;
      var q := g / h;
      assert g == h * q;
      assert b == q * a by { assert b == 2 * g; assert 2 * (h * q) == q * (2 * h); }
      MultipleMod(a, q);
    }
  }

  /** Multiples of a multiple are multiples. */
  lemma DividesThrough(x: nat, b: nat, a: nat)
    requires a > 0 && b > 0 && x % b == 0 && b % a == 0
    ensures x % a == 0
  {
    var q, p := x / b, b / a;
    assert x == b * q && b == a * p;
    assert x == (q * p) * a by { assert b * q == (a * p) * q; assert (a * p) * q == (q * p) * a; }
    MultipleMod(a, q * p);
  }

  lemma SumOfMultiples(x: nat, y: nat, a: nat)
    requires a > 0 && x % a == 0 && y % a == 0
    ensures (x + y) % a == 0
  {
    var p, q := x / a, y / a;
    assert x == a * p && y == a * q;
    assert x + y == (p + q) * a;
    MultipleMod(a, p + q);
  }
}
