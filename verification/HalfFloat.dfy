/** Conversion between IEEE 754 binary16 and wider formats
    (src/utils/ieeehalfprecision.c). Bit patterns are naturals; magnitudes are compared
    as integers, in units fine enough for both sides. */
module HalfFloat {
  import opened Bits

  // ---------------------------------------------------------------------
  // binary16 and rounding to it

  /** The pattern of infinity, without its sign. */
  const INF := 0x7C00

  /** The magnitude of a pattern (without sign) in units of 2^-24. Infinity stands where
      the next number would be, at 65536. */
  function HalfUnits(m: nat): nat {
    if m < 0x400 then m else (0x400 + m % 0x400) * Pow2(m / 0x400 - 1)
  }

  function Gap(m: nat): (g: nat)
    ensures g > 0
  {
    if m < 0x400 then 1 else Pow2(m / 0x400 - 1)
  }

  lemma HalfUnitsStep(m: nat)
    ensures HalfUnits(m + 1) == HalfUnits(m) + Gap(m)
  {
    if m == 0x3FF {
      assert Pow2(0) == 1;
    } else if m >= 0x400 {
      var q, r := m / 0x400, m % 0x400;
      if r < 0x3FF {
        assert (m + 1) / 0x400 == q && (m + 1) % 0x400 == r + 1;
        AddOne(0x400 + r, Pow2(q - 1));
      } else {
        assert (m + 1) / 0x400 == q + 1 && (m + 1) % 0x400 == 0;
        Pow2Step(q);
      }
    }
  }

  lemma AddOne(a: int, p: int)
    ensures (a + 1) * p == a * p + p
  {}

  lemma {:induction false} HalfUnitsMono(a: nat, b: nat)
    requires a <= b
    ensures HalfUnits(a) <= HalfUnits(b) && (a < b ==> HalfUnits(a) < HalfUnits(b))
    decreases b
  {
    hide HalfUnits, Gap;
    if a < b {
      HalfUnitsMono(a, b - 1);
      HalfUnitsStep(b - 1);
    }
  }

  /** `r` is `v` rounded to binary16, where 2^-24 is `k` units of `v`: `v` is not below the
      middle between `r` and the number before it, and below the middle between `r` and
      the next number. */
  predicate Rounds(v: nat, k: nat, r: nat) {
    && r <= INF
    && (r > 0 ==> (HalfUnits(r - 1) + HalfUnits(r)) * k <= 2 * v)
    && (r < INF ==> 2 * v < (HalfUnits(r) + HalfUnits(r + 1)) * k)
  }

  function Distance(v: nat, k: nat, m: nat): nat {
    var h := HalfUnits(m) * k;
    if v <= h then h - v else v - h
  }

  /** No other number is nearer, and a number as near is smaller: roundTiesToAway of
      IEEE 754-2008 section 4.3.1. */
  lemma RoundsIsNearest(v: nat, k: nat, r: nat, other: nat)
    requires Rounds(v, k, r) && other <= INF && other != r && k > 0
    ensures Distance(v, k, r) < Distance(v, k, other) || (Distance(v, k, r) == Distance(v, k, other) && other < r)
  {
    hide HalfUnits;
    if other < r {
      HalfUnitsMono(other, r - 1);
      HalfUnitsMono(r - 1, r);
      Scaled(HalfUnits(other), HalfUnits(r - 1), HalfUnits(r), k);
    } else {
      HalfUnitsMono(r, r + 1);
      HalfUnitsMono(r + 1, other);
      Scaled(HalfUnits(r), HalfUnits(r + 1), HalfUnits(other), k);
    }
  }

  lemma Scaled(a: nat, b: nat, c: nat, k: nat)
    requires a <= b <= c && k > 0
    ensures a * k <= b * k <= c * k && (a < b ==> a * k < b * k) && (b < c ==> b * k < c * k)
    ensures (a + b) * k == a * k + b * k && (b + c) * k == b * k + c * k
  {
    MulMono(a, b, k);
    MulMono(b, c, k);
    Distribute(a, b, k);
    Distribute(b, c, k);
  }

  lemma MulMono(a: nat, b: nat, k: nat)
    requires a <= b && k > 0
    ensures a * k <= b * k && (a < b ==> a * k < b * k)
  {
    assert (b - a) * k == b * k - a * k;
    SmallMultiple(b - a, k);
  }

  lemma Distribute(a: int, b: int, k: int)
    ensures (a + b) * k == a * k + b * k
  {}

  lemma RoundsUnique(v: nat, k: nat, r: nat, s: nat)
    requires Rounds(v, k, r) && Rounds(v, k, s) && k > 0
    ensures r == s
  {
    hide Rounds, Distance;
    if r != s {
      RoundsInRange(v, k, r);
      RoundsInRange(v, k, s);
      RoundsIsNearest(v, k, r, s);
      RoundsIsNearest(v, k, s, r);
    }
  }

  lemma RoundsInRange(v: nat, k: nat, r: nat)
    requires Rounds(v, k, r)
    ensures r <= INF
  {}

  /** Infinity is the result from 65520 up. */
  lemma OverflowFrom65520(v: nat, k: nat, r: nat)
    requires Rounds(v, k, r) && k > 0
    ensures r == INF <==> v >= 65520 * 0x100_0000 * k
  {
    LargestHalf();
    hide HalfUnits;
    if r < INF {
      HalfUnitsMono(r, INF - 1);
      HalfUnitsMono(r + 1, INF);
      MulMono(HalfUnits(r) + HalfUnits(r + 1), 2 * 65520 * 0x100_0000, k);
    }
  }

  lemma LargestHalf()
    ensures HalfUnits(INF - 1) == 65504 * 0x100_0000 && HalfUnits(INF) == 65536 * 0x100_0000
  {
    WordSizes();
    Pow2Step(32);
    Pow2Step(31);
    Pow2Step(30);
    hide Pow2;
  }

  /** Cutting off and then adding the first bit cut off is rounding. */
  lemma CutAndRound(v: nat, k: nat, base: nat)
    requires k > 0 && base < INF && HalfUnits(base) * k <= v < HalfUnits(base + 1) * k
    ensures Rounds(v, k, if 2 * v >= (HalfUnits(base) + HalfUnits(base + 1)) * k then base + 1 else base)
  {
    hide HalfUnits;
    HalfUnitsMono(base, base + 1);
    if base > 0 {
      HalfUnitsMono(base - 1, base);
      Scaled(HalfUnits(base - 1), HalfUnits(base), HalfUnits(base + 1), k);
    } else {
      Scaled(HalfUnits(base), HalfUnits(base), HalfUnits(base + 1), k);
    }
    HalfUnitsMono(base + 1, base + 2);
    Scaled(HalfUnits(base), HalfUnits(base + 1), HalfUnits(base + 2), k);
  }

  /** A number rounds to itself. */
  lemma RoundsExactly(k: nat, m: nat)
    requires m <= INF && k > 0
    ensures Rounds(HalfUnits(m) * k, k, m)
  {
    hide HalfUnits;
    HalfUnitsMono(m, m + 1);
    if m > 0 {
      HalfUnitsMono(m - 1, m);
      Scaled(HalfUnits(m - 1), HalfUnits(m), HalfUnits(m + 1), k);
    } else {
      Scaled(HalfUnits(m), HalfUnits(m), HalfUnits(m + 1), k);
    }
  }

  // ---------------------------------------------------------------------
  // Cutting a significand

  /** `a >> s`. */
  function Shr(a: nat, s: nat): nat { Quotient(a, Pow2(s)) }

  function Quotient(a: nat, m: nat): nat
    requires m > 0
  {
    a / m
  }

  /** Shifts add up. */
  lemma ShiftTwice(a: nat, m: nat, n: nat)
    ensures Shr(Shr(a, m), n) == Shr(a, m + n)
  {
    hide Pow2;
    Pow2Add(m, n);
    NestedDivision(a, Pow2(m), Pow2(n));
  }

  lemma NestedDivision(a: nat, p: nat, q: nat)
    requires p > 0 && q > 0 && p * q > 0
    ensures a / p / q == a / (p * q)
  {
    var b, c := a / p, a / p / q;
    var r, t := a % p, a / p % q;
    DivMod(a, p);
    DivMod(b, q);
    Regroup(a, b, c, p, q, r, t);
    MulMono(t + 1, q, p);
    AddOne(t, p);
    ModUnique(a, p * q, c, t * p + r);
  }

  lemma Regroup(a: int, b: int, c: int, p: int, q: int, r: int, t: int)
    requires a == b * p + r && b == c * q + t
    ensures a == c * (p * q) + (t * p + r)
  {}

  /** Shifting a significand right by `s` and adding the last bit shifted out rounds it, if
      one unit of the quotient is one gap of binary16. */
  lemma CutSignificand(mant: nat, s: nat, u: nat, k: nat, base: nat)
    requires s > 0 && u > 0 && k > 0 && base < INF
    requires HalfUnits(base) * k == Shr(mant, s) * Pow2(s) * u
    requires HalfUnits(base + 1) * k == (Shr(mant, s) + 1) * Pow2(s) * u
    ensures Rounds(mant * u, k, base + Shr(mant, s - 1) % 2)
  {
    var a, b := Pow2(s - 1), Shr(mant, s - 1);
    ShiftTwice(mant, s - 1, 1);
    Pow2Step(s);
    assert Pow2(1) == 2;
    assert b == mant / a && Shr(mant, s) == b / 2;
    hide HalfUnits, Pow2, Shr;
    Halfway(mant, a, b, u);
    Distribute(HalfUnits(base), HalfUnits(base + 1), k);
    CutAndRound(mant * u, k, base);
  }

  lemma Halfway(mant: nat, a: nat, b: nat, u: nat)
    requires a > 0 && u > 0 && b == mant / a
    ensures var q := b / 2;
      && q * (2 * a) * u <= mant * u < (q + 1) * (2 * a) * u
      && (2 * (mant * u) >= q * (2 * a) * u + (q + 1) * (2 * a) * u <==> b % 2 == 1)
  {
    var q := b / 2;
    DivMod(mant, a);
    assert b * a <= mant < b * a + a;
    var lo, mid, hi := q * (2 * a), (2 * q + 1) * a, (q + 1) * (2 * a);
    Triple(q, a);
    assert b % 2 == 1 ==> b == 2 * q + 1;
    assert b % 2 == 0 ==> b == 2 * q;
    TripleTimes(q, a, u);
    MulMono(lo, mant, u);
    MulMono(mant, hi, u);
    if b % 2 == 1 { MulMono(mid, mant, u); } else { MulMono(mant, mid, u); }
  }

  lemma Triple(q: int, a: int)
    ensures q * (2 * a) == 2 * q * a && (2 * q + 1) * a == 2 * q * a + a && (q + 1) * (2 * a) == 2 * q * a + 2 * a
  {}

  lemma TripleTimes(q: int, a: int, u: int)
    ensures q * (2 * a) * u + (q + 1) * (2 * a) * u == 2 * ((2 * q + 1) * a * u)
  {}

  /** A significand with its leading bit at `p`, of a number that is normal in binary16. */
  lemma NormalCut(mant: nat, p: nat, c: nat, hes: nat)
    requires p > 10 && Pow2(p) <= mant < 2 * Pow2(p) && 1 <= hes <= 30
    ensures 0x400 <= Shr(mant, p - 10) < 0x800
    ensures Rounds(mant * Pow2(hes + c), Pow2(c + p - 9),
                   hes * 0x400 + Shr(mant, p - 10) - 0x400 + Shr(mant, p - 11) % 2)
  {
    var s, u, k := p - 10, Pow2(hes + c), Pow2(c + p - 9);
    var q := Shr(mant, s);
    LeadingBits(mant, p);
    var base := hes * 0x400 + q - 0x400;
    HalfUnitsStep(base);
    assert base / 0x400 == hes && base % 0x400 == q - 0x400;
    assert HalfUnits(base) == q * Pow2(hes - 1) && HalfUnits(base + 1) == q * Pow2(hes - 1) + Pow2(hes - 1);
    Pow2Add(hes - 1, c + p - 9);
    Pow2Add(s, hes + c);
    hide Pow2, HalfUnits, Gap;
    AddOne(q, Pow2(hes - 1));
    Exchange(q, Pow2(hes - 1), k, Pow2(s), u);
    Exchange(q + 1, Pow2(hes - 1), k, Pow2(s), u);
    CutSignificand(mant, s, u, k, base);
  }

  lemma Exchange(q: int, a: int, b: int, c: int, d: int)
    requires a * b == c * d
    ensures q * a * b == q * c * d
  {
    assert q * a * b == q * (a * b);
    assert q * c * d == q * (c * d);
  }

  lemma LeadingBits(mant: nat, p: nat)
    requires p > 10 && Pow2(p) <= mant < 2 * Pow2(p)
    ensures 0x400 <= Shr(mant, p - 10) < 0x800
  {
    hide Pow2;
    var a := Pow2(p - 10);
    Pow2Add(10, p - 10);
    Kilo();
    Below(mant, a, 0x800);
    DivMod(mant, a);
    var q := mant / a;
    if q < 0x400 { MulMono(q + 1, 0x400, a); AddOne(q, a); }
  }

  /** The same for a number below the normal range of binary16. */
  lemma DenormalCut(mant: nat, p: nat, c: nat, hes: int)
    requires p > 10 && mant < 2 * Pow2(p) && -(c as int) <= hes <= 0
    ensures Shr(mant, p - 9 - hes) < 0x400
    ensures Rounds(mant * Pow2(hes + c), Pow2(c + p - 9),
                   Shr(mant, p - 9 - hes) + Shr(mant, p - 10 - hes) % 2)
  {
    hide HalfUnits, Pow2, Gap, Shr;
    var s, u, k := p - 9 - hes, Pow2(hes + c), Pow2(c + p - 9);
    var q := Shr(mant, s);
    SmallQuotient(mant, p, s);
    SmallHalfUnits(q);
    Pow2Add(s, hes + c);
    Exchange(q, 1, k, Pow2(s), u);
    Exchange(q + 1, 1, k, Pow2(s), u);
    CutSignificand(mant, s, u, k, q);
  }

  lemma SmallHalfUnits(q: nat)
    requires q < 0x400
    ensures HalfUnits(q) == q && HalfUnits(q + 1) == q + 1
  {
    HalfUnitsStep(q);
  }

  lemma SmallQuotient(mant: nat, p: nat, s: nat)
    requires p > 10 && mant < 2 * Pow2(p) && s >= p - 9
    ensures Shr(mant, s) < 0x400
  {
    hide Pow2;
    var a := Pow2(s);
    Pow2Mono(p - 9, s);
    Pow2Add(10, p - 9);
    Kilo();
    Pow2Step(p + 1);
    Below(mant, a, 0x400);
  }

  lemma Kilo()
    ensures Pow2(10) == 0x400
  {
    Pow2Add(8, 2);
    WordSizes();
    assert Pow2(2) == 4;
  }

  lemma Below(m: nat, a: nat, n: nat)
    requires a > 0 && m < n * a
    ensures m / a < n
  {
    DivMod(m, a);
    Monotone(n, m / a, a);
  }

  lemma Monotone(x: nat, y: nat, a: nat)
    ensures x <= y ==> x * a <= y * a
  {
    if x <= y {
      assert (y - x) * a == y * a - x * a;
    }
  }

  /** A number from 2^16 up. */
  lemma OverflowCut(mant: nat, p: nat, c: nat, hes: nat)
    requires p > 10 && Pow2(p) <= mant && hes >= 31
    ensures Rounds(mant * Pow2(hes + c), Pow2(c + p - 9), INF)
  {
    hide Pow2, HalfUnits;
    var k := Pow2(c + p - 9);
    Pow2Add(p, 31 + c);
    Pow2Mono(31 + c, hes + c);
    Monotone(Pow2(p), mant, Pow2(31 + c));
    MulMono(Pow2(31 + c), Pow2(hes + c), mant);
    Pow2Add(40, c + p - 9);
    Pow2Add(32, 8);
    WordSizes();
    LargestHalf();
    Monotone(HalfUnits(INF - 1) + HalfUnits(INF), 2 * Pow2(40), k);
    assert 2 * Pow2(40) * k == 2 * (Pow2(40) * k);
  }

  lemma ShrZero(a: nat, s: nat)
    requires a < Pow2(s)
    ensures Shr(a, s) == 0
  {
    hide Pow2;
    Below(a, Pow2(s), 1);
  }

  // ---------------------------------------------------------------------
  // From binary64

  /** The units of a double in those of binary16. */
  const DOUBLE_SCALE := 1050
  const SINGLE_SCALE := 125

  /** The magnitude of a finite double, of high word `x` and low word `lo`, in units of 2^-1074. */
  function DoubleUnits(x: nat, lo: nat): nat {
    var e, f := x / 0x10_0000 % 0x800, x % 0x10_0000 * 0x1_0000_0000 + lo;
    if e == 0 then f else (0x10_0000_0000_0000 + f) * Pow2(e - 1)
  }

  /** `h` is the double converted: the same sign, and the magnitude rounded; an infinity
      stays one, and other patterns with all exponent bits set become the NaN 0xFE00. */
  predicate IsHalfOfDouble(x: nat, lo: nat, h: nat) {
    h < 0x1_0000 &&
    if x / 0x10_0000 % 0x800 == 0x7FF && x % 0x10_0000 != 0 then h == 0xFE00
    else
      && h / 0x8000 == x / 0x8000_0000
      && (x / 0x10_0000 % 0x800 == 0x7FF ==> h % 0x8000 == INF)
      && (x / 0x10_0000 % 0x800 < 0x7FF ==> Rounds(DoubleUnits(x, lo), Pow2(DOUBLE_SCALE), h % 0x8000))
  }

  /** What the branches of the conversions come to, for a normal number of magnitude `v`
      with the leading bits `top`, of which `n` are below those of binary16. */
  predicate BranchesOk(v: nat, k: nat, hes: int, top: nat, n: nat)
    requires n > 0
  {
    && (hes >= 31 ==> Rounds(v, k, INF))
    && (hes <= 0 ==>
          Shr(top, n + 1 - hes) < 0x400 && Rounds(v, k, Shr(top, n + 1 - hes) + Shr(top, n - hes) % 2))
    && (hes <= -11 ==> Shr(top, n + 1 - hes) == 0 && Shr(top, n - hes) == 0)
    && (1 <= hes <= 30 ==>
          0x400 <= Shr(top, n) < 0x800 && Rounds(v, k, hes * 0x400 + Shr(top, n) - 0x400 + Shr(top, n - 1) % 2))
  }

  lemma Branches(mant: nat, p: nat, c: nat, hes: int, w: nat, n: nat)
    requires n > 0 && p == n + w + 10 && Pow2(p) <= mant < 2 * Pow2(p) && hes + c >= 0
    ensures BranchesOk(mant * Pow2(hes + c), Pow2(c + p - 9), hes, Shr(mant, w), n)
  {
    hide Pow2, Rounds, Shr;
    if hes >= 31 {
      OverflowCut(mant, p, c, hes);
    } else if hes <= 0 {
      DenormalCut(mant, p, c, hes);
      ShiftTwice(mant, w, n + 1 - hes);
      ShiftTwice(mant, w, n - hes);
      if hes <= -11 { AllShiftedOut(mant, p, w, n, hes); }
    } else {
      NormalCut(mant, p, c, hes);
      ShiftTwice(mant, w, n);
      ShiftTwice(mant, w, n - 1);
    }
  }

  lemma AllShiftedOut(mant: nat, p: nat, w: nat, n: nat, hes: int)
    requires n > 0 && p == n + w + 10 && mant < 2 * Pow2(p) && hes <= -11
    ensures Shr(Shr(mant, w), n + 1 - hes) == 0 && Shr(Shr(mant, w), n - hes) == 0
  {
    hide Pow2, Shr;
    ShiftTwice(mant, w, n + 1 - hes);
    ShiftTwice(mant, w, n - hes);
    Pow2Step(p + 1);
    Pow2Mono(p + 1, w + (n - hes));
    Pow2Mono(p + 1, w + (n + 1 - hes));
    ShrZero(mant, w + (n - hes));
    ShrZero(mant, w + (n + 1 - hes));
  }

  lemma SomePowers()
    ensures Pow2(10) == 0x400 && Pow2(9) == 0x200 && Pow2(13) == 0x2000 && Pow2(12) == 0x1000
    ensures Pow2(23) == 0x80_0000 && Pow2(32) == 0x1_0000_0000 && Pow2(52) == 0x10_0000_0000_0000
    ensures Pow2(0) == 1
  {
    hide Pow2;
    WordSizes();
    Kilo();
    Pow2Step(10);
    Pow2Step(13);
    Pow2Add(10, 13);
    Pow2Add(10, 2);
    Pow2Add(48, 4);
    SmallPowers();
  }

  lemma SmallPowers()
    ensures Pow2(0) == 1 && Pow2(2) == 4 && Pow2(4) == 16
  {}

  lemma DoubleTiny(x: nat, lo: nat)
    requires lo < 0x1_0000_0000 && x / 0x10_0000 % 0x800 == 0
    ensures Rounds(DoubleUnits(x, lo), Pow2(DOUBLE_SCALE), 0)
  {
    hide Pow2;
    WordSizes();
    Pow2Mono(64, DOUBLE_SCALE);
    SmallHalfUnits(0);
    hide HalfUnits;
  }

  /** The branches for normal doubles: the code looks at the first 21 bits of 53. */
  lemma DoubleBranches(x: nat, lo: nat)
    requires lo < 0x1_0000_0000 && 1 <= x / 0x10_0000 % 0x800
    ensures BranchesOk(DoubleUnits(x, lo), Pow2(DOUBLE_SCALE), x / 0x10_0000 % 0x800 - 1008, x % 0x10_0000 + 0x10_0000, 10)
  {
    hide Pow2, BranchesOk;
    SomePowers();
    var e, xm := x / 0x10_0000 % 0x800, x % 0x10_0000;
    var mant := 0x10_0000_0000_0000 + (xm * 0x1_0000_0000 + lo);
    assert Shr(mant, 32) == xm + 0x10_0000;
    Branches(mant, 52, 1007, e - 1008, 32, 10);
  }

  lemma DoubleTop(xm: nat)
    ensures Shr(xm + 0x10_0000, 10) == 0x400 + xm / 0x400 && Shr(xm + 0x10_0000, 9) % 2 == xm / 0x200 % 2
  {
    hide Pow2;
    SomePowers();
  }

  /** A sign and a magnitude make up a result. */
  lemma DoubleResult(x: nat, lo: nat, r: nat)
    requires x < 0x1_0000_0000 && x / 0x10_0000 % 0x800 < 0x7FF && r <= INF
    requires Rounds(DoubleUnits(x, lo), Pow2(DOUBLE_SCALE), r)
    ensures IsHalfOfDouble(x, lo, x / 0x8000_0000 * 0x8000 + r)
  {
    hide Rounds, DoubleUnits, Pow2;
  }

  lemma DoubleSpecial(x: nat, lo: nat)
    requires x < 0x1_0000_0000 && x / 0x10_0000 % 0x800 == 0x7FF
    ensures IsHalfOfDouble(x, lo, if x % 0x10_0000 == 0 then x / 0x8000_0000 * 0x8000 + INF else 0xFE00)
  {
    hide Rounds, DoubleUnits, Pow2;
  }

  /** Converts a double by its high word; `lo` is the rest of it. */
  method HalfFromDouble(x: nat, ghost lo: nat) returns (h: nat)
    requires x < 0x1_0000_0000 && lo < 0x1_0000_0000
    ensures IsHalfOfDouble(x, lo, h)
  {
    hide Pow2, Rounds, Shr, DoubleUnits, IsHalfOfDouble;
    // The sign where it is in the result, the exponent field and the mantissa.
    var hs, xe, xm := x / 0x8000_0000 * 0x8000, x / 0x10_0000 % 0x800, x % 0x10_0000;
    if xe == 0 {
      DoubleTiny(x, lo);
      DoubleResult(x, lo, 0);
      if x % 0x8000_0000 == 0 {
        return x / 0x1_0000;
      }
      return hs;
    } else if xe == 0x7FF {
      DoubleSpecial(x, lo);
      if xm == 0 {
        return hs + 0x7C00;
      } else {
        return 0xFE00;
      }
    }
    var hes := xe - 1023 + 15;
    DoubleBranches(x, lo);
    DoubleTop(xm);
    ghost var r;
    if hes >= 0x1F {
      r := INF;
      h := hs + 0x7C00;
    } else if hes <= 0 {
      var hm: nat;
      r := Shr(xm + 0x10_0000, 11 - hes) + Shr(xm + 0x10_0000, 10 - hes) % 2;
      if 10 - hes > 21 {
        hm := 0;
      } else {
        xm := xm + 0x10_0000;
        hm := Shr(xm, 11 - hes);
        if Shr(xm, 10 - hes) % 2 == 1 {
          hm := hm + 1;
        }
      }
      h := hs + hm;
    } else {
      var he := hes * 0x400;
      var hm := xm / 0x400;
      r := he + hm + xm / 0x200 % 2;
      if xm / 0x200 % 2 == 1 {
        h := hs + he + hm + 1;
      } else {
        h := hs + he + hm;
      }
    }
    RoundsInRange(DoubleUnits(x, lo), Pow2(DOUBLE_SCALE), r);
    DoubleResult(x, lo, r);
  }

  // ---------------------------------------------------------------------
  // From binary32

  /** The magnitude of a finite single in units of 2^-149. */
  function SingleUnits(x: nat): nat {
    var e, f := x / 0x80_0000 % 0x100, x % 0x80_0000;
    if e == 0 then f else (0x80_0000 + f) * Pow2(e - 1)
  }

  /** The same for singles; a NaN keeps its high half word. */
  predicate IsHalfOfSingle(x: nat, h: nat) {
    h < 0x1_0000 &&
    if x / 0x80_0000 % 0x100 == 0xFF && x % 0x80_0000 != 0 then h == x / 0x1_0000
    else
      && h / 0x8000 == x / 0x8000_0000
      && (x / 0x80_0000 % 0x100 == 0xFF ==> h % 0x8000 == INF)
      && (x / 0x80_0000 % 0x100 < 0xFF ==> Rounds(SingleUnits(x), Pow2(SINGLE_SCALE), h % 0x8000))
  }

  lemma SingleTiny(x: nat)
    requires x / 0x80_0000 % 0x100 == 0
    ensures Rounds(SingleUnits(x), Pow2(SINGLE_SCALE), 0)
  {
    hide Pow2;
    WordSizes();
    Pow2Mono(64, SINGLE_SCALE);
    SmallHalfUnits(0);
    hide HalfUnits;
  }

  lemma SingleBranches(x: nat)
    requires 1 <= x / 0x80_0000 % 0x100
    ensures BranchesOk(SingleUnits(x), Pow2(SINGLE_SCALE), x / 0x80_0000 % 0x100 - 112, x % 0x80_0000 + 0x80_0000, 13)
  {
    hide Pow2, BranchesOk;
    SomePowers();
    var e, mant := x / 0x80_0000 % 0x100, 0x80_0000 + x % 0x80_0000;
    assert Shr(mant, 0) == mant;
    Branches(mant, 23, 111, e - 112, 0, 13);
  }

  lemma SingleTop(xm: nat)
    ensures Shr(xm + 0x80_0000, 13) == 0x400 + xm / 0x2000 && Shr(xm + 0x80_0000, 12) % 2 == xm / 0x1000 % 2
  {
    hide Pow2;
    SomePowers();
  }

  lemma SingleResult(x: nat, r: nat)
    requires x < 0x1_0000_0000 && x / 0x80_0000 % 0x100 < 0xFF && r <= INF
    requires Rounds(SingleUnits(x), Pow2(SINGLE_SCALE), r)
    ensures IsHalfOfSingle(x, x / 0x8000_0000 * 0x8000 + r)
  {
    hide Rounds, SingleUnits, Pow2;
  }

  lemma SingleSpecial(x: nat)
    requires x < 0x1_0000_0000 && x / 0x80_0000 % 0x100 == 0xFF
    ensures IsHalfOfSingle(x, if x % 0x80_0000 == 0 then x / 0x8000_0000 * 0x8000 + INF else x / 0x1_0000)
  {
    hide Rounds, SingleUnits, Pow2;
  }

  method HalfFromSingle(x: nat) returns (h: nat)
    requires x < 0x1_0000_0000
    ensures IsHalfOfSingle(x, h)
  {
    hide Pow2, Rounds, Shr, SingleUnits, IsHalfOfSingle;
    var hs, xe, xm := x / 0x8000_0000 * 0x8000, x / 0x80_0000 % 0x100, x % 0x80_0000;
    if xe == 0 {
      SingleTiny(x);
      SingleResult(x, 0);
      if x % 0x8000_0000 == 0 {
        return x / 0x1_0000;
      }
      return hs;
    } else if xe == 0xFF {
      SingleSpecial(x);
      if xm == 0 {
        return hs + 0x7C00;
      } else {
        return x / 0x1_0000;
      }
    }
    var hes := xe - 127 + 15;
    SingleBranches(x);
    SingleTop(xm);
    ghost var r;
    if hes >= 0x1F {
      r := INF;
      h := hs + 0x7C00;
    } else if hes <= 0 {
      var hm: nat;
      r := Shr(xm + 0x80_0000, 14 - hes) + Shr(xm + 0x80_0000, 13 - hes) % 2;
      if 14 - hes > 24 {
        hm := 0;
      } else {
        xm := xm + 0x80_0000;
        hm := Shr(xm, 14 - hes);
        if Shr(xm, 13 - hes) % 2 == 1 {
          hm := hm + 1;
        }
      }
      h := hs + hm;
    } else {
      var he := hes * 0x400;
      var hm := xm / 0x2000;
      r := he + hm + xm / 0x1000 % 2;
      if xm / 0x1000 % 2 == 1 {
        h := hs + he + hm + 1;
      } else {
        h := hs + he + hm;
      }
    }
    RoundsInRange(SingleUnits(x), Pow2(SINGLE_SCALE), r);
    SingleResult(x, r);
  }

  // ---------------------------------------------------------------------
  // To binary32

  /** `x` has the same sign and exactly the same magnitude; patterns above infinity are
      only shifted. */
  predicate IsSingleOfHalf(h: nat, x: nat) {
    && x < 0x1_0000_0000
    && (h % 0x8000 <= INF ==> x / 0x8000_0000 == h / 0x8000)
    && (h % 0x8000 < INF ==>
          x / 0x80_0000 % 0x100 < 0xFF && SingleUnits(x) == HalfUnits(h % 0x8000) * Pow2(SINGLE_SCALE))
    && (h % 0x8000 == INF ==> x % 0x8000_0000 == 0x7F80_0000)
    && (h % 0x8000 > INF ==> x == h * 0x1_0000)
  }

  /** Sign, exponent and mantissa put together. */
  lemma SingleParts(sign: nat, e: nat, xm: nat)
    requires sign < 2 && 1 <= e < 0xFF && xm < 0x80_0000
    ensures var x := sign * 0x8000_0000 + e * 0x80_0000 + xm;
      && x < 0x1_0000_0000 && x / 0x8000_0000 == sign && x / 0x80_0000 % 0x100 == e
      && SingleUnits(x) == NormalUnits(e, xm)
  {
    hide Pow2;
    var x := sign * 0x8000_0000 + e * 0x80_0000 + xm;
    assert x / 0x80_0000 == sign * 0x100 + e && x % 0x80_0000 == xm;
  }

  /** The magnitude of a normal single. */
  function NormalUnits(e: nat, xm: nat): nat
    requires e > 0
  {
    (0x80_0000 + xm) * Pow2(e - 1)
  }

  lemma NormalWidens(h: nat)
    requires 0x400 <= h % 0x8000 < INF
    ensures NormalUnits(h / 0x400 % 0x20 + 112, h % 0x400 * 0x2000) == HalfUnits(h % 0x8000) * Pow2(SINGLE_SCALE)
  {
    hide Pow2, HalfUnits, NormalUnits;
    HalfFields(h);
    NormalUnitsOfHalf(h % 0x8000);
  }

  lemma HalfFields(h: nat)
    ensures h % 0x8000 % 0x400 == h % 0x400 && h % 0x8000 / 0x400 == h / 0x400 % 0x20
  {
    assert h == h / 0x8000 * 0x8000 + h % 0x8000;
    assert h / 0x400 == h / 0x8000 * 0x20 + h % 0x8000 / 0x400;
  }

  lemma NormalUnitsOfHalf(m: nat)
    requires 0x400 <= m < INF
    ensures NormalUnits(m / 0x400 + 112, m % 0x400 * 0x2000) == HalfUnits(m) * Pow2(SINGLE_SCALE)
  {
    hide Pow2;
    SomePowers();
    var q, he := 0x400 + m % 0x400, m / 0x400;
    Pow2Add(13, he + 111);
    Pow2Add(he - 1, 125);
    Exchange(q, 0x2000, Pow2(he + 111), Pow2(he - 1), Pow2(125));
  }

  /** `m << e`. */
  function Shl(m: nat, e: nat): nat { m * Pow2(e) }

  /** A denormal shifted left until its leading bit is at 10. */
  lemma DenormalWidens(m: nat, hm: nat, e: nat)
    requires 0 < m < 0x400 <= hm && e <= 9 && hm == Shl(m, e + 1)
    ensures NormalUnits(112 - e, (hm - 0x400) * 0x2000) == HalfUnits(m) * Pow2(SINGLE_SCALE)
  {
    hide Pow2;
    SomePowers();
    Pow2Add(13, 111 - e);
    Pow2Add(e + 1, 124 - e);
    assert hm * 0x2000 * Pow2(111 - e) == hm * Pow2(124 - e) by { Exchange(hm, 0x2000, Pow2(111 - e), 1, Pow2(124 - e)); }
    Exchange(m, Pow2(e + 1), Pow2(124 - e), 1, Pow2(125));
    SmallHalfUnits(m);
  }

  lemma ShiftLeft(m: nat, e: nat)
    ensures Shl(m, e) * 2 == Shl(m, e + 1)
  {
    Pow2Step(e + 1);
    hide Pow2;
    Exchange(m, Pow2(e), 2, 1, Pow2(e + 1));
  }

  lemma ShiftBound(m: nat, e: nat)
    requires m > 0 && Shl(m, e) < 0x400
    ensures e < 10
  {
    hide Pow2;
    if e >= 10 {
      Pow2Mono(10, e);
      SomePowers();
      Monotone(1, m, Pow2(e));
    }
  }

  lemma HalfSpecial(h: nat)
    requires h < 0x1_0000
    ensures h % 0x8000 == 0 ==> IsSingleOfHalf(h, h * 0x1_0000)
    ensures h % 0x8000 == INF ==> IsSingleOfHalf(h, h / 0x8000 * 0x8000_0000 + 0x7F80_0000)
    ensures h % 0x8000 > INF ==> IsSingleOfHalf(h, h * 0x1_0000)
  {
    hide Pow2;
    SmallHalfUnits(0);
    hide HalfUnits;
  }

  lemma SingleResultOf(h: nat, e: nat, xm: nat)
    requires h < 0x1_0000 && h % 0x8000 < INF && 1 <= e < 0xFF && xm < 0x80_0000
    requires NormalUnits(e, xm) == HalfUnits(h % 0x8000) * Pow2(SINGLE_SCALE)
    ensures IsSingleOfHalf(h, h / 0x8000 * 0x8000_0000 + e * 0x80_0000 + xm)
  {
    hide Pow2, HalfUnits, SingleUnits, NormalUnits;
    SingleParts(h / 0x8000, e, xm);
  }

  /** Shifts a denormal until its leading bit arrives in the exponent. */
  method ShiftUp(m: nat) returns (hm: nat, e: nat)
    requires 0 < m < 0x400
    ensures hm == Shl(m, e + 1) && 0x400 <= hm < 0x800 && e <= 9
  {
    hide Shl, Pow2;
    e := 0;
    FirstShift(m);
    hm := m * 2;
    while hm / 0x400 % 2 == 0
      invariant hm == Shl(m, e + 1) && hm < 0x800 && e < 10
      decreases 10 - e
    {
      ShiftBound(m, e + 1);
      ShiftLeft(m, e + 1);
      e := e + 1;
      hm := hm * 2;
    }
    ShiftAgain(m, e);
  }

  method SingleFromHalf(h: nat) returns (x: nat)
    requires h < 0x1_0000
    ensures IsSingleOfHalf(h, x)
  {
    hide Pow2, HalfUnits, SingleUnits, IsSingleOfHalf, Shl, NormalUnits;
    HalfSpecial(h);
    if h % 0x8000 == 0 {
      return h * 0x1_0000;
    }
    var hs, he, hm: nat := h / 0x8000 * 0x8000, h / 0x400 % 0x20 * 0x400, h % 0x400;
    var xs := hs * 0x1_0000;
    if he == 0 {
      var e;
      hm, e := ShiftUp(hm);
      var xes := he / 0x400 - 15 + 127 - e;
      DenormalWidens(h % 0x400, hm, e);
      SingleResultOf(h, xes, (hm - 0x400) * 0x2000);
      x := xs + xes * 0x80_0000 + hm % 0x400 * 0x2000;
    } else if he == 0x7C00 {
      if hm == 0 {
        x := hs * 0x1_0000 + 0x7F80_0000;
      } else {
        x := h * 0x1_0000;
      }
    } else {
      var xes := he / 0x400 - 15 + 127;
      NormalWidens(h);
      SingleResultOf(h, xes, hm * 0x2000);
      x := xs + xes * 0x80_0000 + hm * 0x2000;
    }
  }

  lemma FirstShift(m: nat)
    ensures m * 2 == Shl(m, 1)
  {
    assert Pow2(1) == 2;
  }

  lemma ShiftAgain(m: nat, e: nat)
    requires m > 0 && m < 0x400 && Shl(m, e + 1) < 0x800
    ensures e <= 9
  {
    hide Pow2;
    ShiftLeft(m, e);
    ShiftBound(m, e);
  }

  /** Widening a half and converting it back: the identity on all numbers and infinities,
      and on the patterns above 0x7F80. The other NaN patterns come back as infinities. */
  lemma ThereAndBack(h: nat, x: nat, g: nat)
    requires h < 0x1_0000 && IsSingleOfHalf(h, x) && IsHalfOfSingle(x, g)
    ensures g == h <==> h % 0x8000 <= INF || h % 0x8000 > 0x7F80
    ensures INF < h % 0x8000 <= 0x7F80 ==> g % 0x8000 == INF
  {
    hide Rounds, HalfUnits, SingleUnits, Pow2;
    var m := h % 0x8000;
    if m < INF {
      RoundsExactly(Pow2(SINGLE_SCALE), m);
      RoundsUnique(SingleUnits(x), Pow2(SINGLE_SCALE), m, g % 0x8000);
    } else if INF < m < 0x7F80 {
      NarrowNan(h);
      RoundsUnique(SingleUnits(x), Pow2(SINGLE_SCALE), INF, g % 0x8000);
    }
  }

  lemma NanExponent(h: nat)
    requires h < 0x1_0000 && INF < h % 0x8000 < 0x7F80
    ensures 0xF8 <= h * 0x1_0000 / 0x80_0000 % 0x100 < 0xFF
  {
    var q := h % 0x8000 / 0x80;
    assert h * 0x1_0000 / 0x80_0000 == h / 0x8000 * 0x100 + q;
  }

  lemma NarrowNan(h: nat)
    requires h < 0x1_0000 && INF < h % 0x8000 < 0x7F80
    ensures var x := h * 0x1_0000;
      && 0xF8 <= x / 0x80_0000 % 0x100 < 0xFF && Rounds(SingleUnits(x), Pow2(SINGLE_SCALE), INF)
  {
    hide Rounds, SingleUnits, Pow2, Shr;
    NanExponent(h);
    SingleBranches(h * 0x1_0000);
  }

  // ---------------------------------------------------------------------
  // Arrays

  method Singles2Halfp(target: array?<nat>, source: array?<nat>, numel: nat)
    requires source != null && target != null ==>
      source != target && numel <= source.Length && numel <= target.Length && forall i | 0 <= i < numel :: source[i] < 0x1_0000_0000
    modifies target
    ensures source != null && target != null ==>
      && (forall i | 0 <= i < numel :: IsHalfOfSingle(source[i], target[i]))
      && forall i | numel <= i < target.Length :: target[i] == old(target[i])
  {
    hide IsHalfOfSingle;
    if source == null || target == null {
      return;
    }
    var i := 0;
    while i < numel
      invariant i <= numel
      invariant forall j | 0 <= j < i :: IsHalfOfSingle(source[j], target[j])
      invariant forall j | numel <= j < target.Length :: target[j] == old(target[j])
    {
      target[i] := HalfFromSingle(source[i]);
      i := i + 1;
    }
  }

  /** `next` is the position of the high word of a double: 1 on little-endian machines. */
  method Doubles2Halfp(target: array?<nat>, source: array?<nat>, numel: nat, next: nat)
    requires next <= 1
    requires source != null && target != null ==>
      source != target && 2 * numel <= source.Length && numel <= target.Length
      && forall i | 0 <= i < 2 * numel :: source[i] < 0x1_0000_0000
    modifies target
    ensures source != null && target != null ==>
      && (forall i | 0 <= i < numel :: IsHalfOfDouble(source[2 * i + next], source[2 * i + 1 - next], target[i]))
      && forall i | numel <= i < target.Length :: target[i] == old(target[i])
  {
    hide IsHalfOfDouble;
    if source == null || target == null {
      return;
    }
    var i := 0;
    var xp := next;
    while i < numel
      invariant i <= numel && xp == 2 * i + next
      invariant forall j | 0 <= j < i :: IsHalfOfDouble(source[2 * j + next], source[2 * j + 1 - next], target[j])
      invariant forall j | numel <= j < target.Length :: target[j] == old(target[j])
    {
      target[i] := HalfFromDouble(source[xp], source[2 * i + 1 - next]);
      xp := xp + 2;
      i := i + 1;
    }
  }

  method Halfp2Singles(target: array?<nat>, source: array?<nat>, numel: nat)
    requires source != null && target != null ==>
      source != target && numel <= source.Length && numel <= target.Length && forall i | 0 <= i < numel :: source[i] < 0x1_0000
    modifies target
    ensures source != null && target != null ==>
      && (forall i | 0 <= i < numel :: IsSingleOfHalf(source[i], target[i]))
      && forall i | numel <= i < target.Length :: target[i] == old(target[i])
  {
    hide IsSingleOfHalf;
    if source == null || target == null {
      return;
    }
    var i := 0;
    while i < numel
      invariant i <= numel
      invariant forall j | 0 <= j < i :: IsSingleOfHalf(source[j], target[j])
      invariant forall j | numel <= j < target.Length :: target[j] == old(target[j])
    {
      target[i] := SingleFromHalf(source[i]);
      i := i + 1;
    }
  }
}
