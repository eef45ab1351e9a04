/** Bitwise operators of unsigned machine words, written out on the naturals.
    A word of `w` bits is a natural below `Pow2(w)`; `And`, `Or` and `Xor` work
    digit by digit, so none of them depends on the width. */
module Bits {

  function Pow2(n: nat): (p: nat)
    ensures p >= 1
  {
    if n == 0 then 1 else 2 * Pow2(n - 1)
  }

  function And(a: nat, b: nat): nat {
    if a == 0 || b == 0 then 0
    else 2 * And(a / 2, b / 2) + (if a % 2 == 1 && b % 2 == 1 then 1 else 0)
  }

  function Or(a: nat, b: nat): nat
    decreases a + b
  {
    if a == 0 then b else if b == 0 then a
    else 2 * Or(a / 2, b / 2) + (if a % 2 == 1 || b % 2 == 1 then 1 else 0)
  }

  function Xor(a: nat, b: nat): nat
    decreases a + b
  {
    if a == 0 then b else if b == 0 then a
    else 2 * Xor(a / 2, b / 2) + (a % 2 + b % 2) % 2
  }

  /** `~(2^k - 1)` in a word of `w` bits. */
  function HighMask(k: nat, w: nat): (m: nat)
    requires k <= w
  {
    Pow2Mono(k, w);
    Pow2(w) - Pow2(k)
  }

  /** The multiple of `2^k` at or below `a`. */
  function RoundDown(a: nat, k: nat): (r: nat)
    ensures r <= a < r + Pow2(k)
  {
    DropRemainder(a, Pow2(k));
    a - a % Pow2(k)
  }

  lemma RoundDownAligned(a: nat, k: nat)
    ensures RoundDown(a, k) % Pow2(k) == 0
  {
    DropRemainder(a, Pow2(k));
  }

  lemma DropRemainder(a: nat, m: nat)
    requires m > 0
    ensures a % m <= a < a - a % m + m && (a - a % m) % m == 0
  {
    DivMod(a, m);
    MulMod(a / m, m);
  }

  lemma Pow2Step(k: nat)
    requires k > 0
    ensures Pow2(k) == 2 * Pow2(k - 1)
  {}

  lemma DivMod(a: nat, m: nat)
    requires m > 0
    ensures a == a / m * m + a % m
    ensures a / m * m <= a < a / m * m + m
  {}

  lemma MulMod(q: int, m: nat)
    requires m > 0
    ensures (q * m) % m == 0
  {
    ModUnique(q * m, m, q, 0);
  }

  /** The quotient and remainder are unique. */
  lemma ModUnique(a: int, m: nat, q: int, r: int)
    requires m > 0 && a == q * m + r && 0 <= r < m
    ensures a % m == r && a / m == q
  {
    var d := a / m - q;
    assert a == a / m * m + a % m;
    assert d * m == r - a % m;
    SmallMultiple(d, m);
  }

  /** No multiple of `m` but zero lies strictly between `-m` and `m`. */
  lemma SmallMultiple(d: int, m: int)
    requires m > 0
    ensures d >= 1 ==> d * m >= m
    ensures d <= -1 ==> d * m <= -m
  {
    if d >= 1 {
      assert (d - 1) * m >= 0;
    } else if d <= -1 {
      assert (-d - 1) * m >= 0;
    }
  }

  lemma {:induction false} Pow2Mono(a: nat, b: nat)
    requires a <= b
    ensures Pow2(a) <= Pow2(b)
    ensures a < b ==> 2 * Pow2(a) <= Pow2(b)
  {
    if a < b {
      Pow2Mono(a, b - 1);
    }
  }

  lemma {:induction false} Pow2Add(a: nat, b: nat)
    ensures Pow2(a + b) == Pow2(a) * Pow2(b)
  {
    if a > 0 {
      Pow2Add(a - 1, b);
    }
  }

  /** Halving commutes with reduction modulo a power of two. */
  lemma HalfMod(a: nat, k: nat)
    requires k > 0
    ensures a % Pow2(k) == 2 * ((a / 2) % Pow2(k - 1)) + a % 2
  {
    var m := Pow2(k - 1);
    DivMod(a / 2, m);
    var q := a / 2 / m;
    assert a == q * (2 * m) + (2 * ((a / 2) % m) + a % 2);
    ModUnique(a, 2 * m, q, 2 * ((a / 2) % m) + a % 2);
  }

  /** Adding a multiple of the modulus changes nothing. */
  lemma CongIntro(a: int, b: int, q: int, m: nat)
    requires m > 0 && a == b + q * m
    ensures a % m == b % m
  {
    assert b == b / m * m + b % m;
    assert a == (b / m + q) * m + b % m;
    ModUnique(a, m, b / m + q, b % m);
  }

  /** Congruent numbers differ by a multiple of the modulus. */
  lemma CongElim(a: int, b: int, m: nat) returns (q: int)
    requires m > 0 && a % m == b % m
    ensures a == b + q * m
  {
    q := a / m - b / m;
    assert a == a / m * m + a % m;
    assert b == b / m * m + b % m;
  }

  /** Congruence modulo a power of two passes to every smaller power. */
  lemma CongLower(a: int, b: int, k: nat, w: nat)
    requires k <= w && a % Pow2(w) == b % Pow2(w)
    ensures a % Pow2(k) == b % Pow2(k)
  {
    Pow2Add(w - k, k);
    hide Pow2;
    CongDivisor(a, b, Pow2(k), Pow2(w - k));
  }

  lemma CongDivisor(a: int, b: int, m: nat, n: nat)
    requires m > 0 && n > 0 && n * m > 0 && a % (n * m) == b % (n * m)
    ensures a % m == b % m
  {
    var q := CongElim(a, b, n * m);
    assert q * (n * m) == (q * n) * m;
    CongIntro(a, b, q * n, m);
  }

  /** `a & (2^k - 1)` keeps the low `k` bits. */
  lemma {:induction false} AndLowMask(a: nat, k: nat)
    ensures And(a, Pow2(k) - 1) == a % Pow2(k)
  {
    if a == 0 || k == 0 {
      ModUnique(0, Pow2(k), 0, 0);
    } else {
      HalfMod(a, k);
      AndLowMask(a / 2, k - 1);
      Pow2Step(k);
      hide Pow2;
      assert (Pow2(k) - 1) / 2 == Pow2(k - 1) - 1;
    }
  }

  lemma AndAllBits(a: nat, w: nat)
    requires a < Pow2(w)
    ensures And(a, HighMask(0, w)) == a && a % Pow2(0) == 0
  {
    AndLowMask(a, w);
    ModUnique(a, Pow2(w), 0, a);
    ModUnique(a, 1, a, 0);
  }

  /** `a & ~(2^k - 1)` clears the low `k` bits. */
  lemma {:induction false} AndHighMask(a: nat, k: nat, w: nat)
    requires k <= w && a < Pow2(w)
    ensures And(a, HighMask(k, w)) == RoundDown(a, k) == a - a % Pow2(k)
  {
    hide Pow2, And;
    if k == 0 {
      AndAllBits(a, w);
    } else {
      HalfMod(a, k);
      Pow2Step(w);
      Pow2Step(k);
      AndHighMask(a / 2, k - 1, w - 1);
      AndDouble(a, HighMask(k - 1, w - 1));
    }
  }

  lemma AndDouble(a: nat, m: nat)
    ensures And(a, 2 * m) == 2 * And(a / 2, m)
  {}

  /** Two numbers without a common one bit combine by addition. */
  lemma {:induction false} OrDisjoint(a: nat, b: nat, k: nat)
    requires a % Pow2(k) == 0 && b < Pow2(k)
    ensures Or(a, b) == a + b
  {
    if k > 0 && a > 0 && b > 0 {
      HalfMod(a, k);
      OrDisjoint(a / 2, b / 2, k - 1);
    }
  }

  lemma {:induction false} OrSwap(a: nat, b: nat)
    ensures Or(a, b) == Or(b, a)
    decreases a + b
  {
    if a > 0 && b > 0 {
      OrSwap(a / 2, b / 2);
    }
  }

  /** `Xor`, one digit at a time. */
  lemma XorDigit(a: nat, b: nat)
    ensures Xor(a, b) == 2 * Xor(a / 2, b / 2) + (a % 2 + b % 2) % 2
  {}

  /** The low `k` bits. */
  function Low(a: nat, k: nat): nat { a % Pow2(k) }

  lemma LowHalf(a: nat, k: nat)
    requires k > 0
    ensures Low(a, k) / 2 == Low(a / 2, k - 1) && Low(a, k) % 2 == a % 2
  {
    HalfMod(a, k);
    hide Pow2;
  }

  lemma LowNone(a: nat)
    ensures Low(a, 0) == 0
  {
    assert Pow2(0) == 1;
  }

  /** `Xor` works on the low bits by themselves. */
  lemma {:induction false} XorLow(a: nat, b: nat, k: nat)
    ensures Low(Xor(a, b), k) == Xor(Low(a, k), Low(b, k))
  {
    hide Low, Xor, Pow2;
    if k == 0 {
      LowNone(a);
      LowNone(b);
      LowNone(Xor(a, b));
      XorDigit(0, 0);
    } else {
      XorLow(a / 2, b / 2, k - 1);
      LowHalf(a, k);
      LowHalf(b, k);
      LowHalf(Xor(a, b), k);
      XorDigit(a, b);
      XorDigit(Low(a, k), Low(b, k));
    }
  }

  /** Equal sums can change partners. */
  lemma {:induction false} XorSwap(a: nat, b: nat, c: nat, d: nat)
    ensures Xor(a, b) == Xor(c, d) <==> Xor(b, d) == Xor(a, c)
    decreases a + b + c + d
  {
    hide *;
    if a + b + c + d > 0 {
      XorSwap(a / 2, b / 2, c / 2, d / 2);
      XorDigit(a, b);
      XorDigit(c, d);
      XorDigit(b, d);
      XorDigit(a, c);
      EqualDigits(Xor(a / 2, b / 2), (a % 2 + b % 2) % 2, Xor(c / 2, d / 2), (c % 2 + d % 2) % 2);
      EqualDigits(Xor(b / 2, d / 2), (b % 2 + d % 2) % 2, Xor(a / 2, c / 2), (a % 2 + c % 2) % 2);
      SwapDigits(a % 2, b % 2, c % 2, d % 2);
    } else {
      assert a == b == c == d;
    }
  }

  lemma EqualDigits(x: nat, i: nat, y: nat, j: nat)
    requires i < 2 && j < 2
    ensures 2 * x + i == 2 * y + j <==> x == y && i == j
  {}

  lemma SwapDigits(a: nat, b: nat, c: nat, d: nat)
    requires a < 2 && b < 2 && c < 2 && d < 2
    ensures (a + b) % 2 == (c + d) % 2 <==> (b + d) % 2 == (a + c) % 2
  {}

  lemma {:induction false} XorZero(a: nat, b: nat)
    ensures Xor(a, b) == 0 <==> a == b
    decreases a + b
  {
    if a + b > 0 {
      hide Xor;
      XorZero(a / 2, b / 2);
      XorDigit(a, b);
    }
  }

  /** Equal sums with one equal part have the other part equal. */
  lemma XorCancel(a: nat, b: nat, x: nat)
    ensures Xor(x, a) == Xor(x, b) <==> a == b
    ensures Xor(a, x) == Xor(b, x) <==> a == b
  {
    hide *;
    XorSwap(x, a, x, b);
    XorSwap(a, x, b, x);
    XorZero(x, x);
    XorZero(a, b);
  }

  /** All numbers of `d` combined. */
  function Fold(d: seq<nat>): nat { if d == [] then 0 else Xor(Fold(d[..|d| - 1]), d[|d| - 1]) }

  /** Each of them counts. */
  lemma {:induction false} FoldCounts(c: seq<nat>, d: seq<nat>, j: nat)
    requires j < |c| == |d| && forall i | 0 <= i < |c| && i != j :: c[i] == d[i]
    ensures Fold(c) == Fold(d) <==> c[j] == d[j]
  {
    hide Xor;
    var n := |c| - 1;
    if j == n {
      assert c[..n] == d[..n];
      XorCancel(c[n], d[n], Fold(c[..n]));
    } else {
      FoldCounts(c[..n], d[..n], j);
      XorCancel(Fold(c[..n]), Fold(d[..n]), c[n]);
    }
  }

  lemma FoldFour(a: nat, b: nat, c: nat, d: nat)
    ensures Fold([a, b, c, d]) == Xor(Xor(Xor(a, b), c), d)
  {
    XorNothing(a);
    hide Xor;
    var s := [a, b, c, d];
    assert s[..3] == [a, b, c] && s[..3][..2] == [a, b] && s[..3][..2][..1] == [a] && s[..3][..2][..1][..0] == [];
    assert Fold([]) == 0;
    assert Fold([a]) == Xor(0, a);
    assert Fold([a, b]) == Xor(Fold([a]), b);
    assert Fold([a, b, c]) == Xor(Fold([a, b]), c);
  }

  lemma XorNothing(a: nat)
    ensures Xor(0, a) == a
  {}

  lemma XorTwelves(a: nat, b: nat)
    ensures Xor(a, b) % 0x1000 == Xor(a % 0x1000, b % 0x1000)
  {
    hide *;
    XorLow(a, b, 12);
    LowTwelve(a);
    LowTwelve(b);
    LowTwelve(Xor(a, b));
  }

  lemma LowTwelve(x: nat)
    ensures Low(x, 12) == x % 0x1000
  {
    WordSizes();
    hide Pow2;
  }

  lemma LowEleven(x: nat)
    ensures Low(x, 11) == x % 0x800
  {
    ElevenBits();
    hide Pow2;
  }

  lemma XorElevens(a: nat, b: nat)
    ensures Xor(a, b) % 0x800 == Xor(a % 0x800, b % 0x800)
  {
    hide *;
    XorLow(a, b, 11);
    LowEleven(a);
    LowEleven(b);
    LowEleven(Xor(a, b));
  }

  lemma ElevenBits()
    ensures Pow2(11) == 0x800
  {
    WordSizes();
    Pow2Step(12);
    hide Pow2;
  }

  /** The word sizes in use. */
  lemma {:induction false} WordSizes()
    ensures Pow2(8) == 0x100 && Pow2(12) == 0x1000 && Pow2(16) == 0x10000
    ensures Pow2(32) == 0x1_0000_0000 && Pow2(48) == 0x1_0000_0000_0000
    ensures Pow2(63) == 0x8000_0000_0000_0000 && Pow2(64) == 0x1_0000_0000_0000_0000
  {
    assert Pow2(4) == 16;
    Pow2Step(64);
    Pow2Add(4, 4);
    Pow2Add(8, 4);
    Pow2Add(8, 8);
    Pow2Add(16, 16);
    Pow2Add(32, 16);
    Pow2Add(32, 32);
    hide Pow2;
  }
}
